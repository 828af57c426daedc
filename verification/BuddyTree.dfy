/** The binary tree that malloc/buddy.c lays over its address range, without the memory:
    nodes, their ranges, and what a set of allocated nodes says about the rest of the tree. */
module BuddyTree {

  /** The k-th node of a bucket: bucket 0 is the whole range, bucket b has 2^b nodes. */
  datatype Node = Node(b: nat, k: nat)

  function Parent(v: Node): Node
    requires v.b > 0
  {
    Node(v.b - 1, v.k / 2)
  }

  function LeftChild(v: Node): Node { Node(v.b + 1, 2 * v.k) }

  function RightChild(v: Node): Node { Node(v.b + 1, 2 * v.k + 1) }

  function Buddy(v: Node): Node {
    Node(v.b, if v.k % 2 == 0 then v.k + 1 else v.k - 1)
  }

  /** The d-th ancestor's position within its bucket. */
  function Up(k: nat, d: nat): nat {
    if d == 0 then k else Up(k / 2, d - 1)
  }

  /** x is v or below v. */
  predicate Under(x: Node, v: Node) {
    v.b <= x.b && Up(x.k, x.b - v.b) == v.k
  }

  lemma UpStep(k: nat, d: nat)
    ensures Up(k, d + 1) == Up(k, d) / 2
  {
    if d > 0 { UpStep(k / 2, d - 1); }
  }

  lemma UpUp(k: nat, d: nat, e: nat)
    ensures Up(Up(k, d), e) == Up(k, d + e)
  {
    if d > 0 { UpUp(k / 2, d - 1, e); }
  }

  lemma UnderParent(x: Node, v: Node)
    requires v.b > 0 && Under(x, v)
    ensures Under(x, Parent(v))
  {
    UpStep(x.k, x.b - v.b);
  }

  lemma UnderItself(v: Node)
    ensures Under(v, v)
  {
  }

  lemma UnderTrans(x: Node, u: Node, v: Node)
    requires Under(x, u) && Under(u, v)
    ensures Under(x, v)
  {
    UpUp(x.k, x.b - u.b, u.b - v.b);
  }

  /** Two nodes above a common one are one above the other. */
  lemma UnderBoth(x: Node, u: Node, v: Node)
    requires Under(x, u) && Under(x, v) && v.b <= u.b
    ensures Under(u, v)
  {
    UpUp(x.k, x.b - u.b, u.b - v.b);
  }

  /** A node strictly below v is below exactly one child of v, and its parent is below v. */
  lemma UnderChild(x: Node, v: Node)
    requires Under(x, v) && x != v
    ensures v.b < x.b
    ensures Under(x, LeftChild(v)) != Under(x, RightChild(v))
    ensures Under(Parent(x), v)
  {
    UpStep(x.k, x.b - v.b - 1);
  }

  /** Nothing allocated in the subtree of v. */
  ghost predicate Clear(live: set<Node>, v: Node) {
    forall x :: x in live ==> !Under(x, v)
  }

  /** Allocated nodes lie under the root of bucket `limit`, none inside another, none below the last bucket. */
  ghost predicate Placed(live: set<Node>, limit: nat, last: nat) {
    && limit <= last
    && (forall x :: x in live ==> x.b <= last && Under(x, Node(limit, 0)))
    && (forall x, y :: x in live && y in live && Under(x, y) ==> x == y)
  }

  /** The free blocks that go with the allocated nodes: the root when all is clear, otherwise
      the clear nodes whose parent is neither clear nor allocated. */
  ghost predicate FreeNode(live: set<Node>, limit: nat, last: nat, v: Node) {
    && Clear(live, v)
    && limit <= v.b <= last
    && (if v.b == limit then v.k == 0 else Parent(v) !in live && !Clear(live, Parent(v)))
  }

  /** The "is split" bit that goes with the allocated nodes: exactly one child of v is clear.
      Above the parent of the root every bit is zero. */
  ghost predicate SplitBit(live: set<Node>, limit: nat, v: Node) {
    limit <= v.b + 1 && Clear(live, LeftChild(v)) != Clear(live, RightChild(v))
  }

  lemma ClearParts(live: set<Node>, v: Node)
    ensures Clear(live, v) <==> v !in live && Clear(live, LeftChild(v)) && Clear(live, RightChild(v))
  {
    assert Under(v, v);
    forall x | x in live && x != v
      ensures Under(x, v) <==> Under(x, LeftChild(v)) || Under(x, RightChild(v))
    {
      if Under(x, v) {
        UnderChild(x, v);
      }
      if Under(x, LeftChild(v)) {
        UnderParent(x, LeftChild(v));
      }
      if Under(x, RightChild(v)) {
        UnderParent(x, RightChild(v));
      }
    }
  }

  /** Free nodes and allocated nodes: none inside another. */
  lemma FreeApartFromLive(live: set<Node>, limit: nat, last: nat, v: Node, x: Node)
    requires Placed(live, limit, last) && FreeNode(live, limit, last, v) && x in live
    ensures !Under(x, v) && !Under(v, x)
  {
    if Under(v, x) {
      UnderChild(v, x);
      var p := Parent(v);
      var y :| y in live && Under(y, p);
      UnderTrans(y, p, x);
    }
  }

  lemma FreeApartFromFree(live: set<Node>, limit: nat, last: nat, u: Node, v: Node)
    requires Placed(live, limit, last) && FreeNode(live, limit, last, u) && FreeNode(live, limit, last, v) && u != v
    ensures !Under(u, v)
  {
    if Under(u, v) {
      UnderChild(u, v);
      var y :| y in live && Under(y, Parent(u));
      UnderTrans(y, Parent(u), v);
    }
  }

  lemma FreeUnderRoot(live: set<Node>, limit: nat, last: nat, v: Node)
    requires Placed(live, limit, last) && FreeNode(live, limit, last, v)
    ensures Under(v, Node(limit, 0))
  {
    if v.b > limit {
      var y :| y in live && Under(y, Parent(v));
      UnderBoth(y, Parent(v), Node(limit, 0));
      UpStep(v.k, v.b - limit - 1);
      UpUp(v.k, 1, v.b - limit - 1);
    }
  }

  /** Within the tree, allocating a free node changes what is clear at that node alone. */
  lemma TakeClear(live: set<Node>, limit: nat, last: nat, v: Node, u: Node)
    requires Placed(live, limit, last) && FreeNode(live, limit, last, v) && limit <= u.b
    ensures Clear(live + {v}, u) <==> Clear(live, u) && u != v
  {
    assert Under(v, v);
    if Under(v, u) && u != v {
      UnderChild(v, u);
      var y :| y in live && Under(y, Parent(v));
      UnderTrans(y, Parent(v), u);
    }
  }

  lemma TakeAt(live: set<Node>, limit: nat, last: nat, v: Node, u: Node)
    requires Placed(live, limit, last) && FreeNode(live, limit, last, v)
    ensures FreeNode(live + {v}, limit, last, u) <==> FreeNode(live, limit, last, u) && u != v
    ensures SplitBit(live + {v}, limit, u) <==> SplitBit(live, limit, u) != (v.b > 0 && u == Parent(v))
  {
    if limit <= u.b {
      TakeClear(live, limit, last, v, u);
    }
    if limit < u.b {
      TakeClear(live, limit, last, v, Parent(u));
    }
    if limit <= u.b + 1 {
      TakeClear(live, limit, last, v, LeftChild(u));
      TakeClear(live, limit, last, v, RightChild(u));
    }
  }

  /** Allocating a free node takes it off the free blocks and flips its parent's bit, nothing else.
      Read backwards: releasing a node whose buddy is in use. */
  lemma Take(live: set<Node>, limit: nat, last: nat, v: Node)
    requires Placed(live, limit, last) && FreeNode(live, limit, last, v)
    ensures v !in live && Placed(live + {v}, limit, last)
    ensures forall u :: FreeNode(live + {v}, limit, last, u) <==> FreeNode(live, limit, last, u) && u != v
    ensures forall u :: SplitBit(live + {v}, limit, u) <==> SplitBit(live, limit, u) != (v.b > 0 && u == Parent(v))
  {
    assert Under(v, v);
    forall x | x in live
      ensures !Under(x, v) && !Under(v, x)
    {
      FreeApartFromLive(live, limit, last, v, x);
    }
    FreeUnderRoot(live, limit, last, v);
    forall u
      ensures FreeNode(live + {v}, limit, last, u) <==> FreeNode(live, limit, last, u) && u != v
      ensures SplitBit(live + {v}, limit, u) <==> SplitBit(live, limit, u) != (v.b > 0 && u == Parent(v))
    {
      TakeAt(live, limit, last, v, u);
    }
  }

  /** The child of v on the given side. */
  function Child(v: Node, right: bool): Node { if right then RightChild(v) else LeftChild(v) }

  lemma UnderSelfOrParent(v: Node, right: bool, u: Node)
    ensures Under(Child(v, right), u) <==> u == Child(v, right) || Under(v, u)
    ensures Under(Child(v, right), v) && Parent(Child(v, right)) == v
  {
    var c := Child(v, right);
    assert Under(c, c) && Under(v, v);
    UnderParent(c, c);
    if Under(c, u) && u != c {
      UnderChild(c, u);
    }
    if Under(v, u) {
      UnderTrans(c, v, u);
    }
  }

  /** The node of bucket b at the left end of v. */
  function Leftmost(v: Node, b: nat): (u: Node)
    decreases b - v.b
    ensures u.b == if v.b <= b then b else v.b
  {
    if b <= v.b then v else Leftmost(LeftChild(v), b)
  }

  /** Shrinking an allocated node v to one of its children frees the other child and
      flips the bit of v, nothing else.  Read backwards: merging a node with its free buddy. */
  lemma Split(others: set<Node>, limit: nat, last: nat, v: Node, right: bool)
    requires v !in others && Placed(others + {v}, limit, last) && v.b < last
    ensures Child(v, right) !in others && Placed(others + {Child(v, right)}, limit, last)
    ensures forall u :: FreeNode(others + {Child(v, right)}, limit, last, u) <==>
                        FreeNode(others + {v}, limit, last, u) || u == Child(v, !right)
    ensures !FreeNode(others + {v}, limit, last, Child(v, !right))
    ensures forall u :: SplitBit(others + {Child(v, right)}, limit, u) <==> SplitBit(others + {v}, limit, u) != (u == v)
  {
    var c, d := Child(v, right), Child(v, !right);
    var live, live' := others + {v}, others + {c};
    assert Under(v, v) && Under(c, c);
    UnderSelfOrParent(v, right, Node(limit, 0));
    UnderSelfOrParent(v, right, v);
    UnderSelfOrParent(v, !right, v);
    forall x | x in others
      ensures !Under(x, c) && !Under(x, d) && !Under(c, x) && !Under(d, x)
    {
      UnderSelfOrParent(v, right, x);
      UnderSelfOrParent(v, !right, x);
      if Under(x, c) { UnderTrans(x, c, v); }
      if Under(x, d) { UnderTrans(x, d, v); }
      assert Under(x, x);
    }
    forall u
      ensures Clear(live', u) <==> Clear(live, u) && u != c
    {
      UnderSelfOrParent(v, right, u);
    }
  }

  lemma FreeBucket(nodes: set<Node>, limit: nat, last: nat, v: Node)
    requires FreeNode(nodes, limit, last, v)
    ensures limit <= v.b <= last
  {
  }

  lemma BuddyOf(v: Node)
    requires v.b > 0
    ensures v == Child(Parent(v), v.k % 2 == 1) && Buddy(v) == Child(Parent(v), v.k % 2 != 1)
  {
  }

  /** What releasing node v comes to.  At the root: the whole tree is free.  Below it: the parent's bit says whether
      the buddy is clear; if it is not, v is a free node once released, and if it is, the buddy is a free node now. */
  lemma Release(others: set<Node>, limit: nat, last: nat, v: Node)
    requires v !in others && Placed(others + {v}, limit, last)
    ensures limit <= v.b <= last && Placed(others, limit, last)
    ensures v.b == limit ==> others == {} && FreeNode(others, limit, last, v)
    ensures v.b > limit ==>
      (if SplitBit(others + {v}, limit, Parent(v)) then FreeNode(others + {v}, limit, last, Buddy(v))
       else FreeNode(others, limit, last, v))
  {
    assert Under(v, v);
    if v.b == limit {
      forall x | x in others + {v}
        ensures x == v
      {
        assert Under(x, v);
      }
      assert others == {};
    } else {
      BuddyOf(v);
      var p, d := Parent(v), Buddy(v);
      UnderParent(v, v);
      ClearParts(others + {v}, p);
      ClearParts(others, p);
      assert p !in others;
      forall x | x in others
        ensures !Under(x, v)
      {
        assert x in others + {v};
      }
      assert !Under(v, d);
    }
  }

  /** Merging the released node v with its free buddy, both ways round. */
  lemma Merged(others: set<Node>, limit: nat, last: nat, v: Node)
    requires v !in others && Placed(others + {v}, limit, last) && limit < v.b
    requires FreeNode(others + {v}, limit, last, Buddy(v))
    ensures Parent(v) !in others && Placed(others + {Parent(v)}, limit, last)
    ensures forall u :: FreeNode(others + {Parent(v)}, limit, last, u) <==> FreeNode(others + {v}, limit, last, u) && u != Buddy(v)
    ensures forall u :: SplitBit(others + {v}, limit, u) <==>
            SplitBit(others + {Parent(v)}, limit, u) != (u == Parent(v))
  {
    BuddyOf(v);
    MergedPlaced(others, limit, last, v);
    Split(others, limit, last, Parent(v), v.k % 2 == 1);
  }

  lemma MergedPlaced(others: set<Node>, limit: nat, last: nat, v: Node)
    requires v !in others && Placed(others + {v}, limit, last) && limit < v.b
    requires FreeNode(others + {v}, limit, last, Buddy(v))
    ensures Parent(v) !in others && Placed(others + {Parent(v)}, limit, last)
  {
    var p, d, root := Parent(v), Buddy(v), Node(limit, 0);
    BuddyOf(v);
    assert Under(v, v) && Under(p, p);
    UnderParent(v, v);
    UnderBoth(v, p, root);
    assert p !in others + {v};
    forall x | x in others
      ensures !Under(x, p) && !Under(p, x)
    {
      assert x in others + {v} && !Under(x, v) && !Under(v, x) && !Under(x, d);
      if Under(x, p) {
        UnderChild(x, p);
      }
      if Under(p, x) {
        UnderTrans(v, p, x);
      }
    }
  }

  /** Doubling a tree in which nothing is allocated: the one free block is the new root. */
  lemma GrowClear(limit: nat, last: nat)
    requires limit <= last
    ensures forall u :: FreeNode({}, limit, last, u) <==> u == Node(limit, 0)
    ensures forall u :: !SplitBit({}, limit, u)
  {
  }

  /** Doubling a tree that is in use: the right half is a new free block and the bit above
      the new root is set, nothing else. */
  lemma GrowUsed(live: set<Node>, limit: nat, last: nat)
    requires Placed(live, limit, last) && 0 < limit && live != {}
    ensures Placed(live, limit - 1, last)
    ensures forall u :: FreeNode(live, limit - 1, last, u) <==> FreeNode(live, limit, last, u) || u == Node(limit, 1)
    ensures !FreeNode(live, limit, last, Node(limit, 1))
    ensures forall u :: SplitBit(live, limit - 1, u) <==> SplitBit(live, limit, u) || (limit >= 2 && u == Node(limit - 2, 0))
    ensures limit >= 2 ==> !SplitBit(live, limit, Node(limit - 2, 0))
  {
    forall u: Node | u.b <= limit
      ensures Clear(live, u) <==> u.k != 0
    {
      ClearFromRootUp(live, limit, last, u);
    }
    forall x | x in live
      ensures Under(x, Node(limit - 1, 0))
    {
      UpUp(x.k, x.b - limit, 1);
    }
    forall u: Node
      ensures FreeNode(live, limit - 1, last, u) <==> FreeNode(live, limit, last, u) || u == Node(limit, 1)
    {
      if u.b == limit {
        assert Parent(u) !in live;
      }
    }
    forall u: Node
      ensures SplitBit(live, limit - 1, u) <==> SplitBit(live, limit, u) || (limit >= 2 && u == Node(limit - 2, 0))
    {
    }
  }

  /** At the level of the root and above it, what holds the root is not clear and the rest is. */
  lemma ClearFromRootUp(live: set<Node>, limit: nat, last: nat, u: Node)
    requires Placed(live, limit, last) && live != {} && u.b <= limit
    ensures Clear(live, u) <==> u.k != 0
  {
    forall x | x in live
      ensures Under(x, u) <==> u.k == 0
    {
      UpUp(x.k, x.b - limit, limit - u.b);
      UpZero(limit - u.b);
    }
    var x :| x in live;
    assert Under(x, Node(u.b, 0)) <==> Under(x, Node(u.b, 0));
  }

  lemma UpZero(d: nat)
    ensures Up(0, d) == 0
  {
    if d > 0 { UpZero(d - 1); }
  }
}
