/** What the coherent states of malloc/buddy.c mean for addresses: tiling, maximality of free
    blocks, the meaning of the bits, independence of history, and the state after a balanced run. */
module BuddyTheorems {
  import opened Memlib
  import opened Links
  import opened Powers
  import opened BuddyTree
  import opened BuddyLayout
  import opened BitArray
  import opened BuddyState

  ghost predicate Disjoint(l: Layout, u: Node, v: Node)
    requires u.b <= l.maxLog && v.b <= l.maxLog
  {
    l.End(u) <= l.Addr(v) || l.End(v) <= l.Addr(u)
  }

  /** The range of u is within the range of v. */
  ghost predicate Within(l: Layout, u: Node, v: Node)
    requires u.b <= l.maxLog && v.b <= l.maxLog
  {
    l.Addr(v) <= l.Addr(u) && l.End(u) <= l.End(v)
  }

  /** No byte of v is allocated. */
  ghost predicate Vacant(l: Layout, nodes: set<Node>, v: Node)
    requires v.b <= l.maxLog
  {
    forall x :: x in nodes && x.b <= l.maxLog ==> Disjoint(l, x, v)
  }

  /** Ranges nest exactly as nodes do. */
  lemma RangesNest(l: Layout, u: Node, v: Node)
    requires u.b <= l.maxLog && v.b <= l.maxLog
    ensures Disjoint(l, u, v) <==> !Under(u, v) && !Under(v, u)
    ensures v.b <= u.b ==> (Within(l, u, v) <==> Under(u, v))
  {
    if Under(u, v) {
      l.RangeUnder(u, v);
    } else if Under(v, u) {
      l.RangeUnder(v, u);
    } else {
      l.RangeApart(u, v);
    }
  }

  /** v is a maximal vacant block of the tree rooted at bucket `limit`: vacant, and no larger block around it is. */
  ghost predicate MaximalVacant(l: Layout, limit: nat, nodes: set<Node>, v: Node)
    requires l.Valid() && limit <= l.Last()
  {
    && limit <= v.b <= l.Last() && Within(l, v, Node(limit, 0))
    && Vacant(l, nodes, v)
    && forall w: Node :: limit <= w.b < v.b && Within(l, v, w) ==> !Vacant(l, nodes, w)
  }

  /** The free blocks are exactly the maximal aligned power-of-two ranges disjoint from all allocated blocks. */
  lemma FreeIsMaximalVacant(l: Layout, limit: nat, nodes: set<Node>, v: Node)
    requires l.Valid() && Placed(nodes, limit, l.Last())
    ensures FreeNode(nodes, limit, l.Last(), v) <==> MaximalVacant(l, limit, nodes, v)
  {
    if FreeNode(nodes, limit, l.Last(), v) {
      FreeIsMaximal(l, limit, nodes, v);
    }
    if MaximalVacant(l, limit, nodes, v) {
      MaximalIsFree(l, limit, nodes, v);
    }
  }

  lemma FreeIsMaximal(l: Layout, limit: nat, nodes: set<Node>, v: Node)
    requires l.Valid() && Placed(nodes, limit, l.Last()) && FreeNode(nodes, limit, l.Last(), v)
    ensures MaximalVacant(l, limit, nodes, v)
  {
    FreeUnderRoot(nodes, limit, l.Last(), v);
    RangesNest(l, v, Node(limit, 0));
    forall x | x in nodes && x.b <= l.maxLog
      ensures Disjoint(l, x, v)
    {
      FreeApartFromLive(nodes, limit, l.Last(), v, x);
      RangesNest(l, x, v);
    }
    forall w: Node | limit <= w.b < v.b && Within(l, v, w)
      ensures !Vacant(l, nodes, w)
    {
      RangesNest(l, v, w);
      UnderChild(v, w);
      var y :| y in nodes && Under(y, Parent(v));
      UnderTrans(y, Parent(v), w);
      RangesNest(l, y, w);
    }
  }

  lemma MaximalIsFree(l: Layout, limit: nat, nodes: set<Node>, v: Node)
    requires l.Valid() && Placed(nodes, limit, l.Last()) && MaximalVacant(l, limit, nodes, v)
    ensures FreeNode(nodes, limit, l.Last(), v)
  {
    RangesNest(l, v, Node(limit, 0));
    VacantMeans(l, limit, nodes, v);
    if v.b > limit {
      var p := Parent(v);
      assert Under(v, v);
      UnderParent(v, v);
      RangesNest(l, v, p);
      assert !Vacant(l, nodes, p);
      VacantMeans(l, limit, nodes, p);
      var x :| x in nodes && (Under(x, p) || Under(p, x));
      if Under(p, x) {
        UnderTrans(v, p, x);
      }
    }
  }

  lemma VacantMeans(l: Layout, limit: nat, nodes: set<Node>, v: Node)
    requires l.Valid() && Placed(nodes, limit, l.Last()) && v.b <= l.maxLog
    ensures Vacant(l, nodes, v) <==> forall x :: x in nodes ==> !Under(x, v) && !Under(v, x)
  {
    forall x | x in nodes
      ensures Disjoint(l, x, v) <==> !Under(x, v) && !Under(v, x)
    {
      RangesNest(l, x, v);
    }
  }

  /** Allocated and free blocks, as nodes. */
  ghost predicate IsBlock(l: Layout, limit: nat, nodes: set<Node>, v: Node)
    requires l.Valid()
  {
    v in nodes || FreeNode(nodes, limit, l.Last(), v)
  }

  ghost predicate Holds(l: Layout, v: Node, a: int) {
    v.b <= l.maxLog && l.Addr(v) <= a < l.End(v)
  }

  /** Tiling: allocated and free blocks are aligned to their size, stay under the root, and do not overlap;
      every address under the root is in one of them. */
  lemma Tiling(l: Layout, limit: nat, nodes: set<Node>)
    requires l.Valid() && Placed(nodes, limit, l.Last())
    ensures forall v :: IsBlock(l, limit, nodes, v) ==>
      v.b <= l.Last() && Within(l, v, Node(limit, 0)) && l.Addr(v) == l.base + v.k * l.Size(v.b)
    ensures forall u, v :: IsBlock(l, limit, nodes, u) && IsBlock(l, limit, nodes, v) && u != v ==> Disjoint(l, u, v)
    ensures forall a :: Holds(l, Node(limit, 0), a) ==> exists v :: IsBlock(l, limit, nodes, v) && Holds(l, v, a)
  {
    hide Layout.Size, Layout.Addr, FreeNode, Disjoint, Within;
    forall v | IsBlock(l, limit, nodes, v)
      ensures v.b <= l.Last() && Within(l, v, Node(limit, 0)) && l.Addr(v) == l.base + v.k * l.Size(v.b)
    {
      BlockPlace(l, limit, nodes, v);
    }
    forall u, v | IsBlock(l, limit, nodes, u) && IsBlock(l, limit, nodes, v) && u != v
      ensures Disjoint(l, u, v)
    {
      BlocksApart(l, limit, nodes, u, v);
    }
    forall a | Holds(l, Node(limit, 0), a)
      ensures exists v :: IsBlock(l, limit, nodes, v) && Holds(l, v, a)
    {
      var v := BlockAt(l, limit, nodes, Node(limit, 0), a);
    }
  }

  lemma BlockPlace(l: Layout, limit: nat, nodes: set<Node>, v: Node)
    requires l.Valid() && Placed(nodes, limit, l.Last()) && IsBlock(l, limit, nodes, v)
    ensures v.b <= l.Last() && Within(l, v, Node(limit, 0)) && l.Addr(v) == l.base + v.k * l.Size(v.b)
  {
    if v !in nodes {
      FreeUnderRoot(nodes, limit, l.Last(), v);
    }
    RangesNest(l, v, Node(limit, 0));
  }

  lemma BlocksApart(l: Layout, limit: nat, nodes: set<Node>, u: Node, v: Node)
    requires l.Valid() && Placed(nodes, limit, l.Last())
    requires IsBlock(l, limit, nodes, u) && IsBlock(l, limit, nodes, v) && u != v
    ensures u.b <= l.Last() && v.b <= l.Last() && Disjoint(l, u, v)
  {
    if u in nodes && v !in nodes {
      FreeApartFromLive(nodes, limit, l.Last(), v, u);
    } else if u !in nodes && v in nodes {
      FreeApartFromLive(nodes, limit, l.Last(), u, v);
    } else if u !in nodes && v !in nodes {
      FreeApartFromFree(nodes, limit, l.Last(), u, v);
      FreeApartFromFree(nodes, limit, l.Last(), v, u);
    }
    RangesNest(l, u, v);
  }

  /** The block around an address, found by descending from a node that is not inside an allocated one. */
  lemma {:induction false} BlockAt(l: Layout, limit: nat, nodes: set<Node>, u: Node, a: int) returns (v: Node)
    requires l.Valid() && Placed(nodes, limit, l.Last()) && limit <= u.b <= l.Last()
    requires Holds(l, u, a)
    requires if u.b == limit then u.k == 0 else Parent(u) !in nodes && !Clear(nodes, Parent(u))
    ensures IsBlock(l, limit, nodes, v) && Holds(l, v, a)
    decreases l.Last() - u.b
  {
    if u in nodes || Clear(nodes, u) {
      return u;
    }
    hide Layout.Size, Layout.Addr;
    var x :| x in nodes && Under(x, u);
    UnderChild(x, u);
    l.Halves(u);
    var c := Child(u, l.End(LeftChild(u)) <= a);
    assert Parent(c) == u;
    v := BlockAt(l, limit, nodes, c, a);
  }

  /** The meaning of the bits.  Below the root: exactly one half is wholly vacant.  At the root's parent: the root
      is in use.  Above that: zero. */
  lemma BitMeaning(l: Layout, bits: seq<bv8>, limit: nat, free: FreeLists, nodes: set<Node>, v: Node)
    requires Indexed(l, limit, free, nodes) && Bitted(l, bits, limit, nodes)
    requires InBucket(v) && v.b < l.Last()
    ensures Index(v) < 8 * |bits|
    ensures limit <= v.b && Under(v, Node(limit, 0)) ==>
      (BitAt(bits, Index(v)) <==> Vacant(l, nodes, LeftChild(v)) != Vacant(l, nodes, RightChild(v)))
    ensures v.b + 1 == limit && v.k == 0 ==> (BitAt(bits, Index(v)) <==> nodes != {})
    ensures v.b + 1 < limit ==> !BitAt(bits, Index(v))
  {
    BittedAt(l, bits, limit, nodes, v);
    if limit <= v.b {
      ChildVacant(l, limit, nodes, v, false);
      ChildVacant(l, limit, nodes, v, true);
    } else if v.b + 1 == limit && v.k == 0 {
      RootBit(limit, l.Last(), nodes);
    }
  }

  /** A child is vacant when nothing in it is allocated, unless its parent is inside an allocated block. */
  lemma ChildVacant(l: Layout, limit: nat, nodes: set<Node>, v: Node, right: bool)
    requires l.Valid() && Placed(nodes, limit, l.Last()) && v.b < l.Last()
    ensures (exists x :: x in nodes && Under(v, x)) ==> Clear(nodes, Child(v, right)) && !Vacant(l, nodes, Child(v, right))
    ensures !(exists x :: x in nodes && Under(v, x)) ==>
            (Clear(nodes, Child(v, right)) <==> Vacant(l, nodes, Child(v, right)))
  {
    var c := Child(v, right);
    VacantMeans(l, limit, nodes, c);
    forall x | x in nodes
      ensures Under(c, x) <==> x == c || Under(v, x)
    {
      UnderSelfOrParent(v, right, x);
    }
    if x :| x in nodes && Under(v, x) {
      forall y | y in nodes
        ensures !Under(y, c)
      {
        UnderSelfOrParent(v, right, v);
        if Under(y, c) {
          UnderTrans(y, c, v);
          UnderTrans(y, v, x);
        }
      }
    }
  }

  /** No two buddies are both free. */
  lemma NoFreeBuddies(limit: nat, last: nat, nodes: set<Node>, v: Node)
    requires limit < v.b && FreeNode(nodes, limit, last, v)
    ensures !FreeNode(nodes, limit, last, Buddy(v))
  {
    BuddyOf(v);
    ClearParts(nodes, Parent(v));
  }

  /** History independence: allocated nodes and root fix the free blocks of every bucket and every bit. */
  lemma HistoryIndependence(l: Layout, limit: nat, nodes: set<Node>, m: Words, bits: seq<bv8>, free: FreeLists,
                            m': Words, bits': seq<bv8>, free': FreeLists)
    requires Ringed(l, m, limit, free) && Indexed(l, limit, free, nodes) && Bitted(l, bits, limit, nodes)
    requires Ringed(l, m', limit, free') && Indexed(l, limit, free', nodes) && Bitted(l, bits', limit, nodes)
    ensures forall b :: limit <= b <= l.Last() ==> multiset(free[b]) == multiset(free'[b])
    ensures forall v :: InBucket(v) && v.b < l.Last() && Index(v) < 8 * |bits| && Index(v) < 8 * |bits'| ==>
      (BitAt(bits, Index(v)) <==> BitAt(bits', Index(v)))
  {
    forall b | limit <= b <= l.Last()
      ensures multiset(free[b]) == multiset(free'[b])
    {
      ListDistinct(l, m, limit, free, b);
      ListDistinct(l, m', limit, free', b);
      SameMembers(free[b], free'[b]);
    }
  }

  lemma SameMembers(s: seq<nat>, t: seq<nat>)
    requires Distinct(s) && Distinct(t) && forall k: nat :: k in s <==> k in t
    ensures multiset(s) == multiset(t)
  {
    forall k: nat
      ensures multiset(s)[k] == multiset(t)[k]
    {
      CountDistinct(s, k);
      CountDistinct(t, k);
    }
  }

  lemma {:induction false} CountDistinct(s: seq<nat>, k: nat)
    requires Distinct(s)
    ensures multiset(s)[k] == if k in s then 1 else 0
  {
    if s != [] {
      var i := |s| - 1;
      CountDistinct(s[..i], k);
      assert s == s[..i] + [s[i]];
    }
  }

  /** After a balanced run: one free block, the root, and no bit set. */
  lemma BalancedState(l: Layout, m: Words, bits: seq<bv8>, limit: nat, free: FreeLists)
    requires Ringed(l, m, limit, free) && Indexed(l, limit, free, {}) && Bitted(l, bits, limit, {})
    ensures free[limit] == [0] && forall b :: limit < b <= l.Last() ==> free[b] == []
    ensures AllClear(l, bits)
  {
    ClearLists(l, m, limit, free);
    GrowClear(limit, l.Last());
  }

  /** The choice among the listed blocks is a smallest sufficient free block; there is none exactly when no free
      block is large enough. */
  lemma SufficientIsSmallest(l: Layout, limit: nat, free: FreeLists, nodes: set<Node>, b: nat)
    requires Indexed(l, limit, free, nodes) && b <= l.Last()
    ensures var c := Sufficient(limit, free, b);
      && (c.Block? ==> FreeNode(nodes, limit, l.Last(), c.v) && l.Size(b) <= l.Size(c.v.b))
      && (forall u :: FreeNode(nodes, limit, l.Last(), u) && u.b <= b ==> c.Block? && l.Size(c.v.b) <= l.Size(u.b))
  {
    NearestBucket(limit, free, b);
    var c := Sufficient(limit, free, b);
    if c.Block? {
      l.SizeMonotone(c.v.b, b);
    }
    forall u | FreeNode(nodes, limit, l.Last(), u) && u.b <= b
      ensures c.Block? && l.Size(c.v.b) <= l.Size(u.b)
    {
      assert u.k in free[u.b];
      l.SizeMonotone(u.b, c.v.b);
    }
  }

  /** What mm_malloc returns for a request: room for it, 8-aligned, inside the heap, apart from every other payload. */
  lemma PayloadSafety(l: Layout, m: Words, brk: int, limit: nat, free: FreeLists, live: map<Node, int>, v: Node)
    requires Indexed(l, limit, free, live.Keys) && Headed(l, m, brk, live) && v in live
    ensures v.b <= l.maxLog
    ensures var p := l.Addr(v) + HEADER_SIZE;
            p % 8 == 0 && l.base <= l.Addr(v) && p + live[v] <= l.End(v) <= brk
    ensures forall u :: u in live && u != v ==> u.b <= l.maxLog && Disjoint(l, u, v)
  {
    l.AddrAligned(v);
    SumOfEights(l.Addr(v), HEADER_SIZE);
    forall u | u in live && u != v
      ensures u.b <= l.maxLog && Disjoint(l, u, v)
    {
      BlocksApart(l, limit, live.Keys, u, v);
    }
  }

  /** Every free block's links and the whole of every allocated block lie below the break, although a block that is
      split reserves no more than half its size and one list entry. */
  lemma BackingMemory(l: Layout, m: Words, brk: int, limit: nat, free: FreeLists, live: map<Node, int>)
    requires Indexed(l, limit, free, live.Keys) && Headed(l, m, brk, live) && Backed(l, brk, limit, free)
    ensures forall v :: FreeNode(live.Keys, limit, l.Last(), v) ==> v.b <= l.Last() && l.Addr(v) + 8 <= brk
    ensures forall v :: v in live ==> v.b <= l.maxLog && l.End(v) <= brk
  {
    hide Layout.Addr, Layout.End;
    forall v | FreeNode(live.Keys, limit, l.Last(), v)
      ensures v.b <= l.Last() && l.Addr(v) + 8 <= brk
    {
      FreeBucket(live.Keys, limit, l.Last(), v);
      assert v.k in free[v.b] && v == Node(v.b, v.k);
    }
    forall v | v in live
      ensures v.b <= l.maxLog && l.End(v) <= brk
    {
      PayloadSafety(l, m, brk, limit, free, live, v);
    }
  }
}
