/** How the data structures of malloc/buddy.c - the rings of free blocks in memory and the
    bit array - answer to the set of allocated nodes, and what each list operation does to that. */
module BuddyState {
  import opened Memlib
  import opened Links
  import opened Sublists
  import opened Powers
  import opened BuddyTree
  import opened BuddyLayout
  import opened BitArray

  /** The free blocks of every bucket, as node positions in list order. */
  type FreeLists = seq<seq<nat>>

  function Addrs(l: Layout, b: nat, ks: seq<nat>): (s: seq<int>)
    requires b <= l.maxLog
    ensures |s| == |ks|
  {
    seq(|ks|, i requires 0 <= i < |ks| => l.Addr(Node(b, ks[i])))
  }

  lemma AddrsAppend(l: Layout, b: nat, ks: seq<nat>, k: nat)
    requires b <= l.maxLog
    ensures Addrs(l, b, ks + [k]) == Insert(Addrs(l, b, ks), |ks|, l.Addr(Node(b, k)))
    ensures l.Addr(Node(b, k)) in Addrs(l, b, ks + [k])
    ensures forall x :: x in Addrs(l, b, ks) ==> x in Addrs(l, b, ks + [k])
  {
    var s, t := Addrs(l, b, ks), Addrs(l, b, ks + [k]);
    forall i | 0 <= i < |ks|
      ensures t[i] == s[i]
    {
      assert (ks + [k])[i] == ks[i];
    }
    assert t[|ks|] == l.Addr(Node(b, k));
  }

  lemma AddrsDelete(l: Layout, b: nat, ks: seq<nat>, i: nat)
    requires b <= l.maxLog && i < |ks|
    ensures Addrs(l, b, ks[..i] + ks[i + 1..]) == Delete(Addrs(l, b, ks), i)
  {
    var js := ks[..i] + ks[i + 1..];
    var s, t := Addrs(l, b, ks), Addrs(l, b, js);
    forall j | 0 <= j < |js|
      ensures t[j] == s[if j < i then j else j + 1]
    {
      assert js[j] == ks[if j < i then j else j + 1];
    }
  }

  /** Every bucket from the root down has a ring of its free blocks. */
  ghost predicate Ringed(l: Layout, m: Words, limit: nat, free: FreeLists) {
    && l.Valid() && limit <= l.Last() && |free| == l.Last() + 1
    && (forall b :: limit <= b <= l.Last() ==> Ring(m, l.Head(b), Addrs(l, b, free[b])))
  }

  /** The lists hold exactly the free nodes that go with the allocated ones. */
  ghost predicate Indexed(l: Layout, limit: nat, free: FreeLists, nodes: set<Node>) {
    && l.Valid() && |free| == l.Last() + 1
    && Placed(nodes, limit, l.Last())
    && (forall b: nat, k: nat :: limit <= b <= l.Last() ==>
          (k in free[b] <==> FreeNode(nodes, limit, l.Last(), Node(b, k))))
  }

  /** The bits are exactly those that go with the allocated nodes. */
  ghost predicate Bitted(l: Layout, bits: seq<bv8>, limit: nat, nodes: set<Node>) {
    && l.Valid() && Pow2(l.Last()) <= 8 * |bits|
    && (forall v :: InBucket(v) && v.b < l.Last() && Index(v) < 8 * |bits| ==>
          (BitAt(bits, Index(v)) <==> SplitBit(nodes, limit, v)))
  }

  ghost predicate AllClear(l: Layout, bits: seq<bv8>)
    requires l.Valid()
  {
    forall v :: InBucket(v) && v.b < l.Last() && Index(v) < 8 * |bits| ==> !BitAt(bits, Index(v))
  }

  /** The links of every free block are backed by memory. */
  ghost predicate Backed(l: Layout, brk: int, limit: nat, free: FreeLists) {
    && l.Valid() && |free| == l.Last() + 1
    && (forall b: nat, k: nat :: limit <= b <= l.Last() && k in free[b] ==> l.Addr(Node(b, k)) + 8 <= brk)
  }

  const HEADER_SIZE := 8

  /** Every allocated block records the size asked for, is in the smallest bucket that holds
      that size and the header, and is backed by memory. */
  ghost predicate Headed(l: Layout, m: Words, brk: int, live: map<Node, int>) {
    && l.Valid()
    && (forall v :: v in live ==> 0 <= live[v] && l.Fits(live[v] + HEADER_SIZE, v.b))
    && (forall v :: v in live ==> At(m, l.Addr(v)) == live[v] && l.End(v) < brk)
  }

  /** x is a node of the ring of bucket b. */
  ghost predicate OnRing(l: Layout, free: FreeLists, b: nat, x: int) {
    l.Valid() && b <= l.Last() < |free| && (x == l.Head(b) || x in Addrs(l, b, free[b]))
  }

  lemma OnRingAddr(l: Layout, free: FreeLists, b: nat, x: int) returns (k: nat)
    requires OnRing(l, free, b, x) && x != l.Head(b)
    ensures k in free[b] && x == l.Addr(Node(b, k))
  {
    var i :| 0 <= i < |free[b]| && Addrs(l, b, free[b])[i] == x;
    k := free[b][i];
  }

  /** List nodes of different buckets are at different addresses. */
  lemma RingsApart(l: Layout, limit: nat, free: FreeLists, nodes: set<Node>, b: nat, x: int, c: nat, y: int)
    requires Indexed(l, limit, free, nodes) && limit <= b && limit <= c && b != c
    requires OnRing(l, free, b, x) && OnRing(l, free, c, y)
    ensures x != y && x % 8 == 0 && y % 8 == 0
  {
    RingNodePlace(l, limit, free, nodes, b, x);
    RingNodePlace(l, limit, free, nodes, c, y);
    if x != l.Head(b) && y != l.Head(c) {
      var j := OnRingAddr(l, free, b, x);
      var k := OnRingAddr(l, free, c, y);
      FreeApartFromFree(nodes, limit, l.Last(), Node(b, j), Node(c, k));
      FreeApartFromFree(nodes, limit, l.Last(), Node(c, k), Node(b, j));
      l.RangeApart(Node(b, j), Node(c, k));
    }
  }

  /** List heads are below the heap; free blocks are in it. */
  lemma RingNodePlace(l: Layout, limit: nat, free: FreeLists, nodes: set<Node>, b: nat, x: int)
    requires Indexed(l, limit, free, nodes) && limit <= b && OnRing(l, free, b, x)
    ensures x % 8 == 0
    ensures if x == l.Head(b) then 0 < x && x + 8 <= l.base else l.base <= x
    ensures x < l.base ==> x == l.Head(b)
  {
    if x != l.Head(b) {
      var k := OnRingAddr(l, free, b, x);
      l.AddrAligned(Node(b, k));
    } else {
      SumOfEights(l.table, 8 * b);
    }
  }

  /** The links of free blocks are outside every allocated block. */
  lemma RingApartFromLive(l: Layout, limit: nat, free: FreeLists, nodes: set<Node>, b: nat, x: int, v: Node)
    requires Indexed(l, limit, free, nodes) && limit <= b && OnRing(l, free, b, x) && v in nodes
    ensures x + 8 <= l.Addr(v) || l.End(v) <= x
  {
    RingNodePlace(l, limit, free, nodes, b, x);
    l.AddrAligned(v);
    if x != l.Head(b) {
      var k := OnRingAddr(l, free, b, x);
      FreeApartFromLive(nodes, limit, l.Last(), Node(b, k), v);
      l.RangeApart(Node(b, k), v);
      l.AddrAligned(Node(b, k));
    }
  }

  /** No word inside the given nodes differs. */
  ghost predicate Kept(l: Layout, m: Words, m': Words, nodes: set<Node>) {
    forall v, a :: v in nodes && v.b <= l.maxLog && l.Addr(v) <= a < l.End(v) ==> At(m', a) == At(m, a)
  }

  lemma KeptSame(l: Layout, m: Words, nodes: set<Node>)
    ensures Kept(l, m, m, nodes)
  {
  }

  lemma KeptNone(l: Layout, m: Words, m': Words, nodes: set<Node>)
    requires nodes == {}
    ensures Kept(l, m, m', nodes)
  {
  }

  lemma KeptTrans(l: Layout, m: Words, m': Words, m'': Words, nodes: set<Node>, more: set<Node>)
    requires Kept(l, m, m', nodes) && Kept(l, m', m'', more) && nodes <= more
    ensures Kept(l, m, m'', nodes)
  {
  }

  lemma KeptLess(l: Layout, m: Words, m': Words, nodes: set<Node>, fewer: set<Node>)
    requires Kept(l, m, m', nodes) && fewer <= nodes
    ensures Kept(l, m, m', fewer)
  {
  }

  lemma HeadedKept(l: Layout, m: Words, m': Words, brk: int, brk': int, live: map<Node, int>)
    requires Headed(l, m, brk, live) && Kept(l, m, m', live.Keys) && brk <= brk'
    ensures Headed(l, m', brk', live)
  {
  }

  lemma RingedBelow(l: Layout, m: Words, limit: nat, free: FreeLists, b: nat)
    requires Ringed(l, m, limit, free) && b < limit
    ensures Ringed(l, m, limit, free[b := []])
  {
  }

  lemma HeadedNone(l: Layout, m: Words, brk: int)
    requires l.Valid()
    ensures Headed(l, m, brk, map[])
  {
  }

  lemma HeadedMore(l: Layout, m: Words, brk: int, live: map<Node, int>, v: Node, request: int)
    requires Headed(l, m, brk, live) && 0 <= request && l.Fits(request + HEADER_SIZE, v.b)
    requires At(m, l.Addr(v)) == request && l.End(v) < brk
    ensures Headed(l, m, brk, live[v := request])
  {
  }

  lemma HeadedAt(l: Layout, m: Words, brk: int, limit: nat, free: FreeLists, live: map<Node, int>, v: Node)
    requires Headed(l, m, brk, live) && Indexed(l, limit, free, live.Keys) && v in live
    ensures limit <= v.b <= l.Last() && InBucket(v) && At(m, l.Addr(v)) == live[v]
    ensures 0 <= live[v] && l.Fits(live[v] + HEADER_SIZE, v.b) && l.Addr(v) + 8 <= brk
    ensures live[v] + HEADER_SIZE <= Pow2(l.maxLog)
  {
    l.AddrAligned(v);
    InBucketUp(v, Node(limit, 0));
    l.SizeMonotone(0, v.b);
  }

  lemma HeadedLess(l: Layout, m: Words, m': Words, brk: int, live: map<Node, int>, v: Node)
    requires Headed(l, m, brk, live) && Kept(l, m, m', (live - {v}).Keys)
    ensures Headed(l, m', brk, live - {v})
  {
  }

  lemma BackedMore(l: Layout, brk: int, brk': int, limit: nat, free: FreeLists)
    requires Backed(l, brk, limit, free) && brk <= brk'
    ensures Backed(l, brk', limit, free)
  {
  }

  /** m' differs from m at most in the links of three nodes of the ring of bucket b. */
  ghost predicate Relinked(l: Layout, m: Words, m': Words, limit: nat, free: FreeLists, nodes: set<Node>, b: nat,
                           p: int, x: int, q: int) {
    && Indexed(l, limit, free, nodes) && limit <= b
    && OnRing(l, free, b, p) && OnRing(l, free, b, x) && OnRing(l, free, b, q)
    && SameOutside(m, m', p, x, q)
  }

  /** Such writes leave the rings of the other buckets alone. */
  lemma OtherRing(l: Layout, m: Words, m': Words, limit: nat, free: FreeLists, nodes: set<Node>, b: nat, p: int,
                  x: int, q: int, c: nat)
    requires Relinked(l, m, m', limit, free, nodes, b, p, x, q)
    requires limit <= c <= l.Last() && c != b && Ring(m, l.Head(c), Addrs(l, c, free[c]))
    ensures Ring(m', l.Head(c), Addrs(l, c, free[c]))
  {
    forall y | OnRing(l, free, c, y)
      ensures Pred(m', y) == Pred(m, y) && Succ(m', y) == Succ(m, y)
    {
      RingsApart(l, limit, free, nodes, b, x, c, y);
      RingsApart(l, limit, free, nodes, b, p, c, y);
      RingsApart(l, limit, free, nodes, b, q, c, y);
      Apart8(x, y);
      Apart8(p, y);
      Apart8(q, y);
    }
    RingFrame(m, m', l.Head(c), Addrs(l, c, free[c]));
  }

  /** Such writes leave the allocated nodes alone. */
  lemma RelinkedKept(l: Layout, m: Words, m': Words, limit: nat, free: FreeLists, nodes: set<Node>, b: nat, p: int,
                     x: int, q: int)
    requires Relinked(l, m, m', limit, free, nodes, b, p, x, q)
    ensures Kept(l, m, m', nodes)
  {
    forall v, a | v in nodes && v.b <= l.maxLog && l.Addr(v) <= a < l.End(v)
      ensures At(m', a) == At(m, a)
    {
      RingApartFromLive(l, limit, free, nodes, b, x, v);
      RingApartFromLive(l, limit, free, nodes, b, q, v);
      RingApartFromLive(l, limit, free, nodes, b, p, v);
    }
  }

  /** Appending free block k to the list of bucket b. */
  lemma Push(l: Layout, m: Words, limit: nat, free: FreeLists, b: nat, k: nat, limit': nat, nodes: set<Node>)
    requires Ringed(l, m, limit, free) && limit' <= limit <= b <= l.Last() && k !in free[b]
    requires Indexed(l, limit', free[b := free[b] + [k]], nodes)
    ensures var m' := Linked(m, Pred(m, l.Head(b)), l.Addr(Node(b, k)), l.Head(b));
            Ringed(l, m', limit, free[b := free[b] + [k]]) && Kept(l, m, m', nodes)
  {
    var free' := free[b := free[b] + [k]];
    var p, x, q := Pred(m, l.Head(b)), l.Addr(Node(b, k)), l.Head(b);
    var m' := Linked(m, p, x, q);
    PushOwn(l, m, limit, free, b, k, limit', nodes);
    RelinkedKept(l, m, m', limit', free', nodes, b, p, x, q);
    forall c | limit <= c <= l.Last() && c != b
      ensures Ring(m', l.Head(c), Addrs(l, c, free'[c]))
    {
      OtherRing(l, m, m', limit', free', nodes, b, p, x, q, c);
    }
  }

  lemma PushOwn(l: Layout, m: Words, limit: nat, free: FreeLists, b: nat, k: nat, limit': nat, nodes: set<Node>)
    requires Ringed(l, m, limit, free) && limit' <= limit <= b <= l.Last() && k !in free[b]
    requires Indexed(l, limit', free[b := free[b] + [k]], nodes)
    ensures var free' := free[b := free[b] + [k]];
            var p, x, q := Pred(m, l.Head(b)), l.Addr(Node(b, k)), l.Head(b);
            var m' := Linked(m, p, x, q);
            && Ring(m', q, Addrs(l, b, free'[b])) && Relinked(l, m, m', limit', free', nodes, b, p, x, q)
            && x != p && x != q
  {
    var h, s, x := l.Head(b), Addrs(l, b, free[b]), l.Addr(Node(b, k));
    var free' := free[b := free[b] + [k]];
    assert Pred(m, h) == Left(h, s, |s|);
    AddrsAppend(l, b, free[b], k);
    assert OnRing(l, free', b, h) && OnRing(l, free', b, x) && OnRing(l, free', b, Left(h, s, |s|));
    RingNodePlace(l, limit', free', nodes, b, x);
    l.AddrAligned(Node(b, k));
    FreshAddr(l, b, free[b], k);
    RingInsert(m, h, s, |s|, x);
    LinkedOutside(m, Left(h, s, |s|), x, h);
  }

  lemma FreshAddr(l: Layout, b: nat, ks: seq<nat>, k: nat)
    requires b <= l.maxLog && k !in ks
    ensures l.Addr(Node(b, k)) !in Addrs(l, b, ks)
  {
    forall i | 0 <= i < |ks|
      ensures l.Addr(Node(b, ks[i])) != l.Addr(Node(b, k))
    {
      l.SameBucketApart(Node(b, ks[i]), Node(b, k));
    }
  }

  /** Unlinking the free block at position i of the list of bucket b. */
  lemma Unlink(l: Layout, m: Words, limit: nat, free: FreeLists, b: nat, i: nat, nodes: set<Node>)
    requires Ringed(l, m, limit, free) && limit <= b <= l.Last() && i < |free[b]|
    requires Indexed(l, limit, free, nodes)
    ensures var x := l.Addr(Node(b, free[b][i])); var m' := Unlinked(m, Pred(m, x), Succ(m, x));
            Ringed(l, m', limit, free[b := free[b][..i] + free[b][i + 1..]]) && Kept(l, m, m', nodes)
  {
    var free' := free[b := free[b][..i] + free[b][i + 1..]];
    var x := l.Addr(Node(b, free[b][i]));
    var p, q := Pred(m, x), Succ(m, x);
    var m' := Unlinked(m, p, q);
    UnlinkOwn(l, m, limit, free, b, i, nodes);
    RelinkedKept(l, m, m', limit, free, nodes, b, p, x, q);
    forall c | limit <= c <= l.Last() && c != b
      ensures Ring(m', l.Head(c), Addrs(l, c, free'[c]))
    {
      OtherRing(l, m, m', limit, free, nodes, b, p, x, q, c);
    }
  }

  lemma UnlinkOwn(l: Layout, m: Words, limit: nat, free: FreeLists, b: nat, i: nat, nodes: set<Node>)
    requires Ringed(l, m, limit, free) && limit <= b <= l.Last() && i < |free[b]|
    requires Indexed(l, limit, free, nodes)
    ensures var x := l.Addr(Node(b, free[b][i]));
            var p, q := Pred(m, x), Succ(m, x);
            var m' := Unlinked(m, p, q);
            && Ring(m', l.Head(b), Addrs(l, b, free[b][..i] + free[b][i + 1..]))
            && Relinked(l, m, m', limit, free, nodes, b, p, x, q)
  {
    var h, s, x := l.Head(b), Addrs(l, b, free[b]), l.Addr(Node(b, free[b][i]));
    assert s[i] == x;
    RingDelete(m, h, s, i);
    UnlinkedOutside(m, Left(h, s, i), x, Right(s, h, i + 1));
    AddrsDelete(l, b, free[b], i);
    assert OnRing(l, free, b, x) && OnRing(l, free, b, Left(h, s, i)) && OnRing(l, free, b, Right(s, h, i + 1));
  }

  /** What unlinking leaves: the block counts as allocated, and its parent's bit is due to flip. */
  lemma Unlisted(l: Layout, m: Words, limit: nat, free: FreeLists, b: nat, i: nat, nodes: set<Node>)
    requires Ringed(l, m, limit, free) && limit <= b <= l.Last() && i < |free[b]|
    requires Indexed(l, limit, free, nodes)
    ensures var v := Node(b, free[b][i]);
            && v !in nodes && FreeNode(nodes, limit, l.Last(), v)
            && Indexed(l, limit, free[b := free[b][..i] + free[b][i + 1..]], nodes + {v})
  {
    var ks, v := free[b], Node(b, free[b][i]);
    var free' := free[b := ks[..i] + ks[i + 1..]];
    Take(nodes, limit, l.Last(), v);
    DistinctNodes(l, b, ks);
    DeleteMembers(ks, i);
    assert free'[b] == Delete(ks, i);
  }

  lemma BackedLess(l: Layout, brk: int, limit: nat, free: FreeLists, b: nat, i: nat)
    requires Backed(l, brk, limit, free) && limit <= b <= l.Last() && i < |free[b]|
    ensures Backed(l, brk, limit, free[b := free[b][..i] + free[b][i + 1..]])
  {
  }

  /** What the head of a ring points back to. */
  lemma LastOfRing(l: Layout, m: Words, limit: nat, free: FreeLists, b: nat, nodes: set<Node>)
    requires Ringed(l, m, limit, free) && limit <= b <= l.Last() && Indexed(l, limit, free, nodes)
    ensures OnRing(l, free, b, l.Head(b)) && 0 < l.Head(b)
    ensures if free[b] == [] then At(m, l.Head(b)) == l.Head(b)
            else At(m, l.Head(b)) == l.Addr(Node(b, free[b][|free[b]| - 1])) && l.Head(b) < At(m, l.Head(b))
  {
    hide FreeNode, Placed;
    var s := Addrs(l, b, free[b]);
    assert Pred(m, l.Head(b)) == Left(l.Head(b), s, |s|);
    if free[b] != [] {
      RingNodePlace(l, limit, free, nodes, b, s[|s| - 1]);
    }
  }

  lemma LastOnce(l: Layout, m: Words, limit: nat, free: FreeLists, b: nat)
    requires Ringed(l, m, limit, free) && limit <= b <= l.Last() && free[b] != []
    ensures var i := |free[b]| - 1; free[b][i] !in free[b][..i]
  {
    DistinctNodes(l, b, free[b]);
  }

  lemma DistinctNodes(l: Layout, b: nat, ks: seq<nat>)
    requires b <= l.maxLog && Distinct(Addrs(l, b, ks))
    ensures Distinct(ks)
  {
    var s := Addrs(l, b, ks);
    forall i, j | 0 <= i < j < |ks|
      ensures ks[i] != ks[j]
    {
      assert s[i] == l.Addr(Node(b, ks[i])) && s[j] == l.Addr(Node(b, ks[j])) && s[i] != s[j];
    }
  }

  /** The bits after a free node is allocated: its parent's bit flips, if it has a parent. */
  lemma TakeBits(l: Layout, bits: seq<bv8>, limit: nat, nodes: set<Node>, v: Node)
    requires Bitted(l, bits, limit, nodes) && Placed(nodes, limit, l.Last()) && FreeNode(nodes, limit, l.Last(), v)
    ensures InBucket(v)
    ensures if v.b == 0 then Index(v) == 0 && Bitted(l, bits, limit, nodes + {v})
            else && Index(v) != 0 && ParentIndex(Index(v)) < 8 * |bits|
                 && Bitted(l, Flip(bits, ParentIndex(Index(v))), limit, nodes + {v})
  {
    hide SplitBit, Flip, BitAt, FreeNode, Placed;
    Take(nodes, limit, l.Last(), v);
    FreeUnderRoot(nodes, limit, l.Last(), v);
    InBucketUp(v, Node(limit, 0));
    IndexSteps(v);
    if v.b > 0 {
      FlipNode(l, bits, limit, nodes, limit, nodes + {v}, Parent(v));
    }
  }

  /** Splitting an allocated node: its left child stays allocated, its right child is a new free block,
      and its bit flips. */
  lemma SplitStep(l: Layout, bits: seq<bv8>, brk: int, limit: nat, free: FreeLists, others: set<Node>, v: Node)
    requires Indexed(l, limit, free, others + {v}) && Bitted(l, bits, limit, others + {v})
    requires Backed(l, brk, limit, free)
    requires v !in others && limit <= v.b < l.Last() && InBucket(v) && l.Addr(RightChild(v)) + 8 <= brk
    ensures var c, d := LeftChild(v), RightChild(v);
            var free' := free[d.b := free[d.b] + [d.k]];
            && c !in others && d.k !in free[d.b] && InBucket(c)
            && Indexed(l, limit, free', others + {c}) && Backed(l, brk, limit, free')
            && ParentIndex(Index(c)) == Index(v) < 8 * |bits| && Bitted(l, Flip(bits, Index(v)), limit, others + {c})
  {
    hide Indexed, Bitted, Backed, Placed, FreeNode, SplitBit, BitAt, Flip, Index, Layout.Addr;
    IndexedPlaced(l, limit, free, others + {v});
    Split(others, limit, l.Last(), v, false);
    FlipNode(l, bits, limit, others + {v}, limit, others + {LeftChild(v)}, v);
    IndexSteps(v);
    SplitLists(l, brk, limit, free, others, v);
  }

  lemma SplitLists(l: Layout, brk: int, limit: nat, free: FreeLists, others: set<Node>, v: Node)
    requires Indexed(l, limit, free, others + {v}) && Backed(l, brk, limit, free)
    requires v !in others && limit <= v.b < l.Last() && l.Addr(RightChild(v)) + 8 <= brk
    ensures var c, d := LeftChild(v), RightChild(v);
            var free' := free[d.b := free[d.b] + [d.k]];
            d.k !in free[d.b] && Indexed(l, limit, free', others + {c}) && Backed(l, brk, limit, free')
  {
    hide Placed, FreeNode, Layout.Addr;
    Split(others, limit, l.Last(), v, false);
  }

  /** Putting a released node back: on its list it is free again, and its parent's bit has flipped. */
  lemma PutBack(l: Layout, bits: seq<bv8>, brk: int, limit: nat, free: FreeLists, others: set<Node>, v: Node)
    requires Indexed(l, limit, free, others + {v}) && Bitted(l, bits, limit, others + {v})
    requires Backed(l, brk, limit, free)
    requires v !in others && InBucket(v) && FreeNode(others, limit, l.Last(), v) && l.Addr(v) + 8 <= brk
    ensures var free' := free[v.b := free[v.b] + [v.k]];
            v.k !in free[v.b] && Indexed(l, limit, free', others) && Backed(l, brk, limit, free')
    ensures if v.b == 0 then Bitted(l, bits, limit, others)
            else Index(v) != 0 && ParentIndex(Index(v)) < 8 * |bits| && Bitted(l, Flip(bits, ParentIndex(Index(v))), limit, others)
  {
    hide Indexed, Bitted, Backed, Placed, FreeNode, SplitBit, BitAt, Flip, Index, Layout.Addr;
    IndexedPlaced(l, limit, free, others + {v});
    Release(others, limit, l.Last(), v);
    Take(others, limit, l.Last(), v);
    IndexSteps(v);
    if v.b > 0 {
      FlipNode(l, bits, limit, others + {v}, limit, others, Parent(v));
    } else {
      BittedSame(l, bits, limit, others + {v}, others);
    }
    PutBackLists(l, brk, limit, free, others, v);
  }

  lemma PutBackIf(l: Layout, bits: seq<bv8>, brk: int, limit: nat, free: FreeLists, others: set<Node>, v: Node)
    requires Indexed(l, limit, free, others + {v}) && Bitted(l, bits, limit, others + {v})
    requires Backed(l, brk, limit, free)
    requires v !in others && InBucket(v) && l.Addr(v) + 8 <= brk
    ensures FreeNode(others, limit, l.Last(), v) ==>
              var free' := free[v.b := free[v.b] + [v.k]];
              && v.k !in free[v.b] && Indexed(l, limit, free', others) && Backed(l, brk, limit, free')
              && if v.b == 0 then Bitted(l, bits, limit, others)
                 else Index(v) != 0 && ParentIndex(Index(v)) < 8 * |bits| && Bitted(l, Flip(bits, ParentIndex(Index(v))), limit, others)
  {
    if FreeNode(others, limit, l.Last(), v) {
      PutBack(l, bits, brk, limit, free, others, v);
    }
  }

  lemma PutBackRoot(l: Layout, bits: seq<bv8>, brk: int, limit: nat, free: FreeLists, others: set<Node>, v: Node)
    requires Indexed(l, limit, free, others + {v}) && Bitted(l, bits, limit, others + {v})
    requires Backed(l, brk, limit, free)
    requires v !in others && InBucket(v) && Index(v) == 0 && l.Addr(v) + 8 <= brk
    ensures limit <= v.b <= l.Last() && FreeNode(others, limit, l.Last(), v)
    ensures var free' := free[v.b := free[v.b] + [v.k]];
            && v.k !in free[v.b] && Indexed(l, limit, free', others) && Backed(l, brk, limit, free')
            && Bitted(l, bits, limit, others)
  {
    hide Indexed, Bitted, Backed, Placed, FreeNode, SplitBit, BitAt, Layout.Addr, Index, ParentIndex, Flip, Pow2;
    IndexSteps(v);
    IndexedPlaced(l, limit, free, others + {v});
    Release(others, limit, l.Last(), v);
    PutBack(l, bits, brk, limit, free, others, v);
  }

  lemma BittedSame(l: Layout, bits: seq<bv8>, limit: nat, nodes: set<Node>, nodes': set<Node>)
    requires Bitted(l, bits, limit, nodes) && forall u :: SplitBit(nodes', limit, u) <==> SplitBit(nodes, limit, u)
    ensures Bitted(l, bits, limit, nodes')
  {
  }

  lemma PutBackLists(l: Layout, brk: int, limit: nat, free: FreeLists, others: set<Node>, v: Node)
    requires Indexed(l, limit, free, others + {v}) && Backed(l, brk, limit, free) && Placed(others, limit, l.Last())
    requires v !in others && FreeNode(others, limit, l.Last(), v) && limit <= v.b <= l.Last() && l.Addr(v) + 8 <= brk
    ensures var free' := free[v.b := free[v.b] + [v.k]];
            v.k !in free[v.b] && Indexed(l, limit, free', others) && Backed(l, brk, limit, free')
  {
    hide Placed, FreeNode, Layout.Addr;
    Take(others, limit, l.Last(), v);
  }

  /** One step of release: after the parent's bit is flipped it says whether to stop. If it is set or v is the root,
      v goes on its list; otherwise its buddy is on a list. */
  lemma ReleaseStep(l: Layout, bits: seq<bv8>, limit: nat, free: FreeLists, others: set<Node>, v: Node)
    requires Indexed(l, limit, free, others + {v}) && Bitted(l, bits, limit, others + {v})
    requires v !in others && InBucket(v) && v.b > 0
    ensures limit <= v.b <= l.Last() && Index(v) != 0 && InBucket(Parent(v))
    ensures ParentIndex(Index(v)) == Index(Parent(v)) < 8 * |bits|
    ensures var p := Index(Parent(v)); var bits' := Flip(bits, p);
            if BitAt(bits', p) || v.b == limit then FreeNode(others, limit, l.Last(), v)
               else && Buddy(v).k in free[v.b] && FreeNode(others + {v}, limit, l.Last(), Buddy(v))
                    && Bitted(l, bits', limit, others + {Parent(v)})
  {
    hide Indexed, Bitted, Placed, FreeNode, SplitBit, BitAt, Flip, Index;
    IndexedPlaced(l, limit, free, others + {v});
    Release(others, limit, l.Last(), v);
    IndexSteps(v);
    BittedAt(l, bits, limit, others + {v}, Parent(v));
    FlipAt(bits, Index(Parent(v)), Index(Parent(v)));
    if v.b > limit && SplitBit(others + {v}, limit, Parent(v)) {
      IndexedAt(l, limit, free, others + {v}, Buddy(v));
      Merged(others, limit, l.Last(), v);
      FlipNode(l, bits, limit, others + {v}, limit, others + {Parent(v)}, Parent(v));
    }
  }

  lemma IndexedAt(l: Layout, limit: nat, free: FreeLists, nodes: set<Node>, v: Node)
    requires Indexed(l, limit, free, nodes) && limit <= v.b <= l.Last()
    ensures v.k in free[v.b] <==> FreeNode(nodes, limit, l.Last(), v)
  {
  }

  /** The lists after the buddy is unlinked and the two are merged. */
  lemma MergedLists(l: Layout, limit: nat, free: FreeLists, others: set<Node>, v: Node)
    requires l.Valid() && v !in others && Placed(others + {v}, limit, l.Last()) && limit < v.b
    requires FreeNode(others + {v}, limit, l.Last(), Buddy(v))
    requires Indexed(l, limit, free, others + {v} + {Buddy(v)})
    ensures Parent(v) !in others && Indexed(l, limit, free, others + {Parent(v)})
  {
    hide Placed, FreeNode;
    Merged(others, limit, l.Last(), v);
    Take(others + {v}, limit, l.Last(), Buddy(v));
  }

  /** Writing inside an allocated node leaves the lists alone, and the other allocated nodes. */
  lemma WriteInside(l: Layout, m: Words, limit: nat, free: FreeLists, nodes: set<Node>, v: Node, w: int)
    requires Ringed(l, m, limit, free) && Indexed(l, limit, free, nodes + {v})  && v !in nodes
    ensures Ringed(l, m[l.Addr(v) := w], limit, free) && Kept(l, m, m[l.Addr(v) := w], nodes)
    ensures At(m[l.Addr(v) := w], l.Addr(v)) == w
  {
    var m' := m[l.Addr(v) := w];
    forall c | limit <= c <= l.Last()
      ensures Ring(m', l.Head(c), Addrs(l, c, free[c]))
    {
      WriteInsideRing(l, m, limit, free, nodes, v, w, c);
    }
    forall u, a | u in nodes && u.b <= l.maxLog && l.Addr(u) <= a < l.End(u)
      ensures At(m', a) == At(m, a)
    {
      assert !Under(u, v) && !Under(v, u);
      l.RangeApart(u, v);
    }
  }

  lemma WriteInsideRing(l: Layout, m: Words, limit: nat, free: FreeLists, nodes: set<Node>, v: Node, w: int, c: nat)
    requires Ringed(l, m, limit, free) && Indexed(l, limit, free, nodes + {v}) && limit <= c <= l.Last()
    requires v.b <= l.maxLog
    ensures Ring(m[l.Addr(v) := w], l.Head(c), Addrs(l, c, free[c]))
  {
    hide Ring, Placed, Addrs;
    var m' := m[l.Addr(v) := w];
    forall y | y == l.Head(c) || y in Addrs(l, c, free[c])
      ensures Pred(m', y) == Pred(m, y) && Succ(m', y) == Succ(m, y)
    {
      assert OnRing(l, free, c, y);
      RingApartFromLive(l, limit, free, nodes + {v}, c, y, v);
    }
    RingFrame(m, m', l.Head(c), Addrs(l, c, free[c]));
  }

  /** A list head set up for the bucket above the root. */
  lemma NewHead(l: Layout, m: Words, limit: nat, free: FreeLists, limit': nat, nodes: set<Node>)
    requires Ringed(l, m, limit, free) && 0 < limit && limit' <= limit
    requires Indexed(l, limit', free, nodes)
    ensures var h := l.Head(limit - 1); var m' := m[h := h][h + 4 := h];
            Ringed(l, m', limit - 1, free[limit - 1 := []]) && Kept(l, m, m', nodes)
  {
    hide Ring, Indexed, Addrs;
    var h := l.Head(limit - 1);
    var m' := m[h := h][h + 4 := h];
    var free' := free[limit - 1 := []];
    NewRing(l, m, limit - 1);
    forall c | limit <= c <= l.Last()
      ensures Ring(m', l.Head(c), Addrs(l, c, free'[c]))
    {
      NewHeadOther(l, m, m', limit, free, limit', nodes, c);
    }
    forall v, a | v in nodes && v.b <= l.maxLog && l.Addr(v) <= a < l.End(v)
      ensures At(m', a) == At(m, a)
    {
      NodePlace(l, limit', free, nodes, v);
    }
  }

  lemma NodePlace(l: Layout, limit: nat, free: FreeLists, nodes: set<Node>, v: Node)
    requires Indexed(l, limit, free, nodes) && v in nodes
    ensures v.b <= l.Last() && l.base <= l.Addr(v) && l.Addr(v) % 8 == 0
  {
    l.AddrAligned(v);
  }

  lemma NewRing(l: Layout, m: Words, b: nat)
    requires l.Valid() && b <= l.Last()
    ensures var h := l.Head(b); var m' := m[h := h][h + 4 := h];
            h % 8 == 0 && h + 8 <= l.base && SameOutside(m, m', h, h, h) && Ring(m', h, Addrs(l, b, []))
  {
    SumOfEights(l.table, 8 * b);
    assert Addrs(l, b, []) == [];
  }

  /** The first list head, for a tree of one smallest block. */
  lemma FirstHead(l: Layout, m: Words, free: FreeLists)
    requires l.Valid() && |free| == l.Last() + 1 && forall b :: 0 <= b < |free| ==> free[b] == []
    ensures var h := l.Head(l.Last()); 0 < h && h + 8 <= l.base && h % 8 == 0 && Ringed(l, m[h := h][h + 4 := h], l.Last(), free)
    ensures l.Addr(Node(l.Last(), 0)) == l.base
  {
    NewRing(l, m, l.Last());
  }

  /** The rest of that tree's state: one free block, nothing allocated, no bit set. */
  lemma FirstTree(l: Layout, m: Words, bits: seq<bv8>, brk: int, free: FreeLists)
    requires l.Valid() && |free| == l.Last() + 1 && free[l.Last()] == [0] && l.base + 8 <= brk
    requires Pow2(l.Last()) <= 8 * |bits| && AllClear(l, bits)
    ensures Indexed(l, l.Last(), free, {}) && Bitted(l, bits, l.Last(), {})
    ensures Backed(l, brk, l.Last(), free) && Headed(l, m, brk, map[])
  {
    GrowClear(l.Last(), l.Last());
  }

  /** With nothing allocated the only free block is the root. */
  lemma ClearLists(l: Layout, m: Words, limit: nat, free: FreeLists)
    requires Ringed(l, m, limit, free) && Indexed(l, limit, free, {})
    ensures |free| == l.Last() + 1 && free[limit] == [0] && forall b :: limit < b <= l.Last() ==> free[b] == []
  {
    GrowClear(limit, l.Last());
    forall b, i | limit <= b <= l.Last() && 0 <= i < |free[b]|
      ensures b == limit && free[b][i] == 0
    {
      assert free[b][i] in free[b];
    }
    DistinctNodes(l, limit, free[limit]);
    assert 0 in free[limit];
  }

  /** Doubling the empty tree. */
  lemma ClearTree(l: Layout, bits: seq<bv8>, brk: int, limit: nat, free: FreeLists)
    requires l.Valid() && 0 < limit <= l.Last() && |free| == l.Last() + 1 && free[limit] == [0]
    requires forall b :: limit < b <= l.Last() ==> free[b] == []
    requires Bitted(l, bits, limit, {}) && Backed(l, brk, limit, free)
    ensures var free' := free[limit := []][limit - 1 := [0]];
            Indexed(l, limit - 1, free', {}) && Bitted(l, bits, limit - 1, {}) && Backed(l, brk, limit - 1, free')
    ensures l.Addr(Node(limit, 0)) == l.Addr(Node(limit - 1, 0)) == l.base
  {
    GrowClear(limit, l.Last());
    GrowClear(limit - 1, l.Last());
    assert 0 in free[limit];
    assert l.Addr(Node(limit, 0)) + 8 <= brk;
  }

  /** Doubling a tree that is in use, with the memory for the right half's links. */
  lemma UsedTree(l: Layout, limit: nat, free: FreeLists, nodes: set<Node>, brk: int)
    requires Indexed(l, limit, free, nodes) && 0 < limit && nodes != {}
    requires Backed(l, brk, limit, free) && l.Addr(Node(limit, 1)) + 8 <= brk
    ensures var free' := free[limit - 1 := []][limit := free[limit] + [1]];
            1 !in free[limit] && Indexed(l, limit - 1, free', nodes) && Backed(l, brk, limit - 1, free')
  {
    GrowUsed(nodes, limit, l.Last());
    ClearFromRootUp(nodes, limit, l.Last(), Node(limit - 1, 0));
    var free' := free[limit - 1 := []][limit := free[limit] + [1]];
    forall b: nat, k: nat | limit - 1 <= b <= l.Last()
      ensures k in free'[b] <==> FreeNode(nodes, limit - 1, l.Last(), Node(b, k))
    {
      assert FreeNode(nodes, limit - 1, l.Last(), Node(b, k)) <==>
             FreeNode(nodes, limit, l.Last(), Node(b, k)) || Node(b, k) == Node(limit, 1);
    }
  }

  /** The bits after doubling a tree that is in use: one flip, unless the new root is node 0. */
  lemma UsedBits(l: Layout, bits: seq<bv8>, limit: nat, free: FreeLists, nodes: set<Node>)
    requires Bitted(l, bits, limit, nodes) && Indexed(l, limit, free, nodes) && 0 < limit <= l.Last() && nodes != {}
    ensures if limit == 1 then Bitted(l, bits, 0, nodes)
            else Index(Node(limit - 2, 0)) < 8 * |bits| && Bitted(l, Flip(bits, Index(Node(limit - 2, 0))), limit - 1, nodes)
  {
    GrowUsed(nodes, limit, l.Last());
    if limit > 1 {
      FlipNode(l, bits, limit, nodes, limit - 1, nodes, Node(limit - 2, 0));
    }
  }

  lemma NewHeadOther(l: Layout, m: Words, m': Words, limit: nat, free: FreeLists, limit': nat, nodes: set<Node>, c: nat)
    requires Ringed(l, m, limit, free) && 0 < limit && limit' <= limit <= c <= l.Last()
    requires Indexed(l, limit', free, nodes)
    requires var h := l.Head(limit - 1); SameOutside(m, m', h, h, h)
    ensures Ring(m', l.Head(c), Addrs(l, c, free[c]))
  {
    hide Ring, Indexed, Addrs, Placed;
    var h := l.Head(limit - 1);
    forall y | y == l.Head(c) || y in Addrs(l, c, free[c])
      ensures Pred(m', y) == Pred(m, y) && Succ(m', y) == Succ(m, y)
    {
      assert OnRing(l, free, c, y);
      RingNodePlace(l, limit', free, nodes, c, y);
      assert h + 8 <= y;
    }
    RingFrame(m, m', l.Head(c), Addrs(l, c, free[c]));
  }

  /** The bit of the root's parent says whether anything is allocated. */
  lemma RootBit(limit: nat, last: nat, nodes: set<Node>)
    requires Placed(nodes, limit, last) && 0 < limit
    ensures SplitBit(nodes, limit, Node(limit - 1, 0)) <==> nodes != {}
  {
    if nodes != {} {
      ClearFromRootUp(nodes, limit, last, Node(limit, 0));
      ClearFromRootUp(nodes, limit, last, Node(limit, 1));
    }
  }

  /** Reading the bit of the root's parent. */
  lemma RootInUse(l: Layout, bits: seq<bv8>, limit: nat, free: FreeLists, nodes: set<Node>)
    requires Bitted(l, bits, limit, nodes) && Indexed(l, limit, free, nodes) && 0 < limit <= l.Last()
    ensures var root := l.NodeForPtr(l.base, limit);
            && root == Index(Node(limit, 0)) && root != 0 && ParentIndex(root) < 8 * |bits|
            && (BitAt(bits, ParentIndex(root)) <==> nodes != {})
  {
    hide Indexed, Bitted, Placed, SplitBit, Index, ParentIndex, BitAt, Layout.NodeForPtr;
    l.PtrNode(Node(limit, 0));
    l.GrowthIndices(limit);
    IndexedPlaced(l, limit, free, nodes);
    RootBit(limit, l.Last(), nodes);
    BittedAt(l, bits, limit, nodes, Node(limit - 1, 0));
  }

  lemma IndexedPlaced(l: Layout, limit: nat, free: FreeLists, nodes: set<Node>)
    requires Indexed(l, limit, free, nodes)
    ensures Placed(nodes, limit, l.Last())
  {
  }

  /** Reading the bit of a node. */
  lemma BittedAt(l: Layout, bits: seq<bv8>, limit: nat, nodes: set<Node>, v: Node)
    requires Bitted(l, bits, limit, nodes) && InBucket(v) && v.b < l.Last()
    ensures Index(v) < 8 * |bits| && (BitAt(bits, Index(v)) <==> SplitBit(nodes, limit, v))
  {
    Pow2Monotone(v.b, l.Last());
  }

  /** Flipping the bit of one node. */
  lemma FlipNode(l: Layout, bits: seq<bv8>, limit: nat, nodes: set<Node>, limit': nat, nodes': set<Node>, v: Node)
    requires Bitted(l, bits, limit, nodes) && InBucket(v) && v.b < l.Last()
    requires forall u :: SplitBit(nodes', limit', u) <==> SplitBit(nodes, limit, u) != (u == v)
    ensures Index(v) < 8 * |bits| && Bitted(l, Flip(bits, Index(v)), limit', nodes')
  {
    Pow2Monotone(v.b, l.Last());
    var bits' := Flip(bits, Index(v));
    forall u | InBucket(u) && u.b < l.Last() && Index(u) < 8 * |bits|
      ensures BitAt(bits', Index(u)) <==> SplitBit(nodes', limit', u)
    {
      FlipAt(bits, Index(v), Index(u));
      if Index(u) == Index(v) {
        IndexInjective(u, v);
      }
    }
  }

  datatype Choice = NoBlock | Block(v: Node)

  /** The block that malloc takes if the lists have one that is large enough for bucket b: the last one
      of the nearest bucket. */
  function Sufficient(limit: nat, free: FreeLists, b: nat): (c: Choice)
    requires b < |free|
    ensures c.Block? ==> limit <= c.v.b <= b
    decreases b
  {
    if b < limit then NoBlock
    else if free[b] != [] then Block(Node(b, free[b][|free[b]| - 1]))
    else if b == 0 then NoBlock
    else Sufficient(limit, free, b - 1)
  }

  /** The block that malloc takes: if the lists have none, doubling the tree yields the whole of it when
      nothing is allocated, the right half otherwise; a tree of full height cannot be doubled. */
  function Chosen(limit: nat, free: FreeLists, nodes: set<Node>, b: nat): (c: Choice)
    requires b < |free|
    ensures c.Block? ==> c.v.b <= b
  {
    var c := Sufficient(limit, free, b);
    if c.Block? then c
    else if nodes == {} then Block(Node(b, 0))
    else if limit == 0 || b == 0 then NoBlock
    else Block(Node(if limit <= b then limit else b, 1))
  }

  lemma SufficientAbove(limit: nat, free: FreeLists, b: nat)
    requires b < |free|
    ensures b < limit ==> Sufficient(limit, free, b) == NoBlock
  {
  }

  /** One step of the search: this bucket's list, or else the next bucket's. */
  lemma SufficientHere(limit: nat, free: FreeLists, b: nat)
    requires limit <= b < |free|
    ensures free[b] != [] ==> Sufficient(limit, free, b) == Block(Node(b, free[b][|free[b]| - 1]))
    ensures free[b] == [] && limit < b ==> Sufficient(limit, free, b) == Sufficient(limit, free, b - 1)
    ensures free[b] == [] && limit == b ==> Sufficient(limit, free, b) == NoBlock
  {
  }

  lemma RootFound(limit: nat, free: FreeLists, b: nat)
    requires limit <= b < |free|
    ensures free[limit] != [] ==> Sufficient(limit, free, b).Block?
  {
  }

  /** The list of the root's bucket: the root if nothing is allocated, otherwise nothing. */
  lemma RootList(l: Layout, m: Words, limit: nat, free: FreeLists, nodes: set<Node>)
    requires Ringed(l, m, limit, free) && Indexed(l, limit, free, nodes)
    ensures limit < |free| && free[limit] == if nodes == {} then [0] else []
  {
    if nodes == {} {
      ClearLists(l, m, limit, free);
    } else {
      ClearFromRootUp(nodes, limit, l.Last(), Node(limit, 0));
      forall k: nat
        ensures k !in free[limit]
      {
        assert !FreeNode(nodes, limit, l.Last(), Node(limit, k));
      }
      SomeMember(free[limit]);
    }
  }

  lemma SomeMember(ks: seq<nat>)
    ensures ks == [] || exists k: nat :: k in ks
  {
    if ks != [] {
      assert ks[0] in ks;
    }
  }

  /** Doubling the tree does not change the choice for the bucket it is doubled to. */
  lemma ChosenAfterGrowth(l: Layout, m: Words, limit: nat, free: FreeLists, free': FreeLists, nodes: set<Node>, b: nat)
    requires b < limit && b < |free|
    requires Ringed(l, m, b, free') && Indexed(l, b, free', nodes)
    ensures b < |free'| && Chosen(b, free', nodes, b) == Chosen(limit, free, nodes, b)
    ensures Sufficient(limit, free, b).NoBlock?
  {
    hide Ringed, Indexed;
    RootList(l, m, b, free', nodes);
    if b > 0 {
      assert Sufficient(b, free', b - 1) == NoBlock;
    }
  }

  /** Doubling a tree in use once more gives its old root's bucket the new right half. */
  lemma RightHalf(l: Layout, m: Words, limit: nat, free: FreeLists, free': FreeLists, nodes: set<Node>)
    requires Ringed(l, m, limit, free') && Indexed(l, limit, free', nodes)
    requires Indexed(l, limit + 1, free, nodes) && nodes != {}
    requires free[limit + 1] == []
    ensures limit + 1 < |free'| && free'[limit + 1] == [1]
  {
    hide Ringed, Placed, FreeNode;
    IndexedPlaced(l, limit + 1, free, nodes);
    GrowUsed(nodes, limit + 1, l.Last());
    var ks := free'[limit + 1];
    assert FreeNode(nodes, limit, l.Last(), Node(limit + 1, 1));
    forall k | k in ks
      ensures k == 1
    {
      assert FreeNode(nodes, limit, l.Last(), Node(limit + 1, k));
    }
    ListDistinct(l, m, limit, free', limit + 1);
    OnlyMember(ks, 1);
  }

  lemma OnlyMember(ks: seq<nat>, k: nat)
    requires Distinct(ks) && forall j: nat :: j in ks <==> j == k
    ensures ks == [k]
  {
    assert k in ks;
    forall i | 0 <= i < |ks|
      ensures ks[i] == k
    {
      assert ks[i] in ks;
    }
    var first, last := ks[0], ks[|ks| - 1];
    assert first == k && last == k;
  }

  lemma ListDistinct(l: Layout, m: Words, limit: nat, free: FreeLists, b: nat)
    requires Ringed(l, m, limit, free) && limit <= b <= l.Last()
    ensures Distinct(free[b])
  {
    DistinctNodes(l, b, free[b]);
  }

  /** What malloc answers to a request that is not over-large: NULL exactly when there is no block to choose
      or memory up to what it needs of the chosen block would end at `hi` or beyond; otherwise the left end
      of the chosen block, split down to the smallest size that holds the request and the header. */
  ghost predicate Answers(l: Layout, hi: int, limit: nat, free: FreeLists, live: map<Node, int>, request: int, b: nat,
                          r: int, live': map<Node, int>) {
    && l.Valid() && l.Fits(request + HEADER_SIZE, b) && b < |free|
    && var c := Chosen(limit, free, live.Keys, b);
    if c.NoBlock? || hi <= l.Addr(c.v) + l.Need(c.v.b, b) then r == 0 && live' == live
    else
      && r == l.Addr(c.v) + HEADER_SIZE
      && Leftmost(c.v, b) !in live && live' == live[Leftmost(c.v, b) := request]
  }

  /** Doubling a tree in use from `limit` towards `goal` ends at limit': there, or where memory for the list node of
      the next right half is refused. */
  ghost predicate Doubled(l: Layout, hi: int, limit: nat, goal: nat, limit': nat)
    requires l.Valid() && limit <= l.Last()
  {
    && goal <= limit' <= limit
    && (limit' < limit ==> l.Addr(Node(limit' + 1, 1)) + 8 < hi)
    && (goal < limit' ==> hi <= l.Addr(Node(limit', 1)) + 8)
  }

  /** Where the root is once malloc has answered a request for bucket b: where it was if a free block sufficed;
      otherwise at b in a tree in which nothing is allocated; a tree in use is doubled until its root is above the block
      to be had. */
  ghost predicate Rooted(l: Layout, hi: int, limit: nat, found: bool, none: bool, b: nat, limit': nat)
    requires l.Valid() && limit <= l.Last()
  {
    if found then limit' == limit else if none then limit' == b
    else Doubled(l, hi, limit, if limit == 0 || b == 0 then 0 else if limit <= b then limit - 1 else b - 1, limit')
  }

  /** The break just above address a, if it was not above it before. */
  function Above(brk: int, a: int): int {
    if brk <= a then a + 1 else brk
  }

  /** The break after doubling the tree from `limit` to limit': above the list node of the last right half of a tree in
      use. */
  function Backing(l: Layout, brk: int, limit: nat, limit': nat, none: bool): int
    requires l.Valid() && limit <= l.Last()
  {
    if none || limit <= limit' then brk else Above(brk, l.Addr(Node(limit' + 1, 1)) + 8)
  }

  lemma BackingStep(l: Layout, brk: int, limit: nat, limit1: nat, limit2: nat, none: bool)
    requires l.Valid() && limit2 <= limit1 <= limit <= l.Last()
    ensures Backing(l, Backing(l, brk, limit, limit1, none), limit1, limit2, none) ==
            Backing(l, brk, limit, limit2, none)
  {
    hide Layout.Addr;
    if limit1 < limit {
      l.RightRoots(limit2 + 1, limit1 + 1);
    }
  }

  /** Memory up to address a, behind the list node of the chosen block, covers what doubling the tree has reserved. */
  lemma BackingCovered(l: Layout, hi: int, limit: nat, free: FreeLists, nodes: set<Node>, b: nat, limit': nat, brk: int,
                       a: int)
    requires l.Valid() && limit <= l.Last() && b < |free| && b <= l.Last()
    requires Rooted(l, hi, limit, Sufficient(limit, free, b).Block?, nodes == {}, b, limit')
    requires var c := Chosen(limit, free, nodes, b); c.Block? && l.Addr(c.v) + 8 <= a < hi
    ensures Above(Backing(l, brk, limit, limit', nodes == {}), a) == Above(brk, a)
  {
    hide Layout.Addr, Sufficient;
    if limit' < limit && nodes != {} {
      var c := if limit <= b then limit else b;
      if c <= limit' {
        l.RightRoots(c, limit');
      }
    }
  }

  /** What doubling the tree from `limit` to limit' does to the lists from limit' on: if nothing is allocated only the
      new root is listed any more; otherwise each doubling has added its right half. */
  ghost predicate Widened(free: FreeLists, free': FreeLists, limit: nat, limit': nat, none: bool) {
    && |free'| == |free|
    && (forall j :: limit <= j < |free| ==>
          free'[j] == if limit' == limit then free[j] else if none then [] else if j == limit then free[j] + [1]
                      else free[j])
    && (forall j :: limit' <= j < limit && j < |free| ==>
          free'[j] == if none then (if j == limit' then [0] else []) else if j == limit' then [] else [1])
  }

  lemma Unwidened(free: FreeLists, limit: nat, none: bool)
    ensures Widened(free, free, limit, limit, none)
  {
  }

  lemma WidenedTwice(free: FreeLists, free1: FreeLists, free2: FreeLists, limit: nat, limit1: nat, limit2: nat,
                     none: bool)
    requires Widened(free, free1, limit, limit1, none) && Widened(free1, free2, limit1, limit2, none)
    requires limit2 <= limit1 <= limit
    ensures Widened(free, free2, limit, limit2, none)
  {
  }

  /** Splitting adds one block at the end of each list from behind bucket b to bucket b'. */
  ghost predicate Halved(free: FreeLists, free': FreeLists, b: nat, b': nat) {
    |free'| == |free| && forall j :: 0 <= j < |free| ==>
      if b < j <= b' then free'[j] != [] && free'[j][..|free'[j]| - 1] == free[j] else free'[j] == free[j]
  }

  /** Blocks may have left the lists behind bucket b; the others keep their order, and the other lists are the same. */
  ghost predicate Dropped(free: FreeLists, free': FreeLists, b: int) {
    |free'| == |free| && forall j :: 0 <= j < |free| ==> if j <= b then free'[j] == free[j]
      else Sublist(free'[j], free[j])
  }

  /** One more block leaves the list of bucket b. */
  lemma DroppedStep(free: FreeLists, free1: FreeLists, free2: FreeLists, b: nat)
    requires Dropped(free, free1, b) && b < |free|
    requires |free2| == |free1| && (forall j :: 0 <= j < |free1| && j != b ==> free2[j] == free1[j])
    requires Sublist(free2[b], free1[b])
    ensures Dropped(free, free2, b - 1)
  {
  }

  lemma NoneDropped(free: FreeLists, b: int)
    ensures Dropped(free, free, b)
  {
    hide Sublist;
    forall j | 0 <= j < |free|
      ensures Sublist(free[j], free[j])
    {
      SublistSame(free[j]);
    }
  }

  /** The released block v ends up in block c, which is last in its list; on the way there blocks may have left the
      lists of smaller blocks, and the others keep their order. */
  ghost predicate Returned(free: FreeLists, free': FreeLists, v: Node, c: Node) {
    && Under(v, c) && c.b < |free| && |free'| == |free| && free'[c.b] == free[c.b] + [c.k]
    && forall j :: 0 <= j < |free| && j != c.b ==> if j < c.b then free'[j] == free[j] else Sublist(free'[j], free[j])
  }

  lemma ReturnedIs(free: FreeLists, free1: FreeLists, v: Node, c: Node)
    requires Dropped(free, free1, c.b) && Under(v, c) && c.b < |free|
    ensures Returned(free, free1[c.b := free1[c.b] + [c.k]], v, c)
  {
    hide Sublist, Under;
  }

  /** Blocks may have left the list and one may have been added at its end; the others keep their order. */
  ghost predicate Stable(t: seq<nat>, s: seq<nat>) {
    Sublist(t, s) || (t != [] && t[|t| - 1] !in s && Sublist(t[..|t| - 1], s))
  }

  /** All lists from `limit` on keep their order; those above it, down to limit', were empty. */
  ghost predicate Steady(free: FreeLists, free': FreeLists, limit: nat, limit': nat) {
    |free'| == |free| && forall j :: limit' <= j < |free| ==> Stable(free'[j], if j < limit then [] else free[j])
  }

  lemma WidenedSteady(l: Layout, free: FreeLists, free': FreeLists, limit: nat, limit': nat, nodes: set<Node>)
    requires Indexed(l, limit, free, nodes) && Widened(free, free', limit, limit', nodes == {}) && limit <= l.Last()
    ensures Steady(free, free', limit, limit')
  {
    hide Sublist, Placed;
    forall j | limit' <= j < limit
      ensures Stable(free'[j], [])
    {
      NoneLeft([]);
      assert [0][..0] == [1][..0] == [];
    }
    forall j | limit <= j < |free|
      ensures Stable(free'[j], free[j])
    {
      SublistSame(free[j]);
      NoneLeft(free[j]);
      if free'[j] != free[j] && free'[j] != [] {
        assert !FreeNode(nodes, limit, l.Last(), Node(limit, 1));
        assert free'[j][..|free'[j]| - 1] == free[j];
      }
    }
  }

  lemma NoneLeft(s: seq<int>)
    ensures Sublist([], s)
  {
    NoneOf(s);
    assert Members([]) == {};
  }

  lemma {:induction false} NoneOf(s: seq<int>)
    ensures Only(s, {}) == []
  {
    if s != [] {
      NoneOf(s[1..]);
    }
  }

  lemma SublistFront(s: seq<int>)
    requires Distinct(s) && s != []
    ensures Sublist(s[..|s| - 1], s)
  {
    SublistDelete(s, |s| - 1);
    assert Delete(s, |s| - 1) == s[..|s| - 1];
  }

  /** The order of the lists after a block is found, taken and split. */
  lemma TakenSteady(l: Layout, m: Words, free: FreeLists, free1: FreeLists, free2: FreeLists, limit: nat, limit': nat,
                    nodes: set<Node>, b: nat)
    requires Ringed(l, m, limit, free) && Indexed(l, limit, free, nodes) && b <= l.Last() && |free1| == |free|
    requires Chosen(limit, free, nodes, b).Block?
    requires var v := Chosen(limit, free, nodes, b).v;
             && Widened(free, free1[v.b := free1[v.b] + [v.k]], limit, limit', nodes == {})
             && Halved(free1, free2, v.b, b)
    requires Sufficient(limit, free, b).Block? ==> limit' == limit
    requires limit' <= limit <= l.Last() && (limit' < limit ==> limit' <= Chosen(limit, free, nodes, b).v.b)
    ensures Steady(free, free2, limit, limit')
  {
    hide Sublist, Placed, Ringed, FreeNode, Layout.Valid;
    var v := Chosen(limit, free, nodes, b).v;
    var wide := free1[v.b := free1[v.b] + [v.k]];
    WidenedSteady(l, free, wide, limit, limit', nodes);
    NearestBucket(limit, free, b);
    forall j | limit' <= j < limit
      ensures Stable(free2[j], [])
    {
      assert Stable(wide[j], []);
      assert !(v.b < j <= b);
      if j == v.b {
        assert free1[j] == wide[j][..|wide[j]| - 1] == [];
        NoneLeft([]);
      }
    }
    forall j | limit <= j < |free|
      ensures Stable(free2[j], free[j])
    {
      assert Stable(wide[j], free[j]);
      if v.b < j <= b {
        NoneListed(free[j]);
        assert free[j] == [];
        NoneLeft(free[j]);
      } else if j == v.b {
        ListDistinct(l, m, limit, free, j);
        assert wide[j][..|wide[j]| - 1] == free1[j];
        if limit' == limit {
          SublistFront(free[j]);
        } else {
          SublistSame(free[j]);
          assert (free[j] + [1])[..|free[j]|] == free[j];
        }
      }
    }
  }

  lemma NoneListed(s: seq<nat>)
    ensures s == [] || s[0] in s
  {
  }

  lemma {:induction false} NearestBucket(limit: nat, free: FreeLists, b: nat)
    requires b < |free|
    ensures var c := Sufficient(limit, free, b);
      && (c.Block? ==> limit <= c.v.b <= b && free[c.v.b] != [] && c.v.k == free[c.v.b][|free[c.v.b]| - 1])
      && (forall j, k :: limit <= j <= b && k in free[j] ==> c.Block? && j <= c.v.b)
  {
    if limit <= b && free[b] == [] && b > 0 {
      NearestBucket(limit, free, b - 1);
    }
  }

  /** A free block that is large enough for bucket b. */
  ghost predicate Suffices(l: Layout, limit: nat, nodes: set<Node>, b: nat, u: Node)
    requires l.Valid()
  {
    FreeNode(nodes, limit, l.Last(), u) && u.b <= b
  }

  /** The last block, in its list, of the smallest size that is large enough. */
  ghost predicate Nearest(l: Layout, limit: nat, free: FreeLists, nodes: set<Node>, b: nat, c: Node)
    requires l.Valid()
  {
    && Suffices(l, limit, nodes, b, c)
    && (forall u :: Suffices(l, limit, nodes, b, u) ==> u.b <= c.b)
    && c.b < |free| && free[c.b] != [] && free[c.b][|free[c.b]| - 1] == c.k
  }

  /** The answer to a request that `need` bytes at `a` would serve: NULL if the memory up to there is refused;
      otherwise the address behind the header, and the break is just above that memory if it was not before. */
  ghost predicate Reserves(hi: int, a: int, need: int, r: int, brk: int, brk': int) {
    if a + need < hi then r == a + HEADER_SIZE && brk' == Above(brk, a + need) else r == 0
  }

  /** What malloc answers to a request for bucket b.  If a free block suffices, the nearest one is taken.  Otherwise
      the tree is doubled until it has one: in a tree in which nothing is allocated that is the block at the base, in
      a tree in use the right half of the root once the root is large enough to be halved into it; NULL if it cannot
      be doubled. */
  ghost predicate Locates(l: Layout, hi: int, limit: nat, free: FreeLists, nodes: set<Node>, b: nat, r: int, brk: int,
                          brk': int)
    requires l.Valid() && b <= l.Last()
  {
    if exists u :: Suffices(l, limit, nodes, b, u) then
      exists c :: Nearest(l, limit, free, nodes, b, c) && Reserves(hi, l.Addr(c), l.Need(c.b, b), r, brk, brk')
    else if nodes == {} then
      Reserves(hi, l.base, l.Size(b), r, brk, brk')
    else if limit == 0 || b == 0 then
      r == 0
    else if limit <= b then
      Reserves(hi, l.base + l.Size(limit), l.Need(limit, b), r, brk, brk')
    else
      Reserves(hi, l.base + l.Size(b), l.Size(b), r, brk, brk')
  }

  /** What is live once malloc has answered: as before, or also a block of bucket b at the address returned. */
  ghost predicate Grants(l: Layout, live: map<Node, int>, request: int, b: nat, r: int, live': map<Node, int>)
    requires l.Valid() && b <= l.Last()
  {
    if r == 0 then live' == live
    else exists u :: u !in live && u.b == b && l.Addr(u) + HEADER_SIZE == r && live' == live[u := request]
  }

  /** What malloc does when it answers r to a request that is not over-large, from bucket b: where it finds the block,
      which one is live then, the order of the lists, how far the tree is doubled, and the break. */
  ghost predicate Serves(l: Layout, hi: int, limit: nat, free: FreeLists, live: map<Node, int>, brk: int, request: int,
                         b: nat, r: int, limit': nat, free': FreeLists, live': map<Node, int>, brk': int) {
    && l.Valid() && limit <= l.Last() && l.Fits(request + HEADER_SIZE, b)
    && Locates(l, hi, limit, free, live.Keys, b, r, brk, brk')
    && Grants(l, live, request, b, r, live')
    && Steady(free, free', limit, limit')
    && Rooted(l, hi, limit, exists u :: Suffices(l, limit, live.Keys, b, u), live == map[], b, limit')
    && (r == 0 ==> brk' == Backing(l, brk, limit, limit', live == map[]))
  }

  /** The choice made from the lists is the one described by the free blocks. */
  lemma AnswersLocate(l: Layout, hi: int, limit: nat, free: FreeLists, live: map<Node, int>, request: int, b: nat,
                      r: int,
                      live': map<Node, int>, brk: int, brk': int)
    requires Indexed(l, limit, free, live.Keys) && Answers(l, hi, limit, free, live, request, b, r, live')
    requires r != 0 ==> brk' == Above(brk, r - HEADER_SIZE + l.Need(Chosen(limit, free, live.Keys, b).v.b, b))
    ensures b <= l.Last() && l.Fits(request + HEADER_SIZE, b) && Locates(l, hi, limit, free, live.Keys, b, r, brk, brk')
    ensures Grants(l, live, request, b, r, live')
  {
    hide Placed, Layout.Size, Layout.Addr, Layout.Need, Layout.Valid, Suffices, Nearest, Sufficient;
    SufficientMeans(l, limit, free, live.Keys, b);
    var c := Chosen(limit, free, live.Keys, b);
    if c.Block? {
      LeftmostAddr(l, c.v, b);
      FirstAddrs(l, c.v);
    }
  }

  lemma AnswersServe(l: Layout, hi: int, limit: nat, free: FreeLists, live: map<Node, int>, brk: int, request: int,
                     b: nat, r: int, limit': nat, free': FreeLists, live': map<Node, int>, brk': int)
    requires Indexed(l, limit, free, live.Keys) && Answers(l, hi, limit, free, live, request, b, r, live')
    requires limit <= l.Last() && Steady(free, free', limit, limit')
    requires Rooted(l, hi, limit, Sufficient(limit, free, b).Block?, live == map[], b, limit')
    requires brk' == if r == 0 then Backing(l, brk, limit, limit', live == map[])
                     else Above(brk, r - HEADER_SIZE + l.Need(Chosen(limit, free, live.Keys, b).v.b, b))
    ensures Serves(l, hi, limit, free, live, brk, request, b, r, limit', free', live', brk')
  {
    hide Placed, Layout.Valid, Layout.Fits, Suffices, Sufficient, Chosen, Steady, Rooted, Locates, Grants, Backing,
         Above;
    AnswersLocate(l, hi, limit, free, live, request, b, r, live', brk, brk');
    SufficientMeans(l, limit, free, live.Keys, b);
  }

  /** Where the first two blocks of a bucket are, and that no block is at NULL. */
  lemma FirstAddrs(l: Layout, v: Node)
    requires l.Valid() && v.b <= l.Last()
    ensures 0 < l.Addr(v) && l.Need(v.b, v.b) == l.Size(v.b)
    ensures v.k == 0 ==> l.Addr(v) == l.base
    ensures v.k == 1 ==> l.Addr(v) == l.base + l.Size(v.b)
  {
    hide Layout.Size;
    l.AddrAligned(v);
  }

  /** The lists yield a block exactly when a free block suffices, and then the nearest one. */
  lemma SufficientMeans(l: Layout, limit: nat, free: FreeLists, nodes: set<Node>, b: nat)
    requires Indexed(l, limit, free, nodes) && b <= l.Last()
    ensures var s := Sufficient(limit, free, b);
            if s.Block? then Nearest(l, limit, free, nodes, b, s.v) && Suffices(l, limit, nodes, b, s.v)
            else forall u :: !Suffices(l, limit, nodes, b, u)
  {
    hide FreeNode, Placed;
    NearestBucket(limit, free, b);
    var s := Sufficient(limit, free, b);
    forall u | Suffices(l, limit, nodes, b, u)
      ensures s.Block? && u.b <= s.v.b
    {
      FreeBucket(nodes, limit, l.Last(), u);
      assert u == Node(u.b, u.k) && u.k in free[u.b];
    }
    if s.Block? {
      assert s.v == Node(s.v.b, s.v.k) && s.v.k in free[s.v.b];
    }
  }

  lemma {:induction false} LeftmostAddr(l: Layout, v: Node, b: nat)
    requires l.Valid() && v.b <= b <= l.Last()
    ensures l.Addr(Leftmost(v, b)) == l.Addr(v)
    decreases b - v.b
  {
    if v.b < b {
      l.Halves(v);
      LeftmostAddr(l, LeftChild(v), b);
    }
  }
}
