/** malloc/buddy.c has no freedom: a trace of requests, and the state it starts in, fix every answer, every live block,
    how far the tree is doubled, the break, and the order of every list on the way. */
module BuddyReplays {
  import opened Memlib
  import opened Powers
  import opened Links
  import opened Sublists
  import opened BuddyTree
  import opened BuddyLayout
  import opened BuddyState
  import opened BuddyRuns

  /** The same state: lists of buckets above the root are not part of it. */
  ghost predicate Same(p: Point, q: Point) {
    && p.limit == q.limit && p.live == q.live && p.brk == q.brk && p.pointers == q.pointers && |p.free| == |q.free|
    && forall j :: p.limit <= j < |p.free| ==> p.free[j] == q.free[j]
  }

  /** There is one list of given members that keeps the order of s. */
  lemma StableUnique(t: seq<nat>, u: seq<nat>, s: seq<nat>)
    requires Stable(t, s) && Stable(u, s) && forall x :: x in t <==> x in u
    ensures t == u
  {
    hide Sublist;
    if t != [] && t[|t| - 1] !in s {
      var x, front := t[|t| - 1], t[..|t| - 1];
      InSublist(t, s);
      InSublist(u, s);
      assert x in u && !Sublist(u, s);
      var y, front' := u[|u| - 1], u[..|u| - 1];
      assert t == front + [x] && u == front' + [y];
      InSublist(front, s);
      InSublist(front', s);
      assert y in t && x == y;
      forall z
        ensures z in front <==> z in front'
      {
        assert z in t <==> z in u;
      }
      SublistUnique(front, front', s);
    } else {
      InSublist(t, s);
      assert Sublist(u, s);
      SublistUnique(t, u, s);
    }
  }

  lemma InSublist(t: seq<int>, s: seq<int>)
    ensures Sublist(t, s) ==> forall x :: x in t ==> x in s
  {
  }

  /** Two blocks of a tree that start at the same address are one inside the other, or the same. */
  lemma SameAddr(l: Layout, u: Node, v: Node)
    requires u.b <= l.maxLog && v.b <= l.maxLog && l.Addr(u) == l.Addr(v)
    ensures Under(u, v) || Under(v, u)
  {
    hide Under;
    if !Under(u, v) && !Under(v, u) {
      l.RangeApart(u, v);
    }
  }

  lemma SameBlock(l: Layout, u: Node, v: Node)
    requires u.b == v.b <= l.maxLog && l.Addr(u) == l.Addr(v)
    ensures u == v
  {
    SameAddr(l, u, v);
  }

  /** How far a tree in use is doubled. */
  lemma DoubledUnique(l: Layout, hi: int, limit: nat, goal: nat, c: nat, d: nat)
    requires l.Valid() && limit <= l.Last() && Doubled(l, hi, limit, goal, c) && Doubled(l, hi, limit, goal, d)
    ensures c == d
  {
    hide Layout.Addr;
    if c < d {
      l.RightRoots(c + 1, d);
    } else if d < c {
      l.RightRoots(d + 1, c);
    }
  }

  /** The nearest sufficient block. */
  lemma NearestUnique(l: Layout, limit: nat, free: FreeLists, free': FreeLists, nodes: set<Node>, b: nat, c: Node,
                      d: Node)
    requires l.Valid() && Nearest(l, limit, free, nodes, b, c) && Nearest(l, limit, free', nodes, b, d)
    requires |free| == |free'| && forall j :: limit <= j < |free| ==> free[j] == free'[j]
    ensures c == d
  {
    assert Suffices(l, limit, nodes, b, c) && Suffices(l, limit, nodes, b, d);
    assert limit <= c.b;
  }

  /** Where a block is found and what is answered. */
  lemma LocatesUnique(l: Layout, hi: int, limit: nat, free: FreeLists, free': FreeLists, nodes: set<Node>, b: nat,
                      r: int, r': int, brk: int, brk1: int, brk2: int)
    requires l.Valid() && b <= l.Last() && 0 < l.base
    requires Locates(l, hi, limit, free, nodes, b, r, brk, brk1)
             && Locates(l, hi, limit, free', nodes, b, r', brk, brk2)
    requires |free| == |free'| && forall j :: limit <= j < |free| ==> free[j] == free'[j]
    ensures r == r' && (r != 0 ==> brk1 == brk2)
  {
    hide FreeNode, Layout.Addr, Layout.Size, Layout.Need;
    if exists u :: Suffices(l, limit, nodes, b, u) {
      var c :| Nearest(l, limit, free, nodes, b, c) && Reserves(hi, l.Addr(c), l.Need(c.b, b), r, brk, brk1);
      var d :| Nearest(l, limit, free', nodes, b, d) && Reserves(hi, l.Addr(d), l.Need(d.b, b), r', brk, brk2);
      NearestUnique(l, limit, free, free', nodes, b, c, d);
    }
  }

  /** Which block is live then. */
  lemma GrantsUnique(l: Layout, live: map<Node, int>, request: int, b: nat, r: int, live1: map<Node, int>,
                     live2: map<Node, int>)
    requires l.Valid() && b <= l.Last()
    requires Grants(l, live, request, b, r, live1) && Grants(l, live, request, b, r, live2)
    ensures live1 == live2
  {
    hide Layout.Addr;
    if r != 0 {
      var u :| u !in live && u.b == b && l.Addr(u) + HEADER_SIZE == r && live1 == live[u := request];
      var v :| v !in live && v.b == b && l.Addr(v) + HEADER_SIZE == r && live2 == live[v := request];
      SameBlock(l, u, v);
    }
  }

  /** The lists of two states with the same live blocks and the same root, if they keep the order of the same lists. */
  lemma ListsUnique(l: Layout, p: Point, q: Point, free: FreeLists, free': FreeLists, limit: nat)
    requires Proper(l, p) && Proper(l, q) && p.limit == q.limit && p.live == q.live
    requires Steady(free, p.free, limit, p.limit) && Steady(free', q.free, limit, p.limit)
    requires |free| == |free'| && forall j :: limit <= j < |free| ==> free[j] == free'[j]
    ensures |p.free| == |q.free| && forall j :: p.limit <= j < |p.free| ==> p.free[j] == q.free[j]
  {
    hide Stable, FreeNode, Placed;
    forall j | p.limit <= j < |p.free|
      ensures p.free[j] == q.free[j]
    {
      forall k
        ensures k in p.free[j] <==> k in q.free[j]
      {
        Members(l, p, j, k);
        Members(l, q, j, k);
      }
      StableUnique(p.free[j], q.free[j], if j < limit then [] else free[j]);
    }
  }

  lemma Members(l: Layout, p: Point, j: nat, k: nat)
    requires Proper(l, p) && p.limit <= j < |p.free|
    ensures k in p.free[j] <==> FreeNode(p.live.Keys, p.limit, l.Last(), Node(j, k))
  {
  }

  /** One request has one outcome, NULL or not. */
  lemma FoundUnique(l: Layout, hi: int, p: Point, q: Point, p': Point, q': Point, size: nat, r: int, r': int, b: nat,
                    b': nat)
    requires Proper(l, p') && Proper(l, q') && Same(p, q)
    requires Found(l, hi, p, p', size, r, b) && Found(l, hi, q, q', size, r', b')
    ensures r == r' && Same(p'.(pointers := map[]), q'.(pointers := map[]))
  {
    hide Proper, Suffices, Steady, Locates, Grants, Doubled, Layout.Valid, Layout.Fits, Backing;
    FitBounds(l, size + HEADER_SIZE, b);
    l.FitsUnique(size + HEADER_SIZE, b, b');
    LocatesUnique(l, hi, p.limit, p.free, q.free, p.live.Keys, b, r, r', p.brk, p'.brk, q'.brk);
    GrantsUnique(l, p.live, size, b, r, p'.live, q'.live);
    RootedUnique(l, hi, p.limit, exists u :: Suffices(l, p.limit, p.live.Keys, b, u), p.live == map[], b, p'.limit,
      q'.limit);
    ListsUnique(l, p', q', p.free, q.free, p.limit);
  }

  lemma FitBounds(l: Layout, request: int, b: nat)
    requires l.Valid() && l.Fits(request, b)
    ensures b <= l.Last() && 0 < l.base && l.minLog <= l.maxLog
  {
  }

  lemma RootedUnique(l: Layout, hi: int, limit: nat, found: bool, none: bool, b: nat, c: nat, d: nat)
    requires l.Valid() && limit <= l.Last() && Rooted(l, hi, limit, found, none, b, c)
    requires Rooted(l, hi, limit, found, none, b, d)
    ensures c == d
  {
    hide Doubled;
    if !found && !none {
      DoubledUnique(l, hi, limit, if limit == 0 || b == 0 then 0 else if limit <= b then limit - 1 else b - 1, c, d);
    }
  }

  /** The lists of buckets other than that of the block that was released or merged. */
  lemma ReturnedUnique(l: Layout, p: Point, q: Point, free: FreeLists, free': FreeLists, v: Node, c: Node, j: nat)
    requires Proper(l, p) && Proper(l, q) && p.limit == q.limit && p.live == q.live
    requires Returned(free, p.free, v, c) && Returned(free', q.free, v, c)
    requires p.limit <= j < |free| == |free'| && free[j] == free'[j]
    ensures j < |p.free| && j < |q.free| && p.free[j] == q.free[j]
  {
    hide Sublist, Under, Proper, FreeNode;
    if c.b < j {
      forall k
        ensures k in p.free[j] <==> k in q.free[j]
      {
        Members(l, p, j, k);
        Members(l, q, j, k);
      }
      SublistUnique(p.free[j], q.free[j], free[j]);
    }
  }

  /** One release has one outcome. */
  lemma GivenUnique(l: Layout, p: Point, q: Point, p': Point, q': Point, pointer: int, v: Node, c: Node, u: Node,
                    d: Node)
    requires Proper(l, p) && Proper(l, p') && Proper(l, q') && Same(p, q)
    requires Given(l, p, p', pointer, v, c) && Given(l, q, q', pointer, u, d)
    ensures Same(p'.(pointers := map[]), q'.(pointers := map[]))
  {
    hide FreeNode, Returned, Layout.Addr;
    if pointer != 0 {
      SameAddr(l, u, v);
      ReleasedUnder(p.free, p'.free, v, c);
      ReleasedUnder(q.free, q'.free, u, d);
      OneAbove(p'.live.Keys, p'.limit, l.Last(), v, c, d);
      forall j | p.limit <= j < |p.free|
        ensures p'.free[j] == q'.free[j]
      {
        ReturnedUnique(l, p', q', p.free, q.free, v, c, j);
      }
    }
  }

  lemma ReleasedUnder(free: FreeLists, free': FreeLists, v: Node, c: Node)
    requires Returned(free, free', v, c)
    ensures Under(v, c) && |free'| == |free|
  {
  }

  /** There is one free block around v. */
  lemma OneAbove(nodes: set<Node>, limit: nat, last: nat, v: Node, c: Node, d: Node)
    requires Placed(nodes, limit, last) && FreeNode(nodes, limit, last, c) && FreeNode(nodes, limit, last, d)
    requires Under(v, c) && Under(v, d)
    ensures c == d
  {
    hide FreeNode, Placed, Under;
    if c.b <= d.b {
      UnderBoth(v, d, c);
    } else {
      UnderBoth(v, c, d);
    }
    if c != d {
      FreeApartFromFree(nodes, limit, last, c, d);
      FreeApartFromFree(nodes, limit, last, d, c);
    }
  }

  /** One operation has one outcome. */
  lemma TurnUnique(l: Layout, hi: int, op: Op, p: Point, q: Point, p': Point, q': Point)
    requires Proper(l, p) && Proper(l, q) && Proper(l, p') && Proper(l, q') && Same(p, q)
    requires l.Valid() && Turn(l, hi, op, p, p') && Turn(l, hi, op, q, q')
    ensures Same(p', q')
  {
    hide Proper, Found, Given;
    match op {
      case Malloc(id, size) =>
        if size + HEADER_SIZE <= Pow2(l.maxLog) {
          var b :| Found(l, hi, p, p', size, p'.pointers[id], b);
          var b' :| Found(l, hi, q, q', size, q'.pointers[id], b');
          FoundUnique(l, hi, p, q, p', q', size, p'.pointers[id], q'.pointers[id], b, b');
        }
      case Free(id) =>
        var v, c :| Given(l, p, p', p.pointers[id], v, c);
        var u, d :| Given(l, q, q', q.pointers[id], u, d);
        GivenUnique(l, p, q, p', q', p.pointers[id], v, c, u, d);
    }
  }

  lemma {:induction false} AgreeTo(l: Layout, hi: int, ops: seq<Op>, run: seq<Point>, run': seq<Point>, n: nat)
    requires l.Valid() && Runs(l, hi, ops, run) && Runs(l, hi, ops, run') && Same(run[0], run'[0]) && n <= |ops|
    ensures Same(run[n], run'[n])
  {
    hide Proper, Turn, Same;
    if n > 0 {
      AgreeTo(l, hi, ops, run, run', n - 1);
      TurnUnique(l, hi, ops[n - 1], run[n - 1], run'[n - 1], run[n], run'[n]);
    }
  }

  /** A trace has one run: two runs of it from the same state agree at every point, and so give the same pointers. */
  lemma RunDetermined(l: Layout, hi: int, ops: seq<Op>, run: seq<Point>, run': seq<Point>)
    requires l.Valid() && Runs(l, hi, ops, run) && Runs(l, hi, ops, run') && Same(run[0], run'[0])
    ensures forall i :: 0 <= i <= |ops| ==> Same(run[i], run'[i])
  {
    forall i | 0 <= i <= |ops|
      ensures Same(run[i], run'[i])
    {
      AgreeTo(l, hi, ops, run, run', i);
    }
  }
}
