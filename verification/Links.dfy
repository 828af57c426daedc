/** Doubly linked lists threaded through memory words: a node at address x keeps the
    address of its predecessor in the word at x and of its successor in the word at x + 4.
    All the allocators lay their free-list links out this way. */
module Links {
  import opened Memlib

  function Pred(m: Words, x: int): int { At(m, x) }

  function Succ(m: Words, x: int): int { At(m, x + 4) }

  /** What precedes position k of the list s, and what stands there. */
  function Left(before: int, s: seq<int>, k: int): int
    requires 0 <= k <= |s|
  {
    if k == 0 then before else s[k - 1]
  }

  function Right(s: seq<int>, after: int, k: int): int
    requires 0 <= k <= |s|
  {
    if k == |s| then after else s[k]
  }

  /** The nodes of s are linked both ways in that order, between `before` and `after`. */
  ghost predicate Chain(m: Words, before: int, s: seq<int>, after: int) {
    && (forall i {:trigger Pred(m, s[i])} :: 0 <= i < |s| ==> Pred(m, s[i]) == Left(before, s, i))
    && (forall i {:trigger Succ(m, s[i])} :: 0 <= i < |s| ==> Succ(m, s[i]) == Right(s, after, i + 1))
  }

  ghost predicate Distinct(s: seq<int>) {
    forall i, j :: 0 <= i < j < |s| ==> s[i] != s[j]
  }

  /** No two different nodes share a link word. */
  ghost predicate Aligned(s: seq<int>) {
    forall x :: x in s ==> x % 8 == 0
  }

  function Insert(s: seq<int>, k: int, x: int): seq<int>
    requires 0 <= k <= |s|
  {
    s[..k] + [x] + s[k..]
  }

  function Delete(s: seq<int>, k: int): seq<int>
    requires 0 <= k < |s|
  {
    s[..k] + s[k + 1..]
  }

  lemma DeleteFirst(s: seq<int>)
    requires s != []
    ensures Delete(s, 0) == s[1..]
  {
  }

  /** Nodes at multiples of 8 have disjoint link words. */
  lemma Apart8(a: int, b: int)
    requires a % 8 == 0 && b % 8 == 0
    ensures a == b || a + 8 <= b || b + 8 <= a
  {
  }

  lemma InsertMembers(s: seq<int>, k: int, x: int)
    requires 0 <= k <= |s|
    ensures forall y :: y in Insert(s, k, x) <==> y == x || y in s
    ensures Distinct(s) && x !in s ==> Distinct(Insert(s, k, x))
  {
    forall y
      ensures y in Insert(s, k, x) <==> y == x || y in s
    {
      assert s == s[..k] + s[k..];
    }
  }

  lemma DeleteMembers(s: seq<int>, k: int)
    requires 0 <= k < |s| && Distinct(s)
    ensures forall y :: y in Delete(s, k) <==> y in s && y != s[k]
    ensures Distinct(Delete(s, k))
  {
    assert s == s[..k] + [s[k]] + s[k + 1..];
  }

  /** Linking x in at position k needs its own two links, and one link of each neighbour. */
  lemma ChainInsert(m: Words, m': Words, before: int, s: seq<int>, after: int, k: int, x: int)
    requires Chain(m, before, s, after) && Distinct(s) && 0 <= k <= |s|
    requires Pred(m', x) == Left(before, s, k) && Succ(m', x) == Right(s, after, k)
    requires before !in s && after !in s
    requires forall y :: y in s ==> Succ(m', y) == if y == Left(before, s, k) then x else Succ(m, y)
    requires forall y :: y in s ==> Pred(m', y) == if y == Right(s, after, k) then x else Pred(m, y)
    ensures Chain(m', before, Insert(s, k, x), after)
  {
    var t := Insert(s, k, x);
    forall i | 0 <= i < |t|
      ensures Pred(m', t[i]) == Left(before, t, i) && Succ(m', t[i]) == Right(t, after, i + 1)
    {
      if i < k {
        assert t[i] == s[i] && Pred(m, s[i]) == Left(before, s, i) && Succ(m, s[i]) == Right(s, after, i + 1);
      } else if k < i {
        assert t[i] == s[i - 1] && Pred(m, s[i - 1]) == Left(before, s, i - 1)
          && Succ(m, s[i - 1]) == Right(s, after, i);
      }
    }
  }

  /** Unlinking position k needs one link of each neighbour. */
  lemma ChainDelete(m: Words, m': Words, before: int, s: seq<int>, after: int, k: int)
    requires Chain(m, before, s, after) && Distinct(s) && 0 <= k < |s|
    requires before !in s && after !in s
    requires forall y :: y in s && y != s[k] ==>
      Succ(m', y) == if y == Left(before, s, k) then Right(s, after, k + 1) else Succ(m, y)
    requires forall y :: y in s && y != s[k] ==>
      Pred(m', y) == if y == Right(s, after, k + 1) then Left(before, s, k) else Pred(m, y)
    ensures Chain(m', before, Delete(s, k), after)
  {
    var t := Delete(s, k);
    forall i | 0 <= i < |t|
      ensures Pred(m', t[i]) == Left(before, t, i) && Succ(m', t[i]) == Right(t, after, i + 1)
    {
      if i < k {
        assert t[i] == s[i] && Pred(m, s[i]) == Left(before, s, i) && Succ(m, s[i]) == Right(s, after, i + 1);
      } else {
        assert t[i] == s[i + 1] && Pred(m, s[i + 1]) == Left(before, s, i + 1)
          && Succ(m, s[i + 1]) == Right(s, after, i + 2);
      }
    }
  }

  /** A chain does not see writes outside its nodes' links. */
  lemma ChainFrame(m: Words, m': Words, before: int, s: seq<int>, after: int)
    requires Chain(m, before, s, after)
    requires forall y :: y in s ==> Pred(m', y) == Pred(m, y) && Succ(m', y) == Succ(m, y)
    ensures Chain(m', before, s, after)
  {
  }

  /** A circular list through the sentinel h. */
  ghost predicate Ring(m: Words, h: int, s: seq<int>) {
    && Chain(m, h, s, h) && Distinct(s) && h !in s
    && Pred(m, h) == Left(h, s, |s|)
    && Succ(m, h) == Right(s, h, 0)
    && h % 8 == 0 && Aligned(s)
  }

  /** The four writes that link x between neighbours p and q of a ring. */
  function Linked(m: Words, p: int, x: int, q: int): Words {
    m[x + 4 := q][x := p][q := x][p + 4 := x]
  }

  /** The two writes that unlink what is between p and q. */
  function Unlinked(m: Words, p: int, q: int): Words {
    m[p + 4 := q][q := p]
  }

  /** Linking and unlinking write only the links of the nodes concerned. */
  ghost predicate SameOutside(m: Words, m': Words, p: int, x: int, q: int) {
    forall a :: !(p <= a < p + 8 || x <= a < x + 8 || q <= a < q + 8) ==> At(m', a) == At(m, a)
  }

  lemma LinkedOutside(m: Words, p: int, x: int, q: int)
    ensures SameOutside(m, Linked(m, p, x, q), p, x, q)
  {
  }

  lemma UnlinkedOutside(m: Words, p: int, x: int, q: int)
    ensures SameOutside(m, Unlinked(m, p, q), p, x, q)
  {
  }

  lemma LinkedAt(m: Words, p: int, x: int, q: int, y: int)
    requires p % 8 == 0 && x % 8 == 0 && q % 8 == 0 && y % 8 == 0 && x != p && x != q
    ensures Pred(Linked(m, p, x, q), y) == if y == q then x else if y == x then p else Pred(m, y)
    ensures Succ(Linked(m, p, x, q), y) == if y == p then x else if y == x then q else Succ(m, y)
  {
    Apart8(y, p);
    Apart8(y, x);
    Apart8(y, q);
    Apart8(p, x);
    Apart8(x, q);
    Apart8(p, q);
  }

  lemma UnlinkedAt(m: Words, p: int, q: int, y: int)
    requires p % 8 == 0 && q % 8 == 0 && y % 8 == 0
    ensures Pred(Unlinked(m, p, q), y) == if y == q then p else Pred(m, y)
    ensures Succ(Unlinked(m, p, q), y) == if y == p then q else Succ(m, y)
  {
    Apart8(y, p);
    Apart8(y, q);
    Apart8(p, q);
  }

  lemma RingInsert(m: Words, h: int, s: seq<int>, k: int, x: int)
    requires Ring(m, h, s) && 0 <= k <= |s| && x !in s && x != h && x % 8 == 0
    ensures Ring(Linked(m, Left(h, s, k), x, Right(s, h, k)), h, Insert(s, k, x))
  {
    var p, q := Left(h, s, k), Right(s, h, k);
    var m' := Linked(m, p, x, q);
    assert (p == h || p in s) && (q == h || q in s);
    InsertMembers(s, k, x);
    LinkedAt(m, p, x, q, h);
    LinkedAt(m, p, x, q, x);
    forall y | y in s
      ensures Succ(m', y) == if y == p then x else Succ(m, y)
      ensures Pred(m', y) == if y == q then x else Pred(m, y)
    {
      LinkedAt(m, p, x, q, y);
    }
    ChainInsert(m, m', h, s, h, k, x);
  }

  lemma RingDelete(m: Words, h: int, s: seq<int>, k: int)
    requires Ring(m, h, s) && 0 <= k < |s|
    ensures Pred(m, s[k]) == Left(h, s, k) && Succ(m, s[k]) == Right(s, h, k + 1)
    ensures Ring(Unlinked(m, Pred(m, s[k]), Succ(m, s[k])), h, Delete(s, k))
  {
    var p, q := Left(h, s, k), Right(s, h, k + 1);
    var m' := Unlinked(m, p, q);
    assert (p == h || p in s) && (q == h || q in s);
    DeleteMembers(s, k);
    UnlinkedAt(m, p, q, h);
    forall y | y in s
      ensures Succ(m', y) == if y == p then q else Succ(m, y)
      ensures Pred(m', y) == if y == q then p else Pred(m, y)
    {
      UnlinkedAt(m, p, q, y);
    }
    ChainDelete(m, m', h, s, h, k);
  }

  lemma RingFrame(m: Words, m': Words, h: int, s: seq<int>)
    requires Ring(m, h, s)
    requires forall y :: y == h || y in s ==> Pred(m', y) == Pred(m, y) && Succ(m', y) == Succ(m, y)
    ensures Ring(m', h, s)
  {
  }

  /** A ring whose sentinel need not point back yet while the ring is empty. */
  ghost predicate HalfRing(m: Words, h: int, s: seq<int>) {
    && Chain(m, h, s, h) && Distinct(s) && h !in s
    && (s != [] ==> Pred(m, h) == Left(h, s, |s|))
    && Succ(m, h) == Right(s, h, 0)
    && h % 8 == 0 && Aligned(s)
  }

  lemma HalfIsRing(m: Words, h: int, s: seq<int>)
    ensures Ring(m, h, s) ==> HalfRing(m, h, s)
    ensures HalfRing(m, h, s) && s != [] ==> Ring(m, h, s)
  {
  }

  /** Linking x in behind the sentinel completes the ring. */
  lemma RingAddFront(m: Words, h: int, s: seq<int>, x: int)
    requires HalfRing(m, h, s) && x !in s && x != h && x % 8 == 0
    ensures Ring(Linked(m, h, x, Succ(m, h)), h, [x] + s)
  {
    if s == [] {
      LinkedAt(m, h, x, h, h);
      LinkedAt(m, h, x, h, x);
    } else {
      assert Insert(s, 0, x) == [x] + s;
      RingInsert(m, h, s, 0, x);
    }
  }

  lemma HalfRingFrame(m: Words, m': Words, h: int, s: seq<int>)
    requires HalfRing(m, h, s)
    requires forall y :: y == h || y in s ==> Pred(m', y) == Pred(m, y) && Succ(m', y) == Succ(m, y)
    ensures HalfRing(m', h, s)
  {
  }
}
