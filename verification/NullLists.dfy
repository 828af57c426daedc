/** Lists ended by the null pointer on both sides, and arrays of such lists, one for each size class. */
module NullLists {
  import opened Memlib
  import opened Links

  /** A doubly linked list of the nodes s; the first node's predecessor and the last node's successor are null. */
  ghost predicate Line(m: Words, s: seq<int>) {
    Chain(m, 0, s, 0) && Distinct(s) && Aligned(s) && 0 !in s
  }

  /** What linking x in between prev and next leaves: x's own links, and one link of each neighbour that is there. */
  ghost predicate Spliced(m: Words, m': Words, prev: int, x: int, next: int) {
    forall a {:trigger At(m', a)} :: At(m', a) ==
      if a == x then prev else if a == x + 4 then next
      else if next != 0 && a == next then x else if prev != 0 && a == prev + 4 then x else At(m, a)
  }

  /** What unlinking the node between prev and next leaves. */
  ghost predicate Skipped(m: Words, m': Words, prev: int, next: int) {
    forall a {:trigger At(m', a)} :: At(m', a) ==
      if next != 0 && a == next then prev else if prev != 0 && a == prev + 4 then next else At(m, a)
  }

  lemma SplicedAt(m: Words, m': Words, prev: int, x: int, next: int, y: int)
    requires Spliced(m, m', prev, x, next)
    requires prev % 8 == 0 && x % 8 == 0 && next % 8 == 0 && y % 8 == 0 && y != 0
    ensures Pred(m', y) == if y == x then prev else if y == next then x else Pred(m, y)
    ensures Succ(m', y) == if y == x then next else if y == prev then x else Succ(m, y)
  {
    Apart8(y, prev);
    Apart8(y, x);
    Apart8(y, next);
    assert At(m', y) == Pred(m', y) && At(m', y + 4) == Succ(m', y);
  }

  lemma SkippedAt(m: Words, m': Words, prev: int, next: int, y: int)
    requires Skipped(m, m', prev, next)
    requires prev % 8 == 0 && next % 8 == 0 && y % 8 == 0 && y != 0
    ensures Pred(m', y) == if y == next then prev else Pred(m, y)
    ensures Succ(m', y) == if y == prev then next else Succ(m, y)
  {
    Apart8(y, prev);
    Apart8(y, next);
    assert At(m', y) == Pred(m', y) && At(m', y + 4) == Succ(m', y);
  }

  /** Only links of the nodes concerned are written; x stands in for a neighbour that is not there. */
  lemma SplicedOutside(m: Words, m': Words, prev: int, x: int, next: int)
    requires Spliced(m, m', prev, x, next)
    ensures SameOutside(m, m', if prev == 0 then x else prev, x, if next == 0 then x else next)
  {
  }

  lemma SkippedOutside(m: Words, m': Words, prev: int, x: int, next: int)
    requires Skipped(m, m', prev, next)
    ensures SameOutside(m, m', if prev == 0 then x else prev, x, if next == 0 then x else next)
  {
  }

  /** What stands next to position k of a line is null or a node. */
  lemma Neighbours(m: Words, s: seq<int>, k: nat)
    requires Line(m, s) && k <= |s|
    ensures var p, q := Left(0, s, k), Right(s, 0, k);
            p % 8 == 0 && q % 8 == 0 && (p == 0 <==> k == 0) && (q == 0 <==> k == |s|) && (p == 0 || p in s)
              && (q == 0 || q in s)
  {
    assert k > 0 ==> s[k - 1] in s;
    assert k < |s| ==> s[k] in s;
  }

  lemma LineInsert(m: Words, m': Words, s: seq<int>, k: nat, x: int)
    requires Line(m, s) && k <= |s| && x !in s && x != 0 && x % 8 == 0
    requires Spliced(m, m', Left(0, s, k), x, Right(s, 0, k))
    ensures Line(m', Insert(s, k, x))
  {
    hide Spliced;
    var p, q := Left(0, s, k), Right(s, 0, k);
    Neighbours(m, s, k);
    InsertMembers(s, k, x);
    SplicedAt(m, m', p, x, q, x);
    forall y | y in s
      ensures Succ(m', y) == if y == p then x else Succ(m, y)
      ensures Pred(m', y) == if y == q then x else Pred(m, y)
    {
      SplicedAt(m, m', p, x, q, y);
    }
    ChainInsert(m, m', 0, s, 0, k, x);
  }

  lemma LineLinks(m: Words, s: seq<int>, k: nat)
    requires Line(m, s) && k < |s|
    ensures Pred(m, s[k]) == Left(0, s, k) && Succ(m, s[k]) == Right(s, 0, k + 1)
  {
  }

  lemma LineDelete(m: Words, m': Words, s: seq<int>, k: nat)
    requires Line(m, s) && k < |s| && Skipped(m, m', Left(0, s, k), Right(s, 0, k + 1))
    ensures Line(m', Delete(s, k))
  {
    hide Skipped;
    var p, q := Left(0, s, k), Right(s, 0, k + 1);
    Neighbours(m, s, k);
    Neighbours(m, s, k + 1);
    DeleteMembers(s, k);
    forall y | y in s
      ensures Succ(m', y) == if y == p then q else Succ(m, y)
      ensures Pred(m', y) == if y == q then p else Pred(m, y)
    {
      SkippedAt(m, m', p, q, y);
    }
    ChainDelete(m, m', 0, s, 0, k);
  }

  lemma LineFrame(m: Words, m': Words, s: seq<int>)
    requires Line(m, s)
    requires forall y :: y in s ==> Pred(m', y) == Pred(m, y) && Succ(m', y) == Succ(m, y)
    ensures Line(m', s)
  {
    ChainFrame(m, m', 0, s, 0);
  }

  type Lists = seq<seq<int>>

  /** heads[g] is the first node of list g. */
  ghost predicate Lines(m: Words, heads: seq<int>, lists: Lists) {
    |heads| == |lists| && forall g :: 0 <= g < |lists| ==> Line(m, lists[g]) && heads[g] == Right(lists[g], 0, 0)
  }

  /** No node is on two lists. */
  ghost predicate Disjoint(lists: Lists) {
    forall g, h, x :: 0 <= g < |lists| && 0 <= h < |lists| && x in lists[g] && x in lists[h] ==> g == h
  }

  lemma LinesInsert(m: Words, m': Words, heads: seq<int>, lists: Lists, g: nat, k: nat, x: int)
    requires Lines(m, heads, lists) && Disjoint(lists) && g < |lists| && k <= |lists[g]|
    requires (forall h :: 0 <= h < |lists| ==> x !in lists[h]) && x != 0 && x % 8 == 0
    requires Spliced(m, m', Left(0, lists[g], k), x, Right(lists[g], 0, k))
    ensures Lines(m', if k == 0 then heads[g := x] else heads, lists[g := Insert(lists[g], k, x)])
  {
    hide Spliced, Line, Chain;
    var s := lists[g];
    Neighbours(m, s, k);
    LineInsert(m, m', s, k, x);
    forall h | 0 <= h < |lists| && h != g
      ensures Line(m', lists[h])
    {
      Others(m, lists, g, h);
      forall y | y in lists[h]
        ensures Pred(m', y) == Pred(m, y) && Succ(m', y) == Succ(m, y)
      {
        SplicedAt(m, m', Left(0, s, k), x, Right(s, 0, k), y);
      }
      LineFrame(m, m', lists[h]);
    }
  }

  lemma LinesDelete(m: Words, m': Words, heads: seq<int>, lists: Lists, g: nat, k: nat)
    requires Lines(m, heads, lists) && Disjoint(lists) && g < |lists| && k < |lists[g]|
    requires Skipped(m, m', Left(0, lists[g], k), Right(lists[g], 0, k + 1))
    ensures Lines(m', if k == 0 then heads[g := Right(lists[g], 0, 1)] else heads, lists[g := Delete(lists[g], k)])
  {
    hide Skipped, Line, Chain;
    var s := lists[g];
    Neighbours(m, s, k);
    Neighbours(m, s, k + 1);
    LineDelete(m, m', s, k);
    forall h | 0 <= h < |lists| && h != g
      ensures Line(m', lists[h])
    {
      Others(m, lists, g, h);
      forall y | y in lists[h]
        ensures Pred(m', y) == Pred(m, y) && Succ(m', y) == Succ(m, y)
      {
        SkippedAt(m, m', Left(0, s, k), Right(s, 0, k + 1), y);
      }
      LineFrame(m, m', lists[h]);
    }
  }

  /** The nodes of another list. */
  lemma Others(m: Words, lists: Lists, g: nat, h: nat)
    requires Disjoint(lists) && g < |lists| && h < |lists| && g != h && Line(m, lists[h])
    ensures forall y :: y in lists[h] ==> y !in lists[g] && y != 0 && y % 8 == 0
  {
  }

  lemma LinesFrame(m: Words, m': Words, heads: seq<int>, lists: Lists)
    requires Lines(m, heads, lists)
    requires forall g, y :: 0 <= g < |lists| && y in lists[g] ==> Pred(m', y) == Pred(m, y) && Succ(m', y) == Succ(m, y)
    ensures Lines(m', heads, lists)
  {
    hide Line;
    forall g | 0 <= g < |lists|
      ensures Line(m', lists[g])
    {
      LineFrame(m, m', lists[g]);
    }
  }
}
