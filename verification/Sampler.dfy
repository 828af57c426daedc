/** fcyc.c: the K-best sampler, which keeps the k smallest measurements and stops when they are close to each other. */
module Sampler {

  ghost predicate Ascending(s: seq<real>) {
    forall i, j :: 0 <= i < j < |s| ==> s[i] <= s[j]
  }

  /** v put into an ascending sequence, behind everything that is not greater. */
  function Insert(s: seq<real>, v: real): (t: seq<real>)
    ensures |t| == |s| + 1
  {
    if s == [] || s[|s| - 1] <= v then s + [v] else Insert(s[..|s| - 1], v) + [s[|s| - 1]]
  }

  /** All samples, smallest first. */
  function Sorted(samples: seq<real>): (t: seq<real>)
    ensures |t| == |samples|
  {
    if samples == [] then [] else Insert(Sorted(samples[..|samples| - 1]), samples[|samples| - 1])
  }

  lemma AscendingAppend(s: seq<real>, last: real)
    requires Ascending(s) && forall x :: x in s ==> x <= last
    ensures Ascending(s + [last])
  {
    forall i, j | 0 <= i < j < |s| + 1
      ensures (s + [last])[i] <= (s + [last])[j]
    {
      assert s[i] in s;
    }
  }

  lemma AscendingLast(s: seq<real>, front: seq<real>)
    requires Ascending(s) && s != [] && front == s[..|s| - 1]
    ensures Ascending(front)
    ensures forall x :: x in s ==> x <= s[|s| - 1]
    ensures forall x :: x in front ==> x <= s[|s| - 1]
  {
  }

  lemma {:induction false} InsertSpec(s: seq<real>, v: real)
    requires Ascending(s)
    ensures Ascending(Insert(s, v)) && multiset(Insert(s, v)) == multiset(s) + multiset{v}
    ensures forall x :: x in Insert(s, v) <==> x == v || x in s
  {
    hide Ascending;
    if s == [] {
      AscendingAppend(s, v);
    } else {
      var front, last := s[..|s| - 1], s[|s| - 1];
      assert s == front + [last];
      AscendingLast(s, front);
      if v < last {
        InsertSpec(front, v);
        AscendingAppend(Insert(front, v), last);
      } else {
        AscendingAppend(s, v);
      }
    }
  }

  /** Sorted is a sorted permutation of the samples. */
  lemma {:induction false} SortedSpec(samples: seq<real>)
    ensures Ascending(Sorted(samples)) && multiset(Sorted(samples)) == multiset(samples)
  {
    if samples != [] {
      var front, v := samples[..|samples| - 1], samples[|samples| - 1];
      assert samples == front + [v];
      SortedSpec(front);
      InsertSpec(Sorted(front), v);
    }
  }

  lemma SortedStep(samples: seq<real>, v: real)
    ensures Sorted(samples + [v]) == Insert(Sorted(samples), v)
  {
    assert (samples + [v])[..|samples|] == samples;
  }

  function Min(a: int, b: int): int { if a < b then a else b }

  /** The k smallest samples, or all of them. */
  function Best(samples: seq<real>, k: nat): seq<real> {
    Sorted(samples)[..Min(|samples|, k)]
  }

  /** The k best are samples, and the others are no smaller. */
  lemma BestAreSmallest(samples: seq<real>, k: nat)
    ensures Ascending(Best(samples, k)) && |Best(samples, k)| == Min(|samples|, k)
    ensures multiset(Best(samples, k)) <= multiset(samples)
    ensures forall x, y :: x in Best(samples, k) && y in multiset(samples) - multiset(Best(samples, k)) ==> x <= y
  {
    hide Sorted, Insert, Ascending;
    var s, m := Sorted(samples), Min(|samples|, k);
    SortedSpec(samples);
    Parts(s, m);
    PartsOrdered(s, m);
  }

  lemma PartsOrdered(s: seq<real>, m: nat)
    requires Ascending(s) && m <= |s|
    ensures Ascending(s[..m]) && forall x, y :: x in s[..m] && y in s[m..] ==> x <= y
  {
    forall x, y | x in s[..m] && y in s[m..]
      ensures x <= y
    {
      var i :| 0 <= i < m && s[i] == x;
      var j :| 0 <= j < |s| - m && s[m..][j] == y;
      assert s[m + j] == y;
    }
  }

  lemma Parts(s: seq<real>, m: nat)
    requires m <= |s|
    ensures multiset(s[..m]) <= multiset(s) && multiset(s) - multiset(s[..m]) == multiset(s[m..])
    ensures forall y :: y in multiset(s) - multiset(s[..m]) <==> y in s[m..]
  {
    assert s == s[..m] + s[m..];
  }

  /** The insertion that leaves the first pos elements and moves the others up. */
  lemma {:induction false} InsertAt(s: seq<real>, v: real, pos: nat)
    requires pos <= |s| && (forall i :: pos <= i < |s| ==> v < s[i]) && (pos == 0 || s[pos - 1] <= v)
    ensures Insert(s, v) == s[..pos] + [v] + s[pos..]
  {
    if pos < |s| {
      var front := s[..|s| - 1];
      InsertAt(front, v, pos);
      assert s[..pos] == front[..pos] && s[pos..] == front[pos..] + [s[|s| - 1]];
    }
  }

  /** The k smallest of one more sample come from the k smallest. */
  lemma {:induction false} InsertBest(s: seq<real>, v: real, k: nat)
    requires Ascending(s) && 1 <= k <= |s|
    ensures Insert(s, v)[..k] == if v < s[k - 1] then Insert(s[..k - 1], v) else s[..k]
    decreases |s|
  {
    var front := s[..|s| - 1];
    if v < s[|s| - 1] {
      if k < |s| {
        InsertBest(front, v, k);
        assert front[..k] == s[..k] && front[..k - 1] == s[..k - 1];
      }
    } else {
      assert s[k - 1] <= s[|s| - 1];
    }
  }

  /** Enough samples, and the smallest and the k-th smallest are within epsilon of each other. */
  ghost predicate Converged(samples: seq<real>, k: nat, epsilon: real) {
    1 <= k <= |samples| && (1.0 + epsilon) * Sorted(samples)[0] >= Sorted(samples)[k - 1]
  }

  ghost predicate SmallestOf(s: seq<real>, x: real) {
    x in s && forall z :: z in s ==> x <= z
  }

  /** What it means to have converged: there are k samples, and each of the k smallest is at most epsilon above the
      smallest; where that keeps the order of values, at most epsilon above any other. */
  lemma ConvergedMeans(samples: seq<real>, k: nat, epsilon: real)
    ensures Converged(samples, k, epsilon) <==>
      1 <= k <= |samples|
      && forall x, y :: SmallestOf(Best(samples, k), x) && y in Best(samples, k) ==> y <= (1.0 + epsilon) * x
    ensures 1.0 + epsilon >= 0.0 ==>
      (Converged(samples, k, epsilon) <==>
        1 <= k <= |samples|
        && forall x, y :: x in Best(samples, k) && y in Best(samples, k) ==> y <= (1.0 + epsilon) * x)
  {
    hide Sorted, Best, SmallestOf;
    if 1 <= k <= |samples| {
      BestEnds(samples, k);
      WithinMeans(Best(samples, k), Sorted(samples)[0], Sorted(samples)[k - 1], 1.0 + epsilon);
    }
  }

  lemma BestEnds(samples: seq<real>, k: nat)
    requires 1 <= k <= |samples|
    ensures Sorted(samples)[0] in Best(samples, k) && Sorted(samples)[k - 1] in Best(samples, k)
    ensures forall x :: x in Best(samples, k) ==> Sorted(samples)[0] <= x <= Sorted(samples)[k - 1]
  {
    hide Sorted;
    var s := Sorted(samples);
    SortedSpec(samples);
    assert s[..k][0] == s[0] && s[..k][k - 1] == s[k - 1];
    forall x | x in s[..k]
      ensures s[0] <= x <= s[k - 1]
    {
      var i :| 0 <= i < k && s[i] == x;
    }
  }

  lemma WithinMeans(t: seq<real>, lo: real, hi: real, c: real)
    requires lo in t && hi in t && forall x :: x in t ==> lo <= x <= hi
    ensures c * lo >= hi <==> forall x, y :: SmallestOf(t, x) && y in t ==> y <= c * x
    ensures c >= 0.0 ==> (c * lo >= hi <==> forall x, y :: x in t && y in t ==> y <= c * x)
  {
    assert SmallestOf(t, lo);
    forall x | SmallestOf(t, x)
      ensures x == lo
    {
    }
    if c >= 0.0 && c * lo >= hi {
      forall x, y | x in t && y in t
        ensures y <= c * x
      {
        ScaleUp(c, lo, x, y);
      }
    }
  }

  lemma ScaleUp(c: real, lo: real, x: real, y: real)
    requires 0.0 <= c && lo <= x && y <= c * lo
    ensures y <= c * x
  {
    assert c * (x - lo) >= 0.0;
    assert c * x == c * lo + c * (x - lo);
  }

  /** The first n measurements. */
  function First(measure: nat -> real, n: nat): (s: seq<real>)
    ensures |s| == n && forall i :: 0 <= i < n ==> s[i] == measure(i)
  {
    seq(n, i requires 0 <= i => measure(i))
  }

  class KBest {
    var kbest: int
    var maxsamples: int
    var epsilon: real
    var values: array?<real>
    var samplecount: int
    ghost var samples: seq<real>

    /** set_fcyc_k, set_fcyc_maxsamples and set_fcyc_epsilon */
    constructor (kbest: int, maxsamples: int, epsilon: real)
      ensures this.kbest == kbest && this.maxsamples == maxsamples && this.epsilon == epsilon
    {
      this.kbest, this.maxsamples, this.epsilon := kbest, maxsamples, epsilon;
      values, samplecount, samples := null, 0, [];
    }

    /** The slots in use hold the smallest samples, in order. */
    ghost predicate Valid()
      reads this, values
    {
      1 <= kbest && values != null && values.Length == kbest && samplecount == |samples|
      && values[..Min(samplecount, kbest)] == Best(samples, kbest)
    }

    /** init_sampler */
    method InitSampler()
      requires 1 <= kbest
      modifies this`values, this`samplecount, this`samples
      ensures Valid() && fresh(values) && samples == [] && samplecount == 0
    {
      values := new real[kbest](_ => 0.0);
      samplecount, samples := 0, [];
    }

    /** The insertion sort of add_sample: the value in slot start moves down to its place among those before it. */
    method SiftDown(start: int)
      requires values != null && 0 <= start < values.Length
      modifies values
      ensures values[..start + 1] == Insert(old(values[..start]), old(values[start]))
      ensures values[start + 1..] == old(values[start + 1..])
      ensures start == 0 ==> values[..] == old(values[..])
    {
      hide Insert;
      ghost var s, v := values[..start], values[start];
      var pos := start;
      while pos > 0 && values[pos - 1] > values[pos]
        invariant 0 <= pos <= start && values[pos] == v
        invariant forall i :: 0 <= i < pos ==> values[i] == s[i]
        invariant forall i :: pos <= i < start ==> v < s[i] && values[i + 1] == s[i]
        invariant forall i :: start < i < values.Length ==> values[i] == old(values[i])
      {
        var temp := values[pos - 1];
        values[pos - 1] := values[pos];
        values[pos] := temp;
        pos := pos - 1;
      }
      InsertAt(s, v, pos);
      assert values[..start + 1] == s[..pos] + [v] + s[pos..];
    }

    /** add_sample */
    method AddSample(val: real)
      requires Valid()
      modifies this`samplecount, this`samples, values
      ensures Valid() && samples == old(samples) + [val] && samplecount == old(samplecount) + 1
    {
      hide Sorted, Insert, Ascending;
      ghost var n, s := Min(samplecount, kbest), Sorted(samples);
      ghost var was := values[..n];
      SortedSpec(samples);
      SortedStep(samples, val);
      var pos := 0;
      if samplecount < kbest {
        pos := samplecount;
        values[pos] := val;
        assert values[..pos] == was == s;
      } else {
        InsertBest(s, val, kbest);
        assert was[kbest - 1] == s[kbest - 1];
        if val < values[kbest - 1] {
          pos := kbest - 1;
          values[pos] := val;
          assert values[..pos] == s[..kbest - 1];
        }
      }
      samplecount := samplecount + 1;
      samples := samples + [val];
      ghost var now := values[..];
      SiftDown(pos);
      assert Best(samples, kbest) == Insert(s, val)[..Min(samplecount, kbest)];
      if n < kbest {
        assert values[..samplecount] == Insert(s, val) == Insert(s, val)[..samplecount];
      } else if pos == 0 && kbest != 1 {
        assert values[..kbest] == now[..kbest] == was == s[..kbest];
      }
    }

    /** has_converged */
    predicate HasConverged()
      requires Valid()
      reads this, values
    {
      samplecount >= kbest && (1.0 + epsilon) * values[0] >= values[kbest - 1]
    }

    lemma ConvergedAgrees()
      requires Valid()
      ensures HasConverged() <==> Converged(samples, kbest, epsilon)
    {
      var s := Sorted(samples);
      if samplecount >= kbest {
        assert values[..kbest][0] == s[..kbest][0] && values[..kbest][kbest - 1] == s[..kbest][kbest - 1];
      }
    }

    lemma SmallestFirst()
      requires Valid() && samples != []
      ensures values != null && 0 < values.Length && values[0] == Sorted(samples)[0]
    {
      assert values[..Min(samplecount, kbest)][0] == Sorted(samples)[0];
    }

    /** fcyc: measure until the k best have converged or maxsamples is reached, at least once; the result is the
        smallest measurement made. */
    method Fcyc(measure: nat -> real) returns (result: real, ghost n: nat)
      requires 1 <= kbest
      modifies this
      ensures kbest == old(kbest) && maxsamples == old(maxsamples) && epsilon == old(epsilon) && values == null
      ensures 1 <= n && (n == 1 || n <= maxsamples)
      ensures n >= maxsamples || Converged(First(measure, n), kbest, epsilon)
      ensures forall i :: 1 <= i < n ==> i < maxsamples && !Converged(First(measure, i), kbest, epsilon)
      ensures (exists i :: 0 <= i < n && measure(i) == result) && forall i :: 0 <= i < n ==> result <= measure(i)
    {
      hide Sorted, Insert, Ascending, Best, Converged, Valid, HasConverged;
      InitSampler();
      n := 0;
      var stop := false;
      while !stop
        invariant Valid() && fresh(values) && samplecount == n && samples == First(measure, n)
        invariant kbest == old(kbest) && maxsamples == old(maxsamples) && epsilon == old(epsilon)
        invariant n == 0 || n == 1 || n <= maxsamples
        invariant forall i :: 1 <= i < n ==> i < maxsamples && !Converged(First(measure, i), kbest, epsilon)
        invariant if n == 0 then !stop else stop <==> n >= maxsamples || Converged(samples, kbest, epsilon)
        decreases !stop, maxsamples - n
      {
        var cyc := measure(samplecount);
        AddSample(cyc);
        n := n + 1;
        assert samples == First(measure, n);
        ConvergedAgrees();
        stop := !(!HasConverged() && samplecount < maxsamples);
      }
      Smallest(samples);
      SmallestFirst();
      result := values[0];
      values := null;
    }
  }

  lemma Smallest(samples: seq<real>)
    requires samples != []
    ensures Sorted(samples)[0] in samples && forall i :: 0 <= i < |samples| ==> Sorted(samples)[0] <= samples[i]
  {
    var s := Sorted(samples);
    SortedSpec(samples);
    assert s[0] in multiset(s);
    forall i | 0 <= i < |samples|
      ensures s[0] <= samples[i]
    {
      assert samples[i] in multiset(s);
      var j :| 0 <= j < |s| && s[j] == samples[i];
    }
  }
}
