/** Lists with some of their elements left out: what stays is in the same order. */
module Sublists {
  import opened Links

  /** The elements of s that are in `keep`, in the order of s. */
  function Only(s: seq<int>, keep: set<int>): (t: seq<int>)
    ensures forall x :: x in t <==> x in s && x in keep
  {
    if s == [] then [] else (if s[0] in keep then [s[0]] else []) + Only(s[1..], keep)
  }

  function Members(s: seq<int>): set<int> {
    set x | x in s
  }

  /** t is s with some elements left out. */
  ghost predicate Sublist(t: seq<int>, s: seq<int>) {
    t == Only(s, Members(t))
  }

  /** A sublist is known by its members. */
  lemma SublistUnique(t: seq<int>, u: seq<int>, s: seq<int>)
    requires Sublist(t, s) && Sublist(u, s) && forall x :: x in t <==> x in u
    ensures t == u
  {
    forall x
      ensures x in Members(t) <==> x in Members(u)
    {
      assert x in t <==> x in u;
    }
    assert Members(t) == Members(u);
  }

  lemma {:induction false} OnlyAll(s: seq<int>, keep: set<int>)
    requires forall i :: 0 <= i < |s| ==> s[i] in keep
    ensures Only(s, keep) == s
  {
    if s != [] {
      OnlyAll(s[1..], keep);
      assert Only(s, keep) == [s[0]] + s[1..] == s;
    }
  }

  lemma {:induction false} OnlyDelete(s: seq<int>, k: nat, keep: set<int>)
    requires k < |s| && s[k] !in keep
    ensures Only(Delete(s, k), keep) == Only(s, keep)
  {
    if k == 0 {
      assert Delete(s, 0) == s[1..];
    } else {
      OnlyDelete(s[1..], k - 1, keep);
      assert Delete(s, k)[1..] == Delete(s[1..], k - 1);
    }
  }

  lemma {:induction false} OnlyTwice(s: seq<int>, keep: set<int>, fewer: set<int>)
    requires fewer <= keep
    ensures Only(Only(s, keep), fewer) == Only(s, fewer)
  {
    if s != [] {
      OnlyTwice(s[1..], keep, fewer);
      var rest := Only(s[1..], keep);
      if s[0] in keep {
        assert Only(s, keep) == [s[0]] + rest && ([s[0]] + rest)[1..] == rest;
      } else {
        assert Only(s, keep) == rest;
      }
    }
  }

  lemma SublistSame(s: seq<int>)
    ensures Sublist(s, s)
  {
    OnlyAll(s, Members(s));
  }

  lemma SublistDelete(s: seq<int>, k: nat)
    requires k < |s| && Distinct(s)
    ensures Sublist(Delete(s, k), s)
  {
    var t := Delete(s, k);
    DeleteMembers(s, k);
    OnlyDelete(s, k, Members(t));
    OnlyAll(t, Members(t));
  }

  lemma SublistTrans(t: seq<int>, s: seq<int>, r: seq<int>)
    requires Sublist(t, s) && Sublist(s, r)
    ensures Sublist(t, r)
  {
    OnlyTwice(r, Members(s), Members(t));
  }
}
