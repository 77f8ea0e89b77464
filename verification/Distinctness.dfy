/** Sequences without repetition, and the size test by which programs recognise them. */
module Distinctness {
  predicate Distinct<T(==)>(s: seq<T>) { forall i, j :: 0 <= i < j < |s| ==> s[i] != s[j] }

  lemma {:induction false} DistinctByCount<T>(s: seq<T>)
    ensures |set x | x in s| <= |s|
    ensures |set x | x in s| == |s| <==> Distinct(s)
    decreases |s|
  {
    hide Distinct;
    if s == [] {
      NothingIsDistinct<T>();
    } else {
      var n := |s| - 1;
      var before, all := set x | x in s[..n], set x | x in s;
      DistinctByCount(s[..n]);
      assert s == s[..n] + [s[n]];
      assert all == before + {s[n]};
      DistinctByLast(s);
      if s[n] in before { assert all == before; }
    }
  }

  lemma {:induction false} DistinctByLast<T>(s: seq<T>)
    requires s != []
    ensures Distinct(s) <==> Distinct(s[..|s| - 1]) && s[|s| - 1] !in s[..|s| - 1]
  {
    var n := |s| - 1;
    assert forall i :: 0 <= i < n ==> s[..n][i] == s[i];
  }

  lemma {:induction false} NothingIsDistinct<T>()
    ensures Distinct<T>([])
  {
  }
}
