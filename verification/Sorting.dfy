/** A stable sort by a given comparison: the built-in sorts of the modelled programs. */
module Sorting {
  /** Whether the first may stand before the second. */
  type Rule<!T> = (T, T) -> bool

  ghost predicate Orders<T(!new)>(before: Rule<T>) {
    (forall a, b :: before(a, b) || before(b, a)) && forall a, b, c :: before(a, b) && before(b, c) ==> before(a, c)
  }

  function Insert<T>(before: Rule<T>, x: T, sorted: seq<T>): seq<T> {
    if sorted == [] then [x]
    else if before(sorted[0], x) then [sorted[0]] + Insert(before, x, sorted[1..])
    else [x] + sorted
  }

  function Sort<T>(before: Rule<T>, s: seq<T>): seq<T> {
    if s == [] then [] else Insert(before, s[|s| - 1], Sort(before, s[..|s| - 1]))
  }

  ghost predicate Sorted<T>(before: Rule<T>, s: seq<T>) {
    forall i, j :: 0 <= i < j < |s| ==> before(s[i], s[j])
  }

  lemma {:induction false} InsertAdds<T>(before: Rule<T>, x: T, sorted: seq<T>)
    ensures multiset(Insert(before, x, sorted)) == multiset(sorted) + multiset{x}
    ensures |Insert(before, x, sorted)| == |sorted| + 1
    ensures forall y :: y in Insert(before, x, sorted) <==> y == x || y in sorted
    decreases |sorted|
  {
    if sorted != [] {
      assert sorted == [sorted[0]] + sorted[1..];
      InsertAdds(before, x, sorted[1..]);
    }
  }

  lemma {:induction false} PrependSorted<T>(before: Rule<T>, x: T, s: seq<T>)
    requires Sorted(before, s) && forall j :: 0 <= j < |s| ==> before(x, s[j])
    ensures Sorted(before, [x] + s)
  {
  }

  lemma {:induction false} TailIsSorted<T>(before: Rule<T>, s: seq<T>)
    requires Sorted(before, s) && s != []
    ensures Sorted(before, s[1..]) && forall j :: 1 <= j < |s| ==> before(s[0], s[j])
  {
  }

  lemma {:induction false} InsertSorts<T(!new)>(before: Rule<T>, x: T, sorted: seq<T>)
    requires Orders(before) && Sorted(before, sorted)
    ensures Sorted(before, Insert(before, x, sorted))
    decreases |sorted|
  {
    hide Sorted;
    if sorted == [] {
      NothingIsSorted(before);
      PrependSorted(before, x, []);
      assert [x] + [] == [x];
    } else {
      TailIsSorted(before, sorted);
      if before(sorted[0], x) {
        var rest := Insert(before, x, sorted[1..]);
        InsertSorts(before, x, sorted[1..]);
        InsertAdds(before, x, sorted[1..]);
        forall j | 0 <= j < |rest| ensures before(sorted[0], rest[j]) {
          assert rest[j] in rest;
          assert rest[j] == x || rest[j] in sorted[1..];
        }
        PrependSorted(before, sorted[0], rest);
      } else {
        forall j | 0 <= j < |sorted| ensures before(x, sorted[j]) {
          assert before(x, sorted[0]) && (j == 0 || before(sorted[0], sorted[j]));
        }
        PrependSorted(before, x, sorted);
      }
    }
  }

  /** Sorting gives a sorted permutation. */
  lemma {:induction false} SortSorts<T(!new)>(before: Rule<T>, s: seq<T>)
    requires Orders(before)
    ensures Sorted(before, Sort(before, s)) && multiset(Sort(before, s)) == multiset(s)
    ensures |Sort(before, s)| == |s| && forall x :: x in Sort(before, s) <==> x in s
    decreases |s|
  {
    hide Orders, Insert, Sorted;
    if s == [] {
      NothingIsSorted(before);
    } else {
      var n := |s| - 1;
      assert s == s[..n] + [s[n]];
      SortSorts(before, s[..n]);
      InsertSorts(before, s[n], Sort(before, s[..n]));
      InsertAdds(before, s[n], Sort(before, s[..n]));
    }
  }

  lemma {:induction false} NothingIsSorted<T>(before: Rule<T>)
    ensures Sorted(before, [])
  {
  }
}
