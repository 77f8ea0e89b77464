/** Strings in code-point order, as Python compares them, and their sorted listing. */
module Order {
  predicate Less(a: string, b: string) {
    b != "" && (a == "" || a[0] < b[0] || (a[0] == b[0] && Less(a[1..], b[1..])))
  }

  /** A text comes before another when it is a proper beginning of it, or has the lower character where they part. */
  lemma {:induction false} LessExactly(a: string, b: string)
    ensures Less(a, b) <==>
            exists k :: 0 <= k <= |a| && k < |b| && a[..k] == b[..k] && (k == |a| || a[k] < b[k])
    decreases |a|
  {
    if a == "" || b == "" || a[0] != b[0] {
      if b != "" { assert a[..0] == b[..0]; }
      forall k | 0 < k <= |a| && k < |b| ensures a[..k] != b[..k] {
        assert a[..k][0] == a[0] && b[..k][0] == b[0];
      }
    } else {
      var x, y := a[1..], b[1..];
      LessExactly(x, y);
      if Less(x, y) {
        var k :| 0 <= k <= |x| && k < |y| && x[..k] == y[..k] && (k == |x| || x[k] < y[k]);
        assert a[..k + 1] == [a[0]] + x[..k] && b[..k + 1] == [b[0]] + y[..k];
        assert a[..k + 1] == b[..k + 1];
      }
      if exists k :: 0 <= k <= |a| && k < |b| && a[..k] == b[..k] && (k == |a| || a[k] < b[k]) {
        var k :| 0 <= k <= |a| && k < |b| && a[..k] == b[..k] && (k == |a| || a[k] < b[k]);
        assert k > 0;
        assert x[..k - 1] == a[..k][1..] && y[..k - 1] == b[..k][1..];
        assert x[..k - 1] == y[..k - 1];
      }
    }
  }

  lemma {:induction false} LessIsTotal(a: string, b: string)
    ensures a == b || Less(a, b) || Less(b, a)
    decreases |a|
  {
    if a != "" && b != "" && a[0] == b[0] {
      LessIsTotal(a[1..], b[1..]);
      assert a == [a[0]] + a[1..] && b == [b[0]] + b[1..];
    }
  }

  lemma {:induction false} LessIsStrict(a: string, b: string)
    requires Less(a, b)
    ensures a != b && !Less(b, a)
    decreases |a|
  {
    if a != "" && a[0] == b[0] { LessIsStrict(a[1..], b[1..]); }
  }

  lemma {:induction false} LessIsTransitive(a: string, b: string, c: string)
    requires Less(a, b) && Less(b, c)
    ensures Less(a, c)
    decreases |a|
  {
    if a != "" && a[0] == b[0] && b[0] == c[0] { LessIsTransitive(a[1..], b[1..], c[1..]); }
  }

  ghost predicate Increasing(s: seq<string>) { forall i, j :: 0 <= i < j < |s| ==> Less(s[i], s[j]) }

  /** The members of `s` in increasing order, each once. */
  ghost predicate Lists(sorted: seq<string>, s: set<string>) {
    Increasing(sorted) && forall x :: x in sorted <==> x in s
  }

  /** Python's `sorted` of a set of strings. */
  method Sorted(s: set<string>) returns (sorted: seq<string>)
    ensures Lists(sorted, s)
  {
    hide Increasing;
    var rest := s;
    sorted := [];
    NothingIncreases();
    while rest != {}
      invariant rest <= s && Increasing(sorted) && forall x :: x in sorted <==> x in s - rest
      decreases |rest|
    {
      var x :| x in rest;
      rest := rest - {x};
      InsertKeeps(x, sorted);
      sorted := Insert(x, sorted);
    }
  }

  function Insert(x: string, sorted: seq<string>): seq<string> {
    if sorted == [] then [x]
    else if Less(sorted[0], x) then [sorted[0]] + Insert(x, sorted[1..])
    else [x] + sorted
  }

  lemma {:induction false} InsertKeeps(x: string, sorted: seq<string>)
    requires Increasing(sorted) && x !in sorted
    ensures Increasing(Insert(x, sorted)) && forall y :: y in Insert(x, sorted) <==> y == x || y in sorted
    decreases |sorted|
  {
    hide Less;
    if sorted != [] {
      LessIsTotal(sorted[0], x);
      assert sorted == [sorted[0]] + sorted[1..];
      if Less(sorted[0], x) {
        InsertKeeps(x, sorted[1..]);
        var rest := Insert(x, sorted[1..]);
        forall j | 0 <= j < |rest| ensures Less(sorted[0], rest[j]) { assert rest[j] == x || rest[j] in sorted[1..]; }
      } else {
        forall j | 1 <= j < |sorted| ensures Less(x, sorted[j]) { LessIsTransitive(x, sorted[0], sorted[j]); }
      }
    }
  }

  lemma {:induction false} NothingIncreases()
    ensures Increasing([])
  {
  }

  /** The distinct members of `s` in increasing order. */
  function Listing(s: seq<string>): seq<string> {
    if s == [] then []
    else
      var rest := Listing(s[..|s| - 1]);
      if s[|s| - 1] in rest then rest else Insert(s[|s| - 1], rest)
  }

  lemma {:induction false} ListingLists(s: seq<string>)
    ensures Increasing(Listing(s)) && forall x :: x in Listing(s) <==> x in s
    decreases |s|
  {
    hide Increasing, Insert;
    if s == [] {
      NothingIncreases();
    } else {
      var n := |s| - 1;
      ListingLists(s[..n]);
      assert s == s[..n] + [s[n]];
      if s[n] !in Listing(s[..n]) { InsertKeeps(s[n], Listing(s[..n])); }
    }
  }

  /** There is one increasing listing of given members. */
  lemma {:induction false} ListingIsUnique(a: seq<string>, b: seq<string>)
    requires Increasing(a) && Increasing(b) && forall x :: x in a <==> x in b
    ensures a == b
    decreases |a|
  {
    hide Less;
    assert a != [] ==> a[0] in b;
    assert b != [] ==> b[0] in a;
    if a != [] {
      FirstIsLeast(a, b[0]);
      FirstIsLeast(b, a[0]);
      assert a[0] == b[0] by { if a[0] != b[0] { LessIsStrict(a[0], b[0]); } }
      forall x ensures x in a[1..] <==> x in b[1..] {
        RestIsRest(a, x);
        RestIsRest(b, x);
      }
      ListingIsUnique(a[1..], b[1..]);
      assert a == [a[0]] + a[1..] && b == [b[0]] + b[1..];
    }
  }

  lemma {:induction false} FirstIsLeast(s: seq<string>, x: string)
    requires Increasing(s) && x in s
    ensures x == s[0] || Less(s[0], x)
  {
  }

  lemma {:induction false} RestIsRest(s: seq<string>, x: string)
    requires Increasing(s) && s != []
    ensures x in s[1..] <==> x in s && x != s[0]
  {
    if x in s[1..] { LessIsStrict(s[0], x); }
    assert s == [s[0]] + s[1..];
  }
}
