/** Text helpers shared by the stream printer, the stream parser and the cursor codecs. */
module Text {
  function DigitChar(d: nat): (c: char)
    requires d < 10
    ensures '0' <= c <= '9' && c as int == '0' as int + d
  {
    ('0' as int + d) as char
  }

  predicate IsDigit(c: char) { '0' <= c <= '9' }

  predicate AllDigits(s: string) { forall i :: 0 <= i < |s| ==> IsDigit(s[i]) }

  /** The decimal rendering of a natural number, without leading zeros. */
  function Decimal(n: nat): (s: string)
    ensures |s| > 0 && AllDigits(s)
  {
    if n < 10 then [DigitChar(n)] else Decimal(n / 10) + [DigitChar(n % 10)]
  }

  /** Reads the longest run of digits at the head of `s`, continuing from `value`. */
  function ReadDigits(value: nat, s: string): (r: (nat, string))
    ensures |r.1| <= |s| && (s != "" && IsDigit(s[0]) ==> |r.1| < |s|)
    decreases s
  {
    if s != "" && IsDigit(s[0]) then ReadDigits(10 * value + (s[0] as int - '0' as int), s[1..]) else (value, s)
  }

  /** Reading back a printed number gives that number, whatever follows it. */
  lemma {:induction false} ReadDigitsOfDecimal(n: nat, rest: string)
    ensures ReadDigits(0, Decimal(n) + rest) == ReadDigits(n, rest)
  {
    if n < 10 {
      assert (Decimal(n) + rest)[1..] == rest;
    } else {
      var last := [DigitChar(n % 10)];
      ReadDigitsOfDecimal(n / 10, last + rest);
      assert Decimal(n) + rest == Decimal(n / 10) + (last + rest);
      assert (last + rest)[1..] == rest;
    }
  }

  /** The number written by a string of digits in canonical form, or -1. */
  function ParseDecimal(s: string): (n: int)
    ensures n >= -1
  {
    if |s| > 0 && IsDigit(s[0]) then
      var (n, rest) := ReadDigits(0, s);
      if rest == "" && Decimal(n) == s then n else -1
    else -1
  }

  lemma {:induction false} DecimalRoundTrip(n: nat)
    ensures ParseDecimal(Decimal(n)) == n
  {
    ReadDigitsOfDecimal(n, "");
    assert Decimal(n) + "" == Decimal(n);
  }

  /** String length in UTF-16 code units, as JavaScript counts it. */
  function Units(s: string): (n: nat)
    ensures n >= |s|
  {
    if s == "" then 0 else (if s[0] as int >= 0x10000 then 2 else 1) + Units(s[1..])
  }

  /** Two units for each character beyond the basic plane, one for every other. */
  lemma {:induction false} UnitsExactly(s: string)
    ensures Units(s) == |s| + |WidePlaces(s)|
    decreases |s|
  {
    if s != "" {
      UnitsExactly(s[..|s| - 1]);
      UnitsOfLast(s);
      WideOfLast(s);
    }
  }

  function WidePlaces(s: string): set<int> { set i | 0 <= i < |s| && s[i] > '\U{FFFF}' }

  lemma {:induction false} WideOfLast(s: string)
    requires s != ""
    ensures var n := |s| - 1; |WidePlaces(s)| == |WidePlaces(s[..n])| + (if s[n] > '\U{FFFF}' then 1 else 0)
  {
    var n := |s| - 1;
    assert WidePlaces(s) == WidePlaces(s[..n]) + (if s[n] > '\U{FFFF}' then {n} else {});
  }

  lemma {:induction false} UnitsOfLast(s: string)
    requires s != ""
    ensures var n := |s| - 1; Units(s) == Units(s[..n]) + (if s[n] as int >= 0x10000 then 2 else 1)
    decreases |s|
  {
    var n := |s| - 1;
    if n > 0 {
      assert s[1..][..n - 1] == s[..n][1..];
      UnitsOfLast(s[1..]);
    }
  }

  lemma {:induction false} Associative<T>(a: seq<T>, b: seq<T>, c: seq<T>)
    ensures a + (b + c) == (a + b) + c
  {
  }

  lemma {:induction false} TailOfAppend<T>(a: seq<T>, b: seq<T>)
    requires a != []
    ensures (a + b)[0] == a[0] && (a + b)[1..] == a[1..] + b
  {
  }

  lemma {:induction false} DropHead<T>(head: seq<T>, a: seq<T>, b: seq<T>)
    requires |head| == 1
    ensures (head + a + b)[0] == head[0] && (head + a + b)[1..] == a + b
  {
  }

  lemma {:induction false} Unwrap<T>(open: seq<T>, body: seq<T>, close: seq<T>, rest: seq<T>)
    requires |open| == 1
    ensures (open + body + close + rest)[0] == open[0]
    ensures (open + body + close + rest)[1..] == body + (close + rest)
  {
  }

  function Concat<T>(parts: seq<seq<T>>): seq<T> {
    if parts == [] then [] else parts[0] + Concat(parts[1..])
  }

  lemma {:induction false} ConcatAppend<T>(a: seq<seq<T>>, b: seq<seq<T>>)
    ensures Concat(a + b) == Concat(a) + Concat(b)
  {
    if a == [] {
      assert a + b == b;
    } else {
      ConcatAppend(a[1..], b);
      TailOfAppend(a, b);
      Associative(a[0], Concat(a[1..]), Concat(b));
    }
  }

  /** The codes of the elements of `s` in order. */
  function FlatMap<T, U>(code: T -> seq<U>, s: seq<T>): seq<U> {
    if s == [] then [] else code(s[0]) + FlatMap(code, s[1..])
  }

  lemma {:induction false} FlatMapAppend<T, U>(code: T -> seq<U>, a: seq<T>, b: seq<T>)
    ensures FlatMap(code, a + b) == FlatMap(code, a) + FlatMap(code, b)
  {
    if a == [] {
      assert a + b == b;
    } else {
      FlatMapAppend(code, a[1..], b);
      TailOfAppend(a, b);
      Associative(code(a[0]), FlatMap(code, a[1..]), FlatMap(code, b));
    }
  }

  /** The texts with the separator between neighbours. */
  function Join(separator: string, texts: seq<string>): string {
    if texts == [] then ""
    else if |texts| == 1 then texts[0]
    else Join(separator, texts[..|texts| - 1]) + (separator + texts[|texts| - 1])
  }

  lemma {:induction false} JoinOfTwo(separator: string, x: string, y: string)
    ensures Join(separator, [x]) == x && Join(separator, [x, y]) == x + (separator + y)
  {
    assert [x, y][..1] == [x];
  }

  lemma {:induction false} LongerHoldsSeparator(a: string, x: string, b: string, y: string, c: char)
    requires a + ([c] + x) == b + ([c] + y) && |x| < |y|
    ensures c in y
  {
    var s := a + ([c] + x);
    assert s[|a|] == c && s[|a|] == y[|a| - |b| - 1];
  }

  /** A text splits in one way at its last separator. */
  lemma {:induction false} SplitAtLast(a: string, x: string, b: string, y: string, c: char)
    requires a + ([c] + x) == b + ([c] + y) && c !in x && c !in y
    ensures a == b && x == y
  {
    var s := a + ([c] + x);
    if |x| < |y| {
      LongerHoldsSeparator(a, x, b, y, c);
    } else if |y| < |x| {
      LongerHoldsSeparator(b, y, a, x, c);
    } else {
      assert a == s[..|a|] == b && x == s[|a| + 1..] == y;
    }
  }

  lemma {:induction false} JoinHoldsSeparator(c: char, texts: seq<string>)
    requires |texts| > 1
    ensures c in Join([c], texts)
  {
    var n := |texts| - 1;
    var s := Join([c], texts);
    assert s[|Join([c], texts[..n])|] == c;
  }

  /** Joining with a separator that no text holds can be undone, if the texts are as many or none is empty. */
  lemma {:induction false} JoinIsInjective(c: char, a: seq<string>, b: seq<string>)
    requires forall i :: 0 <= i < |a| ==> c !in a[i]
    requires forall i :: 0 <= i < |b| ==> c !in b[i]
    requires |a| == |b| || ((forall i :: 0 <= i < |a| ==> a[i] != "") && forall i :: 0 <= i < |b| ==> b[i] != "")
    requires Join([c], a) == Join([c], b)
    ensures a == b
    decreases |a|
  {
    if |a| > 1 { JoinHoldsSeparator(c, a); }
    if |b| > 1 { JoinHoldsSeparator(c, b); }
    if |a| > 1 && |b| > 1 {
      var m, n := |a| - 1, |b| - 1;
      SplitAtLast(Join([c], a[..m]), a[m], Join([c], b[..n]), b[n], c);
      JoinIsInjective(c, a[..m], b[..n]);
      assert a == a[..m] + [a[m]] && b == b[..n] + [b[n]];
    } else if |a| == 1 && |b| == 1 {
      assert a == [a[0]] && b == [b[0]];
    }
  }

  /** The index of the first `c` in `s`, or -1. */
  function IndexOf(s: string, c: char): (i: int)
    ensures -1 <= i < |s|
    ensures i >= 0 ==> s[i] == c && c !in s[..i]
    ensures i < 0 ==> c !in s
  {
    if s == "" then -1
    else if s[0] == c then 0
    else
      var i := IndexOf(s[1..], c);
      assert s == [s[0]] + s[1..];
      if i < 0 then -1 else
        assert s[..i + 1] == [s[0]] + s[1..][..i];
        i + 1
  }

  lemma {:induction false} FirstOccurrence(s: string, c: char, n: nat)
    requires n < |s| && s[n] == c && c !in s[..n]
    ensures IndexOf(s, c) == n
  {
    var i := IndexOf(s, c);
    assert i >= 0;
    assert i >= n by { assert forall k :: 0 <= k < n ==> s[k] == s[..n][k]; }
    assert i <= n by { assert forall k :: 0 <= k < i ==> s[k] == s[..i][k]; }
  }
}
