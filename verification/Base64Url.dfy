/** The URL-safe base64 alphabet without padding, section 5 of RFC 4648. */
module Base64Url {
  import opened Results
  import opened Utf8

  function Digit(v: nat): (c: char)
    requires v < 64
  {
    if v < 26 then ('A' as int + v) as char
    else if v < 52 then ('a' as int + v - 26) as char
    else if v < 62 then ('0' as int + v - 52) as char
    else if v == 62 then '-' else '_'
  }

  function Value(c: char): (v: int)
    ensures -1 <= v < 64
  {
    if 'A' <= c <= 'Z' then c as int - 'A' as int
    else if 'a' <= c <= 'z' then c as int - 'a' as int + 26
    else if '0' <= c <= '9' then c as int - '0' as int + 52
    else if c == '-' then 62 else if c == '_' then 63 else -1
  }

  function Encode(b: seq<Byte>): (s: string)
    ensures b != [] ==> s != ""
    decreases |b|
  {
    if |b| == 0 then ""
    else if |b| == 1 then [Digit(b[0] / 4), Digit(b[0] % 4 * 16)]
    else if |b| == 2 then [Digit(b[0] / 4), Digit(b[0] % 4 * 16 + b[1] / 16), Digit(b[1] % 16 * 4)]
    else
      [Digit(b[0] / 4), Digit(b[0] % 4 * 16 + b[1] / 16), Digit(b[1] % 16 * 4 + b[2] / 64), Digit(b[2] % 64)] +
      Encode(b[3..])
  }

  function Byte1(v0: nat, v1: nat): Byte
    requires v0 < 64 && v1 < 64
  {
    v0 * 4 + v1 / 16
  }

  function Byte2(v1: nat, v2: nat): Byte
    requires v1 < 64 && v2 < 64
  {
    v1 % 16 * 16 + v2 / 4
  }

  function Byte3(v2: nat, v3: nat): Byte
    requires v2 < 64 && v3 < 64
  {
    v2 % 4 * 64 + v3
  }

  predicate AllDigits(s: string) { forall i :: 0 <= i < |s| ==> Value(s[i]) >= 0 }

  /** The bytes of a text of base64 digits; None for a stray character or a single left-over digit. */
  function Decode(s: string): Option<seq<Byte>>
    decreases |s|
  {
    if s == "" then Some([])
    else if |s| == 1 || !AllDigits(s[..if |s| < 4 then |s| else 4]) then None
    else
      var first := Byte1(Value(s[0]), Value(s[1]));
      if |s| == 2 then Some([first])
      else if |s| == 3 then Some([first, Byte2(Value(s[1]), Value(s[2]))])
      else
        match Decode(s[4..])
        case None => None
        case Some(rest) => Some([first, Byte2(Value(s[1]), Value(s[2])), Byte3(Value(s[2]), Value(s[3]))] + rest)
  }

  lemma {:induction false} ValueOfDigit(v: nat)
    requires v < 64
    ensures Value(Digit(v)) == v
  {
  }

  lemma {:induction false} Sextets(a: Byte, b: Byte, c: Byte)
    ensures a / 4 < 64 && a % 4 * 16 + b / 16 < 64 && b % 16 * 4 + c / 64 < 64
    ensures Byte1(a / 4, a % 4 * 16 + b / 16) == a
    ensures Byte2(a % 4 * 16 + b / 16, b % 16 * 4 + c / 64) == b
    ensures Byte3(b % 16 * 4 + c / 64, c % 64) == c
  {
    assert (a % 4 * 16 + b / 16) / 16 == a % 4;
    assert (a % 4 * 16 + b / 16) % 16 == b / 16;
    assert (b % 16 * 4 + c / 64) / 4 == b % 16;
    assert (b % 16 * 4 + c / 64) % 4 == c / 64;
  }

  /** Four digits of three bytes, before any other text. */
  lemma {:induction false} DecodeBlock(x: Byte, y: Byte, z: Byte, rest: string)
    ensures var s := [Digit(x / 4), Digit(x % 4 * 16 + y / 16), Digit(y % 16 * 4 + z / 64), Digit(z % 64)] + rest;
            Decode(s) == match Decode(rest) case None => None case Some(bytes) => Some([x, y, z] + bytes)
  {
    hide Digit, Value, Byte1, Byte2, Byte3;
    var digits := [Digit(x / 4), Digit(x % 4 * 16 + y / 16), Digit(y % 16 * 4 + z / 64), Digit(z % 64)];
    var s := digits + rest;
    Sextets(x, y, z);
    ValueOfDigit(x / 4);
    ValueOfDigit(x % 4 * 16 + y / 16);
    ValueOfDigit(y % 16 * 4 + z / 64);
    ValueOfDigit(z % 64);
    assert s[..4] == digits && s[4..] == rest;
  }

  lemma {:induction false} DecodeShort(b: seq<Byte>)
    requires |b| <= 2
    ensures Decode(Encode(b)) == Some(b)
  {
    hide Digit, Value, Byte1, Byte2, Byte3;
    if b != [] {
      var x, y := b[0], if |b| > 1 then b[1] else 0;
      Sextets(x, y, 0);
      ValueOfDigit(x / 4);
      ValueOfDigit(x % 4 * 16 + y / 16);
      ValueOfDigit(y % 16 * 4);
      var s := Encode(b);
      if |b| == 1 {
        assert b == [x] && s[..2] == s;
      } else {
        assert b == [x, y] && s[..3] == s;
      }
    }
  }

  /** Decoding undoes encoding for every byte string. */
  lemma {:induction false} RoundTrip(b: seq<Byte>)
    ensures Decode(Encode(b)) == Some(b)
    decreases |b|
  {
    hide Digit, Decode;
    if |b| <= 2 {
      DecodeShort(b);
    } else {
      RoundTrip(b[3..]);
      DecodeBlock(b[0], b[1], b[2], Encode(b[3..]));
      assert b == [b[0], b[1], b[2]] + b[3..];
    }
  }
}
