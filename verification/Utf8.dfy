/**
 * UTF-8 and its incremental decoder in fatal mode, as section 4.4 of RFC 3629 and the
 * decoder algorithm of the WHATWG Encoding Standard (section 8.1.1) give them.
 */
module Utf8 {
  import opened Results
  import opened Text

  type Byte = n: int | 0 <= n < 256

  function EncodeChar(c: char): (b: seq<Byte>)
    ensures 1 <= |b| <= 4
  {
    var n := c as int;
    if n < 0x80 then [n]
    else if n < 0x800 then [0xC0 + n / 0x40, 0x80 + n % 0x40]
    else if n < 0x10000 then [0xE0 + n / 0x1000, 0x80 + n / 0x40 % 0x40, 0x80 + n % 0x40]
    else [0xF0 + n / 0x40000, 0x80 + n / 0x1000 % 0x40, 0x80 + n / 0x40 % 0x40, 0x80 + n % 0x40]
  }

  function Encode(s: string): seq<Byte> { FlatMap(EncodeChar, s) }

  /** Bytes still needed, the bits read so far, and the bounds on the next byte. */
  datatype Decoder = Ready | Partial(needed: nat, code: nat, lower: Byte, upper: Byte)

  datatype Step = Step(decoder: Decoder, output: string)

  predicate IsScalar(n: int) { 0 <= n < 0xD800 || 0xE000 <= n < 0x110000 }

  /** One byte of the decoder; None is the fatal error. */
  function DecodeByte(d: Decoder, b: Byte): (r: Option<Step>)
  {
    match d
    case Ready =>
      if b < 0x80 then Some(Step(Ready, [b as char]))
      else if 0xC2 <= b <= 0xDF then Some(Step(Partial(1, b - 0xC0, 0x80, 0xBF), ""))
      else if 0xE0 <= b <= 0xEF then
        Some(Step(Partial(2, b - 0xE0, if b == 0xE0 then 0xA0 else 0x80, if b == 0xED then 0x9F else 0xBF), ""))
      else if 0xF0 <= b <= 0xF4 then
        Some(Step(Partial(3, b - 0xF0, if b == 0xF0 then 0x90 else 0x80, if b == 0xF4 then 0x8F else 0xBF), ""))
      else None
    case Partial(needed, code, lower, upper) =>
      if !(lower <= b <= upper) then None
      else
        var next := 0x40 * code + (b - 0x80);
        if needed > 1 && next >= 0 then Some(Step(Partial(needed - 1, next, 0x80, 0xBF), ""))
        else if IsScalar(next) then Some(Step(Ready, [next as char]))
        else None
  }

  function Decode(d: Decoder, bytes: seq<Byte>): (r: Option<Step>)
    decreases bytes
  {
    if bytes == [] then Some(Step(d, ""))
    else
      match DecodeByte(d, bytes[0])
      case None => None
      case Some(first) =>
        match Decode(first.decoder, bytes[1..])
        case None => None
        case Some(rest) => Some(Step(rest.decoder, first.output + rest.output))
  }

  /** Decoding is indifferent to where the bytes are cut, even inside a character. */
  lemma {:induction false} DecodeSplit(d: Decoder, a: seq<Byte>, b: seq<Byte>)
    ensures Decode(d, a + b) ==
            match Decode(d, a)
            case None => None
            case Some(first) =>
              match Decode(first.decoder, b)
              case None => None
              case Some(rest) => Some(Step(rest.decoder, first.output + rest.output))
    decreases a
  {
    if a == [] {
      assert a + b == b;
      match Decode(d, b) {
        case None =>
        case Some(rest) => assert "" + rest.output == rest.output;
      }
    } else {
      TailOfAppend(a, b);
      match DecodeByte(d, a[0]) {
        case None =>
        case Some(first) =>
          DecodeSplit(first.decoder, a[1..], b);
          match Decode(first.decoder, a[1..]) {
            case None =>
            case Some(mid) =>
              match Decode(mid.decoder, b) {
                case None =>
                case Some(rest) =>
                  Associative(first.output, mid.output, rest.output);
              }
          }
      }
    }
  }

  lemma {:induction false} DecodeChar(c: char)
    ensures Decode(Ready, EncodeChar(c)) == Some(Step(Ready, [c]))
  {
    var n := c as int;
    if n < 0x80 {
      assert EncodeChar(c)[1..] == [];
      assert [c] + "" == [c];
    } else if n < 0x800 {
      DecodeTwo(Ready, EncodeChar(c));
      assert "" + [c] == [c];
    } else if n < 0x10000 {
      DecodeThreeByteChar(c);
    } else {
      DecodeFourByteChar(c);
    }
  }

  /** The four radix-64 digits of a scalar value, highest first. */
  lemma {:induction false} Radix64(n: nat) returns (top: nat, hi: nat, mid: nat, lo: nat)
    requires n < 0x110000
    ensures top == n / 0x40000 && hi == n / 0x1000 % 0x40 && mid == n / 0x40 % 0x40 && lo == n % 0x40
    ensures n == 0x40000 * top + 0x1000 * hi + 0x40 * mid + lo
    ensures top <= 4 && hi < 0x40 && mid < 0x40 && lo < 0x40
    ensures n < 0x10000 ==> n / 0x1000 == hi
  {
    top, hi, mid, lo := n / 0x40000, n / 0x1000 % 0x40, n / 0x40 % 0x40, n % 0x40;
  }

  lemma {:induction false} DecodeThreeByteChar(c: char)
    requires 0x800 <= c as int < 0x10000
    ensures Decode(Ready, EncodeChar(c)) == Some(Step(Ready, [c]))
  {
    var top, hi, mid, lo := Radix64(c as int);
    DecodeThree(c, hi, mid, lo);
  }

  lemma {:induction false} DecodeThree(c: char, hi: nat, mid: nat, lo: nat)
    requires 0x800 <= c as int == 0x1000 * hi + 0x40 * mid + lo
    requires hi < 16 && mid < 0x40 && lo < 0x40
    ensures Decode(Ready, [0xE0 + hi, 0x80 + mid, 0x80 + lo]) == Some(Step(Ready, [c]))
  {
    var b: seq<Byte> := [0xE0 + hi, 0x80 + mid, 0x80 + lo];
    var d1 := DecodeByte(Ready, b[0]).value.decoder;
    assert b[1..] == [0x80 + mid, 0x80 + lo];
    DecodeTwo(d1, b[1..]);
    assert "" + [c] == [c];
  }

  lemma {:induction false} DecodeFourByteChar(c: char)
    requires 0x10000 <= c as int
    ensures Decode(Ready, EncodeChar(c)) == Some(Step(Ready, [c]))
  {
    var top, hi, mid, lo := Radix64(c as int);
    DecodeFour(c, top, hi, mid, lo);
  }

  lemma {:induction false} DecodeFour(c: char, top: nat, hi: nat, mid: nat, lo: nat)
    requires 0x10000 <= c as int == 0x40000 * top + 0x1000 * hi + 0x40 * mid + lo
    requires top <= 4 && hi < 0x40 && mid < 0x40 && lo < 0x40
    ensures Decode(Ready, [0xF0 + top, 0x80 + hi, 0x80 + mid, 0x80 + lo]) == Some(Step(Ready, [c]))
  {
    var b: seq<Byte> := [0xF0 + top, 0x80 + hi, 0x80 + mid, 0x80 + lo];
    var d1 := DecodeByte(Ready, b[0]).value.decoder;
    var d2 := DecodeByte(d1, b[1]).value.decoder;
    assert b[1..][1..] == b[2..] == [0x80 + mid, 0x80 + lo];
    DecodeTwo(d2, b[2..]);
    assert "" + [c] == [c];
  }

  lemma {:induction false} DecodeTwo(d: Decoder, b: seq<Byte>)
    requires |b| == 2
    requires DecodeByte(d, b[0]).Some?
    ensures Decode(d, b) ==
            var first := DecodeByte(d, b[0]).value;
            match DecodeByte(first.decoder, b[1])
            case None => None
            case Some(second) => Some(Step(second.decoder, first.output + second.output))
  {
    var first := DecodeByte(d, b[0]).value;
    assert b[1..][1..] == [];
    match DecodeByte(first.decoder, b[1]) {
      case None =>
      case Some(second) =>
        assert Decode(second.decoder, []) == Some(Step(second.decoder, ""));
        assert second.output + "" == second.output;
    }
  }

  lemma {:induction false} DecodeEncode(s: string)
    ensures Decode(Ready, Encode(s)) == Some(Step(Ready, s))
  {
    if s != "" {
      DecodeChar(s[0]);
      DecodeEncode(s[1..]);
      DecodeSplit(Ready, EncodeChar(s[0]), Encode(s[1..]));
      assert s == [s[0]] + s[1..];
    }
  }

  lemma {:induction false} EncodeNothing()
    ensures Encode("") == []
  {
  }

  lemma {:induction false} EncodeIsNotEmpty(s: string)
    ensures s != "" ==> Encode(s) != []
  {
  }

  lemma {:induction false} EncodeAppend(a: string, b: string)
    ensures Encode(a + b) == Encode(a) + Encode(b)
  {
    FlatMapAppend(EncodeChar, a, b);
  }

  /** Bytes that leave the decoder at a character boundary and print nothing are no bytes at all. */
  lemma {:induction false} SilentBytesAreEmpty(d: Decoder, bytes: seq<Byte>)
    requires Decode(d, bytes) == Some(Step(Ready, ""))
    ensures bytes == [] && d == Ready
    decreases bytes
  {
    if bytes != [] {
      var first := DecodeByte(d, bytes[0]).value;
      SilentBytesAreEmpty(first.decoder, bytes[1..]);
      assert false;
    }
  }
}
