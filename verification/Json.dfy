/**
 * The JSON texts that carry events: flat objects of strings, natural numbers and arrays of
 * strings, with the string escapes of section 7 of RFC 8259.
 */
module Json {
  import opened Results
  import opened Text

  datatype Value = Str(text: string) | Num(number: nat) | Arr(items: seq<string>)
  datatype Field = Field(key: string, value: Value)

  /** The fields in their printed order. */
  type Object = seq<Field>

  /** The value of `key`; the last occurrence wins. */
  function Get(o: Object, key: string): Option<Value> {
    if o == [] then None
    else
      var later := Get(o[1..], key);
      if later.Some? then later
      else if o[0].key == key then Some(o[0].value)
      else None
  }

  lemma {:induction false} GetAppend(a: Object, b: Object, key: string)
    ensures Get(a + b, key) == if Get(b, key).Some? then Get(b, key) else Get(a, key)
  {
    if a == [] {
      assert a + b == b;
    } else {
      TailOfAppend(a, b);
      GetAppend(a[1..], b, key);
    }
  }

  // ----- printing -----

  function HexDigit(d: nat): (c: char)
    requires d < 16
  {
    if d < 10 then DigitChar(d) else ('a' as int + d - 10) as char
  }

  function EscapeChar(c: char): (s: string)
    ensures |s| > 0
  {
    if c == '"' then "\\\""
    else if c == '\\' then "\\\\"
    else if c == 8 as char then "\\b"
    else if c == 12 as char then "\\f"
    else if c == '\n' then "\\n"
    else if c == '\r' then "\\r"
    else if c == '\t' then "\\t"
    else if c < ' ' then "\\u00" + [HexDigit(c as int / 16), HexDigit(c as int % 16)]
    else [c]
  }

  /**
   * What JSON.stringify writes for a character: the six short escapes, a backslash before a quotation
   * mark and a backslash, four hexadecimal digits for the other control characters, and else itself.
   */
  lemma {:induction false} EscapeExactly(c: char)
    ensures c as int == 8 ==> EscapeChar(c) == "\\b"
    ensures c as int == 9 ==> EscapeChar(c) == "\\t"
    ensures c as int == 10 ==> EscapeChar(c) == "\\n"
    ensures c as int == 12 ==> EscapeChar(c) == "\\f"
    ensures c as int == 13 ==> EscapeChar(c) == "\\r"
    ensures c == '"' || c == '\\' ==> EscapeChar(c) == ['\\', c]
    ensures c as int < 32 && c as int !in {8, 9, 10, 12, 13} ==>
              |EscapeChar(c)| == 6 && EscapeChar(c)[..5] == (if c as int < 16 then "\\u000" else "\\u001") &&
              EscapeChar(c)[5] in "0123456789abcdef" && HexValue(EscapeChar(c)[5]) == c as int % 16
    ensures c as int >= 32 && c != '"' && c != '\\' ==> EscapeChar(c) == [c]
  {
  }

  function Quote(s: string): string { "\"" + FlatMap(EscapeChar, s) + "\"" }

  function PrintItems(items: seq<string>): string {
    if items == [] then ""
    else if |items| == 1 then Quote(items[0])
    else Quote(items[0]) + ("," + PrintItems(items[1..]))
  }

  function PrintValue(v: Value): string {
    match v
    case Str(text) => Quote(text)
    case Num(number) => Decimal(number)
    case Arr(items) => "[" + PrintItems(items) + "]"
  }

  function PrintField(f: Field): string { Quote(f.key) + (":" + PrintValue(f.value)) }

  function PrintFields(o: Object): string {
    if o == [] then ""
    else if |o| == 1 then PrintField(o[0])
    else PrintField(o[0]) + ("," + PrintFields(o[1..]))
  }

  function Print(o: Object): string { "{" + PrintFields(o) + "}" }

  // ----- parsing -----

  /** A parsed value with the text that follows it. */
  datatype Parsed<+T> = Parsed(value: T, rest: string)

  function HexValue(c: char): (d: int)
    ensures -1 <= d < 16
  {
    if '0' <= c <= '9' then c as int - '0' as int
    else if 'a' <= c <= 'f' then c as int - 'a' as int + 10
    else if 'A' <= c <= 'F' then c as int - 'A' as int + 10
    else -1
  }

  /** One possibly escaped character of a string body. */
  function ReadChar(s: string): (r: Option<Parsed<char>>)
    ensures r.Some? ==> |r.value.rest| < |s|
  {
    if s == "" || s[0] == '"' || s[0] < ' ' then None
    else if s[0] != '\\' then Some(Parsed(s[0], s[1..]))
    else if |s| < 2 then None
    else
      match s[1]
      case '"' => Some(Parsed('"', s[2..]))
      case '\\' => Some(Parsed('\\', s[2..]))
      case '/' => Some(Parsed('/', s[2..]))
      case 'b' => Some(Parsed(8 as char, s[2..]))
      case 'f' => Some(Parsed(12 as char, s[2..]))
      case 'n' => Some(Parsed('\n', s[2..]))
      case 'r' => Some(Parsed('\r', s[2..]))
      case 't' => Some(Parsed('\t', s[2..]))
      case 'u' => if |s| < 6 then None else ReadHex(s)
      case _ => None
  }

  function ReadHex(s: string): (r: Option<Parsed<char>>)
    requires |s| >= 6
    ensures r.Some? ==> r.value.rest == s[6..]
  {
    var a, b, c, d := HexValue(s[2]), HexValue(s[3]), HexValue(s[4]), HexValue(s[5]);
    var n := 0x1000 * a + 0x100 * b + 0x10 * c + d;
    if a < 0 || b < 0 || c < 0 || d < 0 || 0xD800 <= n < 0xE000 then None else Some(Parsed(n as char, s[6..]))
  }

  /** The rest of a string body, up to and including its closing quote. */
  function ReadBody(s: string): (r: Option<Parsed<string>>)
    ensures r.Some? ==> |r.value.rest| < |s|
    decreases |s|
  {
    if s != "" && s[0] == '"' then Some(Parsed("", s[1..]))
    else
      match ReadChar(s)
      case None => None
      case Some(head) =>
        match ReadBody(head.rest)
        case None => None
        case Some(tail) => Some(Parsed([head.value] + tail.value, tail.rest))
  }

  function ReadString(s: string): (r: Option<Parsed<string>>)
    ensures r.Some? ==> |r.value.rest| < |s|
  {
    if s == "" || s[0] != '"' then None else ReadBody(s[1..])
  }

  /** A non-empty array body, up to and including its closing bracket. */
  function ReadItems(s: string): (r: Option<Parsed<seq<string>>>)
    ensures r.Some? ==> |r.value.rest| < |s|
    decreases |s|
  {
    match ReadString(s)
    case None => None
    case Some(head) =>
      if head.rest == "" then None
      else if head.rest[0] == ']' then Some(Parsed([head.value], head.rest[1..]))
      else if head.rest[0] != ',' then None
      else
        match ReadItems(head.rest[1..])
        case None => None
        case Some(tail) => Some(Parsed([head.value] + tail.value, tail.rest))
  }

  function ReadNumber(s: string): (r: Option<Parsed<Value>>)
    requires s != ""
    ensures r.Some? ==> |r.value.rest| < |s|
  {
    var (n, rest) := ReadDigits(0, s);
    if IsDigit(s[0]) && Decimal(n) + rest == s then Some(Parsed(Num(n), rest)) else None
  }

  function ReadValue(s: string): (r: Option<Parsed<Value>>)
    ensures r.Some? ==> |r.value.rest| < |s|
  {
    if s == "" then None
    else if s[0] == '"' then
      match ReadString(s)
      case None => None
      case Some(p) => Some(Parsed(Str(p.value), p.rest))
    else if s[0] == '[' then
      if |s| > 1 && s[1] == ']' then Some(Parsed(Arr([]), s[2..]))
      else
        match ReadItems(s[1..])
        case None => None
        case Some(p) => Some(Parsed(Arr(p.value), p.rest))
    else ReadNumber(s)
  }

  function ReadField(s: string): (r: Option<Parsed<Field>>)
    ensures r.Some? ==> |r.value.rest| < |s|
  {
    match ReadString(s)
    case None => None
    case Some(key) =>
      if key.rest == "" || key.rest[0] != ':' then None
      else
        match ReadValue(key.rest[1..])
        case None => None
        case Some(value) => Some(Parsed(Field(key.value, value.value), value.rest))
  }

  /** A non-empty object body, up to and including its closing brace. */
  function ReadFields(s: string): (r: Option<Parsed<Object>>)
    ensures r.Some? ==> |r.value.rest| < |s|
    decreases |s|
  {
    match ReadField(s)
    case None => None
    case Some(head) =>
      if head.rest == "" then None
      else if head.rest[0] == '}' then Some(Parsed([head.value], head.rest[1..]))
      else if head.rest[0] != ',' then None
      else
        match ReadFields(head.rest[1..])
        case None => None
        case Some(tail) => Some(Parsed([head.value] + tail.value, tail.rest))
  }

  function Parse(s: string): (r: Option<Object>) {
    if s == "{}" then Some([])
    else if s == "" || s[0] != '{' then None
    else
      match ReadFields(s[1..])
      case None => None
      case Some(p) => if p.rest == "" then Some(p.value) else None
  }

  // ----- round trip -----

  lemma {:induction false} ReadEscapedChar(c: char, rest: string)
    ensures ReadChar(EscapeChar(c) + rest) == Some(Parsed(c, rest))
    ensures (EscapeChar(c) + rest)[0] != '"'
  {
    var s := EscapeChar(c) + rest;
    if |EscapeChar(c)| == 1 {
      assert s[1..] == rest;
    } else if |EscapeChar(c)| == 2 {
      assert s[2..] == rest;
    } else {
      assert s[6..] == rest;
    }
  }

  lemma {:induction false} ReadQuotedBody(t: string, rest: string)
    ensures ReadBody(FlatMap(EscapeChar, t) + ("\"" + rest)) == Some(Parsed(t, rest))
  {
    var close := "\"" + rest;
    if t == "" {
      assert FlatMap(EscapeChar, t) + close == close;
      assert close[1..] == rest;
    } else {
      var tail := FlatMap(EscapeChar, t[1..]);
      Associative(EscapeChar(t[0]), tail, close);
      ReadEscapedChar(t[0], tail + close);
      ReadQuotedBody(t[1..], rest);
      assert t == [t[0]] + t[1..];
    }
  }

  lemma {:induction false} ReadQuoted(t: string, rest: string)
    ensures ReadString(Quote(t) + rest) == Some(Parsed(t, rest))
    ensures (Quote(t) + rest)[0] == '"'
  {
    ReadQuotedBody(t, rest);
    Unwrap("\"", FlatMap(EscapeChar, t), "\"", rest);
  }

  lemma {:induction false} ReadPrintedItems(items: seq<string>, rest: string)
    requires items != []
    ensures ReadItems(PrintItems(items) + ("]" + rest)) == Some(Parsed(items, rest))
  {
    hide Quote, ReadString;
    var close := "]" + rest;
    if |items| == 1 {
      ReadQuoted(items[0], close);
      assert close[1..] == rest;
      assert items == [items[0]];
    } else {
      var comma := "," + PrintItems(items[1..]);
      Associative(Quote(items[0]), comma, close);
      ReadQuoted(items[0], comma + close);
      DropHead(",", PrintItems(items[1..]), close);
      ReadPrintedItems(items[1..], rest);
      assert items == [items[0]] + items[1..];
    }
  }

  /** A printed value is read back whenever what follows cannot extend a number. */
  lemma {:induction false} ReadPrintedValue(v: Value, rest: string)
    requires rest != "" && !IsDigit(rest[0])
    ensures ReadValue(PrintValue(v) + rest) == Some(Parsed(v, rest))
  {
    match v {
      case Str(text) => ReadQuoted(text, rest);
      case Num(number) =>
        ReadDigitsOfDecimal(number, rest);
        assert IsDigit((Decimal(number) + rest)[0]);
      case Arr(items) => ReadPrintedArray(items, rest);
    }
  }

  lemma {:induction false} ReadPrintedArray(items: seq<string>, rest: string)
    ensures ReadValue("[" + PrintItems(items) + "]" + rest) == Some(Parsed(Arr(items), rest))
  {
    var s := "[" + PrintItems(items) + "]" + rest;
    Unwrap("[", PrintItems(items), "]", rest);
    if items == [] {
      assert s[2..] == rest;
    } else {
      ReadPrintedItems(items, rest);
      QuoteOpensItems(items, "]" + rest);
      assert s[1] == s[1..][0];
    }
  }

  lemma {:induction false} QuoteOpensItems(items: seq<string>, rest: string)
    requires items != []
    ensures (PrintItems(items) + rest)[0] == '"'
  {
    if |items| > 1 {
      Associative(Quote(items[0]), "," + PrintItems(items[1..]), rest);
    }
  }

  lemma {:induction false} ReadPrintedField(f: Field, rest: string)
    requires rest != "" && !IsDigit(rest[0])
    ensures ReadField(PrintField(f) + rest) == Some(Parsed(f, rest))
  {
    var value := ":" + PrintValue(f.value);
    Associative(Quote(f.key), value, rest);
    ReadQuoted(f.key, value + rest);
    DropHead(":", PrintValue(f.value), rest);
    ReadPrintedValue(f.value, rest);
  }

  lemma {:induction false} ReadPrintedFields(o: Object)
    requires o != []
    ensures ReadFields(PrintFields(o) + "}") == Some(Parsed(o, ""))
  {
    hide ReadField, PrintField;
    if |o| == 1 {
      ReadPrintedField(o[0], "}");
      assert o == [o[0]];
    } else {
      var comma := "," + PrintFields(o[1..]);
      Associative(PrintField(o[0]), comma, "}");
      ReadPrintedField(o[0], comma + "}");
      DropHead(",", PrintFields(o[1..]), "}");
      ReadPrintedFields(o[1..]);
      assert o == [o[0]] + o[1..];
    }
  }

  /** Parsing undoes printing for every object. */
  lemma {:induction false} ParsePrint(o: Object)
    ensures Parse(Print(o)) == Some(o)
  {
    if o == [] {
      assert Print(o) == "{}";
    } else {
      DropHead("{", PrintFields(o), "}");
      ReadPrintedFields(o);
      assert Print(o)[1..] != "}" by {
        assert ReadFields("}") == None;
      }
    }
  }

  lemma {:induction false} PrintIsNotEmpty(o: Object)
    ensures Print(o) != ""
  {
  }

  // ----- printed text stays on one line -----

  predicate OneLine(s: string) { '\n' !in s && '\r' !in s }

  lemma {:induction false} QuoteIsOneLine(t: string)
    ensures OneLine(Quote(t)) && OneLine(FlatMap(EscapeChar, t))
  {
    if t != "" {
      QuoteIsOneLine(t[1..]);
      assert OneLine(EscapeChar(t[0]));
    }
  }

  lemma {:induction false} ItemsAreOneLine(items: seq<string>)
    ensures OneLine(PrintItems(items))
  {
    if items != [] {
      QuoteIsOneLine(items[0]);
      ItemsAreOneLine(items[1..]);
    }
  }

  lemma {:induction false} FieldsAreOneLine(o: Object)
    ensures OneLine(PrintFields(o))
  {
    if o != [] {
      QuoteIsOneLine(o[0].key);
      match o[0].value {
        case Str(text) => QuoteIsOneLine(text);
        case Num(number) => assert AllDigits(Decimal(number));
        case Arr(items) => ItemsAreOneLine(items);
      }
      FieldsAreOneLine(o[1..]);
    }
  }

  /** A printed object holds no line break, so it fits one `data:` line. */
  lemma {:induction false} PrintIsOneLine(o: Object)
    ensures OneLine(Print(o))
  {
    FieldsAreOneLine(o);
  }
}
