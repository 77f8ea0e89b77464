/** The byte spans that the CSV and PDF parsers give for the records and pages of their content. */
module Spans {
  import opened Results
  import opened Text
  import opened Utf8
  import opened Order
  import opened Json

  datatype Span = Span(name: string, start: nat, end: nat)

  datatype ParsedContent = ParsedContent(content: seq<Byte>, spans: seq<Span>)

  /** The texts, each followed by the separator. */
  function Terminated(separator: string, texts: seq<string>): string {
    if texts == [] then ""
    else Terminated(separator, texts[..|texts| - 1]) + (texts[|texts| - 1] + separator)
  }

  lemma {:induction false} JoinIsTerminated(separator: string, texts: seq<string>)
    ensures texts != [] ==> Join(separator, texts) + separator == Terminated(separator, texts)
    decreases |texts|
  {
    if |texts| == 1 {
      assert Terminated(separator, texts[..0]) == "";
    } else if |texts| > 1 {
      var n := |texts| - 1;
      JoinIsTerminated(separator, texts[..n]);
      Associative(Join(separator, texts[..n]), separator, texts[n] + separator);
      Associative(separator, texts[n], separator);
      Associative(Join(separator, texts[..n]), separator + texts[n], separator);
    }
  }

  // ----- where the texts lie -----

  function Start(separator: string, texts: seq<string>, i: nat): nat
    requires i <= |texts|
  {
    |Encode(Terminated(separator, texts[..i]))|
  }

  lemma {:induction false} FirstStart(separator: string, texts: seq<string>)
    ensures Start(separator, texts, 0) == 0
  {
    assert texts[..0] == [];
    EncodeNothing();
  }

  /** One step of a span loop: the next text starts after this one and one separator. */
  lemma {:induction false} NextStart(separator: string, texts: seq<string>, i: nat)
    requires i < |texts|
    ensures Start(separator, texts, i + 1) == Start(separator, texts, i) + |Encode(texts[i])| + |Encode(separator)|
    ensures Encode(Terminated(separator, texts[..i + 1])) ==
            Encode(Terminated(separator, texts[..i])) + (Encode(texts[i]) + Encode(separator))
  {
    hide Encode;
    assert texts[..i + 1][..i] == texts[..i];
    EncodeAppend(Terminated(separator, texts[..i]), texts[i] + separator);
    EncodeAppend(texts[i], separator);
  }

  lemma {:induction false} StartsArePrefixes(separator: string, texts: seq<string>, i: nat)
    requires i <= |texts|
    ensures Encode(Terminated(separator, texts[..i])) <= Encode(Terminated(separator, texts))
    decreases |texts| - i
  {
    hide Encode, Terminated;
    if i == |texts| {
      assert texts[..i] == texts;
    } else {
      NextStart(separator, texts, i);
      StartsArePrefixes(separator, texts, i + 1);
    }
  }

  // ----- spans that recover their texts -----

  /** The spans lie in order, each over the bytes of its text, with one separator between neighbours. */
  ghost predicate Covers(p: ParsedContent, texts: seq<string>, separator: string, tail: seq<Byte>) {
    && |p.spans| == |texts|
    && (forall i :: 0 <= i < |texts| ==>
          p.spans[i].start <= p.spans[i].end <= |p.content| &&
          p.content[p.spans[i].start..p.spans[i].end] == Encode(texts[i]))
    && (forall i :: 0 <= i < |texts| - 1 ==>
          p.spans[i].end <= p.spans[i + 1].start &&
          p.content[p.spans[i].end..p.spans[i + 1].start] == Encode(separator))
    && (if texts == [] then p.content == []
        else p.spans[0].start == 0 && p.content[p.spans[|texts| - 1].end..] == tail)
  }

  ghost predicate LaidOut(spans: seq<Span>, texts: seq<string>, separator: string) {
    && |spans| <= |texts|
    && forall i :: 0 <= i < |spans| ==>
         spans[i].start == Start(separator, texts, i) && spans[i].end == spans[i].start + |Encode(texts[i])|
  }

  /** One text inside the content. */
  lemma {:induction false} TextInPlace(
    separator: string, texts: seq<string>, content: seq<Byte>, tail: seq<Byte>, i: nat)
    requires i < |texts| && content + tail == Encode(Terminated(separator, texts)) && |tail| <= |Encode(separator)|
    ensures var start := Start(separator, texts, i); var end := start + |Encode(texts[i])|;
            && end <= |content| && content[start..end] == Encode(texts[i])
            && (i + 1 < |texts| ==>
                  end <= Start(separator, texts, i + 1) <= |content| &&
                  content[end..Start(separator, texts, i + 1)] == Encode(separator))
            && (i + 1 == |texts| ==> content[end..] + tail == Encode(separator))
  {
    hide Encode, Terminated;
    var whole := Encode(Terminated(separator, texts));
    var before := Encode(Terminated(separator, texts[..i]));
    var text, gap := Encode(texts[i]), Encode(separator);
    NextStart(separator, texts, i);
    StartsArePrefixes(separator, texts, i + 1);
    if i + 1 < |texts| {
      NextStart(separator, texts, i + 1);
      StartsArePrefixes(separator, texts, i + 2);
    } else {
      assert texts[..i + 1] == texts;
    }
    InThreeParts(whole, before, text, gap);
    var start, end := |before|, |before| + |text|;
    assert content == whole[..|content|];
    assert content[start..end] == whole[start..end];
    if i + 1 < |texts| {
      assert content[end..end + |gap|] == whole[end..end + |gap|];
    } else {
      assert content[end..] + tail == whole[end..];
    }
  }

  lemma {:induction false} InThreeParts(whole: seq<Byte>, a: seq<Byte>, b: seq<Byte>, c: seq<Byte>)
    requires a + (b + c) <= whole
    ensures whole[|a|..|a| + |b|] == b && whole[|a| + |b|..|a| + |b| + |c|] == c
  {
    var abc := a + (b + c);
    assert forall k :: 0 <= k < |abc| ==> whole[k] == abc[k];
  }

  lemma {:induction false} LaidOutCovers(
    spans: seq<Span>, texts: seq<string>, separator: string, content: seq<Byte>, tail: seq<Byte>, end: seq<Byte>)
    requires LaidOut(spans, texts, separator) && |spans| == |texts|
    requires texts == [] ==> content == []
    requires texts != [] ==> content + tail == Encode(Terminated(separator, texts)) && end + tail == Encode(separator)
    ensures Covers(ParsedContent(content, spans), texts, separator, end)
  {
    hide Encode, Terminated;
    forall i | 0 <= i < |texts|
      ensures spans[i].start <= spans[i].end <= |content| && content[spans[i].start..spans[i].end] == Encode(texts[i])
      ensures i + 1 < |texts| ==> spans[i].end <= spans[i + 1].start <= |content| &&
                                  content[spans[i].end..spans[i + 1].start] == Encode(separator)
    {
      TextInPlace(separator, texts, content, tail, i);
      NextStart(separator, texts, i);
    }
    if texts != [] {
      FirstStart(separator, texts);
      TextInPlace(separator, texts, content, tail, |texts| - 1);
      var last := spans[|texts| - 1].end;
      assert content[last..] == (content[last..] + tail)[..|end|] == (end + tail)[..|end|] == end;
    }
  }

  // ----- CSV -----

  datatype ParseError = CorruptContent | ResourceLimit

  const MAX_CSV_ROWS: nat := 1000000
  const MAX_CSV_COLUMNS: nat := 1000
  const MAX_CSV_FIELD_BYTES: nat := 1048576
  const MAX_PDF_PAGES: nat := 2000
  const MAX_OUTPUT_BYTES: nat := 52428800

  type Row = seq<string>

  /** Some field is longer than so many bytes. */
  ghost predicate SomeFieldOver(rows: seq<Row>, bytes: nat) {
    exists row, field :: row in rows && field in row && |Encode(field)| > bytes
  }

  lemma {:induction false} FieldsExactly(rows: seq<Row>, bytes: nat)
    ensures (exists row :: row in rows && exists field :: field in row && |Encode(field)| > bytes) <==>
            SomeFieldOver(rows, bytes)
  {
    hide Encode;
    if SomeFieldOver(rows, bytes) {
      var row, field :| row in rows && field in row && |Encode(field)| > bytes;
      assert exists f :: f in row && |Encode(f)| > bytes;
    }
  }

  function CsvFault(rows: seq<Row>): Option<ParseError> {
    if rows == [] || rows[0] == [] then Some(CorruptContent)
    else if |rows[0]| > MAX_CSV_COLUMNS || |rows| - 1 > MAX_CSV_ROWS then Some(ResourceLimit)
    else if exists row :: row in rows && |row| != |rows[0]| then Some(CorruptContent)
    else if exists row :: row in rows && exists field :: field in row && |Encode(field)| > MAX_CSV_FIELD_BYTES
    then Some(ResourceLimit)
    else None
  }

  /** dict(zip(header, row)): of columns with one name the last counts. */
  function Zip(header: Row, row: Row): (record: map<string, string>)
    requires |header| == |row|
    ensures forall k :: k in record <==> k in header
    decreases |row|
  {
    if row == [] then map[]
    else
      var n := |row| - 1;
      assert header == header[..n] + [header[n]];
      Zip(header[..n], row[..n])[header[n] := row[n]]
  }

  /** The object that json.dumps prints, with sorted keys. */
  function RecordObject(header: Row, row: Row): Object
    requires |header| == |row|
  {
    var keys, record := Listing(header), Zip(header, row);
    ListingLists(header);
    seq(|keys|, i requires 0 <= i < |keys| && keys[i] in record => Field(keys[i], Str(record[keys[i]])))
  }

  /** Each column of the row is found again in the printed object, the last one of a name. */
  lemma {:induction false} RecordKeepsFields(header: Row, row: Row, i: nat)
    requires |header| == |row| && i < |header| && forall j :: i < j < |header| ==> header[j] != header[i]
    ensures Get(RecordObject(header, row), header[i]) == Some(Str(row[i]))
  {
    hide Listing, Zip;
    ListingLists(header);
    ZipKeepsLast(header, row, i);
    var o := RecordObject(header, row);
    assert header[i] in Listing(header);
    var k :| 0 <= k < |o| && Listing(header)[k] == header[i];
    forall j | k < j < |o| ensures o[j].key != o[k].key { LessIsStrict(Listing(header)[k], Listing(header)[j]); }
    GetUnique(o, k);
  }

  lemma {:induction false} ZipKeepsLast(header: Row, row: Row, i: nat)
    requires |header| == |row| && i < |header| && forall j :: i < j < |header| ==> header[j] != header[i]
    ensures Zip(header, row)[header[i]] == row[i]
    decreases |row|
  {
    if i < |row| - 1 { ZipKeepsLast(header[..|row| - 1], row[..|row| - 1], i); }
  }

  lemma {:induction false} GetAbsent(o: Object, key: string)
    requires forall i :: 0 <= i < |o| ==> o[i].key != key
    ensures Get(o, key) == None
  {
    if o != [] { GetAbsent(o[1..], key); }
  }

  lemma {:induction false} GetUnique(o: Object, i: nat)
    requires i < |o| && forall j :: i < j < |o| ==> o[j].key != o[i].key
    ensures Get(o, o[i].key) == Some(o[i].value)
  {
    if i == 0 {
      GetAbsent(o[1..], o[0].key);
    } else {
      GetUnique(o[1..], i - 1);
    }
  }

  /** The printed object has the columns of the header, each once, with its keys in order. */
  lemma {:induction false} ColumnsExactly(header: Row, row: Row)
    requires |header| == |row|
    ensures var o := RecordObject(header, row);
            && (forall i, j :: 0 <= i < j < |o| ==> Less(o[i].key, o[j].key))
            && forall k :: k in header <==> exists i :: 0 <= i < |o| && o[i].key == k
  {
    hide Listing, Zip, Less;
    ListingLists(header);
    var o, keys := RecordObject(header, row), Listing(header);
    assert |o| == |keys| && forall i :: 0 <= i < |o| ==> o[i].key == keys[i];
  }

  predicate Rectangular(rows: seq<Row>) {
    rows != [] && forall i :: 0 <= i < |rows| ==> |rows[i]| == |rows[0]|
  }

  lemma {:induction false} FaultlessIsRectangular(rows: seq<Row>)
    ensures CsvFault(rows) == None ==> Rectangular(rows)
  {
  }

  /** The printed records, one line each. */
  function Lines(rows: seq<Row>): (lines: seq<string>)
    requires Rectangular(rows)
    ensures |lines| == |rows| - 1
  {
    seq(|rows| - 1, i requires 0 <= i < |rows| - 1 => Print(RecordObject(rows[0], rows[i + 1])))
  }

  /** CsvParser.parse on the rows that the reader found. */
  method ParseCsv(rows: seq<Row>) returns (r: Result<ParsedContent, ParseError>)
    ensures r == Err(CorruptContent) <==>
            rows == [] || rows[0] == [] ||
            (|rows[0]| <= 1000 && |rows| <= 1000001 && exists row :: row in rows && |row| != |rows[0]|)
    ensures r == Err(ResourceLimit) <==>
            rows != [] && rows[0] != [] &&
            (|rows[0]| > 1000 || |rows| > 1000001 ||
             ((forall row :: row in rows ==> |row| == |rows[0]|) && SomeFieldOver(rows, 1048576)))
    ensures r.Ok? ==> Rectangular(rows) && Covers(r.value, Lines(rows), "\n", Encode("\n"))
    ensures r.Ok? ==> forall i :: 0 <= i < |r.value.spans| ==> r.value.spans[i].name == "record:" + Decimal(i)
  {
    hide Encode, Terminated, Join, Lines, Start, Covers, Decimal, SomeFieldOver;
    FieldsExactly(rows, 1048576);
    FaultlessIsRectangular(rows);
    var fault := CsvFault(rows);
    if fault.Some? { return Err(fault.value); }
    var lines := Lines(rows);
    var content := Encode(Join("\n", lines) + if lines == [] then "" else "\n");
    var spans: seq<Span> := [];
    var start := 0;
    FirstStart("\n", lines);
    EncodeNewline();
    for i := 0 to |lines|
      invariant start == Start("\n", lines, i)
      invariant |spans| == i && LaidOut(spans, lines, "\n")
      invariant forall j :: 0 <= j < i ==> spans[j].name == "record:" + Decimal(j)
    {
      NextStart("\n", lines, i);
      var end := start + |Encode(lines[i])|;
      spans := spans + [Span("record:" + Decimal(i), start, end)];
      start := end + 1;
    }
    JoinIsTerminated("\n", lines);
    JoinOfNothing("\n");
    assert lines == [] ==> Join("\n", lines) + "" == "";
    EncodeNothing();
    LaidOutCovers(spans, lines, "\n", content, [], Encode("\n"));
    return Ok(ParsedContent(content, spans));
  }

  lemma {:induction false} EncodeNewline()
    ensures Encode("\n") == [10]
  {
  }

  /** Decoding the bytes of a record's span and parsing them gives the row's object back. */
  lemma {:induction false} RecordsRecover(p: ParsedContent, rows: seq<Row>, i: nat, column: nat)
    requires Rectangular(rows) && Covers(p, Lines(rows), "\n", Encode("\n")) && i < |rows| - 1
    requires column < |rows[0]| && forall j :: column < j < |rows[0]| ==> rows[0][j] != rows[0][column]
    ensures var slice := p.content[p.spans[i].start..p.spans[i].end];
            exists text, o :: Decode(Ready, slice) == Some(Step(Ready, text)) && Parse(text) == Some(o) &&
              OneLine(text) && Get(o, rows[0][column]) == Some(Str(rows[i + 1][column]))
  {
    hide Encode, Parse, Print, RecordObject;
    var o := RecordObject(rows[0], rows[i + 1]);
    RecordKeepsFields(rows[0], rows[i + 1], column);
    ParsePrint(o);
    PrintIsOneLine(o);
    DecodeEncode(Print(o));
    assert Lines(rows)[i] == Print(o);
  }

  // ----- PDF -----

  /** text.replace("\r\n", "\n") */
  function ReplaceCrLf(s: string): string {
    if |s| >= 2 && s[0] == '\r' && s[1] == '\n' then "\n" + ReplaceCrLf(s[2..])
    else if s == "" then "" else [s[0]] + ReplaceCrLf(s[1..])
  }

  /** text.replace("\r", "\n") */
  function ReplaceCr(s: string): string {
    if s == "" then "" else [if s[0] == '\r' then '\n' else s[0]] + ReplaceCr(s[1..])
  }

  function PageText(s: string): string { ReplaceCr(ReplaceCrLf(s)) }

  function PageTexts(pages: seq<string>): (texts: seq<string>)
    ensures |texts| == |pages| && forall i :: 0 <= i < |pages| ==> texts[i] == PageText(pages[i])
  {
    seq(|pages|, i requires 0 <= i < |pages| => PageText(pages[i]))
  }

  /**
   * What becomes of a page's text: a carriage return becomes a line feed, together with the line feed
   * behind it if there is one, and everything else is kept.
   */
  lemma {:induction false} PageTextExactly(a: string, b: string)
    requires '\r' !in a
    ensures PageText(a + b) == a + PageText(b) && PageText("") == ""
    ensures PageText("\r\n" + b) == "\n" + PageText(b)
    ensures b == "" || b[0] != '\n' ==> PageText("\r" + b) == "\n" + PageText(b)
    decreases |a|
  {
    BreakExactly(b);
    if a == "" {
      assert a + b == b && a + PageText(b) == PageText(b);
    } else {
      hide PageText;
      PageTextExactly(a[1..], b);
      KeepExactly(a[0], a[1..] + b);
      assert [a[0]] + (a[1..] + b) == a + b;
      assert [a[0]] + (a[1..] + PageText(b)) == a + PageText(b);
    }
  }

  lemma {:induction false} KeepExactly(c: char, rest: string)
    requires c != '\r'
    ensures PageText([c] + rest) == [c] + PageText(rest)
  {
    var s := [c] + rest;
    assert s[1..] == rest;
    assert ReplaceCrLf(s) == [c] + ReplaceCrLf(rest);
    assert ([c] + ReplaceCrLf(rest))[1..] == ReplaceCrLf(rest);
  }

  lemma {:induction false} BreakExactly(b: string)
    ensures PageText("\r\n" + b) == "\n" + PageText(b) && PageText("") == ""
    ensures b == "" || b[0] != '\n' ==> PageText("\r" + b) == "\n" + PageText(b)
  {
    var s, t := "\r\n" + b, "\r" + b;
    assert s[2..] == b && t[1..] == b;
    assert ReplaceCrLf(s) == "\n" + ReplaceCrLf(b);
    assert ("\n" + ReplaceCrLf(b))[1..] == ReplaceCrLf(b);
    if b == "" || b[0] != '\n' {
      assert ReplaceCrLf(t) == ['\r'] + ReplaceCrLf(b);
      assert (['\r'] + ReplaceCrLf(b))[1..] == ReplaceCrLf(b);
    }
  }

  const PAGE_BREAK: string := "\n\U{0C}\n"

  /** PdfParser.parse on the texts that the reader extracted. */
  method ParsePdf(pages: seq<string>) returns (r: Result<ParsedContent, ParseError>)
    ensures r.Err? <==> |pages| > 2000 || |Encode(Join("\n\U{0C}\n", PageTexts(pages)))| > 52428800
    ensures r.Err? ==> r.error == ResourceLimit
    ensures r.Ok? ==> Covers(r.value, PageTexts(pages), "\n\U{0C}\n", [])
    ensures r.Ok? ==> forall i :: 0 <= i < |r.value.spans| ==> r.value.spans[i].name == "page:" + Decimal(i + 1)
  {
    hide Encode, Terminated, PageTexts, Start, Covers, Join, Decimal;
    if |pages| > MAX_PDF_PAGES { return Err(ResourceLimit); }
    var texts := PageTexts(pages);
    var content := Encode(Join(PAGE_BREAK, texts));
    if |content| > MAX_OUTPUT_BYTES { return Err(ResourceLimit); }
    var spans: seq<Span> := [];
    var start := 0;
    FirstStart(PAGE_BREAK, texts);
    EncodePageBreak();
    for i := 0 to |texts|
      invariant start == Start(PAGE_BREAK, texts, i)
      invariant |spans| == i && LaidOut(spans, texts, PAGE_BREAK)
      invariant forall j :: 0 <= j < i ==> spans[j].name == "page:" + Decimal(j + 1)
    {
      NextStart(PAGE_BREAK, texts, i);
      var end := start + |Encode(texts[i])|;
      spans := spans + [Span("page:" + Decimal(i + 1), start, end)];
      start := end + 3;
    }
    JoinIsTerminated(PAGE_BREAK, texts);
    JoinOfNothing(PAGE_BREAK);
    EncodeNothing();
    EncodeAppend(Join(PAGE_BREAK, texts), PAGE_BREAK);
    LaidOutCovers(spans, texts, PAGE_BREAK, content, Encode(PAGE_BREAK), []);
    return Ok(ParsedContent(content, spans));
  }

  lemma {:induction false} EncodePageBreak()
    ensures |Encode(PAGE_BREAK)| == 3
  {
    assert PAGE_BREAK == "\n" + ("\U{0C}" + "\n");
    EncodeAppend("\n", "\U{0C}" + "\n");
    EncodeAppend("\U{0C}", "\n");
  }

  lemma {:induction false} JoinOfNothing(separator: string)
    ensures Join(separator, []) == ""
  {
  }

  /** Decoding the bytes of a page's span gives the page's text, which holds no carriage return. */
  lemma {:induction false} PagesRecover(p: ParsedContent, pages: seq<string>, i: nat)
    requires Covers(p, PageTexts(pages), "\n\U{0C}\n", []) && i < |pages|
    ensures Decode(Ready, p.content[p.spans[i].start..p.spans[i].end]) == Some(Step(Ready, PageTexts(pages)[i]))
    ensures '\r' !in PageTexts(pages)[i]
  {
    hide Encode;
    DecodeEncode(PageTexts(pages)[i]);
    NoCarriageReturn(ReplaceCrLf(pages[i]));
  }

  lemma {:induction false} NoCarriageReturn(s: string)
    ensures '\r' !in ReplaceCr(s) && |ReplaceCr(s)| == |s|
  {
    if s != "" { NoCarriageReturn(s[1..]); }
  }
}
