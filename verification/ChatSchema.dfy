/**
 * What one frame of the event stream says and what the parser answers to it, told from the text of the
 * frame alone: its lines, its members, and the members of the object that any JSON reader makes of it.
 */
module ChatSchema {
  import opened Results
  import opened Text
  import opened ChatStream
  import opened ChatRoundTrip
  import Json
  import Utf8

  // ----- the object -----

  const KEYS: set<string> := {
    "schema_version", "request_id", "sequence", "type", "occurred_at", "text", "code", "semantic_state",
    "citation_refs", "receipt_id", "actual_minor", "retry_after_seconds"}

  const STATES: set<string> := {
    "fundamentada", "parcial", "conflitante", "inferida", "sem-evidencia", "obsoleta", "bloqueada", "inconclusiva"}

  predicate IsString(o: Json.Object, key: string) { match Json.Get(o, key) case Some(Str(_)) => true case _ => false }

  /** The text under a key that holds one. */
  function At(o: Json.Object, key: string): string {
    match Json.Get(o, key) case Some(Str(s)) => s case _ => ""
  }

  function NumberOf(o: Json.Object): nat {
    match Json.Get(o, "sequence") case Some(Num(n)) => n case _ => 0
  }

  predicate IsSequenceNumber(v: Option<Json.Value>) { v.Some? && v.value.Num? && v.value.number <= 9007199254740991 }

  predicate AreReferences(v: Option<Json.Value>) {
    v.Some? ==>
      v.value.Arr? && |v.value.items| <= 100 && forall s :: s in v.value.items ==> 1 <= Units(s) <= 128
  }

  /** The objects of the schema. */
  predicate Admissible(o: Json.Object) {
    && (forall i :: 0 <= i < |o| ==> o[i].key in KEYS)
    && Json.Get(o, "schema_version") == Some(Json.Str("1.0.0"))
    && IsString(o, "request_id") && IsSequenceNumber(Json.Get(o, "sequence")) && IsString(o, "occurred_at")
    && IsString(o, "type") && At(o, "type") in {"started", "delta", "completed", "cancelled", "failed"}
    && (At(o, "type") == "delta" ==> IsString(o, "text"))
    && (At(o, "type") == "completed" ==>
          IsString(o, "semantic_state") &&
          At(o, "semantic_state") in STATES)
    && AreReferences(Json.Get(o, "citation_refs"))
  }

  lemma {:induction false} IsStringExactly(o: Json.Object, key: string)
    ensures IsString(o, key) <==> IsText(Json.Get(o, key))
    ensures At(o, key) == TextOf(o, key)
  {
    hide Json.Get;
  }

  lemma {:induction false} KeysExactly(key: string)
    ensures key in ALLOWED_KEYS <==> key in KEYS
  {
    var all := ALLOWED_KEYS;
    assert all[0] == "schema_version" && all[1] == "request_id" && all[2] == "sequence" && all[3] == "type";
    assert all[4] == "occurred_at" && all[5] == "text" && all[6] == "code" && all[7] == "semantic_state";
    assert all[8] == "citation_refs" && all[9] == "receipt_id" && all[10] == "actual_minor";
    assert all[11] == "retry_after_seconds";
  }

  lemma {:induction false} StatesExactly(state: string)
    ensures state in SEMANTIC_STATES <==> state in STATES
  {
    var all := SEMANTIC_STATES;
    assert all[0] == "fundamentada" && all[1] == "parcial" && all[2] == "conflitante" && all[3] == "inferida";
    assert all[4] == "sem-evidencia" && all[5] == "obsoleta" && all[6] == "bloqueada" && all[7] == "inconclusiva";
  }

  lemma {:induction false} ReferencesExactly(v: Option<Json.Value>)
    ensures ValidReferences(v) <==> AreReferences(v)
  {
    if v.Some? && v.value.Arr? {
      var items := v.value.items;
      assert (forall i :: 0 <= i < |items| ==> ValidReference(items[i])) <==>
        forall s :: s in items ==> ValidReference(s);
    }
  }

  /** The schema check admits exactly these objects. */
  lemma {:induction false} SchemaExactly(o: Json.Object)
    ensures Validate(o) <==> Admissible(o)
    ensures TextOf(o, "type") == At(o, "type") && TextOf(o, "request_id") == At(o, "request_id")
    ensures SequenceOf(o) == NumberOf(o)
  {
    hide Json.Get, IsString, IsText, TextOf, At, AreReferences, ValidReferences, ALLOWED_KEYS, KEYS, SEMANTIC_STATES;
    IsStringExactly(o, "request_id");
    IsStringExactly(o, "occurred_at");
    IsStringExactly(o, "text");
    TypesExactly(o);
    ReferencesExactly(Json.Get(o, "citation_refs"));
    forall i | 0 <= i < |o| ensures o[i].key in ALLOWED_KEYS <==> o[i].key in KEYS { KeysExactly(o[i].key); }
  }

  lemma {:induction false} TypesExactly(o: Json.Object)
    ensures At(o, "type") == TextOf(o, "type")
    ensures IsTextIn(Json.Get(o, "type"), ["started", "delta", "completed", "cancelled", "failed"]) <==>
            IsString(o, "type") && At(o, "type") in {"started", "delta", "completed", "cancelled", "failed"}
    ensures IsTextIn(Json.Get(o, "semantic_state"), SEMANTIC_STATES) <==>
            IsString(o, "semantic_state") &&
            At(o, "semantic_state") in STATES
  {
    hide Json.Get, SEMANTIC_STATES;
    IsStringExactly(o, "type");
    IsStringExactly(o, "semantic_state");
    StatesExactly(At(o, "semantic_state"));
    var types := ["started", "delta", "completed", "cancelled", "failed"];
    assert types[0] == "started" && types[1] == "delta" && types[2] == "completed" && types[3] == "cancelled";
    assert types[4] == "failed";
  }

  // ----- the lines -----

  /** The text without its carriage returns. */
  function WithoutCr(s: string): string {
    if s == "" then "" else if s[0] == '\r' then WithoutCr(s[1..]) else [s[0]] + WithoutCr(s[1..])
  }

  lemma {:induction false} StripCrExactly(s: string)
    ensures StripCr(s) == WithoutCr(s)
    decreases |s|
  {
    if s != "" {
      StripCrExactly(s[1..]);
      if s[0] == '\r' { assert "" + StripCr(s[1..]) == StripCr(s[1..]); }
    }
  }

  /** The lines are the pieces between the line feeds. */
  predicate AreLines(lines: seq<string>, s: string) {
    lines != [] && Join("\n", lines) == s && forall i :: 0 <= i < |lines| ==> '\n' !in lines[i]
  }

  lemma {:induction false} JoinFirst(first: string, rest: seq<string>)
    requires rest != []
    ensures Join("\n", [first] + rest) == first + ("\n" + Join("\n", rest))
    decreases |rest|
  {
    var all, n := [first] + rest, |rest| - 1;
    if n == 0 {
      assert all == [first, rest[0]];
      JoinOfTwo("\n", first, rest[0]);
      assert rest == [rest[0]];
    } else {
      assert all[..|all| - 1] == [first] + rest[..n] && all[|all| - 1] == rest[n];
      JoinFirst(first, rest[..n]);
      var middle, last := Join("\n", rest[..n]), "\n" + rest[n];
      assert (first + ("\n" + middle)) + last == first + ("\n" + (middle + last));
    }
  }

  lemma {:induction false} LinesExactly(s: string)
    ensures AreLines(Lines(s), s)
    decreases |s|
  {
    hide Join, IndexOf;
    var i := IndexOf(s, '\n');
    if i >= 0 {
      LinesExactly(s[i + 1..]);
      JoinFirst(s[..i], Lines(s[i + 1..]));
      assert s == s[..i] + ("\n" + s[i + 1..]);
    } else {
      JoinOfTwo("\n", s, "");
    }
  }

  /** The value that a line gives to a field; a line that is the name alone gives an empty one. */
  function ValueOf(line: string, field: string): Option<string> {
    if line == field then Some("")
    else if |line| > |field| && line[..|field|] == field && line[|field|] == ':' then
      Some(if |line| > |field| + 1 && line[|field| + 1] == ' ' then line[|field| + 2..] else line[|field| + 1..])
    else None
  }

  /** The value of the last line for a field. */
  function LastOf(lines: seq<string>, field: string): Option<string> {
    if lines == [] then None
    else
      var value := ValueOf(lines[|lines| - 1], field);
      if value.Some? then value else LastOf(lines[..|lines| - 1], field)
  }

  /** The values of all lines for a field. */
  function AllOf(lines: seq<string>, field: string): seq<string> {
    if lines == [] then []
    else
      var value := ValueOf(lines[|lines| - 1], field);
      AllOf(lines[..|lines| - 1], field) + (if value.Some? then [value.value] else [])
  }

  lemma {:induction false} LineExactly(f: FrameFields, line: string)
    ensures ReadLine(f, line) ==
            FrameFields(
              if ValueOf(line, "id").Some? then ValueOf(line, "id") else f.id,
              if ValueOf(line, "event").Some? then ValueOf(line, "event") else f.name,
              if ValueOf(line, "data").Some? then f.data + [ValueOf(line, "data").value] else f.data)
  {
    var split := IndexOf(line, ':');
    FieldExactly(line, "id");
    FieldExactly(line, "event");
    FieldExactly(line, "data");
    assert "id" != "event" && "id"[0] != "data"[0] && "event"[0] != "data"[0];
    hide ValueOf, IndexOf, DropSpace;
  }

  /** A line is for the field whose name stands before its first colon. */
  lemma {:induction false} FieldExactly(line: string, field: string)
    requires ':' !in field
    ensures var split := IndexOf(line, ':');
            if (if split < 0 then line else line[..split]) == field then
              ValueOf(line, field) == Some(if split < 0 then "" else DropSpace(line[split + 1..]))
            else ValueOf(line, field) == None
  {
    var split := IndexOf(line, ':');
    if |line| > |field| && line[..|field|] == field && line[|field|] == ':' {
      assert forall i :: 0 <= i < |field| ==> line[i] == field[i] && field[i] in field;
      FirstOccurrence(line, ':', |field|);
    }
  }

  lemma {:induction false} ReadLinesAppend(f: FrameFields, lines: seq<string>)
    requires lines != []
    ensures ReadLines(f, lines) == ReadLine(ReadLines(f, lines[..|lines| - 1]), lines[|lines| - 1])
    decreases |lines|
  {
    hide ReadLine;
    var n := |lines| - 1;
    if n > 0 {
      assert lines[1..][..n - 1] == lines[..n][1..];
      ReadLinesAppend(ReadLine(f, lines[0]), lines[1..]);
    } else {
      assert lines[1..] == [] && lines[..0] == [];
    }
  }

  /** The members of a frame, exactly. */
  lemma {:induction false} MembersExactly(lines: seq<string>)
    ensures ReadLines(NO_FIELDS, lines) ==
            FrameFields(LastOf(lines, "id"), LastOf(lines, "event"), AllOf(lines, "data"))
    decreases |lines|
  {
    hide ReadLine, ValueOf;
    if lines != [] {
      MembersExactly(lines[..|lines| - 1]);
      ReadLinesAppend(NO_FIELDS, lines);
      LineExactly(ReadLines(NO_FIELDS, lines[..|lines| - 1]), lines[|lines| - 1]);
      var before := AllOf(lines[..|lines| - 1], "data");
      assert before + [] == before;
    }
  }

  // ----- one frame -----

  /** What the parser answers to a frame of this text, before its position. */
  ghost predicate Answers(frame: string, st: State, p: Setting, answer: Result<seq<Json.Object>, StreamError>) {
    var text := WithoutCr(frame);
    if |Utf8.Encode(text)| > p.maximum then answer == Err(EventTooLarge)
    else if text == "" || text[0] == ':' then answer == Ok([])
    else
      exists lines :: AreLines(lines, text) &&
        match p.read(Join("\n", AllOf(lines, "data")))
        case None => answer == Err(JsonInvalid)
        case Some(o) =>
          if !Admissible(o) then answer == Err(SchemaInvalid)
          else if LastOf(lines, "id") != Some(Decimal(NumberOf(o))) || LastOf(lines, "event") != Some(At(o, "type")) ||
                  NumberOf(o) != st.next then answer == Err(SequenceInvalid)
          else if st.requestId.Some? && st.requestId.value !in {"", At(o, "request_id")} then
            answer == Err(RequestMismatch)
          else answer == Ok([o])
  }

  /** The parser behind an accepted event. */
  function Behind(st: State, o: Json.Object): State {
    st.(next := st.next + 1, requestId := Some(At(o, "request_id")),
        ended := st.ended || At(o, "type") in {"completed", "cancelled", "failed"})
  }

  lemma {:induction false} BehindExactly(st: State, o: Json.Object)
    ensures Accept(st, o) == Behind(st, o)
  {
    hide TextOf, At, IsString, IsTerminal;
    IsStringExactly(o, "request_id");
    TerminalExactly(o);
  }

  lemma {:induction false} TerminalExactly(o: Json.Object)
    ensures IsTerminal(o) <==> At(o, "type") in {"completed", "cancelled", "failed"}
  {
    hide TextOf, At, IsString;
    IsStringExactly(o, "type");
    var all := ["completed", "cancelled", "failed"];
    assert all[0] == "completed" && all[1] == "cancelled" && all[2] == "failed";
  }

  /** One frame taken off the buffer, exactly. */
  lemma {:induction false} TakenExactly(st: State, p: Setting)
    requires Boundary(st.buffer) >= 0
    ensures var frame := st.buffer[..Boundary(st.buffer)];
            var advanced := st.(buffer := st.buffer[Boundary(st.buffer) + 2..]);
            exists answer :: Answers(frame, st, p, answer) &&
              match answer
              case Err(error) => Drain(st, p) == (Err(error), advanced)
              case Ok(os) =>
                |os| <= 1 &&
                  Drain(st, p) == Prepend(os, Drain(if os == [] then advanced else Behind(advanced, os[0]), p))
  {
    hide Boundary, Interpret, Lines, ReadLines, Accept, Behind, Drain, Prepend, StripCr, WithoutCr, Utf8.Encode;
    var frame := st.buffer[..Boundary(st.buffer)];
    var advanced := st.(buffer := st.buffer[Boundary(st.buffer) + 2..]);
    DrainStep(st, p);
    StripCrExactly(frame);
    PrependNothing(Drain(advanced, p));
    var text := WithoutCr(frame);
    var answer: Result<seq<Json.Object>, StreamError> :=
      if |Utf8.Encode(text)| > p.maximum then Err(EventTooLarge)
      else if Ignored(text) then Ok([])
      else One(Interpret(p.read, ReadLines(NO_FIELDS, Lines(text)), st.next, st.requestId));
    if |Utf8.Encode(text)| <= p.maximum && !Ignored(text) {
      InterpretExactly(frame, st, p);
      if answer.Ok? { BehindExactly(advanced, answer.value[0]); }
    }
    assert Answers(frame, st, p, answer);
  }

  function One(r: Result<Json.Object, StreamError>): Result<seq<Json.Object>, StreamError> {
    match r case Err(error) => Err(error) case Ok(o) => Ok([o])
  }

  lemma {:induction false} InterpretExactly(frame: string, st: State, p: Setting)
    requires var text := WithoutCr(frame); |Utf8.Encode(text)| <= p.maximum && text != "" && text[0] != ':'
    ensures Answers(frame, st, p,
              One(Interpret(p.read, ReadLines(NO_FIELDS, Lines(WithoutCr(frame))), st.next, st.requestId)))
  {
    hide Validate, Lines, ReadLines, Utf8.Encode, WithoutCr, TextOf, SequenceOf, Admissible, At, NumberOf, AllOf,
         LastOf;
    var text := WithoutCr(frame);
    var lines := Lines(text);
    LinesExactly(text);
    MembersExactly(lines);
    var read := p.read(Join("\n", AllOf(lines, "data")));
    if read.Some? { SchemaExactly(read.value); }
  }

  // ----- frames in the text -----

  /** What the frame of an accepted event says. */
  ghost predicate Says(frame: string, o: Json.Object, p: Setting) {
    && |Utf8.Encode(WithoutCr(frame))| <= p.maximum && Admissible(o)
    && exists lines ::
         && AreLines(lines, WithoutCr(frame)) && p.read(Join("\n", AllOf(lines, "data"))) == Some(o)
         && LastOf(lines, "id") == Some(Decimal(NumberOf(o))) && LastOf(lines, "event") == Some(At(o, "type"))
  }

  /** The text from `i` to `j` is a frame: it ends at a blank line, holds none, and begins the text or follows one. */
  predicate IsFrameOf(text: string, i: nat, j: nat) {
    && i <= j && BlankLineAt(text, j) && (forall k :: i <= k < j ==> !BlankLineAt(text, k))
    && (i == 0 || BlankLineAt(text, i - 2))
  }

  ghost predicate FramedIn(text: string, o: Json.Object, p: Setting) {
    exists i: nat, j: nat :: j <= |text| && IsFrameOf(text, i, j) && Says(text[i..j], o, p)
  }

  lemma {:induction false} FramedInLonger(text: string, b: nat, o: Json.Object, p: Setting)
    requires BlankLineAt(text, b) && FramedIn(text[b + 2..], o, p)
    ensures FramedIn(text, o, p)
  {
    hide Says;
    var rest := text[b + 2..];
    var i: nat, j: nat :| j <= |rest| && IsFrameOf(rest, i, j) && Says(rest[i..j], o, p);
    assert forall k :: 0 <= k < |rest| ==> rest[k] == text[b + 2 + k];
    forall k | b + 2 + i <= k < b + 2 + j ensures !BlankLineAt(text, k) {
      assert !BlankLineAt(rest, k - b - 2);
    }
    assert rest[i..j] == text[b + 2 + i..b + 2 + j];
    assert IsFrameOf(text, b + 2 + i, b + 2 + j);
  }

  /** Every event taken off a buffer stands there in a frame that says it. */
  lemma {:induction false} DrainedAreFramed(st: State, p: Setting)
    requires Drain(st, p).0.Ok?
    ensures forall o :: o in Drain(st, p).0.value ==> FramedIn(st.buffer, o, p)
    decreases |st.buffer|
  {
    hide Drain, Says, Answers, Behind, FramedIn, IsFrameOf, BlankLineAt, Boundary;
    DrainStep(st, p);
    if Boundary(st.buffer) >= 0 {
      var os, next := FirstTaken(st, p);
      DrainedAreFramed(next, p);
      forall o | o in Drain(st, p).0.value ensures FramedIn(st.buffer, o, p) {
        if o !in os {
          BoundaryIsBlank(st.buffer);
          FramedInLonger(st.buffer, Boundary(st.buffer), o, p);
        }
      }
    }
  }

  /** What the first frame gives, and the parser behind it. */
  lemma {:induction false} FirstTaken(st: State, p: Setting) returns (os: seq<Json.Object>, next: State)
    requires Drain(st, p).0.Ok? && Boundary(st.buffer) >= 0
    ensures next.buffer == st.buffer[Boundary(st.buffer) + 2..] && Drain(next, p).0.Ok?
    ensures Drain(st, p).0.value == os + Drain(next, p).0.value
    ensures forall o :: o in os ==> FramedIn(st.buffer, o, p)
  {
    hide Drain, Says, Answers, Behind, FramedIn, IsFrameOf, BlankLineAt, Boundary;
    var b := Boundary(st.buffer);
    var advanced := st.(buffer := st.buffer[b + 2..]);
    TakenExactly(st, p);
    var answer :| Answers(st.buffer[..b], st, p, answer) &&
      match answer
      case Err(error) => Drain(st, p) == (Err(error), advanced)
      case Ok(taken) =>
        |taken| <= 1 &&
        Drain(st, p) == Prepend(taken, Drain(if taken == [] then advanced else Behind(advanced, taken[0]), p));
    os := answer.value;
    next := if os == [] then advanced else Behind(advanced, os[0]);
    BehindKeepsBuffer(advanced, answer);
    forall o | o in os ensures FramedIn(st.buffer, o, p) {
      assert os == [o];
      AnswerSays(st.buffer[..b], st, p, o);
      FirstIsFramed(st.buffer, o, p);
    }
  }

  lemma {:induction false} BehindKeepsBuffer(st: State, answer: Result<seq<Json.Object>, StreamError>)
    ensures answer.Ok? && answer.value != [] ==> Behind(st, answer.value[0]).buffer == st.buffer
  {
  }

  lemma {:induction false} BoundaryIsBlank(text: string)
    ensures Boundary(text) >= 0 ==>
              BlankLineAt(text, Boundary(text)) && forall k :: 0 <= k < Boundary(text) ==> !BlankLineAt(text, k)
  {
  }

  lemma {:induction false} FirstIsFramed(text: string, o: Json.Object, p: Setting)
    requires Boundary(text) >= 0 && Says(text[..Boundary(text)], o, p)
    ensures FramedIn(text, o, p)
  {
    hide Says, Boundary;
    BoundaryIsBlank(text);
    assert text[0..Boundary(text)] == text[..Boundary(text)];
    assert IsFrameOf(text, 0, Boundary(text));
  }

  lemma {:induction false} AnswerSays(frame: string, st: State, p: Setting, o: Json.Object)
    requires Answers(frame, st, p, Ok([o]))
    ensures Says(frame, o, p)
  {
    hide Admissible, AreLines, WithoutCr, Utf8.Encode, AllOf, LastOf, At, NumberOf;
    var text := WithoutCr(frame);
    var answer: Result<seq<Json.Object>, StreamError> := Ok([o]);
    var lines :| AreLines(lines, text) &&
      match p.read(Join("\n", AllOf(lines, "data")))
      case None => answer == Err(JsonInvalid)
      case Some(read) =>
        if !Admissible(read) then answer == Err(SchemaInvalid)
        else if LastOf(lines, "id") != Some(Decimal(NumberOf(read))) ||
                LastOf(lines, "event") != Some(At(read, "type")) || NumberOf(read) != st.next then
          answer == Err(SequenceInvalid)
        else if st.requestId.Some? && st.requestId.value !in {"", At(read, "request_id")} then
          answer == Err(RequestMismatch)
        else answer == Ok([read]);
    assert [o][0] == o;
  }

  /**
   * Every event that a push accepts, on any bytes and with any JSON reader, stands in the text there
   * was: in a frame that is not over the limit, whose id line is the decimal of its number, whose event
   * line is its type, and whose data lines are read as an object of the schema.
   */
  lemma {:induction false} AcceptedAreFramed(st: State, chunk: seq<Utf8.Byte>, p: Setting)
    requires ParseChunk(st, chunk, p).0.Ok?
    ensures Utf8.Decode(st.decoder, chunk).Some?
    ensures forall o :: o in ParseChunk(st, chunk, p).0.value ==>
              FramedIn(Feed(st, Utf8.Decode(st.decoder, chunk).value).buffer, o, p)
  {
    hide Drain, Boundary, FramedIn;
    DrainedAreFramed(Feed(st, Utf8.Decode(st.decoder, chunk).value), p);
  }

  /** Over every run of pushes, all that is accepted meets the schema. */
  lemma {:induction false} AcceptedAreAdmissible(st: State, chunks: seq<seq<Utf8.Byte>>, p: Setting)
    requires ParseChunks(st, chunks, p).0.Ok?
    ensures forall o :: o in ParseChunks(st, chunks, p).0.value ==> Admissible(o)
    decreases |chunks|
  {
    hide ParseChunk, Admissible, FramedIn;
    if chunks != [] {
      var out := ParseChunk(st, chunks[0], p);
      AcceptedAreFramed(st, chunks[0], p);
      AcceptedAreAdmissible(out.1, chunks[1..], p);
      var text := Feed(st, Utf8.Decode(st.decoder, chunks[0]).value).buffer;
      forall o | o in out.0.value ensures Admissible(o) { FramedIsAdmissible(text, o, p); }
    }
  }

  lemma {:induction false} FramedIsAdmissible(text: string, o: Json.Object, p: Setting)
    requires FramedIn(text, o, p)
    ensures Admissible(o)
  {
  }

  // ----- one frame, pushed alone -----

  /**
   * A frame pushed alone, with its blank line: the answer is the one its text calls for, and the parser
   * stands behind it.
   */
  lemma {:induction false} FrameExactly(frame: string, st: State, p: Setting)
    returns (answer: Result<seq<Json.Object>, StreamError>)
    requires forall k :: 0 <= k < |frame| ==> !BlankLineAt(frame + "\n\n", k)
    requires st.decoder == Utf8.Ready && st.buffer == "" && !st.ended && !st.unread
    ensures Answers(frame, st, p, answer)
    ensures var (r, after) := ParseChunk(st, Utf8.Encode(frame + "\n\n"), p);
            && r == answer
            && (r.Ok? ==> |r.value| <= 1 && after == if r.value == [] then st else Behind(st, r.value[0]))
  {
    hide Boundary, Drain, Answers, Behind, Utf8.Encode, Utf8.Decode;
    var text := frame + "\n\n";
    Utf8.DecodeEncode(text);
    assert "" + text == text;
    BlankLineEnds(frame);
    assert text[..|frame|] == frame && text[|frame| + 2..] == "";
    var fed := st.(buffer := text);
    TakenExactly(fed, p);
    answer :| Answers(frame, fed, p, answer) &&
      match answer
      case Err(error) => Drain(fed, p) == (Err(error), st)
      case Ok(os) => |os| <= 1 && Drain(fed, p) == Prepend(os, Drain(if os == [] then st else Behind(st, os[0]), p));
    AnswersAnywhere(frame, fed, st, p, answer);
    BehindKeepsBuffer(st, answer);
    if answer.Ok? {
      var next := if answer.value == [] then st else Behind(st, answer.value[0]);
      DrainStep(next, p);
      NoBoundary();
      assert answer.value + [] == answer.value;
    }
  }

  lemma {:induction false} NoBoundary()
    ensures Boundary("") < 0
  {
  }

  lemma {:induction false} BlankLineEnds(frame: string)
    requires forall k :: 0 <= k < |frame| ==> !BlankLineAt(frame + "\n\n", k)
    ensures Boundary(frame + "\n\n") == |frame|
  {
    hide Boundary;
    var text := frame + "\n\n";
    assert text[|frame|] == '\n' && text[|frame| + 1] == '\n';
    assert Boundary(text) >= 0 ==> BlankLineAt(text, Boundary(text));
  }

  lemma {:induction false} AnswersAnywhere(
    frame: string, a: State, b: State, p: Setting, answer: Result<seq<Json.Object>, StreamError>)
    requires a.next == b.next && a.requestId == b.requestId && Answers(frame, a, p, answer)
    ensures Answers(frame, b, p, answer)
  {
    hide Admissible, AreLines, WithoutCr, Utf8.Encode, AllOf, LastOf;
  }

  // ----- one printed event -----

  /** The events that the schema admits. */
  predicate Meets(e: ModelEvent) {
    && e.sequence <= 9007199254740991 && (e.kind == Delta ==> e.text.Some?)
    && (e.kind == Completed ==>
          e.semanticState.Some? &&
          e.semanticState.value in STATES)
    && (e.citationRefs.Some? ==>
          |e.citationRefs.value| <= 100 && forall s :: s in e.citationRefs.value ==> 1 <= Units(s) <= 128)
  }

  lemma {:induction false} MeetsExactly(e: ModelEvent)
    ensures Meets(e) <==> Acceptable(e)
  {
    hide SEMANTIC_STATES;
    if e.semanticState.Some? { StatesExactly(e.semanticState.value); }
    if e.citationRefs.Some? {
      var items := e.citationRefs.value;
      assert (forall i :: 0 <= i < |items| ==> ValidReference(items[i])) <==>
        forall s :: s in items ==> ValidReference(s);
    }
  }

  /**
   * What the gateway prints of one event, pushed alone: accepted as that event if and only if it fits,
   * meets the schema, and has the next number and the request of the stream; each refusal has its error.
   */
  lemma {:induction false} PrintedExactly(e: ModelEvent, st: State, p: Setting)
    requires ReadsBack(p.read) && FormatSseEvent(e).Some?
    requires st.decoder == Utf8.Ready && st.buffer == "" && !st.ended
    ensures ParseChunk(st, Utf8.Encode(FormatSseEvent(e).value), p).0 ==
            if FrameBytes(e) > p.maximum then Err(EventTooLarge)
            else if !Meets(e) then Err(SchemaInvalid)
            else if e.sequence != st.next then Err(SequenceInvalid)
            else if st.requestId.Some? && st.requestId.value !in {"", e.requestId} then Err(RequestMismatch)
            else Ok([Fields(e)])
  {
    hide Boundary, Drain, Frame, Fields, Meets, Utf8.Encode, Utf8.Decode, ReadsBack, Printed, Units;
    PrintedIsFed(e, st);
    DrainPrinted(e, st.(unread := false, buffer := Printed(e)), p);
  }

  /** The printed event stands in the buffer, whole and alone. */
  lemma {:induction false} PrintedIsFed(e: ModelEvent, st: State)
    requires FormatSseEvent(e).Some? && st.decoder == Utf8.Ready && st.buffer == ""
    ensures FormatSseEvent(e).value == Printed(e) && Boundary(Printed(e)) == |Frame(e)|
    ensures var step := Utf8.Decode(st.decoder, Utf8.Encode(Printed(e)));
            step.Some? && Feed(st, step.value) == st.(unread := false, buffer := Printed(e))
  {
    hide Boundary, Frame, Utf8.Encode, Utf8.Decode, Printed, FormatSseEvent;
    Utf8.DecodeEncode(Printed(e));
    PrintedShape(e);
    assert "" + Printed(e) == Printed(e);
  }

  lemma {:induction false} PrintedShape(e: ModelEvent)
    ensures FormatSseEvent(e).Some? ==> FormatSseEvent(e).value == Printed(e)
    ensures Boundary(Printed(e)) == |Frame(e)| && Printed(e) != "" && Printed(e)[0] == 'i'
  {
    hide Boundary, Frame;
    FrameStarts(e);
    assert Printed(e) + "" == Printed(e);
    BufferAtFrame(e, "", Printed(e), "");
  }

  lemma {:induction false} DrainPrinted(e: ModelEvent, fed: State, p: Setting)
    requires ReadsBack(p.read) && fed.buffer == Printed(e)
    ensures Drain(fed, p).0 ==
            if FrameBytes(e) > p.maximum then Err(EventTooLarge)
            else if !Meets(e) then Err(SchemaInvalid)
            else if e.sequence != fed.next then Err(SequenceInvalid)
            else if fed.requestId.Some? && fed.requestId.value !in {"", e.requestId} then Err(RequestMismatch)
            else Ok([Fields(e)])
  {
    hide Boundary, Drain, Interpret, ReadLines, Lines, StripCr, Frame, Fields, Acceptable, Meets, Utf8.Encode,
         ReadsBack, Accept, Ignored;
    assert Printed(e) + "" == Printed(e) && Printed(e)[..|Frame(e)|] == Frame(e) && Printed(e)[|Frame(e)| + 2..] == "";
    BufferAtFrame(e, "", Printed(e), "");
    FrameIsKept(e);
    MeetsExactly(e);
    InterpretPrinted(e, fed, p);
    DrainStep(fed, p);
    if Interpret(p.read, ReadLines(NO_FIELDS, Lines(Frame(e))), fed.next, fed.requestId).Ok? {
      AcceptKeeps(fed.(buffer := ""), Fields(e));
      DrainStep(Accept(fed.(buffer := ""), Fields(e)), p);
      NoBoundary();
      assert [Fields(e)] + [] == [Fields(e)];
    }
  }

  lemma {:induction false} AcceptKeeps(st: State, o: Json.Object)
    ensures Accept(st, o).buffer == st.buffer
  {
  }

  lemma {:induction false} FrameIsKept(e: ModelEvent)
    ensures StripCr(Frame(e)) == Frame(e) && !Ignored(Frame(e))
  {
    hide Json.Print, Fields, StripCr;
    FrameIsOneLineEach(e);
    StripWithoutCr(Frame(e));
    assert Frame(e)[0] == 'i';
  }

  lemma {:induction false} InterpretPrinted(e: ModelEvent, st: State, p: Setting)
    requires ReadsBack(p.read)
    ensures Interpret(p.read, ReadLines(NO_FIELDS, Lines(Frame(e))), st.next, st.requestId) ==
            if !Acceptable(e) then Err(SchemaInvalid)
            else if e.sequence != st.next then Err(SequenceInvalid)
            else if st.requestId.Some? && st.requestId.value !in {"", e.requestId} then Err(RequestMismatch)
            else Ok(Fields(e))
  {
    hide Json.Print, Fields, ReadLines, Lines, StripCr, Frame, Acceptable, Validate, Decimal, TextOf, SequenceOf;
    FrameMembers(e);
    FrameIsKept(e);
    PrintedEventIsValid(e);
    assert p.read(Json.Print(Fields(e))) == Some(Fields(e));
  }
}
