/**
 * What the desktop parser makes of what the gateway prints: the round trip under any cutting of
 * the bytes, with the exact condition on the size limit.
 */
module ChatRoundTrip {
  import opened Results
  import opened Text
  import opened ChatStream
  import Json
  import Utf8

  /** The reader undoes the printing of events. */
  ghost predicate ReadsBack(read: Reader) {
    forall e: ModelEvent :: read(Json.Print(Fields(e))) == Some(Fields(e))
  }

  lemma {:induction false} JsonReadsBack()
    ensures ReadsBack(Json.Parse)
  {
    hide Json.Parse, Json.Print, Fields;
    forall e: ModelEvent ensures Json.Parse(Json.Print(Fields(e))) == Some(Fields(e)) { Json.ParsePrint(Fields(e)); }
  }

  // ----- one event -----

  /** The events that the parser's schema admits. */
  predicate Acceptable(e: ModelEvent) {
    && e.sequence <= MAX_SAFE_INTEGER
    && (e.kind.Delta? ==> e.text.Some?)
    && (e.kind.Completed? ==> e.semanticState.Some? && e.semanticState.value in SEMANTIC_STATES)
    && (e.citationRefs.Some? ==> |e.citationRefs.value| <= 100)
    && (e.citationRefs.Some? ==>
      forall i :: 0 <= i < |e.citationRefs.value| ==> ValidReference(e.citationRefs.value[i]))
  }

  function OrElse<T>(a: Option<T>, b: Option<T>): Option<T> { if a.Some? then a else b }

  lemma {:induction false} GetField(e: ModelEvent, key: string)
    ensures Json.Get(Fields(e), key) ==
            OrElse(Json.Get(ListField("citation_refs", e.citationRefs), key),
              OrElse(Json.Get(StringField("semantic_state", e.semanticState), key),
                OrElse(Json.Get(StringField("code", e.code), key),
                  OrElse(Json.Get(StringField("text", e.text), key), Json.Get(BaseFields(e), key)))))
  {
    var text, code, state, refs := StringField("text", e.text), StringField("code", e.code),
                                   StringField("semantic_state", e.semanticState),
                                   ListField("citation_refs", e.citationRefs);
    Json.GetAppend(state, refs, key);
    Json.GetAppend(code, state + refs, key);
    Json.GetAppend(text, code + (state + refs), key);
    Json.GetAppend(BaseFields(e), text + (code + (state + refs)), key);
  }

  lemma {:induction false} GetStringField(name: string, value: Option<string>, key: string)
    ensures Json.Get(StringField(name, value), key) ==
            if value.Some? && name == key then Some(Json.Str(value.value)) else None
  {
  }

  lemma {:induction false} GetListField(name: string, value: Option<seq<string>>, key: string)
    ensures Json.Get(ListField(name, value), key) ==
            if value.Some? && name == key then Some(Json.Arr(value.value)) else None
  {
  }

  /** Looking one key up in the five members every event has. */
  lemma {:induction false} GetBase(e: ModelEvent, key: string)
    ensures Json.Get(BaseFields(e), key) ==
            if key == "occurred_at" then Some(Json.Str(e.occurredAt))
            else if key == "type" then Some(Json.Str(e.kind.Name()))
            else if key == "sequence" then Some(Json.Num(e.sequence))
            else if key == "request_id" then Some(Json.Str(e.requestId))
            else if key == "schema_version" then Some(Json.Str("1.0.0"))
            else None
  {
    var o := BaseFields(e);
    assert o[1..][1..] == o[2..] && o[2..][1..] == o[3..] && o[3..][1..] == o[4..] && o[4..][1..] == [];
    assert Json.Get(o[4..], key) == if key == "occurred_at" then Some(Json.Str(e.occurredAt)) else None;
    assert Json.Get(o[3..], key) == OrElse(Json.Get(o[4..], key), if key == "type" then Some(o[3].value) else None);
    assert Json.Get(o[2..], key) == OrElse(Json.Get(o[3..], key), if key == "sequence" then Some(o[2].value) else None);
    assert Json.Get(o[1..], key) ==
           OrElse(Json.Get(o[2..], key), if key == "request_id" then Some(o[1].value) else None);
  }

  lemma {:induction false} Look(e: ModelEvent, key: string)
    ensures Json.Get(Fields(e), key) ==
            if key == "citation_refs" && e.citationRefs.Some? then Some(Json.Arr(e.citationRefs.value))
            else if key == "semantic_state" && e.semanticState.Some? then Some(Json.Str(e.semanticState.value))
            else if key == "code" && e.code.Some? then Some(Json.Str(e.code.value))
            else if key == "text" && e.text.Some? then Some(Json.Str(e.text.value))
            else Json.Get(BaseFields(e), key)
  {
    GetField(e, key);
    GetStringField("text", e.text, key);
    GetStringField("code", e.code, key);
    GetStringField("semantic_state", e.semanticState, key);
    GetListField("citation_refs", e.citationRefs, key);
  }

  lemma {:induction false} LookAtMembers(e: ModelEvent)
    ensures Json.Get(Fields(e), "schema_version") == Some(Json.Str("1.0.0"))
    ensures Json.Get(Fields(e), "request_id") == Some(Json.Str(e.requestId))
    ensures Json.Get(Fields(e), "sequence") == Some(Json.Num(e.sequence))
    ensures Json.Get(Fields(e), "type") == Some(Json.Str(e.kind.Name()))
    ensures Json.Get(Fields(e), "occurred_at") == Some(Json.Str(e.occurredAt))
    ensures Json.Get(Fields(e), "text") == if e.text.Some? then Some(Json.Str(e.text.value)) else None
    ensures Json.Get(Fields(e), "code") == if e.code.Some? then Some(Json.Str(e.code.value)) else None
    ensures Json.Get(Fields(e), "semantic_state") ==
            if e.semanticState.Some? then Some(Json.Str(e.semanticState.value)) else None
    ensures Json.Get(Fields(e), "citation_refs") ==
            if e.citationRefs.Some? then Some(Json.Arr(e.citationRefs.value)) else None
  {
    hide Json.Get, Fields, BaseFields;
    Look(e, "schema_version"); GetBase(e, "schema_version");
    Look(e, "request_id"); GetBase(e, "request_id");
    Look(e, "sequence"); GetBase(e, "sequence");
    Look(e, "type"); GetBase(e, "type");
    Look(e, "occurred_at"); GetBase(e, "occurred_at");
    Look(e, "text"); GetBase(e, "text");
    Look(e, "code"); GetBase(e, "code");
    Look(e, "semantic_state"); GetBase(e, "semantic_state");
    Look(e, "citation_refs"); GetBase(e, "citation_refs");
  }

  lemma {:induction false} KeysAreKnown(e: ModelEvent)
    ensures KnownKeys(Fields(e))
  {
    assert ALLOWED_KEYS[0] == "schema_version" && ALLOWED_KEYS[1] == "request_id" && ALLOWED_KEYS[2] == "sequence";
    assert ALLOWED_KEYS[3] == "type" && ALLOWED_KEYS[4] == "occurred_at" && ALLOWED_KEYS[5] == "text";
    assert ALLOWED_KEYS[6] == "code" && ALLOWED_KEYS[7] == "semantic_state" && ALLOWED_KEYS[8] == "citation_refs";
  }

  /** The parser's schema admits a printed event exactly when it is acceptable. */
  lemma {:induction false} PrintedEventIsValid(e: ModelEvent)
    ensures Validate(Fields(e)) <==> Acceptable(e)
    ensures TextOf(Fields(e), "type") == e.kind.Name() && TextOf(Fields(e), "request_id") == e.requestId
    ensures SequenceOf(Fields(e)) == e.sequence
    ensures IsTerminal(Fields(e)) == e.kind.Terminal()
  {
    hide Json.Get, Fields, KnownKeys;
    LookAtMembers(e);
    KeysAreKnown(e);
    match e.kind {
      case Started => assert e.kind.Name() == "started";
      case Delta => assert e.kind.Name() == "delta";
      case Completed => assert e.kind.Name() == "completed";
      case Cancelled => assert e.kind.Name() == "cancelled";
      case Failed => assert e.kind.Name() == "failed";
    }
  }

  // ----- one frame -----

  lemma {:induction false} StripWithoutCr(s: string)
    requires '\r' !in s
    ensures StripCr(s) == s
  {
    if s != "" {
      StripWithoutCr(s[1..]);
      assert s == [s[0]] + s[1..];
    }
  }

  lemma {:induction false} FirstLineFeed(a: string, b: string)
    requires '\n' !in a
    ensures IndexOf(a + ("\n" + b), '\n') == |a|
    ensures (a + ("\n" + b))[..|a|] == a && (a + ("\n" + b))[|a| + 1..] == b
  {
    var s := a + ("\n" + b);
    assert s[..|a|] == a;
    FirstOccurrence(s, '\n', |a|);
  }

  lemma {:induction false} LinesOfFrame(a: string, b: string, c: string)
    requires '\n' !in a && '\n' !in b && '\n' !in c
    ensures Lines(a + ("\n" + (b + ("\n" + c)))) == [a, b, c]
  {
    FirstLineFeed(a, b + ("\n" + c));
    FirstLineFeed(b, c);
    assert Lines(c) == [c];
    assert Lines(b + ("\n" + c)) == [b, c];
  }

  /** A line `name: value` sets the member it names to the value. */
  lemma {:induction false} ReadNamedLine(f: FrameFields, name: string, value: string)
    requires ':' !in name
    ensures ReadLine(f, name + ": " + value) ==
            if name == "id" then f.(id := Some(value))
            else if name == "event" then f.(name := Some(value))
            else if name == "data" then f.(data := f.data + [value])
            else f
  {
    var line := name + ": " + value;
    assert line[..|name|] == name;
    FirstOccurrence(line, ':', |name|);
    assert line[|name| + 1..] == " " + value;
    assert (" " + value)[1..] == value;
  }

  lemma {:induction false} FrameIsOneLineEach(e: ModelEvent)
    ensures Json.OneLine(IdLine(e)) && Json.OneLine(EventLine(e)) && Json.OneLine(DataLine(e))
    ensures '\r' !in Frame(e)
  {
    hide Json.Print, Fields;
    Json.PrintIsOneLine(Fields(e));
    assert AllDigits(Decimal(e.sequence));
  }

  lemma {:induction false} FrameMembers(e: ModelEvent)
    ensures ReadLines(NO_FIELDS, Lines(StripCr(Frame(e)))) ==
            FrameFields(Some(Decimal(e.sequence)), Some(e.kind.Name()), [Json.Print(Fields(e))])
  {
    hide Json.Print, Fields, ReadLine, Lines, Decimal;
    FrameIsOneLineEach(e);
    StripWithoutCr(Frame(e));
    LinesOfFrame(IdLine(e), EventLine(e), DataLine(e));
    var f1 := ReadLine(NO_FIELDS, IdLine(e));
    var f2 := ReadLine(f1, EventLine(e));
    assert f1 == NO_FIELDS.(id := Some(Decimal(e.sequence))) by {
      assert IdLine(e) == "id" + ": " + Decimal(e.sequence);
      ReadNamedLine(NO_FIELDS, "id", Decimal(e.sequence));
    }
    assert f2 == f1.(name := Some(e.kind.Name())) by {
      assert EventLine(e) == "event" + ": " + e.kind.Name();
      ReadNamedLine(f1, "event", e.kind.Name());
    }
    assert ReadLine(f2, DataLine(e)) == f2.(data := [Json.Print(Fields(e))]) by {
      assert DataLine(e) == "data" + ": " + Json.Print(Fields(e));
      ReadNamedLine(f2, "data", Json.Print(Fields(e)));
      assert [] + [Json.Print(Fields(e))] == [Json.Print(Fields(e))];
    }
    var lines := [IdLine(e), EventLine(e), DataLine(e)];
    assert lines[1..] == [EventLine(e), DataLine(e)] && lines[1..][1..] == [DataLine(e)] && lines[1..][1..][1..] == [];
    assert ReadLines(NO_FIELDS, lines) == ReadLines(f1, lines[1..]) == ReadLines(f2, lines[1..][1..]);
  }

  /** A printed frame at its position in the stream is read back as the printed event. */
  lemma {:induction false} InterpretFrame(read: Reader, e: ModelEvent, requestId: Option<string>)
    requires ReadsBack(read) && Acceptable(e)
    requires requestId.None? || requestId.value == "" || requestId.value == e.requestId
    ensures !Ignored(StripCr(Frame(e))) && StripCr(Frame(e)) == Frame(e)
    ensures Interpret(read, ReadLines(NO_FIELDS, Lines(StripCr(Frame(e)))), e.sequence, requestId) == Ok(Fields(e))
  {
    hide Json.Print, Fields, ReadLines, Lines, Decimal, Validate, TextOf, SequenceOf;
    FrameIsOneLineEach(e);
    StripWithoutCr(Frame(e));
    assert Frame(e)[0] == 'i';
    FrameMembers(e);
    PrintedEventIsValid(e);
  }

  // ----- a whole stream -----

  /**
   * What the gateway sends: acceptable events numbered from 0, nothing after a terminal, and one
   * request. The parser treats an empty request id as no id yet, so empty ids may come first.
   */
  predicate Stream(evs: seq<ModelEvent>) {
    Sequenced(evs) && forall i :: 0 <= i < |evs| - 1 ==> !evs[i].kind.Terminal()
  }

  /** The same, wherever terminals stand. */
  predicate Sequenced(evs: seq<ModelEvent>) {
    && (forall i :: 0 <= i < |evs| ==> Acceptable(evs[i]))
    && (forall i :: 0 <= i < |evs| ==> evs[i].sequence == i)
    && (forall i, j :: 0 <= i < j < |evs| ==> evs[i].requestId == "" || evs[i].requestId == evs[j].requestId)
  }

  function Printed(e: ModelEvent): string { Frame(e) + "\n\n" }

  function StreamText(evs: seq<ModelEvent>): string { FlatMap(Printed, evs) }

  function Objects(evs: seq<ModelEvent>): (os: seq<Json.Object>)
    ensures |os| == |evs| && forall i :: 0 <= i < |evs| ==> os[i] == Fields(evs[i])
  {
    if evs == [] then [] else [Fields(evs[0])] + Objects(evs[1..])
  }

  function FrameBytes(e: ModelEvent): nat { |Utf8.Encode(Frame(e))| }

  /** Every frame leaves room for the first line feed of its blank line. */
  predicate FramesFit(evs: seq<ModelEvent>, p: Setting) {
    forall i :: 0 <= i < |evs| ==> FrameBytes(evs[i]) < p.maximum
  }

  /** Every frame passes the limit once it is complete. */
  predicate FramesPass(evs: seq<ModelEvent>, p: Setting) {
    forall i :: 0 <= i < |evs| ==> FrameBytes(evs[i]) <= p.maximum
  }

  lemma {:induction false} FormatIsPrinted(e: ModelEvent)
    requires Acceptable(e)
    ensures FormatSseEvent(e) == Some(Printed(e))
  {
    hide Frame, ValidReference, SEMANTIC_STATES;
    StatesAreNamed();
  }

  lemma {:induction false} StatesAreNamed()
    ensures "" !in SEMANTIC_STATES
  {
    forall i | 0 <= i < |SEMANTIC_STATES| ensures SEMANTIC_STATES[i] != "" {
      assert |SEMANTIC_STATES[i]| > 0;
    }
  }

  /** What the gateway writes for the events in turn; None when the printer refuses one of them. */
  function SentText(evs: seq<ModelEvent>): Option<string> {
    if evs == [] then Some("")
    else
      match FormatSseEvent(evs[0])
      case None => None
      case Some(printed) =>
        match SentText(evs[1..])
        case None => None
        case Some(rest) => Some(printed + rest)
  }

  lemma {:induction false} AcceptableAreSent(evs: seq<ModelEvent>)
    requires forall i :: 0 <= i < |evs| ==> Acceptable(evs[i])
    ensures SentText(evs) == Some(StreamText(evs))
  {
    hide FormatSseEvent, Printed, Acceptable;
    if evs != [] {
      FormatIsPrinted(evs[0]);
      AcceptableAreSent(evs[1..]);
    }
  }

  /** The chunks are the bytes of what the gateway writes, cut anywhere. */
  predicate CutOf(chunks: seq<seq<Utf8.Byte>>, evs: seq<ModelEvent>) {
    NonEmpty(chunks) && SentText(evs).Some? && Concat(chunks) == Utf8.Encode(SentText(evs).value)
  }

  lemma {:induction false} CutOfStream(chunks: seq<seq<Utf8.Byte>>, evs: seq<ModelEvent>)
    requires forall i :: 0 <= i < |evs| ==> Acceptable(evs[i])
    ensures CutOf(chunks, evs) <==> NonEmpty(chunks) && Concat(chunks) == Utf8.Encode(StreamText(evs))
  {
    hide Acceptable, StreamText, Concat, Utf8.Encode;
    AcceptableAreSent(evs);
  }

  lemma {:induction false} SequencedAreAcceptable(evs: seq<ModelEvent>)
    requires Sequenced(evs)
    ensures forall i :: 0 <= i < |evs| ==> Acceptable(evs[i])
  {
  }

  predicate BlankLineAt(s: string, i: int) { 0 <= i < |s| - 1 && s[i] == '\n' && s[i + 1] == '\n' }

  lemma {:induction false} FrameHasNoBlankLine(a: string, b: string, c: string, rest: string)
    requires '\n' !in a && '\n' !in b && '\n' !in c && b != "" && c != ""
    ensures var f := a + ("\n" + (b + ("\n" + c)));
            forall i :: 0 <= i < |f| ==> !BlankLineAt(f + "\n\n" + rest, i)
  {
    var f := a + ("\n" + (b + ("\n" + c)));
    var s := f + "\n\n" + rest;
    forall i | 0 <= i < |f| ensures !BlankLineAt(s, i) {
      assert s[i] == f[i];
      if i < |a| { assert s[i] == a[i]; }
      else if i == |a| { assert s[i + 1] == b[0]; }
      else if i < |a| + 1 + |b| { assert s[i] == b[i - |a| - 1]; }
      else if i == |a| + 1 + |b| { assert s[i + 1] == c[0]; }
      else { assert s[i] == c[i - |a| - |b| - 2]; }
    }
  }

  lemma {:induction false} PrintedHasOneBlankLine(e: ModelEvent, rest: string)
    ensures forall i :: 0 <= i < |Frame(e)| ==> !BlankLineAt(Printed(e) + rest, i)
  {
    hide Json.Print, Fields, Decimal;
    FrameIsOneLineEach(e);
    FrameHasNoBlankLine(IdLine(e), EventLine(e), DataLine(e), rest);
  }

  lemma {:induction false} CutLong(p: string, rest: string, buffer: string, tail: string)
    requires buffer + tail == p + rest && |buffer| >= |p|
    ensures buffer[..|p|] == p && buffer[|p|..] + tail == rest
  {
    assert buffer[..|p|] == (buffer + tail)[..|p|];
    assert buffer[|p|..] + tail == (buffer + tail)[|p|..];
  }

  lemma {:induction false} CutShort(p: string, rest: string, buffer: string, tail: string)
    requires buffer + tail == p + rest && |buffer| <= |p|
    ensures buffer == p[..|buffer|]
  {
    assert buffer == (buffer + tail)[..|buffer|];
  }

  /** The first blank line of a buffer whose text, as far as it goes, is `f` and a blank line. */
  lemma {:induction false} FirstBlankLine(f: string, s: string, buffer: string)
    requires buffer <= s && f + "\n\n" <= s
    requires forall i :: 0 <= i < |f| ==> !BlankLineAt(s, i)
    ensures Boundary(buffer) == if |buffer| < |f| + 2 then -1 else |f|
  {
    var b, n := Boundary(buffer), |f|;
    assert b >= 0 ==> BlankLineAt(s, b);
    assert s[n] == (f + "\n\n")[n] == '\n' && s[n + 1] == (f + "\n\n")[n + 1] == '\n';
    if n + 2 <= |buffer| {
      assert buffer[n] == '\n' && buffer[n + 1] == '\n';
    }
  }

  /**
   * The buffer is a prefix of what is still to come. Its first blank line, if it has one, ends
   * the first frame; if it has none it is shorter than that frame with its blank line.
   */
  lemma {:induction false} BufferAtFrame(e: ModelEvent, rest: string, buffer: string, tail: string)
    requires buffer + tail == Printed(e) + rest
    ensures Boundary(buffer) == if |buffer| < |Printed(e)| then -1 else |Frame(e)|
    ensures Boundary(buffer) < 0 ==> buffer == Printed(e)[..|buffer|]
    ensures Boundary(buffer) >= 0 ==> buffer[..|Frame(e)|] == Frame(e) && buffer[|Frame(e)| + 2..] + tail == rest
  {
    hide Frame, Boundary, BlankLineAt;
    PrintedHasOneBlankLine(e, rest);
    assert buffer <= buffer + tail && Printed(e) <= Printed(e) + rest;
    FirstBlankLine(Frame(e), Printed(e) + rest, buffer);
    if |buffer| < |Printed(e)| {
      CutShort(Printed(e), rest, buffer, tail);
    } else {
      CutLong(Printed(e), rest, buffer, tail);
      assert buffer[..|Frame(e)|] == buffer[..|Printed(e)|][..|Frame(e)|];
    }
  }

  /** The parser stands before `evs[k]`, with `tail` still to be decoded. */
  ghost predicate Before(evs: seq<ModelEvent>, k: nat, st: State, tail: string)
    requires k <= |evs|
  {
    && st.buffer + tail == StreamText(evs[k..])
    && st.next == k
    && st.requestId == (if k == 0 then None else Some(evs[k - 1].requestId))
    && (st.ended <==> exists i :: 0 <= i < k && evs[i].kind.Terminal())
    && (st.unread ==> k == 0 && st.buffer == "")
  }

  /** A printed stream does not begin with a byte order mark, so none is dropped. */
  lemma {:induction false} NoMark(evs: seq<ModelEvent>, k: nat, st: State, output: string, rest: string)
    requires k <= |evs| && Before(evs, k, st, output + rest)
    ensures WithoutMark(st.unread, output) == output
  {
    hide Frame;
    if st.unread && output != "" {
      assert evs[0..] == evs && st.buffer + (output + rest) == output + rest;
      TextStarts(evs);
      assert output[0] == (output + rest)[0];
    }
  }

  lemma {:induction false} TextStarts(evs: seq<ModelEvent>)
    ensures StreamText(evs) != "" ==> StreamText(evs)[0] == 'i'
  {
    if evs != [] { FrameStarts(evs[0]); }
  }

  lemma {:induction false} FrameStarts(e: ModelEvent)
    ensures Frame(e) != "" && Frame(e)[0] == 'i'
  {
  }

  lemma {:induction false} NextPrinted(evs: seq<ModelEvent>, k: nat)
    requires k < |evs|
    ensures StreamText(evs[k..]) == Printed(evs[k]) + StreamText(evs[k + 1..])
  {
    assert evs[k..][1..] == evs[k + 1..];
  }

  lemma {:induction false} TakeFirstFrame(
    evs: seq<ModelEvent>, k: nat, st: State, tail: string, p: Setting)
    returns (after: State)
    requires ReadsBack(p.read)
    requires Sequenced(evs) && FramesPass(evs, p) && k < |evs|
    requires Before(evs, k, st, tail) && Boundary(st.buffer) >= 0
    ensures Before(evs, k + 1, after, tail) && after.decoder == st.decoder && |after.buffer| < |st.buffer|
    ensures Drain(st, p) == Prepend([Fields(evs[k])], Drain(after, p))
  {
    hide ReadsBack, Interpret, Frame, Fields, Acceptable, Boundary, ReadLines, Lines, StripCr;
    var e := evs[k];
    NextPrinted(evs, k);
    BufferAtFrame(e, StreamText(evs[k + 1..]), st.buffer, tail);
    InterpretFrame(p.read, e, st.requestId);
    PrintedEventIsValid(e);
    after := Accept(st.(buffer := st.buffer[|Frame(e)| + 2..]), Fields(e));
  }

  /** Draining takes exactly the frames that are complete, and stops before the next one. */
  lemma {:induction false} DrainStream(evs: seq<ModelEvent>, k: nat, st: State, tail: string, p: Setting)
    returns (m: nat, after: State)
    requires ReadsBack(p.read)
    requires Sequenced(evs) && FramesPass(evs, p) && k <= |evs|
    requires Before(evs, k, st, tail)
    ensures k <= m <= |evs| && Before(evs, m, after, tail)
    ensures after.decoder == st.decoder && Boundary(after.buffer) < 0
    ensures Drain(st, p) == (Ok(Objects(evs[k..m])), after)
    decreases |evs| - k
  {
    hide ReadsBack, Interpret, Frame, Fields, Sequenced, FramesPass, Drain, Boundary, Before;
    if Boundary(st.buffer) < 0 {
      m, after := k, st;
      assert evs[k..k] == [];
      NothingToDrain(st, p);
    } else {
      SomethingToCome(evs, k, st, tail);
      var next := TakeFirstFrame(evs, k, st, tail, p);
      m, after := DrainStream(evs, k + 1, next, tail, p);
      assert evs[k..m][0] == evs[k] && evs[k..m][1..] == evs[k + 1..m];
    }
  }

  lemma {:induction false} NothingToDrain(st: State, p: Setting)
    requires Boundary(st.buffer) < 0
    ensures Drain(st, p) == (Ok([]), st)
  {
  }

  lemma {:induction false} SomethingToCome(evs: seq<ModelEvent>, k: nat, st: State, tail: string)
    requires k <= |evs| && Before(evs, k, st, tail) && Boundary(st.buffer) >= 0
    ensures k < |evs|
  {
    hide Boundary, StreamText;
    assert |st.buffer + tail| > 0;
    NoText();
    assert evs[|evs|..] == [];
  }

  /** An incomplete frame is over the limit only when it has exactly the maximum and one line feed behind it. */
  lemma {:induction false} TooMuchIsWhole(evs: seq<ModelEvent>, k: nat, buffer: string, tail: string, p: Setting)
    requires k <= |evs| && FramesPass(evs, p)
    requires buffer + tail == StreamText(evs[k..])
    requires Boundary(buffer) < 0 && |Utf8.Encode(buffer)| > p.maximum
    ensures k < |evs| && buffer == Frame(evs[k]) + "\n" && FrameBytes(evs[k]) == p.maximum
  {
    hide Frame, Boundary;
    NothingAtEnd(evs, k, buffer, tail);
    if k < |evs| {
      var e := evs[k];
      NextPrinted(evs, k);
      BufferAtFrame(e, StreamText(evs[k + 1..]), buffer, tail);
      if |buffer| <= |Frame(e)| {
        assert Frame(e) == buffer + Frame(e)[|buffer|..];
        Utf8.EncodeAppend(buffer, Frame(e)[|buffer|..]);
      } else {
        assert buffer == Frame(e) + "\n";
        Utf8.EncodeAppend(Frame(e), "\n");
        assert |Utf8.Encode("\n")| == 1;
      }
    }
  }

  lemma {:induction false} NothingAtEnd(evs: seq<ModelEvent>, k: nat, buffer: string, tail: string)
    requires k <= |evs| && buffer + tail == StreamText(evs[k..])
    ensures k == |evs| ==> Utf8.Encode(buffer) == []
  {
    hide Printed;
  }

  // ----- any cutting of the bytes -----

  predicate NonEmpty(chunks: seq<seq<Utf8.Byte>>) { forall i :: 0 <= i < |chunks| ==> chunks[i] != [] }

  lemma {:induction false} ObjectsAppend(a: seq<ModelEvent>, b: seq<ModelEvent>)
    ensures Objects(a + b) == Objects(a) + Objects(b)
  {
    if a == [] {
      assert a + b == b;
    } else {
      TailOfAppend(a, b);
      ObjectsAppend(a[1..], b);
    }
  }

  lemma {:induction false} NothingLeft(evs: seq<ModelEvent>, k: nat, st: State)
    requires k <= |evs| && Before(evs, k, st, "") && Boundary(st.buffer) < 0
    ensures k == |evs| && st.buffer == ""
  {
    hide Boundary, Frame;
    assert st.buffer + "" == st.buffer;
    if k < |evs| {
      NextPrinted(evs, k);
      BufferAtFrame(evs[k], StreamText(evs[k + 1..]), st.buffer, "");
    }
  }

  /** The push leaves an incomplete frame that is over the limit. */
  predicate TooMuch(st: State, chunk: seq<Utf8.Byte>, p: Setting) {
    var step := Utf8.Decode(st.decoder, chunk);
    step.Some? && |Utf8.Encode(Feed(st, step.value).buffer)| > p.maximum && Boundary(Feed(st, step.value).buffer) < 0
  }

  lemma {:induction false} TooMuchFails(st: State, chunk: seq<Utf8.Byte>, p: Setting)
    requires TooMuch(st, chunk, p)
    ensures ParseChunk(st, chunk, p).0.Err?
  {
  }

  /** What a push decodes in the middle of a stream, and what then stands in the buffer. */
  lemma {:induction false} FedText(
    evs: seq<ModelEvent>, k: nat, st: State, chunk: seq<Utf8.Byte>, later: seq<Utf8.Byte>, tail: string)
    returns (step: Utf8.Step, rest: string)
    requires k <= |evs| && Before(evs, k, st, tail)
    requires Utf8.Decode(st.decoder, chunk + later) == Some(Utf8.Step(Utf8.Ready, tail))
    ensures Utf8.Decode(st.decoder, chunk) == Some(step) && tail == step.output + rest
    ensures Utf8.Decode(step.decoder, later) == Some(Utf8.Step(Utf8.Ready, rest))
    ensures Feed(st, step).buffer == st.buffer + step.output && Before(evs, k, Feed(st, step), rest)
  {
    hide StreamText, Utf8.Decode, Utf8.Encode;
    Utf8.DecodeSplit(st.decoder, chunk, later);
    step := Utf8.Decode(st.decoder, chunk).value;
    rest := Utf8.Decode(step.decoder, later).value.output;
    NoMark(evs, k, st, step.output, rest);
    Associative(st.buffer, step.output, rest);
  }

  /** One push in the middle of a stream returns the events it completes. */
  lemma {:induction false} PushStream(
    evs: seq<ModelEvent>, k: nat, st: State, chunk: seq<Utf8.Byte>, later: seq<Utf8.Byte>, tail: string, p: Setting)
    returns (m: nat, after: State, rest: string)
    requires ReadsBack(p.read)
    requires Sequenced(evs) && FramesPass(evs, p) && k <= |evs| && !st.ended && !TooMuch(st, chunk, p)
    requires Before(evs, k, st, tail)
    requires Utf8.Decode(st.decoder, chunk + later) == Some(Utf8.Step(Utf8.Ready, tail))
    ensures k <= m <= |evs| && Before(evs, m, after, rest) && Boundary(after.buffer) < 0
    ensures Utf8.Decode(after.decoder, later) == Some(Utf8.Step(Utf8.Ready, rest))
    ensures ParseChunk(st, chunk, p) == (Ok(Objects(evs[k..m])), after)
    ensures var step := Utf8.Decode(st.decoder, chunk);
            step.Some? && step.value.decoder == after.decoder && tail == step.value.output + rest
  {
    hide ReadsBack, Boundary, Drain, Frame, Sequenced, FramesPass, Objects, StreamText, Utf8.Decode, Utf8.Encode,
         Before;
    var step: Utf8.Step;
    step, rest := FedText(evs, k, st, chunk, later, tail);
    m, after := DrainStream(evs, k, Feed(st, step), rest, p);
  }

  lemma {:induction false} StreamIsOver(evs: seq<ModelEvent>, k: nat, st: State, tail: string, p: Setting)
    requires k <= |evs| && Before(evs, k, st, tail) && Boundary(st.buffer) < 0
    requires Utf8.Decode(st.decoder, []) == Some(Utf8.Step(Utf8.Ready, tail))
    ensures k == |evs| && st.decoder == Utf8.Ready && st.buffer == "" && Before(evs, |evs|, st, "")
    ensures Objects(evs[k..]) == []
  {
    hide Boundary, Frame;
    NothingLeft(evs, k, st);
  }

  /** The bytes of the first events. */
  function BytesOf(evs: seq<ModelEvent>, k: nat): seq<Utf8.Byte>
    requires k <= |evs|
  {
    Utf8.Encode(StreamText(evs[..k]))
  }

  /** How many bytes there are up to the end of an event. */
  function EndOf(evs: seq<ModelEvent>, i: nat): nat
    requires i < |evs|
  {
    |BytesOf(evs, i + 1)|
  }

  /** Each chunk begins before the end of every terminal event, counting from `done` bytes on. */
  ghost predicate OnTime(evs: seq<ModelEvent>, done: nat, chunks: seq<seq<Utf8.Byte>>) {
    forall n, i :: 0 <= n < |chunks| && 0 <= i < |evs| && evs[i].kind.Terminal() ==>
      done + |Concat(chunks[..n])| < EndOf(evs, i)
  }

  /**
   * From byte `from` to byte `to` a push stays inside a frame of exactly the maximum and ends after
   * the first line feed of its blank line.
   */
  predicate Trips(evs: seq<ModelEvent>, i: nat, from: nat, to: nat, p: Setting)
    requires i < |evs|
  {
    FrameBytes(evs[i]) == p.maximum && |BytesOf(evs, i)| <= from && to + 1 == EndOf(evs, i)
  }

  ghost predicate SomeTrips(evs: seq<ModelEvent>, from: nat, to: nat, p: Setting) {
    exists i :: 0 <= i < |evs| && Trips(evs, i, from, to, p)
  }

  /** How many bytes have been pushed after `n` chunks. */
  function Passed(done: nat, chunks: seq<seq<Utf8.Byte>>, n: nat): nat
    requires n <= |chunks|
  {
    done + |Concat(chunks[..n])|
  }

  /** No chunk does so, counting from `done` bytes on. */
  ghost predicate Roomy(evs: seq<ModelEvent>, done: nat, chunks: seq<seq<Utf8.Byte>>, p: Setting) {
    forall n :: 0 <= n < |chunks| ==>
      !SomeTrips(evs, Passed(done, chunks, n), Passed(done, chunks, n + 1), p)
  }

  lemma {:induction false} FittingIsRoomy(
    evs: seq<ModelEvent>, done: nat, chunks: seq<seq<Utf8.Byte>>, p: Setting)
    requires FramesFit(evs, p)
    ensures FramesPass(evs, p) && Roomy(evs, done, chunks, p)
  {
    hide FrameBytes, BytesOf;
  }

  lemma {:induction false} TextPrefix(evs: seq<ModelEvent>, i: nat, k: nat)
    requires i <= k <= |evs|
    ensures StreamText(evs[..k]) == StreamText(evs[..i]) + StreamText(evs[i..k])
    ensures BytesOf(evs, k) == BytesOf(evs, i) + Utf8.Encode(StreamText(evs[i..k]))
  {
    hide Printed;
    assert evs[..k] == evs[..i] + evs[i..k];
    FlatMapAppend(Printed, evs[..i], evs[i..k]);
    Utf8.EncodeAppend(StreamText(evs[..i]), StreamText(evs[i..k]));
  }

  /** Where the parser stands when `done` has been pushed of the whole bytes of a stream. */
  ghost predicate Reached(evs: seq<ModelEvent>, k: nat, st: State, done: seq<Utf8.Byte>, tail: string)
    requires k <= |evs|
  {
    && Before(evs, k, st, tail) && Boundary(st.buffer) < 0 && done <= BytesOf(evs, |evs|)
    && Utf8.Decode(Utf8.Ready, done) == Some(Utf8.Step(st.decoder, StreamText(evs[..k]) + st.buffer))
  }

  /** The bytes pushed reach the end of an event exactly when the event has been taken. */
  lemma {:induction false} TakenExactly(
    evs: seq<ModelEvent>, k: nat, st: State, done: seq<Utf8.Byte>, tail: string, i: nat)
    requires k <= |evs| && Reached(evs, k, st, done, tail) && i < |evs|
    ensures EndOf(evs, i) <= |done| <==> i < k
  {
    hide Boundary, Printed, Utf8.Decode, Utf8.Encode, Before, StreamText;
    var event, whole := BytesOf(evs, i + 1), BytesOf(evs, |evs|);
    TextPrefix(evs, i + 1, |evs|);
    Utf8.DecodeEncode(StreamText(evs[..i + 1]));
    if i < k && |done| < |event| {
      var more := event[|done|..];
      assert event == done + more;
      Utf8.DecodeSplit(Utf8.Ready, done, more);
      TextPrefix(evs, i + 1, k);
      Utf8.SilentBytesAreEmpty(st.decoder, more);
    }
    if i >= k && |event| <= |done| {
      var more := done[|event|..];
      assert done[..|event|] == whole[..|event|] == event;
      assert done == event + more;
      Utf8.DecodeSplit(Utf8.Ready, event, more);
      BufferIsShort(evs, k, st, tail);
      TextPrefix(evs, k, k + 1);
      TextPrefix(evs, k + 1, i + 1);
      OnePrinted(evs, k);
    }
  }

  lemma {:induction false} OnePrinted(evs: seq<ModelEvent>, k: nat)
    requires k < |evs|
    ensures StreamText(evs[k..k + 1]) == Printed(evs[k])
  {
    hide Printed;
    assert evs[k..k + 1] == [evs[k]] && [evs[k]][1..] == [] && [evs[k]][0] == evs[k];
    NoText();
    assert StreamText([evs[k]]) == Printed(evs[k]) + StreamText([]);
    assert Printed(evs[k]) + "" == Printed(evs[k]);
  }

  lemma {:induction false} BufferIsShort(evs: seq<ModelEvent>, k: nat, st: State, tail: string)
    requires k < |evs| && Before(evs, k, st, tail) && Boundary(st.buffer) < 0
    ensures |st.buffer| < |Printed(evs[k])|
  {
    hide Boundary, Frame;
    NextPrinted(evs, k);
    BufferAtFrame(evs[k], StreamText(evs[k + 1..]), st.buffer, tail);
  }

  lemma {:induction false} OnTimeStep(evs: seq<ModelEvent>, done: nat, chunks: seq<seq<Utf8.Byte>>)
    requires chunks != []
    ensures OnTime(evs, done, chunks) <==>
            (forall i :: 0 <= i < |evs| && evs[i].kind.Terminal() ==> done < EndOf(evs, i)) &&
            OnTime(evs, done + |chunks[0]|, chunks[1..])
  {
    hide BytesOf;
    assert Concat(chunks[..0]) == [];
    forall n | 0 <= n < |chunks[1..]| ensures |Concat(chunks[..n + 1])| == |chunks[0]| + |Concat(chunks[1..][..n])| {
      assert chunks[..n + 1][0] == chunks[0] && chunks[..n + 1][1..] == chunks[1..][..n];
    }
    if OnTime(evs, done, chunks) {
      forall i | 0 <= i < |evs| && evs[i].kind.Terminal() ensures done < EndOf(evs, i) {
        assert done + |Concat(chunks[..0])| < EndOf(evs, i);
      }
      forall n, i | 0 <= n < |chunks[1..]| && 0 <= i < |evs| && evs[i].kind.Terminal()
        ensures done + |chunks[0]| + |Concat(chunks[1..][..n])| < EndOf(evs, i)
      {
        assert done + |Concat(chunks[..n + 1])| < EndOf(evs, i);
      }
    }
    if (forall i :: 0 <= i < |evs| && evs[i].kind.Terminal() ==> done < EndOf(evs, i)) &&
       OnTime(evs, done + |chunks[0]|, chunks[1..]) {
      forall n, i | 0 <= n < |chunks| && 0 <= i < |evs| && evs[i].kind.Terminal()
        ensures done + |Concat(chunks[..n])| < EndOf(evs, i)
      {
        if n > 0 { assert |Concat(chunks[..n - 1 + 1])| == |chunks[0]| + |Concat(chunks[1..][..n - 1])|; }
      }
    }
  }

  lemma {:induction false} PassedStep(done: nat, chunks: seq<seq<Utf8.Byte>>, n: nat)
    requires n < |chunks|
    ensures Passed(done, chunks, n + 1) == Passed(done + |chunks[0]|, chunks[1..], n)
  {
    assert chunks[..n + 1][0] == chunks[0] && chunks[..n + 1][1..] == chunks[1..][..n];
  }

  lemma {:induction false} RoomyStep(evs: seq<ModelEvent>, done: nat, chunks: seq<seq<Utf8.Byte>>, p: Setting)
    requires chunks != []
    ensures Roomy(evs, done, chunks, p) <==>
            !SomeTrips(evs, done, done + |chunks[0]|, p) && Roomy(evs, done + |chunks[0]|, chunks[1..], p)
  {
    hide SomeTrips, Concat, Passed;
    var rest, more := chunks[1..], done + |chunks[0]|;
    PassedStep(done, chunks, 0);
    NothingPassed(done, chunks);
    NothingPassed(more, rest);
    if Roomy(evs, done, chunks, p) {
      assert !SomeTrips(evs, Passed(done, chunks, 0), Passed(done, chunks, 0 + 1), p);
      forall n | 0 <= n < |rest| ensures !SomeTrips(evs, Passed(more, rest, n), Passed(more, rest, n + 1), p) {
        PassedStep(done, chunks, n);
        PassedStep(done, chunks, n + 1);
        assert !SomeTrips(evs, Passed(done, chunks, n + 1), Passed(done, chunks, n + 1 + 1), p);
      }
    }
    if !SomeTrips(evs, done, more, p) && Roomy(evs, more, rest, p) {
      forall n | 0 <= n < |chunks|
        ensures !SomeTrips(evs, Passed(done, chunks, n), Passed(done, chunks, n + 1), p)
      {
        if n > 0 { LaterChunk(evs, done, chunks, n - 1, p); }
      }
    }
  }

  lemma {:induction false} LaterChunk(evs: seq<ModelEvent>, done: nat, chunks: seq<seq<Utf8.Byte>>, n: nat, p: Setting)
    requires n + 1 < |chunks| && Roomy(evs, done + |chunks[0]|, chunks[1..], p)
    ensures !SomeTrips(evs, Passed(done, chunks, n + 1), Passed(done, chunks, n + 1 + 1), p)
  {
    hide SomeTrips, Passed;
    PassedStep(done, chunks, n);
    PassedStep(done, chunks, n + 1);
    var rest, more := chunks[1..], done + |chunks[0]|;
    assert !SomeTrips(evs, Passed(more, rest, n), Passed(more, rest, n + 1), p);
  }

  lemma {:induction false} NothingPassed(done: nat, chunks: seq<seq<Utf8.Byte>>)
    ensures Passed(done, chunks, 0) == done
  {
    assert chunks[..0] == [] && Concat<Utf8.Byte>([]) == [];
  }

  /** The text up to the first line feed of an event's blank line is one byte short of its end. */
  lemma {:induction false} OneByteShort(evs: seq<ModelEvent>, k: nat)
    requires k < |evs|
    ensures var text := StreamText(evs[..k]) + (Frame(evs[k]) + "\n");
            && StreamText(evs[..k + 1]) == text + "\n" && Utf8.Encode(text) <= BytesOf(evs, k + 1)
            && |Utf8.Encode(text)| + 1 == EndOf(evs, k)
  {
    hide Frame, StreamText;
    var text := StreamText(evs[..k]) + (Frame(evs[k]) + "\n");
    TextPrefix(evs, k, k + 1);
    OnePrinted(evs, k);
    assert StreamText(evs[..k]) + Printed(evs[k]) == text + "\n";
    Utf8.EncodeAppend(text, "\n");
    assert |Utf8.Encode("\n")| == 1;
  }

  /** The bytes of a text that are pushed as far as it is decoded, with less than one more byte, are its bytes. */
  lemma {:induction false} AtTheText(text: string, bytes: seq<Utf8.Byte>, whole: seq<Utf8.Byte>, decoder: Utf8.Decoder)
    requires bytes <= whole && Utf8.Encode(text) <= whole && |bytes| <= |Utf8.Encode(text)|
    requires Utf8.Decode(Utf8.Ready, bytes) == Some(Utf8.Step(decoder, text))
    ensures bytes == Utf8.Encode(text)
  {
    hide Utf8.Decode, Utf8.Encode;
    var all := Utf8.Encode(text);
    var more := all[|bytes|..];
    assert all == bytes + more by { assert all[..|bytes|] == whole[..|bytes|] == bytes; }
    Utf8.DecodeEncode(text);
    Utf8.DecodeSplit(Utf8.Ready, bytes, more);
    NothingMore(text, Utf8.Decode(decoder, more).value.output);
    Utf8.SilentBytesAreEmpty(decoder, more);
  }

  lemma {:induction false} NothingMore(text: string, more: string)
    requires text == text + more
    ensures more == ""
  {
    assert |text| == |text| + |more|;
  }

  /** A push that leaves too much ends there, in the frame it stands in. */
  lemma {:induction false} TooMuchTrips(
    evs: seq<ModelEvent>, k: nat, st: State, done: seq<Utf8.Byte>, chunk: seq<Utf8.Byte>, later: seq<Utf8.Byte>,
    tail: string, p: Setting)
    requires FramesPass(evs, p) && k <= |evs| && Reached(evs, k, st, done, tail)
    requires Utf8.Decode(st.decoder, chunk + later) == Some(Utf8.Step(Utf8.Ready, tail))
    requires done + (chunk + later) == BytesOf(evs, |evs|) && TooMuch(st, chunk, p)
    ensures SomeTrips(evs, |done|, |done| + |chunk|, p)
  {
    hide Boundary, Frame, FramesPass, Utf8.Decode, Utf8.Encode, StreamText, Before, FrameBytes, Printed;
    var step, rest := FedText(evs, k, st, chunk, later, tail);
    BeforeIsText(evs, k, Feed(st, step), rest);
    TooMuchIsWhole(evs, k, Feed(st, step).buffer, rest, p);
    var text := StreamText(evs[..k]) + (Frame(evs[k]) + "\n");
    OneByteShort(evs, k);
    DecodedSoFar(evs, k, st, done, chunk, tail);
    Associative(done, chunk, later);
    TextPrefix(evs, k + 1, |evs|);
    if |done + chunk| >= EndOf(evs, k) {
      PastTheEnd(evs, k, done + chunk, step.decoder, text);
    } else {
      AtTheText(text, done + chunk, BytesOf(evs, |evs|), step.decoder);
    }
    BeginsBefore(evs, k, st, done, tail);
    assert Trips(evs, k, |done|, |done| + |chunk|, p);
  }

  lemma {:induction false} BeforeIsText(evs: seq<ModelEvent>, k: nat, st: State, tail: string)
    requires k <= |evs| && Before(evs, k, st, tail)
    ensures st.buffer + tail == StreamText(evs[k..])
  {
    hide StreamText;
  }

  /** All that is decoded once the chunk is pushed. */
  lemma {:induction false} DecodedSoFar(
    evs: seq<ModelEvent>, k: nat, st: State, done: seq<Utf8.Byte>, chunk: seq<Utf8.Byte>, tail: string)
    requires k <= |evs| && Reached(evs, k, st, done, tail) && Utf8.Decode(st.decoder, chunk).Some?
    ensures var step := Utf8.Decode(st.decoder, chunk).value;
            Utf8.Decode(Utf8.Ready, done + chunk) ==
            Some(Utf8.Step(step.decoder, StreamText(evs[..k]) + (st.buffer + step.output)))
  {
    hide Boundary, Utf8.Decode, Utf8.Encode, StreamText, Before;
    Utf8.DecodeSplit(Utf8.Ready, done, chunk);
    Associative(StreamText(evs[..k]), st.buffer, Utf8.Decode(st.decoder, chunk).value.output);
  }

  /** Bytes up to the end of an event decode to more than its text without the last line feed. */
  lemma {:induction false} PastTheEnd(
    evs: seq<ModelEvent>, k: nat, bytes: seq<Utf8.Byte>, decoder: Utf8.Decoder, text: string)
    requires k < |evs| && bytes <= BytesOf(evs, |evs|) && |bytes| >= EndOf(evs, k)
    requires StreamText(evs[..k + 1]) == text + "\n"
    ensures Utf8.Decode(Utf8.Ready, bytes) != Some(Utf8.Step(decoder, text))
  {
    hide Boundary, Utf8.Decode, Utf8.Encode, StreamText;
    var event := BytesOf(evs, k + 1);
    TextPrefix(evs, k + 1, |evs|);
    var more := bytes[|event|..];
    assert bytes[..|event|] == BytesOf(evs, |evs|)[..|event|] == event;
    assert bytes == event + more;
    Utf8.DecodeEncode(StreamText(evs[..k + 1]));
    Utf8.DecodeSplit(Utf8.Ready, event, more);
  }

  lemma {:induction false} BeginsBefore(evs: seq<ModelEvent>, k: nat, st: State, done: seq<Utf8.Byte>, tail: string)
    requires k <= |evs| && Reached(evs, k, st, done, tail)
    ensures |BytesOf(evs, k)| <= |done|
  {
    hide Reached, StreamText;
    if k == 0 {
      assert evs[..0] == [];
      NoText();
    } else {
      TakenExactly(evs, k, st, done, tail, k - 1);
    }
  }

  /** A push that ends there leaves too much. */
  lemma {:induction false} TripsTooMuch(
    evs: seq<ModelEvent>, k: nat, st: State, done: seq<Utf8.Byte>, chunk: seq<Utf8.Byte>, later: seq<Utf8.Byte>,
    tail: string, i: nat, p: Setting)
    requires k <= |evs| && Reached(evs, k, st, done, tail)
    requires Utf8.Decode(st.decoder, chunk + later) == Some(Utf8.Step(Utf8.Ready, tail))
    requires done + (chunk + later) == BytesOf(evs, |evs|)
    requires i < |evs| && Trips(evs, i, |done|, |done| + |chunk|, p)
    ensures TooMuch(st, chunk, p)
  {
    hide Boundary, Frame, Utf8.Decode, Utf8.Encode, StreamText, Before;
    InThatFrame(evs, k, st, done, tail, i);
    var step, rest := FedText(evs, k, st, chunk, later, tail);
    var frame := Frame(evs[k]) + "\n";
    var text := StreamText(evs[..k]) + frame;
    OneByteShort(evs, k);
    DecodedSoFar(evs, k, st, done, chunk, tail);
    Associative(done, chunk, later);
    TextPrefix(evs, k + 1, |evs|);
    var whole, bytes := BytesOf(evs, |evs|), done + chunk;
    assert bytes == Utf8.Encode(text) by { assert bytes == whole[..|bytes|] && Utf8.Encode(text) == whole[..|bytes|]; }
    Utf8.DecodeEncode(text);
    SameAfter(StreamText(evs[..k]), Feed(st, step).buffer, frame);
    assert frame + "\n" == Printed(evs[k]) + "";
    BufferAtFrame(evs[k], "", frame, "\n");
    LineFeedCounts(evs[k]);
  }

  lemma {:induction false} LineFeedCounts(e: ModelEvent)
    ensures |Utf8.Encode(Frame(e) + "\n")| == FrameBytes(e) + 1
  {
    hide Frame;
    Utf8.EncodeAppend(Frame(e), "\n");
    assert |Utf8.Encode("\n")| == 1;
  }

  lemma {:induction false} SameAfter<T>(head: seq<T>, x: seq<T>, y: seq<T>)
    requires head + x == head + y
    ensures x == y
  {
    assert |x| == |y|;
    assert x == (head + x)[|head|..] && y == (head + y)[|head|..];
  }

  lemma {:induction false} InThatFrame(
    evs: seq<ModelEvent>, k: nat, st: State, done: seq<Utf8.Byte>, tail: string, i: nat)
    requires k <= |evs| && Reached(evs, k, st, done, tail) && i < |evs|
    requires |BytesOf(evs, i)| <= |done| < EndOf(evs, i)
    ensures i == k
  {
    hide Reached, StreamText, Utf8.Encode;
    TakenExactly(evs, k, st, done, tail, i);
    if i > k {
      TextPrefix(evs, k + 1, i);
      TakenExactly(evs, k, st, done, tail, k);
    }
  }

  /**
   * From any point of a sequenced stream: the rest is accepted exactly when no chunk comes too late
   * and none trips the size check.
   */
  lemma {:induction false} ParseStream(
    evs: seq<ModelEvent>, k: nat, st: State, done: seq<Utf8.Byte>, chunks: seq<seq<Utf8.Byte>>, tail: string,
    p: Setting)
    requires ReadsBack(p.read)
    requires Sequenced(evs) && FramesPass(evs, p) && k <= |evs| && Reached(evs, k, st, done, tail)
    requires done + Concat(chunks) == BytesOf(evs, |evs|)
    requires Utf8.Decode(st.decoder, Concat(chunks)) == Some(Utf8.Step(Utf8.Ready, tail))
    ensures ParseChunks(st, chunks, p).0.Ok? <==>
            OnTime(evs, |done|, chunks) && Roomy(evs, |done|, chunks, p)
    ensures var (result, last) := ParseChunks(st, chunks, p);
            result.Ok? ==>
              result.value == Objects(evs[k..]) && last.decoder == Utf8.Ready && last.buffer == "" &&
                Before(evs, |evs|, last, "")
    decreases |chunks|
  {
    hide ReadsBack, Boundary, ParseChunk, Frame, Sequenced, FramesPass, Before, Utf8.Decode, Utf8.Encode, Objects,
         StreamText, OnTime, BytesOf, Reached, Roomy, SomeTrips, TooMuch;
    if chunks == [] {
      OverReached(evs, k, st, done, tail, p);
    } else {
      OnTimeStep(evs, |done|, chunks);
      RoomyStep(evs, |done|, chunks, p);
      forall i | 0 <= i < |evs| ensures EndOf(evs, i) <= |done| <==> i < k { TakenExactly(evs, k, st, done, tail, i); }
      EndedExactly(evs, k, st, done, tail);
      var later := Concat(chunks[1..]);
      if st.ended {
        EndedRefuses(st, chunks[0], p);
      } else if TooMuch(st, chunks[0], p) {
        TooMuchTrips(evs, k, st, done, chunks[0], later, tail, p);
        TooMuchFails(st, chunks[0], p);
      } else {
        NothingTrips(evs, k, st, done, chunks[0], later, tail, p);
        var m, after, rest := PushReached(evs, k, st, done, chunks[0], later, tail, p);
        Associative(done, chunks[0], later);
        ParseStream(evs, m, after, done + chunks[0], chunks[1..], rest, p);
        assert evs[k..] == evs[k..m] + evs[m..];
        ObjectsAppend(evs[k..m], evs[m..]);
      }
    }
  }

  lemma {:induction false} NothingTrips(
    evs: seq<ModelEvent>, k: nat, st: State, done: seq<Utf8.Byte>, chunk: seq<Utf8.Byte>, later: seq<Utf8.Byte>,
    tail: string, p: Setting)
    requires k <= |evs| && Reached(evs, k, st, done, tail) && !TooMuch(st, chunk, p)
    requires Utf8.Decode(st.decoder, chunk + later) == Some(Utf8.Step(Utf8.Ready, tail))
    requires done + (chunk + later) == BytesOf(evs, |evs|)
    ensures !SomeTrips(evs, |done|, |done| + |chunk|, p)
  {
    hide Reached, Trips, TooMuch, BytesOf, Utf8.Decode;
    if SomeTrips(evs, |done|, |done| + |chunk|, p) {
      var i :| 0 <= i < |evs| && Trips(evs, i, |done|, |done| + |chunk|, p);
      TripsTooMuch(evs, k, st, done, chunk, later, tail, i, p);
    }
  }

  lemma {:induction false} EndedRefuses(st: State, chunk: seq<Utf8.Byte>, p: Setting)
    requires st.ended
    ensures ParseChunk(st, chunk, p).0.Err?
  {
  }

  lemma {:induction false} EndedExactly(evs: seq<ModelEvent>, k: nat, st: State, done: seq<Utf8.Byte>, tail: string)
    requires k <= |evs| && Reached(evs, k, st, done, tail)
    ensures st.ended <==> exists i :: 0 <= i < k && evs[i].kind.Terminal()
  {
  }

  lemma {:induction false} OverReached(
    evs: seq<ModelEvent>, k: nat, st: State, done: seq<Utf8.Byte>, tail: string, p: Setting)
    requires k <= |evs| && Reached(evs, k, st, done, tail)
    requires Utf8.Decode(st.decoder, []) == Some(Utf8.Step(Utf8.Ready, tail))
    ensures k == |evs| && st.decoder == Utf8.Ready && st.buffer == "" && Before(evs, |evs|, st, "")
    ensures Objects(evs[k..]) == [] && OnTime(evs, |done|, []) && Roomy(evs, |done|, [], p)
  {
    hide Boundary, Before, Utf8.Decode;
    StreamIsOver(evs, k, st, tail, p);
  }

  lemma {:induction false} PushReached(
    evs: seq<ModelEvent>, k: nat, st: State, done: seq<Utf8.Byte>, chunk: seq<Utf8.Byte>, later: seq<Utf8.Byte>,
    tail: string, p: Setting)
    returns (m: nat, after: State, rest: string)
    requires ReadsBack(p.read)
    requires Sequenced(evs) && FramesPass(evs, p) && k <= |evs| && Reached(evs, k, st, done, tail)
    requires !st.ended && !TooMuch(st, chunk, p)
    requires Utf8.Decode(st.decoder, chunk + later) == Some(Utf8.Step(Utf8.Ready, tail))
    requires done + (chunk + later) == BytesOf(evs, |evs|)
    ensures k <= m <= |evs| && Reached(evs, m, after, done + chunk, rest)
    ensures Utf8.Decode(after.decoder, later) == Some(Utf8.Step(Utf8.Ready, rest))
    ensures ParseChunk(st, chunk, p) == (Ok(Objects(evs[k..m])), after)
  {
    hide ReadsBack, Boundary, Frame, Sequenced, FramesPass, TooMuch, Utf8.Decode, Utf8.Encode, ParseChunk, Objects,
         StreamText;
    m, after, rest := PushStream(evs, k, st, chunk, later, tail, p);
    Utf8.DecodeSplit(Utf8.Ready, done, chunk);
    Associative(done, chunk, later);
    TextPrefix(evs, k, m);
    TextPrefix(evs, m, |evs|);
    TextPrefix(evs, k, |evs|);
    var fed := Utf8.Decode(st.decoder, chunk).value.output;
    assert evs[m..|evs|] == evs[m..] && evs[k..|evs|] == evs[k..] && evs[..|evs|] == evs;
    // Both sides followed by `rest` are the whole text, so they are equal.
    var x, y := StreamText(evs[..k]) + st.buffer + fed, StreamText(evs[..m]) + after.buffer;
    assert x + rest == StreamText(evs[..k]) + (st.buffer + (fed + rest));
    assert y + rest == StreamText(evs[..m]) + (after.buffer + rest);
    SameBefore(x, y, rest);
  }

  lemma {:induction false} SameBefore<T>(x: seq<T>, y: seq<T>, rest: seq<T>)
    requires x + rest == y + rest
    ensures x == y
  {
    assert |x| == |y|;
    assert x == (x + rest)[..|x|] && y == (y + rest)[..|y|];
  }

  /** All bytes before the end are before the end of a stream's terminal. */
  lemma {:induction false} StreamIsOnTime(evs: seq<ModelEvent>, chunks: seq<seq<Utf8.Byte>>)
    requires Stream(evs) && NonEmpty(chunks) && Concat(chunks) == BytesOf(evs, |evs|)
    ensures OnTime(evs, 0, chunks)
  {
    hide BytesOf, Sequenced, Concat;
    forall n, i | 0 <= n < |chunks| && 0 <= i < |evs| && evs[i].kind.Terminal()
      ensures 0 + |Concat(chunks[..n])| < EndOf(evs, i)
    {
      assert i + 1 == |evs|;
      assert chunks == chunks[..n] + chunks[n..];
      ConcatAppend(chunks[..n], chunks[n..]);
      FirstIsPart(chunks[n..]);
    }
  }

  lemma {:induction false} FirstIsPart<T>(parts: seq<seq<T>>)
    requires parts != []
    ensures |Concat(parts)| >= |parts[0]|
  {
  }

  lemma {:induction false} ReachedAtStart(evs: seq<ModelEvent>)
    ensures Reached(evs, 0, INITIAL, [], StreamText(evs))
  {
    hide StreamText, Utf8.Encode;
    assert evs[0..] == evs && evs[..0] == [];
    NoText();
    assert "" + StreamText(evs) == StreamText(evs) && StreamText(evs[..0]) + "" == "";
  }

  lemma {:induction false} NoText()
    ensures StreamText([]) == ""
  {
  }

  /**
   * A sequenced stream whose frames pass, cut anywhere: accepted exactly when no chunk comes after a
   * terminal event's end and none trips the size check.
   */
  lemma {:induction false} SequencedExactly(evs: seq<ModelEvent>, chunks: seq<seq<Utf8.Byte>>, p: Setting)
    requires ReadsBack(p.read)
    requires Sequenced(evs) && FramesPass(evs, p) && CutOf(chunks, evs)
    ensures ParseChunks(INITIAL, chunks, p).0.Ok? <==>
            OnTime(evs, 0, chunks) && Roomy(evs, 0, chunks, p)
    ensures var (result, last) := ParseChunks(INITIAL, chunks, p);
            result.Ok? ==>
              result.value == Objects(evs) && last.decoder == Utf8.Ready && last.buffer == "" &&
                Before(evs, |evs|, last, "")
  {
    hide ReadsBack, Boundary, ParseChunks, Frame, Sequenced, FramesPass, StreamText, Utf8.Encode, Utf8.Decode,
         Before, Reached, CutOf, OnTime, Roomy, Objects, Concat;
    SequencedAreAcceptable(evs);
    CutOfStream(chunks, evs);
    ReachedAtStart(evs);
    Utf8.DecodeEncode(StreamText(evs));
    assert evs[0..] == evs && evs[..|evs|] == evs && [] + Concat(chunks) == Concat(chunks);
    ParseStream(evs, 0, INITIAL, [], chunks, StreamText(evs), p);
  }

  /**
   * Round trip: whatever the cutting of the printed bytes, the parser returns the printed events,
   * all of them and in order, and keeps nothing back.
   */
  lemma {:induction false} RoundTrip(evs: seq<ModelEvent>, chunks: seq<seq<Utf8.Byte>>, p: Setting)
    requires ReadsBack(p.read)
    requires Stream(evs) && FramesFit(evs, p) && CutOf(chunks, evs)
    ensures ParseChunks(INITIAL, chunks, p).0 == Ok(Objects(evs))
    ensures var last := ParseChunks(INITIAL, chunks, p).1;
            last.decoder == Utf8.Ready && last.buffer == "" && Before(evs, |evs|, last, "")
  {
    hide ReadsBack, ParseChunks, Sequenced, FramesFit, StreamText, Utf8.Encode, Before, OnTime, Roomy, Objects, Concat;
    SequencedAreAcceptable(evs);
    CutOfStream(chunks, evs);
    assert evs[..|evs|] == evs;
    FittingIsRoomy(evs, 0, chunks, p);
    StreamIsOnTime(evs, chunks);
    SequencedExactly(evs, chunks, p);
  }

  // ----- the size limit, exactly -----

  ghost predicate SurvivesEveryCut(evs: seq<ModelEvent>, p: Setting) {
    forall chunks: seq<seq<Utf8.Byte>> :: CutOf(chunks, evs) ==>
      ParseChunks(INITIAL, chunks, p).0 == Ok(Objects(evs))
  }

  /** Cutting right after the first line feed of the blank line makes an oversized frame fail. */
  lemma {:induction false} OversizedFrameFails(e: ModelEvent, st: State, later: seq<seq<Utf8.Byte>>, p: Setting)
    requires FrameBytes(e) >= p.maximum
    requires st.decoder == Utf8.Ready && st.buffer == "" && !st.ended
    ensures ParseChunks(st, [Utf8.Encode(Frame(e) + "\n")] + later, p).0 == Err(EventTooLarge)
  {
    hide Frame, Boundary, Drain, Utf8.Decode;
    var text := Frame(e) + "\n";
    Utf8.DecodeEncode(text);
    Utf8.EncodeAppend(Frame(e), "\n");
    assert |Utf8.Encode("\n")| == 1;
    assert st.buffer + text == text;
    assert text + "\n" == Printed(e) + "";
    FrameStarts(e);
    assert WithoutMark(st.unread, text) == text;
    BufferAtFrame(e, "", text, "\n");
  }

  lemma {:induction false} FirstOversized(evs: seq<ModelEvent>, p: Setting) returns (i: nat)
    requires !FramesFit(evs, p)
    ensures i < |evs| && FrameBytes(evs[i]) >= p.maximum && FramesFit(evs[..i], p)
  {
    hide FrameBytes;
    i := 0;
    while FrameBytes(evs[i]) < p.maximum
      invariant i < |evs| && forall j :: 0 <= j < i ==> FrameBytes(evs[j]) < p.maximum
      decreases |evs| - i
    {
      i := i + 1;
    }
  }

  /** Parsing in two goes, the second from where the first one stopped. */
  lemma {:induction false} ParseChunksAppend(st: State, a: seq<seq<Utf8.Byte>>, b: seq<seq<Utf8.Byte>>, p: Setting)
    ensures ParseChunks(st, a + b, p) ==
            var first := ParseChunks(st, a, p);
            if first.0.Err? then first else Prepend(first.0.value, ParseChunks(first.1, b, p))
    decreases |a|
  {
    hide ParseChunk;
    if a == [] {
      assert a + b == b;
      PrependNothing(ParseChunks(st, b, p));
    } else {
      TailOfAppend(a, b);
      var out := ParseChunk(st, a[0], p);
      if out.0.Ok? {
        ParseChunksAppend(out.1, a[1..], b, p);
        var mid := ParseChunks(out.1, a[1..], p);
        if mid.0.Ok? {
          PrependTwice(out.0.value, mid.0.value, ParseChunks(mid.1, b, p));
        }
      }
    }
  }

  lemma {:induction false} CutText(evs: seq<ModelEvent>, i: nat)
    requires i < |evs|
    ensures StreamText(evs) ==
            StreamText(evs[..i]) + ((Frame(evs[i]) + "\n") + ("\n" + StreamText(evs[i + 1..])))
  {
    hide Frame;
    assert evs == evs[..i] + evs[i..];
    FlatMapAppend(Printed, evs[..i], evs[i..]);
    NextPrinted(evs, i);
    var f, rest := Frame(evs[i]), StreamText(evs[i + 1..]);
    assert (f + "\n\n") + rest == (f + "\n") + ("\n" + rest);
  }

  lemma {:induction false} ConcatOne<T>(part: seq<T>)
    ensures Concat([part]) == part
  {
    assert [part][1..] == [];
    assert part + [] == part;
  }

  /** The witness: the frames before, the oversized frame with one line feed, and the rest. */
  lemma {:induction false} CuttingFails(evs: seq<ModelEvent>, i: nat, p: Setting) returns (chunks: seq<seq<Utf8.Byte>>)
    requires ReadsBack(p.read)
    requires Stream(evs) && i < |evs| && FrameBytes(evs[i]) >= p.maximum && FramesFit(evs[..i], p)
    ensures CutOf(chunks, evs) && ParseChunks(INITIAL, chunks, p).0 == Err(EventTooLarge)
  {
    hide ReadsBack, Frame, Boundary, ParseChunk, Utf8.Encode, ParseChunks, StreamText, Concat;
    var before := evs[..i];
    var cut, rest := Frame(evs[i]) + "\n", "\n" + StreamText(evs[i + 1..]);
    var first: seq<seq<Utf8.Byte>> := if i == 0 then [] else [Utf8.Encode(StreamText(before))];
    var middle, last := [Utf8.Encode(cut)], [Utf8.Encode(rest)];
    chunks := first + (middle + last);
    BeforeTheCut(evs, i, first, p);
    OversizedFrameFails(evs[i], ParseChunks(INITIAL, first, p).1, last, p);
    ParseChunksAppend(INITIAL, first, middle + last, p);
    CutText(evs, i);
    Utf8.EncodeAppend(StreamText(before), cut + rest);
    Utf8.EncodeAppend(cut, rest);
    ConcatAppend(first, middle + last);
    ConcatAppend(middle, last);
    ConcatOne(Utf8.Encode(cut));
    ConcatOne(Utf8.Encode(rest));
    NotBlank(cut);
    NotBlank(rest);
    SequencedAreAcceptable(evs);
    CutOfStream(chunks, evs);
  }

  lemma {:induction false} NotBlank(s: string)
    requires s != ""
    ensures Utf8.Encode(s) != []
  {
  }

  lemma {:induction false} BeforeTheCut(evs: seq<ModelEvent>, i: nat, first: seq<seq<Utf8.Byte>>, p: Setting)
    requires ReadsBack(p.read)
    requires Stream(evs) && i < |evs| && FramesFit(evs[..i], p)
    requires first == if i == 0 then [] else [Utf8.Encode(StreamText(evs[..i]))]
    ensures NonEmpty(first) && Concat(first) == Utf8.Encode(StreamText(evs[..i]))
    ensures var out := ParseChunks(INITIAL, first, p);
            out.0.Ok? && out.1.decoder == Utf8.Ready && out.1.buffer == "" && !out.1.ended
  {
    hide ReadsBack, Frame, Boundary, ParseChunk;
    var before := evs[..i];
    if i > 0 {
      NextPrinted(before, 0);
      assert before[0..] == before;
      NotBlank(StreamText(before));
      ConcatOne(first[0]);
      assert Stream(before);
      SequencedAreAcceptable(before);
      CutOfStream(first, before);
      RoundTrip(before, first, p);
      assert before[i - 1] == evs[i - 1];
    }
  }

  /** The round trip survives every cutting exactly when every frame is strictly under the limit. */
  lemma {:induction false} RoundTripExactly(evs: seq<ModelEvent>, p: Setting)
    requires ReadsBack(p.read)
    requires Stream(evs)
    ensures SurvivesEveryCut(evs, p) <==> FramesFit(evs, p)
  {
    hide ReadsBack, Stream, ParseChunks, CutOf;
    if FramesFit(evs, p) {
      forall chunks: seq<seq<Utf8.Byte>> | CutOf(chunks, evs)
        ensures ParseChunks(INITIAL, chunks, p).0 == Ok(Objects(evs))
      {
        RoundTrip(evs, chunks, p);
      }
    } else {
      var i := FirstOversized(evs, p);
      var chunks := CuttingFails(evs, i, p);
    }
  }

  /** Two requests in one stream: the parser accepts them when the first id is empty. */
  lemma {:induction false} EmptyIdLetsRequestsMix(
    requestId: string, at: string, chunks: seq<seq<Utf8.Byte>>, p: Setting)
    requires ReadsBack(p.read)
    requires requestId != ""
    requires FramesFit(MixedStream(requestId, at), p)
    requires CutOf(chunks, MixedStream(requestId, at))
    ensures ParseChunks(INITIAL, chunks, p).0 == Ok(Objects(MixedStream(requestId, at)))
    ensures MixedStream(requestId, at)[0].requestId != MixedStream(requestId, at)[1].requestId
  {
    hide ReadsBack, Stream, FramesFit, ParseChunks, StreamText, Objects, CutOf;
    MixedIsStream(requestId, at);
    RoundTrip(MixedStream(requestId, at), chunks, p);
  }

  lemma {:induction false} MixedIsStream(requestId: string, at: string)
    ensures Stream(MixedStream(requestId, at))
  {
  }

  function MixedStream(requestId: string, at: string): seq<ModelEvent> {
    [ModelEvent("", 0, Started, at, None, None, None, None),
      ModelEvent(requestId, 1, Cancelled, at, None, None, None, None)]
  }
}
