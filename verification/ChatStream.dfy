/**
 * The event stream between the gateway and the desktop: the events, their printed frames
 * (server-sent events, sections 9.2.5 and 9.2.6 of the WHATWG HTML Living Standard) and the
 * incremental parser.
 */
module ChatStream {
  import opened Results
  import opened Text
  import Json
  import Utf8

  // ----- events -----

  datatype Kind = Started | Delta | Completed | Cancelled | Failed {
    predicate Terminal() { Completed? || Cancelled? || Failed? }

    function Name(): string {
      match this
      case Started => "started"
      case Delta => "delta"
      case Completed => "completed"
      case Cancelled => "cancelled"
      case Failed => "failed"
    }
  }

  datatype ModelEvent = ModelEvent(
    requestId: string, sequence: nat, kind: Kind, occurredAt: string,
    text: Option<string>, code: Option<string>, semanticState: Option<string>, citationRefs: Option<seq<string>>)

  datatype StreamError =
    AfterTerminal | Utf8Invalid | EventTooLarge | JsonInvalid | SchemaInvalid | SequenceInvalid | RequestMismatch

  const SEMANTIC_STATES: seq<string> :=
    ["fundamentada", "parcial", "conflitante", "inferida", "sem-evidencia", "obsoleta", "bloqueada", "inconclusiva"]

  const ALLOWED_KEYS: seq<string> :=
    ["schema_version", "request_id", "sequence", "type", "occurred_at", "text", "code", "semantic_state",
     "citation_refs", "receipt_id", "actual_minor", "retry_after_seconds"]

  // ----- printing -----

  function StringField(key: string, value: Option<string>): Json.Object {
    if value.Some? then [Json.Field(key, Json.Str(value.value))] else []
  }

  function ListField(key: string, value: Option<seq<string>>): Json.Object {
    if value.Some? then [Json.Field(key, Json.Arr(value.value))] else []
  }

  function BaseFields(e: ModelEvent): Json.Object {
    [Json.Field("schema_version", Json.Str("1.0.0")),
     Json.Field("request_id", Json.Str(e.requestId)),
     Json.Field("sequence", Json.Num(e.sequence)),
     Json.Field("type", Json.Str(e.kind.Name())),
     Json.Field("occurred_at", Json.Str(e.occurredAt))]
  }

  /** The event as the object that JSON.stringify prints; absent members are left out. */
  function Fields(e: ModelEvent): Json.Object {
    BaseFields(e) + (StringField("text", e.text) + (StringField("code", e.code) +
    (StringField("semantic_state", e.semanticState) + ListField("citation_refs", e.citationRefs))))
  }

  function IdLine(e: ModelEvent): string { "id: " + Decimal(e.sequence) }
  function EventLine(e: ModelEvent): string { "event: " + e.kind.Name() }
  function DataLine(e: ModelEvent): string { "data: " + Json.Print(Fields(e)) }

  function Frame(e: ModelEvent): string {
    IdLine(e) + ("\n" + (EventLine(e) + ("\n" + DataLine(e))))
  }

  /** formatSseEvent; None is the error for a completed event without a semantic state. */
  function FormatSseEvent(e: ModelEvent): Option<string> {
    if e.kind.Completed? && (e.semanticState.None? || e.semanticState.value == "") then None
    else Some(Frame(e) + "\n\n")
  }

  // ----- parsing one frame -----

  predicate ValidReference(s: string) { 1 <= Units(s) <= 128 }

  predicate IsText(v: Option<Json.Value>) { v.Some? && v.value.Str? }

  predicate IsSafeInteger(v: Option<Json.Value>) { v.Some? && v.value.Num? && v.value.number <= MAX_SAFE_INTEGER }

  predicate IsTextIn(v: Option<Json.Value>, allowed: seq<string>) { v.Some? && v.value.Str? && v.value.text in allowed }

  predicate ValidReferences(v: Option<Json.Value>) {
    v.None? ||
    (v.value.Arr? && |v.value.items| <= 100 &&
     forall i :: 0 <= i < |v.value.items| ==> ValidReference(v.value.items[i]))
  }

  predicate KnownKeys(o: Json.Object) { forall i :: 0 <= i < |o| ==> o[i].key in ALLOWED_KEYS }

  /** The schema check on a decoded object. */
  predicate Validate(o: Json.Object) {
    && KnownKeys(o)
    && Json.Get(o, "schema_version") == Some(Json.Str("1.0.0"))
    && IsText(Json.Get(o, "request_id"))
    && IsSafeInteger(Json.Get(o, "sequence"))
    && IsTextIn(Json.Get(o, "type"), ["started", "delta", "completed", "cancelled", "failed"])
    && IsText(Json.Get(o, "occurred_at"))
    && (TextOf(o, "type") == "delta" ==> IsText(Json.Get(o, "text")))
    && (TextOf(o, "type") == "completed" ==> IsTextIn(Json.Get(o, "semantic_state"), SEMANTIC_STATES))
    && ValidReferences(Json.Get(o, "citation_refs"))
  }

  function TextOf(o: Json.Object, key: string): string {
    var v := Json.Get(o, key);
    if IsText(v) then v.value.text else ""
  }

  function SequenceOf(o: Json.Object): nat {
    var v := Json.Get(o, "sequence");
    if v.Some? && v.value.Num? then v.value.number else 0
  }

  predicate IsTerminal(o: Json.Object) { TextOf(o, "type") in ["completed", "cancelled", "failed"] }

  function StripCr(s: string): string { FlatMap(KeepUnlessCr, s) }

  function KeepUnlessCr(c: char): string { if c == '\r' then "" else [c] }

  function Lines(s: string): (lines: seq<string>)
    decreases |s|
  {
    var i := IndexOf(s, '\n');
    if i < 0 then [s] else [s[..i]] + Lines(s[i + 1..])
  }

  /** The three members a frame may set; `data` lines accumulate, the others keep the last. */
  datatype FrameFields = FrameFields(id: Option<string>, name: Option<string>, data: seq<string>)

  const NO_FIELDS := FrameFields(None, None, [])

  function DropSpace(s: string): string { if s != "" && s[0] == ' ' then s[1..] else s }

  function ReadLine(f: FrameFields, line: string): FrameFields {
    var split := IndexOf(line, ':');
    var field := if split < 0 then line else line[..split];
    var raw := if split < 0 then "" else DropSpace(line[split + 1..]);
    if field == "id" then f.(id := Some(raw))
    else if field == "event" then f.(name := Some(raw))
    else if field == "data" then f.(data := f.data + [raw])
    else f
  }

  function ReadLines(f: FrameFields, lines: seq<string>): FrameFields
    decreases |lines|
  {
    if lines == [] then f else ReadLines(ReadLine(f, lines[0]), lines[1..])
  }

  /** What becomes of a JSON text; None is a text that is none. */
  type Reader = string -> Option<Json.Object>

  /** The largest event a parser takes, and how it reads JSON. */
  datatype Setting = Setting(maximum: nat, read: Reader)

  /** Checks the members of one frame against the parser's position. */
  function Interpret(read: Reader, f: FrameFields, next: nat, requestId: Option<string>)
    : Result<Json.Object, StreamError>
  {
    match read(Join("\n", f.data))
    case None => Err(JsonInvalid)
    case Some(o) =>
      if !Validate(o) then Err(SchemaInvalid)
      else if f.id != Some(Decimal(SequenceOf(o))) || f.name != Some(TextOf(o, "type")) || SequenceOf(o) != next then
        Err(SequenceInvalid)
      else if requestId.Some? && requestId.value != "" && requestId.value != TextOf(o, "request_id") then
        Err(RequestMismatch)
      else Ok(o)
  }

  // ----- the parser as a function -----

  datatype State = State(
    decoder: Utf8.Decoder, unread: bool, buffer: string, next: nat, requestId: Option<string>, ended: bool)

  /** `unread` until the first character is decoded: a byte order mark there is dropped. */
  const INITIAL := State(Utf8.Ready, true, "", 0, None, false)

  const BYTE_ORDER_MARK: char := '\U{FEFF}'

  function WithoutMark(unread: bool, text: string): string {
    if unread && text != "" && text[0] == BYTE_ORDER_MARK then text[1..] else text
  }

  /** The parser with newly decoded text behind its buffer. */
  function Feed(st: State, step: Utf8.Step): State {
    st.(decoder := step.decoder, unread := st.unread && step.output == "",
        buffer := st.buffer + WithoutMark(st.unread, step.output))
  }

  /** The first position of a blank line (two line feeds), or -1. */
  function Boundary(s: string): (b: int)
    ensures b < 0 ==> forall i :: 0 <= i < |s| - 1 ==> !(s[i] == '\n' && s[i + 1] == '\n')
    ensures b >= 0 ==> b + 2 <= |s| && s[b] == '\n' && s[b + 1] == '\n'
    ensures forall i :: 0 <= i < b ==> !(s[i] == '\n' && s[i + 1] == '\n')
  {
    if |s| < 2 then -1
    else if s[0] == '\n' && s[1] == '\n' then 0
    else
      var b := Boundary(s[1..]);
      assert forall i :: 1 <= i < |s| ==> s[i] == s[1..][i - 1];
      if b < 0 then -1 else b + 1
  }

  type Output = (Result<seq<Json.Object>, StreamError>, State)

  function Prepend(events: seq<Json.Object>, out: Output): Output {
    if out.0.Ok? then (Ok(events + out.0.value), out.1) else out
  }

  lemma {:induction false} PrependNothing(out: Output)
    ensures Prepend([], out) == out
  {
    if out.0.Ok? { assert [] + out.0.value == out.0.value; }
  }

  lemma {:induction false} PrependLast(events: seq<Json.Object>, out: Output)
    ensures out.0.Err? ==> Prepend(events, out) == out
    ensures out.0 == Ok([]) ==> Prepend(events, out) == (Ok(events), out.1)
  {
    assert events + [] == events;
  }

  lemma {:induction false} PrependTwice(a: seq<Json.Object>, b: seq<Json.Object>, out: Output)
    ensures Prepend(a, Prepend(b, out)) == Prepend(a + b, out)
  {
    if out.0.Ok? { Associative(a, b, out.0.value); }
  }

  function Accept(st: State, o: Json.Object): State {
    st.(requestId := Some(TextOf(o, "request_id")), next := st.next + 1, ended := st.ended || IsTerminal(o))
  }

  predicate Ignored(frame: string) { frame == "" || frame[0] == ':' }

  function Drain(st: State, p: Setting): Output
    decreases |st.buffer|
  {
    var b := Boundary(st.buffer);
    if b < 0 then (Ok([]), st)
    else
      var frame := StripCr(st.buffer[..b]);
      var advanced := st.(buffer := st.buffer[b + 2..]);
      if |Utf8.Encode(frame)| > p.maximum then (Err(EventTooLarge), advanced)
      else if Ignored(frame) then Drain(advanced, p)
      else
        match Interpret(p.read, ReadLines(NO_FIELDS, Lines(frame)), st.next, st.requestId)
        case Err(error) => (Err(error), advanced)
        case Ok(o) => Prepend([o], Drain(Accept(advanced, o), p))
  }

  /** One frame taken off the buffer. */
  lemma {:induction false} DrainStep(st: State, p: Setting)
    ensures Boundary(st.buffer) < 0 ==> Drain(st, p) == (Ok([]), st)
    ensures Boundary(st.buffer) >= 0 ==>
              var frame := StripCr(st.buffer[..Boundary(st.buffer)]);
              var advanced := st.(buffer := st.buffer[Boundary(st.buffer) + 2..]);
              var read := Interpret(p.read, ReadLines(NO_FIELDS, Lines(frame)), st.next, st.requestId);
              && (|Utf8.Encode(frame)| > p.maximum ==> Drain(st, p) == (Err(EventTooLarge), advanced))
              && (|Utf8.Encode(frame)| <= p.maximum && Ignored(frame) ==> Drain(st, p) == Drain(advanced, p))
              && (|Utf8.Encode(frame)| <= p.maximum && !Ignored(frame) && read.Err? ==>
                    Drain(st, p) == (Err(read.error), advanced))
              && (|Utf8.Encode(frame)| <= p.maximum && !Ignored(frame) && read.Ok? ==>
                    Drain(st, p) == Prepend([read.value], Drain(Accept(advanced, read.value), p)))
  {
    hide Interpret, StripCr, Lines, ReadLines, Utf8.Encode, Boundary, Accept, Ignored, Prepend;
  }

  function ParseChunk(st: State, chunk: seq<Utf8.Byte>, p: Setting): Output {
    if st.ended then (Err(AfterTerminal), st)
    else
      match Utf8.Decode(st.decoder, chunk)
      case None => (Err(Utf8Invalid), st)
      case Some(step) =>
        var fed := Feed(st, step);
        if |Utf8.Encode(fed.buffer)| > p.maximum && Boundary(fed.buffer) < 0 then (Err(EventTooLarge), fed)
        else Drain(fed, p)
  }

  /** Parses the chunks in order, collecting the events, up to the first error. */
  function ParseChunks(st: State, chunks: seq<seq<Utf8.Byte>>, p: Setting): Output
    decreases |chunks|
  {
    if chunks == [] then (Ok([]), st)
    else
      var out := ParseChunk(st, chunks[0], p);
      if out.0.Err? then out else Prepend(out.0.value, ParseChunks(out.1, chunks[1..], p))
  }

  // ----- the parser as the object the desktop keeps -----

  class SseParser {
    const setting: Setting
    var decoder: Utf8.Decoder
    var unread: bool
    var buffer: string
    var nextSequence: nat
    var requestId: Option<string>
    var ended: bool

    ghost function Position(): State
      reads this
    {
      State(decoder, unread, buffer, nextSequence, requestId, ended)
    }

    constructor (setting: Setting)
      ensures this.setting == setting && Position() == INITIAL
    {
      this.setting := setting;
      decoder, unread, buffer, nextSequence, requestId, ended := Utf8.Ready, true, "", 0, None, false;
    }

    method Push(chunk: seq<Utf8.Byte>) returns (r: Result<seq<Json.Object>, StreamError>)
      modifies this
      ensures (r, Position()) == ParseChunk(old(Position()), chunk, setting)
    {
      if ended { return Err(AfterTerminal); }
      var decoded := Utf8.Decode(decoder, chunk);
      if decoded.None? { return Err(Utf8Invalid); }
      decoder := decoded.value.decoder;
      buffer := buffer + WithoutMark(unread, decoded.value.output);
      unread := unread && decoded.value.output == "";
      if |Utf8.Encode(buffer)| > setting.maximum && Boundary(buffer) < 0 { return Err(EventTooLarge); }
      r := TakeFrames();
    }

    /** The loop of `push`: takes every complete frame off the buffer. */
    method TakeFrames() returns (r: Result<seq<Json.Object>, StreamError>)
      modifies this
      ensures (r, Position()) == Drain(old(Position()), setting)
    {
      hide Interpret, ReadLines, Lines, Boundary, StripCr, Ignored, TextOf, IsTerminal, Utf8.Encode, Drain, Prepend;
      ghost var fed := Position();
      var events: seq<Json.Object> := [];
      PrependNothing(Drain(fed, setting));
      while true
        invariant Drain(fed, setting) == Prepend(events, Drain(Position(), setting))
        decreases |buffer|
      {
        DrainStep(Position(), setting);
        PrependLast(events, Drain(Position(), setting));
        var boundary := Boundary(buffer);
        if boundary < 0 { break; }
        var frame := StripCr(buffer[..boundary]);
        buffer := buffer[boundary + 2..];
        if |Utf8.Encode(frame)| > setting.maximum { return Err(EventTooLarge); }
        if Ignored(frame) { continue; }
        var fields := ReadFrame(frame);
        var event := Interpret(setting.read, fields, nextSequence, requestId);
        if event.Err? { return Err(event.error); }
        ghost var accepted := Accept(Position(), event.value);
        requestId := Some(TextOf(event.value, "request_id"));
        nextSequence := nextSequence + 1;
        if IsTerminal(event.value) { ended := true; }
        assert Position() == accepted;
        PrependTwice(events, [event.value], Drain(accepted, setting));
        events := events + [event.value];
      }
      return Ok(events);
    }
  }

  method ReadFrame(frame: string) returns (fields: FrameFields)
    ensures fields == ReadLines(NO_FIELDS, Lines(frame))
  {
    var lines := Lines(frame);
    fields := NO_FIELDS;
    for i := 0 to |lines|
      invariant ReadLines(fields, lines[i..]) == ReadLines(NO_FIELDS, lines)
    {
      var line := lines[i];
      var split := IndexOf(line, ':');
      var field := if split < 0 then line else line[..split];
      var raw := if split < 0 then "" else DropSpace(line[split + 1..]);
      assert lines[i..][1..] == lines[i + 1..];
      if field == "id" {
        fields := fields.(id := Some(raw));
      } else if field == "event" {
        fields := fields.(name := Some(raw));
      } else if field == "data" {
        fields := fields.(data := fields.data + [raw]);
      }
    }
  }
}
