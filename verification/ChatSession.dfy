/**
 * The desktop's end of the stream: the transport's reading loop, the reducer that builds the shown
 * conversation, and the path from the provider's chunks to the shown text.
 */
module ChatSession {
  import opened Results
  import opened Text
  import opened ChatStream
  import opened ChatRoundTrip
  import opened ProviderStream
  import ChatSchema
  import Json
  import Utf8

  // ----- the reducer -----

  datatype Phase = Idle | Submitting | Streaming | CompletedPhase | CancelledPhase | FailedPhase | Inconclusive

  datatype ChatState = ChatState(
    phase: Phase, text: string, semanticState: Option<string>, citationRefs: seq<string>,
    technicalCode: Option<Json.Value>)

  const INITIAL_CHAT := ChatState(Idle, "", None, [], None)

  predicate Settled(phase: Phase) { phase in {CompletedPhase, CancelledPhase, FailedPhase, Inconclusive} }

  function ReferencesOf(o: Json.Object): seq<string> {
    var v := Json.Get(o, "citation_refs");
    if v.Some? && v.value.Arr? then v.value.items else []
  }

  /** reduceChatEvent on a stream event; None is the error for an event after a terminal. */
  function Reduce(state: ChatState, o: Json.Object): Option<ChatState> {
    var kind := TextOf(o, "type");
    if Settled(state.phase) then None
    else if kind == "started" then Some(state.(phase := Streaming))
    else if kind == "delta" then Some(state.(phase := Streaming, text := state.text + TextOf(o, "text")))
    else if kind == "completed" then
      Some(state.(phase := CompletedPhase, semanticState := Some(TextOf(o, "semantic_state")),
        citationRefs := ReferencesOf(o)))
    else if kind == "cancelled" then Some(state.(phase := CancelledPhase))
    else Some(state.(phase := FailedPhase, technicalCode := Json.Get(o, "code")))
  }

  /** reduceChatEvent on an interrupted transport, which is accepted in every phase. */
  function Interrupt(state: ChatState): ChatState {
    state.(phase := Inconclusive, semanticState := Some("inconclusiva"))
  }

  function Fold(state: ChatState, os: seq<Json.Object>): Option<ChatState>
    decreases |os|
  {
    if os == [] then Some(state)
    else
      match Reduce(state, os[0])
      case None => None
      case Some(next) => Fold(next, os[1..])
  }

  function DeltaText(e: ModelEvent): string { if e.kind.Delta? && e.text.Some? then e.text.value else "" }

  /** The text a stream of events says. */
  function SaidText(evs: seq<ModelEvent>): string { FlatMap(DeltaText, evs) }

  function PhaseAfter(kind: Kind): Phase {
    match kind
    case Started => Streaming
    case Delta => Streaming
    case Completed => CompletedPhase
    case Cancelled => CancelledPhase
    case Failed => FailedPhase
  }

  /** The references of a completed answer, none when they are left out. */
  function CitedBy(e: ModelEvent): seq<string> { if e.citationRefs.Some? then e.citationRefs.value else [] }

  function CodeOf(e: ModelEvent): Option<Json.Value> { if e.code.Some? then Some(Json.Str(e.code.value)) else None }

  lemma {:induction false} ReducePrinted(state: ChatState, e: ModelEvent)
    requires Acceptable(e)
    ensures Settled(state.phase) <==> Reduce(state, Fields(e)).None?
    ensures !Settled(state.phase) ==>
              var next := Reduce(state, Fields(e)).value;
              && next.text == state.text + DeltaText(e) && next.phase == PhaseAfter(e.kind)
              && next.semanticState == (if e.kind.Completed? then e.semanticState else state.semanticState)
              && next.citationRefs == (if e.kind.Completed? then CitedBy(e) else state.citationRefs)
              && next.technicalCode == (if e.kind.Failed? then CodeOf(e) else state.technicalCode)
  {
    hide Json.Get, Fields, Acceptable, Validate;
    LookAtMembers(e);
    PrintedEventIsValid(e);
    assert e.kind.Delta? ==> e.text.Some? by { AcceptableMembers(e); }
    assert e.kind.Completed? ==> e.semanticState.Some? by { AcceptableMembers(e); }
    assert state.text + "" == state.text;
  }

  lemma {:induction false} AcceptableMembers(e: ModelEvent)
    requires Acceptable(e)
    ensures (e.kind.Delta? ==> e.text.Some?) && (e.kind.Completed? ==> e.semanticState.Some?)
  {
  }

  predicate EndsIn(evs: seq<ModelEvent>, kind: Kind) { evs != [] && evs[|evs| - 1].kind == kind }

  /**
   * Folding the events of a stream appends the delta texts in order, and ends in the phase of the
   * last event; a completed one sets the semantic state and the references shown, a failed one the
   * code, and nothing else touches them.
   */
  lemma {:induction false} FoldStream(state: ChatState, evs: seq<ModelEvent>)
    requires forall i :: 0 <= i < |evs| ==> Acceptable(evs[i])
    requires forall i :: 0 <= i < |evs| - 1 ==> !evs[i].kind.Terminal()
    requires !Settled(state.phase)
    ensures Fold(state, Objects(evs)).Some?
    ensures var shown := Fold(state, Objects(evs)).value;
            && shown.text == state.text + SaidText(evs)
            && shown.phase == (if evs == [] then state.phase else PhaseAfter(evs[|evs| - 1].kind))
            && var completed, failed := EndsIn(evs, Completed), EndsIn(evs, Failed);
               && shown.semanticState == (if completed then evs[|evs| - 1].semanticState else state.semanticState)
               && shown.citationRefs == (if completed then CitedBy(evs[|evs| - 1]) else state.citationRefs)
               && shown.technicalCode == (if failed then CodeOf(evs[|evs| - 1]) else state.technicalCode)
    decreases |evs|
  {
    hide Reduce, Fields, Acceptable;
    if evs == [] {
      assert state.text + "" == state.text;
    } else {
      ReducePrinted(state, evs[0]);
      var next := Reduce(state, Fields(evs[0])).value;
      assert Objects(evs)[1..] == Objects(evs[1..]);
      if |evs| == 1 {
        assert evs[1..] == [] && SaidText(evs[1..]) == "";
        assert SaidText(evs) == DeltaText(evs[0]) + "" == DeltaText(evs[0]);
        assert Fold(next, Objects(evs[1..])) == Some(next);
      } else {
        FoldStream(next, evs[1..]);
        Associative(state.text, DeltaText(evs[0]), SaidText(evs[1..]));
      }
    }
  }

  /** A stream that breaks off: the text so far is kept, and nothing that comes later is taken up. */
  lemma {:induction false} InterruptedIsFinal(state: ChatState, evs: seq<ModelEvent>, later: Json.Object)
    requires forall i :: 0 <= i < |evs| ==> Acceptable(evs[i])
    requires forall i :: 0 <= i < |evs| - 1 ==> !evs[i].kind.Terminal()
    requires !Settled(state.phase)
    ensures Fold(state, Objects(evs)).Some?
    ensures var shown := Interrupt(Fold(state, Objects(evs)).value);
            && shown.text == state.text + SaidText(evs) && shown.phase == Inconclusive
            && shown.semanticState == Some("inconclusiva")
            && shown.citationRefs == Fold(state, Objects(evs)).value.citationRefs
            && Reduce(shown, later).None? && Interrupt(shown) == shown
  {
    hide Fold;
    FoldStream(state, evs);
  }

  // ----- the reading loop -----

  datatype Ending = Finished | Interrupted | ConnectionFailed | ParserError(error: StreamError)

  /** What the loop has handed on when it ends, and why it ends. */
  function Delivered(st: State, chunks: seq<seq<Utf8.Byte>>, p: Setting): (seq<Json.Object>, Option<StreamError>)
    decreases |chunks|
  {
    if chunks == [] then ([], None)
    else
      var out := ParseChunk(st, chunks[0], p);
      if out.0.Err? then ([], Some(out.0.error))
      else
        var rest := Delivered(out.1, chunks[1..], p);
        (out.0.value + rest.0, rest.1)
  }

  function EndingOf(events: seq<Json.Object>, error: Option<StreamError>): Ending {
    if error.Some? then ParserError(error.value)
    else if events == [] then ConnectionFailed
    else if IsTerminal(events[|events| - 1]) then Finished
    else Interrupted
  }

  lemma {:induction false} DeliveredStep(
    before: seq<Json.Object>, st: State, chunks: seq<seq<Utf8.Byte>>, i: nat, p: Setting)
    requires i < |chunks|
    ensures var out, all := ParseChunk(st, chunks[i], p), Delivered(st, chunks[i..], p);
            if out.0.Err? then (before + all.0, all.1) == (before, Some(out.0.error))
            else
              var rest := Delivered(out.1, chunks[i + 1..], p);
              (before + all.0, all.1) == (before + out.0.value + rest.0, rest.1)
  {
    hide ParseChunk;
    assert chunks[i..][1..] == chunks[i + 1..];
    var out := ParseChunk(st, chunks[i], p);
    if out.0.Ok? {
      Associative(before, out.0.value, Delivered(out.1, chunks[i + 1..], p).0);
    } else {
      assert before + [] == before;
    }
  }

  lemma {:induction false} DeliveredNone(before: seq<Json.Object>, st: State, chunks: seq<seq<Utf8.Byte>>, p: Setting)
    ensures Delivered(st, chunks[|chunks|..], p) == ([], None) && before + [] == before && [] + before == before
  {
  }

  /** The loop of the transport over the chunks of the response body. */
  method Receive(parser: SseParser, chunks: seq<seq<Utf8.Byte>>) returns (events: seq<Json.Object>, ending: Ending)
    requires parser.Position() == INITIAL
    modifies parser
    ensures (events, ending) ==
            var d := Delivered(INITIAL, chunks, parser.setting); (d.0, EndingOf(d.0, d.1))
  {
    hide ParseChunk, IsTerminal, Delivered;
    events := [];
    var received, terminal := false, false;
    ghost var all := Delivered(INITIAL, chunks, parser.setting);
    DeliveredNone(all.0, INITIAL, chunks, parser.setting);
    assert chunks[0..] == chunks;
    for i := 0 to |chunks|
      invariant var rest := Delivered(parser.Position(), chunks[i..], parser.setting); all == (events + rest.0, rest.1)
      invariant received == (events != []) && terminal == (events != [] && IsTerminal(events[|events| - 1]))
    {
      DeliveredStep(events, parser.Position(), chunks, i, parser.setting);
      var pushed := parser.Push(chunks[i]);
      if pushed.Err? { return events, ParserError(pushed.error); }
      if pushed.value != [] {
        received, terminal := true, IsTerminal(pushed.value[|pushed.value| - 1]);
      } else {
        assert events + [] == events;
      }
      events := events + pushed.value;
    }
    DeliveredNone(events, parser.Position(), chunks, parser.setting);
    ending := if terminal then Finished else if received then Interrupted else ConnectionFailed;
  }

  /**
   * What the loop delivers is what the parser makes of all chunks, or, when it refuses one, of the
   * chunks before that one.
   */
  lemma {:induction false} DeliveredIsParsed(st: State, chunks: seq<seq<Utf8.Byte>>, p: Setting)
    ensures var d, out := Delivered(st, chunks, p), ParseChunks(st, chunks, p);
            if out.0.Ok? then d == (out.0.value, None)
            else
              d.1 == Some(out.0.error) &&
              exists n :: 0 <= n < |chunks| && ParseChunks(st, chunks[..n], p).0 == Ok(d.0) &&
                          ParseChunk(ParseChunks(st, chunks[..n], p).1, chunks[n], p).0 == Err(out.0.error)
    decreases |chunks|
  {
    hide ParseChunk;
    if chunks != [] {
      var out := ParseChunk(st, chunks[0], p);
      if out.0.Ok? {
        DeliveredIsParsed(out.1, chunks[1..], p);
        if ParseChunks(st, chunks, p).0.Err? {
          var d := Delivered(out.1, chunks[1..], p);
          var n: nat :| n < |chunks[1..]| && ParseChunks(out.1, chunks[1..][..n], p).0 == Ok(d.0) &&
                        ParseChunk(ParseChunks(out.1, chunks[1..][..n], p).1, chunks[1..][n], p).0 ==
                        Err(ParseChunks(st, chunks, p).0.error);
          assert chunks[..n + 1][1..] == chunks[1..][..n] && chunks[..n + 1][0] == chunks[0];
          assert chunks[1..][n] == chunks[n + 1];
        }
      } else {
        assert chunks[..0] == [];
        assert ParseChunks(st, chunks[..0], p) == (Ok([]), st);
      }
    }
  }

  /** How the loop reports the end: finished only after a terminal event, interrupted after any other. */
  lemma {:induction false} EndingExactly(events: seq<Json.Object>, error: Option<StreamError>)
    ensures EndingOf(events, error) ==
            if error.Some? then ParserError(error.value)
            else if events == [] then ConnectionFailed
            else if ChatSchema.At(events[|events| - 1], "type") in {"completed", "cancelled", "failed"} then Finished
            else Interrupted
  {
    hide ChatSchema.Behind;
    if events != [] {
      ChatSchema.TerminalExactly(events[|events| - 1]);
    }
  }

  // ----- from the provider to the screen -----

  /** The printed events carry the gateway's events under one request. */
  predicate Carries(evs: seq<ModelEvent>, stream: seq<StreamEvent>) {
    && |evs| == |stream|
    && (forall i :: 0 <= i < |evs| ==> Acceptable(evs[i]) && evs[i].requestId == evs[0].requestId)
    && (forall i :: 0 <= i < |evs| ==>
          evs[i].kind == stream[i].kind && evs[i].sequence == stream[i].sequence && evs[i].text == stream[i].text)
  }

  lemma {:induction false} SaidTextIsDeltas(evs: seq<ModelEvent>, stream: seq<StreamEvent>)
    requires |evs| == |stream|
    requires forall i :: 0 <= i < |evs| ==> evs[i].kind == stream[i].kind && evs[i].text == stream[i].text
    ensures SaidText(evs) == Concat(Deltas(stream))
    decreases |evs|
  {
    if evs != [] {
      var n := |evs| - 1;
      assert evs == evs[..n] + [evs[n]];
      FlatMapAppend(DeltaText, evs[..n], [evs[n]]);
      assert [evs[n]][1..] == [];
      assert SaidText([evs[n]]) == DeltaText(evs[n]) + "" == DeltaText(evs[n]);
      SaidTextIsDeltas(evs[..n], stream[..n]);
      var last: seq<string> := if stream[n].kind.Delta? && stream[n].text.Some? then [stream[n].text.value] else [];
      ConcatAppend(Deltas(stream[..n]), last);
      if last != [] { ConcatOne(last[0]); }
    }
  }

  /**
   * Whatever the provider did and however the network cut the bytes, a well-formed gateway stream
   * whose frames fit is received whole and without error, and the text shown is the concatenation
   * of the gateway's deltas.
   */
  lemma {:induction false} ShownTextIsStreamedText(
    stream: seq<StreamEvent>, evs: seq<ModelEvent>,
    chunks: seq<seq<Utf8.Byte>>, p: Setting)
    requires ReadsBack(p.read)
    requires WellFormed(stream) && Carries(evs, stream) && FramesFit(evs, p)
    requires CutOf(chunks, evs)
    ensures var d := Delivered(INITIAL, chunks, p);
            && EndingOf(d.0, d.1) == Finished
            && Fold(INITIAL_CHAT, d.0).Some?
            && var shown := Fold(INITIAL_CHAT, d.0).value;
               shown.text == Concat(Deltas(stream)) && shown.phase == PhaseAfter(stream[|stream| - 1].kind)
  {
    hide ReadsBack, Acceptable, Fields, ParseChunks, Delivered, Fold, Deltas, FramesFit, Utf8.Encode, StreamText,
         SaidText, IsTerminal, Before, Concat, Kind.Name, TextOf, CutOf, Stream, Sequenced, WellFormed, Carries;
    CarriedIsStream(stream, evs);
    RoundTrip(evs, chunks, p);
    DeliveredIsParsed(INITIAL, chunks, p);
    FoldStream(INITIAL_CHAT, evs);
    SaidTextIsDeltas(evs, stream);
    PrintedEventIsValid(evs[|evs| - 1]);
    assert "" + SaidText(evs) == SaidText(evs);
  }

  lemma {:induction false} CarriedIsStream(stream: seq<StreamEvent>, evs: seq<ModelEvent>)
    requires WellFormed(stream) && Carries(evs, stream)
    ensures Stream(evs) && evs != [] && |evs| == |stream| && (forall i :: 0 <= i < |evs| ==> Acceptable(evs[i]))
    ensures forall i :: 0 <= i < |evs| ==> evs[i].kind == stream[i].kind && evs[i].text == stream[i].text
    ensures evs[|evs| - 1].kind.Terminal() && forall i :: 0 <= i < |evs| - 1 ==> !evs[i].kind.Terminal()
  {
    hide Acceptable;
  }
}
