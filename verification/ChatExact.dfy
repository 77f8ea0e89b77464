/**
 * Which printed events the parser accepts, exactly, told from what is sent: nothing is assumed of
 * the events but that each one alone meets the schema.
 */
module ChatExact {
  import opened Results
  import opened Text
  import opened ChatStream
  import opened ChatRoundTrip
  import ChatSafety
  import Json
  import Utf8

  predicate AllAcceptable(evs: seq<ModelEvent>) { forall i :: 0 <= i < |evs| ==> Acceptable(evs[i]) }

  /** Accepted chunk by chunk, the chunks are accepted as one, with the same events and position. */
  lemma {:induction false} AcceptedAsOne(st: State, chunks: seq<seq<Utf8.Byte>>, p: Setting)
    requires chunks != [] && ParseChunks(st, chunks, p).0.Ok?
    ensures ParseChunk(st, Concat(chunks), p) == ParseChunks(st, chunks, p)
    decreases |chunks|
  {
    hide ParseChunk;
    var first := ParseChunk(st, chunks[0], p);
    if |chunks| == 1 {
      assert chunks[1..] == [] && Concat(chunks) == chunks[0] + [] == chunks[0];
      assert ParseChunks(first.1, [], p) == (Ok([]), first.1);
      assert first.0.value + [] == first.0.value;
    } else {
      AcceptedAsOne(first.1, chunks[1..], p);
      ChatSafety.Cutting(st, chunks[0], Concat(chunks[1..]), p);
    }
  }

  /** A printed event out of place is refused: a wrong number, or another request than before. */
  lemma {:induction false} InterpretRefuses(read: Reader, e: ModelEvent, next: nat, requestId: Option<string>)
    requires ReadsBack(read) && Acceptable(e)
    requires e.sequence != next || (requestId.Some? && requestId.value != "" && requestId.value != e.requestId)
    ensures Interpret(read, ReadLines(NO_FIELDS, Lines(StripCr(Frame(e)))), next, requestId).Err?
  {
    hide Json.Print, Fields, Decimal, Lines, StripCr, Frame;
    FrameMembers(e);
    PrintedEventIsValid(e);
  }

  /** The event belongs here: its number, its request and the size of its frame. */
  predicate InPlace(e: ModelEvent, next: nat, requestId: Option<string>, p: Setting) {
    && e.sequence == next && FrameBytes(e) <= p.maximum
    && (requestId.None? || requestId.value == "" || requestId.value == e.requestId)
  }

  lemma {:induction false} BadFrameFails(e: ModelEvent, rest: string, st: State, p: Setting)
    requires ReadsBack(p.read)
    requires Acceptable(e) && st.buffer == Printed(e) + rest
    requires !InPlace(e, st.next, st.requestId, p)
    ensures Drain(st, p).0.Err?
  {
    hide ReadsBack, Interpret, Frame, Fields, Acceptable, Boundary, ReadLines, Lines, StripCr, Utf8.Encode;
    assert st.buffer + "" == st.buffer;
    BufferAtFrame(e, rest, st.buffer, "");
    InterpretFrame(p.read, e, None);
    if FrameBytes(e) <= p.maximum { InterpretRefuses(p.read, e, st.next, st.requestId); }
  }

  function RequestBefore(evs: seq<ModelEvent>, k: nat): Option<string>
    requires k <= |evs|
  {
    if k == 0 then None else Some(evs[k - 1].requestId)
  }

  /** The first event out of place. */
  lemma {:induction false} FirstBreak(evs: seq<ModelEvent>, p: Setting) returns (k: nat)
    requires AllAcceptable(evs) && !(Sequenced(evs) && FramesPass(evs, p))
    ensures k < |evs| && Sequenced(evs[..k]) && FramesPass(evs[..k], p)
    ensures !InPlace(evs[k], k, RequestBefore(evs, k), p)
  {
    hide Acceptable, FrameBytes;
    k := 0;
    while InPlace(evs[k], k, RequestBefore(evs, k), p)
      invariant k < |evs| && Sequenced(evs[..k]) && FramesPass(evs[..k], p)
      decreases |evs| - k
    {
      SequencedStep(evs, k);
      PassStep(evs, k, p);
      k := k + 1;
    }
  }

  lemma {:induction false} PassStep(evs: seq<ModelEvent>, k: nat, p: Setting)
    requires k < |evs| && FramesPass(evs[..k], p) && FrameBytes(evs[k]) <= p.maximum
    ensures FramesPass(evs[..k + 1], p) && (k + 1 == |evs| ==> FramesPass(evs, p))
  {
    hide FrameBytes;
    assert forall i :: 0 <= i < k ==> evs[..k][i] == evs[i];
  }

  lemma {:induction false} SequencedStep(evs: seq<ModelEvent>, k: nat)
    requires k < |evs| && Sequenced(evs[..k]) && Acceptable(evs[k]) && evs[k].sequence == k
    requires k == 0 || evs[k - 1].requestId == "" || evs[k - 1].requestId == evs[k].requestId
    ensures Sequenced(evs[..k + 1]) && (k + 1 == |evs| ==> Sequenced(evs))
  {
    hide Acceptable;
    assert k + 1 == |evs| ==> evs[..k + 1] == evs;
    var before, after := evs[..k], evs[..k + 1];
    assert forall i :: 0 <= i < k ==> after[i] == before[i];
    forall i | 0 <= i < k ensures after[i].requestId == "" || after[i].requestId == evs[k].requestId {
      if i < k - 1 { assert before[i].requestId == "" || before[i].requestId == before[k - 1].requestId; }
    }
  }

  /** The fresh parser with the whole text of the events in its buffer. */
  function WithText(evs: seq<ModelEvent>): State {
    INITIAL.(buffer := StreamText(evs), unread := StreamText(evs) == "")
  }

  /** The complete frames of a sequenced prefix are taken, and the parser stands behind them. */
  lemma {:induction false} DrainPrefix(evs: seq<ModelEvent>, p: Setting) returns (after: State)
    requires ReadsBack(p.read)
    requires Sequenced(evs) && FramesPass(evs, p)
    ensures Drain(WithText(evs), p) == (Ok(Objects(evs)), after)
    ensures after.buffer == "" && after.next == |evs|
    ensures evs != [] ==> after.requestId == Some(evs[|evs| - 1].requestId)
  {
    hide ReadsBack, Sequenced, FramesPass, StreamText, Drain, Boundary, Objects;
    var st := WithText(evs);
    assert evs[0..] == evs && StreamText(evs) + "" == StreamText(evs);
    var m: nat;
    m, after := DrainStream(evs, 0, st, "", p);
    NothingLeft(evs, m, after);
    assert evs[0..|evs|] == evs;
  }

  /** As one chunk, printed events are accepted only in sequence and with frames that pass. */
  lemma {:induction false} OneChunkNeedsSequence(evs: seq<ModelEvent>, p: Setting)
    requires ReadsBack(p.read)
    requires AllAcceptable(evs)
    requires ParseChunk(INITIAL, Utf8.Encode(StreamText(evs)), p).0.Ok?
    ensures Sequenced(evs) && FramesPass(evs, p)
  {
    hide ReadsBack, Sequenced, FramesPass, Drain, StreamText, Utf8.Encode, Utf8.Decode, Boundary, Acceptable,
         Printed, InPlace;
    if !(Sequenced(evs) && FramesPass(evs, p)) {
      var k := FirstBreak(evs, p);
      NextPrinted(evs, k);
      WholeText(evs, p);
      if k == 0 {
        assert evs[0..] == evs;
        BadFrameFails(evs[0], StreamText(evs[1..]), WithText(evs), p);
      } else {
        BreakFails(evs, k, p);
      }
    }
  }

  lemma {:induction false} BreakFails(evs: seq<ModelEvent>, k: nat, p: Setting)
    requires ReadsBack(p.read)
    requires 0 < k < |evs| && Sequenced(evs[..k]) && AllAcceptable(evs) && FramesPass(evs[..k], p)
    requires !InPlace(evs[k], k, RequestBefore(evs, k), p)
    ensures Drain(WithText(evs), p).0.Err?
  {
    hide ReadsBack, Sequenced, Drain, StreamText, Acceptable, Printed, FramesPass, InPlace;
    var after := DrainPrefix(evs[..k], p);
    var rest := StreamText(evs[k..]);
    TextPrefix(evs, k, |evs|);
    assert evs[..|evs|] == evs && evs[k..|evs|] == evs[k..];
    TextIsNotEmpty(evs[..k]);
    ChatSafety.DrainAppend(WithText(evs[..k]), rest, p);
    NextPrinted(evs, k);
    assert "" + rest == rest;
    BadFrameFails(evs[k], StreamText(evs[k + 1..]), after.(buffer := rest), p);
  }

  lemma {:induction false} WholeText(evs: seq<ModelEvent>, p: Setting)
    requires ParseChunk(INITIAL, Utf8.Encode(StreamText(evs)), p).0.Ok?
    ensures Drain(WithText(evs), p).0.Ok?
  {
    hide Drain, StreamText, Utf8.Encode, Utf8.Decode, Boundary;
    var text := StreamText(evs);
    Utf8.DecodeEncode(text);
    TextStarts(evs);
    assert WithoutMark(true, text) == text && "" + text == text;
    assert Feed(INITIAL, Utf8.Step(Utf8.Ready, text)) == WithText(evs);
  }

  /**
   * Acceptance, exactly: printed events that each meet the schema, cut anywhere, are accepted if and
   * only if they are numbered from 0 and never leave a request id that is not empty, no frame is over
   * the maximum, no chunk begins after the end of a terminal event, and no chunk stays inside a frame
   * of exactly the maximum and ends one byte before the end of its blank line. Accepted, they are
   * returned all and in order.
   */
  lemma {:induction false} AcceptedExactly(evs: seq<ModelEvent>, chunks: seq<seq<Utf8.Byte>>, p: Setting)
    requires ReadsBack(p.read)
    requires AllAcceptable(evs) && CutOf(chunks, evs)
    ensures ParseChunks(INITIAL, chunks, p).0.Ok? <==>
            Sequenced(evs) && FramesPass(evs, p) && OnTime(evs, 0, chunks) && Roomy(evs, 0, chunks, p)
    ensures ParseChunks(INITIAL, chunks, p).0.Ok? ==>
              ParseChunks(INITIAL, chunks, p).0.value == Objects(evs)
  {
    hide ReadsBack, Sequenced, OnTime, Roomy, FramesPass, ParseChunks, ParseChunk, CutOf, StreamText, Utf8.Encode,
         Concat, Acceptable, Objects;
    CutOfStream(chunks, evs);
    if ParseChunks(INITIAL, chunks, p).0.Ok? {
      if chunks == [] {
        EmptyText(evs, p);
      } else {
        AcceptedAsOne(INITIAL, chunks, p);
        OneChunkNeedsSequence(evs, p);
      }
    }
    if Sequenced(evs) && FramesPass(evs, p) { SequencedExactly(evs, chunks, p); }
  }

  lemma {:induction false} EmptyText(evs: seq<ModelEvent>, p: Setting)
    requires Utf8.Encode(StreamText(evs)) == Concat<Utf8.Byte>([])
    ensures Sequenced(evs) && FramesPass(evs, p)
  {
    if evs != [] { NotBlank(StreamText(evs)); }
  }

  /** Two terminals in one chunk: accepted, although nothing may follow a terminal. */
  lemma {:induction false} TerminalIsNotLast(requestId: string, at: string, chunks: seq<seq<Utf8.Byte>>, p: Setting)
    requires ReadsBack(p.read)
    requires FramesFit(TwoEndings(requestId, at), p) && CutOf(chunks, TwoEndings(requestId, at)) && |chunks| == 1
    ensures ParseChunks(INITIAL, chunks, p).0 == Ok(Objects(TwoEndings(requestId, at)))
    ensures !Stream(TwoEndings(requestId, at))
  {
    hide ReadsBack, FramesFit, FramesPass, Roomy, ParseChunks, CutOf, Objects, StreamText, Utf8.Encode;
    var evs := TwoEndings(requestId, at);
    assert evs[0].kind.Terminal();
    forall i | 0 <= i < |evs| ensures 0 < EndOf(evs, i) {
      TextIsNotEmpty(evs[..i + 1]);
      NotBlank(StreamText(evs[..i + 1]));
    }
    assert chunks[..0] == [];
    assert OnTime(evs, 0, chunks);
    FittingIsRoomy(evs, 0, chunks, p);
    AcceptedExactly(evs, chunks, p);
  }

  function TwoEndings(requestId: string, at: string): seq<ModelEvent> {
    [ModelEvent(requestId, 0, Cancelled, at, None, None, None, None),
      ModelEvent(requestId, 1, Cancelled, at, None, None, None, None)]
  }

  /** The gateway's rule, exactly: every cutting is accepted if and only if the events are a stream and fit. */
  lemma {:induction false} EveryCutExactly(evs: seq<ModelEvent>, p: Setting)
    requires ReadsBack(p.read)
    requires AllAcceptable(evs)
    ensures SurvivesEveryCut(evs, p) <==> Stream(evs) && FramesFit(evs, p)
  {
    hide ReadsBack, Sequenced, OnTime, Roomy, FramesFit, FramesPass, ParseChunks, CutOf, StreamText, Utf8.Encode,
         Concat, Acceptable, Objects, BytesOf;
    if SurvivesEveryCut(evs, p) {
      if exists i :: 0 <= i < |evs| - 1 && evs[i].kind.Terminal() {
        var i :| 0 <= i < |evs| - 1 && evs[i].kind.Terminal();
        var chunks := CutAfter(evs, i);
        AcceptedExactly(evs, chunks, p);
        LateChunk(evs, i, chunks);
      } else {
        var chunks := CutAtEnd(evs);
        AcceptedExactly(evs, chunks, p);
      }
    }
    if Stream(evs) { RoundTripExactly(evs, p); }
  }

  lemma {:induction false} LateChunk(evs: seq<ModelEvent>, i: nat, chunks: seq<seq<Utf8.Byte>>)
    requires i < |evs| && evs[i].kind.Terminal() && |chunks| == 2 && chunks[0] == BytesOf(evs, i + 1)
    ensures !OnTime(evs, 0, chunks)
  {
    hide BytesOf;
    ConcatOne(chunks[0]);
    assert chunks[..1] == [chunks[0]];
    assert 0 + |Concat(chunks[..1])| == EndOf(evs, i);
  }

  /** The stream cut in two after an event that is not the last. */
  lemma {:induction false} CutAfter(evs: seq<ModelEvent>, i: nat) returns (chunks: seq<seq<Utf8.Byte>>)
    requires AllAcceptable(evs) && i < |evs| - 1
    ensures CutOf(chunks, evs) && |chunks| == 2 && chunks[0] == BytesOf(evs, i + 1)
  {
    hide StreamText, Utf8.Encode, Concat, Acceptable, CutOf;
    var first, last := StreamText(evs[..i + 1]), StreamText(evs[i + 1..]);
    chunks := [Utf8.Encode(first), Utf8.Encode(last)];
    TextPrefix(evs, i + 1, |evs|);
    assert evs[..|evs|] == evs && evs[i + 1..|evs|] == evs[i + 1..];
    assert chunks == [chunks[0]] + [chunks[1]];
    ConcatAppend([chunks[0]], [chunks[1]]);
    ConcatOne(chunks[0]);
    ConcatOne(chunks[1]);
    TextIsNotEmpty(evs[..i + 1]);
    TextIsNotEmpty(evs[i + 1..]);
    NotBlank(first);
    NotBlank(last);
    CutOfStream(chunks, evs);
  }

  lemma {:induction false} CutAtEnd(evs: seq<ModelEvent>) returns (chunks: seq<seq<Utf8.Byte>>)
    requires AllAcceptable(evs)
    ensures CutOf(chunks, evs)
  {
    hide StreamText, Utf8.Encode, Acceptable, CutOf;
    if evs == [] {
      chunks := [];
      NoText();
      Utf8.EncodeNothing();
    } else {
      chunks := [Utf8.Encode(StreamText(evs))];
      ConcatOne(chunks[0]);
      TextIsNotEmpty(evs);
      NotBlank(StreamText(evs));
    }
    CutOfStream(chunks, evs);
  }

  lemma {:induction false} TextIsNotEmpty(evs: seq<ModelEvent>)
    requires evs != []
    ensures StreamText(evs) != ""
  {
    hide Frame;
    assert |Printed(evs[0])| >= 2;
  }

  /**
   * Accepted events are of more than one request exactly when the first one sent has an empty id and
   * a later one has not.
   */
  lemma {:induction false} MixedRequestsExactly(evs: seq<ModelEvent>, chunks: seq<seq<Utf8.Byte>>, p: Setting)
    requires ReadsBack(p.read)
    requires AllAcceptable(evs) && CutOf(chunks, evs)
    requires ParseChunks(INITIAL, chunks, p).0.Ok?
    ensures (exists i, j :: 0 <= i < |evs| && 0 <= j < |evs| && evs[i].requestId != evs[j].requestId) <==>
            (evs != [] && evs[0].requestId == "" && exists j :: 0 <= j < |evs| && evs[j].requestId != "")
  {
    hide ReadsBack, OnTime, FramesPass, Roomy, ParseChunks, CutOf, Acceptable;
    AcceptedExactly(evs, chunks, p);
    assert forall i :: 0 < i < |evs| ==> evs[0].requestId == "" || evs[0].requestId == evs[i].requestId;
    if evs != [] && evs[0].requestId == "" && exists j :: 0 <= j < |evs| && evs[j].requestId != "" {
      var j :| 0 <= j < |evs| && evs[j].requestId != "";
      assert evs[0].requestId != evs[j].requestId;
    }
  }
}
