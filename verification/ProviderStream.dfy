/** The gateway's side of the stream: it turns a provider's chunks into numbered events. */
module ProviderStream {
  import opened Results
  import opened Text
  import opened ChatStream
  import Utf8

  /** A step of the provider's iterator; an absent text or receipt is the empty one. */
  datatype Next =
    | Timeout
    | Broken(message: string)
    | Done
    | Chunk(text: string, receiptId: string, actualMinor: Option<nat>)

  /**
   * One turn of the loop: the cancellation flag and the elapsed time it sees before asking, what
   * the iterator answers within the inactivity limit, and the flag once it has answered.
   */
  datatype Turn = Turn(abortedBefore: bool, elapsed: int, next: Next, abortedAfter: bool)

  datatype Limits = Limits(maximumBytes: nat, maximumChunks: nat, totalMs: int)

  datatype StreamEvent = StreamEvent(
    kind: Kind, sequence: nat, text: Option<string>, code: Option<string>,
    receiptId: Option<string>, actualMinor: Option<nat>, occurredAt: string)

  datatype Outcome = CancelledRun | CompletedRun(receiptId: string, actualMinor: nat) | FailedRun(code: string)

  function Contains(s: string, part: string): bool
    decreases |s|
  {
    part <= s || (s != "" && Contains(s[1..], part))
  }

  /** The code reported for a thrown error, by its message. */
  function FailureCode(message: string): string {
    if Contains(message, "STREAM_LIMIT_EXCEEDED") then "STREAM_LIMIT_EXCEEDED"
    else if Contains(message, "PROVIDER_TIMEOUT") then "PROVIDER_TIMEOUT"
    else "PROVIDER_RESPONSE_INCONCLUSIVE"
  }

  function Plain(kind: Kind, sequence: nat, at: string): StreamEvent {
    StreamEvent(kind, sequence, None, None, None, None, at)
  }

  // ----- the independent description of a run -----

  /** What a turn leads to, given the bytes and chunks counted before it. */
  datatype Verdict = Continue | StopCancelled | StopCompleted | StopFailed(message: string)

  function Judge(t: Turn, bytes: nat, chunks: nat, limits: Limits): Verdict {
    if t.abortedBefore then StopCancelled
    else if t.elapsed > limits.totalMs then StopFailed("PROVIDER_TIMEOUT")
    else
      match t.next
      case Timeout => StopFailed("PROVIDER_TIMEOUT")
      case Broken(message) => StopFailed(message)
      case Done => if t.abortedAfter then StopCancelled else StopFailed("PROVIDER_RESPONSE_INCONCLUSIVE")
      case Chunk(text, receiptId, actualMinor) =>
        if t.abortedAfter then StopCancelled
        else if text != "" &&
          (bytes + |Utf8.Encode(text)| > limits.maximumBytes || chunks + 1 > limits.maximumChunks) then
          StopFailed("STREAM_LIMIT_EXCEEDED")
        else if receiptId != "" && actualMinor.Some? then StopCompleted
        else Continue
  }

  /** Too much is said with this text: too many bytes, or too many chunks. */
  predicate PassesLimits(text: string, bytes: nat, chunks: nat, limits: Limits) {
    text != "" && (limits.maximumBytes < bytes + |Utf8.Encode(text)| || limits.maximumChunks <= chunks)
  }

  /**
   * The verdict on a turn, exactly: a cancellation before asking comes first, then the time limits and a
   * broken iterator, then a cancellation while waiting, then the end of the iterator, then the limits;
   * a receipt with its amount completes.
   */
  lemma {:induction false} JudgeExactly(t: Turn, bytes: nat, chunks: nat, limits: Limits)
    ensures var v := Judge(t, bytes, chunks, limits);
            var waits := !t.abortedBefore && t.elapsed <= limits.totalMs;
            var answers := waits && (t.next.Done? || t.next.Chunk?) && !t.abortedAfter;
            var admits := answers && t.next.Chunk? && !PassesLimits(t.next.text, bytes, chunks, limits);
            && (v == StopCancelled <==>
                  t.abortedBefore || (waits && t.abortedAfter && (t.next.Done? || t.next.Chunk?)))
            && (v == StopCompleted <==> admits && t.next.receiptId != "" && t.next.actualMinor != None)
            && (v == Continue <==> admits && (t.next.receiptId == "" || t.next.actualMinor == None))
            && (!t.abortedBefore && !waits ==> v == StopFailed("PROVIDER_TIMEOUT"))
            && (waits && t.next.Timeout? ==> v == StopFailed("PROVIDER_TIMEOUT"))
            && (waits && t.next.Broken? ==> v == StopFailed(t.next.message))
            && (answers && t.next.Done? ==> v == StopFailed("PROVIDER_RESPONSE_INCONCLUSIVE"))
            && (answers && t.next.Chunk? && !admits ==> v == StopFailed("STREAM_LIMIT_EXCEEDED"))
  {
    hide Utf8.Encode;
  }

  function TextOfTurn(t: Turn): seq<string> {
    if t.next.Chunk? && t.next.text != "" then [t.next.text] else []
  }

  /** The texts of the first turns, in order: what the provider said up to there. */
  function Texts(turns: seq<Turn>): seq<string> { FlatMap(TextOfTurn, turns) }

  function TotalBytes(texts: seq<string>): nat {
    if texts == [] then 0 else TotalBytes(texts[..|texts| - 1]) + |Utf8.Encode(texts[|texts| - 1])|
  }

  /** The first `k` turns all let the loop go on. */
  predicate Continues(turns: seq<Turn>, k: nat, limits: Limits)
    requires k <= |turns|
  {
    forall i :: 0 <= i < k ==> Judge(turns[i], TotalBytes(Texts(turns[..i])), i, limits) == Continue
  }

  function Deltas(events: seq<StreamEvent>): seq<string> {
    if events == [] then []
    else Deltas(events[..|events| - 1]) +
         var last := events[|events| - 1];
         (if last.kind.Delta? && last.text.Some? then [last.text.value] else [])
  }

  /** Beside its text, the event carries nothing but its number and time. */
  predicate Bare(e: StreamEvent) {
    e.code == None && e.receiptId == None && e.actualMinor == None && (e.kind != Delta ==> e.text == None)
  }

  /** Numbered from 0, opened by `started`, and exactly one terminal, which is last. */
  predicate WellFormed(events: seq<StreamEvent>) {
    && |events| >= 2
    && (forall i :: 0 <= i < |events| ==> events[i].sequence == i)
    && events[0].kind == Started
    && (forall i :: 1 <= i < |events| - 1 ==> events[i].kind == Delta && events[i].text.Some?)
    && (forall i :: 0 <= i < |events| - 1 ==> Bare(events[i]))
    && events[|events| - 1].kind.Terminal() && events[|events| - 1].text == None
  }

  /** The open stream: `started` and the deltas so far. */
  predicate Open(events: seq<StreamEvent>) {
    && |events| >= 1
    && (forall i :: 0 <= i < |events| ==> events[i].sequence == i)
    && events[0].kind == Started
    && (forall i :: 1 <= i < |events| ==> events[i].kind == Delta && events[i].text.Some?)
    && (forall i :: 0 <= i < |events| ==> Bare(events[i]))
  }

  lemma {:induction false} TextsStep(turns: seq<Turn>, k: nat)
    requires k < |turns|
    ensures Texts(turns[..k + 1]) == Texts(turns[..k]) + TextOfTurn(turns[k])
  {
    assert turns[..k + 1] == turns[..k] + [turns[k]];
    FlatMapAppend(TextOfTurn, turns[..k], [turns[k]]);
    assert [turns[k]][1..] == [];
    assert TextOfTurn(turns[k]) + [] == TextOfTurn(turns[k]);
  }

  lemma {:induction false} TotalBytesStep(texts: seq<string>, text: string)
    ensures TotalBytes(texts + [text]) == TotalBytes(texts) + |Utf8.Encode(text)|
  {
    assert (texts + [text])[..|texts|] == texts;
  }

  /** Appending one event to the emitted ones. */
  lemma {:induction false} DeltasStep(events: seq<StreamEvent>, e: StreamEvent)
    ensures Deltas(events + [e]) == Deltas(events) + (if e.kind.Delta? && e.text.Some? then [e.text.value] else [])
  {
    assert (events + [e])[..|events|] == events;
  }

  /** The clock's reading at emission `n`. */
  function Reading(clock: seq<string>, n: nat): string { if n < |clock| then clock[n] else "" }

  predicate Stamped(events: seq<StreamEvent>, clock: seq<string>) {
    forall i :: 0 <= i < |events| ==> events[i].occurredAt == Reading(clock, i)
  }

  /** An open stream whose deltas are the texts of the first `d` turns, after `k` turns that go on. */
  ghost predicate Running(
    turns: seq<Turn>, k: nat, d: nat, limits: Limits, events: seq<StreamEvent>, clock: seq<string>)
  {
    && k <= |turns| && k <= d <= |turns| && Continues(turns, k, limits)
    && Open(events) && Stamped(events, clock)
    && Deltas(events) == Texts(turns[..d])
    && TotalBytes(Deltas(events)) <= limits.maximumBytes
    && |Deltas(events)| <= limits.maximumChunks && |Deltas(events)| <= d
  }

  function TextEvents(t: Turn, sequence: nat, at: string): seq<StreamEvent> {
    if t.next.Chunk? && t.next.text != "" then [Plain(Delta, sequence, at).(text := Some(t.next.text))] else []
  }

  lemma {:induction false} RunningAtStart(turns: seq<Turn>, limits: Limits, clock: seq<string>)
    ensures Running(turns, 0, 0, limits, [Plain(Started, 0, Reading(clock, 0))], clock)
    ensures Deltas([Plain(Started, 0, Reading(clock, 0))]) == Texts(turns[..0]) == [] && TotalBytes([]) == 0
  {
    var events := [Plain(Started, 0, Reading(clock, 0))];
    assert events[..0] == [] && turns[..0] == [];
  }

  /** Emitting the text of an admitted chunk. */
  lemma {:induction false} EmitText(
    turns: seq<Turn>, k: nat, limits: Limits, events: seq<StreamEvent>, clock: seq<string>)
    requires Running(turns, k, k, limits, events, clock) && k < |turns|
    requires Judge(turns[k], TotalBytes(Deltas(events)), k, limits) in {Continue, StopCompleted}
    ensures Running(turns, k, k + 1, limits, events + TextEvents(turns[k], |events|, Reading(clock, |events|)), clock)
  {
    hide Utf8.Encode, Texts, Deltas, TotalBytes;
    TextsStep(turns, k);
    var text := TextOfTurn(turns[k]);
    if text == [] {
      assert events + [] == events;
      assert Texts(turns[..k]) + [] == Texts(turns[..k]);
    } else {
      DeltasStep(events, TextEvents(turns[k], |events|, Reading(clock, |events|))[0]);
      TotalBytesStep(Deltas(events), text[0]);
    }
  }

  lemma {:induction false} GoOn(turns: seq<Turn>, k: nat, limits: Limits, events: seq<StreamEvent>, clock: seq<string>)
    requires Running(turns, k, k + 1, limits, events, clock) && k < |turns|
    requires Judge(turns[k], TotalBytes(Texts(turns[..k])), k, limits) == Continue
    ensures Running(turns, k + 1, k + 1, limits, events, clock)
  {
    hide Judge, Deltas, Texts, TotalBytes;
  }

  /** Emitting the terminal event closes the stream and adds no text. */
  lemma {:induction false} Close(
    turns: seq<Turn>, k: nat, d: nat, limits: Limits, events: seq<StreamEvent>, clock: seq<string>, last: StreamEvent)
    requires Running(turns, k, d, limits, events, clock)
    requires last.kind.Terminal() && last.sequence == |events| && last.occurredAt == Reading(clock, |events|)
    requires last.text == None
    ensures WellFormed(events + [last]) && Stamped(events + [last], clock)
    ensures Deltas(events + [last]) == Deltas(events)
  {
    hide Judge, Texts, TotalBytes, Deltas, Continues, Reading;
    DeltasStep(events, last);
    assert Deltas(events) + [] == Deltas(events);
  }

  /** How a run ends: by the verdict on its last turn, or because the turns run out. */
  function Ending(turns: seq<Turn>, k: nat, limits: Limits): Verdict
    requires k <= |turns|
  {
    if k < |turns| then Judge(turns[k], TotalBytes(Texts(turns[..k])), k, limits)
    else StopFailed("PROVIDER_RESPONSE_INCONCLUSIVE")
  }

  /** The code for a message: of a limit, else of a timeout, else that nothing can be concluded. */
  ghost predicate IsCodeOf(code: string, message: string) {
    if exists a, b :: message == a + ("STREAM_LIMIT_EXCEEDED" + b) then code == "STREAM_LIMIT_EXCEEDED"
    else if exists a, b :: message == a + ("PROVIDER_TIMEOUT" + b) then code == "PROVIDER_TIMEOUT"
    else code == "PROVIDER_RESPONSE_INCONCLUSIVE"
  }

  lemma {:induction false} ContainsExactly(s: string, part: string)
    ensures Contains(s, part) <==> exists a, b :: s == a + (part + b)
  {
    if Contains(s, part) { var a, b := FoundParts(s, part); }
    if exists a, b :: s == a + (part + b) {
      var a, b :| s == a + (part + b);
      PartsAreFound(a, part, b);
    }
  }

  lemma {:induction false} FoundParts(s: string, part: string) returns (a: string, b: string)
    requires Contains(s, part)
    ensures s == a + (part + b)
    decreases |s|
  {
    if part <= s {
      a, b := "", s[|part|..];
    } else {
      a, b := FoundParts(s[1..], part);
      a := [s[0]] + a;
    }
  }

  lemma {:induction false} PartsAreFound(a: string, part: string, b: string)
    ensures Contains(a + (part + b), part)
    decreases |a|
  {
    if a == "" {
      assert a + (part + b) == part + b;
    } else {
      PartsAreFound(a[1..], part, b);
      assert (a + (part + b))[1..] == a[1..] + (part + b);
    }
  }

  lemma {:induction false} CodeExactly(message: string)
    ensures IsCodeOf(FailureCode(message), message)
  {
    hide Contains;
    ContainsExactly(message, "STREAM_LIMIT_EXCEEDED");
    ContainsExactly(message, "PROVIDER_TIMEOUT");
  }

  /** The outcome and the last event that a verdict calls for. */
  ghost predicate Reported(turns: seq<Turn>, k: nat, verdict: Verdict, outcome: Outcome, last: StreamEvent)
    requires k <= |turns|
  {
    match verdict
    case Continue => false
    case StopCancelled => outcome == CancelledRun && last.kind == Cancelled && Bare(last)
    case StopFailed(message) =>
      && outcome.FailedRun? && IsCodeOf(outcome.code, message)
      && last.kind == Failed && last.code == Some(outcome.code) && Bare(last.(code := None))
    case StopCompleted =>
      && k < |turns| && turns[k].next.Chunk? && turns[k].next.actualMinor.Some?
      && outcome == CompletedRun(turns[k].next.receiptId, turns[k].next.actualMinor.value)
      && last.kind == Completed && last.receiptId == Some(outcome.receiptId)
      && last.actualMinor == Some(outcome.actualMinor) && last.code == None
  }

  // ----- the loop -----

  class Relay {
    /** Everything handed to `emit`, in order. */
    var emitted: seq<StreamEvent>

    constructor ()
      ensures emitted == []
    {
      emitted := [];
    }

    /**
     * consumeProviderStream. `turns` are the loop's inputs; when they run out the iterator is
     * done. `clock` holds the clock's readings at the emissions. `k` is the number of turns that
     * let the loop go on.
     */
    method Consume(turns: seq<Turn>, limits: Limits, clock: seq<string>) returns (outcome: Outcome, ghost k: nat)
      requires emitted == []
      modifies this
      ensures WellFormed(emitted) && Stamped(emitted, clock)
      ensures k <= |turns| && Continues(turns, k, limits)
      ensures Reported(turns, k, Ending(turns, k, limits), outcome, emitted[|emitted| - 1])
      ensures Deltas(emitted) == Texts(turns[..if Ending(turns, k, limits).StopCompleted? then k + 1 else k])
      ensures TotalBytes(Deltas(emitted)) <= limits.maximumBytes && |Deltas(emitted)| <= limits.maximumChunks
    {
      hide Continues, Open, Stamped, WellFormed, Deltas, Texts, TotalBytes, FailureCode, Utf8.Encode, Contains,
           IsCodeOf;
      var sequence, bytes, chunks := 0, 0, 0;
      var failure := "PROVIDER_RESPONSE_INCONCLUSIVE";
      emitted := [Plain(Started, sequence, Reading(clock, sequence))];
      sequence := sequence + 1;
      k := 0;
      RunningAtStart(turns, limits, clock);
      while chunks < |turns|
        invariant chunks <= |turns| && k == chunks && sequence == |emitted|
        invariant Running(turns, k, k, limits, emitted, clock)
        invariant bytes == TotalBytes(Deltas(emitted)) && Deltas(emitted) == Texts(turns[..k])
        invariant failure == "PROVIDER_RESPONSE_INCONCLUSIVE"
        decreases |turns| - chunks
      {
        var turn := turns[chunks];
        if turn.abortedBefore {
          Close(turns, k, k, limits, emitted, clock, Plain(Cancelled, sequence, Reading(clock, sequence)));
          emitted := emitted + [Plain(Cancelled, sequence, Reading(clock, sequence))];
          return CancelledRun, k;
        }
        if turn.elapsed > limits.totalMs { failure := "PROVIDER_TIMEOUT"; break; }
        if turn.next.Timeout? { failure := "PROVIDER_TIMEOUT"; break; }
        if turn.next.Broken? { failure := turn.next.message; break; }
        if turn.abortedAfter {
          Close(turns, k, k, limits, emitted, clock, Plain(Cancelled, sequence, Reading(clock, sequence)));
          emitted := emitted + [Plain(Cancelled, sequence, Reading(clock, sequence))];
          return CancelledRun, k;
        }
        if turn.next.Done? { break; }
        var text := turn.next.text;
        chunks := chunks + 1;
        ghost var before := emitted;
        if text != "" {
          bytes := bytes + |Utf8.Encode(text)|;
          if bytes > limits.maximumBytes || chunks > limits.maximumChunks { failure := "STREAM_LIMIT_EXCEEDED"; break; }
          emitted := emitted + [Plain(Delta, sequence, Reading(clock, sequence)).(text := Some(text))];
          sequence := sequence + 1;
        }
        assert emitted == before + TextEvents(turn, |before|, Reading(clock, |before|));
        EmitText(turns, k, limits, before, clock);
        CountText(turn, before, clock, bytes);
        if turn.next.receiptId != "" && turn.next.actualMinor.Some? {
          var last := Plain(Completed, sequence, Reading(clock, sequence)).(
                      receiptId := Some(turn.next.receiptId), actualMinor := turn.next.actualMinor);
          Close(turns, k, k + 1, limits, emitted, clock, last);
          emitted := emitted + [last];
          return CompletedRun(turn.next.receiptId, turn.next.actualMinor.value), k;
        }
        GoOn(turns, k, limits, emitted, clock);
        k := chunks;
      }
      var code := FailureCode(failure);
      CodeExactly(failure);
      Close(turns, k, k, limits, emitted, clock,
        Plain(Failed, sequence, Reading(clock, sequence)).(code := Some(code)));
      emitted := emitted + [Plain(Failed, sequence, Reading(clock, sequence)).(code := Some(code))];
      return FailedRun(code), k;
    }
  }

  /** The byte counter follows the emitted texts. */
  lemma {:induction false} CountText(t: Turn, events: seq<StreamEvent>, clock: seq<string>, bytes: nat)
    requires t.next.Chunk?
    requires bytes == TotalBytes(Deltas(events)) + (if t.next.text != "" then |Utf8.Encode(t.next.text)| else 0)
    ensures var after := events + TextEvents(t, |events|, Reading(clock, |events|)); bytes == TotalBytes(Deltas(after))
  {
    hide Utf8.Encode, Deltas, TotalBytes;
    if t.next.text != "" {
      DeltasStep(events, TextEvents(t, |events|, Reading(clock, |events|))[0]);
      TotalBytesStep(Deltas(events), t.next.text);
    } else {
      assert events + [] == events;
    }
  }
}
