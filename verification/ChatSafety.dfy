/**
 * What the parser guarantees on arbitrary bytes: consecutive numbering, agreement of request ids,
 * and how far the result depends on where the bytes are cut.
 */
module ChatSafety {
  import opened Results
  import opened Text
  import opened ChatStream
  import Json
  import Utf8

  function IdOf(o: Json.Object): string { TextOf(o, "request_id") }

  /** Numbered from `next`, and agreeing with the id seen before unless that is absent or empty. */
  predicate Consecutive(es: seq<Json.Object>, next: nat, requestId: Option<string>) {
    && (forall i :: 0 <= i < |es| ==> SequenceOf(es[i]) == next + i)
    && (forall i :: 0 <= i < |es| ==> requestId.None? || requestId.value == "" || IdOf(es[i]) == requestId.value)
    && (forall i, j :: 0 <= i < j < |es| ==> IdOf(es[i]) == "" || IdOf(es[i]) == IdOf(es[j]))
  }

  /** Where the parser stands after the events `es`. */
  predicate Advanced(st: State, es: seq<Json.Object>, after: State) {
    && after.next == st.next + |es|
    && after.requestId == (if es == [] then st.requestId else Some(IdOf(es[|es| - 1])))
    && (after.ended <==> st.ended || exists i :: 0 <= i < |es| && IsTerminal(es[i]))
  }

  lemma {:induction false} ConsecutivePrepend(
    st: State, a: seq<Json.Object>, mid: State, b: seq<Json.Object>, after: State)
    requires Consecutive(a, st.next, st.requestId) && Advanced(st, a, mid)
    requires Consecutive(b, mid.next, mid.requestId) && Advanced(mid, b, after)
    ensures Consecutive(a + b, st.next, st.requestId) && Advanced(st, a + b, after)
  {
    hide IsTerminal, IdOf, SequenceOf;
    AgreementPrepend(st, a, mid, b);
    TerminalInEither(a, b);
    assert forall i :: 0 <= i < |a + b| ==> (a + b)[i] == if i < |a| then a[i] else b[i - |a|];
  }

  lemma {:induction false} TerminalInEither(a: seq<Json.Object>, b: seq<Json.Object>)
    ensures (exists i :: 0 <= i < |a + b| && IsTerminal((a + b)[i])) <==>
            (exists i :: 0 <= i < |a| && IsTerminal(a[i])) || (exists i :: 0 <= i < |b| && IsTerminal(b[i]))
  {
    hide IsTerminal;
    if i :| 0 <= i < |a| && IsTerminal(a[i]) { assert IsTerminal((a + b)[i]); }
    if i :| 0 <= i < |b| && IsTerminal(b[i]) { assert IsTerminal((a + b)[|a| + i]); }
  }

  /** The ids of two parts agree when the second part agrees with the last id of the first. */
  lemma {:induction false} AgreementPrepend(st: State, a: seq<Json.Object>, mid: State, b: seq<Json.Object>)
    requires Consecutive(a, st.next, st.requestId) && Advanced(st, a, mid) && Consecutive(b, mid.next, mid.requestId)
    ensures forall i, j :: 0 <= i < j < |a + b| ==> IdOf((a + b)[i]) == "" || IdOf((a + b)[i]) == IdOf((a + b)[j])
    ensures forall i :: 0 <= i < |a + b| ==>
              st.requestId.None? || st.requestId.value == "" || IdOf((a + b)[i]) == st.requestId.value
  {
    hide IsTerminal, IdOf, SequenceOf;
    forall i, j | 0 <= i < j < |a + b| ensures IdOf((a + b)[i]) == "" || IdOf((a + b)[i]) == IdOf((a + b)[j]) {
      if i < |a| <= j && i < |a| - 1 { assert IdOf(a[i]) == "" || IdOf(a[i]) == IdOf(a[|a| - 1]); }
    }
  }

  /** One accepted event is in place. */
  lemma {:induction false} TakenIsConsecutive(read: Reader, f: FrameFields, st: State, advanced: State)
    requires Interpret(read, f, st.next, st.requestId).Ok?
    requires advanced == st.(buffer := advanced.buffer)
    ensures var o := Interpret(read, f, st.next, st.requestId).value;
            Consecutive([o], st.next, st.requestId) && Advanced(st, [o], Accept(advanced, o))
  {
    hide Validate, TextOf, SequenceOf;
    var o := Interpret(read, f, st.next, st.requestId).value;
    assert [o][0] == o;
  }

  lemma {:induction false} DrainIsConsecutive(st: State, p: Setting)
    requires Drain(st, p).0.Ok?
    ensures Consecutive(Drain(st, p).0.value, st.next, st.requestId)
    ensures Advanced(st, Drain(st, p).0.value, Drain(st, p).1)
    decreases |st.buffer|
  {
    hide Interpret, StripCr, Lines, ReadLines, Consecutive, Advanced, Accept, Utf8.Encode, Ignored;
    var b := Boundary(st.buffer);
    if b < 0 {
      NothingIsConsecutive(st);
    } else {
      var frame := StripCr(st.buffer[..b]);
      var advanced := st.(buffer := st.buffer[b + 2..]);
      if Ignored(frame) {
        DrainIsConsecutive(advanced, p);
        FeedingKeepsPosition(st, advanced, Drain(advanced, p));
      } else {
        var f := ReadLines(NO_FIELDS, Lines(frame));
        var o := Interpret(p.read, f, st.next, st.requestId).value;
        var mid := Accept(advanced, o);
        AcceptKeepsBuffer(advanced, o);
        DrainIsConsecutive(mid, p);
        TakenIsConsecutive(p.read, f, st, advanced);
        ConsecutivePrepend(st, [o], mid, Drain(mid, p).0.value, Drain(mid, p).1);
      }
    }
  }

  lemma {:induction false} AcceptKeepsBuffer(st: State, o: Json.Object)
    ensures Accept(st, o).buffer == st.buffer && Accept(st, o).decoder == st.decoder &&
            Accept(st, o).unread == st.unread
    ensures forall decoder, unread ::
              Accept(st.(decoder := decoder, unread := unread), o) ==
              Accept(st, o).(decoder := decoder, unread := unread)
  {
  }

  /**
   * For every run of accepted pushes on any bytes and any way to read JSON, the events are numbered from the parser's
   * position without gap or repeat and agree on the request id once it is not empty.
   */
  lemma {:induction false} AcceptedEventsAreConsecutive(st: State, chunks: seq<seq<Utf8.Byte>>, p: Setting)
    requires ParseChunks(st, chunks, p).0.Ok?
    ensures Consecutive(ParseChunks(st, chunks, p).0.value, st.next, st.requestId)
    ensures Advanced(st, ParseChunks(st, chunks, p).0.value, ParseChunks(st, chunks, p).1)
    decreases |chunks|
  {
    hide Drain, Boundary, Validate, Consecutive, Advanced;
    if chunks == [] {
      NothingIsConsecutive(st);
    } else {
      var out := ParseChunk(st, chunks[0], p);
      var fed := Feed(st, Utf8.Decode(st.decoder, chunks[0]).value);
      DrainIsConsecutive(fed, p);
      FeedingKeepsPosition(st, fed, out);
      AcceptedEventsAreConsecutive(out.1, chunks[1..], p);
      var rest := ParseChunks(out.1, chunks[1..], p);
      ConsecutivePrepend(st, out.0.value, out.1, rest.0.value, rest.1);
    }
  }

  lemma {:induction false} NothingIsConsecutive(st: State)
    ensures Consecutive([], st.next, st.requestId) && Advanced(st, [], st)
  {
  }

  lemma {:induction false} FeedingKeepsPosition(st: State, fed: State, out: Output)
    requires fed == st.(decoder := fed.decoder, unread := fed.unread, buffer := fed.buffer) && out.0.Ok?
    requires Consecutive(out.0.value, fed.next, fed.requestId) && Advanced(fed, out.0.value, out.1)
    ensures Consecutive(out.0.value, st.next, st.requestId) && Advanced(st, out.0.value, out.1)
  {
  }

  // ----- where the bytes are cut -----

  lemma {:induction false} BoundaryInLonger(a: string, more: string)
    requires Boundary(a) >= 0
    ensures Boundary(a + more) == Boundary(a)
  {
    var b, s := Boundary(a), a + more;
    assert forall i :: 0 <= i < |a| ==> s[i] == a[i];
    assert Boundary(s) >= 0 by { assert s[b] == '\n' && s[b + 1] == '\n'; }
    assert !(Boundary(s) < b);
  }

  /** Text that arrives later changes nothing about the frames already complete. */
  lemma {:induction false} DrainAppend(st: State, more: string, p: Setting)
    ensures var out, whole := Drain(st, p), Drain(st.(buffer := st.buffer + more), p);
            if out.0.Err? then whole.0 == out.0
            else whole == Prepend(out.0.value, Drain(out.1.(buffer := out.1.buffer + more), p))
    decreases |st.buffer|
  {
    hide Interpret, StripCr, Lines, ReadLines, Utf8.Encode, Boundary;
    var b := Boundary(st.buffer);
    if b < 0 {
      PrependNothing(Drain(st.(buffer := st.buffer + more), p));
    } else {
      BoundaryInLonger(st.buffer, more);
      var frame := StripCr(st.buffer[..b]);
      assert (st.buffer + more)[..b] == st.buffer[..b];
      assert (st.buffer + more)[b + 2..] == st.buffer[b + 2..] + more;
      var advanced := st.(buffer := st.buffer[b + 2..]);
      if |Utf8.Encode(frame)| <= p.maximum {
        if Ignored(frame) {
          DrainAppend(advanced, more, p);
        } else {
          var read := Interpret(p.read, ReadLines(NO_FIELDS, Lines(frame)), st.next, st.requestId);
          if read.Ok? {
            var mid := Accept(advanced, read.value);
            DrainAppend(mid, more, p);
            var out := Drain(mid, p);
            if out.0.Ok? {
              PrependTwice([read.value], out.0.value, Drain(out.1.(buffer := out.1.buffer + more), p));
            }
          }
        }
      }
    }
  }

  predicate TooLarge(r: Result<seq<Json.Object>, StreamError>) { r == Err(EventTooLarge) }

  /**
   * Cutting a chunk in two never changes what is parsed. If the first half is accepted and held no
   * terminal event, the second half is refused for size or gives with the first what one push of both
   * gives, an error too. If the first half is refused, so is one push of both, for the same reason or
   * for broken UTF-8 in the second half, unless the first half was refused for size.
   */
  lemma {:induction false} Cutting(st: State, a: seq<Utf8.Byte>, b: seq<Utf8.Byte>, p: Setting)
    ensures var first, whole := ParseChunk(st, a, p), ParseChunk(st, a + b, p);
            var second := ParseChunk(first.1, b, p);
            && (first.0.Ok? && second.0.Ok? ==> whole == Prepend(first.0.value, second))
            && (first.0.Ok? && !first.1.ended ==>
                  TooLarge(second.0) || whole.0 == Prepend(first.0.value, second).0)
            && (whole.0.Ok? && first.0.Ok? && !first.1.ended ==>
                  TooLarge(second.0) || whole == Prepend(first.0.value, second))
            && (first.0.Err? ==> TooLarge(first.0) || whole.0 == first.0 || whole.0 == Err(Utf8Invalid))
  {
    hide Drain, Boundary, Utf8.Encode, Utf8.Decode;
    Utf8.DecodeSplit(st.decoder, a, b);
    if !st.ended && Utf8.Decode(st.decoder, a).Some? {
      var one := Utf8.Decode(st.decoder, a).value;
      var fed := Feed(st, one);
      var rest := Utf8.Decode(one.decoder, b);
      if rest.Some? {
        FeedTwice(st, one, rest.value);
        var more := WithoutMark(fed.unread, rest.value.output);
        CuttingDecoded(fed, rest.value.decoder, fed.unread && rest.value.output == "", more, p);
      }
      DrainKeepsDecoder(fed, p);
    }
  }

  /** Text that comes in two parts is fed like the text in one. */
  lemma {:induction false} FeedTwice(st: State, one: Utf8.Step, two: Utf8.Step)
    ensures Feed(Feed(st, one), two) == Feed(st, Utf8.Step(two.decoder, one.output + two.output))
  {
    var x, y := one.output, two.output;
    if x == "" {
      assert x + y == y;
      assert st.buffer + "" == st.buffer;
    } else {
      assert (x + y)[0] == x[0] && (x + y)[1..] == x[1..] + y;
      Associative(st.buffer, WithoutMark(st.unread, x), y);
    }
  }

  /** Text sent to a fresh parser arrives whole exactly when it does not begin with a byte order mark. */
  lemma {:induction false} MarkIsDroppedExactly(text: string)
    ensures var step := Utf8.Decode(Utf8.Ready, Utf8.Encode(text));
            && step.Some? && step.value.decoder == Utf8.Ready
            && (Feed(INITIAL, step.value).buffer == text <==> text == "" || text[0] != BYTE_ORDER_MARK)
            && (text != "" && text[0] == BYTE_ORDER_MARK ==> Feed(INITIAL, step.value).buffer == text[1..])
  {
    hide Utf8.Decode, Utf8.Encode;
    Utf8.DecodeEncode(text);
    assert forall t: string :: "" + t == t;
  }

  lemma {:induction false} DrainKeepsDecoder(st: State, p: Setting)
    ensures Drain(st, p).1.decoder == st.decoder && Drain(st, p).1.unread == st.unread
    ensures Drain(st, p).0.Ok? ==> Boundary(Drain(st, p).1.buffer) < 0
    ensures Boundary(st.buffer) < 0 ==> Drain(st, p) == (Ok([]), st)
    decreases |st.buffer|
  {
    hide Interpret, StripCr, Lines, ReadLines, Utf8.Encode, Boundary;
    var b := Boundary(st.buffer);
    if b >= 0 {
      var frame := StripCr(st.buffer[..b]);
      var advanced := st.(buffer := st.buffer[b + 2..]);
      if Ignored(frame) {
        DrainKeepsDecoder(advanced, p);
      } else {
        var read := Interpret(p.read, ReadLines(NO_FIELDS, Lines(frame)), st.next, st.requestId);
        if read.Ok? { DrainKeepsDecoder(Accept(advanced, read.value), p); }
      }
    }
  }

  /** Feeding more text to the drained parser, against feeding it before draining. */
  lemma {:induction false} CuttingDecoded(fed: State, decoder: Utf8.Decoder, unread: bool, more: string, p: Setting)
    ensures var out := Drain(fed, p);
            var whole := Drain(fed.(decoder := decoder, unread := unread, buffer := fed.buffer + more), p);
            if out.0.Err? then whole.0 == out.0
            else
              whole == Prepend(out.0.value,
                Drain(out.1.(decoder := decoder, unread := unread, buffer := out.1.buffer + more), p))
    ensures Boundary(fed.buffer) >= 0 ==> Boundary(fed.buffer + more) >= 0
    ensures Boundary(fed.buffer) < 0 ==> Drain(fed, p) == (Ok([]), fed)
  {
    hide Drain, Boundary;
    var there := fed.(decoder := decoder, unread := unread);
    DrainAppend(there, more, p);
    DecoderIsIdle(fed, decoder, unread, p);
    DrainKeepsDecoder(fed, p);
    if Boundary(fed.buffer) >= 0 { BoundaryInLonger(fed.buffer, more); }
  }

  function Moved(st: State, decoder: Utf8.Decoder, unread: bool): State { st.(decoder := decoder, unread := unread) }

  /** Draining neither asks nor changes what the decoder is waiting for. */
  lemma {:induction false} DecoderIsIdle(st: State, decoder: Utf8.Decoder, unread: bool, p: Setting)
    ensures Drain(Moved(st, decoder, unread), p) ==
            (Drain(st, p).0, Moved(Drain(st, p).1, decoder, unread))
    decreases |st.buffer|, 1
  {
    hide Interpret, StripCr, Lines, ReadLines, Utf8.Encode, Boundary, Accept, Ignored, Prepend;
    var b := Boundary(st.buffer);
    if b >= 0 {
      var frame := StripCr(st.buffer[..b]);
      var advanced := st.(buffer := st.buffer[b + 2..]);
      assert Moved(st, decoder, unread).(buffer := st.buffer[b + 2..]) == Moved(advanced, decoder, unread);
      if |Utf8.Encode(frame)| <= p.maximum {
        if Ignored(frame) {
          DecoderIsIdle(advanced, decoder, unread, p);
        } else {
          var read := Interpret(p.read, ReadLines(NO_FIELDS, Lines(frame)), st.next, st.requestId);
          if read.Ok? { IdleAfter(st, read.value, decoder, unread, p); }
        }
      }
    }
  }

  lemma {:induction false} IdleAfter(st: State, o: Json.Object, decoder: Utf8.Decoder, unread: bool, p: Setting)
    requires Boundary(st.buffer) >= 0
    requires var frame := StripCr(st.buffer[..Boundary(st.buffer)]);
             && |Utf8.Encode(frame)| <= p.maximum && !Ignored(frame)
             && Interpret(p.read, ReadLines(NO_FIELDS, Lines(frame)), st.next, st.requestId) == Ok(o)
    ensures Drain(Moved(st, decoder, unread), p) ==
            (Drain(st, p).0, Moved(Drain(st, p).1, decoder, unread))
    decreases |st.buffer|, 0
  {
    hide Interpret, StripCr, Lines, ReadLines, Utf8.Encode, Boundary, Ignored, Drain;
    var advanced := st.(buffer := st.buffer[Boundary(st.buffer) + 2..]);
    DrainStep(st, p);
    DrainStep(Moved(st, decoder, unread), p);
    AcceptKeepsBuffer(advanced, o);
    DecoderIsIdle(Accept(advanced, o), decoder, unread, p);
  }
}
