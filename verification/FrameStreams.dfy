/**
 * The receive loop over whole runs. Chunks are delivered while the loop is suspended in a message
 * handler, so a run is any interleaving of deliveries and turns of the loop, up to its first throw.
 */
module FrameStreams {
  import opened Prelude
  import opened BinaryFraming
  import opened FrameReassembler

  datatype Event =
    | Deliver(chunk: Buffer)
    | Turned(turn: Turn, after: seq<Buffer>)

  datatype Conn = Conn(chunks: seq<Buffer>, emitted: seq<Message>, dropped: bool)

  function Apply(c: Conn, e: Event): Conn {
    match e
    case Deliver(chunk) => c.(chunks := c.chunks + [chunk])
    case Turned(Throws, _) => c.(chunks := [], dropped := true)
    case Turned(Waits, after) => c.(chunks := after)
    case Turned(Emits(message), after) => c.(chunks := after, emitted := c.emitted + [message])
  }

  function Run(es: seq<Event>): Conn {
    if es == [] then Conn([], [], false) else Apply(Run(es[..|es| - 1]), es[|es| - 1])
  }

  /** The first frame, if its header is there, is required to have a positive size. */
  predicate Forward(codec: Codec, b: Buffer) {
    FirstHeader(codec, b).Some? ==> var required := FirstRequired(codec, b); required.Some? && required.value > 0
  }

  /** A turn that meets no frame whose required size is 0, negative or NaN. */
  ghost predicate ForwardTurn(codec: Codec, before: seq<Buffer>, turn: Turn, after: seq<Buffer>) {
    TurnStep(codec, before, turn, after) && Forward(codec, Flat(before))
  }

  ghost predicate LegalRun(codec: Codec, es: seq<Event>) {
    es != [] ==>
      var before := es[..|es| - 1];
      var e := es[|es| - 1];
      && LegalRun(codec, before) && !Run(before).dropped
      && (e.Turned? ==> ForwardTurn(codec, Run(before).chunks, e.turn, e.after))
  }

  /** All bytes delivered in a run, in order. */
  function Delivered(es: seq<Event>): Buffer {
    if es == [] then []
    else
      var e := es[|es| - 1];
      Delivered(es[..|es| - 1]) + if e.Deliver? then e.chunk else []
  }

  ghost predicate AllAtLeast(es: seq<Event>, k: nat) {
    forall i | 0 <= i < |es| && es[i].Deliver? :: |es[i].chunk| >= k
  }

  /** What the loop leaves lying around between turns when no delivery is narrow. */
  ghost predicate Wide(chunks: seq<Buffer>) {
    (|chunks| == 1 ==> chunks[0] != []) && (|chunks| > 1 ==> |Flat(chunks)| >= 8)
  }

  lemma WideIsNoShortHead(chunks: seq<Buffer>)
    requires Wide(chunks)
    ensures !ShortHead(chunks)
  {
    OneChunkIsNoShortHead(chunks);
  }

  lemma FlatGrows(chunks: seq<Buffer>, chunk: Buffer)
    ensures Flat(chunks + [chunk]) == Flat(chunks) + chunk
  {
    assert (chunks + [chunk])[..|chunks|] == chunks;
  }

  lemma StaysWide(codec: Codec, c: Conn, e: Event)
    requires Wide(c.chunks)
    requires match e
             case Deliver(chunk) => |chunk| >= 7
             case Turned(turn, after) => TurnStep(codec, c.chunks, turn, after)
    ensures Wide(Apply(c, e).chunks)
  {
    if e.Deliver? {
      FlatGrows(c.chunks, e.chunk);
      if |c.chunks| == 1 {
        FlatOne(c.chunks[0]);
        assert c.chunks == [c.chunks[0]];
      }
    }
  }

  /** Deliveries of at least seven bytes never leave the loop with a head too short to read. */
  lemma {:induction false} SevenBytesSuffice(codec: Codec, es: seq<Event>)
    requires LegalRun(codec, es) && AllAtLeast(es, 7)
    ensures Wide(Run(es).chunks)
  {
    if es != [] {
      var before, e := es[..|es| - 1], es[|es| - 1];
      assert AllAtLeast(before, 7) by {
        assert forall i | 0 <= i < |before| :: before[i] == es[i];
      }
      SevenBytesSuffice(codec, before);
      StaysWide(codec, Run(before), e);
    }
  }

  /** A run whose deliveries have six bytes each, after which the next turn throws. */
  function NarrowRun(): seq<Event> {
    [Deliver([65, 65, 65, 65, NEWLINE, 65]), Turned(Emits(Line([65, 65, 65, 65])), [[65]]),
     Deliver([65, 65, 65, 65, 65, 65])]
  }

  lemma RunExtends(codec: Codec, es: seq<Event>, e: Event)
    requires LegalRun(codec, es) && !Run(es).dropped
    requires e.Turned? ==> ForwardTurn(codec, Run(es).chunks, e.turn, e.after)
    ensures LegalRun(codec, es + [e]) && Run(es + [e]) == Apply(Run(es), e)
  {
    assert (es + [e])[..|es|] == es;
  }

  lemma LineThenLetter(codec: Codec, b: Buffer)
    requires b == [65, 65, 65, 65, NEWLINE, 65]
    ensures DecodeNext(codec, b) == Got(Line([65, 65, 65, 65]), 5) && Leftover(b, 5) == [[65]] && Forward(codec, b)
  {
    assert NewlineAt(b) == 4 by {
      assert b[4] == NEWLINE;
    }
    assert b[..4] == [65, 65, 65, 65] && b[5..] == [65];
  }

  /** Delivering one chunk to a fresh connection and taking one message off it. */
  lemma OneMessage(codec: Codec, b: Buffer)
    requires DecodeNext(codec, b).Got? && DecodeNext(codec, b).length <= |b| && Forward(codec, b)
    ensures var next := DecodeNext(codec, b);
            var left := Leftover(b, next.length);
            var es := [Deliver(b)] + [Turned(Emits(next.message), left)];
            LegalRun(codec, es) && Run(es) == Conn(left, [next.message], false)
  {
    RunExtends(codec, [], Deliver(b));
    assert [] + [Deliver(b)] == [Deliver(b)] && [] + [b] == [b];
    FlatOne(b);
    OneChunkIsNoShortHead([b]);
    var next := DecodeNext(codec, b);
    RunExtends(codec, [Deliver(b)], Turned(Emits(next.message), Leftover(b, next.length)));
  }

  lemma SixBytesDoNotSuffice(codec: Codec)
    ensures LegalRun(codec, NarrowRun()) && AllAtLeast(NarrowRun(), 6) && ShortHead(Run(NarrowRun()).chunks)
  {
    var b: Buffer := [65, 65, 65, 65, NEWLINE, 65];
    var six: Buffer := [65, 65, 65, 65, 65, 65];
    var es := FirstLine(codec, b);
    SixMore(codec, es, six);
    assert es + [Deliver(six)] == NarrowRun();
  }

  lemma FirstLine(codec: Codec, b: Buffer) returns (es: seq<Event>)
    requires b == [65, 65, 65, 65, NEWLINE, 65]
    ensures es == [Deliver(b)] + [Turned(Emits(Line([65, 65, 65, 65])), [[65]])]
    ensures LegalRun(codec, es) && !Run(es).dropped && Run(es).chunks == [[65]]
  {
    LineThenLetter(codec, b);
    OneMessage(codec, b);
    es := [Deliver(b)] + [Turned(Emits(Line([65, 65, 65, 65])), [[65]])];
  }

  lemma SixMore(codec: Codec, es: seq<Event>, six: Buffer)
    requires LegalRun(codec, es) && !Run(es).dropped && Run(es).chunks == [[65]] && |six| == 6
    ensures LegalRun(codec, es + [Deliver(six)]) && ShortHead(Run(es + [Deliver(six)]).chunks)
  {
    RunExtends(codec, es, Deliver(six));
    LetterThenSix(six);
  }

  lemma LetterThenSix(six: Buffer)
    requires |six| == 6
    ensures ShortHead([[65]] + [six])
  {
    FlatOne([65]);
    FlatGrows([[65]], six);
  }

  /** The least delivery size that keeps every run clear of short heads is exactly seven bytes. */
  lemma NoShortHeadIff(codec: Codec, k: nat)
    ensures k >= 7 <==> forall es | LegalRun(codec, es) && AllAtLeast(es, k) :: !ShortHead(Run(es).chunks)
  {
    if k >= 7 {
      forall es | LegalRun(codec, es) && AllAtLeast(es, k) ensures !ShortHead(Run(es).chunks) {
        SevenBytesSuffice(codec, es);
        WideIsNoShortHead(Run(es).chunks);
      }
    } else {
      SixBytesDoNotSuffice(codec);
      assert AllAtLeast(NarrowRun(), k);
    }
  }

  // ---------------------------------------------------------------- refinement of front-to-back decoding

  /**
   * What was emitted so far, followed by decoding the bytes at hand and whatever is still to come, is a
   * front-to-back decoding of the whole.
   */
  ghost predicate Refines(codec: Codec, c: Conn, whole: Buffer, tail: Buffer) {
    var stream := DecodeAll(codec, whole);
    if c.dropped then stream.stop == Malformed && stream.messages == c.emitted
    else stream == Prepend(c.emitted, DecodeAll(codec, Flat(c.chunks) + tail))
  }

  lemma EmitRefines(codec: Codec, b: Buffer, tail: Buffer, emitted: seq<Message>)
    requires DecodeNext(codec, b).Got? && Forward(codec, b)
    ensures var next := DecodeNext(codec, b);
            next.length <= |b| &&
            Prepend(emitted, DecodeAll(codec, b + tail))
            == Prepend(emitted + [next.message], DecodeAll(codec, Flat(Leftover(b, next.length)) + tail))
  {
    NextStable(codec, b, tail);
    ProgressIff(codec, b);
    Unfold(codec, b + tail, emitted);
    var n := DecodeNext(codec, b).length;
    assert (b + tail)[n..] == b[n..] + tail;
  }

  lemma ThrowRefines(codec: Codec, b: Buffer, tail: Buffer, emitted: seq<Message>)
    requires DecodeNext(codec, b) == Stopped(Malformed)
    ensures var stream := Prepend(emitted, DecodeAll(codec, b + tail));
            stream.stop == Malformed && stream.messages == emitted
  {
    NextStable(codec, b, tail);
  }

  /** One turn refines, whatever bytes are still to come. */
  lemma TurnRefines(codec: Codec, c: Conn, turn: Turn, after: seq<Buffer>, whole: Buffer, tail: Buffer)
    requires !c.dropped && !ShortHead(c.chunks) && ForwardTurn(codec, c.chunks, turn, after)
    requires Refines(codec, c, whole, tail)
    ensures Refines(codec, Apply(c, Turned(turn, after)), whole, tail)
  {
    var b := Flat(c.chunks);
    match turn
    case Throws => ThrowRefines(codec, b, tail, c.emitted);
    case Waits => FlatOne(b);
    case Emits(message) => EmitRefines(codec, b, tail, c.emitted);
  }

  lemma DeliveryRefines(codec: Codec, c: Conn, chunk: Buffer, whole: Buffer, tail: Buffer)
    requires !c.dropped && Refines(codec, c, whole, chunk + tail)
    ensures Refines(codec, Apply(c, Deliver(chunk)), whole, tail)
  {
    FlatGrows(c.chunks, chunk);
    assert Flat(c.chunks) + (chunk + tail) == Flat(c.chunks) + chunk + tail;
  }

  /**
   * Every run over wide deliveries refines front-to-back decoding of the delivered bytes followed by
   * anything: what has been emitted is final.
   */
  lemma {:induction false} RunRefines(codec: Codec, es: seq<Event>, tail: Buffer)
    requires LegalRun(codec, es) && AllAtLeast(es, 7)
    ensures Refines(codec, Run(es), Delivered(es) + tail, tail)
  {
    if es == [] {
      assert [] + tail == tail;
      assert Prepend([], DecodeAll(codec, tail)) == DecodeAll(codec, tail);
    } else {
      var before, e := es[..|es| - 1], es[|es| - 1];
      assert AllAtLeast(before, 7) by {
        assert forall i | 0 <= i < |before| :: before[i] == es[i];
      }
      match e
      case Deliver(chunk) =>
        RunRefines(codec, before, chunk + tail);
        assert Delivered(before) + (chunk + tail) == Delivered(es) + tail;
        DeliveryRefines(codec, Run(before), chunk, Delivered(es) + tail, tail);
      case Turned(turn, after) =>
        RunRefines(codec, before, tail);
        SevenBytesSuffice(codec, before);
        WideIsNoShortHead(Run(before).chunks);
        assert Delivered(es) == Delivered(before);
        TurnRefines(codec, Run(before), turn, after, Delivered(es) + tail, tail);
    }
  }

  /** The loop has nothing left to do until more bytes arrive. */
  ghost predicate Quiescent(codec: Codec, c: Conn) {
    !c.dropped && DecodeNext(codec, Flat(c.chunks)) == Stopped(Waiting)
  }

  /** A quiescent run has emitted exactly the messages of the delivered bytes, and holds exactly their rest. */
  lemma QuiescentRunIsDecoded(codec: Codec, es: seq<Event>)
    requires LegalRun(codec, es) && AllAtLeast(es, 7) && Quiescent(codec, Run(es))
    ensures DecodeAll(codec, Delivered(es)) == Stream(Run(es).emitted, Flat(Run(es).chunks), Waiting)
  {
    RunRefines(codec, es, []);
    assert Delivered(es) + [] == Delivered(es) && Flat(Run(es).chunks) + [] == Flat(Run(es).chunks);
  }

  /** A run drops the connection's bytes only on a malformed header, after emitting all that came before it. */
  lemma DroppedIsMalformed(codec: Codec, es: seq<Event>)
    requires LegalRun(codec, es) && AllAtLeast(es, 7) && Run(es).dropped
    ensures DecodeAll(codec, Delivered(es)).stop == Malformed
    ensures DecodeAll(codec, Delivered(es)).messages == Run(es).emitted
  {
    RunRefines(codec, es, []);
    assert Delivered(es) + [] == Delivered(es);
  }

  /** How the bytes were cut into deliveries, and when the loop ran, makes no difference. */
  lemma FragmentationIrrelevant(codec: Codec, one: seq<Event>, other: seq<Event>)
    requires LegalRun(codec, one) && AllAtLeast(one, 7) && Quiescent(codec, Run(one))
    requires LegalRun(codec, other) && AllAtLeast(other, 7) && Quiescent(codec, Run(other))
    requires Delivered(one) == Delivered(other)
    ensures Run(one).emitted == Run(other).emitted
    ensures Flat(Run(one).chunks) == Flat(Run(other).chunks)
  {
    QuiescentRunIsDecoded(codec, one);
    QuiescentRunIsDecoded(codec, other);
  }

  // ---------------------------------------------------------------- streams of frames and lines

  datatype Outgoing = SentFrame(metadata: Json, payload: Buffer) | SentLine(text: Buffer)

  /** A frame with a header that can carry its size, or a line without a newline that is not taken for a frame. */
  ghost predicate Sendable(codec: Codec, out: Outgoing) {
    match out
    case SentFrame(metadata, payload) => metadata.JObj? && Encodable(codec, metadata, payload)
    case SentLine(text) => 10 !in text && (|text| >= 4 ==> text[..4] != [0x53, 0x57, 0x52, 0x4D])
  }

  ghost predicate AllSendable(codec: Codec, outs: seq<Outgoing>) {
    outs != [] ==> Sendable(codec, outs[0]) && AllSendable(codec, outs[1..])
  }

  /** The bytes of one message: a frame's encoding, or a line and its newline. */
  ghost function OnWire(codec: Codec, out: Outgoing): Buffer
    requires Sendable(codec, out)
  {
    match out
    case SentFrame(metadata, payload) => Encoded(codec, metadata, payload)
    case SentLine(text) => text + [10]
  }

  ghost function Wire(codec: Codec, outs: seq<Outgoing>): Buffer
    requires AllSendable(codec, outs)
  {
    if outs == [] then [] else OnWire(codec, outs[0]) + Wire(codec, outs[1..])
  }

  function ReceivedAs(out: Outgoing): Message {
    match out
    case SentFrame(metadata, payload) => Binary(Stamp(metadata, |payload|), payload)
    case SentLine(text) => Line(text)
  }

  function Received(outs: seq<Outgoing>): seq<Message> {
    if outs == [] then [] else [ReceivedAs(outs[0])] + Received(outs[1..])
  }

  /** The limits decodeBinaryFrame imposes and the loop does not. */
  predicate WithinLimits(b: Buffer, metadata: Json)
    requires |b| >= 8
  {
    && 1 <= ReadU32(b, 4) <= MAX_JSON_HEADER_SIZE
    && match Declaration(metadata)
       case None => |b| == HEADER_SIZE + ReadU32(b, 4)
       case Some(JNum(n)) => 0 <= n <= MAX_PAYLOAD_SIZE
       case Some(_) => false
  }

  /**
   * The two decoders agree on a frame the loop takes exactly within the limits of decodeBinaryFrame;
   * without a declaration, only on a frame that ends the buffer.
   */
  lemma DecodersAgreeIff(codec: Codec, b: Buffer, m: Json, p: Buffer, n: nat)
    requires StartsBinary(b) && |b| >= 8 && DecodeNext(codec, b) == Got(Binary(m, p), n)
    ensures DecodeBinaryFrame(codec, b) == Frame(m, p, n) <==> WithinLimits(b, m)
  {
  }

  /** What decodeBinaryFrame has seen when it takes a frame that declares its size. */
  lemma TakenFrame(codec: Codec, b: Buffer, m: Json, p: Buffer, n: nat)
    requires DecodeBinaryFrame(codec, b) == Frame(m, p, n) && Declaration(m).Some?
    ensures |b| >= 8 && StartsBinary(b) && m != JNull
    ensures var headed := 8 + ReadU32(b, 4);
            && headed <= n <= |b| && p == b[headed..n]
            && codec.parse(b[8..headed]) == Some(m) && RequiredSize(codec, m, headed) == Some(n)
  {
  }

  /** The loop takes every frame decodeBinaryFrame takes that declares its size. */
  lemma LoopTakesFrames(codec: Codec, b: Buffer, m: Json, p: Buffer, n: nat)
    requires DecodeBinaryFrame(codec, b) == Frame(m, p, n) && Declaration(m).Some?
    ensures DecodeNext(codec, b) == Got(Binary(m, p), n)
  {
    TakenFrame(codec, b, m, p, n);
    assert PayloadNext(m, b, 8 + ReadU32(b, 4), Some(n)) == Got(Binary(m, p), n);
  }

  lemma LineTaken(codec: Codec, text: Buffer, rest: Buffer)
    requires 10 !in text && (|text| >= 4 ==> text[..4] != [0x53, 0x57, 0x52, 0x4D])
    ensures DecodeNext(codec, text + [10] + rest) == Got(Line(text), |text| + 1)
  {
    var b := text + [10] + rest;
    assert b[|text|] == 10 && forall i | 0 <= i < |text| :: b[i] == text[i];
    if |text| >= 4 {
      assert b[..4] == text[..4];
    }
    if StartsBinary(b) {
      MagicBytes(b);
    }
    assert NewlineAt(b) == |text|;
    assert b[..|text|] == text;
  }

  lemma FrameTaken(codec: Codec, metadata: Json, payload: Buffer, rest: Buffer)
    requires codec.Lawful() && metadata.JObj? && Encodable(codec, metadata, payload)
    ensures var frame := Encoded(codec, metadata, payload);
            DecodeNext(codec, frame + rest) == Got(Binary(Stamp(metadata, |payload|), payload), |frame|)
  {
    DecodeInvertsEncode(codec, metadata, payload, rest);
    StampDeclares(metadata, |payload|);
    var frame := Encoded(codec, metadata, payload);
    LoopTakesFrames(codec, frame + rest, Stamp(metadata, |payload|), payload, |frame|);
  }

  lemma {:induction false} WireDecodes(codec: Codec, outs: seq<Outgoing>)
    requires codec.Lawful()
    requires AllSendable(codec, outs)
    ensures DecodeAll(codec, Wire(codec, outs)) == Stream(Received(outs), [], Waiting)
  {
    if outs != [] {
      var first, rest := OnWire(codec, outs[0]), Wire(codec, outs[1..]);
      match outs[0] {
        case SentFrame(metadata, payload) => FrameTaken(codec, metadata, payload, rest);
        case SentLine(text) => LineTaken(codec, text, rest);
      }
      WireDecodes(codec, outs[1..]);
      assert (first + rest)[|first|..] == rest;
    }
  }

  /** The loop's last turn found nothing complete, and nothing has been delivered since. */
  predicate EndsWaiting(es: seq<Event>) {
    es != [] && es[|es| - 1].Turned? && es[|es| - 1].turn.Waits?
  }

  lemma EndsQuiescent(codec: Codec, es: seq<Event>)
    requires LegalRun(codec, es) && AllAtLeast(es, 7) && EndsWaiting(es)
    ensures Quiescent(codec, Run(es))
  {
    var before, e := es[..|es| - 1], es[|es| - 1];
    FlatOne(Flat(Run(before).chunks));
    assert TurnStep(codec, Run(before).chunks, e.turn, e.after);
  }

  /**
   * Frames and lines sent one after the other arrive whole and in order, however the bytes are cut and
   * timed: what has been emitted is what was sent so far, and all of it once the loop waits for more.
   */
  lemma MessagesArrive(codec: Codec, outs: seq<Outgoing>, es: seq<Event>)
    requires codec.Lawful()
    requires AllSendable(codec, outs)
    requires LegalRun(codec, es) && AllAtLeast(es, 7) && Delivered(es) == Wire(codec, outs)
    ensures !Run(es).dropped
    ensures Run(es).emitted <= Received(outs)
    ensures EndsWaiting(es) ==> Run(es).emitted == Received(outs) && Flat(Run(es).chunks) == []
  {
    WireDecodes(codec, outs);
    RunRefines(codec, es, []);
    assert Delivered(es) + [] == Delivered(es) && Flat(Run(es).chunks) + [] == Flat(Run(es).chunks);
    if EndsWaiting(es) {
      EndsQuiescent(codec, es);
    }
  }
}
