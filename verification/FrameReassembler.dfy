/**
 * The socket's receive loop: a list of received chunks from which binary frames and text lines are
 * taken as soon as they are complete.
 */
module FrameReassembler {
  import opened Prelude
  import opened BinaryFraming

  const NEWLINE: Byte := 10

  datatype Message =
    | Binary(metadata: Json, payload: Buffer)
    | Line(text: Buffer)

  predicate StartsBinary(b: Buffer) {
    |b| >= 4 && ReadU32(b, 0) == MAGIC
  }

  /** The position of the first newline, or the length if there is none. */
  function NewlineAt(b: Buffer): (i: nat)
    ensures i <= |b| && (i < |b| ==> b[i] == NEWLINE) && forall k | 0 <= k < i :: b[k] != NEWLINE
  {
    if b == [] || b[0] == NEWLINE then 0 else 1 + NewlineAt(b[1..])
  }

  // ---------------------------------------------------------------- decoding one contiguous buffer

  /** 8 + jsonLen + declaredPayload, with its `?? 0`; None is NaN. */
  function RequiredSize(codec: Codec, metadata: Json, headed: nat): Option<int> {
    match Declaration(metadata)
    case None => Some(headed)
    case Some(JNull) => Some(headed)
    case Some(JNum(n)) => Some(headed + n)
    case Some(other) => codec.plus(headed, other)
  }

  /** The position an argument of subarray stands for: NaN is 0, negative ones count from the end. */
  function Position(b: Buffer, at: Option<int>): (p: nat)
    ensures p <= |b|
  {
    if at == None then 0
    else if at.value >= 0 then Min(at.value, |b|)
    else Max(0, |b| + at.value)
  }

  /** completeBuffer.subarray(headed, required) */
  function PayloadOf(b: Buffer, headed: nat, required: Option<int>): Buffer {
    var to := Position(b, required);
    if headed < to then b[headed..to] else []
  }

  /** The bytes a frame takes off the front: up to its required size if more has arrived, else everything. */
  function TakenBy(b: Buffer, required: Option<int>): (n: nat)
    ensures n <= |b|
  {
    if required.Some? && |b| > required.value then Position(b, required) else |b|
  }

  /** Why a decoder stops: more bytes are needed, a header is unusable, or a frame takes no bytes. */
  datatype Stop = Waiting | Malformed | Spinning

  datatype Next = Got(message: Message, length: nat) | Stopped(stop: Stop)

  /** The frame at the front of a buffer that holds its magic and header length. A null header is as bad as none. */
  function FrameNext(codec: Codec, b: Buffer): Next
    requires |b| >= 8
  {
    var headed := 8 + ReadU32(b, 4);
    if |b| < headed then Stopped(Waiting)
    else match codec.parse(b[8..headed])
      case None => Stopped(Malformed)
      case Some(JNull) => Stopped(Malformed)
      case Some(metadata) => PayloadNext(metadata, b, headed, RequiredSize(codec, metadata, headed))
  }

  function PayloadNext(metadata: Json, b: Buffer, headed: nat, required: Option<int>): Next {
    if required.Some? && |b| < required.value then Stopped(Waiting)
    else Got(Binary(metadata, PayloadOf(b, headed, required)), TakenBy(b, required))
  }

  /** The first message of a buffer, and how many bytes it takes up. */
  function DecodeNext(codec: Codec, b: Buffer): Next {
    if b == [] then Stopped(Waiting)
    else if StartsBinary(b) then
      if |b| < 8 then Stopped(Waiting) else FrameNext(codec, b)
    else
      var i := NewlineAt(b);
      if i == |b| then Stopped(Waiting) else Got(Line(b[..i]), i + 1)
  }

  /** The header of the first frame, if all of it is there and it is JSON. */
  function FirstHeader(codec: Codec, b: Buffer): Option<Json> {
    if StartsBinary(b) && 8 <= |b| && 8 + ReadU32(b, 4) <= |b| then codec.parse(b[8..8 + ReadU32(b, 4)]) else None
  }

  /** The size that header's frame is required to have. */
  function FirstRequired(codec: Codec, b: Buffer): Option<int>
    requires FirstHeader(codec, b).Some?
  {
    RequiredSize(codec, FirstHeader(codec, b).value, 8 + ReadU32(b, 4))
  }

  /** The first frame declares that it ends before the buffer starts, or at NaN. */
  predicate Backward(codec: Codec, b: Buffer) {
    FirstHeader(codec, b).Some? && var required := FirstRequired(codec, b); required == None || required.value < 0
  }

  datatype Stream = Stream(messages: seq<Message>, rest: Buffer, stop: Stop)

  /** A message takes bytes off the front, except a frame that declares it ends at or before the buffer's start. */
  lemma ProgressIff(codec: Codec, b: Buffer)
    requires DecodeNext(codec, b).Got?
    ensures DecodeNext(codec, b).length <= |b|
    ensures DecodeNext(codec, b).length == 0 <==>
            && FirstHeader(codec, b).Some?
            && var required := FirstRequired(codec, b);
               required.Some? && (required.value == 0 || required.value <= -|b|)
  {
  }

  /** Decoding a contiguous buffer from front to back. */
  function DecodeAll(codec: Codec, b: Buffer): Stream
    decreases |b|
  {
    match DecodeNext(codec, b)
    case Stopped(stop) => Stream([], b, stop)
    case Got(m, n) =>
      ProgressIff(codec, b);
      if n == 0 then Stream([], b, Spinning) else Prepend([m], DecodeAll(codec, b[n..]))
  }

  function Prepend(messages: seq<Message>, s: Stream): Stream {
    s.(messages := messages + s.messages)
  }

  /** One message decoded, the rest still to come. */
  lemma Unfold(codec: Codec, b: Buffer, before: seq<Message>)
    requires DecodeNext(codec, b).Got? && DecodeNext(codec, b).length > 0
    ensures var next := DecodeNext(codec, b);
            next.length <= |b|
            && Prepend(before, DecodeAll(codec, b))
               == Prepend(before + [next.message], DecodeAll(codec, b[next.length..]))
  {
    var next := DecodeNext(codec, b);
    ProgressIff(codec, b);
    var s := DecodeAll(codec, b[next.length..]);
    assert before + ([next.message] + s.messages) == before + [next.message] + s.messages;
  }

  lemma MagicBytes(b: Buffer)
    requires StartsBinary(b)
    ensures b[0] == 0x53 && b[1] == 0x57 && b[2] == 0x52 && b[3] == 0x4D
    ensures b[..4] == [0x53, 0x57, 0x52, 0x4D]
  {
  }

  lemma {:induction false} NewlineStable(b: Buffer, tail: Buffer)
    requires NewlineAt(b) < |b|
    ensures NewlineAt(b + tail) == NewlineAt(b)
  {
    var i, j := NewlineAt(b), NewlineAt(b + tail);
    assert (b + tail)[i] == NEWLINE;
    assert forall k | 0 <= k < i :: (b + tail)[k] == b[k];
  }

  lemma SameHead(b: Buffer, tail: Buffer)
    ensures |b| >= 4 ==> ReadU32(b + tail, 0) == ReadU32(b, 0)
    ensures |b| >= 8 ==> ReadU32(b + tail, 4) == ReadU32(b, 4)
  {
    assert forall i | 0 <= i < |b| :: (b + tail)[i] == b[i];
  }

  lemma HeaderStable(codec: Codec, b: Buffer, tail: Buffer)
    requires StartsBinary(b) && 8 <= |b| && 8 + ReadU32(b, 4) <= |b|
    ensures StartsBinary(b + tail) && ReadU32(b + tail, 4) == ReadU32(b, 4)
    ensures (b + tail)[8..8 + ReadU32(b, 4)] == b[8..8 + ReadU32(b, 4)]
  {
    SameHead(b, tail);
  }

  lemma PayloadStable(metadata: Json, b: Buffer, tail: Buffer, headed: nat, required: int)
    requires 0 <= required <= |b|
    ensures PayloadNext(metadata, b + tail, headed, Some(required)) == PayloadNext(metadata, b, headed, Some(required))
  {
    if headed <= required {
      assert (b + tail)[headed..required] == b[headed..required];
    }
  }

  lemma FrameStable(codec: Codec, b: Buffer, tail: Buffer)
    requires StartsBinary(b) && DecodeNext(codec, b) != Stopped(Waiting) && !Backward(codec, b)
    ensures DecodeNext(codec, b + tail) == DecodeNext(codec, b)
  {
    HeaderStable(codec, b, tail);
    if DecodeNext(codec, b).Got? {
      var required := FirstRequired(codec, b);
      assert DecodeNext(codec, b) == FrameNext(codec, b);
      PayloadStable(FirstHeader(codec, b).value, b, tail, 8 + ReadU32(b, 4), required.value);
    }
  }

  lemma LineStable(codec: Codec, b: Buffer, tail: Buffer)
    requires !StartsBinary(b) && DecodeNext(codec, b) != Stopped(Waiting)
    ensures !StartsBinary(b + tail) && DecodeNext(codec, b + tail) == DecodeNext(codec, b)
  {
    NewlineStable(b, tail);
    SameHead(b, tail);
    if StartsBinary(b + tail) {
      MagicBytes(b + tail);
    }
    assert (b + tail)[..NewlineAt(b)] == b[..NewlineAt(b)];
  }

  lemma NextStable(codec: Codec, b: Buffer, tail: Buffer)
    requires DecodeNext(codec, b) != Stopped(Waiting) && !Backward(codec, b)
    ensures DecodeNext(codec, b + tail) == DecodeNext(codec, b)
  {
    if StartsBinary(b) {
      FrameStable(codec, b, tail);
    } else {
      LineStable(codec, b, tail);
    }
  }

  /** More bytes than a backward frame reaches back: it takes others than it took without them. */
  lemma BackwardUnstable(codec: Codec, b: Buffer) returns (tail: Buffer)
    requires DecodeNext(codec, b) != Stopped(Waiting) && Backward(codec, b)
    ensures DecodeNext(codec, b + tail) != DecodeNext(codec, b)
  {
    var required := FirstRequired(codec, b);
    tail := seq(if required == None then 1 else 1 - required.value, _ => NEWLINE);
    HeaderStable(codec, b, tail);
  }

  /** A complete first message does not depend on what follows it, exactly unless it is a backward frame. */
  lemma NextStableIff(codec: Codec, b: Buffer)
    requires DecodeNext(codec, b) != Stopped(Waiting)
    ensures (forall tail :: DecodeNext(codec, b + tail) == DecodeNext(codec, b)) <==> !Backward(codec, b)
  {
    if Backward(codec, b) {
      var tail := BackwardUnstable(codec, b);
    } else {
      forall tail ensures DecodeNext(codec, b + tail) == DecodeNext(codec, b) {
        NextStable(codec, b, tail);
      }
    }
  }

  // ---------------------------------------------------------------- the chunk list

  function Flat(chunks: seq<Buffer>): Buffer {
    if chunks == [] then [] else Flat(chunks[..|chunks| - 1]) + chunks[|chunks| - 1]
  }

  lemma {:induction false} FlatHead(chunks: seq<Buffer>)
    requires chunks != []
    ensures chunks[0] <= Flat(chunks)
  {
    if |chunks| > 1 {
      FlatHead(chunks[..|chunks| - 1]);
    }
  }

  /** What the first chunk holds is what all the bytes hold there. */
  lemma HeadHolds(chunks: seq<Buffer>, from: nat, to: nat)
    requires chunks != [] && from <= to <= |chunks[0]|
    ensures to <= |Flat(chunks)| && chunks[0][from..to] == Flat(chunks)[from..to]
  {
    FlatHead(chunks);
  }

  lemma HeadReads(chunks: seq<Buffer>)
    requires chunks != []
    ensures |chunks[0]| <= |Flat(chunks)|
    ensures |chunks[0]| >= 4 ==> ReadU32(chunks[0], 0) == ReadU32(Flat(chunks), 0)
    ensures |chunks[0]| >= 8 ==> ReadU32(chunks[0], 4) == ReadU32(Flat(chunks), 4)
  {
    FlatHead(chunks);
    var behind := Flat(chunks)[|chunks[0]|..];
    assert Flat(chunks) == chunks[0] + behind;
    SameHead(chunks[0], behind);
  }

  lemma FlatOne(b: Buffer)
    ensures Flat([b]) == b
  {
    assert [b][..0] == [];
  }

  function Leftover(b: Buffer, n: nat): (chunks: seq<Buffer>)
    requires n <= |b|
    ensures Flat(chunks) == b[n..]
  {
    FlatOne(b[n..]);
    if |b| > n then [b[n..]] else []
  }

  datatype Turn =
    | Waits
    | Emits(message: Message)
    | Throws

  /** The head is too short for the magic read although enough bytes have arrived for it. */
  predicate ShortHead(chunks: seq<Buffer>) {
    chunks != [] && 4 <= |Flat(chunks)| < 8 && |chunks[0]| < 4
  }

  /** One turn of the loop on the chunks `before`, leaving the chunks `after`. */
  ghost predicate TurnStep(codec: Codec, before: seq<Buffer>, turn: Turn, after: seq<Buffer>) {
    var next := DecodeNext(codec, Flat(before));
    match turn
    case Throws => ShortHead(before) || next == Stopped(Malformed)
    case Waits => !ShortHead(before) && next == Stopped(Waiting) && (after == before || Merged(before, after))
    case Emits(message) =>
      && !ShortHead(before) && next.Got? && message == next.message
      && next.length <= |Flat(before)| && after == Leftover(Flat(before), next.length)
  }

  ghost predicate Merged(before: seq<Buffer>, after: seq<Buffer>) {
    |Flat(before)| >= 8 && after == [Flat(before)]
  }

  /** The part of a turn that follows the parsed header. */
  ghost predicate PayloadStep(codec: Codec, metadata: Json, before: seq<Buffer>, headed: nat, turn: Turn,
                              after: seq<Buffer>)
  {
    var b := Flat(before);
    match PayloadNext(metadata, b, headed, RequiredSize(codec, metadata, headed))
    case Stopped(_) => turn.Waits? && after == before
    case Got(message, length) => length <= |b| && turn == Emits(message) && after == Leftover(b, length)
  }

  lemma FrameTurn(codec: Codec, before: seq<Buffer>, mid: seq<Buffer>, metadata: Json, turn: Turn, after: seq<Buffer>)
    requires |Flat(before)| >= 8 && StartsBinary(Flat(before)) && !ShortHead(before)
    requires mid == before || (Merged(before, mid) && Flat(mid) == Flat(before))
    requires var headed := 8 + ReadU32(Flat(before), 4);
             && headed <= |Flat(before)| && codec.parse(Flat(before)[8..headed]) == Some(metadata)
             && metadata != JNull && PayloadStep(codec, metadata, mid, headed, turn, after)
    ensures TurnStep(codec, before, turn, after)
  {
  }

  lemma LineTurn(codec: Codec, before: seq<Buffer>, newline: nat)
    requires !StartsBinary(Flat(before)) && !ShortHead(before) && newline == NewlineAt(Flat(before)) < |Flat(before)|
    ensures TurnStep(codec, before, Emits(Line(Flat(before)[..newline])), Leftover(Flat(before), newline + 1))
  {
  }

  /** A turn that makes no progress repeats itself: the same message again and again. */
  lemma SpinsForever(codec: Codec, before: seq<Buffer>, turn: Turn, after: seq<Buffer>)
    requires TurnStep(codec, before, turn, after) && turn.Emits? && DecodeNext(codec, Flat(before)).length == 0
    ensures Flat(after) == Flat(before) && TurnStep(codec, after, turn, after)
  {
    ProgressIff(codec, Flat(before));
    OneChunkIsNoShortHead(after);
  }

  /** The declared size that makes a frame spin: minus its header with prefix. */
  lemma NegativeSizeSpins(codec: Codec, b: Buffer, metadata: Json)
    requires FirstHeader(codec, b) == Some(metadata) && metadata.JObj?
    requires Declaration(metadata) == Some(JNum(-(8 + ReadU32(b, 4) as int)))
    ensures DecodeNext(codec, b) == Got(Binary(metadata, []), 0)
  {
  }

  class Connection {
    var chunkList: seq<Buffer>
    var totalBufferedBytes: nat

    constructor ()
      ensures Valid() && Flat(chunkList) == []
    {
      chunkList, totalBufferedBytes := [], 0;
    }

    ghost predicate Valid()
      reads this
    {
      totalBufferedBytes == |Flat(chunkList)|
    }

    /** Merges the chunks into one, as Buffer.concat does. */
    method Merge()
      requires Valid()
      modifies this`chunkList
      ensures Valid() && chunkList == [old(Flat(chunkList))] && Flat(chunkList) == old(Flat(chunkList))
    {
      FlatOne(Flat(chunkList));
      chunkList := [Flat(chunkList)];
    }

    method Consume(b: Buffer, n: nat)
      requires n <= |b|
      modifies this
      ensures Valid() && chunkList == Leftover(b, n)
    {
      chunkList := Leftover(b, n);
      totalBufferedBytes := |b| - n;
    }

    /** One turn of the loop: wait for more bytes, take one message off the front, or throw. */
    method TakeTurn(codec: Codec) returns (turn: Turn)
      requires Valid()
      modifies this
      ensures Valid() && TurnStep(codec, old(chunkList), turn, chunkList)
    {
      if totalBufferedBytes == 0 {
        return Waits;
      }
      var firstChunk := chunkList[0];
      if |firstChunk| < 8 && totalBufferedBytes >= 8 {
        Merge();
        firstChunk := chunkList[0];
      }
      if totalBufferedBytes >= 4 && |firstChunk| < 4 {
        return Throws;
      }
      HeadReads(chunkList);
      if totalBufferedBytes >= 4 && ReadU32(firstChunk, 0) == MAGIC {
        if totalBufferedBytes < 8 {
          return Waits;
        }
        turn := TakeFrame(codec, firstChunk);
      } else {
        turn := TakeLine(codec);
      }
    }

    /** The line branch of a turn. */
    method TakeLine(codec: Codec) returns (turn: Turn)
      requires Valid() && Flat(chunkList) != [] && !StartsBinary(Flat(chunkList)) && !ShortHead(chunkList)
      modifies this
      ensures Valid() && TurnStep(codec, old(chunkList), turn, chunkList)
    {
      var textBuf := Flat(chunkList);
      var newline := NewlineAt(textBuf);
      if newline == |textBuf| {
        return Waits;
      }
      LineTurn(codec, chunkList, newline);
      Consume(textBuf, newline + 1);
      turn := Emits(Line(textBuf[..newline]));
    }

    /** The binary branch of a turn, once the magic has been seen and the header length is there. */
    method TakeFrame(codec: Codec, firstChunk: Buffer) returns (turn: Turn)
      requires Valid() && chunkList != [] && chunkList[0] == firstChunk
      requires |firstChunk| >= 8 && |Flat(chunkList)| >= 8 && ReadU32(firstChunk, 4) == ReadU32(Flat(chunkList), 4)
      requires StartsBinary(Flat(chunkList))
      modifies this
      ensures Valid() && TurnStep(codec, old(chunkList), turn, chunkList)
    {
      ghost var before, all := chunkList, Flat(chunkList);
      assert !ShortHead(before) && DecodeNext(codec, all) == FrameNext(codec, all);
      var jsonLen := ReadU32(firstChunk, 4);
      if totalBufferedBytes < 8 + jsonLen {
        return Waits;
      }
      var headerBuf := HeaderBuffer(8 + jsonLen);
      var metadata := codec.parse(headerBuf[8..8 + jsonLen]);
      if metadata == None || metadata == Some(JNull) {
        return Throws;
      }
      ghost var mid := chunkList;
      turn := TakePayload(codec, metadata.value, 8 + jsonLen);
      FrameTurn(codec, before, mid, metadata.value, turn, chunkList);
    }

    /** A chunk that holds the whole header: the first one, merged with the others if it must be. */
    method HeaderBuffer(headed: nat) returns (headerBuf: Buffer)
      requires Valid() && chunkList != [] && 8 <= headed <= |Flat(chunkList)|
      modifies this
      ensures Valid() && Flat(chunkList) == old(Flat(chunkList))
      ensures chunkList == old(chunkList) || Merged(old(chunkList), chunkList)
      ensures headed <= |headerBuf| && headerBuf[8..headed] == Flat(chunkList)[8..headed]
    {
      headerBuf := chunkList[0];
      if |headerBuf| < headed {
        Merge();
        headerBuf := chunkList[0];
      }
      HeadHolds(chunkList, 8, headed);
    }

    /** The end of the binary branch: the header has been parsed, and takes up `headed` bytes with its prefix. */
    method TakePayload(codec: Codec, metadata: Json, headed: nat) returns (turn: Turn)
      requires Valid()
      modifies this
      ensures Valid() && PayloadStep(codec, metadata, old(chunkList), headed, turn, chunkList)
    {
      var requiredFrameSize := RequiredSize(codec, metadata, headed);
      if requiredFrameSize.Some? && totalBufferedBytes < requiredFrameSize.value {
        return Waits;
      }
      var completeBuffer := Flat(chunkList);
      var framePayload := PayloadOf(completeBuffer, headed, requiredFrameSize);
      if requiredFrameSize.Some? && totalBufferedBytes > requiredFrameSize.value {
        Consume(completeBuffer, Position(completeBuffer, requiredFrameSize));
      } else {
        Consume(completeBuffer, |completeBuffer|);
      }
      turn := Emits(Binary(metadata, framePayload));
    }

    /**
     * processBuffer run to its end on what has arrived: exactly the messages a front-to-back decoder
     * finds in the concatenation of the chunks, keeping exactly the bytes it leaves. The buffer is
     * dropped when the head is too short to be read or a frame is malformed.
     */
    method ProcessBuffer(codec: Codec) returns (messages: seq<Message>, thrown: bool)
      requires Valid() && DecodeAll(codec, Flat(chunkList)).stop != Spinning
      modifies this
      ensures Valid()
      ensures Processed(codec, ShortHead(old(chunkList)), old(Flat(chunkList)), messages, thrown)
    {
      messages, thrown := [], false;
      ghost var short := ShortHead(chunkList);
      ghost var stream := DecodeAll(codec, Flat(chunkList));
      while true
        invariant Valid() && ShortHead(chunkList) == short
        invariant short ==> messages == []
        invariant stream == Prepend(messages, DecodeAll(codec, Flat(chunkList)))
        decreases |Flat(chunkList)|
      {
        ghost var b := Flat(chunkList);
        var turn := TakeTurn(codec);
        if turn.Throws? {
          chunkList, totalBufferedBytes := [], 0;
          return messages, true;
        }
        if turn.Waits? {
          FlatOne(b);
          return messages, false;
        }
        Unfold(codec, b, messages);
        OneChunkIsNoShortHead(chunkList);
        messages := messages + [turn.message];
      }
    }

    /** What is returned and left after processing the bytes `b`. */
    ghost predicate Processed(codec: Codec, short: bool, b: Buffer, messages: seq<Message>, thrown: bool)
      reads this
    {
      && (thrown <==> short || DecodeAll(codec, b).stop == Malformed)
      && messages == (if short then [] else DecodeAll(codec, b).messages)
      && Flat(chunkList) == (if thrown then [] else DecodeAll(codec, b).rest)
    }

    /** A `data` event. */
    method OnData(codec: Codec, chunk: Buffer) returns (messages: seq<Message>, thrown: bool)
      requires Valid() && DecodeAll(codec, Flat(chunkList) + chunk).stop != Spinning
      modifies this
      ensures Valid()
      ensures Processed(codec, ShortHead(old(chunkList) + [chunk]), old(Flat(chunkList)) + chunk, messages, thrown)
    {
      assert (chunkList + [chunk])[..|chunkList|] == chunkList;
      chunkList := chunkList + [chunk];
      totalBufferedBytes := totalBufferedBytes + |chunk|;
      messages, thrown := ProcessBuffer(codec);
    }
  }

  lemma OneChunkIsNoShortHead(chunks: seq<Buffer>)
    ensures |chunks| <= 1 ==> !ShortHead(chunks)
  {
    if |chunks| == 1 {
      FlatOne(chunks[0]);
      assert chunks == [chunks[0]];
    }
  }
}
