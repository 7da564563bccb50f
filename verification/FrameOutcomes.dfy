/**
 * What either decoder makes of any bytes at all: of a buffer that starts with the magic, whatever its
 * header says, and of one that does not.
 */
module FrameOutcomes {
  import opened Prelude
  import opened BinaryFraming
  import opened FrameReassembler

  predicate StartsWithMagic(b: Buffer) {
    |b| >= 4 && b[..4] == [0x53, 0x57, 0x52, 0x4D]
  }

  /** The four bytes behind the magic, most significant first. */
  function HeaderLength(b: Buffer): nat
    requires |b| >= 8
  {
    b[4] as int * 0x100_0000 + b[5] as int * 0x1_0000 + b[6] as int * 0x100 + b[7] as int
  }

  lemma MagicRead(b: Buffer)
    requires |b| >= 4
    ensures ReadU32(b, 0) == 0x5357524D <==> StartsWithMagic(b)
    ensures |b| >= 8 ==> ReadU32(b, 4) == HeaderLength(b)
  {
    if ReadU32(b, 0) == 0x5357524D {
      MagicBytes(b);
    }
  }

  // ---------------------------------------------------------------- the receive loop

  /** A frame with a usable header: how many bytes it needs decides what it is given and what it takes. */
  ghost predicate FrameTakes(codec: Codec, b: Buffer, metadata: Json, headed: nat, next: Next)
    requires headed <= |b|
  {
    match Declaration(metadata)
    case None => next == Got(Binary(metadata, []), headed)
    case Some(JNull) => next == Got(Binary(metadata, []), headed)
    case Some(JNum(n)) => Takes(b, metadata, headed, Some(headed + n), next)
    case Some(other) => Takes(b, metadata, headed, codec.plus(headed, other), next)
  }

  /** Up to a required size that is a number of bytes, waiting for them; down from the end for one below zero. */
  ghost predicate Takes(b: Buffer, metadata: Json, headed: nat, required: Option<int>, next: Next)
    requires headed <= |b|
  {
    match required
    case None => next == Got(Binary(metadata, []), |b|)
    case Some(n) =>
      if n > |b| then next == Stopped(Waiting)
      else if n >= headed then next == Got(Binary(metadata, b[headed..n]), n)
      else if n >= 0 then next == Got(Binary(metadata, []), n)
      else if |b| + n > headed then next == Got(Binary(metadata, b[headed..|b| + n]), |b| + n)
      else next == Got(Binary(metadata, []), if |b| + n > 0 then |b| + n else 0)
  }

  lemma TakesWhatIsRequired(b: Buffer, metadata: Json, headed: nat, required: Option<int>)
    requires headed <= |b|
    ensures Takes(b, metadata, headed, required, PayloadNext(metadata, b, headed, required))
  {
    assert b[headed..headed] == [];
  }

  lemma TakesWhatIsDeclared(codec: Codec, b: Buffer, metadata: Json, headed: nat)
    requires headed <= |b|
    ensures FrameTakes(codec, b, metadata, headed,
                       PayloadNext(metadata, b, headed, RequiredSize(codec, metadata, headed)))
  {
    TakesWhatIsRequired(b, metadata, headed, RequiredSize(codec, metadata, headed));
  }

  /** Every case of a turn on a buffer that starts with the magic. */
  lemma FrameOutcome(codec: Codec, b: Buffer)
    requires StartsWithMagic(b)
    ensures |b| < 8 ==> DecodeNext(codec, b) == Stopped(Waiting)
    ensures |b| >= 8 ==>
              var headed := 8 + HeaderLength(b);
              if |b| < headed then DecodeNext(codec, b) == Stopped(Waiting)
              else if codec.parse(b[8..headed]) in {None, Some(JNull)} then DecodeNext(codec, b) == Stopped(Malformed)
              else FrameTakes(codec, b, codec.parse(b[8..headed]).value, headed, DecodeNext(codec, b))
  {
    MagicRead(b);
    if |b| >= 8 {
      assert DecodeNext(codec, b) == FrameNext(codec, b);
      var headed := 8 + HeaderLength(b);
      if headed <= |b| && codec.parse(b[8..headed]).Some? {
        TakesWhatIsDeclared(codec, b, codec.parse(b[8..headed]).value, headed);
      }
    }
  }

  /** Every case of a turn on any other buffer. */
  lemma LineOutcome(codec: Codec, b: Buffer)
    requires !StartsWithMagic(b)
    ensures 10 !in b ==> DecodeNext(codec, b) == Stopped(Waiting)
    ensures forall i: nat | i < |b| && b[i] == 10 && 10 !in b[..i] ::
              DecodeNext(codec, b) == Got(Line(b[..i]), i + 1)
  {
    if |b| >= 4 {
      MagicRead(b);
    }
    var at := NewlineAt(b);
    assert forall i: nat | at < i <= |b| :: b[..i][at] == b[at];
  }

  // ---------------------------------------------------------------- decodeBinaryFrame

  /** Every case of decodeBinaryFrame. */
  lemma DecodeOutcome(codec: Codec, b: Buffer)
    ensures |b| < 8 || !StartsWithMagic(b) ==> DecodeBinaryFrame(codec, b) == NotYet
    ensures |b| >= 8 && StartsWithMagic(b) ==>
              var headed := 8 + HeaderLength(b);
              if headed == 8 || headed > 8 + 10 * 1024 * 1024 then DecodeBinaryFrame(codec, b) == Bad(BadJsonLength)
              else if |b| < headed then DecodeBinaryFrame(codec, b) == NotYet
              else if codec.parse(b[8..headed]) == None then DecodeBinaryFrame(codec, b) == Bad(MalformedMetadata)
              else PayloadOutcome(b, headed, codec.parse(b[8..headed]).value, DecodeBinaryFrame(codec, b))
  {
    if |b| >= 4 {
      MagicRead(b);
    }
  }

  /** A declared size must be a number within limits, and is waited for; without one, the rest is the payload. */
  ghost predicate PayloadOutcome(b: Buffer, headed: nat, metadata: Json, d: Decoded)
    requires headed <= |b|
  {
    match Declaration(metadata)
    case None =>
      if |b| > 8 + 10 * 1024 * 1024 + 512 * 1024 * 1024 then d == Bad(OversizedFrame)
      else d == Frame(metadata, b[headed..], |b|)
    case Some(JNum(n)) =>
      if n < 0 || n > 512 * 1024 * 1024 then d == Bad(OversizedPayload)
      else if headed + n > |b| then d == NotYet
      else d == Frame(metadata, b[headed..headed + n], headed + n)
    case Some(_) => d == Bad(BadDeclaredSize)
  }
}
