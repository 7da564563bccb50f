/**
 * The binary frame: magic, length of the JSON header, header, payload. JSON text is an abstract codec
 * of metadata values; everything about sizes, limits and where a payload size may be declared is not.
 */
module BinaryFraming {
  import opened Prelude
  import opened NodeBuffer

  const MAGIC := 0x5357524D
  const HEADER_SIZE := 8
  const MAX_JSON_HEADER_SIZE := 10 * 1024 * 1024
  const MAX_PAYLOAD_SIZE := 512 * 1024 * 1024
  const MAX_TOTAL_FRAME_SIZE := HEADER_SIZE + MAX_JSON_HEADER_SIZE + MAX_PAYLOAD_SIZE
  const TWO_TO_32 := 0x1_0000_0000

  datatype Json =
    | JNull
    | JBool(bool)
    | JNum(num: int)
    | JStr(string)
    | JArr(seq<Json>)
    | JObj(fields: map<string, Json>)

  /**
   * JSON.stringify to UTF-8, JSON.parse from UTF-8, and what JavaScript's `+` makes of a length and a
   * declared size that is no number: a whole number, or None for NaN.
   */
  datatype Codec = Codec(stringify: Json -> Buffer, parse: Buffer -> Option<Json>, plus: (nat, Json) -> Option<int>) {
    ghost predicate Lawful() {
      forall j :: |stringify(j)| > 0 && parse(stringify(j)) == Some(j)
    }
  }

  datatype FrameError =
    | OversizedJson
    | OversizedPayload
    | BadJsonLength
    | MalformedMetadata
    | BadDeclaredSize
    | OversizedFrame

  // ---------------------------------------------------------------- 32-bit big-endian numbers

  function U32(n: nat): (b: Buffer)
    requires n < TWO_TO_32
    ensures |b| == 4
  {
    [n / 0x100 / 0x100 / 0x100, n / 0x100 / 0x100 % 0x100, n / 0x100 % 0x100, n % 0x100]
  }

  function ReadU32(b: Buffer, at: nat): (n: nat)
    requires at + 4 <= |b|
    ensures n < TWO_TO_32
  {
    var b0: int, b1: int, b2: int, b3: int := b[at], b[at + 1], b[at + 2], b[at + 3];
    b0 * 0x100_0000 + b1 * 0x1_0000 + b2 * 0x100 + b3
  }

  lemma ReadBack(n: nat, b: Buffer, at: nat)
    requires n < TWO_TO_32 && at + 4 <= |b| && b[at..at + 4] == U32(n)
    ensures ReadU32(b, at) == n
  {
    var word := b[at..at + 4];
    assert b[at] == word[0] && b[at + 1] == word[1] && b[at + 2] == word[2] && b[at + 3] == word[3];
    var n1 := n / 0x100;
    var n2 := n1 / 0x100;
    assert n == n1 * 0x100 + n % 0x100 && n1 == n2 * 0x100 + n1 % 0x100 && n2 == n2 / 0x100 * 0x100 + n2 % 0x100;
  }

  // ---------------------------------------------------------------- declared payload sizes

  /** value?.key */
  function Field(value: Option<Json>, key: string): Option<Json> {
    if value.Some? && value.value.JObj? && key in value.value.fields then Some(value.value.fields[key]) else None
  }

  /** a ?? b */
  function Coalesce(a: Option<Json>, b: Option<Json>): Option<Json> {
    if a == None || a == Some(JNull) then b else a
  }

  const SIZE_KEY := "totalPayloadBytes"

  /** The seven places a payload size may be declared, the first one present winning. */
  function Declaration(metadata: Json): Option<Json> {
    var m := Some(metadata);
    var workload := Field(Field(m, "params"), "workload");
    Coalesce(Field(m, SIZE_KEY),
    Coalesce(Field(Field(m, "result"), SIZE_KEY),
    Coalesce(Field(Field(workload, "data"), SIZE_KEY),
    Coalesce(Field(workload, SIZE_KEY),
    Coalesce(Field(Field(m, "params"), SIZE_KEY),
    Coalesce(Field(Field(Field(m, "workload"), "data"), SIZE_KEY),
             Field(Field(m, "data"), SIZE_KEY)))))))
  }

  /** metadata?.k0?.k1? and so on. */
  function At(value: Option<Json>, path: seq<string>): Option<Json>
    decreases |path|
  {
    if path == [] then value else At(Field(value, path[0]), path[1..])
  }

  /** Where a payload size may be declared, in the order in which readers look. */
  const PLACES: seq<seq<string>> := [
    ["totalPayloadBytes"],
    ["result", "totalPayloadBytes"],
    ["params", "workload", "data", "totalPayloadBytes"],
    ["params", "workload", "totalPayloadBytes"],
    ["params", "totalPayloadBytes"],
    ["workload", "data", "totalPayloadBytes"],
    ["data", "totalPayloadBytes"]]

  /** The first place that holds something other than null decides; if none does, the last one. */
  lemma FirstPlaceDecides(metadata: Json, i: nat)
    requires i < |PLACES| && forall j: nat | j < i :: At(Some(metadata), PLACES[j]) in {None, Some(JNull)}
    requires i == |PLACES| - 1 || At(Some(metadata), PLACES[i]) !in {None, Some(JNull)}
    ensures Declaration(metadata) == At(Some(metadata), PLACES[i])
  {
    PlacesSpelled(metadata);
  }

  lemma PlacesSpelled(metadata: Json)
    ensures var m := Some(metadata);
            var workload := Field(Field(m, "params"), "workload");
            && At(m, PLACES[0]) == Field(m, SIZE_KEY)
            && At(m, PLACES[1]) == Field(Field(m, "result"), SIZE_KEY)
            && At(m, PLACES[2]) == Field(Field(workload, "data"), SIZE_KEY)
            && At(m, PLACES[3]) == Field(workload, SIZE_KEY)
            && At(m, PLACES[4]) == Field(Field(m, "params"), SIZE_KEY)
            && At(m, PLACES[5]) == Field(Field(Field(m, "workload"), "data"), SIZE_KEY)
            && At(m, PLACES[6]) == Field(Field(m, "data"), SIZE_KEY)
  {
    var m := Some(metadata);
    forall i: nat | i < |PLACES| {
      AtSpelled(m, PLACES[i]);
    }
  }

  lemma {:induction false} AtSpelled(m: Option<Json>, path: seq<string>)
    ensures |path| == 1 ==> At(m, path) == Field(m, path[0])
    ensures |path| == 2 ==> At(m, path) == Field(Field(m, path[0]), path[1])
    ensures |path| == 3 ==> At(m, path) == Field(Field(Field(m, path[0]), path[1]), path[2])
    ensures |path| == 4 ==> At(m, path) == Field(Field(Field(Field(m, path[0]), path[1]), path[2]), path[3])
    decreases |path|
  {
    if path != [] {
      AtSpelled(Field(m, path[0]), path[1..]);
    }
  }

  /** What encoding writes into the metadata: the payload size, also inside a `result` object. */
  function Stamp(metadata: Json, size: nat): Json {
    if !metadata.JObj? then metadata
    else
      var fields := metadata.fields[SIZE_KEY := JNum(size)];
      if "result" in fields && fields["result"].JObj? then
        JObj(fields["result" := JObj(fields["result"].fields[SIZE_KEY := JNum(size)])])
      else
        JObj(fields)
  }

  /** The size is written at the top and inside a `result` object, and nothing else changes. */
  lemma StampWrites(metadata: Json, size: nat, key: string)
    requires metadata.JObj?
    ensures Stamp(metadata, size).JObj?
    ensures var before, after := Field(Some(metadata), key), Field(Some(Stamp(metadata, size)), key);
            && (key == "totalPayloadBytes" ==> after == Some(JNum(size)))
            && (key == "result" && before.Some? && before.value.JObj? ==>
                  after == Some(JObj(before.value.fields["totalPayloadBytes" := JNum(size)])))
            && (key != "totalPayloadBytes" && !(key == "result" && before.Some? && before.value.JObj?) ==>
                  after == before)
  {
  }

  /** The stamped size is the first declaration any reader finds. */
  lemma StampDeclares(metadata: Json, size: nat)
    requires metadata.JObj?
    ensures Declaration(Stamp(metadata, size)) == Some(JNum(size))
  {
  }

  // ---------------------------------------------------------------- encoding

  /** The bytes of a frame with the given header and payload. */
  function FrameBytes(json: Buffer, payload: Buffer): (frame: Buffer)
    requires |json| < TWO_TO_32
    ensures |frame| == HEADER_SIZE + |json| + |payload|
    ensures frame[..4] == [0x53, 0x57, 0x52, 0x4D]
    ensures frame[4] as int * 0x100_0000 + frame[5] as int * 0x1_0000 + frame[6] as int * 0x100 + frame[7] as int
            == |json|
    ensures frame[8..8 + |json|] == json && frame[8 + |json|..] == payload
  {
    ReadBack(|json|, U32(|json|), 0);
    U32(MAGIC) + U32(|json|) + json + payload
  }

  ghost predicate Encodable(codec: Codec, metadata: Json, payload: Buffer) {
    |codec.stringify(Stamp(metadata, |payload|))| <= MAX_JSON_HEADER_SIZE && |payload| <= MAX_PAYLOAD_SIZE
  }

  ghost function Encoded(codec: Codec, metadata: Json, payload: Buffer): Buffer
    requires Encodable(codec, metadata, payload)
  {
    FrameBytes(codec.stringify(Stamp(metadata, |payload|)), payload)
  }

  method EncodeBinaryFrame(codec: Codec, metadata: Json, payload: Buffer)
    returns (r: Result<Buffer, FrameError>, stamped: Json)
    ensures stamped == Stamp(metadata, |payload|)
    ensures r.Ok? <==> Encodable(codec, metadata, payload)
    ensures r.Ok? ==> r.value == Encoded(codec, metadata, payload)
    ensures r == Err(OversizedJson) <==> |codec.stringify(stamped)| > 10 * 1024 * 1024
    ensures r == Err(OversizedPayload) <==>
            |codec.stringify(stamped)| <= 10 * 1024 * 1024 && |payload| > 512 * 1024 * 1024
  {
    stamped := metadata;
    if metadata.JObj? {
      stamped := JObj(stamped.fields[SIZE_KEY := JNum(|payload|)]);
      if "result" in stamped.fields && stamped.fields["result"].JObj? {
        var result := JObj(stamped.fields["result"].fields[SIZE_KEY := JNum(|payload|)]);
        stamped := JObj(stamped.fields["result" := result]);
      }
    }
    var jsonBuf := codec.stringify(stamped);
    if |jsonBuf| > MAX_JSON_HEADER_SIZE {
      return Err(OversizedJson), stamped;
    }
    if |payload| > MAX_PAYLOAD_SIZE {
      return Err(OversizedPayload), stamped;
    }
    var frame := new Byte[HEADER_SIZE + |jsonBuf| + |payload|];
    ghost var f0 := frame[..];
    Copy(frame, 0, U32(MAGIC));
    ghost var f1 := frame[..];
    Copy(frame, 4, U32(|jsonBuf|));
    ghost var f2 := frame[..];
    Copy(frame, HEADER_SIZE, jsonBuf);
    ghost var f3 := frame[..];
    Copy(frame, HEADER_SIZE + |jsonBuf|, payload);
    assert frame[..] == FrameBytes(jsonBuf, payload);
    r := Ok(frame[..]);
  }

  // ---------------------------------------------------------------- decoding

  datatype Decoded =
    | NotYet
    | Frame(metadata: Json, payload: Buffer, totalLength: nat)
    | Bad(error: FrameError)

  /** The payload size of a frame whose header is complete: declared, or all that is there. */
  function PayloadSize(metadata: Json, available: nat): Result<nat, FrameError> {
    match Declaration(metadata)
    case None => Ok(available)
    case Some(JNum(n)) => if n < 0 || n > MAX_PAYLOAD_SIZE then Err(OversizedPayload) else Ok(n)
    case Some(_) => Err(BadDeclaredSize)
  }

  function DecodeBinaryFrame(codec: Codec, buffer: Buffer): Decoded {
    if |buffer| < HEADER_SIZE then NotYet
    else if ReadU32(buffer, 0) != MAGIC then NotYet
    else
      var jsonLen := ReadU32(buffer, 4);
      if jsonLen == 0 || jsonLen > MAX_JSON_HEADER_SIZE then Bad(BadJsonLength)
      else if |buffer| < HEADER_SIZE + jsonLen then NotYet
      else match codec.parse(buffer[HEADER_SIZE..HEADER_SIZE + jsonLen])
        case None => Bad(MalformedMetadata)
        case Some(metadata) =>
          DecodePayload(buffer, jsonLen, metadata, PayloadSize(metadata, |buffer| - (HEADER_SIZE + jsonLen)))
  }

  /** The part of decoding that follows the header. */
  function DecodePayload(buffer: Buffer, jsonLen: nat, metadata: Json, size: Result<nat, FrameError>): Decoded
    requires HEADER_SIZE + jsonLen <= |buffer|
  {
    match size
    case Err(e) => Bad(e)
    case Ok(size) =>
      var total := HEADER_SIZE + jsonLen + size;
      if total > MAX_TOTAL_FRAME_SIZE then Bad(OversizedFrame)
      else if |buffer| < total then NotYet
      else Frame(metadata, buffer[HEADER_SIZE + jsonLen..total], total)
  }

  /** Where the parts of a frame sit in any buffer that starts with it, or with part of it. */
  lemma FrameLayout(json: Buffer, payload: Buffer, buffer: Buffer)
    requires |json| < TWO_TO_32 && HEADER_SIZE <= |buffer|
    requires buffer <= FrameBytes(json, payload) || FrameBytes(json, payload) <= buffer
    ensures ReadU32(buffer, 0) == MAGIC && ReadU32(buffer, 4) == |json|
    ensures HEADER_SIZE + |json| <= |buffer| ==> buffer[HEADER_SIZE..HEADER_SIZE + |json|] == json
    ensures HEADER_SIZE + |json| + |payload| <= |buffer| ==>
              buffer[HEADER_SIZE + |json|..HEADER_SIZE + |json| + |payload|] == payload
  {
    var frame := FrameBytes(json, payload);
    var n := Min(|frame|, |buffer|);
    assert forall i | 0 <= i < n :: buffer[i] == frame[i];
    assert buffer[0..4] == U32(MAGIC);
    assert buffer[4..8] == U32(|json|);
    ReadBack(MAGIC, buffer, 0);
    ReadBack(|json|, buffer, 4);
  }

  /** Decoding a frame followed by anything returns exactly that frame and its length. */
  lemma DecodeInvertsEncode(codec: Codec, metadata: Json, payload: Buffer, tail: Buffer)
    requires codec.Lawful() && metadata.JObj? && Encodable(codec, metadata, payload)
    ensures var frame := Encoded(codec, metadata, payload);
            DecodeBinaryFrame(codec, frame + tail) == Frame(Stamp(metadata, |payload|), payload, |frame|)
  {
    DecodeAround(codec, Stamp(metadata, |payload|), payload, Encoded(codec, metadata, payload) + tail);
    FrameLayout(codec.stringify(Stamp(metadata, |payload|)), payload, Encoded(codec, metadata, payload) + tail);
    StampDeclares(metadata, |payload|);
  }

  /** Decoding once the header has been recognised. */
  lemma DecodeHeaded(codec: Codec, buffer: Buffer, jsonLen: nat, metadata: Json)
    requires HEADER_SIZE <= |buffer| && ReadU32(buffer, 0) == MAGIC && ReadU32(buffer, 4) == jsonLen
    requires 0 < jsonLen <= MAX_JSON_HEADER_SIZE
    requires HEADER_SIZE + jsonLen <= |buffer| ==>
               codec.parse(buffer[HEADER_SIZE..HEADER_SIZE + jsonLen]) == Some(metadata)
    ensures DecodeBinaryFrame(codec, buffer) ==
              if |buffer| < HEADER_SIZE + jsonLen then NotYet
              else DecodePayload(buffer, jsonLen, metadata, PayloadSize(metadata, |buffer| - (HEADER_SIZE + jsonLen)))
  {
  }

  /** Decoding a buffer that a frame is a prefix of, or the other way round, given the frame's header. */
  lemma DecodeAround(codec: Codec, stamped: Json, payload: Buffer, buffer: Buffer)
    requires codec.Lawful() && |codec.stringify(stamped)| <= MAX_JSON_HEADER_SIZE
    requires var frame := FrameBytes(codec.stringify(stamped), payload); buffer <= frame || frame <= buffer
    ensures var json := codec.stringify(stamped);
            DecodeBinaryFrame(codec, buffer) ==
              if |buffer| < HEADER_SIZE + |json| then NotYet
              else DecodePayload(buffer, |json|, stamped, PayloadSize(stamped, |buffer| - (HEADER_SIZE + |json|)))
  {
    if HEADER_SIZE <= |buffer| {
      FrameLayout(codec.stringify(stamped), payload, buffer);
      assert codec.parse(codec.stringify(stamped)) == Some(stamped) && |codec.stringify(stamped)| > 0;
      DecodeHeaded(codec, buffer, |codec.stringify(stamped)|, stamped);
    }
  }

  /** Every strict prefix of a frame is recognised as incomplete, not as an error. */
  lemma PrefixIsNotYet(codec: Codec, metadata: Json, payload: Buffer, k: nat)
    requires codec.Lawful() && metadata.JObj? && Encodable(codec, metadata, payload)
    requires k < |Encoded(codec, metadata, payload)|
    ensures DecodeBinaryFrame(codec, Encoded(codec, metadata, payload)[..k]) == NotYet
  {
    DecodeAround(codec, Stamp(metadata, |payload|), payload, Encoded(codec, metadata, payload)[..k]);
    StampDeclares(metadata, |payload|);
  }

  /**
   * Metadata that cannot carry a size, because it is no object, leaves the end of the payload open: the
   * decoder takes whatever follows. A frame is self-delimiting exactly when its metadata is an object.
   */
  lemma SelfDelimitingIff(codec: Codec, metadata: Json, payload: Buffer)
    requires codec.Lawful() && Encodable(codec, metadata, payload)
    ensures metadata.JObj? <==>
            forall tail: Buffer :: DecodeBinaryFrame(codec, Encoded(codec, metadata, payload) + tail)
                                   == DecodeBinaryFrame(codec, Encoded(codec, metadata, payload))
  {
    var frame := Encoded(codec, metadata, payload);
    if metadata.JObj? {
      forall tail: Buffer ensures DecodeBinaryFrame(codec, frame + tail) == DecodeBinaryFrame(codec, frame) {
        DecodeInvertsEncode(codec, metadata, payload, tail);
        DecodeInvertsEncode(codec, metadata, payload, []);
        assert frame + [] == frame;
      }
    } else {
      var tail: Buffer := [0];
      DecodeAround(codec, metadata, payload, frame);
      DecodeAround(codec, metadata, payload, frame + tail);
      assert Declaration(metadata) == None;
      assert DecodeBinaryFrame(codec, frame).totalLength == |frame|;
      assert DecodeBinaryFrame(codec, frame + tail) != DecodeBinaryFrame(codec, frame);
    }
  }
}
