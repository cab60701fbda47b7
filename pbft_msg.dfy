/**
 * The payloads the PBFT-style engine exchanges (the variants matched in
 * consensus/pbft/src/node/process.rs) and their bincode encoding.
 */
module PbftMsg {
  import opened Ints
  import opened Wrappers
  import opened Bincode
  import Wire

  datatype Msg = Msg(content: Vec<U64>, origin: Replica)

  datatype ProtMsg = Init(value: U64) | Prepare(msg: Msg) | Echo(msg: Msg)

  function EncodeMsg(m: Msg): Bytes
  {
    EncodeVecU64(m.content) + EncodeU64(m.origin)
  }

  function DecodeMsg(b: Bytes): Option<(Msg, Bytes)>
  {
    match DecodeVecU64(b)
    case None => None
    case Some((content, rest)) =>
      match DecodeU64(rest)
      case None => None
      case Some((origin, rest')) => Some((Msg(content, origin), rest'))
  }

  /** `bincode::serialize(&protmsg)`: the `u32` variant index, then the fields. */
  function Serialize(m: ProtMsg): Bytes
  {
    match m
    case Init(v) => EncodeU32(0) + EncodeU64(v)
    case Prepare(msg) => EncodeU32(1) + EncodeMsg(msg)
    case Echo(msg) => EncodeU32(2) + EncodeMsg(msg)
  }

  function Deserialize(b: Bytes): Option<(ProtMsg, Bytes)>
  {
    match DecodeU32(b)
    case None => None
    case Some((tag, rest)) =>
      if tag == 0 then
        match DecodeU64(rest)
        case None => None
        case Some((v, rest')) => Some((Init(v), rest'))
      else if tag == 1 || tag == 2 then
        match DecodeMsg(rest)
        case None => None
        case Some((msg, rest')) => Some((if tag == 1 then Prepare(msg) else Echo(msg), rest'))
      else None
  }

  lemma MsgRoundTrip(m: Msg, rest: Bytes)
    ensures DecodeMsg(EncodeMsg(m) + rest) == Some((m, rest))
  {
    var tail := EncodeU64(m.origin) + rest;
    assert EncodeMsg(m) + rest == EncodeVecU64(m.content) + tail;
    VecU64RoundTrip(m.content, tail);
    U64RoundTrip(m.origin, rest);
  }

  lemma SerializeRoundTrip(m: ProtMsg, rest: Bytes)
    ensures Deserialize(Serialize(m) + rest) == Some((m, rest))
  {
    match m
    case Init(v) =>
      assert Serialize(m) + rest == EncodeU32(0) + (EncodeU64(v) + rest);
      U32RoundTrip(0, EncodeU64(v) + rest);
      U64RoundTrip(v, rest);
    case Prepare(msg) =>
      assert Serialize(m) + rest == EncodeU32(1) + (EncodeMsg(msg) + rest);
      U32RoundTrip(1, EncodeMsg(msg) + rest);
      MsgRoundTrip(msg, rest);
    case Echo(msg) =>
      assert Serialize(m) + rest == EncodeU32(2) + (EncodeMsg(msg) + rest);
      U32RoundTrip(2, EncodeMsg(msg) + rest);
      MsgRoundTrip(msg, rest);
  }

  /** Distinct payloads have distinct encodings, so a MAC over the encoding covers the payload. */
  lemma SerializeInjective(a: ProtMsg, b: ProtMsg)
    requires Serialize(a) == Serialize(b)
    ensures a == b
  {
    SerializeRoundTrip(a, []);
    SerializeRoundTrip(b, []);
  }

  lemma Codec()
    ensures Wire.PrefixCodec(Serialize, Deserialize)
  {
    forall p, rest ensures Deserialize(Serialize(p) + rest) == Some((p, rest)) {
      SerializeRoundTrip(p, rest);
    }
  }
}
