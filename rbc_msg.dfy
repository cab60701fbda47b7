/** The reliable-broadcast payload of types/src/msg/msg.rs and its bincode encoding. */
module RbcMsg {
  import opened Ints
  import opened Wrappers
  import opened Bincode
  import Wire

  datatype Msg = Msg(content: Vec<U8>, origin: Replica)

  datatype ProtMsg = Ping(msg: Msg, from: Replica)

  /** `bincode::serialize(&protmsg)`: variant index 0, the `Msg`, then the replica. */
  function Serialize(m: ProtMsg): Bytes
  {
    EncodeU32(0) + EncodeVecU8(m.msg.content) + EncodeU64(m.msg.origin) + EncodeU64(m.from)
  }

  function Deserialize(b: Bytes): Option<(ProtMsg, Bytes)>
  {
    match DecodeU32(b)
    case None => None
    case Some((tag, r0)) =>
      if tag != 0 then None
      else match DecodeVecU8(r0)
        case None => None
        case Some((content, r1)) =>
          match DecodeU64(r1)
          case None => None
          case Some((origin, r2)) =>
            match DecodeU64(r2)
            case None => None
            case Some((from, r3)) => Some((Ping(Msg(content, origin), from), r3))
  }

  lemma SerializeRoundTrip(m: ProtMsg, rest: Bytes)
    ensures Deserialize(Serialize(m) + rest) == Some((m, rest))
  {
    var r2 := EncodeU64(m.from) + rest;
    var r1 := EncodeU64(m.msg.origin) + r2;
    var r0 := EncodeVecU8(m.msg.content) + r1;
    assert Serialize(m) + rest == EncodeU32(0) + r0;
    U32RoundTrip(0, r0);
    VecU8RoundTrip(m.msg.content, r1);
    U64RoundTrip(m.msg.origin, r2);
    U64RoundTrip(m.from, rest);
  }

  lemma Codec()
    ensures Wire.PrefixCodec(Serialize, Deserialize)
  {
    forall p, rest ensures Deserialize(Serialize(p) + rest) == Some((p, rest)) {
      SerializeRoundTrip(p, rest);
    }
  }
}
