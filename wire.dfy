/**
 * The authenticated envelope of types/src/msg/msg.rs, generic in the protocol
 * payload `P` as `bincode::serialize` is: `ser` is the payload's encoding and
 * `de` its prefix decoder.
 */
module Wire {
  import opened Ints
  import opened Wrappers
  import opened Crypto
  import Bincode

  datatype WrapperMsg<P> = WrapperMsg(protmsg: P, sender: Replica, mac: Hash)

  /** `WrapperMsg::new(msg, sender, sk)`: the MAC is computed over the serialised payload. */
  function New<P>(msg: P, sender: Replica, sk: Bytes, ser: P -> Bytes, mac: MacFn): WrapperMsg<P>
  {
    WrapperMsg(msg, sender, mac(ser(msg), sk))
  }

  /** The check of `check_proposal` once the sender's key has been looked up. */
  predicate Authentic<P>(w: WrapperMsg<P>, key: Bytes, ser: P -> Bytes, mac: MacFn)
  {
    VerfMac(ser(w.protmsg), key, w.mac, mac)
  }

  /** A wrapper built with a key passes verification under that key. */
  lemma NewIsAuthentic<P>(msg: P, sender: Replica, sk: Bytes, ser: P -> Bytes, mac: MacFn)
    ensures var w := New(msg, sender, sk, ser, mac);
      w.protmsg == msg && w.sender == sender && Authentic(w, sk, ser, mac)
  {
  }

  /** Verification under a different key of the same length fails when the MAC binds keys of that length. */
  lemma WrongKeyRejected<P>(msg: P, sender: Replica, sk: Bytes, other: Bytes, ser: P -> Bytes, mac: MacFn)
    requires |other| == |sk| && KeyBinding(mac, |sk|) && other != sk
    ensures !Authentic(New(msg, sender, sk, ser, mac), other, ser, mac)
  {
    var b := ser(msg);
    assert mac(b, sk) == mac(b, other) ==> sk == other;
  }

  /** A wrapper verifies under a key exactly when it is the wrapper `new` builds from its payload and sender with that key. */
  lemma AuthenticIffSealed<P>(w: WrapperMsg<P>, key: Bytes, ser: P -> Bytes, mac: MacFn)
    ensures Authentic(w, key, ser, mac) <==> w == New(w.protmsg, w.sender, key, ser, mac)
  {
  }

  /** `WireReady::init`: the identity. */
  function Init<P>(w: WrapperMsg<P>): WrapperMsg<P>
  {
    match w
    case x => x
  }

  /** `to_bytes`: the bincode encoding of the struct, field by field. */
  function ToBytes<P>(w: WrapperMsg<P>, ser: P -> Bytes): Bytes
  {
    ser(w.protmsg) + Bincode.EncodeU64(w.sender) + w.mac
  }

  /** `from_bytes`: decode then `init`; `None` stands for the `expect` panic. */
  function FromBytes<P>(b: Bytes, de: Bytes -> Option<(P, Bytes)>): Option<WrapperMsg<P>>
  {
    match de(b)
    case None => None
    case Some((p, rest)) =>
      match Bincode.DecodeU64(rest)
      case None => None
      case Some((sender, rest')) =>
        if |rest'| < HASH_SIZE then None
        else Some(Init(WrapperMsg(p, sender, rest'[..HASH_SIZE])))
  }

  /** `de` decodes exactly what `ser` encodes, whatever follows it. */
  ghost predicate PrefixCodec<P(!new)>(ser: P -> Bytes, de: Bytes -> Option<(P, Bytes)>)
  {
    forall p, rest :: de(ser(p) + rest) == Some((p, rest))
  }

  lemma RoundTrip<P(!new)>(w: WrapperMsg<P>, rest: Bytes, ser: P -> Bytes, de: Bytes -> Option<(P, Bytes)>)
    requires PrefixCodec(ser, de)
    ensures FromBytes(ToBytes(w, ser) + rest, de) == Some(w)
  {
    var tail := Bincode.EncodeU64(w.sender) + (w.mac + rest);
    assert ToBytes(w, ser) + rest == ser(w.protmsg) + tail;
    assert de(ser(w.protmsg) + tail) == Some((w.protmsg, tail));
    Bincode.U64RoundTrip(w.sender, w.mac + rest);
    assert (w.mac + rest)[..HASH_SIZE] == w.mac;
  }
}
