/**
 * The keyed message authentication of crypto/src/hash.rs. HMAC-SHA256 itself
 * is not modelled: the MAC is a parameter `mac` of type `MacFn` wherever it is
 * used, so every property proved here holds for any MAC function.
 */
module Crypto {
  import opened Ints

  const HASH_SIZE: nat := 32

  /** `Hash = [u8; HASH_SIZE]`. */
  type Hash = h: Bytes | |h| == HASH_SIZE witness seq(HASH_SIZE, _ => 0)

  /** `do_mac(bytes, secret_key)`. */
  type MacFn = (Bytes, Bytes) -> Hash

  /** `verf_mac`: recompute the tag over `bytes` under `key` and compare it with `tag`. */
  predicate VerfMac(bytes: Bytes, key: Bytes, tag: Bytes, mac: MacFn)
  {
    mac(bytes, key) == tag
  }

  /**
   * A MAC whose tag determines the key it was made with, among keys of
   * `keyLen` bytes and for a fixed message. Tags have `HASH_SIZE` bytes, so
   * this can hold only for keys no longer than a tag (see `KeyBindingExists`).
   */
  ghost predicate KeyBinding(mac: MacFn, keyLen: nat)
  {
    forall b, k1, k2 :: |k1| == keyLen && |k2| == keyLen && mac(b, k1) == mac(b, k2) ==> k1 == k2
  }

  /** The zero-padded key as a tag: a MAC that binds every key of `keyLen` bytes. */
  function PadKey(b: Bytes, k: Bytes, keyLen: nat): Hash
    requires keyLen <= HASH_SIZE
  {
    if |k| == keyLen then k + seq(HASH_SIZE - keyLen, _ => 0) else seq(HASH_SIZE, _ => 0)
  }

  /** Key binding is satisfiable for keys of at most `HASH_SIZE` bytes, such as the 32-byte secret keys. */
  lemma KeyBindingExists(keyLen: nat)
    requires keyLen <= HASH_SIZE
    ensures exists mac: MacFn :: KeyBinding(mac, keyLen)
  {
    var mac: MacFn := (b, k) => PadKey(b, k, keyLen);
    forall b, k1, k2 | |k1| == keyLen && |k2| == keyLen && mac(b, k1) == mac(b, k2)
      ensures k1 == k2
    {
      assert k1 == mac(b, k1)[..keyLen];
      assert k2 == mac(b, k2)[..keyLen];
    }
    assert KeyBinding(mac, keyLen);
  }
}
