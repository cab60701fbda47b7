/**
 * The fragment of bincode 1.x's default wire format that the system's
 * messages use: fixed-width little-endian integers, a `u32` variant index for
 * enums, a `u64` length before every `Vec`, and fixed-size byte arrays written
 * out without a length. `bincode::deserialize` accepts trailing bytes, so every
 * decoder here reads a prefix and returns what is left.
 */
module Bincode {
  import opened Ints
  import opened Wrappers

  function Pow256(w: nat): (p: nat)
    ensures p >= 1
  {
    if w == 0 then 1 else 256 * Pow256(w - 1)
  }

  /** The `w` low-order bytes of `x`, least significant first. */
  function EncodeLE(x: nat, w: nat): (b: Bytes)
    ensures |b| == w
  {
    if w == 0 then [] else [x % 256] + EncodeLE(x / 256, w - 1)
  }

  /** The number whose little-endian bytes are `b`. */
  function DecodeLE(b: Bytes): nat
  {
    if b == [] then 0 else b[0] + 256 * DecodeLE(b[1..])
  }

  lemma {:induction false} DecodeLEBound(b: Bytes)
    ensures DecodeLE(b) < Pow256(|b|)
  {
    if b != [] {
      DecodeLEBound(b[1..]);
    }
  }

  lemma {:induction false} DecodeEncodeLE(x: nat, w: nat)
    requires x < Pow256(w)
    ensures DecodeLE(EncodeLE(x, w)) == x
  {
    if w > 0 {
      var b := EncodeLE(x, w);
      assert b[1..] == EncodeLE(x / 256, w - 1);
      DecodeEncodeLE(x / 256, w - 1);
    }
  }

  lemma Pow256Widths()
    ensures Pow256(4) == 0x1_0000_0000
    ensures Pow256(8) == TWO_64
  {
  }

  function EncodeU32(x: nat): (b: Bytes)
    requires x < 0x1_0000_0000
    ensures |b| == 4
  {
    EncodeLE(x, 4)
  }

  function EncodeU64(x: U64): (b: Bytes)
    ensures |b| == 8
  {
    EncodeLE(x, 8)
  }

  /** Reads a `u32`; `None` when fewer than four bytes remain. */
  function DecodeU32(b: Bytes): (r: Option<(nat, Bytes)>)
    ensures r.Some? ==> r.value.0 < 0x1_0000_0000 && |r.value.1| == |b| - 4
  {
    if |b| < 4 then None
    else
      Pow256Widths();
      DecodeLEBound(b[..4]);
      Some((DecodeLE(b[..4]), b[4..]))
  }

  /** Reads a `u64`; `None` when fewer than eight bytes remain. */
  function DecodeU64(b: Bytes): (r: Option<(U64, Bytes)>)
    ensures r.Some? ==> |r.value.1| == |b| - 8
  {
    if |b| < 8 then None
    else
      Pow256Widths();
      DecodeLEBound(b[..8]);
      Some((DecodeLE(b[..8]) as U64, b[8..]))
  }

  lemma U32RoundTrip(x: nat, rest: Bytes)
    requires x < 0x1_0000_0000
    ensures DecodeU32(EncodeU32(x) + rest) == Some((x, rest))
  {
    var b := EncodeU32(x) + rest;
    assert b[..4] == EncodeU32(x);
    Pow256Widths();
    DecodeEncodeLE(x, 4);
  }

  lemma U64RoundTrip(x: U64, rest: Bytes)
    ensures DecodeU64(EncodeU64(x) + rest) == Some((x, rest))
  {
    var b := EncodeU64(x) + rest;
    assert b[..8] == EncodeU64(x);
    Pow256Widths();
    DecodeEncodeLE(x, 8);
  }

  /** The elements of a `Vec<u64>` one after another, without the length. */
  function EncodeU64Items(s: seq<U64>): (b: Bytes)
    ensures |b| == 8 * |s|
  {
    if s == [] then [] else EncodeU64(s[0]) + EncodeU64Items(s[1..])
  }

  function DecodeU64Items(b: Bytes, count: nat): Option<(seq<U64>, Bytes)>
    decreases count
  {
    if count == 0 then Some(([], b))
    else match DecodeU64(b)
      case None => None
      case Some((x, rest)) =>
        match DecodeU64Items(rest, count - 1)
        case None => None
        case Some((xs, rest')) => Some(([x] + xs, rest'))
  }

  lemma {:induction false} U64ItemsRoundTrip(s: seq<U64>, rest: Bytes)
    ensures DecodeU64Items(EncodeU64Items(s) + rest, |s|) == Some((s, rest))
  {
    if s != [] {
      var tail := EncodeU64Items(s[1..]) + rest;
      assert EncodeU64Items(s) + rest == EncodeU64(s[0]) + tail;
      U64RoundTrip(s[0], tail);
      U64ItemsRoundTrip(s[1..], rest);
      assert |s[1..]| == |s| - 1;
      assert DecodeU64Items(tail, |s| - 1) == Some((s[1..], rest));
      assert [s[0]] + s[1..] == s;
    } else {
      assert EncodeU64Items(s) + rest == rest;
    }
  }

  /** A `Vec<u64>`: its length as a `u64`, then its elements. */
  function EncodeVecU64(s: Vec<U64>): (b: Bytes)
    ensures |b| == 8 + 8 * |s|
  {
    EncodeU64(|s|) + EncodeU64Items(s)
  }

  function DecodeVecU64(b: Bytes): Option<(Vec<U64>, Bytes)>
  {
    match DecodeU64(b)
    case None => None
    case Some((n, rest)) =>
      match DecodeU64Items(rest, n)
      case None => None
      case Some((xs, rest')) => if |xs| < TWO_64 then Some((xs, rest')) else None
  }

  lemma VecU64RoundTrip(s: Vec<U64>, rest: Bytes)
    ensures DecodeVecU64(EncodeVecU64(s) + rest) == Some((s, rest))
  {
    var tail := EncodeU64Items(s) + rest;
    assert EncodeVecU64(s) + rest == EncodeU64(|s|) + tail;
    U64RoundTrip(|s|, tail);
    U64ItemsRoundTrip(s, rest);
  }

  /** A `Vec<u8>`: its length as a `u64`, then its bytes. */
  function EncodeVecU8(s: Vec<U8>): (b: Bytes)
    ensures |b| == 8 + |s|
  {
    EncodeU64(|s|) + s
  }

  function DecodeVecU8(b: Bytes): Option<(Vec<U8>, Bytes)>
  {
    match DecodeU64(b)
    case None => None
    case Some((n, rest)) => if |rest| < n then None else Some((rest[..n], rest[n..]))
  }

  lemma VecU8RoundTrip(s: Vec<U8>, rest: Bytes)
    ensures DecodeVecU8(EncodeVecU8(s) + rest) == Some((s, rest))
  {
    var tail := s + rest;
    assert EncodeVecU8(s) + rest == EncodeU64(|s|) + tail;
    U64RoundTrip(|s|, tail);
    assert tail[..|s|] == s && tail[|s|..] == rest;
  }
}
