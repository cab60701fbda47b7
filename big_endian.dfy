/** `vec_to_u64_big_endian` (consensus/pbft/src/node/context.rs). */
module BigEndian {
  import opened Ints
  import Bincode

  /** The big-endian value of `s`: its first byte is the most significant. */
  function Value(s: Bytes): nat
  {
    if s == [] then 0 else 256 * Value(s[..|s| - 1]) + s[|s| - 1]
  }

  lemma {:induction false} ValueBound(s: Bytes)
    ensures Value(s) < Bincode.Pow256(|s|)
  {
    if s != [] {
      ValueBound(s[..|s| - 1]);
    }
  }

  /** Appending a zero byte multiplies the value by 256. */
  lemma {:induction false} ValuePadded(s: Bytes, zeros: nat)
    ensures Value(s + seq(zeros, _ => 0)) == Value(s) * Bincode.Pow256(zeros)
  {
    if zeros > 0 {
      var t := s + seq(zeros, _ => 0);
      assert t[..|t| - 1] == s + seq(zeros - 1, _ => 0);
      ValuePadded(s, zeros - 1);
    } else {
      assert s + seq(zeros, _ => 0) == s;
    }
  }

  /** Reading the bytes in reverse order as little-endian gives the same number. */
  lemma {:induction false} ValueIsReversedLE(s: Bytes)
    ensures Value(s) == Bincode.DecodeLE(Reverse(s))
  {
    if s != [] {
      ValueIsReversedLE(s[..|s| - 1]);
      assert Reverse(s)[1..] == Reverse(s[..|s| - 1]);
    }
  }

  function Reverse(s: Bytes): (r: Bytes)
    ensures |r| == |s|
  {
    if s == [] then [] else [s[|s| - 1]] + Reverse(s[..|s| - 1])
  }

  /**
   * The decoder's loop: byte `index` is placed at bit offset `(7 - index) * 8`.
   * Beyond eight bytes `7 - index` underflows, hence the precondition. The
   * lanes never overlap, so the source's `|=` is written as `+`.
   */
  method VecToU64BigEndian(bytes: Bytes) returns (num: U64)
    requires |bytes| <= 8
    ensures num == Value(bytes + seq(8 - |bytes|, _ => 0))
    ensures num == Value(bytes) * Bincode.Pow256(8 - |bytes|)
  {
    Bincode.Pow256Widths();
    var acc: nat := 0;
    var index := 0;
    while index < |bytes|
      invariant 0 <= index <= |bytes|
      invariant acc == Value(bytes[..index]) * Bincode.Pow256(8 - index)
    {
      var lane := Bincode.Pow256(7 - index);
      assert Bincode.Pow256(8 - index) == 256 * lane;
      assert bytes[..index + 1][..index] == bytes[..index];
      acc := acc + bytes[index] * lane;
      index := index + 1;
    }
    assert bytes[..index] == bytes;
    ValueBound(bytes);
    ValuePadded(bytes, 8 - |bytes|);
    ValueBound(bytes + seq(8 - |bytes|, _ => 0));
    num := acc;
  }
}
