/** Unsigned big-endian integers, Python's `int.from_bytes(b, 'big')`. */
module ByteOrder {

  /** One element of a Python `bytes` object. */
  type Byte = b: int | 0 <= b < 256

  function Pow256(n: nat): (p: nat)
    ensures p >= 1
  {
    if n == 0 then 1 else 256 * Pow256(n - 1)
  }

  /** `int.from_bytes(s, 'big')`: the first byte is the most significant. */
  function FromBytesBig(s: seq<Byte>): (v: nat)
    ensures v < Pow256(|s|)
  {
    if s == [] then 0 else FromBytesBig(s[..|s| - 1]) * 256 + s[|s| - 1]
  }

  /** `v.to_bytes(n, 'big')`, the inverse of `FromBytesBig` on `n` bytes. */
  function ToBytesBig(v: nat, n: nat): (s: seq<Byte>)
    requires v < Pow256(n)
    ensures |s| == n
  {
    if n == 0 then [] else ToBytesBig(v / 256, n - 1) + [v % 256]
  }

  /** Encoding a value that fits in `n` bytes and decoding it gives the value back. */
  lemma {:induction false} FromToBytesBig(v: nat, n: nat)
    requires v < Pow256(n)
    ensures FromBytesBig(ToBytesBig(v, n)) == v
  {
    if n > 0 {
      var s := ToBytesBig(v, n);
      assert s[..|s| - 1] == ToBytesBig(v / 256, n - 1);
      FromToBytesBig(v / 256, n - 1);
    }
  }

  /** Decoding a byte string and encoding it at the same width gives the bytes back. */
  lemma {:induction false} ToFromBytesBig(s: seq<Byte>)
    ensures ToBytesBig(FromBytesBig(s), |s|) == s
  {
    if s != [] {
      var init := s[..|s| - 1];
      var v := FromBytesBig(s);
      assert v / 256 == FromBytesBig(init) && v % 256 == s[|s| - 1];
      ToFromBytesBig(init);
      assert s == init + [s[|s| - 1]];
    }
  }

  /** Three bytes big-endian: `b0 * 65536 + b1 * 256 + b2`. */
  lemma FromThreeBytes(b0: Byte, b1: Byte, b2: Byte)
    ensures FromBytesBig([b0, b1, b2]) == b0 as int * 65536 + b1 as int * 256 + b2
  {
    assert [b0][..0] == [];
    assert FromBytesBig([b0]) == b0;
    assert [b0, b1][..1] == [b0];
    assert FromBytesBig([b0, b1]) == b0 as int * 256 + b1;
    assert [b0, b1, b2][..2] == [b0, b1];
  }
}
