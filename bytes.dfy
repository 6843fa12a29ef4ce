/** Bytes and the integer encodings the program uses on them. */
module Bytes {

  /** One byte, as Python's `bytes` holds it. */
  type byte = b: int | 0 <= b < 256

  /** 256 to the power n: one more than the largest value n bytes can hold. */
  function Pow256(n: nat): (p: nat)
    ensures p >= 1
  {
    if n == 0 then 1 else 256 * Pow256(n - 1)
  }

  /** n zero bytes. */
  function Zeros(n: nat): (z: seq<byte>)
    ensures |z| == n
    ensures forall i | 0 <= i < n :: z[i] == 0
  {
    if n == 0 then [] else [0] + Zeros(n - 1)
  }

  /** The unsigned value of s read most significant byte first, as
      `int.from_bytes(s, byteorder="big")`; the empty sequence reads as 0. */
  function BigEndian(s: seq<byte>): (v: nat)
    ensures v < Pow256(|s|)
  {
    if s == [] then 0
    else
      var init := s[..|s| - 1];
      var v0 := BigEndian(init);
      assert v0 * 256 <= (Pow256(|init|) - 1) * 256;
      v0 * 256 + s[|s| - 1]
  }

  /** The unsigned value of s read least significant byte first. */
  function FromLittleEndian(s: seq<byte>): (v: nat)
    ensures v < Pow256(|s|)
  {
    if s == [] then 0
    else
      var v0 := FromLittleEndian(s[1..]);
      assert 256 * v0 <= 256 * (Pow256(|s| - 1) - 1);
      s[0] + 256 * v0
  }

  /** v as len bytes, least significant first, as `v.to_bytes(len, byteorder="little")`. Python
      raises OverflowError when v does not fit; this encoding then keeps the low len bytes, and
      the writer's callers rule that case out. */
  function ToLittleEndian(v: nat, len: nat): (s: seq<byte>)
    ensures |s| == len
    ensures v < Pow256(len) ==> FromLittleEndian(s) == v
  {
    if len == 0 then []
    else
      assert v < Pow256(len) ==> v / 256 < Pow256(len - 1);
      [v % 256] + ToLittleEndian(v / 256, len - 1)
  }

  /** Encoding is the inverse of decoding as well: no two byte strings of one length decode alike. */
  lemma {:induction false} LittleEndianRoundTrip(s: seq<byte>)
    ensures ToLittleEndian(FromLittleEndian(s), |s|) == s
  {
    if s != [] {
      LittleEndianRoundTrip(s[1..]);
      assert FromLittleEndian(s) / 256 == FromLittleEndian(s[1..]);
      assert FromLittleEndian(s) % 256 == s[0];
    }
  }

  /** A four-byte big-endian field, spelt out byte by byte. */
  lemma {:induction false} BigEndianFour(s: seq<byte>)
    requires |s| == 4
    ensures BigEndian(s) == (s[0] as int) * 0x100_0000 + (s[1] as int) * 0x1_0000 + (s[2] as int) * 0x100 + s[3]
  {
    var s1, s2, s3 := s[..1], s[..2], s[..3];
    assert s3[..2] == s2 && s2[..1] == s1 && s1[..0] == [];
    assert BigEndian(s1) == s[0];
    assert BigEndian(s2) == (s[0] as int) * 0x100 + s[1];
    assert BigEndian(s3) == (s[0] as int) * 0x1_0000 + (s[1] as int) * 0x100 + s[2];
    assert s[..|s| - 1] == s3;
  }

  /** The powers that bound the 1-, 2- and 4-byte fields. */
  lemma {:induction false} Pow256Values()
    ensures Pow256(1) == 0x100 && Pow256(2) == 0x1_0000 && Pow256(4) == 0x1_0000_0000
  {
  }
}
