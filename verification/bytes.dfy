/** Bytes and 32-bit signed integers as the editor's `BitConverter` calls
    produce them. The host byte order is fixed here as little-endian: the
    least significant byte comes first. */
module Bytes {

  type byte = b: int | 0 <= b < 256

  const TwoTo31: int := 0x8000_0000
  const TwoTo32: int := 0x1_0000_0000

  /** True when `v` fits a C# `int`. */
  predicate IsInt32(v: int) {
    -TwoTo31 <= v < TwoTo31
  }

  /** C#'s unchecked `int` arithmetic: the result of a sum reduced into the
      32-bit two's-complement range. */
  function Wrap32(v: int): (r: int)
    ensures IsInt32(r)
    ensures IsInt32(v) ==> r == v
  {
    (v + TwoTo31) % TwoTo32 - TwoTo31
  }

  /** The wrapped value differs from the exact one by a whole number of
      2^32 steps. */
  lemma Wrap32Congruent(v: int)
    ensures (Wrap32(v) - v) % TwoTo32 == 0
  {
  }

  function Pow256(n: nat): (r: nat)
    ensures r >= 1
  {
    if n == 0 then 1 else 256 * Pow256(n - 1)
  }

  /** The `n` least significant base-256 digits of `u`, least significant first. */
  function UIntToLE(u: nat, n: nat): (r: seq<byte>)
    ensures |r| == n
  {
    if n == 0 then [] else [u % 256] + UIntToLE(u / 256, n - 1)
  }

  /** The unsigned value of a little-endian digit sequence. */
  function LEToUInt(bs: seq<byte>): (r: nat)
    ensures r < Pow256(|bs|)
  {
    if bs == [] then 0
    else
      var rest := LEToUInt(bs[1..]);
      assert bs[0] + 256 * rest <= 255 + 256 * (Pow256(|bs| - 1) - 1);
      bs[0] + 256 * rest
  }

  lemma {:induction false} LEToUIntOfUIntToLE(u: nat, n: nat)
    requires u < Pow256(n)
    ensures LEToUInt(UIntToLE(u, n)) == u
  {
    if n > 0 {
      var bs := UIntToLE(u, n);
      assert bs[1..] == UIntToLE(u / 256, n - 1);
      assert u / 256 < Pow256(n - 1);
      LEToUIntOfUIntToLE(u / 256, n - 1);
    }
  }

  lemma {:induction false} UIntToLEOfLEToUInt(bs: seq<byte>)
    ensures UIntToLE(LEToUInt(bs), |bs|) == bs
  {
    if bs != [] {
      var u := LEToUInt(bs);
      assert u % 256 == bs[0];
      assert u / 256 == LEToUInt(bs[1..]);
      UIntToLEOfLEToUInt(bs[1..]);
    }
  }

  /** `BitConverter.GetBytes(int)`: four bytes of two's complement, low byte first. */
  function Int32ToBytes(v: int): (r: seq<byte>)
    requires IsInt32(v)
    ensures |r| == 4
  {
    UIntToLE(if v < 0 then v + TwoTo32 else v, 4)
  }

  /** `BitConverter.ToInt32`: four bytes read back as a signed value. */
  function BytesToInt32(bs: seq<byte>): (r: int)
    requires |bs| == 4
    ensures IsInt32(r)
  {
    assert Pow256(4) == TwoTo32;
    var u := LEToUInt(bs);
    if u >= TwoTo31 then u - TwoTo32 else u
  }

  /** The bytes of `v` are the base-256 digits of its 32-bit two's-complement
      pattern, least significant first. */
  lemma Int32ToBytesIsLittleEndian(v: int)
    requires IsInt32(v)
    ensures LEToUInt(Int32ToBytes(v)) == (v + TwoTo32) % TwoTo32
    ensures Int32ToBytes(v)[0] == (v + TwoTo32) % 256
  {
    var u := if v < 0 then v + TwoTo32 else v;
    assert Pow256(4) == TwoTo32;
    LEToUIntOfUIntToLE(u, 4);
  }

  lemma Int32RoundTrip(v: int)
    requires IsInt32(v)
    ensures BytesToInt32(Int32ToBytes(v)) == v
  {
    Int32ToBytesIsLittleEndian(v);
  }

  lemma BytesRoundTrip(bs: seq<byte>)
    requires |bs| == 4
    ensures Int32ToBytes(BytesToInt32(bs)) == bs
  {
    assert Pow256(4) == TwoTo32;
    UIntToLEOfLEToUInt(bs);
  }
}
