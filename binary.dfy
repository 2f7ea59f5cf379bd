/**
 * Fixed-width integers as the JVM sees them and the little-endian byte
 * order that `ByteBuffer.order(ByteOrder.LITTLE_ENDIAN)` selects.
 */
module Binary {

  newtype byte = x: int | 0 <= x < 0x100

  /** Java's `int`. */
  newtype int32 = x: int | -0x8000_0000 <= x < 0x8000_0000

  /** The raw 64 bits of a Java `double`; the model never interprets them. */
  newtype bits64 = x: int | 0 <= x < 0x1_0000_0000_0000_0000

  const TwoTo32: nat := 0x1_0000_0000

  function Pow256(n: nat): (p: nat)
    ensures p > 0
  {
    if n == 0 then 1 else 256 * Pow256(n - 1)
  }

  lemma Pow256Values()
    ensures Pow256(4) == 0x1_0000_0000
    ensures Pow256(8) == 0x1_0000_0000_0000_0000
  {
    assert Pow256(2) == 0x1_0000;
    assert Pow256(4) == 0x1_0000_0000;
    assert Pow256(6) == 0x1_0000_0000_0000;
  }

  /** The unsigned value of `s`, least significant byte first. */
  function FromLE(s: seq<byte>): (u: nat)
    ensures u < Pow256(|s|)
  {
    if s == [] then 0 else s[0] as int + 256 * FromLE(s[1..])
  }

  /** The `n` least significant bytes of `u`, least significant first. */
  function ToLE(u: nat, n: nat): (s: seq<byte>)
    ensures |s| == n
  {
    if n == 0 then [] else [(u % 256) as byte] + ToLE(u / 256, n - 1)
  }

  lemma {:induction false} FromLEToLE(u: nat, n: nat)
    requires u < Pow256(n)
    ensures FromLE(ToLE(u, n)) == u
  {
    if n > 0 {
      FromLEToLE(u / 256, n - 1);
      assert ToLE(u, n)[1..] == ToLE(u / 256, n - 1);
    }
  }

  lemma {:induction false} ToLEFromLE(s: seq<byte>)
    ensures ToLE(FromLE(s), |s|) == s
  {
    if s != [] {
      var u := FromLE(s);
      assert u % 256 == s[0] as int && u / 256 == FromLE(s[1..]);
      ToLEFromLE(s[1..]);
    }
  }

  /** Reinterprets 32 unsigned bits as a two's-complement `int`. */
  function ToInt32(u: nat): (x: int32)
    requires u < TwoTo32
    ensures (x as int - u) % TwoTo32 == 0
  {
    if u < 0x8000_0000 then u as int32 else (u - TwoTo32) as int32
  }

  /** The 32 unsigned bits of a two's-complement `int`. */
  function FromInt32(x: int32): (u: nat)
    ensures u < TwoTo32 && ToInt32(u) == x
  {
    if x < 0 then x as int + TwoTo32 else x as int
  }

  lemma FromInt32ToInt32(u: nat)
    requires u < TwoTo32
    ensures FromInt32(ToInt32(u)) == u
  {
  }

  /** Java's `int` arithmetic: the result of `x` taken modulo 2^32, in range. */
  function Wrap32(x: int): (r: int32)
    ensures (r as int - x) % TwoTo32 == 0
    ensures -0x8000_0000 <= x < 0x8000_0000 ==> r as int == x
  {
    ToInt32(x % TwoTo32)
  }

  /** `ByteBuffer.getInt(off)` under little-endian order. */
  function Int32At(b: seq<byte>, off: nat): int32
    requires off + 4 <= |b|
  {
    Pow256Values();
    ToInt32(FromLE(b[off..off + 4]))
  }

  /** The raw bits that `ByteBuffer.getDouble(off)` reinterprets, little-endian. */
  function Bits64At(b: seq<byte>, off: nat): bits64
    requires off + 8 <= |b|
  {
    Pow256Values();
    FromLE(b[off..off + 8]) as bits64
  }

  /** `ByteBuffer.putInt` under little-endian order. */
  function EncodeInt32(x: int32): (s: seq<byte>)
    ensures |s| == 4
  {
    ToLE(FromInt32(x), 4)
  }

  /** `ByteBuffer.putDouble` under little-endian order, for the raw bits of the value. */
  function EncodeBits64(d: bits64): (s: seq<byte>)
    ensures |s| == 8
  {
    ToLE(d as nat, 8)
  }

  lemma Int32AtEncoded(b: seq<byte>, off: nat, x: int32)
    requires off + 4 <= |b| && b[off..off + 4] == EncodeInt32(x)
    ensures Int32At(b, off) == x
  {
    Pow256Values();
    FromLEToLE(FromInt32(x), 4);
  }

  lemma EncodedInt32At(b: seq<byte>, off: nat)
    requires off + 4 <= |b|
    ensures EncodeInt32(Int32At(b, off)) == b[off..off + 4]
  {
    Pow256Values();
    FromInt32ToInt32(FromLE(b[off..off + 4]));
    ToLEFromLE(b[off..off + 4]);
  }

  lemma Bits64AtEncoded(b: seq<byte>, off: nat, d: bits64)
    requires off + 8 <= |b| && b[off..off + 8] == EncodeBits64(d)
    ensures Bits64At(b, off) == d
  {
    Pow256Values();
    FromLEToLE(d as nat, 8);
  }

  lemma EncodedBits64At(b: seq<byte>, off: nat)
    requires off + 8 <= |b|
    ensures EncodeBits64(Bits64At(b, off)) == b[off..off + 8]
  {
    Pow256Values();
    ToLEFromLE(b[off..off + 8]);
  }
}
