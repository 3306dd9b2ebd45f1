/**
  How an integer of a fixed-width C type is laid out in memory on a little-endian
  machine: its two's-complement bit pattern, read as an unsigned number, split into
  bytes with the least significant byte at the lowest address.
*/
module Storage {
  import opened Arith
  import opened Digits
  import opened Dump

  /** An integer type `T`: `sizeof(T)` and whether it is signed (two's complement). */
  datatype IntType = IntType(size: nat, signed: bool)

  /** Every C object type occupies at least one byte. */
  predicate ValidType(t: IntType) {
    t.size >= 1
  }

  /** The number of distinct bit patterns of `t`: two to the power of its bit width. */
  function Modulus(t: IntType): nat {
    Pow(256, t.size)
  }

  /** The values `t` can hold. */
  predicate InRange(t: IntType, x: int) {
    if t.signed then -(Modulus(t) / 2) <= x < Modulus(t) / 2 else 0 <= x < Modulus(t)
  }

  /** A type of at least one byte has at least 256 bit patterns. */
  lemma ModulusAtLeastByte(t: IntType)
    requires ValidType(t)
    ensures Modulus(t) >= 256 && Modulus(t) == 256 * Pow(256, t.size - 1)
  {
  }

  /**
    The bit pattern of `x` in `t`, read as an unsigned number: it fits the width, and
    for a signed type its top bit (the sign bit) is set exactly when `x` is negative.
  */
  function Pattern(t: IntType, x: int): (u: nat)
    requires ValidType(t) && InRange(t, x)
    ensures u < Modulus(t)
    ensures t.signed ==> ((u >= Modulus(t) / 2) <==> x < 0)
  {
    if x < 0 then x + Modulus(t) else x
  }

  /** The `n` bytes of `u`, least significant first. */
  function LittleEndian(u: nat, n: nat): (bs: seq<Byte>)
    ensures |bs| == n
  {
    if n == 0 then [] else [u % 256] + LittleEndian(u / 256, n - 1)
  }

  /** The number whose little-endian bytes are `bs`. */
  function FromLittleEndian(bs: seq<Byte>): (u: nat)
    ensures u < Pow(256, |bs|)
  {
    if |bs| == 0 then 0 else bs[0] + 256 * FromLittleEndian(bs[1..])
  }

  /** Reading back the bytes of a number that fits in `n` bytes gives the number. */
  lemma {:induction false} FromToLittleEndian(u: nat, n: nat)
    requires u < Pow(256, n)
    ensures FromLittleEndian(LittleEndian(u, n)) == u
  {
    if n > 0 {
      DivBelow(u, 256, Pow(256, n - 1));
      FromToLittleEndian(u / 256, n - 1);
      assert LittleEndian(u, n)[1..] == LittleEndian(u / 256, n - 1);
    }
  }

  /** Every byte sequence is the little-endian encoding of the number it denotes. */
  lemma {:induction false} ToFromLittleEndian(bs: seq<Byte>)
    ensures LittleEndian(FromLittleEndian(bs), |bs|) == bs
  {
    if |bs| > 0 {
      ToFromLittleEndian(bs[1..]);
      var r := FromLittleEndian(bs[1..]);
      DivModUnique(r, bs[0], 256);
      assert bs == [bs[0]] + bs[1..];
    }
  }

  /** The bytes of an object of type `t` holding `x`, lowest address first. */
  function Bytes(t: IntType, x: int): (bs: seq<Byte>)
    requires ValidType(t) && InRange(t, x)
    ensures |bs| == t.size
  {
    LittleEndian(Pattern(t, x), t.size)
  }

  /** The value an object of type `t` holds when its bytes, lowest address first, are `bs`. */
  function ValueOf(t: IntType, bs: seq<Byte>): (x: int)
    requires ValidType(t) && |bs| == t.size
    ensures InRange(t, x)
  {
    var u, m := FromLittleEndian(bs), Modulus(t);
    ModulusAtLeastByte(t);
    assert u < m && m / 2 + m / 2 == m;
    if t.signed && u >= m / 2 then u - m else u
  }

  /** The bytes of a value hold that value. */
  lemma ValueOfBytes(t: IntType, x: int)
    requires ValidType(t) && InRange(t, x)
    ensures ValueOf(t, Bytes(t, x)) == x
  {
    FromToLittleEndian(Pattern(t, x), t.size);
  }

  /** Every byte pattern of the right size is the storage of exactly the value it holds. */
  lemma BytesOfValue(t: IntType, bs: seq<Byte>)
    requires ValidType(t) && |bs| == t.size
    ensures Bytes(t, ValueOf(t, bs)) == bs
  {
    ToFromLittleEndian(bs);
  }

  /** The largest number of `n` bytes is stored as `n` bytes of 255. */
  lemma {:induction false} LittleEndianAllOnes(n: nat)
    ensures LittleEndian(Pow(256, n) - 1, n) == seq(n, _ => 255)
  {
    if n > 0 {
      var q := Pow(256, n - 1) - 1;
      assert Pow(256, n) - 1 == q * 256 + 255;
      DivModUnique(q, 255, 256);
      LittleEndianAllOnes(n - 1);
    }
  }

  /** A signed `-1` is stored with every bit set: each byte is 255. */
  lemma BytesMinusOne(t: IntType)
    requires ValidType(t) && t.signed
    ensures InRange(t, -1)
    ensures Bytes(t, -1) == seq(t.size, _ => 255)
  {
    ModulusAtLeastByte(t);
    LittleEndianAllOnes(t.size);
  }
}
