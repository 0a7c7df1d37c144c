/** Bytes and the in-memory representation of integers on the little-endian
    target that loleseri supports (the big-endian branch of the header does not
    compile).  `std::copy` of an object's bytes through `reinterpret_cast` is
    modelled by `LittleEndian` (value to bytes) and `FromLittleEndian` (bytes to
    value); signed integers go through their two's complement pattern. */
module Bytes {

  type byte = b: int | 0 <= b < 256

  /** 256^k: the number of distinct patterns of k bytes. */
  function Pow256(k: nat): (r: nat)
    ensures r >= 1
  {
    if k == 0 then 1 else 256 * Pow256(k - 1)
  }

  /** Half of 256^k (k >= 1): the bound of the signed range of a k-byte integer. */
  function Half(k: nat): (r: nat)
    requires k >= 1
    ensures r >= 1 && 2 * r == Pow256(k)
  {
    128 * Pow256(k - 1)
  }

  /** The k bytes of x, least significant first. */
  function LittleEndian(x: nat, k: nat): (r: seq<byte>)
    ensures |r| == k
  {
    if k == 0 then [] else [x % 256] + LittleEndian(x / 256, k - 1)
  }

  /** The unsigned value of a little-endian byte pattern. */
  function FromLittleEndian(bs: seq<byte>): (x: nat)
    ensures x < Pow256(|bs|)
  {
    if bs == [] then 0 else bs[0] + 256 * FromLittleEndian(bs[1..])
  }

  /** The unsigned pattern of a signed k-byte integer (two's complement). */
  function ToUnsigned(x: int, k: nat): (u: nat)
    requires k >= 1 && -(Half(k) as int) <= x < Half(k)
    ensures u < Pow256(k)
    ensures x >= 0 ==> u == x
    ensures x < 0 ==> u >= Half(k)
  {
    if x < 0 then x + Pow256(k) else x
  }

  /** The signed value of a k-byte unsigned pattern (two's complement). */
  function FromUnsigned(u: nat, k: nat): (x: int)
    requires k >= 1 && u < Pow256(k)
    ensures -(Half(k) as int) <= x < Half(k)
    ensures (x < 0) == (u >= Half(k))
  {
    if u >= Half(k) then u - Pow256(k) else u
  }

  lemma {:induction false} DivMod256(x: nat)
    ensures x == x % 256 + 256 * (x / 256)
  {
  }

  /** Byte i of the representation is digit i of x in base 256. */
  lemma {:induction false} LittleEndianDigit(x: nat, k: nat, i: nat)
    requires i < k
    ensures LittleEndian(x, k)[i] == (x / Pow256(i)) % 256
  {
    if i > 0 {
      LittleEndianDigit(x / 256, k - 1, i - 1);
      DivDiv(x, 256, Pow256(i - 1));
    }
  }

  lemma {:induction false} DivDiv(x: nat, a: nat, b: nat)
    requires a > 0 && b > 0
    ensures x / a / b == x / (a * b)
  {
    var q := x / a / b;
    var r1 := x % a;
    var r2 := (x / a) % b;
    assert x / a == q * b + r2;
    assert x == (q * b + r2) * a + r1;
    assert x == q * (a * b) + (r2 * a + r1);
    assert r2 * a + r1 < a * b by {
      assert r2 <= b - 1;
      assert r2 * a <= (b - 1) * a;
    }
    assert 0 <= r2 * a + r1;
    DivUnique(x, a * b, q, r2 * a + r1);
  }

  lemma {:induction false} DivUnique(x: nat, d: nat, q: nat, r: nat)
    requires d > 0 && r < d && x == q * d + r
    ensures x / d == q
  {
    var q' := x / d;
    var r' := x % d;
    assert x == q' * d + r';
    if q' < q {
      assert (q - q') * d == r' - r;
      AtLeastOnce(q - q', d);
    } else if q' > q {
      assert (q' - q) * d == r - r';
      AtLeastOnce(q' - q, d);
    }
  }

  lemma {:induction false} AtLeastOnce(a: int, d: nat)
    requires a >= 1
    ensures a * d >= d
  {
  }

  /** Reading back the bytes of an in-range value yields the value. */
  lemma {:induction false} FromLittleEndianOfLittleEndian(x: nat, k: nat)
    requires x < Pow256(k)
    ensures FromLittleEndian(LittleEndian(x, k)) == x
  {
    if k > 0 {
      DivMod256(x);
      assert x / 256 < Pow256(k - 1);
      FromLittleEndianOfLittleEndian(x / 256, k - 1);
      assert LittleEndian(x, k)[1..] == LittleEndian(x / 256, k - 1);
    }
  }

  /** Every byte pattern is the representation of the value it reads as. */
  lemma {:induction false} LittleEndianOfFromLittleEndian(bs: seq<byte>)
    ensures LittleEndian(FromLittleEndian(bs), |bs|) == bs
  {
    if bs != [] {
      var y := FromLittleEndian(bs[1..]);
      var x := bs[0] + 256 * y;
      DivUnique(x, 256, y, bs[0]);
      assert x % 256 == bs[0];
      LittleEndianOfFromLittleEndian(bs[1..]);
      assert bs == [bs[0]] + bs[1..];
    }
  }

  /** Two's complement is a bijection between the signed and unsigned k-byte ranges. */
  lemma {:induction false} SignedRoundTrip(x: int, k: nat)
    requires k >= 1 && -(Half(k) as int) <= x < Half(k)
    ensures FromUnsigned(ToUnsigned(x, k), k) == x
  {
  }

  lemma {:induction false} UnsignedRoundTrip(u: nat, k: nat)
    requires k >= 1 && u < Pow256(k)
    ensures ToUnsigned(FromUnsigned(u, k), k) == u
  {
  }
}
