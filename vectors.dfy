/** The values and expected bytes of loleseri's own test suite, stated about
    the wire format of module Codec: the size of each type, the exact bytes
    serialize writes and the value deserialize reads back.  A few vectors are
    added to those of the test suite and are marked so where they appear. */
module Vectors {
  import opened Bytes
  import opened Values
  import opened Types
  import opened Codec

  // ---------------------------------------------------------------------
  // Numbers and bool
  // ---------------------------------------------------------------------

  /** bs is the encoding of the unsigned integer x exactly when bs has the
      type's width and reads as x least significant byte first. */
  lemma {:induction false} UnsignedVector(w: Width, x: nat, bs: seq<byte>)
    requires |bs| == w.Bytes() && FromLittleEndian(bs) == x
    ensures HasType(IntV(x), UInt(w))
    ensures Encode(UInt(w), IntV(x)) == bs && Decode(UInt(w), bs) == IntV(x)
  {
    LittleEndianOfFromLittleEndian(bs);
    assert bs[..|bs|] == bs;
  }

  /** bs is the encoding of the signed integer x exactly when bs has the
      type's width and its unsigned reading is x's two's complement pattern. */
  lemma {:induction false} SignedVector(w: Width, x: int, bs: seq<byte>)
    requires |bs| == w.Bytes() && FromUnsigned(FromLittleEndian(bs), w.Bytes()) == x
    ensures HasType(IntV(x), SInt(w))
    ensures Encode(SInt(w), IntV(x)) == bs && Decode(SInt(w), bs) == IntV(x)
  {
    var k, u := w.Bytes(), FromLittleEndian(bs);
    LittleEndianOfFromLittleEndian(bs);
    UnsignedRoundTrip(u, k);
    assert ToUnsigned(x, k) == u;
    assert Representation(SInt(w), IntV(x)) == LittleEndian(u, k);
    assert bs[..Size(SInt(w))] == bs;
    assert FromRepresentation(SInt(w), bs) == IntV(x);
  }

  /** uint8_t 123 is the byte 123; uint16_t 0xabcd is cd ab. */
  lemma {:induction false} Uint8And16Vectors()
    ensures Encode(UInt(W8), IntV(123)) == [123] && Decode(UInt(W8), [123]) == IntV(123)
    ensures Encode(UInt(W16), IntV(0xabcd)) == [0xcd, 0xab]
    ensures Decode(UInt(W16), [0xcd, 0xab]) == IntV(0xabcd)
  {
    UnsignedVector(W8, 123, [123]);
    UnsignedVector(W16, 0xabcd, [0xcd, 0xab]);
  }

  /** uint32_t 0x1234abcd is cd ab 34 12. */
  lemma {:induction false} Uint32Vector()
    ensures Encode(UInt(W32), IntV(0x1234abcd)) == [0xcd, 0xab, 0x34, 0x12]
    ensures Decode(UInt(W32), [0xcd, 0xab, 0x34, 0x12]) == IntV(0x1234abcd)
  {
    var bs: seq<byte> := [0xcd, 0xab, 0x34, 0x12];
    assert FromLittleEndian(bs[3..]) == 0x12;
    assert FromLittleEndian(bs[2..]) == 0x1234;
    assert FromLittleEndian(bs[1..]) == 0x1234ab;
    UnsignedVector(W32, 0x1234abcd, bs);
  }

  /** uint64_t 0xb13260d357679c5c is 5c 9c 67 57 d3 60 32 b1. */
  lemma {:induction false} Uint64Vector()
    ensures Encode(UInt(W64), IntV(0xb13260d357679c5c))
         == [0x5c, 0x9c, 0x67, 0x57, 0xd3, 0x60, 0x32, 0xb1]
    ensures Decode(UInt(W64), [0x5c, 0x9c, 0x67, 0x57, 0xd3, 0x60, 0x32, 0xb1])
         == IntV(0xb13260d357679c5c)
  {
    var bs: seq<byte> := [0x5c, 0x9c, 0x67, 0x57, 0xd3, 0x60, 0x32, 0xb1];
    assert FromLittleEndian(bs[7..]) == 0xb1;
    assert FromLittleEndian(bs[6..]) == 0xb132;
    assert FromLittleEndian(bs[5..]) == 0xb13260;
    assert FromLittleEndian(bs[4..]) == 0xb13260d3;
    assert FromLittleEndian(bs[3..]) == 0xb13260d357;
    assert FromLittleEndian(bs[2..]) == 0xb13260d35767;
    assert FromLittleEndian(bs[1..]) == 0xb13260d357679c;
    UnsignedVector(W64, 0xb13260d357679c5c, bs);
  }

  /** int8_t 123 is the byte 123; int16_t 0x1234 is 34 12.  Added vector:
      int16_t -2 is its two's complement pattern fe ff and reads back
      negative. */
  lemma {:induction false} Int8And16Vectors()
    ensures Encode(SInt(W8), IntV(123)) == [123] && Decode(SInt(W8), [123]) == IntV(123)
    ensures Encode(SInt(W16), IntV(0x1234)) == [0x34, 0x12]
    ensures Decode(SInt(W16), [0x34, 0x12]) == IntV(0x1234)
    ensures Encode(SInt(W16), IntV(-2)) == [0xfe, 0xff]
    ensures Decode(SInt(W16), [0xfe, 0xff]) == IntV(-2)
  {
    SignedVector(W8, 123, [123]);
    SignedVector(W16, 0x1234, [0x34, 0x12]);
    SignedVector(W16, -2, [0xfe, 0xff]);
  }

  /** int32_t 0x1234abcd is cd ab 34 12. */
  lemma {:induction false} Int32Vector()
    ensures Encode(SInt(W32), IntV(0x1234abcd)) == [0xcd, 0xab, 0x34, 0x12]
    ensures Decode(SInt(W32), [0xcd, 0xab, 0x34, 0x12]) == IntV(0x1234abcd)
  {
    var bs: seq<byte> := [0xcd, 0xab, 0x34, 0x12];
    assert FromLittleEndian(bs[3..]) == 0x12;
    assert FromLittleEndian(bs[2..]) == 0x1234;
    assert FromLittleEndian(bs[1..]) == 0x1234ab;
    SignedVector(W32, 0x1234abcd, bs);
  }

  /** int64_t 0x1677a4815561cdf3 is f3 cd 61 55 81 a4 77 16. */
  lemma {:induction false} Int64Vector()
    ensures Encode(SInt(W64), IntV(0x1677a4815561cdf3))
         == [0xf3, 0xcd, 0x61, 0x55, 0x81, 0xa4, 0x77, 0x16]
    ensures Decode(SInt(W64), [0xf3, 0xcd, 0x61, 0x55, 0x81, 0xa4, 0x77, 0x16])
         == IntV(0x1677a4815561cdf3)
  {
    var bs: seq<byte> := [0xf3, 0xcd, 0x61, 0x55, 0x81, 0xa4, 0x77, 0x16];
    assert FromLittleEndian(bs[7..]) == 0x16;
    assert FromLittleEndian(bs[6..]) == 0x1677;
    assert FromLittleEndian(bs[5..]) == 0x1677a4;
    assert FromLittleEndian(bs[4..]) == 0x1677a481;
    assert FromLittleEndian(bs[3..]) == 0x1677a48155;
    assert FromLittleEndian(bs[2..]) == 0x1677a4815561;
    assert FromLittleEndian(bs[1..]) == 0x1677a4815561cd;
    SignedVector(W64, 0x1677a4815561cdf3, bs);
  }

  /** true is written as 1 and false as 0.  Added vectors: the bytes 2 and ff
      read as true too.  All of it is the Bool case of Encode and Decode. */
  lemma {:induction false} BoolVectors()
    ensures Encode(Bool, BoolV(true)) == [1] && Encode(Bool, BoolV(false)) == [0]
    ensures Decode(Bool, [1]) == BoolV(true) && Decode(Bool, [0]) == BoolV(false)
    ensures Decode(Bool, [2]) == BoolV(true) && Decode(Bool, [0xff]) == BoolV(true)
  {
  }

  /** A float or double is copied byte for byte, whatever its bits mean.  With
      floats as opaque byte patterns this is the Float and Double cases of
      Encode; the bytes are those of the test suite's values. */
  lemma {:induction false} FloatVectors()
    ensures Encode(Float, FloatV([0x79, 0xe9, 0xf6, 0x42])) == [0x79, 0xe9, 0xf6, 0x42]
    ensures Encode(Double, FloatV([0x01, 0x4c, 0x19, 0x78, 0x0a, 0x24, 0xfe, 0x40]))
         == [0x01, 0x4c, 0x19, 0x78, 0x0a, 0x24, 0xfe, 0x40]
  {
  }

  // ---------------------------------------------------------------------
  // Structs
  // ---------------------------------------------------------------------

  /** A struct with two listed members takes the sum of their sizes. */
  lemma {:induction false} TwoMembersSize(a: Ty, b: Ty)
    ensures Size(Struct([a, b])) == Size(a) + Size(b)
  {
    var fs := [a, b];
    assert fs[0] == a && fs[1] == b;
    StructSize(fs);
    assert MembersSize(fs, 0, 2) == Size(a) + Size(b);
  }

  /** A struct with two listed members is written as the first member's
      bytes followed by the second's. */
  lemma {:induction false} TwoMembers(a: Ty, b: Ty, va: Val, vb: Val)
    requires HasType(va, a) && HasType(vb, b)
    ensures Size(Struct([a, b])) == Size(a) + Size(b)
    ensures HasType(StructV([va, vb]), Struct([a, b]))
    ensures Encode(Struct([a, b]), StructV([va, vb])) == Encode(a, va) + Encode(b, vb)
  {
    TwoMembersSize(a, b);
    assert EncodeFields([a, b], [va, vb], 1) == Encode(b, vb) + [];
  }

  /** struct Foo { uint8_t hoge; float fuga; } with both members listed. */
  const Foo := Struct([UInt(W8), Float])

  /** struct Bar { uint16_t orange; Foo banana; } with both members listed. */
  const Bar := Struct([UInt(W16), Foo])

  /** struct Baz { Foo grape[2]; uint8_t kiwi[5]; Bar melon[3]; }. */
  const Baz := Struct([CArray(Foo, 2), CArray(UInt(W8), 5), CArray(Bar, 3)])

  /** Foo is laid out as hoge, then the 4 bytes of fuga. */
  lemma {:induction false} FooLayout(hoge: byte, fuga: seq<byte>)
    requires |fuga| == 4
    ensures HasType(StructV([IntV(hoge), FloatV(fuga)]), Foo)
    ensures Encode(Foo, StructV([IntV(hoge), FloatV(fuga)])) == [hoge] + fuga
  {
    UnsignedVector(W8, hoge, [hoge]);
    TwoMembers(UInt(W8), Float, IntV(hoge), FloatV(fuga));
  }

  /** Bar is laid out as orange, least significant byte first, then
      banana's members in their own list order. */
  lemma {:induction false} BarLayout(orange: nat, hoge: byte, fuga: seq<byte>)
    requires orange < 0x10000 && |fuga| == 4
    ensures Encode(Bar, StructV([IntV(orange), StructV([IntV(hoge), FloatV(fuga)])]))
         == [orange % 256, orange / 256] + ([hoge] + fuga)
  {
    FooLayout(hoge, fuga);
    UnsignedVector(W16, orange, [orange % 256, orange / 256]);
    TwoMembers(UInt(W16), Foo, IntV(orange), StructV([IntV(hoge), FloatV(fuga)]));
  }

  /** Foo {123, 987.654f} takes 5 bytes: 7b, then db e9 76 44. */
  lemma {:induction false} FooVector()
    ensures Size(Foo) == 5
    ensures Encode(Foo, StructV([IntV(123), FloatV([0xdb, 0xe9, 0x76, 0x44])]))
         == [0x7b, 0xdb, 0xe9, 0x76, 0x44]
  {
    FooLayout(123, [0xdb, 0xe9, 0x76, 0x44]);
  }

  /** Bar {0x9876, {11, 2233.4455f}} takes 7 bytes: 76 98, then 0b, then
      21 97 0b 45. */
  lemma {:induction false} BarVector()
    ensures Size(Bar) == 7
    ensures Encode(Bar, StructV([IntV(0x9876), StructV([IntV(11), FloatV([0x21, 0x97, 0x0b, 0x45])])]))
         == [0x76, 0x98, 0x0b, 0x21, 0x97, 0x0b, 0x45]
  {
    BarLayout(0x9876, 11, [0x21, 0x97, 0x0b, 0x45]);
  }

  /** Baz, whose three members are C arrays, takes 2 * 5 + 5 + 3 * 7 = 36 bytes. */
  lemma {:induction false} BazSize()
    ensures Size(Baz) == 36
  {
    var fs := [CArray(Foo, 2), CArray(UInt(W8), 5), CArray(Bar, 3)];
    TwoMembersSize(UInt(W8), Float);
    TwoMembersSize(UInt(W16), Foo);
    ArraySize(fs[0]);
    ArraySize(fs[1]);
    ArraySize(fs[2]);
    StructSize(fs);
    assert MembersSize(fs, 0, 3) == Size(fs[0]) + Size(fs[1]) + Size(fs[2]);
  }

  // ---------------------------------------------------------------------
  // Arrays
  // ---------------------------------------------------------------------

  /** A C array of three elements is written as the first element's bytes,
      then the second's, then the third's. */
  lemma {:induction false} ThreeElems(e: Ty, es: seq<Val>)
    requires |es| == 3 && forall i :: 0 <= i < 3 ==> HasType(es[i], e)
    ensures HasType(ArrV(es), CArray(e, 3))
    ensures Encode(CArray(e, 3), ArrV(es)) == Encode(e, es[0]) + (Encode(e, es[1]) + Encode(e, es[2]))
  {
    assert EncodeElems(e, es, 2) == Encode(e, es[2]) + [];
    assert EncodeElems(e, es, 0) == Encode(e, es[0]) + EncodeElems(e, es, 1);
  }

  /** Elements ix on of an array of uint8_t are written as their values, one
      byte each, in index order. */
  lemma {:induction false} ByteElems(es: seq<Val>, bs: seq<byte>, ix: nat)
    requires |es| == |bs| && ix <= |es| && forall i :: 0 <= i < |es| ==> es[i] == IntV(bs[i])
    ensures forall i :: 0 <= i < |es| ==> HasType(es[i], UInt(W8))
    ensures EncodeElems(UInt(W8), es, ix) == bs[ix..]
    decreases |es| - ix
  {
    assert forall i :: 0 <= i < |es| ==> HasType(es[i], UInt(W8));
    if ix < |es| {
      ByteElems(es, bs, ix + 1);
      assert Encode(UInt(W8), es[ix]) == [bs[ix]];
      assert bs[ix..] == [bs[ix]] + bs[ix + 1..];
    }
  }

  /** A std::array of uint8_t is written as exactly its bytes, in index
      order. */
  lemma {:induction false} ByteArray(bs: seq<byte>)
    ensures HasType(ArrV(seq(|bs|, i requires 0 <= i < |bs| => IntV(bs[i]))), StdArray(UInt(W8), |bs|))
    ensures Encode(StdArray(UInt(W8), |bs|), ArrV(seq(|bs|, i requires 0 <= i < |bs| => IntV(bs[i])))) == bs
  {
    ByteElems(seq(|bs|, i requires 0 <= i < |bs| => IntV(bs[i])), bs, 0);
  }

  /** uint16_t[3] {0xa1b2, 0xc3d4, 0xe5f6} is written element by element in
      index order, each least significant byte first. */
  lemma {:induction false} CArrayVector()
    ensures Size(CArray(UInt(W16), 3)) == 6
    ensures Encode(CArray(UInt(W16), 3), ArrV([IntV(0xa1b2), IntV(0xc3d4), IntV(0xe5f6)]))
         == [0xb2, 0xa1, 0xd4, 0xc3, 0xf6, 0xe5]
  {
    UnsignedVector(W16, 0xa1b2, [0xb2, 0xa1]);
    UnsignedVector(W16, 0xc3d4, [0xd4, 0xc3]);
    UnsignedVector(W16, 0xe5f6, [0xf6, 0xe5]);
    ThreeElems(UInt(W16), [IntV(0xa1b2), IntV(0xc3d4), IntV(0xe5f6)]);
  }

  /** struct { double hoge; int32_t fuga; }, both members listed in that order. */
  const Inner := Struct([Double, SInt(W32)])

  /** struct { Inner banana; int8_t orange; }, both members listed in that order. */
  const Outer := Struct([Inner, SInt(W8)])

  /** std::array<Outer, 11> takes 13 * 11 = 143 bytes. */
  lemma {:induction false} StdArrayOfStructSize()
    ensures Size(Outer) == 13
    ensures Size(StdArray(Outer, 11)) == 143
  {
    TwoMembersSize(Double, SInt(W32));
    TwoMembersSize(Inner, SInt(W8));
    ArraySize(StdArray(Outer, 11));
  }
}
