/** The wire format as pure functions: `Encode` is what `serialize` writes and
    `Decode` what `deserialize` reads back, one case per serializer_impl /
    deserializer_impl specialisation.  The imperative codec in module
    Serializer is proved against these. */
module Codec {
  import opened Bytes
  import opened Types
  import opened Values
  import opened Seqs

  // ---------------------------------------------------------------------
  // Numbers: copied to and from their bytes in memory
  // ---------------------------------------------------------------------

  /** The integer and floating point types (serializer_impl<T, tcat::arithmetic>). */
  predicate IsNumber(t: Ty) { t.UInt? || t.SInt? || t.Float? || t.Double? }

  /** The bytes of a number in memory on the little-endian target: what
      `reinterpret_cast` exposes and `std::copy` writes out. */
  function Representation(t: Ty, v: Val): (r: seq<byte>)
    requires IsNumber(t) && HasType(v, t)
    ensures |r| == Size(t)
  {
    match t
    case UInt(w) => LittleEndian(v.x, w.Bytes())
    case SInt(w) => LittleEndian(ToUnsigned(v.x, w.Bytes()), w.Bytes())
    case Float => v.bits
    case Double => v.bits
  }

  /** The number whose memory holds the bytes raw (`std::copy` into the object). */
  function FromRepresentation(t: Ty, raw: seq<byte>): (v: Val)
    requires IsNumber(t) && |raw| == Size(t)
    ensures HasType(v, t)
  {
    match t
    case UInt(w) => IntV(FromLittleEndian(raw))
    case SInt(w) => IntV(FromUnsigned(FromLittleEndian(raw), w.Bytes()))
    case Float => FloatV(raw)
    case Double => FloatV(raw)
  }

  /** Copying a number's bytes into an object of its type reproduces the number. */
  lemma {:induction false} RepresentationRoundTrip(t: Ty, v: Val)
    requires IsNumber(t) && HasType(v, t)
    ensures FromRepresentation(t, Representation(t, v)) == v
  {
    match t
    case UInt(w) =>
      FromLittleEndianOfLittleEndian(v.x, w.Bytes());
    case SInt(w) =>
      FromLittleEndianOfLittleEndian(ToUnsigned(v.x, w.Bytes()), w.Bytes());
      SignedRoundTrip(v.x, w.Bytes());
    case Float =>
    case Double =>
  }

  /** Every byte pattern of the right length is the representation of the
      number it is read as. */
  lemma {:induction false} RepresentationOfFromRepresentation(t: Ty, raw: seq<byte>)
    requires IsNumber(t) && |raw| == Size(t)
    ensures Representation(t, FromRepresentation(t, raw)) == raw
  {
    match t
    case UInt(w) =>
      LittleEndianOfFromLittleEndian(raw);
    case SInt(w) =>
      UnsignedRoundTrip(FromLittleEndian(raw), w.Bytes());
      LittleEndianOfFromLittleEndian(raw);
    case Float =>
    case Double =>
  }

  // ---------------------------------------------------------------------
  // Encoding
  // ---------------------------------------------------------------------

  /** The bytes `serialize` writes for a value of type t.  Their number is the
      type's size, whatever the value. */
  function Encode(t: Ty, v: Val): (r: seq<byte>)
    requires HasType(v, t)
    ensures |r| == Size(t)
    decreases t, 0, 0
  {
    match t
    case Bool => [if v.b then 1 else 0]
    case UInt(_) | SInt(_) | Float | Double => Representation(t, v)
    case StdArray(e, n) => EncodeElems(e, v.elems, 0)
    case CArray(e, n) => EncodeElems(e, v.elems, 0)
    case Struct(fs) =>
      StructSize(fs);
      EncodeFields(fs, v.fields, 0)
  }

  /** The elements of an array from index ix on, encoded one after the other
      in index order, with no length prefix. */
  function EncodeElems(e: Ty, es: seq<Val>, ix: nat): (r: seq<byte>)
    requires ix <= |es| && forall i :: 0 <= i < |es| ==> HasType(es[i], e)
    ensures |r| == Blocks(ix, |es|, Size(e))
    decreases e, 1, |es| - ix
  {
    if ix == |es| then [] else Encode(e, es[ix]) + EncodeElems(e, es, ix + 1)
  }

  /** The listed members of a struct from member ix on, encoded one after the
      other in list order, with no tags or padding (partial_serializer<ix>). */
  function EncodeFields(fs: seq<Ty>, vs: seq<Val>, ix: nat): (r: seq<byte>)
    requires ix <= |fs| && |vs| == |fs| && forall i :: 0 <= i < |fs| ==> HasType(vs[i], fs[i])
    ensures |r| == MembersSize(fs, ix, |fs|)
    decreases fs, |fs| - ix, 0
  {
    if ix == |fs| then [] else Encode(fs[ix], vs[ix]) + EncodeFields(fs, vs, ix + 1)
  }

  // ---------------------------------------------------------------------
  // Decoding
  // ---------------------------------------------------------------------

  /** The value `deserialize` reads from the front of bs (the bytes from the
      cursor on) for type t.  The source never compares against the end of
      the buffer, so the bytes must be there. */
  function Decode(t: Ty, bs: seq<byte>): (v: Val)
    requires Size(t) <= |bs|
    ensures HasType(v, t)
    decreases t, 0, 0
  {
    match t
    case Bool => BoolV(bs[0] != 0)
    case UInt(_) | SInt(_) | Float | Double => FromRepresentation(t, bs[..Size(t)])
    case StdArray(e, n) => ArrV(DecodeElems(e, n, 0, bs))
    case CArray(e, n) => ArrV(DecodeElems(e, n, 0, bs))
    case Struct(fs) =>
      StructSize(fs);
      StructV(DecodeFields(fs, 0, bs))
  }

  /** Elements ix .. n - 1 of an array, read one after the other from the
      front of bs, each from where the previous one ended. */
  function DecodeElems(e: Ty, n: nat, ix: nat, bs: seq<byte>): (vs: seq<Val>)
    requires ix <= n && Blocks(ix, n, Size(e)) <= |bs|
    ensures |vs| == n - ix && forall i :: 0 <= i < |vs| ==> HasType(vs[i], e)
    decreases e, 1, n - ix
  {
    if ix == n then [] else [Decode(e, bs)] + DecodeElems(e, n, ix + 1, bs[Size(e)..])
  }

  /** The listed members of a struct from member ix on, read one after the
      other from the front of bs (partial_deserializer<ix>). */
  function DecodeFields(fs: seq<Ty>, ix: nat, bs: seq<byte>): (vs: seq<Val>)
    requires ix <= |fs| && MembersSize(fs, ix, |fs|) <= |bs|
    ensures |vs| == |fs| - ix && forall i :: 0 <= i < |vs| ==> HasType(vs[i], fs[ix + i])
    decreases fs, |fs| - ix, 0
  {
    if ix == |fs| then [] else [Decode(fs[ix], bs)] + DecodeFields(fs, ix + 1, bs[Size(fs[ix])..])
  }

  /** One step of reading elements: element ix is read from the front and
      the elements after it from the bytes after its block, so what was read
      before it, then it, then the rest, is what was read before it followed
      by the elements from ix on. */
  lemma {:induction false} DecodeElemsNext(e: Ty, n: nat, ix: nat, bs: seq<byte>, done: seq<Val>)
    requires ix < n && Blocks(ix, n, Size(e)) <= |bs|
    ensures Size(e) <= |bs| && Blocks(ix + 1, n, Size(e)) <= |bs| - Size(e)
    ensures (done + [Decode(e, bs)]) + DecodeElems(e, n, ix + 1, bs[Size(e)..])
         == done + DecodeElems(e, n, ix, bs)
  {
    AppendAssoc(done, [Decode(e, bs)], DecodeElems(e, n, ix + 1, bs[Size(e)..]));
  }

  /** One step of writing elements: the bytes written so far followed by the
      encoding of element ix and of the elements after it are the bytes
      written so far followed by the encoding of the elements from ix on. */
  lemma {:induction false} EncodeElemsNext(e: Ty, es: seq<Val>, ix: nat, done: seq<byte>)
    requires ix < |es| && forall i :: 0 <= i < |es| ==> HasType(es[i], e)
    ensures (done + Encode(e, es[ix])) + EncodeElems(e, es, ix + 1) == done + EncodeElems(e, es, ix)
  {
    AppendAssoc(done, Encode(e, es[ix]), EncodeElems(e, es, ix + 1));
  }

  // ---------------------------------------------------------------------
  // Round trip: deserialize after serialize
  // ---------------------------------------------------------------------

  /** Reading a value of type t from bytes that start with its encoding
      yields the value back, whatever bytes follow. */
  lemma {:induction false} DecodeEncode(t: Ty, v: Val, rest: seq<byte>)
    requires HasType(v, t)
    ensures Decode(t, Encode(t, v) + rest) == v
    decreases t, 1, 0
  {
    match t
    case Bool =>
      assert (Encode(t, v) + rest)[0] == Encode(t, v)[0];
    case UInt(_) | SInt(_) | Float | Double =>
      TakeOfAppend(Encode(t, v), rest);
      RepresentationRoundTrip(t, v);
    case StdArray(e, n) =>
      DecodeElemsEncode(e, v.elems, 0, rest);
      assert v.elems[0..] == v.elems;
    case CArray(e, n) =>
      DecodeElemsEncode(e, v.elems, 0, rest);
      assert v.elems[0..] == v.elems;
    case Struct(fs) =>
      DecodeFieldsEncode(fs, v.fields, 0, rest);
      assert v.fields[0..] == v.fields;
  }

  /** The elements from ix on read back from their encodings. */
  lemma {:induction false} DecodeElemsEncode(e: Ty, es: seq<Val>, ix: nat, rest: seq<byte>)
    requires ix <= |es| && forall i :: 0 <= i < |es| ==> HasType(es[i], e)
    ensures DecodeElems(e, |es|, ix, EncodeElems(e, es, ix) + rest) == es[ix..]
    decreases e, 2, |es| - ix
  {
    if ix < |es| {
      var head, tail := Encode(e, es[ix]), EncodeElems(e, es, ix + 1);
      AppendAssoc(head, tail, rest);
      DecodeEncode(e, es[ix], tail + rest);
      DropOfAppend(head, tail + rest, 0);
      DecodeElemsEncode(e, es, ix + 1, rest);
      SuffixCons(es, ix);
    }
  }

  /** The members from ix on read back from their encodings. */
  lemma {:induction false} DecodeFieldsEncode(fs: seq<Ty>, vs: seq<Val>, ix: nat, rest: seq<byte>)
    requires ix <= |fs| && |vs| == |fs| && forall i :: 0 <= i < |fs| ==> HasType(vs[i], fs[i])
    ensures DecodeFields(fs, ix, EncodeFields(fs, vs, ix) + rest) == vs[ix..]
    decreases fs, 2, |fs| - ix
  {
    if ix < |fs| {
      var head, tail := Encode(fs[ix], vs[ix]), EncodeFields(fs, vs, ix + 1);
      AppendAssoc(head, tail, rest);
      DecodeEncode(fs[ix], vs[ix], tail + rest);
      DropOfAppend(head, tail + rest, 0);
      DecodeFieldsEncode(fs, vs, ix + 1, rest);
      SuffixCons(vs, ix);
    }
  }

  /** Deserializing exactly the output of serialize reproduces the value. */
  lemma {:induction false} RoundTrip(t: Ty, v: Val)
    requires HasType(v, t)
    ensures Decode(t, Encode(t, v)) == v
  {
    DecodeEncode(t, v, []);
    assert Encode(t, v) + [] == Encode(t, v);
  }

  /** Bytes whose first Size(t) bytes are the encoding of v decode to v: what
      deserialize reads at a cursor where serialize wrote v. */
  lemma {:induction false} DecodeAfterEncode(t: Ty, v: Val, bs: seq<byte>)
    requires HasType(v, t) && Size(t) <= |bs| && bs[..Size(t)] == Encode(t, v)
    ensures Decode(t, bs) == v
  {
    DecodeEncode(t, v, bs[Size(t)..]);
    assert bs == bs[..Size(t)] + bs[Size(t)..];
  }

  // ---------------------------------------------------------------------
  // The other direction: every byte pattern of a bool-free type is an encoding
  // ---------------------------------------------------------------------

  /** t has no bool anywhere inside it. */
  predicate BoolFree(t: Ty)
    decreases t
  {
    match t
    case Bool => false
    case StdArray(e, _) => BoolFree(e)
    case CArray(e, _) => BoolFree(e)
    case Struct(fs) => forall i :: 0 <= i < |fs| ==> BoolFree(fs[i])
    case _ => true
  }

  /** A bool reads as true from any nonzero byte and is written back as 1, so
      re-encoding a decoded bool canonicalises its byte.  Both facts are the
      Bool cases of Decode and Encode, stated for the reader. */
  lemma {:induction false} BoolCanonical(bs: seq<byte>)
    requires 1 <= |bs|
    ensures Decode(Bool, bs) == BoolV(bs[0] != 0)
    ensures Encode(Bool, Decode(Bool, bs)) == [if bs[0] == 0 then 0 else 1]
  {
  }

  /** For a type without bools, the bytes are exactly the encoding of what
      they decode to: decoding loses nothing and accepts every pattern.  For
      a struct this relies on the listed members being distinct objects that
      do not overlap, as a struct value here holds one value per list
      position. */
  lemma {:induction false} EncodeDecode(t: Ty, bs: seq<byte>)
    requires BoolFree(t) && Size(t) <= |bs|
    ensures Encode(t, Decode(t, bs)) == bs[..Size(t)]
    decreases t, 1, 0
  {
    match t
    case UInt(_) | SInt(_) | Float | Double =>
      RepresentationOfFromRepresentation(t, bs[..Size(t)]);
    case StdArray(e, n) =>
      var vs := DecodeElems(e, n, 0, bs);
      assert vs[0..] == vs;
      EncodeDecodeElems(e, vs, 0, bs);
    case CArray(e, n) =>
      var vs := DecodeElems(e, n, 0, bs);
      assert vs[0..] == vs;
      EncodeDecodeElems(e, vs, 0, bs);
    case Struct(fs) =>
      StructSize(fs);
      var vs := DecodeFields(fs, 0, bs);
      assert vs[0..] == vs;
      EncodeDecodeFields(fs, vs, 0, bs);
  }

  /** Elements ix on of vs were read from bs; re-encoding them gives back the
      bytes they were read from. */
  lemma {:induction false} EncodeDecodeElems(e: Ty, vs: seq<Val>, ix: nat, bs: seq<byte>)
    requires BoolFree(e) && ix <= |vs| && forall i :: 0 <= i < |vs| ==> HasType(vs[i], e)
    requires Blocks(ix, |vs|, Size(e)) <= |bs| && vs[ix..] == DecodeElems(e, |vs|, ix, bs)
    ensures EncodeElems(e, vs, ix) == bs[..Blocks(ix, |vs|, Size(e))]
    decreases e, 2, |vs| - ix
  {
    if ix < |vs| {
      var rest := bs[Size(e)..];
      SuffixOfCons(vs, ix, Decode(e, bs), DecodeElems(e, |vs|, ix + 1, rest));
      EncodeDecode(e, bs);
      EncodeDecodeElems(e, vs, ix + 1, rest);
      TakeJoin(bs, Size(e), Blocks(ix + 1, |vs|, Size(e)));
    }
  }

  /** Members ix on of vs were read from bs; re-encoding them gives back the
      bytes they were read from. */
  lemma {:induction false} EncodeDecodeFields(fs: seq<Ty>, vs: seq<Val>, ix: nat, bs: seq<byte>)
    requires forall i :: 0 <= i < |fs| ==> BoolFree(fs[i])
    requires ix <= |fs| && |vs| == |fs| && forall i :: 0 <= i < |fs| ==> HasType(vs[i], fs[i])
    requires MembersSize(fs, ix, |fs|) <= |bs| && vs[ix..] == DecodeFields(fs, ix, bs)
    ensures EncodeFields(fs, vs, ix) == bs[..MembersSize(fs, ix, |fs|)]
    decreases fs, 2, |fs| - ix
  {
    if ix < |fs| {
      var rest := bs[Size(fs[ix])..];
      SuffixOfCons(vs, ix, Decode(fs[ix], bs), DecodeFields(fs, ix + 1, rest));
      EncodeDecode(fs[ix], bs);
      EncodeDecodeFields(fs, vs, ix + 1, rest);
      TakeJoin(bs, Size(fs[ix]), MembersSize(fs, ix + 1, |fs|));
    }
  }

  // ---------------------------------------------------------------------
  // Layout: where each element and member lands
  // ---------------------------------------------------------------------

  /** Skipping the bytes of elements ix .. i - 1 leaves the encoding of the
      elements from i on. */
  lemma {:induction false} ElemsFrom(e: Ty, es: seq<Val>, ix: nat, i: nat)
    requires ix <= i <= |es| && forall j :: 0 <= j < |es| ==> HasType(es[j], e)
    ensures Blocks(ix, i, Size(e)) <= Blocks(ix, |es|, Size(e))
    ensures EncodeElems(e, es, ix)[Blocks(ix, i, Size(e))..] == EncodeElems(e, es, i)
    decreases i - ix
  {
    if ix < i {
      ElemsFrom(e, es, ix + 1, i);
      DropPastLeft(Encode(e, es[ix]), EncodeElems(e, es, ix + 1), Blocks(ix + 1, i, Size(e)), Blocks(ix, i, Size(e)));
    }
  }

  /** Skipping the bytes of members ix .. i - 1 leaves the encoding of the
      members from i on. */
  lemma {:induction false} FieldsFrom(fs: seq<Ty>, vs: seq<Val>, ix: nat, i: nat)
    requires ix <= i <= |fs| && |vs| == |fs| && forall j :: 0 <= j < |fs| ==> HasType(vs[j], fs[j])
    ensures MembersSize(fs, ix, i) <= MembersSize(fs, ix, |fs|)
    ensures EncodeFields(fs, vs, ix)[MembersSize(fs, ix, i)..] == EncodeFields(fs, vs, i)
    decreases i - ix
  {
    if ix < i {
      FieldsFrom(fs, vs, ix + 1, i);
      DropPastLeft(Encode(fs[ix], vs[ix]), EncodeFields(fs, vs, ix + 1), MembersSize(fs, ix + 1, i), MembersSize(fs, ix, i));
    }
  }

  /** Element i of an array occupies the block after the first i blocks. */
  lemma {:induction false} ElemAt(e: Ty, es: seq<Val>, i: nat)
    requires i < |es| && forall j :: 0 <= j < |es| ==> HasType(es[j], e)
    ensures Blocks(0, i, Size(e)) + Size(e) <= Blocks(0, |es|, Size(e))
    ensures EncodeElems(e, es, 0)[Blocks(0, i, Size(e))..Blocks(0, i, Size(e)) + Size(e)] == Encode(e, es[i])
  {
    ElemsFrom(e, es, 0, i);
    SliceOfSuffix(EncodeElems(e, es, 0), Blocks(0, i, Size(e)), Encode(e, es[i]), EncodeElems(e, es, i + 1), Size(e));
  }

  /** Element i of an array occupies bytes [i * s, (i + 1) * s) of its
      encoding, s being the element size: arrays are laid out in index order. */
  lemma {:induction false} ArrayLayout(t: Ty, v: Val, i: nat)
    requires (t.StdArray? || t.CArray?) && HasType(v, t) && i < t.n
    ensures Size(t.elem) * (i + 1) <= Size(t)
    ensures Encode(t, v)[Size(t.elem) * i..Size(t.elem) * (i + 1)] == Encode(t.elem, v.elems[i])
  {
    ElemAt(t.elem, v.elems, i);
    BlocksIsProduct(0, i, Size(t.elem));
    assert Size(t.elem) * (i + 1) == Size(t.elem) * i + Size(t.elem);
  }

  /** Member i of a struct occupies the bytes that follow the members listed
      before it: its offset is sum_of_size of the members before it. */
  lemma {:induction false} StructLayout(fs: seq<Ty>, v: Val, i: nat)
    requires HasType(v, Struct(fs)) && i < |fs|
    ensures SumOfSize(fs[..i]) + Size(fs[i]) <= Size(Struct(fs))
    ensures Encode(Struct(fs), v)[SumOfSize(fs[..i])..SumOfSize(fs[..i]) + Size(fs[i])]
         == Encode(fs[i], v.fields[i])
  {
    FieldFits(fs, i);
    MembersSizeIsSumOfSize(fs, 0, i);
    assert fs[0..i] == fs[..i];
    FieldsFrom(fs, v.fields, 0, i);
    TakeOfAppend(Encode(fs[i], v.fields[i]), EncodeFields(fs, v.fields, i + 1));
    SliceIsTakeOfDrop(Encode(Struct(fs), v), SumOfSize(fs[..i]), Size(fs[i]));
  }
}
