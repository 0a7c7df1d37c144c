/** The serializer_impl and deserializer_impl specialisations and the free
    functions serialize / deserialize, as methods that write into and read
    from a byte buffer through a cursor.  An iterator `begin` is an index
    `pos` into the buffer and the iterator returned is the index `next`.
    Each method is proved against the wire format of module Codec. */
module Serializer {
  import opened Bytes
  import opened Types
  import opened Values
  import opened Codec
  import opened Seqs

  // ---------------------------------------------------------------------
  // serialize
  // ---------------------------------------------------------------------

  /** serialize(begin, end, &obj) for an object of type t holding v: picks
      the specialisation by type_category, writes exactly the encoding of v
      at pos and returns the cursor just past it.  No byte outside
      [pos, pos + Size(t)) changes; the end iterator is never consulted. */
  method Serialize(buf: array<byte>, pos: nat, t: Ty, v: Val) returns (next: nat)
    requires HasType(v, t) && pos + Size(t) <= buf.Length
    modifies buf
    ensures next == pos + Size(t)
    ensures buf[pos..next] == Encode(t, v)
    ensures buf[..pos] == old(buf[..pos]) && buf[next..] == old(buf[next..])
    decreases t, 0, 0
  {
    CategorySelectsOne(t);
    var tag := TypeCategory(t);
    if tag == BooleanTag {
      // *begin = *obj ? 1 : 0
      next := CopyBytes(buf, pos, [if v.b then 1 else 0]);
    } else if tag == ArithmeticTag {
      // std::copy of the object's bytes in memory
      next := CopyBytes(buf, pos, Representation(t, v));
    } else if tag == StdArrayTag || tag == ArrayTag {
      next := SerializeElems(buf, pos, t.elem, v.elems);
    } else {
      StructSize(t.fields);
      next := PartialSerialize(buf, pos, t.fields, v.fields, 0);
    }
  }

  /** std::copy of a byte pattern to the cursor. */
  method CopyBytes(buf: array<byte>, pos: nat, bytes: seq<byte>) returns (next: nat)
    requires pos + |bytes| <= buf.Length
    modifies buf
    ensures next == pos + |bytes|
    ensures buf[pos..next] == bytes
    ensures buf[..pos] == old(buf[..pos]) && buf[next..] == old(buf[next..])
  {
    forall k | 0 <= k < |bytes| {
      buf[pos + k] := bytes[k];
    }
    next := pos + |bytes|;
  }

  /** The loop of both array specialisations: serialize each element in
      index order, each at the cursor the previous one returned. */
  method SerializeElems(buf: array<byte>, pos: nat, e: Ty, es: seq<Val>) returns (next: nat)
    requires forall i :: 0 <= i < |es| ==> HasType(es[i], e)
    requires pos + Blocks(0, |es|, Size(e)) <= buf.Length
    modifies buf
    ensures next == pos + Blocks(0, |es|, Size(e))
    ensures buf[pos..next] == EncodeElems(e, es, 0)
    ensures buf[..pos] == old(buf[..pos]) && buf[next..] == old(buf[next..])
    decreases e, 1, 0
  {
    next := pos;
    var i := 0;
    while i < |es|
      invariant i <= |es| && pos <= next && next + Blocks(i, |es|, Size(e)) == pos + Blocks(0, |es|, Size(e))
      invariant buf[pos..next] + EncodeElems(e, es, i) == EncodeElems(e, es, 0)
      invariant buf[..pos] == old(buf[..pos]) && buf[next..] == old(buf[next..])
    {
      ghost var before := buf[..];
      var p := Serialize(buf, next, e, es[i]);
      Written(before, buf[..], pos, next, p, Encode(e, es[i]));
      EncodeElemsNext(e, es, i, before[pos..next]);
      SuffixAgrees(before, old(buf[..]), next, p);
      next, i := p, i + 1;
    }
  }

  /** partial_serializer<ix>: serialize the listed members from ix on, each
      at the cursor the previous one returned; the partial_serializer past
      the last member returns its cursor unchanged. */
  method PartialSerialize(buf: array<byte>, pos: nat, fs: seq<Ty>, vs: seq<Val>, ix: nat) returns (next: nat)
    requires ix <= |fs| && |vs| == |fs| && forall i :: 0 <= i < |fs| ==> HasType(vs[i], fs[i])
    requires pos + MembersSize(fs, ix, |fs|) <= buf.Length
    modifies buf
    ensures next == pos + MembersSize(fs, ix, |fs|)
    ensures buf[pos..next] == EncodeFields(fs, vs, ix)
    ensures buf[..pos] == old(buf[..pos]) && buf[next..] == old(buf[next..])
    decreases fs, 1, |fs| - ix
  {
    if ix == |fs| {
      next := pos;
    } else {
      ghost var before := buf[..];
      var p := Serialize(buf, pos, fs[ix], vs[ix]);
      ghost var middle := buf[..];
      next := PartialSerialize(buf, p, fs, vs, ix + 1);
      assert before[pos..pos] == [];
      Written(before, middle, pos, pos, p, Encode(fs[ix], vs[ix]));
      Written(middle, buf[..], pos, p, next, EncodeFields(fs, vs, ix + 1));
      SuffixAgrees(middle, before, p, next);
    }
  }

  /** After bytes w are written at [mid, hi) of a buffer whose other bytes
      stay as they were, [lo, hi) holds the old [lo, mid) followed by w. */
  lemma {:induction false} Written(before: seq<byte>, after: seq<byte>, lo: nat, mid: nat, hi: nat, w: seq<byte>)
    requires lo <= mid <= hi <= |before| == |after|
    requires after[mid..hi] == w
    requires after[..mid] == before[..mid] && after[hi..] == before[hi..]
    ensures after[lo..hi] == before[lo..mid] + w
    ensures after[..lo] == before[..lo]
  {
    assert after[lo..mid] == after[..mid][lo..];
    assert after[..lo] == after[..mid][..lo];
  }

  /** Two buffers that agree from i on agree from any later j on. */
  lemma {:induction false} SuffixAgrees(a: seq<byte>, b: seq<byte>, i: nat, j: nat)
    requires i <= j <= |a| == |b| && a[i..] == b[i..]
    ensures a[j..] == b[j..]
  {
    assert a[j..] == a[i..][j - i..];
    assert b[j..] == b[i..][j - i..];
  }

  // ---------------------------------------------------------------------
  // deserialize
  // ---------------------------------------------------------------------

  /** deserialize(begin, end, &obj) for an object of type t: picks the
      specialisation by type_category, stores in every listed part of the
      object what the bytes at pos decode to and returns the cursor just
      past them.  The object is an out-parameter, r, since nothing of what
      it held before survives; the buffer is only read. */
  method Deserialize(buf: array<byte>, pos: nat, t: Ty) returns (r: Val, next: nat)
    requires pos + Size(t) <= buf.Length
    ensures next == pos + Size(t)
    ensures r == Decode(t, buf[pos..])
    decreases t, 0, 0
  {
    CategorySelectsOne(t);
    var tag := TypeCategory(t);
    if tag == BooleanTag {
      // *obj = !!*begin
      r, next := BoolV(buf[pos] != 0), pos + 1;
    } else if tag == ArithmeticTag {
      // std::copy of the bytes into the object's memory
      r := FromRepresentation(t, buf[pos..pos + Size(t)]);
      next := pos + Size(t);
      assert buf[pos..pos + Size(t)] == buf[pos..][..Size(t)];
    } else if tag == StdArrayTag || tag == ArrayTag {
      var es;
      es, next := DeserializeElems(buf, pos, t.elem, t.n);
      r := ArrV(es);
    } else {
      StructSize(t.fields);
      var fields;
      fields, next := PartialDeserialize(buf, pos, t.fields, 0);
      r := StructV(fields);
    }
  }

  /** The loop of both array specialisations: deserialize into each of the
      n elements in index order, each from the cursor the previous one
      returned. */
  method DeserializeElems(buf: array<byte>, pos: nat, e: Ty, n: nat) returns (es: seq<Val>, next: nat)
    requires pos + Blocks(0, n, Size(e)) <= buf.Length
    ensures next == pos + Blocks(0, n, Size(e))
    ensures es == DecodeElems(e, n, 0, buf[pos..])
    decreases e, 1, 0
  {
    es, next := [], pos;
    var i := 0;
    while i < n
      invariant i <= n && pos <= next
      invariant next + Blocks(i, n, Size(e)) == pos + Blocks(0, n, Size(e))
      invariant es + DecodeElems(e, n, i, buf[next..]) == DecodeElems(e, n, 0, buf[pos..])
    {
      DecodeElemsNext(e, n, i, buf[next..], es);
      var x, p := Deserialize(buf, next, e);
      DropDrop(buf[..], next, Size(e), p);
      es, next, i := es + [x], p, i + 1;
    }
    assert es + [] == es;
  }

  /** partial_deserializer<ix>: deserialize into the listed members from ix
      on, each from the cursor the previous one returned; r holds what the
      members ix, ix + 1, ... receive, in list order. */
  method PartialDeserialize(buf: array<byte>, pos: nat, fs: seq<Ty>, ix: nat) returns (r: seq<Val>, next: nat)
    requires ix <= |fs| && pos + MembersSize(fs, ix, |fs|) <= buf.Length
    ensures next == pos + MembersSize(fs, ix, |fs|)
    ensures r == DecodeFields(fs, ix, buf[pos..])
    decreases fs, 1, |fs| - ix
  {
    if ix == |fs| {
      r, next := [], pos;
    } else {
      var x, p := Deserialize(buf, pos, fs[ix]);
      var rest;
      rest, next := PartialDeserialize(buf, p, fs, ix + 1);
      DropDrop(buf[..], pos, Size(fs[ix]), p);
      r := [x] + rest;
    }
  }

  /** The value-returning deserialize(begin, end) of every specialisation
      except the C array one (a C array cannot be returned): deserialize into
      a local object and return it. */
  method DeserializeValue(buf: array<byte>, pos: nat, t: Ty) returns (r: Val)
    requires !t.CArray? && pos + Size(t) <= buf.Length
    ensures r == Decode(t, buf[pos..])
  {
    var next;
    r, next := Deserialize(buf, pos, t);
  }

  /** Deserializing at the cursor where v was serialized yields v: the round
      trip through a buffer, whatever else the buffer holds. */
  lemma {:induction false} ReadBack(buf: seq<byte>, pos: nat, t: Ty, v: Val)
    requires HasType(v, t) && pos + Size(t) <= |buf| && buf[pos..pos + Size(t)] == Encode(t, v)
    ensures Decode(t, buf[pos..]) == v
  {
    assert buf[pos..][..Size(t)] == buf[pos..pos + Size(t)];
    DecodeAfterEncode(t, v, buf[pos..]);
  }
}
