/** The category tag that `type_category` computes for each type, and the
    serialized size that the `size` enumerators of the serializer
    specialisations compute. */
module Types {
  import opened Bytes
  import opened Values

  /** v is an object of type t.  This is Conforms of module Values under a
      second, non-recursive name: the codec's contracts state typing through
      it so that the verifier does not unfold the recursive case analysis of
      Conforms at every call site.  It adds nothing to Conforms. */
  predicate HasType(v: Val, t: Ty) { Conforms(v, t) }

  // ---------------------------------------------------------------------
  // type_category: a bitmask sum of four type tests
  // ---------------------------------------------------------------------

  /** std::is_same<bool, T> */
  predicate IsBool(t: Ty) { t == Bool }

  /** std::is_arithmetic<T>: integers, floating point types and bool */
  predicate IsArithmetic(t: Ty) { t.Bool? || t.UInt? || t.SInt? || t.Float? || t.Double? }

  /** is_std_array<T> */
  predicate IsStdArray(t: Ty) { t.StdArray? }

  /** std::is_array<T> */
  predicate IsArray(t: Ty) { t.CArray? }

  /** type_category<T>::value: one of the five tag values, 0 exactly for a
      type that none of the four tests accepts (a struct). */
  function TypeCategory(t: Ty): (c: int)
    ensures c in {0, 2, 3, 4, 8}
    ensures c == 0 <==> t.Struct?
  {
    (if IsBool(t) then 1 else 0) +
    (if IsArithmetic(t) then 2 else 0) +
    (if IsStdArray(t) then 4 else 0) +
    (if IsArray(t) then 8 else 0)
  }

  // The tcat constants, each computed from a representative type as the header does.
  const BooleanTag := TypeCategory(Bool)
  const ArithmeticTag := TypeCategory(SInt(W32))
  const StdArrayTag := TypeCategory(StdArray(SInt(W32), 1))
  const ArrayTag := TypeCategory(CArray(SInt(W32), 1))
  const OtherTag := TypeCategory(Struct([]))

  /** The five tags are 3, 2, 4, 8 and 0, hence pairwise distinct. */
  lemma TagValues()
    ensures BooleanTag == 3 && ArithmeticTag == 2 && StdArrayTag == 4 && ArrayTag == 8 && OtherTag == 0
  {
  }

  /** Every type's tag is one of the five tags and picks exactly the
      specialisation for its kind of type: the categories partition the
      type universe. */
  lemma {:induction false} CategorySelectsOne(t: Ty)
    ensures TypeCategory(t) in {BooleanTag, ArithmeticTag, StdArrayTag, ArrayTag, OtherTag}
    ensures TypeCategory(t) == BooleanTag <==> t.Bool?
    ensures TypeCategory(t) == ArithmeticTag <==> (t.UInt? || t.SInt? || t.Float? || t.Double?)
    ensures TypeCategory(t) == StdArrayTag <==> t.StdArray?
    ensures TypeCategory(t) == ArrayTag <==> t.CArray?
    ensures TypeCategory(t) == OtherTag <==> t.Struct?
  {
  }

  // ---------------------------------------------------------------------
  // Serialized size
  // ---------------------------------------------------------------------

  /** serializer<T>::size (and serialized_size<T>()): sizeof for a number,
      which is 1 to 8 bytes.  The header writes an array's size as the product
      element size * n; here it is the sum of n blocks of the element size,
      Blocks(0, n, Size(e)), because that is the term the array codecs' cursor
      advances through one element at a time.  ArraySize proves the two equal. */
  function Size(t: Ty): (r: nat)
    ensures !(t.StdArray? || t.CArray? || t.Struct?) ==> 1 <= r <= 8
    decreases t
  {
    match t
    case Bool => 1
    case UInt(w) => w.Bytes()
    case SInt(w) => w.Bytes()
    case Float => 4
    case Double => 8
    case StdArray(e, n) => Blocks(0, n, Size(e))
    case CArray(e, n) => Blocks(0, n, Size(e))
    case Struct(fs) => SumOfSize(fs)
  }

  /** sum_of_size over a member list: the first member's size plus the rest's.
      Every listed member fits in the total. */
  function SumOfSize(fs: seq<Ty>): (r: nat)
    ensures forall i :: 0 <= i < |fs| ==> MemberSize(fs, i) <= r
    decreases fs
  {
    if fs == [] then 0
    else
      assert forall i :: 1 <= i < |fs| ==> MemberSize(fs, i) == MemberSize(fs[1..], i - 1);
      Size(fs[0]) + SumOfSize(fs[1..])
  }

  /** The size of member i of a member list. */
  function MemberSize(fs: seq<Ty>, i: nat): nat
    requires i < |fs|
    decreases fs, 0
  {
    Size(fs[i])
  }

  /** The bytes of the blocks lo .. hi - 1 of s bytes each, counted from
      block lo on, as the array codecs advance their cursor by one block per
      element. */
  function Blocks(lo: nat, hi: nat, s: nat): nat
    requires lo <= hi
    decreases hi - lo
  {
    if lo == hi then 0 else s + Blocks(lo + 1, hi, s)
  }

  /** The total size of the members lo .. hi - 1 of a member list, counted
      from member lo on, as partial_serializer<lo> walks them. */
  function MembersSize(fs: seq<Ty>, lo: nat, hi: nat): nat
    requires lo <= hi <= |fs|
    decreases hi - lo
  {
    if lo == hi then 0 else Size(fs[lo]) + MembersSize(fs, lo + 1, hi)
  }

  /** hi - lo blocks of s bytes take s * (hi - lo) bytes. */
  lemma {:induction false} BlocksIsProduct(lo: nat, hi: nat, s: nat)
    requires lo <= hi
    ensures Blocks(lo, hi, s) == s * (hi - lo)
    decreases hi - lo
  {
    if lo < hi {
      BlocksIsProduct(lo + 1, hi, s);
      assert s * (hi - lo) == s + s * (hi - (lo + 1));
    }
  }

  /** An array type's size is the size of its element type times its element
      count, as both array specialisations compute it. */
  lemma {:induction false} ArraySize(t: Ty)
    requires t.StdArray? || t.CArray?
    ensures Size(t) == Size(t.elem) * t.n
  {
    BlocksIsProduct(0, t.n, Size(t.elem));
  }

  /** Summing members lo .. hi - 1 one by one is sum_of_size of that slice of
      the member list. */
  lemma {:induction false} MembersSizeIsSumOfSize(fs: seq<Ty>, lo: nat, hi: nat)
    requires lo <= hi <= |fs|
    ensures MembersSize(fs, lo, hi) == SumOfSize(fs[lo..hi])
    decreases hi - lo
  {
    if lo < hi {
      MembersSizeIsSumOfSize(fs, lo + 1, hi);
      assert fs[lo..hi][0] == fs[lo] && fs[lo..hi][1..] == fs[lo + 1..hi];
    }
  }

  /** A struct's size is the total size of all its listed members. */
  lemma {:induction false} StructSize(fs: seq<Ty>)
    ensures Size(Struct(fs)) == MembersSize(fs, 0, |fs|)
  {
    MembersSizeIsSumOfSize(fs, 0, |fs|);
    assert fs[0..|fs|] == fs;
  }

  /** Sizes of consecutive member lists add up. */
  lemma {:induction false} SumOfSizeAppend(a: seq<Ty>, b: seq<Ty>)
    ensures SumOfSize(a + b) == SumOfSize(a) + SumOfSize(b)
  {
    if a == [] {
      assert a + b == b;
    } else {
      assert (a + b)[0] == a[0] && (a + b)[1..] == a[1..] + b;
      SumOfSizeAppend(a[1..], b);
    }
  }

  /** A member's offset is the total size of the members listed before it, so
      it lies inside the struct: offset + its size <= the struct's size. */
  lemma {:induction false} FieldFits(fs: seq<Ty>, i: nat)
    requires i < |fs|
    ensures SumOfSize(fs[..i]) + Size(fs[i]) <= SumOfSize(fs)
    ensures SumOfSize(fs[..i + 1]) == SumOfSize(fs[..i]) + Size(fs[i])
  {
    SumOfSizeAppend(fs[..i], [fs[i]]);
    assert fs[..i + 1] == fs[..i] + [fs[i]];
    SumOfSizeAppend(fs[..i + 1], fs[i + 1..]);
    assert fs == fs[..i + 1] + fs[i + 1..];
    assert SumOfSize([fs[i]]) == Size(fs[i]) by {
      assert [fs[i]][1..] == [];
    }
  }
}
