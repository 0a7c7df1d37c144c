# loleseri in Dafny

loleseri is a header-only C++ library that serializes plain objects to a fixed-size,
tag-free little-endian byte image and reads them back. Its types fall into five
categories, and `type_category` computes each category's tag as a bitmask sum:
bool, arithmetic (integers and floating point), `std::array`, C array, and
"other" (a struct or class). A struct names the members to transfer, in order,
through an `items<T>::list()` specialisation. Each category has a
`serializer_impl` and a `deserializer_impl`:

- they expose the serialized `size`;
- they write or read the object's bytes through an iterator `begin`;
- they return the iterator just past what they wrote or read.

Numbers are copied byte for byte from memory. A bool is written as 1 or 0 and
read back as "nonzero". Arrays go element by element in index order. Structs go
member by member in list order, through the recursive `partial_serializer<ix>` /
`partial_deserializer<ix>`.

The model has seven modules:

- `Bytes`: bytes, the little-endian image of an integer, two's complement.
- `Values`: the type universe `Ty` and the objects `Val` that the templates
  range over, and when an object conforms to a type.
- `Types`: `type_category` and the `tcat` tags; `size`, `sum_of_size` and
  `serialized_size`.
- `Codec`: the wire format as pure functions. `Encode` is what serialize writes
  and `Decode` is what deserialize reads.
- `Serializer`: the serializer and deserializer specialisations and the free
  functions, as methods over an `array<byte>`. An iterator is an index into the
  array, and each method is proved against `Codec`.
- `Vectors`: the test suite's values and expected bytes, plus a few added
  vectors (a negative int16_t, and bool bytes other than 0 and 1).
- `Seqs`: facts about sequences.

What is proved:

- The tags are 3, 2, 4, 8 and 0, and each type gets exactly one of them.
- An array's size is the element size times the count. A struct's size is the
  sum of its listed members' sizes.
- serialize writes exactly `Size(t)` bytes at the cursor, leaves every other
  byte alone, and returns the cursor just past them.
- Element i of an array sits at bytes `[i * s, (i + 1) * s)`. A member sits at
  the sum of the sizes of the members before it.
- Deserializing what was serialized yields the value.
- For types without bools, every byte image decodes to a value that re-encodes
  to the same bytes, provided the members that `items<T>::list()` names are
  distinct and do not overlap.

## Model

| member | source | states |
|---|---|---|
| `Types.TagValues` | src/lib/loleseri/loleseri.hpp:67-86 | the `tcat` constants computed from bool, int, `std::array<int,1>`, `int[1]` and a struct are 3, 2, 4, 8 and 0, so they are pairwise distinct |
| `Types.TypeCategory` | src/lib/loleseri/loleseri.hpp:56-64 | `type_category` is always one of the five tag values 0, 2, 3, 4 and 8, and it is 0 exactly for a struct. `Types.CategorySelectsOne` proves which tag each kind of type gets, in both directions |
| `Types.Size` | src/lib/loleseri/loleseri.hpp:143-145 | `serialized_size` and every specialisation's `size`: a number or bool takes 1 to 8 bytes, its `sizeof`. `Types.ArraySize` proves an array's size is element size times count, and `Types.StructSize` that a struct's is the total of its listed members |
| `Types.SumOfSize` | src/lib/loleseri/loleseri.hpp:115-137 | every member of the list fits in the list's `sum_of_size`. `Types.SumOfSizeAppend` proves it additive, and `Types.FieldFits` places each member inside the total |
| `Bytes.LittleEndian` | src/lib/loleseri/loleseri.hpp:201-209 | the memory image `std::copy` takes from an integer has exactly k bytes. `Bytes.LittleEndianDigit` pins byte i as base-256 digit i |
| `Bytes.FromLittleEndian` | src/lib/loleseri/loleseri.hpp:410-419 | the integer read from k bytes is below 256^k. `Bytes.FromLittleEndianOfLittleEndian` and `Bytes.LittleEndianOfFromLittleEndian` make it the inverse of `LittleEndian` |
| `Bytes.ToUnsigned` | src/lib/loleseri/loleseri.hpp:201-209 | a signed k-byte integer's two's complement pattern is below 256^k, equals the integer when it is not negative, and lies in the upper half otherwise. `Bytes.SignedRoundTrip` reads it back |
| `Bytes.FromUnsigned` | src/lib/loleseri/loleseri.hpp:410-419 | the signed reading of a k-byte pattern lies in the signed range and is negative exactly when the pattern is in the upper half. `Bytes.UnsignedRoundTrip` makes it the inverse of `ToUnsigned` |
| `Types.CategorySelectsOne` | src/lib/loleseri/loleseri.hpp:56-64 | every type's `type_category` value is one of the five tags. It equals the boolean tag iff the type is bool, the arithmetic tag iff it is a non-bool number, the std_array tag iff it is a `std::array`, the array tag iff it is a C array, and the other tag iff it is a struct. So exactly one specialisation applies |
| `Types.BlocksIsProduct` | src/lib/loleseri/loleseri.hpp:329-332 | n blocks of s bytes, counted one per element as the array loops advance, take s * n bytes |
| `Types.ArraySize` | src/lib/loleseri/loleseri.hpp:329-332 | the `size` of a `std::array` or a C array type is the element size times the element count |
| `Types.MembersSizeIsSumOfSize` | src/lib/loleseri/loleseri.hpp:122-137 | summing the sizes of members lo .. hi - 1 one by one, as `partial_serializer` walks them, equals `sum_of_size` of that part of the member list |
| `Types.StructSize` | src/lib/loleseri/loleseri.hpp:254-255 | a struct's `size` is the total size of the members that `items<T>::list()` names |
| `Types.SumOfSizeAppend` | src/lib/loleseri/loleseri.hpp:122-137 | `sum_of_size` of two consecutive member lists is the sum of their `sum_of_size` |
| `Types.FieldFits` | src/lib/loleseri/loleseri.hpp:122-137 | a member's offset, the `sum_of_size` of the members before it, plus its own size stays within the struct's size |
| `Bytes.LittleEndianDigit` | src/lib/loleseri/loleseri.hpp:203-205 | byte i of a number's memory image on the little-endian target is digit i of the number in base 256 |
| `Bytes.FromLittleEndianOfLittleEndian` | src/lib/loleseri/loleseri.hpp:412-414 | reading back the little-endian bytes of an in-range value gives the value |
| `Bytes.LittleEndianOfFromLittleEndian` | src/lib/loleseri/loleseri.hpp:412-414 | every k-byte pattern is the little-endian image of the value it reads as |
| `Bytes.SignedRoundTrip` | src/lib/loleseri/loleseri.hpp:203-205 | a signed integer's two's complement pattern reads back as the same signed integer |
| `Bytes.UnsignedRoundTrip` | src/lib/loleseri/loleseri.hpp:412-414 | every unsigned pattern is the two's complement pattern of the signed integer it reads as |
| `Codec.Representation` | src/lib/loleseri/loleseri.hpp:201-209 | the bytes `std::copy` takes from a number's memory number exactly the type's `sizeof` |
| `Codec.FromRepresentation` | src/lib/loleseri/loleseri.hpp:410-419 | any sizeof-long byte pattern copied into a number's memory yields an in-range object of that type |
| `Codec.RepresentationRoundTrip` | src/lib/loleseri/loleseri.hpp:394-419 | copying a number's bytes out and back into an object of its type reproduces the number |
| `Codec.RepresentationOfFromRepresentation` | src/lib/loleseri/loleseri.hpp:182-209 | the bytes of the number read from a pattern are that pattern |
| `Codec.Encode` | src/lib/loleseri/loleseri.hpp:152-155 | serialize writes exactly `Size(t)` bytes for every value of type t, whatever the value |
| `Codec.EncodeElems` | src/lib/loleseri/loleseri.hpp:344-351 | the elements from ix on, written one after the other, take one element-size block each |
| `Codec.EncodeFields` | src/lib/loleseri/loleseri.hpp:289-304 | `partial_serializer<ix>` writes exactly the total size of members ix onwards |
| `Codec.Decode` | src/lib/loleseri/loleseri.hpp:162-165 | deserialize reads from any `Size(t)` bytes an object that conforms to t |
| `Codec.DecodeElems` | src/lib/loleseri/loleseri.hpp:581-589 | reading elements ix .. n - 1 yields n - ix objects of the element type |
| `Codec.DecodeFields` | src/lib/loleseri/loleseri.hpp:496-513 | `partial_deserializer<ix>` yields one object of the right type for each member from ix on |
| `Codec.DecodeEncode` | src/lib/loleseri/loleseri.hpp:152-165 | reading a value of type t from bytes that start with its encoding gives the value back, whatever follows |
| `Codec.DecodeElemsEncode` | src/lib/loleseri/loleseri.hpp:344-351 | array elements from ix on read back from their encodings |
| `Codec.DecodeFieldsEncode` | src/lib/loleseri/loleseri.hpp:496-513 | struct members from ix on read back from their encodings |
| `Codec.RoundTrip` | src/lib/loleseri/loleseri.hpp:152-175 | deserializing exactly what serialize wrote yields the serialized value |
| `Codec.DecodeAfterEncode` | src/lib/loleseri/loleseri.hpp:162-165 | bytes whose first `Size(t)` are the encoding of v decode to v |
| `Codec.BoolCanonical` | src/lib/loleseri/loleseri.hpp:453-467 | a bool reads as true exactly when its byte is nonzero, and is written back as 1 or 0. This follows directly from the definitions of `Decode` and `Encode` for bool |
| `Codec.EncodeDecode` | src/lib/loleseri/loleseri.hpp:152-165 | for a type without bools, any `Size(t)` bytes are exactly the encoding of what they decode to |
| `Codec.EncodeDecodeElems` | src/lib/loleseri/loleseri.hpp:581-589 | re-encoding the elements read from bytes gives back those bytes, for bool-free element types |
| `Codec.EncodeDecodeFields` | src/lib/loleseri/loleseri.hpp:496-513 | re-encoding the members read from bytes gives back those bytes, for bool-free members |
| `Codec.ElemsFrom` | src/lib/loleseri/loleseri.hpp:344-351 | after the blocks of elements ix .. i - 1 come exactly the bytes of the elements from i on |
| `Codec.FieldsFrom` | src/lib/loleseri/loleseri.hpp:297-303 | after the bytes of members ix .. i - 1 come exactly the bytes of the members from i on |
| `Codec.ElemAt` | src/lib/loleseri/loleseri.hpp:344-351 | element i is encoded in the block after the first i blocks |
| `Codec.ArrayLayout` | src/lib/loleseri/loleseri.hpp:381-388 | element i of an array sits at bytes [i * s, (i + 1) * s) of its encoding, where s is the element size |
| `Codec.StructLayout` | src/lib/loleseri/loleseri.hpp:297-317 | member i of a struct sits at the `sum_of_size` of the members before it, and takes its own size |
| `Serializer.Serialize` | src/lib/loleseri/loleseri.hpp:152-155 | the free serialize dispatches by `type_category`. It writes exactly `Encode(t, v)` at the cursor and returns pos + `Size(t)`. Bytes outside [pos, pos + `Size(t)`) are unchanged. The end iterator is not an input |
| `Serializer.CopyBytes` | src/lib/loleseri/loleseri.hpp:233-237 | the bool serializer's store and the `std::copy` of a number write the given bytes at the cursor and nothing else, and return the cursor past them |
| `Serializer.SerializeElems` | src/lib/loleseri/loleseri.hpp:382-388 | the range-for of both array serializers writes every element's encoding in index order. The cursor advances exactly one block per element, and nothing outside the written range changes |
| `Serializer.PartialSerialize` | src/lib/loleseri/loleseri.hpp:264-317 | `partial_serializer<ix>` writes members ix onwards in list order, each at the cursor the previous one returned. Past the last member it returns its cursor unchanged |
| `Serializer.Deserialize` | src/lib/loleseri/loleseri.hpp:162-165 | the free deserialize dispatches by `type_category`. It reads `Decode(t, ...)` from the cursor, returns pos + `Size(t)`, and leaves the buffer unchanged |
| `Serializer.DeserializeElems` | src/lib/loleseri/loleseri.hpp:634-642 | the range-for of both array deserializers reads every element in index order, each from the cursor the previous one returned |
| `Serializer.PartialDeserialize` | src/lib/loleseri/loleseri.hpp:487-546 | `partial_deserializer<ix>` reads members ix onwards in list order. Past the last member it returns its cursor unchanged |
| `Serializer.DeserializeValue` | src/lib/loleseri/loleseri.hpp:172-175 | the value-returning deserialize, which every category except the C array offers, returns the decoded object |
| `Serializer.ReadBack` | src/lib/loleseri/loleseri.hpp:152-165 | deserializing at the cursor where v was serialized yields v, whatever the rest of the buffer holds |
| `Vectors.UnsignedVector` | src/test/arithmetic.cpp:25-44 | a byte string is the encoding of an unsigned integer when it has the type's width and reads as that integer, least significant byte first. It then also decodes to that integer |
| `Vectors.SignedVector` | src/test/arithmetic.cpp:119-140 | a byte string is the encoding of a signed integer when it has the type's width and its two's complement reading is that integer. It then also decodes to that integer |
| `Vectors.Uint8And16Vectors` | src/test/arithmetic.cpp:5-44 | uint8_t 123 is the byte 123, and uint16_t 0xabcd is cd ab. Both read back |
| `Vectors.Uint32Vector` | src/test/arithmetic.cpp:46-68 | uint32_t 0x1234abcd is cd ab 34 12 and reads back |
| `Vectors.Uint64Vector` | src/test/arithmetic.cpp:70-96 | uint64_t 0xb13260d357679c5c is 5c 9c 67 57 d3 60 32 b1 and reads back |
| `Vectors.Int8And16Vectors` | src/test/arithmetic.cpp:98-140 | int8_t 123 is the byte 123, int16_t 0x1234 is 34 12, and int16_t -2 is fe ff. All three read back. The -2 vector is added; the test file has no negative int16_t |
| `Vectors.Int32Vector` | src/test/arithmetic.cpp:142-163 | int32_t 0x1234abcd is cd ab 34 12 and reads back |
| `Vectors.Int64Vector` | src/test/arithmetic.cpp:165-191 | int64_t 0x1677a4815561cdf3 is f3 cd 61 55 81 a4 77 16 and reads back |
| `Vectors.BoolVectors` | src/test/arithmetic.cpp:193-216 | true is written as 1 and false as 0. The bytes 1, 2 and ff read as true, and 0 reads as false. The bytes 2 and ff are added; the test file reads only 1 and 0. These facts follow directly from the definitions |
| `Vectors.FloatVectors` | src/test/arithmetic.cpp:218-253 | a float or double is written as its memory bytes unchanged. Since floats are opaque byte patterns, this follows directly from the definition of `Encode` |
| `Vectors.TwoMembersSize` | src/lib/loleseri/loleseri.hpp:122-137 | a struct with two listed members has the sum of their sizes |
| `Vectors.TwoMembers` | src/lib/loleseri/loleseri.hpp:297-303 | a struct with two listed members is written as the first member's bytes followed by the second's |
| `Vectors.FooLayout` | src/test/struct.cpp:92-115 | `Foo {hoge, fuga}` is written as hoge followed by the 4 bytes of fuga |
| `Vectors.BarLayout` | src/test/struct.cpp:117-142 | `Bar {orange, banana}` is written as orange's two bytes, low byte first, then banana's members in order |
| `Vectors.FooVector` | src/test/struct.cpp:92-115 | Foo takes 5 bytes, and `{123, 987.654f}` is written as 7b db e9 76 44 |
| `Vectors.BarVector` | src/test/struct.cpp:117-142 | Bar takes 7 bytes, and `{0x9876, {11, 2233.4455f}}` is written as 76 98 0b 21 97 0b 45 |
| `Vectors.BazSize` | src/test/struct.cpp:28-49 | Baz, whose members are the arrays `Foo[2]`, `uint8_t[5]` and `Bar[3]`, takes 36 bytes |
| `Vectors.ThreeElems` | src/test/array.cpp:92-121 | a C array of three elements is written as its elements' bytes in index order |
| `Vectors.ByteElems` | src/test/array.cpp:64-90 | the elements of a uint8_t array, from any index on, are written as their byte values in index order |
| `Vectors.ByteArray` | src/test/array.cpp:64-90 | a `std::array` of uint8_t is written as exactly its bytes |
| `Vectors.CArrayVector` | src/test/array.cpp:92-121 | `uint16_t[3] {0xa1b2, 0xc3d4, 0xe5f6}` takes 6 bytes, written as b2 a1 d4 c3 f6 e5 |
| `Vectors.StdArrayOfStructSize` | src/test/array.cpp:43-62 | a struct of double, int32_t and int8_t takes 13 bytes, and `std::array` of 11 of them takes 143 |

## Left out

- `endian.hpp` and the big-endian branch. That branch does not compile, so the
  model fixes the little-endian target.
- Floating point values. float and double are opaque 4- and 8-byte patterns;
  their arithmetic and NaN payloads play no part in the wire format.
- `long double`. `std::is_arithmetic` accepts it and the arithmetic
  specialisation copies all `sizeof(long double)` bytes, padding included. That
  size depends on the platform, so `Ty` has no such type.
- The end iterator. Neither specialisation reads it. The methods therefore take
  no end, and instead require that the buffer holds `Size(t)` bytes from the
  cursor. Running past a short buffer, which is undefined behaviour in C++, is
  not modelled.
- Iterators other than indices into one byte array. That covers output
  iterators that are not random access, and a destination that aliases the
  source object.
- Serializer.Deserialize: models the destination object as an out-parameter.
  deserialize stores into every member that `items<T>::list()` names. A member
  the list does not name keeps whatever the object held before, and it is not
  part of `Val`, so the model says nothing about it.
- The uninitialised local object of the value-returning deserialize. It makes
  no difference for the members that are read.
- The value-returning deserialize for a C array. The source has none, since a C
  array cannot be returned; `Serializer.DeserializeValue` excludes that case.
- A bool object whose memory holds something other than 0 or 1. That is
  undefined behaviour in C++.
- Codec.EncodeDecode: assumes the members that `items<T>::list()` names are
  distinct objects that do not overlap. A list that names a member twice, or
  names overlapping union members, makes deserialize store several positions
  into one object so that the last store wins; serializing again then writes
  that value at every such position, not the bytes that were read.
- Codec.EncodeDecodeFields: the same assumption. Its `vs`, like the result of
  `Codec.Decode` and `Serializer.Deserialize` for a struct, is the sequence of
  values the list positions receive, one per position. That equals the
  object's state after deserialize only when the listed members are distinct
  and do not overlap.
- The template machinery and its compile-time checks: `memptr_value`,
  `element_type_of_array`, `size_of_array`, `std::remove_cv` and `buffer`. A
  type the templates cannot handle does not compile, so it has no `Ty` here.
- The example programs and the gtest test programs. Their vectors appear as lemmas in
  module `Vectors`. The std::array<uint8_t, 7> vector is stated for every byte
  string by `Vectors.ByteArray` rather than for those seven bytes. The round
  trip for `Baz` and for the 11-element array follows from `Codec.RoundTrip`.
