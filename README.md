# NBT codec, modelled in Dafny

This project models the core of a C++ library that reads and writes NBT (Named Binary Tag) documents.
NBT is the binary format Minecraft uses for its saves.

A document is a tree of tagged values:
- scalars: byte, short, int, long, float and double;
- byte, int and long vectors;
- strings;
- lists, which have one declared element type;
- compounds, which map names to values.

The library has four parts, and the model follows them file by file.

- **Value model** (`nbt_type.dfy`, from `include/nbt/nbt_type.hpp` and `src/nbt_type.cpp`)
  - A `Value` is a one-byte tag plus a separate `Payload`, the union member last built.
  - `Unspecified` is a member that cannot be read meaningfully.
  - The tag and the member are kept apart because the vector overloads of `operator=` set INT and LONG while building a vector member.
  - `ValueObject`, `CompoundObject` and `ListObject` are classes whose methods update them in place, as the C++ does. Each is specified against a function on values.
- **Big-endian primitives** (`primitive.dfy`, from `src/primitive.hpp`)
  - `Encode` and `Decode` give the exact byte images.
  - `ElementsBytes`, `ReadElements` and `ReadArray` cover the vector layouts.
  - `FillVector` is the element-by-element loop of `Array<T>::readFrom`.
- **Modified UTF-8** (`modified_utf.dfy`, from `src/modified_utf.hpp`)
  - `writeUTF` is empty.
  - `getByteLength` is a loop, `GetByteLength`.
  - The decoder is one specification recursion, `Units`, followed by `DecodeUtf`.
  - `DecodeBody`, `AsciiRun` and `DecodeUnit` are the two `while` loops writing into an output `array`.
- **Reader and writer**
  - `nbt_reader.dfy`, from `src/nbt_reader.cpp`:
    - the `ByteReader` cursor class;
    - the recursive descent `readValue` / `readInto` / `parse`, as functions on the unread bytes and as methods driving a `ByteReader`, with `Agrees` tying the two together.
  - `nbt_writer.dfy`, from `src/nbt_writer.cpp`:
    - the encoders, as byte functions and as the sequence of `ostream::write` chunks;
    - the size estimator;
    - a scalar getter on a union holding another member loads a word the model does not know, so the encoders take it as the parameter `stale`;
    - `OutputVectorBuffer`, a class over an `array`, with `writeToBuffer`.
  - `round_trip.dfy` relates the two sides. Parsing the document `write(c, name)` gives back `{name: c}` as the reader rebuilds it. Through `writeToBuffer` as written this holds only when its buffer does not overflow; through a buffer that grows as needed it always holds.

Shared outcome types live in `wrappers.dfy`. The `Error` values are:
- `OutOfBounds`: the checked `ByteReader::read` throws;
- `ShortRead`: a stream read comes up short;
- `Overrun`: a raw access past the buffer after the unchecked `advance`;
- `NegativeCount`: `std::vector` is constructed with a negative length;
- `PartialCharacter` and `MalformedAround(i)`: the two UTF-8 exceptions;
- `TypeMismatch`: `typeCheck` fails;
- `InvalidType`: `getValueSize` throws;
- `BufferOverflow`: a `memcpy` in `xsputn` would run past the vector.

Where the documentation of the library and its code disagree, the model follows the code:
- **INT_ARRAY does not round-trip.** The reader stores the vector it read with `nbtValue = std::move(buffer)` (src/nbt_reader.cpp:188). That is the `vector<int32_t>` overload, which sets the tag INT (src/nbt_type.cpp:178-182). The final `return std::move(nbtValue)` (src/nbt_reader.cpp:208) then takes the move `switch`'s INT case, `operator=(rhs.m_Int)` (src/nbt_type.cpp:60), which loads a word from the inactive `m_Int`. So an int vector is read back as tag INT with no readable member. LONG_ARRAY likewise becomes LONG: `nbtValue = std::move(buffer)` at src/nbt_reader.cpp:203 goes through the `vector<int64_t>` overload (src/nbt_type.cpp:184-188), and the move takes the LONG case (src/nbt_type.cpp:62).
- **Lists lose their declared element type.** The reader builds `List list;` and never sets its type (src/nbt_reader.cpp:162). The model stands in `UNSET_LIST_TYPE` = 0 for that indeterminate byte, and the round trip holds with every list type read back as that byte.
- **No `Value` this library builds carries tag INT_ARRAY or LONG_ARRAY.** `setType` is private and every typed overload sets a tag among 1..10 (`OverloadTag`), so the writer's INT_ARRAY and LONG_ARRAY cases (src/nbt_writer.cpp:121-123) cannot be reached from a value built here, and only a document from another writer reaches the reader's. `Portable` admits INT_ARRAY for such input.
- **Strings and LONG_ARRAY do not survive either.** This is proved as counter-lemmas, listed below.

## Model

The plain definitions the table's lemmas are about have no rows of their own; each is given its meaning by the lemmas named after it:
- `NbtWriter.ValueBytes`, `ListBytes`, `CompoundBytes`, `EntryBytes` and `DocumentBytes`: the bytes `operator<<` and `Writer::write` put down (src/nbt_writer.cpp:19-127). Their meaning comes from `RootTagLayout`, `NameLayout`, `ListLayout`, the `*WritesFlatten` lemmas and the round trips `DocumentRoundTrip` and `WriteAndParse`.
- `NbtReader.ParseDocument`: `Reader::parse` (src/nbt_reader.cpp:229-242). Given meaning by `NbtReader.Parse`, `DocumentRoundTrip`, `RootTagRoundTrip` and `StringDocumentFails`.
- `ModifiedUtf.DecodeUtf`: `utf::readUTF` (src/modified_utf.hpp:31-91). Given meaning by `DecodeBody`, `DecodeSucceedsIffWellFormed`, `DecodeLayout`, `DecodeReadsOnlyBody` and `DecodeOfEncoding`.
- `ModifiedUtf.EncodedLength`: `utf::getByteLength` (src/modified_utf.hpp:15-29). Given meaning by `GetByteLength`, `EncodedLengthBounds` and `EncodedLengthOfAscii`.
- `NbtType.Stored`: `compound[key] = std::move(value)`. Given meaning by `StoreSets`, `StoredKeys` and `StoredKeeps`.
- `NbtType.Moved` and `NbtType.MovedFrom`: the move constructor's result and what it leaves in its source. Given meaning by `MoveReproduces`, `MovedStable`, `MoveDrainsSource` and `MoveEmptiesSource`.

| member | source | states |
|---|---|---|
| NbtType.MemberKind | include/nbt/nbt_type.hpp:11-24 | every union member is numbered by one of the tags 1..12, and only `Unspecified` has none |
| NbtType.OverloadTag | src/nbt_type.cpp:136-206 | the tag each typed `operator=` sets is a tag among 1..10: the member's own tag for BYTE through COMPOUND, INT for an int vector and LONG for a long vector |
| NbtType.CopyPayload | src/nbt_type.cpp:22-51 | a copied member is of the same kind as the original |
| NbtType.GetterChecksTag | src/nbt_type.cpp:7-320 | a getter fails, with a type mismatch, exactly when the tag differs from its kind; past the check it returns the member held if that member is of its kind, and nothing readable otherwise |
| NbtType.SetTypeRetags | src/nbt_type.cpp:208-226 | after `setType(t)` every getter but `t`'s fails; `t`'s getter finds the old member only when the old tag owned nothing to destroy, and nothing readable when it did; a destroyed member does not come back when the old tag is set again, while between tags that own nothing the old value does come back |
| NbtType.AssignSetsKind | src/nbt_type.cpp:136-206 | assigning a scalar, byte vector, string, compound or list sets that kind's tag, and the matching getter returns the payload |
| NbtType.AssignVectorQuirk | src/nbt_type.cpp:178-188 | int-vector assignment sets INT and long-vector assignment sets LONG; `getIntArray`/`getLongArray` then fail, and `getInt`/`getLong` read nothing meaningful |
| NbtType.MoveReproduces | src/nbt_type.cpp:53-82 | move assignment of a value whose tag matches its member reproduces it; a source tag outside 1..12 leaves the target unchanged |
| NbtType.CopyReproduces | src/nbt_type.cpp:22-51 | copy assignment of a value sound all the way down reproduces it |
| NbtType.CopyPayloadReproduces | src/nbt_type.cpp:37-43 | copying a sound container payload gives an equal payload |
| NbtType.CopyOfIntVector | src/nbt_type.cpp:29-76 | copying or moving a tag-INT value holding an int vector reads `m_Int`, which is not the live member, so the result is INT with nothing readable |
| NbtType.MoveDrainsSource | src/nbt_type.cpp:53-82 | a moved-from value keeps its tag, so each getter fails or succeeds as before; a scalar is unchanged, a vector reads back empty, a list keeps its type with no elements, and a string or compound has nothing readable |
| NbtType.MoveEmptiesSource | src/nbt_type.cpp:14-16 | `Value b(std::move(a))` with `a` holding the bytes 1, 2, 3 gives `b` that vector and leaves `a` a BYTE_ARRAY with an empty vector |
| NbtType.MovedStable | src/nbt_type.cpp:14-82 | moving twice equals moving once, except for the vector tags; after two moves every value is stable |
| NbtType.Find | src/nbt_type.cpp:326-333 | `find`: a position holding the key, or none when no entry has that key |
| NbtType.Contains | src/nbt_type.cpp:326-328 | `hasKey` holds iff some entry has the key |
| NbtType.Indexed | src/nbt_type.cpp:322-324 | `operator[]` on an absent key appends a default entry, and on a present key changes nothing; either way the key is then present and keys stay distinct |
| NbtType.StoreSets | src/nbt_type.cpp:322-324 | `compound[key] = value` keeps keys distinct, makes the key present with the value moved into the old or default slot, and leaves every other key and value unchanged (the store done at src/nbt_reader.cpp:223) |
| NbtType.StoredKeys | src/nbt_type.cpp:322-324 | storing under a key has the same key layout as indexing it |
| NbtType.StoredKeeps | src/nbt_type.cpp:322-324 | storing under one key neither adds, removes nor changes any other key's value |
| NbtType.FindUnique | include/nbt/nbt_type.hpp:36 | with distinct keys, the entry holding a key is the one `find` returns |
| NbtType.RemoveDeletes | src/nbt_type.cpp:330-335 | `remove` of an absent key returns false and changes nothing; otherwise it returns true, deletes only that key, and leaves all other entries unchanged |
| NbtType.DeletedKeeps | src/nbt_type.cpp:333 | erasing the entry at one position keeps every other key with its value |
| NbtType.DeletedDistinct | src/nbt_type.cpp:333 | erasing an entry keeps keys distinct |
| NbtType.PushedBack | src/nbt_type.cpp:345-347 | `pushBack` grows the list by one with the moved value last and the declared type unchanged; the earlier elements stay as they were, or are each moved once when the vector reallocates |
| NbtType.EmplacedBack | include/nbt/nbt_type.hpp:46-49 | `emplaceBack` appends one element holding a copy of the given member, every nested value copy-constructed, under the tag its `operator=` sets; the earlier elements stay, or are each moved once when the vector reallocates |
| NbtType.RelocationKeeps | src/nbt_type.cpp:14-16 | a reallocation leaves every element whose tag matches its member unchanged, so for such a list `pushBack` gives the same list whether or not the vector grows |
| NbtType.RelocationDrops | src/nbt_type.cpp:53-82 | a reallocation loses the vector of an element built from an int vector, leaving INT with nothing readable, and turns a tag-0 element into a BYTE with nothing readable |
| NbtType.EmplaceCopies | include/nbt/nbt_type.hpp:46-49 | `emplaceBack` of a payload whose values all match their tags stores that payload unchanged; a compound holding a default entry is stored with that entry turned into a BYTE with nothing readable |
| NbtType.ValueObject.Empty | src/nbt_reader.cpp:96 | a `Value` declared without initialiser has no member, and tag 0 stands in for its indeterminate tag |
| NbtType.ValueObject.Of | src/nbt_type.cpp:84-130 | the converting constructors are a fresh value followed by the typed assignment |
| NbtType.ValueObject.Copy | src/nbt_type.cpp:18-20 | the copy constructor is tag BYTE followed by copy assignment |
| NbtType.ValueObject.Move | src/nbt_type.cpp:14-16 | the move constructor is tag BYTE followed by move assignment, and it leaves `rhs` as `MovedFrom` of its old state: same tag, container member moved out |
| NbtType.ValueObject.SetType | src/nbt_type.cpp:208-226 | the object's new state is `WithType` of its old state |
| NbtType.ValueObject.Assign | src/nbt_type.cpp:136-206 | the object's new state is the typed assignment of the payload to its old state |
| NbtType.ValueObject.CopyAssign | src/nbt_type.cpp:22-51 | self-assignment changes nothing; otherwise the new state is the copy assignment of the source's old state |
| NbtType.ValueObject.MoveAssign | src/nbt_type.cpp:53-82 | self-assignment changes nothing; otherwise the new state is the move assignment of the source's old state, and the source is left as `MovedFrom` of its old state |
| NbtType.ValueObject.AssignMember | src/nbt_type.cpp:25-48 | one `case` of the assignment switch: the overload's tag with the member read from the source |
| NbtType.ValueObject.GetType | src/nbt_type.cpp:228-230 | `getType` returns the tag |
| NbtType.ValueObject.Get | src/nbt_type.cpp:232-320 | a getter on the object fails iff the tag is not its kind, and returns the member when it is live |
| NbtType.CompoundObject.constructor | include/nbt/nbt_type.hpp:28-37 | a new compound is an empty map |
| NbtType.CompoundObject.Index | src/nbt_type.cpp:322-324 | the map's new state is `Indexed` of the old, and the returned slot holds the key |
| NbtType.CompoundObject.Store | src/nbt_reader.cpp:223 | the map's new state is `Stored` of the old, and keys stay distinct |
| NbtType.CompoundObject.HasKey | src/nbt_type.cpp:326-328 | true iff an entry has the key |
| NbtType.CompoundObject.Remove | src/nbt_type.cpp:330-335 | the new map and the result are `Removed` of the old map, and keys stay distinct |
| NbtType.ListObject.constructor | include/nbt/nbt_type.hpp:53-54 | a list is its declared element type and an empty vector |
| NbtType.ListObject.PushBack | src/nbt_type.cpp:345-347 | the list's new state is `PushedBack` of the old, moved to new storage first when `grows` |
| NbtType.ListObject.EmplaceBack | include/nbt/nbt_type.hpp:46-49 | the list's new state is `EmplacedBack` of the old: a `Value` built from a copy of the argument, appended after a move to new storage when `grows` |
| NbtType.ListObject.At | src/nbt_type.cpp:337-343 | `operator[]` returns the element at the index, which must be in range since there is no bounds check |
| NbtType.ListObject.Size | src/nbt_type.cpp:365-367 | `size` is the number of elements |
| Primitive.Pow256 | src/primitive.hpp:17-19 | helper definition for the width lemmas, not a property of the source: a power of 256 is positive |
| Primitive.ToUnsigned | src/primitive.hpp:43-69 | the two's-complement bit pattern of a value lies below the kind's modulus |
| Primitive.FromUnsigned | src/primitive.hpp:51-77 | the `static_cast` back to the signed type lands in the kind's range |
| Primitive.HostBytes | src/primitive.hpp:31 | the in-memory image of a word has exactly its width in bytes |
| Primitive.Reverse | src/byteswap.hpp:54-58 | the byte swap keeps the length |
| Primitive.ReadFrom | src/primitive.hpp:34-117 | `readFrom` succeeds iff `sizeof(T)` bytes remain; it then yields an in-range value and the bytes after them, and otherwise a short read |
| Primitive.HostValueBound | src/primitive.hpp:17-19 | the word stored in `n` bytes is below 256^n |
| Primitive.ModulusIsPower | src/primitive.hpp:17-19 | each kind's modulus is 256 to the power of its width |
| Primitive.HostValueOfHostBytes | src/primitive.hpp:31 | reading back the image of a word gives the word |
| Primitive.HostBytesOfHostValue | src/primitive.hpp:37 | the image of the word read from some bytes is those bytes |
| Primitive.ReverseReverse | src/primitive.hpp:43-51 | swapping twice restores the bytes |
| Primitive.ReverseAppend | src/primitive.hpp:43 | swapping a concatenation swaps and exchanges the parts |
| Primitive.BigEndianOfReverse | src/primitive.hpp:43-45 | the byte-swapped image, read most significant byte first, is the value |
| Primitive.HostBytesOfSmall | src/primitive.hpp:154 | the wide image of a small word is its narrow image followed by zero bytes |
| Primitive.CastRoundTrip | src/primitive.hpp:43-77 | casting to unsigned and back restores every in-range value |
| Primitive.CastRoundTripWord | src/primitive.hpp:43-77 | casting to signed and back restores every word |
| Primitive.EncodeLength | src/primitive.hpp:17-117 | `writeTo` emits exactly `getSize()` bytes |
| Primitive.EncodeLayout | src/primitive.hpp:29-110 | `writeTo` emits `getSize()` bytes of the value's bit pattern, most significant first (a float or double as its raw word), and an int8 as its one byte unchanged |
| Primitive.ReadAfterWrite | src/primitive.hpp:29-117 | `readFrom` applied to `writeTo`'s bytes returns the value and leaves the following bytes |
| Primitive.EncodeAfterDecode | src/primitive.hpp:34-117 | the bytes a value is read from are exactly what writing it back emits |
| Primitive.WideningAddsZeros | src/primitive.hpp:154 | the 8-byte image of a non-negative int32 count is four zero bytes and then its 4-byte image |
| Primitive.WriteArray | src/primitive.hpp:133-159 | the int and long vector writers emit `ArrayBytes`: the count through the count kind, then every element |
| Primitive.WriteElements | src/primitive.hpp:137-158 | the element loop appends each element's image to what was written before |
| Primitive.ElementsPrefix | src/primitive.hpp:137-139 | the bytes of the first `i + 1` elements are those of the first `i` and then element `i` |
| Primitive.ReadElements | src/primitive.hpp:146-167 | reading `n` elements succeeds with `n` in-range values and fewer bytes left, or fails with a short read |
| Primitive.ReadArray | src/primitive.hpp:125-169 | `Array<T>::readFrom`: 4-byte count then elements; success consumes bytes, failure is a short read or a negative count |
| Primitive.ReadArrayFrom | src/primitive.hpp:142-169 | the method reading a count, building the vector and filling it agrees with `ReadArray` |
| Primitive.FillVector | src/primitive.hpp:145-167 | the fill loop over an `array` gives exactly `ReadElements` of the input |
| Primitive.PrefixedStep | src/primitive.hpp:146-148 | one successful element read is one step of `ReadElements` |
| Primitive.ReadStep | src/primitive.hpp:146-148 | one element read either fails the whole read or puts its value in front of the rest |
| Primitive.ReadElementsAfterWrite | src/primitive.hpp:137-148 | reading as many elements as were written back from their images returns the values and the following bytes |
| Primitive.ElementsBytesAppend | src/primitive.hpp:137-139 | the images of a concatenation are the concatenated images |
| Primitive.ArrayRoundTrip | src/primitive.hpp:119-150 | the byte and int vector writers round-trip through `readFrom` for counts below 2^31 |
| Primitive.LongArrayMisread | src/primitive.hpp:152-169 | a long vector comes back as an empty vector, leaving the second half of the 8-byte count and all elements unread |
| Primitive.LongCountLayout | src/primitive.hpp:154 | the long vector's count is written as four zero bytes and then the 4-byte count |
| Primitive.Int32CastSmall | src/primitive.hpp:121-135 | helper step for the array round trip, not a property of the source: `static_cast<int32_t>` keeps counts below 2^31 |
| Primitive.ZeroImage | src/primitive.hpp:54-58 | helper step for LongCountLayout, not a property of the source: an int32 zero is written as four zero bytes |
| ModifiedUtf.WriteUtf | src/modified_utf.hpp:11-13 | `writeUTF` writes no bytes for any string |
| ModifiedUtf.WideChar | src/modified_utf.hpp:18 | `static_cast<uint16_t>` of a signed char lies in 0..0xFFFF |
| ModifiedUtf.CharWidth | src/modified_utf.hpp:19-25 | a char counts 1 iff it is 0x01..0x7F, 2 iff it is NUL, and 3 iff its byte is 0x80 or more, since a signed byte converts to 0xFF80 or above |
| ModifiedUtf.GetByteLength | src/modified_utf.hpp:15-29 | the accumulating loop returns the summed widths plus 2 |
| ModifiedUtf.EncodedLengthBounds | src/modified_utf.hpp:15-29 | `getByteLength(s)` lies between the length of `s` plus 2 and three times that length plus 2 |
| ModifiedUtf.WidthSumBounds | src/modified_utf.hpp:16-26 | the summed widths lie between the length of `s` and three times it |
| ModifiedUtf.EncodedLengthOfAscii | src/modified_utf.hpp:19-28 | an all-ASCII non-NUL string measures its length plus 2 |
| ModifiedUtf.AsciiWidthSum | src/modified_utf.hpp:19-20 | an all-ASCII non-NUL string's widths sum to its length |
| ModifiedUtf.Units | src/modified_utf.hpp:45-87 | decoding from position `count` to `n` yields at most `n - count` units, with the decoder's failures |
| ModifiedUtf.Zeros | src/modified_utf.hpp:39 | the NUL padding has the requested length |
| ModifiedUtf.Low8 | src/modified_utf.hpp:49-81 | truncating each unit to a `char` gives one byte per unit |
| ModifiedUtf.DecodeBody | src/modified_utf.hpp:39-90 | the two loops writing into the output `array` return exactly `DecodeUtf` |
| ModifiedUtf.AsciiRun | src/modified_utf.hpp:45-50 | the ASCII loop stops at the first byte above 127 or at `n`, having written each byte it passed; the rest of the decoding is unchanged |
| ModifiedUtf.DecodeUnit | src/modified_utf.hpp:53-86 | one pass of the `switch` consumes one unit of 1 to 3 bytes and produces it, or fails exactly as the decoder does |
| ModifiedUtf.AsciiUnit | src/modified_utf.hpp:55-64 | a byte of 127 or less is a one-byte unit |
| ModifiedUtf.Step | src/modified_utf.hpp:52-87 | decoding one unit and then the rest is decoding from the earlier position |
| ModifiedUtf.ReadUtfFromStream | src/modified_utf.hpp:31-91 | `readUTF(istream)` agrees with `ReadUtfStream` |
| ModifiedUtf.ReadUtfStreamConsumes | src/modified_utf.hpp:32-39 | the stream decoder reads a 2-byte big-endian length `n`, then at most `n` further bytes; it never overruns, and on success yields `n + 1` bytes |
| ModifiedUtf.UnitsAcceptsWellFormed | src/modified_utf.hpp:52-87 | decoding succeeds iff the bytes are a sequence of well-formed 1-, 2- and 3-byte units |
| ModifiedUtf.DecodeSucceedsIffWellFormed | src/modified_utf.hpp:45-89 | `readUTF` succeeds iff its `n` body bytes are well formed |
| ModifiedUtf.UnitsReadsOnlyBody | src/modified_utf.hpp:45-87 | no index at or beyond `n` is read: decoding depends only on the first `n` bytes and never overruns |
| ModifiedUtf.DecodeReadsOnlyBody | src/modified_utf.hpp:36-89 | the decoded string depends only on the `n` body bytes |
| ModifiedUtf.UnitsNeedBody | src/modified_utf.hpp:45-87 | a decoding that succeeds had all `n` bytes available |
| ModifiedUtf.DecodeNeedsBody | src/modified_utf.hpp:36-37 | a successful decode implies the body was all there |
| ModifiedUtf.DecodeLayout | src/modified_utf.hpp:39-89 | on success the result has length `n + 1`, position `i` holds the low 8 bits of unit `i`, and every later position is NUL |
| ModifiedUtf.UnitsOfAscii | src/modified_utf.hpp:45-50 | bytes below 0x80 decode to themselves |
| ModifiedUtf.DecodeAscii | src/modified_utf.hpp:45-89 | `n` ASCII bytes decode to exactly those bytes and one NUL |
| ModifiedUtf.EncodeUnit | src/modified_utf.hpp:55-84 | the Modified UTF-8 form of a unit takes 1 to 3 bytes |
| ModifiedUtf.EncodeUnits | src/modified_utf.hpp:55-84 | encoding `m` units takes between `m` and `3m` bytes |
| ModifiedUtf.UnitOfEncoding | src/modified_utf.hpp:55-84 | the decoder reads any unit's encoding back as that unit |
| ModifiedUtf.OneByteForm | src/modified_utf.hpp:62-64 | a byte 0x01..0x7F decodes to itself |
| ModifiedUtf.TwoByteForm | src/modified_utf.hpp:65-74 | the two-byte form of `u`, lead `0xC0 + u / 64` and continuation `0x80 + u % 64`, decodes to `u` |
| ModifiedUtf.ThreeByteForm | src/modified_utf.hpp:75-84 | the three-byte form of `u` decodes to `u` |
| ModifiedUtf.UnitsOfEncoding | src/modified_utf.hpp:52-87 | the decoder reads the encoding of a unit sequence back as that sequence |
| ModifiedUtf.DecodeOfEncoding | src/modified_utf.hpp:39-90 | decoding the Modified UTF-8 encoding of any unit sequence gives its low bytes, NUL-padded to `n + 1` |
| ModifiedUtf.DecodeFailureExamples | src/modified_utf.hpp:67-85 | a truncated 2- or 3-byte unit is a partial character; a stray continuation byte, a lead `0xF0`, or a bad continuation byte fail "around" the positions the messages print |
| NbtReader.ReadChecked | src/nbt_reader.cpp:12-122 | a fixed-width read succeeds iff the bytes remain, giving the decoded value and the bytes after; otherwise the out-of-bounds failure |
| NbtReader.GrowthInvisible | src/nbt_reader.cpp:163-165 | for a list of values `readValue` returns, `pushBack` gives the same list whether or not the vector reallocates |
| NbtReader.RawBlock | src/nbt_reader.cpp:21-221 | a block taken through the unchecked `advance` is a split of the input when it fits, and an overrun otherwise |
| NbtReader.Signed | src/nbt_reader.cpp:143-144 | raw bytes copied into a `vector<int8_t>` keep their bit patterns |
| NbtReader.CString | src/nbt_reader.cpp:220-223 | `key.c_str()` used as a key is the name cut before its first NUL |
| NbtReader.ParseUtf | src/nbt_reader.cpp:34-93 | the reader's `readUTF` consumes at least its 2-byte length; what it decodes and when it fails is stated by NbtReader.ReaderUtfAgreesWithStream |
| NbtReader.MoveOfReadBack | src/nbt_reader.cpp:208-223 | moving a value `readValue` returns changes nothing |
| NbtReader.StoredReadBack | src/nbt_reader.cpp:223 | storing a read value keeps keys distinct and every entry a read value |
| NbtReader.Filled | src/nbt_reader.cpp:99-205 | one `case` of the switch: the member assigned, under its own tag for BYTE through COMPOUND, and a value `readValue` may return once moved (for a vector the move reads the inactive word, see IntArrayRoundTrip) |
| NbtReader.ParseValue | src/nbt_reader.cpp:95-208 | `readValue` never grows the input, and what it returns has a tag among 1..10 holding that tag's member, or nothing readable under BYTE, INT or LONG |
| NbtReader.ParsePayload | src/nbt_reader.cpp:98-206 | the switch never grows the input, and its value, once moved, is one `readValue` may return (for a vector or an unknown tag the move changes it, see IntArrayRoundTrip and UnknownTagYieldsBlank) |
| NbtReader.ParseByteArray | src/nbt_reader.cpp:138-148 | the BYTE_ARRAY case consumes at least its 4-byte count |
| NbtReader.ParseList | src/nbt_reader.cpp:153-169 | the LIST case consumes at least its header, and the list read has element type 0 |
| NbtReader.ParseElements | src/nbt_reader.cpp:163-165 | the list loop appends exactly `n` elements after the existing ones, keeping the declared type |
| NbtReader.ParseInto | src/nbt_reader.cpp:211-227 | `readInto` consumes at least its first tag and keeps compound keys distinct |
| NbtReader.ParseEntry | src/nbt_reader.cpp:216-223 | one entry consumes at least its name length and keeps keys distinct |
| NbtReader.ParseEntries | src/nbt_reader.cpp:215-226 | the entry loop consumes input and keeps keys distinct |
| NbtReader.StoredInvariant | src/nbt_reader.cpp:223 | storing a value `readValue` returned keeps the compound well formed |
| NbtReader.ParseLoop | src/nbt_reader.cpp:233-235 | the `parse` loop keeps the compound well formed |
| NbtReader.ScalarRead | src/nbt_reader.cpp:99-122 | BYTE..DOUBLE succeed iff their width remains, decode that many big-endian bytes into the kind's tag and member, and otherwise fail out of bounds |
| NbtReader.UnknownTagYieldsBlank | src/nbt_reader.cpp:95-208 | a tag outside 1..12 consumes nothing and yields the moved default Value without error |
| NbtReader.ReaderUtfAgreesWithStream | src/nbt_reader.cpp:34-93 | whenever its body is present, the reader's `readUTF` decodes and fails exactly like the stream decoder |
| NbtReader.ByteReader.constructor | src/nbt_reader.cpp:11 | a new reader is over the data with its cursor at 0 |
| NbtReader.ByteReader.Eof | src/nbt_reader.cpp:23 | `eof()` holds exactly when one unread byte remains, not zero |
| NbtReader.ByteReader.Read | src/nbt_reader.cpp:12-19 | `read` fails without moving when index + length exceeds the total, and otherwise returns bytes [index, index + length) and advances by length |
| NbtReader.ByteReader.Advance | src/nbt_reader.cpp:21 | `advance` moves the cursor by `x` unchecked |
| NbtReader.ReadPrimitive | src/nbt_reader.cpp:99-122 | the checked read and byte swap agree with `ReadChecked` |
| NbtReader.ReadUtf | src/nbt_reader.cpp:34-93 | the reader's `readUTF` method agrees with `ParseUtf` |
| NbtReader.ReadByteArray | src/nbt_reader.cpp:138-148 | the BYTE_ARRAY case method agrees with `ParseByteArray` |
| NbtReader.ReadNumbers | src/nbt_reader.cpp:176-205 | the INT_ARRAY and LONG_ARRAY cases agree with the checked `ReadArray` |
| NbtReader.FillNumbers | src/nbt_reader.cpp:182-201 | the fill loop over an `array` equals `ReadElements`, with the cursor at the unread rest; a failure is out of bounds |
| NbtReader.ReadNumber | src/nbt_reader.cpp:183-200 | one checked element read is one step of `ReadElements` after the elements already read |
| NbtReader.ReadValue | src/nbt_reader.cpp:95-209 | the `readValue` method agrees with `ParseValue` |
| NbtReader.ReadPayload | src/nbt_reader.cpp:98-206 | the switch filling `nbtValue` in place agrees with `ParsePayload`, and on success `nbtValue` holds the value returned |
| NbtReader.ReadList | src/nbt_reader.cpp:153-169 | the LIST case method agrees with `ParseList` |
| NbtReader.ReadListElements | src/nbt_reader.cpp:162-167 | the `pushBack` loop agrees with `ParseElements` |
| NbtReader.ReadListElement | src/nbt_reader.cpp:164 | one `readValue` and `pushBack` is one step of `ParseElements` |
| NbtReader.ReadInto | src/nbt_reader.cpp:211-227 | `readInto` on a `CompoundObject` lands where `ParseInto` says and keeps keys distinct |
| NbtReader.ReadEntry | src/nbt_reader.cpp:216-223 | one entry on a `CompoundObject` lands where `ParseEntry` says |
| NbtReader.Parse | src/nbt_reader.cpp:229-242 | `Reader::parse` returns `ParseDocument` |
| NbtReader.Scalar | src/nbt_reader.cpp:102-135 | the member each scalar case assigns is of that case's kind |
| NbtWriter.RootTagLayout | src/nbt_writer.cpp:19-31 | with the root-tag option the document is a COMPOUND tag and an empty name, then the plain document |
| NbtWriter.NameLayout | src/nbt_writer.cpp:70-74 | a name is its length cast to 16 bits, big-endian, then its raw bytes |
| NbtWriter.ListLayout | src/nbt_writer.cpp:90-97 | a list is its element tag byte, a 4-byte count equal to its size, then each element's payload only |
| NbtWriter.NullEntryFrom | src/nbt_writer.cpp:78 | an appended tag-0 entry adds no bytes to the entries |
| NbtWriter.NullEntrySkipped | src/nbt_writer.cpp:78 | the default entry `operator[]` inserts is skipped by the writer (the entry `operator[]` inserts at src/nbt_type.cpp:322-324) |
| NbtWriter.ElementWrites | src/primitive.hpp:137-139 | one write per vector element |
| NbtWriter.FlattenAppend | src/nbt_writer.cpp:43-50 | the bytes of two write sequences in turn are their bytes concatenated |
| NbtWriter.ElementWritesFlatten | src/primitive.hpp:137-139 | the vector's element writes put down exactly its element images |
| NbtWriter.WritesFlatten | src/nbt_writer.cpp:99-127 | the `ostream::write` chunks of a value put down exactly its payload bytes |
| NbtWriter.ListWritesFlatten | src/nbt_writer.cpp:90-97 | a list's chunks put down exactly its bytes |
| NbtWriter.ElementsWritesFlatten | src/nbt_writer.cpp:93-95 | the chunks of the list elements put down exactly their bytes |
| NbtWriter.CompoundWritesFlatten | src/nbt_writer.cpp:76-88 | a compound's chunks put down exactly its bytes |
| NbtWriter.EntriesWritesFlatten | src/nbt_writer.cpp:77-82 | the entries' chunks put down exactly their bytes |
| NbtWriter.EntryWritesFlatten | src/nbt_writer.cpp:79-81 | one entry's chunks put down exactly its tag, name and payload |
| NbtWriter.DocumentWritesFlatten | src/nbt_writer.cpp:19-31 | the document's chunks put down exactly the document's bytes |
| NbtWriter.ValueSize | src/nbt_writer.cpp:129-146 | `getValueSize` fails only with "invalid nbt type"; a scalar tag is sized without reading any member, whatever the union holds |
| NbtWriter.ElementsSizeFrom | src/nbt_writer.cpp:157-164 | the list sum fails only with "invalid nbt type" |
| NbtWriter.EntriesSizeFrom | src/nbt_writer.cpp:148-155 | the compound sum fails only with "invalid nbt type" |
| NbtWriter.GetValueSize | src/nbt_writer.cpp:129-146 | the method returns `ValueSize` |
| NbtWriter.GetListSize | src/nbt_writer.cpp:157-164 | the accumulator loop returns the sum of the element sizes, or the first failure |
| NbtWriter.GetCompoundSize | src/nbt_writer.cpp:148-155 | the accumulator loop returns the sum of the entry sizes, or the first failure |
| NbtWriter.SizeDefinedIffKinds | src/nbt_writer.cpp:129-146 | the estimate is defined iff every tag, nested ones included, is among 1..12; this covers scalar tags over another member, such as an assigned int vector or what `readValue` makes of an INT_ARRAY |
| NbtWriter.ElementsSizeDefined | src/nbt_writer.cpp:157-164 | the list sum is defined iff every element, scalar tags over another member included, reaches only tags among 1..12 |
| NbtWriter.EntriesSizeDefined | src/nbt_writer.cpp:148-155 | the compound sum is defined iff every entry, scalar tags over another member included, reaches only tags among 1..12 |
| NbtWriter.ElementsBytesLength | src/nbt_writer.cpp:137-139 | a vector's elements take count × element width bytes, the estimate for arrays |
| NbtWriter.EstimateCoversPayloadOnly | src/nbt_writer.cpp:129-164 | for a value without strings the estimate never exceeds the bytes written, since it counts no tags, names, counts or end markers |
| NbtWriter.ElementsEstimate | src/nbt_writer.cpp:157-164 | the list sum never exceeds the elements' bytes |
| NbtWriter.EntriesEstimate | src/nbt_writer.cpp:148-155 | the compound sum never exceeds the entries' bytes |
| NbtWriter.DocumentOutgrowsEstimate | src/nbt_writer.cpp:19-57 | the document is at least 5 bytes plus the name longer than the estimate it starts its buffer with |
| NbtWriter.StringEstimateExceedsOutput | src/nbt_writer.cpp:115-140 | a string is estimated at `getByteLength` bytes, at least the length of `s` plus 2, yet writes no bytes |
| NbtWriter.MisreadWritesOneWord | src/nbt_writer.cpp:99-134 | a scalar tag over a member of another kind (an assigned int or long vector, or a value `readValue` made with no member) is accepted, sized as one scalar, and written as the one word its getter loads |
| NbtWriter.IntVectorEntry | src/nbt_writer.cpp:76-134 | `c["v"] = vector<int32_t>{...}` gives an entry sized at 4 bytes and written as tag 3, the name and one loaded word, never the elements (the INT tag set at src/nbt_type.cpp:178-182) |
| NbtWriter.OutputVectorBuffer.constructor | src/nbt_writer.cpp:35 | the buffer starts with `startingSize` bytes and index 0 |
| NbtWriter.OutputVectorBuffer.Xsputn | src/nbt_writer.cpp:43-50 | when the single doubling makes room, `xsputn` doubles once if free space ≤ length, copies the data at the index, advances the index by length and returns length |
| NbtWriter.OutputVectorBuffer.Put | src/nbt_writer.cpp:43-50 | a growth policy that always makes room appends the data and returns its length |
| NbtWriter.OutputVectorBuffer.Resize | src/nbt_writer.cpp:45 | `resize` to a larger size keeps the bytes written so far |
| NbtWriter.OutputVectorBuffer.Copy | src/nbt_writer.cpp:47-48 | the `memcpy` into room that exists appends the data and advances the index |
| NbtWriter.OutputVectorBuffer.MoveBuffer | src/nbt_writer.cpp:37-40 | `moveBuffer` yields the bytes up to the index |
| NbtWriter.FitsStep | src/nbt_writer.cpp:43-50 | the writes from `i` on fit iff write `i` fits after one doubling and the rest fit in the grown vector |
| NbtWriter.WriteToBuffer | src/nbt_writer.cpp:43-63 | `writeToBuffer` fails with "invalid nbt type" when the estimate does; otherwise it yields the document's bytes when every write finds room after a single doubling, and a buffer overflow when one does not |
| NbtWriter.WriteAll | src/nbt_writer.cpp:43-59 | feeding the writes through `xsputn` succeeds iff they all fit, and then the buffer holds their bytes |
| NbtWriter.WriteToGrowingBuffer | src/nbt_writer.cpp:56-63 | with growth that always makes room, the buffer holds exactly the document's bytes whenever the estimate is defined, and fails with "invalid nbt type" otherwise |
| NbtWriter.PutAll | src/nbt_writer.cpp:43-59 | with growth that always makes room, the buffer ends holding the bytes of the writes |
| NbtWriter.EmptyCompoundOverflows | src/nbt_writer.cpp:44-57 | an empty compound is estimated at 0, doubling 0 gives 0, and the first write already runs past the vector |
| NbtWriter.OneByteWrites | src/nbt_writer.cpp:19-88 | the exact write sequence and the estimate of 1 for `{"a": (int8_t)0}` |
| NbtWriter.ShortRootNameFits | src/nbt_writer.cpp:43-50 | under the name "Level" every write of that document finds room |
| NbtWriter.LevelWritesFit | src/nbt_writer.cpp:43-50 | the nine writes of that document each find room as the vector doubles from 1 to 16 bytes |
| NbtWriter.LongRootNameOverflows | src/nbt_writer.cpp:43-50 | under any name of 6 bytes or more the name's write outruns the once-doubled vector |
| RoundTrip.AsReadReadBack | src/nbt_type.cpp:53-82 | what the reader rebuilds keeps the tag and member kind of everything but an int vector, and is a value `readValue` can return |
| RoundTrip.ReadCheckedAfterWrite | src/nbt_reader.cpp:12-19 | the checked read of a written primitive returns it and the following bytes (bytes as `Primitive<T>::writeTo` emits them) |
| RoundTrip.CStringOfNulFree | src/nbt_reader.cpp:223 | a NUL-free name survives `c_str()` unchanged |
| RoundTrip.SignedOfElements | src/nbt_reader.cpp:143-144 | the raw bytes of an int8 vector read back as the same values (as `Array<int8_t>::writeTo` emits them) |
| RoundTrip.StoredAbsent | src/nbt_reader.cpp:223 | storing a fresh key appends its entry |
| RoundTrip.ByteArrayRoundTrip | src/nbt_reader.cpp:138-148 | a written byte vector is read back by BYTE_ARRAY with the following bytes left (written by src/primitive.hpp:119-123) |
| RoundTrip.IntArrayRoundTrip | src/nbt_reader.cpp:176-190 | a written int vector is consumed exactly but comes back as tag INT with no member (storing the vector at src/nbt_reader.cpp:188 goes through the `vector<int32_t>` overload, which tags it INT, and the final move then takes the INT case and reads the inactive `m_Int`) |
| RoundTrip.ValueRoundTrip | src/nbt_reader.cpp:95-209 | `readValue` of a portable value's bytes returns what the reader rebuilds and the following bytes (written by src/nbt_writer.cpp:99-127) |
| RoundTrip.ScalarRoundTrip | src/nbt_reader.cpp:99-137 | the scalar kinds round-trip (written by src/nbt_writer.cpp:101-112) |
| RoundTrip.ListRoundTrip | src/nbt_reader.cpp:153-169 | a portable list is read back with element type 0 and its elements rebuilt (written by src/nbt_writer.cpp:90-97) |
| RoundTrip.ElementsRoundTrip | src/nbt_reader.cpp:163-165 | the remaining elements are read back pushed after those already read (written by src/nbt_writer.cpp:93-95) |
| RoundTrip.NextElementPushed | src/nbt_type.cpp:345-347 | pushing the next rebuilt element extends the rebuilt prefix by one |
| RoundTrip.CompoundRoundTrip | src/nbt_reader.cpp:211-227 | `readInto` of a portable compound's bytes rebuilds it and stops after its end tag (written by src/nbt_writer.cpp:76-88) |
| RoundTrip.EntriesLayout | src/nbt_writer.cpp:77-82 | the entries from `i` on start with entry `i`'s tag byte |
| RoundTrip.EntriesRoundTrip | src/nbt_reader.cpp:215-226 | the remaining entries are read back stored after those already read, and the loop stops at the end tag |
| RoundTrip.EntryRoundTrip | src/nbt_reader.cpp:216-223 | one written entry is read back and stored under its name |
| RoundTrip.NextEntryStored | src/nbt_reader.cpp:223 | storing the next rebuilt entry extends the rebuilt prefix by one |
| RoundTrip.SoleEntry | src/nbt_reader.cpp:211-235 | one entry followed by the trailing 0 is the whole parse, since `eof()` then holds |
| RoundTrip.PlainDocument | src/nbt_reader.cpp:229-235 | `readInto` of the plain document gives `{name: c'}` for the rebuilt `c'` and leaves exactly the writer's trailing 0, where the `parse` loop stops (written by src/nbt_writer.cpp:19-31) |
| RoundTrip.DocumentRoundTrip | src/nbt_reader.cpp:229-242 | `parse` of the plain document gives `{name: c'}`, where `c'` is `c` as the reader rebuilds it; with `inlineRootTag` and an empty name it gives `c'` itself (bytes from src/nbt_writer.cpp:19-31) |
| RoundTrip.EntryLayout | src/nbt_reader.cpp:216-223 | an entry's name length and raw bytes are read, then the value, stored under the name cut at its first NUL |
| RoundTrip.LaterDuplicateWins | src/nbt_reader.cpp:223 | a later entry under the same name replaces the earlier value without adding an entry |
| RoundTrip.RootEntry | src/nbt_reader.cpp:216-223 | the root entry reads back as `{name: c}` |
| RoundTrip.WrapperEntry | src/nbt_writer.cpp:20-23 | with the root-tag option the whole document is one entry under the empty name |
| RoundTrip.RootTagRoundTrip | src/nbt_reader.cpp:229-242 | with the root-tag option `parse` gives `{"": {name: c'}}` for the rebuilt `c'`, or `{name: c'}` with `inlineRootTag` (root tag written at src/nbt_writer.cpp:20-23) |
| RoundTrip.WrappedLoop | src/nbt_reader.cpp:233-235 | the `parse` loop over the root-tagged document ends after the wrapper entry |
| RoundTrip.LongArrayComesBackEmpty | src/nbt_reader.cpp:191-205 | a written long vector is read as an empty vector, comes back as tag LONG with no member, and leaves its count and elements unread (written by src/primitive.hpp:152-159) |
| RoundTrip.ZeroLength | src/primitive.hpp:107-110 | helper step for EmptyStringRead, not a property of the source: a 16-bit zero is two zero bytes |
| RoundTrip.EmptyStringRead | src/nbt_reader.cpp:34-152 | two zero bytes read as a string give the one NUL `readUTF` leaves, with nothing left over |
| RoundTrip.EmptyBodyDecodes | src/nbt_reader.cpp:41-91 | a length of 0 decodes to one NUL |
| RoundTrip.StringCompoundFails | src/nbt_reader.cpp:211-227 | in a compound holding a string, the string swallows both end tags, and the entry loop reads past the end (the string was written as nothing, src/nbt_writer.cpp:115) |
| RoundTrip.StringDocumentFails | src/nbt_reader.cpp:229-235 | a document whose compound holds a string fails with out of bounds (strings are written as nothing, src/modified_utf.hpp:11-13) |
| RoundTrip.TestLevelKeys | tests/writer.cpp:13-69 | the keys of the string-free entries of the test's level are distinct |
| RoundTrip.ByteArrayNamePortable | tests/writer.cpp:66 | the byte-array entry's 101-byte name is one the reader gives back unchanged |
| RoundTrip.TestLevelPortable | tests/writer.cpp:13-69 | the string-free entries of the test's level, 8 of its 11, make a portable compound |
| RoundTrip.TestLevelRoundTrip | tests/writer.cpp:13-79 | the "Level" document of the string-free entries of the test's level parses back under its name with every value, its long list's element type read as 0 |
| RoundTrip.PortableKindsOnly | src/nbt_writer.cpp:129-146 | a portable value has a defined estimate |
| RoundTrip.BufferedRoundTrip | src/nbt_writer.cpp:56-63 | whenever `writeToBuffer` as written does not overflow, parsing its bytes gives `{name: c}` as the reader rebuilds it, in each combination of the two root-tag options |
| RoundTrip.WriteAndParse | src/nbt_writer.cpp:56-63 | writing into a growing buffer and parsing never fails; in each of the four combinations of `writeRootTag` and `inlineRootTag` it gives the rebuilt compound under its name, wrapped under the empty name, or bare (parsed by src/nbt_reader.cpp:229-242) |

## Left out

- I/O: streams, `pubsync` and the `std::ostream` / `std::streambuf` plumbing are not modelled. Output is a sequence of written chunks, and input is a byte sequence.
- Float and double are opaque 32- and 64-bit words (`Word32`, `Word64`). IEEE-754 semantics are not modelled.
- C++ object lifetime is not modelled. This covers placement new, destructors, and `setType` reading an uninitialised `m_Type` in the converting constructors, which the model takes to own nothing. A member that cannot be read meaningfully is `Unspecified`.
- NbtWriter.ValueBytes, NbtWriter.ValueWrites and the writer members built on them: a scalar getter on a union holding another member loads bytes the model does not know, such as a vector's data pointer or bytes never written. That word is the parameter `stale`, and nothing is claimed about its bits.
- Primitive.ReadFrom, Primitive.ReadElements and Primitive.ReadArray: a short stream read sets `failbit` and returns whatever the uninitialised local holds, and `Array<T>::readFrom` goes on calling `readFrom` for the remaining elements. `ShortRead` stands in for all of that. Neither the value returned nor the stream state is modelled.
- NbtReader.UNSET_LIST_TYPE: `List list;` (src/nbt_reader.cpp:162) leaves `m_Type` uninitialised. The 0 is a stand-in for that indeterminate byte, so "read back as 0" in the round-trip lemmas means "read back as an indeterminate type".
- NbtType.ValueObject.Empty: `Value nbtValue;` (src/nbt_reader.cpp:96) leaves `m_Type` uninitialised. Tag 0 is a stand-in for that indeterminate byte.
- NbtType.PushedBack and NbtType.EmplacedBack: a `std::vector`'s capacity is not modelled, so whether an append reallocates is the parameter `grows`. The reader's list loop (`ParseElements`, `ReadListElement`) appends without reallocating, and `GrowthInvisible` shows that reallocating would change nothing there.
- NbtType.EmplacedBack: the payload is the by-value parameter `value` as received. A caller passing an lvalue makes one copy more, which belongs to the caller.
- NbtType.MovedFrom: a moved-from `std::string` or `std::unordered_map` is valid but unspecified, so a moved string or compound member is `Unspecified`, not empty. A move whose source's tag owns no constructed member is left as it was. No path of the library reads a value after moving from it.
- ModifiedUtf.WideChar and ModifiedUtf.CharWidth: `char` is taken to be signed, as on x86. Where `char` is unsigned (ARM Linux, for one), a byte 0x80..0xFF converts to 0x80..0xFF and counts 2 in `getByteLength`, not 3; that platform is not modelled.
- `hostToNetwork16/32/64` is byte reversal for a little-endian host. The `NBT_BIG_ENDIAN` build option (src/byteswap.hpp:50-53) is not modelled.
- The compile-time `config::writeRootTag()` is the boolean parameter `writeRootTag`.
- `std::vector` given a negative count throws `length_error`. The model has this as the distinct failure `NegativeCount`, not as an empty container.
- A raw read past the end after the unchecked `advance` or `memcpy` is the distinct failure `Overrun`. Memory beyond the buffer is not modelled.
- `std::unordered_map` iteration order is not modelled. A compound's entries are a sequence with distinct keys, and the writer's order is that sequence. No claim is made about any particular order.
- The gtest runner and the test files (tests/reader.cpp, tests/writer.cpp, tests/test.hpp) are not part of this model. Only their fixed values appear, in example lemmas.
- A byte is a bounded `int` newtype, `Byte`, rather than `bv8`. The arithmetic is the same, and converting between bit-vectors and integers made the byte-order proofs too costly.
- ModifiedUtf.ReadUtfStream: a stream holding fewer than 2 bytes leaves `utflen` indeterminate in the C++. The model reports `ShortRead` instead.
- The unused `std::vector<int32_t> buffer(arrayLength)` of the LIST case (src/nbt_reader.cpp:161) is dropped. Its only effect, the negative-count failure, is kept.
- The declarations in include/nbt/nbt_reader.hpp and include/nbt/nbt_writer.hpp are not modelled, because they disagree with the implementations the model follows (`serialize` against `write`, and no `parse(istream)` body).
- `List::begin`/`end` and the `typeCheck` message text are not modelled. Iteration is sequence order, and the message is the single `TypeMismatch`.
- NbtWriter.OutputVectorBuffer.Xsputn: its precondition demands that the single doubling makes room, because the source's `memcpy` past the vector's end has no defined outcome. `WriteToBuffer` checks that condition for every write and reports `BufferOverflow` when it fails.
- TestLevelPortable: it covers 8 of the 11 entries of the test's level (tests/writer.cpp:13-69). The nested compound, "stringTest" and "listTest (compound)" hold strings, which `writeUTF` writes as nothing, so the level as a whole does not survive the trip; `StringDocumentFails` shows the failure for a compound holding one string.
- TestLevelRoundTrip: it has the same restriction to the string-free entries. The checks of `inputTest` are not modelled.
- RoundTrip.DocumentRoundTrip and RoundTrip.WriteAndParse: the round trip is stated for portable compounds and names only. STRING, LONG_ARRAY and list element types do not survive the trip, which `StringDocumentFails`, `LongArrayComesBackEmpty` and `AsRead` state. INT_ARRAY comes back as INT with no member.

## Findings

| source | as written | input that shows it | evidently intended | confidence | as-written member | corrected member |
|---|---|---|---|---|---|---|
| src/nbt_writer.cpp:43-50, 56-63 | `xsputn` doubles the vector once when free space is at most `length`, then copies `length` bytes whether or not they now fit; `writeToBuffer` starts the vector at the payload-only estimate | an empty compound (estimate 0: doubling 0 gives 0), or `{"a": (int8_t)0}` under a name of 6 or more bytes | grow until the write fits, so that `writeToBuffer` always yields the document's bytes | not executed | NbtWriter.WriteToBuffer, NbtWriter.EmptyCompoundOverflows, NbtWriter.LongRootNameOverflows | NbtWriter.WriteToGrowingBuffer |
