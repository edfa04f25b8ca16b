/** The writer (src/nbt_writer.cpp): the recursive `operator<<` encoders, the size estimate
    `getValueSize` / `getCompoundSize` / `getListSize`, and `writeToBuffer` over the growable
    `OutputVectorBuffer`.

    An encoder is modelled by the bytes it appends to the stream (`...Bytes`). Where the
    buffer's growth matters, the same output is also described as the sequence of
    `ostream::write` calls it makes (`...Writes`), each of which reaches the buffer as one
    `xsputn`; `WritesFlatten` proves that the two agree. */
module NbtWriter {
  import opened Wrappers
  import opened Primitive
  import opened ModifiedUtf
  import opened NbtType

  // ---------------------------------------------------------------------------------------
  // What the encoders can read

  /** A value whose getters can be called, all the way down: a tag in 7..12 names the member
      held, because its getter hands out that member itself. A scalar getter (tags 1..6) loads
      its union member whatever was constructed there, and a tag outside 1..12 is never looked
      into. */
  predicate Writable(v: Value)
    decreases v, 1
  {
    BYTE_ARRAY <= v.tag <= LONG_ARRAY ==>
      && MemberKind(v.payload) == v.tag
      && match v.payload
         case CompoundP(c) => WritableCompound(c)
         case ListP(l) => WritableList(l)
         case _ => true
  }

  predicate WritableCompound(c: Compound)
    decreases c, 0
  {
    forall i :: 0 <= i < |c.entries| ==> Writable(c.entries[i].1)
  }

  predicate WritableList(l: List)
    decreases l, 0
  {
    forall i :: 0 <= i < |l.elements| ==> Writable(l.elements[i])
  }

  /** What a scalar getter loads when the live union member is not the one it names: the first
      bytes of that member's storage (a vector's data pointer, say), or bytes never written when
      no member was constructed. Neither is part of the model, so the encoders take that word as
      a parameter: `stale(k, p)`, reduced to the range of `k`, is the word of kind `k` loaded
      while `p` is live. */
  type Stale = (Kind, Payload) -> nat

  function StaleWord(stale: Stale, k: Kind, p: Payload): (w: int)
    ensures InRange(k, w)
  {
    FromUnsigned(k, stale(k, p) % Modulus(k))
  }

  /** A scalar tag over a member of another kind. */
  predicate Misread(v: Value)
  {
    BYTE <= v.tag <= DOUBLE && MemberKind(v.payload) != v.tag
  }

  // ---------------------------------------------------------------------------------------
  // The bytes each encoder appends

  /** `out << type`: the tag as one byte. */
  function TypeBytes(t: Int8): seq<Byte>
  {
    Encode(I8, t)
  }

  /** `out << name`: the length cast to `uint16_t`, then the raw bytes. */
  function NameBytes(name: Name): seq<Byte>
  {
    Encode(U16, |name| % 0x1_0000) + name
  }

  /** `out << value`: the payload alone, chosen by the tag. A scalar tag over a member of
      another kind writes the stale word its getter loads; a string goes to the empty
      `writeUTF`; a tag outside 1..12 matches no case. */
  function ValueBytes(stale: Stale, v: Value): seq<Byte>
    requires Writable(v)
    decreases v, 1
  {
    if !IsKind(v.tag) then []
    else if Misread(v) then Encode(ScalarKind(v.tag), StaleWord(stale, ScalarKind(v.tag), v.payload))
    else
      match v.payload
      case ByteP(x) => Encode(I8, x)
      case ShortP(x) => Encode(I16, x)
      case IntP(x) => Encode(I32, x)
      case LongP(x) => Encode(I64, x)
      case FloatP(x) => Encode(F32, x)
      case DoubleP(x) => Encode(F64, x)
      case ByteArrayP(xs) => ArrayBytes(I8, xs)
      case StringP(s) => WriteUtf(s)
      case ListP(l) => ListBytes(stale, l)
      case CompoundP(c) => CompoundBytes(stale, c)
      case IntArrayP(xs) => ArrayBytes(I32, xs)
      case LongArrayP(xs) => ArrayBytes(I64, xs)
      case Unspecified => []
  }

  /** `out << list`: the element tag, the size cast to `int32_t`, the elements' payloads. */
  function ListBytes(stale: Stale, l: List): seq<Byte>
    requires WritableList(l)
    decreases l, |l.elements| + 1
  {
    TypeBytes(l.elemType) + Encode(I32, Int32Cast(|l.elements|)) + ElementsFrom(stale, l, 0)
  }

  /** The payloads of the elements from position `i` on. */
  function ElementsFrom(stale: Stale, l: List, i: nat): seq<Byte>
    requires WritableList(l) && i <= |l.elements|
    decreases l, |l.elements| - i
  {
    if i == |l.elements| then [] else ValueBytes(stale, l.elements[i]) + ElementsFrom(stale, l, i + 1)
  }

  /** `out << compound`: the entries, then the end tag 0. */
  function CompoundBytes(stale: Stale, c: Compound): seq<Byte>
    requires WritableCompound(c)
    decreases c, |c.entries| + 1
  {
    EntriesFrom(stale, c, 0) + TypeBytes(0)
  }

  /** One entry: tag, name, payload; nothing for an entry of tag 0 (a "NULL pair"). */
  function EntryBytes(stale: Stale, name: Name, v: Value): seq<Byte>
    requires Writable(v)
    decreases v, 2
  {
    if v.tag == 0 then [] else TypeBytes(v.tag) + NameBytes(name) + ValueBytes(stale, v)
  }

  /** The entries from position `i` on, in enumeration order. */
  function EntriesFrom(stale: Stale, c: Compound, i: nat): seq<Byte>
    requires WritableCompound(c) && i <= |c.entries|
    decreases c, |c.entries| - i
  {
    if i == |c.entries| then []
    else EntryBytes(stale, c.entries[i].0, c.entries[i].1) + EntriesFrom(stale, c, i + 1)
  }

  /** `Writer::write(out, compound, name)`: with the root-tag option, an empty-named compound
      header first; then the compound as an entry named `name`; then one more 0. */
  function DocumentBytes(stale: Stale, c: Compound, name: Name, writeRootTag: bool): seq<Byte>
    requires WritableCompound(c)
  {
    (if writeRootTag then TypeBytes(COMPOUND) + NameBytes([]) else [])
    + TypeBytes(COMPOUND) + NameBytes(name) + CompoundBytes(stale, c) + TypeBytes(0)
  }

  // ---------------------------------------------------------------------------------------
  // Layout

  /** With the root-tag option the plain document follows a COMPOUND tag and an empty name. */
  lemma RootTagLayout(stale: Stale, c: Compound, name: Name)
    requires WritableCompound(c)
    ensures DocumentBytes(stale, c, name, true) == TypeBytes(COMPOUND) + (NameBytes([]) + DocumentBytes(stale, c, name, false))
  {
  }

  /** A name: its length cast to 16 bits, big-endian, then its bytes unchanged. */
  lemma NameLayout(name: Name)
    ensures |NameBytes(name)| == 2 + |name|
    ensures BigEndian(NameBytes(name)[..2]) == |name| % 0x1_0000
    ensures NameBytes(name)[2..] == name
  {
    EncodeLayout(U16, |name| % 0x1_0000);
    assert NameBytes(name)[..2] == Encode(U16, |name| % 0x1_0000);
  }

  /** A list: its element tag, its size as a big-endian `int32_t`, then the elements'
      payloads with no tag or name of their own. */
  lemma ListLayout(stale: Stale, l: List)
    requires WritableList(l)
    ensures ListBytes(stale, l)[0] as int == ToUnsigned(I8, l.elemType)
    ensures BigEndian(ListBytes(stale, l)[1..5]) == ToUnsigned(I32, Int32Cast(|l.elements|))
    ensures ListBytes(stale, l)[5..] == ElementsFrom(stale, l, 0)
  {
    EncodeLayout(I8, l.elemType);
    EncodeLayout(I32, Int32Cast(|l.elements|));
    assert ListBytes(stale, l)[1..5] == Encode(I32, Int32Cast(|l.elements|));
  }

  /** The entries of `c` followed by one more entry of tag 0 write exactly what `c` writes. */
  lemma {:induction false} NullEntryFrom(stale: Stale, c: Compound, key: Name, i: nat)
    requires WritableCompound(c) && i <= |c.entries|
    ensures WritableCompound(Compound(c.entries + [(key, Default)]))
    ensures EntriesFrom(stale, Compound(c.entries + [(key, Default)]), i) == EntriesFrom(stale, c, i)
    decreases |c.entries| - i
  {
    var d := Compound(c.entries + [(key, Default)]);
    assert d.entries[|c.entries|] == (key, Default);
    assert forall j :: 0 <= j < |c.entries| ==> d.entries[j] == c.entries[j];
    if i == |c.entries| {
      assert EntriesFrom(stale, d, i + 1) == [];
    } else {
      NullEntryFrom(stale, c, key, i + 1);
    }
  }

  /** `compound[key]` on an absent key inserts a default (tag 0) entry, which the encoder
      skips: the compound writes the same bytes as before. */
  lemma NullEntrySkipped(stale: Stale, c: Compound, key: Name)
    requires WritableCompound(c)
    ensures WritableCompound(Indexed(c, key))
    ensures CompoundBytes(stale, Indexed(c, key)) == CompoundBytes(stale, c)
  {
    if !Contains(c, key) {
      NullEntryFrom(stale, c, key, 0);
    }
  }

  // ---------------------------------------------------------------------------------------
  // The same output, one `ostream::write` call at a time

  function Flatten(writes: seq<seq<Byte>>): seq<Byte>
  {
    if |writes| == 0 then [] else writes[0] + Flatten(writes[1..])
  }

  /** The per-element writes of `Array<int32_t>` and `Array<int64_t>`. */
  function ElementWrites(k: Kind, xs: seq<int>): (writes: seq<seq<Byte>>)
    requires AllInRange(k, xs)
    ensures |writes| == |xs|
  {
    seq(|xs|, i requires 0 <= i < |xs| => Encode(k, xs[i]))
  }

  /** `out << name` makes two writes, the second even when the name is empty. */
  function NameWrites(name: Name): seq<seq<Byte>>
  {
    [Encode(U16, |name| % 0x1_0000), name]
  }

  function ValueWrites(stale: Stale, v: Value): seq<seq<Byte>>
    requires Writable(v)
    decreases v, 1
  {
    if !IsKind(v.tag) then []
    else if Misread(v) then [Encode(ScalarKind(v.tag), StaleWord(stale, ScalarKind(v.tag), v.payload))]
    else
      match v.payload
      case ByteP(x) => [Encode(I8, x)]
      case ShortP(x) => [Encode(I16, x)]
      case IntP(x) => [Encode(I32, x)]
      case LongP(x) => [Encode(I64, x)]
      case FloatP(x) => [Encode(F32, x)]
      case DoubleP(x) => [Encode(F64, x)]
      case ByteArrayP(xs) => [Encode(I32, Int32Cast(|xs|)), ElementsBytes(I8, xs)]
      case StringP(s) => []
      case ListP(l) => ListWrites(stale, l)
      case CompoundP(c) => CompoundWrites(stale, c)
      case IntArrayP(xs) => [Encode(I32, Int32Cast(|xs|))] + ElementWrites(I32, xs)
      case LongArrayP(xs) => [Encode(I64, Int32Cast(|xs|))] + ElementWrites(I64, xs)
      case Unspecified => []
  }

  function ListWrites(stale: Stale, l: List): seq<seq<Byte>>
    requires WritableList(l)
    decreases l, |l.elements| + 1
  {
    [TypeBytes(l.elemType), Encode(I32, Int32Cast(|l.elements|))] + ElementsWritesFrom(stale, l, 0)
  }

  function ElementsWritesFrom(stale: Stale, l: List, i: nat): seq<seq<Byte>>
    requires WritableList(l) && i <= |l.elements|
    decreases l, |l.elements| - i
  {
    if i == |l.elements| then [] else ValueWrites(stale, l.elements[i]) + ElementsWritesFrom(stale, l, i + 1)
  }

  function CompoundWrites(stale: Stale, c: Compound): seq<seq<Byte>>
    requires WritableCompound(c)
    decreases c, |c.entries| + 1
  {
    EntriesWritesFrom(stale, c, 0) + [TypeBytes(0)]
  }

  function EntryWrites(stale: Stale, name: Name, v: Value): seq<seq<Byte>>
    requires Writable(v)
    decreases v, 2
  {
    if v.tag == 0 then [] else [TypeBytes(v.tag)] + NameWrites(name) + ValueWrites(stale, v)
  }

  function EntriesWritesFrom(stale: Stale, c: Compound, i: nat): seq<seq<Byte>>
    requires WritableCompound(c) && i <= |c.entries|
    decreases c, |c.entries| - i
  {
    if i == |c.entries| then []
    else EntryWrites(stale, c.entries[i].0, c.entries[i].1) + EntriesWritesFrom(stale, c, i + 1)
  }

  function DocumentWrites(stale: Stale, c: Compound, name: Name, writeRootTag: bool): seq<seq<Byte>>
    requires WritableCompound(c)
  {
    (if writeRootTag then [TypeBytes(COMPOUND)] + NameWrites([]) else [])
    + [TypeBytes(COMPOUND)] + NameWrites(name) + CompoundWrites(stale, c) + [TypeBytes(0)]
  }

  lemma {:induction false} FlattenAppend(a: seq<seq<Byte>>, b: seq<seq<Byte>>)
    ensures Flatten(a + b) == Flatten(a) + Flatten(b)
    decreases |a|
  {
    if |a| == 0 {
      assert a + b == b;
    } else {
      assert (a + b)[1..] == a[1..] + b;
      FlattenAppend(a[1..], b);
    }
  }

  lemma FlattenOne(ws: seq<seq<Byte>>)
    ensures |ws| == 1 ==> Flatten(ws) == ws[0]
  {
    if |ws| == 1 {
      assert Flatten(ws) == ws[0] + Flatten(ws[1..]);
    }
  }

  lemma FlattenTwo(ws: seq<seq<Byte>>)
    ensures |ws| == 2 ==> Flatten(ws) == ws[0] + ws[1]
  {
    if |ws| == 2 {
      FlattenOne(ws[1..]);
    }
  }

  lemma FlattenThree(ws: seq<seq<Byte>>)
    ensures |ws| == 3 ==> Flatten(ws) == ws[0] + ws[1] + ws[2]
  {
    if |ws| == 3 {
      FlattenTwo(ws[1..]);
    }
  }

  lemma {:induction false} ElementWritesFlatten(k: Kind, xs: seq<int>)
    requires AllInRange(k, xs)
    ensures Flatten(ElementWrites(k, xs)) == ElementsBytes(k, xs)
    decreases |xs|
  {
    if |xs| != 0 {
      assert ElementWrites(k, xs)[1..] == ElementWrites(k, xs[1..]);
      ElementWritesFlatten(k, xs[1..]);
    }
  }

  /** The writes of a value deliver exactly the bytes of its encoding. */
  lemma {:induction false} WritesFlatten(stale: Stale, v: Value)
    requires Writable(v)
    ensures Flatten(ValueWrites(stale, v)) == ValueBytes(stale, v)
    decreases v, 1
  {
    if Misread(v) {
      FlattenOne(ValueWrites(stale, v));
    } else if IsKind(v.tag) {
      match v.payload
      case ByteArrayP(xs) =>
        FlattenTwo(ValueWrites(stale, v));
      case ListP(l) =>
        ListWritesFlatten(stale, l);
      case CompoundP(c) =>
        CompoundWritesFlatten(stale, c);
      case IntArrayP(xs) =>
        FlattenAppend([Encode(I32, Int32Cast(|xs|))], ElementWrites(I32, xs));
        ElementWritesFlatten(I32, xs);
      case LongArrayP(xs) =>
        FlattenAppend([Encode(I64, Int32Cast(|xs|))], ElementWrites(I64, xs));
        ElementWritesFlatten(I64, xs);
      case StringP(_) =>
      case Unspecified =>
      case _ =>
        FlattenOne(ValueWrites(stale, v));
    }
  }

  lemma {:induction false} ListWritesFlatten(stale: Stale, l: List)
    requires WritableList(l)
    ensures Flatten(ListWrites(stale, l)) == ListBytes(stale, l)
    decreases l, |l.elements| + 1
  {
    var head := [TypeBytes(l.elemType), Encode(I32, Int32Cast(|l.elements|))];
    FlattenAppend(head, ElementsWritesFrom(stale, l, 0));
    FlattenTwo(head);
    ElementsWritesFlatten(stale, l, 0);
  }

  lemma {:induction false} ElementsWritesFlatten(stale: Stale, l: List, i: nat)
    requires WritableList(l) && i <= |l.elements|
    ensures Flatten(ElementsWritesFrom(stale, l, i)) == ElementsFrom(stale, l, i)
    decreases l, |l.elements| - i
  {
    if i < |l.elements| {
      FlattenAppend(ValueWrites(stale, l.elements[i]), ElementsWritesFrom(stale, l, i + 1));
      WritesFlatten(stale, l.elements[i]);
      ElementsWritesFlatten(stale, l, i + 1);
    }
  }

  lemma {:induction false} CompoundWritesFlatten(stale: Stale, c: Compound)
    requires WritableCompound(c)
    ensures Flatten(CompoundWrites(stale, c)) == CompoundBytes(stale, c)
    decreases c, |c.entries| + 1
  {
    FlattenAppend(EntriesWritesFrom(stale, c, 0), [TypeBytes(0)]);
    FlattenOne([TypeBytes(0)]);
    EntriesWritesFlatten(stale, c, 0);
  }

  lemma {:induction false} EntriesWritesFlatten(stale: Stale, c: Compound, i: nat)
    requires WritableCompound(c) && i <= |c.entries|
    ensures Flatten(EntriesWritesFrom(stale, c, i)) == EntriesFrom(stale, c, i)
    decreases c, |c.entries| - i
  {
    if i < |c.entries| {
      var (name, v) := c.entries[i];
      FlattenAppend(EntryWrites(stale, name, v), EntriesWritesFrom(stale, c, i + 1));
      EntriesWritesFlatten(stale, c, i + 1);
      EntryWritesFlatten(stale, name, v);
    }
  }

  lemma {:induction false} EntryWritesFlatten(stale: Stale, name: Name, v: Value)
    requires Writable(v)
    ensures Flatten(EntryWrites(stale, name, v)) == EntryBytes(stale, name, v)
    decreases v, 2
  {
    if v.tag != 0 {
      var head := [TypeBytes(v.tag)] + NameWrites(name);
      FlattenAppend(head, ValueWrites(stale, v));
      FlattenThree(head);
      WritesFlatten(stale, v);
    }
  }

  /** The writes of `Writer::write` deliver exactly the document's bytes. */
  lemma DocumentWritesFlatten(stale: Stale, c: Compound, name: Name, writeRootTag: bool)
    requires WritableCompound(c)
    ensures Flatten(DocumentWrites(stale, c, name, writeRootTag)) == DocumentBytes(stale, c, name, writeRootTag)
  {
    var root := if writeRootTag then [TypeBytes(COMPOUND)] + NameWrites([]) else [];
    var a1 := root + [TypeBytes(COMPOUND)];
    var a2 := a1 + NameWrites(name);
    var a3 := a2 + CompoundWrites(stale, c);
    FlattenThree(root);
    FlattenAppend(root, [TypeBytes(COMPOUND)]);
    FlattenOne([TypeBytes(COMPOUND)]);
    FlattenAppend(a1, NameWrites(name));
    FlattenTwo(NameWrites(name));
    FlattenAppend(a2, CompoundWrites(stale, c));
    CompoundWritesFlatten(stale, c);
    FlattenAppend(a3, [TypeBytes(0)]);
    FlattenOne([TypeBytes(0)]);
  }


  // ---------------------------------------------------------------------------------------
  // The size estimate

  /** What `getValueSize` returns or throws: the payload width for a scalar, count times
      width for an array, `getByteLength` for a string, the sum over the members of a list
      or compound; "invalid nbt type" for a tag outside 1..12. */
  function ValueSize(v: Value): (r: Result<nat>)
    requires Writable(v)
    ensures r.Err? ==> r.error == InvalidType
    decreases v, 1
  {
    if v.tag == BYTE then Ok(Size(I8))
    else if v.tag == SHORT then Ok(Size(I16))
    else if v.tag == INT then Ok(Size(I32))
    else if v.tag == LONG then Ok(Size(I64))
    else if v.tag == FLOAT then Ok(Size(F32))
    else if v.tag == DOUBLE then Ok(Size(F64))
    else if v.tag == BYTE_ARRAY then Ok(|v.payload.bytes| * Size(I8))
    else if v.tag == INT_ARRAY then Ok(|v.payload.ints| * Size(I32))
    else if v.tag == LONG_ARRAY then Ok(|v.payload.longs| * Size(I64))
    else if v.tag == STRING then Ok(EncodedLength(v.payload.chars))
    else if v.tag == LIST then ElementsSizeFrom(v.payload.list, 0)
    else if v.tag == COMPOUND then EntriesSizeFrom(v.payload.compound, 0)
    else Err(InvalidType)
  }

  /** The sum of the value sizes of the elements from position `i` on, failing at the first
      element that fails. */
  function ElementsSizeFrom(l: List, i: nat): (r: Result<nat>)
    requires WritableList(l) && i <= |l.elements|
    ensures r.Err? ==> r.error == InvalidType
    decreases l, |l.elements| - i
  {
    if i == |l.elements| then Ok(0)
    else
      var size :- ValueSize(l.elements[i]);
      var rest :- ElementsSizeFrom(l, i + 1);
      Ok(size + rest)
  }

  /** The sum over the entries from position `i` on. Unlike the encoder, the estimate does not
      skip entries of tag 0: they make it fail. */
  function EntriesSizeFrom(c: Compound, i: nat): (r: Result<nat>)
    requires WritableCompound(c) && i <= |c.entries|
    ensures r.Err? ==> r.error == InvalidType
    decreases c, |c.entries| - i
  {
    if i == |c.entries| then Ok(0)
    else
      var size :- ValueSize(c.entries[i].1);
      var rest :- EntriesSizeFrom(c, i + 1);
      Ok(size + rest)
  }

  function CompoundSize(c: Compound): Result<nat>
    requires WritableCompound(c)
  {
    EntriesSizeFrom(c, 0)
  }

  /** A running total already added to what is still to come. */
  function Shifted(total: nat, r: Result<nat>): Result<nat>
  {
    if r.Ok? then Ok(total + r.value) else r
  }

  /** `getValueSize`: the dispatch on the tag. */
  method GetValueSize(v: Value) returns (r: Result<nat>)
    requires Writable(v)
    ensures r == ValueSize(v)
    decreases v, 1
  {
    if v.tag == BYTE {
      r := Ok(Size(I8));
    } else if v.tag == SHORT {
      r := Ok(Size(I16));
    } else if v.tag == INT {
      r := Ok(Size(I32));
    } else if v.tag == LONG {
      r := Ok(Size(I64));
    } else if v.tag == FLOAT {
      r := Ok(Size(F32));
    } else if v.tag == DOUBLE {
      r := Ok(Size(F64));
    } else if v.tag == BYTE_ARRAY {
      r := Ok(|v.payload.bytes| * Size(I8));
    } else if v.tag == INT_ARRAY {
      r := Ok(|v.payload.ints| * Size(I32));
    } else if v.tag == LONG_ARRAY {
      r := Ok(|v.payload.longs| * Size(I64));
    } else if v.tag == STRING {
      var length := GetByteLength(v.payload.chars);
      r := Ok(length);
    } else if v.tag == LIST {
      r := GetListSize(v.payload.list);
    } else if v.tag == COMPOUND {
      r := GetCompoundSize(v.payload.compound);
    } else {
      r := Err(InvalidType);
    }
  }

  /** `getListSize`: accumulates `totalSize` over the elements. */
  method GetListSize(l: List) returns (r: Result<nat>)
    requires WritableList(l)
    ensures r == ElementsSizeFrom(l, 0)
    decreases l, |l.elements| + 1
  {
    var totalSize := 0;
    for i := 0 to |l.elements|
      invariant ElementsSizeFrom(l, 0) == Shifted(totalSize, ElementsSizeFrom(l, i))
    {
      var size := GetValueSize(l.elements[i]);
      if size.Err? {
        return Err(size.error);
      }
      totalSize := totalSize + size.value;
    }
    return Ok(totalSize);
  }

  /** `getCompoundSize`: accumulates `totalSize` over the entries, tag-0 entries included. */
  method GetCompoundSize(c: Compound) returns (r: Result<nat>)
    requires WritableCompound(c)
    ensures r == CompoundSize(c)
    decreases c, |c.entries| + 1
  {
    var totalSize := 0;
    for i := 0 to |c.entries|
      invariant CompoundSize(c) == Shifted(totalSize, EntriesSizeFrom(c, i))
    {
      var size := GetValueSize(c.entries[i].1);
      if size.Err? {
        return Err(size.error);
      }
      totalSize := totalSize + size.value;
    }
    return Ok(totalSize);
  }

  // ---------------------------------------------------------------------------------------
  // What the estimate measures

  /** Every tag reachable from `v` through lists and compounds names a kind. */
  predicate KindsOnly(v: Value)
    decreases v, 1
  {
    && IsKind(v.tag)
    && match v.payload
       case CompoundP(c) => v.tag == COMPOUND ==> forall i :: 0 <= i < |c.entries| ==> KindsOnly(c.entries[i].1)
       case ListP(l) => v.tag == LIST ==> forall i :: 0 <= i < |l.elements| ==> KindsOnly(l.elements[i])
       case _ => true
  }

  /** No string is reachable from `v`. */
  predicate StringFree(v: Value)
    decreases v, 1
  {
    && v.tag != STRING
    && match v.payload
       case CompoundP(c) => forall i :: 0 <= i < |c.entries| ==> StringFree(c.entries[i].1)
       case ListP(l) => forall i :: 0 <= i < |l.elements| ==> StringFree(l.elements[i])
       case _ => true
  }

  /** `getValueSize` succeeds exactly when no tag outside 1..12 is reachable; in particular a
      compound holding a default (tag 0) entry cannot be sized. */
  lemma {:induction false} SizeDefinedIffKinds(v: Value)
    requires Writable(v)
    ensures ValueSize(v).Ok? <==> KindsOnly(v)
    decreases v, 1
  {
    if v.tag == LIST {
      ElementsSizeDefined(v.payload.list, 0);
    } else if v.tag == COMPOUND {
      EntriesSizeDefined(v.payload.compound, 0);
    }
  }

  lemma {:induction false} ElementsSizeDefined(l: List, i: nat)
    requires WritableList(l) && i <= |l.elements|
    ensures ElementsSizeFrom(l, i).Ok?
            <==> forall j :: i <= j < |l.elements| ==> KindsOnly(l.elements[j])
    decreases l, |l.elements| - i
  {
    if i < |l.elements| {
      SizeDefinedIffKinds(l.elements[i]);
      ElementsSizeDefined(l, i + 1);
    }
  }

  lemma {:induction false} EntriesSizeDefined(c: Compound, i: nat)
    requires WritableCompound(c) && i <= |c.entries|
    ensures EntriesSizeFrom(c, i).Ok?
            <==> forall j :: i <= j < |c.entries| ==> KindsOnly(c.entries[j].1)
    decreases c, |c.entries| - i
  {
    if i < |c.entries| {
      SizeDefinedIffKinds(c.entries[i].1);
      EntriesSizeDefined(c, i + 1);
    }
  }

  lemma {:induction false} ElementsBytesLength(k: Kind, xs: seq<int>)
    requires AllInRange(k, xs)
    ensures |ElementsBytes(k, xs)| == |xs| * Size(k)
    decreases |xs|
  {
    if |xs| != 0 {
      EncodeLength(k, xs[0]);
      ElementsBytesLength(k, xs[1..]);
      OneMore(|xs|, Size(k), |ElementsBytes(k, xs[1..])|, |ElementsBytes(k, xs)|);
    }
  }

  /** One more element of `size` bytes after `n - 1` of them. */
  lemma OneMore(n: nat, size: nat, rest: nat, total: nat)
    requires n != 0 && rest == (n - 1) * size && total == size + rest
    ensures total == n * size
  {
  }

  /** The estimate counts payload bytes only: for a value without strings it never exceeds
      the bytes the encoder writes. */
  lemma {:induction false} EstimateCoversPayloadOnly(stale: Stale, v: Value)
    requires Writable(v) && StringFree(v)
    ensures ValueSize(v).Ok? ==> ValueSize(v).value <= |ValueBytes(stale, v)|
    decreases v, 1
  {
    if Misread(v) {
      EncodeLength(ScalarKind(v.tag), StaleWord(stale, ScalarKind(v.tag), v.payload));
    } else if ValueSize(v).Ok? {
      match v.payload
      case ByteP(x) => EncodeLayout(I8, x);
      case ShortP(x) => EncodeLayout(I16, x);
      case IntP(x) => EncodeLayout(I32, x);
      case LongP(x) => EncodeLayout(I64, x);
      case FloatP(x) => EncodeLayout(F32, x);
      case DoubleP(x) => EncodeLayout(F64, x);
      case ByteArrayP(xs) => ElementsBytesLength(I8, xs);
      case IntArrayP(xs) => ElementsBytesLength(I32, xs);
      case LongArrayP(xs) => ElementsBytesLength(I64, xs);
      case ListP(l) => ElementsEstimate(stale, l, 0);
      case CompoundP(c) => EntriesEstimate(stale, c, 0);
      case StringP(_) =>
      case Unspecified =>
    }
  }

  lemma {:induction false} ElementsEstimate(stale: Stale, l: List, i: nat)
    requires WritableList(l) && i <= |l.elements|
    requires forall j :: 0 <= j < |l.elements| ==> StringFree(l.elements[j])
    ensures ElementsSizeFrom(l, i).Ok? ==> ElementsSizeFrom(l, i).value <= |ElementsFrom(stale, l, i)|
    decreases l, |l.elements| - i
  {
    if i < |l.elements| {
      EstimateCoversPayloadOnly(stale, l.elements[i]);
      ElementsEstimate(stale, l, i + 1);
    }
  }

  lemma {:induction false} EntriesEstimate(stale: Stale, c: Compound, i: nat)
    requires WritableCompound(c) && i <= |c.entries|
    requires forall j :: 0 <= j < |c.entries| ==> StringFree(c.entries[j].1)
    ensures EntriesSizeFrom(c, i).Ok? ==> EntriesSizeFrom(c, i).value <= |EntriesFrom(stale, c, i)|
    decreases c, |c.entries| - i
  {
    if i < |c.entries| {
      EstimateCoversPayloadOnly(stale, c.entries[i].1);
      EntriesEstimate(stale, c, i + 1);
    }
  }

  /** So the document always outgrows the buffer's starting size: besides the payload it holds
      the root header, the entry names and the end tags. */
  lemma DocumentOutgrowsEstimate(stale: Stale, c: Compound, name: Name, writeRootTag: bool)
    requires WritableCompound(c)
    requires forall j :: 0 <= j < |c.entries| ==> StringFree(c.entries[j].1)
    ensures CompoundSize(c).Ok?
            ==> CompoundSize(c).value + 5 + |name| <= |DocumentBytes(stale, c, name, writeRootTag)|
  {
    EntriesEstimate(stale, c, 0);
    EncodeLayout(I8, COMPOUND);
    EncodeLayout(U16, |name| % 0x1_0000);
    EncodeLayout(I8, 0);
  }

  /** A scalar tag over a member of another kind (an int vector, which assignment tags INT; a
      value `readValue` made of an INT_ARRAY, LONG_ARRAY or unknown tag, with no member) is
      sized as one scalar without reading any member, and written as the one word its getter
      loads. */
  lemma MisreadWritesOneWord(stale: Stale, v: Value)
    requires Misread(v)
    ensures Writable(v)
    ensures ValueSize(v) == Ok(Size(ScalarKind(v.tag)))
    ensures ValueBytes(stale, v) == Encode(ScalarKind(v.tag), StaleWord(stale, ScalarKind(v.tag), v.payload))
    ensures |ValueBytes(stale, v)| == Size(ScalarKind(v.tag))
  {
    EncodeLength(ScalarKind(v.tag), StaleWord(stale, ScalarKind(v.tag), v.payload));
  }

  /** `c["v"] = std::vector<int32_t>{...}` stores an INT entry: the estimate counts 4 bytes and
      the writer emits tag 3, the name and one stale word, never the elements. */
  lemma IntVectorEntry(stale: Stale, name: Name, xs: seq<Int32>)
    ensures ValueSize(Assigned(Default, IntArrayP(xs))) == Ok(4)
    ensures EntryBytes(stale, name, Assigned(Default, IntArrayP(xs)))
         == TypeBytes(INT) + NameBytes(name) + Encode(I32, StaleWord(stale, I32, IntArrayP(xs)))
  {
  }

  /** A string is charged `getByteLength` bytes, yet `writeUTF` writes none. */
  lemma StringEstimateExceedsOutput(stale: Stale, s: seq<Byte>)
    ensures ValueSize(Value(STRING, StringP(s))) == Ok(EncodedLength(s))
    ensures ValueBytes(stale, Value(STRING, StringP(s))) == []
    ensures EncodedLength(s) >= |s| + 2
  {
    EncodedLengthBounds(s);
  }

  // ---------------------------------------------------------------------------------------
  // OutputVectorBuffer and writeToBuffer

  /** The vector size after `xsputn` of `length` bytes at `index`: doubled once when the free
      space is at most `length`. */
  function Grown(size: nat, index: nat, length: nat): nat
    requires index <= size
  {
    if size - index <= length then 2 * size else size
  }

  /** Each write, in turn, lands inside the vector as `xsputn` grows it. */
  predicate Fits(size: nat, index: nat, writes: seq<seq<Byte>>)
    requires index <= size
    decreases |writes|
  {
    |writes| == 0
    || (var grown := Grown(size, index, |writes[0]|);
        index + |writes[0]| <= grown && Fits(grown, index + |writes[0]|, writes[1..]))
  }

  /** What `writeToBuffer(compound, key)` produces: the document's bytes when every write finds
      room in a vector started at `getCompoundSize(compound)` bytes, and a `BufferOverflow`
      when some `memcpy` would run past the vector's end. */
  function BufferedDocument(stale: Stale, c: Compound, name: Name, writeRootTag: bool): Result<seq<Byte>>
    requires WritableCompound(c)
  {
    var size :- CompoundSize(c);
    if Fits(size, 0, DocumentWrites(stale, c, name, writeRootTag))
    then Ok(DocumentBytes(stale, c, name, writeRootTag))
    else Err(BufferOverflow)
  }

  /** The `std::vector<char>` of `OutputVectorBuffer` and the index of the next byte. */
  class OutputVectorBuffer {
    var buffer: array<Byte>
    var index: nat

    ghost predicate Valid()
      reads this
    {
      index <= buffer.Length
    }

    /** `m_Buffer.resize(startingSize)`, index 0. */
    constructor(startingSize: nat)
      ensures Valid() && fresh(buffer)
      ensures buffer.Length == startingSize && index == 0
    {
      buffer := new Byte[startingSize](_ => 0);
      index := 0;
    }

    /** `xsputn(data, length)` as written: one doubling when the free space is at most the
        length, then the copy, which must land inside the vector. */
    method Xsputn(data: seq<Byte>) returns (written: nat)
      requires Valid()
      requires index + |data| <= Grown(buffer.Length, index, |data|)
      modifies this, buffer
      ensures Valid() && (buffer == old(buffer) || fresh(buffer))
      ensures buffer.Length == Grown(old(buffer.Length), old(index), |data|)
      ensures index == old(index) + |data| && written == |data|
      ensures buffer[..index] == old(buffer[..index]) + data
    {
      if buffer.Length - index <= |data| {
        Resize(2 * buffer.Length);
      }
      Copy(data);
      written := |data|;
    }

    /** `xsputn` with a growth rule that always makes room: at least double, and at least
        one byte more than the write needs, as the test `size - index <= length` asks. */
    method Put(data: seq<Byte>) returns (written: nat)
      requires Valid()
      modifies this, buffer
      ensures Valid() && (buffer == old(buffer) || fresh(buffer))
      ensures index == old(index) + |data| && written == |data|
      ensures buffer[..index] == old(buffer[..index]) + data
    {
      if buffer.Length - index <= |data| {
        var wanted := index + |data| + 1;
        Resize(if 2 * buffer.Length < wanted then wanted else 2 * buffer.Length);
      }
      Copy(data);
      written := |data|;
    }

    /** `m_Buffer.resize(size)` to a larger size: the old contents, then zeros. */
    method Resize(size: nat)
      requires Valid() && buffer.Length <= size
      modifies this
      ensures Valid() && fresh(buffer) && buffer.Length == size && index == old(index)
      ensures buffer[..index] == old(buffer[..index])
    {
      var grown := new Byte[size](_ => 0);
      forall i | 0 <= i < buffer.Length {
        grown[i] := buffer[i];
      }
      buffer := grown;
    }

    /** `memcpy(m_Buffer.data() + m_CurrentIndex, data, length)` and the index advance. */
    method Copy(data: seq<Byte>)
      requires Valid() && index + |data| <= buffer.Length
      modifies this, buffer
      ensures Valid() && buffer == old(buffer)
      ensures index == old(index) + |data|
      ensures buffer[..index] == old(buffer[..index]) + data
    {
      forall j | 0 <= j < |data| {
        buffer[index + j] := data[j];
      }
      index := index + |data|;
    }

    /** `moveBuffer`: the vector truncated to the bytes written. */
    method MoveBuffer() returns (bytes: seq<Byte>)
      requires Valid()
      ensures bytes == buffer[..index]
    {
      bytes := buffer[..index];
    }
  }

  lemma FitsStep(size: nat, index: nat, writes: seq<seq<Byte>>, i: nat)
    requires index <= size && i < |writes|
    ensures Fits(size, index, writes[i..])
            <==> (var grown := Grown(size, index, |writes[i]|);
                  index + |writes[i]| <= grown && Fits(grown, index + |writes[i]|, writes[i + 1..]))
  {
    assert writes[i..][0] == writes[i];
    assert writes[i..][1..] == writes[i + 1..];
  }

  lemma FlattenSnoc(writes: seq<seq<Byte>>, i: nat)
    requires i < |writes|
    ensures Flatten(writes[..i + 1]) == Flatten(writes[..i]) + writes[i]
  {
    assert writes[..i + 1] == writes[..i] + [writes[i]];
    FlattenAppend(writes[..i], [writes[i]]);
    FlattenOne([writes[i]]);
  }

  /** `Writer::writeToBuffer(compound, key)` as written: a buffer of `getCompoundSize` bytes,
      `write` into it one `xsputn` per `ostream::write`, then `moveBuffer`. A write that would
      overrun the vector stops with `BufferOverflow`. */
  method WriteToBuffer(stale: Stale, c: Compound, name: Name, writeRootTag: bool) returns (r: Result<seq<Byte>>)
    requires WritableCompound(c)
    ensures r == BufferedDocument(stale, c, name, writeRootTag)
  {
    var size := GetCompoundSize(c);
    if size.Err? {
      return Err(size.error);
    }
    var out := new OutputVectorBuffer(size.value);
    var writes := DocumentWrites(stale, c, name, writeRootTag);
    var fits := WriteAll(out, writes);
    if !fits {
      return Err(BufferOverflow);
    }
    DocumentWritesFlatten(stale, c, name, writeRootTag);
    var bytes := out.MoveBuffer();
    return Ok(bytes);
  }

  /** The `ostream::write` calls in order, one `xsputn` each; false at the first write that
      would overrun the vector. */
  method WriteAll(out: OutputVectorBuffer, writes: seq<seq<Byte>>) returns (fits: bool)
    requires out.Valid() && out.index == 0
    modifies out, out.buffer
    ensures out.Valid()
    ensures fits == Fits(old(out.buffer.Length), 0, writes)
    ensures fits ==> out.buffer[..out.index] == Flatten(writes)
  {
    ghost var size := out.buffer.Length;
    for i := 0 to |writes|
      invariant out.Valid() && (out.buffer == old(out.buffer) || fresh(out.buffer))
      invariant out.buffer[..out.index] == Flatten(writes[..i])
      invariant Fits(size, 0, writes) == Fits(out.buffer.Length, out.index, writes[i..])
    {
      FitsStep(out.buffer.Length, out.index, writes, i);
      if out.index + |writes[i]| > Grown(out.buffer.Length, out.index, |writes[i]|) {
        return false;
      }
      FlattenSnoc(writes, i);
      var _ := out.Xsputn(writes[i]);
    }
    assert writes[..|writes|] == writes;
    return true;
  }

  /** `writeToBuffer` over the growing `Put`: every document that can be sized is written in
      full. */
  method WriteToGrowingBuffer(stale: Stale, c: Compound, name: Name, writeRootTag: bool)
    returns (r: Result<seq<Byte>>)
    requires WritableCompound(c)
    ensures r.Ok? <==> CompoundSize(c).Ok?
    ensures r.Ok? ==> r.value == DocumentBytes(stale, c, name, writeRootTag)
    ensures r.Err? ==> r.error == InvalidType
  {
    var size := GetCompoundSize(c);
    if size.Err? {
      return Err(size.error);
    }
    var out := new OutputVectorBuffer(size.value);
    var writes := DocumentWrites(stale, c, name, writeRootTag);
    PutAll(out, writes);
    DocumentWritesFlatten(stale, c, name, writeRootTag);
    var bytes := out.MoveBuffer();
    return Ok(bytes);
  }

  /** The same writes through `Put`, which always makes room. */
  method PutAll(out: OutputVectorBuffer, writes: seq<seq<Byte>>)
    requires out.Valid() && out.index == 0
    modifies out, out.buffer
    ensures out.Valid()
    ensures out.buffer[..out.index] == Flatten(writes)
  {
    for i := 0 to |writes|
      invariant out.Valid() && (out.buffer == old(out.buffer) || fresh(out.buffer))
      invariant out.buffer[..out.index] == Flatten(writes[..i])
    {
      FlattenSnoc(writes, i);
      var _ := out.Put(writes[i]);
    }
    assert writes[..|writes|] == writes;
  }

  // ---------------------------------------------------------------------------------------
  // How the single doubling behaves

  /** An empty compound is estimated at 0 bytes; doubling 0 gives 0, so the very first
      one-byte write already runs past the vector. */
  lemma EmptyCompoundOverflows(stale: Stale, name: Name, writeRootTag: bool)
    ensures BufferedDocument(stale, Compound([]), name, writeRootTag) == Err(BufferOverflow)
  {
    var writes := DocumentWrites(stale, Compound([]), name, writeRootTag);
    EncodeLayout(I8, COMPOUND);
    assert writes[0] == TypeBytes(COMPOUND);
    assert !Fits(0, 0, writes);
  }

  /** The one-entry compound `{"a": (int8_t)0}`, estimated at one byte. */
  const OneByte := Compound([([0x61], Value(BYTE, ByteP(0)))])

  lemma OneByteWrites(stale: Stale, name: Name)
    ensures DocumentWrites(stale, OneByte, name, false)
         == [[10], Encode(U16, |name| % 0x1_0000), name, [1], [0, 1], [0x61], [0], [0], [0]]
    ensures CompoundSize(OneByte) == Ok(1)
  {
    assert TypeBytes(COMPOUND) == [10] && TypeBytes(BYTE) == [1] && TypeBytes(0) == [0];
    assert Encode(I8, 0) == [0] && Encode(U16, 1) == [0, 1];
    assert ValueWrites(stale, Value(BYTE, ByteP(0))) == [[0]];
    assert EntriesWritesFrom(stale, OneByte, 1) == [];
    assert EntriesWritesFrom(stale, OneByte, 0) == [[1], [0, 1], [0x61], [0]];
    assert EntriesSizeFrom(OneByte, 1) == Ok(0);
    assert ValueSize(OneByte.entries[0].1) == Ok(1);
    assert EntriesSizeFrom(OneByte, 0) == Ok(1);
  }

  /** Under the name "Level" the writes find room: the vector grows 1, 2, 4, 8, 16 and the
      document takes 15 bytes. */
  lemma ShortRootNameFits(stale: Stale)
    ensures BufferedDocument(stale, OneByte, [0x4C, 0x65, 0x76, 0x65, 0x6C], false).Ok?
  {
    var name: Name := [0x4C, 0x65, 0x76, 0x65, 0x6C];
    OneByteWrites(stale, name);
    assert Encode(U16, 5) == [0, 5] by {
      EncodeLayout(U16, 5);
    }
    LevelWritesFit(DocumentWrites(stale, OneByte, name, false));
  }

  /** The growth of the vector along the nine writes of `{"a": (int8_t)0}` under "Level". */
  lemma LevelWritesFit(writes: seq<seq<Byte>>)
    requires writes == [[10], [0, 5], [0x4C, 0x65, 0x76, 0x65, 0x6C], [1], [0, 1], [0x61], [0], [0], [0]]
    ensures Fits(1, 0, writes)
  {
    assert Fits(16, 15, writes[9..]);
    assert Fits(16, 14, writes[8..]);
    assert Fits(16, 13, writes[7..]);
    assert Fits(16, 12, writes[6..]);
    assert Fits(16, 11, writes[5..]);
    assert Fits(16, 9, writes[4..]);
    assert Fits(8, 8, writes[3..]);
    assert Fits(4, 3, writes[2..]);
    assert Fits(2, 1, writes[1..]);
  }

  /** A root name of six bytes or more overruns: after the tag and the length the vector has
      4 bytes and one free, and one doubling to 8 cannot take the name. */
  lemma LongRootNameOverflows(stale: Stale, name: Name)
    requires 6 <= |name| < 0x1_0000
    ensures BufferedDocument(stale, OneByte, name, false) == Err(BufferOverflow)
  {
    var writes := DocumentWrites(stale, OneByte, name, false);
    OneByteWrites(stale, name);
    EncodeLayout(U16, |name|);
    FitsStep(1, 0, writes, 0);
    FitsStep(2, 1, writes, 1);
    FitsStep(4, 3, writes, 2);
    assert writes[0..] == writes;
    assert !Fits(1, 0, writes);
  }
}
