/** What the reader makes of the writer's output: parsing the document `write(c, name)` gives
    back `{name: c}` for the kinds that survive the trip, with every list's declared element
    type read back as 0 and every int vector read back as an INT with no member (storing the
    vector goes through the `vector<int32_t>` overload, which tags it INT, and the move out of
    `readValue` then takes the INT case and reads the inactive `m_Int`); and, for the kinds
    that do not survive, what comes back instead. No value built through the typed
    assignments carries tag INT_ARRAY or LONG_ARRAY, so those cases are reached only by
    documents from other writers. Through `writeToBuffer` as written this holds only when its
    buffer does not overflow; through a buffer that grows as needed it always holds. */
module RoundTrip {
  import opened Wrappers
  import opened Primitive
  import opened ModifiedUtf
  import opened NbtType
  import opened NbtReader
  import opened NbtWriter

  // ---------------------------------------------------------------------------------------
  // The values that survive

  /** Names the reader gives back unchanged: fewer than 65536 bytes (the written length is
      cast to 16 bits) and no NUL (the reader cuts a name at its first NUL). */
  predicate PortableName(name: Name)
  {
    |name| < 0x1_0000 && forall i :: 0 <= i < |name| ==> name[i] != 0
  }

  /** A value whose bytes the reader consumes exactly as written: not STRING (`writeUTF`
      writes nothing) and not LONG_ARRAY (its 8-byte count is misread); counts that fit an
      `int32_t`; list elements of the list's declared type; compounds with distinct portable
      names. No value built through the typed assignments has tag INT_ARRAY, so that case
      covers documents from other writers. */
  predicate Portable(v: Value)
    decreases v, 1
  {
    && Writable(v)
    && 1 <= v.tag <= INT_ARRAY && v.tag != STRING
    && MemberKind(v.payload) == v.tag
    && match v.payload
       case ByteArrayP(xs) => |xs| < 0x8000_0000
       case IntArrayP(xs) => |xs| < 0x8000_0000
       case ListP(l) => PortableList(l)
       case CompoundP(c) => PortableCompound(c)
       case _ => true
  }

  predicate PortableList(l: List)
    decreases l, 0
  {
    && WritableList(l)
    && |l.elements| < 0x8000_0000
    && forall i :: 0 <= i < |l.elements| ==> l.elements[i].tag == l.elemType && Portable(l.elements[i])
  }

  predicate PortableCompound(c: Compound)
    decreases c, 0
  {
    && WritableCompound(c)
    && DistinctKeys(c.entries)
    && forall i :: 0 <= i < |c.entries| ==> PortableName(c.entries[i].0) && Portable(c.entries[i].1)
  }

  /** The value the reader rebuilds from a portable value's bytes: the same value, except
      that every list is rebuilt with element type `UNSET_LIST_TYPE` and every int vector
      becomes tag INT with no member, as the move constructor leaves it. */
  function AsRead(v: Value): Value
    decreases v, 1
  {
    match v.payload
    case ListP(l) => Value(v.tag, ListP(AsReadList(l)))
    case CompoundP(c) => Value(v.tag, CompoundP(AsReadCompound(c)))
    case IntArrayP(_) => Value(INT, Unspecified)
    case _ => v
  }

  function AsReadList(l: List): List
    decreases l, 0
  {
    List(UNSET_LIST_TYPE, seq(|l.elements|, i requires 0 <= i < |l.elements| => AsRead(l.elements[i])))
  }

  function AsReadCompound(c: Compound): Compound
    decreases c, 0
  {
    Compound(seq(|c.entries|, i requires 0 <= i < |c.entries| => (c.entries[i].0, AsRead(c.entries[i].1))))
  }

  /** `AsRead` keeps the tag and the kind of member of everything but an int vector, and the
      result is what `readValue` returns. */
  lemma AsReadReadBack(v: Value)
    requires Portable(v)
    ensures v.tag != INT_ARRAY ==> AsRead(v).tag == v.tag && MemberKind(AsRead(v).payload) == v.tag
    ensures ReadBack(AsRead(v))
  {
  }

  // ---------------------------------------------------------------------------------------
  // Small steps

  lemma ReadCheckedAfterWrite(k: Kind, x: int, rest: seq<Byte>)
    requires InRange(k, x)
    ensures ReadChecked(k, Encode(k, x) + rest) == Ok((x, rest))
  {
    ReadAfterWrite(k, x, rest);
  }

  /** A name without NUL is kept whole by `c_str()`. */
  lemma {:induction false} CStringOfNulFree(s: seq<Byte>)
    requires forall i :: 0 <= i < |s| ==> s[i] != 0
    ensures CString(s) == s
    decreases |s|
  {
    if |s| != 0 {
      CStringOfNulFree(s[1..]);
    }
  }

  /** The raw bytes of a byte array, read back as signed chars, are the array. */
  lemma {:induction false} SignedOfElements(xs: seq<Int8>)
    ensures Signed(ElementsBytes(I8, xs)) == xs
    decreases |xs|
  {
    if |xs| != 0 {
      EncodeLayout(I8, xs[0]);
      CastRoundTrip(I8, xs[0]);
      SignedOfElements(xs[1..]);
      assert ElementsBytes(I8, xs) == Encode(I8, xs[0]) + ElementsBytes(I8, xs[1..]);
      assert Signed(ElementsBytes(I8, xs))[1..] == Signed(ElementsBytes(I8, xs[1..]));
    }
  }

  /** Storing under a key not yet present appends the entry. */
  lemma StoredAbsent(c: Compound, key: Name, v: Value)
    requires !Contains(c, key) && ReadBack(v)
    ensures Stored(c, key, v) == Compound(c.entries + [(key, v)])
  {
    var slotted := Indexed(c, key);
    assert slotted.entries == c.entries + [(key, Default)];
    var i := |c.entries|;
    assert slotted.entries[i].0 == key;
    assert Find(slotted, key) == Some(i);
    MoveOfReadBack(Default, v);
  }

  lemma ByteArrayRoundTrip(xs: seq<Int8>, rest: seq<Byte>)
    requires |xs| < 0x8000_0000
    ensures ParseByteArray(ArrayBytes(I8, xs) + rest) == Ok((xs, rest))
  {
    var n := |xs|;
    Int32CastSmall(n);
    var raw := ElementsBytes(I8, xs);
    ElementsBytesLength(I8, xs);
    Assoc(Encode(I32, n), raw, rest);
    ReadCheckedAfterWrite(I32, n, raw + rest);
    SplitAt(raw, rest);
    SignedOfElements(xs);
  }

  /** An int vector's bytes are read back in full, but storing them through
      `operator=(std::vector<int32_t>)` sets the tag INT; the move out of `readValue` then takes
      the INT case, which reads the inactive `m_Int`, so the result is an INT with no member. */
  lemma IntArrayRoundTrip(xs: seq<Int32>, rest: seq<Byte>)
    requires |xs| < 0x8000_0000
    ensures ParseValue(INT_ARRAY, ArrayBytes(I32, xs) + rest) == Ok((Value(INT, Unspecified), rest))
  {
    ArrayRoundTrip(I32, xs, rest);
    assert Filled(IntArrayP(xs)) == Value(INT, IntArrayP(xs));
  }

  // ---------------------------------------------------------------------------------------
  // Value, list and compound

  /** `readValue` of what `out << value` wrote, followed by at least one more byte, gives the
      value back (lists with element type 0) and leaves exactly the bytes that follow. */
  lemma {:induction false} ValueRoundTrip(stale: Stale, v: Value, rest: seq<Byte>)
    requires Portable(v) && |rest| >= 1
    ensures ParseValue(v.tag, ValueBytes(stale, v) + rest) == Ok((AsRead(v), rest))
    decreases v, 0, 0
  {
    AsReadReadBack(v);
    MoveOfReadBack(Blank, AsRead(v));
    match v.payload
    case ByteArrayP(xs) => ByteArrayRoundTrip(xs, rest);
    case IntArrayP(xs) => IntArrayRoundTrip(xs, rest);
    case ListP(l) => ListRoundTrip(stale, l, rest);
    case CompoundP(c) => CompoundRoundTrip(stale, c, rest);
    case _ => ScalarRoundTrip(stale, v, rest);
  }

  /** The six fixed-width kinds: one checked read of the number written. */
  lemma ScalarRoundTrip(stale: Stale, v: Value, rest: seq<Byte>)
    requires Portable(v) && BYTE <= v.tag <= DOUBLE
    ensures ParseValue(v.tag, ValueBytes(stale, v) + rest) == Ok((AsRead(v), rest))
  {
    ScalarRead(v.tag, ValueBytes(stale, v) + rest);
    match v.payload
    case ByteP(x) => ReadAfterWrite(I8, x, rest);
    case ShortP(x) => ReadAfterWrite(I16, x, rest);
    case IntP(x) => ReadAfterWrite(I32, x, rest);
    case LongP(x) => ReadAfterWrite(I64, x, rest);
    case FloatP(x) => ReadAfterWrite(F32, x, rest);
    case DoubleP(x) => ReadAfterWrite(F64, x, rest);
  }

  lemma {:induction false} ListRoundTrip(stale: Stale, l: List, rest: seq<Byte>)
    requires PortableList(l) && |rest| >= 1
    ensures ParseList(ListBytes(stale, l) + rest) == Ok((AsReadList(l), rest))
    decreases l, |l.elements| + 1, 0
  {
    var n := |l.elements|;
    Int32CastSmall(n);
    var body := ElementsFrom(stale, l, 0) + rest;
    assert ListBytes(stale, l) + rest == TypeBytes(l.elemType) + (Encode(I32, n) + body);
    ReadCheckedAfterWrite(I8, l.elemType, Encode(I32, n) + body);
    ReadCheckedAfterWrite(I32, n, body);
    assert AsReadList(l).elements[..0] == [];
    ElementsRoundTrip(stale, l, 0, rest);
  }

  /** The list loop from element `i` on, the elements before `i` already pushed back. */
  lemma {:induction false} ElementsRoundTrip(stale: Stale, l: List, i: nat, rest: seq<Byte>)
    requires PortableList(l) && i <= |l.elements| && |rest| >= 1
    ensures ParseElements(List(UNSET_LIST_TYPE, AsReadList(l).elements[..i]), l.elemType,
                          ElementsFrom(stale, l, i) + rest, |l.elements| - i)
         == Ok((AsReadList(l), rest))
    decreases l, |l.elements| - i, 0
  {
    var target := AsReadList(l);
    if i == |l.elements| {
      assert target.elements[..i] == target.elements;
      assert ElementsFrom(stale, l, i) + rest == rest;
    } else {
      var e := l.elements[i];
      var tail := ElementsFrom(stale, l, i + 1) + rest;
      assert ElementsFrom(stale, l, i) == ValueBytes(stale, e) + ElementsFrom(stale, l, i + 1);
      Assoc(ValueBytes(stale, e), ElementsFrom(stale, l, i + 1), rest);
      ValueRoundTrip(stale, e, tail);
      NextElementPushed(l, i);
      ElementsRoundTrip(stale, l, i + 1, rest);
    }
  }

  /** Pushing back element `i` as read extends the elements read before it by one. */
  lemma NextElementPushed(l: List, i: nat)
    requires PortableList(l) && i < |l.elements|
    ensures PushedBack(List(UNSET_LIST_TYPE, AsReadList(l).elements[..i]), AsRead(l.elements[i]), false)
         == List(UNSET_LIST_TYPE, AsReadList(l).elements[..i + 1])
  {
    var target := AsReadList(l);
    var e := l.elements[i];
    AsReadReadBack(e);
    MoveOfReadBack(Blank, AsRead(e));
    assert target.elements[..i + 1] == target.elements[..i] + [AsRead(e)];
  }

  /** `readInto` of what `out << compound` wrote, followed by at least one more byte. The byte
      after the end tag matters: without it `eof()` would stop the loop before the end tag. */
  lemma {:induction false} CompoundRoundTrip(stale: Stale, c: Compound, rest: seq<Byte>)
    requires PortableCompound(c) && |rest| >= 1
    ensures ParseInto(Compound([]), CompoundBytes(stale, c) + rest) == Ok((AsReadCompound(c), rest))
    decreases c, |c.entries| + 1, 0
  {
    var target := AsReadCompound(c);
    if |c.entries| == 0 {
      assert CompoundBytes(stale, c) + rest == TypeBytes(0) + rest;
      ReadCheckedAfterWrite(I8, 0, rest);
      assert target == Compound([]);
    } else {
      var v := c.entries[0].1;
      var after := EntryTail(stale, c, 0, rest);
      EntriesLayout(stale, c, 0, rest);
      assert CompoundBytes(stale, c) + rest == EntriesFrom(stale, c, 0) + (TypeBytes(0) + rest);
      ReadCheckedAfterWrite(I8, v.tag, after);
      assert target.entries[..0] == [];
      EntriesRoundTrip(stale, c, 0, rest);
    }
  }

  /** The bytes after the tag of entry `i`: its name and payload, the later entries, the end
      tag, and what follows the compound. */
  function EntryTail(stale: Stale, c: Compound, i: nat, rest: seq<Byte>): seq<Byte>
    requires WritableCompound(c) && i < |c.entries|
  {
    NameBytes(c.entries[i].0) + (ValueBytes(stale, c.entries[i].1) + (EntriesFrom(stale, c, i + 1) + (TypeBytes(0) + rest)))
  }

  /** Entry `i` on the wire: its tag, then the tail. */
  lemma EntriesLayout(stale: Stale, c: Compound, i: nat, rest: seq<Byte>)
    requires PortableCompound(c) && i < |c.entries|
    ensures EntriesFrom(stale, c, i) + (TypeBytes(0) + rest) == TypeBytes(c.entries[i].1.tag) + EntryTail(stale, c, i, rest)
  {
    var (name, v) := c.entries[i];
    assert v.tag != 0;
    assert EntriesFrom(stale, c, i) == TypeBytes(v.tag) + NameBytes(name) + ValueBytes(stale, v) + EntriesFrom(stale, c, i + 1);
    Nest(TypeBytes(v.tag), NameBytes(name), ValueBytes(stale, v), EntriesFrom(stale, c, i + 1), TypeBytes(0) + rest);
  }

  lemma Nest(a: seq<Byte>, b: seq<Byte>, c: seq<Byte>, d: seq<Byte>, e: seq<Byte>)
    ensures a + b + c + d + e == a + (b + (c + (d + e)))
  {
  }

  /** The entry loop of `readInto` from entry `i` on, its tag already read. */
  lemma {:induction false} EntriesRoundTrip(stale: Stale, c: Compound, i: nat, rest: seq<Byte>)
    requires PortableCompound(c) && i < |c.entries| && |rest| >= 1
    requires c.entries[i].1.tag != 0  // implied by the first line, stated for the tag read
    ensures ParseEntries(Compound(AsReadCompound(c).entries[..i]), c.entries[i].1.tag, EntryTail(stale, c, i, rest))
         == Ok((AsReadCompound(c), rest))
    decreases c, |c.entries| - i, 1
  {
    var target := AsReadCompound(c);
    var next := EntriesFrom(stale, c, i + 1) + (TypeBytes(0) + rest);
    EntryRoundTrip(stale, c, i, rest);
    EncodeLayout(I8, 0);
    if i + 1 == |c.entries| {
      assert next == TypeBytes(0) + rest;
      ReadCheckedAfterWrite(I8, 0, rest);
      assert target.entries[..i + 1] == target.entries;
    } else {
      var w := c.entries[i + 1].1;
      EntriesLayout(stale, c, i + 1, rest);
      ReadCheckedAfterWrite(I8, w.tag, EntryTail(stale, c, i + 1, rest));
      EntriesRoundTrip(stale, c, i + 1, rest);
    }
  }

  /** One entry: the name comes back whole and the value is stored under it as a new key. */
  lemma {:induction false} EntryRoundTrip(stale: Stale, c: Compound, i: nat, rest: seq<Byte>)
    requires PortableCompound(c) && i < |c.entries| && |rest| >= 1
    ensures ParseEntry(Compound(AsReadCompound(c).entries[..i]), c.entries[i].1.tag, EntryTail(stale, c, i, rest))
         == Ok((Compound(AsReadCompound(c).entries[..i + 1]), EntriesFrom(stale, c, i + 1) + (TypeBytes(0) + rest)))
    decreases c, |c.entries| - i, 0
  {
    var target := AsReadCompound(c);
    var (name, v) := c.entries[i];
    var next := EntriesFrom(stale, c, i + 1) + (TypeBytes(0) + rest);
    var acc := Compound(target.entries[..i]);
    assert EntryTail(stale, c, i, rest) == NameBytes(name) + (ValueBytes(stale, v) + next);
    EntryLayout(acc, v.tag, name, ValueBytes(stale, v) + next);
    ValueRoundTrip(stale, v, next);
    CStringOfNulFree(name);
    NextEntryStored(c, i);
  }

  /** The name of entry `i` is not among the earlier ones read back, so storing its value
      appends it. */
  lemma NextEntryStored(c: Compound, i: nat)
    requires PortableCompound(c) && i < |c.entries|
    ensures Stored(Compound(AsReadCompound(c).entries[..i]), c.entries[i].0, AsRead(c.entries[i].1))
         == Compound(AsReadCompound(c).entries[..i + 1])
  {
    var target := AsReadCompound(c);
    var (name, v) := c.entries[i];
    var acc := Compound(target.entries[..i]);
    assert !Contains(acc, name) by {
      forall j | 0 <= j < i ensures acc.entries[j].0 != name {
        assert acc.entries[j].0 == c.entries[j].0;
      }
    }
    AsReadReadBack(v);
    StoredAbsent(acc, name, AsRead(v));
    assert target.entries[..i] + [(name, AsRead(v))] == target.entries[..i + 1];
  }

  // ---------------------------------------------------------------------------------------
  // Documents

  /** The compound `parse` yields for a document holding the compound `c` under `name`. */
  function Rooted(name: Name, c: Compound): Compound
  {
    Compound([(name, Value(COMPOUND, CompoundP(c)))])
  }

  /** A top-level tag `t` and an entry that leaves only the trailing 0: `readInto` stops at
      `eof()`, and so does `parse`. */
  lemma SoleEntry(t: int, bytes: seq<Byte>, r: Compound)
    requires 1 <= t <= 10
    requires ParseEntry(Compound([]), t, bytes) == Ok((r, TypeBytes(0)))
    ensures ParseInto(Compound([]), TypeBytes(t) + bytes) == Ok((r, TypeBytes(0)))
    ensures ParseLoop(Compound([]), TypeBytes(t) + bytes) == Ok(r)
  {
    EncodeLayout(I8, 0);
    ReadCheckedAfterWrite(I8, t, bytes);
    assert ParseEntries(Compound([]), t, bytes) == Ok((r, TypeBytes(0)));
  }

  /** The document `write` produces with the root-tag option off. */
  lemma PlainDocument(stale: Stale, c: Compound, name: Name)
    requires PortableCompound(c) && PortableName(name)
    ensures ParseInto(Compound([]), DocumentBytes(stale, c, name, false))
         == Ok((Rooted(name, AsReadCompound(c)), TypeBytes(0)))
    ensures ParseLoop(Compound([]), DocumentBytes(stale, c, name, false)) == Ok(Rooted(name, AsReadCompound(c)))
  {
    var end := TypeBytes(0);
    var bytes := NameBytes(name) + (CompoundBytes(stale, c) + end);
    assert DocumentBytes(stale, c, name, false) == TypeBytes(COMPOUND) + bytes;
    RootEntry(stale, c, name, end);
    SoleEntry(COMPOUND, bytes, Rooted(name, AsReadCompound(c)));
  }

  /** `parse(write(c, name))`, root-tag option off: the document comes back as `{name: c}`.
      The single trailing 0 of `write` is the one byte `eof()` leaves unread. With
      `inlineRootTag`, a document written under the empty name comes back as `c` itself, and
      one under any other name as `{name: c}`. */
  lemma DocumentRoundTrip(stale: Stale, c: Compound, name: Name)
    requires PortableCompound(c) && PortableName(name)
    ensures ParseDocument(DocumentBytes(stale, c, name, false), false) == Ok(Rooted(name, AsReadCompound(c)))
    ensures name != [] ==> ParseDocument(DocumentBytes(stale, c, name, false), true) == Ok(Rooted(name, AsReadCompound(c)))
    ensures name == [] ==> ParseDocument(DocumentBytes(stale, c, name, false), true) == Ok(AsReadCompound(c))
  {
    PlainDocument(stale, c, name);
    var r := Rooted(name, AsReadCompound(c));
    if name == [] {
      assert Find(r, []) == Some(0);
    } else {
      assert r.entries[0].0 != [];
      assert !Contains(r, []);
    }
  }

  /** An entry after its tag: a name written with its 16-bit length, then whatever
      `readValue` makes of the bytes that follow; the value is stored under the name cut at
      its first NUL, so a later entry of the same name replaces an earlier one. */
  lemma EntryLayout(acc: Compound, t: int, name: Name, bytes: seq<Byte>)
    requires |name| < 0x1_0000
    ensures ParseEntry(acc, t, NameBytes(name) + bytes)
         == (var (v, after) :- ParseValue(t, bytes); Ok((Stored(acc, CString(name), v), after)))
  {
    var afterLength := name + bytes;
    assert NameBytes(name) + bytes == Encode(U16, |name|) + afterLength;
    ReadCheckedAfterWrite(U16, |name|, afterLength);
    assert afterLength[..|name|] == name && afterLength[|name|..] == bytes;
  }

  /** Two entries under one name: the second store finds the key present, so the compound
      does not grow and the later value replaces the earlier one. */
  lemma LaterDuplicateWins(c: Compound, key: Name, v1: Value, v2: Value)
    requires DistinctKeys(c.entries) && ReadBack(v2)
    ensures Contains(Stored(Stored(c, key, v1), key, v2), key)
    ensures Lookup(Stored(Stored(c, key, v1), key, v2), key) == v2
    ensures |Stored(Stored(c, key, v1), key, v2).entries| == |Stored(c, key, v1).entries|
  {
    var first := Stored(c, key, v1);
    StoreSets(c, key, v1);
    StoreSets(first, key, v2);
    MoveOfReadBack(Lookup(first, key), v2);
    assert Indexed(first, key) == first;
  }

  /** The compound written as an entry named `name`, with `rest` after it, read into an empty
      compound. */
  lemma RootEntry(stale: Stale, c: Compound, name: Name, rest: seq<Byte>)
    requires PortableCompound(c) && PortableName(name) && |rest| >= 1
    ensures ParseEntry(Compound([]), COMPOUND, NameBytes(name) + (CompoundBytes(stale, c) + rest))
         == Ok((Rooted(name, AsReadCompound(c)), rest))
  {
    var root := Value(COMPOUND, CompoundP(c));
    assert Portable(root);
    assert ValueBytes(stale, root) == CompoundBytes(stale, c);
    ValueRoundTrip(stale, root, rest);
    var v := Value(COMPOUND, CompoundP(AsReadCompound(c)));
    assert AsRead(root) == v;
    assert ParseValue(COMPOUND, CompoundBytes(stale, c) + rest) == Ok((v, rest));
    EntryLayout(Compound([]), COMPOUND, name, CompoundBytes(stale, c) + rest);
    CStringOfNulFree(name);
    assert !Contains(Compound([]), name);
    StoredAbsent(Compound([]), name, v);
    assert [] + [(name, v)] == [(name, v)];
  }

  /** The entry "" around the whole plain document, read into an empty compound. */
  lemma WrapperEntry(stale: Stale, c: Compound, name: Name)
    requires PortableCompound(c) && PortableName(name)
    ensures ParseEntry(Compound([]), COMPOUND, NameBytes([]) + DocumentBytes(stale, c, name, false))
         == Ok((Rooted([], Rooted(name, AsReadCompound(c))), TypeBytes(0)))
  {
    var inner := DocumentBytes(stale, c, name, false);
    var middle := Rooted(name, AsReadCompound(c));
    PlainDocument(stale, c, name);
    var v := Value(COMPOUND, CompoundP(middle));
    assert ParseValue(COMPOUND, inner) == Ok((v, TypeBytes(0))) by {
      assert Filled(CompoundP(middle)) == v;
      MoveOfReadBack(Blank, v);
    }
    EntryLayout(Compound([]), COMPOUND, [], inner);
    assert CString([]) == [];
    assert !Contains(Compound([]), []);
    StoredAbsent(Compound([]), [], v);
    assert Compound([]).entries + [([], v)] == [([], v)];
  }

  /** With the root-tag option the document is an entry named "" around the entry `name`.
      Its one trailing 0 closes both levels, because `eof()` stops the inner `readInto`
      first. `parse` without `inlineRootTag` shows the wrapper; with it, `{name: c}`. */
  lemma RootTagRoundTrip(stale: Stale, c: Compound, name: Name)
    requires PortableCompound(c) && PortableName(name)
    ensures ParseDocument(DocumentBytes(stale, c, name, true), false)
         == Ok(Rooted([], Rooted(name, AsReadCompound(c))))
    ensures ParseDocument(DocumentBytes(stale, c, name, true), true) == Ok(Rooted(name, AsReadCompound(c)))
  {
    var r := Rooted([], Rooted(name, AsReadCompound(c)));
    WrappedLoop(stale, c, name);
    assert Find(r, []) == Some(0);
  }

  lemma WrappedLoop(stale: Stale, c: Compound, name: Name)
    requires PortableCompound(c) && PortableName(name)
    ensures ParseLoop(Compound([]), DocumentBytes(stale, c, name, true)) == Ok(Rooted([], Rooted(name, AsReadCompound(c))))
  {
    var bytes := NameBytes([]) + DocumentBytes(stale, c, name, false);
    WrapperEntry(stale, c, name);
    RootTagLayout(stale, c, name);
    SoleEntry(COMPOUND, bytes, Rooted([], Rooted(name, AsReadCompound(c))));
  }

  // ---------------------------------------------------------------------------------------
  // What does not survive

  /** A long vector: `readFrom` takes the high half of the 8-byte count as a count of 0, and
      `operator=(std::vector<int64_t>)` sets the tag LONG, so `readValue` returns a LONG with
      no member and leaves the low half of the count and every element unread. */
  lemma LongArrayComesBackEmpty(stale: Stale, xs: seq<Int64>, rest: seq<Byte>)
    requires |xs| < 0x8000_0000
    ensures ParseValue(LONG_ARRAY, ValueBytes(stale, Value(LONG_ARRAY, LongArrayP(xs))) + rest)
         == Ok((Value(LONG, Unspecified), Encode(I32, |xs|) + ElementsBytes(I64, xs) + rest))
  {
    LongArrayMisread(xs, rest);
    assert Checked(ReadArray(I64, ArrayBytes(I64, xs) + rest))
        == Ok(([], Encode(I32, |xs|) + ElementsBytes(I64, xs) + rest));
    assert Filled(LongArrayP([])) == Value(LONG, LongArrayP([]));
  }

  lemma ZeroLength()
    ensures Encode(U16, 0) == TypeBytes(0) + TypeBytes(0)
  {
    EncodeLayout(I8, 0);
    assert ToUnsigned(U16, 0) == 0;
    assert HostBytes(0, 2) == [0, 0];
  }

  /** The two bytes after a string's name, both 0, read as a string: length 0, the one NUL
      `readUTF` leaves in its output, nothing left over. */
  lemma EmptyStringRead()
    ensures ParseValue(STRING, TypeBytes(0) + TypeBytes(0)) == Ok((Value(STRING, StringP([0])), []))
  {
    var zeros := TypeBytes(0) + TypeBytes(0);
    ZeroLength();
    ReadCheckedAfterWrite(U16, 0, []);
    assert Encode(U16, 0) + [] == zeros;
    EmptyBodyDecodes();
    assert ParseUtf(zeros) == Ok(([0], []));
    var filled := Filled(StringP([0]));
    assert filled == Value(STRING, StringP([0]));
    assert ParsePayload(STRING, zeros) == Ok((filled, []));
  }

  /** A length of 0 decodes to the one NUL `readUTF` leaves in its output. */
  lemma EmptyBodyDecodes()
    ensures DecodeUtf([], 0) == Ok([0])
  {
    assert Units([], 0, 0) == Ok([]);
    DecodedUnits([], 0, []);
    assert Low8([]) + Zeros(1) == [0];
  }

  /** The compound `{key: s}` as it is written, closed by the document's trailing 0: the
      string swallows both end tags, and the entry loop then reads past the end. */
  lemma StringCompoundFails(stale: Stale, key: Name, s: seq<Byte>)
    requires |key| < 0x1_0000
    ensures ParseInto(Compound([]), CompoundBytes(stale, Compound([(key, Value(STRING, StringP(s)))])) + TypeBytes(0))
         == Err(OutOfBounds)
  {
    var c := Compound([(key, Value(STRING, StringP(s)))]);
    var ends := TypeBytes(0) + TypeBytes(0);
    assert EntriesFrom(stale, c, 1) == [];
    assert ValueBytes(stale, c.entries[0].1) == [];
    assert EntriesFrom(stale, c, 0) == TypeBytes(STRING) + NameBytes(key);
    assert CompoundBytes(stale, c) + TypeBytes(0) == TypeBytes(STRING) + (NameBytes(key) + ends);
    EmptyStringRead();
    EntryLayout(Compound([]), STRING, key, ends);
    var stored := Stored(Compound([]), CString(key), Value(STRING, StringP([0])));
    assert ParseEntry(Compound([]), STRING, NameBytes(key) + ends) == Ok((stored, []));
    assert ParseEntries(Compound([]), STRING, NameBytes(key) + ends) == Err(OutOfBounds);
    ReadCheckedAfterWrite(I8, STRING, NameBytes(key) + ends);
    assert ParseInto(Compound([]), TypeBytes(STRING) + (NameBytes(key) + ends)) == Err(OutOfBounds);
  }

  /** A string writes no bytes at all, so the reader takes the two bytes after its name as the
      string's length. A document whose compound holds one string: those two bytes are the
      end tags, and `parse` fails reading past the end of the input. */
  lemma StringDocumentFails(stale: Stale, name: Name, key: Name, s: seq<Byte>)
    requires |name| < 0x1_0000 && |key| < 0x1_0000
    ensures ParseDocument(DocumentBytes(stale, Compound([(key, Value(STRING, StringP(s)))]), name, false), false)
         == Err(OutOfBounds)
  {
    var c := Compound([(key, Value(STRING, StringP(s)))]);
    var inner := CompoundBytes(stale, c) + TypeBytes(0);
    StringCompoundFails(stale, key, s);
    assert ParseValue(COMPOUND, inner) == Err(OutOfBounds);
    EntryLayout(Compound([]), COMPOUND, name, inner);
    var doc := DocumentBytes(stale, c, name, false);
    var open, named := TypeBytes(COMPOUND), NameBytes(name);
    assert doc == [] + open + named + CompoundBytes(stale, c) + TypeBytes(0);
    assert [] + open == open;
    Regroup(open, named, CompoundBytes(stale, c), TypeBytes(0));
    Assoc(named, CompoundBytes(stale, c), TypeBytes(0));
    ReadCheckedAfterWrite(I8, COMPOUND, NameBytes(name) + inner);
    assert ParseInto(Compound([]), doc) == Err(OutOfBounds);
  }

  // ---------------------------------------------------------------------------------------
  // The writer test's level

  /** The names of the test's level: "Level", "intTest", "byteTest", "doubleTest", "floatTest",
      "longTest", "shortTest", "listTest (long)" and the long name of the byte-array entry. */
  const LEVEL_NAME: Name := [0x4c, 0x65, 0x76, 0x65, 0x6c]
  const INT_TEST: Name := [0x69, 0x6e, 0x74, 0x54, 0x65, 0x73, 0x74]
  const BYTE_TEST: Name := [0x62, 0x79, 0x74, 0x65, 0x54, 0x65, 0x73, 0x74]
  const DOUBLE_TEST: Name := [0x64, 0x6f, 0x75, 0x62, 0x6c, 0x65, 0x54, 0x65, 0x73, 0x74]
  const FLOAT_TEST: Name := [0x66, 0x6c, 0x6f, 0x61, 0x74, 0x54, 0x65, 0x73, 0x74]
  const LONG_TEST: Name := [0x6c, 0x6f, 0x6e, 0x67, 0x54, 0x65, 0x73, 0x74]
  const SHORT_TEST: Name := [0x73, 0x68, 0x6f, 0x72, 0x74, 0x54, 0x65, 0x73, 0x74]
  const LIST_TEST: Name := [0x6c, 0x69, 0x73, 0x74, 0x54, 0x65, 0x73, 0x74, 0x20, 0x28, 0x6c, 0x6f, 0x6e, 0x67, 0x29]
  const BYTE_ARRAY_TEST: Name :=
    [0x62, 0x79, 0x74, 0x65, 0x41, 0x72, 0x72, 0x61, 0x79, 0x54, 0x65, 0x73, 0x74]
    + [0x20, 0x28, 0x74, 0x68, 0x65, 0x20, 0x66, 0x69, 0x72, 0x73, 0x74, 0x20, 0x31]
    + [0x30, 0x30, 0x30, 0x20, 0x76, 0x61, 0x6c, 0x75, 0x65, 0x73, 0x20, 0x6f, 0x66]
    + [0x20, 0x28, 0x6e, 0x2a, 0x6e, 0x2a, 0x32, 0x35, 0x35, 0x2b, 0x6e, 0x2a, 0x37]
    + [0x29, 0x25, 0x31, 0x30, 0x30, 0x2c, 0x20, 0x73, 0x74, 0x61, 0x72, 0x74, 0x69]
    + [0x6e, 0x67, 0x20, 0x77, 0x69, 0x74, 0x68, 0x20, 0x6e, 0x3d, 0x30, 0x20, 0x28]
    + [0x30, 0x2c, 0x20, 0x36, 0x32, 0x2c, 0x20, 0x33, 0x34, 0x2c, 0x20, 0x31, 0x36]
    + [0x2c, 0x20, 0x38, 0x2c, 0x20, 0x2e, 0x2e, 0x2e, 0x29, 0x29]

  /** The five longs 11..15 the test pushes back. */
  const LONGS: seq<Value> := [Value(LONG, LongP(11)), Value(LONG, LongP(12)), Value(LONG, LongP(13)),
                              Value(LONG, LongP(14)), Value(LONG, LongP(15))]

  /** The test's byte array: `(n * n * 255 + n * 7) % 100` for n from 0 to 999. */
  const BYTES: seq<Int8> := seq(1000, n requires 0 <= n < 1000 => (n * n * 255 + n * 7) % 100)

  /** The entries of the test's level that hold no string, with the test's values; the double
      and the float as their IEEE 754 bit patterns. */
  const TEST_LEVEL := Compound([
    (INT_TEST, Value(INT, IntP(2147483647))),
    (BYTE_TEST, Value(BYTE, ByteP(127))),
    (DOUBLE_TEST, Value(DOUBLE, DoubleP(0x3fdf_8f6b_bbff_6a5e))),
    (FLOAT_TEST, Value(FLOAT, FloatP(0x3eff_1832))),
    (LONG_TEST, Value(LONG, LongP(9223372036854775807))),
    (SHORT_TEST, Value(SHORT, ShortP(32767))),
    (BYTE_ARRAY_TEST, Value(BYTE_ARRAY, ByteArrayP(BYTES))),
    (LIST_TEST, Value(LIST, ListP(List(LONG, LONGS))))])

  lemma TestLevelKeys()
    ensures DistinctKeys(TEST_LEVEL.entries)
  {
    var e := TEST_LEVEL.entries;
    assert e[0].0[0] == 0x69 && e[1].0[0] == 0x62 && e[2].0[0] == 0x64 && e[3].0[0] == 0x66;
    assert e[4].0[0] == 0x6c && e[5].0[0] == 0x73 && e[6].0[0] == 0x62 && e[7].0[0] == 0x6c;
    assert e[1].0[4] == 0x54 && e[6].0[4] == 0x41;
    assert e[4].0[1] == 0x6f && e[7].0[1] == 0x69;
  }

  lemma ByteArrayNamePortable()
    ensures PortableName(BYTE_ARRAY_TEST)
  {
  }

  lemma TestLevelPortable()
    ensures PortableCompound(TEST_LEVEL)
  {
    TestLevelKeys();
    ByteArrayNamePortable();
    var l := List(LONG, LONGS);
    forall i | 0 <= i < |LONGS| ensures LONGS[i].tag == LONG && Writable(LONGS[i]) && Portable(LONGS[i]) {
    }
    assert WritableList(l) && PortableList(l);
    var e := TEST_LEVEL.entries;
    assert Portable(e[6].1) && Portable(e[7].1);
    forall i | 0 <= i < |e| ensures PortableName(e[i].0) && Portable(e[i].1) {
    }
  }

  /** `parse(write(level, "Level"))` for those entries: every value comes back, and the long
      list with its element type read back as 0. */
  lemma TestLevelRoundTrip(stale: Stale)
    ensures PortableCompound(TEST_LEVEL)
    ensures ParseDocument(DocumentBytes(stale, TEST_LEVEL, LEVEL_NAME, false), false)
         == Ok(Rooted(LEVEL_NAME, Compound(TEST_LEVEL.entries[..7]
                                            + [(LIST_TEST, Value(LIST, ListP(List(0, LONGS))))])))
  {
    TestLevelPortable();
    DocumentRoundTrip(stale, TEST_LEVEL, LEVEL_NAME);
    var r := AsReadCompound(TEST_LEVEL);
    assert AsReadList(List(LONG, LONGS)) == List(0, LONGS);
    assert r.entries == TEST_LEVEL.entries[..7] + [(LIST_TEST, Value(LIST, ListP(List(0, LONGS))))];
  }

  // ---------------------------------------------------------------------------------------
  // Write, then parse

  /** Every portable value has a size estimate: it reaches no tag outside 1..12. */
  lemma {:induction false} PortableKindsOnly(v: Value)
    requires Portable(v)
    ensures KindsOnly(v)
    decreases v, 1
  {
    match v.payload
    case ListP(l) =>
      forall i | 0 <= i < |l.elements| ensures KindsOnly(l.elements[i]) {
        PortableKindsOnly(l.elements[i]);
      }
    case CompoundP(c) =>
      forall i | 0 <= i < |c.entries| ensures KindsOnly(c.entries[i].1) {
        PortableKindsOnly(c.entries[i].1);
      }
    case _ =>
  }

  /** What `parse(data, inlineRootTag)` gives back for `write(c, name, writeRootTag)`. */
  function Reparsed(c: Compound, name: Name, writeRootTag: bool, inlineRootTag: bool): Compound
  {
    if writeRootTag then
      if inlineRootTag then Rooted(name, c) else Rooted([], Rooted(name, c))
    else if inlineRootTag && name == [] then c
    else Rooted(name, c)
  }

  /** `parse(writeToBuffer(c, name))` with the buffer as written: whenever the vector started at
      the estimated size takes every write, the bytes parse back to `{name: c}` as read. */
  lemma BufferedRoundTrip(stale: Stale, c: Compound, name: Name, writeRootTag: bool, inlineRootTag: bool)
    requires PortableCompound(c) && PortableName(name)
    ensures BufferedDocument(stale, c, name, writeRootTag).Ok?
            ==> ParseDocument(BufferedDocument(stale, c, name, writeRootTag).value, inlineRootTag)
                == Ok(Reparsed(AsReadCompound(c), name, writeRootTag, inlineRootTag))
  {
    if writeRootTag {
      RootTagRoundTrip(stale, c, name);
    } else {
      DocumentRoundTrip(stale, c, name);
    }
  }

  /** The library's own round trip: serialize `c` under `name` into a growing buffer, then
      parse the bytes. */
  method WriteAndParse(stale: Stale, c: Compound, name: Name, writeRootTag: bool, inlineRootTag: bool)
    returns (r: Result<Compound>)
    requires PortableCompound(c) && PortableName(name)
    ensures r == Ok(Reparsed(AsReadCompound(c), name, writeRootTag, inlineRootTag))
  {
    forall i | 0 <= i < |c.entries| ensures KindsOnly(c.entries[i].1) {
      PortableKindsOnly(c.entries[i].1);
    }
    EntriesSizeDefined(c, 0);
    var bytes := WriteToGrowingBuffer(stale, c, name, writeRootTag);
    r := Parse(bytes.value, inlineRootTag);
    if writeRootTag {
      RootTagRoundTrip(stale, c, name);
    } else {
      DocumentRoundTrip(stale, c, name);
    }
  }
}
