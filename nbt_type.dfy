/** The NBT value model (include/nbt/nbt_type.hpp, src/nbt_type.cpp).

    A C++ `Value` is a one-byte `Type` tag next to an untagged union. The tag and the union are
    set independently (the vector overloads of `operator=` set tags that do not match the member
    they construct), so the model keeps them apart: `Value(tag, payload)`, where `payload` is the
    union member that was last constructed, or `Unspecified` once nothing meaningful can be read
    from it. Reading a member other than the one constructed yields `Unspecified`. */
module NbtType {
  import opened Wrappers
  import opened Primitive

  // ---------------------------------------------------------------------------------------
  // Type tags (enum class Type : int8_t)

  const BYTE: Int8 := 1
  const SHORT: Int8 := 2
  const INT: Int8 := 3
  const LONG: Int8 := 4
  const FLOAT: Int8 := 5
  const DOUBLE: Int8 := 6
  const BYTE_ARRAY: Int8 := 7
  const STRING: Int8 := 8
  const LIST: Int8 := 9
  const COMPOUND: Int8 := 10
  const INT_ARRAY: Int8 := 11
  const LONG_ARRAY: Int8 := 12

  /** A tag that names a kind. Tag 0 (the end marker) and every other byte name none. */
  predicate IsKind(t: int)
  {
    1 <= t <= 12
  }

  /** Compound keys: raw bytes of a `std::string`. */
  type Name = seq<Byte>

  // ---------------------------------------------------------------------------------------
  // Data

  datatype Payload =
    | Unspecified
    | ByteP(b: Int8)
    | ShortP(s: Int16)
    | IntP(i: Int32)
    | LongP(l: Int64)
    | FloatP(f: Word32)
    | DoubleP(d: Word64)
    | ByteArrayP(bytes: seq<Int8>)
    | IntArrayP(ints: seq<Int32>)
    | LongArrayP(longs: seq<Int64>)
    | StringP(chars: seq<Byte>)
    | CompoundP(compound: Compound)
    | ListP(list: List)

  datatype Value = Value(tag: Int8, payload: Payload)

  /** `std::unordered_map<std::string, Value>`; the order of `entries` stands for the map's
      unspecified enumeration order. */
  datatype Compound = Compound(entries: seq<(Name, Value)>)

  /** A declared element type and the vector of elements. */
  datatype List = List(elemType: Int8, elements: seq<Value>)

  /** One value per key. */
  predicate DistinctKeys(entries: seq<(Name, Value)>)
  {
    forall i, j :: 0 <= i < j < |entries| ==> entries[i].0 != entries[j].0
  }

  /** The union member a payload is, numbered by the tag that names that member. */
  function MemberKind(p: Payload): (k: int)
    ensures p != Unspecified <==> IsKind(k)
  {
    match p
    case Unspecified => 0
    case ByteP(_) => 1
    case ShortP(_) => 2
    case IntP(_) => 3
    case LongP(_) => 4
    case FloatP(_) => 5
    case DoubleP(_) => 6
    case ByteArrayP(_) => 7
    case StringP(_) => 8
    case ListP(_) => 9
    case CompoundP(_) => 10
    case IntArrayP(_) => 11
    case LongArrayP(_) => 12
  }

  /** Reading union member `k`: the payload if that member is the one constructed. */
  function ReadMember(k: int, p: Payload): Payload
  {
    if IsKind(k) && MemberKind(p) == k then p else Unspecified
  }

  /** The tag the `operator=` overload for member `k` sets: its own kind, except that the
      `vector<int32_t>` overload sets INT and the `vector<int64_t>` overload sets LONG. */
  function OverloadTag(k: int): (t: Int8)
    requires IsKind(k)
    ensures 1 <= t <= 10
    ensures k <= 10 ==> t == k
  {
    if k == 11 then INT else if k == 12 then LONG else k
  }

  /** Whether `setType` runs a destructor for the current member. */
  predicate Releases(t: int)
  {
    t == BYTE_ARRAY || t == STRING || t == LIST || t == COMPOUND || t == INT_ARRAY || t == LONG_ARRAY
  }

  /** The `Primitive` kind of a scalar tag's member. */
  function ScalarKind(t: int): (k: Kind)
    requires 1 <= t <= 6
  {
    match t
    case 1 => I8
    case 2 => I16
    case 3 => I32
    case 4 => I64
    case 5 => F32
    case 6 => F64
  }

  // ---------------------------------------------------------------------------------------
  // Value operations on values

  /** `setType(t)`: destroys the current member when the old tag owns one; always sets `t`. */
  function WithType(v: Value, t: Int8): Value
  {
    Value(t, if Releases(v.tag) then Unspecified else v.payload)
  }

  /** The typed `operator=`: `setType` to the overload's tag, then construct the member. */
  function Assigned(v: Value, p: Payload): (r: Value)
    requires p != Unspecified
  {
    Value(WithType(v, OverloadTag(MemberKind(p))).tag, p)
  }

  /** The typed getters through `typeCheck`. */
  function GetMember(v: Value, k: Int8): Result<Payload>
  {
    if v.tag != k then Err(TypeMismatch) else Ok(ReadMember(k, v.payload))
  }

  /** The default `Value` that `Compound::operator[]` inserts: tag 0, nothing constructed. */
  const Default := Value(0, Unspecified)

  /** A freshly constructed copy or move target: `m_Type(Type::BYTE)`, no member. */
  const Blank := Value(BYTE, Unspecified)

  /** Move assignment from a distinct object: the `switch` on the source tag calls the overload
      for that tag's member with the source's member; a tag outside 1..12 matches no case. */
  function MoveAssigned(target: Value, src: Value): Value
  {
    if IsKind(src.tag) then Value(OverloadTag(src.tag), ReadMember(src.tag, src.payload)) else target
  }

  /** The move constructor. */
  function Moved(v: Value): Value
  {
    MoveAssigned(Blank, v)
  }

  /** What a container member is left holding once the by-value overload has move-constructed
      its parameter from it: a vector is empty, a `List` keeps its type and has no elements, and
      a string or a `Compound` (an `unordered_map`) is valid but unspecified. */
  function Drained(p: Payload): Payload
  {
    match p
    case ByteArrayP(_) => ByteArrayP([])
    case IntArrayP(_) => IntArrayP([])
    case LongArrayP(_) => LongArrayP([])
    case ListP(l) => ListP(List(l.elemType, []))
    case _ => Unspecified
  }

  /** The source of a move, afterwards: the cases for tags 7..12 hand the member over with
      `std::move`, the scalar cases only read it, and the tag is never touched. */
  function MovedFrom(v: Value): Value
  {
    if Releases(v.tag) && MemberKind(v.payload) == v.tag then Value(v.tag, Drained(v.payload)) else v
  }

  /** Copy assignment from a distinct object: as move assignment, but containers are copied,
      which copy-constructs every nested value. */
  function CopyAssigned(target: Value, src: Value): Value
    decreases src, 1
  {
    if IsKind(src.tag) then Value(OverloadTag(src.tag), ReadMember(src.tag, CopyPayload(src.payload)))
    else target
  }

  /** The copy constructor. */
  function CopyConstructed(v: Value): Value
    decreases v, 2
  {
    CopyAssigned(Blank, v)
  }

  function CopyPayload(p: Payload): (r: Payload)
    ensures MemberKind(r) == MemberKind(p)
    decreases p, 0
  {
    match p
    case CompoundP(c) =>
      CompoundP(Compound(seq(|c.entries|, i requires 0 <= i < |c.entries| =>
                                (c.entries[i].0, CopyConstructed(c.entries[i].1)))))
    case ListP(l) =>
      ListP(List(l.elemType, seq(|l.elements|, i requires 0 <= i < |l.elements| =>
                                    CopyConstructed(l.elements[i]))))
    case _ => p
  }

  // ---------------------------------------------------------------------------------------
  // Soundness: a value whose tag names the member it holds, all the way down

  predicate Matches(v: Value)
  {
    1 <= v.tag <= 10 && MemberKind(v.payload) == v.tag
  }

  predicate Sound(v: Value)
    decreases v, 1
  {
    Matches(v) && SoundPayload(v.payload)
  }

  predicate SoundPayload(p: Payload)
    decreases p, 0
  {
    match p
    case CompoundP(c) => forall i :: 0 <= i < |c.entries| ==> Sound(c.entries[i].1)
    case ListP(l) => forall i :: 0 <= i < |l.elements| ==> Sound(l.elements[i])
    case _ => true
  }

  // ---------------------------------------------------------------------------------------
  // Value properties

  /** Each getter fails with a type mismatch exactly when the tag differs from its kind; past
      the check it returns the member held if that member is of its kind, and nothing
      readable otherwise. */
  lemma GetterChecksTag(v: Value, k: Int8)
    ensures GetMember(v, k).Err? <==> v.tag != k
    ensures GetMember(v, k).Err? ==> GetMember(v, k).error == TypeMismatch
    ensures GetMember(v, k).Ok? && MemberKind(v.payload) == k ==> GetMember(v, k).value == v.payload
    ensures GetMember(v, k).Ok? && MemberKind(v.payload) != k ==> GetMember(v, k).value == Unspecified
    ensures Matches(v) && v.tag == k ==> GetMember(v, k) == Ok(v.payload)
  {
  }

  /** `setType` only retags: afterwards every getter but the new tag's fails, and the new tag's
      getter finds the old member only if the old tag owned nothing to destroy and that member
      is of the new kind. Destroying a member loses it for good, so setting the old tag back
      does not restore it; between tags that own nothing, setting the old tag back does. */
  lemma SetTypeRetags(v: Value, t: Int8, k: Int8)
    ensures GetMember(WithType(v, t), k).Err? <==> k != t
    ensures Releases(v.tag) ==> GetMember(WithType(v, t), t) == Ok(Unspecified)
    ensures !Releases(v.tag) ==> GetMember(WithType(v, t), t) == Ok(ReadMember(t, v.payload))
    ensures Releases(v.tag) && v.payload != Unspecified ==> WithType(WithType(v, t), v.tag) != v
    ensures !Releases(v.tag) && !Releases(t) ==> WithType(WithType(v, t), v.tag) == v
  {
  }

  /** Assigning a scalar, a byte vector, a string, a Compound or a List sets the tag of that kind
      and stores the payload, so the matching getter returns it. */
  lemma AssignSetsKind(v: Value, p: Payload)
    requires p != Unspecified && MemberKind(p) <= 10
    ensures Assigned(v, p) == Value(MemberKind(p), p)
    ensures GetMember(Assigned(v, p), MemberKind(p)) == Ok(p)
  {
  }

  /** Assigning an int or long vector sets INT or LONG, so the array getter fails and the scalar
      getter reads an inactive member. */
  lemma AssignVectorQuirk(v: Value, xs: seq<Int32>, ys: seq<Int64>)
    ensures Assigned(v, IntArrayP(xs)).tag == INT
    ensures GetMember(Assigned(v, IntArrayP(xs)), INT_ARRAY) == Err(TypeMismatch)
    ensures GetMember(Assigned(v, IntArrayP(xs)), INT) == Ok(Unspecified)
    ensures Assigned(v, LongArrayP(ys)).tag == LONG
    ensures GetMember(Assigned(v, LongArrayP(ys)), LONG_ARRAY) == Err(TypeMismatch)
    ensures GetMember(Assigned(v, LongArrayP(ys)), LONG) == Ok(Unspecified)
  {
  }

  /** Moving or copying a value whose tag matches its member reproduces it (for copying, this
      must hold of every nested value too). A tag outside 1..12 leaves the target as it was. */
  lemma MoveReproduces(target: Value, src: Value)
    ensures Matches(src) ==> MoveAssigned(target, src) == src
    ensures !IsKind(src.tag) ==> MoveAssigned(target, src) == target
  {
  }

  /** A move leaves its source with its tag, so every getter fails or succeeds on it as before;
      a scalar is still readable, a vector member reads back empty, a list member keeps its type
      with no elements, and a string or compound member has nothing readable. */
  lemma MoveDrainsSource(v: Value, k: Int8)
    ensures GetMember(MovedFrom(v), k).Err? <==> GetMember(v, k).Err?
    ensures !Releases(v.tag) ==> MovedFrom(v) == v
    ensures v.tag == BYTE_ARRAY && v.payload.ByteArrayP? ==> GetMember(MovedFrom(v), BYTE_ARRAY) == Ok(ByteArrayP([]))
    ensures v.tag == INT_ARRAY && v.payload.IntArrayP? ==> GetMember(MovedFrom(v), INT_ARRAY) == Ok(IntArrayP([]))
    ensures v.tag == LONG_ARRAY && v.payload.LongArrayP? ==> GetMember(MovedFrom(v), LONG_ARRAY) == Ok(LongArrayP([]))
    ensures v.tag == LIST && v.payload.ListP? ==> GetMember(MovedFrom(v), LIST) == Ok(ListP(List(v.payload.list.elemType, [])))
    ensures (v.tag == STRING || v.tag == COMPOUND) ==> GetMember(MovedFrom(v), v.tag) == Ok(Unspecified)
  {
  }

  /** `Value a(std::vector<int8_t>{1, 2, 3}); Value b(std::move(a));` leaves `b` holding the
      vector and `a` a BYTE_ARRAY whose vector is empty; a moved string leaves nothing readable. */
  lemma MoveEmptiesSource()
    ensures Moved(Assigned(Blank, ByteArrayP([1, 2, 3]))) == Value(BYTE_ARRAY, ByteArrayP([1, 2, 3]))
    ensures MovedFrom(Assigned(Blank, ByteArrayP([1, 2, 3]))) == Value(BYTE_ARRAY, ByteArrayP([]))
    ensures MovedFrom(Value(STRING, StringP([65]))) == Value(STRING, Unspecified)
  {
  }

  lemma {:induction false} CopyReproduces(target: Value, src: Value)
    requires Sound(src)
    ensures CopyAssigned(target, src) == src
    decreases src, 1
  {
    CopyPayloadReproduces(src.payload);
  }

  lemma {:induction false} CopyPayloadReproduces(p: Payload)
    requires SoundPayload(p)
    ensures CopyPayload(p) == p
    decreases p, 0
  {
    match p
    case CompoundP(c) =>
      forall i | 0 <= i < |c.entries| ensures CopyConstructed(c.entries[i].1) == c.entries[i].1 {
        CopyReproduces(Blank, c.entries[i].1);
      }
      assert seq(|c.entries|, i requires 0 <= i < |c.entries| =>
                   (c.entries[i].0, CopyConstructed(c.entries[i].1))) == c.entries;
    case ListP(l) =>
      forall i | 0 <= i < |l.elements| ensures CopyConstructed(l.elements[i]) == l.elements[i] {
        CopyReproduces(Blank, l.elements[i]);
      }
      assert seq(|l.elements|, i requires 0 <= i < |l.elements| =>
                   CopyConstructed(l.elements[i])) == l.elements;
    case _ =>
  }

  /** The quirk carries through copies and moves: a value tagged INT that holds an int vector
      (what int-vector assignment makes) comes out with nothing readable. */
  lemma CopyOfIntVector(target: Value, xs: seq<Int32>)
    ensures MoveAssigned(target, Value(INT, IntArrayP(xs))) == Value(INT, Unspecified)
    ensures CopyAssigned(target, Value(INT, IntArrayP(xs))) == Value(INT, Unspecified)
  {
  }

  /** Moving a moved value changes nothing more, unless its tag was INT_ARRAY or LONG_ARRAY
      (which no operation sets); a third move never changes anything. The element `pushBack`
      stores is such a moved value, so the moves of later reallocations leave it as it is;
      `RelocationKeeps` and `RelocationDrops` say which elements survive a reallocation. */
  lemma MovedStable(v: Value)
    ensures v.tag != INT_ARRAY && v.tag != LONG_ARRAY ==> Moved(Moved(v)) == Moved(v)
    ensures Moved(Moved(Moved(v))) == Moved(Moved(v))
  {
  }

  // ---------------------------------------------------------------------------------------
  // Compound operations on values

  function Find(c: Compound, key: Name): (r: Option<nat>)
    ensures r.Some? ==> r.value < |c.entries| && c.entries[r.value].0 == key
    ensures r.None? ==> forall i :: 0 <= i < |c.entries| ==> c.entries[i].0 != key
    decreases |c.entries|
  {
    if |c.entries| == 0 then None
    else if c.entries[|c.entries| - 1].0 == key then Some(|c.entries| - 1)
    else Find(Compound(c.entries[..|c.entries| - 1]), key)
  }

  /** `Compound::hasKey`. */
  function Contains(c: Compound, key: Name): (r: bool)
    ensures r <==> exists i :: 0 <= i < |c.entries| && c.entries[i].0 == key
  {
    Find(c, key).Some?
  }

  /** The value stored under a key that is present. */
  function Lookup(c: Compound, key: Name): Value
    requires Contains(c, key)
  {
    c.entries[Find(c, key).value].1
  }

  /** `Compound::operator[]`: an absent key gets a default entry; a present one changes nothing. */
  function Indexed(c: Compound, key: Name): (r: Compound)
    ensures Contains(r, key)
    ensures Contains(c, key) ==> r == c
    ensures !Contains(c, key) ==> r.entries == c.entries + [(key, Default)]
    ensures DistinctKeys(c.entries) ==> DistinctKeys(r.entries)
  {
    if Contains(c, key) then c
    else
      var r := Compound(c.entries + [(key, Default)]);
      assert r.entries[|c.entries|].0 == key;
      r
  }

  /** `compound[key] = std::move(v)`: `operator[]`, then move assignment into the slot. */
  function Stored(c: Compound, key: Name, v: Value): (r: Compound)
  {
    var slotted := Indexed(c, key);
    var i := Find(slotted, key).value;
    Compound(slotted.entries[i := (key, MoveAssigned(slotted.entries[i].1, v))])
  }

  /** `Compound::remove`: whether the key was there, and the compound without it. */
  function Removed(c: Compound, key: Name): (r: (Compound, bool))
  {
    match Find(c, key)
    case None => (c, false)
    case Some(i) => (Compound(c.entries[..i] + c.entries[i + 1..]), true)
  }

  // ---------------------------------------------------------------------------------------
  // Compound properties

  /** After a store the key is present, with the moved value under it; every other key keeps its
      value, and the keys stay distinct. */
  lemma StoreSets(c: Compound, key: Name, v: Value)
    requires DistinctKeys(c.entries)
    ensures DistinctKeys(Stored(c, key, v).entries)
    ensures Contains(Stored(c, key, v), key)
    ensures Lookup(Stored(c, key, v), key)
         == MoveAssigned(if Contains(c, key) then Lookup(c, key) else Default, v)
    ensures forall k :: k != key ==> (Contains(Stored(c, key, v), k) <==> Contains(c, k))
    ensures forall k :: k != key && Contains(c, k) ==> Lookup(Stored(c, key, v), k) == Lookup(c, k)
  {
    var slotted := Indexed(c, key);
    var i := Find(slotted, key).value;
    var r := Stored(c, key, v);
    StoredKeys(c, key, v);
    FindUnique(r, key, i);
    forall k | k != key
      ensures Contains(r, k) <==> Contains(c, k)
      ensures Contains(c, k) ==> Lookup(r, k) == Lookup(c, k)
    {
      StoredKeeps(c, key, v, k);
    }
    if Contains(c, key) {
      FindUnique(c, key, i);
    }
  }

  /** A store changes no key of the indexed compound, so the keys stay distinct. */
  lemma StoredKeys(c: Compound, key: Name, v: Value)
    requires DistinctKeys(c.entries)
    ensures |Stored(c, key, v).entries| == |Indexed(c, key).entries|
    ensures forall j :: 0 <= j < |Stored(c, key, v).entries|
              ==> Stored(c, key, v).entries[j].0 == Indexed(c, key).entries[j].0
    ensures DistinctKeys(Stored(c, key, v).entries)
  {
    var slotted := Indexed(c, key);
    var i := Find(slotted, key).value;
    SameKeys(slotted.entries, i, (key, MoveAssigned(slotted.entries[i].1, v)));
  }

  /** Replacing entry `i` by one with the same key changes no key. */
  lemma SameKeys(s: seq<(Name, Value)>, i: nat, e: (Name, Value))
    requires i < |s| && e.0 == s[i].0
    ensures forall j :: 0 <= j < |s| ==> s[i := e][j].0 == s[j].0
    ensures DistinctKeys(s) ==> DistinctKeys(s[i := e])
  {
    var r := s[i := e];
    forall a, b | 0 <= a < b < |r| && DistinctKeys(s) ensures r[a].0 != r[b].0 {
      assert r[a].0 == s[a].0 && r[b].0 == s[b].0;
    }
  }

  /** A store under `key` keeps every other key, with its value. */
  lemma StoredKeeps(c: Compound, key: Name, v: Value, k: Name)
    requires DistinctKeys(c.entries) && k != key
    ensures Contains(Stored(c, key, v), k) <==> Contains(c, k)
    ensures Contains(c, k) ==> Lookup(Stored(c, key, v), k) == Lookup(c, k)
  {
    var slotted := Indexed(c, key);
    var i := Find(slotted, key).value;
    var r := Stored(c, key, v);
    StoredKeys(c, key, v);
    if Contains(r, k) {
      var j := Find(r, k).value;
      assert slotted.entries[j].0 == k;
      assert c.entries[j].0 == k;
    }
    if Contains(c, k) {
      var j := Find(c, k).value;
      assert slotted.entries[j] == c.entries[j];
      assert j != i;
      assert r.entries[j] == c.entries[j];
      FindUnique(r, k, j);
    }
  }

  /** With distinct keys, the one entry holding a key is the one `Find` returns. */
  lemma FindUnique(c: Compound, key: Name, i: nat)
    requires DistinctKeys(c.entries)
    requires i < |c.entries| && c.entries[i].0 == key
    ensures Find(c, key) == Some(i)
  {
  }

  /** `remove` of an absent key reports false and changes nothing; of a present key it reports
      true, deletes that key alone and leaves every other entry as it was. */
  lemma RemoveDeletes(c: Compound, key: Name)
    requires DistinctKeys(c.entries)
    ensures !Contains(c, key) ==> Removed(c, key) == (c, false)
    ensures Contains(c, key) ==> Removed(c, key).1
    ensures DistinctKeys(Removed(c, key).0.entries)
    ensures !Contains(Removed(c, key).0, key)
    ensures forall k :: k != key ==> (Contains(Removed(c, key).0, k) <==> Contains(c, k))
    ensures forall k :: k != key && Contains(c, k) ==> Lookup(Removed(c, key).0, k) == Lookup(c, k)
  {
    if Contains(c, key) {
      var i := Find(c, key).value;
      var r := Removed(c, key).0;
      DeletedAt(c.entries, i);
      DeletedDistinct(c.entries, i);
      forall k | k != key
        ensures Contains(r, k) <==> Contains(c, k)
        ensures Contains(c, k) ==> Lookup(r, k) == Lookup(c, k)
      {
        DeletedKeeps(c, i, k);
      }
    }
  }

  /** Taking out entry `i` keeps every other key, with its value. */
  lemma DeletedKeeps(c: Compound, i: nat, k: Name)
    requires DistinctKeys(c.entries) && i < |c.entries| && c.entries[i].0 != k
    ensures Contains(Compound(c.entries[..i] + c.entries[i + 1..]), k) <==> Contains(c, k)
    ensures Contains(c, k) ==> Lookup(Compound(c.entries[..i] + c.entries[i + 1..]), k) == Lookup(c, k)
  {
    var r := Compound(c.entries[..i] + c.entries[i + 1..]);
    DeletedAt(c.entries, i);
    DeletedDistinct(c.entries, i);
    if Contains(c, k) {
      var j := Find(c, k).value;
      var j' := if j < i then j else j - 1;
      assert r.entries[j'] == c.entries[j];
      FindUnique(r, k, j');
    }
  }

  /** The entries left when entry `i` is taken out: the earlier ones, then the later ones. */
  lemma DeletedAt(s: seq<(Name, Value)>, i: nat)
    requires i < |s|
    ensures |s[..i] + s[i + 1..]| == |s| - 1
    ensures forall a :: 0 <= a < i ==> (s[..i] + s[i + 1..])[a] == s[a]
    ensures forall a :: i < a < |s| ==> (s[..i] + s[i + 1..])[a - 1] == s[a]
  {
  }

  lemma DeletedDistinct(s: seq<(Name, Value)>, i: nat)
    requires DistinctKeys(s) && i < |s|
    ensures DistinctKeys(s[..i] + s[i + 1..])
  {
    var r := s[..i] + s[i + 1..];
    DeletedAt(s, i);
    forall a, b | 0 <= a < b < |r| ensures r[a].0 != r[b].0 {
      var a', b' := if a < i then a else a + 1, if b < i then b else b + 1;
      assert r[a] == s[a'] && r[b] == s[b'];
    }
  }

  // ---------------------------------------------------------------------------------------
  // List operations on values

  /** The elements of a `std::vector<Value>` whose storage was reallocated: the (noexcept) move
      constructor built each of them anew. */
  function Relocated(elements: seq<Value>): seq<Value>
  {
    seq(|elements|, i requires 0 <= i < |elements| => Moved(elements[i]))
  }

  /** The elements before an append: moved to new storage when the vector `grows` (its
      capacity was exhausted, which the model does not track), otherwise left in place. */
  function Kept(elements: seq<Value>, grows: bool): seq<Value>
  {
    if grows then Relocated(elements) else elements
  }

  /** `List::pushBack(value)`: the by-value parameter is moved into a new last element. */
  function PushedBack(l: List, value: Value, grows: bool): (r: List)
    ensures r.elemType == l.elemType
    ensures |r.elements| == |l.elements| + 1
    ensures !grows ==> r.elements[..|l.elements|] == l.elements
    ensures grows ==> forall i :: 0 <= i < |l.elements| ==> r.elements[i] == Moved(l.elements[i])
    ensures r.elements[|l.elements|] == Moved(value)
  {
    List(l.elemType, Kept(l.elements, grows) + [Moved(value)])
  }

  /** `List::emplaceBack(T value)`: a new last element built by the converting constructor
      `Value(T)`, whose by-value parameter is a copy of `value` (an lvalue there), so a compound
      or list argument has every nested value copy-constructed. */
  function EmplacedBack(l: List, p: Payload, grows: bool): (r: List)
    requires p != Unspecified
    ensures r.elemType == l.elemType
    ensures |r.elements| == |l.elements| + 1
    ensures !grows ==> r.elements[..|l.elements|] == l.elements
    ensures grows ==> forall i :: 0 <= i < |l.elements| ==> r.elements[i] == Moved(l.elements[i])
    ensures r.elements[|l.elements|].payload == CopyPayload(p)
    ensures r.elements[|l.elements|].tag == OverloadTag(MemberKind(p))
  {
    List(l.elemType, Kept(l.elements, grows) + [Assigned(Blank, CopyPayload(p))])
  }

  // ---------------------------------------------------------------------------------------
  // List properties

  /** A reallocation leaves every element whose tag matches its member as it was; so whether
      the vector grows makes no difference to a list of such elements. */
  lemma RelocationKeeps(l: List, value: Value)
    requires forall i :: 0 <= i < |l.elements| ==> Matches(l.elements[i])
    ensures Relocated(l.elements) == l.elements
    ensures PushedBack(l, value, true) == PushedBack(l, value, false)
  {
    forall i | 0 <= i < |l.elements| ensures Relocated(l.elements)[i] == l.elements[i] {
      MoveReproduces(Blank, l.elements[i]);
    }
  }

  /** A reallocation loses the vector of an element that `emplaceBack` built from an int
      vector, and turns a default (tag 0) element into a BYTE with nothing readable. */
  lemma RelocationDrops(xs: seq<Int32>)
    ensures Relocated([Assigned(Blank, IntArrayP(xs))]) == [Value(INT, Unspecified)]
    ensures Relocated([Default]) == [Blank]
  {
  }

  /** `emplaceBack` of a payload whose values all match their tags stores that payload as it is;
      a compound holding a default entry has that entry copied as a BYTE with nothing
      readable. */
  lemma EmplaceCopies(l: List, p: Payload, key: Name, grows: bool)
    requires p != Unspecified && SoundPayload(p)
    ensures EmplacedBack(l, p, grows).elements[|l.elements|] == Assigned(Blank, p)
    ensures EmplacedBack(l, CompoundP(Compound([(key, Default)])), grows).elements[|l.elements|]
         == Value(COMPOUND, CompoundP(Compound([(key, Blank)])))
  {
    CopyPayloadReproduces(p);
    assert CopyPayload(CompoundP(Compound([(key, Default)]))) == CompoundP(Compound([(key, Blank)]));
  }

  // ---------------------------------------------------------------------------------------
  // The C++ objects

  /** A `Value` object, updated in place by `setType` and the assignments. */
  class ValueObject {
    var tag: Int8
    var payload: Payload

    function Model(): Value
      reads this
    {
      Value(tag, payload)
    }

    /** A `Value` declared without an initialiser: nothing constructed, and tag 0 standing in for
        the indeterminate `m_Type`. */
    constructor Empty()
      ensures Model() == Default
    {
      tag := 0;
      payload := Unspecified;
    }

    /** The converting constructors `Value(T)`: construct, then the typed `operator=`. */
    constructor Of(p: Payload)
      requires p != Unspecified
      ensures Model() == Assigned(Blank, p)
    {
      tag := OverloadTag(MemberKind(p));
      payload := p;
    }

    /** The copy constructor: `m_Type(Type::BYTE)`, then copy assignment. */
    constructor Copy(rhs: ValueObject)
      ensures Model() == CopyConstructed(rhs.Model())
    {
      var src := rhs.Model();
      tag := BYTE;
      payload := Unspecified;
      if IsKind(src.tag) {
        tag := OverloadTag(src.tag);
        payload := ReadMember(src.tag, CopyPayload(src.payload));
      }
    }

    /** The move constructor: `m_Type(Type::BYTE)`, then move assignment, which leaves a
        container member of `rhs` moved out. */
    constructor Move(rhs: ValueObject)
      modifies rhs
      ensures Model() == Moved(old(rhs.Model()))
      ensures rhs.Model() == MovedFrom(old(rhs.Model()))
    {
      var src := rhs.Model();
      tag := BYTE;
      payload := Unspecified;
      if IsKind(src.tag) {
        tag := OverloadTag(src.tag);
        payload := ReadMember(src.tag, src.payload);
      }
      new;
      if Releases(src.tag) && MemberKind(src.payload) == src.tag {
        rhs.payload := Drained(src.payload);
      }
    }

    /** `setType(type)`: releases a container member, then sets the tag. */
    method SetType(t: Int8)
      modifies this
      ensures Model() == WithType(old(Model()), t)
    {
      if Releases(tag) {
        payload := Unspecified;
      }
      tag := t;
    }

    /** The typed `operator=` overloads. */
    method Assign(p: Payload)
      requires p != Unspecified
      modifies this
      ensures Model() == Assigned(old(Model()), p)
    {
      SetType(OverloadTag(MemberKind(p)));
      payload := p;
    }

    /** `operator=(const Value&)`. */
    method CopyAssign(rhs: ValueObject)
      modifies this
      ensures rhs == this ==> Model() == old(Model())
      ensures rhs != this ==> Model() == CopyAssigned(old(Model()), old(rhs.Model()))
    {
      if this == rhs {
        return;
      }
      var src := rhs.Model();
      if IsKind(src.tag) {
        AssignMember(src.tag, ReadMember(src.tag, CopyPayload(src.payload)));
      }
    }

    /** `operator=(Value&&)`: a container member of `rhs` is moved out. */
    method MoveAssign(rhs: ValueObject)
      modifies this, rhs
      ensures rhs == this ==> Model() == old(Model())
      ensures rhs != this ==> Model() == MoveAssigned(old(Model()), old(rhs.Model()))
      ensures rhs != this ==> rhs.Model() == MovedFrom(old(rhs.Model()))
    {
      if this == rhs {
        return;
      }
      var src := rhs.Model();
      if IsKind(src.tag) {
        AssignMember(src.tag, ReadMember(src.tag, src.payload));
      }
      if Releases(src.tag) && MemberKind(src.payload) == src.tag {
        rhs.payload := Drained(src.payload);
      }
    }

    /** One `case` of the assignment `switch`: the overload for member `k`, given that member's
        contents as read from the source (possibly nothing readable). */
    method AssignMember(k: int, member: Payload)
      requires IsKind(k)
      modifies this
      ensures Model() == Value(OverloadTag(k), member)
    {
      SetType(OverloadTag(k));
      payload := member;
    }

    /** `getType()`. */
    function GetType(): (t: Int8)
      reads this
      ensures t == Model().tag
    {
      tag
    }

    /** The typed getters. */
    function Get(k: Int8): (r: Result<Payload>)
      reads this
      ensures r == Err(TypeMismatch) <==> tag != k
      ensures r.Ok? && MemberKind(payload) == k ==> r.value == payload
    {
      GetMember(Model(), k)
    }
  }

  /** A `Compound` object: the map, updated in place. */
  class CompoundObject {
    var entries: seq<(Name, Value)>

    ghost predicate Valid()
      reads this
    {
      DistinctKeys(entries)
    }

    function Model(): Compound
      reads this
    {
      Compound(entries)
    }

    constructor()
      ensures Valid() && entries == []
    {
      entries := [];
    }

    /** `operator[]`: the position of the key's slot, inserting a default entry if absent. */
    method Index(key: Name) returns (slot: nat)
      requires Valid()
      modifies this
      ensures Valid()
      ensures Model() == Indexed(old(Model()), key)
      ensures slot < |entries| && entries[slot].0 == key
    {
      if !Contains(Model(), key) {
        entries := entries + [(key, Default)];
        assert entries[|entries| - 1].0 == key;
      }
      slot := Find(Model(), key).value;
    }

    /** `compound[key] = std::move(value)`. */
    method Store(key: Name, value: Value)
      requires Valid()
      modifies this
      ensures Valid()
      ensures Model() == Stored(old(Model()), key, value)
    {
      ghost var before := Model();
      StoreSets(before, key, value);
      var slot := Index(key);
      entries := entries[slot := (key, MoveAssigned(entries[slot].1, value))];
    }

    /** `hasKey(key)`. */
    function HasKey(key: Name): (r: bool)
      reads this
      ensures r <==> exists i :: 0 <= i < |entries| && entries[i].0 == key
    {
      Contains(Model(), key)
    }

    /** `remove(key)`: erases the key's entry, if any, and says whether there was one. */
    method Remove(key: Name) returns (removed: bool)
      requires Valid()
      modifies this
      ensures Valid()
      ensures (Model(), removed) == Removed(old(Model()), key)
    {
      RemoveDeletes(Model(), key);
      var found := Find(Model(), key);
      if found.None? {
        return false;
      }
      var i := found.value;
      entries := entries[..i] + entries[i + 1..];
      return true;
    }
  }

  /** A `List` object: declared element type and vector, appended to in place. */
  class ListObject {
    var elemType: Int8
    var values: seq<Value>

    function Model(): List
      reads this
    {
      List(elemType, values)
    }

    constructor(t: Int8)
      ensures Model() == List(t, [])
    {
      elemType := t;
      values := [];
    }

    /** `pushBack(value)`: the value, moved, appended at the end; `grows` says whether the
        vector's capacity was exhausted, so that the elements are moved to new storage. */
    method PushBack(value: Value, grows: bool)
      modifies this
      ensures Model() == PushedBack(old(Model()), value, grows)
    {
      if grows {
        values := Relocated(values);
      }
      values := values + [Moved(value)];
    }

    /** `emplaceBack(value)`: a copy of `value`, made into a `Value`, appended at the end. */
    method EmplaceBack(p: Payload, grows: bool)
      requires p != Unspecified
      modifies this
      ensures Model() == EmplacedBack(old(Model()), p, grows)
    {
      var element := new ValueObject.Of(CopyPayload(p));
      if grows {
        values := Relocated(values);
      }
      values := values + [element.Model()];
    }

    /** `operator[]`: no bounds check, so the index must be in range. */
    function At(index: nat): (v: Value)
      requires index < |values|
      reads this
      ensures v == Model().elements[index]
    {
      values[index]
    }

    /** `size()`. */
    function Size(): (n: nat)
      reads this
      ensures n == |Model().elements|
    {
      |values|
    }
  }
}
