/** The reader (src/nbt_reader.cpp): a `ByteReader` cursor over the input and the recursive
    descent `readValue` / `readInto` / `parse`.

    The specification functions work on the unread suffix `rest` of the input. `ByteReader::read`
    is bounds-checked (`OutOfBounds`); `advance` is not, so the bytes taken through the current
    position after an `advance` (names, string bodies, byte-array bodies) may lie beyond the
    input, which is the distinct outcome `Overrun`. Every call that recurses first consumes bytes
    through the checked `read`, so `|rest|` shrinks along each nesting level. */
module NbtReader {
  import opened Wrappers
  import opened Primitive
  import opened ModifiedUtf
  import opened NbtType

  /** The element type of a list read back: `List list;` is never given one, and 0 stands in for
      the indeterminate `m_Type`. */
  const UNSET_LIST_TYPE: Int8 := 0

  // ---------------------------------------------------------------------------------------
  // Reading bytes

  /** A short input, as `ByteReader::read` reports it. */
  function Checked<T>(r: Result<T>): Result<T>
  {
    if r.Err? && r.error == ShortRead then Err(OutOfBounds) else r
  }

  /** `reader.read(&value, sizeof(value))` and the byte swap: one primitive of kind `k`. */
  function ReadChecked(k: Kind, rest: seq<Byte>): (r: Result<(int, seq<Byte>)>)
    ensures r.Ok? <==> Size(k) <= |rest|
    ensures r.Err? ==> r.error == OutOfBounds
    ensures r.Ok? ==> r.value == (Decode(k, rest[..Size(k)]), rest[Size(k)..])
    ensures r.Ok? ==> InRange(k, r.value.0)
  {
    Checked(ReadFrom(k, rest))
  }

  /** `length` bytes taken through `getCurrentPosition()` without a bounds check. */
  function RawBlock(rest: seq<Byte>, length: nat): (r: Result<(seq<Byte>, seq<Byte>)>)
    ensures r.Ok? <==> length <= |rest|
    ensures r.Err? ==> r.error == Overrun
    ensures r.Ok? ==> r.value.0 + r.value.1 == rest && |r.value.0| == length
  {
    if length <= |rest| then Ok((rest[..length], rest[length..])) else Err(Overrun)
  }

  /** The bytes of a `memcpy` into a `std::vector<int8_t>`: each byte as a signed char. */
  function Signed(raw: seq<Byte>): (r: seq<Int8>)
    ensures |r| == |raw|
    ensures forall i :: 0 <= i < |raw| ==> ToUnsigned(I8, r[i]) == raw[i] as int
  {
    seq(|raw|, i requires 0 <= i < |raw| => FromUnsigned(I8, raw[i] as int))
  }

  /** `std::string(key.c_str())`: the bytes before the first NUL. */
  function CString(s: seq<Byte>): (r: seq<Byte>)
    ensures r <= s
    ensures forall i :: 0 <= i < |r| ==> r[i] != 0
    ensures |r| < |s| ==> s[|r|] == 0
  {
    if |s| == 0 || s[0] == 0 then [] else [s[0]] + CString(s[1..])
  }

  /** The reader's `readUTF`: a checked 2-byte length, then the body through the current
      position, decoded as in modified_utf.hpp. */
  function ParseUtf(rest: seq<Byte>): (r: Result<(seq<Byte>, seq<Byte>)>)
    ensures r.Ok? ==> |r.value.1| < |rest|
  {
    var (length, body) :- ReadChecked(U16, rest);
    var s :- DecodeUtf(body, length);
    DecodeNeedsBody(body, length);
    Ok((s, body[length..]))
  }

  // ---------------------------------------------------------------------------------------
  // What comes back

  /** A value `readValue` returns: a tag among those `operator=` sets, holding that tag's member
      or, for the kinds that come back empty (an unknown tag, an int or long vector), nothing. */
  predicate ReadBack(v: Value)
  {
    && 1 <= v.tag <= 10
    && (v.payload == Unspecified ==> v.tag == BYTE || v.tag == INT || v.tag == LONG)
    && (v.payload != Unspecified ==> MemberKind(v.payload) == v.tag)
  }

  predicate AllReadBack(c: Compound)
  {
    forall i :: 0 <= i < |c.entries| ==> ReadBack(c.entries[i].1)
  }

  /** Moving a value read back changes nothing. */
  lemma MoveOfReadBack(target: Value, v: Value)
    requires ReadBack(v)
    ensures MoveAssigned(target, v) == v && Moved(v) == v
  {
  }

  /** A list of values read back is the same whether or not `pushBack` reallocates it. */
  lemma GrowthInvisible(l: List, v: Value)
    requires forall i :: 0 <= i < |l.elements| ==> ReadBack(l.elements[i])
    ensures PushedBack(l, v, true) == PushedBack(l, v, false)
  {
    forall i | 0 <= i < |l.elements| ensures Relocated(l.elements)[i] == l.elements[i] {
      MoveOfReadBack(Blank, l.elements[i]);
    }
  }

  /** Storing a value read back keeps every entry read back, and the keys distinct. */
  lemma StoredReadBack(c: Compound, key: Name, v: Value)
    requires DistinctKeys(c.entries) && AllReadBack(c) && ReadBack(v)
    ensures DistinctKeys(Stored(c, key, v).entries) && AllReadBack(Stored(c, key, v))
  {
    StoreSets(c, key, v);
    var slotted := Indexed(c, key);
    var i := Find(slotted, key).value;
    var r := Stored(c, key, v);
    MoveOfReadBack(slotted.entries[i].1, v);
    forall j | 0 <= j < |r.entries| ensures ReadBack(r.entries[j].1) {
      if j != i {
        assert r.entries[j] == slotted.entries[j] == c.entries[j];
      }
    }
  }

  // ---------------------------------------------------------------------------------------
  // readValue / readInto / parse

  /** `nbtValue = x` on the default `Value nbtValue;`: the tag that overload sets, and `x`. */
  function Filled(p: Payload): (v: Value)
    requires p != Unspecified
    ensures v.payload == p
    ensures MemberKind(p) <= 10 ==> v.tag == MemberKind(p)
    ensures ReadBack(Moved(v))
  {
    Assigned(Default, p)
  }

  /** `readValue(type, reader)`: the switch fills `nbtValue`, and `return std::move(nbtValue)`
      move-constructs the result. */
  function ParseValue(t: int, rest: seq<Byte>): (r: Result<(Value, seq<Byte>)>)
    ensures r.Ok? ==> |r.value.1| <= |rest|
    ensures r.Ok? ==> ReadBack(r.value.0)
    decreases |rest|, 3, 0
  {
    var (filled, after) :- ParsePayload(t, rest);
    Ok((Moved(filled), after))
  }

  /** The `switch (type)` of `readValue`: `nbtValue` after the matching case, or the default
      value when no case matches. */
  function ParsePayload(t: int, rest: seq<Byte>): (r: Result<(Value, seq<Byte>)>)
    ensures r.Ok? ==> |r.value.1| <= |rest|
    ensures r.Ok? ==> ReadBack(Moved(r.value.0))
    decreases |rest|, 2, 0
  {
    if BYTE <= t <= DOUBLE then
      var (x, after) :- ReadChecked(ScalarKind(t), rest);
      Ok((Filled(Scalar(t, x)), after))
    else if t == BYTE_ARRAY then
      var (bytes, after) :- ParseByteArray(rest);
      Ok((Filled(ByteArrayP(bytes)), after))
    else if t == STRING then
      var (s, after) :- ParseUtf(rest);
      Ok((Filled(StringP(s)), after))
    else if t == LIST then
      var (list, after) :- ParseList(rest);
      Ok((Filled(ListP(list)), after))
    else if t == COMPOUND then
      var (c, after) :- ParseInto(Compound([]), rest);
      Ok((Filled(CompoundP(c)), after))
    else if t == INT_ARRAY then
      var (xs, after) :- Checked(ReadArray(I32, rest));
      Ok((Filled(IntArrayP(xs)), after))
    else if t == LONG_ARRAY then
      var (xs, after) :- Checked(ReadArray(I64, rest));
      Ok((Filled(LongArrayP(xs)), after))
    else
      Ok((Default, rest))
  }

  /** The BYTE_ARRAY case: a checked count, then a `memcpy` of that many bytes. */
  function ParseByteArray(rest: seq<Byte>): (r: Result<(seq<Int8>, seq<Byte>)>)
    ensures r.Ok? ==> |r.value.1| < |rest|
  {
    var (count, afterCount) :- ReadChecked(I32, rest);
    if count < 0 then Err(NegativeCount)
    else
      var (raw, after) :- RawBlock(afterCount, count);
      Ok((Signed(raw), after))
  }

  /** The LIST case: a checked element tag and count, then that many payloads. */
  function ParseList(rest: seq<Byte>): (r: Result<(List, seq<Byte>)>)
    ensures r.Ok? ==> |r.value.1| < |rest|
    ensures r.Ok? ==> r.value.0.elemType == UNSET_LIST_TYPE
    decreases |rest|, 1, 0
  {
    var (listType, afterType) :- ReadChecked(I8, rest);
    var (count, afterCount) :- ReadChecked(I32, afterType);
    if count < 0 then Err(NegativeCount)
    else
      var (list, after) :- ParseElements(List(UNSET_LIST_TYPE, []), listType, afterCount, count);
      Ok((list, after))
  }

  /** The list loop: `n` more times, `list.pushBack(readValue(listType, reader))`. The vector's
      reallocations are left out: `GrowthInvisible` shows they change no value read back. */
  function ParseElements(l: List, t: int, rest: seq<Byte>, n: nat): (r: Result<(List, seq<Byte>)>)
    ensures r.Ok? ==> |r.value.1| <= |rest|
    ensures r.Ok? ==> r.value.0.elemType == l.elemType
    ensures r.Ok? ==> |r.value.0.elements| == |l.elements| + n
    ensures r.Ok? ==> r.value.0.elements[..|l.elements|] == l.elements
    decreases |rest|, 4, n
  {
    if n == 0 then Ok((l, rest))
    else
      var (v, after) :- ParseValue(t, rest);
      ParseElements(PushedBack(l, v, false), t, after, n - 1)
  }

  /** `readInto(compound, reader)`: the first tag, then the entries if it is not 0. */
  function ParseInto(c: Compound, rest: seq<Byte>): (r: Result<(Compound, seq<Byte>)>)
    ensures r.Ok? ==> |r.value.1| < |rest|
    ensures r.Ok? && DistinctKeys(c.entries) && AllReadBack(c)
            ==> DistinctKeys(r.value.0.entries) && AllReadBack(r.value.0)
    decreases |rest|, 1, 0
  {
    var (t, afterTag) :- ReadChecked(I8, rest);
    if t == 0 then Ok((c, afterTag)) else ParseEntries(c, t, afterTag)
  }

  /** One entry of `readInto`, its tag `t` already read: name length, raw name, value, stored
      under the name cut at its first NUL. */
  function ParseEntry(c: Compound, t: int, rest: seq<Byte>): (r: Result<(Compound, seq<Byte>)>)
    ensures r.Ok? ==> |r.value.1| + 2 <= |rest|
    ensures r.Ok? && DistinctKeys(c.entries) && AllReadBack(c)
            ==> DistinctKeys(r.value.0.entries) && AllReadBack(r.value.0)
    decreases |rest|, 0, 0
  {
    var (length, afterLength) :- ReadChecked(U16, rest);
    var (name, afterName) :- RawBlock(afterLength, length);
    var (v, afterValue) :- ParseValue(t, afterName);
    StoredInvariant(c, CString(name), v);
    Ok((Stored(c, CString(name), v), afterValue))
  }

  /** The `while (type != 0)` loop of `readInto`, entered with the entry tag `t` already read:
      an entry, then stop when one byte is left (`eof()`) or at a 0 tag. */
  function ParseEntries(c: Compound, t: int, rest: seq<Byte>): (r: Result<(Compound, seq<Byte>)>)
    requires t != 0
    ensures r.Ok? ==> |r.value.1| < |rest|
    ensures r.Ok? && DistinctKeys(c.entries) && AllReadBack(c)
            ==> DistinctKeys(r.value.0.entries) && AllReadBack(r.value.0)
    decreases |rest|, 1, 0
  {
    var (stored, afterValue) :- ParseEntry(c, t, rest);
    if |afterValue| == 1 then Ok((stored, afterValue))
    else
      var (next, afterNext) :- ReadChecked(I8, afterValue);
      if next == 0 then Ok((stored, afterNext)) else ParseEntries(stored, next, afterNext)
  }

  lemma StoredInvariant(c: Compound, key: Name, v: Value)
    requires ReadBack(v)
    ensures DistinctKeys(c.entries) && AllReadBack(c)
            ==> DistinctKeys(Stored(c, key, v).entries) && AllReadBack(Stored(c, key, v))
  {
    if DistinctKeys(c.entries) && AllReadBack(c) {
      StoredReadBack(c, key, v);
    }
  }

  /** The `while (!reader.eof()) readInto(compound, reader)` loop of `parse`. */
  function ParseLoop(c: Compound, rest: seq<Byte>): (r: Result<Compound>)
    ensures r.Ok? && DistinctKeys(c.entries) && AllReadBack(c)
            ==> DistinctKeys(r.value.entries) && AllReadBack(r.value)
    decreases |rest|
  {
    if |rest| == 1 then Ok(c)
    else
      var (c', rest') :- ParseInto(c, rest);
      ParseLoop(c', rest')
  }

  /** `Reader::parse(data, length, inlineRootTag)`. With `inlineRootTag` and a key "" present,
      the result is that entry's Compound (`getCompound`, which fails unless it is one). */
  function ParseDocument(data: seq<Byte>, inlineRootTag: bool): (r: Result<Compound>)
  {
    var c :- ParseLoop(Compound([]), data);
    if inlineRootTag && Contains(c, []) then
      var root := GetMember(Lookup(c, []), COMPOUND);
      match root
      case Err(e) => Err(e)
      case Ok(member) => Ok(member.compound)
    else Ok(c)
  }

  // ---------------------------------------------------------------------------------------
  // What the descent decodes

  /** A scalar tag takes its fixed width through the checked `read` and gives that kind's
      value, decoded big-endian (BYTE unchanged); too few bytes fail with `OutOfBounds`. */
  lemma ScalarRead(t: int, rest: seq<Byte>)
    requires 1 <= t <= 6
    ensures ParseValue(t, rest).Ok? <==> Size(ScalarKind(t)) <= |rest|
    ensures ParseValue(t, rest).Err? ==> ParseValue(t, rest).error == OutOfBounds
    ensures ParseValue(t, rest).Ok? ==>
              var k := ScalarKind(t);
              InRange(k, Decode(k, rest[..Size(k)])) &&
              ParseValue(t, rest).value == (Value(t, Scalar(t, Decode(k, rest[..Size(k)]))), rest[Size(k)..])
  {
    var k := ScalarKind(t);
    var checked := ReadChecked(k, rest);
    if checked.Ok? {
      var p := Scalar(t, checked.value.0);
      assert Filled(p) == Value(t, p);
      MoveOfReadBack(Blank, Value(t, p));
    }
  }

  /** A tag outside 1..12 matches no case of the switch: the default value, moved, with no
      byte consumed and no error. */
  lemma UnknownTagYieldsBlank(t: int, rest: seq<Byte>)
    requires t < BYTE || t > LONG_ARRAY
    ensures ParseValue(t, rest) == Ok((Blank, rest))
  {
  }

  /** The reader's `readUTF` agrees with `utf::readUTF` on a stream whenever the whole body is
      there; with a short body the reader fails where the stream decodes zero padding, and with
      no length it fails as a checked read. */
  lemma ReaderUtfAgreesWithStream(rest: seq<Byte>)
    ensures |rest| < 2 ==> ParseUtf(rest) == Err(OutOfBounds) && ReadUtfStream(rest) == Err(ShortRead)
    ensures |rest| >= 2 && 2 + Decode(U16, rest[..2]) <= |rest| ==> ParseUtf(rest) == ReadUtfStream(rest)
    ensures |rest| >= 2 && 2 + Decode(U16, rest[..2]) > |rest| ==> ParseUtf(rest).Err?
  {
    if |rest| >= 2 {
      var n := Decode(U16, rest[..2]);
      var body := rest[2..];
      DecodeNeedsBody(body, n);
      if n <= |body| {
        DecodeReadsOnlyBody(body, n);
        assert body[..n] + Zeros(0) == body[..n];
      }
    }
  }

  // ---------------------------------------------------------------------------------------
  // The cursor and the recursive descent, as the library runs them

  /** `ByteReader`: the input and a cursor that `read` and `advance` move forward. */
  class ByteReader {
    const data: seq<Byte>
    var index: nat

    constructor(data: seq<Byte>)
      ensures this.data == data && index == 0
    {
      this.data := data;
      index := 0;
    }

    /** The unread bytes, while the cursor is inside the input. */
    function Rest(): seq<Byte>
      requires index <= |data|
      reads this
    {
      data[index..]
    }

    /** `eof()`: true exactly when one unread byte remains. */
    predicate Eof()
      reads this
      ensures Eof() <==> index < |data| && |data[index..]| == 1
    {
      index + 1 == |data|
    }

    /** `getCurrentPosition()`: the bytes from the cursor on; none once it is past the end. */
    function CurrentPosition(): seq<Byte>
      reads this
    {
      if index <= |data| then data[index..] else []
    }

    /** `read(dst, length)`: fails without moving when fewer than `length` bytes remain. */
    method Read(length: nat) returns (r: Result<seq<Byte>>)
      modifies this
      ensures old(index) + length > |data| ==> r == Err(OutOfBounds) && index == old(index)
      ensures old(index) + length <= |data| ==> r == Ok(data[old(index)..old(index) + length])
      ensures old(index) + length <= |data| ==> index == old(index) + length
    {
      if index + length > |data| {
        return Err(OutOfBounds);
      }
      r := Ok(data[index..index + length]);
      index := index + length;
    }

    /** `advance(x)`: no check at all. */
    method Advance(x: nat)
      modifies this
      ensures index == old(index) + x
    {
      index := index + x;
    }
  }

  /** A method's outcome agrees with a specification outcome: the same error, or the same
      result with the cursor left where the specification's unread bytes begin. */
  predicate Agrees<T(==)>(r: Result<T>, reader: ByteReader, spec: Result<(T, seq<Byte>)>)
    reads reader
  {
    match spec
    case Ok((x, rest)) => r == Ok(x) && reader.index <= |reader.data| && reader.data[reader.index..] == rest
    case Err(e) => r == Err(e)
  }

  /** Where a cursor that agrees with a successful specification outcome stands. */
  lemma AgreesPosition<T>(r: Result<T>, reader: ByteReader, spec: Result<(T, seq<Byte>)>)
    requires spec.Ok? && Agrees(r, reader, spec)
    ensures reader.index <= |reader.data| && reader.index == |reader.data| - |spec.value.1|
  {
  }

  /** One checked primitive read and the byte swap. */
  method ReadPrimitive(k: Kind, reader: ByteReader) returns (r: Result<int>)
    requires reader.index <= |reader.data|
    modifies reader
    ensures Agrees(r, reader, ReadChecked(k, old(reader.Rest())))
  {
    var bytes := reader.Read(Size(k));
    if bytes.Err? {
      return Err(bytes.error);
    }
    assert bytes.value == old(reader.Rest())[..Size(k)];
    return Ok(Decode(k, bytes.value));
  }

  /** The reader's `readUTF(reader)`. */
  method ReadUtf(reader: ByteReader) returns (r: Result<seq<Byte>>)
    requires reader.index <= |reader.data|
    modifies reader
    ensures Agrees(r, reader, ParseUtf(old(reader.Rest())))
  {
    var length := ReadPrimitive(U16, reader);
    if length.Err? {
      return Err(length.error);
    }
    var utflen := length.value;
    var buffer := reader.CurrentPosition();
    reader.Advance(utflen);
    var output := DecodeBody(buffer, utflen);
    if output.Err? {
      return Err(output.error);
    }
    DecodeNeedsBody(buffer, utflen);
    return Ok(output.value);
  }

  /** The BYTE_ARRAY case of `readValue`. */
  method ReadByteArray(reader: ByteReader) returns (r: Result<seq<Int8>>)
    requires reader.index <= |reader.data|
    modifies reader
    ensures Agrees(r, reader, ParseByteArray(old(reader.Rest())))
  {
    var length := ReadPrimitive(I32, reader);
    if length.Err? {
      return Err(length.error);
    }
    var arrayLength := length.value;
    if arrayLength < 0 {
      return Err(NegativeCount);
    }
    var block := RawBlock(reader.CurrentPosition(), arrayLength);
    if block.Err? {
      return Err(block.error);
    }
    reader.Advance(arrayLength);
    return Ok(Signed(block.value.0));
  }

  /** The INT_ARRAY and LONG_ARRAY cases of `readValue`: a checked count, then a vector of that
      many elements filled one checked read at a time. */
  method ReadNumbers(k: Kind, reader: ByteReader) returns (r: Result<seq<int>>)
    requires k == I32 || k == I64
    requires reader.index <= |reader.data|
    modifies reader
    ensures Agrees(r, reader, Checked(ReadArray(k, old(reader.Rest()))))
  {
    var length := ReadPrimitive(I32, reader);
    if length.Err? {
      return Err(length.error);
    }
    var arrayLength := length.value;
    if arrayLength < 0 {
      return Err(NegativeCount);
    }
    var buffer := new int[arrayLength];
    var filled := FillNumbers(k, reader, buffer);
    if filled.Err? {
      return Err(filled.error);
    }
    return Ok(buffer[..]);
  }

  /** The element loop of the INT_ARRAY and LONG_ARRAY cases: `buffer[i]` from one checked read. */
  method FillNumbers(k: Kind, reader: ByteReader, buffer: array<int>) returns (r: Result<()>)
    requires reader.index <= |reader.data|
    modifies reader, buffer
    ensures r.Ok? ==> reader.index <= |reader.data|
    ensures r.Ok? ==> ReadElements(k, old(reader.Rest()), buffer.Length) == Ok((buffer[..], reader.Rest()))
    ensures r.Err? ==> r.error == OutOfBounds && ReadElements(k, old(reader.Rest()), buffer.Length).Err?
  {
    ghost var target := ReadElements(k, reader.Rest(), buffer.Length);
    ghost var done: seq<int> := [];
    ghost var left: nat := buffer.Length;
    Primitive.PrefixedNothing(target);
    var i := 0;
    while i < buffer.Length
      invariant 0 <= i <= buffer.Length && left == buffer.Length - i
      invariant reader.index <= |reader.data|
      invariant |done| == i && forall j :: 0 <= j < i ==> buffer[j] == done[j]
      invariant target == Prefixed(done, ReadElements(k, reader.Rest(), left))
    {
      var element := ReadNumber(k, reader, done, left);
      if element.Err? {
        assert target.Err?;
        return Err(element.error);
      }
      ghost var rest := reader.Rest();
      buffer[i] := element.value;
      assert reader.Rest() == rest;
      done := done + [element.value];
      left := left - 1;
      i := i + 1;
    }
    assert buffer[..] == done;
    PrefixedAll(done, reader.Rest());
    return Ok(());
  }

  /** One pass of that loop: the checked read of one element, as a step of `ReadElements`
      after the elements `xs` already read. */
  method ReadNumber(k: Kind, reader: ByteReader, ghost xs: seq<int>, ghost n: nat) returns (r: Result<int>)
    requires reader.index <= |reader.data| && n > 0
    modifies reader
    ensures r.Ok? ==> reader.index <= |reader.data|
    ensures r.Ok? ==> (Prefixed(xs, ReadElements(k, old(reader.Rest()), n))
                       == Prefixed(xs + [r.value], ReadElements(k, reader.Rest(), n - 1)))
    ensures r.Err? ==> (r.error == OutOfBounds
                        && Prefixed(xs, ReadElements(k, old(reader.Rest()), n)) == Err(ShortRead))
  {
    ghost var before := reader.Rest();
    r := ReadPrimitive(k, reader);
    if ReadChecked(k, before).Ok? {
      PrefixedStep(k, xs, before, n);
    }
  }

  /** `readValue(type, reader)`: `Value nbtValue;`, the switch, `return std::move(nbtValue)`. */
  method ReadValue(t: int, reader: ByteReader) returns (r: Result<Value>)
    requires reader.index <= |reader.data|
    modifies reader
    ensures Agrees(r, reader, ParseValue(t, old(reader.Rest())))
    decreases |reader.data| - reader.index, 3, 0
  {
    var nbtValue := new ValueObject.Empty();
    var filled := ReadPayload(t, reader, nbtValue);
    if filled.Err? {
      return Err(filled.error);
    }
    var moved := new ValueObject.Move(nbtValue);
    return Ok(moved.Model());
  }

  /** The `switch (type)` of `readValue`, assigning to `nbtValue` in place. */
  method ReadPayload(t: int, reader: ByteReader, nbtValue: ValueObject) returns (r: Result<Value>)
    requires reader.index <= |reader.data|
    requires nbtValue.Model() == Default
    modifies reader, nbtValue
    ensures Agrees(r, reader, ParsePayload(t, old(reader.Rest())))
    ensures r.Ok? ==> nbtValue.Model() == r.value
    decreases |reader.data| - reader.index, 2, 0
  {
    if t == BYTE || t == SHORT || t == INT || t == LONG || t == FLOAT || t == DOUBLE {
      var k := ScalarKind(t);
      var x := ReadPrimitive(k, reader);
      if x.Err? {
        return Err(x.error);
      }
      nbtValue.Assign(Scalar(t, x.value));
    } else if t == BYTE_ARRAY {
      var bytes := ReadByteArray(reader);
      if bytes.Err? {
        return Err(bytes.error);
      }
      nbtValue.Assign(ByteArrayP(bytes.value));
    } else if t == STRING {
      var s := ReadUtf(reader);
      if s.Err? {
        return Err(s.error);
      }
      nbtValue.Assign(StringP(s.value));
    } else if t == LIST {
      var list := ReadList(reader);
      if list.Err? {
        return Err(list.error);
      }
      nbtValue.Assign(ListP(list.value));
    } else if t == COMPOUND {
      var elementCompound := new CompoundObject();
      var done := ReadInto(elementCompound, reader);
      if done.Err? {
        return Err(done.error);
      }
      nbtValue.Assign(CompoundP(elementCompound.Model()));
    } else if t == INT_ARRAY || t == LONG_ARRAY {
      var k := if t == INT_ARRAY then I32 else I64;
      var xs := ReadNumbers(k, reader);
      if xs.Err? {
        return Err(xs.error);
      }
      nbtValue.Assign(if t == INT_ARRAY then IntArrayP(xs.value) else LongArrayP(xs.value));
    }
    return Ok(nbtValue.Model());
  }

  /** The LIST case of `readValue`: `List list;`, then `pushBack` per element. */
  method ReadList(reader: ByteReader) returns (r: Result<List>)
    requires reader.index <= |reader.data|
    modifies reader
    ensures Agrees(r, reader, ParseList(old(reader.Rest())))
    decreases |reader.data| - reader.index, 1, 0
  {
    var listType := ReadPrimitive(I8, reader);
    if listType.Err? {
      return Err(listType.error);
    }
    var length := ReadPrimitive(I32, reader);
    if length.Err? {
      return Err(length.error);
    }
    var arrayLength := length.value;
    if arrayLength < 0 {
      return Err(NegativeCount);
    }
    r := ReadListElements(listType.value, reader, arrayLength);
  }

  /** The loop of the LIST case: `count` times, `list.pushBack(readValue(listType, reader))`. */
  method ReadListElements(t: int, reader: ByteReader, count: nat) returns (r: Result<List>)
    requires reader.index <= |reader.data|
    modifies reader
    ensures Agrees(r, reader, ParseElements(List(UNSET_LIST_TYPE, []), t, old(reader.Rest()), count))
    decreases |reader.data| - reader.index, 4, 0
  {
    ghost var target := ParseElements(List(UNSET_LIST_TYPE, []), t, reader.Rest(), count);
    ghost var left := count;
    var list := new ListObject(UNSET_LIST_TYPE);
    var i := 0;
    while i < count
      invariant 0 <= i <= count && left == count - i
      invariant old(reader.index) <= reader.index <= |reader.data|
      invariant target == ParseElements(list.Model(), t, reader.Rest(), left)
    {
      ghost var before, unread := list.Model(), reader.Rest();
      var pushed := ReadListElement(t, reader, list, left);
      if pushed.Err? {
        return Err(pushed.error);
      }
      assert target == ParseElements(before, t, unread, left);
      left := left - 1;
      i := i + 1;
    }
    return Ok(list.Model());
  }

  /** One pass of that loop: `readValue`, then `pushBack` of the value read. */
  method ReadListElement(t: int, reader: ByteReader, list: ListObject, ghost n: nat) returns (r: Result<()>)
    requires reader.index <= |reader.data| && n > 0
    modifies reader, list
    ensures r.Ok? ==> old(reader.index) <= reader.index <= |reader.data|
    ensures r.Ok? ==> (ParseElements(old(list.Model()), t, old(reader.Rest()), n)
                       == ParseElements(list.Model(), t, reader.Rest(), n - 1))
    ensures r.Err? ==> ParseElements(old(list.Model()), t, old(reader.Rest()), n) == Err(r.error)
    decreases |reader.data| - reader.index, 3, 1
  {
    var element := ReadValue(t, reader);
    if element.Err? {
      return Err(element.error);
    }
    list.PushBack(element.value, false);
    return Ok(());
  }

  /** A compound method's outcome agrees with a specification outcome: the same error, or
      the compound holding the specified entries and the cursor where the unread bytes begin. */
  predicate Lands(r: Result<()>, compound: CompoundObject, reader: ByteReader,
                  spec: Result<(Compound, seq<Byte>)>)
    reads compound, reader
  {
    match spec
    case Ok((c, rest)) =>
      r.Ok? && compound.Model() == c && reader.index <= |reader.data| && reader.data[reader.index..] == rest
    case Err(e) => r == Err(e)
  }

  /** `readInto(compound, reader)`. */
  method ReadInto(compound: CompoundObject, reader: ByteReader) returns (r: Result<()>)
    requires reader.index <= |reader.data|
    requires compound.Valid()
    modifies compound, reader
    ensures compound.Valid()
    ensures Lands(r, compound, reader, ParseInto(old(compound.Model()), old(reader.Rest())))
    decreases |reader.data| - reader.index, 1, 0
  {
    ghost var spec := ParseInto(compound.Model(), reader.Rest());
    var first := ReadPrimitive(I8, reader);
    if first.Err? {
      return Err(first.error);
    }
    var t := first.value;
    while t != 0
      invariant reader.index <= |reader.data|
      invariant compound.Valid()
      invariant spec == if t == 0 then Ok((compound.Model(), reader.Rest()))
                        else ParseEntries(compound.Model(), t, reader.Rest())
      decreases |reader.data| - reader.index
    {
      var entry := ReadEntry(compound, t, reader);
      if entry.Err? {
        return entry;
      }
      if reader.Eof() {
        return Ok(());
      }
      var next := ReadPrimitive(I8, reader);
      if next.Err? {
        return Err(next.error);
      }
      t := next.value;
    }
    return Ok(());
  }

  /** One pass of the `readInto` loop up to the `eof()` test. */
  method ReadEntry(compound: CompoundObject, t: int, reader: ByteReader) returns (r: Result<()>)
    requires reader.index <= |reader.data|
    requires compound.Valid()
    modifies compound, reader
    ensures compound.Valid()
    ensures Lands(r, compound, reader, ParseEntry(old(compound.Model()), t, old(reader.Rest())))
    decreases |reader.data| - reader.index, 0, 0
  {
    ghost var start := reader.index;
    var length := ReadPrimitive(U16, reader);
    if length.Err? {
      return Err(length.error);
    }
    AgreesPosition(length, reader, ReadChecked(U16, old(reader.Rest())));
    assert reader.index == start + 2;
    var stringLength := length.value;
    var key := RawBlock(reader.CurrentPosition(), stringLength);
    if key.Err? {
      return Err(key.error);
    }
    reader.Advance(stringLength);
    assert start < reader.index <= |reader.data|;
    var value := ReadValue(t, reader);
    if value.Err? {
      return Err(value.error);
    }
    compound.Store(CString(key.value.0), value.value);
    return Ok(());
  }

  /** `Reader::parse(data, length, inlineRootTag)`. */
  method Parse(data: seq<Byte>, inlineRootTag: bool) returns (r: Result<Compound>)
    ensures r == ParseDocument(data, inlineRootTag)
  {
    var compound := new CompoundObject();
    var reader := new ByteReader(data);
    while !reader.Eof()
      invariant reader.data == data && reader.index <= |data|
      invariant compound.Valid()
      invariant ParseLoop(Compound([]), data) == ParseLoop(compound.Model(), reader.Rest())
      decreases |data| - reader.index
    {
      var step := ReadInto(compound, reader);
      if step.Err? {
        return Err(step.error);
      }
    }
    if inlineRootTag && compound.HasKey([]) {
      var slot := compound.Index([]);
      var root := GetMember(compound.entries[slot].1, COMPOUND);
      if root.Err? {
        return Err(root.error);
      }
      return Ok(root.value.compound);
    }
    return Ok(compound.Model());
  }

  /** The scalar payload a tag's case assigns. */
  function Scalar(t: int, x: int): (p: Payload)
    requires 1 <= t <= 6 && InRange(ScalarKind(t), x)
    ensures p != Unspecified && MemberKind(p) == t
  {
    match t
    case 1 => ByteP(x)
    case 2 => ShortP(x)
    case 3 => IntP(x)
    case 4 => LongP(x)
    case 5 => FloatP(x)
    case 6 => DoubleP(x)
  }
}
