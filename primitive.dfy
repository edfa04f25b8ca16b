/** Fixed-width big-endian codec (src/primitive.hpp).

    `Primitive<T>::writeTo` copies the memory image of `hostToNetwork(value)` into the stream;
    on the little-endian hosts the library targets, `hostToNetwork` is a byte swap, so the image
    is the value's little-endian image reversed. `readFrom` does the inverse and then casts the
    unsigned word to `T`. A float or double is carried as its raw 32- or 64-bit pattern. */
module Primitive {
  import opened Wrappers

  newtype Byte = x: int | 0 <= x < 0x100

  type Int8 = x: int | -0x80 <= x < 0x80
  type Int16 = x: int | -0x8000 <= x < 0x8000
  type Int32 = x: int | -0x8000_0000 <= x < 0x8000_0000
  type Int64 = x: int | -0x8000_0000_0000_0000 <= x < 0x8000_0000_0000_0000
  /** The bit pattern of a float or a double. */
  type Word32 = x: int | 0 <= x < 0x1_0000_0000
  type Word64 = x: int | 0 <= x < 0x1_0000_0000_0000_0000

  /** The specialisations of `Primitive<T>`: int8, int16, uint16, int32, int64, float, double. */
  datatype Kind = I8 | I16 | U16 | I32 | I64 | F32 | F64

  /** `Primitive<T>::getSize()`, that is `sizeof(T)`. */
  function Size(k: Kind): nat
  {
    match k
    case I8 => 1
    case I16 => 2
    case U16 => 2
    case I32 => 4
    case I64 => 8
    case F32 => 4
    case F64 => 8
  }

  function Pow256(n: nat): (p: nat)
    ensures p >= 1
  {
    if n == 0 then 1 else 256 * Pow256(n - 1)
  }

  /** Number of distinct values of a `k`: 2 to the power 8 * sizeof. */
  function Modulus(k: Kind): nat
  {
    match k
    case I8 => 0x100
    case I16 => 0x1_0000
    case U16 => 0x1_0000
    case I32 => 0x1_0000_0000
    case I64 => 0x1_0000_0000_0000_0000
    case F32 => 0x1_0000_0000
    case F64 => 0x1_0000_0000_0000_0000
  }

  predicate IsSigned(k: Kind)
  {
    k == I8 || k == I16 || k == I32 || k == I64
  }

  /** The values a `k` holds: two's-complement range, or the unsigned (bit-pattern) range. */
  predicate InRange(k: Kind, v: int)
  {
    if IsSigned(k) then -(Modulus(k) / 2) <= v < Modulus(k) / 2 else 0 <= v < Modulus(k)
  }

  /** `static_cast` of a `k` to the unsigned type of the same width. */
  function ToUnsigned(k: Kind, v: int): (u: nat)
    ensures u < Modulus(k)
  {
    v % Modulus(k)
  }

  /** `static_cast` of an unsigned word back to a `k`. */
  function FromUnsigned(k: Kind, u: nat): (v: int)
    requires u < Modulus(k)
    ensures InRange(k, v)
  {
    if IsSigned(k) && u >= Modulus(k) / 2 then u - Modulus(k) else u
  }

  /** `static_cast<int32_t>` of a `size_t` count. */
  function Int32Cast(n: nat): Int32
  {
    FromUnsigned(I32, n % 0x1_0000_0000)
  }

  /** The `n`-byte memory image of the unsigned word `u` on a little-endian host. */
  function HostBytes(u: nat, n: nat): (r: seq<Byte>)
    ensures |r| == n
  {
    if n == 0 then [] else [(u % 256) as Byte] + HostBytes(u / 256, n - 1)
  }

  /** The unsigned word a little-endian host loads from the memory image `bs`. */
  function HostValue(bs: seq<Byte>): nat
  {
    if |bs| == 0 then 0 else bs[0] as int + 256 * HostValue(bs[1..])
  }

  function Reverse(bs: seq<Byte>): (r: seq<Byte>)
    ensures |r| == |bs|
  {
    if |bs| == 0 then [] else Reverse(bs[1..]) + [bs[0]]
  }

  /** Reference reading of a byte string: most significant byte first. */
  function BigEndian(bs: seq<Byte>): nat
  {
    if |bs| == 0 then 0 else BigEndian(bs[..|bs| - 1]) * 256 + bs[|bs| - 1] as int
  }

  /** The bytes `Primitive<T>::writeTo(out, v)` appends: the raw byte for int8, otherwise the
      memory image of `hostToNetwork(v)`. */
  function Encode(k: Kind, v: int): seq<Byte>
    requires InRange(k, v)
  {
    var image := HostBytes(ToUnsigned(k, v), Size(k));
    if k == I8 then image else Reverse(image)
  }

  /** The value `Primitive<T>::readFrom` makes of the `sizeof(T)` bytes it reads. */
  function Decode(k: Kind, bs: seq<Byte>): int
    requires |bs| == Size(k)
  {
    var word := if k == I8 then HostValue(bs) else HostValue(Reverse(bs));
    HostValueBound(bs);
    HostValueBound(Reverse(bs));
    ModulusIsPower(k);
    FromUnsigned(k, word)
  }

  /** `Primitive<T>::readFrom(in)` on a stream holding the bytes `in`: the value and what is left.
      On a short stream the C++ sets `failbit` and returns an indeterminate value; `ShortRead`
      stands in for that outcome. */
  function ReadFrom(k: Kind, input: seq<Byte>): (r: Result<(int, seq<Byte>)>)
    ensures r.Ok? <==> Size(k) <= |input|
    ensures r.Ok? ==> InRange(k, r.value.0) && r.value.1 == input[Size(k)..]
    ensures r.Err? ==> r.error == ShortRead
  {
    if |input| < Size(k) then Err(ShortRead)
    else Ok((Decode(k, input[..Size(k)]), input[Size(k)..]))
  }

  // ---------------------------------------------------------------------------------------
  // Byte-order facts

  lemma {:induction false} HostValueBound(bs: seq<Byte>)
    ensures HostValue(bs) < Pow256(|bs|)
  {
    if |bs| > 0 {
      HostValueBound(bs[1..]);
    }
  }

  lemma ModulusIsPower(k: Kind)
    ensures Modulus(k) == Pow256(Size(k))
  {
    assert Pow256(2) == 0x1_0000;
    assert Pow256(4) == 0x1_0000_0000 by {
      assert Pow256(3) == 0x100_0000;
    }
    assert Pow256(8) == 0x1_0000_0000_0000_0000 by {
      assert Pow256(5) == 0x1_00_0000_0000;
      assert Pow256(6) == 0x1_0000_0000_0000;
      assert Pow256(7) == 0x100_0000_0000_0000;
    }
  }

  lemma {:induction false} HostValueOfHostBytes(u: nat, n: nat)
    requires u < Pow256(n)
    ensures HostValue(HostBytes(u, n)) == u
  {
    if n > 0 {
      var q := u / 256;
      var bs := HostBytes(u, n);
      assert bs == [(u % 256) as Byte] + HostBytes(q, n - 1);
      assert bs[1..] == HostBytes(q, n - 1);
      assert q < Pow256(n - 1);
      HostValueOfHostBytes(q, n - 1);
      assert HostValue(bs) == bs[0] as int + 256 * q;
    }
  }

  lemma {:induction false} HostBytesOfHostValue(bs: seq<Byte>)
    ensures HostBytes(HostValue(bs), |bs|) == bs
  {
    if |bs| > 0 {
      HostBytesOfHostValue(bs[1..]);
      var u := HostValue(bs);
      assert u % 256 == bs[0] as int;
      assert u / 256 == HostValue(bs[1..]);
      assert ((u % 256) as Byte) == bs[0];
    }
  }

  lemma {:induction false} ReverseReverse(bs: seq<Byte>)
    ensures Reverse(Reverse(bs)) == bs
  {
    if |bs| > 0 {
      ReverseAppend(Reverse(bs[1..]), [bs[0]]);
      ReverseReverse(bs[1..]);
      assert Reverse([bs[0]]) == [bs[0]];
      assert bs == [bs[0]] + bs[1..];
    }
  }

  lemma {:induction false} ReverseAppend(a: seq<Byte>, b: seq<Byte>)
    ensures Reverse(a + b) == Reverse(b) + Reverse(a)
  {
    if |a| == 0 {
      assert a + b == b;
    } else {
      assert (a + b)[1..] == a[1..] + b;
      ReverseAppend(a[1..], b);
    }
  }

  lemma {:induction false} BigEndianOfReverse(bs: seq<Byte>)
    ensures BigEndian(Reverse(bs)) == HostValue(bs)
  {
    if |bs| > 0 {
      var r := Reverse(bs);
      assert r[..|r| - 1] == Reverse(bs[1..]);
      BigEndianOfReverse(bs[1..]);
    }
  }

  lemma {:induction false} HostBytesOfSmall(u: nat, n: nat, m: nat)
    requires u < Pow256(n)
    ensures HostBytes(u, n + m) == HostBytes(u, n) + HostBytes(0, m)
  {
    if n > 0 {
      HostBytesOfSmall(u / 256, n - 1, m);
    } else {
      assert u == 0;
    }
  }

  /** Signed and unsigned casts are inverse on a kind's range. */
  lemma CastRoundTrip(k: Kind, v: int)
    requires InRange(k, v)
    ensures FromUnsigned(k, ToUnsigned(k, v)) == v
  {
  }

  lemma CastRoundTripWord(k: Kind, u: nat)
    requires u < Modulus(k)
    ensures ToUnsigned(k, FromUnsigned(k, u)) == u
  {
  }

  // ---------------------------------------------------------------------------------------
  // Primitive<T>: layout and round trips

  /** The image of one value is `sizeof(T)` bytes long. */
  lemma EncodeLength(k: Kind, v: int)
    requires InRange(k, v)
    ensures |Encode(k, v)| == Size(k)
  {
    EncodeLayout(k, v);
  }

  /** `writeTo` emits exactly `getSize()` bytes, most significant first (int8: its one byte). */
  lemma EncodeLayout(k: Kind, v: int)
    requires InRange(k, v)
    ensures |Encode(k, v)| == Size(k)
    ensures BigEndian(Encode(k, v)) == ToUnsigned(k, v)
    ensures k == I8 ==> Encode(k, v) == [ToUnsigned(k, v) as Byte]
  {
    var image := HostBytes(ToUnsigned(k, v), Size(k));
    ModulusIsPower(k);
    HostValueOfHostBytes(ToUnsigned(k, v), Size(k));
    if k == I8 {
      assert BigEndian(image) == BigEndian(image[..0]) * 256 + image[0] as int;
    } else {
      BigEndianOfReverse(image);
    }
  }

  /** `readFrom` applied to what `writeTo` emitted returns the value and leaves the rest. */
  lemma ReadAfterWrite(k: Kind, v: int, rest: seq<Byte>)
    requires InRange(k, v)
    ensures ReadFrom(k, Encode(k, v) + rest) == Ok((v, rest))
  {
    var u := ToUnsigned(k, v);
    var image := HostBytes(u, Size(k));
    var input := Encode(k, v) + rest;
    EncodeLayout(k, v);
    assert input[..Size(k)] == Encode(k, v);
    assert input[Size(k)..] == rest;
    ModulusIsPower(k);
    HostValueOfHostBytes(u, Size(k));
    if k != I8 {
      ReverseReverse(image);
    }
    assert Decode(k, Encode(k, v)) == FromUnsigned(k, u);
    CastRoundTrip(k, v);
  }

  /** Every `sizeof(T)` bytes are the image of exactly the value `readFrom` makes of them. */
  lemma EncodeAfterDecode(k: Kind, bs: seq<Byte>)
    requires |bs| == Size(k)
    ensures InRange(k, Decode(k, bs)) && Encode(k, Decode(k, bs)) == bs
  {
    var word := if k == I8 then HostValue(bs) else HostValue(Reverse(bs));
    HostValueBound(bs);
    HostValueBound(Reverse(bs));
    ModulusIsPower(k);
    CastRoundTripWord(k, word);
    if k == I8 {
      HostBytesOfHostValue(bs);
    } else {
      HostBytesOfHostValue(Reverse(bs));
      ReverseReverse(bs);
    }
  }

  /** A value with the upper half of a 64-bit word clear has its 32-bit image after four zero bytes. */
  lemma {:induction false} WideningAddsZeros(v: int)
    requires 0 <= v < 0x8000_0000
    ensures Encode(I64, v) == [0, 0, 0, 0] + Encode(I32, v)
  {
    assert ToUnsigned(I64, v) == v && ToUnsigned(I32, v) == v;
    var low := HostBytes(v, 4);
    var zeros := HostBytes(0, 4);
    ModulusIsPower(I32);
    HostBytesOfSmall(v, 4, 4);
    assert HostBytes(v, 8) == low + zeros;
    ReverseAppend(low, zeros);
    assert Reverse(zeros) == [0, 0, 0, 0];
  }

  // ---------------------------------------------------------------------------------------
  // Array<T>

  predicate AllInRange(k: Kind, values: seq<int>)
  {
    forall i :: 0 <= i < |values| ==> InRange(k, values[i])
  }

  /** Concatenated images of `values`, element by element. */
  function ElementsBytes(k: Kind, values: seq<int>): seq<Byte>
    requires AllInRange(k, values)
  {
    if |values| == 0 then []
    else
      Encode(k, values[0]) + ElementsBytes(k, values[1..])
  }

  /** The kind through which `Array<T>::writeTo` writes the element count: int32, except for
      `Array<int64_t>`, which passes the count to `Primitive<int64_t>::writeTo`. */
  function CountKind(k: Kind): Kind
  {
    if k == I64 then I64 else I32
  }

  predicate IsArrayKind(k: Kind)
  {
    k == I8 || k == I32 || k == I64
  }

  /** What `Array<T>::writeTo(out, values, length)` appends. */
  function ArrayBytes(k: Kind, values: seq<int>): seq<Byte>
    requires IsArrayKind(k)
    requires AllInRange(k, values)
  {
    Encode(CountKind(k), Int32Cast(|values|)) + ElementsBytes(k, values)
  }

  /** `Array<int32_t>::writeTo` and `Array<int64_t>::writeTo`: the count, then one
      `Primitive<T>::writeTo` per element. */
  method WriteArray(k: Kind, values: seq<int>) returns (bytes: seq<Byte>)
    requires k == I32 || k == I64
    requires AllInRange(k, values)
    ensures bytes == ArrayBytes(k, values)
  {
    bytes := Encode(CountKind(k), Int32Cast(|values|));
    bytes := WriteElements(k, values, bytes);
  }

  /** The loop of `Array<T>::writeTo`: one `Primitive<T>::writeTo` per element, after `out`. */
  method WriteElements(k: Kind, values: seq<int>, out: seq<Byte>) returns (bytes: seq<Byte>)
    requires AllInRange(k, values)
    ensures bytes == out + ElementsBytes(k, values)
  {
    bytes := out;
    var i := 0;
    ElementsPrefix(k, values, 0, out);
    while i < |values|
      invariant 0 <= i <= |values|
      invariant AllInRange(k, values[..i])
      invariant bytes == out + ElementsBytes(k, values[..i])
    {
      ElementsPrefix(k, values, i, out);
      bytes := bytes + Encode(k, values[i]);
      i := i + 1;
    }
    assert values[..i] == values;
  }

  /** After `out`, the images of the first `i + 1` elements are those of the first `i`, then
      element `i`'s. */
  lemma ElementsPrefix(k: Kind, values: seq<int>, i: nat, out: seq<Byte>)
    requires AllInRange(k, values) && i <= |values|
    ensures AllInRange(k, values[..i])
    ensures i == 0 ==> out + ElementsBytes(k, values[..i]) == out
    ensures i < |values| ==> AllInRange(k, values[..i + 1])
    ensures i < |values| ==> out + ElementsBytes(k, values[..i]) + Encode(k, values[i])
                             == out + ElementsBytes(k, values[..i + 1])
  {
    if i == 0 {
      assert values[..i] == [];
    }
    if i < |values| {
      var done := values[..i];
      var next := [values[i]];
      assert values[..i + 1] == done + next;
      ElementsBytesAppend(k, done, next);
      assert ElementsBytes(k, next) == Encode(k, values[i]) by {
        assert next[1..] == [];
      }
    }
  }

  /** `n` elements read one `Primitive<T>::readFrom` at a time. */
  function ReadElements(k: Kind, input: seq<Byte>, n: nat): (r: Result<(seq<int>, seq<Byte>)>)
    ensures r.Ok? ==> |r.value.0| == n
    ensures r.Ok? ==> AllInRange(k, r.value.0)
    ensures r.Ok? ==> |r.value.1| <= |input|
    ensures r.Err? ==> r.error == ShortRead
  {
    if n == 0 then Ok(([], input))
    else
      var (x, rest) :- ReadFrom(k, input);
      var (xs, rest') :- ReadElements(k, rest, n - 1);
      Ok(([x] + xs, rest'))
  }

  /** `Array<T>::readFrom(in)`: a 4-byte count, then that many elements. A negative count makes
      the `std::vector` constructor fail. */
  function ReadArray(k: Kind, input: seq<Byte>): (r: Result<(seq<int>, seq<Byte>)>)
    requires IsArrayKind(k)
    ensures r.Ok? ==> AllInRange(k, r.value.0) && |r.value.1| < |input|
    ensures r.Err? ==> r.error == ShortRead || r.error == NegativeCount
  {
    var (count, rest) :- ReadFrom(I32, input);
    if count < 0 then Err(NegativeCount) else ReadElements(k, rest, count)
  }

  /** `Array<int32_t>::readFrom` and `Array<int64_t>::readFrom`: fill a vector of `count`
      elements in place, one element per iteration. */
  method ReadArrayFrom(k: Kind, input: seq<Byte>) returns (r: Result<(seq<int>, seq<Byte>)>)
    requires k == I32 || k == I64
    ensures r == ReadArray(k, input)
  {
    var header := ReadFrom(I32, input);
    if header.Err? {
      return Err(header.error);
    }
    var count := header.value.0;
    if count < 0 {
      return Err(NegativeCount);
    }
    r := FillVector(k, header.value.1, count);
  }

  /** The loop of `Array<T>::readFrom`: `std::vector<T> vector(count)`, then `vector[i]` from
      one `Primitive<T>::readFrom` per iteration. */
  method FillVector(k: Kind, input: seq<Byte>, count: nat) returns (r: Result<(seq<int>, seq<Byte>)>)
    ensures r == ReadElements(k, input, count)
  {
    var vector := new int[count];
    var rest := input;
    var i := 0;
    ghost var done: seq<int> := [];
    PrefixedNothing(ReadElements(k, rest, count));
    while i < count
      invariant 0 <= i <= count
      invariant |done| == i && forall j :: 0 <= j < i ==> vector[j] == done[j]
      invariant ReadElements(k, input, count) == Prefixed(done, ReadElements(k, rest, count - i))
    {
      var element := ReadFrom(k, rest);
      ReadStep(k, done, rest, count - i);
      if element.Err? {
        return Err(element.error);
      }
      vector[i] := element.value.0;
      done := done + [element.value.0];
      rest := element.value.1;
      i := i + 1;
    }
    assert vector[..] == done;
    PrefixedAll(done, rest);
    return Ok((vector[..], rest));
  }

  /** `r` with `xs` put in front of the elements it read. */
  function Prefixed(xs: seq<int>, r: Result<(seq<int>, seq<Byte>)>): Result<(seq<int>, seq<Byte>)>
  {
    match r
    case Ok((ys, rest)) => Ok((xs + ys, rest))
    case Err(e) => Err(e)
  }

  lemma PrefixedNothing(r: Result<(seq<int>, seq<Byte>)>)
    ensures Prefixed([], r) == r
  {
    if r.Ok? {
      assert [] + r.value.0 == r.value.0;
    }
  }

  lemma PrefixedStep(k: Kind, xs: seq<int>, input: seq<Byte>, n: nat)
    requires n > 0 && ReadFrom(k, input).Ok?
    ensures Prefixed(xs, ReadElements(k, input, n))
         == Prefixed(xs + [ReadFrom(k, input).value.0],
                     ReadElements(k, ReadFrom(k, input).value.1, n - 1))
  {
    var tail := ReadElements(k, ReadFrom(k, input).value.1, n - 1);
    if tail.Ok? {
      assert xs + ([ReadFrom(k, input).value.0] + tail.value.0)
          == xs + [ReadFrom(k, input).value.0] + tail.value.0;
    }
  }

  lemma PrefixedAll(xs: seq<int>, rest: seq<Byte>)
    ensures Prefixed(xs, Ok(([], rest))) == Ok((xs, rest))
  {
    assert xs + [] == xs;
  }

  /** One more element read: a failed read fails the rest, a good one puts its value in front. */
  lemma ReadStep(k: Kind, xs: seq<int>, input: seq<Byte>, n: nat)
    requires n > 0
    ensures ReadFrom(k, input).Err? ==> Prefixed(xs, ReadElements(k, input, n)) == Err(ShortRead)
    ensures ReadFrom(k, input).Ok? ==>
              Prefixed(xs, ReadElements(k, input, n))
              == Prefixed(xs + [ReadFrom(k, input).value.0], ReadElements(k, ReadFrom(k, input).value.1, n - 1))
  {
    if ReadFrom(k, input).Ok? {
      PrefixedStep(k, xs, input, n);
    }
  }

  /** Reading back a byte or int array that `writeTo` wrote returns the same elements. */
  lemma {:induction false} ReadElementsAfterWrite(k: Kind, values: seq<int>, rest: seq<Byte>)
    requires AllInRange(k, values)
    ensures ReadElements(k, ElementsBytes(k, values) + rest, |values|) == Ok((values, rest))
  {
    if |values| > 0 {
      var head := values[0];
      var tail := values[1..];
      assert ElementsBytes(k, values) == Encode(k, head) + ElementsBytes(k, tail);
      Assoc(Encode(k, head), ElementsBytes(k, tail), rest);
      ReadAfterWrite(k, head, ElementsBytes(k, tail) + rest);
      ReadElementsAfterWrite(k, tail, rest);
      HeadAndTail(values);
    } else {
      assert ElementsBytes(k, values) + rest == rest;
    }
  }

  lemma {:induction false} ElementsBytesAppend(k: Kind, a: seq<int>, b: seq<int>)
    requires AllInRange(k, a) && AllInRange(k, b)
    ensures AllInRange(k, a + b)
    ensures ElementsBytes(k, a + b) == ElementsBytes(k, a) + ElementsBytes(k, b)
  {
    if |a| == 0 {
      assert a + b == b;
    } else {
      assert (a + b)[0] == a[0] && (a + b)[1..] == a[1..] + b;
      ElementsBytesAppend(k, a[1..], b);
      assert ElementsBytes(k, a + b) == Encode(k, a[0]) + ElementsBytes(k, a[1..] + b);
      Assoc(Encode(k, a[0]), ElementsBytes(k, a[1..]), ElementsBytes(k, b));
    }
  }

  /** `Array<int8_t>` and `Array<int32_t>` round-trip: `readFrom` returns the vector that
      `writeTo` wrote, for every vector whose size fits the 32-bit count. */
  lemma ArrayRoundTrip(k: Kind, values: seq<int>, rest: seq<Byte>)
    requires k == I8 || k == I32
    requires |values| < 0x8000_0000
    requires AllInRange(k, values)
    ensures ReadArray(k, ArrayBytes(k, values) + rest) == Ok((values, rest))
  {
    var count := Int32Cast(|values|);
    assert count == |values|;
    assert ArrayBytes(k, values) + rest == Encode(I32, count) + (ElementsBytes(k, values) + rest);
    ReadAfterWrite(I32, count, ElementsBytes(k, values) + rest);
    ReadElementsAfterWrite(k, values, rest);
  }

  /** `Array<int64_t>` does not round-trip: the 8-byte count starts with four zero bytes, which
      `readFrom` takes as a count of 0, leaving the real count and every element unread. */
  lemma LongArrayMisread(values: seq<int>, rest: seq<Byte>)
    requires |values| < 0x8000_0000
    requires AllInRange(I64, values)
    ensures ReadArray(I64, ArrayBytes(I64, values) + rest)
         == Ok(([], Encode(I32, |values|) + ElementsBytes(I64, values) + rest))
  {
    var zeros := Encode(I32, 0);
    var low := Encode(I32, |values|);
    var elements := ElementsBytes(I64, values);
    var tail := low + elements + rest;
    LongCountLayout(values);
    Regroup(zeros, low, elements, rest);
    ReadAfterWrite(I32, 0, tail);
    assert ReadArray(I64, ArrayBytes(I64, values) + rest) == ReadElements(I64, tail, 0);
  }

  /** The 8-byte count of a vector shorter than 2^31 is four zero bytes, then the 4-byte count. */
  lemma LongCountLayout(values: seq<int>)
    requires |values| < 0x8000_0000
    requires AllInRange(I64, values)
    ensures ArrayBytes(I64, values) == Encode(I32, 0) + Encode(I32, |values|) + ElementsBytes(I64, values)
  {
    Int32CastSmall(|values|);
    WideningAddsZeros(|values|);
    ZeroImage();
  }

  lemma Assoc(a: seq<Byte>, b: seq<Byte>, c: seq<Byte>)
    ensures a + b + c == a + (b + c)
  {
  }

  lemma HeadAndTail(values: seq<int>)
    requires |values| > 0
    ensures [values[0]] + values[1..] == values && |values[1..]| == |values| - 1
  {
  }

  lemma SplitAt(a: seq<Byte>, b: seq<Byte>)
    ensures (a + b)[..|a|] == a && (a + b)[|a|..] == b
  {
  }

  lemma Regroup(a: seq<Byte>, b: seq<Byte>, c: seq<Byte>, d: seq<Byte>)
    ensures a + b + c + d == a + (b + c + d)
  {
  }

  lemma Int32CastSmall(n: nat)
    requires n < 0x8000_0000
    ensures Int32Cast(n) == n
  {
  }

  lemma ZeroImage()
    ensures Encode(I32, 0) == [0, 0, 0, 0]
  {
    assert ToUnsigned(I32, 0) == 0;
    assert HostBytes(0, 4) == [0, 0, 0, 0];
  }
}
