/** Java's "modified UTF-8" as the library handles it (src/modified_utf.hpp).

    Strings are byte strings (`std::string` of 8-bit `char`). The writer emits nothing for a
    string; the length calculator counts each char after converting it to `uint16_t`; the
    decoder follows `java.io.DataInputStream.readUTF` but stores only the low 8 bits of each
    decoded code unit and returns a string one longer than the encoded length, NUL-padded. */
module ModifiedUtf {
  import opened Wrappers
  import opened Primitive

  // ---------------------------------------------------------------------------------------
  // writeUTF and getByteLength

  /** `utf::writeUTF(out, s)`: appends no bytes at all. */
  function WriteUtf(s: seq<Byte>): (written: seq<Byte>)
    ensures |written| == 0
  {
    []
  }

  /** The `uint16_t` a `char` converts to, `char` being signed: bytes 0x80..0xFF are negative
      and wrap to 0xFF80..0xFFFF. */
  function WideChar(c: Byte): (w: int)
    ensures 0 <= w < 0x1_0000
  {
    if c < 0x80 then c as int else c as int - 0x100 + 0x1_0000
  }

  /** The bytes `getByteLength` charges for one char. */
  function CharWidth(c: Byte): (width: nat)
    ensures width == 1 <==> 0x01 <= c <= 0x7F
    ensures width == 2 <==> c == 0
    ensures width == 3 <==> c >= 0x80
  {
    var w := WideChar(c);
    if 0x0001 <= w <= 0x007F then 1 else if w > 0x07FF then 3 else 2
  }

  function WidthSum(s: seq<Byte>): nat
  {
    if |s| == 0 then 0 else WidthSum(s[..|s| - 1]) + CharWidth(s[|s| - 1])
  }

  /** What `getByteLength(s)` returns: the char widths plus 2 for the length prefix. */
  function EncodedLength(s: seq<Byte>): nat
  {
    WidthSum(s) + 2
  }

  /** `utf::getByteLength`: accumulates the width of each char, then adds the prefix. */
  method GetByteLength(s: seq<Byte>) returns (length: nat)
    ensures length == EncodedLength(s)
  {
    var utflen := 0;
    var i := 0;
    while i < |s|
      invariant 0 <= i <= |s|
      invariant utflen == WidthSum(s[..i])
    {
      assert s[..i + 1][..i] == s[..i];
      utflen := utflen + CharWidth(s[i]);
      i := i + 1;
    }
    assert s[..i] == s;
    length := utflen + 2;
  }

  /** Every char costs one to three bytes, so the length lies between |s|+2 and 3|s|+2. */
  lemma {:induction false} EncodedLengthBounds(s: seq<Byte>)
    ensures |s| + 2 <= EncodedLength(s) <= 3 * |s| + 2
  {
    WidthSumBounds(s);
  }

  lemma {:induction false} WidthSumBounds(s: seq<Byte>)
    ensures |s| <= WidthSum(s) <= 3 * |s|
  {
    if |s| > 0 {
      WidthSumBounds(s[..|s| - 1]);
    }
  }

  /** A string of chars 0x01..0x7F costs one byte per char plus the prefix. */
  lemma {:induction false} EncodedLengthOfAscii(s: seq<Byte>)
    requires forall i :: 0 <= i < |s| ==> 0x01 <= s[i] <= 0x7F
    ensures EncodedLength(s) == |s| + 2
  {
    AsciiWidthSum(s);
  }

  lemma {:induction false} AsciiWidthSum(s: seq<Byte>)
    requires forall i :: 0 <= i < |s| ==> 0x01 <= s[i] <= 0x7F
    ensures WidthSum(s) == |s|
  {
    if |s| > 0 {
      AsciiWidthSum(s[..|s| - 1]);
    }
  }

  // ---------------------------------------------------------------------------------------
  // readUTF: the decoding state machine

  /** `buffer[k]`: defined only inside the bytes actually present. */
  function ByteAt(buffer: seq<Byte>, k: nat): Result<Byte>
  {
    if k < |buffer| then Ok(buffer[k]) else Err(Overrun)
  }

  predicate IsContinuation(b: Byte)
  {
    b as int / 64 == 2
  }

  /** The code units the decoder makes of `buffer[count..n]`, or the error it throws. */
  function Units(buffer: seq<Byte>, n: nat, count: nat): (r: Result<seq<int>>)
    requires count <= n
    ensures r.Ok? ==> |r.value| <= n - count
    decreases n - count
  {
    if count >= n then Ok([])
    else
      var c :- ByteAt(buffer, count);
      var lead := c as int / 16;
      if lead <= 7 then
        var rest :- Units(buffer, n, count + 1);
        Ok([c as int] + rest)
      else if lead == 12 || lead == 13 then
        if count + 2 > n then Err(PartialCharacter)
        else
          var c2 :- ByteAt(buffer, count + 1);
          if !IsContinuation(c2) then Err(MalformedAround(count + 2))
          else
            var rest :- Units(buffer, n, count + 2);
            Ok([(c as int % 32) * 64 + c2 as int % 64] + rest)
      else if lead == 14 then
        if count + 3 > n then Err(PartialCharacter)
        else
          var c2 :- ByteAt(buffer, count + 1);
          var c3 :- ByteAt(buffer, count + 2);
          if !IsContinuation(c2) || !IsContinuation(c3) then Err(MalformedAround(count + 2))
          else
            var rest :- Units(buffer, n, count + 3);
            Ok([(c as int % 16) * 4096 + (c2 as int % 64) * 64 + c3 as int % 64] + rest)
      else Err(MalformedAround(count))
  }

  function Zeros(m: nat): (z: seq<Byte>)
    ensures |z| == m
  {
    seq(m, _ => 0)
  }

  /** `(char) code`: the low 8 bits of each code unit. */
  function Low8(units: seq<int>): (r: seq<Byte>)
    ensures |r| == |units|
  {
    seq(|units|, i requires 0 <= i < |units| => (units[i] % 256) as Byte)
  }

  /** The string `readUTF` returns for an `n`-byte body at `buffer`, or the error it throws. */
  function DecodeUtf(buffer: seq<Byte>, n: nat): Result<seq<Byte>>
  {
    var units :- Units(buffer, n, 0);
    Ok(Low8(units) + Zeros(n + 1 - |units|))
  }

  /** The buffer `readUtfString` fills once every unit decoded. */
  lemma DecodedUnits(buffer: seq<Byte>, n: nat, units: seq<int>)
    requires Units(buffer, n, 0) == Ok(units)
    ensures DecodeUtf(buffer, n) == Ok(Low8(units) + Zeros(n + 1 - |units|))
  {
  }

  /** A failure of the unit decoder is the failure of the whole string. */
  lemma DecodeFails(buffer: seq<Byte>, n: nat, e: Error)
    requires Units(buffer, n, 0) == Err(e)
    ensures DecodeUtf(buffer, n) == Err(e)
  {
  }

  /** Inside `readUTF`: both while-loops over `count`, writing `output[chararr_count]` in place. */
  method DecodeBody(buffer: seq<Byte>, n: nat) returns (r: Result<seq<Byte>>)
    ensures r == DecodeUtf(buffer, n)
  {
    var output := new Byte[n + 1](_ => 0);
    assert output[..] == Zeros(n + 1);
    var overrun, count;
    ghost var units;
    overrun, count, units := AsciiRun(buffer, n, output);
    if overrun {
      DecodeFails(buffer, n, Overrun);
      return Err(Overrun);
    }
    var chararrCount := count;
    while count < n
      invariant 0 <= count <= n && chararrCount == |units| <= count
      invariant Units(buffer, n, 0) == PrefixedUnits(units, Units(buffer, n, count))
      invariant Holds(output, units)
    {
      var step := DecodeUnit(buffer, n, count);
      if step.Err? {
        DecodeFails(buffer, n, step.error);
        return Err(step.error);
      }
      var (code, next) := step.value;
      Step(buffer, n, count, units, [code], next);
      output[chararrCount] := (code % 256) as Byte;
      units := units + [code];
      count := next;
      chararrCount := chararrCount + 1;
    }
    PrefixedNoUnits(units);
    DecodedUnits(buffer, n, units);
    output[n] := 0;
    HoldsImage(output, units);
    assert output[..] == Low8(units) + Zeros(n + 1 - |units|);
    r := Ok(output[..]);
  }

  /** The first `while` of `readUTF`: copies the leading bytes 0x00..0x7F straight to `output`,
      stopping at the first byte above 127 (or, as `overrun`, at the end of the bytes present). */
  method AsciiRun(buffer: seq<Byte>, n: nat, output: array<Byte>)
      returns (overrun: bool, count: nat, ghost units: seq<int>)
    requires output.Length == n + 1
    requires output[..] == Zeros(n + 1)
    modifies output
    ensures overrun ==> Units(buffer, n, 0) == Err(Overrun)
    ensures !overrun ==> count <= n && count == |units|
    ensures !overrun ==> Units(buffer, n, 0) == PrefixedUnits(units, Units(buffer, n, count))
    ensures !overrun ==> Holds(output, units)
  {
    count := 0;
    units := [];
    PrefixedNothing(Units(buffer, n, 0));
    while count < n
      invariant 0 <= count <= n && count == |units|
      invariant Units(buffer, n, 0) == PrefixedUnits(units, Units(buffer, n, count))
      invariant Holds(output, units)
    {
      if count >= |buffer| {
        return true, count, units;
      }
      var c := buffer[count];
      if c > 127 {
        break;
      }
      AsciiUnit(buffer, n, count);
      Step(buffer, n, count, units, [c as int], count + 1);
      output[count] := c;
      units := units + [c as int];
      count := count + 1;
    }
    return false, count, units;
  }

  /** `output` holds the low bytes of `units`, then NULs. */
  ghost predicate Holds(output: array<Byte>, units: seq<int>)
    reads output
  {
    && |units| <= output.Length
    && forall j :: 0 <= j < output.Length ==> output[j] == if j < |units| then (units[j] % 256) as Byte else 0
  }

  lemma HoldsImage(output: array<Byte>, units: seq<int>)
    requires Holds(output, units)
    ensures output[..] == Low8(units) + Zeros(output.Length - |units|)
  {
  }

  /** One pass of the `switch (c >> 4)`: the code unit at `count` and where the next one starts. */
  method DecodeUnit(buffer: seq<Byte>, n: nat, count: nat) returns (r: Result<(int, nat)>)
    requires count < n
    ensures r.Ok? ==> count < r.value.1 <= n
    ensures r.Ok? ==> Units(buffer, n, count) == PrefixedUnits([r.value.0], Units(buffer, n, r.value.1))
    ensures r.Err? ==> Units(buffer, n, count) == Err(r.error)
  {
    if count >= |buffer| {
      return Err(Overrun);
    }
    var c := buffer[count];
    var lead := c as int / 16;
    if lead <= 7 {
      return Ok((c as int, count + 1));
    } else if lead == 12 || lead == 13 {
      if count + 2 > n {
        return Err(PartialCharacter);
      }
      if count + 1 >= |buffer| {
        return Err(Overrun);
      }
      var char2 := buffer[count + 1];
      if !IsContinuation(char2) {
        return Err(MalformedAround(count + 2));
      }
      return Ok(((c as int % 32) * 64 + char2 as int % 64, count + 2));
    } else if lead == 14 {
      if count + 3 > n {
        return Err(PartialCharacter);
      }
      if count + 2 >= |buffer| {
        return Err(Overrun);
      }
      var char2 := buffer[count + 1];
      var char3 := buffer[count + 2];
      if !IsContinuation(char2) || !IsContinuation(char3) {
        return Err(MalformedAround(count + 2));
      }
      return Ok(((c as int % 16) * 4096 + (char2 as int % 64) * 64 + char3 as int % 64, count + 3));
    } else {
      return Err(MalformedAround(count));
    }
  }

  lemma AsciiUnit(buffer: seq<Byte>, n: nat, count: nat)
    requires count < n && count < |buffer| && buffer[count] <= 127
    ensures Units(buffer, n, count) == PrefixedUnits([buffer[count] as int], Units(buffer, n, count + 1))
  {
  }

  /** `r` with `front` put before the units it decoded. */
  function PrefixedUnits(front: seq<int>, r: Result<seq<int>>): Result<seq<int>>
  {
    match r
    case Ok(units) => Ok(front + units)
    case Err(e) => Err(e)
  }

  lemma PrefixedNothing(r: Result<seq<int>>)
    ensures PrefixedUnits([], r) == r
  {
    if r.Ok? {
      assert [] + r.value == r.value;
    }
  }

  lemma PrefixedNoUnits(front: seq<int>)
    ensures PrefixedUnits(front, Ok([])) == Ok(front)
  {
    assert front + [] == front;
  }

  /** One decoding step: position `count` decodes to `unit` and the scan resumes at `next`. */
  lemma Step(buffer: seq<Byte>, n: nat, count: nat, front: seq<int>, unit: seq<int>, next: nat)
    requires count <= n && next <= n
    requires Units(buffer, n, count) == PrefixedUnits(unit, Units(buffer, n, next))
    ensures PrefixedUnits(front, Units(buffer, n, count))
         == PrefixedUnits(front + unit, Units(buffer, n, next))
  {
    var tail := Units(buffer, n, next);
    if tail.Ok? {
      assert front + (unit + tail.value) == front + unit + tail.value;
    }
  }

  /** `utf::readUTF(in)` on a stream holding `input`: the 2-byte big-endian length `n`, then up to
      `n` bytes into a zero-filled buffer of `n` bytes, decoded; gives the string and what is left. */
  function ReadUtfStream(input: seq<Byte>): Result<(seq<Byte>, seq<Byte>)>
  {
    var (n, rest) :- ReadFrom(U16, input);
    var available := if |rest| < n then rest else rest[..n];
    var s :- DecodeUtf(available + Zeros(n - |available|), n);
    Ok((s, rest[|available|..]))
  }

  method ReadUtfFromStream(input: seq<Byte>) returns (r: Result<(seq<Byte>, seq<Byte>)>)
    ensures r == ReadUtfStream(input)
  {
    var header := ReadFrom(U16, input);
    if header.Err? {
      return Err(header.error);
    }
    var (utflen, rest) := header.value;
    var available := if |rest| < utflen then rest else rest[..utflen];
    var buffer := available + Zeros(utflen - |available|);
    var output := DecodeBody(buffer, utflen);
    if output.Err? {
      return Err(output.error);
    }
    return Ok((output.value, rest[|available|..]));
  }

  /** The stream decoder consumes the length and then `n` bytes (or all there are), never reads
      past its own buffer, and on success returns `n + 1` chars. */
  lemma ReadUtfStreamConsumes(input: seq<Byte>)
    requires |input| >= 2
    ensures var n := Decode(U16, input[..2]);
            0 <= n < 0x1_0000 &&
            ReadUtfStream(input) != Err(Overrun) &&
            (ReadUtfStream(input).Ok? ==>
               |ReadUtfStream(input).value.0| == n + 1 &&
               ReadUtfStream(input).value.1 == input[if 2 + n <= |input| then 2 + n else |input|..])
  {
    var n := Decode(U16, input[..2]);
    var rest := input[2..];
    var available := if |rest| < n then rest else rest[..n];
    var buffer := available + Zeros(n - |available|);
    DecodeReadsOnlyBody(buffer, n);
    if DecodeUtf(buffer, n).Ok? {
      DecodeLayout(buffer, n);
    }
  }

  // ---------------------------------------------------------------------------------------
  // What the decoder accepts and what it returns

  /** The byte forms of modified UTF-8: 0xxxxxxx, 110xxxxx 10xxxxxx, 1110xxxx 10xxxxxx 10xxxxxx. */
  predicate WellFormed(s: seq<Byte>)
  {
    if |s| == 0 then true
    else if s[0] < 0x80 then WellFormed(s[1..])
    else if s[0] as int / 32 == 6 then |s| >= 2 && IsContinuation(s[1]) && WellFormed(s[2..])
    else if s[0] as int / 16 == 14 then
      |s| >= 3 && IsContinuation(s[1]) && IsContinuation(s[2]) && WellFormed(s[3..])
    else false
  }

  lemma {:induction false} UnitsAcceptsWellFormed(buffer: seq<Byte>, n: nat, count: nat)
    requires count <= n <= |buffer|
    ensures Units(buffer, n, count).Ok? <==> WellFormed(buffer[count..n])
    decreases n - count
  {
    var s := buffer[count..n];
    if count < n {
      var c := buffer[count];
      assert s[0] == c;
      if c < 0x80 {
        assert s[1..] == buffer[count + 1..n];
        UnitsAcceptsWellFormed(buffer, n, count + 1);
      } else if c as int / 32 == 6 {
        if count + 2 <= n {
          assert s[2..] == buffer[count + 2..n];
          UnitsAcceptsWellFormed(buffer, n, count + 2);
        }
      } else if c as int / 16 == 14 {
        if count + 3 <= n {
          assert s[3..] == buffer[count + 3..n];
          UnitsAcceptsWellFormed(buffer, n, count + 3);
        }
      }
    }
  }

  /** `readUTF` succeeds exactly on well-formed bodies. */
  lemma DecodeSucceedsIffWellFormed(buffer: seq<Byte>, n: nat)
    requires n <= |buffer|
    ensures DecodeUtf(buffer, n).Ok? <==> WellFormed(buffer[..n])
  {
    UnitsAcceptsWellFormed(buffer, n, 0);
    assert buffer[0..n] == buffer[..n];
  }

  lemma {:induction false} UnitsReadsOnlyBody(b1: seq<Byte>, b2: seq<Byte>, n: nat, count: nat)
    requires count <= n <= |b1| && n <= |b2| && b1[..n] == b2[..n]
    ensures Units(b1, n, count) == Units(b2, n, count)
    ensures Units(b1, n, count) != Err(Overrun)
    decreases n - count
  {
    if count < n {
      assert b1[count] == b1[..n][count] == b2[count];
      if count + 1 < n {
        assert b1[count + 1] == b1[..n][count + 1] == b2[count + 1];
      }
      if count + 2 < n {
        assert b1[count + 2] == b1[..n][count + 2] == b2[count + 2];
      }
      if count + 1 <= n {
        UnitsReadsOnlyBody(b1, b2, n, count + 1);
      }
      if count + 2 <= n {
        UnitsReadsOnlyBody(b1, b2, n, count + 2);
      }
      if count + 3 <= n {
        UnitsReadsOnlyBody(b1, b2, n, count + 3);
      }
    }
  }

  /** No byte at or beyond `n` is ever read: the outcome depends on the body alone, and with the
      whole body present the decoder never runs off the bytes it has. */
  lemma DecodeReadsOnlyBody(buffer: seq<Byte>, n: nat)
    requires n <= |buffer|
    ensures DecodeUtf(buffer, n) == DecodeUtf(buffer[..n], n)
    ensures DecodeUtf(buffer, n) != Err(Overrun)
  {
    UnitsReadsOnlyBody(buffer, buffer[..n], n, 0);
  }

  /** A successful decode has read each of the `n` body bytes, so all of them were present. */
  lemma {:induction false} UnitsNeedBody(buffer: seq<Byte>, n: nat, count: nat)
    requires count <= n
    ensures Units(buffer, n, count).Ok? && count < n ==> n <= |buffer|
    decreases n - count
  {
    if count < n && count < |buffer| {
      var lead := buffer[count] as int / 16;
      if lead <= 7 {
        UnitsNeedBody(buffer, n, count + 1);
      } else if (lead == 12 || lead == 13) && count + 2 <= n {
        UnitsNeedBody(buffer, n, count + 2);
      } else if lead == 14 && count + 3 <= n {
        UnitsNeedBody(buffer, n, count + 3);
      }
    }
  }

  lemma DecodeNeedsBody(buffer: seq<Byte>, n: nat)
    ensures DecodeUtf(buffer, n).Ok? ==> n <= |buffer|
  {
    UnitsNeedBody(buffer, n, 0);
  }

  /** A successful decode has `n + 1` chars and ends in NUL; the chars after the decoded code
      units are all NUL. */
  lemma DecodeLayout(buffer: seq<Byte>, n: nat)
    requires DecodeUtf(buffer, n).Ok?
    ensures |DecodeUtf(buffer, n).value| == n + 1
    ensures DecodeUtf(buffer, n).value[n] == 0
    ensures forall i :: |Units(buffer, n, 0).value| <= i <= n ==> DecodeUtf(buffer, n).value[i] == 0
    ensures forall i :: 0 <= i < |Units(buffer, n, 0).value|
              ==> DecodeUtf(buffer, n).value[i] as int == Units(buffer, n, 0).value[i] % 256
  {
  }

  /** Bytes taken as code units, one each. */
  function AsUnits(s: seq<Byte>): seq<int>
  {
    seq(|s|, i requires 0 <= i < |s| => s[i] as int)
  }

  lemma {:induction false} UnitsOfAscii(buffer: seq<Byte>, n: nat, count: nat)
    requires count <= n <= |buffer|
    requires forall i :: count <= i < n ==> buffer[i] < 0x80
    ensures Units(buffer, n, count) == Ok(AsUnits(buffer[count..n]))
    decreases n - count
  {
    if count < n {
      UnitsOfAscii(buffer, n, count + 1);
      assert [buffer[count] as int] + AsUnits(buffer[count + 1..n]) == AsUnits(buffer[count..n]);
    } else {
      assert AsUnits(buffer[count..n]) == [];
    }
  }

  /** A body of bytes below 0x80 decodes to exactly those bytes followed by one NUL. */
  lemma DecodeAscii(buffer: seq<Byte>, n: nat)
    requires n <= |buffer|
    requires forall i :: 0 <= i < n ==> buffer[i] < 0x80
    ensures DecodeUtf(buffer, n) == Ok(buffer[..n] + [0])
  {
    UnitsOfAscii(buffer, n, 0);
    var units := Units(buffer, n, 0).value;
    assert Low8(units) == buffer[..n];
    assert Zeros(1) == [0];
  }

  // ---------------------------------------------------------------------------------------
  // Reference encoder (the writer does not have one: writeUTF is empty)

  /** The modified UTF-8 form of one 16-bit code unit, as `java.io.DataOutput.writeUTF` makes it. */
  function EncodeUnit(u: int): (r: seq<Byte>)
    requires 0 <= u < 0x1_0000
    ensures 1 <= |r| <= 3
  {
    if 0x01 <= u <= 0x7F then [u as Byte]
    else if u <= 0x7FF then [(0xC0 + u / 64) as Byte, (0x80 + u % 64) as Byte]
    else [(0xE0 + u / 4096) as Byte, (0x80 + u / 64 % 64) as Byte, (0x80 + u % 64) as Byte]
  }

  predicate AllUnits(us: seq<int>)
  {
    forall i :: 0 <= i < |us| ==> 0 <= us[i] < 0x1_0000
  }

  function EncodeUnits(us: seq<int>): (r: seq<Byte>)
    requires AllUnits(us)
    ensures |us| <= |r| <= 3 * |us|
  {
    if |us| == 0 then [] else EncodeUnit(us[0]) + EncodeUnits(us[1..])
  }

  lemma UnitOfEncoding(buffer: seq<Byte>, n: nat, count: nat, u: int)
    requires 0 <= u < 0x1_0000
    requires count + |EncodeUnit(u)| <= n <= |buffer|
    requires buffer[count..count + |EncodeUnit(u)|] == EncodeUnit(u)
    ensures Units(buffer, n, count) == PrefixedUnits([u], Units(buffer, n, count + |EncodeUnit(u)|))
  {
    var e := EncodeUnit(u);
    assert buffer[count] == e[0];
    if 0x01 <= u <= 0x7F {
      OneByteForm(buffer, n, count, u);
    } else if u <= 0x7FF {
      assert buffer[count + 1] == e[1];
      TwoByteForm(buffer, n, count, u);
    } else {
      assert buffer[count + 1] == e[1];
      assert buffer[count + 2] == e[2];
      ThreeByteForm(buffer, n, count, u);
    }
  }

  lemma OneByteForm(buffer: seq<Byte>, n: nat, count: nat, u: int)
    requires 0x01 <= u <= 0x7F
    requires count + 1 <= n <= |buffer| && buffer[count] as int == u
    ensures Units(buffer, n, count) == PrefixedUnits([u], Units(buffer, n, count + 1))
  {
  }

  lemma TwoByteForm(buffer: seq<Byte>, n: nat, count: nat, u: int)
    requires 0 <= u <= 0x7FF
    requires count + 2 <= n <= |buffer|
    requires buffer[count] as int == 0xC0 + u / 64 && buffer[count + 1] as int == 0x80 + u % 64
    ensures Units(buffer, n, count) == PrefixedUnits([u], Units(buffer, n, count + 2))
  {
    var c, c2 := buffer[count] as int, buffer[count + 1] as int;
    assert c / 16 == 12 || c / 16 == 13;
    assert IsContinuation(buffer[count + 1]);
    assert (c % 32) * 64 + c2 % 64 == u;
  }

  lemma ThreeByteForm(buffer: seq<Byte>, n: nat, count: nat, u: int)
    requires 0x800 <= u < 0x1_0000
    requires count + 3 <= n <= |buffer|
    requires buffer[count] as int == 0xE0 + u / 4096
    requires buffer[count + 1] as int == 0x80 + u / 64 % 64
    requires buffer[count + 2] as int == 0x80 + u % 64
    ensures Units(buffer, n, count) == PrefixedUnits([u], Units(buffer, n, count + 3))
  {
    var c, c2, c3 := buffer[count] as int, buffer[count + 1] as int, buffer[count + 2] as int;
    assert c / 16 == 14;
    assert IsContinuation(buffer[count + 1]) && IsContinuation(buffer[count + 2]);
    assert c % 16 == u / 4096 && c2 % 64 == u / 64 % 64 && c3 % 64 == u % 64;
    assert (u / 4096) * 4096 + (u / 64 % 64) * 64 + u % 64 == u;
  }

  lemma {:induction false} UnitsOfEncoding(buffer: seq<Byte>, n: nat, count: nat, us: seq<int>)
    requires AllUnits(us)
    requires count + |EncodeUnits(us)| == n <= |buffer|
    requires buffer[count..n] == EncodeUnits(us)
    ensures Units(buffer, n, count) == Ok(us)
    decreases |us|
  {
    if |us| > 0 {
      var head := EncodeUnit(us[0]);
      var next := count + |head|;
      assert EncodeUnits(us) == head + EncodeUnits(us[1..]);
      SplitSlice(buffer, count, next, n, head, EncodeUnits(us[1..]));
      UnitOfEncoding(buffer, n, count, us[0]);
      UnitsOfEncoding(buffer, n, next, us[1..]);
      PrefixedHead(us, Units(buffer, n, next));
    }
  }

  /** The first unit put back in front of the decoding of the rest. */
  lemma PrefixedHead(us: seq<int>, r: Result<seq<int>>)
    requires |us| > 0 && r == Ok(us[1..])
    ensures PrefixedUnits([us[0]], r) == Ok(us)
  {
    assert [us[0]] + us[1..] == us;
  }

  /** A slice that is the concatenation of two parts splits into two slices. */
  lemma SplitSlice(buffer: seq<Byte>, lo: nat, mid: nat, hi: nat, front: seq<Byte>, back: seq<Byte>)
    requires lo <= mid <= hi <= |buffer| && mid - lo == |front|
    requires buffer[lo..hi] == front + back
    ensures buffer[lo..mid] == front && buffer[mid..hi] == back
  {
    assert buffer[lo..mid] == buffer[lo..hi][..|front|];
    assert buffer[mid..hi] == buffer[lo..hi][|front|..];
  }

  /** The decoder inverts the modified UTF-8 encoding: the encoded units come back, each cut to
      its low 8 bits, in a string padded with NULs to length `n + 1`. */
  lemma DecodeOfEncoding(us: seq<int>)
    requires AllUnits(us)
    ensures DecodeUtf(EncodeUnits(us), |EncodeUnits(us)|)
         == Ok(Low8(us) + Zeros(|EncodeUnits(us)| + 1 - |us|))
  {
    var e := EncodeUnits(us);
    assert e[0..|e|] == e;
    UnitsOfEncoding(e, |e|, 0, us);
  }

  /** Examples of the failure cases, with the offsets the messages report. */
  lemma DecodeFailureExamples()
    ensures DecodeUtf([0xC3], 1) == Err(PartialCharacter)
    ensures DecodeUtf([0x41, 0xE2, 0x82], 3) == Err(PartialCharacter)
    ensures DecodeUtf([0x80], 1) == Err(MalformedAround(0))
    ensures DecodeUtf([0x41, 0xF0], 2) == Err(MalformedAround(1))
    ensures DecodeUtf([0xC3, 0x41], 2) == Err(MalformedAround(2))
    ensures DecodeUtf([0xE2, 0x82, 0x41], 3) == Err(MalformedAround(2))
  {
  }
}
