/**
 * The `Deserializer` of src/de.rs: a cursor over a byte slice that every parse
 * re-slices past the bytes it has read. Each `Decode*` function states what one
 * `parse_*` method returns and which bytes are left; the class below runs the
 * source's loops and is proved to agree with them.
 */
module RustDe {
  import opened Bytes
  import opened Varint
  import opened Utf8
  import opened RustError

  /** What a parse returns, and the slice the cursor holds afterwards. */
  datatype Parsed<T> = Parsed(result: Result<T>, rest: seq<Byte>)

  /** `byte as i8`: the two's-complement reading of a byte. */
  function I8Of(b: Byte): int
  {
    if b >= 0x80 then b - 256 else b
  }

  /** `v as i16` / `v as i32` for a value held in a wider signed integer. */
  function WrapSigned(v: int, bits: nat): int
    requires bits >= 1
  {
    var m := Pow(2, bits);
    (v + m / 2) % m - m / 2
  }

  /** `v as u16` / `v as u32`. */
  function WrapUnsigned(v: int, bits: nat): nat
  {
    v % Pow(2, bits)
  }

  /** src/de.rs:17-22. */
  function DecodeBool(buf: seq<Byte>): Parsed<bool>
  {
    if buf == [] then Parsed(Err(ValueTruncated), buf) else Parsed(Ok(buf[0] != 0), buf[1..])
  }

  /** src/de.rs:24-30. */
  function DecodeI8(buf: seq<Byte>): Parsed<int>
  {
    if buf == [] then Parsed(Err(ValueTruncated), buf) else Parsed(Ok(I8Of(buf[0])), buf[1..])
  }

  /** src/de.rs:84-89. */
  function DecodeU8(buf: seq<Byte>): Parsed<Byte>
  {
    if buf == [] then Parsed(Err(ValueTruncated), buf) else Parsed(Ok(buf[0]), buf[1..])
  }

  /**
   * The loop of `parse_u64` (src/de.rs:110-124) once the first byte is read:
   * `value` is the running u64, `more` the continuation bit of the last byte.
   */
  function U64Loop(buf: seq<Byte>, value: nat, more: bool, max: Option<nat>): Parsed<nat>
    decreases |buf|
  {
    if !more then Parsed(Ok(value), buf)
    else if buf == [] then Parsed(Err(ValueTruncated), buf)
    else
      var next, rest := buf[0], buf[1..];
      if value * 128 > U64_MAX then Parsed(Err(IntegerOverflow), rest)
      else
        var value' := value * 128 + next % 128;
        if max.Some? && value' > max.value then Parsed(Err(IntegerOverflow), rest)
        else U64Loop(rest, value', next >= 0x80, max)
  }

  /** src/de.rs:101-125. */
  function DecodeU64(buf: seq<Byte>, max: Option<nat>): Parsed<nat>
  {
    if buf == [] then Parsed(Err(ValueTruncated), buf)
    else U64Loop(buf[1..], buf[0] % 128, buf[0] >= 0x80, max)
  }

  /** src/de.rs:91-99: the u64 parse bounded by the narrower maximum, then `as u16`/`as u32`. */
  function DecodeNarrowUnsigned(buf: seq<Byte>, bits: nat): Parsed<nat>
    requires bits == 16 || bits == 32
  {
    var p := DecodeU64(buf, Some(if bits == 16 then U16_MAX else U32_MAX));
    if p.result.Err? then Parsed(Err(p.result.error), p.rest)
    else Parsed(Ok(WrapUnsigned(p.result.value, bits)), p.rest)
  }

  /** The value below which a bounded signed parse stays: `max` for non-negatives, `max + 1` for negatives. */
  predicate ExceedsBound(value: nat, negative: bool, max: Option<nat>)
  {
    max.Some? && ((negative && value > max.value + 1) || (!negative && value > max.value))
  }

  /**
   * The loop of `parse_i64` (src/de.rs:53-76) once the first byte is read. The
   * special case of src/de.rs:58-67 returns `i64::MIN` before the final `* 128`
   * could overflow.
   */
  function I64Loop(buf: seq<Byte>, value: nat, more: bool, negative: bool, max: Option<nat>): Parsed<int>
    decreases |buf|
  {
    if !more then Parsed(Ok(if negative then -(value as int) else value), buf)
    else if buf == [] then Parsed(Err(ValueTruncated), buf)
    else
      var next, rest := buf[0], buf[1..];
      var lsb, more' := next % 128, next >= 0x80;
      if !more' && negative && lsb == 0 && value == 0x0100_0000_0000_0000 then Parsed(Ok(I64_MIN), rest)
      else if value * 128 > I64_MAX then Parsed(Err(IntegerOverflow), rest)
      else
        var value' := value * 128 + lsb;
        if ExceedsBound(value', negative, max) then Parsed(Err(IntegerOverflow), rest)
        else I64Loop(rest, value', more', negative, max)
  }

  /** src/de.rs:42-82. */
  function DecodeI64(buf: seq<Byte>, max: Option<nat>): Parsed<int>
  {
    if buf == [] then Parsed(Err(ValueTruncated), buf)
    else I64Loop(buf[1..], buf[0] % 64, buf[0] >= 0x80, (buf[0] / 64) % 2 == 1, max)
  }

  /** src/de.rs:32-40: the i64 parse bounded by the narrower maximum, then `as i16`/`as i32`. */
  function DecodeNarrowSigned(buf: seq<Byte>, bits: nat): Parsed<int>
    requires bits == 16 || bits == 32
  {
    var p := DecodeI64(buf, Some(if bits == 16 then I16_MAX else I32_MAX));
    if p.result.Err? then Parsed(Err(p.result.error), p.rest)
    else Parsed(Ok(WrapSigned(p.result.value, bits)), p.rest)
  }

  /** src/de.rs:127-159: `n` bytes assembled most significant first. */
  function DecodeBits(buf: seq<Byte>, n: nat): Parsed<nat>
  {
    if |buf| < n then Parsed(Err(ValueTruncated), buf) else Parsed(Ok(BigEndianValue(buf[..n])), buf[n..])
  }

  /** src/de.rs:161-181. */
  function DecodeChar(buf: seq<Byte>): Parsed<char>
  {
    if buf == [] then Parsed(Err(ValueTruncated), buf)
    else
      var n := LeadLength(buf[0]);
      if n == 0 then Parsed(Err(InvalidUtf8), buf)
      else if |buf| < n then Parsed(Err(ValueTruncated), buf)
      else if !ValidUtf8(buf[..n]) then Parsed(Err(InvalidUtf8), buf)
      else Parsed(Ok(DecodeString(buf[..n])[0]), buf[n..])
  }

  /** src/de.rs:196-206. */
  function DecodeBytes(buf: seq<Byte>): Parsed<seq<Byte>>
  {
    var p := DecodeU64(buf, None);
    if p.result.Err? then Parsed(Err(p.result.error), p.rest)
    else if |p.rest| < p.result.value then Parsed(Err(ValueTruncated), p.rest)
    else Parsed(Ok(p.rest[..p.result.value]), p.rest[p.result.value..])
  }

  /** src/de.rs:183-194. */
  function DecodeStr(buf: seq<Byte>): Parsed<string>
  {
    var p := DecodeU64(buf, None);
    if p.result.Err? then Parsed(Err(p.result.error), p.rest)
    else if |p.rest| < p.result.value then Parsed(Err(ValueTruncated), p.rest)
    else if !ValidUtf8(p.rest[..p.result.value]) then Parsed(Err(InvalidUtf8), p.rest)
    else Parsed(Ok(DecodeString(p.rest[..p.result.value])), p.rest[p.result.value..])
  }

  class Deserializer {
    var buffer: seq<Byte>

    constructor (input: seq<Byte>)
      ensures buffer == input
    {
      buffer := input;
    }

    method ParseBool() returns (r: Result<bool>)
      modifies this
      ensures Parsed(r, buffer) == DecodeBool(old(buffer))
    {
      if buffer == [] {
        return Err(ValueTruncated);
      }
      r := Ok(buffer[0] != 0);
      buffer := buffer[1..];
    }

    method ParseI8() returns (r: Result<int>)
      modifies this
      ensures Parsed(r, buffer) == DecodeI8(old(buffer))
    {
      if buffer == [] {
        return Err(ValueTruncated);
      }
      r := Ok(I8Of(buffer[0]));
      buffer := buffer[1..];
    }

    method ParseU8() returns (r: Result<Byte>)
      modifies this
      ensures Parsed(r, buffer) == DecodeU8(old(buffer))
    {
      if buffer == [] {
        return Err(ValueTruncated);
      }
      r := Ok(buffer[0]);
      buffer := buffer[1..];
    }

    method ParseU64(max: Option<nat>) returns (r: Result<nat>)
      modifies this
      ensures Parsed(r, buffer) == DecodeU64(old(buffer), max)
    {
      if buffer == [] {
        return Err(ValueTruncated);
      }
      var first := buffer[0];
      buffer := buffer[1..];
      var more := first >= 0x80;
      var value: nat := first % 128;
      while more
        invariant U64Loop(buffer, value, more, max) == DecodeU64(old(buffer), max)
        decreases |buffer|
      {
        if buffer == [] {
          return Err(ValueTruncated);
        }
        var next := buffer[0];
        buffer := buffer[1..];
        var lsb := next % 128;
        more := next >= 0x80;
        if value * 128 > U64_MAX {
          return Err(IntegerOverflow);
        }
        value := value * 128 + lsb;
        if max.Some? && value > max.value {
          return Err(IntegerOverflow);
        }
      }
      return Ok(value);
    }

    method ParseU16() returns (r: Result<nat>)
      modifies this
      ensures Parsed(r, buffer) == DecodeNarrowUnsigned(old(buffer), 16)
    {
      var p := ParseU64(Some(U16_MAX));
      r := if p.Err? then Err(p.error) else Ok(WrapUnsigned(p.value, 16));
    }

    method ParseU32() returns (r: Result<nat>)
      modifies this
      ensures Parsed(r, buffer) == DecodeNarrowUnsigned(old(buffer), 32)
    {
      var p := ParseU64(Some(U32_MAX));
      r := if p.Err? then Err(p.error) else Ok(WrapUnsigned(p.value, 32));
    }

    method ParseI64(max: Option<nat>) returns (r: Result<int>)
      modifies this
      ensures Parsed(r, buffer) == DecodeI64(old(buffer), max)
    {
      if buffer == [] {
        return Err(ValueTruncated);
      }
      var first := buffer[0];
      buffer := buffer[1..];
      var more := first >= 0x80;
      var negative := (first / 64) % 2 == 1;
      var value: nat := first % 64;
      while more
        invariant I64Loop(buffer, value, more, negative, max) == DecodeI64(old(buffer), max)
        decreases |buffer|
      {
        if buffer == [] {
          return Err(ValueTruncated);
        }
        var next := buffer[0];
        buffer := buffer[1..];
        var lsb := next % 128;
        more := next >= 0x80;
        if !more && negative && lsb == 0 && value == 0x0100_0000_0000_0000 {
          return Ok(I64_MIN);
        }
        if value * 128 > I64_MAX {
          return Err(IntegerOverflow);
        }
        value := value * 128 + lsb;
        if max.Some? && ((negative && value > max.value + 1) || (!negative && value > max.value)) {
          return Err(IntegerOverflow);
        }
      }
      return Ok(if negative then -(value as int) else value);
    }

    method ParseI16() returns (r: Result<int>)
      modifies this
      ensures Parsed(r, buffer) == DecodeNarrowSigned(old(buffer), 16)
    {
      var p := ParseI64(Some(I16_MAX));
      r := if p.Err? then Err(p.error) else Ok(WrapSigned(p.value, 16));
    }

    method ParseI32() returns (r: Result<int>)
      modifies this
      ensures Parsed(r, buffer) == DecodeNarrowSigned(old(buffer), 32)
    {
      var p := ParseI64(Some(I32_MAX));
      r := if p.Err? then Err(p.error) else Ok(WrapSigned(p.value, 32));
    }

    /** The shift-accumulate loop of src/de.rs:127-159 over `n` bytes. */
    method ParseBits(n: nat) returns (r: Result<nat>)
      modifies this
      ensures Parsed(r, buffer) == DecodeBits(old(buffer), n)
    {
      if |buffer| < n {
        return Err(ValueTruncated);
      }
      var value: nat := 0;
      var i := 0;
      while i < n
        invariant 0 <= i <= n && |buffer| == |old(buffer)| - i
        invariant buffer == old(buffer)[i..]
        invariant value == BigEndianValue(old(buffer)[..i])
        decreases n - i
      {
        assert old(buffer)[..i + 1] == old(buffer)[..i] + [buffer[0]];
        value := value * 256 + buffer[0];
        buffer := buffer[1..];
        i := i + 1;
      }
      return Ok(value);
    }

    method ParseF32() returns (r: Result<nat>)
      modifies this
      ensures Parsed(r, buffer) == DecodeBits(old(buffer), 4)
    {
      r := ParseBits(4);
    }

    method ParseF64() returns (r: Result<nat>)
      modifies this
      ensures Parsed(r, buffer) == DecodeBits(old(buffer), 8)
    {
      r := ParseBits(8);
    }

    method ParseChar() returns (r: Result<char>)
      modifies this
      ensures Parsed(r, buffer) == DecodeChar(old(buffer))
    {
      if buffer == [] {
        return Err(ValueTruncated);
      }
      var n := LeadLength(buffer[0]);
      if n == 0 {
        return Err(InvalidUtf8);
      }
      if |buffer| < n {
        return Err(ValueTruncated);
      }
      if !ValidUtf8(buffer[..n]) {
        return Err(InvalidUtf8);
      }
      r := Ok(DecodeString(buffer[..n])[0]);
      buffer := buffer[n..];
    }

    method ParseStr() returns (r: Result<string>)
      modifies this
      ensures Parsed(r, buffer) == DecodeStr(old(buffer))
    {
      var len := ParseU64(None);
      if len.Err? {
        return Err(len.error);
      }
      if |buffer| < len.value {
        return Err(ValueTruncated);
      }
      if !ValidUtf8(buffer[..len.value]) {
        return Err(InvalidUtf8);
      }
      r := Ok(DecodeString(buffer[..len.value]));
      buffer := buffer[len.value..];
    }

    method ParseBytes() returns (r: Result<seq<Byte>>)
      modifies this
      ensures Parsed(r, buffer) == DecodeBytes(old(buffer))
    {
      var len := ParseU64(None);
      if len.Err? {
        return Err(len.error);
      }
      if |buffer| < len.value {
        return Err(ValueTruncated);
      }
      r := Ok(buffer[..len.value]);
      buffer := buffer[len.value..];
    }

    /** src/de.rs:214-222: the format carries no type tags, so nothing is read. */
    method DeserializeAny() returns (r: Result<()>)
      ensures r == Err(TypeUnknown)
    {
      r := Err(TypeUnknown);
    }
  }
}
