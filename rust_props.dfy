/**
 * Round trips and soundness for the parses of src/de.rs that are not varint
 * loops: the one-byte values, the 16- and 32-bit casts, the bit patterns of
 * floats, chars, strings and byte slices.
 */
module RustProps {
  import opened Bytes
  import opened Varint
  import opened Utf8
  import opened RustError
  import opened RustDe
  import opened RustCodec
  import RustSer

  // ---------------------------------------------------------------- one byte

  /** `serialize_bool` writes 1 or 0 and `parse_bool` reads it back, consuming one byte (src/ser.rs:58-68, src/de.rs:17-22). */
  lemma DecodeBoolOfEncoding(v: bool, rest: seq<Byte>)
    ensures DecodeBool([if v then 1 else 0] + rest) == Parsed(Ok(v), rest)
  {
    assert ([if v then 1 else 0] + rest)[1..] == rest;
  }

  /** `v as u8` and `b as i8` are inverse on i8 and on bytes; -42 is the byte D6 (src/ser.rs:497-504). */
  lemma I8Inverse(v: int, b: Byte)
    requires -128 <= v <= 127
    ensures I8Of(RustSer.I8Byte(v)) == v
    ensures -128 <= I8Of(b) <= 127 && RustSer.I8Byte(I8Of(b)) == b
    ensures RustSer.I8Byte(-42) == 0xD6
  {
  }

  /** `parse_i8` reads back what `serialize_i8` wrote (src/ser.rs:70-77, src/de.rs:24-30). */
  lemma DecodeI8OfEncoding(v: int, rest: seq<Byte>)
    requires -128 <= v <= 127
    ensures DecodeI8([RustSer.I8Byte(v)] + rest) == Parsed(Ok(v), rest)
  {
    I8Inverse(v, 0);
    assert ([RustSer.I8Byte(v)] + rest)[1..] == rest;
  }

  /** `parse_u8` reads back what `serialize_u8` wrote (src/ser.rs:129-135, src/de.rs:84-89). */
  lemma DecodeU8OfEncoding(v: Byte, rest: seq<Byte>)
    ensures DecodeU8([v] + rest) == Parsed(Ok(v), rest)
  {
    assert ([v] + rest)[1..] == rest;
  }

  /**
   * The one-byte parses read exactly one byte when there is one, and fail with
   * `ValueTruncated` on an empty slice, which they leave as it is (src/de.rs:17-30, 84-89).
   */
  lemma OneByteSound(buf: seq<Byte>)
    ensures buf == [] ==>
      (DecodeBool(buf) == Parsed(Err(ValueTruncated), [])
       && DecodeI8(buf) == Parsed(Err(ValueTruncated), []) && DecodeU8(buf) == Parsed(Err(ValueTruncated), []))
    ensures buf != [] ==>
      ([buf[0]] + DecodeBool(buf).rest == buf
       && DecodeI8(buf).rest == DecodeBool(buf).rest && DecodeU8(buf).rest == DecodeBool(buf).rest
       && (DecodeBool(buf).result.value <==> buf[0] != 0)
       && RustSer.I8Byte(DecodeI8(buf).result.value) == buf[0]
       && DecodeU8(buf).result.value == buf[0])
  {
    if buf != [] {
      I8Inverse(0, buf[0]);
      assert [buf[0]] + buf[1..] == buf;
    }
  }

  // ---------------------------------------------------------------- 16- and 32-bit casts

  lemma PowTwo()
    ensures Pow(2, 16) == 0x1_0000 && Pow(2, 32) == 0x1_0000_0000
  {
    assert Pow(2, 8) == 0x100;
    PowAdd(2, 8, 8);
    PowAdd(2, 16, 16);
  }

  /** The largest value a narrow unsigned parse accepts. */
  function UnsignedMax(bits: nat): nat
    requires bits == 16 || bits == 32
  {
    if bits == 16 then U16_MAX else U32_MAX
  }

  /** The largest value a narrow signed parse accepts; the smallest is one below its negation. */
  function SignedMax(bits: nat): nat
    requires bits == 16 || bits == 32
  {
    if bits == 16 then I16_MAX else I32_MAX
  }

  /** `as u16`/`as u32` changes nothing below the bound the parse checked. */
  lemma WrapUnsignedInRange(v: nat, bits: nat)
    requires bits == 16 || bits == 32
    requires v <= UnsignedMax(bits)
    ensures WrapUnsigned(v, bits) == v
  {
    PowTwo();
  }

  /** `as i16`/`as i32` changes nothing in the range the parse checked. */
  lemma WrapSignedInRange(v: int, bits: nat)
    requires bits == 16 || bits == 32
    requires -(SignedMax(bits) + 1) <= v <= SignedMax(bits)
    ensures WrapSigned(v, bits) == v
  {
    PowTwo();
    var m := Pow(2, bits);
    assert m / 2 == SignedMax(bits) + 1;
    assert 0 <= v + m / 2 < m;
  }

  /** `parse_u16`/`parse_u32` read back what `serialize_u16`/`serialize_u32` wrote (src/de.rs:91-99, src/ser.rs:137-149). */
  lemma DecodeNarrowUnsignedOfEncoding(v: nat, bits: nat, rest: seq<Byte>)
    requires bits == 16 || bits == 32
    requires v <= UnsignedMax(bits)
    ensures DecodeNarrowUnsigned(UVarint(v) + rest, bits) == Parsed(Ok(v), rest)
  {
    DecodeU64OfEncoding(v, rest, Some(UnsignedMax(bits)));
    WrapUnsignedInRange(v, bits);
  }

  /**
   * What `parse_u16`/`parse_u32` consume is a terminated run of 7-bit groups whose
   * unsigned value is the result and fits the width, so the final cast is lossless (src/de.rs:91-99).
   */
  lemma DecodeNarrowUnsignedSound(buf: seq<Byte>, bits: nat)
    requires bits == 16 || bits == 32
    requires DecodeNarrowUnsigned(buf, bits).result.Ok?
    ensures var p := DecodeNarrowUnsigned(buf, bits);
      Suffix(p.rest, buf) && Terminated(Consumed(buf, p.rest))
      && p.result.value == UValue(Consumed(buf, p.rest)) && p.result.value <= UnsignedMax(bits)
  {
    var max := Some(UnsignedMax(bits));
    DecodeU64Sound(buf, max);
    WrapUnsignedInRange(DecodeU64(buf, max).result.value, bits);
  }

  /** `parse_i16`/`parse_i32` read back what `serialize_i16`/`serialize_i32` wrote, -32768 included (src/de.rs:32-40, 546-565). */
  lemma DecodeNarrowSignedOfEncoding(v: int, bits: nat, rest: seq<Byte>)
    requires bits == 16 || bits == 32
    requires -(SignedMax(bits) + 1) <= v <= SignedMax(bits)
    ensures DecodeNarrowSigned(SVarint(v) + rest, bits) == Parsed(Ok(v), rest)
  {
    DecodeI64OfEncoding(v, rest, Some(SignedMax(bits)));
    WrapSignedInRange(v, bits);
  }

  /**
   * What `parse_i16`/`parse_i32` consume is a terminated run of 7-bit groups whose
   * signed value is the result and fits the width, so the final cast is lossless (src/de.rs:32-40).
   */
  lemma DecodeNarrowSignedSound(buf: seq<Byte>, bits: nat)
    requires bits == 16 || bits == 32
    requires DecodeNarrowSigned(buf, bits).result.Ok?
    ensures var p := DecodeNarrowSigned(buf, bits);
      Suffix(p.rest, buf) && Terminated(Consumed(buf, p.rest))
      && p.result.value == SValue(Consumed(buf, p.rest))
      && -(SignedMax(bits) + 1) <= p.result.value <= SignedMax(bits)
  {
    var max := Some(SignedMax(bits));
    DecodeI64Sound(buf, max);
    WrapSignedInRange(DecodeI64(buf, max).result.value, bits);
  }

  // ---------------------------------------------------------------- bit patterns

  /** `parse_f32`/`parse_f64` read back the pattern `serialize_f32`/`serialize_f64` wrote (src/ser.rs:161-182, src/de.rs:127-159). */
  lemma DecodeBitsOfEncoding(bits: nat, n: nat, rest: seq<Byte>)
    requires bits < Pow(256, n)
    ensures DecodeBits(BigEndian(bits, n) + rest, n) == Parsed(Ok(bits), rest)
  {
    var e := BigEndian(bits, n);
    assert (e + rest)[..n] == e && (e + rest)[n..] == rest;
    BigEndianRoundTrip(bits, n);
  }

  /** 32 bits are 4 bytes and 64 bits are 8. */
  lemma PatternWidths()
    ensures Pow(256, 4) == U32_MAX + 1 && Pow(256, 8) == U64_MAX + 1
  {
  }

  /**
   * With fewer than `n` bytes the parse fails with `ValueTruncated` and
   * consumes nothing; otherwise it consumes `n` bytes whose big-endian reading
   * is the pattern it returns (src/de.rs:127-159).
   */
  lemma DecodeBitsSound(buf: seq<Byte>, n: nat)
    ensures var p := DecodeBits(buf, n);
      if |buf| < n then p == Parsed(Err(ValueTruncated), buf)
      else (p.result.Ok? && p.result.value < Pow(256, n) && buf == BigEndian(p.result.value, n) + p.rest)
  {
    if |buf| >= n {
      BigEndianOfValue(buf[..n]);
      BigEndianValueBound(buf[..n]);
      assert buf == buf[..n] + buf[n..];
    }
  }

  // ---------------------------------------------------------------- char

  /** `parse_char` reads back the UTF-8 bytes `serialize_char` wrote and nothing more (src/ser.rs:184-192, src/de.rs:161-181). */
  lemma DecodeCharOfEncoding(c: char, rest: seq<Byte>)
    ensures DecodeChar(EncodeChar(c) + rest) == Parsed(Ok(c), rest)
  {
    var e := EncodeChar(c);
    var buf := e + rest;
    var n := |e|;
    EncodeCharWellFormed(c);
    DecodeEncodeChar(c);
    assert buf[0] == e[0] && buf[..n] == e && buf[n..] == rest;
    OneCharValid(e);
    assert e[..n] == e && e[n..] == [];
  }

  /**
   * On success `parse_char` consumes exactly the length its lead byte
   * announces, and those bytes are the encoding of the char it returns. On
   * failure it consumes nothing, and the error is `ValueTruncated` exactly when
   * the slice is empty or shorter than a recognised lead announces (src/de.rs:161-181).
   */
  lemma DecodeCharSound(buf: seq<Byte>)
    ensures var p := DecodeChar(buf);
      p.result.Ok? ==>
        (buf != [] && 1 <= LeadLength(buf[0]) <= |buf|
         && buf == EncodeChar(p.result.value) + p.rest
         && |EncodeChar(p.result.value)| == LeadLength(buf[0]))
    ensures var p := DecodeChar(buf);
      p.result.Err? ==>
        (p.rest == buf
         && (p.result.error == ValueTruncated || p.result.error == InvalidUtf8)
         && (p.result.error == ValueTruncated <==> buf == [] || (LeadLength(buf[0]) != 0 && |buf| < LeadLength(buf[0]))))
  {
    var p := DecodeChar(buf);
    if p.result.Ok? {
      var n := LeadLength(buf[0]);
      var x := buf[..n];
      assert x[0] == buf[0];
      OneCharValid(x);
      assert x[..n] == x && x[n..] == [];
      EncodeDecodeChar(x);
      assert buf == x + buf[n..];
    }
  }

  // ---------------------------------------------------------------- str and bytes

  /** `parse_bytes` reads back a varint length followed by that many bytes (src/de.rs:196-206). */
  lemma DecodeBytesOfEncoding(bs: seq<Byte>, rest: seq<Byte>)
    requires |bs| <= U64_MAX
    ensures DecodeBytes(UVarint(|bs|) + bs + rest) == Parsed(Ok(bs), rest)
  {
    DecodeU64OfEncoding(|bs|, bs + rest, None);
    assert UVarint(|bs|) + bs + rest == UVarint(|bs|) + (bs + rest);
    assert (bs + rest)[..|bs|] == bs && (bs + rest)[|bs|..] == rest;
  }

  /** `parse_str` reads back what `serialize_str` wrote (src/ser.rs:194-202, src/de.rs:183-194). */
  lemma DecodeStrOfEncoding(s: string, rest: seq<Byte>)
    requires |EncodeString(s)| <= U64_MAX
    ensures DecodeStr(UVarint(|EncodeString(s)|) + EncodeString(s) + rest) == Parsed(Ok(s), rest)
  {
    var e := EncodeString(s);
    DecodeU64OfEncoding(|e|, e + rest, None);
    assert UVarint(|e|) + e + rest == UVarint(|e|) + (e + rest);
    assert (e + rest)[..|e|] == e && (e + rest)[|e|..] == rest;
    DecodeEncodeString(s);
  }

  /**
   * A length prefix announcing more bytes than remain makes both `parse_str`
   * and `parse_bytes` fail with `ValueTruncated`, leaving the bytes after the
   * prefix (src/de.rs:186-188, 199-201).
   */
  lemma DecodeLengthTruncated(len: nat, body: seq<Byte>)
    requires len <= U64_MAX && |body| < len
    ensures DecodeStr(UVarint(len) + body) == Parsed(Err(ValueTruncated), body)
    ensures DecodeBytes(UVarint(len) + body) == Parsed(Err(ValueTruncated), body)
  {
    DecodeU64OfEncoding(len, body, None);
  }

  /** `parse_str` rejects a body that is not valid UTF-8 and leaves it unread (src/de.rs:189-191). */
  lemma DecodeStrInvalid(body: seq<Byte>, rest: seq<Byte>)
    requires |body| <= U64_MAX && !ValidUtf8(body)
    ensures DecodeStr(UVarint(|body|) + body + rest) == Parsed(Err(InvalidUtf8), body + rest)
  {
    DecodeU64OfEncoding(|body|, body + rest, None);
    assert UVarint(|body|) + body + rest == UVarint(|body|) + (body + rest);
    assert (body + rest)[..|body|] == body;
  }

  /**
   * What `parse_str` accepts is a varint length, then exactly that many bytes,
   * which are the UTF-8 bytes of the string it returns (src/de.rs:183-194).
   */
  lemma DecodeStrSound(buf: seq<Byte>)
    requires DecodeStr(buf).result.Ok?
    ensures var p, q := DecodeStr(buf), DecodeU64(buf, None);
      q.result.Ok? && q.result.value == |EncodeString(p.result.value)|
      && q.rest == EncodeString(p.result.value) + p.rest
  {
    var q := DecodeU64(buf, None);
    var body := q.rest[..q.result.value];
    EncodeDecodeString(body);
    assert q.rest == body + q.rest[q.result.value..];
  }

  /** What `parse_bytes` accepts is a varint length, then exactly that many bytes, which it returns (src/de.rs:196-206). */
  lemma DecodeBytesSound(buf: seq<Byte>)
    requires DecodeBytes(buf).result.Ok?
    ensures var p, q := DecodeBytes(buf), DecodeU64(buf, None);
      q.result.Ok? && q.result.value == |p.result.value| && q.rest == p.result.value + p.rest
  {
    var q := DecodeU64(buf, None);
    assert q.rest == q.rest[..q.result.value] + q.rest[q.result.value..];
  }
}
