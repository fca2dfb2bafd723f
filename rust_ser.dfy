/**
 * The `Serializer` of src/ser.rs: every method appends the encoding of one value
 * to the byte buffer it holds and leaves the bytes already there alone.
 */
module RustSer {
  import opened Bytes
  import opened Varint
  import opened Utf8

  /** `v as u8` for an `i8`: the two's-complement byte. */
  function I8Byte(v: int): Byte
    requires -128 <= v <= 127
  {
    v % 256
  }

  /** `v / 256^(i+1)` is `v / 256^i` shifted right once more. */
  lemma ShiftOnce(v: nat, i: nat)
    ensures v / Pow(256, i + 1) == (v / Pow(256, i)) / 256
  {
    DivDiv(v, Pow(256, i), 256);
    assert Pow(256, i + 1) == Pow(256, i) * 256;
  }

  class Serializer {
    var buffer: seq<Byte>

    constructor (initial: seq<Byte>)
      ensures buffer == initial
    {
      buffer := initial;
    }

    /** src/ser.rs:18-44; `v` is a 64-bit `usize`. */
    method SerializeUsize(v0: nat)
      requires v0 <= U64_MAX
      modifies this
      ensures buffer == old(buffer) + UVarint(v0)
    {
      var v := v0;
      var stack: seq<Group> := [];
      while v >= 0x80
        invariant UVarint(v0) == Chain(v, if stack == [] then 0 else 0x80) + Unstack(stack)
        invariant buffer == old(buffer)
        decreases v
      {
        UnstackPush(stack, v % 128);
        stack := stack + [v % 128];
        v := v / 128;
        if v == 0 {
          // never taken: `v` was at least 128 before the shift
          assert false;
          break;
        }
      }
      var more := if stack == [] then 0 else 0x80;
      assert Chain(v, more) == [v + more];
      buffer := buffer + [v + more];
      PopGroups(stack);
    }

    /** The pop loop shared by src/ser.rs:37-43 and src/ser.rs:119-126. */
    method PopGroups(stack0: seq<Group>)
      modifies this
      ensures buffer == old(buffer) + Unstack(stack0)
    {
      var stack := stack0;
      while stack != []
        invariant buffer + Unstack(stack) == old(buffer) + Unstack(stack0)
        decreases |stack|
      {
        var next: Byte := stack[|stack| - 1];
        stack := stack[..|stack| - 1];
        if stack != [] {
          next := next + 0x80;
        }
        buffer := buffer + [next];
      }
    }

    /** src/ser.rs:58-68. */
    method SerializeBool(v: bool)
      modifies this
      ensures buffer == old(buffer) + [if v then 1 else 0]
    {
      buffer := buffer + [if v then 1 else 0];
    }

    /** src/ser.rs:70-77. */
    method SerializeI8(v: int)
      requires -128 <= v <= 127
      modifies this
      ensures buffer == old(buffer) + [I8Byte(v)]
    {
      buffer := buffer + [I8Byte(v)];
    }

    /** src/ser.rs:79-84. */
    method SerializeI16(v: int)
      requires -0x8000 <= v <= I16_MAX
      modifies this
      ensures buffer == old(buffer) + SVarint(v)
    {
      SerializeI64(v);
    }

    /** src/ser.rs:86-91. */
    method SerializeI32(v: int)
      requires I32_MIN <= v <= I32_MAX
      modifies this
      ensures buffer == old(buffer) + SVarint(v)
    {
      SerializeI64(v);
    }

    /**
     * src/ser.rs:95-127. For `i64::MIN` the magnitude is 2^63, which is what the
     * wrapping `(-v) as u64` of a release build yields.
     */
    method SerializeI64(v: int)
      requires I64_MIN <= v <= I64_MAX
      modifies this
      ensures buffer == old(buffer) + SVarint(v)
    {
      var sign: nat := if v >= 0 then 0 else 0x40;
      assert sign == SignBit(v);
      var abs, stack := SignedGroups(Abs(v), sign);
      var more := if stack == [] then 0 else 0x80;
      assert SChain(abs, sign, more) == [abs + sign + more];
      buffer := buffer + [abs + sign + more];
      PopGroups(stack);
    }

    /**
     * The push loop of src/ser.rs:106-112: 7-bit groups of the magnitude are
     * pushed, least significant first, until what is left fits the 6 bits of
     * the first byte.
     */
    method SignedGroups(abs0: nat, sign: nat) returns (abs: nat, stack: seq<Group>)
      requires sign == 0 || sign == 0x40
      ensures abs < 0x40
      ensures SChain(abs0, sign, 0) == SChain(abs, sign, if stack == [] then 0 else 0x80) + Unstack(stack)
    {
      abs, stack := abs0, [];
      while abs >= 0x40
        invariant SChain(abs0, sign, 0) == SChain(abs, sign, if stack == [] then 0 else 0x80) + Unstack(stack)
        decreases abs
      {
        SChainPush(abs, sign, stack);
        stack := stack + [abs % 128];
        abs := abs / 128;
        if abs == 0 {
          // taken for a magnitude of 64..127: the 0 left over becomes the first byte
          break;
        }
      }
    }

    /** src/ser.rs:129-135. */
    method SerializeU8(v: Byte)
      modifies this
      ensures buffer == old(buffer) + [v]
    {
      buffer := buffer + [v];
    }

    /** src/ser.rs:137-142. */
    method SerializeU16(v: nat)
      requires v <= U16_MAX
      modifies this
      ensures buffer == old(buffer) + UVarint(v)
    {
      SerializeU64(v);
    }

    /** src/ser.rs:144-149. */
    method SerializeU32(v: nat)
      requires v <= U32_MAX
      modifies this
      ensures buffer == old(buffer) + UVarint(v)
    {
      SerializeU64(v);
    }

    /** src/ser.rs:152-158. */
    method SerializeU64(v: nat)
      requires v <= U64_MAX
      modifies this
      ensures buffer == old(buffer) + UVarint(v)
    {
      SerializeUsize(v);
    }

    /** The byte loop of src/ser.rs:161-182 over the bit pattern `bits` of `n` bytes. */
    method SerializeBits(bits: nat, n: nat)
      modifies this
      ensures buffer == old(buffer) + BigEndian(bits, n)
    {
      var i := n;
      while i > 0
        invariant 0 <= i <= n
        invariant buffer == old(buffer) + BigEndian(bits / Pow(256, i), n - i)
        decreases i
      {
        i := i - 1;
        ShiftOnce(bits, i);
        buffer := buffer + [(bits / Pow(256, i)) % 256];
      }
      assert bits / Pow(256, 0) == bits;
    }

    /** src/ser.rs:161-170, for the 32-bit pattern of an `f32`. */
    method SerializeF32(bits: nat)
      requires bits <= U32_MAX
      modifies this
      ensures buffer == old(buffer) + BigEndian(bits, 4)
    {
      SerializeBits(bits, 4);
    }

    /** src/ser.rs:173-182, for the 64-bit pattern of an `f64`. */
    method SerializeF64(bits: nat)
      requires bits <= U64_MAX
      modifies this
      ensures buffer == old(buffer) + BigEndian(bits, 8)
    {
      SerializeBits(bits, 8);
    }

    /** src/ser.rs:184-192: the UTF-8 bytes, with no length prefix. */
    method SerializeChar(v: char)
      modifies this
      ensures buffer == old(buffer) + EncodeChar(v)
    {
      buffer := buffer + EncodeChar(v);
    }

    /** src/ser.rs:194-202: the byte length as a varint, then the UTF-8 bytes. */
    method SerializeStr(v: string)
      requires |EncodeString(v)| <= U64_MAX
      modifies this
      ensures buffer == old(buffer) + UVarint(|EncodeString(v)|) + EncodeString(v)
    {
      var bytes := EncodeString(v);
      SerializeUsize(|bytes|);
      buffer := buffer + bytes;
    }
  }
}
