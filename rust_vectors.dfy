/**
 * The byte-level test vectors of src/de.rs, each an instance of a rule the
 * loops of `parse_u64` and `parse_i64` follow.
 */
module RustVectors {
  import opened Bytes
  import opened RustError
  import opened RustDe
  import Varint

  /** `k` continuation bytes carrying a zero group each. */
  function ZeroGroups(k: nat): (r: seq<Byte>)
    ensures |r| == k && forall i :: 0 <= i < k ==> r[i] == 0x80
  {
    if k == 0 then [] else [0x80] + ZeroGroups(k - 1)
  }

  /** Zero groups only shift the running value of `parse_u64` while it stays a u64. */
  lemma {:induction false} U64ZeroGroups(k: nat, rest: seq<Byte>, value: nat)
    requires value * Pow(128, k) <= U64_MAX
    ensures U64Loop(ZeroGroups(k) + rest, value, true, None) == U64Loop(rest, value * Pow(128, k), true, None)
  {
    if k > 0 {
      ZeroGroupsSplit(k, rest);
      ShiftedPow(value, k);
      U64ZeroGroups(k - 1, rest, value * 128);
    } else {
      assert ZeroGroups(k) + rest == rest;
    }
  }

  lemma PowPositive(k: nat)
    ensures Pow(128, k) >= 1
  {
  }

  /** The first of `k` zero groups is a continued zero, followed by the other `k - 1`. */
  lemma ZeroGroupsSplit(k: nat, rest: seq<Byte>)
    requires k > 0
    ensures (ZeroGroups(k) + rest)[0] == 0x80 && (ZeroGroups(k) + rest)[1..] == ZeroGroups(k - 1) + rest
  {
    assert (ZeroGroups(k) + rest)[1..] == ZeroGroups(k - 1) + rest;
  }

  /** Shifting by one group, then by `k - 1` more, is shifting by `k`, and the first shift is no larger. */
  lemma ShiftedPow(value: nat, k: nat)
    requires k > 0
    ensures value * 128 * Pow(128, k - 1) == value * Pow(128, k) && value * 128 <= value * Pow(128, k)
  {
    assert value * 128 * Pow(128, k - 1) == value * Pow(128, k);
    PowPositive(k - 1);
    MulMonotone(1, Pow(128, k - 1), value * 128);
  }

  /**
   * `parse_u64` rejects with `IntegerOverflow` when a `* 128` step leaves the u64
   * range: the test vector of src/de.rs:691-694 has accumulated 2^57 before its
   * final group.
   */
  lemma U64OverflowVector(s: seq<Byte>)
    requires s == [0x82, 0x80, 0x80, 0x80, 0x80, 0x80, 0x80, 0x80, 0x80, 0x00]
    ensures DecodeU64(s, None).result == Err(IntegerOverflow)
  {
    assert s[1..] == ZeroGroups(8) + [0x00];
    assert Pow(128, 8) == 0x100_0000_0000_0000;
    U64ZeroGroups(8, [0x00], 2);
  }

  /** `A0 C6 C9` passes 65535 at its third group, so the u16 parse overflows (src/de.rs:651-652). */
  lemma U16OverflowVector(s: seq<Byte>)
    requires s == [0xA0, 0xC6, 0xC9]
    ensures DecodeNarrowUnsigned(s, 16).result == Err(IntegerOverflow)
  {
    var m := Some(U16_MAX);
    assert s[1..] == [0xC6, 0xC9] && s[1..][1..] == [0xC9] && [0xC9][1..] == [];
    assert DecodeU64(s, m) == U64Loop(s[1..], 32, true, m);
    assert U64Loop(s[1..], 32, true, m) == U64Loop([0xC9], 4166, true, m);
    assert U64Loop([0xC9], 4166, true, m) == Parsed(Err(IntegerOverflow), []);
  }

  /** The bounded signed tests of src/de.rs:564-565: `A0 C6 C9` (533321) does not fit an i16. */
  lemma I16OverflowVector(s: seq<Byte>)
    requires s == [0xA0, 0xC6, 0xC9]
    ensures DecodeNarrowSigned(s, 16).result == Err(IntegerOverflow)
  {
    var m := Some(I16_MAX);
    assert s[1..] == [0xC6, 0xC9] && s[1..][1..] == [0xC9] && [0xC9][1..] == [];
    assert DecodeI64(s, m) == I64Loop(s[1..], 32, true, false, m);
    assert I64Loop(s[1..], 32, true, false, m) == I64Loop([0xC9], 4166, true, false, m);
    assert I64Loop([0xC9], 4166, true, false, m) == Parsed(Err(IntegerOverflow), []);
  }

  /** Zero groups only shift the magnitude `parse_i64` accumulates for a negative value. */
  lemma {:induction false} I64ZeroGroups(k: nat, rest: seq<Byte>, value: nat)
    requires value * Pow(128, k) <= 0x0100_0000_0000_0000
    ensures I64Loop(ZeroGroups(k) + rest, value, true, true, None) == I64Loop(rest, value * Pow(128, k), true, true, None)
  {
    if k > 0 {
      ZeroGroupsSplit(k, rest);
      ShiftedPow(value, k);
      I64ZeroGroups(k - 1, rest, value * 128);
    } else {
      assert ZeroGroups(k) + rest == rest;
    }
  }

  /**
   * The `i64::MIN` pattern of src/de.rs:612-615: eight groups after a first byte
   * of `C1` accumulate a negative 2^56, and a final group of 0 yields `i64::MIN`.
   */
  lemma I64MinVector(s: seq<Byte>)
    requires s == [0xC1, 0x80, 0x80, 0x80, 0x80, 0x80, 0x80, 0x80, 0x80, 0x00]
    ensures DecodeI64(s, None).result == Ok(I64_MIN)
  {
    assert s[1..] == ZeroGroups(8) + [0x00];
    assert Pow(128, 8) == 0x100_0000_0000_0000;
    I64ZeroGroups(8, [0x00], 1);
    assert [0x00][1..] == [];
  }

  /** The same pattern with a final group of 1 overflows (src/de.rs:620-624). */
  lemma I64MinPlusOneVector(s: seq<Byte>)
    requires s == [0xC1, 0x80, 0x80, 0x80, 0x80, 0x80, 0x80, 0x80, 0x80, 0x01]
    ensures DecodeI64(s, None).result == Err(IntegerOverflow)
  {
    assert s[1..] == ZeroGroups(8) + [0x01];
    assert Pow(128, 8) == 0x100_0000_0000_0000;
    I64ZeroGroups(8, [0x01], 1);
    assert [0x01][1..] == [];
  }

  /**
   * Neither loop of src/de.rs:43-82 and src/de.rs:102-125 insists on the
   * shortest form: `80 01` carries a zero group and then a group of 1, so both
   * parses return 1, although the serializer writes 1 as the single byte `01`.
   */
  lemma PaddedVector(s: seq<Byte>)
    requires s == [0x80, 0x01]
    ensures DecodeU64(s, None) == Parsed(Ok(1), [])
    ensures DecodeI64(s, None) == Parsed(Ok(1), [])
    ensures Varint.UVarint(1) == Varint.SVarint(1) == [0x01] != s
  {
    assert s[1..] == [0x01] && [0x01][1..] == [];
  }
}
