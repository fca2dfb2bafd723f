/**
 * What the Rust `Deserializer` promises about the bytes the `Serializer`
 * writes: every parse reads back the value that was serialized and stops at the
 * end of its encoding, and whatever a parse accepts is a well-formed encoding
 * of the value it returns.
 */
module RustCodec {
  import opened Bytes
  import opened Varint
  import opened Utf8
  import opened RustError
  import opened RustDe
  import RustSer

  /** `rest` is what is left of `buf` after a parse: a suffix of it. */
  predicate Suffix(rest: seq<Byte>, buf: seq<Byte>)
  {
    |rest| <= |buf| && buf[|buf| - |rest|..] == rest
  }

  /** The bytes a parse consumed. */
  function Consumed(buf: seq<Byte>, rest: seq<Byte>): seq<Byte>
    requires |rest| <= |buf|
  {
    buf[..|buf| - |rest|]
  }

  // ---------------------------------------------------------------- folding facts

  /** One more group multiplies the accumulator by at least 128. */
  lemma FoldGrows128(acc: nat, bs: seq<Byte>)
    requires bs != []
    ensures Fold(acc, bs) >= acc * 128
  {
    FoldGrows(acc * 128 + bs[0] % 128, bs[1..]);
  }

  /** Consuming the first byte and then `Consumed(buf[1..], r)` is consuming `[buf[0]] + Consumed(buf[1..], r)`. */
  lemma ConsumedCons(buf: seq<Byte>, r: seq<Byte>)
    requires buf != [] && Suffix(r, buf[1..])
    ensures Suffix(r, buf) && Consumed(buf, r) == [buf[0]] + Consumed(buf[1..], r)
  {
    assert buf == [buf[0]] + buf[1..];
  }

  lemma FoldCons(acc: nat, b: Byte, c: seq<Byte>)
    ensures Fold(acc, [b] + c) == Fold(acc * 128 + b % 128, c)
  {
    assert ([b] + c)[1..] == c;
  }

  /** A byte with bit 0x80 set in front of a terminated run, or a final byte alone, is terminated. */
  lemma TerminatedCons(b: Byte, c: seq<Byte>)
    requires (b >= 0x80 && Terminated(c)) || (b < 0x80 && c == [])
    ensures Terminated([b] + c)
  {
  }

  lemma ConsumedNothing(buf: seq<Byte>)
    ensures Suffix(buf, buf) && Consumed(buf, buf) == []
  {
  }

  /** One group in front of what the rest of a loop consumed: still a suffix, still terminated, one more fold step. */
  lemma GroupConsumed(buf: seq<Byte>, value: nat, rest: seq<Byte>)
    requires buf != [] && Suffix(rest, buf[1..])
    requires buf[0] >= 0x80 ==> Terminated(Consumed(buf[1..], rest))
    requires buf[0] < 0x80 ==> rest == buf[1..]
    ensures Suffix(rest, buf) && Terminated(Consumed(buf, rest))
    ensures Fold(value, Consumed(buf, rest)) == Fold(value * 128 + buf[0] % 128, Consumed(buf[1..], rest))
  {
    ConsumedCons(buf, rest);
    FoldCons(value, buf[0], Consumed(buf[1..], rest));
    if buf[0] < 0x80 {
      ConsumedNothing(buf[1..]);
    }
    TerminatedCons(buf[0], Consumed(buf[1..], rest));
  }

  // ---------------------------------------------------------------- u64

  /**
   * The loop of `parse_u64`, run over a terminated run of groups whose value fits
   * in a u64 and under `max`, accepts exactly those groups.
   */
  lemma {:induction false} U64LoopTerminated(bs: seq<Byte>, rest: seq<Byte>, value: nat, max: Option<nat>)
    requires Terminated(bs)
    requires Fold(value, bs) <= U64_MAX
    requires max.None? || Fold(value, bs) <= max.value
    ensures U64Loop(bs + rest, value, true, max) == Parsed(Ok(Fold(value, bs)), rest)
    decreases |bs|
  {
    var b, tail := bs[0], bs[1..];
    var value' := value * 128 + b % 128;
    assert (bs + rest)[0] == b && (bs + rest)[1..] == tail + rest;
    FoldGrows(value', tail);
    if |bs| > 1 {
      assert Terminated(tail);
      U64LoopTerminated(tail, rest, value', max);
    } else {
      assert tail + rest == rest;
    }
  }

  /**
   * `parse_u64` on the bytes `serialize_usize(v)` writes returns `v` and leaves
   * exactly the bytes after the encoding (src/de.rs:101-125, src/ser.rs:18-44).
   */
  lemma DecodeU64OfEncoding(v: nat, rest: seq<Byte>, max: Option<nat>)
    requires v <= U64_MAX
    requires max.None? || v <= max.value
    ensures DecodeU64(UVarint(v) + rest, max) == Parsed(Ok(v), rest)
  {
    var bs := UVarint(v);
    UVarintTerminated(v);
    UVarintValue(v);
    assert (bs + rest)[0] == bs[0] && (bs + rest)[1..] == bs[1..] + rest;
    assert Fold(0, bs) == Fold(bs[0] % 128, bs[1..]);
    if |bs| > 1 {
      U64LoopTerminated(bs[1..], rest, bs[0] % 128, max);
    } else {
      assert bs[1..] + rest == rest;
    }
  }

  /** One accepted step of the loop of `parse_u64`: no overflow, the bound holds, and the loop goes on. */
  lemma U64Step(buf: seq<Byte>, value: nat, max: Option<nat>)
    requires U64Loop(buf, value, true, max).result.Ok?
    ensures buf != [] && value * 128 <= U64_MAX
    ensures var value' := value * 128 + buf[0] % 128;
      value' <= U64_MAX && (max.None? || value' <= max.value)
      && U64Loop(buf, value, true, max) == U64Loop(buf[1..], value', buf[0] >= 0x80, max)
  {
    assert value <= 0x1FF_FFFF_FFFF_FFFF;
  }

  /** What the loop of `parse_u64` accepts is a terminated run of groups whose value is in range. */
  lemma {:induction false} U64LoopSound(buf: seq<Byte>, value: nat, more: bool, max: Option<nat>)
    requires value <= U64_MAX && (max.None? || value <= max.value)
    requires U64Loop(buf, value, more, max).result.Ok?
    ensures var p := U64Loop(buf, value, more, max);
      Suffix(p.rest, buf)
      && (more ==> Terminated(Consumed(buf, p.rest))) && (!more ==> p.rest == buf)
      && p.result.value == Fold(value, Consumed(buf, p.rest))
      && p.result.value <= U64_MAX && (max.None? || p.result.value <= max.value)
    decreases |buf|
  {
    if more {
      U64Step(buf, value, max);
      var value' := value * 128 + buf[0] % 128;
      U64LoopSound(buf[1..], value', buf[0] >= 0x80, max);
      GroupConsumed(buf, value, U64Loop(buf[1..], value', buf[0] >= 0x80, max).rest);
    } else {
      ConsumedNothing(buf);
    }
  }

  /**
   * What `parse_u64` consumes is a run of 7-bit groups that ends at the first byte
   * with bit 0x80 clear, and the value of those groups is the result, within the
   * bound (src/de.rs:101-125). The run need not be the shortest encoding.
   */
  lemma DecodeU64Sound(buf: seq<Byte>, max: Option<nat>)
    requires max.None? || max.value >= 127
    requires DecodeU64(buf, max).result.Ok?
    ensures var p := DecodeU64(buf, max);
      Suffix(p.rest, buf) && Terminated(Consumed(buf, p.rest))
      && p.result.value == UValue(Consumed(buf, p.rest))
      && p.result.value <= U64_MAX && (max.None? || p.result.value <= max.value)
  {
    U64LoopSound(buf[1..], buf[0] % 128, buf[0] >= 0x80, max);
    GroupConsumed(buf, 0, U64Loop(buf[1..], buf[0] % 128, buf[0] >= 0x80, max).rest);
  }

  // ---------------------------------------------------------------- i64

  /**
   * The loop of `parse_i64` over a terminated run of groups whose magnitude is
   * within range accepts exactly those groups; a negative magnitude of 2^63 is
   * the `i64::MIN` special case.
   */
  lemma {:induction false} I64LoopTerminated(bs: seq<Byte>, rest: seq<Byte>, value: nat, negative: bool, max: Option<nat>)
    requires Terminated(bs)
    requires Fold(value, bs) <= (if negative then I64_MAX + 1 else I64_MAX)
    requires max.None? || Fold(value, bs) <= (if negative then max.value + 1 else max.value)
    ensures I64Loop(bs + rest, value, true, negative, max)
      == Parsed(Ok(if negative then -(Fold(value, bs) as int) else Fold(value, bs)), rest)
    decreases |bs|, 2
  {
    if |bs| > 1 {
      I64InnerGroup(bs, rest, value, negative, max);
    } else {
      var b := bs[0];
      assert bs == [b] && bs[1..] == [];
      I64LastGroup(b, rest, value, negative, max);
    }
  }

  /** A group followed by more groups: one step of the loop, then the rest of the run. */
  lemma {:induction false} I64InnerGroup(bs: seq<Byte>, rest: seq<Byte>, value: nat, negative: bool, max: Option<nat>)
    requires |bs| > 1 && Terminated(bs)
    requires Fold(value, bs) <= (if negative then I64_MAX + 1 else I64_MAX)
    requires max.None? || Fold(value, bs) <= (if negative then max.value + 1 else max.value)
    ensures I64Loop(bs + rest, value, true, negative, max)
      == Parsed(Ok(if negative then -(Fold(value, bs) as int) else Fold(value, bs)), rest)
    decreases |bs|, 1
  {
    TerminatedTail(bs);
    ConsAppend(bs, rest);
    I64NextGroup(bs[0], bs[1..], rest, value, negative, max);
  }

  lemma TerminatedTail(bs: seq<Byte>)
    requires |bs| > 1 && Terminated(bs)
    ensures bs[0] >= 0x80 && Terminated(bs[1..])
  {
  }

  lemma ConsAppend(bs: seq<Byte>, rest: seq<Byte>)
    requires bs != []
    ensures bs + rest == [bs[0]] + (bs[1..] + rest)
  {
  }

  lemma {:induction false} I64NextGroup(b: Byte, tail: seq<Byte>, rest: seq<Byte>, value: nat, negative: bool, max: Option<nat>)
    requires b >= 0x80 && Terminated(tail)
    requires Fold(value * 128 + b % 128, tail) <= (if negative then I64_MAX + 1 else I64_MAX)
    requires max.None? || Fold(value * 128 + b % 128, tail) <= (if negative then max.value + 1 else max.value)
    ensures I64Loop([b] + (tail + rest), value, true, negative, max)
      == Parsed(Ok(if negative then -(Fold(value * 128 + b % 128, tail) as int) else Fold(value * 128 + b % 128, tail)), rest)
    decreases |tail| + 1, 0
  {
    var value' := value * 128 + b % 128;
    FoldGrows(value', tail);
    FoldGrows128(value', tail);
    InnerBound(value, b % 128, Fold(value', tail));
    I64Forward(b, tail + rest, value, negative, max);
    I64LoopTerminated(tail, rest, value', negative, max);
  }

  /** The loop of `parse_i64` on a final group accepts it and stops. */
  lemma I64LastGroup(b: Byte, rest: seq<Byte>, value: nat, negative: bool, max: Option<nat>)
    requires b < 0x80
    requires value * 128 + b <= (if negative then I64_MAX + 1 else I64_MAX)
    requires max.None? || value * 128 + b <= (if negative then max.value + 1 else max.value)
    ensures I64Loop([b] + rest, value, true, negative, max)
      == Parsed(Ok(if negative then -(value * 128 + b) else value * 128 + b), rest)
  {
    assert ([b] + rest)[1..] == rest;
    if !MinStep([b] + rest, value, negative) {
      LastBound(value, b, negative);
    }
  }

  /** A group that is followed by another keeps the running magnitude below 2^56. */
  lemma InnerBound(value: nat, lsb: nat, total: nat)
    requires (value * 128 + lsb) * 128 <= total <= I64_MAX + 1
    ensures value * 128 + lsb <= 0x0100_0000_0000_0000
  {
    MulMonotone(0x0100_0000_0000_0001, value * 128 + lsb, 128);
  }

  /** The last group overflows the `* 128` only in the `i64::MIN` case. */
  lemma LastBound(value: nat, lsb: nat, negative: bool)
    requires lsb < 128 && value * 128 + lsb <= (if negative then I64_MAX + 1 else I64_MAX)
    requires !(negative && lsb == 0 && value == 0x0100_0000_0000_0000)
    ensures value * 128 <= I64_MAX
  {
    MulMonotone(0x0100_0000_0000_0001, value, 128);
  }

  /** A step of the loop of `parse_i64` that neither overflows nor leaves the bound moves on to the next byte. */
  lemma I64Forward(b: Byte, rest: seq<Byte>, value: nat, negative: bool, max: Option<nat>)
    requires value * 128 <= I64_MAX && !ExceedsBound(value * 128 + b % 128, negative, max)
    requires !MinStep([b] + rest, value, negative)
    ensures I64Loop([b] + rest, value, true, negative, max)
      == I64Loop(rest, value * 128 + b % 128, b >= 0x80, negative, max)
  {
    assert ([b] + rest)[1..] == rest;
  }

  /**
   * `parse_i64` accepts every terminated run of groups whose magnitude is in
   * range, whatever bytes follow it, and returns its signed value.
   */
  lemma DecodeI64OfGroups(bs: seq<Byte>, rest: seq<Byte>, max: Option<nat>)
    requires Terminated(bs)
    requires SMagnitude(bs) <= (if SNegative(bs) then I64_MAX + 1 else I64_MAX)
    requires max.None? || SMagnitude(bs) <= (if SNegative(bs) then max.value + 1 else max.value)
    ensures DecodeI64(bs + rest, max) == Parsed(Ok(SValue(bs)), rest)
  {
    var first, tail := bs[0], bs[1..];
    assert (bs + rest)[0] == first && (bs + rest)[1..] == tail + rest;
    if |bs| > 1 {
      assert Terminated(tail);
      I64LoopTerminated(tail, rest, first % 64, SNegative(bs), max);
    } else {
      assert tail + rest == rest;
    }
  }

  /**
   * `parse_i64` on the bytes `serialize_i64(v)` writes returns `v` and leaves the
   * bytes after the encoding, for every i64 including `i64::MIN`, and for a bound
   * `max` every `v` in `-(max + 1) ..= max` (src/de.rs:42-82, src/ser.rs:95-127).
   */
  lemma DecodeI64OfEncoding(v: int, rest: seq<Byte>, max: Option<nat>)
    requires I64_MIN <= v <= I64_MAX
    requires max.None? || -(max.value + 1) <= v <= max.value
    ensures DecodeI64(SVarint(v) + rest, max) == Parsed(Ok(v), rest)
  {
    SVarintValue(v);
    DecodeI64OfGroups(SVarint(v), rest, max);
  }

  /** The `i64::MIN` step of the loop of `parse_i64` (src/de.rs:58-67). */
  predicate MinStep(buf: seq<Byte>, value: nat, negative: bool)
  {
    buf != [] && buf[0] < 0x80 && negative && buf[0] % 128 == 0 && value == 0x0100_0000_0000_0000
  }

  /** Any other accepted step of the loop of `parse_i64`: no overflow, the bound holds, and the loop goes on. */
  lemma I64Step(buf: seq<Byte>, value: nat, negative: bool, max: Option<nat>)
    requires I64Loop(buf, value, true, negative, max).result.Ok? && !MinStep(buf, value, negative)
    ensures buf != [] && value <= 0xFF_FFFF_FFFF_FFFF
    ensures var value' := value * 128 + buf[0] % 128;
      value' <= I64_MAX && !ExceedsBound(value', negative, max)
      && I64Loop(buf, value, true, negative, max) == I64Loop(buf[1..], value', buf[0] >= 0x80, negative, max)
  {
  }

  /**
   * What the loop of `parse_i64` promises about its parse `p` of `buf` from
   * `value`: it consumed a terminated run of groups (none when the loop was
   * already done), and returned their signed value, which lies in the i64
   * range and in `-(max + 1) ..= max`.
   */
  predicate SoundI64(buf: seq<Byte>, value: nat, more: bool, negative: bool, max: Option<nat>, p: Parsed<int>)
  {
    p.result.Ok? && Suffix(p.rest, buf)
    && (more ==> Terminated(Consumed(buf, p.rest))) && (!more ==> p.rest == buf)
    && p.result.value == (var m := Fold(value, Consumed(buf, p.rest)); if negative then -(m as int) else m)
    && I64_MIN <= p.result.value <= I64_MAX
    && (max.None? || -(max.value + 1) <= p.result.value <= max.value)
  }

  /** One more group in front of what the rest of the loop accepted. */
  lemma SoundI64Cons(buf: seq<Byte>, value: nat, negative: bool, max: Option<nat>, p: Parsed<int>)
    requires buf != [] && SoundI64(buf[1..], value * 128 + buf[0] % 128, buf[0] >= 0x80, negative, max, p)
    ensures SoundI64(buf, value, true, negative, max, p)
  {
    GroupConsumed(buf, value, p.rest);
  }

  /** The `i64::MIN` step accepts its one group (src/de.rs:58-67). */
  lemma SoundI64Min(buf: seq<Byte>, value: nat, negative: bool, max: Option<nat>)
    requires MinStep(buf, value, negative) && !ExceedsBound(value, negative, max)
    requires max.None? || max.value < 0xFF_FFFF_FFFF_FFFF
    ensures SoundI64(buf, value, true, negative, max, Parsed(Ok(I64_MIN), buf[1..]))
  {
    ConsumedNothing(buf[1..]);
    GroupConsumed(buf, value, buf[1..]);
    assert Fold(value, Consumed(buf, buf[1..])) == 0x8000_0000_0000_0000;
  }

  /** What the loop of `parse_i64` accepts is a terminated run of groups whose signed value is in range. */
  lemma {:induction false} I64LoopSound(buf: seq<Byte>, value: nat, more: bool, negative: bool, max: Option<nat>)
    requires value <= I64_MAX && !ExceedsBound(value, negative, max)
    requires max.None? || max.value < 0xFF_FFFF_FFFF_FFFF
    requires I64Loop(buf, value, more, negative, max).result.Ok?
    ensures SoundI64(buf, value, more, negative, max, I64Loop(buf, value, more, negative, max))
    decreases |buf|
  {
    if more && MinStep(buf, value, negative) {
      SoundI64Min(buf, value, negative, max);
    } else if more {
      I64Step(buf, value, negative, max);
      var value' := value * 128 + buf[0] % 128;
      I64LoopSound(buf[1..], value', buf[0] >= 0x80, negative, max);
      SoundI64Cons(buf, value, negative, max, I64Loop(buf[1..], value', buf[0] >= 0x80, negative, max));
    } else {
      ConsumedNothing(buf);
    }
  }

  /**
   * What `parse_i64` consumes is a terminated run of 7-bit groups whose signed value
   * is the result (not necessarily the shortest encoding of it): the magnitude is
   * negated iff bit 0x40 of the first byte is set, and the value
   * lies in the i64 range and in `-(max + 1) ..= max` (src/de.rs:42-82).
   */
  lemma DecodeI64Sound(buf: seq<Byte>, max: Option<nat>)
    requires max.None? || 63 <= max.value < 0xFF_FFFF_FFFF_FFFF
    requires DecodeI64(buf, max).result.Ok?
    ensures var p := DecodeI64(buf, max);
      Suffix(p.rest, buf) && Terminated(Consumed(buf, p.rest))
      && p.result.value == SValue(Consumed(buf, p.rest))
      && (p.result.value < 0 ==> SNegative(Consumed(buf, p.rest)))
      && I64_MIN <= p.result.value <= I64_MAX
      && (max.None? || -(max.value + 1) <= p.result.value <= max.value)
  {
    var first := buf[0];
    var negative := (first / 64) % 2 == 1;
    I64LoopSound(buf[1..], first % 64, first >= 0x80, negative, max);
    var p := I64Loop(buf[1..], first % 64, first >= 0x80, negative, max);
    ConsumedCons(buf, p.rest);
    TerminatedCons(first, Consumed(buf[1..], p.rest));
    assert ([first] + Consumed(buf[1..], p.rest))[1..] == Consumed(buf[1..], p.rest);
  }
}
