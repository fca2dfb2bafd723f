/**
 * The variable-length integer layout shared by `src/ser.rs`, `src/de.rs`,
 * `SerializedUnsignedInteger` and `SerializedInteger`: base-128 groups, most
 * significant first, with bit 0x80 set on every byte except the last (the
 * subidentifier layout of ITU-T X.690 section 8.19.2). The signed variant keeps
 * only 6 magnitude bits in its first byte and uses bit 0x40 as the sign.
 */
module Varint {
  import opened Bytes

  /** One 7-bit group, before bit 0x80 is or-ed in. */
  type Group = g: int | 0 <= g < 0x80

  /**
   * The groups of `v`, most significant first; `flag` (0 or 0x80) is or-ed into
   * the last byte and 0x80 into every earlier one.
   */
  function Chain(v: nat, flag: nat): (r: seq<Byte>)
    requires flag == 0 || flag == 0x80
    ensures |r| >= 1
    decreases v
  {
    if v < 128 then [v + flag] else Chain(v / 128, 0x80) + [v % 128 + flag]
  }

  /** Unsigned encoding of `v`. */
  function UVarint(v: nat): seq<Byte>
  {
    Chain(v, 0)
  }

  /**
   * Signed chain: the first byte keeps 6 magnitude bits and the sign bit `sign`
   * (0 or 0x40); later bytes hold 7-bit groups.
   */
  function SChain(m: nat, sign: nat, flag: nat): (r: seq<Byte>)
    requires sign == 0 || sign == 0x40
    requires flag == 0 || flag == 0x80
    ensures |r| >= 1
    decreases m
  {
    if m < 64 then [m + sign + flag] else SChain(m / 128, sign, 0x80) + [m % 128 + flag]
  }

  function SignBit(v: int): nat
  {
    if v < 0 then 0x40 else 0
  }

  /** Signed encoding of `v`: its magnitude, with bit 0x40 of the first byte set iff `v < 0`. */
  function SVarint(v: int): seq<Byte>
  {
    SChain(Abs(v), SignBit(v), 0)
  }

  /**
   * The bytes the pop loops of `serialize_usize`/`serialize_i64` and of the C++
   * `Serialize` methods emit for a stack
   * of 7-bit groups: the top first, with 0x80 on every byte except the one popped last.
   */
  function Unstack(stack: seq<Group>): seq<Byte>
  {
    if stack == [] then []
    else
      var top: Byte := stack[|stack| - 1] as int + (if |stack| > 1 then 0x80 else 0);
      [top] + Unstack(stack[..|stack| - 1])
  }

  lemma UnstackPush(stack: seq<Group>, g: Group)
    ensures Unstack(stack + [g]) == [g + (if stack == [] then 0 else 0x80)] + Unstack(stack)
  {
    assert (stack + [g])[..|stack|] == stack;
  }

  /** Pushing the low group of a long signed magnitude leaves the same bytes to come. */
  lemma SChainPush(abs: nat, sign: nat, stack: seq<Group>)
    requires sign == 0 || sign == 0x40
    requires abs >= 0x40
    ensures SChain(abs, sign, if stack == [] then 0 else 0x80) + Unstack(stack)
      == SChain(abs / 128, sign, 0x80) + Unstack(stack + [abs % 128])
  {
    var flag := if stack == [] then 0 else 0x80;
    UnstackPush(stack, abs % 128);
    assert SChain(abs, sign, flag) == SChain(abs / 128, sign, 0x80) + [abs % 128 + flag];
  }

  // ---------------------------------------------------------------- decoding view

  /** Bit 0x80 set on every byte but the last, clear on the last. */
  predicate Terminated(bs: seq<Byte>)
  {
    |bs| >= 1 && bs[|bs| - 1] < 0x80 && forall i :: 0 <= i < |bs| - 1 ==> bs[i] >= 0x80
  }

  /** `acc * 128 + (b & 0x7F)`, folded over `bs` from the left. */
  function Fold(acc: nat, bs: seq<Byte>): nat
    decreases |bs|
  {
    if bs == [] then acc else Fold(acc * 128 + bs[0] % 128, bs[1..])
  }

  /** The value an unsigned decoder accumulates over `bs`. */
  function UValue(bs: seq<Byte>): nat
  {
    Fold(0, bs)
  }

  /** The magnitude a signed decoder accumulates: 6 bits from the first byte, then 7-bit groups. */
  function SMagnitude(bs: seq<Byte>): nat
    requires |bs| >= 1
  {
    Fold(bs[0] % 64, bs[1..])
  }

  /** Bit 0x40 of the first byte. */
  predicate SNegative(bs: seq<Byte>)
    requires |bs| >= 1
  {
    (bs[0] / 64) % 2 == 1
  }

  /** The signed value of a complete signed encoding. */
  function SValue(bs: seq<Byte>): int
    requires |bs| >= 1
  {
    if SNegative(bs) then -(SMagnitude(bs) as int) else SMagnitude(bs)
  }

  // ---------------------------------------------------------------- lemmas

  lemma {:induction false} FoldSnoc(acc: nat, bs: seq<Byte>, b: Byte)
    ensures Fold(acc, bs + [b]) == Fold(acc, bs) * 128 + b % 128
    decreases |bs|
  {
    if bs == [] {
      assert bs + [b] == [b];
    } else {
      assert (bs + [b])[1..] == bs[1..] + [b];
      FoldSnoc(acc * 128 + bs[0] % 128, bs[1..], b);
    }
  }

  lemma {:induction false} FoldAppend(acc: nat, xs: seq<Byte>, ys: seq<Byte>)
    ensures Fold(acc, xs + ys) == Fold(Fold(acc, xs), ys)
    decreases |xs|
  {
    if xs == [] {
      assert xs + ys == ys;
    } else {
      assert (xs + ys)[1..] == xs[1..] + ys;
      FoldAppend(acc * 128 + xs[0] % 128, xs[1..], ys);
    }
  }

  /** Folding never makes the accumulator smaller. */
  lemma {:induction false} FoldGrows(acc: nat, bs: seq<Byte>)
    ensures Fold(acc, bs) >= acc
    decreases |bs|
  {
    if bs != [] {
      FoldGrows(acc * 128 + bs[0] % 128, bs[1..]);
    }
  }

  lemma {:induction false} ChainShape(v: nat, flag: nat)
    requires flag == 0 || flag == 0x80
    ensures Terminated(Chain(v, 0)) && |Chain(v, flag)| == |Chain(v, 0)|
    ensures forall i :: 0 <= i < |Chain(v, flag)| - 1 ==> Chain(v, flag)[i] >= 0x80
    ensures Chain(v, flag)[|Chain(v, flag)| - 1] == v % 128 + flag
    decreases v
  {
    if v >= 128 {
      ChainShape(v / 128, 0x80);
    }
  }

  /**
   * Every byte of an unsigned encoding except the last has bit 0x80 set, and the
   * last has it clear (src/ser.rs:31-43, src/SerializedUnsignedInteger.cpp:34-41).
   */
  lemma UVarintTerminated(v: nat)
    ensures Terminated(UVarint(v))
  {
    ChainShape(v, 0);
  }

  lemma {:induction false} ChainValue(v: nat, flag: nat)
    requires flag == 0 || flag == 0x80
    ensures UValue(Chain(v, flag)) == v
    decreases v
  {
    if v >= 128 {
      var init, last := Chain(v / 128, 0x80), v % 128 + flag;
      ChainValue(v / 128, 0x80);
      assert Chain(v, flag) == init + [last];
      LowGroup(v % 128, flag);
      FoldAppendGroup(init, last, v);
    } else {
      assert Fold(0, [v + flag]) == Fold((v + flag) % 128, []);
    }
  }

  /** A last group `last` after groups worth `v / 128` gives `v` when it holds the low 7 bits of `v`. */
  lemma FoldAppendGroup(init: seq<Byte>, last: Byte, v: nat)
    requires Fold(0, init) == v / 128 && last % 128 == v % 128
    ensures Fold(0, init + [last]) == v
  {
    FoldSnoc(0, init, last);
  }

  /** Folding `acc * 128 + (b & 0x7F)` over an unsigned encoding gives back `v`. */
  lemma UVarintValue(v: nat)
    ensures UValue(UVarint(v)) == v
  {
    ChainValue(v, 0);
  }

  lemma {:induction false} ChainMinimal(v: nat, flag: nat)
    requires flag == 0 || flag == 0x80
    ensures |Chain(v, flag)| > 1 ==> Chain(v, flag)[0] != 0x80
    ensures Chain(v, flag)[0] % 128 == 0 ==> v == 0
    decreases v
  {
    if v >= 128 {
      ChainMinimal(v / 128, 0x80);
    }
  }

  /**
   * Zero is the single byte 00, and an encoding of more than one byte never starts
   * with a 0x80 byte, so no encoding carries a leading zero group
   * (src/ser.rs:25-36, src/SerializedUnsignedInteger.cpp:29-33).
   */
  lemma UVarintMinimal(v: nat)
    ensures UVarint(0) == [0]
    ensures |UVarint(v)| > 1 ==> UVarint(v)[0] != 0x80
  {
    ChainMinimal(v, 0);
  }

  /** An encoding has at most `k` bytes exactly when `v` fits in `k` groups of 7 bits. */
  lemma {:induction false} ChainLength(v: nat, flag: nat, k: nat)
    requires flag == 0 || flag == 0x80
    requires k >= 1
    ensures |Chain(v, flag)| <= k <==> v < Pow(128, k)
    decreases v
  {
    if v >= 128 {
      if k == 1 {
        assert Pow(128, 1) == 128;
        assert |Chain(v, flag)| >= 2;
      } else {
        ChainLength(v / 128, 0x80, k - 1);
        assert Pow(128, k) == 128 * Pow(128, k - 1);
      }
    } else {
      PowAtLeast128(k);
    }
  }

  lemma {:induction false} PowAtLeast128(k: nat)
    requires k >= 1
    ensures Pow(128, k) >= 128
  {
    if k > 1 {
      PowAtLeast128(k - 1);
    }
  }

  lemma {:induction false} SChainShape(m: nat, sign: nat, flag: nat)
    requires sign == 0 || sign == 0x40
    requires flag == 0 || flag == 0x80
    ensures Terminated(SChain(m, sign, 0)) && |SChain(m, sign, flag)| == |SChain(m, sign, 0)|
    ensures forall i :: 0 <= i < |SChain(m, sign, flag)| - 1 ==> SChain(m, sign, flag)[i] >= 0x80
    ensures SChain(m, sign, flag)[|SChain(m, sign, flag)| - 1] % 128 == (if m < 64 then m + sign else m % 128)
    ensures SChain(m, sign, flag)[|SChain(m, sign, flag)| - 1] >= 0x80 <==> flag == 0x80
    decreases m
  {
    if m >= 64 {
      var init := SChain(m / 128, sign, 0x80);
      SChainShape(m / 128, sign, 0x80);
      var last: Byte, last0: Byte := m % 128 + flag, m % 128;
      assert SChain(m, sign, flag) == init + [last];
      assert SChain(m, sign, 0) == init + [last0];
      LowGroup(m % 128, flag);
      SnocShape(init, last, last0, SChain(m, sign, flag), SChain(m, sign, 0));
    } else {
      LowGroup(m + sign, flag);
    }
  }

  /** Two groups `last` and `last0 < 0x80` after the same continued groups `init`. */
  lemma SnocShape(init: seq<Byte>, last: Byte, last0: Byte, bs: seq<Byte>, bs0: seq<Byte>)
    requires |init| >= 1 && forall i :: 0 <= i < |init| ==> init[i] >= 0x80
    requires bs == init + [last] && bs0 == init + [last0] && last0 < 0x80
    ensures Terminated(bs0) && |bs| == |bs0| && bs[|bs| - 1] == last
    ensures forall i :: 0 <= i < |bs| - 1 ==> bs[i] >= 0x80
  {
  }

  lemma {:induction false} SChainValue(m: nat, sign: nat, flag: nat)
    requires sign == 0 || sign == 0x40
    requires flag == 0 || flag == 0x80
    ensures SMagnitude(SChain(m, sign, flag)) == m
    decreases m
  {
    var bs := SChain(m, sign, flag);
    if m >= 64 {
      var init := SChain(m / 128, sign, 0x80);
      SChainValue(m / 128, sign, 0x80);
      SChainSplit(m, sign, flag, SChain(m / 128, sign, 0x80), SChain(m, sign, flag));
      LowGroup(m % 128, flag);
      FoldLastGroup(bs, init, m % 128 + flag, m);
    } else {
      assert bs == [m + sign + flag];
      assert bs[1..] == [];
      assert bs[0] % 64 == m;
    }
  }

  /** A last group `last` after the groups of `init` adds the low 7 bits of `m` to `m / 128`. */
  lemma FoldLastGroup(bs: seq<Byte>, init: seq<Byte>, last: Byte, m: nat)
    requires |init| >= 1 && |bs| >= 1 && bs[0] == init[0] && bs[1..] == init[1..] + [last]
    requires Fold(init[0] % 64, init[1..]) == m / 128 && last % 128 == m % 128
    ensures Fold(bs[0] % 64, bs[1..]) == m
  {
    FoldSnoc(init[0] % 64, init[1..], last);
  }

  lemma LowGroup(x: nat, flag: nat)
    requires x < 128 && (flag == 0 || flag == 0x80)
    ensures (x + flag) % 128 == x
  {
  }

  /** The last group of a long signed chain comes after the chain of the upper groups. */
  lemma SChainSplit(m: nat, sign: nat, flag: nat, init: seq<Byte>, bs: seq<Byte>)
    requires sign == 0 || sign == 0x40
    requires flag == 0 || flag == 0x80
    requires m >= 64 && init == SChain(m / 128, sign, 0x80) && bs == SChain(m, sign, flag)
    ensures |init| >= 1 && |bs| >= 1 && bs[0] == init[0] && bs[1..] == init[1..] + [m % 128 + flag]
  {
    var last: Byte := m % 128 + flag;
    assert bs == init + [last];
    SnocParts(init, last, bs);
  }

  /** A non-empty sequence with one more element at the end keeps its head and extends its tail. */
  lemma SnocParts(init: seq<Byte>, last: Byte, all: seq<Byte>)
    requires |init| >= 1 && all == init + [last]
    ensures all[0] == init[0] && all[1..] == init[1..] + [last]
  {
    assert all[1..] == init[1..] + [last];
  }

  lemma {:induction false} SChainNegative(m: nat, sign: nat, flag: nat)
    requires sign == 0 || sign == 0x40
    requires flag == 0 || flag == 0x80
    ensures SNegative(SChain(m, sign, flag)) <==> sign == 0x40
    decreases m
  {
    if m >= 64 {
      SChainNegative(m / 128, sign, 0x80);
      SChainSplit(m, sign, flag, SChain(m / 128, sign, 0x80), SChain(m, sign, flag));
    }
  }

  /**
   * A signed encoding is terminated like an unsigned one, bit 0x40 of its first
   * byte is set iff `v < 0`, and its groups give back the magnitude
   * (src/ser.rs:95-127, src/SerializedInteger.cpp:26-49).
   */
  lemma SVarintValue(v: int)
    ensures Terminated(SVarint(v))
    ensures SNegative(SVarint(v)) <==> v < 0
    ensures SMagnitude(SVarint(v)) == Abs(v)
    ensures SValue(SVarint(v)) == v
  {
    SChainShape(Abs(v), SignBit(v), 0);
    SChainValue(Abs(v), SignBit(v), 0);
    SChainNegative(Abs(v), SignBit(v), 0);
  }

  lemma {:induction false} SChainSignFlip(m: nat, flag: nat)
    requires flag == 0 || flag == 0x80
    ensures |SChain(m, 0x40, flag)| == |SChain(m, 0, flag)|
    ensures SChain(m, 0x40, flag)[0] as int == SChain(m, 0, flag)[0] as int + 0x40
    ensures SChain(m, 0x40, flag)[1..] == SChain(m, 0, flag)[1..]
    decreases m
  {
    if m >= 64 {
      SChainSignFlip(m / 128, 0x80);
    }
  }

  /**
   * `v` and `-v` encode to the same bytes except for bit 0x40 of the first byte,
   * as in 4000 -> 9F 20 and -4000 -> DF 20 (src/ser.rs:98-119).
   */
  lemma SVarintSignFlip(v: int)
    requires v > 0
    ensures |SVarint(-v)| == |SVarint(v)|
    ensures SVarint(-v)[0] as int == SVarint(v)[0] as int + 0x40
    ensures SVarint(-v)[1..] == SVarint(v)[1..]
  {
    SChainSignFlip(v, 0);
  }

  lemma {:induction false} SChainFirstByte(m: nat, sign: nat, flag: nat)
    requires sign == 0 || sign == 0x40
    requires flag == 0 || flag == 0x80
    ensures SChain(m, sign, flag)[0] % 64 == TopGroup(m)
    ensures SChain(m, sign, flag)[0] >= 0x80 <==> (m >= 64 || flag == 0x80)
    ensures (SChain(m, sign, flag)[0] / 64) % 2 == sign / 64
    decreases m
  {
    if m >= 64 {
      SChainFirstByte(m / 128, sign, 0x80);
    }
  }

  /** The most significant group of a signed magnitude: the part below 64 left after removing 7-bit groups. */
  function TopGroup(m: nat): nat
    decreases m
  {
    if m < 64 then m else TopGroup(m / 128)
  }

  /**
   * The first byte of a signed encoding is the top 6-bit magnitude group, plus
   * 0x40 iff `v < 0`, plus 0x80 iff more bytes follow (src/ser.rs:113-118,
   * src/SerializedInteger.cpp:34-37).
   */
  lemma SVarintFirstByte(v: int)
    ensures SVarint(v)[0] == TopGroup(Abs(v)) + SignBit(v) + (if |SVarint(v)| > 1 then 0x80 else 0)
  {
    SChainFirstByte(Abs(v), SignBit(v), 0);
    SChainShape(Abs(v), SignBit(v), 0);
    assert |SVarint(v)| > 1 <==> Abs(v) >= 64;
  }

  /** The test vectors of src/ser.rs:546-569 and 614-632. */
  lemma Vectors()
    ensures UVarint(255) == [0x81, 0x7F]
    ensures UVarint(9001) == [0xC6, 0x29]
    ensures UVarint(40000) == [0x82, 0xB8, 0x40]
    ensures SVarint(42) == [0x2A] && SVarint(-42) == [0x6A]
    ensures SVarint(4000) == [0x9F, 0x20] && SVarint(-4000) == [0xDF, 0x20]
    ensures SVarint(9001) == [0x80, 0xC6, 0x29] && SVarint(-9001) == [0xC0, 0xC6, 0x29]
  {
  }
}
