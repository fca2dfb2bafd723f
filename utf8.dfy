/**
 * UTF-8 as RFC 3629 defines it: the encoding of one scalar value by ranges
 * (section 3) and the well-formed byte sequences (section 4). A Dafny `char` is
 * a Unicode scalar value, which is what a Rust `char` holds.
 */
module Utf8 {
  import opened Bytes

  /** A continuation byte, 80..BF. */
  predicate Tail(b: Byte)
  {
    0x80 <= b <= 0xBF
  }

  /** The UTF-8 bytes of `c` (RFC 3629 section 3). */
  function EncodeChar(c: char): (r: seq<Byte>)
    ensures 1 <= |r| <= 4
  {
    var v := c as int;
    if v < 0x80 then [v]
    else if v < 0x800 then [0xC0 + v / 64, 0x80 + v % 64]
    else if v < 0x1_0000 then [0xE0 + v / 4096, 0x80 + (v / 64) % 64, 0x80 + v % 64]
    else [0xF0 + v / 262144, 0x80 + (v / 4096) % 64, 0x80 + (v / 64) % 64, 0x80 + v % 64]
  }

  /** One well-formed character, as the UTF8-1 .. UTF8-4 rules of RFC 3629 section 4 list them. */
  predicate WellFormedChar(bs: seq<Byte>)
  {
    (|bs| == 1 && bs[0] <= 0x7F)
    || (|bs| == 2 && 0xC2 <= bs[0] <= 0xDF && Tail(bs[1]))
    || (|bs| == 3 && Tail(bs[2])
        && ((bs[0] == 0xE0 && 0xA0 <= bs[1] <= 0xBF)
            || (0xE1 <= bs[0] <= 0xEC && Tail(bs[1]))
            || (bs[0] == 0xED && 0x80 <= bs[1] <= 0x9F)
            || (0xEE <= bs[0] <= 0xEF && Tail(bs[1]))))
    || (|bs| == 4 && Tail(bs[2]) && Tail(bs[3])
        && ((bs[0] == 0xF0 && 0x90 <= bs[1] <= 0xBF)
            || (0xF1 <= bs[0] <= 0xF3 && Tail(bs[1]))
            || (bs[0] == 0xF4 && 0x80 <= bs[1] <= 0x8F)))
  }

  /** The scalar value a well-formed sequence stands for. */
  function ScalarOf(bs: seq<Byte>): int
    requires WellFormedChar(bs)
  {
    if |bs| == 1 then bs[0]
    else if |bs| == 2 then (bs[0] as int - 0xC0) * 64 + (bs[1] as int - 0x80)
    else if |bs| == 3 then (bs[0] as int - 0xE0) * 4096 + (bs[1] as int - 0x80) * 64 + (bs[2] as int - 0x80)
    else (bs[0] as int - 0xF0) * 262144 + (bs[1] as int - 0x80) * 4096 + (bs[2] as int - 0x80) * 64 + (bs[3] as int - 0x80)
  }

  lemma ScalarOfRange(bs: seq<Byte>)
    requires WellFormedChar(bs)
    ensures 0 <= ScalarOf(bs) < 0xD800 || 0xE000 <= ScalarOf(bs) < 0x11_0000
  {
  }

  /** The character a well-formed sequence decodes to. */
  function CharOf(bs: seq<Byte>): char
    requires WellFormedChar(bs)
  {
    ScalarOfRange(bs);
    ScalarOf(bs) as char
  }

  /**
   * The number of bytes a lead byte announces, as `parse_char` classifies it:
   * 00-7F one, C0-DF two, E0-EF three, F0-F7 four, anything else none
   * (src/de.rs:164-170).
   */
  function LeadLength(b: Byte): nat
  {
    if b <= 0x7F then 1
    else if 0xC0 <= b <= 0xDF then 2
    else if 0xE0 <= b <= 0xEF then 3
    else if 0xF0 <= b <= 0xF7 then 4
    else 0
  }

  lemma WellFormedLead(bs: seq<Byte>)
    requires WellFormedChar(bs)
    ensures LeadLength(bs[0]) == |bs|
  {
  }

  /** Every encoding is well formed and announces its own length in its lead byte. */
  lemma EncodeCharWellFormed(c: char)
    ensures WellFormedChar(EncodeChar(c))
    ensures LeadLength(EncodeChar(c)[0]) == |EncodeChar(c)|
  {
    var v := c as int;
    assert 0 <= v < 0xD800 || 0xE000 <= v < 0x11_0000;
  }

  /** `x` split into its quotient and remainder by 64. */
  lemma Split64(x: nat)
    ensures x == (x / 64) * 64 + x % 64
    ensures (x / 64) / 64 == x / 4096 && (x / 4096) / 64 == x / 262144
  {
  }

  /** Quotient and remainder are unique. */
  lemma DivModUnique(x: int, q: int, r: int)
    requires 0 <= r < 64 && x == q * 64 + r
    ensures x / 64 == q && x % 64 == r
  {
  }

  /** Decoding an encoding gives the character back. */
  lemma DecodeEncodeChar(c: char)
    ensures WellFormedChar(EncodeChar(c)) && CharOf(EncodeChar(c)) == c
  {
    EncodeCharWellFormed(c);
    var v := c as int;
    Split64(v);
    Split64(v / 64);
    Split64(v / 4096);
    assert ScalarOf(EncodeChar(c)) == v;
  }

  /** Every well-formed sequence is the encoding of the character it decodes to. */
  lemma EncodeDecodeChar(bs: seq<Byte>)
    requires WellFormedChar(bs)
    ensures EncodeChar(CharOf(bs)) == bs
  {
    ScalarOfRange(bs);
    assert CharOf(bs) as int == ScalarOf(bs);
    if |bs| == 2 {
      EncodeTwo(bs);
    } else if |bs| == 3 {
      EncodeThree(bs);
    } else if |bs| == 4 {
      EncodeFour(bs);
    }
  }

  lemma EncodeTwo(bs: seq<Byte>)
    requires WellFormedChar(bs) && |bs| == 2
    ensures var v := ScalarOf(bs); 0x80 <= v < 0x800 && [0xC0 + v / 64, 0x80 + v % 64] == bs
  {
    DivModUnique(ScalarOf(bs), bs[0] - 0xC0, bs[1] - 0x80);
  }

  lemma EncodeThree(bs: seq<Byte>)
    requires WellFormedChar(bs) && |bs| == 3
    ensures var v := ScalarOf(bs);
      0x800 <= v < 0x1_0000 && [0xE0 + v / 4096, 0x80 + (v / 64) % 64, 0x80 + v % 64] == bs
  {
    var v := ScalarOf(bs);
    var hi := (bs[0] as int - 0xE0) * 64 + (bs[1] as int - 0x80);
    DivModUnique(v, hi, bs[2] - 0x80);
    DivModUnique(hi, bs[0] - 0xE0, bs[1] - 0x80);
    Split64(v);
  }

  lemma EncodeFour(bs: seq<Byte>)
    requires WellFormedChar(bs) && |bs| == 4
    ensures var v := ScalarOf(bs);
      0x1_0000 <= v && [0xF0 + v / 262144, 0x80 + (v / 4096) % 64, 0x80 + (v / 64) % 64, 0x80 + v % 64] == bs
  {
    var v := ScalarOf(bs);
    var mid := (bs[0] as int - 0xF0) * 64 + (bs[1] as int - 0x80);
    var hi := mid * 64 + (bs[2] as int - 0x80);
    DivModUnique(v, hi, bs[3] - 0x80);
    DivModUnique(hi, mid, bs[2] - 0x80);
    DivModUnique(mid, bs[0] - 0xF0, bs[1] - 0x80);
    Split64(v);
    Split64(v / 64);
  }

  // ---------------------------------------------------------------- strings

  /** The UTF-8 bytes of a string, character after character. */
  function EncodeString(s: string): seq<Byte>
  {
    if s == [] then [] else EncodeChar(s[0]) + EncodeString(s[1..])
  }

  /**
   * A concatenation of well-formed characters (RFC 3629 section 4), which is
   * what `std::str::from_utf8` accepts. The lead byte fixes each character's length.
   */
  predicate ValidUtf8(bs: seq<Byte>)
    decreases |bs|
  {
    bs == []
    || (var n := LeadLength(bs[0]);
        1 <= n <= |bs| && WellFormedChar(bs[..n]) && ValidUtf8(bs[n..]))
  }

  function DecodeString(bs: seq<Byte>): string
    requires ValidUtf8(bs)
    decreases |bs|
  {
    if bs == [] then [] else
      var n := LeadLength(bs[0]);
      [CharOf(bs[..n])] + DecodeString(bs[n..])
  }

  /** The bytes of a string are valid UTF-8 and decode back to the string. */
  lemma {:induction false} DecodeEncodeString(s: string)
    ensures ValidUtf8(EncodeString(s)) && DecodeString(EncodeString(s)) == s
  {
    if s != [] {
      var e := EncodeChar(s[0]);
      var bs := EncodeString(s);
      DecodeEncodeString(s[1..]);
      EncodeCharWellFormed(s[0]);
      DecodeEncodeChar(s[0]);
      assert bs[..|e|] == e;
      assert bs[|e|..] == EncodeString(s[1..]);
    }
  }

  /** Valid UTF-8 is exactly the bytes of the string it decodes to. */
  lemma {:induction false} EncodeDecodeString(bs: seq<Byte>)
    requires ValidUtf8(bs)
    ensures EncodeString(DecodeString(bs)) == bs
    decreases |bs|
  {
    if bs != [] {
      var n := LeadLength(bs[0]);
      EncodeDecodeString(bs[n..]);
      EncodeDecodeChar(bs[..n]);
      assert bs == bs[..n] + bs[n..];
    }
  }

  /**
   * For `n` bytes whose lead announces `n`, being valid UTF-8 is the same as
   * being one well-formed character.
   */
  lemma OneCharValid(bs: seq<Byte>)
    requires |bs| >= 1 && LeadLength(bs[0]) == |bs|
    ensures ValidUtf8(bs) <==> WellFormedChar(bs)
  {
    assert bs[..|bs|] == bs;
    assert bs[|bs|..] == [];
  }

  /** The examples of src/ser.rs:664-696. */
  lemma CharVectors()
    ensures EncodeChar('X') == [0x58]
    ensures EncodeChar('£') == [0xC2, 0xA3]
    ensures EncodeChar('€') == [0xE2, 0x82, 0xAC]
    ensures EncodeChar('💩') == [0xF0, 0x9F, 0x92, 0xA9]
  {
  }
}
