/**
 * `SerializedUnsignedInteger` (a `uint64_t`) and `SerializedInteger` (an `int`):
 * the base-128 layouts of the Varint module written to and read from a file,
 * one byte at a time when reading.
 */
module CppIntegers {
  import opened Bytes
  import opened Varint
  import opened CppText
  import opened CppNumbers
  import opened CppFile

  // ---------------------------------------------------------------- reading view

  /**
   * How many bytes a reader of a base-128 integer takes from `pos` on: up to and
   * including the first byte with bit 0x80 clear, or up to the end of the file.
   */
  function GroupCount(data: seq<Byte>, pos: nat): (k: nat)
    ensures pos + k <= |data| || k == 0
    ensures k == 0 <==> pos >= |data|
    ensures forall i :: pos <= i < pos + k - 1 ==> data[i] >= 0x80
    ensures k > 0 && data[pos + k - 1] >= 0x80 ==> pos + k == |data|
    decreases |data| - pos
  {
    if pos >= |data| then 0 else if data[pos] < 0x80 then 1 else 1 + GroupCount(data, pos + 1)
  }

  /** The bytes a reader of a base-128 integer takes from `pos` on. */
  function GroupBytes(data: seq<Byte>, pos: nat): (r: seq<Byte>)
    ensures |r| == GroupCount(data, pos)
  {
    var k := GroupCount(data, pos);
    if k == 0 then [] else data[pos..pos + k]
  }

  /**
   * A reader stops early only at the end of the file: either it finds a complete
   * (terminated) integer, or it has used up every byte there is.
   */
  lemma GroupBytesShape(data: seq<Byte>, pos: nat)
    ensures var bs := GroupBytes(data, pos);
      Terminated(bs) || pos + |bs| >= |data|
  {
  }

  /** A complete encoding stored at `pos` is exactly what the reader takes. */
  lemma {:induction false} GroupCountOf(data: seq<Byte>, pos: nat, e: seq<Byte>)
    requires Terminated(e) && pos + |e| <= |data| && data[pos..pos + |e|] == e
    ensures GroupCount(data, pos) == |e| && GroupBytes(data, pos) == e
    decreases |e|
  {
    assert data[pos] == e[0];
    if |e| > 1 {
      assert data[pos + 1..pos + 1 + |e[1..]|] == e[1..];
      GroupCountOf(data, pos + 1, e[1..]);
    }
  }

  /**
   * What `SerializedUnsignedInteger::Deserialize` makes of the bytes at `pos`:
   * on failure too the value is what has been accumulated.
   */
  function UnsignedAt(data: seq<Byte>, pos: nat): (r: Got<U64>)
    ensures r.next >= pos && (r.ok ==> pos < r.next <= |data|)
  {
    var bs := GroupBytes(data, pos);
    Got(Terminated(bs), ToU64(UValue(bs)), pos + |bs|)
  }

  /** What `SerializedInteger::Deserialize` makes of the bytes at `pos`. */
  function SignedAt(data: seq<Byte>, pos: nat): (r: Got<I32>)
    ensures r.next >= pos && (r.ok ==> pos < r.next <= |data|)
  {
    var bs := GroupBytes(data, pos);
    var ok := Terminated(bs);
    Got(ok,
        if bs == [] then 0 else if ok && SNegative(bs) then ToI32(-(SMagnitude(bs) as int)) else ToI32(SMagnitude(bs)),
        pos + |bs|)
  }

  /** A stored unsigned encoding is read back whole, whatever follows it. */
  lemma UnsignedAtStored(data: seq<Byte>, pos: nat, v: U64)
    requires Stored(data, pos, UVarint(v))
    ensures UnsignedAt(data, pos) == Got(true, v, pos + |UVarint(v)|)
  {
    UVarintTerminated(v);
    GroupCountOf(data, pos, UVarint(v));
    UVarintValue(v);
    ToU64Keep(v);
  }

  /** A stored signed encoding is read back whole, whatever follows it. */
  lemma SignedAtStored(data: seq<Byte>, pos: nat, v: I32)
    requires Stored(data, pos, SVarint(v))
    ensures SignedAt(data, pos) == Got(true, v, pos + |SVarint(v)|)
  {
    SVarintValue(v);
    GroupCountOf(data, pos, SVarint(v));
    ToI32Keep(v);
  }

  /**
   * What `SerializedUnsignedInteger::Serialize` writes, when all of it fits, is
   * read back by `Deserialize` from the same position: the reader takes exactly
   * those bytes, finds them terminated, and gets the value back.
   */
  lemma UnsignedRoundTrip(c: Cursor, capacity: Option<nat>, v: U64)
    requires Fits(c, capacity, UVarint(v))
    ensures var bs := GroupBytes(Put(c, capacity, UVarint(v)).data, c.pos);
      bs == UVarint(v) && Terminated(bs) && ToU64(UValue(bs)) == v
  {
    var e := UVarint(v);
    PutReadBack(c, capacity, e);
    UVarintTerminated(v);
    GroupCountOf(Put(c, capacity, e).data, c.pos, e);
    UVarintValue(v);
    ToU64Keep(v);
  }

  /** The same for `SerializedInteger`, whose reader applies the sign after the magnitude. */
  lemma SignedRoundTrip(c: Cursor, capacity: Option<nat>, v: I32)
    requires Fits(c, capacity, SVarint(v))
    ensures var bs := GroupBytes(Put(c, capacity, SVarint(v)).data, c.pos);
      bs == SVarint(v) && Terminated(bs)
      && (if SNegative(bs) then ToI32(-(SMagnitude(bs) as int)) else ToI32(SMagnitude(bs))) == v
  {
    var e := SVarint(v);
    PutReadBack(c, capacity, e);
    SVarintValue(v);
    GroupCountOf(Put(c, capacity, e).data, c.pos, e);
    ToI32Keep(v);
  }

  /** What `SerializedUnsignedInteger::Render` prints, `Parse` accepts and turns back into the same value. */
  lemma UnsignedRenderParse(v: U64)
    ensures var t := Trim(Decimal(v)); t == Decimal(v) && !HasBlank(t) && ScanU64(t) == Some(v)
  {
    NoBlanks(Decimal(v));
    ScanU64Decimal(v);
  }

  /** The same for `SerializedInteger`, printed with its sign. */
  lemma SignedRenderParse(v: I32)
    ensures var t := Trim(SignedDecimal(v)); t == SignedDecimal(v) && !HasBlank(t) && ScanI32(t) == Some(v)
  {
    var d := SignedDecimal(v);
    assert forall i :: 1 <= i < |d| ==> d[i] == d[1..][i - 1];
    NoBlanks(d);
    ScanI32SignedDecimal(v);
  }

  /** The pop loop of both `Serialize` methods: the top of the stack first, 0x80 on all but the last. */
  method PopStack(stack0: seq<Group>) returns (serialization: seq<Byte>)
    ensures serialization == Unstack(stack0)
  {
    var stack := stack0;
    serialization := [];
    while stack != []
      invariant serialization + Unstack(stack) == Unstack(stack0)
      decreases |stack|
    {
      var nextByte: Byte := stack[|stack| - 1];
      stack := stack[..|stack| - 1];
      if stack != [] {
        nextByte := nextByte + 0x80;
      }
      serialization := serialization + [nextByte];
    }
  }

  /**
   * The buffer `SerializedUnsignedInteger::Serialize` builds: the groups of the
   * value pushed least significant first by a do-while loop (so zero gives one
   * group), then popped.
   */
  method UnsignedGroups(value: U64) returns (serialization: seq<Byte>)
    ensures serialization == UVarint(value)
  {
    var v: nat := value;
    var stack: seq<Group> := [v % 128];
    v := v / 128;
    FirstPush(value);
    while v > 0
      invariant stack != [] && UVarint(value) == HighGroups(v) + Unstack(stack)
      decreases v
    {
      NextPush(v, stack);
      stack := stack + [v % 128];
      v := v / 128;
    }
    serialization := PopStack(stack);
  }

  /** The groups of `v` still to be pushed, as they end up before the stacked ones: none once `v` is 0. */
  function HighGroups(v: nat): seq<Byte>
  {
    if v == 0 then [] else Chain(v, 0x80)
  }

  lemma FirstPush(value: nat)
    ensures UVarint(value) == HighGroups(value / 128) + Unstack([value % 128])
  {
    UnstackPush([], value % 128);
  }

  lemma NextPush(v: nat, stack: seq<Group>)
    requires v > 0 && stack != []
    ensures HighGroups(v) + Unstack(stack) == HighGroups(v / 128) + Unstack(stack + [v % 128])
  {
    UnstackPush(stack, v % 128);
  }

  /**
   * The buffer `SerializedInteger::Serialize` builds: 7-bit groups of the
   * magnitude are pushed while more than 6 bits remain, then the last group
   * with the sign bit. `-INT_MIN` is again `INT_MIN`, but the masked shifts
   * treat its bit pattern as the magnitude 2^31, so every `int` is written with
   * its exact magnitude.
   */
  method SignedGroups(value: I32) returns (serialization: seq<Byte>)
    ensures serialization == SVarint(value)
  {
    var sign: nat := if value < 0 then 0x40 else 0;
    var v: nat := Abs(value);
    var stack: seq<Group> := [];
    while v >= 0x40
      invariant SVarint(value) == SChain(v, sign, if stack == [] then 0 else 0x80) + Unstack(stack)
      decreases v
    {
      SignedPush(v, sign, stack);
      stack := stack + [v % 128];
      v := v / 128;
    }
    var lsb: Group := v + sign;
    SignedLast(v, sign, stack);
    stack := stack + [lsb];
    serialization := PopStack(stack);
  }

  lemma SignedPush(v: nat, sign: nat, stack: seq<Group>)
    requires v >= 0x40 && (sign == 0 || sign == 0x40)
    ensures SChain(v, sign, if stack == [] then 0 else 0x80) + Unstack(stack)
      == SChain(v / 128, sign, 0x80) + Unstack(stack + [v % 128])
  {
    UnstackPush(stack, v % 128);
  }

  lemma SignedLast(v: nat, sign: nat, stack: seq<Group>)
    requires v < 0x40 && (sign == 0 || sign == 0x40)
    ensures SChain(v, sign, if stack == [] then 0 else 0x80) + Unstack(stack) == Unstack(stack + [v + sign])
  {
    UnstackPush(stack, v + sign);
  }

  /** `SerializedUnsignedInteger` (src/SerializedUnsignedInteger.cpp). */
  class SerializedUnsignedInteger {
    var value: U64

    constructor (initialValue: U64)
      ensures value == initialValue
    {
      value := initialValue;
    }

    /** The whole buffer is written at once. */
    method Serialize(file: File) returns (ok: bool)
      modifies file
      ensures ok == Fits(old(file.State()), file.capacity, UVarint(value))
      ensures file.State() == Put(old(file.State()), file.capacity, UVarint(value))
    {
      var serialization := UnsignedGroups(value);
      var written := file.Write(serialization);
      ok := written == |serialization|;
    }

    /**
     * Reads bytes until one has bit 0x80 clear, shifting the 64-bit value left
     * by 7 and adding each group. Running out of bytes fails, leaving the value
     * accumulated so far.
     */
    method Deserialize(file: File) returns (ok: bool)
      modifies this, file
      ensures var bs := GroupBytes(old(file.data), old(file.pos));
        ok == Terminated(bs)
        && value == ToU64(UValue(bs))
        && file.data == old(file.data) && file.pos == old(file.pos) + |bs|
    {
      ghost var start, data := file.pos, file.data;
      ghost var read: seq<Byte> := [];
      value := 0;
      var more := true;
      while more
        invariant file.data == data && file.pos == start + |read|
        invariant Reading(data, start, read, more)
        invariant value == ToU64(UValue(read))
        decreases |data| - |read|
      {
        var nextByte := file.Read(1);
        if |nextByte| != 1 {
          ReadAtEnd(data, start, read);
          return false;
        }
        var b := nextByte[0];
        ReadNext(data, start, read);
        more := b >= 0x80;
        value := ShiftGroup64(value, b, read);
        read := read + [b];
      }
      ok := true;
    }

    /** `sprintf("%" PRIu64)`. */
    function Render(): (r: Text)
      reads this
      ensures ScanU64(r) == Some(value)
    {
      ScanU64Decimal(value);
      Decimal(value)
    }

    /**
     * Whitespace is trimmed; text with a blank left inside is refused; otherwise
     * `sscanf` must convert a number, which becomes the value.
     */
    method Parse(rendering: Text) returns (ok: bool)
      modifies this
      ensures var t := Trim(rendering);
        ok == (!HasBlank(t) && ScanU64(t).Some?)
        && value == (if ok then ScanU64(t).value else old(value))
    {
      var t := Trim(rendering);
      if HasBlank(t) {
        return false;
      }
      match ScanU64(t)
      case None =>
        ok := false;
      case Some(v) =>
        value := v;
        ok := true;
    }

    method IsEqualTo(other: SerializedUnsignedInteger) returns (eq: bool)
      ensures eq <==> value == other.value
    {
      eq := value == other.value;
    }
  }

  /** `SerializedInteger` (src/SerializedInteger.cpp). */
  class SerializedInteger {
    var value: I32

    constructor (initialValue: I32)
      ensures value == initialValue
    {
      value := initialValue;
    }

    method Serialize(file: File) returns (ok: bool)
      modifies file
      ensures ok == Fits(old(file.State()), file.capacity, SVarint(value))
      ensures file.State() == Put(old(file.State()), file.capacity, SVarint(value))
    {
      var serialization := SignedGroups(value);
      var written := file.Write(serialization);
      ok := written == |serialization|;
    }

    /**
     * The first byte gives the continuation bit, the sign bit and 6 magnitude
     * bits; later bytes add 7-bit groups to the `int`, which wraps; the sign is
     * applied only once the last byte is read. Running out of bytes fails,
     * leaving the magnitude accumulated so far (0 when nothing could be read).
     */
    method Deserialize(file: File) returns (ok: bool)
      modifies this, file
      ensures var bs := GroupBytes(old(file.data), old(file.pos));
        ok == Terminated(bs)
        && value == (if bs == [] then 0
                     else if ok && SNegative(bs) then ToI32(-(SMagnitude(bs) as int))
                     else ToI32(SMagnitude(bs)))
        && file.data == old(file.data) && file.pos == old(file.pos) + |bs|
    {
      ghost var start, data := file.pos, file.data;
      value := 0;
      var nextByte := file.Read(1);
      if |nextByte| != 1 {
        NothingToRead(data, start);
        return false;
      }
      var negative := (nextByte[0] / 64) % 2 == 1;
      value := nextByte[0] % 64;
      ToI32Keep(value);
      ghost var read;
      ok, read := ReadGroups(file, start, nextByte[0]);
      if ok && negative {
        value := Negate32(value, SMagnitude(read));
      }
    }

    /**
     * The `while (more)` loop of `Deserialize`: each further byte shifts the
     * value left by 7 and adds its group, until a byte with bit 0x80 clear or
     * the end of the file.
     */
    method ReadGroups(file: File, ghost start: nat, first: Byte) returns (ok: bool, ghost read: seq<Byte>)
      requires start < |file.data| && file.data[start] == first && file.pos == start + 1
      requires value == ToI32(SMagnitude([first]))
      modifies this, file
      ensures file.data == old(file.data) && read == GroupBytes(file.data, start) && file.pos == start + |read|
      ensures |read| >= 1 && read[0] == first
      ensures ok == Terminated(read) && value == ToI32(SMagnitude(read))
    {
      ghost var data := file.data;
      ReadNext(data, start, []);
      read := [first];
      var more := first >= 0x80;
      while more
        invariant file.data == data && file.pos == start + |read|
        invariant |read| >= 1 && Reading(data, start, read, more)
        invariant read[0] == first
        invariant value == ToI32(SMagnitude(read))
        decreases |data| - |read|
      {
        var nextByte := file.Read(1);
        if |nextByte| != 1 {
          ReadAtEnd(data, start, read);
          return false, read;
        }
        var b := nextByte[0];
        ReadNext(data, start, read);
        more := b >= 0x80;
        value := ShiftGroup32(value, b, read);
        read := read + [b];
      }
      ok := true;
    }

    /** `sprintf("%+d")`. */
    function Render(): (r: Text)
      reads this
      ensures ScanI32(r) == Some(value)
    {
      ScanI32SignedDecimal(value);
      SignedDecimal(value)
    }

    method Parse(rendering: Text) returns (ok: bool)
      modifies this
      ensures var t := Trim(rendering);
        ok == (!HasBlank(t) && ScanI32(t).Some?)
        && value == (if ok then ScanI32(t).value else old(value))
    {
      var t := Trim(rendering);
      if HasBlank(t) {
        return false;
      }
      match ScanI32(t)
      case None =>
        ok := false;
      case Some(v) =>
        value := v;
        ok := true;
    }

    method IsEqualTo(other: SerializedInteger) returns (eq: bool)
      ensures eq <==> value == other.value
    {
      eq := value == other.value;
    }
  }

  /** One step of the unsigned reader: shift left by 7 and add the group, keeping 64 bits. */
  method ShiftGroup64(value: U64, b: Byte, ghost read: seq<Byte>) returns (r: U64)
    requires value == ToU64(UValue(read))
    ensures r == ToU64(UValue(read + [b]))
  {
    ToU64Shift(UValue(read), b % 128);
    FoldSnoc(0, read, b);
    r := ToU64(value * 128);
    r := ToU64(r + b % 128);
  }


  /**
   * A reader of a base-128 integer at `start` has taken `read`, a prefix of the
   * bytes it takes in all; `more` says that it has not yet met the final byte.
   */
  ghost predicate Reading(data: seq<Byte>, start: nat, read: seq<Byte>, more: bool)
  {
    var g := GroupBytes(data, start);
    |read| <= |g| && read == g[..|read|]
    && (more ==> read == [] || read[|read| - 1] >= 0x80)
    && (!more ==> read == g && Terminated(g))
  }

  /**
   * A reader that has not met the final byte and finds one more byte in the
   * file takes it, and it is the final one exactly when its bit 0x80 is clear.
   */
  lemma ReadNext(data: seq<Byte>, start: nat, read: seq<Byte>)
    requires Reading(data, start, read, true) && start + |read| < |data|
    ensures var b := data[start + |read|]; Reading(data, start, read + [b], b >= 0x80)
  {
    var g, b := GroupBytes(data, start), data[start + |read|];
    var k := GroupCount(data, start);
    assert g == data[start..start + k];
    assert read != [] ==> data[start + |read| - 1] == read[|read| - 1] >= 0x80;
    assert g[|read|] == b;
    assert read + [b] == g[..|read| + 1];
    if b < 0x80 {
      assert g == g[..|read| + 1];
    }
  }

  /** A reader at the end of the file takes nothing. */
  lemma NothingToRead(data: seq<Byte>, start: nat)
    requires start >= |data|
    ensures GroupBytes(data, start) == []
  {
  }

  /** A reader that runs out of bytes before the final one has taken all the bytes there are, and they are not terminated. */
  lemma ReadAtEnd(data: seq<Byte>, start: nat, read: seq<Byte>)
    requires Reading(data, start, read, true) && start + |read| >= |data|
    ensures read == GroupBytes(data, start) && !Terminated(read)
  {
    var k := GroupCount(data, start);
    assert read == GroupBytes(data, start)[..k];
  }


  /** One step of the signed reader: shift left by 7 and add the group, wrapping at 32 bits. */
  method ShiftGroup32(value: I32, b: Byte, ghost read: seq<Byte>) returns (r: I32)
    requires |read| >= 1 && value == ToI32(SMagnitude(read))
    ensures r == ToI32(SMagnitude(read + [b]))
  {
    NextGroup(read, b);
    ToI32Shift(SMagnitude(read), b % 128);
    r := ToI32(value * 128);
    r := ToI32(r + b % 128);
  }

  /** `value_ = -value_` on an `int`: the negation wraps, so `INT_MIN` stays `INT_MIN`. */
  method Negate32(value: I32, ghost m: int) returns (r: I32)
    requires value == ToI32(m)
    ensures r == ToI32(-m)
  {
    ToI32Negate(m);
    r := ToI32(-(value as int));
  }

  /** One more byte read by the signed reader adds one group to the magnitude and keeps the sign. */
  lemma NextGroup(read: seq<Byte>, b: Byte)
    requires |read| >= 1
    ensures SMagnitude(read + [b]) == SMagnitude(read) * 128 + b % 128
    ensures SNegative(read + [b]) <==> SNegative(read)
  {
    assert (read + [b])[1..] == read[1..] + [b];
    FoldSnoc(read[0] % 64, read[1..], b);
  }
}
