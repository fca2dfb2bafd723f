/**
 * `SerializedBoolean` (one byte), `SerializedString` (an unsigned length, then
 * the bytes) and `SerializedIpAddress` (a `uint32_t` whose four bytes are
 * written as they lie in memory, and which renders as dotted octets).
 */
module CppScalars {
  import opened Bytes
  import opened Varint
  import opened CppText
  import opened CppNumbers
  import opened CppFile
  import opened CppIntegers

  // ---------------------------------------------------------------- SerializedBoolean

  /** The one byte `SerializedBoolean::Serialize` writes. */
  function BooleanBytes(b: bool): (r: seq<Byte>)
    ensures |r| == 1 && (r[0] != 0 <==> b)
  {
    [if b then 1 else 0]
  }

  /** The value `SerializedBoolean::Parse` takes from `rendering`, if it accepts it. */
  function BooleanSpelling(rendering: Text): Option<bool>
  {
    var t := Trim(rendering);
    if t == "true" || t == "True" || t == "TRUE" then Some(true)
    else if t == "false" || t == "False" || t == "FALSE" then Some(false)
    else None
  }

  /** `Render`'s two words are among the spellings `Parse` accepts. */
  lemma Spelled(t: Text, b: bool)
    requires t == if b then "True" else "False"
    ensures BooleanSpelling(t) == Some(b)
  {
    NothingToTrim(t);
    assert t[0] == (if b then 'T' else 'F') && t[1] == (if b then 'r' else 'a');
  }

  /** A stored byte is read back as the value it was written for. */
  lemma BooleanRoundTrip(c: Cursor, capacity: Option<nat>, b: bool)
    requires Fits(c, capacity, BooleanBytes(b))
    ensures var bs := Available(Put(c, capacity, BooleanBytes(b)).data, c.pos, 1);
      |bs| == 1 && (bs[0] != 0) == b
  {
    PutReadBack(c, capacity, BooleanBytes(b));
  }

  /** `SerializedBoolean` (src/SerializedBoolean.cpp). */
  class SerializedBoolean {
    var value: bool

    constructor (initialValue: bool)
      ensures value == initialValue
    {
      value := initialValue;
    }

    method Serialize(file: File) returns (ok: bool)
      modifies file
      ensures ok == Fits(old(file.State()), file.capacity, BooleanBytes(value))
      ensures file.State() == Put(old(file.State()), file.capacity, BooleanBytes(value))
    {
      var byte := if value then 1 else 0;
      var written := file.Write([byte]);
      ok := written == 1;
    }

    /** Any nonzero byte is true; when no byte is left the value stays as it was. */
    method Deserialize(file: File) returns (ok: bool)
      modifies this, file
      ensures var bs := Available(old(file.data), old(file.pos), 1);
        ok == (|bs| == 1)
        && value == (if ok then bs[0] != 0 else old(value))
        && file.data == old(file.data) && file.pos == old(file.pos) + |bs|
    {
      var byte := file.Read(1);
      if |byte| != 1 {
        return false;
      }
      value := byte[0] != 0;
      ok := true;
    }

    function Render(): (r: Text)
      reads this
      ensures BooleanSpelling(r) == Some(value)
    {
      var r: Text := if value then "True" else "False";
      Spelled(r, value);
      r
    }

    /** Three spellings of each value are accepted, after trimming; anything else is refused. */
    method Parse(rendering: Text) returns (ok: bool)
      modifies this
      ensures ok == BooleanSpelling(rendering).Some?
      ensures value == (if ok then BooleanSpelling(rendering).value else old(value))
    {
      var t := Trim(rendering);
      if t == "true" || t == "True" || t == "TRUE" {
        value := true;
        return true;
      }
      if t == "false" || t == "False" || t == "FALSE" {
        value := false;
        return true;
      }
      ok := false;
    }

    method IsEqualTo(other: SerializedBoolean) returns (eq: bool)
      ensures eq <==> value == other.value
    {
      eq := value == other.value;
    }
  }

  // ---------------------------------------------------------------- SerializedString

  /** What `SerializedString::Serialize` writes: the length cast to `unsigned int`, then every byte. */
  function StringBytes(s: Text): seq<Byte>
  {
    UVarint(ToU32(|s|)) + ToBytes(s)
  }

  /** What `SerializedString::Deserialize` makes of the bytes at `pos`. */
  function StringAt(data: seq<Byte>, pos: nat): (r: Got<Text>)
    ensures r.next >= pos && (r.ok ==> pos < r.next <= |data|)
  {
    var n := UnsignedAt(data, pos);
    if !n.ok then Got(false, [], n.next)
    else if n.value == 0 then Got(true, [], n.next)
    else
      var body := Available(data, n.next, n.value);
      Got(|body| == n.value, OfBytes(body), n.next + |body|)
  }

  /** A stored string of fewer than 2^32 bytes is read back whole, whatever follows it. */
  lemma StringAtStored(data: seq<Byte>, pos: nat, s: Text)
    requires |s| <= U32_MAX && Stored(data, pos, StringBytes(s))
    ensures StringAt(data, pos) == Got(true, s, pos + |StringBytes(s)|)
  {
    ToU32Keep(|s|);
    var u := UVarint(|s|);
    var bs := ToBytes(s);
    assert StringBytes(s) == u + bs;
    StoredSplit(data, pos, u, bs);
    UnsignedAtStored(data, pos, |s|);
    var n := UnsignedAt(data, pos);
    assert n == Got(true, |s|, pos + |u|);
    if |s| > 0 {
      StoredAvailable(data, pos + |u|, bs);
      assert Available(data, n.next, n.value) == bs;
      BytesRoundTrip(s, []);
    }
  }

  /** Reading a string fails exactly when its length or fewer bytes than it announces can be read. */
  lemma StringAtShort(data: seq<Byte>, pos: nat)
    ensures var n := UnsignedAt(data, pos);
      StringAt(data, pos).ok <==> n.ok && n.next + n.value <= |data|
  {
  }

  /** `"` + the value + `"`, with nothing escaped. */
  function Quoted(s: Text): (r: Text)
  {
    QUOTE + s + QUOTE
  }

  const QUOTE: Text := "\""

  /** The value `SerializedString::Parse` takes from `rendering`, if it accepts it. */
  function Unquoted(rendering: Text): (r: Option<Text>)
    ensures r.Some? ==> Quoted(r.value) == Trim(rendering)
  {
    var t := Trim(rendering);
    if |t| < 2 || t[0] != '"' || t[|t| - 1] != '"' then None
    else
      Requote(t);
      Some(t[1..|t| - 1])
  }

  /** Text between two quotes is that text quoted. */
  lemma Requote(t: Text)
    requires |t| >= 2 && t[0] == '"' && t[|t| - 1] == '"'
    ensures Quoted(t[1..|t| - 1]) == t
  {
    assert QUOTE + t[1..|t| - 1] + QUOTE == t;
  }

  /** What `Render` prints, `Parse` takes back, whatever the string holds. */
  lemma QuotedRoundTrip(s: Text)
    ensures Unquoted(Quoted(s)) == Some(s)
  {
    TrimShape(Quoted(s));
    assert Quoted(s)[1..|s| + 1] == s;
  }

  /** `SerializedString` (src/SerializedString.cpp). */
  class SerializedString {
    var value: Text

    constructor (initialValue: Text)
      ensures value == initialValue
    {
      value := initialValue;
    }

    method Serialize(file: File) returns (ok: bool)
      modifies file
      ensures ok == Fits(old(file.State()), file.capacity, StringBytes(value))
      ensures file.State() == Put(old(file.State()), file.capacity, StringBytes(value))
    {
      PutEither(file.State(), file.capacity, UVarint(ToU32(|value|)), ToBytes(value));
      var size := new SerializedUnsignedInteger(ToU32(|value|));
      ok := size.Serialize(file);
      if !ok {
        return;
      }
      var written := file.Write(ToBytes(value));
      ok := written == |value|;
    }

    /**
     * A length of zero clears the value without reading on; otherwise that many
     * bytes must be read, or the value stays as it was.
     */
    method Deserialize(file: File) returns (ok: bool)
      modifies this, file
      ensures var r := StringAt(old(file.data), old(file.pos));
        ok == r.ok && value == (if ok then r.value else old(value))
        && file.data == old(file.data) && file.pos == r.next
    {
      var length := new SerializedUnsignedInteger(0);
      ok := length.Deserialize(file);
      if !ok {
        return;
      }
      if length.value == 0 {
        value := [];
        return true;
      }
      var buffer := file.Read(length.value);
      if |buffer| != length.value {
        return false;
      }
      value := OfBytes(buffer);
    }

    function Render(): (r: Text)
      reads this
      ensures |r| == |value| + 2 && Unquoted(r) == Some(value)
    {
      QuotedRoundTrip(value);
      Quoted(value)
    }

    /** Text that, trimmed, starts and ends with `"` gives what lies between them. */
    method Parse(rendering: Text) returns (ok: bool)
      modifies this
      ensures ok == Unquoted(rendering).Some?
      ensures value == (if ok then Unquoted(rendering).value else old(value))
    {
      var t := Trim(rendering);
      if |t| < 2 || t[0] != '"' || t[|t| - 1] != '"' {
        return false;
      }
      value := t[1..|t| - 1];
      ok := true;
    }

    method IsEqualTo(other: SerializedString) returns (eq: bool)
      ensures eq <==> value == other.value
    {
      eq := value == other.value;
    }
  }

  // ---------------------------------------------------------------- SerializedIpAddress

  /** The order in which the host keeps the bytes of a `uint32_t` in memory. */
  datatype HostOrder = MostSignificantFirst | LeastSignificantFirst

  function Reversed(s: seq<Byte>): (r: seq<Byte>)
    ensures |r| == |s| && forall i :: 0 <= i < |s| ==> r[i] == s[|s| - 1 - i]
  {
    if s == [] then [] else Reversed(s[1..]) + [s[0]]
  }

  /** The four bytes of `v` as they lie in memory. */
  function HostBytes(v: U32, order: HostOrder): (r: seq<Byte>)
    ensures |r| == 4
  {
    if order == MostSignificantFirst then BigEndian(v, 4) else Reversed(BigEndian(v, 4))
  }

  /** The `uint32_t` four bytes in memory hold. */
  function HostValue(m: seq<Byte>, order: HostOrder): (v: U32)
    requires |m| == 4
  {
    var bs := if order == MostSignificantFirst then m else Reversed(m);
    BigEndianValueBound(bs);
    BigEndianValue(bs)
  }

  /** Memory bytes and the value they hold determine each other. */
  lemma HostRoundTrip(v: U32, m: seq<Byte>, order: HostOrder)
    requires |m| == 4
    ensures HostValue(HostBytes(v, order), order) == v
    ensures HostBytes(HostValue(m, order), order) == m
  {
    assert Pow(256, 4) == 0x1_0000_0000;
    BigEndianRoundTrip(v, 4);
    var bs := if order == MostSignificantFirst then m else Reversed(m);
    BigEndianOfValue(bs);
    if order == LeastSignificantFirst {
      ReversedTwice(BigEndian(v, 4));
      ReversedTwice(m);
    }
  }

  lemma ReversedTwice(s: seq<Byte>)
    ensures Reversed(Reversed(s)) == s
  {
    var r := Reversed(Reversed(s));
    assert forall i :: 0 <= i < |s| ==> r[i] == s[i];
  }

  /** The octets `Render` prints: `(v >> 24) & 0xFF`, `(v >> 16) & 0xFF`, `(v >> 8) & 0xFF`, `v & 0xFF`. */
  function Octets(v: U32): (r: seq<Byte>)
    ensures r == BigEndian(v, 4)
  {
    BigEndianFour(v);
    [(v / 0x100_0000) % 256, (v / 0x1_0000) % 256, (v / 0x100) % 256, v % 256]
  }

  lemma BigEndianFour(v: nat)
    ensures BigEndian(v, 4) == [(v / 0x100_0000) % 256, (v / 0x1_0000) % 256, (v / 0x100) % 256, v % 256]
  {
    DivDiv(v, 256, 256);
    DivDiv(v, 256 * 256, 256);
    assert BigEndian(v / 0x100_0000, 1) == [(v / 0x100_0000) % 256];
    assert BigEndian(v / 0x1_0000, 2) == [(v / 0x100_0000) % 256, (v / 0x1_0000) % 256];
    assert BigEndian(v / 0x100, 3) == [(v / 0x100_0000) % 256, (v / 0x1_0000) % 256, (v / 0x100) % 256];
  }

  /** `sprintf("%u.%u.%u.%u", a, b, c, d)`. */
  function DottedQuad(a: Byte, b: Byte, c: Byte, d: Byte): (r: Text)
  {
    Decimal(a) + DOT + Decimal(b) + DOT + Decimal(c) + DOT + Decimal(d)
  }

  lemma DottedQuadChars(a: Byte, b: Byte, c: Byte, d: Byte)
    ensures var r := DottedQuad(a, b, c, d);
      forall i :: 0 <= i < |r| ==> r[i] == '.' || '0' <= r[i] <= '9'
  {
  }

  /** One octet and its dot are read by one conversion and the literal dot after it. */
  lemma ScanFieldsStep(o: Byte, rest: Text, count: nat)
    requires count >= 2
    ensures ScanFields(Decimal(o) + DOT + rest, count)
      == match ScanFields(rest, count - 1)
         case None => None
         case Some(more) => Some([Scan(false, o, DOT + rest)] + more)
  {
    var tail: Text := DOT + rest;
    var t := Decimal(o) + tail;
    assert Decimal(o) + DOT + rest == t;
    ScanDecimal(o, tail);
    assert tail[1..] == rest;
  }

  /** The last octet is read by one conversion. */
  lemma ScanOctetsLast(o: Byte, t: Text)
    requires t == Decimal(o)
    ensures ScanOctets(t, 1) == Some([o])
  {
    ScanDecimal(o, []);
    assert t + [] == t;
    var s := Scan(false, o, []);
    assert ScanFields(t, 1) == Some([s]);
    assert [s][1..] == [];
    ToU8Keep(o);
    assert StoredOctets([s]) == [o];
    assert ScanOctets(t, 1) == Some(StoredOctets([s]));
  }

  /** An octet, its dot and the octets after them read back as that octet followed by the others. */
  lemma ScanOctetsStep(o: Byte, rest: Text, t: Text, count: nat, os: seq<Byte>)
    requires count >= 2 && t == Decimal(o) + DOT + rest
    requires ScanOctets(rest, count - 1) == Some(os)
    ensures ScanOctets(t, count) == Some([o] + os)
  {
    ScanFieldsStep(o, rest, count);
    var s := Scan(false, o, DOT + rest);
    var more := ScanFields(rest, count - 1).value;
    assert ScanFields(t, count) == Some([s] + more);
    assert StoredOctets(more) == os;
    assert ([s] + more)[1..] == more;
    ToU8Keep(o);
    assert StoredOctets([s] + more) == [o] + os;
  }

  /** What the dotted octets print, the four `%hhu` conversions separated by dots read back. */
  lemma ScanDottedQuad(a: Byte, b: Byte, c: Byte, d: Byte)
    ensures ScanOctets(DottedQuad(a, b, c, d), 4) == Some([a, b, c, d])
  {
    var os: seq<Byte> := [a] + ([b] + ([c] + [d]));
    assert os == [a, b, c, d];
    var t3: Text := Decimal(d);
    var t2: Text := Decimal(c) + DOT + t3;
    var t1: Text := Decimal(b) + DOT + t2;
    var t0: Text := Decimal(a) + DOT + t1;
    assert DottedQuad(a, b, c, d) == t0;
    ScanOctetsLast(d, t3);
    ScanOctetsStep(c, t3, t2, 2, [d]);
    ScanOctetsStep(b, t2, t1, 3, [c] + [d]);
    ScanOctetsStep(a, t1, t0, 4, [b] + ([c] + [d]));
  }

  /** Dotted octets have no whitespace to trim and no blank inside. */
  lemma DottedQuadPlain(a: Byte, b: Byte, c: Byte, d: Byte)
    ensures var r := DottedQuad(a, b, c, d); Trim(r) == r && !HasBlank(r)
  {
    DottedQuadChars(a, b, c, d);
    NoBlanks(DottedQuad(a, b, c, d));
  }

  /** The value `SerializedIpAddress::Parse` takes from `rendering`, if it accepts it. */
  function DottedValue(rendering: Text): (r: Option<U32>)
  {
    var t := Trim(rendering);
    if HasBlank(t) then None
    else match ScanOctets(t, 4)
      case None => None
      case Some(os) => Some(Pack(os))
  }

  /** `b0 << 24 | b1 << 16 | b2 << 8 | b3`: the shifted octets do not overlap, so `|` adds. */
  function Pack(os: seq<Byte>): (v: U32)
    requires |os| == 4
    ensures v == BigEndianValue(os)
  {
    assert os[..3][..2] == os[..2] && os[..2][..1] == os[..1] && os[..1][..0] == [];
    assert BigEndianValue(os[..1]) == os[0];
    assert BigEndianValue(os[..2]) == os[0] as int * 256 + os[1];
    assert BigEndianValue(os[..3]) == (os[0] as int * 256 + os[1]) * 256 + os[2];
    os[0] as int * 0x100_0000 + os[1] as int * 0x1_0000 + os[2] as int * 0x100 + os[3]
  }

  /** `Render`'s text for `v`: its octets, most significant first. */
  function DottedAddress(v: U32): Text
  {
    var os := Octets(v);
    DottedQuad(os[0], os[1], os[2], os[3])
  }

  /** What `Render` prints, `Parse` turns back into the same address. */
  lemma DottedRoundTrip(v: U32)
    ensures DottedValue(DottedAddress(v)) == Some(v)
  {
    var os := Octets(v);
    DottedQuadPlain(os[0], os[1], os[2], os[3]);
    ScanDottedQuad(os[0], os[1], os[2], os[3]);
    assert [os[0], os[1], os[2], os[3]] == os;
    assert Pow(256, 4) == 0x1_0000_0000;
    BigEndianRoundTrip(v, 4);
  }

  /** `SerializedIpAddress` (src/SerializedIpAddress.cpp). */
  class SerializedIpAddress {
    var value: U32

    constructor (initialValue: U32)
      ensures value == initialValue
    {
      value := initialValue;
    }

    /** The four bytes of the value, as they lie in memory. */
    method Serialize(file: File, order: HostOrder) returns (ok: bool)
      modifies file
      ensures ok == Fits(old(file.State()), file.capacity, HostBytes(value, order))
      ensures file.State() == Put(old(file.State()), file.capacity, HostBytes(value, order))
    {
      var written := file.Write(HostBytes(value, order));
      ok := written == 4;
    }

    /**
     * Reads up to four bytes straight into the value's memory: a short read
     * fails, having replaced only the bytes it got.
     */
    method Deserialize(file: File, order: HostOrder) returns (ok: bool)
      modifies this, file
      ensures var bs := Available(old(file.data), old(file.pos), 4);
        ok == (|bs| == 4)
        && value == HostValue(bs + HostBytes(old(value), order)[|bs|..], order)
        && file.data == old(file.data) && file.pos == old(file.pos) + |bs|
    {
      var bs := file.Read(4);
      value := HostValue(bs + HostBytes(value, order)[|bs|..], order);
      ok := |bs| == 4;
    }

    function Render(): (r: Text)
      reads this
      ensures DottedValue(r) == Some(value)
    {
      DottedRoundTrip(value);
      DottedAddress(value)
    }

    /**
     * After trimming, a blank anywhere or fewer than four dotted conversions
     * refuses the text and keeps the value; otherwise the octets are packed
     * most significant first.
     */
    method Parse(rendering: Text) returns (ok: bool)
      modifies this
      ensures ok == DottedValue(rendering).Some?
      ensures value == (if ok then DottedValue(rendering).value else old(value))
    {
      var t := Trim(rendering);
      if HasBlank(t) {
        assert DottedValue(rendering) == None;
        return false;
      }
      match ScanOctets(t, 4)
      case None =>
        assert DottedValue(rendering) == None;
        ok := false;
      case Some(valueBytes) =>
        assert DottedValue(rendering) == Some(Pack(valueBytes));
        value := Pack(valueBytes);
        ok := true;
    }

    method IsEqualTo(other: SerializedIpAddress) returns (eq: bool)
      ensures eq <==> value == other.value
    {
      eq := value == other.value;
    }
  }

  /** Four bytes written are read back as the same address, on a host of either order. */
  lemma IpAddressRoundTrip(c: Cursor, capacity: Option<nat>, v: U32, old_value: U32, order: HostOrder)
    requires Fits(c, capacity, HostBytes(v, order))
    ensures var bs := Available(Put(c, capacity, HostBytes(v, order)).data, c.pos, 4);
      |bs| == 4 && HostValue(bs + HostBytes(old_value, order)[|bs|..], order) == v
  {
    var e := HostBytes(v, order);
    PutReadBack(c, capacity, e);
    assert e + HostBytes(old_value, order)[4..] == e;
    HostRoundTrip(v, e, order);
  }
}
