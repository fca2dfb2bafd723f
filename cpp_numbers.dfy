/**
 * The C++ machine integers the object format stores, and the decimal text
 * `sprintf` prints and `sscanf` reads for them. Out-of-range conversions follow
 * glibc: `strtoul` saturates at `ULONG_MAX` and negates modulo 2^64 after a
 * minus sign, `strtol` saturates at the `long` range, and the result is cut to
 * the width of the destination; signed overflow wraps as in two's complement.
 */
module CppNumbers {
  import opened Bytes
  import opened CppText

  const TWO_32: nat := 0x1_0000_0000
  const TWO_64: nat := 0x1_0000_0000_0000_0000

  /** `uint32_t` / `unsigned int`. */
  type U32 = v: int | 0 <= v <= 0xFFFF_FFFF

  /** `uint64_t`. */
  type U64 = v: int | 0 <= v <= 0xFFFF_FFFF_FFFF_FFFF

  /** `int`. */
  type I32 = v: int | -0x8000_0000 <= v <= 0x7FFF_FFFF

  /** Conversion to `uint64_t`. */
  function ToU64(x: int): (r: U64)
  {
    x % TWO_64
  }

  /** Conversion to `uint32_t`. */
  function ToU32(x: int): (r: U32)
  {
    x % TWO_32
  }

  /** Conversion to `uint8_t`. */
  function ToU8(x: int): (r: Byte)
  {
    x % 256
  }

  /** Conversion to `int`, wrapping as two's-complement hardware does. */
  function ToI32(x: int): (r: I32)
  {
    (x + 0x8000_0000) % TWO_32 - 0x8000_0000
  }

  /** Each conversion leaves a value that fits its type unchanged. */
  lemma ToU64Keep(x: int)
    requires 0 <= x <= U64_MAX
    ensures ToU64(x) == x
  {
  }

  lemma ToU32Keep(x: int)
    requires 0 <= x <= U32_MAX
    ensures ToU32(x) == x
  {
  }

  lemma ToU8Keep(x: int)
    requires 0 <= x < 256
    ensures ToU8(x) == x
  {
  }

  lemma ToI32Keep(x: int)
    requires I32_MIN <= x <= I32_MAX
    ensures ToI32(x) == x
  {
  }

  // ---------------------------------------------------------------- modular arithmetic

  /** `x % m` is the `r` of any `x == q * m + r` with `0 <= r < m`. */
  lemma ModUnique(x: int, m: int, q: int, r: int)
    requires m > 0 && 0 <= r < m && x == q * m + r
    ensures x % m == r
  {
    var q', r' := x / m, x % m;
    assert x == q' * m + r';
    if q > q' {
      MulMonotone(q' + 1, q, m);
    } else if q < q' {
      MulMonotone(q + 1, q', m);
    }
  }

  /** Adding multiples of `m` does not change a remainder. */
  lemma ModMultiple(x: int, k: int, m: int)
    requires m > 0
    ensures (x + k * m) % m == x % m
  {
    var q := x / m;
    assert x == q * m + x % m;
    assert x + k * m == (q + k) * m + x % m;
    ModUnique(x + k * m, m, q + k, x % m);
  }

  /** `x` and `x % m` differ by a multiple of `m`. */
  lemma ModSplit(x: int, m: int) returns (k: int)
    requires m > 0
    ensures x % m == x + k * m
  {
    k := -(x / m);
  }

  /** Shifting left by 7 and adding a group, each step cut to 64 bits, is the exact step cut once. */
  lemma ToU64Shift(x: int, g: int)
    ensures ToU64(ToU64(ToU64(x) * 128) + g) == ToU64(x * 128 + g)
  {
    var k := ModSplit(x, TWO_64);
    assert ToU64(x) * 128 == x * 128 + (k * 128) * TWO_64;
    ModMultiple(x * 128, k * 128, TWO_64);
    var j := ModSplit(x * 128, TWO_64);
    assert ToU64(x * 128) + g == x * 128 + g + j * TWO_64;
    ModMultiple(x * 128 + g, j, TWO_64);
  }

  /** `ToI32(x)` and `x` differ by a multiple of 2^32. */
  lemma ToI32Split(x: int) returns (k: int)
    ensures ToI32(x) == x + k * TWO_32
  {
    k := ModSplit(x + 0x8000_0000, TWO_32);
  }

  /** `ToI32` only depends on its argument modulo 2^32. */
  lemma ToI32Multiple(x: int, k: int)
    ensures ToI32(x + k * TWO_32) == ToI32(x)
  {
    ModMultiple(x + 0x8000_0000, k, TWO_32);
  }

  /** The same for the 32-bit signed accumulator of `SerializedInteger::Deserialize`. */
  lemma ToI32Shift(x: int, g: int)
    ensures ToI32(ToI32(ToI32(x) * 128) + g) == ToI32(x * 128 + g)
  {
    var k := ToI32Split(x);
    assert ToI32(x) * 128 == x * 128 + (k * 128) * TWO_32;
    ToI32Multiple(x * 128, k * 128);
    var j := ToI32Split(x * 128);
    assert ToI32(x * 128) + g == x * 128 + g + j * TWO_32;
    ToI32Multiple(x * 128 + g, j);
  }

  /** Negating a wrapped value and wrapping again is wrapping the negation. */
  lemma ToI32Negate(x: int)
    ensures ToI32(-(ToI32(x) as int)) == ToI32(-x)
  {
    var k := ToI32Split(x);
    assert -(ToI32(x) as int) == -x + (-k) * TWO_32;
    ToI32Multiple(-x, -k);
  }

  // ---------------------------------------------------------------- sprintf

  /** `sprintf("%+d", v)`: the sign is always printed. */
  function SignedDecimal(v: int): (r: Text)
    ensures |r| >= 2 && r[0] == (if v < 0 then '-' else '+') && r[1..] == Decimal(Abs(v))
  {
    (if v < 0 then "-" else "+") + Decimal(Abs(v))
  }

  // ---------------------------------------------------------------- sscanf

  predicate IsDigit(c: char)
  {
    '0' <= c <= '9'
  }

  /** How many decimal digits `t` starts with. */
  function DigitRun(t: Text): (n: nat)
    ensures n <= |t| && forall i :: 0 <= i < n ==> IsDigit(t[i])
    ensures n < |t| ==> !IsDigit(t[n])
  {
    if t != [] && IsDigit(t[0]) then 1 + DigitRun(t[1..]) else 0
  }

  /** What one integer conversion of `sscanf` reads: a sign (if any) and the magnitude; `rest` is the unread text. */
  datatype Scan = Scan(negative: bool, magnitude: nat, rest: Text)

  /**
   * One integer conversion: whitespace is skipped, then an optional `+` or `-`,
   * then at least one decimal digit; reading stops at the first character that
   * is not a digit.
   */
  function ScanInteger(t: Text): (r: Option<Scan>)
    ensures r.Some? ==> |r.value.rest| < |t|
  {
    var s := TrimStart(t);
    if s != [] && (s[0] == '-' || s[0] == '+') then ScanDigits(s[0] == '-', s[1..]) else ScanDigits(false, s)
  }

  /** The digits after the sign: at least one is needed. */
  function ScanDigits(negative: bool, u: Text): (r: Option<Scan>)
    ensures r.Some? ==> |r.value.rest| < |u|
  {
    var n := DigitRun(u);
    if n == 0 then None else Some(Scan(negative, DigitsValue(u[..n]), u[n..]))
  }

  /** `strtoul`, as the unsigned conversions use it. */
  function StrToUL(s: Scan): (r: U64)
    ensures !s.negative && s.magnitude <= U64_MAX ==> r == s.magnitude
  {
    if s.magnitude > U64_MAX then U64_MAX
    else ToU64(if s.negative then -(s.magnitude as int) else s.magnitude)
  }

  /** `strtol`, as the `%d` conversion uses it. */
  function StrToL(s: Scan): (r: int)
    ensures I64_MIN <= r <= I64_MAX
    ensures var v := if s.negative then -(s.magnitude as int) else s.magnitude;
      I64_MIN <= v <= I64_MAX ==> r == v
  {
    var v := if s.negative then -(s.magnitude as int) else s.magnitude;
    if v > I64_MAX then I64_MAX else if v < I64_MIN then I64_MIN else v
  }

  /** The value `sscanf(t, "%" SCNu64, &v)` stores, if it converts anything. */
  function ScanU64(t: Text): Option<U64>
  {
    match ScanInteger(t)
    case None => None
    case Some(s) => Some(StrToUL(s))
  }

  /** The value `sscanf(t, "%u", &v)` stores. */
  function ScanU32(t: Text): Option<U32>
  {
    match ScanInteger(t)
    case None => None
    case Some(s) => Some(ToU32(StrToUL(s)))
  }

  /** The value `sscanf(t, "%d", &v)` stores. */
  function ScanI32(t: Text): Option<I32>
  {
    match ScanInteger(t)
    case None => None
    case Some(s) => Some(ToI32(StrToL(s)))
  }

  /**
   * The integer conversions of `sscanf(t, "%hhu.%hhu.%hhu.%hhu", ...)`: `count`
   * of them, each but the last followed by a literal dot. Reading stops at the
   * first conversion or dot that fails.
   */
  function ScanFields(t: Text, count: nat): (r: Option<seq<Scan>>)
    requires 1 <= count
    ensures r.Some? ==> |r.value| == count
    decreases count
  {
    match ScanInteger(t)
    case None => None
    case Some(s) =>
      if count == 1 then Some([s])
      else if s.rest == [] || s.rest[0] != '.' then None
      else match ScanFields(s.rest[1..], count - 1)
        case None => None
        case Some(more) => Some([s] + more)
  }

  /** The octets those conversions store when all `count` of them succeed: each cut to 8 bits. */
  function ScanOctets(t: Text, count: nat): (r: Option<seq<Byte>>)
    requires 1 <= count
    ensures r.Some? ==> |r.value| == count
  {
    match ScanFields(t, count)
    case None => None
    case Some(fields) => Some(StoredOctets(fields))
  }

  /** The octet each `%hhu` conversion stores: the converted value cut to 8 bits. */
  function StoredOctets(fields: seq<Scan>): (r: seq<Byte>)
    ensures |r| == |fields|
  {
    if fields == [] then [] else [ToU8(StrToUL(fields[0]))] + StoredOctets(fields[1..])
  }

  // ---------------------------------------------------------------- round trips

  lemma {:induction false} DigitRunPrefix(d: Text, r: Text)
    requires forall i :: 0 <= i < |d| ==> IsDigit(d[i])
    requires r == [] || !IsDigit(r[0])
    ensures DigitRun(d + r) == |d|
    decreases |d|
  {
    if d != [] {
      assert (d + r)[1..] == d[1..] + r;
      DigitRunPrefix(d[1..], r);
    } else {
      assert d + r == r;
    }
  }

  /** Decimal digits followed by anything but a digit are read back as the number they print. */
  lemma ScanDigitsDecimal(negative: bool, n: nat, r: Text)
    requires r == [] || !IsDigit(r[0])
    ensures ScanDigits(negative, Decimal(n) + r) == Some(Scan(negative, n, r))
  {
    var d := Decimal(n);
    DigitRunPrefix(d, r);
    assert (d + r)[..|d|] == d && (d + r)[|d|..] == r;
    DecimalValue(n);
  }

  lemma ScanDecimal(n: nat, r: Text)
    requires r == [] || !IsDigit(r[0])
    ensures ScanInteger(Decimal(n) + r) == Some(Scan(false, n, r))
  {
    var t := Decimal(n) + r;
    assert IsDigit(t[0]);
    NoSpaceFirst(t);
    ScanDigitsDecimal(false, n, r);
  }

  /** `%+d` printing is read back by an integer conversion. */
  lemma ScanSignedDecimal(v: int, r: Text)
    requires r == [] || !IsDigit(r[0])
    ensures ScanInteger(SignedDecimal(v) + r) == Some(Scan(v < 0, Abs(v), r))
  {
    var t := SignedDecimal(v) + r;
    assert t[0] == (if v < 0 then '-' else '+');
    NoSpaceFirst(t);
    assert t[1..] == Decimal(Abs(v)) + r;
    ScanDigitsDecimal(v < 0, Abs(v), r);
  }

  lemma NoSpaceFirst(t: Text)
    requires t != [] && !IsSpace(t[0])
    ensures TrimStart(t) == t
  {
  }

  /** `sscanf("%" SCNu64)` reads back what `sprintf("%" PRIu64)` printed. */
  lemma ScanU64Decimal(v: U64)
    ensures ScanU64(Decimal(v)) == Some(v)
  {
    ScanDecimal(v, []);
    assert Decimal(v) + [] == Decimal(v);
  }

  /** `sscanf("%u")` reads back what `sprintf("%u")` printed. */
  lemma ScanU32Decimal(v: U32)
    ensures ScanU32(Decimal(v)) == Some(v)
  {
    ScanDecimal(v, []);
    assert Decimal(v) + [] == Decimal(v);
    ToU32Keep(v);
  }

  /** `sscanf("%d")` reads back what `sprintf("%+d")` printed. */
  lemma ScanI32SignedDecimal(v: I32)
    ensures ScanI32(SignedDecimal(v)) == Some(v)
  {
    ScanSignedDecimal(v, []);
    assert SignedDecimal(v) + [] == SignedDecimal(v);
    ToI32Keep(v);
  }
}
