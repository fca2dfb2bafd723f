/**
 * Byte-level vocabulary shared by the Rust codec and the C++ object format.
 * Bytes are small integers, so masks and shifts of the source are written with
 * `%` and `/` (`b & 0x7F` is `b % 128`, `b >> 8` is `b / 256`).
 */
module Bytes {

  type Byte = b: int | 0 <= b < 256

  datatype Option<T> = None | Some(value: T)

  const U16_MAX: nat := 0xFFFF
  const U32_MAX: nat := 0xFFFF_FFFF
  const U64_MAX: nat := 0xFFFF_FFFF_FFFF_FFFF
  const I16_MAX: int := 0x7FFF
  const I32_MAX: int := 0x7FFF_FFFF
  const I32_MIN: int := -0x8000_0000
  const I64_MAX: int := 0x7FFF_FFFF_FFFF_FFFF
  const I64_MIN: int := -0x8000_0000_0000_0000

  function Abs(v: int): nat
  {
    if v < 0 then -v else v
  }

  function Pow(base: nat, k: nat): (r: nat)
    ensures base > 0 ==> r > 0
  {
    if k == 0 then 1 else base * Pow(base, k - 1)
  }

  lemma {:induction false} PowAdd(base: nat, m: nat, n: nat)
    ensures Pow(base, m + n) == Pow(base, m) * Pow(base, n)
  {
    if m > 0 {
      PowAdd(base, m - 1, n);
      assert Pow(base, m + n) == base * Pow(base, m - 1 + n);
      MulAssoc(base, Pow(base, m - 1), Pow(base, n));
    }
  }

  lemma MulAssoc(x: int, y: int, z: int)
    ensures x * (y * z) == (x * y) * z
  {
  }

  /** Quotients are unique: `x == q * d + r` with `r < d` fixes `x / d`. */
  lemma DivUnique(x: nat, d: nat, q: nat, r: nat)
    requires d > 0 && r < d && x == q * d + r
    ensures x / d == q
  {
    MulMonotone(q + 1, x / d, d);
    MulMonotone(x / d + 1, q, d);
  }

  lemma MulMonotone(a: int, b: int, d: nat)
    ensures a <= b ==> a * d <= b * d
  {
  }

  lemma MulAddRight(x: int, y: int, d: int)
    ensures (x + y) * d == x * d + y * d
  {
  }

  lemma MulComm3(x: int, a: int, b: int)
    ensures x * b * a == x * (a * b)
  {
  }

  /** The products that relate `x / a / b` to `x / (a * b)`. */
  lemma DivDivParts(a: nat, b: nat, q2: nat, r2: nat, r: nat)
    requires r < a && r2 < b
    ensures (q2 * b + r2) * a + r == q2 * (a * b) + (r2 * a + r)
    ensures 0 <= r2 * a && r2 * a + r < a * b
  {
    MulAddRight(q2 * b, r2, a);
    MulComm3(q2, a, b);
    MulMonotone(r2, b - 1, a);
    MulAddRight(b - 1, 1, a);
  }

  /** Dividing by `a` and then by `b` is dividing by `a * b`. */
  lemma DivDiv(x: nat, a: nat, b: nat)
    requires a > 0 && b > 0
    ensures x / a / b == x / (a * b)
  {
    var q, r := x / a, x % a;
    var q2, r2 := q / b, q % b;
    assert x == q * a + r;
    assert q == q2 * b + r2;
    assert x == (q2 * b + r2) * a + r;
    DivDivParts(a, b, q2, r2, r);
    DivUnique(x, a * b, q2, r2 * a + r);
  }

  /** `n` bytes of `v`, most significant first, as `(v >> (8 * i)) & 0xFF` for i = n-1 down to 0. */
  function BigEndian(v: nat, n: nat): (r: seq<Byte>)
    ensures |r| == n
  {
    if n == 0 then [] else BigEndian(v / 256, n - 1) + [v % 256]
  }

  /** The number a byte string denotes when read most significant byte first. */
  function BigEndianValue(bs: seq<Byte>): nat
  {
    if bs == [] then 0 else BigEndianValue(bs[..|bs| - 1]) * 256 + bs[|bs| - 1]
  }

  lemma {:induction false} BigEndianValueBound(bs: seq<Byte>)
    ensures BigEndianValue(bs) < Pow(256, |bs|)
  {
    if bs != [] {
      BigEndianValueBound(bs[..|bs| - 1]);
    }
  }

  /** Splitting into `n` bytes and reading them back gives `v` whenever `v` fits in `n` bytes. */
  lemma {:induction false} BigEndianRoundTrip(v: nat, n: nat)
    requires v < Pow(256, n)
    ensures BigEndianValue(BigEndian(v, n)) == v
  {
    if n > 0 {
      var q := v / 256;
      ByteShift(v, Pow(256, n - 1));
      BigEndianRoundTrip(q, n - 1);
      BigEndianValueSnoc(BigEndian(q, n - 1), v % 256);
    }
  }

  /** Appending a byte shifts the number up by a byte and adds the new byte. */
  lemma BigEndianValueSnoc(bs: seq<Byte>, b: Byte)
    ensures BigEndianValue(bs + [b]) == BigEndianValue(bs) * 256 + b
  {
    assert (bs + [b])[..|bs|] == bs;
  }

  /** Dropping the low byte of `v` leaves a number below `p` when `v` is below `256 * p`. */
  lemma ByteShift(v: nat, p: nat)
    requires v < 256 * p
    ensures v / 256 < p && v / 256 * 256 + v % 256 == v
  {
  }

  /** Reading `bs` as a number and splitting it again into `|bs|` bytes gives `bs` back. */
  lemma {:induction false} BigEndianOfValue(bs: seq<Byte>)
    ensures BigEndian(BigEndianValue(bs), |bs|) == bs
  {
    if bs != [] {
      var init, last := bs[..|bs| - 1], bs[|bs| - 1];
      BigEndianOfValue(init);
      ByteJoin(BigEndianValue(init), last);
      assert bs == init + [last];
    }
  }

  /** A number shifted up by a byte, plus a byte, splits back into the two. */
  lemma ByteJoin(h: nat, b: Byte)
    ensures (h * 256 + b) / 256 == h && (h * 256 + b) % 256 == b
  {
  }
}
