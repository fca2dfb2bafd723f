/**
 * `std::string` as the C++ object format uses it: a sequence of bytes, written
 * here as characters below 256, with the whitespace trimming the `Parse`
 * methods apply to their input and the decimal digits `sprintf` prints for
 * IP address octets.
 */
module CppText {
  import opened Bytes

  /** A C++ `char`, one byte. */
  type Char8 = c: char | c as int < 256

  /** A `std::string`. */
  type Text = seq<Char8>

  /** The bytes `std::string::data()` holds. */
  function ToBytes(t: Text): (r: seq<Byte>)
    ensures |r| == |t| && forall i :: 0 <= i < |t| ==> r[i] == t[i] as int
  {
    if t == [] then [] else [t[0] as int] + ToBytes(t[1..])
  }

  /** The string `assign(bytes, length)` builds. */
  function OfBytes(bs: seq<Byte>): (r: Text)
    ensures |r| == |bs| && forall i :: 0 <= i < |bs| ==> r[i] as int == bs[i]
  {
    if bs == [] then [] else [bs[0] as char] + OfBytes(bs[1..])
  }

  lemma BytesRoundTrip(t: Text, bs: seq<Byte>)
    ensures OfBytes(ToBytes(t)) == t && ToBytes(OfBytes(bs)) == bs
  {
    var t' := OfBytes(ToBytes(t));
    assert forall i :: 0 <= i < |t| ==> t'[i] == t[i];
  }

  /** The literal dot between the octets of an IP address. */
  const DOT: Text := "."

  /** The characters `isspace` accepts in the C locale. */
  predicate IsSpace(c: char)
  {
    c == ' ' || c == '\t' || c == '\n' || c == '\r' || c == '\U{000B}' || c == '\U{000C}'
  }

  function TrimStart(t: Text): (r: Text)
    ensures |r| <= |t|
    ensures r == [] || !IsSpace(r[0])
  {
    if t != [] && IsSpace(t[0]) then TrimStart(t[1..]) else t
  }

  function TrimEnd(t: Text): (r: Text)
    ensures |r| <= |t|
    ensures r == [] || !IsSpace(r[|r| - 1])
    ensures t != [] && !IsSpace(t[0]) ==> r != [] && r[0] == t[0]
  {
    if t != [] && IsSpace(t[|t| - 1]) then TrimEnd(t[..|t| - 1]) else t
  }

  lemma {:induction false} TrimStartSuffix(t: Text)
    ensures TrimStart(t) == t[|t| - |TrimStart(t)|..]
  {
    if t != [] && IsSpace(t[0]) {
      TrimStartSuffix(t[1..]);
    }
  }

  lemma {:induction false} TrimEndPrefix(t: Text)
    ensures TrimEnd(t) == t[..|TrimEnd(t)|]
  {
    if t != [] && IsSpace(t[|t| - 1]) {
      TrimEndPrefix(t[..|t| - 1]);
    }
  }

  /** Whitespace removed from both ends. */
  function Trim(t: Text): Text
  {
    TrimEnd(TrimStart(t))
  }

  /** How many leading characters `Trim` drops. */
  function Leading(t: Text): nat
  {
    |t| - |TrimStart(t)|
  }

  /**
   * What `Trim` returns is a contiguous piece of its input with no whitespace
   * at either end, and text that has none there is returned unchanged.
   */
  lemma TrimShape(t: Text)
    ensures var r, k := Trim(t), Leading(t);
      k + |r| <= |t| && r == t[k..k + |r|]
      && (r == [] || (!IsSpace(r[0]) && !IsSpace(r[|r| - 1])))
    ensures (t == [] || (!IsSpace(t[0]) && !IsSpace(t[|t| - 1]))) ==> Trim(t) == t
  {
    var s := TrimStart(t);
    var r := TrimEnd(s);
    TrimStartSuffix(t);
    TrimEndPrefix(s);
    if t != [] && !IsSpace(t[0]) && !IsSpace(t[|t| - 1]) {
      assert s == t;
    }
  }

  /** Text with no whitespace at either end is its own trimming. */
  lemma NothingToTrim(t: Text)
    requires t != [] && !IsSpace(t[0]) && !IsSpace(t[|t| - 1])
    ensures Trim(t) == t
  {
    TrimShape(t);
  }

  /** Text made of whitespace only. */
  predicate Spaces(t: Text)
  {
    forall i :: 0 <= i < |t| ==> IsSpace(t[i])
  }

  lemma {:induction false} TrimStartSpaces(lead: Text, x: Text)
    requires Spaces(lead) && (x == [] || !IsSpace(x[0]))
    ensures TrimStart(lead + x) == x
  {
    if lead != [] {
      assert (lead + x)[1..] == lead[1..] + x;
      TrimStartSpaces(lead[1..], x);
    } else {
      assert lead + x == x;
    }
  }

  lemma {:induction false} TrimEndSpaces(x: Text, trail: Text)
    requires Spaces(trail) && (x == [] || !IsSpace(x[|x| - 1]))
    ensures TrimEnd(x + trail) == x
  {
    if trail != [] {
      assert (x + trail)[..|x + trail| - 1] == x + trail[..|trail| - 1];
      TrimEndSpaces(x, trail[..|trail| - 1]);
    } else {
      assert x + trail == x;
    }
  }

  /** Whitespace around text with none at its ends is exactly what `Trim` removes. */
  lemma TrimPadded(lead: Text, x: Text, trail: Text)
    requires Spaces(lead) && Spaces(trail)
    requires x != [] && !IsSpace(x[0]) && !IsSpace(x[|x| - 1])
    ensures Trim(lead + x + trail) == x
  {
    assert lead + x + trail == lead + (x + trail);
    TrimStartSpaces(lead, x + trail);
    TrimEndSpaces(x, trail);
  }

  lemma TrimIdempotent(t: Text)
    ensures Trim(Trim(t)) == Trim(t)
  {
    TrimShape(t);
    TrimShape(Trim(t));
  }

  /** `find_first_of(" \r\n\t") != npos`. */
  predicate HasBlank(t: Text)
  {
    exists i :: 0 <= i < |t| && t[i] in {' ', '\r', '\n', '\t'}
  }

  /** Text made of digits, signs and dots only is left alone by `Trim` and has no blank in it. */
  lemma NoBlanks(t: Text)
    requires forall i :: 0 <= i < |t| ==> t[i] == '+' || t[i] == '-' || t[i] == '.' || '0' <= t[i] <= '9'
    ensures Trim(t) == t && !HasBlank(t)
  {
    TrimShape(t);
  }

  /** The decimal digits `sprintf("%u")` prints for `n`, most significant first. */
  function Decimal(n: nat): (r: Text)
    ensures |r| >= 1 && forall i :: 0 <= i < |r| ==> '0' <= r[i] <= '9'
  {
    var d := ['0' + (n % 10) as char];
    if n < 10 then d else Decimal(n / 10) + d
  }

  /** The number a string of decimal digits denotes. */
  function DigitsValue(t: Text): nat
    requires forall i :: 0 <= i < |t| ==> '0' <= t[i] <= '9'
  {
    if t == [] then 0 else DigitsValue(t[..|t| - 1]) * 10 + (t[|t| - 1] as int - '0' as int)
  }

  /** `Decimal` is read back by `DigitsValue`. */
  lemma {:induction false} DecimalValue(n: nat)
    ensures DigitsValue(Decimal(n)) == n
  {
    if n >= 10 {
      DecimalValue(n / 10);
      var r := Decimal(n);
      assert r[..|r| - 1] == Decimal(n / 10);
    }
  }
}
