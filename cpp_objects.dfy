/**
 * What a `SerializedObject` stands for (src/SerializedObject.cpp,
 * include/Serialization/SerializedObject.hpp): a type and the value of the
 * concrete object of that type behind it. This module holds that value and
 * what the object does with it apart from files: the type-id table, `==`,
 * `Render`, and the first step of `Parse`, which decides from the text which
 * type of object to make.
 */
module CppObjects {
  import opened Bytes
  import opened CppText
  import opened CppNumbers
  import opened CppOrdered
  import opened CppScalars
  import opened CppLayout
  import opened CppIntegerVectors

  /** `SerializedObject::Type`. */
  datatype Type =
    | Empty
    | Boolean
    | Integer
    | UnsignedInteger
    | Decimal
    | String
    | Vector
    | Collection
    | IpAddress
    | IntegerVector
    | UnsignedIntegerVector

  /**
   * The value behind a `SerializedObject`: none for `Empty`, otherwise the
   * `value_` of its concrete object. A `Collection` keeps its entries in
   * ascending key order, as its `std::map` does.
   */
  datatype Value =
    | EmptyValue
    | BooleanValue(b: bool)
    | IntegerValue(i: I32)
    | UnsignedIntegerValue(u: U64)
    | DecimalValue(raw: seq<Byte>)
    | StringValue(s: Text)
    | VectorValue(items: seq<Value>)
    | CollectionValue(entries: seq<Entry<Value>>)
    | IpAddressValue(address: U32)
    | IntegerVectorValue(ints: seq<I32>)
    | UnsignedIntegerVectorValue(uints: seq<U32>)

  /** What the model takes from outside: the host's byte order, `Indent(·, 4)` and `sprintf("%lf")`. */
  datatype Host = Host(order: HostOrder, indent: Text -> Text, decimalText: seq<Byte> -> Text)

  function TypeOf(v: Value): Type
  {
    match v
    case EmptyValue => Empty
    case BooleanValue(_) => Boolean
    case IntegerValue(_) => Integer
    case UnsignedIntegerValue(_) => UnsignedInteger
    case DecimalValue(_) => Decimal
    case StringValue(_) => String
    case VectorValue(_) => Vector
    case CollectionValue(_) => Collection
    case IpAddressValue(_) => IpAddress
    case IntegerVectorValue(_) => IntegerVector
    case UnsignedIntegerVectorValue(_) => UnsignedIntegerVector
  }

  // ---------------------------------------------------------------- type ids

  /** The id string `Serialize` writes for each type. */
  function TypeId(t: Type): Text
  {
    match t
    case Empty => "e"
    case Boolean => "b"
    case Integer => "n"
    case IntegerVector => "nv"
    case IpAddress => "ip"
    case UnsignedInteger => "i"
    case UnsignedIntegerVector => "iv"
    case String => "s"
    case Decimal => "d"
    case Vector => "v"
    case Collection => "c"
  }

  /** The type `Deserialize` recognises in an id string, if any. */
  function TypeOfId(id: Text): Option<Type>
  {
    if id == "e" then Some(Empty)
    else if id == "b" then Some(Boolean)
    else if id == "ip" then Some(IpAddress)
    else if id == "i" then Some(UnsignedInteger)
    else if id == "iv" then Some(UnsignedIntegerVector)
    else if id == "n" then Some(Integer)
    else if id == "nv" then Some(IntegerVector)
    else if id == "s" then Some(String)
    else if id == "d" then Some(Decimal)
    else if id == "v" then Some(Vector)
    else if id == "c" then Some(Collection)
    else None
  }

  /** Every type's id is recognised as that type, and only its own id is: the ids are distinct. */
  lemma TypeIdRoundTrip(t: Type, id: Text)
    ensures TypeOfId(TypeId(t)) == Some(t)
    ensures TypeOfId(id) == Some(t) ==> id == TypeId(t)
  {
  }

  // ---------------------------------------------------------------- operator==

  /**
   * `operator==`: objects of different types differ, two empty objects are
   * equal, and otherwise the concrete objects' `IsEqualTo` decides, which for
   * a vector compares element by element and for a collection entry by entry,
   * each with `==` again.
   */
  function Equal(a: Value, b: Value): bool
  {
    if TypeOf(a) != TypeOf(b) then false
    else
      match a
      case EmptyValue => true
      case VectorValue(xs) =>
        |xs| == |b.items| && forall i :: 0 <= i < |xs| ==> Equal(xs[i], b.items[i])
      case CollectionValue(es) =>
        |es| == |b.entries| && forall i :: 0 <= i < |es| ==>
          es[i].name == b.entries[i].name && Equal(es[i].value, b.entries[i].value)
      case _ => a == b
  }

  /** `operator!=`. */
  function NotEqual(a: Value, b: Value): bool
  {
    !Equal(a, b)
  }

  /** `==` holds exactly between identical values. */
  lemma {:induction false} EqualIsSame(a: Value, b: Value)
    ensures Equal(a, b) <==> a == b
    decreases a
  {
    match a
    case VectorValue(xs) =>
      if b.VectorValue? && |xs| == |b.items| {
        forall i | 0 <= i < |xs|
          ensures Equal(xs[i], b.items[i]) <==> xs[i] == b.items[i]
        {
          EqualIsSame(xs[i], b.items[i]);
        }
        if Equal(a, b) {
          assert xs == b.items;
        }
      }
    case CollectionValue(es) =>
      if b.CollectionValue? && |es| == |b.entries| {
        forall i | 0 <= i < |es|
          ensures Equal(es[i].value, b.entries[i].value) <==> es[i].value == b.entries[i].value
        {
          EqualIsSame(es[i].value, b.entries[i].value);
        }
        if Equal(a, b) {
          assert forall i :: 0 <= i < |es| ==> es[i] == b.entries[i];
          assert es == b.entries;
        }
      }
    case _ =>
  }

  // ---------------------------------------------------------------- Render

  /** `SerializedVector::Render`: like the integer vectors, but each element on its own line is indented. */
  function VectorLayout(rs: seq<Text>, indent: Text -> Text): (r: Text)
    ensures |r| >= 2 && r[0] == '[' && r[|r| - 1] == ']'
  {
    "[" + (if Width(rs) >= 70 then Joined(Indented(rs, indent), BREAK, BREAK) + NEWLINE else Joined(rs, [], SPACE)) + "]"
  }

  function Indented(rs: seq<Text>, indent: Text -> Text): (r: seq<Text>)
    ensures |r| == |rs|
  {
    seq(|rs|, i requires 0 <= i < |rs| => indent(rs[i]))
  }

  /** One line of `SerializedCollection::Render`: four spaces, the key, `: ` and the indented rendering. */
  function Member(name: Text, rendering: Text): Text
  {
    "    " + name + ": " + rendering
  }

  /** `SerializedCollection::Render`: `{}` when empty, else one member per line between braces. */
  function CollectionLayout(members: seq<Text>): (r: Text)
    ensures |r| >= 2 && r[0] == '{' && r[|r| - 1] == '}'
  {
    if members == [] then "{}" else "{" + NEWLINE + Joined(members, [], NEWLINE) + NEWLINE + "}"
  }

  /** `SerializedObject::Render`: `Empty` without a concrete object, else the concrete object's `Render`. */
  function Render(v: Value, host: Host): Text
  {
    match v
    case EmptyValue => "Empty"
    case BooleanValue(b) => if b then "True" else "False"
    case IntegerValue(i) => SignedText(i)
    case UnsignedIntegerValue(u) => CppText.Decimal(u)
    case DecimalValue(raw) => host.decimalText(raw)
    case StringValue(s) => Quoted(s)
    case VectorValue(items) =>
      VectorLayout(seq(|items|, i requires 0 <= i < |items| => Render(items[i], host)), host.indent)
    case CollectionValue(es) =>
      CollectionLayout(seq(|es|, i requires 0 <= i < |es| => Member(es[i].name, host.indent(Render(es[i].value, host)))))
    case IpAddressValue(a) => DottedAddress(a)
    case IntegerVectorValue(xs) => Layout('(', ')', Renderings(xs, SignedText))
    case UnsignedIntegerVectorValue(xs) => Layout('<', '>', Renderings(xs, UnsignedText))
  }

  // ---------------------------------------------------------------- Parse, first step

  /** How many `.` the text holds. */
  function Dots(t: Text): nat
  {
    if t == [] then 0 else (if t[0] == '.' then 1 else 0) + Dots(t[1..])
  }

  /**
   * The type `SerializedObject::Parse` makes of a rendering, in the order it
   * tests: nothing for blank text; `Empty` for its three spellings; then by
   * the first character; then one `.` for `Decimal` and more for
   * `IpAddress`; digits only for `UnsignedInteger`; `Boolean` for the rest.
   */
  function Classify(rendering: Text): (r: Option<Type>)
    ensures r == None <==> Trim(rendering) == []
  {
    var t := Trim(rendering);
    if t == [] then None
    else if t == "empty" || t == "Empty" || t == "EMPTY" then Some(Empty)
    else if t[0] == '"' then Some(String)
    else if t[0] == '[' then Some(Vector)
    else if t[0] == '{' then Some(Collection)
    else if t[0] == '(' then Some(IntegerVector)
    else if t[0] == '<' then Some(UnsignedIntegerVector)
    else if t[0] == '-' || t[0] == '+' then Some(Integer)
    else if Dots(t) > 0 then (if Dots(t) == 1 then Some(Decimal) else Some(IpAddress))
    else if forall i :: 0 <= i < |t| ==> IsDigit(t[i]) then Some(UnsignedInteger)
    else Some(Boolean)
  }

  lemma {:induction false} DotsAppend(a: Text, b: Text)
    ensures Dots(a + b) == Dots(a) + Dots(b)
  {
    if a != [] {
      assert (a + b)[0] == a[0] && (a + b)[1..] == a[1..] + b;
      DotsAppend(a[1..], b);
    } else {
      assert a + b == b;
    }
  }

  lemma {:induction false} NoDots(t: Text)
    requires forall i :: 0 <= i < |t| ==> t[i] != '.'
    ensures Dots(t) == 0
  {
    if t != [] {
      NoDots(t[1..]);
    }
  }

  lemma DottedQuadDots(a: Byte, b: Byte, c: Byte, d: Byte)
    ensures Dots(DottedQuad(a, b, c, d)) == 3
  {
    var da, db, dc, dd := CppText.Decimal(a), CppText.Decimal(b), CppText.Decimal(c), CppText.Decimal(d);
    NoDots(da);
    NoDots(db);
    NoDots(dc);
    NoDots(dd);
    assert Dots(DOT) == 1;
    DotsAppend(da, DOT);
    DotsAppend(da + DOT, db);
    DotsAppend(da + DOT + db, DOT);
    DotsAppend(da + DOT + db + DOT, dc);
    DotsAppend(da + DOT + db + DOT + dc, DOT);
    DotsAppend(da + DOT + db + DOT + dc + DOT, dd);
  }

  /** A text that starts with one of `Parse`'s marks is classified by that mark alone. */
  lemma ClassifyMarked(t: Text, ty: Type)
    requires |t| >= 2 && !IsSpace(t[|t| - 1])
    requires (t[0] == '"' && ty == String) || (t[0] == '[' && ty == Vector) || (t[0] == '{' && ty == Collection)
      || (t[0] == '(' && ty == IntegerVector) || (t[0] == '<' && ty == UnsignedIntegerVector)
      || ((t[0] == '-' || t[0] == '+') && ty == Integer)
    ensures Classify(t) == Some(ty)
  {
    NothingToTrim(t);
  }

  lemma ClassifyWord(t: Text, ty: Type)
    requires (t == "Empty" && ty == Empty) || (t == "True" && ty == Boolean) || (t == "False" && ty == Boolean)
    ensures Classify(t) == Some(ty)
  {
    NothingToTrim(t);
    NoDots(t);
  }

  lemma ClassifyDigits(t: Text)
    requires t != [] && forall i :: 0 <= i < |t| ==> IsDigit(t[i])
    ensures Classify(t) == Some(UnsignedInteger)
  {
    NothingToTrim(t);
    NoDots(t);
  }

  lemma ClassifyQuad(a: Byte, b: Byte, c: Byte, d: Byte)
    ensures Classify(DottedQuad(a, b, c, d)) == Some(IpAddress)
  {
    var t := DottedQuad(a, b, c, d);
    DottedQuadChars(a, b, c, d);
    DottedQuadPlain(a, b, c, d);
    DottedQuadDots(a, b, c, d);
    assert t[0] == CppText.Decimal(a)[0];
  }

  /**
   * `Parse` takes every rendering back to the type it came from, except a
   * decimal's, whose `%lf` text is not part of this model.
   */
  lemma RenderClassified(v: Value, host: Host)
    requires !v.DecimalValue?
    ensures Classify(Render(v, host)) == Some(TypeOf(v))
  {
    var r := Render(v, host);
    match v
    case EmptyValue => ClassifyWord(r, Empty);
    case BooleanValue(b) => ClassifyWord(r, Boolean);
    case UnsignedIntegerValue(u) => ClassifyDigits(r);
    case IpAddressValue(a) => ClassifyAddress(a);
    case _ => RenderMarked(v, host);
  }

  /** A dotted address is classified as an address. */
  lemma ClassifyAddress(a: U32)
    ensures Classify(DottedAddress(a)) == Some(IpAddress)
  {
    var os := Octets(a);
    ClassifyQuad(os[0], os[1], os[2], os[3]);
  }

  /** A rendering that starts with its type's mark is classified by the mark. */
  lemma RenderMarked(v: Value, host: Host)
    requires v.IntegerValue? || v.StringValue? || v.VectorValue? || v.CollectionValue?
      || v.IntegerVectorValue? || v.UnsignedIntegerVectorValue?
    ensures Classify(Render(v, host)) == Some(TypeOf(v))
  {
    var r := Render(v, host);
    match v
    case IntegerValue(i) => ClassifyMarked(r, Integer);
    case StringValue(s) => ClassifyMarked(r, String);
    case VectorValue(_) => ClassifyMarked(r, Vector);
    case CollectionValue(_) => ClassifyMarked(r, Collection);
    case IntegerVectorValue(_) => ClassifyMarked(r, IntegerVector);
    case UnsignedIntegerVectorValue(_) => ClassifyMarked(r, UnsignedIntegerVector);
  }
}
