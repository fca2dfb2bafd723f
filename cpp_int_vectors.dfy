/**
 * `SerializedUnsignedIntegerVector` (a `std::vector<unsigned int>`) and
 * `SerializedIntegerVector` (a `std::vector<int>`): the element count and then
 * each element, in the base-128 layouts of `CppIntegers`, and the bracketed
 * text form of `CppLayout`.
 */
module CppIntegerVectors {
  import opened Bytes
  import opened Varint
  import opened CppText
  import opened CppNumbers
  import opened CppFile
  import opened CppIntegers
  import opened CppLayout

  // ---------------------------------------------------------------- binary form

  /** The elements' encodings one after the other. */
  function Encoded<T>(v: seq<T>, enc: T -> seq<Byte>): seq<Byte>
  {
    if v == [] then [] else enc(v[0]) + Encoded(v[1..], enc)
  }

  lemma {:induction false} EncodedAppend<T>(a: seq<T>, b: seq<T>, enc: T -> seq<Byte>)
    ensures Encoded(a + b, enc) == Encoded(a, enc) + Encoded(b, enc)
    decreases |a|
  {
    if a == [] {
      assert a + b == b;
    } else {
      assert (a + b)[1..] == a[1..] + b;
      EncodedAppend(a[1..], b, enc);
      BytesAssoc(enc(a[0]), Encoded(a[1..], enc), Encoded(b, enc));
    }
  }

  lemma BytesAssoc(a: seq<Byte>, b: seq<Byte>, c: seq<Byte>)
    ensures a + (b + c) == (a + b) + c
  {
  }

  /** An unsigned element is written by a `SerializedUnsignedInteger`. */
  function UElement(x: U32): seq<Byte>
  {
    UVarint(x)
  }

  /** A signed element is written by a `SerializedInteger`. */
  function SElement(x: I32): seq<Byte>
  {
    SVarint(x)
  }

  /** What `SerializedUnsignedIntegerVector::Serialize` writes: the count as a 64-bit unsigned integer, then the elements. */
  function UnsignedVectorBytes(v: seq<U32>): seq<Byte>
  {
    UVarint(ToU64(|v|)) + Encoded(v, UElement)
  }

  /** What `SerializedIntegerVector::Serialize` writes. */
  function SignedVectorBytes(v: seq<I32>): seq<Byte>
  {
    UVarint(ToU64(|v|)) + Encoded(v, SElement)
  }

  /** `std::vector::resize(n)`: cut to `n` elements, or padded with `zero`s. */
  function Resized<T>(v: seq<T>, n: nat, zero: T): (r: seq<T>)
    ensures |r| == n
    ensures forall i :: 0 <= i < n ==> r[i] == if i < |v| then v[i] else zero
  {
    if n <= |v| then v[..n] else v + seq(n - |v|, _ => zero)
  }

  /**
   * The element loop of `Deserialize`: `n` more elements read with `at` from
   * `pos` on, after the elements `got`; the first element that fails ends the
   * loop and is not stored.
   */
  function ReadFrom<T>(data: seq<Byte>, pos: nat, n: nat, at: (seq<Byte>, nat) -> Got<T>, got: seq<T>): (r: Got<seq<T>>)
    ensures |got| <= |r.value| <= |got| + n
    ensures r.ok ==> |r.value| == |got| + n
    decreases n
  {
    if n == 0 then Got(true, got, pos)
    else
      var e := at(data, pos);
      if !e.ok then Got(false, got, e.next)
      else ReadFrom(data, e.next, n - 1, at, got + [e.value])
  }

  /**
   * What `Deserialize` makes of the bytes at `pos` when the vector held
   * `prior`: the count comes first, and a failure there leaves the vector
   * alone; then the vector is resized to the count and filled element by
   * element, and a failure leaves the elements read so far in front of what
   * the resize left.
   */
  function VectorAt<T>(data: seq<Byte>, pos: nat, prior: seq<T>, zero: T, at: (seq<Byte>, nat) -> Got<T>): (r: Got<seq<T>>)
    ensures !UnsignedAt(data, pos).ok ==> !r.ok && r.value == prior
    ensures UnsignedAt(data, pos).ok ==> |r.value| == UnsignedAt(data, pos).value
  {
    var n := UnsignedAt(data, pos);
    if !n.ok then Got(false, prior, n.next)
    else Filled(data, n.next, Resized(prior, n.value, zero), at)
  }

  /**
   * The element loop over a vector already resized to `slots`: each element
   * read overwrites the next slot; the first failure stops the loop and leaves
   * the remaining slots as they were.
   */
  function Filled<T>(data: seq<Byte>, pos: nat, slots: seq<T>, at: (seq<Byte>, nat) -> Got<T>): (r: Got<seq<T>>)
    ensures |r.value| == |slots|
  {
    var items := ReadFrom(data, pos, |slots|, at, []);
    Got(items.ok, items.value + slots[|items.value|..], items.next)
  }

  /** `(unsigned int)` of what a `SerializedUnsignedInteger` reads. */
  function UnsignedElementAt(data: seq<Byte>, pos: nat): Got<U32>
  {
    var g := UnsignedAt(data, pos);
    Got(g.ok, ToU32(g.value), g.next)
  }

  /** Elements stored one after the other are read back, whatever follows them. */
  lemma {:induction false} ReadStored<T>(data: seq<Byte>, pos: nat, v: seq<T>, got: seq<T>,
                                         enc: T -> seq<Byte>, at: (seq<Byte>, nat) -> Got<T>)
    requires forall p: nat, x: T {:trigger Stored(data, p, enc(x))} :: Stored(data, p, enc(x)) ==> at(data, p) == Got(true, x, p + |enc(x)|)
    requires Stored(data, pos, Encoded(v, enc))
    ensures ReadFrom(data, pos, |v|, at, got) == Got(true, got + v, pos + |Encoded(v, enc)|)
    decreases |v|
  {
    if v == [] {
      assert got + v == got;
    } else {
      StoredSplit(data, pos, enc(v[0]), Encoded(v[1..], enc));
      ReadStored(data, pos + |enc(v[0])|, v[1..], got + [v[0]], enc, at);
      assert got + [v[0]] + v[1..] == got + v;
    }
  }

  /** Elements stored from `pos` on are read back by the whole loop. */
  lemma ReadAllStored<T>(data: seq<Byte>, pos: nat, v: seq<T>, enc: T -> seq<Byte>, at: (seq<Byte>, nat) -> Got<T>)
    requires forall p: nat, x: T {:trigger Stored(data, p, enc(x))} :: Stored(data, p, enc(x)) ==> at(data, p) == Got(true, x, p + |enc(x)|)
    requires Stored(data, pos, Encoded(v, enc))
    ensures ReadFrom(data, pos, |v|, at, []) == Got(true, v, pos + |Encoded(v, enc)|)
  {
    ReadStored(data, pos, v, [], enc, at);
    assert [] + v == v;
  }

  /** A count that is read, followed by as many elements that are read, is a vector that is read. */
  lemma VectorAtRead<T>(data: seq<Byte>, pos: nat, prior: seq<T>, zero: T, at: (seq<Byte>, nat) -> Got<T>,
                        n: nat, q: nat, v: seq<T>, r: nat)
    requires UnsignedAt(data, pos) == Got(true, n, q)
    requires ReadFrom(data, q, n, at, []) == Got(true, v, r)
    ensures VectorAt(data, pos, prior, zero, at) == Got(true, v, r)
  {
    assert Resized(prior, n, zero)[n..] == [];
    assert v + [] == v;
  }

  /** A failed element ends the element loop with what was read before it. */
  lemma ReadStop<T>(data: seq<Byte>, pos: nat, n: nat, at: (seq<Byte>, nat) -> Got<T>, got: seq<T>, e: Got<T>)
    requires n > 0 && at(data, pos) == e && !e.ok
    ensures ReadFrom(data, pos, n, at, got) == Got(false, got, e.next)
  {
  }

  /** An element that is read moves the element loop on past it. */
  lemma ReadOn<T>(data: seq<Byte>, pos: nat, n: nat, at: (seq<Byte>, nat) -> Got<T>, got: seq<T>, e: Got<T>)
    requires n > 0 && at(data, pos) == e && e.ok
    ensures ReadFrom(data, pos, n, at, got) == ReadFrom(data, e.next, n - 1, at, got + [e.value])
  {
  }

  /** Storing the next element over slot `k` of the resized vector. */
  lemma FillSlot<T>(got: seq<T>, slots: seq<T>, k: nat, x: T)
    requires |got| == k < |slots|
    ensures (got + slots[k..])[k := x] == (got + [x]) + slots[k + 1..]
  {
    assert (got + slots[k..])[k := x] == (got + [x]) + slots[k + 1..];
  }

  /** Every stored unsigned element is read back. */
  lemma UnsignedElementsStored(data: seq<Byte>)
    ensures forall p: nat, x: U32 {:trigger Stored(data, p, UElement(x))} :: Stored(data, p, UElement(x)) ==> UnsignedElementAt(data, p) == Got(true, x, p + |UElement(x)|)
  {
    forall p: nat, x: U32 | Stored(data, p, UElement(x))
      ensures UnsignedElementAt(data, p) == Got(true, x, p + |UElement(x)|)
    {
      UnsignedAtStored(data, p, x);
      ToU32Keep(x);
    }
  }

  /** Every stored signed element is read back. */
  lemma SignedElementsStored(data: seq<Byte>)
    ensures forall p: nat, x: I32 {:trigger Stored(data, p, SElement(x))} :: Stored(data, p, SElement(x)) ==> SignedAt(data, p) == Got(true, x, p + |SElement(x)|)
  {
    forall p: nat, x: I32 | Stored(data, p, SElement(x))
      ensures SignedAt(data, p) == Got(true, x, p + |SElement(x)|)
    {
      SignedAtStored(data, p, x);
    }
  }

  /** A stored count is read back, and what follows it starts where the count ends. */
  lemma CountStored(data: seq<Byte>, pos: nat, n: nat, rest: seq<Byte>)
    requires n <= U64_MAX && Stored(data, pos, UVarint(ToU64(n)) + rest)
    ensures UnsignedAt(data, pos) == Got(true, n, pos + |UVarint(ToU64(n))|)
    ensures Stored(data, pos + |UVarint(ToU64(n))|, rest)
  {
    ToU64Keep(n);
    StoredSplit(data, pos, UVarint(n), rest);
    UnsignedAtStored(data, pos, n);
  }

  /** A vector stored as its count and its elements is read back whole, whatever the vector held before. */
  lemma VectorStored<T>(data: seq<Byte>, pos: nat, v: seq<T>, prior: seq<T>, zero: T,
                        enc: T -> seq<Byte>, at: (seq<Byte>, nat) -> Got<T>)
    requires forall p: nat, x: T {:trigger Stored(data, p, enc(x))} :: Stored(data, p, enc(x)) ==> at(data, p) == Got(true, x, p + |enc(x)|)
    requires |v| <= U64_MAX && Stored(data, pos, UVarint(ToU64(|v|)) + Encoded(v, enc))
    ensures VectorAt(data, pos, prior, zero, at) == Got(true, v, pos + |UVarint(ToU64(|v|)) + Encoded(v, enc)|)
  {
    var q := pos + |UVarint(ToU64(|v|))|;
    var r := q + |Encoded(v, enc)|;
    CountStored(data, pos, |v|, Encoded(v, enc));
    ReadAllStored(data, q, v, enc, at);
    VectorAtRead(data, pos, prior, zero, at, |v|, q, v, r);
  }

  /** A stored unsigned vector is read back whole, whatever the vector held before. */
  lemma UnsignedVectorStored(data: seq<Byte>, pos: nat, v: seq<U32>, prior: seq<U32>)
    requires |v| <= U64_MAX && Stored(data, pos, UnsignedVectorBytes(v))
    ensures VectorAt(data, pos, prior, 0, UnsignedElementAt) == Got(true, v, pos + |UnsignedVectorBytes(v)|)
  {
    UnsignedElementsStored(data);
    VectorStored(data, pos, v, prior, 0, UElement, UnsignedElementAt);
  }

  /** A stored signed vector is read back whole, whatever the vector held before. */
  lemma SignedVectorStored(data: seq<Byte>, pos: nat, v: seq<I32>, prior: seq<I32>)
    requires |v| <= U64_MAX && Stored(data, pos, SignedVectorBytes(v))
    ensures VectorAt(data, pos, prior, 0, SignedAt) == Got(true, v, pos + |SignedVectorBytes(v)|)
  {
    SignedElementsStored(data);
    VectorStored(data, pos, v, prior, 0, SElement, SignedAt);
  }

  /**
   * What `SerializedUnsignedIntegerVector::Serialize` writes, when all of it
   * fits, `Deserialize` reads back from the same position.
   */
  lemma UnsignedVectorRoundTrip(c: Cursor, capacity: Option<nat>, v: seq<U32>, prior: seq<U32>)
    requires |v| <= U64_MAX && Fits(c, capacity, UnsignedVectorBytes(v))
    ensures var e := UnsignedVectorBytes(v);
      VectorAt(Put(c, capacity, e).data, c.pos, prior, 0, UnsignedElementAt) == Got(true, v, c.pos + |e|)
  {
    PutReadBack(c, capacity, UnsignedVectorBytes(v));
    UnsignedVectorStored(Put(c, capacity, UnsignedVectorBytes(v)).data, c.pos, v, prior);
  }

  /** The same for `SerializedIntegerVector`. */
  lemma SignedVectorRoundTrip(c: Cursor, capacity: Option<nat>, v: seq<I32>, prior: seq<I32>)
    requires |v| <= U64_MAX && Fits(c, capacity, SignedVectorBytes(v))
    ensures var e := SignedVectorBytes(v);
      VectorAt(Put(c, capacity, e).data, c.pos, prior, 0, SignedAt) == Got(true, v, c.pos + |e|)
  {
    PutReadBack(c, capacity, SignedVectorBytes(v));
    SignedVectorStored(Put(c, capacity, SignedVectorBytes(v)).data, c.pos, v, prior);
  }

  // ---------------------------------------------------------------- text form

  /** `sprintf("%u")` of an element. */
  function UnsignedText(x: U32): Text
  {
    Decimal(x)
  }

  /** `sprintf("%+d")` of an element. */
  function SignedText(x: I32): Text
  {
    SignedDecimal(x)
  }

  /** Each element's rendering. */
  function Renderings<T>(v: seq<T>, render: T -> Text): (rs: seq<Text>)
    ensures |rs| == |v|
  {
    seq(|v|, i requires 0 <= i < |v| => render(v[i]))
  }

  lemma RenderingsSnoc<T>(v: seq<T>, k: nat, render: T -> Text)
    requires k < |v|
    ensures Renderings(v[..k + 1], render) == Renderings(v[..k], render) + [render(v[k])]
  {
  }

  /** The text form of an unsigned vector, `<1, 2, 3>`, is read back by `Parse` as the same vector. */
  lemma UnsignedVectorRenderParse(v: seq<U32>)
    ensures ParseList(Layout('<', '>', Renderings(v, UnsignedText)), '<', '>', ScanU32) == Some(Parsed(true, v))
  {
    var rs := Renderings(v, UnsignedText);
    forall k | 0 <= k < |rs|
      ensures Plain(rs[k]) && ScanU32(rs[k]) == Some(v[k])
    {
      ScanU32Decimal(v[k]);
    }
    ParseLayout('<', '>', rs, v, ScanU32);
  }

  /** The text form of a signed vector, `(+1, -2)`, is read back by `Parse` as the same vector. */
  lemma SignedVectorRenderParse(v: seq<I32>)
    ensures ParseList(Layout('(', ')', Renderings(v, SignedText)), '(', ')', ScanI32) == Some(Parsed(true, v))
  {
    var rs := Renderings(v, SignedText);
    forall k | 0 <= k < |rs|
      ensures Plain(rs[k]) && ScanI32(rs[k]) == Some(v[k])
    {
      SignedTextPlain(v[k]);
    }
    ParseLayout('(', ')', rs, v, ScanI32);
  }

  /** One signed rendering is a sign and digits, and `sscanf("%d")` reads it back. */
  lemma SignedTextPlain(x: I32)
    ensures Plain(SignedText(x)) && ScanI32(SignedText(x)) == Some(x)
  {
    var d := SignedDecimal(x);
    var digits := Decimal(Abs(x));
    forall i | 0 <= i < |d|
      ensures d[i] == '+' || d[i] == '-' || '0' <= d[i] <= '9'
    {
      if i > 0 {
        assert d[i] == digits[i - 1];
      }
    }
    ScanI32SignedDecimal(x);
  }

  /**
   * The element loop of `Deserialize`, filling the resized vector `slots` in
   * place; `at` is the reader of one element, named here so that the proof
   * does not look inside it.
   */
  method ReadUnsignedElements(file: File, slots: seq<U32>, ghost at: (seq<Byte>, nat) -> Got<U32>) returns (ok: bool, filled: seq<U32>)
    requires forall d: seq<Byte>, p: nat {:trigger UnsignedElementAt(d, p)} :: at(d, p) == UnsignedElementAt(d, p)
    modifies file
    ensures file.data == old(file.data)
    ensures Got(ok, filled, file.pos) == Filled(old(file.data), old(file.pos), slots, at)
  {
    ok := true;
    ghost var data, start := file.data, file.pos;
    ghost var items := ReadFrom(data, start, |slots|, at, []);
    filled := slots;
    ghost var got := [];
    for k := 0 to |slots|
      invariant file.data == data && |got| == k
      invariant filled == got + slots[k..]
      invariant ReadFrom(data, file.pos, |slots| - k, at, got) == items
    {
      ghost var p := file.pos;
      var element;
      ok, element := ReadUnsignedElement(file);
      if !ok {
        ReadStop(data, p, |slots| - k, at, got, Got(ok, element, file.pos));
        return;
      }
      ReadOn(data, p, |slots| - k, at, got, Got(ok, element, file.pos));
      FillSlot(got, slots, k, element);
      filled := filled[k := element];
      got := got + [element];
    }
    assert got + [] == got;
  }

  /**
   * The element loop of `Deserialize`, filling the resized vector `slots` in
   * place; `at` is the reader of one element, named here so that the proof
   * does not look inside it.
   */
  method ReadSignedElements(file: File, slots: seq<I32>, ghost at: (seq<Byte>, nat) -> Got<I32>) returns (ok: bool, filled: seq<I32>)
    requires forall d: seq<Byte>, p: nat {:trigger SignedAt(d, p)} :: at(d, p) == SignedAt(d, p)
    modifies file
    ensures file.data == old(file.data)
    ensures Got(ok, filled, file.pos) == Filled(old(file.data), old(file.pos), slots, at)
  {
    ok := true;
    ghost var data, start := file.data, file.pos;
    ghost var items := ReadFrom(data, start, |slots|, at, []);
    filled := slots;
    ghost var got := [];
    for k := 0 to |slots|
      invariant file.data == data && |got| == k
      invariant filled == got + slots[k..]
      invariant ReadFrom(data, file.pos, |slots| - k, at, got) == items
    {
      ghost var p := file.pos;
      var element;
      ok, element := ReadSignedElement(file);
      if !ok {
        ReadStop(data, p, |slots| - k, at, got, Got(ok, element, file.pos));
        return;
      }
      ReadOn(data, p, |slots| - k, at, got, Got(ok, element, file.pos));
      FillSlot(got, slots, k, element);
      filled := filled[k := element];
      got := got + [element];
    }
    assert got + [] == got;
  }

  // ---------------------------------------------------------------- classes

  lemma NoElements<T>(head: seq<Byte>, v: seq<T>, enc: T -> seq<Byte>)
    ensures head + Encoded(v[..0], enc) == head
  {
    assert v[..0] == [];
    assert head + [] == head;
  }

  /** One more element written after a prefix that fit. */
  lemma PutElement<T>(c: Cursor, capacity: Option<nat>, head: seq<Byte>, v: seq<T>, k: nat, enc: T -> seq<Byte>)
    requires k < |v| && Fits(c, capacity, head + Encoded(v[..k], enc))
    ensures var c1 := Put(c, capacity, head + Encoded(v[..k], enc));
      Put(c1, capacity, enc(v[k])) == Put(c, capacity, head + Encoded(v[..k + 1], enc))
      && (Fits(c1, capacity, enc(v[k])) <==> Fits(c, capacity, head + Encoded(v[..k + 1], enc)))
  {
    var w := head + Encoded(v[..k], enc);
    PutThen(c, capacity, w, enc(v[k]));
    assert v[..k + 1] == v[..k] + [v[k]];
    EncodedAppend(v[..k], [v[k]], enc);
    assert [v[k]][1..] == [];
    assert Encoded([v[k]], enc) == enc(v[k]) + [];
    assert enc(v[k]) + [] == enc(v[k]);
    BytesAssoc(head, Encoded(v[..k], enc), enc(v[k]));
  }

  /** Once a prefix does not fit, the file is as the whole write would leave it. */
  lemma PutCut<T>(c: Cursor, capacity: Option<nat>, head: seq<Byte>, v: seq<T>, k: nat, enc: T -> seq<Byte>)
    requires k <= |v| && !Fits(c, capacity, head + Encoded(v[..k], enc))
    ensures Put(c, capacity, head + Encoded(v, enc)) == Put(c, capacity, head + Encoded(v[..k], enc))
    ensures !Fits(c, capacity, head + Encoded(v, enc))
  {
    assert v[..k] + v[k..] == v;
    EncodedAppend(v[..k], v[k..], enc);
    BytesAssoc(head, Encoded(v[..k], enc), Encoded(v[k..], enc));
    PutShort(c, capacity, head + Encoded(v[..k], enc), Encoded(v[k..], enc));
  }

  /** `SerializedUnsignedInteger sizeSerialized; sizeSerialized.Deserialize(file)`. */
  method ReadCount(file: File) returns (ok: bool, count: U64)
    modifies file
    ensures file.data == old(file.data)
    ensures Got(ok, count, file.pos) == UnsignedAt(old(file.data), old(file.pos))
  {
    var sizeSerialized := new SerializedUnsignedInteger(0);
    ok := sizeSerialized.Deserialize(file);
    count := sizeSerialized.value;
  }

  /** One element of an unsigned vector, read by a `SerializedUnsignedInteger` and cast to `unsigned int`. */
  method ReadUnsignedElement(file: File) returns (ok: bool, element: U32)
    modifies file
    ensures file.data == old(file.data)
    ensures Got(ok, element, file.pos) == UnsignedElementAt(old(file.data), old(file.pos))
  {
    var elementSerialized := new SerializedUnsignedInteger(0);
    ok := elementSerialized.Deserialize(file);
    element := ToU32(elementSerialized.value);
  }

  /** One element of a signed vector, read by a `SerializedInteger`. */
  method ReadSignedElement(file: File) returns (ok: bool, element: I32)
    modifies file
    ensures file.data == old(file.data)
    ensures Got(ok, element, file.pos) == SignedAt(old(file.data), old(file.pos))
  {
    var elementSerialized := new SerializedInteger(0);
    ok := elementSerialized.Deserialize(file);
    element := elementSerialized.value;
  }

  /** `SerializedUnsignedIntegerVector` (src/SerializedUnsignedIntegerVector.cpp). */
  class SerializedUnsignedIntegerVector {
    var value: seq<U32>

    constructor (initialValue: seq<U32>)
      ensures value == initialValue
    {
      value := initialValue;
    }

    /** The count, then each element; the first write that does not fit ends it. */
    method Serialize(file: File) returns (ok: bool)
      modifies file
      ensures ok == Fits(old(file.State()), file.capacity, UnsignedVectorBytes(value))
      ensures file.State() == Put(old(file.State()), file.capacity, UnsignedVectorBytes(value))
    {
      ghost var start := file.State();
      ghost var head := UVarint(ToU64(|value|));
      NoElements(head, value, UElement);
      var sizeSerialized := new SerializedUnsignedInteger(ToU64(|value|));
      ok := sizeSerialized.Serialize(file);
      if !ok {
        PutCut(start, file.capacity, head, value, 0, UElement);
        return;
      }
      for k := 0 to |value|
        invariant file.State() == Put(start, file.capacity, head + Encoded(value[..k], UElement))
        invariant Fits(start, file.capacity, head + Encoded(value[..k], UElement))
      {
        var elementSerialized := new SerializedUnsignedInteger(value[k]);
        PutElement(start, file.capacity, head, value, k, UElement);
        ok := elementSerialized.Serialize(file);
        if !ok {
          PutCut(start, file.capacity, head, value, k + 1, UElement);
          return;
        }
      }
      assert value[..|value|] == value;
    }

    /**
     * The count, then the vector resized to it and filled element by element;
     * a failure returns at once.
     */
    method Deserialize(file: File) returns (ok: bool)
      modifies this, file
      ensures file.data == old(file.data)
      ensures Got(ok, value, file.pos) == VectorAt(old(file.data), old(file.pos), old(value), 0, UnsignedElementAt)
    {
      var count;
      ok, count := ReadCount(file);
      if !ok {
        return;
      }
      ok, value := ReadUnsignedElements(file, Resized(value, count, 0), UnsignedElementAt);
    }

    /**
     * Each element's rendering and their running total, then the layout the
     * total chooses.
     */
    method Render() returns (rendering: Text)
      ensures rendering == Layout('<', '>', Renderings(value, UnsignedText))
    {
      var elementRenderings: seq<Text> := [];
      var totalElementRenderings: nat := 0;
      for k := 0 to |value|
        invariant elementRenderings == Renderings(value[..k], UnsignedText)
        invariant totalElementRenderings == Width(elementRenderings)
      {
        var elementSerialized := new SerializedUnsignedInteger(value[k]);
        var elementRendering := elementSerialized.Render();
        WidthSnoc(elementRenderings, elementRendering);
        if totalElementRenderings > 0 {
          totalElementRenderings := totalElementRenderings + 2;
        }
        totalElementRenderings := totalElementRenderings + |elementRendering|;
        RenderingsSnoc(value, k, UnsignedText);
        elementRenderings := elementRenderings + [elementRendering];
      }
      assert value[..|value|] == value;
      rendering := Arrange('<', '>', elementRenderings, totalElementRenderings);
    }

    /**
     * Text that is not bracketed once trimmed is refused and leaves the
     * vector alone; otherwise the vector is cleared and refilled by the loop,
     * which keeps the elements read before a failure.
     */
    method Parse(rendering: Text) returns (ok: bool)
      modifies this
      ensures match ParseList(rendering, '<', '>', ScanU32)
        case None => !ok && value == old(value)
        case Some(p) => ok == p.ok && value == p.items
    {
      var t := Trim(rendering);
      if |t| < 2 || t[0] != '<' || t[|t| - 1] != '>' {
        return false;
      }
      value := [];
      ok, value := ParseRows(t, '>', ScanU32);
    }

    method IsEqualTo(other: SerializedUnsignedIntegerVector) returns (eq: bool)
      ensures eq <==> value == other.value
    {
      eq := value == other.value;
    }
  }

  /** `SerializedIntegerVector` (src/SerializedIntegerVector.cpp). */
  class SerializedIntegerVector {
    var value: seq<I32>

    constructor (initialValue: seq<I32>)
      ensures value == initialValue
    {
      value := initialValue;
    }

    method Serialize(file: File) returns (ok: bool)
      modifies file
      ensures ok == Fits(old(file.State()), file.capacity, SignedVectorBytes(value))
      ensures file.State() == Put(old(file.State()), file.capacity, SignedVectorBytes(value))
    {
      ghost var start := file.State();
      ghost var head := UVarint(ToU64(|value|));
      NoElements(head, value, SElement);
      var sizeSerialized := new SerializedUnsignedInteger(ToU64(|value|));
      ok := sizeSerialized.Serialize(file);
      if !ok {
        PutCut(start, file.capacity, head, value, 0, SElement);
        return;
      }
      for k := 0 to |value|
        invariant file.State() == Put(start, file.capacity, head + Encoded(value[..k], SElement))
        invariant Fits(start, file.capacity, head + Encoded(value[..k], SElement))
      {
        var elementSerialized := new SerializedInteger(value[k]);
        PutElement(start, file.capacity, head, value, k, SElement);
        ok := elementSerialized.Serialize(file);
        if !ok {
          PutCut(start, file.capacity, head, value, k + 1, SElement);
          return;
        }
      }
      assert value[..|value|] == value;
    }

    /**
     * The count, then the vector resized to it and filled element by element;
     * a failure returns at once.
     */
    method Deserialize(file: File) returns (ok: bool)
      modifies this, file
      ensures file.data == old(file.data)
      ensures Got(ok, value, file.pos) == VectorAt(old(file.data), old(file.pos), old(value), 0, SignedAt)
    {
      var count;
      ok, count := ReadCount(file);
      if !ok {
        return;
      }
      ok, value := ReadSignedElements(file, Resized(value, count, 0), SignedAt);
    }

    method Render() returns (rendering: Text)
      ensures rendering == Layout('(', ')', Renderings(value, SignedText))
    {
      var elementRenderings: seq<Text> := [];
      var totalElementRenderings: nat := 0;
      for k := 0 to |value|
        invariant elementRenderings == Renderings(value[..k], SignedText)
        invariant totalElementRenderings == Width(elementRenderings)
      {
        var elementSerialized := new SerializedInteger(value[k]);
        var elementRendering := elementSerialized.Render();
        WidthSnoc(elementRenderings, elementRendering);
        if totalElementRenderings > 0 {
          totalElementRenderings := totalElementRenderings + 2;
        }
        totalElementRenderings := totalElementRenderings + |elementRendering|;
        RenderingsSnoc(value, k, SignedText);
        elementRenderings := elementRenderings + [elementRendering];
      }
      assert value[..|value|] == value;
      rendering := Arrange('(', ')', elementRenderings, totalElementRenderings);
    }

    method Parse(rendering: Text) returns (ok: bool)
      modifies this
      ensures match ParseList(rendering, '(', ')', ScanI32)
        case None => !ok && value == old(value)
        case Some(p) => ok == p.ok && value == p.items
    {
      var t := Trim(rendering);
      if |t| < 2 || t[0] != '(' || t[|t| - 1] != ')' {
        return false;
      }
      value := [];
      ok, value := ParseRows(t, ')', ScanI32);
    }

    method IsEqualTo(other: SerializedIntegerVector) returns (eq: bool)
      ensures eq <==> value == other.value
    {
      eq := value == other.value;
    }
  }

  /** A reader that only succeeds inside the data keeps a whole vector read inside it. */
  lemma {:induction false} ReadFromWithin<T>(data: seq<Byte>, pos: nat, n: nat, at: (seq<Byte>, nat) -> Got<T>, got: seq<T>)
    requires forall p: nat {:trigger at(data, p)} :: at(data, p).ok ==> p < at(data, p).next <= |data|
    requires pos <= |data|
    ensures var r := ReadFrom(data, pos, n, at, got); r.ok ==> pos <= r.next <= |data|
    decreases n
  {
    if n > 0 {
      var e := at(data, pos);
      if e.ok {
        ReadFromWithin(data, e.next, n - 1, at, got + [e.value]);
      }
    }
  }

  lemma VectorAtWithin<T>(data: seq<Byte>, pos: nat, prior: seq<T>, zero: T, at: (seq<Byte>, nat) -> Got<T>)
    requires forall p: nat {:trigger at(data, p)} :: at(data, p).ok ==> p < at(data, p).next <= |data|
    ensures var r := VectorAt(data, pos, prior, zero, at); r.ok ==> pos <= r.next <= |data|
  {
    var n := UnsignedAt(data, pos);
    if n.ok {
      ReadFromWithin(data, n.next, n.value, at, []);
    }
  }

  // ---------------------------------------------------------------- elements in a row

  /** `items` are read by `at` one after the other from `pos`, the last one ending at `end`. */
  ghost predicate InRow<T>(data: seq<Byte>, pos: nat, items: seq<T>, at: (seq<Byte>, nat) -> Got<T>, end: nat)
    decreases items
  {
    if items == [] then pos == end
    else
      var e := at(data, pos);
      e.ok && e.value == items[0] && InRow(data, e.next, items[1..], at, end)
  }

  /** Elements that are each read back from wherever they are stored are read back in a row. */
  lemma {:induction false} InRowStored<T>(data: seq<Byte>, pos: nat, items: seq<T>, enc: T -> seq<Byte>,
                                          at: (seq<Byte>, nat) -> Got<T>, end: nat)
    requires forall i, p: nat {:trigger Stored(data, p, enc(items[i]))} ::
      0 <= i < |items| && Stored(data, p, enc(items[i])) ==> at(data, p) == Got(true, items[i], p + |enc(items[i])|)
    requires Stored(data, pos, Encoded(items, enc)) && end == pos + |Encoded(items, enc)|
    ensures InRow(data, pos, items, at, end)
    decreases items
  {
    if items != [] {
      StoredSplit(data, pos, enc(items[0]), Encoded(items[1..], enc));
      assert at(data, pos) == Got(true, items[0], pos + |enc(items[0])|);
      assert forall i :: 0 <= i < |items| - 1 ==> items[1..][i] == items[i + 1];
      InRowStored(data, pos + |enc(items[0])|, items[1..], enc, at, end);
    }
  }

  /** The first element of a row and where the rest starts. */
  lemma InRowFirst<T>(data: seq<Byte>, pos: nat, items: seq<T>, at: (seq<Byte>, nat) -> Got<T>, end: nat) returns (q: nat)
    requires InRow(data, pos, items, at, end) && items != []
    ensures at(data, pos) == Got(true, items[0], q)
    ensures InRow(data, q, items[1..], at, end)
  {
    q := at(data, pos).next;
  }
}
