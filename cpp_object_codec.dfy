/**
 * The binary form of a `SerializedObject` (src/SerializedObject.cpp): the
 * length of a body as an unsigned integer, then the body, which is the type id
 * as a string followed by the concrete object's own serialization. Vectors and
 * collections hold further objects in the same form. This module states what
 * is written and what `Deserialize` makes of any bytes, and proves that what
 * is written is read back.
 */
module CppObjectCodec {
  import opened Bytes
  import opened Varint
  import opened CppText
  import opened CppNumbers
  import opened CppFile
  import opened CppIntegers
  import opened CppScalars
  import opened CppIntegerVectors
  import opened CppOrdered
  import opened CppObjects

  // ---------------------------------------------------------------- writing

  /**
   * What `SerializedObject::Serialize` writes, as `FrameBytes` spells it
   * out. Code that only compares or stores serialized objects goes through
   * this name, so that its proofs do not reopen the frame; `ObjectBytesIs`
   * opens it.
   */
  function ObjectBytes(v: Value, order: HostOrder): seq<Byte>
    decreases v, 3
  {
    FrameBytes(v, order)
  }

  /** The body's length cast to `unsigned int`, then that many bytes of the body. */
  function FrameBytes(v: Value, order: HostOrder): seq<Byte>
    decreases v, 2
  {
    var body := Body(v, order);
    var n := ToU32(|body|);
    ToU32Below(|body|);
    UVarint(n) + body[..n]
  }

  /** `ObjectBytes` is its definition. */
  lemma ObjectBytesIs(v: Value, order: HostOrder)
    ensures ObjectBytes(v, order) == FrameBytes(v, order)
  {
  }

  /** The type id as a `SerializedString`, then the payload. */
  function Body(v: Value, order: HostOrder): seq<Byte>
    decreases v, 1
  {
    StringBytes(TypeId(TypeOf(v))) + PayloadBytes(v, order)
  }

  /** What the concrete object's `Serialize` writes; an empty object has none. */
  function PayloadBytes(v: Value, order: HostOrder): seq<Byte>
    decreases v, 0
  {
    match v
    case EmptyValue => []
    case BooleanValue(b) => BooleanBytes(b)
    case IntegerValue(i) => SVarint(i)
    case UnsignedIntegerValue(u) => UVarint(u)
    case DecimalValue(raw) => raw
    case StringValue(s) => StringBytes(s)
    case VectorValue(items) => UVarint(ToU32(|items|)) + ObjectsBytes(items, order)
    case CollectionValue(es) => UVarint(ToU32(|es|)) + EntriesBytes(es, order)
    case IpAddressValue(a) => HostBytes(a, order)
    case IntegerVectorValue(xs) => SignedVectorBytes(xs)
    case UnsignedIntegerVectorValue(xs) => UnsignedVectorBytes(xs)
  }

  /** `SerializedVector::Serialize` after the count: each object in order. */
  function ObjectsBytes(items: seq<Value>, order: HostOrder): seq<Byte>
    decreases items
  {
    if items == [] then [] else ObjectBytes(items[0], order) + ObjectsBytes(items[1..], order)
  }

  /** `SerializedCollection::Serialize` after the count: each key as a string, then its object. */
  function EntriesBytes(es: seq<Entry<Value>>, order: HostOrder): seq<Byte>
    decreases es
  {
    if es == [] then [] else StringBytes(es[0].name) + (ObjectBytes(es[0].value, order) + EntriesBytes(es[1..], order))
  }

  lemma ToU32Below(x: nat)
    ensures ToU32(x) <= x
  {
  }

  /**
   * What a write of `bs` that is abandoned on failure leaves: the bytes that
   * fit are stored, but the position goes back to where it was.
   */
  function Framed(c: Cursor, capacity: Option<nat>, bs: seq<Byte>): (r: Cursor)
    ensures r.data == Put(c, capacity, bs).data
    ensures r.pos == if Fits(c, capacity, bs) then c.pos + |bs| else c.pos
  {
    var after := Put(c, capacity, bs);
    if Fits(c, capacity, bs) then after else Cursor(after.data, c.pos)
  }

  /**
   * The values whose serialization loses nothing: every length fits the
   * `unsigned int` it is cast to, a decimal holds the 8 bytes of a `double`,
   * and a collection's keys ascend as the map keeps them.
   */
  predicate WellFormed(v: Value, order: HostOrder)
  {
    |Body(v, order)| <= U32_MAX &&
    match v
    case DecimalValue(raw) => |raw| == 8
    case StringValue(s) => |s| <= U32_MAX
    case VectorValue(items) =>
      |items| <= U32_MAX && forall i :: 0 <= i < |items| ==> WellFormed(items[i], order)
    case CollectionValue(es) =>
      |es| <= U32_MAX && Ascending(es)
      && forall i :: 0 <= i < |es| ==> |es[i].name| <= U32_MAX && WellFormed(es[i].value, order)
    case IntegerVectorValue(xs) => |xs| <= U32_MAX
    case UnsignedIntegerVectorValue(xs) => |xs| <= U32_MAX
    case _ => true
  }

  // ---------------------------------------------------------------- reading

  /**
   * What `SerializedObject::Deserialize` makes of the bytes at `pos`, as
   * `HeadedAt` spells it out. The loops over objects read through this name,
   * so that a proof about a loop sees the objects it reads without reopening
   * how each header is read; `ObjectAtIs` opens it.
   */
  function ObjectAt(data: seq<Byte>, pos: nat, order: HostOrder): (r: Got<Value>)
    ensures r.ok ==> pos < r.next <= |data|
    decreases |data| - pos, 1
  {
    HeadedAt(data, pos, order)
  }

  /**
   * One object at `pos`: the length comes first and the type id next; a
   * failure in either stops there. What the id then leads to is `TypedAt`.
   * The value of a failure is not used.
   */
  function HeadedAt(data: seq<Byte>, pos: nat, order: HostOrder): (r: Got<Value>)
    ensures r.ok ==> pos < r.next <= |data|
    decreases |data| - pos, 0
  {
    var length := UnsignedAt(data, pos);
    if !length.ok then Got(false, EmptyValue, length.next)
    else
      var id := StringAt(data, length.next);
      if !id.ok then Got(false, EmptyValue, id.next)
      else TypedAt(TypeOfId(id.value), data, id.next, ToU64(length.next + length.value), order)
  }

  /**
   * An object once its id is read, with the payload at `pos` and `skip` where
   * the length says the object ends: the id `e` is an empty object at once,
   * another known id reads its payload, which must end exactly at `skip`; an
   * unknown id, a payload that fails or ends elsewhere all move on to `skip`
   * and fail.
   */
  function TypedAt(t: Option<Type>, data: seq<Byte>, pos: nat, skip: nat, order: HostOrder): (r: Got<Value>)
    ensures r.ok ==> pos <= r.next && (pos <= |data| ==> r.next <= |data|)
    decreases |data| - pos, 5
  {
    match t
    case None => Got(false, EmptyValue, skip)
    case Some(t) => if t == Empty then Got(true, EmptyValue, pos) else PayloadEndingAt(t, data, pos, skip, order)
  }

  /** The payload of type `t` at `pos`, which fails unless it is read and ends exactly at `skip`. */
  function PayloadEndingAt(t: Type, data: seq<Byte>, pos: nat, skip: nat, order: HostOrder): (r: Got<Value>)
    ensures r.ok ==> pos <= r.next && (pos <= |data| ==> r.next <= |data|)
    decreases |data| - pos, 4
  {
    var p := PayloadAt(t, data, pos, order);
    if p.ok && p.next == skip then p else Got(false, EmptyValue, skip)
  }

  /** What a fresh concrete object of type `t` makes of the bytes at `pos`. */
  function PayloadAt(t: Type, data: seq<Byte>, pos: nat, order: HostOrder): (r: Got<Value>)
    ensures r.ok ==> pos <= r.next && (pos <= |data| ==> r.next <= |data|)
    decreases |data| - pos, 2
  {
    match t
    case Empty => Got(true, EmptyValue, pos)
    case Boolean =>
      var bs := Available(data, pos, 1);
      Got(|bs| == 1, BooleanValue(|bs| == 1 && bs[0] != 0), pos + |bs|)
    case Integer =>
      var g := SignedAt(data, pos);
      Got(g.ok, IntegerValue(g.value), g.next)
    case UnsignedInteger =>
      var g := UnsignedAt(data, pos);
      Got(g.ok, UnsignedIntegerValue(g.value), g.next)
    case Decimal =>
      var bs := Available(data, pos, 8);
      Got(|bs| == 8, DecimalValue(bs), pos + |bs|)
    case String =>
      var g := StringAt(data, pos);
      Got(g.ok, StringValue(g.value), g.next)
    case Vector =>
      var g := ObjectVectorAt(data, pos, [], order);
      Got(g.ok, VectorValue(g.value), g.next)
    case Collection =>
      var g := CollectionAt(data, pos, order);
      Got(g.ok, CollectionValue(g.value), g.next)
    case IpAddress =>
      var bs := Available(data, pos, 4);
      Got(|bs| == 4, IpAddressValue(if |bs| == 4 then HostValue(bs, order) else 0), pos + |bs|)
    case IntegerVector =>
      VectorAtWithin(data, pos, [], 0, SignedAt);
      var g := VectorAt(data, pos, [], 0, SignedAt);
      Got(g.ok, IntegerVectorValue(g.value), g.next)
    case UnsignedIntegerVector =>
      VectorAtWithin(data, pos, [], 0, UnsignedElementAt);
      var g := VectorAt(data, pos, [], 0, UnsignedElementAt);
      Got(g.ok, UnsignedIntegerVectorValue(g.value), g.next)
  }

  /**
   * What `SerializedVector::Deserialize` makes of the bytes at `pos` when the
   * vector held `prior`: the count comes first, and a failure there leaves
   * the vector alone; then the vector is resized to the count and each
   * element deserializes in place, so a failure leaves the objects read so far
   * in front of what the resize left. The loop counter is an `unsigned int`:
   * a count above its range is never reached, and the loop only ends when an
   * object fails.
   */
  function ObjectVectorAt(data: seq<Byte>, pos: nat, prior: seq<Value>, order: HostOrder): (r: Got<seq<Value>>)
    ensures !UnsignedAt(data, pos).ok ==> !r.ok && r.value == prior
    ensures UnsignedAt(data, pos).ok ==> |r.value| == UnsignedAt(data, pos).value
    ensures UnsignedAt(data, pos).ok && UnsignedAt(data, pos).value > U32_MAX ==> !r.ok
    ensures r.ok ==> pos <= r.next <= |data|
    decreases |data| - pos, 1
  {
    var n := UnsignedAt(data, pos);
    if !n.ok then Got(false, prior, n.next)
    else
      var slots := Resized(prior, n.value, EmptyValue);
      if n.value <= U32_MAX then
        var g := ObjectsAt(data, n.next, n.value, order, []);
        Got(g.ok, g.value + slots[|g.value|..], g.next)
      else ObjectsWrapping(data, n.next, slots, 0, order)
  }

  /** `++i` on an `unsigned int`, which wraps to 0 after `U32_MAX`. */
  function Step32(i: nat): (r: nat)
    requires i <= U32_MAX
    ensures r == (i + 1) % (U32_MAX + 1)
  {
    if i == U32_MAX then 0 else i + 1
  }

  /**
   * The object loop of `SerializedVector::Deserialize` when the vector holds
   * more slots than the `unsigned int` counter can count: the object read
   * overwrites slot `i`, the counter wraps to 0 after `U32_MAX` and never
   * reaches the size, so only an object that fails ends the loop.
   */
  function ObjectsWrapping(data: seq<Byte>, pos: nat, slots: seq<Value>, i: nat, order: HostOrder): (r: Got<seq<Value>>)
    requires i <= U32_MAX < |slots|
    ensures |r.value| == |slots| && !r.ok
    decreases |data| - pos, 2
  {
    var e := ObjectAt(data, pos, order);
    if !e.ok then Got(false, slots, e.next)
    else ObjectsWrapping(data, e.next, slots[i := e.value], Step32(i), order)
  }

  /** `n` more objects read from `pos` on after `got`; the first failure ends the loop. */
  function ObjectsAt(data: seq<Byte>, pos: nat, n: nat, order: HostOrder, got: seq<Value>): (r: Got<seq<Value>>)
    ensures |got| <= |r.value| <= |got| + n
    ensures r.ok ==> |r.value| == |got| + n
    ensures r.ok ==> pos <= r.next && (pos <= |data| ==> r.next <= |data|)
    decreases |data| - pos, 2, n
  {
    if n == 0 then Got(true, got, pos)
    else
      var e := ObjectAt(data, pos, order);
      if !e.ok then Got(false, got, e.next)
      else ObjectsAt(data, e.next, n - 1, order, got + [e.value])
  }

  /**
   * What `SerializedCollection::Deserialize` makes of the bytes at `pos`: the
   * map is cleared, then the count and that many keys and objects are read,
   * each stored under its key as it comes. As for a vector, a count above the
   * range of the `unsigned int` counter is never reached.
   */
  function CollectionAt(data: seq<Byte>, pos: nat, order: HostOrder): (r: Got<seq<Entry<Value>>>)
    ensures Ascending(r.value)
    ensures UnsignedAt(data, pos).ok && UnsignedAt(data, pos).value > U32_MAX ==> !r.ok
    ensures r.ok ==> pos <= r.next <= |data|
    decreases |data| - pos, 1
  {
    var n := UnsignedAt(data, pos);
    if !n.ok then Got(false, [], n.next)
    else if n.value <= U32_MAX then EntriesAt(data, n.next, n.value, order, [])
    else EntriesWrapping(data, n.next, order, [])
  }

  /**
   * The entry loop of `SerializedCollection::Deserialize` when the count is
   * beyond the range of its `unsigned int` counter: the counter wraps to 0
   * after `U32_MAX` and never reaches the count, so only an entry that fails
   * ends the loop.
   */
  function EntriesWrapping(data: seq<Byte>, pos: nat, order: HostOrder, got: seq<Entry<Value>>): (r: Got<seq<Entry<Value>>>)
    requires Ascending(got)
    ensures Ascending(r.value) && !r.ok
    decreases |data| - pos, 2
  {
    var e := EntryAt(data, pos, order);
    if !e.ok then Got(false, got, e.next)
    else EntriesWrapping(data, e.next, order, Assign(got, e.value.name, e.value.value))
  }

  /** `n` more keys and objects read after the map `got`; the first failure ends the loop. */
  function EntriesAt(data: seq<Byte>, pos: nat, n: nat, order: HostOrder, got: seq<Entry<Value>>): (r: Got<seq<Entry<Value>>>)
    requires Ascending(got)
    ensures Ascending(r.value)
    ensures r.ok ==> pos <= r.next && (pos <= |data| ==> r.next <= |data|)
    decreases |data| - pos, 2, n
  {
    if n == 0 then Got(true, got, pos)
    else
      var e := EntryAt(data, pos, order);
      if !e.ok then Got(false, got, e.next)
      else EntriesAt(data, e.next, n - 1, order, Assign(got, e.value.name, e.value.value))
  }

  /**
   * One entry of a collection at `pos`, as `KeyedAt` spells it out; like
   * `ObjectAt`, a name the loops read through, which `EntryAtIs` opens.
   */
  function EntryAt(data: seq<Byte>, pos: nat, order: HostOrder): (r: Got<Entry<Value>>)
    ensures r.ok ==> pos < r.next <= |data|
    decreases |data| - pos, 1
  {
    KeyedAt(data, pos, order)
  }

  /** One key as a `SerializedString`, then one object; a failure in either stops there. */
  function KeyedAt(data: seq<Byte>, pos: nat, order: HostOrder): (r: Got<Entry<Value>>)
    ensures r.ok ==> pos < r.next <= |data|
    decreases |data| - pos, 0
  {
    var key := StringAt(data, pos);
    if !key.ok then Got(false, Entry([], EmptyValue), key.next)
    else
      var e := ObjectAt(data, key.next, order);
      Got(e.ok, Entry(key.value, e.value), e.next)
  }

  /** An object that fails to read ends the object loop. */
  lemma ObjectsStop(data: seq<Byte>, pos: nat, n: nat, order: HostOrder, got: seq<Value>, e: Got<Value>)
    requires n > 0 && ObjectAt(data, pos, order) == e && !e.ok
    ensures ObjectsAt(data, pos, n, order, got) == Got(false, got, e.next)
  {
  }

  /** An object that is read moves the object loop on past it. */
  lemma ObjectsOn(data: seq<Byte>, pos: nat, n: nat, order: HostOrder, got: seq<Value>, e: Got<Value>)
    requires n > 0 && ObjectAt(data, pos, order) == e && e.ok
    ensures ObjectsAt(data, pos, n, order, got) == ObjectsAt(data, e.next, n - 1, order, got + [e.value])
  {
  }

  /** An entry that fails to read ends the entry loop. */
  lemma EntriesStop(data: seq<Byte>, pos: nat, n: nat, order: HostOrder, got: seq<Entry<Value>>, e: Got<Entry<Value>>)
    requires Ascending(got) && n > 0 && EntryAt(data, pos, order) == e && !e.ok
    ensures EntriesAt(data, pos, n, order, got) == Got(false, got, e.next)
  {
  }

  /** An entry that is read is stored under its key, and the loop moves on past it. */
  lemma EntriesOn(data: seq<Byte>, pos: nat, n: nat, order: HostOrder, got: seq<Entry<Value>>, e: Got<Entry<Value>>)
    requires Ascending(got) && n > 0 && EntryAt(data, pos, order) == e && e.ok
    ensures EntriesAt(data, pos, n, order, got) == EntriesAt(data, e.next, n - 1, order, Assign(got, e.value.name, e.value.value))
  {
  }

  // ---------------------------------------------------------------- outcomes of Deserialize

  /** `EntryAt` is its definition. */
  lemma EntryAtIs(data: seq<Byte>, pos: nat, order: HostOrder)
    ensures EntryAt(data, pos, order) == KeyedAt(data, pos, order)
  {
  }

  /** `ObjectAt` is its definition. */
  lemma ObjectAtIs(data: seq<Byte>, pos: nat, order: HostOrder)
    ensures ObjectAt(data, pos, order) == HeadedAt(data, pos, order)
  {
  }

  /** A length or an id that fails to read fails the object where it stopped. */
  lemma ObjectAtHeaderFails(data: seq<Byte>, pos: nat, order: HostOrder)
    ensures var length := UnsignedAt(data, pos);
      !length.ok ==> ObjectAt(data, pos, order) == Got(false, EmptyValue, length.next)
    ensures var length := UnsignedAt(data, pos); var id := StringAt(data, length.next);
      length.ok && !id.ok ==> ObjectAt(data, pos, order) == Got(false, EmptyValue, id.next)
  {
  }

  /**
   * The id `e` is an empty object as soon as it is read, wherever the length
   * says the object ends.
   */
  lemma ObjectAtEmpty(data: seq<Byte>, pos: nat, order: HostOrder)
    requires UnsignedAt(data, pos).ok
    requires StringAt(data, UnsignedAt(data, pos).next) == Got(true, "e", StringAt(data, UnsignedAt(data, pos).next).next)
    ensures ObjectAt(data, pos, order) == Got(true, EmptyValue, StringAt(data, UnsignedAt(data, pos).next).next)
  {
    ObjectAtIs(data, pos, order);
  }

  /**
   * Any other outcome moves on to where the length says the object ends: an
   * unknown id fails there, a payload that is read and ends there is the
   * object, and a payload that fails or ends elsewhere fails there.
   */
  lemma ObjectAtSkips(data: seq<Byte>, pos: nat, order: HostOrder, t: Type)
    requires UnsignedAt(data, pos).ok && StringAt(data, UnsignedAt(data, pos).next).ok
    requires TypeOfId(StringAt(data, UnsignedAt(data, pos).next).value) != Some(Empty)
    ensures var length := UnsignedAt(data, pos);
      ObjectAt(data, pos, order).next == ToU64(length.next + length.value)
    ensures var id := StringAt(data, UnsignedAt(data, pos).next);
      TypeOfId(id.value) == None ==> !ObjectAt(data, pos, order).ok
    ensures var length := UnsignedAt(data, pos); var id := StringAt(data, length.next);
      TypeOfId(id.value) == Some(t) ==>
        var p := PayloadAt(t, data, id.next, order);
        ObjectAt(data, pos, order).ok == (p.ok && p.next == ToU64(length.next + length.value))
        && (ObjectAt(data, pos, order).ok ==> ObjectAt(data, pos, order).value == p.value)
  {
    var length := UnsignedAt(data, pos);
    var id := StringAt(data, length.next);
    ObjectAtTyped(data, pos, order);
    TypedSkips(TypeOfId(id.value), data, id.next, ToU64(length.next + length.value), order, t);
  }

  /** Once its length and id are read, an object is what its id leads to. */
  lemma ObjectAtTyped(data: seq<Byte>, pos: nat, order: HostOrder)
    requires UnsignedAt(data, pos).ok && StringAt(data, UnsignedAt(data, pos).next).ok
    ensures var length := UnsignedAt(data, pos); var id := StringAt(data, length.next);
      ObjectAt(data, pos, order) == TypedAt(TypeOfId(id.value), data, id.next, ToU64(length.next + length.value), order)
  {
  }

  /** What an id other than `e` leads to once it is read: see `ObjectAtSkips`. */
  lemma TypedSkips(ot: Option<Type>, data: seq<Byte>, pos: nat, skip: nat, order: HostOrder, t: Type)
    requires ot != Some(Empty)
    ensures TypedAt(ot, data, pos, skip, order).next == skip
    ensures ot == None ==> !TypedAt(ot, data, pos, skip, order).ok
    ensures ot == Some(t) ==>
      var p := PayloadAt(t, data, pos, order);
      TypedAt(ot, data, pos, skip, order).ok == (p.ok && p.next == skip)
      && (TypedAt(ot, data, pos, skip, order).ok ==> TypedAt(ot, data, pos, skip, order).value == p.value)
  {
  }

  // ---------------------------------------------------------------- round trip

  /** `v` is read back from wherever its serialization is stored in `data`. */
  ghost predicate ReadsBack(data: seq<Byte>, v: Value, order: HostOrder)
  {
    forall p: nat {:trigger Stored(data, p, ObjectBytes(v, order))} ::
      Stored(data, p, ObjectBytes(v, order)) ==> ObjectAt(data, p, order) == Got(true, v, p + |ObjectBytes(v, order)|)
  }

  /** Every object a vector or a collection holds is read back. */
  ghost predicate ChildrenReadBack(data: seq<Byte>, v: Value, order: HostOrder)
  {
    match v
    case VectorValue(items) => forall i :: 0 <= i < |items| ==> ReadsBack(data, items[i], order)
    case CollectionValue(es) => forall i :: 0 <= i < |es| ==> ReadsBack(data, es[i].value, order)
    case _ => true
  }

  /** A value that serializes without loss is read back from where it is stored. */
  lemma ObjectStored(data: seq<Byte>, pos: nat, v: Value, order: HostOrder)
    requires WellFormed(v, order) && |data| <= U64_MAX
    requires Stored(data, pos, ObjectBytes(v, order))
    ensures ObjectAt(data, pos, order) == Got(true, v, pos + |ObjectBytes(v, order)|)
    decreases v, 1
  {
    ChildrenStored(data, v, order);
    PayloadsStored(data, v, order);
    ObjectStoredFrom(data, pos, v, order);
  }

  /** The payload of `v` is read back, as the concrete object `v` names, wherever it is stored. */
  ghost predicate PayloadReadsBack(data: seq<Byte>, v: Value, order: HostOrder)
  {
    forall p: nat {:trigger Stored(data, p, PayloadBytes(v, order))} :: Stored(data, p, PayloadBytes(v, order)) ==>
      TypedAt(TypeOfId(TypeId(TypeOf(v))), data, p, p + |PayloadBytes(v, order)|, order) == Got(true, v, p + |PayloadBytes(v, order)|)
  }

  /** Once its children are read back, a value that serializes without loss has its payload read back. */
  lemma PayloadsStored(data: seq<Byte>, v: Value, order: HostOrder)
    requires WellFormed(v, order) && |data| <= U64_MAX && ChildrenReadBack(data, v, order)
    ensures PayloadReadsBack(data, v, order)
  {
    forall p: nat | Stored(data, p, PayloadBytes(v, order))
      ensures TypedAt(TypeOfId(TypeId(TypeOf(v))), data, p, p + |PayloadBytes(v, order)|, order)
        == Got(true, v, p + |PayloadBytes(v, order)|)
    {
      TypedStored(data, p, v, order, p + |PayloadBytes(v, order)|);
    }
  }

  /** The objects inside a value that serializes without loss are read back. */
  lemma ChildrenStored(data: seq<Byte>, v: Value, order: HostOrder)
    requires WellFormed(v, order) && |data| <= U64_MAX
    ensures ChildrenReadBack(data, v, order)
    decreases v, 0
  {
    match v
    case VectorValue(items) =>
      forall i | 0 <= i < |items| ensures ReadsBack(data, items[i], order) {
        forall p: nat | Stored(data, p, ObjectBytes(items[i], order))
          ensures ObjectAt(data, p, order) == Got(true, items[i], p + |ObjectBytes(items[i], order)|)
        {
          ObjectStored(data, p, items[i], order);
        }
      }
    case CollectionValue(es) =>
      forall i | 0 <= i < |es| ensures ReadsBack(data, es[i].value, order) {
        forall p: nat | Stored(data, p, ObjectBytes(es[i].value, order))
          ensures ObjectAt(data, p, order) == Got(true, es[i].value, p + |ObjectBytes(es[i].value, order)|)
        {
          ObjectStored(data, p, es[i].value, order);
        }
      }
    case _ =>
  }

  /** A value whose payload is read back wherever it is stored is read back itself. */
  lemma ObjectStoredFrom(data: seq<Byte>, pos: nat, v: Value, order: HostOrder)
    requires |Body(v, order)| <= U32_MAX && |data| <= U64_MAX
    requires PayloadReadsBack(data, v, order)
    requires Stored(data, pos, ObjectBytes(v, order))
    ensures ObjectAt(data, pos, order) == Got(true, v, pos + |ObjectBytes(v, order)|)
  {
    ObjectBytesFramed(v, order);
    FramedRead(data, pos, order, TypeId(TypeOf(v)), PayloadBytes(v, order), TypeOfId(TypeId(TypeOf(v))), v);
  }

  /**
   * An object stored as a length, an id and a payload that the id's type
   * reads back wherever it is stored is read back.
   */
  lemma FramedRead(data: seq<Byte>, pos: nat, order: HostOrder, id: Text, payload: seq<Byte>, t: Option<Type>, v: Value)
    requires |id| <= U32_MAX && |data| <= U64_MAX && |StringBytes(id) + payload| <= U32_MAX
    requires TypeOfId(id) == t
    requires forall p: nat {:trigger Stored(data, p, payload)} :: Stored(data, p, payload) ==>
      TypedAt(t, data, p, p + |payload|, order) == Got(true, v, p + |payload|)
    requires Stored(data, pos, UVarint(|StringBytes(id) + payload|) + (StringBytes(id) + payload))
    ensures ObjectAt(data, pos, order) == Got(true, v, pos + |UVarint(|StringBytes(id) + payload|) + (StringBytes(id) + payload)|)
  {
    var n, p1, p2, end := FrameStored(data, pos, id, payload);
    FramedEnd(data, pos, order, id, payload, t, v, n, p1, p2, end);
  }

  /** `FramedRead` once the positions of the id, the payload and the end are known. */
  lemma FramedEnd(data: seq<Byte>, pos: nat, order: HostOrder, id: Text, payload: seq<Byte>, t: Option<Type>, v: Value,
                  n: U64, p1: nat, p2: nat, end: nat)
    requires TypeOfId(id) == t
    requires forall p: nat {:trigger Stored(data, p, payload)} :: Stored(data, p, payload) ==>
      TypedAt(t, data, p, p + |payload|, order) == Got(true, v, p + |payload|)
    requires UnsignedAt(data, pos) == Got(true, n, p1)
    requires StringAt(data, p1) == Got(true, id, p2)
    requires Stored(data, p2, payload) && p2 + |payload| == end && ToU64(p1 + n) == end
    ensures ObjectAt(data, pos, order) == Got(true, v, end)
  {
    assert TypedAt(t, data, p2, end, order) == Got(true, v, end);
    FramedAt(data, pos, order, n, p1, id, p2, payload, t, v);
  }

  /** An object whose length and id are read, followed by a payload the id's type reads back, is read back. */
  lemma FramedAt(data: seq<Byte>, pos: nat, order: HostOrder, n: U64, p1: nat, id: Text, p2: nat, payload: seq<Byte>,
                 t: Option<Type>, v: Value)
    requires UnsignedAt(data, pos) == Got(true, n, p1)
    requires StringAt(data, p1) == Got(true, id, p2)
    requires ToU64(p1 + n) == p2 + |payload| && TypeOfId(id) == t
    requires TypedAt(t, data, p2, p2 + |payload|, order) == Got(true, v, p2 + |payload|)
    ensures ObjectAt(data, pos, order) == Got(true, v, p2 + |payload|)
  {
    ObjectAtRead(data, pos, order, n, p1, id, p2, p2 + |payload|, t, Got(true, v, p2 + |payload|));
  }

  /** The payload of a value that is read back, ending where the length says, is the value. */
  lemma TypedStored(data: seq<Byte>, p: nat, v: Value, order: HostOrder, skip: nat)
    requires WellFormed(v, order) && |data| <= U64_MAX
    requires ChildrenReadBack(data, v, order)
    requires Stored(data, p, PayloadBytes(v, order))
    requires skip == p + |PayloadBytes(v, order)|
    ensures TypedAt(TypeOfId(TypeId(TypeOf(v))), data, p, skip, order) == Got(true, v, skip)
  {
    TypeIdRoundTrip(TypeOf(v), TypeId(TypeOf(v)));
    if v != EmptyValue {
      PayloadStored(data, p, v, order);
      TypedPayload(TypeOf(v), data, p, skip, order, Got(true, v, skip));
    }
  }

  /** A payload that is read and ends where the length says is the object. */
  lemma TypedPayload(t: Type, data: seq<Byte>, p: nat, skip: nat, order: HostOrder, r: Got<Value>)
    requires t != Empty && PayloadAt(t, data, p, order) == r && r.ok && r.next == skip
    ensures TypedAt(Some(t), data, p, skip, order) == r
  {
  }

  /** Without loss, the object is the body's length, the id and the payload. */
  lemma ObjectBytesFramed(v: Value, order: HostOrder)
    requires |Body(v, order)| <= U32_MAX
    ensures var body := StringBytes(TypeId(TypeOf(v))) + PayloadBytes(v, order);
      ObjectBytes(v, order) == UVarint(|body|) + (StringBytes(TypeId(TypeOf(v))) + PayloadBytes(v, order))
  {
    ToU32Keep(|Body(v, order)|);
  }

  /**
   * The length, the id and the payload of an object stored at `pos`: the
   * length and the id are read, and the end the length gives is where the
   * payload ends.
   */
  lemma FrameStored(data: seq<Byte>, pos: nat, id: Text, payload: seq<Byte>) returns (n: U64, p1: nat, p2: nat, end: nat)
    requires |id| <= U32_MAX && |data| <= U64_MAX
    requires |StringBytes(id) + payload| <= U32_MAX
    requires Stored(data, pos, UVarint(|StringBytes(id) + payload|) + (StringBytes(id) + payload))
    ensures n == |StringBytes(id) + payload| && end == pos + |UVarint(n) + (StringBytes(id) + payload)|
    ensures UnsignedAt(data, pos) == Got(true, n, p1)
    ensures StringAt(data, p1) == Got(true, id, p2)
    ensures Stored(data, p2, payload) && p2 + |payload| == end && ToU64(p1 + n) == end
  {
    n := |StringBytes(id) + payload|;
    p1 := LengthStored(data, pos, n, StringBytes(id) + payload);
    p2 := IdStored(data, p1, id, payload);
    end := p2 + |payload|;
    ToU64Keep(p1 + n);
  }

  /** A length stored at `pos` is read, and what follows it is stored after it. */
  lemma LengthStored(data: seq<Byte>, pos: nat, n: U64, rest: seq<Byte>) returns (p1: nat)
    requires Stored(data, pos, UVarint(n) + rest)
    ensures UnsignedAt(data, pos) == Got(true, n, p1)
    ensures Stored(data, p1, rest) && p1 + |rest| == pos + |UVarint(n) + rest|
  {
    StoredSplit(data, pos, UVarint(n), rest);
    UnsignedAtStored(data, pos, n);
    p1 := pos + |UVarint(n)|;
  }

  /** An id stored at `p1` is read, and the payload after it is stored after it. */
  lemma IdStored(data: seq<Byte>, p1: nat, id: Text, payload: seq<Byte>) returns (p2: nat)
    requires |id| <= U32_MAX && Stored(data, p1, StringBytes(id) + payload)
    ensures StringAt(data, p1) == Got(true, id, p2)
    ensures Stored(data, p2, payload) && p2 + |payload| == p1 + |StringBytes(id) + payload|
  {
    StoredSplit(data, p1, StringBytes(id), payload);
    StringAtStored(data, p1, id);
    p2 := p1 + |StringBytes(id)|;
  }

  /** An object whose length and id are read is what its id makes of the rest. */
  lemma ObjectAtRead(data: seq<Byte>, pos: nat, order: HostOrder, n: U64, p1: nat, id: Text, p2: nat, skip: nat,
                     t: Option<Type>, r: Got<Value>)
    requires UnsignedAt(data, pos) == Got(true, n, p1)
    requires StringAt(data, p1) == Got(true, id, p2)
    requires skip == ToU64(p1 + n) && TypeOfId(id) == t
    requires TypedAt(t, data, p2, skip, order) == r
    ensures ObjectAt(data, pos, order) == r
  {
  }

  /** The payload of a value that serializes without loss, and whose objects are read back, is read back. */
  lemma PayloadStored(data: seq<Byte>, pos: nat, v: Value, order: HostOrder)
    requires WellFormed(v, order) && |data| <= U64_MAX
    requires ChildrenReadBack(data, v, order)
    requires Stored(data, pos, PayloadBytes(v, order))
    ensures PayloadAt(TypeOf(v), data, pos, order) == Got(true, v, pos + |PayloadBytes(v, order)|)
  {
    match v
    case EmptyValue =>
    case BooleanValue(b) => BooleanPayloadStored(data, pos, b, order);
    case IntegerValue(i) => IntegerPayloadStored(data, pos, i, order);
    case UnsignedIntegerValue(u) => UnsignedPayloadStored(data, pos, u, order);
    case DecimalValue(raw) => DecimalPayloadStored(data, pos, raw, order);
    case StringValue(t) => StringPayloadStored(data, pos, t, order);
    case VectorValue(items) => VectorPayloadStored(data, pos, items, order);
    case CollectionValue(es) => CollectionPayloadStored(data, pos, es, order);
    case IpAddressValue(a) => IpAddressPayloadStored(data, pos, a, order);
    case IntegerVectorValue(xs) => IntegerVectorPayloadStored(data, pos, xs, order);
    case UnsignedIntegerVectorValue(xs) => UnsignedVectorPayloadStored(data, pos, xs, order);
  }

  lemma BooleanPayloadStored(data: seq<Byte>, pos: nat, b: bool, order: HostOrder)
    requires Stored(data, pos, BooleanBytes(b))
    ensures PayloadAt(Boolean, data, pos, order) == Got(true, BooleanValue(b), pos + |BooleanBytes(b)|)
  {
    StoredAvailable(data, pos, BooleanBytes(b));
  }

  lemma IntegerPayloadStored(data: seq<Byte>, pos: nat, i: I32, order: HostOrder)
    requires Stored(data, pos, SVarint(i))
    ensures PayloadAt(Integer, data, pos, order) == Got(true, IntegerValue(i), pos + |SVarint(i)|)
  {
    SignedAtStored(data, pos, i);
  }

  lemma UnsignedPayloadStored(data: seq<Byte>, pos: nat, u: U64, order: HostOrder)
    requires Stored(data, pos, UVarint(u))
    ensures PayloadAt(UnsignedInteger, data, pos, order) == Got(true, UnsignedIntegerValue(u), pos + |UVarint(u)|)
  {
    UnsignedAtStored(data, pos, u);
  }

  lemma DecimalPayloadStored(data: seq<Byte>, pos: nat, raw: seq<Byte>, order: HostOrder)
    requires |raw| == 8 && Stored(data, pos, raw)
    ensures PayloadAt(Decimal, data, pos, order) == Got(true, DecimalValue(raw), pos + |raw|)
  {
    StoredAvailable(data, pos, raw);
  }

  lemma StringPayloadStored(data: seq<Byte>, pos: nat, t: Text, order: HostOrder)
    requires |t| <= U32_MAX && Stored(data, pos, StringBytes(t))
    ensures PayloadAt(String, data, pos, order) == Got(true, StringValue(t), pos + |StringBytes(t)|)
  {
    StringAtStored(data, pos, t);
  }

  lemma VectorPayloadStored(data: seq<Byte>, pos: nat, items: seq<Value>, order: HostOrder)
    requires |items| <= U32_MAX && |data| <= U64_MAX
    requires forall i :: 0 <= i < |items| ==> ReadsBack(data, items[i], order)
    requires Stored(data, pos, UVarint(ToU32(|items|)) + ObjectsBytes(items, order))
    ensures PayloadAt(Vector, data, pos, order)
      == Got(true, VectorValue(items), pos + |UVarint(ToU32(|items|)) + ObjectsBytes(items, order)|)
  {
    ObjectVectorStored(data, pos, items, order);
  }

  lemma CollectionPayloadStored(data: seq<Byte>, pos: nat, es: seq<Entry<Value>>, order: HostOrder)
    requires |es| <= U32_MAX && |data| <= U64_MAX && Ascending(es)
    requires forall i :: 0 <= i < |es| ==> |es[i].name| <= U32_MAX && ReadsBack(data, es[i].value, order)
    requires Stored(data, pos, UVarint(ToU32(|es|)) + EntriesBytes(es, order))
    ensures PayloadAt(Collection, data, pos, order)
      == Got(true, CollectionValue(es), pos + |UVarint(ToU32(|es|)) + EntriesBytes(es, order)|)
  {
    CollectionStored(data, pos, es, order);
  }

  lemma IpAddressPayloadStored(data: seq<Byte>, pos: nat, a: U32, order: HostOrder)
    requires Stored(data, pos, HostBytes(a, order))
    ensures PayloadAt(IpAddress, data, pos, order) == Got(true, IpAddressValue(a), pos + |HostBytes(a, order)|)
  {
    StoredAvailable(data, pos, HostBytes(a, order));
    HostRoundTrip(a, HostBytes(a, order), order);
  }

  lemma IntegerVectorPayloadStored(data: seq<Byte>, pos: nat, xs: seq<I32>, order: HostOrder)
    requires |xs| <= U32_MAX && Stored(data, pos, SignedVectorBytes(xs))
    ensures PayloadAt(IntegerVector, data, pos, order) == Got(true, IntegerVectorValue(xs), pos + |SignedVectorBytes(xs)|)
  {
    SignedVectorStored(data, pos, xs, []);
  }

  lemma UnsignedVectorPayloadStored(data: seq<Byte>, pos: nat, xs: seq<U32>, order: HostOrder)
    requires |xs| <= U32_MAX && Stored(data, pos, UnsignedVectorBytes(xs))
    ensures PayloadAt(UnsignedIntegerVector, data, pos, order)
      == Got(true, UnsignedIntegerVectorValue(xs), pos + |UnsignedVectorBytes(xs)|)
  {
    UnsignedVectorStored(data, pos, xs, []);
  }

  // ---------------------------------------------------------------- objects in a row

  /** `ObjectAt` as a reader of elements. */
  function ObjectReader(order: HostOrder): (r: (seq<Byte>, nat) -> Got<Value>)
    ensures forall data, pos {:trigger r(data, pos)} :: r(data, pos) == ObjectAt(data, pos, order)
  {
    (data: seq<Byte>, pos: nat) => ObjectAt(data, pos, order)
  }

  /** `ObjectBytes` as an encoder of elements. */
  function ObjectEncoder(order: HostOrder): (r: Value -> seq<Byte>)
    ensures forall v {:trigger r(v)} :: r(v) == ObjectBytes(v, order)
  {
    (v: Value) => ObjectBytes(v, order)
  }

  /** The objects of a vector are its elements encoded one by one. */
  lemma {:induction false} ObjectsEncoded(items: seq<Value>, order: HostOrder)
    ensures ObjectsBytes(items, order) == Encoded(items, ObjectEncoder(order))
    decreases items
  {
    if items != [] {
      ObjectsEncoded(items[1..], order);
    }
  }

  /** Elements that are each read back satisfy the hypothesis of `InRowStored`. */
  lemma ObjectsReadBack(data: seq<Byte>, items: seq<Value>, order: HostOrder)
    requires forall i :: 0 <= i < |items| ==> ReadsBack(data, items[i], order)
    ensures forall i, p: nat {:trigger Stored(data, p, ObjectEncoder(order)(items[i]))} ::
      0 <= i < |items| && Stored(data, p, ObjectEncoder(order)(items[i])) ==>
        ObjectReader(order)(data, p) == Got(true, items[i], p + |ObjectEncoder(order)(items[i])|)
  {
    forall i, p: nat | 0 <= i < |items| && Stored(data, p, ObjectEncoder(order)(items[i]))
      ensures ObjectReader(order)(data, p) == Got(true, items[i], p + |ObjectEncoder(order)(items[i])|)
    {
      assert ReadsBack(data, items[i], order);
    }
  }

  /** The object loop over a row of objects after `got` reads exactly those objects, which makes `all`. */
  lemma {:induction false} ObjectsInRow(data: seq<Byte>, pos: nat, items: seq<Value>, order: HostOrder, got: seq<Value>,
                                        all: seq<Value>, end: nat)
    requires InRow(data, pos, items, ObjectReader(order), end) && all == got + items
    ensures ObjectsAt(data, pos, |items|, order, got) == Got(true, all, end)
    decreases items
  {
    if items == [] {
      assert got + items == got;
    } else {
      var q := InRowFirst(data, pos, items, ObjectReader(order), end);
      MoveFirst(got, items);
      ObjectsInRow(data, q, items[1..], order, got + [items[0]], all, end);
      assert ObjectsAt(data, q, |items| - 1, order, got + [items[0]]) == Got(true, all, end);
      ObjectsOn(data, pos, |items|, order, got, Got(true, items[0], q));
      assert ObjectsAt(data, pos, |items|, order, got) == ObjectsAt(data, q, |items| - 1, order, got + [items[0]]);
    }
  }

  /** Objects that are read back one by one are read back in a row. */
  lemma ObjectsStored(data: seq<Byte>, pos: nat, items: seq<Value>, order: HostOrder, got: seq<Value>)
    requires forall i :: 0 <= i < |items| ==> ReadsBack(data, items[i], order)
    requires Stored(data, pos, ObjectsBytes(items, order))
    ensures ObjectsAt(data, pos, |items|, order, got) == Got(true, got + items, pos + |ObjectsBytes(items, order)|)
  {
    ObjectsEncoded(items, order);
    ObjectsReadBack(data, items, order);
    var end := pos + |ObjectsBytes(items, order)|;
    InRowStored(data, pos, items, ObjectEncoder(order), ObjectReader(order), end);
    ObjectsInRow(data, pos, items, order, got, got + items, end);
  }

  /** A count cast to `unsigned int`, stored before `rest`, is read back whole. */
  lemma CountStored32(data: seq<Byte>, pos: nat, n: nat, rest: seq<Byte>)
    requires n <= U32_MAX && Stored(data, pos, UVarint(ToU32(n)) + rest)
    ensures UnsignedAt(data, pos) == Got(true, n, pos + |UVarint(n)|)
    ensures Stored(data, pos + |UVarint(n)|, rest) && |UVarint(ToU32(n)) + rest| == |UVarint(n)| + |rest|
  {
    ToU32Keep(n);
    ToU64Keep(n);
    CountStored(data, pos, n, rest);
  }

  /** A vector whose objects are read back is read back from its count on. */
  lemma ObjectVectorStored(data: seq<Byte>, pos: nat, items: seq<Value>, order: HostOrder)
    requires |items| <= U32_MAX && |data| <= U64_MAX
    requires forall i :: 0 <= i < |items| ==> ReadsBack(data, items[i], order)
    requires Stored(data, pos, UVarint(ToU32(|items|)) + ObjectsBytes(items, order))
    ensures ObjectVectorAt(data, pos, [], order)
      == Got(true, items, pos + |UVarint(ToU32(|items|)) + ObjectsBytes(items, order)|)
  {
    CountStored32(data, pos, |items|, ObjectsBytes(items, order));
    var p := pos + |UVarint(|items|)|;
    ObjectsStored(data, p, items, order, []);
    assert [] + items == items;
    ObjectVectorRead(data, pos, order, |items|, p, items, p + |ObjectsBytes(items, order)|);
  }

  /** A count that is read, followed by that many objects, is the whole vector. */
  lemma ObjectVectorRead(data: seq<Byte>, pos: nat, order: HostOrder, n: U64, p: nat, items: seq<Value>, end: nat)
    requires UnsignedAt(data, pos) == Got(true, n, p) && n <= U32_MAX
    requires ObjectsAt(data, p, n, order, []) == Got(true, items, end)
    ensures ObjectVectorAt(data, pos, [], order) == Got(true, items, end)
  {
    assert items + Resized([], n, EmptyValue)[|items|..] == items;
  }

  // ---------------------------------------------------------------- entries in a row

  /** `EntryAt` as a reader of elements. */
  function EntryReader(order: HostOrder): (r: (seq<Byte>, nat) -> Got<Entry<Value>>)
    ensures forall data, pos {:trigger r(data, pos)} :: r(data, pos) == EntryAt(data, pos, order)
  {
    (data: seq<Byte>, pos: nat) => EntryAt(data, pos, order)
  }

  /** A key as a string and its object, as `SerializedCollection::Serialize` writes each entry. */
  function EntryEncoder(order: HostOrder): (r: Entry<Value> -> seq<Byte>)
    ensures forall e {:trigger r(e)} :: r(e) == StringBytes(e.name) + ObjectBytes(e.value, order)
  {
    (e: Entry<Value>) => StringBytes(e.name) + ObjectBytes(e.value, order)
  }

  /** The entries of a collection are its entries encoded one by one. */
  lemma {:induction false} EntriesEncoded(es: seq<Entry<Value>>, order: HostOrder)
    ensures EntriesBytes(es, order) == Encoded(es, EntryEncoder(order))
    decreases es
  {
    if es != [] {
      EntriesEncoded(es[1..], order);
      BytesAssoc(StringBytes(es[0].name), ObjectBytes(es[0].value, order), EntriesBytes(es[1..], order));
    }
  }

  /** An entry whose key fits and whose object is read back is read back. */
  lemma EntryStored(data: seq<Byte>, p: nat, e: Entry<Value>, order: HostOrder)
    requires |e.name| <= U32_MAX && ReadsBack(data, e.value, order)
    requires Stored(data, p, StringBytes(e.name) + ObjectBytes(e.value, order))
    ensures EntryAt(data, p, order) == Got(true, e, p + |StringBytes(e.name) + ObjectBytes(e.value, order)|)
  {
    var q := IdStored(data, p, e.name, ObjectBytes(e.value, order));
    ReadBackAt(data, q, e.value, order);
    EntryRead(data, p, order, e.name, q, e.value, q + |ObjectBytes(e.value, order)|);
  }

  /** What `ReadsBack` says about one place where the value is stored. */
  lemma ReadBackAt(data: seq<Byte>, p: nat, v: Value, order: HostOrder)
    requires ReadsBack(data, v, order) && Stored(data, p, ObjectBytes(v, order))
    ensures ObjectAt(data, p, order) == Got(true, v, p + |ObjectBytes(v, order)|)
  {
  }

  /** A key that is read, followed by an object that is read, is an entry. */
  lemma EntryRead(data: seq<Byte>, p: nat, order: HostOrder, name: Text, q: nat, v: Value, end: nat)
    requires StringAt(data, p) == Got(true, name, q)
    requires ObjectAt(data, q, order) == Got(true, v, end)
    ensures EntryAt(data, p, order) == Got(true, Entry(name, v), end)
  {
  }

  /** Entries that are each read back satisfy the hypothesis of `InRowStored`. */
  lemma EntriesReadBack(data: seq<Byte>, es: seq<Entry<Value>>, order: HostOrder)
    requires forall i :: 0 <= i < |es| ==> |es[i].name| <= U32_MAX && ReadsBack(data, es[i].value, order)
    ensures forall i, p: nat {:trigger Stored(data, p, EntryEncoder(order)(es[i]))} ::
      0 <= i < |es| && Stored(data, p, EntryEncoder(order)(es[i])) ==>
        EntryReader(order)(data, p) == Got(true, es[i], p + |EntryEncoder(order)(es[i])|)
  {
    forall i, p: nat | 0 <= i < |es| && Stored(data, p, EntryEncoder(order)(es[i]))
      ensures EntryReader(order)(data, p) == Got(true, es[i], p + |EntryEncoder(order)(es[i])|)
    {
      EntryStored(data, p, es[i], order);
    }
  }

  /**
   * The entry loop over a row of entries after the map `got` reads exactly
   * those entries, which makes `all` when the keys ascend throughout.
   */
  lemma {:induction false} EntriesInRow(data: seq<Byte>, pos: nat, es: seq<Entry<Value>>, order: HostOrder,
                                         got: seq<Entry<Value>>, all: seq<Entry<Value>>, end: nat)
    requires Ascending(got) && Ascending(all) && all == got + es
    requires InRow(data, pos, es, EntryReader(order), end)
    ensures EntriesAt(data, pos, |es|, order, got) == Got(true, all, end)
    decreases es
  {
    if es == [] {
      assert got + es == got;
    } else {
      var q := InRowFirst(data, pos, es, EntryReader(order), end);
      var next := EntryAppended(got, es);
      EntriesInRow(data, q, es[1..], order, next, all, end);
      EntriesOn(data, pos, |es|, order, got, Got(true, es[0], q));
    }
  }

  /** Keys and objects that are read back one by one are read back in a row, into ascending keys. */
  lemma EntriesStored(data: seq<Byte>, pos: nat, es: seq<Entry<Value>>, order: HostOrder)
    requires Ascending(es)
    requires forall i :: 0 <= i < |es| ==> |es[i].name| <= U32_MAX && ReadsBack(data, es[i].value, order)
    requires Stored(data, pos, EntriesBytes(es, order))
    ensures EntriesAt(data, pos, |es|, order, []) == Got(true, es, pos + |EntriesBytes(es, order)|)
  {
    EntriesEncoded(es, order);
    EntriesReadBack(data, es, order);
    var end := pos + |EntriesBytes(es, order)|;
    InRowStored(data, pos, es, EntryEncoder(order), EntryReader(order), end);
    assert [] + es == es;
    EntriesInRow(data, pos, es, order, [], es, end);
  }

  /** A collection whose objects are read back is read back from its count on. */
  lemma CollectionStored(data: seq<Byte>, pos: nat, es: seq<Entry<Value>>, order: HostOrder)
    requires |es| <= U32_MAX && |data| <= U64_MAX && Ascending(es)
    requires forall i :: 0 <= i < |es| ==> |es[i].name| <= U32_MAX && ReadsBack(data, es[i].value, order)
    requires Stored(data, pos, UVarint(ToU32(|es|)) + EntriesBytes(es, order))
    ensures CollectionAt(data, pos, order) == Got(true, es, pos + |UVarint(ToU32(|es|)) + EntriesBytes(es, order)|)
  {
    CountStored32(data, pos, |es|, EntriesBytes(es, order));
    var p := pos + |UVarint(|es|)|;
    EntriesStored(data, p, es, order);
    CollectionRead(data, pos, order, |es|, p, es, p + |EntriesBytes(es, order)|);
  }

  /** A count that is read, followed by that many entries, is the whole collection. */
  lemma CollectionRead(data: seq<Byte>, pos: nat, order: HostOrder, n: U64, p: nat, es: seq<Entry<Value>>, end: nat)
    requires UnsignedAt(data, pos) == Got(true, n, p) && n <= U32_MAX
    requires EntriesAt(data, p, n, order, []) == Got(true, es, end)
    ensures CollectionAt(data, pos, order) == Got(true, es, end)
  {
  }

  /**
   * What `Serialize` writes when it fits is what `Deserialize` reads back from
   * the same place.
   */
  lemma ObjectRoundTrip(c: Cursor, capacity: Option<nat>, v: Value, order: HostOrder)
    requires WellFormed(v, order) && Fits(c, capacity, ObjectBytes(v, order))
    requires |Put(c, capacity, ObjectBytes(v, order)).data| <= U64_MAX
    ensures ObjectAt(Put(c, capacity, ObjectBytes(v, order)).data, c.pos, order)
      == Got(true, v, c.pos + |ObjectBytes(v, order)|)
  {
    PutReadBack(c, capacity, ObjectBytes(v, order));
    ObjectStored(Put(c, capacity, ObjectBytes(v, order)).data, c.pos, v, order);
  }
}
