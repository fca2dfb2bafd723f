/**
 * The objects that hold other objects, as classes over the file model:
 * `SerializedObject` (src/SerializedObject.cpp,
 * include/Serialization/SerializedObject.hpp), `SerializedVector`
 * (src/SerializedVector.cpp) and `SerializedCollection`
 * (src/SerializedCollection.cpp, include/Serialization/SerializedCollection.hpp).
 * Their methods are proved against the byte layout and the readers of
 * `CppObjectCodec`, whose round trip is proved there.
 */
module CppContainers {
  import opened Bytes
  import opened Varint
  import opened CppText
  import opened CppNumbers
  import opened CppFile
  import opened CppIntegers
  import opened CppScalars
  import opened CppIntegerVectors
  import opened CppOrdered
  import opened CppObjects
  import opened CppObjectCodec
  import opened CppLayout

  // ---------------------------------------------------------------- typed access

  /**
   * The typecast operators of `SerializedObject`: the concrete object when
   * there is one and it has the type asked for, otherwise nothing.
   */
  function Cast(v: Value, t: Type): (r: Option<Value>)
    ensures r.Some? <==> v != EmptyValue && TypeOf(v) == t
    ensures r.Some? ==> r.value == v
  {
    if v == EmptyValue || TypeOf(v) != t then None else Some(v)
  }

  // ---------------------------------------------------------------- what a write leaves

  /**
   * What `SerializedVector::Serialize` leaves in a file: the count, then each
   * object; an object that does not fit backs the position up to where that
   * object started, and nothing more is written.
   */
  function VectorWritten(c: Cursor, capacity: Option<nat>, items: seq<Value>, order: HostOrder): Cursor
  {
    var count := UVarint(ToU32(|items|));
    if Fits(c, capacity, count) then ObjectsWritten(Put(c, capacity, count), capacity, items, order)
    else Put(c, capacity, count)
  }

  /** The objects of a vector written one after the other, up to the first that does not fit. */
  function ObjectsWritten(c: Cursor, capacity: Option<nat>, items: seq<Value>, order: HostOrder): Cursor
    decreases items
  {
    if items == [] then c
    else
      var bs := ObjectBytes(items[0], order);
      if Fits(c, capacity, bs) then ObjectsWritten(Put(c, capacity, bs), capacity, items[1..], order)
      else Framed(c, capacity, bs)
  }

  /**
   * What `SerializedCollection::Serialize` leaves in a file: the count, then
   * each key and its object; a key that does not fit stays cut short, an
   * object that does not fit backs up to where the object started.
   */
  function CollectionWritten(c: Cursor, capacity: Option<nat>, es: seq<Entry<Value>>, order: HostOrder): Cursor
  {
    var count := UVarint(ToU32(|es|));
    if Fits(c, capacity, count) then EntriesWritten(Put(c, capacity, count), capacity, es, order)
    else Put(c, capacity, count)
  }

  /** The entries of a collection written one after the other, up to the first part that does not fit. */
  function EntriesWritten(c: Cursor, capacity: Option<nat>, es: seq<Entry<Value>>, order: HostOrder): Cursor
    decreases es
  {
    if es == [] then c
    else
      var key := StringBytes(es[0].name);
      if !Fits(c, capacity, key) then Put(c, capacity, key)
      else
        var c1 := Put(c, capacity, key);
        var bs := ObjectBytes(es[0].value, order);
        if Fits(c1, capacity, bs) then EntriesWritten(Put(c1, capacity, bs), capacity, es[1..], order)
        else Framed(c1, capacity, bs)
  }

  /** What the concrete object's `Serialize` leaves in a file. */
  function PayloadWritten(c: Cursor, capacity: Option<nat>, v: Value, order: HostOrder): Cursor
  {
    match v
    case VectorValue(items) => VectorWritten(c, capacity, items, order)
    case CollectionValue(es) => CollectionWritten(c, capacity, es, order)
    case _ => Put(c, capacity, PayloadBytes(v, order))
  }

  /**
   * Writing the objects one by one stores the same bytes as one write of all
   * of them would, and when all of them fit it leaves the file exactly so.
   */
  lemma {:induction false} ObjectsWrittenPut(c: Cursor, capacity: Option<nat>, items: seq<Value>, order: HostOrder)
    requires c.pos <= |c.data|
    ensures ObjectsWritten(c, capacity, items, order).data == Put(c, capacity, ObjectsBytes(items, order)).data
    ensures Fits(c, capacity, ObjectsBytes(items, order)) ==>
      ObjectsWritten(c, capacity, items, order) == Put(c, capacity, ObjectsBytes(items, order))
    decreases items
  {
    if items == [] {
      OverwriteNothing(c.data, c.pos);
    } else {
      var bs := ObjectBytes(items[0], order);
      var rest := ObjectsBytes(items[1..], order);
      if Fits(c, capacity, bs) {
        PutThen(c, capacity, bs, rest);
        ObjectsWrittenPut(Put(c, capacity, bs), capacity, items[1..], order);
      } else {
        PutShort(c, capacity, bs, rest);
      }
    }
  }

  /** `ObjectsWrittenPut` for a whole vector, count included. */
  lemma VectorWrittenPut(c: Cursor, capacity: Option<nat>, items: seq<Value>, order: HostOrder)
    ensures VectorWritten(c, capacity, items, order).data == Put(c, capacity, PayloadBytes(VectorValue(items), order)).data
    ensures Fits(c, capacity, PayloadBytes(VectorValue(items), order)) ==>
      VectorWritten(c, capacity, items, order) == Put(c, capacity, PayloadBytes(VectorValue(items), order))
  {
    var count := UVarint(ToU32(|items|));
    assert PayloadBytes(VectorValue(items), order) == count + ObjectsBytes(items, order);
    if Fits(c, capacity, count) {
      PutThen(c, capacity, count, ObjectsBytes(items, order));
      PutReadBack(c, capacity, count);
      ObjectsWrittenPut(Put(c, capacity, count), capacity, items, order);
    } else {
      PutShort(c, capacity, count, ObjectsBytes(items, order));
    }
  }

  /** The count, then the objects: how `VectorWritten` starts. */
  lemma VectorParts(c: Cursor, capacity: Option<nat>, items: seq<Value>, order: HostOrder)
    ensures var head := UVarint(ToU32(|items|));
      PayloadBytes(VectorValue(items), order) == head + Encoded(items, ObjectEncoder(order))
      && VectorWritten(c, capacity, items, order)
         == if Fits(c, capacity, head) then ObjectsWritten(Put(c, capacity, head), capacity, items, order) else Put(c, capacity, head)
  {
    ObjectsEncoded(items, order);
  }

  lemma CollectionParts(c: Cursor, capacity: Option<nat>, es: seq<Entry<Value>>, order: HostOrder)
    ensures var head := UVarint(ToU32(|es|));
      PayloadBytes(CollectionValue(es), order) == head + Encoded(es, EntryEncoder(order))
      && CollectionWritten(c, capacity, es, order)
         == if Fits(c, capacity, head) then EntriesWritten(Put(c, capacity, head), capacity, es, order) else Put(c, capacity, head)
  {
    EntriesEncoded(es, order);
  }

  /**
   * What one turn of the loop of `SerializedCollection::Serialize` leaves in
   * a file: the key, then the object; a key that does not fit stays cut
   * short, an object that does not fit backs up to where it started.
   */
  function EntryWritten(c: Cursor, capacity: Option<nat>, e: Entry<Value>, order: HostOrder): Cursor
  {
    var key := StringBytes(e.name);
    if !Fits(c, capacity, key) then Put(c, capacity, key)
    else
      var bs := ObjectBytes(e.value, order);
      if Fits(Put(c, capacity, key), capacity, bs) then Put(Put(c, capacity, key), capacity, bs)
      else Framed(Put(c, capacity, key), capacity, bs)
  }

  /** One entry of `EntriesWritten`: when all of it fits the rest follow, otherwise it ends the write. */
  lemma EntriesWrittenStep(c: Cursor, capacity: Option<nat>, es: seq<Entry<Value>>, k: nat, order: HostOrder)
    requires k < |es|
    ensures var bs := EntryEncoder(order)(es[k]);
      EntriesWritten(c, capacity, es[k..], order)
      == if Fits(c, capacity, bs) then EntriesWritten(Put(c, capacity, bs), capacity, es[k + 1..], order)
         else EntryWritten(c, capacity, es[k], order)
  {
    var key, bs := StringBytes(es[k].name), ObjectBytes(es[k].value, order);
    assert es[k..][0] == es[k] && es[k..][1..] == es[k + 1..];
    if Fits(c, capacity, key) {
      PutThen(c, capacity, key, bs);
    } else {
      PutShort(c, capacity, key, bs);
    }
  }

  /** A reader that, when it succeeds, has moved on. */
  ghost predicate Advancing<T>(at: (seq<Byte>, nat) -> Got<T>)
  {
    forall d: seq<Byte>, p: nat {:trigger at(d, p)} :: at(d, p).ok ==> p < at(d, p).next <= |d|
  }

  /**
   * `at` reads what `SerializedObject::Deserialize` reads; it is named so that
   * the proofs about the loop do not look inside the reader.
   */
  ghost predicate ReadsObjects(at: (seq<Byte>, nat) -> Got<Value>, order: HostOrder)
  {
    forall d: seq<Byte>, p: nat {:trigger ObjectAt(d, p, order)} :: at(d, p) == ObjectAt(d, p, order)
  }

  lemma ObjectReaderReads(order: HostOrder)
    ensures ReadsObjects(ObjectReader(order), order) && Advancing(ObjectReader(order))
  {
    var at := ObjectReader(order);
    forall d: seq<Byte>, p: nat
      ensures at(d, p).ok ==> p < at(d, p).next <= |d|
    {
      assert at(d, p) == ObjectAt(d, p, order);
    }
  }

  /**
   * The element loop of `SerializedVector::Deserialize` as written, with `at`
   * reading one element: slot `i` of the resized vector `slots` is
   * deserialized in place until the `unsigned int` counter reaches the size
   * or an element fails.
   */
  function VectorLoop<T>(data: seq<Byte>, pos: nat, slots: seq<T>, i: nat, at: (seq<Byte>, nat) -> Got<T>): (r: Got<seq<T>>)
    requires i <= U32_MAX && Advancing(at)
    ensures |r.value| == |slots|
    decreases |data| - pos
  {
    if i >= |slots| then Got(true, slots, pos)
    else
      var e := at(data, pos);
      if !e.ok then Got(false, slots, e.next)
      else VectorLoop(data, e.next, slots[i := e.value], Step32(i), at)
  }

  /** One turn of the loop: it ends where an element fails, and goes on past an element read. */
  lemma VectorLoopStep<T>(data: seq<Byte>, pos: nat, slots: seq<T>, i: nat, at: (seq<Byte>, nat) -> Got<T>)
    requires i <= U32_MAX && i < |slots| && Advancing(at)
    ensures var e := at(data, pos);
      VectorLoop(data, pos, slots, i, at)
      == if !e.ok then Got(false, slots, e.next) else VectorLoop(data, e.next, slots[i := e.value], Step32(i), at)
  {
  }

  /** Beyond the range of the counter, the loop is `ObjectsWrapping`. */
  lemma {:induction false} VectorLoopWrapping(data: seq<Byte>, pos: nat, slots: seq<Value>, i: nat, order: HostOrder,
                                              at: (seq<Byte>, nat) -> Got<Value>)
    requires i <= U32_MAX < |slots| && Advancing(at) && ReadsObjects(at, order)
    ensures VectorLoop(data, pos, slots, i, at) == ObjectsWrapping(data, pos, slots, i, order)
    decreases |data| - pos
  {
    var e := ObjectAt(data, pos, order);
    VectorLoopStep(data, pos, slots, i, at);
    WrappingStep(data, pos, slots, i, order, e);
    if e.ok {
      VectorLoopWrapping(data, e.next, slots[i := e.value], Step32(i), order, at);
    }
  }

  /** One object of the wrapping loop: a failure ends it, an object read overwrites slot `i`. */
  lemma WrappingStep(data: seq<Byte>, pos: nat, slots: seq<Value>, i: nat, order: HostOrder, e: Got<Value>)
    requires i <= U32_MAX < |slots| && ObjectAt(data, pos, order) == e
    ensures !e.ok ==> ObjectsWrapping(data, pos, slots, i, order) == Got(false, slots, e.next)
    ensures e.ok ==> ObjectsWrapping(data, pos, slots, i, order) == ObjectsWrapping(data, e.next, slots[i := e.value], Step32(i), order)
  {
  }

  /**
   * Within the range of the counter, the loop reads the elements after the
   * `got` it has already stored over the first slots, as `ReadFrom` does.
   */
  lemma {:induction false} VectorLoopCounted<T>(data: seq<Byte>, pos: nat, slots: seq<T>, got: seq<T>,
                                                at: (seq<Byte>, nat) -> Got<T>)
    requires |got| <= |slots| <= U32_MAX && Advancing(at)
    ensures var g := ReadFrom(data, pos, |slots| - |got|, at, got);
      VectorLoop(data, pos, got + slots[|got|..], |got|, at) == Got(g.ok, g.value + slots[|g.value|..], g.next)
    decreases |slots| - |got|
  {
    var k := |got|;
    if k == |slots| {
      assert got + slots[k..] == got;
    } else {
      var e := at(data, pos);
      var n := |slots| - k;
      VectorLoopStep(data, pos, got + slots[k..], k, at);
      if e.ok {
        var got' := got + [e.value];
        ReadOn(data, pos, n, at, got, e);
        FillSlot(got, slots, k, e.value);
        assert Step32(k) == k + 1 && |got'| == k + 1 && |slots| - |got'| == n - 1;
        VectorLoopCounted(data, e.next, slots, got', at);
      } else {
        ReadStop(data, pos, n, at, got, e);
      }
    }
  }

  /** With `at` reading objects, the object loop of the cluster is `ReadFrom`. */
  lemma {:induction false} ObjectsAtRead(data: seq<Byte>, pos: nat, n: nat, order: HostOrder, got: seq<Value>,
                                         at: (seq<Byte>, nat) -> Got<Value>)
    requires ReadsObjects(at, order)
    ensures ObjectsAt(data, pos, n, order, got) == ReadFrom(data, pos, n, at, got)
    decreases n
  {
    if n > 0 {
      var e := at(data, pos);
      assert ObjectAt(data, pos, order) == e;
      if e.ok {
        ObjectsOn(data, pos, n, order, got, e);
        ReadOn(data, pos, n, at, got, e);
        ObjectsAtRead(data, e.next, n - 1, order, got + [e.value], at);
      } else {
        ObjectsStop(data, pos, n, order, got, e);
        ReadStop(data, pos, n, at, got, e);
      }
    }
  }

  /** The loop as written is what `ObjectVectorAt` says `Deserialize` does after the count. */
  lemma VectorLoopIsVectorAt(data: seq<Byte>, pos: nat, prior: seq<Value>, order: HostOrder, at: (seq<Byte>, nat) -> Got<Value>)
    requires UnsignedAt(data, pos).ok && Advancing(at) && ReadsObjects(at, order)
    ensures var n := UnsignedAt(data, pos);
      ObjectVectorAt(data, pos, prior, order) == VectorLoop(data, n.next, Resized(prior, n.value, EmptyValue), 0, at)
  {
    var n := UnsignedAt(data, pos);
    var slots := Resized(prior, n.value, EmptyValue);
    if n.value <= U32_MAX {
      VectorLoopCounted(data, n.next, slots, [], at);
      ObjectsAtRead(data, n.next, n.value, order, [], at);
      assert [] + slots[0..] == slots;
    } else {
      VectorLoopWrapping(data, n.next, slots, 0, order, at);
    }
  }

  /**
   * `at` reads what `SerializedCollection::Deserialize` reads for one entry:
   * a key, then an object.
   */
  ghost predicate ReadsEntries(at: (seq<Byte>, nat) -> Got<Entry<Value>>, order: HostOrder)
  {
    forall d: seq<Byte>, p: nat {:trigger at(d, p)} :: at(d, p) == EntryAt(d, p, order)
  }

  lemma EntryReaderReads(order: HostOrder)
    ensures ReadsEntries(EntryReader(order), order) && Advancing(EntryReader(order))
  {
    var at := EntryReader(order);
    forall d: seq<Byte>, p: nat
      ensures at(d, p).ok ==> p < at(d, p).next <= |d|
    {
      assert at(d, p) == EntryAt(d, p, order);
    }
  }

  /**
   * The entry loop of `SerializedCollection::Deserialize` as written, with
   * `at` reading one key and its object: each entry read is stored under its
   * key until the `unsigned int` counter `i` reaches `count` or an entry
   * fails.
   */
  function CollectionLoop(data: seq<Byte>, pos: nat, count: nat, i: nat, got: seq<Entry<Value>>,
                          at: (seq<Byte>, nat) -> Got<Entry<Value>>): (r: Got<seq<Entry<Value>>>)
    requires i <= U32_MAX && Ascending(got) && Advancing(at)
    ensures Ascending(r.value)
    decreases |data| - pos
  {
    if i >= count then Got(true, got, pos)
    else
      var e := at(data, pos);
      if !e.ok then Got(false, got, e.next)
      else CollectionLoop(data, e.next, count, Step32(i), Assign(got, e.value.name, e.value.value), at)
  }

  /** One turn of the entry loop. */
  lemma CollectionLoopStep(data: seq<Byte>, pos: nat, count: nat, i: nat, got: seq<Entry<Value>>,
                           at: (seq<Byte>, nat) -> Got<Entry<Value>>)
    requires i <= U32_MAX && i < count && Ascending(got) && Advancing(at)
    ensures var e := at(data, pos);
      CollectionLoop(data, pos, count, i, got, at)
      == if !e.ok then Got(false, got, e.next)
         else CollectionLoop(data, e.next, count, Step32(i), Assign(got, e.value.name, e.value.value), at)
  {
  }

  /**
   * `EntriesAt` with the entry reader left open: `n` more entries read with
   * `at` after the map `got`, each stored under its key; the first failure
   * ends it.
   */
  function AssignFrom(data: seq<Byte>, pos: nat, n: nat, at: (seq<Byte>, nat) -> Got<Entry<Value>>, got: seq<Entry<Value>>): (r: Got<seq<Entry<Value>>>)
    requires Ascending(got)
    ensures Ascending(r.value)
    decreases n
  {
    if n == 0 then Got(true, got, pos)
    else
      var e := at(data, pos);
      if !e.ok then Got(false, got, e.next)
      else AssignFrom(data, e.next, n - 1, at, Assign(got, e.value.name, e.value.value))
  }

  /** Within the range of the counter, the entry loop reads the entries left to count, as `AssignFrom` does. */
  lemma {:induction false} CollectionLoopCounted(data: seq<Byte>, pos: nat, count: nat, i: nat, got: seq<Entry<Value>>,
                                                 at: (seq<Byte>, nat) -> Got<Entry<Value>>)
    requires i <= count <= U32_MAX && Ascending(got) && Advancing(at)
    ensures CollectionLoop(data, pos, count, i, got, at) == AssignFrom(data, pos, count - i, at, got)
    decreases count - i
  {
    if i < count {
      var e := at(data, pos);
      CountedStep(data, pos, count, i, got, at, e);
      if e.ok {
        CollectionLoopCounted(data, e.next, count, i + 1, Assign(got, e.value.name, e.value.value), at);
      }
    }
  }

  /** One turn within the range of the counter: a failed read ends both loops alike, a good one moves both past it. */
  lemma CountedStep(data: seq<Byte>, pos: nat, count: nat, i: nat, got: seq<Entry<Value>>,
                    at: (seq<Byte>, nat) -> Got<Entry<Value>>, e: Got<Entry<Value>>)
    requires i < count <= U32_MAX && Ascending(got) && Advancing(at) && at(data, pos) == e
    ensures !e.ok ==> CollectionLoop(data, pos, count, i, got, at) == AssignFrom(data, pos, count - i, at, got)
    ensures e.ok ==>
      CollectionLoop(data, pos, count, i, got, at)
      == CollectionLoop(data, e.next, count, i + 1, Assign(got, e.value.name, e.value.value), at)
    ensures e.ok ==>
      AssignFrom(data, pos, count - i, at, got)
      == AssignFrom(data, e.next, count - (i + 1), at, Assign(got, e.value.name, e.value.value))
  {
    CollectionLoopStep(data, pos, count, i, got, at);
    assert Step32(i) == i + 1;
  }

  /** With `at` reading entries, the entry loop of the cluster is `AssignFrom`. */
  lemma {:induction false} EntriesAtRead(data: seq<Byte>, pos: nat, n: nat, order: HostOrder, got: seq<Entry<Value>>,
                                         at: (seq<Byte>, nat) -> Got<Entry<Value>>)
    requires Ascending(got) && ReadsEntries(at, order)
    ensures EntriesAt(data, pos, n, order, got) == AssignFrom(data, pos, n, at, got)
    decreases n
  {
    if n > 0 {
      var e := at(data, pos);
      if e.ok {
        var g := Assign(got, e.value.name, e.value.value);
        EntriesAtRead(data, e.next, n - 1, order, g, at);
        EntriesReadJoin(data, pos, n, order, got, at, e, g);
      } else {
        EntriesReadStep(data, pos, n, order, got, at, e);
      }
    }
  }

  /** A good entry followed by the same rest in both loops gives the same result in both. */
  lemma EntriesReadJoin(data: seq<Byte>, pos: nat, n: nat, order: HostOrder, got: seq<Entry<Value>>,
                        at: (seq<Byte>, nat) -> Got<Entry<Value>>, e: Got<Entry<Value>>, g: seq<Entry<Value>>)
    requires Ascending(got) && ReadsEntries(at, order) && n > 0 && at(data, pos) == e && e.ok
    requires g == Assign(got, e.value.name, e.value.value)
    requires EntriesAt(data, e.next, n - 1, order, g) == AssignFrom(data, e.next, n - 1, at, g)
    ensures EntriesAt(data, pos, n, order, got) == AssignFrom(data, pos, n, at, got)
  {
    EntriesReadStep(data, pos, n, order, got, at, e);
  }

  /** One entry of both loops: a failed read ends both alike, a good one moves both past it with the same map. */
  lemma EntriesReadStep(data: seq<Byte>, pos: nat, n: nat, order: HostOrder, got: seq<Entry<Value>>,
                        at: (seq<Byte>, nat) -> Got<Entry<Value>>, e: Got<Entry<Value>>)
    requires Ascending(got) && ReadsEntries(at, order) && n > 0 && at(data, pos) == e
    ensures !e.ok ==> EntriesAt(data, pos, n, order, got) == AssignFrom(data, pos, n, at, got)
    ensures e.ok ==> EntriesAt(data, pos, n, order, got) == EntriesAt(data, e.next, n - 1, order, Assign(got, e.value.name, e.value.value))
    ensures e.ok ==> AssignFrom(data, pos, n, at, got) == AssignFrom(data, e.next, n - 1, at, Assign(got, e.value.name, e.value.value))
  {
    assert EntryAt(data, pos, order) == e;
    if e.ok {
      EntriesOn(data, pos, n, order, got, e);
    } else {
      EntriesStop(data, pos, n, order, got, e);
    }
  }

  /** Beyond the range of the counter, the entry loop is `EntriesWrapping`. */
  lemma {:induction false} CollectionLoopWrapping(data: seq<Byte>, pos: nat, count: nat, i: nat, got: seq<Entry<Value>>,
                                                  order: HostOrder, at: (seq<Byte>, nat) -> Got<Entry<Value>>)
    requires i <= U32_MAX < count && Ascending(got) && Advancing(at) && ReadsEntries(at, order)
    ensures CollectionLoop(data, pos, count, i, got, at) == EntriesWrapping(data, pos, order, got)
    decreases |data| - pos
  {
    var e := at(data, pos);
    assert EntryAt(data, pos, order) == e;
    CollectionLoopStep(data, pos, count, i, got, at);
    EntriesWrappingStep(data, pos, order, got, e);
    if e.ok {
      CollectionLoopWrapping(data, e.next, count, Step32(i), Assign(got, e.value.name, e.value.value), order, at);
    }
  }

  /** One entry of the wrapping loop. */
  lemma EntriesWrappingStep(data: seq<Byte>, pos: nat, order: HostOrder, got: seq<Entry<Value>>, e: Got<Entry<Value>>)
    requires Ascending(got) && EntryAt(data, pos, order) == e
    ensures !e.ok ==> EntriesWrapping(data, pos, order, got) == Got(false, got, e.next)
    ensures e.ok ==> EntriesWrapping(data, pos, order, got) == EntriesWrapping(data, e.next, order, Assign(got, e.value.name, e.value.value))
  {
  }

  /** The loop as written is what `CollectionAt` says `Deserialize` does after the count. */
  lemma CollectionLoopIsCollectionAt(data: seq<Byte>, pos: nat, order: HostOrder, at: (seq<Byte>, nat) -> Got<Entry<Value>>)
    requires UnsignedAt(data, pos).ok && Advancing(at) && ReadsEntries(at, order)
    ensures var n := UnsignedAt(data, pos);
      CollectionAt(data, pos, order) == CollectionLoop(data, n.next, n.value, 0, [], at)
  {
    var n := UnsignedAt(data, pos);
    if n.value <= U32_MAX {
      CollectionLoopCounted(data, n.next, n.value, 0, [], at);
      EntriesAtRead(data, n.next, n.value, order, [], at);
    } else {
      CollectionLoopWrapping(data, n.next, n.value, 0, [], order, at);
    }
  }

  /** One object of `ObjectsWritten`: it fits and the rest follow, or it is abandoned and ends the write. */
  lemma ObjectsWrittenStep(c: Cursor, capacity: Option<nat>, items: seq<Value>, k: nat, order: HostOrder)
    requires k < |items|
    ensures var bs := ObjectBytes(items[k], order);
      ObjectsWritten(c, capacity, items[k..], order)
      == if Fits(c, capacity, bs) then ObjectsWritten(Put(c, capacity, bs), capacity, items[k + 1..], order) else Framed(c, capacity, bs)
  {
    assert items[k..][0] == items[k] && items[k..][1..] == items[k + 1..];
  }

  /**
   * Writing the entries one by one stores the same bytes as one write of all
   * of them would, and when all of them fit it leaves the file exactly so.
   */
  lemma {:induction false} EntriesWrittenPut(c: Cursor, capacity: Option<nat>, es: seq<Entry<Value>>, order: HostOrder)
    requires c.pos <= |c.data|
    ensures EntriesWritten(c, capacity, es, order).data == Put(c, capacity, EntriesBytes(es, order)).data
    ensures Fits(c, capacity, EntriesBytes(es, order)) ==>
      EntriesWritten(c, capacity, es, order) == Put(c, capacity, EntriesBytes(es, order))
    decreases es
  {
    if es == [] {
      OverwriteNothing(c.data, c.pos);
    } else {
      var key := StringBytes(es[0].name);
      var bs := ObjectBytes(es[0].value, order);
      var c1 := Put(c, capacity, key);
      if Fits(c, capacity, key) && Fits(c1, capacity, bs) {
        EntriesWrittenPut(Put(c1, capacity, bs), capacity, es[1..], order);
        EntryPutOn(c, capacity, es, order);
      } else {
        EntryPutShort(c, capacity, es, order);
      }
    }
  }

  /** An entry that fits whole, followed by the rest written as `Put` writes it. */
  lemma EntryPutOn(c: Cursor, capacity: Option<nat>, es: seq<Entry<Value>>, order: HostOrder)
    requires c.pos <= |c.data| && es != []
    requires var c1 := Put(c, capacity, StringBytes(es[0].name));
      var bs := ObjectBytes(es[0].value, order);
      && Fits(c, capacity, StringBytes(es[0].name)) && Fits(c1, capacity, bs)
      && EntriesWritten(Put(c1, capacity, bs), capacity, es[1..], order).data
         == Put(Put(c1, capacity, bs), capacity, EntriesBytes(es[1..], order)).data
      && (Fits(Put(c1, capacity, bs), capacity, EntriesBytes(es[1..], order)) ==>
          EntriesWritten(Put(c1, capacity, bs), capacity, es[1..], order)
          == Put(Put(c1, capacity, bs), capacity, EntriesBytes(es[1..], order)))
    ensures EntriesWritten(c, capacity, es, order).data == Put(c, capacity, EntriesBytes(es, order)).data
    ensures Fits(c, capacity, EntriesBytes(es, order)) ==>
      EntriesWritten(c, capacity, es, order) == Put(c, capacity, EntriesBytes(es, order))
  {
    var key := StringBytes(es[0].name);
    var bs := ObjectBytes(es[0].value, order);
    var rest := EntriesBytes(es[1..], order);
    PutThen(c, capacity, key, bs + rest);
    PutThen(Put(c, capacity, key), capacity, bs, rest);
  }

  /** An entry that does not fit whole ends the write where `Put` of the whole entries stops. */
  lemma EntryPutShort(c: Cursor, capacity: Option<nat>, es: seq<Entry<Value>>, order: HostOrder)
    requires c.pos <= |c.data| && es != []
    requires !Fits(c, capacity, StringBytes(es[0].name))
             || !Fits(Put(c, capacity, StringBytes(es[0].name)), capacity, ObjectBytes(es[0].value, order))
    ensures EntriesWritten(c, capacity, es, order).data == Put(c, capacity, EntriesBytes(es, order)).data
    ensures !Fits(c, capacity, EntriesBytes(es, order))
  {
    var key := StringBytes(es[0].name);
    var bs := ObjectBytes(es[0].value, order);
    var rest := EntriesBytes(es[1..], order);
    if Fits(c, capacity, key) {
      PutThen(c, capacity, key, bs + rest);
      PutShort(Put(c, capacity, key), capacity, bs, rest);
    } else {
      PutShort(c, capacity, key, bs + rest);
    }
  }

  /** `EntriesWrittenPut` for a whole collection, count included. */
  lemma CollectionWrittenPut(c: Cursor, capacity: Option<nat>, es: seq<Entry<Value>>, order: HostOrder)
    ensures CollectionWritten(c, capacity, es, order).data == Put(c, capacity, PayloadBytes(CollectionValue(es), order)).data
    ensures Fits(c, capacity, PayloadBytes(CollectionValue(es), order)) ==>
      CollectionWritten(c, capacity, es, order) == Put(c, capacity, PayloadBytes(CollectionValue(es), order))
  {
    var count := UVarint(ToU32(|es|));
    assert PayloadBytes(CollectionValue(es), order) == count + EntriesBytes(es, order);
    if Fits(c, capacity, count) {
      PutThen(c, capacity, count, EntriesBytes(es, order));
      PutReadBack(c, capacity, count);
      EntriesWrittenPut(Put(c, capacity, count), capacity, es, order);
    } else {
      PutShort(c, capacity, count, EntriesBytes(es, order));
    }
  }

  /**
   * A payload written to a `StringFile`, which has no bound, is the payload
   * appended.
   */
  lemma PayloadWrittenUnbounded(c: Cursor, v: Value, order: HostOrder)
    requires c.pos <= |c.data|
    ensures PayloadWritten(c, None, v, order) == Put(c, None, PayloadBytes(v, order))
  {
    match v
    case VectorValue(items) => VectorWrittenPut(c, None, items, order);
    case CollectionValue(es) => CollectionWrittenPut(c, None, es, order);
    case _ =>
  }

  /** A fresh `StringFile` holds exactly what is written to it. */
  lemma FreshPut(bs: seq<Byte>)
    ensures Put(Cursor([], 0), None, bs) == Cursor(bs, |bs|)
  {
    assert bs[..|bs|] == bs;
    assert Overwrite([], 0, bs) == bs;
  }

  // ---------------------------------------------------------------- SerializedObject

  /** How far a file's position is from its end: what the reading methods use up. */
  function Left(file: File): nat
    reads file
  {
    if file.pos <= |file.data| then |file.data| - file.pos else 0
  }

  /**
   * `SerializedObject`: a type and the concrete object of that type, here
   * the value that object holds (`EmptyValue` when there is none).
   */
  class SerializedObject {
    var value: Value

    /** An empty object. */
    constructor ()
      ensures value == EmptyValue
    {
      value := EmptyValue;
    }

    /** A copy of an object holding `v`. */
    constructor Of(v: Value)
      ensures value == v
    {
      value := v;
    }

    /**
     * The templated constructors, from a concrete object of type `t` or from
     * no object at all: the type is `t`, unless there is no object, which
     * makes the object empty.
     */
    constructor Holding(t: Type, impl: Option<Value>)
      requires t != Empty && (impl.Some? ==> TypeOf(impl.value) == t)
      ensures TypeOf(value) == (if impl.None? then Empty else t)
      ensures Cast(value, t) == impl
    {
      if impl.None? {
        value := EmptyValue;
      } else {
        value := impl.value;
      }
    }

    method GetType() returns (t: Type)
      ensures t == TypeOf(value)
      ensures t == Empty <==> value == EmptyValue
    {
      t := TypeOf(value);
    }

    /**
     * The type id and the payload are written to a `StringFile` first; then
     * the length, cast to `unsigned int`, and that many bytes of it go to the
     * file. When either does not fit, the position goes back to where it was.
     */
    method Serialize(file: File, order: HostOrder) returns (ok: bool)
      modifies file
      ensures ok == Fits(old(file.State()), file.capacity, ObjectBytes(value, order))
      ensures file.State() == Framed(old(file.State()), file.capacity, ObjectBytes(value, order))
      decreases value, 4
    {
      ghost var c := file.State();
      var startingPosition := file.GetPosition();
      var objectString := ObjectBody(value, order);
      var n := ToU32(|objectString|);
      ghost var whole := ObjectBytes(value, order);
      ObjectBytesParts(value, order, objectString, n);
      FramedParts(c, file.capacity, UVarint(n), objectString[..n]);
      var length := new SerializedUnsignedInteger(n);
      ok := length.Serialize(file);
      if !ok {
        file.SetPosition(startingPosition);
        assert file.State() == Framed(c, file.capacity, whole);
        return;
      }
      var count := file.Write(objectString[..n]);
      if count != n {
        file.SetPosition(startingPosition);
        assert file.State() == Framed(c, file.capacity, whole);
        return false;
      }
      assert file.State() == Framed(c, file.capacity, whole);
    }

    /**
     * The length, then the type id. The id `e` makes the object empty at once.
     * Another known id reads a fresh concrete object, which must end exactly
     * where the length says; in every other case the position moves to that
     * end, the call fails and the object is left as it was.
     */
    method Deserialize(file: File, order: HostOrder) returns (ok: bool)
      modifies this, file
      ensures file.data == old(file.data)
      ensures var r := ObjectAt(old(file.data), old(file.pos), order);
        ok == r.ok && file.pos == r.next && value == (if ok then r.value else old(value))
      decreases Left(file), 3
    {
      ghost var data, pos := file.data, file.pos;
      ObjectAtHeaderFails(data, pos, order);
      var length;
      ok, length := ReadCount(file);
      if !ok {
        return;
      }
      var startingPosition := file.GetPosition();
      var typeId := new SerializedString([]);
      ok := typeId.Deserialize(file);
      if !ok {
        return;
      }
      var t := TypeOfId(typeId.value);
      var skip := ToU64(startingPosition + length);
      ghost var p2 := file.pos;
      ObjectAtRead(data, pos, order, length, startingPosition, typeId.value, p2, skip, t, TypedAt(t, data, p2, skip, order));
      if t == Some(Empty) {
        value := EmptyValue;
        return true;
      }
      TypedSkips(t, data, p2, skip, order, if t.Some? then t.value else Boolean);
      if t.Some? {
        var v;
        ok, v := ReadPayload(t.value, file, order);
        if ok && file.pos == skip {
          value := v;
          return;
        }
      }
      file.SetPosition(skip);
      ok := false;
    }
  }

  /**
   * The first half of `SerializedObject::Serialize`: the type id and then the
   * payload, written to a fresh `StringFile`.
   */
  method ObjectBody(v: Value, order: HostOrder) returns (objectString: seq<Byte>)
    ensures objectString == Body(v, order)
    decreases v, 3
  {
    var typeId := new SerializedString(TypeId(TypeOf(v)));
    var objectStringFile := new File([], None);
    var written := typeId.Serialize(objectStringFile);
    FreshPut(StringBytes(TypeId(TypeOf(v))));
    if v != EmptyValue {
      ghost var c1 := objectStringFile.State();
      written := WritePayload(v, objectStringFile, order);
      PayloadWrittenUnbounded(c1, v, order);
      PutThen(Cursor([], 0), None, StringBytes(TypeId(TypeOf(v))), PayloadBytes(v, order));
      FreshPut(Body(v, order));
    }
    objectString := objectStringFile.data;
  }

  /** The body a `StringFile` collects, cut to the length written before it, is what follows the length. */
  lemma ObjectBytesParts(v: Value, order: HostOrder, body: seq<Byte>, n: nat)
    requires body == Body(v, order) && n == ToU32(|body|)
    ensures n <= |body| && ObjectBytes(v, order) == UVarint(n) + body[..n]
  {
    ToU32Below(|body|);
  }

  /**
   * A frame written in two parts and abandoned when either part does not
   * fit: the position goes back, the bytes that fit stay.
   */
  lemma FramedParts(c: Cursor, capacity: Option<nat>, a: seq<Byte>, b: seq<Byte>)
    ensures !Fits(c, capacity, a) ==>
      !Fits(c, capacity, a + b) && Framed(c, capacity, a + b) == Cursor(Put(c, capacity, a).data, c.pos)
    ensures Fits(c, capacity, a) ==>
      var c1 := Put(c, capacity, a);
      (Fits(c1, capacity, b) <==> Fits(c, capacity, a + b))
      && Framed(c, capacity, a + b) == (if Fits(c1, capacity, b) then Put(c1, capacity, b) else Cursor(Put(c1, capacity, b).data, c.pos))
  {
    PutEither(c, capacity, a, b);
  }

  /** The concrete object's `Serialize`, which for an empty object is not called. */
  method WritePayload(v: Value, file: File, order: HostOrder) returns (ok: bool)
    requires v != EmptyValue
    modifies file
    ensures ok == Fits(old(file.State()), file.capacity, PayloadBytes(v, order))
    ensures file.State() == PayloadWritten(old(file.State()), file.capacity, v, order)
    decreases v, 2
  {
    match v
    case VectorValue(items) =>
      var o := new SerializedVector(items);
      ok := o.Serialize(file, order);
    case CollectionValue(es) =>
      ok := WriteCollection(file, es, order);
    case BooleanValue(_) | IntegerValue(_) | UnsignedIntegerValue(_) | DecimalValue(_) | StringValue(_)
      | IpAddressValue(_) | IntegerVectorValue(_) | UnsignedIntegerVectorValue(_) =>
      ok := WriteLeafPayload(v, file, order);
  }

  /** `Serialize` of a concrete object that holds no other objects: one write of its payload. */
  method WriteLeafPayload(v: Value, file: File, order: HostOrder) returns (ok: bool)
    requires !v.EmptyValue? && !v.VectorValue? && !v.CollectionValue?
    modifies file
    ensures ok == Fits(old(file.State()), file.capacity, PayloadBytes(v, order))
    ensures file.State() == Put(old(file.State()), file.capacity, PayloadBytes(v, order))
  {
    match v
    case BooleanValue(b) =>
      var o := new SerializedBoolean(b);
      ok := o.Serialize(file);
    case IntegerValue(i) =>
      var o := new SerializedInteger(i);
      ok := o.Serialize(file);
    case UnsignedIntegerValue(u) =>
      var o := new SerializedUnsignedInteger(u);
      ok := o.Serialize(file);
    case DecimalValue(raw) =>
      var written := file.Write(raw);
      ok := written == |raw|;
    case StringValue(s) =>
      var o := new SerializedString(s);
      ok := o.Serialize(file);
    case IpAddressValue(a) =>
      var o := new SerializedIpAddress(a);
      ok := o.Serialize(file, order);
    case IntegerVectorValue(xs) =>
      var o := new SerializedIntegerVector(xs);
      ok := o.Serialize(file);
    case UnsignedIntegerVectorValue(xs) =>
      var o := new SerializedUnsignedIntegerVector(xs);
      ok := o.Serialize(file);
  }

  /** A fresh concrete object of type `t` and its `Deserialize`. */
  method ReadPayload(t: Type, file: File, order: HostOrder) returns (ok: bool, v: Value)
    requires t != Empty
    modifies file
    ensures file.data == old(file.data)
    ensures var p := PayloadAt(t, old(file.data), old(file.pos), order);
      ok == p.ok && file.pos == p.next && (ok ==> v == p.value)
    decreases Left(file), 2
  {
    match t
    case Boolean =>
      var o := new SerializedBoolean(false);
      ok := o.Deserialize(file);
      v := BooleanValue(o.value);
    case Integer =>
      var i;
      ok, i := ReadSignedElement(file);
      v := IntegerValue(i);
    case UnsignedInteger =>
      var u;
      ok, u := ReadCount(file);
      v := UnsignedIntegerValue(u);
    case Decimal =>
      var raw := file.Read(8);
      ok := |raw| == 8;
      v := DecimalValue(raw);
    case String =>
      var o := new SerializedString([]);
      ok := o.Deserialize(file);
      v := StringValue(o.value);
    case Vector =>
      var o := new SerializedVector([]);
      ok := o.Deserialize(file, order);
      v := VectorValue(o.value);
    case Collection =>
      var o := new SerializedCollection([]);
      ok := o.Deserialize(file, order);
      v := CollectionValue(o.entries);
    case IpAddress =>
      ghost var bs := Available(file.data, file.pos, 4);
      var o := new SerializedIpAddress(0);
      ok := o.Deserialize(file, order);
      if ok {
        assert bs + HostBytes(0, order)[|bs|..] == bs;
      }
      v := IpAddressValue(o.value);
    case IntegerVector =>
      var o := new SerializedIntegerVector([]);
      ok := o.Deserialize(file);
      v := IntegerVectorValue(o.value);
    case UnsignedIntegerVector =>
      var o := new SerializedUnsignedIntegerVector([]);
      ok := o.Deserialize(file);
      v := UnsignedIntegerVectorValue(o.value);
  }

  // ---------------------------------------------------------------- SerializedVector

  /** `value.Serialize(&valueSerialized)` on a fresh `StringFile`, as `Add` and `Remove` compare objects. */
  method ObjectString(v: Value, order: HostOrder) returns (bs: seq<Byte>)
    ensures bs == ObjectBytes(v, order)
  {
    var o := new SerializedObject.Of(v);
    var valueSerialized := new File([], None);
    var ok := o.Serialize(valueSerialized, order);
    FreshPut(ObjectBytes(v, order));
    bs := valueSerialized.data;
  }

  /** Whether an object of `items` serializes to `bs`: how `Add` and `Remove` tell objects apart. */
  predicate Holds(items: seq<Value>, bs: seq<Byte>, order: HostOrder)
  {
    exists i :: 0 <= i < |items| && ObjectBytes(items[i], order) == bs
  }

  /** `Add`: `v` goes at the end unless an object that serializes the same way is already there. */
  function Added(items: seq<Value>, v: Value, order: HostOrder): seq<Value>
  {
    if Holds(items, ObjectBytes(v, order), order) then items else items + [v]
  }

  /** `Remove`: every object that serializes as `bs` goes, and the others keep their order. */
  function Without(items: seq<Value>, bs: seq<Byte>, order: HostOrder): seq<Value>
  {
    if items == [] then []
    else
      var last := items[|items| - 1];
      Without(items[..|items| - 1], bs, order) + (if ObjectBytes(last, order) == bs then [] else [last])
  }

  /** After `Add` the vector holds `v`, and adding it again changes nothing. */
  lemma AddedHolds(items: seq<Value>, v: Value, order: HostOrder)
    ensures Holds(Added(items, v, order), ObjectBytes(v, order), order)
    ensures Added(Added(items, v, order), v, order) == Added(items, v, order)
  {
    if !Holds(items, ObjectBytes(v, order), order) {
      var r := items + [v];
      assert r[|items|] == v;
    }
  }

  /** After `Remove` no object that serializes as `bs` is left. */
  lemma {:induction false} WithoutGone(items: seq<Value>, bs: seq<Byte>, order: HostOrder)
    ensures !Holds(Without(items, bs, order), bs, order)
    decreases |items|
  {
    if items != [] {
      var init := items[..|items| - 1];
      var last := items[|items| - 1];
      WithoutGone(init, bs, order);
      var w := Without(init, bs, order);
      var tail: seq<Value> := if ObjectBytes(last, order) == bs then [] else [last];
      forall i | 0 <= i < |w + tail|
        ensures ObjectBytes((w + tail)[i], order) != bs
      {
        if i >= |w| {
          assert (w + tail)[i] == last;
        } else {
          assert (w + tail)[i] == w[i];
        }
      }
    }
  }

  /** `Remove` keeps every object that does not serialize as `bs`, in order: with none to remove it changes nothing. */
  lemma {:induction false} WithoutNothing(items: seq<Value>, bs: seq<Byte>, order: HostOrder)
    requires !Holds(items, bs, order)
    ensures Without(items, bs, order) == items
    decreases |items|
  {
    if items != [] {
      var init, last := items[..|items| - 1], items[|items| - 1];
      NotHeldSplit(items, bs, order);
      WithoutNothing(init, bs, order);
      WithoutSnoc(init, last, bs, order);
      assert init + [last] == items;
    }
  }

  lemma NotHeldSplit(items: seq<Value>, bs: seq<Byte>, order: HostOrder)
    requires !Holds(items, bs, order) && items != []
    ensures !Holds(items[..|items| - 1], bs, order) && ObjectBytes(items[|items| - 1], order) != bs
  {
    assert forall i :: 0 <= i < |items| - 1 ==> items[..|items| - 1][i] == items[i];
  }

  /** `Without` of one more object at the end. */
  lemma WithoutSnoc(init: seq<Value>, last: Value, bs: seq<Byte>, order: HostOrder)
    ensures Without(init + [last], bs, order) == Without(init, bs, order) + (if ObjectBytes(last, order) == bs then [] else [last])
  {
    assert (init + [last])[..|init|] == init;
  }

  /** One step of `Remove`'s loop, with `kept` the objects kept of the first `m` and `value` the vector so far. */
  lemma RemoveStep(original: seq<Value>, m: nat, kept: seq<Value>, value: seq<Value>, bs: seq<Byte>, order: HostOrder)
    requires m < |original| && kept == Without(original[..m], bs, order) && value == kept + original[m..]
    ensures |kept| < |value| && value[|kept|] == original[m]
    ensures ObjectBytes(original[m], order) == bs ==>
      Without(original[..m + 1], bs, order) == kept && value[..|kept|] + value[|kept| + 1..] == kept + original[m + 1..]
    ensures ObjectBytes(original[m], order) != bs ==>
      Without(original[..m + 1], bs, order) == kept + [original[m]] && value == (kept + [original[m]]) + original[m + 1..]
  {
    assert original[..m + 1][..m] == original[..m];
    assert original[m..] == [original[m]] + original[m + 1..];
    assert value[..|kept|] == kept && value[|kept| + 1..] == original[m + 1..];
  }

  /**
   * The state of the loop of `SerializedVector::Remove` after `m` objects of
   * `original`: `kept` of them are kept, at the front of `items`, and `i`
   * points past them.
   */
  ghost predicate Removing(original: seq<Value>, valueString: seq<Byte>, order: HostOrder, m: nat,
                           kept: seq<Value>, items: seq<Value>, i: nat)
  {
    && m <= |original| && kept == Without(original[..m], valueString, order)
    && i == |kept| && items == kept + original[m..] && |items| - i == |original| - m
  }

  /** The loop of `SerializedVector::Remove`: every object that serializes to `valueString` is erased. */
  method RemoveMatching(original: seq<Value>, valueString: seq<Byte>, order: HostOrder) returns (items: seq<Value>)
    ensures items == Without(original, valueString, order)
  {
    items := original;
    ghost var m: nat := 0;
    ghost var kept: seq<Value> := [];
    var i: nat := 0;
    while i < |items|
      invariant Removing(original, valueString, order, m, kept, items, i)
      decreases |original| - m
    {
      items, i, kept := RemoveTurn(items, i, valueString, order, original, m, kept);
      m := m + 1;
    }
    assert original[..|original|] == original;
  }

  /**
   * One turn of the loop of `SerializedVector::Remove`: the object at `i` is
   * erased when it serializes to `valueString`, and stepped over otherwise.
   */
  method RemoveTurn(items: seq<Value>, i: nat, valueString: seq<Byte>, order: HostOrder,
                    ghost original: seq<Value>, ghost m: nat, ghost kept: seq<Value>)
    returns (next: seq<Value>, j: nat, ghost kept': seq<Value>)
    requires Removing(original, valueString, order, m, kept, items, i) && m < |original|
    ensures Removing(original, valueString, order, m + 1, kept', next, j)
  {
    var other := items[i];
    RemoveStep(original, m, kept, items, valueString, order);
    var otherValueString := ObjectString(other, order);
    if otherValueString == valueString {
      next, j, kept' := items[..i] + items[i + 1..], i, kept;
    } else {
      next, j, kept' := items, i + 1, kept + [other];
    }
  }

  /** `Remove` undoes an `Add` that added. */
  lemma RemoveUndoesAdd(items: seq<Value>, v: Value, order: HostOrder)
    requires !Holds(items, ObjectBytes(v, order), order)
    ensures Without(Added(items, v, order), ObjectBytes(v, order), order) == items
  {
    var r := items + [v];
    assert r[..|r| - 1] == items;
    WithoutNothing(items, ObjectBytes(v, order), order);
  }

  /** `|UVarint(v)|` does not outgrow `v + 1`. */
  lemma {:induction false} ChainLength(v: nat, flag: nat)
    requires flag == 0 || flag == 0x80
    ensures |Chain(v, flag)| <= v + 1
    decreases v
  {
    if v >= 128 {
      ChainLength(v / 128, 0x80);
    }
  }

  /** Values that serialize without loss serialize differently: the bytes `Add` compares tell them apart. */
  lemma ObjectBytesInjective(a: Value, b: Value, order: HostOrder)
    requires WellFormed(a, order) && WellFormed(b, order)
    requires ObjectBytes(a, order) == ObjectBytes(b, order)
    ensures a == b
  {
    var data := ObjectBytes(a, order);
    ChainLength(ToU32(|Body(a, order)|), 0);
    assert |data| <= U64_MAX;
    assert Stored(data, 0, data);
    ObjectStored(data, 0, a, order);
    ObjectStored(data, 0, b, order);
  }

  /** Among values that serialize without loss, `Add` and `Remove` compare objects as values. */
  lemma HoldsMember(items: seq<Value>, v: Value, order: HostOrder)
    requires WellFormed(v, order) && forall i :: 0 <= i < |items| ==> WellFormed(items[i], order)
    ensures Holds(items, ObjectBytes(v, order), order) <==> v in items
  {
    if Holds(items, ObjectBytes(v, order), order) {
      var i :| 0 <= i < |items| && ObjectBytes(items[i], order) == ObjectBytes(v, order);
      ObjectBytesInjective(items[i], v, order);
    }
    if v in items {
      var i :| 0 <= i < |items| && items[i] == v;
    }
  }

  /** `SerializedVector` (src/SerializedVector.cpp): a `std::vector` of objects. */
  class SerializedVector {
    var value: seq<Value>

    constructor (initialValue: seq<Value>)
      ensures value == initialValue
    {
      value := initialValue;
    }

    method GetLength() returns (n: nat)
      ensures n == |value|
    {
      n := |value|;
    }

    /** `operator[]`, read as a copy. */
    method Get(index: nat) returns (o: Value)
      requires index < |value|
      ensures o == value[index]
    {
      o := value[index];
    }

    method Insert(v: Value, index: nat)
      requires index <= |value|
      modifies this
      ensures |value| == |old(value)| + 1 && value[index] == v
      ensures value[..index] == old(value)[..index] && value[index + 1..] == old(value)[index..]
    {
      value := value[..index] + [v] + value[index..];
    }

    method Append(v: Value)
      modifies this
      ensures value == old(value) + [v]
    {
      value := value + [v];
    }

    method Delete(index: nat)
      requires index < |value|
      modifies this
      ensures |value| == |old(value)| - 1
      ensures value[..index] == old(value)[..index] && value[index..] == old(value)[index + 1..]
    {
      value := value[..index] + value[index + 1..];
    }

    method Replace(index: nat, v: Value)
      requires index < |value|
      modifies this
      ensures value == old(value)[index := v]
    {
      value := value[index := v];
    }

    /**
     * Looks for an object that serializes as `v` does and appends `v` only
     * when there is none.
     */
    method Add(v: Value, order: HostOrder)
      modifies this
      ensures value == Added(old(value), v, order)
    {
      var valueString := ObjectString(v, order);
      var i := 0;
      while i < |value|
        invariant value == old(value) && i <= |value|
        invariant forall k :: 0 <= k < i ==> ObjectBytes(value[k], order) != valueString
      {
        var otherValueString := ObjectString(value[i], order);
        if otherValueString == valueString {
          break;
        }
        i := i + 1;
      }
      if i == |value| {
        value := value + [v];
      }
    }

    /** Erases every object that serializes as `v` does; the others keep their order. */
    method Remove(v: Value, order: HostOrder)
      modifies this
      ensures value == Without(old(value), ObjectBytes(v, order), order)
    {
      var valueString := ObjectString(v, order);
      value := RemoveMatching(value, valueString, order);
    }

    /**
     * The count cast to `unsigned int`, then each object; the first that does
     * not fit ends it.
     */
    method Serialize(file: File, order: HostOrder) returns (ok: bool)
      modifies file
      ensures ok == Fits(old(file.State()), file.capacity, PayloadBytes(VectorValue(value), order))
      ensures file.State() == VectorWritten(old(file.State()), file.capacity, value, order)
      decreases VectorValue(value), 1, 1
    {
      ghost var c := file.State();
      var items := value;
      ghost var head := UVarint(ToU32(|items|));
      ghost var enc := ObjectEncoder(order);
      ghost var whole := PayloadBytes(VectorValue(items), order);
      VectorParts(c, file.capacity, items, order);
      var numSerializedObjects := new SerializedUnsignedInteger(ToU32(|items|));
      ok := numSerializedObjects.Serialize(file);
      if !ok {
        PutCut(c, file.capacity, head, items, 0, enc);
        assert ok == Fits(c, file.capacity, whole);
        return;
      }
      ok := WriteObjects(file, items, order, c, head);
    }

    /**
     * The count, then the vector resized to it and each object deserialized
     * in place; the counter is an `unsigned int`, and a failure returns at once.
     */
    method Deserialize(file: File, order: HostOrder) returns (ok: bool)
      modifies this, file
      ensures file.data == old(file.data)
      ensures Got(ok, value, file.pos) == ObjectVectorAt(old(file.data), old(file.pos), old(value), order)
      decreases Left(file), 1
    {
      ghost var data, start := file.data, file.pos;
      ghost var target := ObjectVectorAt(data, start, value, order);
      var numSerializedObjects;
      ok, numSerializedObjects := ReadCount(file);
      if !ok {
        return;
      }
      ghost var at := ObjectReader(order);
      ObjectReaderReads(order);
      VectorLoopIsVectorAt(data, start, value, order, at);
      value := Resized(value, numSerializedObjects, EmptyValue);
      var i: nat := 0;
      while i < numSerializedObjects
        invariant file.data == data && start < file.pos <= |data|
        invariant i <= U32_MAX && |value| == numSerializedObjects
        invariant VectorLoop(data, file.pos, value, i, at) == target
        decreases |data| - file.pos
      {
        VectorLoopStep(data, file.pos, value, i, at);
        var element := new SerializedObject.Of(value[i]);
        ok := element.Deserialize(file, order);
        if !ok {
          return;
        }
        value := value[i := element.value];
        i := Step32(i);
      }
    }

    /**
     * Text that is not bracketed by square brackets once trimmed is refused
     * and leaves the vector alone; otherwise the vector is cleared and
     * refilled by the loop, which keeps the objects pushed before a failure.
     */
    method Parse(rendering: Text, elementEnd: (Text, nat, nat) -> nat, parse: Text -> Option<Value>) returns (ok: bool)
      requires ScansElements(elementEnd) && parse([]) == None
      modifies this
      ensures match VectorParse(rendering, elementEnd, parse)
        case None => !ok && value == old(value)
        case Some(p) => ok == p.ok && value == p.items
    {
      var t := Trim(rendering);
      if |t| < 2 || t[0] != '[' || t[|t| - 1] != ']' {
        return false;
      }
      ghost var target := VectorParseFrom(t, elementEnd, parse, 1, []);
      assert VectorParse(rendering, elementEnd, parse) == Some(target);
      var items := [];
      var i := 1;
      var end := |t| - 1;
      while i < end
        invariant 1 <= i <= end
        invariant VectorParseFrom(t, elementEnd, parse, i, items) == target
        decreases end - i
      {
        ok, items, i := PushElement(t, i, items, elementEnd, parse);
        if !ok {
          value := items;
          return;
        }
      }
      value := items;
      ok := true;
    }

    /** `value_ == other.value_`: the objects compared one by one with `==`. */
    method IsEqualTo(other: SerializedVector) returns (eq: bool)
      ensures eq <==> value == other.value
    {
      EqualIsSame(VectorValue(value), VectorValue(other.value));
      eq := Equal(VectorValue(value), VectorValue(other.value));
    }
  }

  // ---------------------------------------------------------------- Parse

  /**
   * What the model takes from `SystemAbstractions::ParseElement(t, i, end)`:
   * where the element that starts at `i` ends, which is never before `i` nor
   * beyond `end`.
   */
  ghost predicate ScansElements(elementEnd: (Text, nat, nat) -> nat)
  {
    forall t: Text, i: nat, end: nat ::
      i <= end ==> i <= elementEnd(t, i, end) <= end
  }

  /**
   * `SerializedVector::Parse`: after trimming, the text must be bracketed by
   * `[` and `]` (else `None`: the vector is left alone); then the vector is
   * cleared and refilled by the loop.
   */
  function VectorParse(rendering: Text, elementEnd: (Text, nat, nat) -> nat, parse: Text -> Option<Value>): (r: Option<Parsed<Value>>)
    requires ScansElements(elementEnd) && parse([]) == None
    ensures r == None <==> var t := Trim(rendering); |t| < 2 || t[0] != '[' || t[|t| - 1] != ']'
  {
    var t := Trim(rendering);
    if |t| < 2 || t[0] != '[' || t[|t| - 1] != ']' then None
    else Some(VectorParseFrom(t, elementEnd, parse, 1, []))
  }

  /**
   * The loop of `SerializedVector::Parse` from position `i`: each element is
   * trimmed and parsed by a fresh object (`parse`), a comma after it is
   * stepped over, and an element that fails stops the loop with the objects
   * pushed so far.
   */
  function VectorParseFrom(t: Text, elementEnd: (Text, nat, nat) -> nat, parse: Text -> Option<Value>, i: nat, pushed: seq<Value>): (r: Parsed<Value>)
    requires |t| >= 2 && t[|t| - 1] == ']' && 1 <= i <= |t| - 1
    requires ScansElements(elementEnd) && parse([]) == None
    decreases |t| - i
  {
    var end := |t| - 1;
    if i >= end then Parsed(true, pushed)
    else
      var j := elementEnd(t, i, end);
      assert i == j ==> t[i..j] == [];
      match parse(Trim(t[i..j]))
      case None => Parsed(false, pushed)
      case Some(x) =>
        VectorParseFrom(t, elementEnd, parse, if t[j] == ',' then j + 1 else j, pushed + [x])
  }

  /**
   * A turn of the loop of `SerializedVector::Parse`: the element from `i` is
   * trimmed and parsed by a fresh object, pushed, and a comma after it is
   * stepped over.
   */
  method PushElement(t: Text, i: nat, items: seq<Value>, elementEnd: (Text, nat, nat) -> nat, parse: Text -> Option<Value>)
    returns (ok: bool, pushed: seq<Value>, next: nat)
    requires |t| >= 2 && t[|t| - 1] == ']' && 1 <= i < |t| - 1
    requires ScansElements(elementEnd) && parse([]) == None
    ensures i < next <= |t| - 1 || !ok
    ensures VectorParseFrom(t, elementEnd, parse, i, items)
            == if ok then VectorParseFrom(t, elementEnd, parse, next, pushed) else Parsed(false, pushed)
  {
    var end := |t| - 1;
    var element := t[i..elementEnd(t, i, end)];
    var obj := parse(Trim(element));
    var j := i + |element|;
    VectorParseTurn(t, elementEnd, parse, i, items, j, obj);
    if obj.None? {
      return false, items, i;
    }
    pushed := items + [obj.value];
    if t[j] == ',' {
      next := j + 1;
    } else {
      next := j;
    }
    ok := true;
  }

  /** One turn of the loop of `SerializedVector::Parse`: the element from `i` to `j` fails, or is pushed and the loop goes on after it. */
  lemma VectorParseTurn(t: Text, elementEnd: (Text, nat, nat) -> nat, parse: Text -> Option<Value>, i: nat, pushed: seq<Value>,
                        j: nat, x: Option<Value>)
    requires |t| >= 2 && t[|t| - 1] == ']' && 1 <= i < |t| - 1
    requires ScansElements(elementEnd) && parse([]) == None
    requires j == elementEnd(t, i, |t| - 1) && x == parse(Trim(t[i..j]))
    ensures i <= j <= |t| - 1
    ensures VectorParseFrom(t, elementEnd, parse, i, pushed)
      == if x.None? then Parsed(false, pushed) else VectorParseFrom(t, elementEnd, parse, if t[j] == ',' then j + 1 else j, pushed + [x.value])
  {
  }

  /** The first `:` at or after `i`, or the closing brace: where a key ends. */
  function KeyEnd(t: Text, i: nat): (j: nat)
    requires i < |t|
    ensures i <= j <= |t| - 1 && (j < |t| - 1 ==> t[j] == ':')
    decreases |t| - i
  {
    if i == |t| - 1 || t[i] == ':' then i else KeyEnd(t, i + 1)
  }

  /** The inner loop of `SerializedCollection::Parse`: `j` moves from `i` to the first `:` or the closing brace. */
  method ScanKey(t: Text, i: nat) returns (j: nat)
    requires i < |t|
    ensures j == KeyEnd(t, i)
  {
    j := i;
    while j < |t| - 1 && t[j] != ':'
      invariant i <= j <= |t| - 1 && KeyEnd(t, j) == KeyEnd(t, i)
    {
      j := j + 1;
    }
  }

  /**
   * The start of a turn of the loop of `SerializedCollection::Parse`: the key
   * from `i` up to the first `:` (or the closing brace), trimmed, and where the
   * text goes on after it.
   */
  method ReadKey(t: Text, i: nat, ghost elementEnd: (Text, nat, nat) -> nat, ghost parse: Text -> Option<Value>,
                 ghost got: seq<Entry<Value>>) returns (key: Text, next: nat, colon: bool)
    requires |t| >= 2 && t[|t| - 1] == '}' && 1 <= i < |t| - 1 && Ascending(got)
    requires ScansElements(elementEnd) && parse([]) == None
    ensures i < next <= |t| - 1 && (colon ==> 2 <= next)
    ensures CollectionParseFrom(t, elementEnd, parse, i, got)
            == if !colon && key != [] then Parsed(false, got)
               else if key == [] then CollectionParseFrom(t, elementEnd, parse, next, got)
               else ElementParsed(t, elementEnd, parse, key, next, got)
  {
    var j := ScanKey(t, i);
    key := Trim(t[i..j]);
    colon := t[j] == ':';
    next := if colon then j + 1 else j;
  }

  /** No `:` comes before the end of the key, so the key is cut at the first one. */
  lemma {:induction false} KeyEndFirst(t: Text, i: nat)
    requires i < |t|
    ensures forall k :: i <= k < KeyEnd(t, i) ==> t[k] != ':'
    decreases |t| - i
  {
    if i < |t| - 1 && t[i] != ':' {
      KeyEndFirst(t, i + 1);
    }
  }

  /**
   * `SerializedCollection::Parse`: after trimming, the text must be bracketed
   * by `{` and `}` (else `None`: the collection is left alone); then the
   * collection is cleared and refilled by the loop.
   */
  function CollectionParse(rendering: Text, elementEnd: (Text, nat, nat) -> nat, parse: Text -> Option<Value>): (r: Option<Parsed<Entry<Value>>>)
    requires ScansElements(elementEnd) && parse([]) == None
    ensures r == None <==> var t := Trim(rendering); |t| < 2 || t[0] != '{' || t[|t| - 1] != '}'
    ensures r.Some? ==> Ascending(r.value.items)
  {
    var t := Trim(rendering);
    if |t| < 2 || t[0] != '{' || t[|t| - 1] != '}' then None
    else Some(CollectionParseFrom(t, elementEnd, parse, 1, []))
  }

  /**
   * The loop of `SerializedCollection::Parse` from position `i`: the key runs
   * to the next `:` (`KeyParsed`), and the element after it is parsed and
   * stored under the key (`ElementParsed`). A failure stops the loop with the
   * entries stored so far.
   */
  function CollectionParseFrom(t: Text, elementEnd: (Text, nat, nat) -> nat, parse: Text -> Option<Value>, i: nat,
                               got: seq<Entry<Value>>): (r: Parsed<Entry<Value>>)
    requires |t| >= 2 && t[|t| - 1] == '}' && 1 <= i <= |t| - 1 && Ascending(got)
    requires ScansElements(elementEnd) && parse([]) == None
    ensures Ascending(r.items)
    decreases |t| - i, 2
  {
    if i >= |t| - 1 then Parsed(true, got)
    else KeyParsed(t, elementEnd, parse, i, KeyEnd(t, i), got)
  }

  /**
   * The key from `i` to `j`, trimmed: a key with no `:` after it fails, an
   * empty key is skipped, and otherwise its element is parsed after the `:`.
   */
  function KeyParsed(t: Text, elementEnd: (Text, nat, nat) -> nat, parse: Text -> Option<Value>, i: nat, j: nat,
                     got: seq<Entry<Value>>): (r: Parsed<Entry<Value>>)
    requires |t| >= 2 && t[|t| - 1] == '}' && 1 <= i < |t| - 1 && j == KeyEnd(t, i) && Ascending(got)
    requires ScansElements(elementEnd) && parse([]) == None
    ensures Ascending(r.items)
    decreases |t| - i, 1
  {
    var key := Trim(t[i..j]);
    if t[j] != ':' && key != [] then Parsed(false, got)
    else if key == [] then CollectionParseFrom(t, elementEnd, parse, if t[j] == ':' then j + 1 else j, got)
    else ElementParsed(t, elementEnd, parse, key, j + 1, got)
  }

  /**
   * The element from `i`, trimmed and parsed by a fresh object (`parse`) and
   * stored under `key`; a comma after it is stepped over.
   */
  function ElementParsed(t: Text, elementEnd: (Text, nat, nat) -> nat, parse: Text -> Option<Value>, key: Text, i: nat,
                         got: seq<Entry<Value>>): (r: Parsed<Entry<Value>>)
    requires |t| >= 2 && t[|t| - 1] == '}' && 2 <= i <= |t| - 1 && Ascending(got)
    requires ScansElements(elementEnd) && parse([]) == None
    ensures Ascending(r.items)
    decreases |t| - i + 1, 0
  {
    var k := elementEnd(t, i, |t| - 1);
    match parse(Trim(t[i..k]))
    case None => Parsed(false, got)
    case Some(x) => CollectionParseFrom(t, elementEnd, parse, if t[k] == ',' then k + 1 else k, Assign(got, key, x))
  }

  // ---------------------------------------------------------------- SerializedCollection

  /** An `erase` of a key that is not there changes nothing. */
  lemma {:induction false} EraseAbsent(es: seq<Entry<Value>>, name: Text)
    requires Ascending(es) && Find(es, name).None?
    ensures Erase(es, name) == es
    decreases |es|
  {
    if es != [] {
      AscendingTail(es);
      assert Find(es[1..], name).None?;
      EraseAbsent(es[1..], name);
    }
  }

  /**
   * The loop of `SerializedVector::Serialize` once the count `head` is written: the objects one
   * after the other, up to the first that does not fit.
   */
  method WriteObjects(file: File, items: seq<Value>, order: HostOrder, ghost c: Cursor, ghost head: seq<Byte>)
    returns (ok: bool)
    requires Fits(c, file.capacity, head) && file.State() == Put(c, file.capacity, head)
    modifies file
    ensures ok == Fits(c, file.capacity, head + Encoded(items, ObjectEncoder(order)))
    ensures file.State() == ObjectsWritten(Put(c, file.capacity, head), file.capacity, items, order)
    decreases VectorValue(items), 1, 0
  {
    ghost var enc := ObjectEncoder(order);
    NoElements(head, items, enc);
    ghost var c1 := file.State();
    ok := true;
    for k := 0 to |items|
      invariant Fits(c, file.capacity, head + Encoded(items[..k], enc))
      invariant file.State() == Put(c, file.capacity, head + Encoded(items[..k], enc))
      invariant ObjectsWritten(c1, file.capacity, items, order) == ObjectsWritten(file.State(), file.capacity, items[k..], order)
    {
      ok := SerializeElementAt(file, items, k, order, c, head, c1);
      if !ok {
        return;
      }
    }
    assert items[..|items|] == items;
  }

  /**
   * One turn of the object loop of `SerializedVector::Serialize`, after the
   * count and the first `k` objects were written whole: the object `k` is
   * written, and when it does not fit whole the write ends there.
   */
  method SerializeElementAt(file: File, items: seq<Value>, k: nat, order: HostOrder,
                            ghost c: Cursor, ghost head: seq<Byte>, ghost c1: Cursor) returns (ok: bool)
    requires k < |items|
    requires Fits(c, file.capacity, head + Encoded(items[..k], ObjectEncoder(order)))
    requires file.State() == Put(c, file.capacity, head + Encoded(items[..k], ObjectEncoder(order)))
    requires ObjectsWritten(c1, file.capacity, items, order) == ObjectsWritten(file.State(), file.capacity, items[k..], order)
    modifies file
    ensures ok ==> Fits(c, file.capacity, head + Encoded(items[..k + 1], ObjectEncoder(order)))
    ensures ok ==> file.State() == Put(c, file.capacity, head + Encoded(items[..k + 1], ObjectEncoder(order)))
    ensures ok ==> ObjectsWritten(c1, file.capacity, items, order) == ObjectsWritten(file.State(), file.capacity, items[k + 1..], order)
    ensures !ok ==> !Fits(c, file.capacity, head + Encoded(items, ObjectEncoder(order)))
    ensures !ok ==> file.State() == ObjectsWritten(c1, file.capacity, items, order)
    decreases VectorValue(items), 0
  {
    ghost var enc := ObjectEncoder(order);
    ObjectsWrittenStep(file.State(), file.capacity, items, k, order);
    PutElement(c, file.capacity, head, items, k, enc);
    ok := SerializeElement(file, items[k], order);
    if !ok {
      PutCut(c, file.capacity, head, items, k + 1, enc);
    }
  }

  /** An object of the vector, written framed by its own `Serialize`. */
  method SerializeElement(file: File, x: Value, order: HostOrder) returns (ok: bool)
    modifies file
    ensures ok == Fits(old(file.State()), file.capacity, ObjectBytes(x, order))
    ensures file.State() == Framed(old(file.State()), file.capacity, ObjectBytes(x, order))
    decreases x, 5
  {
    var serializedObject := new SerializedObject.Of(x);
    ok := serializedObject.Serialize(file, order);
  }

  /**
   * The loop of `SerializedCollection::Serialize` once the count `head` is written: the entries one
   * after the other, up to the first that does not fit.
   */
  method WriteEntries(file: File, es: seq<Entry<Value>>, order: HostOrder, ghost c: Cursor, ghost head: seq<Byte>)
    returns (ok: bool)
    requires Fits(c, file.capacity, head) && file.State() == Put(c, file.capacity, head)
    modifies file
    ensures ok == Fits(c, file.capacity, head + Encoded(es, EntryEncoder(order)))
    ensures file.State() == EntriesWritten(Put(c, file.capacity, head), file.capacity, es, order)
    decreases CollectionValue(es), 1, 0
  {
    ghost var enc := EntryEncoder(order);
    NoElements(head, es, enc);
    ghost var c1 := file.State();
    ok := true;
    for k := 0 to |es|
      invariant Fits(c, file.capacity, head + Encoded(es[..k], enc))
      invariant file.State() == Put(c, file.capacity, head + Encoded(es[..k], enc))
      invariant EntriesWritten(c1, file.capacity, es, order) == EntriesWritten(file.State(), file.capacity, es[k..], order)
    {
      ok := SerializeEntryAt(file, es, k, order, c, head, c1);
      if !ok {
        return;
      }
    }
    assert es[..|es|] == es;
  }

  /**
   * One turn of the entry loop of `SerializedCollection::Serialize`, after the
   * count and the first `k` entries were written whole: the entry `k` is
   * written, and when it does not fit whole the write ends there.
   */
  method SerializeEntryAt(file: File, es: seq<Entry<Value>>, k: nat, order: HostOrder,
                          ghost c: Cursor, ghost head: seq<Byte>, ghost c1: Cursor) returns (ok: bool)
    requires k < |es|
    requires Fits(c, file.capacity, head + Encoded(es[..k], EntryEncoder(order)))
    requires file.State() == Put(c, file.capacity, head + Encoded(es[..k], EntryEncoder(order)))
    requires EntriesWritten(c1, file.capacity, es, order) == EntriesWritten(file.State(), file.capacity, es[k..], order)
    modifies file
    ensures ok ==> Fits(c, file.capacity, head + Encoded(es[..k + 1], EntryEncoder(order)))
    ensures ok ==> file.State() == Put(c, file.capacity, head + Encoded(es[..k + 1], EntryEncoder(order)))
    ensures ok ==> EntriesWritten(c1, file.capacity, es, order) == EntriesWritten(file.State(), file.capacity, es[k + 1..], order)
    ensures !ok ==> !Fits(c, file.capacity, head + Encoded(es, EntryEncoder(order)))
    ensures !ok ==> file.State() == EntriesWritten(c1, file.capacity, es, order)
    decreases CollectionValue(es), 0
  {
    ghost var enc := EntryEncoder(order);
    EntriesWrittenStep(file.State(), file.capacity, es, k, order);
    PutElement(c, file.capacity, head, es, k, enc);
    ok := SerializeEntry(file, es[k], order);
    if !ok {
      PutCut(c, file.capacity, head, es, k + 1, enc);
    }
  }

  /**
   * An entry of the collection: the key as a `SerializedString`, then the
   * object; it fails as soon as a part does not fit.
   */
  method SerializeEntry(file: File, e: Entry<Value>, order: HostOrder) returns (ok: bool)
    modifies file
    ensures ok == Fits(old(file.State()), file.capacity, EntryEncoder(order)(e))
    ensures file.State() == if ok then Put(old(file.State()), file.capacity, EntryEncoder(order)(e))
                            else EntryWritten(old(file.State()), file.capacity, e, order)
    decreases e.value, 5
  {
    ghost var c := file.State();
    ghost var key, bs := StringBytes(e.name), ObjectBytes(e.value, order);
    var serializedKey := new SerializedString(e.name);
    ok := serializedKey.Serialize(file);
    if !ok {
      PutShort(c, file.capacity, key, bs);
      return;
    }
    PutThen(c, file.capacity, key, bs);
    var serializedObject := new SerializedObject.Of(e.value);
    ok := serializedObject.Serialize(file, order);
  }

  /** One turn of the loop of `SerializedCollection::Deserialize`: a key as a `SerializedString`, then an object. */
  method ReadEntry(file: File, order: HostOrder) returns (ok: bool, e: Entry<Value>)
    modifies file
    ensures file.data == old(file.data)
    ensures var r := EntryAt(old(file.data), old(file.pos), order);
      ok == r.ok && file.pos == r.next && (ok ==> e == r.value)
    decreases Left(file), 0
  {
    ghost var data, p := file.data, file.pos;
    EntryAtIs(data, p, order);
    var serializedKey := new SerializedString([]);
    ok := serializedKey.Deserialize(file);
    if !ok {
      return ok, Entry([], EmptyValue);
    }
    var serializedObject := new SerializedObject();
    ok := serializedObject.Deserialize(file, order);
    e := Entry(serializedKey.value, serializedObject.value);
  }

  /**
   * The body of `SerializedCollection::Serialize`: the count cast to `unsigned
   * int`, then each key as a `SerializedString` and its object; the first part
   * that does not fit ends it. Writing does not look at the key order, so an
   * object's payload is written from its entries as they stand.
   */
  method WriteCollection(file: File, es: seq<Entry<Value>>, order: HostOrder) returns (ok: bool)
    modifies file
    ensures ok == Fits(old(file.State()), file.capacity, PayloadBytes(CollectionValue(es), order))
    ensures file.State() == CollectionWritten(old(file.State()), file.capacity, es, order)
    decreases CollectionValue(es), 1, 1
  {
    ghost var c := file.State();
    ghost var head := UVarint(ToU32(|es|));
    ghost var enc := EntryEncoder(order);
    ghost var whole := PayloadBytes(CollectionValue(es), order);
    CollectionParts(c, file.capacity, es, order);
    var numSerializedObjects := new SerializedUnsignedInteger(ToU32(|es|));
    ok := numSerializedObjects.Serialize(file);
    if !ok {
      PutCut(c, file.capacity, head, es, 0, enc);
      assert ok == Fits(c, file.capacity, whole);
      return;
    }
    ok := WriteEntries(file, es, order, c, head);
  }

  /**
   * `SerializedCollection` (src/SerializedCollection.cpp): a `std::map` from
   * names to objects, kept as its entries in ascending key order.
   */
  class SerializedCollection {
    var entries: seq<Entry<Value>>

    predicate Valid()
      reads this
    {
      Ascending(entries)
    }

    /** From a `std::map`, whose entries are always in ascending key order. */
    constructor (initialValue: seq<Entry<Value>>)
      requires Ascending(initialValue)
      ensures entries == initialValue && Valid()
    {
      entries := initialValue;
    }

    method HasObject(name: Text) returns (has: bool)
      ensures has <==> exists i :: 0 <= i < |entries| && entries[i].name == name
    {
      has := Find(entries, name).Some?;
    }

    /** The object under `name`, or an empty object when there is none. */
    method GetObjectWrapper(name: Text) returns (o: Value)
      requires Valid()
      ensures forall i :: 0 <= i < |entries| && entries[i].name == name ==> o == entries[i].value
      ensures (forall i :: 0 <= i < |entries| ==> entries[i].name != name) ==> o == EmptyValue
    {
      match Find(entries, name)
      case None =>
        o := EmptyValue;
      case Some(v) =>
        forall i | 0 <= i < |entries| && entries[i].name == name
          ensures v == entries[i].value
        {
          FindAt(entries, i);
        }
        o := v;
    }

    /** `collection_[name] = value`. */
    method SetObject(name: Text, value: Value)
      requires Valid()
      modifies this
      ensures Valid() && entries == Assign(old(entries), name, value)
    {
      entries := Assign(entries, name, value);
    }

    /** Erases the entry under `name`, if there is one. */
    method RemoveObject(name: Text)
      requires Valid()
      modifies this
      ensures Valid() && entries == Erase(old(entries), name)
    {
      if Find(entries, name).None? {
        EraseAbsent(entries, name);
        return;
      }
      entries := Erase(entries, name);
    }

    /** The first entry into the out-parameters, which stay as they were when the collection is empty. */
    method GetFirstObject(name: Text, value: Value) returns (ok: bool, name': Text, value': Value)
      ensures ok <==> entries != []
      ensures ok ==> First(entries) == Some(Entry(name', value'))
      ensures !ok ==> name' == name && value' == value
    {
      match First(entries)
      case None =>
        return false, name, value;
      case Some(e) =>
        return true, e.name, e.value;
    }

    /**
     * The entry after the one under `name` into the out-parameters, which
     * stay as they were when `name` is not there or is the last key.
     */
    method GetNextObject(name: Text, value: Value) returns (ok: bool, name': Text, value': Value)
      ensures ok <==> exists i :: 0 <= i < |entries| - 1 && entries[i].name == name
      ensures ok ==> Next(entries, name) == Some(Entry(name', value'))
      ensures !ok ==> name' == name && value' == value
    {
      match Next(entries, name)
      case None =>
        return false, name, value;
      case Some(e) =>
        return true, e.name, e.value;
    }

    method GetSize() returns (n: nat)
      ensures n == |entries|
    {
      n := |entries|;
    }

    /**
     * `GetObject<T>(name)`: the object under `name` when it is there and of
     * type `t`, otherwise nothing.
     */
    method GetObject(t: Type, name: Text) returns (r: Option<Value>)
      requires t != Empty
      ensures r.Some? <==> Find(entries, name).Some? && TypeOf(Find(entries, name).value) == t
      ensures r.Some? ==> r == Find(entries, name)
    {
      var wrapper := EmptyValue;
      match Find(entries, name) {
        case None =>
        case Some(v) => wrapper := v;
      }
      r := Cast(wrapper, t);
    }

    /**
     * `GetObject<T>(name, defaultValue)`: as `GetObject<T>(name)`, but when
     * there is no object of type `t` under `name`, one holding the default is
     * stored there, replacing whatever was, and returned.
     */
    method GetObjectOrDefault(t: Type, name: Text, defaultValue: Value) returns (r: Value)
      requires Valid() && t != Empty && TypeOf(defaultValue) == t
      modifies this
      ensures Valid()
      ensures var o := Find(old(entries), name);
        if o.Some? && TypeOf(o.value) == t then r == o.value && entries == old(entries)
        else r == defaultValue && entries == Assign(old(entries), name, defaultValue)
      ensures Find(entries, name) == Some(r) && TypeOf(r) == t
    {
      var found := GetObject(t, name);
      if found.None? {
        var wrapper := new SerializedObject.Holding(t, Some(defaultValue));
        entries := Assign(entries, name, wrapper.value);
        return defaultValue;
      }
      r := found.value;
    }

    /**
     * `GetObjectValue<T>(name, defaultValue)`: the value of the object under
     * `name` when it is there and of type `t`, otherwise the default; the
     * collection is not changed.
     */
    method GetObjectValue(t: Type, name: Text, defaultValue: Value) returns (r: Value)
      requires t != Empty && TypeOf(defaultValue) == t
      ensures TypeOf(r) == t
      ensures Find(entries, name).Some? && TypeOf(Find(entries, name).value) == t ==> r == Find(entries, name).value
      ensures Find(entries, name).None? || TypeOf(Find(entries, name).value) != t ==> r == defaultValue
    {
      match Find(entries, name)
      case None =>
        return defaultValue;
      case Some(wrapper) =>
        match Cast(wrapper, t)
        case None =>
          return defaultValue;
        case Some(found) =>
          return found;
    }

    /** `SetObjectValue<T>(name, value)`: a new object of type `t` holding `value`, stored under `name`. */
    method SetObjectValue(t: Type, name: Text, value: Value)
      requires Valid() && t != Empty && TypeOf(value) == t
      modifies this
      ensures Valid() && entries == Assign(old(entries), name, value)
      ensures Find(entries, name) == Some(value)
    {
      var wrapper := new SerializedObject.Holding(t, Some(value));
      SetObject(name, wrapper.value);
    }

    /**
     * The count cast to `unsigned int`, then each key as a `SerializedString`
     * and its object; the first part that does not fit ends it.
     */
    method Serialize(file: File, order: HostOrder) returns (ok: bool)
      modifies file
      ensures ok == Fits(old(file.State()), file.capacity, PayloadBytes(CollectionValue(entries), order))
      ensures file.State() == CollectionWritten(old(file.State()), file.capacity, entries, order)
      decreases CollectionValue(entries), 1, 2
    {
      ok := WriteCollection(file, entries, order);
    }

    /**
     * Clears the collection, then reads the count and that many keys and
     * objects, storing each under its key; the counter is an `unsigned int`,
     * and a failure returns at once.
     */
    method Deserialize(file: File, order: HostOrder) returns (ok: bool)
      modifies this, file
      ensures file.data == old(file.data) && Valid()
      ensures Got(ok, entries, file.pos) == CollectionAt(old(file.data), old(file.pos), order)
      decreases Left(file), 1
    {
      ghost var data, start := file.data, file.pos;
      ghost var target := CollectionAt(data, start, order);
      entries := [];
      var numSerializedObjects;
      ok, numSerializedObjects := ReadCount(file);
      if !ok {
        return;
      }
      ghost var at := EntryReader(order);
      EntryReaderReads(order);
      CollectionLoopIsCollectionAt(data, start, order, at);
      var i: nat := 0;
      while i < numSerializedObjects
        invariant file.data == data && start < file.pos <= |data|
        invariant i <= U32_MAX && Valid()
        invariant CollectionLoop(data, file.pos, numSerializedObjects, i, entries, at) == target
        decreases |data| - file.pos
      {
        ghost var p := file.pos;
        CollectionLoopStep(data, p, numSerializedObjects, i, entries, at);
        assert at(data, p) == EntryAt(data, p, order);
        var e;
        ok, e := ReadEntry(file, order);
        if !ok {
          return;
        }
        SetObject(e.name, e.value);
        i := Step32(i);
      }
    }

    /**
     * Text that is not bracketed by braces once trimmed is refused and leaves
     * the collection alone; otherwise the collection is cleared and refilled
     * by the loop, which keeps the entries stored before a failure.
     */
    method Parse(rendering: Text, elementEnd: (Text, nat, nat) -> nat, parse: Text -> Option<Value>) returns (ok: bool)
      requires Valid() && ScansElements(elementEnd) && parse([]) == None
      modifies this
      ensures Valid()
      ensures match CollectionParse(rendering, elementEnd, parse)
        case None => !ok && entries == old(entries)
        case Some(p) => ok == p.ok && entries == p.items
    {
      var t := Trim(rendering);
      if |t| < 2 || t[0] != '{' || t[|t| - 1] != '}' {
        return false;
      }
      ghost var target := CollectionParseFrom(t, elementEnd, parse, 1, []);
      assert CollectionParse(rendering, elementEnd, parse) == Some(target);
      entries := [];
      var i := 1;
      var end := |t| - 1;
      while i < end
        invariant 1 <= i <= end && Valid()
        invariant CollectionParseFrom(t, elementEnd, parse, i, entries) == target
        decreases end - i
      {
        var key, next, colon := ReadKey(t, i, elementEnd, parse, entries);
        if !colon && key != [] {
          return false;
        }
        i := next;
        if key == [] {
          continue;
        }
        ok, i := StoreElement(t, key, i, elementEnd, parse);
        if !ok {
          return;
        }
      }
      ok := true;
    }

    /**
     * The rest of a turn of the loop of `Parse` once a key is read: the
     * element from `i` is trimmed and parsed by a fresh object and stored
     * under `key`, and a comma after it is stepped over.
     */
    method StoreElement(t: Text, key: Text, i: nat, elementEnd: (Text, nat, nat) -> nat, parse: Text -> Option<Value>)
      returns (ok: bool, next: nat)
      requires |t| >= 2 && t[|t| - 1] == '}' && 2 <= i <= |t| - 1 && Valid()
      requires ScansElements(elementEnd) && parse([]) == None
      modifies this
      ensures Valid() && i <= next <= |t| - 1
      ensures ElementParsed(t, elementEnd, parse, key, i, old(entries))
              == if ok then CollectionParseFrom(t, elementEnd, parse, next, entries) else Parsed(false, entries)
    {
      var end := |t| - 1;
      var element := t[i..elementEnd(t, i, end)];
      var obj := parse(Trim(element));
      if obj.None? {
        return false, i;
      }
      SetObject(key, obj.value);
      var j := i + |element|;
      if t[j] == ',' {
        next := j + 1;
      } else {
        next := j;
      }
      ok := true;
    }

    /** `collection_ == other.collection_`: the same keys, and their objects compared with `==`. */
    method IsEqualTo(other: SerializedCollection) returns (eq: bool)
      ensures eq <==> entries == other.entries
    {
      EqualIsSame(CollectionValue(entries), CollectionValue(other.entries));
      eq := Equal(CollectionValue(entries), CollectionValue(other.entries));
    }
  }
}
