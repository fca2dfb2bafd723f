/**
 * The `std::map<std::string, T>` that `SerializedCollection` keeps, as the
 * list of its entries in ascending key order: the order in which the map is
 * iterated, serialized and rendered.
 */
module CppOrdered {
  import opened Bytes
  import opened CppText

  /**
   * `a < b` for `std::string`: the first differing character decides, compared
   * as unsigned bytes, and a proper prefix comes first.
   */
  predicate Below(a: Text, b: Text)
  {
    if a == [] then b != []
    else b != [] && (a[0] < b[0] || (a[0] == b[0] && Below(a[1..], b[1..])))
  }

  lemma {:induction false} BelowIrreflexive(a: Text)
    ensures !Below(a, a)
  {
    if a != [] {
      BelowIrreflexive(a[1..]);
    }
  }

  lemma {:induction false} BelowTransitive(a: Text, b: Text, c: Text)
    requires Below(a, b) && Below(b, c)
    ensures Below(a, c)
  {
    if a != [] && a[0] == b[0] && b[0] == c[0] {
      BelowTransitive(a[1..], b[1..], c[1..]);
    }
  }

  /** Two different keys are ordered one way or the other. */
  lemma {:induction false} BelowTotal(a: Text, b: Text)
    requires a != b
    ensures Below(a, b) || Below(b, a)
  {
    if a != [] && b != [] && a[0] == b[0] {
      assert a == [a[0]] + a[1..] && b == [b[0]] + b[1..];
      BelowTotal(a[1..], b[1..]);
    }
  }

  lemma BelowAsymmetric(a: Text, b: Text)
    requires Below(a, b)
    ensures !Below(b, a)
  {
    if Below(b, a) {
      BelowTransitive(a, b, a);
      BelowIrreflexive(a);
    }
  }

  datatype Entry<V> = Entry(name: Text, value: V)

  /** The invariant of the map: keys strictly ascending, hence distinct. */
  predicate Ascending<V>(es: seq<Entry<V>>)
  {
    forall i, j {:trigger Below(es[i].name, es[j].name)} :: 0 <= i < j < |es| ==> Below(es[i].name, es[j].name)
  }

  /** `find`: the value stored under `name`, if any. */
  function Find<V>(es: seq<Entry<V>>, name: Text): (r: Option<V>)
    ensures r.Some? <==> exists i :: 0 <= i < |es| && es[i].name == name
  {
    if es == [] then None
    else if es[0].name == name then Some(es[0].value)
    else
      var r := Find(es[1..], name);
      assert forall i :: 1 <= i < |es| ==> es[i] == es[1..][i - 1];
      r
  }

  /** In an ascending list, `Find` gives the value of the one entry with that key. */
  lemma {:induction false} FindAt<V>(es: seq<Entry<V>>, i: nat)
    requires Ascending(es) && i < |es|
    ensures Find(es, es[i].name) == Some(es[i].value)
  {
    if i > 0 {
      BelowIrreflexive(es[0].name);
      assert es[i] == es[1..][i - 1];
      FindAt(es[1..], i - 1);
    }
  }

  lemma AscendingTail<V>(es: seq<Entry<V>>)
    requires Ascending(es) && es != []
    ensures Ascending(es[1..])
  {
    assert forall i :: 0 <= i < |es| - 1 ==> es[1..][i] == es[i + 1];
  }

  /** Every key after the first lies above it, so a key below the first is not in the map. */
  lemma {:induction false} FindBelowFirst<V>(es: seq<Entry<V>>, name: Text)
    requires Ascending(es) && (es == [] || Below(name, es[0].name))
    ensures Find(es, name) == None
  {
    if es != [] {
      BelowIrreflexive(name);
      if |es| > 1 {
        BelowTransitive(name, es[0].name, es[1].name);
      }
      AscendingTail(es);
      FindBelowFirst(es[1..], name);
    }
  }

  /**
   * `collection_[name] = value`: the entry under `name` is replaced, or a new
   * one is put where the order puts it.
   */
  function Assign<V>(es: seq<Entry<V>>, name: Text, value: V): (r: seq<Entry<V>>)
    requires Ascending(es)
    ensures Ascending(r)
    ensures forall n :: Find(r, n) == if n == name then Some(value) else Find(es, n)
    ensures |r| == if Find(es, name).Some? then |es| else |es| + 1
  {
    if es == [] then [Entry(name, value)]
    else if es[0].name == name then
      var r := [Entry(name, value)] + es[1..];
      AssignHead(es, name, value, r);
      r
    else if Below(name, es[0].name) then
      var r := [Entry(name, value)] + es;
      AssignFront(es, name, value, r);
      r
    else
      AscendingTail(es);
      var t := Assign(es[1..], name, value);
      var r := [es[0]] + t;
      AssignLater(es, name, value, t, r);
      r
  }

  lemma AssignHead<V>(es: seq<Entry<V>>, name: Text, value: V, r: seq<Entry<V>>)
    requires Ascending(es) && es != [] && es[0].name == name && r == [Entry(name, value)] + es[1..]
    ensures Ascending(r)
    ensures forall n :: Find(r, n) == if n == name then Some(value) else Find(es, n)
  {
    assert r[1..] == es[1..];
    assert forall i :: 0 <= i < |r| ==> r[i].name == es[i].name;
  }

  lemma AssignFront<V>(es: seq<Entry<V>>, name: Text, value: V, r: seq<Entry<V>>)
    requires Ascending(es) && es != [] && Below(name, es[0].name) && r == [Entry(name, value)] + es
    ensures Ascending(r)
    ensures forall n :: Find(r, n) == if n == name then Some(value) else Find(es, n)
    ensures Find(es, name) == None
  {
    assert r[1..] == es;
    forall i, j | 0 <= i < j < |r|
      ensures Below(r[i].name, r[j].name)
    {
      if i == 0 && j > 1 {
        BelowTransitive(name, es[0].name, es[j - 1].name);
      }
    }
    FindBelowFirst(es, name);
  }

  lemma AssignLater<V>(es: seq<Entry<V>>, name: Text, value: V, t: seq<Entry<V>>, r: seq<Entry<V>>)
    requires Ascending(es) && es != [] && es[0].name != name && !Below(name, es[0].name)
    requires Ascending(t) && r == [es[0]] + t
    requires forall n :: Find(t, n) == if n == name then Some(value) else Find(es[1..], n)
    ensures Ascending(r)
    ensures forall n :: Find(r, n) == if n == name then Some(value) else Find(es, n)
  {
    assert r[1..] == t;
    BelowTotal(name, es[0].name);
    forall j | 1 <= j < |r|
      ensures Below(r[0].name, r[j].name)
    {
      var n := t[j - 1].name;
      assert Find(t, n).Some?;
      if n != name {
        var k :| 0 <= k < |es[1..]| && es[1..][k].name == n;
        assert es[k + 1].name == n;
      }
    }
  }

  /** A key above every key already in the map is stored at the end. */
  lemma {:induction false} AssignLast<V>(es: seq<Entry<V>>, name: Text, value: V)
    requires Ascending(es)
    requires forall i :: 0 <= i < |es| ==> Below(es[i].name, name)
    ensures Assign(es, name, value) == es + [Entry(name, value)]
  {
    if es != [] {
      AscendingTail(es);
      assert forall i :: 0 <= i < |es[1..]| ==> es[1..][i] == es[i + 1];
      AssignLast(es[1..], name, value);
      AssignLastStep(es, name, value);
    }
  }

  /** The first key, below the new one, stays first, and the new key goes where it goes in the rest. */
  lemma AssignLastStep<V>(es: seq<Entry<V>>, name: Text, value: V)
    requires Ascending(es) && es != [] && Below(es[0].name, name)
    requires Ascending(es[1..]) && Assign(es[1..], name, value) == es[1..] + [Entry(name, value)]
    ensures Assign(es, name, value) == es + [Entry(name, value)]
  {
    BelowIrreflexive(name);
    BelowAsymmetric(es[0].name, name);
    AssignPast(es, name, value);
    HeadSnoc(es, Entry(name, value));
  }

  lemma HeadSnoc<T>(xs: seq<T>, y: T)
    requires xs != []
    ensures [xs[0]] + (xs[1..] + [y]) == xs + [y]
  {
    assert [xs[0]] + xs[1..] == xs;
  }

  /** A key above the first one is assigned in the rest of the list. */
  lemma AssignPast<V>(es: seq<Entry<V>>, name: Text, value: V)
    requires Ascending(es) && es != [] && es[0].name != name && !Below(name, es[0].name)
    requires Ascending(es[1..])
    ensures Assign(es, name, value) == [es[0]] + Assign(es[1..], name, value)
  {
  }

  /** `erase`: the entry under `name` goes, and the others keep their order. */
  function Erase<V>(es: seq<Entry<V>>, name: Text): (r: seq<Entry<V>>)
    requires Ascending(es)
    ensures Ascending(r)
    ensures forall n :: Find(r, n) == if n == name then None else Find(es, n)
    ensures |r| == if Find(es, name).Some? then |es| - 1 else |es|
  {
    if es == [] then []
    else if es[0].name == name then
      EraseHead(es, name);
      es[1..]
    else
      AscendingTail(es);
      var t := Erase(es[1..], name);
      var r := [es[0]] + t;
      EraseLater(es, name, t, r);
      r
  }

  lemma EraseHead<V>(es: seq<Entry<V>>, name: Text)
    requires Ascending(es) && es != [] && es[0].name == name
    ensures Ascending(es[1..]) && Find(es[1..], name) == None
  {
    AscendingTail(es);
    FindBelowFirst(es[1..], name);
  }

  lemma EraseLater<V>(es: seq<Entry<V>>, name: Text, t: seq<Entry<V>>, r: seq<Entry<V>>)
    requires Ascending(es) && es != [] && es[0].name != name
    requires Ascending(t) && r == [es[0]] + t
    requires forall n :: Find(t, n) == if n == name then None else Find(es[1..], n)
    ensures Ascending(r)
    ensures forall n :: Find(r, n) == if n == name then None else Find(es, n)
  {
    assert r[1..] == t;
    forall j | 1 <= j < |r|
      ensures Below(r[0].name, r[j].name)
    {
      var n := t[j - 1].name;
      assert Find(t, n).Some?;
      var k :| 0 <= k < |es[1..]| && es[1..][k].name == n;
      assert es[k + 1].name == n;
    }
  }

  /** `begin()`: the entry with the smallest key, unless the map is empty. */
  function First<V>(es: seq<Entry<V>>): (r: Option<Entry<V>>)
    ensures r.Some? <==> es != []
  {
    if es == [] then None else Some(es[0])
  }

  /** The first entry's key lies below every other key of the map. */
  lemma FirstIsSmallest<V>(es: seq<Entry<V>>, n: Text)
    requires Ascending(es) && First(es).Some? && Find(es, n).Some?
    ensures n == First(es).value.name || Below(First(es).value.name, n)
  {
    var i :| 0 <= i < |es| && es[i].name == n;
  }

  /** `find(name)` then `++it`: the entry after the one under `name`, if both exist. */
  function Next<V>(es: seq<Entry<V>>, name: Text): (r: Option<Entry<V>>)
    ensures r.Some? <==> exists i :: 0 <= i < |es| - 1 && es[i].name == name
  {
    if es == [] then None
    else if es[0].name == name then
      if |es| > 1 then Some(es[1]) else None
    else
      var r := Next(es[1..], name);
      assert forall i :: 1 <= i < |es| ==> es[i] == es[1..][i - 1];
      r
  }

  /** In an ascending list, `Next` gives the entry just after the one under `name`. */
  lemma {:induction false} NextAt<V>(es: seq<Entry<V>>, i: nat)
    requires Ascending(es) && i < |es| - 1
    ensures Next(es, es[i].name) == Some(es[i + 1])
  {
    if i > 0 {
      BelowIrreflexive(es[0].name);
      AscendingTail(es);
      assert es[i] == es[1..][i - 1] && es[i + 1] == es[1..][i];
      NextAt(es[1..], i - 1);
    }
  }

  /**
   * `GetNextObject` steps to the next larger key: the entry it gives is in the
   * map, lies above `name`, and no key of the map lies between the two.
   */
  lemma NextIsSuccessor<V>(es: seq<Entry<V>>, name: Text)
    requires Ascending(es) && Next(es, name).Some?
    ensures var e := Next(es, name).value;
      Find(es, name).Some? && Find(es, e.name) == Some(e.value) && Below(name, e.name)
      && forall n :: Find(es, n).Some? && Below(name, n) ==> n == e.name || Below(e.name, n)
  {
    var i :| 0 <= i < |es| - 1 && es[i].name == name;
    NextAt(es, i);
    FindAt(es, i + 1);
    var e := es[i + 1];
    forall n | Find(es, n).Some? && Below(name, n)
      ensures n == e.name || Below(e.name, n)
    {
      var j :| 0 <= j < |es| && es[j].name == n;
      if j <= i {
        if j < i {
          BelowAsymmetric(n, name);
        } else {
          BelowIrreflexive(name);
        }
      }
    }
  }

  /** `GetNextObject` gives nothing exactly when `name` is not a key or is the largest one. */
  lemma NextNone<V>(es: seq<Entry<V>>, name: Text)
    requires Ascending(es)
    ensures Next(es, name).None? <==>
      Find(es, name).None? || forall n :: Find(es, n).Some? ==> !Below(name, n)
  {
    if Next(es, name).Some? {
      NextIsSuccessor(es, name);
    } else if Find(es, name).Some? {
      var i :| 0 <= i < |es| && es[i].name == name;
      assert i == |es| - 1;
      forall n | Find(es, n).Some?
        ensures !Below(name, n)
      {
        var j :| 0 <= j < |es| && es[j].name == n;
        if j < i {
          BelowAsymmetric(n, name);
        } else {
          BelowIrreflexive(name);
        }
      }
    }
  }

  /** Moving the first element of a tail onto what comes before it leaves the whole unchanged. */
  lemma MoveFirst<T>(got: seq<T>, items: seq<T>)
    requires items != []
    ensures (got + [items[0]]) + items[1..] == got + items
  {
    assert (got + [items[0]]) + items[1..] == got + ([items[0]] + items[1..]);
  }

  /** Moving the first entry of an ascending tail onto the map stores it at the end and keeps the whole ascending. */
  lemma EntryAppended<V>(got: seq<Entry<V>>, es: seq<Entry<V>>) returns (next: seq<Entry<V>>)
    requires Ascending(got) && Ascending(got + es) && es != []
    ensures next == Assign(got, es[0].name, es[0].value) == got + [es[0]]
    ensures Ascending(next) && Ascending(next + es[1..]) && next + es[1..] == got + es
  {
    AppendedAscending(got, es);
    AssignLast(got, es[0].name, es[0].value);
    next := got + [es[0]];
  }

  /** The first entry of an ascending tail, moved onto the front part, stays ascending there and above it. */
  lemma AppendedAscending<V>(got: seq<Entry<V>>, es: seq<Entry<V>>)
    requires Ascending(got + es) && es != []
    ensures forall i :: 0 <= i < |got| ==> Below(got[i].name, es[0].name)
    ensures Ascending(got + [es[0]]) && got + [es[0]] + es[1..] == got + es
  {
    var all, next := got + es, got + [es[0]];
    AllBelowNext(got, es);
    assert next + es[1..] == all;
    AscendingPrefix(all, |next|);
    assert all[..|next|] == next;
  }

  /** In an ascending sequence, every entry before position `|got|` is below the one there. */
  lemma AllBelowNext<V>(got: seq<Entry<V>>, es: seq<Entry<V>>)
    requires Ascending(got + es) && es != []
    ensures forall i :: 0 <= i < |got| ==> Below(got[i].name, es[0].name)
  {
    var all := got + es;
    forall i | 0 <= i < |got|
      ensures Below(got[i].name, es[0].name)
    {
      assert all[i] == got[i] && all[|got|] == es[0];
      assert Below(all[i].name, all[|got|].name);
    }
  }

  /** A prefix of an ascending sequence is ascending. */
  lemma AscendingPrefix<V>(es: seq<Entry<V>>, k: nat)
    requires Ascending(es) && k <= |es|
    ensures Ascending(es[..k])
  {
    var p := es[..k];
    forall i, j | 0 <= i < j < |p|
      ensures Below(p[i].name, p[j].name)
    {
      assert p[i] == es[i] && p[j] == es[j];
      assert Below(es[i].name, es[j].name);
    }
  }
}
