/**
 * `SystemAbstractions::IFile` as the object format uses it: a byte store with a
 * position. Reads deliver what is available from the position on; writes
 * overwrite from the position on, grow the store, and are cut short when a
 * file of bounded capacity is full. A `StringFile` is a file with no bound.
 */
module CppFile {
  import opened Bytes

  /** A file's contents and position. */
  datatype Cursor = Cursor(data: seq<Byte>, pos: nat)

  /** The at most `n` bytes a read at `pos` delivers. */
  function Available(data: seq<Byte>, pos: nat, n: nat): (r: seq<Byte>)
    ensures |r| <= n
    ensures pos + |r| <= |data| || r == []
    ensures forall i :: 0 <= i < |r| ==> r[i] == data[pos + i]
    ensures |r| < n ==> pos + |r| >= |data|
  {
    if pos >= |data| then [] else if |data| - pos <= n then data[pos..] else data[pos..pos + n]
  }

  /** How many of `n` bytes a write at `pos` stores: all of them unless the capacity is reached. */
  function Room(capacity: Option<nat>, pos: nat, n: nat): (r: nat)
    ensures r <= n
  {
    match capacity
    case None => n
    case Some(c) => if pos >= c then 0 else if c - pos >= n then n else c - pos
  }

  /** `data` with `bs` stored from `pos` on; a gap left by a position beyond the end reads as zeros. */
  function Overwrite(data: seq<Byte>, pos: nat, bs: seq<Byte>): (r: seq<Byte>)
    ensures |r| == if pos + |bs| <= |data| then |data| else pos + |bs|
  {
    var n := if pos + |bs| <= |data| then |data| else pos + |bs|;
    seq(n, i requires 0 <= i < n =>
      if pos <= i < pos + |bs| then bs[i - pos] else if i < |data| then data[i] else 0)
  }

  /** The file after writing as much of `bs` as fits. */
  function Put(c: Cursor, capacity: Option<nat>, bs: seq<Byte>): Cursor
  {
    var n := Room(capacity, c.pos, |bs|);
    Cursor(Overwrite(c.data, c.pos, bs[..n]), c.pos + n)
  }

  /** Whether all of `bs` fits. */
  predicate Fits(c: Cursor, capacity: Option<nat>, bs: seq<Byte>)
  {
    Room(capacity, c.pos, |bs|) == |bs|
  }

  /**
   * What a reader makes of the bytes at a position: whether it succeeds, the
   * value it leaves behind (meaningful on failure only where a reader says so)
   * and the position it stops at.
   */
  datatype Got<T> = Got(ok: bool, value: T, next: nat)

  /** `e` is stored at `pos`. */
  predicate Stored(data: seq<Byte>, pos: nat, e: seq<Byte>)
  {
    pos + |e| <= |data| && data[pos..pos + |e|] == e
  }

  /** Three pieces stored one after the other are each stored at their own position. */
  lemma StoredSplit3(data: seq<Byte>, pos: nat, a: seq<Byte>, b: seq<Byte>, c: seq<Byte>)
    requires Stored(data, pos, a + (b + c))
    ensures Stored(data, pos, a) && Stored(data, pos + |a|, b) && Stored(data, pos + |a| + |b|, c)
  {
    StoredSplit(data, pos, a, b + c);
    StoredSplit(data, pos + |a|, b, c);
  }

  /** Bytes stored one after the other are each stored at their own position. */
  lemma StoredSplit(data: seq<Byte>, pos: nat, a: seq<Byte>, b: seq<Byte>)
    requires Stored(data, pos, a + b)
    ensures Stored(data, pos, a) && Stored(data, pos + |a|, b)
  {
    assert data[pos..pos + |a|] == (a + b)[..|a|];
    assert data[pos + |a|..pos + |a| + |b|] == (a + b)[|a|..];
  }

  /** A read of `|e|` bytes where `e` is stored delivers `e`. */
  lemma StoredAvailable(data: seq<Byte>, pos: nat, e: seq<Byte>)
    requires Stored(data, pos, e)
    ensures Available(data, pos, |e|) == e
  {
  }

  /** Two writes of which the first fits are one write of both. */
  lemma PutThen(c: Cursor, capacity: Option<nat>, a: seq<Byte>, b: seq<Byte>)
    requires Fits(c, capacity, a)
    ensures Put(Put(c, capacity, a), capacity, b) == Put(c, capacity, a + b)
    ensures Fits(Put(c, capacity, a), capacity, b) <==> Fits(c, capacity, a + b)
  {
    var p := c.pos + |a|;
    var n := Room(capacity, p, |b|);
    PutWhole(c, capacity, a);
    PutPrefix(Cursor(Overwrite(c.data, c.pos, a), p), capacity, b, b[..n]);
    PutJoined(c, capacity, a, b);
  }

  lemma PutJoined(c: Cursor, capacity: Option<nat>, a: seq<Byte>, b: seq<Byte>)
    requires Fits(c, capacity, a)
    ensures var n := Room(capacity, c.pos + |a|, |b|);
      Put(c, capacity, a + b) == Cursor(Overwrite(Overwrite(c.data, c.pos, a), c.pos + |a|, b[..n]), c.pos + |a| + n)
  {
    var n := Room(capacity, c.pos + |a|, |b|);
    var stored := a + b[..n];
    assert Put(c, capacity, a + b) == Cursor(Overwrite(c.data, c.pos, stored), c.pos + |a| + n) by {
      RoomThen(capacity, c.pos, |a|, |b|);
      SplitPrefix(a, b, n);
      PutPrefix(c, capacity, a + b, stored);
    }
    OverwriteThen(c.data, c.pos, a, b[..n]);
  }

  lemma SplitPrefix(a: seq<Byte>, b: seq<Byte>, n: nat)
    requires n <= |b|
    ensures (a + b)[..|a| + n] == a + b[..n]
  {
  }

  /** A write that fits stores all of its bytes. */
  lemma PutWhole(c: Cursor, capacity: Option<nat>, a: seq<Byte>)
    requires Fits(c, capacity, a)
    ensures Put(c, capacity, a) == Cursor(Overwrite(c.data, c.pos, a), c.pos + |a|)
  {
    assert a[..|a|] == a;
  }

  lemma PutPrefix(c: Cursor, capacity: Option<nat>, bs: seq<Byte>, stored: seq<Byte>)
    requires stored == bs[..Room(capacity, c.pos, |bs|)]
    ensures Put(c, capacity, bs) == Cursor(Overwrite(c.data, c.pos, stored), c.pos + |stored|)
  {
  }

  lemma RoomThen(capacity: Option<nat>, pos: nat, m: nat, n: nat)
    requires Room(capacity, pos, m) == m
    ensures Room(capacity, pos, m + n) == m + Room(capacity, pos + m, n)
  {
  }

  /** Once a write is cut short, whatever follows it in the same write is lost too. */
  lemma PutShort(c: Cursor, capacity: Option<nat>, a: seq<Byte>, b: seq<Byte>)
    requires !Fits(c, capacity, a)
    ensures Put(c, capacity, a + b) == Put(c, capacity, a) && !Fits(c, capacity, a + b)
  {
    var n := Room(capacity, c.pos, |a|);
    assert Room(capacity, c.pos, |a + b|) == n;
    assert (a + b)[..n] == a[..n];
  }

  /** A write after a short write stores nothing. */
  lemma PutFull(c: Cursor, capacity: Option<nat>, a: seq<Byte>, b: seq<Byte>)
    requires !Fits(c, capacity, a)
    ensures Put(Put(c, capacity, a), capacity, b) == Put(c, capacity, a)
    ensures Fits(Put(c, capacity, a), capacity, b) <==> b == []
  {
    var c1 := Put(c, capacity, a);
    assert b[..0] == [];
    OverwriteNothing(c1.data, c1.pos);
  }

  lemma OverwriteNothing(data: seq<Byte>, pos: nat)
    requires pos <= |data|
    ensures Overwrite(data, pos, []) == data
  {
  }

  /**
   * Writing `a` and then, only when all of it fit, `b` leaves the file as one
   * write of `a + b` would, and both fit exactly when `a + b` fits.
   */
  lemma PutEither(c: Cursor, capacity: Option<nat>, a: seq<Byte>, b: seq<Byte>)
    ensures var c1 := Put(c, capacity, a);
      (if Fits(c, capacity, a) then Put(c1, capacity, b) else c1) == Put(c, capacity, a + b)
      && (Fits(c, capacity, a) && Fits(c1, capacity, b) <==> Fits(c, capacity, a + b))
  {
    if Fits(c, capacity, a) {
      PutThen(c, capacity, a, b);
    } else {
      PutShort(c, capacity, a, b);
    }
  }

  /** What a write that fits stores is what a read from the same position delivers. */
  lemma PutReadBack(c: Cursor, capacity: Option<nat>, bs: seq<Byte>)
    requires Fits(c, capacity, bs)
    ensures Available(Put(c, capacity, bs).data, c.pos, |bs|) == bs
    ensures Put(c, capacity, bs).data[c.pos..c.pos + |bs|] == bs
    ensures Stored(Put(c, capacity, bs).data, c.pos, bs)
  {
    PutWhole(c, capacity, bs);
    var d := Overwrite(c.data, c.pos, bs);
    assert d[c.pos..c.pos + |bs|] == bs;
  }

  lemma OverwriteThen(data: seq<Byte>, pos: nat, a: seq<Byte>, b: seq<Byte>)
    ensures Overwrite(Overwrite(data, pos, a), pos + |a|, b) == Overwrite(data, pos, a + b)
  {
    var l := Overwrite(Overwrite(data, pos, a), pos + |a|, b);
    var r := Overwrite(data, pos, a + b);
    assert |l| == |r|;
    assert forall i :: 0 <= i < |l| ==> l[i] == r[i];
  }

  class File {
    var data: seq<Byte>
    var pos: nat
    /** `None` for a `StringFile`, which grows without bound. */
    const capacity: Option<nat>

    constructor (initial: seq<Byte>, capacity: Option<nat>)
      ensures data == initial && pos == 0 && this.capacity == capacity
    {
      data, pos := initial, 0;
      this.capacity := capacity;
    }

    function State(): Cursor
      reads this
    {
      Cursor(data, pos)
    }

    method GetPosition() returns (p: nat)
      ensures p == pos
    {
      p := pos;
    }

    method SetPosition(p: nat)
      modifies this
      ensures data == old(data) && pos == p
    {
      pos := p;
    }

    /** Reads up to `n` bytes; fewer come back at the end of the file. */
    method Read(n: nat) returns (bs: seq<Byte>)
      modifies this
      ensures bs == Available(old(data), old(pos), n)
      ensures data == old(data) && pos == old(pos) + |bs|
    {
      bs := Available(data, pos, n);
      pos := pos + |bs|;
    }

    /** Writes what fits of `bs` and returns how many bytes that was. */
    method Write(bs: seq<Byte>) returns (n: nat)
      modifies this
      ensures n == Room(capacity, old(pos), |bs|)
      ensures State() == Put(old(State()), capacity, bs)
    {
      n := Room(capacity, pos, |bs|);
      data := Overwrite(data, pos, bs[..n]);
      pos := pos + n;
    }
  }
}
