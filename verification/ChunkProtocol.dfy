/** The chunk map of deprecated/android/jni/ChunkedCursorWindow.cpp as a step system.

    A chunk is known by its number in `pool`, the list of all chunks ever created; `order`
    lists the chunks in the map by increasing start position.  A chunk's window is reduced to
    its row count, and whether it has room for one more row is decided from outside. */
module ChunkProtocol {
  import opened Common

  type ChunkId = nat
  type RowId = nat

  const NONE := 0xFFFF_FFFF      // the row number that stands for "no row"

  datatype Chunk = Chunk(start: nat, count: nat, refs: int)

  datatype Row = Row(row: nat, chunk: ChunkId)

  datatype Window = Window(
    pool: seq<Chunk>,
    order: seq<ChunkId>,
    freed: seq<ChunkId>,
    rows: map<RowId, Row>,
    nextRow: RowId,
    lastRead: Option<ChunkId>,
    lastWrite: Option<ChunkId>,
    limit: nat,
    writing: nat)

  const Initial := Window([], [], [], map[], 0, None, None, NONE, NONE)

  /** Unsigned 32-bit subtraction. */
  function Sub32(a: nat, b: nat): nat {
    (a - b) % U32
  }

  predicate IdsOk(s: Window) {
    forall i :: 0 <= i < |s.order| ==> s.order[i] < |s.pool|
  }

  function StartAt(s: Window, i: nat): nat
    requires IdsOk(s) && i < |s.order|
  {
    s.pool[s.order[i]].start
  }

  function EndAt(s: Window, i: nat): nat
    requires IdsOk(s) && i < |s.order|
  {
    s.pool[s.order[i]].start + s.pool[s.order[i]].count
  }

  /** The first position whose chunk starts at or after the row. */
  function LowerBound(s: Window, row: nat, from: nat): (i: nat)
    requires IdsOk(s) && from <= |s.order|
    ensures from <= i <= |s.order|
    ensures forall k :: from <= k < i ==> StartAt(s, k) < row
    ensures i < |s.order| ==> StartAt(s, i) >= row
    decreases |s.order| - from
  {
    if from == |s.order| || StartAt(s, from) >= row then from else LowerBound(s, row, from + 1)
  }

  // ---------------------------------------------------------------- steps

  function Acquire(s: Window, c: ChunkId): Window
    requires c < |s.pool|
  {
    s.(pool := s.pool[c := s.pool[c].(refs := s.pool[c].refs + 1)])
  }

  function Release(s: Window, c: ChunkId): Window
    requires c < |s.pool|
  {
    var refs := s.pool[c].refs;
    s.(pool := s.pool[c := s.pool[c].(refs := refs - 1)], freed := if refs == 1 then s.freed + [c] else s.freed)
  }

  /** `findChunkByRowLocked`: the read cache first, then the map. */
  function FindChunk(s: Window, row: nat): (Window, Option<ChunkId>)
    requires IdsOk(s) && (s.lastRead.Some? ==> s.lastRead.value < |s.pool|)
  {
    if s.lastRead.Some? && Sub32(row, s.pool[s.lastRead.value].start) < s.pool[s.lastRead.value].count
    then (s, s.lastRead)
    else
      var i := LowerBound(s, row, 0);
      var candidate := if i < |s.order| && StartAt(s, i) == row then Some(s.order[i])
                       else if i > 0 then Some(s.order[i - 1])
                       else None;
      if candidate.Some? && Sub32(row, s.pool[candidate.value].start) < s.pool[candidate.value].count
      then (s.(lastRead := candidate), candidate)
      else (s, None)
  }

  datatype Slot = NotFound | Conflict | Found(chunk: ChunkId)

  /** `getChunkForWritingLocked`: only the write cache. */
  function ChunkForWriting(s: Window, row: nat): Slot
    requires s.lastWrite.Some? ==> s.lastWrite.value < |s.pool|
  {
    if s.lastWrite.Some? && Sub32(row, s.pool[s.lastWrite.value].start) == s.pool[s.lastWrite.value].count
    then if row >= s.limit then Conflict else Found(s.lastWrite.value)
    else NotFound
  }

  /** A new empty chunk at position `i`, with the write cache on it. */
  function InsertAt(s: Window, row: nat, i: nat): Window
    requires IdsOk(s) && i <= |s.order|
  {
    s.(pool := s.pool + [Chunk(row, 0, 1)], order := s.order[..i] + [|s.pool|] + s.order[i..],
       lastWrite := Some(|s.pool|), limit := if i == |s.order| then NONE else StartAt(s, i))
  }

  /** `allocChunkLocked`: a new chunk unless the row is taken. */
  function AllocChunk(s: Window, row: nat): (Window, Option<ChunkId>)
    requires IdsOk(s)
  {
    var i := LowerBound(s, row, 0);
    if i < |s.order| && StartAt(s, i) == row then (s, None)
    else if i > 0 && Sub32(row, StartAt(s, i - 1)) < s.pool[s.order[i - 1]].count then (s, None)
    else
      (InsertAt(s, row, i), Some(|s.pool|))
  }

  /** The position `removeChunkLocked` takes out: the chunk that starts at the row, or the one
      before the row unless the row lies inside it. */
  function RemovedAt(s: Window, row: nat): Option<nat>
    requires IdsOk(s)
  {
    var i := LowerBound(s, row, 0);
    if i < |s.order| && StartAt(s, i) == row then Some(i)
    else if i > 0 && Sub32(row, StartAt(s, i - 1)) >= s.pool[s.order[i - 1]].count then Some(i - 1)
    else None
  }

  function Unmap(s: Window, i: nat): Window
    requires i < |s.order|
  {
    var c := s.order[i];
    s.(order := s.order[..i] + s.order[i + 1..],
       lastRead := if s.lastRead == Some(c) then None else s.lastRead,
       lastWrite := if s.lastWrite == Some(c) then None else s.lastWrite,
       limit := if s.lastWrite == Some(c) then NONE else s.limit)
  }

  function OpenRow(s: Window, row: nat, c: ChunkId): (Window, Option<RowId>)
    requires c < |s.pool|
  {
    (Acquire(s, c).(rows := s.rows[s.nextRow := Row(row, c)], nextRow := s.nextRow + 1), Some(s.nextRow))
  }

  /** The end of `newRow`: the row is allocated on the chunk if there is room. */
  function WriteRow(s: Window, row: nat, c: ChunkId, room: bool): (Window, Option<RowId>)
    requires c < |s.pool|
  {
    if !room then (s, None)
    else
      var grown := s.(pool := s.pool[c := s.pool[c].(count := s.pool[c].count + 1)]);
      var (held, id) := OpenRow(grown, row, c);
      (held.(writing := row), id)
  }

  /** The window after a conflict has been cleared out of the way. */
  function Evicted(s: Window, r: nat, slot: Slot): (t: Window)
    requires Inv(s)
    ensures IdsOk(t) && t.rows == s.rows && t.nextRow == s.nextRow
  {
    var at := RemovedAt(s, r);
    if slot.Conflict? && at.Some? then Release(Unmap(s, at.value), s.order[at.value]) else s
  }

  function NewRow(s: Window, row: nat, newChunk: bool, room: bool): (Window, Option<RowId>)
    requires Inv(s) && row < NONE
  {
    if s.writing != NONE then (s, None)
    else
      var slot := if newChunk then NotFound else ChunkForWriting(s, row);
      if slot.Found? then WriteRow(s, row, slot.chunk, room)
      else
        var (s2, c) := AllocChunk(Evicted(s, row, slot), row);
        if c.None? then (s2, None) else WriteRow(s2, row, c.value, room)
  }

  function GetRow(s: Window, row: nat): (Window, Option<RowId>)
    requires Inv(s)
  {
    if s.writing == row then (s, None)
    else
      var (s1, c) := FindChunk(s, row);
      if c.None? then (s1, None) else OpenRow(s1, row, c.value)
  }

  function CloseRow(s: Window, id: RowId): Window
    requires Inv(s) && id in s.rows
  {
    Release(s.(rows := s.rows - {id}), s.rows[id].chunk)
  }

  function EndRow(s: Window, id: RowId): Window
    requires Inv(s) && id in s.rows
  {
    CloseRow(s, id).(writing := if s.writing == s.rows[id].row then NONE else s.writing)
  }

  function DropLast(s: Window, c: ChunkId): Window
    requires c < |s.pool|
  {
    if s.pool[c].count == 0 then s else s.(pool := s.pool[c := s.pool[c].(count := s.pool[c].count - 1)])
  }

  function RollbackRow(s: Window, id: RowId): Window
    requires Inv(s) && id in s.rows
  {
    var r := s.rows[id];
    if s.writing == r.row
    then Release(DropLast(s.(rows := s.rows - {id}), r.chunk), r.chunk).(writing := NONE)
    else CloseRow(s, id)
  }

  function RemoveChunk(s: Window, row: nat): (Window, Option<(nat, nat)>)
    requires Inv(s)
  {
    var at := RemovedAt(s, row);
    if at.None? then (s, None)
    else
      var c := s.order[at.value];
      (Release(Unmap(s, at.value), c), Some((s.pool[c].start, s.pool[c].start + s.pool[c].count)))
  }

  function ReleaseAll(s: Window, i: nat): (r: Window)
    requires IdsOk(s) && i <= |s.order|
    ensures |r.pool| == |s.pool| && r.order == s.order && r.rows == s.rows
    decreases |s.order| - i
  {
    if i == |s.order| then s else ReleaseAll(Release(s, s.order[i]), i + 1)
  }

  function Clear(s: Window): Window
    requires Inv(s)
  {
    ReleaseAll(s, 0).(order := [], lastRead := None, lastWrite := None, limit := NONE, writing := NONE)
  }

  // ---------------------------------------------------------------- invariant

  /** Each chunk in the map ends at or before the next one starts, empty chunks included. */
  predicate Ordered(s: Window)
    requires IdsOk(s)
  {
    forall i, j :: 0 <= i < j < |s.order| ==> EndAt(s, i) <= StartAt(s, j) && StartAt(s, i) < StartAt(s, j)
  }

  predicate InRange(s: Window) {
    forall c :: 0 <= c < |s.pool| ==> s.pool[c].start < NONE && s.pool[c].start + s.pool[c].count <= NONE
  }

  /** The caches point into the map, and the row limit of the write cache lies behind its
      chunk's start and at or before the start of the next chunk. */
  predicate CachesOk(s: Window)
    requires IdsOk(s)
  {
    && (s.lastRead.Some? ==> s.lastRead.value in s.order)
    && (s.lastWrite.None? ==> s.limit == NONE)
    && s.limit <= NONE
    && (s.lastWrite.Some? ==> s.lastWrite.value in s.order)
    && (s.lastWrite.Some? ==> forall i :: 0 <= i < |s.order| && s.order[i] == s.lastWrite.value ==>
          StartAt(s, i) < s.limit && (i + 1 < |s.order| ==> s.limit <= StartAt(s, i + 1)))
  }

  function Holders(s: Window, c: ChunkId): set<RowId> {
    set r | r in s.rows && s.rows[r].chunk == c
  }

  /** One reference for the map and one for each open row; freed exactly when none is left. */
  predicate RefsOk(s: Window, c: ChunkId)
    requires c < |s.pool|
  {
    && s.pool[c].refs == (if c in s.order then 1 else 0) + |Holders(s, c)|
    && multiset(s.freed)[c] == (if s.pool[c].refs == 0 then 1 else 0)
  }

  predicate LifetimesOk(s: Window) {
    && (forall c :: 0 <= c < |s.pool| ==> RefsOk(s, c))
    && (forall r :: r in s.rows ==> s.rows[r].chunk < |s.pool| && r < s.nextRow && s.rows[r].row < NONE)
    && (forall c :: c in s.freed ==> c < |s.pool|)
  }

  predicate Inv(s: Window) {
    IdsOk(s) && Ordered(s) && InRange(s) && CachesOk(s) && LifetimesOk(s)
  }

  // ---------------------------------------------------------------- lookup

  predicate Covers(s: Window, c: ChunkId, row: nat)
    requires c < |s.pool|
  {
    s.pool[c].start <= row < s.pool[c].start + s.pool[c].count
  }

  /** The wrapping subtraction tests exactly whether the row lies in the chunk. */
  lemma WrapIsCovers(s: Window, c: ChunkId, row: nat)
    requires InRange(s) && c < |s.pool| && row < NONE
    ensures Sub32(row, s.pool[c].start) < s.pool[c].count <==> Covers(s, c, row)
    ensures row >= s.pool[c].start ==> Sub32(row, s.pool[c].start) == row - s.pool[c].start
    ensures Sub32(row, s.pool[c].start) == s.pool[c].count <==> row == s.pool[c].start + s.pool[c].count
  {
    if row < s.pool[c].start {
      assert Sub32(row, s.pool[c].start) == row - s.pool[c].start + U32;
    } else {
      assert Sub32(row, s.pool[c].start) == row - s.pool[c].start;
    }
  }

  /** At most one chunk of the map covers a row. */
  lemma CoverUnique(s: Window, c: ChunkId, d: ChunkId, row: nat)
    requires IdsOk(s) && Ordered(s) && c in s.order && d in s.order && Covers(s, c, row) && Covers(s, d, row)
    ensures c == d
  {
    var i :| 0 <= i < |s.order| && s.order[i] == c;
    var j :| 0 <= j < |s.order| && s.order[j] == d;
    assert i < j ==> EndAt(s, i) <= StartAt(s, j);
    assert j < i ==> EndAt(s, j) <= StartAt(s, i);
  }

  /** The cached lookup agrees with the plain map, whatever the cache holds: it returns the one
      chunk of the map that covers the row, and nothing exactly when there is none. */
  lemma FindChunkExact(s: Window, row: nat)
    requires Inv(s) && row < NONE
    ensures var found := FindChunk(s, row).1;
            && (found.Some? ==> found.value in s.order && Covers(s, found.value, row))
            && (forall c :: c in s.order && Covers(s, c, row) ==> found == Some(c))
  {
    var found := FindChunk(s, row).1;
    var i := LowerBound(s, row, 0);
    if s.lastRead.Some? { WrapIsCovers(s, s.lastRead.value, row); }
    if i < |s.order| { WrapIsCovers(s, s.order[i], row); }
    if i > 0 { WrapIsCovers(s, s.order[i - 1], row); }
    forall c | c in s.order && Covers(s, c, row) ensures found == Some(c) {
      var k :| 0 <= k < |s.order| && s.order[k] == c;
      LookupAt(s, row, k, i);
      if found.Some? { CoverUnique(s, c, found.value, row); }
    }
  }

  lemma LookupAt(s: Window, row: nat, k: nat, i: nat)
    requires IdsOk(s) && Ordered(s) && k < |s.order| && i == LowerBound(s, row, 0)
    requires Covers(s, s.order[k], row)
    ensures (k == i && StartAt(s, i) == row) || (k + 1 == i && (i < |s.order| ==> StartAt(s, i) > row))
  {
    assert StartAt(s, k) <= row < EndAt(s, k);
    assert forall j :: 0 <= j < k ==> StartAt(s, j) < row;
    assert forall j :: k < j < |s.order| ==> row < StartAt(s, j);
    LowerBoundIs(s, row, 0, if StartAt(s, k) == row then k else k + 1);
  }

  lemma {:induction false} LowerBoundIs(s: Window, row: nat, from: nat, p: nat)
    requires IdsOk(s) && from <= p <= |s.order|
    requires forall j :: from <= j < p ==> StartAt(s, j) < row
    requires p < |s.order| ==> StartAt(s, p) >= row
    ensures LowerBound(s, row, from) == p
    decreases p - from
  {
    if from < p { LowerBoundIs(s, row, from + 1, p); }
  }

  // ---------------------------------------------------------------- the order is kept

  predicate Structure(s: Window) {
    IdsOk(s) && Ordered(s) && InRange(s) && CachesOk(s)
  }

  /** The chunks of `t` start where those of `s` do and are no longer. */
  predicate NoLonger(s: Window, t: Window) {
    && |s.pool| == |t.pool|
    && forall c :: 0 <= c < |s.pool| ==> t.pool[c].start == s.pool[c].start && t.pool[c].count <= s.pool[c].count
  }

  lemma ShrinkKeeps(s: Window, t: Window)
    requires Structure(s) && NoLonger(s, t) && t.order == s.order
    requires t.lastWrite == s.lastWrite && t.limit == s.limit
    requires t.lastRead.Some? ==> t.lastRead.value in t.order
    ensures Structure(t)
  {
    forall i, j | 0 <= i < j < |t.order|
      ensures EndAt(t, i) <= StartAt(t, j) && StartAt(t, i) < StartAt(t, j)
    {
      assert EndAt(s, i) <= StartAt(s, j) && StartAt(s, i) < StartAt(s, j);
    }
    assert forall i :: 0 <= i < |t.order| ==> StartAt(t, i) == StartAt(s, i);
  }

  lemma OrderDistinct(s: Window, i: nat, j: nat)
    requires IdsOk(s) && Ordered(s) && i < j < |s.order|
    ensures s.order[i] != s.order[j]
  {
    assert StartAt(s, i) < StartAt(s, j);
  }

  /** The write chunk grows by one row below its limit. */
  lemma GrowKeeps(s: Window, t: Window, c: ChunkId)
    requires Structure(s) && s.lastWrite == Some(c) && c < |s.pool|
    requires s.pool[c].start + s.pool[c].count < s.limit
    requires t == s.(pool := s.pool[c := s.pool[c].(count := s.pool[c].count + 1)])
    ensures Structure(t)
  {
    forall i, j | 0 <= i < j < |t.order|
      ensures EndAt(t, i) <= StartAt(t, j) && StartAt(t, i) < StartAt(t, j)
    {
      assert EndAt(s, i) <= StartAt(s, j) && StartAt(s, i) < StartAt(s, j);
      if s.order[i] == c {
        assert s.limit <= StartAt(s, i + 1);
        assert i + 1 < j ==> StartAt(s, i + 1) < StartAt(s, j);
      }
    }
    assert forall i :: 0 <= i < |t.order| ==> StartAt(t, i) == StartAt(s, i);
  }

  /** Where a new chunk may be put in. */
  lemma GapFor(s: Window, row: nat, i: nat)
    requires IdsOk(s) && Ordered(s) && InRange(s) && row < NONE && i == LowerBound(s, row, 0)
    requires i < |s.order| ==> StartAt(s, i) != row
    requires i > 0 ==> Sub32(row, StartAt(s, i - 1)) >= s.pool[s.order[i - 1]].count
    ensures forall k :: 0 <= k < i ==> EndAt(s, k) <= row && StartAt(s, k) < row
    ensures forall k :: i <= k < |s.order| ==> row < StartAt(s, k)
  {
    if i > 0 { WrapIsCovers(s, s.order[i - 1], row); }
    forall k | 0 <= k < i ensures EndAt(s, k) <= row && StartAt(s, k) < row {
      if k < i - 1 { assert EndAt(s, k) <= StartAt(s, i - 1); }
    }
    forall k | i <= k < |s.order| ensures row < StartAt(s, k) {
      if i < k { assert StartAt(s, i) < StartAt(s, k); }
    }
  }

  lemma AllocKeeps(s: Window, row: nat)
    requires Structure(s) && row < NONE
    ensures Structure(AllocChunk(s, row).0)
    ensures var (t, c) := AllocChunk(s, row);
            c.Some? ==> c.value == |s.pool| && t.lastWrite == c && row < t.limit && t.pool == s.pool + [Chunk(row, 0, 1)]
  {
    var i := LowerBound(s, row, 0);
    if AllocChunk(s, row).1.Some? {
      GapFor(s, row, i);
      Inserted(s, row, i);
    }
  }

  lemma InsertedShape(s: Window, row: nat, i: nat)
    requires IdsOk(s) && i <= |s.order|
    ensures var t := InsertAt(s, row, i);
            && IdsOk(t) && |t.order| == |s.order| + 1 && t.order[i] == |s.pool| && StartAt(t, i) == EndAt(t, i) == row
            && (forall k :: 0 <= k < i ==> StartAt(t, k) == StartAt(s, k) && EndAt(t, k) == EndAt(s, k))
            && (forall k :: i < k < |t.order| ==> StartAt(t, k) == StartAt(s, k - 1) && EndAt(t, k) == EndAt(s, k - 1))
  {
    var t := InsertAt(s, row, i);
    assert forall k :: 0 <= k < i ==> t.order[k] == s.order[k];
    assert forall k :: i < k < |t.order| ==> t.order[k] == s.order[k - 1];
  }

  lemma Inserted(s: Window, row: nat, i: nat)
    requires Structure(s) && row < NONE && i <= |s.order|
    requires forall k :: 0 <= k < i ==> EndAt(s, k) <= row && StartAt(s, k) < row
    requires forall k :: i <= k < |s.order| ==> row < StartAt(s, k)
    ensures Structure(InsertAt(s, row, i))
  {
    InsertedShape(s, row, i);
    InsertedOrder(s, InsertAt(s, row, i), row, i);
    InsertedCaches(s, InsertAt(s, row, i), i);
  }

  lemma InsertedCaches(s: Window, t: Window, i: nat)
    requires IdsOk(s) && CachesOk(s) && InRange(s) && IdsOk(t) && Ordered(t) && InRange(t) && i < |t.order| && i <= |s.order|
    requires t.order == s.order[..i] + [t.order[i]] + s.order[i..] && t.lastRead == s.lastRead
    requires t.lastWrite == Some(t.order[i])
    requires t.limit == if i + 1 == |t.order| then NONE else StartAt(t, i + 1)
    ensures CachesOk(t)
  {
    assert s.order == s.order[..i] + s.order[i..];
    forall k | 0 <= k < |t.order| && t.order[k] == t.order[i]
      ensures StartAt(t, k) < t.limit && (k + 1 < |t.order| ==> t.limit <= StartAt(t, k + 1))
    {
      if k < i { OrderDistinct(t, k, i); }
      if i < k { OrderDistinct(t, i, k); }
    }
  }

  lemma InsertedOrder(s: Window, t: Window, row: nat, i: nat)
    requires IdsOk(s) && Ordered(s) && IdsOk(t) && |t.order| == |s.order| + 1 && i <= |s.order|
    requires forall k :: 0 <= k < i ==> StartAt(t, k) == StartAt(s, k) && EndAt(t, k) == EndAt(s, k)
    requires forall k :: i < k < |t.order| ==> StartAt(t, k) == StartAt(s, k - 1) && EndAt(t, k) == EndAt(s, k - 1)
    requires StartAt(t, i) == EndAt(t, i) == row
    requires forall k :: 0 <= k < i ==> EndAt(s, k) <= row && StartAt(s, k) < row
    requires forall k :: i <= k < |s.order| ==> row < StartAt(s, k)
    ensures Ordered(t)
  {
    forall x, y | 0 <= x < y < |t.order|
      ensures EndAt(t, x) <= StartAt(t, y) && StartAt(t, x) < StartAt(t, y)
    {
      var p, q := if x > i then x - 1 else x, if y > i then y - 1 else y;
      if x != i && y != i { assert EndAt(s, p) <= StartAt(s, q) && StartAt(s, p) < StartAt(s, q); }
    }
  }

  lemma UnmapKeeps(s: Window, i: nat)
    requires Structure(s) && i < |s.order|
    ensures Structure(Unmap(s, i))
    ensures forall c :: c in Unmap(s, i).order <==> c in s.order && c != s.order[i]
  {
    UnmapOrder(s, i);
    UnmapMembers(s, i);
    UnmapCaches(s, i);
  }

  lemma UnmapOrder(s: Window, i: nat)
    requires IdsOk(s) && Ordered(s) && i < |s.order|
    ensures IdsOk(Unmap(s, i)) && Ordered(Unmap(s, i))
  {
    var t := Unmap(s, i);
    forall k | 0 <= k < |t.order|
      ensures t.order[k] < |t.pool| && t.order[k] == s.order[if k < i then k else k + 1]
    {
    }
    assert t.pool == s.pool;
    hide Unmap;
    forall x, y | 0 <= x < y < |t.order|
      ensures EndAt(t, x) <= StartAt(t, y) && StartAt(t, x) < StartAt(t, y)
    {
      var p, q := if x >= i then x + 1 else x, if y >= i then y + 1 else y;
      assert EndAt(s, p) <= StartAt(s, q) && StartAt(s, p) < StartAt(s, q);
    }
  }

  lemma UnmapMembers(s: Window, i: nat)
    requires IdsOk(s) && Ordered(s) && i < |s.order|
    ensures forall c :: c in Unmap(s, i).order <==> c in s.order && c != s.order[i]
  {
    var t := Unmap(s, i);
    forall c ensures c in t.order <==> c in s.order && c != s.order[i] {
      if c in t.order {
        var k :| 0 <= k < |t.order| && t.order[k] == c;
        if k < i { OrderDistinct(s, k, i); assert s.order[k] == c; } else { OrderDistinct(s, i, k + 1); assert s.order[k + 1] == c; }
      }
      if c in s.order && c != s.order[i] {
        var k :| 0 <= k < |s.order| && s.order[k] == c;
        assert c == t.order[if k < i then k else k - 1];
      }
    }
  }

  lemma UnmapCaches(s: Window, i: nat)
    requires Structure(s) && i < |s.order| && IdsOk(Unmap(s, i))
    requires forall c :: c in Unmap(s, i).order <==> c in s.order && c != s.order[i]
    ensures CachesOk(Unmap(s, i))
  {
    var t := Unmap(s, i);
    if t.lastWrite.Some? {
      forall k | 0 <= k < |t.order| && t.order[k] == t.lastWrite.value
        ensures StartAt(t, k) < t.limit && (k + 1 < |t.order| ==> t.limit <= StartAt(t, k + 1))
      {
        var p := if k < i then k else k + 1;
        assert s.order[p] == t.order[k];
        assert StartAt(s, p) < s.limit;
        if k + 1 < |t.order| {
          assert s.limit <= StartAt(s, p + 1);
          var q := if k + 1 < i then k + 1 else k + 2;
          assert p + 1 < q ==> StartAt(s, p + 1) < StartAt(s, q);
          assert t.order[k + 1] == s.order[q];
        }
      }
    }
  }

  // ---------------------------------------------------------------- lifetimes are kept

  /** `t` differs from `s` in the references and the holders of chunk `c` alone. */
  lemma OtherRefs(s: Window, t: Window, c: ChunkId, d: ChunkId)
    requires d < |s.pool| == |t.pool| && d != c && RefsOk(s, d)
    requires t.pool[d].refs == s.pool[d].refs && (d in t.order <==> d in s.order)
    requires Holders(t, d) == Holders(s, d) && multiset(t.freed)[d] == multiset(s.freed)[d]
    ensures RefsOk(t, d)
  {
  }

  lemma OpenKeepsLives(s: Window, row: nat, c: ChunkId)
    requires LifetimesOk(s) && c in s.order && c < |s.pool| && row < NONE
    ensures LifetimesOk(OpenRow(s, row, c).0)
  {
    var t := OpenRow(s, row, c).0;
    assert RefsOk(s, c);
    HoldersOpened(s, row, c, c);
    assert RefsOk(t, c);
    forall d | 0 <= d < |t.pool| ensures RefsOk(t, d) {
      if d != c {
        HoldersOpened(s, row, c, d);
        assert RefsOk(s, d);
        OtherRefs(s, t, c, d);
      }
    }
  }

  lemma HoldersOpened(s: Window, row: nat, c: ChunkId, d: ChunkId)
    requires c < |s.pool| && s.nextRow !in s.rows
    ensures Holders(OpenRow(s, row, c).0, d) == if d == c then Holders(s, d) + {s.nextRow} else Holders(s, d)
  {
  }

  lemma FreedOnce(freed: seq<ChunkId>, c: ChunkId, d: ChunkId)
    ensures multiset(freed + [c])[d] == multiset(freed)[d] + (if c == d then 1 else 0)
  {
    assert multiset(freed + [c]) == multiset(freed) + multiset{c};
  }

  /** One reference of `c` is dropped together with what it stood for. */
  lemma ReleaseKeepsLives(s: Window, u: Window, c: ChunkId)
    requires LifetimesOk(s) && c < |s.pool| && u.pool == s.pool && u.freed == s.freed && u.nextRow == s.nextRow
    requires forall r :: r in u.rows ==> r in s.rows && u.rows[r] == s.rows[r]
    requires forall d :: 0 <= d < |s.pool| && d != c ==> Holders(u, d) == Holders(s, d) && (d in u.order <==> d in s.order)
    requires (if c in u.order then 1 else 0) + |Holders(u, c)| == (if c in s.order then 1 else 0) + |Holders(s, c)| - 1
    ensures LifetimesOk(Release(u, c))
  {
    var t := Release(u, c);
    assert RefsOk(s, c);
    FreedOnce(s.freed, c, c);
    assert Holders(t, c) == Holders(u, c);
    assert RefsOk(t, c);
    forall d | 0 <= d < |t.pool| ensures RefsOk(t, d) {
      if d != c {
        assert RefsOk(s, d);
        FreedOnce(s.freed, c, d);
        assert Holders(t, d) == Holders(u, d);
        OtherRefs(s, t, c, d);
      }
    }
  }

  lemma CloseKeepsLives(s: Window, id: RowId)
    requires LifetimesOk(s) && id in s.rows
    ensures s.rows[id].chunk < |s.pool| && LifetimesOk(Release(s.(rows := s.rows - {id}), s.rows[id].chunk))
  {
    var c := s.rows[id].chunk;
    var u := s.(rows := s.rows - {id});
    assert Holders(u, c) == Holders(s, c) - {id};
    assert id in Holders(s, c);
    forall d | 0 <= d < |s.pool| && d != c ensures Holders(u, d) == Holders(s, d) {
    }
    ReleaseKeepsLives(s, u, c);
  }

  lemma UnmapKeepsLives(s: Window, i: nat)
    requires LifetimesOk(s) && IdsOk(s) && i < |s.order|
    requires forall c :: c in Unmap(s, i).order <==> c in s.order && c != s.order[i]
    ensures LifetimesOk(Release(Unmap(s, i), s.order[i]))
  {
    var u := Unmap(s, i);
    forall d | 0 <= d < |s.pool| ensures Holders(u, d) == Holders(s, d) {
    }
    ReleaseKeepsLives(s, u, s.order[i]);
  }

  lemma AllocKeepsLives(s: Window, row: nat)
    requires LifetimesOk(s) && IdsOk(s)
    ensures LifetimesOk(AllocChunk(s, row).0)
  {
    var (t, c) := AllocChunk(s, row);
    if c.Some? {
      var i := LowerBound(s, row, 0);
      assert s.order == s.order[..i] + s.order[i..];
      forall d | 0 <= d < |t.pool| ensures RefsOk(t, d) {
        if d < |s.pool| {
          assert RefsOk(s, d);
          assert Holders(t, d) == Holders(s, d);
        } else {
          assert Holders(t, d) == {};
          assert d !in s.freed;
        }
      }
    }
  }

  /** A change of row counts and of the writing marker. */
  lemma CountsKeepLives(s: Window, t: Window)
    requires LifetimesOk(s) && |t.pool| == |s.pool| && t.order == s.order && t.rows == s.rows
    requires t.freed == s.freed && t.nextRow == s.nextRow
    requires forall c :: 0 <= c < |s.pool| ==> t.pool[c].refs == s.pool[c].refs
    ensures LifetimesOk(t)
  {
    forall d | 0 <= d < |t.pool| ensures RefsOk(t, d) {
      assert RefsOk(s, d);
      assert Holders(t, d) == Holders(s, d);
    }
  }

  // ---------------------------------------------------------------- each operation keeps the invariant

  lemma WriteRowKeeps(s: Window, row: nat, c: ChunkId, room: bool)
    requires Inv(s) && s.lastWrite == Some(c) && c in s.order && row < NONE
    requires row == s.pool[c].start + s.pool[c].count < s.limit
    ensures Inv(WriteRow(s, row, c, room).0)
  {
    if room {
      var grown := s.(pool := s.pool[c := s.pool[c].(count := s.pool[c].count + 1)]);
      GrowKeeps(s, grown, c);
      CountsKeepLives(s, grown);
      OpenKeepsLives(grown, row, c);
      ShrinkKeeps(grown, OpenRow(grown, row, c).0);
      var t := WriteRow(s, row, c, room).0;
      ShrinkKeeps(grown, t);
      CountsKeepLives(OpenRow(grown, row, c).0, t);
    }
  }

  /** At a conflict there is a chunk to evict: the one that starts at the row, if any, and the
      write chunk itself otherwise. */
  lemma ConflictEvicts(s: Window, row: nat)
    requires Structure(s) && row < NONE && ChunkForWriting(s, row).Conflict?
    ensures RemovedAt(s, row).Some?
    ensures var at := RemovedAt(s, row).value;
            at < |s.order| && (StartAt(s, at) == row || s.order[at] == s.lastWrite.value)
  {
    var c := s.lastWrite.value;
    WrapIsCovers(s, c, row);
    var k :| 0 <= k < |s.order| && s.order[k] == c;
    Neighbours(s, k, row);
    LowerBoundIs(s, row, 0, k + 1);
  }

  lemma Neighbours(s: Window, k: nat, row: nat)
    requires IdsOk(s) && Ordered(s) && k < |s.order| && StartAt(s, k) < row <= EndAt(s, k)
    ensures forall j :: 0 <= j <= k ==> StartAt(s, j) < row
    ensures forall j :: k < j < |s.order| ==> row <= StartAt(s, j)
  {
  }

  lemma RemoveKeeps(s: Window, i: nat)
    requires Inv(s) && i < |s.order|
    ensures Inv(Release(Unmap(s, i), s.order[i]))
  {
    UnmapKeeps(s, i);
    UnmapKeepsLives(s, i);
    ShrinkKeeps(Unmap(s, i), Release(Unmap(s, i), s.order[i]));
  }

  lemma NewRowKeeps(s: Window, row: nat, newChunk: bool, room: bool)
    requires Inv(s) && row < NONE
    ensures Inv(NewRow(s, row, newChunk, room).0)
  {
    if s.writing == NONE {
      var slot := if newChunk then NotFound else ChunkForWriting(s, row);
      if slot.Found? {
        WrapIsCovers(s, slot.chunk, row);
        WriteRowKeeps(s, row, slot.chunk, room);
      } else {
        if slot.Conflict? {
          ConflictEvicts(s, row);
          RemoveKeeps(s, RemovedAt(s, row).value);
        }
        var s1 := if slot.Conflict? then Release(Unmap(s, RemovedAt(s, row).value), s.order[RemovedAt(s, row).value]) else s;
        AllocThenWrite(s1, row, room);
      }
    }
  }

  lemma AllocThenWrite(s: Window, row: nat, room: bool)
    requires Inv(s) && row < NONE
    ensures var (t, c) := AllocChunk(s, row);
            Inv(t) && (c.Some? ==> c.value < |t.pool| && Inv(WriteRow(t, row, c.value, room).0))
  {
    var (t, c) := AllocChunk(s, row);
    AllocKeeps(s, row);
    AllocKeepsLives(s, row);
    if c.Some? {
      WriteRowKeeps(t, row, c.value, room);
    }
  }

  lemma GetRowKeeps(s: Window, row: nat)
    requires Inv(s) && row < NONE
    ensures Inv(GetRow(s, row).0)
  {
    if s.writing != row {
      FindChunkExact(s, row);
      var (s1, c) := FindChunk(s, row);
      hide LowerBound, RefsOk, Ordered;
      ShrinkKeeps(s, s1);
      CountsKeepLives(s, s1);
      if c.Some? {
        OpenKeepsLives(s1, row, c.value);
        ShrinkKeeps(s1, OpenRow(s1, row, c.value).0);
      }
    }
  }

  lemma EndRowKeeps(s: Window, id: RowId)
    requires Inv(s) && id in s.rows
    ensures Inv(EndRow(s, id)) && Inv(CloseRow(s, id))
  {
    CloseKeepsLives(s, id);
    ShrinkKeeps(s, CloseRow(s, id));
    ShrinkKeeps(s, EndRow(s, id));
    CountsKeepLives(CloseRow(s, id), EndRow(s, id));
  }

  lemma RollbackKeeps(s: Window, id: RowId)
    requires Inv(s) && id in s.rows
    ensures Inv(RollbackRow(s, id))
  {
    var c := s.rows[id].chunk;
    EndRowKeeps(s, id);
    if s.writing == s.rows[id].row {
      ShrinkKeeps(s, RollbackRow(s, id));
      CountsKeepLives(CloseRow(s, id), RollbackRow(s, id));
    }
  }

  lemma RemoveChunkKeeps(s: Window, row: nat)
    requires Inv(s)
    ensures Inv(RemoveChunk(s, row).0)
  {
    if RemovedAt(s, row).Some? {
      RemoveKeeps(s, RemovedAt(s, row).value);
    }
  }

  /** The references left once the first `i` chunks of the map are released. */
  predicate LivesFrom(s: Window, i: nat)
    requires i <= |s.order|
  {
    forall c :: 0 <= c < |s.pool| ==>
      && s.pool[c].refs == (if c in s.order[i..] then 1 else 0) + |Holders(s, c)|
      && multiset(s.freed)[c] == (if s.pool[c].refs == 0 then 1 else 0)
  }

  lemma {:induction false} ReleaseAllKeeps(s: Window, i: nat)
    requires IdsOk(s) && i <= |s.order| && LivesFrom(s, i)
    requires forall x, y :: 0 <= x < y < |s.order| ==> s.order[x] != s.order[y]
    ensures var t := ReleaseAll(s, i); LivesFrom(t, |t.order|)
    decreases |s.order| - i
  {
    if i < |s.order| {
      ReleaseOne(s, i);
      ReleaseAllKeeps(Release(s, s.order[i]), i + 1);
    }
  }

  lemma {:induction false} ReleaseAllShape(s: Window, i: nat)
    requires IdsOk(s) && i <= |s.order|
    requires forall c :: c in s.freed ==> c < |s.pool|
    ensures var t := ReleaseAll(s, i);
            && NoLonger(s, t) && t.nextRow == s.nextRow && forall c :: c in t.freed ==> c < |t.pool|
    decreases |s.order| - i
  {
    if i < |s.order| {
      ReleaseAllShape(Release(s, s.order[i]), i + 1);
    }
  }

  lemma ReleaseOne(s: Window, i: nat)
    requires IdsOk(s) && i < |s.order| && LivesFrom(s, i)
    requires forall x, y :: 0 <= x < y < |s.order| ==> s.order[x] != s.order[y]
    ensures LivesFrom(Release(s, s.order[i]), i + 1)
  {
    var c := s.order[i];
    var t := Release(s, c);
    assert s.order[i..] == [c] + s.order[i + 1..];
    assert c !in s.order[i + 1..];
    forall d | 0 <= d < |t.pool|
      ensures t.pool[d].refs == (if d in t.order[i + 1..] then 1 else 0) + |Holders(t, d)|
      ensures multiset(t.freed)[d] == (if t.pool[d].refs == 0 then 1 else 0)
    {
      FreedOnce(s.freed, c, d);
      assert Holders(t, d) == Holders(s, d);
    }
  }

  lemma ClearKeeps(s: Window)
    requires Inv(s)
    ensures Inv(Clear(s))
  {
    forall x, y | 0 <= x < y < |s.order| ensures s.order[x] != s.order[y] { OrderDistinct(s, x, y); }
    AllHeld(s);
    hide LivesFrom, Ordered, CachesOk, RefsOk, NoLonger;
    ReleaseAllShape(s, 0);
    ReleaseAllKeeps(s, 0);
    EmptyMap(s, ReleaseAll(s, 0), Clear(s));
  }

  lemma AllHeld(s: Window)
    requires Inv(s)
    ensures LivesFrom(s, 0)
  {
    assert s.order[0..] == s.order;
    forall c | 0 <= c < |s.pool|
      ensures s.pool[c].refs == (if c in s.order[0..] then 1 else 0) + |Holders(s, c)|
      ensures multiset(s.freed)[c] == (if s.pool[c].refs == 0 then 1 else 0)
    {
      assert RefsOk(s, c);
    }
  }

  /** With every chunk of the map released, the map may be emptied. */
  lemma EmptyMap(s: Window, r: Window, t: Window)
    requires Inv(s) && NoLonger(s, r) && LivesFrom(r, |r.order|) && r.rows == s.rows && r.nextRow == s.nextRow
    requires forall c :: c in r.freed ==> c < |r.pool|
    requires t == r.(order := [], lastRead := None, lastWrite := None, limit := NONE, writing := NONE)
    ensures Inv(t)
  {
    hide Ordered, CachesOk;
    NoneMapped(r, t);
    hide RefsOk, LivesFrom;
  }

  lemma NoneMapped(r: Window, t: Window)
    requires LivesFrom(r, |r.order|) && t.pool == r.pool && t.rows == r.rows && t.freed == r.freed
    requires t.order == [] && t.lastRead == None && t.lastWrite == None && t.limit == NONE
    ensures (forall c :: 0 <= c < |t.pool| ==> RefsOk(t, c)) && IdsOk(t) && Ordered(t) && CachesOk(t)
  {
    forall c | 0 <= c < |t.pool| ensures RefsOk(t, c) {
      assert Holders(t, c) == Holders(r, c);
    }
  }

  // ---------------------------------------------------------------- runs

  datatype Event =
    | OnNewRow(row: nat, newChunk: bool, room: bool)
    | OnGetRow(row: nat)
    | OnEndRow(id: RowId)
    | OnRollbackRow(id: RowId)
    | OnRemoveChunk(row: nat)
    | OnClear

  /** Row numbers stay below the one that stands for no row, and a row object is given back
      once. */
  predicate Allowed(s: Window, e: Event) {
    match e
    case OnNewRow(row, _, _) => row < NONE
    case OnGetRow(row) => row < NONE
    case OnEndRow(id) => id in s.rows
    case OnRollbackRow(id) => id in s.rows
    case _ => true
  }

  /** Every call keeps the invariant. */
  function Step(s: Window, e: Event): (t: Window)
    requires Inv(s) && Allowed(s, e)
    ensures Inv(t)
  {
    match e
    case OnNewRow(row, newChunk, room) => NewRowKeeps(s, row, newChunk, room); NewRow(s, row, newChunk, room).0
    case OnGetRow(row) => GetRowKeeps(s, row); GetRow(s, row).0
    case OnEndRow(id) => EndRowKeeps(s, id); EndRow(s, id)
    case OnRollbackRow(id) => RollbackKeeps(s, id); RollbackRow(s, id)
    case OnRemoveChunk(row) => RemoveChunkKeeps(s, row); RemoveChunk(s, row).0
    case OnClear => ClearKeeps(s); Clear(s)
  }

  /** A run; a call that is not allowed is taken not to happen. */
  function Run(s: Window, es: seq<Event>): (t: Window)
    requires Inv(s)
    ensures Inv(t)
    decreases |es|
  {
    if es == [] then s
    else Run(if Allowed(s, es[0]) then Step(s, es[0]) else s, es[1..])
  }

  /** In every reachable state: chunk ranges are ordered and disjoint, and the write cache never
      lets a row reach the next chunk. */
  lemma RunsStayOrdered(es: seq<Event>, i: nat, j: nat)
    requires i < j < |Run(Initial, es).order|
    ensures var s := Run(Initial, es);
            && EndAt(s, i) <= StartAt(s, j)
            && (s.lastWrite == Some(s.order[i]) ==> s.limit <= StartAt(s, j))
  {
    StateOrdered(Run(Initial, es), i, j);
  }

  lemma StateOrdered(s: Window, i: nat, j: nat)
    requires Structure(s) && i < j < |s.order|
    ensures EndAt(s, i) <= StartAt(s, j)
    ensures s.lastWrite == Some(s.order[i]) ==> s.limit <= StartAt(s, j)
  {
    assert EndAt(s, i) <= StartAt(s, j);
    if s.lastWrite == Some(s.order[i]) {
      assert s.limit <= StartAt(s, i + 1);
      assert i + 1 < j ==> StartAt(s, i + 1) < StartAt(s, j);
    }
  }

  /** In every reachable state: a chunk has one reference for the map and one for each open row,
      nothing that is still pointed to has been freed, and nothing is freed twice. */
  lemma RunsNeverDangle(es: seq<Event>, c: ChunkId)
    requires c < |Run(Initial, es).pool|
    ensures var s := Run(Initial, es);
            && s.pool[c].refs == (if c in s.order then 1 else 0) + |Holders(s, c)|
            && multiset(s.freed)[c] == (if s.pool[c].refs == 0 then 1 else 0)
            && (c in s.order || s.lastRead == Some(c) || s.lastWrite == Some(c) ==> c !in s.freed)
            && (forall r :: r in s.rows && s.rows[r].chunk == c ==> c !in s.freed)
  {
    var s := Run(Initial, es);
    assert RefsOk(s, c);
    forall r | r in s.rows && s.rows[r].chunk == c ensures c !in s.freed {
      assert r in Holders(s, c);
    }
  }

  /** Once the map is empty and every row object was given back, each chunk ever created has
      been freed exactly once. */
  lemma NothingLeaks(es: seq<Event>, c: ChunkId)
    requires var s := Run(Initial, es); s.order == [] && s.rows == map[] && c < |s.pool|
    ensures multiset(Run(Initial, es).freed)[c] == 1
  {
    var s := Run(Initial, es);
    assert RefsOk(s, c);
    assert Holders(s, c) == {};
  }

  // ---------------------------------------------------------------- the rows a window holds

  /** Some chunk of the map covers the row. */
  ghost predicate Live(s: Window, row: nat)
    requires IdsOk(s)
  {
    exists c :: c in s.order && c < |s.pool| && Covers(s, c, row)
  }

  /** `getRow` succeeds exactly on the rows that are there and not being written. */
  lemma GetRowExact(s: Window, row: nat)
    requires Inv(s) && row < NONE
    ensures GetRow(s, row).1.Some? <==> Live(s, row) && s.writing != row
    ensures GetRow(s, row).1.Some? ==>
              var (t, id) := GetRow(s, row);
              id.value in t.rows && t.rows[id.value].row == row && Covers(s, t.rows[id.value].chunk, row)
  {
    FindChunkExact(s, row);
  }

  lemma LiveUnmapped(s: Window, i: nat, row: nat)
    requires Structure(s) && i < |s.order|
    ensures IdsOk(Release(Unmap(s, i), s.order[i]))
    ensures Live(Release(Unmap(s, i), s.order[i]), row) <==> Live(s, row) && !Covers(s, s.order[i], row)
  {
    UnmapKeeps(s, i);
    var t := Release(Unmap(s, i), s.order[i]);
    forall c | c in t.order && c < |t.pool| ensures Covers(t, c, row) <==> Covers(s, c, row) {
    }
    if Live(t, row) {
      var c :| c in t.order && c < |t.pool| && Covers(t, c, row);
      assert c in s.order && Covers(s, c, row);
      if Covers(s, s.order[i], row) { CoverUnique(s, c, s.order[i], row); }
    }
    if Live(s, row) && !Covers(s, s.order[i], row) {
      var c :| c in s.order && c < |s.pool| && Covers(s, c, row);
      assert c in t.order && Covers(t, c, row);
    }
  }

  lemma LiveInserted(s: Window, r: nat, i: nat, row: nat)
    requires IdsOk(s) && i <= |s.order|
    ensures IdsOk(InsertAt(s, r, i)) && (Live(InsertAt(s, r, i), row) <==> Live(s, row))
  {
    var t := InsertAt(s, r, i);
    InsertedShape(s, r, i);
    assert s.order == s.order[..i] + s.order[i..];
    forall c | 0 <= c < |s.pool| ensures Covers(t, c, row) <==> Covers(s, c, row) {
    }
    if Live(s, row) {
      var c :| c in s.order && c < |s.pool| && Covers(s, c, row);
      assert c in t.order && Covers(t, c, row);
    }
    if Live(t, row) {
      var c :| c in t.order && c < |t.pool| && Covers(t, c, row);
      assert c != |s.pool| && c in s.order && Covers(s, c, row);
    }
  }

  lemma LiveWritten(s: Window, r: nat, c: ChunkId, room: bool, row: nat)
    requires IdsOk(s) && c in s.order && c < |s.pool| && r == s.pool[c].start + s.pool[c].count
    ensures var (t, id) := WriteRow(s, r, c, room);
            && IdsOk(t) && (id.Some? <==> room)
            && (Live(t, row) <==> Live(s, row) || (room && row == r))
  {
    var t := WriteRow(s, r, c, room).0;
    forall d | 0 <= d < |s.pool|
      ensures Covers(t, d, row) <==> Covers(s, d, row) || (room && d == c && row == r)
    {
      if room && d == c { assert t.pool[d].count == s.pool[d].count + 1 && t.pool[d].start == s.pool[d].start; }
    }
    if room && row == r { assert Covers(t, c, row); }
    if Live(s, row) {
      var d :| d in s.order && d < |s.pool| && Covers(s, d, row);
      assert Covers(t, d, row);
    }
    if Live(t, row) {
      var d :| d in t.order && d < |t.pool| && Covers(t, d, row);
    }
  }

  /** The position of the chunk that a call of `newRow` throws out, if it does. */
  function EvictedAt(s: Window, row: nat, newChunk: bool): Option<nat>
    requires Inv(s)
  {
    if s.writing == NONE && !newChunk && ChunkForWriting(s, row).Conflict? then RemovedAt(s, row) else None
  }

  /** What `newRow` does to the rows: the new row is there if a row object came back, the rows
      of an evicted chunk are gone, and every other row stays as it was. */
  lemma NewRowExact(s: Window, r: nat, newChunk: bool, room: bool, row: nat)
    requires Inv(s) && r < NONE
    ensures var (t, id) := NewRow(s, r, newChunk, room);
            var at := EvictedAt(s, r, newChunk);
            && IdsOk(t)
            && (Live(t, row) <==> (Live(s, row) && !(at.Some? && Covers(s, s.order[at.value], row)))
                                  || (id.Some? && row == r))
  {
    if s.writing == NONE {
      var slot := if newChunk then NotFound else ChunkForWriting(s, r);
      NewRowIs(s, r, newChunk, room);
      if slot.Found? {
        WrapIsCovers(s, slot.chunk, r);
        hide NewRow, WriteRow, LowerBound, Ordered, LifetimesOk, Live;
        LiveWritten(s, r, slot.chunk, room, row);
      } else if slot.Conflict? {
        ConflictEvicts(s, r);
        var at := RemovedAt(s, r).value;
        LiveUnmapped(s, at, row);
        RemoveKeeps(s, at);
        hide NewRow, WriteRow, LowerBound, Ordered, LifetimesOk, Live, AllocChunk;
        LiveAllocated(Evicted(s, r, slot), r, room, row);
      } else {
        hide NewRow, WriteRow, LowerBound, Ordered, LifetimesOk, Live, AllocChunk;
        LiveAllocated(s, r, room, row);
      }
    }
  }

  lemma LiveAllocated(s: Window, r: nat, room: bool, row: nat)
    requires Inv(s) && r < NONE
    ensures var (t, c) := AllocChunk(s, r);
            && IdsOk(t)
            && (c.None? ==> t == s)
            && (c.Some? ==> c.value < |t.pool|)
            && (c.Some? ==>
                  var (u, id) := WriteRow(t, r, c.value, room);
                  IdsOk(u) && (Live(u, row) <==> Live(s, row) || (id.Some? && row == r)))
  {
    var (t, c) := AllocChunk(s, r);
    AllocKeeps(s, r);
    if c.Some? {
      LiveInserted(s, r, LowerBound(s, r, 0), row);
      LiveWritten(t, r, c.value, room, row);
    }
  }

  /** No chunk starts at the row and none covers it. */
  ghost predicate Vacant(s: Window, r: nat)
    requires IdsOk(s)
  {
    !Live(s, r) && forall i :: 0 <= i < |s.order| ==> StartAt(s, i) != r
  }

  /** A chunk can be put in exactly where the row is vacant. */
  lemma AllocExact(s: Window, r: nat)
    requires Inv(s) && r < NONE
    ensures AllocChunk(s, r).1.Some? <==> Vacant(s, r)
  {
    var i := LowerBound(s, r, 0);
    if i < |s.order| && StartAt(s, i) == r {
      assert !Vacant(s, r);
    } else {
      if i > 0 { WrapIsCovers(s, s.order[i - 1], r); }
      forall k | 0 <= k < |s.order| ensures StartAt(s, k) != r {
        if i < k { assert StartAt(s, i) < StartAt(s, k); }
      }
      if i > 0 && Covers(s, s.order[i - 1], r) {
        assert s.order[i - 1] in s.order;
      } else {
        forall c | c in s.order && c < |s.pool| ensures !Covers(s, c, r) {
          var k :| 0 <= k < |s.order| && s.order[k] == c;
          NotCovered(s, r, i, k);
        }
      }
    }
  }

  lemma NotCovered(s: Window, r: nat, i: nat, k: nat)
    requires IdsOk(s) && Ordered(s) && i == LowerBound(s, r, 0) && k < |s.order|
    requires i < |s.order| ==> StartAt(s, i) != r
    requires i > 0 ==> !Covers(s, s.order[i - 1], r)
    ensures !Covers(s, s.order[k], r)
  {
    if k + 1 < i {
      assert EndAt(s, k) <= StartAt(s, i - 1) && StartAt(s, i - 1) < r;
    } else if i < k {
      assert StartAt(s, i) < StartAt(s, k);
    }
  }

  /** The row is the end of the write chunk. */
  predicate Appends(s: Window, r: nat)
    requires Inv(s)
  {
    s.lastWrite.Some? && r == s.pool[s.lastWrite.value].start + s.pool[s.lastWrite.value].count
  }

  /** After a conflict the row is vacant. */
  lemma ConflictVacates(s: Window, r: nat)
    requires Inv(s) && r < NONE && ChunkForWriting(s, r).Conflict?
    ensures RemovedAt(s, r).Some?
    ensures var at := RemovedAt(s, r).value; var t := Release(Unmap(s, at), s.order[at]);
      Inv(t) && Vacant(t, r)
  {
    ConflictEvicts(s, r);
    WrapIsCovers(s, s.lastWrite.value, r);
    var at := RemovedAt(s, r).value;
    RemoveKeeps(s, at);
    var k :| 0 <= k < |s.order| && s.order[k] == s.lastWrite.value;
    assert StartAt(s, k) < r == EndAt(s, k);
    hide LowerBound, LifetimesOk, CachesOk, RemovedAt;
    LeavesVacant(s, r, at, k);
  }

  lemma LeavesVacant(s: Window, r: nat, at: nat, k: nat)
    requires Inv(s) && r < NONE && k < |s.order| && at < |s.order|
    requires StartAt(s, k) < r == EndAt(s, k) && RemovedAt(s, r) == Some(at)
    ensures var t := Release(Unmap(s, at), s.order[at]);
      IdsOk(t) && Vacant(t, r)
  {
    UnmapKeeps(s, at);
    LiveUnmapped(s, at, r);
    hide RemovedAt, LifetimesOk, CachesOk, Ordered;
    var t := Release(Unmap(s, at), s.order[at]);
    forall c | c in s.order && c != s.order[at] ensures c < |s.pool| && s.pool[c].start != r && !Covers(s, c, r) {
      var j :| 0 <= j < |s.order| && s.order[j] == c;
      StartsThere(s, r, at, k, j);
    }
    forall i | 0 <= i < |t.order| ensures StartAt(t, i) != r {
      assert t.order[i] in t.order;
    }
  }

  lemma StartsThere(s: Window, r: nat, at: nat, k: nat, j: nat)
    requires Inv(s) && r < NONE && k < |s.order| && j < |s.order| && at < |s.order| && j != at
    requires StartAt(s, k) < r == EndAt(s, k) && RemovedAt(s, r) == Some(at)
    ensures StartAt(s, j) != r && !Covers(s, s.order[j], r)
  {
    if StartAt(s, j) == r { RemovesStart(s, r, j); }
    if j < k {
      assert EndAt(s, j) <= StartAt(s, k);
    } else if k < j {
      assert EndAt(s, k) <= StartAt(s, j);
    }
  }

  /** When a row object comes back: nobody is writing, there is room, and the row is the end of the write
      chunk, unless a new chunk is asked for, or vacant. */
  lemma NewRowGranted(s: Window, r: nat, newChunk: bool, room: bool)
    requires Inv(s) && r < NONE
    ensures NewRow(s, r, newChunk, room).1.Some?
            <==> s.writing == NONE && room && ((!newChunk && Appends(s, r)) || Vacant(s, r))
  {
    if s.writing == NONE {
      if s.lastWrite.Some? { WrapIsCovers(s, s.lastWrite.value, r); }
      var slot := if newChunk then NotFound else ChunkForWriting(s, r);
      if slot.Conflict? {
        ConflictVacates(s, r);
        var at := RemovedAt(s, r).value;
        AllocExact(Release(Unmap(s, at), s.order[at]), r);
      } else if slot.NotFound? {
        AllocExact(s, r);
      }
    }
  }

  /** Appending row `r` throws out chunk `c`. */
  predicate Evicts(s: Window, r: nat, c: ChunkId)
    requires Inv(s)
  {
    var at := EvictedAt(s, r, false);
    at.Some? && at.value < |s.order| && s.order[at.value] == c
  }

  /** An append throws the write chunk out exactly when it falls on the end of that chunk, the row
      limit does not lie behind it, and yet no chunk starts there: nothing was in the way. */
  lemma NeedlessEvictionExact(s: Window, r: nat)
    requires Inv(s) && r < NONE && s.writing == NONE && s.lastWrite.Some?
    ensures var w := s.lastWrite.value;
      && w < |s.pool|
      && (Evicts(s, r, w) <==>
            && r == s.pool[w].start + s.pool[w].count
            && s.limit <= r
            && forall i :: 0 <= i < |s.order| ==> StartAt(s, i) != r)
  {
    var w := s.lastWrite.value;
    WrapIsCovers(s, w, r);
    if ChunkForWriting(s, r).Conflict? {
      ConflictEvicts(s, r);
      var at := RemovedAt(s, r).value;
      var k :| 0 <= k < |s.order| && s.order[k] == w;
      forall i | 0 <= i < |s.order| && StartAt(s, i) == r ensures at == i {
        RemoveChunkExact(s, r, i);
      }
      assert StartAt(s, k) < s.limit;
      if at != k { assert s.order[at] != s.order[k] by { OrderDistinct(s, if at < k then at else k, if at < k then k else at); } }
    }
  }

  /** The rows of the write chunk are then lost, and no others. */
  lemma NeedlessEvictionLoses(s: Window, r: nat, room: bool, row: nat)
    requires Inv(s) && r < NONE && s.writing == NONE && s.lastWrite.Some? && Evicts(s, r, s.lastWrite.value)
    ensures var t := NewRow(s, r, false, room).0;
      && IdsOk(t)
      && (row != r ==> (Live(t, row) <==> Live(s, row) && !Covers(s, s.lastWrite.value, row)))
  {
    NewRowExact(s, r, false, room, row);
  }

  lemma RemovesStart(s: Window, row: nat, k: nat)
    requires Inv(s) && k < |s.order| && StartAt(s, k) == row
    ensures RemovedAt(s, row) == Some(k)
  {
    assert forall j :: 0 <= j < k ==> StartAt(s, j) < StartAt(s, k);
    LowerBoundIs(s, row, 0, k);
  }

  lemma RemovesBehind(s: Window, row: nat, k: nat)
    requires Inv(s) && row < NONE && k < |s.order| && StartAt(s, k) < row
    requires k + 1 < |s.order| ==> row < StartAt(s, k + 1)
    ensures RemovedAt(s, row) == if row < EndAt(s, k) then None else Some(k)
  {
    assert forall j :: 0 <= j < k ==> StartAt(s, j) < StartAt(s, k);
    LowerBoundIs(s, row, 0, k + 1);
    WrapIsCovers(s, s.order[k], row);
    hide Inv, LifetimesOk, CachesOk, Ordered, LowerBound;
  }

  /** For a row before every chunk, and in an empty map, `removeChunk` does nothing. */
  lemma RemovesNone(s: Window, row: nat)
    requires Inv(s) && forall k :: 0 <= k < |s.order| ==> row < StartAt(s, k)
    ensures RemoveChunk(s, row) == (s, None)
  {
    LowerBoundIs(s, row, 0, 0);
  }

  /** `removeChunk` takes out the chunk that starts at the row; for a row inside a chunk it does
      nothing; for a row behind the end of the nearest chunk it takes that chunk out. */
  lemma RemoveChunkExact(s: Window, row: nat, k: nat)
    requires Inv(s) && row < NONE && k < |s.order|
    ensures StartAt(s, k) == row ==> RemovedAt(s, row) == Some(k)
    ensures StartAt(s, k) < row < EndAt(s, k) ==> RemoveChunk(s, row) == (s, None)
    ensures EndAt(s, k) <= row && StartAt(s, k) < row && (k + 1 < |s.order| ==> row < StartAt(s, k + 1)) ==>
              RemovedAt(s, row) == Some(k)
  {
    assert k + 1 < |s.order| ==> EndAt(s, k) <= StartAt(s, k + 1);
    hide Inv, RemovedAt;
    if StartAt(s, k) == row {
      RemovesStart(s, row, k);
    } else if StartAt(s, k) < row && (k + 1 < |s.order| ==> row < StartAt(s, k + 1)) {
      RemovesBehind(s, row, k);
    }
  }

  /** The chunk that `removeChunk` takes out for a row: the one that starts there, or the nearest before it
      if the row lies behind its end. */
  predicate Removes(s: Window, row: nat, k: nat)
    requires IdsOk(s)
  {
    && k < |s.order|
    && (StartAt(s, k) == row ||
        (StartAt(s, k) < row && EndAt(s, k) <= row && (k + 1 < |s.order| ==> row < StartAt(s, k + 1))))
  }

  /** The range it reports is that chunk's, its rows are gone and no others, and the chunk lives on exactly
      as long as a row of it is open. */
  lemma RemoveChunkLoses(s: Window, row: nat, k: nat, lost: nat)
    requires Inv(s) && row < NONE && Removes(s, row, k)
    ensures var (t, range) := RemoveChunk(s, row); var c := s.order[k];
      && range == Some((StartAt(s, k), EndAt(s, k)))
      && IdsOk(t) && (Live(t, lost) <==> Live(s, lost) && !(StartAt(s, k) <= lost < EndAt(s, k)))
      && t.rows == s.rows && (c in t.freed <==> Holders(s, c) == {})
  {
    RemoveChunkExact(s, row, k);
    RemoveChunkKeeps(s, row);
    LiveUnmapped(s, k, lost);
    UnmapMembers(s, k);
    hide LowerBound, RemovedAt, LifetimesOk, CachesOk, Ordered, Live;
    FreedWhenUnheld(RemoveChunk(s, row).0, s, s.order[k]);
  }

  lemma FreedWhenUnheld(t: Window, s: Window, c: ChunkId)
    requires Inv(t) && t.rows == s.rows && c < |t.pool| && c !in t.order
    ensures c in t.freed <==> Holders(s, c) == {}
  {
    assert RefsOk(t, c);
    assert Holders(t, c) == Holders(s, c);
    assert c in t.freed <==> multiset(t.freed)[c] > 0;
  }

  // ---------------------------------------------------------------- clearing

  /** A cleared window has no rows: none is found, every row can be written if there is room, and a chunk of
      the map is freed exactly when no row of it is open; the open rows stay. */
  lemma ClearExact(s: Window, row: nat, newChunk: bool, room: bool)
    requires Inv(s)
    ensures Inv(Clear(s)) && !Live(Clear(s), row) && GetRow(Clear(s), row).1 == None
    ensures row < NONE ==> (NewRow(Clear(s), row, newChunk, room).1.Some? <==> room)
    ensures Clear(s).rows == s.rows && Clear(s).writing == NONE
  {
    ClearKeeps(s);
    var t := Clear(s);
    hide Clear, Inv, NewRow;
    if row < NONE { NewRowGranted(t, row, newChunk, room); }
  }

  lemma ClearFrees(s: Window, c: ChunkId)
    requires Inv(s) && c < |s.pool|
    ensures c in s.order ==> c !in s.freed && (c in Clear(s).freed <==> Holders(s, c) == {})
    ensures c !in s.order ==> (c in Clear(s).freed <==> c in s.freed)
  {
    ClearKeeps(s);
    ReleaseAllShape(s, 0);
    FreedWhenUnheld(Clear(s), s, c);
    assert RefsOk(s, c);
    assert c in s.freed <==> multiset(s.freed)[c] > 0;
    hide Clear;
  }

  // ---------------------------------------------------------------- the row being written

  /** The writing marker is set by a row handed out for writing, and taken away when a row of that number is
      ended or rolled back, or by `clear`; nothing else changes it. */
  function MarkerAfter(s: Window, e: Event): nat
    requires Inv(s) && Allowed(s, e)
  {
    match e
    case OnNewRow(row, newChunk, room) => if NewRow(s, row, newChunk, room).1.Some? then row else s.writing
    case OnEndRow(id) => if s.rows[id].row == s.writing then NONE else s.writing
    case OnRollbackRow(id) => if s.rows[id].row == s.writing then NONE else s.writing
    case OnClear => NONE
    case _ => s.writing
  }

  lemma WritingMarker(s: Window, e: Event)
    requires Inv(s) && Allowed(s, e)
    ensures Step(s, e).writing == MarkerAfter(s, e)
  {
    hide LowerBound, Ordered, CachesOk, RefsOk, Sub32;
  }

  /** A row object that is given back is closed, and no other; nothing but `newRow` and `getRow` opens one. */
  lemma OpenRows(s: Window, e: Event)
    requires Inv(s) && Allowed(s, e)
    ensures var t := Step(s, e);
      && (e.OnEndRow? || e.OnRollbackRow? ==> t.rows == s.rows - {e.id})
      && (e.OnRemoveChunk? || e.OnClear? ==> t.rows == s.rows)
      && (e.OnGetRow? && GetRow(s, e.row).1.None? ==> t.rows == s.rows)
      && (e.OnNewRow? && NewRow(s, e.row, e.newChunk, e.room).1.None? ==> t.rows == s.rows)
  {
    if e.OnNewRow? { RefusedRow(s, e.row, e.newChunk, e.room); }
    hide NewRow, LowerBound, Ordered, CachesOk, RefsOk, Sub32, LifetimesOk;
  }

  lemma RefusedRow(s: Window, r: nat, newChunk: bool, room: bool)
    requires Inv(s) && r < NONE
    ensures var (t, id) := NewRow(s, r, newChunk, room); id.None? ==> t.rows == s.rows
  {
    hide LowerBound, Ordered, CachesOk, LifetimesOk, RemovedAt, ChunkForWriting;
  }

  /** A row handed out for writing is a new row object on the write chunk, and the row after it can be
      appended next. */
  lemma WrittenRow(s: Window, r: nat, newChunk: bool, room: bool)
    requires Inv(s) && r < NONE && NewRow(s, r, newChunk, room).1.Some?
    ensures var (t, id) := NewRow(s, r, newChunk, room);
      && Inv(t) && Appends(t, r + 1) && t.lastWrite.value in t.order
      && t.rows == s.rows[id.value := Row(r, t.lastWrite.value)] && id.value !in s.rows
  {
    NewRowKeeps(s, r, newChunk, room);
    if s.lastWrite.Some? { WrapIsCovers(s, s.lastWrite.value, r); }
    assert s.nextRow !in s.rows;
    var t := NewRow(s, r, newChunk, room).0;
    WriteEnds(s, r, newChunk, room);
    assert t.lastWrite.value in t.order;
    hide NewRow, IdsOk, Ordered, InRange, CachesOk, LifetimesOk;
  }

  /** The state in which the row is written to the write chunk. */
  lemma WriteEnds(s: Window, r: nat, newChunk: bool, room: bool)
    requires Inv(s) && r < NONE && NewRow(s, r, newChunk, room).1.Some?
    ensures var (t, id) := NewRow(s, r, newChunk, room);
      && t.lastWrite.Some? && t.lastWrite.value < |t.pool|
      && t.pool[t.lastWrite.value].start + t.pool[t.lastWrite.value].count == r + 1
      && id == Some(s.nextRow) && t.rows == s.rows[s.nextRow := Row(r, t.lastWrite.value)]
  {
    if s.lastWrite.Some? { WrapIsCovers(s, s.lastWrite.value, r); }
    NewRowIs(s, r, newChunk, room);
    var slot := if newChunk then NotFound else ChunkForWriting(s, r);
    if slot.Found? {
      hide NewRow, WriteRow, LowerBound, Ordered, LifetimesOk, Sub32;
      WriteOn(s, r, slot.chunk, room);
    } else {
      var s1 := Evicted(s, r, slot);
      hide NewRow, WriteRow, Inv, Evicted, AllocChunk, Sub32;
      AllocEnds(s1, r, room);
    }
  }

  lemma NewRowIs(s: Window, r: nat, newChunk: bool, room: bool)
    requires Inv(s) && r < NONE && s.writing == NONE
    ensures var slot := if newChunk then NotFound else ChunkForWriting(s, r);
      if slot.Found? then slot.chunk < |s.pool| && NewRow(s, r, newChunk, room) == WriteRow(s, r, slot.chunk, room)
      else
        var (t, c) := AllocChunk(Evicted(s, r, slot), r);
        if c.None? then NewRow(s, r, newChunk, room) == (t, None)
        else c.value < |t.pool| && NewRow(s, r, newChunk, room) == WriteRow(t, r, c.value, room)
  {
    hide WriteRow, Release, Unmap, RemovedAt, LowerBound, Ordered, LifetimesOk, Sub32;
  }

  lemma AllocEnds(s: Window, r: nat, room: bool)
    requires IdsOk(s)
    ensures var (s2, c) := AllocChunk(s, r);
      && (c.Some? ==> c.value < |s2.pool|)
      && (c.Some? ==> var (t, id) := WriteRow(s2, r, c.value, room);
            id.Some? ==> && t.lastWrite == c && c.value < |t.pool| && id == Some(s.nextRow)
                         && t.pool[c.value].start + t.pool[c.value].count == r + 1
                         && t.rows == s.rows[s.nextRow := Row(r, c.value)])
  {
    hide LowerBound, WriteRow, Sub32;
    var (s2, c) := AllocChunk(s, r);
    if c.Some? { WriteOn(s2, r, c.value, room); }
  }

  lemma WriteOn(s: Window, r: nat, c: ChunkId, room: bool)
    requires c < |s.pool| && s.pool[c].start + s.pool[c].count == r && s.lastWrite == Some(c)
    ensures var (t, id) := WriteRow(s, r, c, room);
      && (id.Some? ==> t.lastWrite == Some(c) && |t.pool| == |s.pool| && id == Some(s.nextRow))
      && (id.Some? ==> t.pool[c].start + t.pool[c].count == r + 1 && t.rows == s.rows[s.nextRow := Row(r, c)])
  {
  }

  /** Ending a row, or looking one up, changes no row; rolling back the row being written takes the last row
      of its chunk away, and no other. */
  lemma ClosingKeepsRows(s: Window, e: Event, row: nat)
    requires Inv(s) && Allowed(s, e) && (e.OnEndRow? || e.OnRollbackRow? || e.OnGetRow?)
    ensures var taken := e.OnRollbackRow? && s.rows[e.id].row == s.writing && s.rows[e.id].chunk in s.order
                         && Covers(s, s.rows[e.id].chunk, row) && !Covers(s, s.rows[e.id].chunk, row + 1);
      Live(Step(s, e), row) <==> Live(s, row) && !taken
  {
    match e
    case OnRollbackRow(id) =>
      RolledBack(s, id, row);
      hide RollbackRow, Inv, Live;
    case OnEndRow(id) =>
      SameRanges(s, EndRow(s, id), row);
      hide EndRow, Inv, Live;
    case OnGetRow(r) =>
      LookedUp(s, r);
      SameRanges(s, GetRow(s, r).0, row);
      hide GetRow, Inv, Live;
  }

  lemma LookedUp(s: Window, r: nat)
    requires Inv(s) && r < NONE
    ensures var t := GetRow(s, r).0;
      && t.order == s.order && |t.pool| == |s.pool|
      && forall c :: 0 <= c < |s.pool| ==> t.pool[c].start == s.pool[c].start && t.pool[c].count == s.pool[c].count
  {
    FindChunkExact(s, r);
    hide LowerBound, Ordered, CachesOk, LifetimesOk, Sub32, Covers;
  }

  lemma SameRanges(s: Window, t: Window, row: nat)
    requires IdsOk(s) && t.order == s.order && |t.pool| == |s.pool|
    requires forall c :: 0 <= c < |s.pool| ==> t.pool[c].start == s.pool[c].start && t.pool[c].count == s.pool[c].count
    ensures IdsOk(t) && (Live(t, row) <==> Live(s, row))
  {
    assert forall c :: 0 <= c < |s.pool| ==> (Covers(t, c, row) <==> Covers(s, c, row));
  }

  lemma RolledBack(s: Window, id: RowId, row: nat)
    requires Inv(s) && id in s.rows
    ensures var t := RollbackRow(s, id); var c := s.rows[id].chunk;
      var taken := s.rows[id].row == s.writing && c in s.order && Covers(s, c, row) && !Covers(s, c, row + 1);
      IdsOk(t) && (Live(t, row) <==> Live(s, row) && !taken)
  {
    var t, c := RollbackRow(s, id), s.rows[id].chunk;
    assert t.order == s.order && |t.pool| == |s.pool|;
    var last := s.rows[id].row == s.writing && Covers(s, c, row) && !Covers(s, c, row + 1);
    forall d | 0 <= d < |s.pool| ensures Covers(t, d, row) <==> Covers(s, d, row) && !(d == c && last) {
      if d != c { assert t.pool[d] == s.pool[d]; }
    }
    if Live(s, row) {
      var d :| d in s.order && d < |s.pool| && Covers(s, d, row);
      if d == c || c !in s.order {
        assert Covers(t, d, row) <==> !(d == c && last);
      }
      if c in s.order && last { OnlyCover(s, c, row); }
    }
  }

  lemma OnlyCover(s: Window, c: ChunkId, row: nat)
    requires IdsOk(s) && Ordered(s) && c in s.order && Covers(s, c, row)
    ensures forall d :: d in s.order && Covers(s, d, row) ==> d == c
  {
    forall d | d in s.order && Covers(s, d, row) ensures d == c { CoverUnique(s, c, d, row); }
  }

  /** A row appended to the write chunk and rolled back at once leaves the map, the counts and
      the references as they were. */
  lemma RollbackUndoes(s: Window, row: nat)
    requires Inv(s) && row < NONE && s.writing == NONE && ChunkForWriting(s, row).Found?
    ensures var (t, id) := NewRow(s, row, false, true);
            && id.Some? && Inv(t) && id.value in t.rows
            && RollbackRow(t, id.value) == s.(nextRow := s.nextRow + 1)
  {
    var c := ChunkForWriting(s, row).chunk;
    var (t, id) := NewRow(s, row, false, true);
    NewRowKeeps(s, row, false, true);
    assert s.nextRow !in s.rows;
    assert t.rows - {id.value} == s.rows;
    assert RefsOk(s, c);
    var u := RollbackRow(t, id.value);
    assert u.pool[c] == s.pool[c];
    assert u.pool == s.pool;
  }

  // ---------------------------------------------------------------- a limit left behind

  const StaleRun := [OnNewRow(1, true, true), OnEndRow(0), OnNewRow(0, true, true), OnEndRow(1), OnRemoveChunk(1)]

  const Stale := Window([Chunk(1, 1, 0), Chunk(0, 1, 1)], [1], [0], map[], 2, None, Some(1), 1, NONE)

  lemma FirstWrites()
    ensures Inv(Initial)
    ensures Allowed(Initial, StaleRun[0])
    ensures Step(Initial, StaleRun[0]) == Window([Chunk(1, 1, 2)], [0], [], map[0 := Row(1, 0)], 1, None, Some(0), NONE, 1)
  {
  }

  lemma FirstEnds(s: Window)
    requires s == Window([Chunk(1, 1, 2)], [0], [], map[0 := Row(1, 0)], 1, None, Some(0), NONE, 1) && Inv(s)
    ensures Allowed(s, StaleRun[1])
    ensures Step(s, StaleRun[1]) == Window([Chunk(1, 1, 1)], [0], [], map[], 1, None, Some(0), NONE, NONE)
  {
  }

  lemma SecondWrites(s: Window)
    requires s == Window([Chunk(1, 1, 1)], [0], [], map[], 1, None, Some(0), NONE, NONE) && Inv(s)
    ensures Allowed(s, StaleRun[2])
    ensures Step(s, StaleRun[2])
         == Window([Chunk(1, 1, 1), Chunk(0, 1, 2)], [1, 0], [], map[1 := Row(0, 1)], 2, None, Some(1), 1, 0)
  {
  }

  lemma SecondEnds(s: Window)
    requires s == Window([Chunk(1, 1, 1), Chunk(0, 1, 2)], [1, 0], [], map[1 := Row(0, 1)], 2, None, Some(1), 1, 0) && Inv(s)
    ensures Allowed(s, StaleRun[3])
    ensures Step(s, StaleRun[3]) == Window([Chunk(1, 1, 1), Chunk(0, 1, 1)], [1, 0], [], map[], 2, None, Some(1), 1, NONE)
  {
  }

  lemma RemovesNext(s: Window)
    requires s == Window([Chunk(1, 1, 1), Chunk(0, 1, 1)], [1, 0], [], map[], 2, None, Some(1), 1, NONE) && Inv(s)
    ensures Allowed(s, StaleRun[4])
    ensures Step(s, StaleRun[4]) == Stale
  {
    LowerBoundIs(s, 1, 0, 1);
  }

  lemma RunFirst(s: Window, e: Event, es: seq<Event>)
    requires Inv(s) && Allowed(s, e)
    ensures Run(s, [e] + es) == Run(Step(s, e), es)
  {
    assert ([e] + es)[1..] == es;
  }

  lemma StaleReached()
    ensures Inv(Initial) && Run(Initial, StaleRun) == Stale
  {
    var es := StaleRun;
    assert es == [es[0]] + ([es[1]] + ([es[2]] + ([es[3]] + ([es[4]] + []))));
    hide *;
    FirstWrites();
    RunFirst(Initial, es[0], [es[1]] + ([es[2]] + ([es[3]] + ([es[4]] + []))));
    var s1 := Step(Initial, es[0]);
    FirstEnds(s1);
    RunFirst(s1, es[1], [es[2]] + ([es[3]] + ([es[4]] + [])));
    var s2 := Step(s1, es[1]);
    SecondWrites(s2);
    RunFirst(s2, es[2], [es[3]] + ([es[4]] + []));
    var s3 := Step(s2, es[2]);
    SecondEnds(s3);
    RunFirst(s3, es[3], [es[4]] + []);
    var s4 := Step(s3, es[3]);
    RemovesNext(s4);
    RunFirst(s4, es[4], []);
    RunNothing(Step(s4, es[4]));
  }

  lemma RunNothing(s: Window)
    requires Inv(s)
    ensures Run(s, []) == s
  {
  }

  lemma StaleEvicts(s: Window)
    requires s == Stale && Inv(s)
    ensures EvictedAt(s, 1, false) == Some(0) && Live(s, 0) && !Live(s, 1)
  {
    LowerBoundIs(s, 1, 0, 1);
    assert Covers(s, 1, 0);
  }

  /** A public `removeChunk` of the chunk behind the write chunk leaves the row limit where it
      was, below the real next start.  A later append at that row then evicts the write chunk
      itself: row 0 is lost although nothing was at row 1. */
  lemma StaleLimitLosesRows()
    ensures Inv(Initial)
    ensures var s := Run(Initial, StaleRun);
            && Live(s, 0) && !Live(s, 1) && s.writing == NONE
            && IdsOk(NewRow(s, 1, false, true).0) && !Live(NewRow(s, 1, false, true).0, 0)
  {
    StaleReached();
    var s := Run(Initial, StaleRun);
    StaleEvicts(s);
    LosesRowZero(s);
  }

  lemma LosesRowZero(s: Window)
    requires s == Stale && Inv(s) && EvictedAt(s, 1, false) == Some(0)
    ensures IdsOk(NewRow(s, 1, false, true).0) && !Live(NewRow(s, 1, false, true).0, 0)
  {
    assert Covers(s, s.order[0], 0);
    NewRowExact(s, 1, false, true, 0);
  }

  // ---------------------------------------------------------------- a limit that is not left behind

  /** The row limit is the start of the chunk after the write chunk. */
  predicate LimitExact(s: Window)
    requires IdsOk(s)
  {
    forall i :: 0 <= i < |s.order| && s.lastWrite == Some(s.order[i]) ==>
      s.limit == if i + 1 < |s.order| then StartAt(s, i + 1) else NONE
  }

  lemma InsertedLimit(s: Window, row: nat, i: nat)
    requires IdsOk(s) && i <= |s.order|
    ensures IdsOk(InsertAt(s, row, i)) && LimitExact(InsertAt(s, row, i))
  {
    var t := InsertAt(s, row, i);
    assert t.order[i] == |s.pool|;
    assert forall k :: 0 <= k < |t.order| && k != i ==> t.order[k] < |s.pool|;
  }

  lemma SameLimit(s: Window, t: Window)
    requires IdsOk(s) && LimitExact(s) && t.order == s.order && t.lastWrite == s.lastWrite && t.limit == s.limit
    requires |t.pool| == |s.pool| && forall c :: 0 <= c < |s.pool| ==> t.pool[c].start == s.pool[c].start
    ensures IdsOk(t) && LimitExact(t)
  {
    assert forall i :: 0 <= i < |s.order| ==> StartAt(t, i) == StartAt(s, i);
  }

  lemma AllocLimit(s: Window, row: nat, room: bool)
    requires IdsOk(s)
    ensures var (t, c) := AllocChunk(s, row);
      && (c.None? ==> t == s)
      && (c.Some? ==> c.value < |t.pool|)
      && (c.Some? ==> var u := WriteRow(t, row, c.value, room).0; IdsOk(u) && LimitExact(u))
  {
    var (t, c) := AllocChunk(s, row);
    if c.Some? {
      InsertedLimit(s, row, LowerBound(s, row, 0));
      SameLimit(t, WriteRow(t, row, c.value, room).0);
    }
  }

  lemma NewRowLimit(s: Window, row: nat, newChunk: bool, room: bool)
    requires Inv(s) && row < NONE && LimitExact(s)
    ensures var t := NewRow(s, row, newChunk, room).0; IdsOk(t) && LimitExact(t)
  {
    if s.writing == NONE {
      var slot := if newChunk then NotFound else ChunkForWriting(s, row);
      if slot.Found? {
        SameLimit(s, WriteRow(s, row, slot.chunk, room).0);
      } else if slot.Conflict? {
        ConflictVacates(s, row);
        var at := RemovedAt(s, row).value;
        var s1 := Release(Unmap(s, at), s.order[at]);
        AllocExact(s1, row);
        AllocLimit(s1, row, room);
        hide LimitExact, AllocChunk, WriteRow, Vacant, Ordered, LifetimesOk, CachesOk, RemovedAt;
      } else {
        AllocLimit(s, row, room);
        hide AllocChunk, WriteRow, Ordered, LifetimesOk, CachesOk;
      }
    }
  }

  /** Every call but `removeChunk` keeps the limit exact. */
  lemma LimitKept(s: Window, e: Event)
    requires Inv(s) && Allowed(s, e) && LimitExact(s) && !e.OnRemoveChunk?
    ensures LimitExact(Step(s, e))
  {
    match e
    case OnNewRow(row, newChunk, room) =>
      hide NewRow, Inv, LimitExact;
      NewRowLimit(s, row, newChunk, room);
    case OnGetRow(row) =>
      LookedUp(s, row);
      assert GetRow(s, row).0.lastWrite == s.lastWrite && GetRow(s, row).0.limit == s.limit;
      hide GetRow, Ordered, CachesOk, LifetimesOk;
      SameLimit(s, GetRow(s, row).0);
    case OnEndRow(id) =>
      ClosedLimit(s, id);
      hide EndRow, Inv, LimitExact;
    case OnRollbackRow(id) =>
      ClosedLimit(s, id);
      hide RollbackRow, Inv, LimitExact;
    case OnClear =>
      hide ReleaseAll, Inv;
  }

  lemma ClosedLimit(s: Window, id: RowId)
    requires Inv(s) && id in s.rows && LimitExact(s)
    ensures IdsOk(EndRow(s, id)) && LimitExact(EndRow(s, id))
    ensures IdsOk(RollbackRow(s, id)) && LimitExact(RollbackRow(s, id))
  {
    hide LimitExact, Ordered, CachesOk;
    SameLimit(s, EndRow(s, id));
    SameLimit(s, RollbackRow(s, id));
  }

  /** A removal leaves the limit behind exactly when it takes out the chunk after the write chunk. */
  lemma RemovalLimit(s: Window, row: nat, k: nat)
    requires Inv(s) && row < NONE && LimitExact(s) && Removes(s, row, k)
    ensures var t := RemoveChunk(s, row).0;
      IdsOk(t) && (LimitExact(t) <==> k == 0 || s.lastWrite != Some(s.order[k - 1]))
  {
    RemoveChunkExact(s, row, k);
    RemoveChunkKeeps(s, row);
    var t := RemoveChunk(s, row).0;
    assert forall c :: 0 <= c < |s.pool| ==> t.pool[c].start == s.pool[c].start;
    hide LowerBound, RemovedAt, LifetimesOk, RefsOk;
    UnmappedLimit(s, t, k);
  }

  lemma UnmappedLimit(s: Window, t: Window, k: nat)
    requires Structure(s) && LimitExact(s) && k < |s.order| && IdsOk(t)
    requires t.order == Unmap(s, k).order && t.lastWrite == Unmap(s, k).lastWrite && t.limit == Unmap(s, k).limit
    requires |t.pool| == |s.pool| && forall c :: 0 <= c < |s.pool| ==> t.pool[c].start == s.pool[c].start
    ensures LimitExact(t) <==> k == 0 || s.lastWrite != Some(s.order[k - 1])
  {
    hide CachesOk;
    assert forall i :: 0 <= i < |t.order| ==> t.order[i] == s.order[if i < k then i else i + 1];
    if k > 0 && s.lastWrite == Some(s.order[k - 1]) {
      LeftBehind(s, t, k);
      hide Ordered, Unmap;
    } else {
      forall i | 0 <= i < |t.order| && t.lastWrite == Some(t.order[i])
        ensures t.limit == if i + 1 < |t.order| then StartAt(t, i + 1) else NONE
      {
        StillNext(s, t, k, i);
      }
    }
  }

  lemma LeftBehind(s: Window, t: Window, k: nat)
    requires Structure(s) && LimitExact(s) && 0 < k < |s.order| && IdsOk(t) && s.lastWrite == Some(s.order[k - 1])
    requires t.order == Unmap(s, k).order && t.lastWrite == Unmap(s, k).lastWrite && t.limit == Unmap(s, k).limit
    requires |t.pool| == |s.pool| && forall c :: 0 <= c < |s.pool| ==> t.pool[c].start == s.pool[c].start
    ensures t.lastWrite == Some(t.order[k - 1]) && t.limit == StartAt(s, k) < NONE
    ensures k < |t.order| ==> t.limit < StartAt(t, k)
  {
    OrderDistinct(s, k - 1, k);
    assert k + 1 < |s.order| ==> StartAt(s, k) < StartAt(s, k + 1);
    hide CachesOk, Ordered;
  }

  lemma StillNext(s: Window, t: Window, k: nat, i: nat)
    requires Structure(s) && LimitExact(s) && k < |s.order| && IdsOk(t) && i < |t.order|
    requires k == 0 || s.lastWrite != Some(s.order[k - 1])
    requires t.order == Unmap(s, k).order && t.lastWrite == Unmap(s, k).lastWrite && t.limit == Unmap(s, k).limit
    requires |t.pool| == |s.pool| && forall c :: 0 <= c < |s.pool| ==> t.pool[c].start == s.pool[c].start
    requires t.lastWrite == Some(t.order[i])
    ensures t.limit == if i + 1 < |t.order| then StartAt(t, i + 1) else NONE
  {
    hide CachesOk, Ordered;
    var j := if i < k then i else i + 1;
    assert t.order[i] == s.order[j] && s.lastWrite == Some(s.order[j]);
    assert i + 1 < |t.order| ==> t.order[i + 1] == s.order[j + 1];
  }

  lemma {:induction false} RunKeepsLimit(s: Window, es: seq<Event>)
    requires Inv(s) && LimitExact(s) && forall i :: 0 <= i < |es| ==> !es[i].OnRemoveChunk?
    ensures LimitExact(Run(s, es))
    decreases |es|
  {
    if es != [] {
      hide Inv, LimitExact, Step, Allowed;
      if Allowed(s, es[0]) { LimitKept(s, es[0]); }
      RunKeepsLimit(if Allowed(s, es[0]) then Step(s, es[0]) else s, es[1..]);
    }
  }

  /** As long as no chunk was removed from outside, the write chunk is never thrown out for a row that is in
      nobody's way: an append evicts the next chunk, and only if the row is that chunk's first. */
  lemma NoNeedlessEviction(es: seq<Event>, r: nat)
    requires r < NONE && forall i :: 0 <= i < |es| ==> !es[i].OnRemoveChunk?
    ensures var s := Run(Initial, es);
      && (s.lastWrite.Some? && s.writing == NONE ==> !Evicts(s, r, s.lastWrite.value))
      && LimitExact(s)
  {
    RunKeepsLimit(Initial, es);
    hide Run, Inv, LimitExact, Evicts;
    NothingInTheWay(Run(Initial, es), r);
  }

  lemma NothingInTheWay(s: Window, r: nat)
    requires Inv(s) && r < NONE && LimitExact(s)
    ensures s.lastWrite.Some? && s.writing == NONE ==> !Evicts(s, r, s.lastWrite.value)
  {
    if s.lastWrite.Some? && s.writing == NONE {
      NeedlessEvictionExact(s, r);
      hide Evicts, LifetimesOk;
      var w := s.lastWrite.value;
      var k :| 0 <= k < |s.order| && s.order[k] == w;
      assert k + 1 < |s.order| ==> s.limit == StartAt(s, k + 1);
      assert k + 1 < |s.order| ==> EndAt(s, k) <= StartAt(s, k + 1);
      hide Ordered, CachesOk, LimitExact;
    }
  }
}
