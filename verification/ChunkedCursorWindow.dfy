/** `ChunkedCursorWindow` of deprecated/android/jni/ChunkedCursorWindow.cpp as an object.  Its
    methods update the chunk map, the two caches, the row limit, the writing marker and the
    reference counts in place; each is tied to the step of the same name. */
module ChunkedCursorWindowObject {
  import opened Common
  import opened ChunkProtocol

  class ChunkedCursorWindow {
    var pool: seq<Chunk>
    var order: seq<ChunkId>
    var freed: seq<ChunkId>
    var rows: map<RowId, Row>
    var nextRow: RowId
    var lastRead: Option<ChunkId>
    var lastWrite: Option<ChunkId>
    var limit: nat
    var writing: nat

    ghost function State(): Window
      reads this
    {
      Window(pool, order, freed, rows, nextRow, lastRead, lastWrite, limit, writing)
    }

    ghost predicate Valid()
      reads this
    {
      Inv(State())
    }

    constructor ()
      ensures Valid() && State() == Initial
    {
      pool, order, freed, rows, nextRow := [], [], [], map[], 0;
      lastRead, lastWrite, limit, writing := None, None, NONE, NONE;
    }

    // -------------------------------------------------------------- chunks

    method AcquireChunk(c: ChunkId)
      requires c < |pool| && pool[c].refs > 0
      modifies this`pool
      ensures State() == Acquire(old(State()), c)
    {
      pool := pool[c := pool[c].(refs := pool[c].refs + 1)];
    }

    method ReleaseChunk(c: ChunkId)
      requires c < |pool|
      modifies this`pool, this`freed
      ensures State() == Release(old(State()), c)
    {
      if pool[c].refs == 1 {
        freed := freed + [c];
      }
      pool := pool[c := pool[c].(refs := pool[c].refs - 1)];
    }

    method LowerBoundOf(row: nat) returns (i: nat)
      requires IdsOk(State())
      ensures i == LowerBound(State(), row, 0) && i <= |order|
    {
      i := 0;
      while i < |order| && pool[order[i]].start < row
        invariant i <= |order| && LowerBound(State(), row, 0) == LowerBound(State(), row, i)
      {
        i := i + 1;
      }
    }

    method FindChunkByRow(row: nat) returns (chunk: Option<ChunkId>)
      requires IdsOk(State()) && (lastRead.Some? ==> lastRead.value < |pool|)
      modifies this`lastRead
      ensures State() == FindChunk(old(State()), row).0 && chunk == FindChunk(old(State()), row).1
    {
      if lastRead.Some? && Sub32(row, pool[lastRead.value].start) < pool[lastRead.value].count {
        return lastRead;
      }
      chunk := None;
      var it := LowerBoundOf(row);
      if it < |order| && pool[order[it]].start == row {
        chunk := Some(order[it]);
      } else if it != 0 {
        chunk := Some(order[it - 1]);
      }
      if chunk.Some? {
        if Sub32(row, pool[chunk.value].start) >= pool[chunk.value].count {
          chunk := None;
        } else {
          lastRead := chunk;
        }
      }
    }

    method GetChunkForWriting(row: nat) returns (slot: Slot)
      requires lastWrite.Some? ==> lastWrite.value < |pool|
      ensures slot == ChunkForWriting(State(), row)
    {
      if lastWrite.Some? && Sub32(row, pool[lastWrite.value].start) == pool[lastWrite.value].count {
        if row >= limit {
          return Conflict;
        } else {
          return Found(lastWrite.value);
        }
      }
      return NotFound;
    }

    method AllocateChunk(startPos: nat) returns (chunk: Option<ChunkId>)
      requires IdsOk(State())
      modifies this`pool, this`order, this`lastWrite, this`limit
      ensures State() == AllocChunk(old(State()), startPos).0 && chunk == AllocChunk(old(State()), startPos).1
    {
      var it := LowerBoundOf(startPos);
      if it < |order| && pool[order[it]].start == startPos {
        return None;
      } else if it != 0 {
        var before := order[it - 1];
        if Sub32(startPos, pool[before].start) < pool[before].count {
          return None;
        }
      }
      var c := |pool|;
      limit := if it == |order| then NONE else pool[order[it]].start;
      pool := pool + [Chunk(startPos, 0, 1)];
      order := order[..it] + [c] + order[it..];
      lastWrite := Some(c);
      return Some(c);
    }

    method RemoveChunkLocked(row: nat) returns (chunk: Option<ChunkId>)
      requires IdsOk(State())
      modifies this`order, this`lastRead, this`lastWrite, this`limit
      ensures match RemovedAt(old(State()), row)
              case None => chunk == None && State() == old(State())
              case Some(i) => i < |old(order)| && chunk == Some(old(order)[i]) && State() == Unmap(old(State()), i)
    {
      var it := LowerBoundOf(row);
      if it < |order| && pool[order[it]].start == row {
      } else if it != 0 {
        it := it - 1;
        if Sub32(row, pool[order[it]].start) < pool[order[it]].count {
          return None;
        }
      } else {
        return None;
      }
      chunk := Some(order[it]);
      if lastRead == chunk {
        lastRead := None;
      }
      if lastWrite == chunk {
        lastWrite := None;
        limit := NONE;
      }
      order := order[..it] + order[it + 1..];
    }

    // -------------------------------------------------------------- rows

    method FillRow(row: nat, c: ChunkId) returns (id: RowId)
      requires c < |pool| && pool[c].refs > 0
      modifies this`pool, this`rows, this`nextRow
      ensures State() == OpenRow(old(State()), row, c).0 && Some(id) == OpenRow(old(State()), row, c).1
    {
      AcquireChunk(c);
      id := nextRow;
      rows := rows[id := Row(row, c)];
      nextRow := nextRow + 1;
    }

    /** `room` tells whether the chunk's window can take one more row. */
    method AllocateRow(row: nat, c: ChunkId, room: bool) returns (id: Option<RowId>)
      requires c < |pool| && pool[c].refs > 0 && pool[c].start + pool[c].count == row
      modifies this
      ensures State() == WriteRow(old(State()), row, c, room).0 && id == WriteRow(old(State()), row, c, room).1
    {
      if !room {
        return None;
      }
      pool := pool[c := pool[c].(count := pool[c].count + 1)];
      var rowObj := FillRow(row, c);
      writing := row;
      return Some(rowObj);
    }

    /** Throws out the chunk in the way, which is always there. */
    method Evict(row: nat)
      requires Valid() && row < NONE && ChunkForWriting(State(), row).Conflict?
      modifies this
      ensures Valid() && RemovedAt(old(State()), row).Some?
      ensures var i := RemovedAt(old(State()), row).value;
              i < |old(order)| && State() == Release(Unmap(old(State()), i), old(order)[i])
    {
      ConflictEvicts(State(), row);
      RemoveKeeps(State(), RemovedAt(State(), row).value);
      var removed := RemoveChunkLocked(row);
      assert removed.Some?;
      ReleaseChunk(removed.value);
    }

    method AllocateAt(row: nat, room: bool) returns (id: Option<RowId>)
      requires Valid() && row < NONE
      modifies this
      ensures var (s1, c) := AllocChunk(old(State()), row);
              if c.None? then State() == s1 && id == None
              else c.value < |s1.pool| && State() == WriteRow(s1, row, c.value, room).0 && id == WriteRow(s1, row, c.value, room).1
    {
      AllocKeeps(State(), row);
      hide Inv;
      var chunk := AllocateChunk(row);
      if chunk.None? {
        return None;
      }
      id := AllocateRow(row, chunk.value, room);
    }

    method NewRow(row: nat, newChunk: bool, room: bool) returns (id: Option<RowId>)
      requires Valid() && row < NONE
      modifies this
      ensures Valid()
      ensures State() == ChunkProtocol.NewRow(old(State()), row, newChunk, room).0
      ensures id == ChunkProtocol.NewRow(old(State()), row, newChunk, room).1
    {
      NewRowKeeps(State(), row, newChunk, room);
      if writing != NONE {
        return None;
      }
      var slot := NotFound;
      if !newChunk {
        slot := GetChunkForWriting(row);
        if slot == Conflict {
          Evict(row);
        }
      }
      if slot.Found? {
        WrapIsCovers(State(), slot.chunk, row);
        assert RefsOk(State(), slot.chunk);
        id := AllocateRow(row, slot.chunk, room);
      } else {
        id := AllocateAt(row, room);
      }
    }

    method GetRow(row: nat) returns (id: Option<RowId>)
      requires Valid() && row < NONE
      modifies this
      ensures Valid()
      ensures State() == ChunkProtocol.GetRow(old(State()), row).0 && id == ChunkProtocol.GetRow(old(State()), row).1
    {
      GetRowKeeps(State(), row);
      FindChunkExact(State(), row);
      if writing == row {
        return None;
      }
      var chunk := FindChunkByRow(row);
      if chunk.None? {
        return None;
      }
      assert RefsOk(old(State()), chunk.value);
      assert row >= pool[chunk.value].start;
      var rowObj := FillRow(row, chunk.value);
      return Some(rowObj);
    }

    method EndRow(id: RowId)
      requires Valid() && id in rows
      modifies this
      ensures Valid() && State() == ChunkProtocol.EndRow(old(State()), id)
    {
      EndRowKeeps(State(), id);
      hide Inv;
      var row := rows[id];
      if writing == row.row {
        writing := NONE;
      }
      rows := rows - {id};
      ReleaseChunk(row.chunk);
    }

    method RollbackRow(id: RowId)
      requires Valid() && id in rows
      modifies this
      ensures Valid() && State() == ChunkProtocol.RollbackRow(old(State()), id)
    {
      RollbackKeeps(State(), id);
      hide Inv;
      var row := rows[id];
      if writing == row.row {
        if pool[row.chunk].count > 0 {
          pool := pool[row.chunk := pool[row.chunk].(count := pool[row.chunk].count - 1)];
        }
        writing := NONE;
      }
      rows := rows - {id};
      ReleaseChunk(row.chunk);
    }

    method RemoveChunk(row: nat) returns (range: Option<(nat, nat)>)
      requires Valid()
      modifies this
      ensures Valid()
      ensures State() == ChunkProtocol.RemoveChunk(old(State()), row).0 && range == ChunkProtocol.RemoveChunk(old(State()), row).1
    {
      RemoveChunkKeeps(State(), row);
      var chunk := RemoveChunkLocked(row);
      if chunk.None? {
        return None;
      }
      range := Some((pool[chunk.value].start, pool[chunk.value].start + pool[chunk.value].count));
      ReleaseChunk(chunk.value);
    }

    method Clear()
      requires Valid()
      modifies this
      ensures Valid() && State() == ChunkProtocol.Clear(old(State()))
    {
      ClearKeeps(State());
      hide Inv;
      for i := 0 to |order|
        invariant order == old(order) && IdsOk(State())
        invariant ReleaseAll(old(State()), 0) == ReleaseAll(State(), i)
      {
        ReleaseChunk(order[i]);
      }
      order := [];
      lastRead, lastWrite, limit, writing := None, None, NONE, NONE;
    }
  }
}
