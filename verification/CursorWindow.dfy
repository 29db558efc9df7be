/** `CursorWindow` of deprecated/android/jni/CursorWindow.cpp: one byte buffer that starts with
    a 16-byte header (free offset, first chunk, row count, column count) and holds row slot
    chunks, field directories and buffers.  Offset 0 stands for a null pointer. */
module CursorWindowObject {
  import opened Common
  import opened WindowMemory
  import opened WindowTable
  import opened WindowLayout

  const FREE_OFFSET := 0
  const FIRST_CHUNK_OFFSET := 4
  const NUM_ROWS := 8
  const NUM_COLUMNS := 12

  /** The window and status an operation ended with are the ones it should have. */
  ghost predicate Did(w: Window, status: Status, expected: (Window, Status)) {
    w == expected.0 && status == expected.1
  }

  /** No 32-bit offset sum wraps in a window of this size: the assumption on callers. */
  predicate ColumnsFit(size: nat, columns: nat) {
    size + 6 + CHUNK_BYTES + FIELD_BYTES * columns < U32
  }

  /** Truncation to an unsigned 32-bit number. */
  function Wrap32(n: nat): nat {
    n % U32
  }

  predicate OpFits(size: nat, op: Op) {
    && (op.OpSetNumColumns? ==> ColumnsFit(size, op.columns))
    && (op.OpPut? ==> Storable(op.value) && size + 3 + BufferSize(op.value) < U32)
  }

  class CursorWindow {
    const data: array<Byte>
    ghost var view: Window
    ghost var regions: set<Region>

    ghost predicate Valid()
      reads this, data
    {
      Represents(data[..], view, regions)
    }

    lemma ValidImage()
      requires Valid()
      ensures Represents(data[..], view, regions)
    {
      hide Represents;
    }

    lemma HasRoom()
      requires Valid()
      ensures HEADER_BYTES + CHUNK_BYTES <= data.Length && Shaped(view) && view.free <= data.Length
    {
      HeaderFacts(data[..], view, regions);
    }

    constructor (size: nat)
      requires HEADER_BYTES + CHUNK_BYTES <= size
      ensures Valid() && fresh(data) && data.Length == size && view == Empty
    {
      data := new Byte[size];
      new;
      Clear();
    }

    // -------------------------------------------------------------- raw access

    function Load32(off: nat): (x: nat)
      requires off + 4 <= data.Length
      reads data
      ensures x == Get32(data[..], off)
    {
      data[off] as int + 0x100 * (data[off + 1] as int) + 0x1_0000 * (data[off + 2] as int)
        + 0x100_0000 * (data[off + 3] as int)
    }

    method Store(off: nat, v: seq<Byte>)
      requires off + |v| <= data.Length
      modifies data
      ensures Wrote(old(data[..]), data[..], off, v)
    {
      for i := 0 to |v|
        invariant forall k :: off <= k < off + i ==> data[k] == v[k - off]
        invariant forall k :: 0 <= k < data.Length && !(off <= k < off + i) ==> data[k] == old(data[k])
      {
        data[off + i] := v[i];
      }
    }

    method Store32(off: nat, x: nat)
      requires off + 4 <= data.Length && x < U32
      modifies data
      ensures Wrote32(old(data[..]), data[..], off, x)
    {
      Store(off, Enc32(x));
      WroteNumber(old(data[..]), data[..], off, x);
    }

    method Zero(off: nat, len: nat)
      requires off + len <= data.Length
      modifies data
      ensures SameExcept(old(data[..]), data[..], off, off + len) && Zeros(data[..], off, off + len)
    {
      for i := 0 to len
        invariant forall k :: off <= k < off + i ==> data[k] == 0
        invariant forall k :: 0 <= k < data.Length && !(off <= k < off + i) ==> data[k] == old(data[k])
      {
        data[off + i] := 0;
      }
    }

    // -------------------------------------------------------------- window operations

    method Clear()
      requires HEADER_BYTES + CHUNK_BYTES <= data.Length
      modifies this, data
      ensures Valid() && view == Empty
    {
      Store32(FREE_OFFSET, HEADER_BYTES + CHUNK_BYTES);
      ghost var m0 := data[..];
      Store32(FIRST_CHUNK_OFFSET, HEADER_BYTES);
      ghost var m1 := data[..];
      Store32(NUM_ROWS, 0);
      ghost var m2 := data[..];
      Store32(NUM_COLUMNS, 0);
      ghost var m3 := data[..];
      Store32(HEADER_BYTES, 0);
      view, regions := Empty, {Region(ChunkRegion, HEADER_BYTES, CHUNK_BYTES)};
      Get32Frame(m0, m1, 4, 8, 0);
      Get32Frame(m1, m2, 8, 12, 0);
      Get32Frame(m1, m2, 8, 12, 4);
      Get32Frame(m2, m3, 12, 16, 0);
      Get32Frame(m2, m3, 12, 16, 4);
      Get32Frame(m2, m3, 12, 16, 8);
      Get32Frame(m3, data[..], 16, 20, 0);
      Get32Frame(m3, data[..], 16, 20, 4);
      Get32Frame(m3, data[..], 16, 20, 8);
      Get32Frame(m3, data[..], 16, 20, 12);
      ClearImage(data[..]);
    }

    method SetNumColumns(columns: nat) returns (status: Status)
      requires Valid() && columns < U32
      modifies this, data
      ensures Valid() && Did(view, status, WindowTable.SetNumColumns(old(view), columns))
    {
      var cur := Load32(NUM_COLUMNS);
      if (cur > 0 || Load32(NUM_ROWS) > 0) && cur != columns {
        return InvalidOperation;
      }
      Store32(NUM_COLUMNS, columns);
      SetColumnsImage(old(data[..]), data[..], view, regions, columns);
      view := view.(columns := columns);
      return Ok;
    }

    /** The bump allocator, with the offsets it truncates to 32 bits.  `~x + 1` of an unsigned 32-bit
        word is `2^32 - x`. */
    method Alloc(size: nat, aligned: bool) returns (off: nat)
      requires HEADER_BYTES <= data.Length
      modifies data
      ensures var free := old(Get32(data[..], FREE_OFFSET));
              var start := Wrap32(if aligned then AlignUp(free) else free);
              var next := Wrap32(start + size);
              if next > data.Length then off == 0 && data[..] == old(data[..])
              else off == start && Wrote32(old(data[..]), data[..], FREE_OFFSET, next)
    {
      var free := Load32(FREE_OFFSET);
      var padding := if aligned then (U32 - free) % 4 else 0;
      PaddingAligns(free);
      var offset := Wrap32(free + padding);
      var nextFreeOffset := Wrap32(offset + size);
      if nextFreeOffset > data.Length {
        return 0;
      }
      Store32(FREE_OFFSET, nextFreeOffset);
      return offset;
    }

    /** `alloc` as its callers know it, where no sum reaches 2^32. */
    method Reserve(size: nat, aligned: bool) returns (off: nat)
      requires HEADER_BYTES <= data.Length && Get32(data[..], FREE_OFFSET) + 3 + size < U32
      modifies data
      ensures var free := old(Get32(data[..], FREE_OFFSET));
              var start := if aligned then AlignUp(free) else free;
              if start + size > data.Length then off == 0 && data[..] == old(data[..])
              else off == start && Wrote32(old(data[..]), data[..], FREE_OFFSET, start + size)
    {
      NoWrap(Get32(data[..], FREE_OFFSET), size);
      hide *;
      off := Alloc(size, aligned);
    }

    /** The walk down the chain to the chunk of a row, as both `getRowSlot` and `allocRowSlot`
        do it; they differ in whether a full chunk is left behind. */
    method Walk(row: nat, stopAtFull: bool) returns (chunk: nat, pos: nat, ghost k: nat)
      requires Valid() && row <= |view.rows| && (!stopAtFull ==> row < |view.rows|)
      ensures k < |view.chunks| && chunk == view.chunks[k] && row == CHUNK_ROWS * k + pos
      ensures if stopAtFull then pos <= CHUNK_ROWS && (pos == 0 ==> row == 0) else pos < CHUNK_ROWS
      ensures chunk + CHUNK_BYTES <= data.Length
    {
      pos := row;
      chunk := Load32(FIRST_CHUNK_OFFSET);
      k := 0;
      while if stopAtFull then pos > CHUNK_ROWS else pos >= CHUNK_ROWS
        invariant k < |view.chunks| && chunk == view.chunks[k] && row == CHUNK_ROWS * k + pos
        invariant stopAtFull && pos == 0 ==> row == 0
        decreases pos
      {
        chunk := Load32(chunk);
        pos := pos - CHUNK_ROWS;
        k := k + 1;
      }
    }

    method GetRowSlot(row: nat) returns (slot: nat)
      requires Valid()
      ensures SlotOf(slot, row)
    {
      if row >= Load32(NUM_ROWS) {
        return 0;
      }
      var chunk, pos, k := Walk(row, false);
      assert row / CHUNK_ROWS == k && row % CHUNK_ROWS == pos;
      return chunk + 4 + 4 * pos;
    }

    /** A chunk just allocated is linked in behind the last, and its own link cleared. */
    method LinkChunk(chunk: nat, next: nat, ghost m: seq<Byte>)
      requires Represents(m, view, regions) && Shaped(view) && chunk == view.chunks[|view.chunks| - 1]
      requires view.free <= next && next % 4 == 0 && next + CHUNK_BYTES <= data.Length
      requires next < U32 && chunk + 4 <= data.Length && |m| == data.Length
      requires Wrote32(m, data[..], FREE_OFFSET, next + CHUNK_BYTES)
      modifies this, data
      ensures Valid() && view == old(view).(chunks := old(view).chunks + [next], free := next + CHUNK_BYTES)
    {
      hide Represents;
      ghost var m1 := data[..];
      Store32(chunk, next);
      ghost var m2 := data[..];
      Store32(next, 0);
      NewChunkImage(m, m1, m2, data[..], view, regions, next);
      view := view.(chunks := view.chunks + [next], free := next + CHUNK_BYTES);
      regions := regions + {Region(ChunkRegion, next, CHUNK_BYTES)};
    }

    /** A new chunk at the end of the chain, if there is space for it; the last link is written either
        way. */
    method AppendChunk(chunk: nat) returns (next: nat)
      requires Valid() && view.free + 3 + CHUNK_BYTES < U32
      requires chunk == view.chunks[|view.chunks| - 1] && Get32(data[..], chunk) == 0
      modifies this, data
      ensures Valid()
      ensures var c := AlignUp(old(view).free);
              if c + CHUNK_BYTES > data.Length then next == 0 && view == old(view)
              else next == c && view == old(view).(chunks := old(view).chunks + [c], free := c + CHUNK_BYTES)
    {
      hide Represents;
      ghost var m := data[..];
      HeaderFacts(m, view, regions);
      next := Reserve(CHUNK_BYTES, true);
      if next == 0 {
        Store32(chunk, next);
        ReuseChunkImage(m, data[..], view, regions, |view.chunks| - 1);
        assert view.chunks[..|view.chunks|] == view.chunks;
      } else {
        LinkChunk(chunk, next, m);
      }
    }

    /** A chunk that earlier rows left behind becomes the end of the chain. */
    method ReuseChunk(chunk: nat, ghost k: nat)
      requires Valid() && k < |view.chunks| && chunk == view.chunks[k] && |view.rows| <= CHUNK_ROWS * (k + 1)
      modifies this, data
      ensures Valid() && view == old(view).(chunks := old(view).chunks[..k + 1])
    {
      ghost var m := data[..];
      HeaderFacts(m, view, regions);
      hide Represents;
      Store32(chunk, 0);
      ReuseChunkImage(m, data[..], view, regions, k);
      view := view.(chunks := view.chunks[..k + 1]);
    }

    /** The chunk after `chunk`, allocated if there is none, with its own link cleared. */
    method NextChunkFor(chunk: nat, ghost k: nat) returns (next: nat)
      requires Valid() && view.free + 3 + CHUNK_BYTES < U32
      requires 1 <= k <= |view.chunks| && |view.rows| == CHUNK_ROWS * k && chunk == view.chunks[k - 1]
      modifies this, data
      ensures Valid() && view == GrowChain(old(view), data.Length).0
      ensures next != 0 <==> GrowChain(old(view), data.Length).1
      ensures next != 0 ==> k < |view.chunks| && next == view.chunks[k]
    {
      ghost var m := data[..];
      HeaderFacts(m, view, regions);
      assert SlotHolds(m, chunk, NextChunk(view.chunks, k - 1));
      hide Represents;
      assert |view.rows| / CHUNK_ROWS == k && |view.rows| % CHUNK_ROWS == 0;
      next := Load32(chunk);
      if next == 0 {
        assert k == |view.chunks|;
        next := AppendChunk(chunk);
      } else {
        assert next == view.chunks[k];
        ReuseChunk(next, k);
      }
    }

    /** On success the row count already includes the new row, which has no directory yet;
        `grown` is the image without it. */
    method AllocRowSlot() returns (slot: nat, ghost grown: seq<Byte>)
      requires Valid() && view.free + 3 + CHUNK_BYTES < U32 && |view.rows| + 1 < U32
      modifies this, data
      ensures view == GrowChain(old(view), data.Length).0 && (slot != 0 <==> GrowChain(old(view), data.Length).1)
      ensures Represents(grown, view, regions)
      ensures slot == 0 ==> grown == data[..]
      ensures slot != 0 ==> slot == SlotOffset(view.chunks, |view.rows|)
      ensures slot != 0 ==> Wrote32(grown, data[..], NUM_ROWS, |view.rows| + 1)
    {
      hide Represents;
      HeaderFacts(data[..], view, regions);
      hide Shaped, SlotHolds;
      var rows := Load32(NUM_ROWS);
      var chunk, pos, k := Walk(rows, true);
      RowPlace(rows, k, pos);
      if pos == CHUNK_ROWS {
        chunk := NextChunkFor(chunk, k + 1);
        if chunk == 0 {
          return 0, data[..];
        }
        pos := 0;
      }
      grown := data[..];
      NextSlot(grown, view, regions);
      Store32(NUM_ROWS, rows + 1);
      slot := chunk + 4 + 4 * pos;
    }

    /** Zeroes a new directory and points the row's slot to it. */
    method InitDirectory(slot: nat, dir: nat, size: nat, ghost grown: seq<Byte>, ghost counted: seq<Byte>)
      requires Represents(grown, view, regions) && view.free <= dir && dir % 4 == 0 && dir + size <= data.Length
      requires dir < U32 && size == FIELD_BYTES * view.columns && |grown| == data.Length
      requires Wrote32(grown, counted, NUM_ROWS, |view.rows| + 1) && Wrote32(counted, data[..], FREE_OFFSET, dir + size)
      requires |view.rows| < CHUNK_ROWS * |view.chunks| && slot == SlotOffset(view.chunks, |view.rows|)
      modifies this, data
      ensures Valid() && view == WithRow(old(view), dir)
    {
      hide Represents;
      NextSlot(grown, view, regions);
      ghost var m2 := data[..];
      Zero(dir, size);
      ghost var m3 := data[..];
      Store32(slot, dir);
      AllocRowImage(grown, counted, m2, m3, data[..], view, regions, dir);
      regions := regions + {Region(DirectoryRegion, dir, size)};
      view := WithRow(view, dir);
    }

    /** The field directory of a row that has its slot, or the row count taken back. */
    method AllocDirectory(slot: nat, ghost grown: seq<Byte>) returns (status: Status)
      requires Represents(grown, view, regions) && Wrote32(grown, data[..], NUM_ROWS, |view.rows| + 1)
      requires |view.rows| < CHUNK_ROWS * |view.chunks| && slot == SlotOffset(view.chunks, |view.rows|)
      requires view.free + 3 + FIELD_BYTES * view.columns < U32
      modifies this, data
      ensures Valid()
      ensures var d := AlignUp(old(view).free);
              if d + FIELD_BYTES * old(view).columns > data.Length then status == NoMemory && view == old(view)
              else status == Ok && view == WithRow(old(view), d)
    {
      ghost var m1 := data[..];
      HeaderFacts(grown, view, regions);
      HeaderPut(grown, m1, view, NUM_ROWS, |view.rows| + 1);
      hide Represents;
      NextSlot(grown, view, regions);
      var fieldDirSize := Load32(NUM_COLUMNS) * FIELD_BYTES;
      var fieldDirOffset := Reserve(fieldDirSize, true);
      if fieldDirOffset == 0 {
        Store32(NUM_ROWS, Load32(NUM_ROWS) - 1);
        BackOutImage(grown, m1, data[..], view, regions);
        return NoMemory;
      }
      InitDirectory(slot, fieldDirOffset, fieldDirSize, grown, m1);
      return Ok;
    }

    method AllocRow() returns (slot: nat, status: Status)
      requires Valid() && |view.rows| + 1 < U32
      requires view.free + 6 + CHUNK_BYTES + FIELD_BYTES * view.columns < U32
      modifies this, data
      ensures Valid() && Did(view, status, WindowTable.AllocRow(old(view), data.Length))
      ensures slot != 0 <==> status == Ok
      ensures status == Ok ==> slot == SlotOffset(view.chunks, |view.rows| - 1)
    {
      hide Represents;
      ghost var grown;
      slot, grown := AllocRowSlot();
      if slot == 0 {
        return 0, NoMemory;
      }
      status := AllocDirectory(slot, grown);
      if status != Ok {
        slot := 0;
      }
    }

    method FreeLastRow()
      requires Valid()
      modifies this, data
      ensures Valid() && view == WindowTable.FreeLastRow(old(view))
    {
      var rows := Load32(NUM_ROWS);
      if rows > 0 {
        Store32(NUM_ROWS, rows - 1);
        DropRowImage(old(data[..]), data[..], view, regions);
        view := WindowTable.FreeLastRow(view);
      }
    }

    // -------------------------------------------------------------- fields

    /** The slot pointer of a row, or null for a row that is not there. */
    ghost predicate SlotOf(slot: nat, row: nat)
      requires Valid()
      reads this, data
    {
      if row < |view.rows| then slot == SlotOffset(view.chunks, row) else slot == 0
    }

    method GetFieldSlot(slot: nat, column: nat, ghost row: nat) returns (field: nat)
      requires Valid() && SlotOf(slot, row)
      ensures Shaped(view)
      ensures field != 0 <==> row < |view.rows| && column < view.columns
      ensures field != 0 ==> field == view.dirs[row] + FIELD_BYTES * column && field + FIELD_BYTES <= view.free
    {
      HeaderFacts(data[..], view, regions);
      if row < |view.rows| {
        SlotInChunk(view, row);
        if column < view.columns { FieldPlace(data[..], view, regions, row, column); }
      }
      hide Represents, FieldHolds, DirOk;
      if slot == 0 || column >= Load32(NUM_COLUMNS) {
        return 0;
      }
      return Load32(slot) + FIELD_BYTES * column;
    }

    /** The type word and the eight data bytes of one field slot. */
    method StoreField(field: nat, v: Value, tail: seq<Byte>, ghost row: nat, column: nat, ghost off: nat)
      requires Valid() && Shaped(view) && row < |view.rows| && column < view.columns
      requires field == view.dirs[row] + FIELD_BYTES * column && field + FIELD_BYTES <= view.free
      requires |tail| == 8 && TailFor(data[..], regions, v, tail, off) && BringsOwn(data[..], view, v, off)
      modifies this, data
      ensures Represents(data[..], view, regions) && view == WithValue(old(view), row, column, v)
    {
      hide *;
      HasRoom();
      TagSmall(v);
      FieldWidth();
      ghost var m := data[..];
      ValidImage();
      Store32(field, TypeTag(v));
      ghost var m1 := data[..];
      Store(field + 4, tail);
      PutImage(m, m1, data[..], view, regions, row, column, v, field, tail, off);
      view := WithValue(view, row, column, v);
    }

    /** Bytes copied into newly allocated space, if there is enough of it. */
    method CopyBytes(bytes: seq<Byte>) returns (offset: nat)
      requires Valid() && view.free + 3 + |bytes| < U32
      modifies this, data
      ensures Valid() && Shaped(view)
      ensures offset == 0 <==> old(view).free + |bytes| > data.Length
      ensures offset < U32 && (offset == 0 ==> view == old(view))
      ensures offset != 0 ==> view == old(view).(free := old(view).free + |bytes|)
      ensures offset != 0 ==> InBuffer(data[..], regions, offset, bytes) && Unused(data[..], view, offset)
    {
      ghost var m := data[..];
      hide Represents;
      HeaderFacts(m, view, regions);
      offset := Reserve(|bytes|, false);
      if offset == 0 {
        return;
      }
      ghost var m1 := data[..];
      Store(offset, bytes);
      BufferImage(m, m1, data[..], view, regions, bytes);
      view := view.(free := view.free + |bytes|);
      regions := regions + {Region(BufferRegion, offset, |bytes|)};
    }

    method PutBlobOrString(slot: nat, column: nat, bytes: seq<Byte>, text: bool, ghost row: nat)
      returns (status: Status)
      requires Valid() && SlotOf(slot, row) && view.free + 3 + |bytes| < U32
      modifies this, data
      ensures Valid()
      ensures Did(view, status, Put(old(view), data.Length, row, column, if text then Text(bytes) else Blob(bytes)))
    {
      hide Represents;
      var field := GetFieldSlot(slot, column, row);
      if field == 0 {
        return BadValue;
      }
      var offset := CopyBytes(bytes);
      if offset == 0 {
        return NoMemory;
      }
      var v := if text then Text(bytes) else Blob(bytes);
      BufferTail(data[..], regions, offset, v);
      StoreField(field, v, Enc32(offset) + Enc32(|bytes|), row, column, offset);
      return Ok;
    }

    method PutLong(slot: nat, column: nat, value: int, ghost row: nat) returns (status: Status)
      requires Valid() && SlotOf(slot, row) && Storable(Integer(value))
      modifies this, data
      ensures Valid() && Did(view, status, Put(old(view), data.Length, row, column, Integer(value)))
    {
      hide Represents;
      var field := GetFieldSlot(slot, column, row);
      if field == 0 {
        return BadValue;
      }
      StoreField(field, Integer(value), Enc64(Pattern(value)), row, column, 0);
      return Ok;
    }

    method PutDouble(slot: nat, column: nat, bits: nat, ghost row: nat) returns (status: Status)
      requires Valid() && SlotOf(slot, row) && Storable(Float(bits))
      modifies this, data
      ensures Valid() && Did(view, status, Put(old(view), data.Length, row, column, Float(bits)))
    {
      hide Represents;
      var field := GetFieldSlot(slot, column, row);
      if field == 0 {
        return BadValue;
      }
      StoreField(field, Float(bits), Enc64(bits), row, column, 0);
      return Ok;
    }

    method PutNull(slot: nat, column: nat, ghost row: nat) returns (status: Status)
      requires Valid() && SlotOf(slot, row)
      modifies this, data
      ensures Valid() && Did(view, status, Put(old(view), data.Length, row, column, Null))
    {
      hide Represents;
      var field := GetFieldSlot(slot, column, row);
      if field == 0 {
        return BadValue;
      }
      StoreField(field, Null, Enc32(0) + Enc32(0), row, column, 0);
      return Ok;
    }

    /** Any kind of value through the slot of a row. */
    method PutValue(slot: nat, column: nat, v: Value, ghost row: nat) returns (status: Status)
      requires Valid() && SlotOf(slot, row) && Storable(v) && view.free + 3 + BufferSize(v) < U32
      modifies this, data
      ensures Valid() && Did(view, status, Put(old(view), data.Length, row, column, v))
    {
      hide Represents;
      match v {
        case Null => status := PutNull(slot, column, row);
        case Integer(x) => status := PutLong(slot, column, x, row);
        case Float(b) => status := PutDouble(slot, column, b, row);
        case Text(b) => status := PutBlobOrString(slot, column, b, true, row);
        case Blob(b) => status := PutBlobOrString(slot, column, b, false, row);
      }
    }

    /** The value of a field slot, found through its type word. */
    method ReadField(field: nat) returns (v: Value)
      requires Readable(data[..], field)
      ensures v == ReadValue(data[..], field)
    {
      var tag, low, high := Load32(field), Load32(field + 4), Load32(field + 8);
      if tag == 0 {
        v := Null;
      } else if tag == 1 {
        v := Integer(if high < U32 / 2 then low + U32 * high else low + U32 * high - U64);
      } else if tag == 2 {
        v := Float(low + U32 * high);
      } else {
        assert data[low..low + high] == data[..][low..low + high];
        v := if tag == 3 then Text(data[low..low + high]) else Blob(data[low..low + high]);
      }
    }

    method GetValue(row: nat, column: nat) returns (found: bool, v: Value)
      requires Valid()
      ensures found <==> row < |view.rows| && column < view.columns
      ensures found ==> v == view.rows[row][column]
    {
      HeaderFacts(data[..], view, regions);
      assert Represents(data[..], view, regions);
      hide *;
      var slot := GetRowSlot(row);
      var field := GetFieldSlot(slot, column, row);
      if field == 0 {
        return false, Null;
      }
      FieldReads(data[..], view, regions, row, column, field);
      v := ReadField(field);
      found := true;
    }

    // -------------------------------------------------------------- runs

    /** One operation, addressed by row number as the callers of the window do. */
    method Perform(op: Op) returns (status: Status)
      requires Valid() && ColumnsFit(data.Length, view.columns) && OpFits(data.Length, op)
      modifies this, data
      ensures Valid() && Did(view, status, Apply(old(view), data.Length, op))
      ensures ColumnsFit(data.Length, view.columns)
    {
      HeaderFacts(data[..], view, regions);
      RowsBounded(data[..], view, regions);
      hide Represents;
      match op {
        case OpClear =>
          Clear();
          status := Ok;
        case OpSetNumColumns(n) =>
          status := SetNumColumns(n);
        case OpAllocRow =>
          var slot;
          slot, status := AllocRow();
        case OpFreeLastRow =>
          FreeLastRow();
          status := Ok;
        case OpPut(row, column, v) =>
          var slot := GetRowSlot(row);
          status := PutValue(slot, column, v, row);
      }
    }

    /** Over every run the buffer stands for the table of the reference machine, and every
        operation reports what the reference machine reports. */
    method Execute(ops: seq<Op>) returns (sts: seq<Status>)
      requires Valid() && ColumnsFit(data.Length, view.columns)
      requires forall i :: 0 <= i < |ops| ==> OpFits(data.Length, ops[i])
      modifies this, data
      ensures Valid() && view == Run(old(view), data.Length, ops).0 && sts == Run(old(view), data.Length, ops).1
    {
      HeaderFacts(data[..], view, regions);
      hide Represents;
      sts := [];
      for i := 0 to |ops|
        invariant Valid() && ColumnsFit(data.Length, view.columns)
        invariant view == Run(old(view), data.Length, ops[..i]).0 && sts == Run(old(view), data.Length, ops[..i]).1
      {
        assert ops[..i + 1][..i] == ops[..i];
        var status := Perform(ops[i]);
        sts := sts + [status];
      }
      assert ops[..|ops|] == ops;
    }

    /** A read after any run returns what the log of the run says was last put. */
    method ExecuteThenGet(ops: seq<Op>, row: nat, column: nat) returns (sts: seq<Status>, found: bool, v: Value)
      requires Valid() && ColumnsFit(data.Length, view.columns)
      requires forall i :: 0 <= i < |ops| ==> OpFits(data.Length, ops[i])
      modifies this, data
      ensures Valid() && |sts| == |ops| && (found <==> row < |view.rows| && column < view.columns)
      ensures var w := old(view);
              var dflt := if row < |w.rows| && column < w.columns then w.rows[row][column] else Null;
              found ==> v == Logged(ops, sts, |view.rows|, row, column, dflt)
    {
      HeaderFacts(data[..], view, regions);
      hide Represents;
      sts := Execute(ops);
      found, v := GetValue(row, column);
      if found {
        LastPutWins(old(view), data.Length, ops, row, column);
      }
    }
  }

  /** A row number and its place in the chain. */
  lemma RowPlace(row: nat, k: nat, pos: nat)
    requires row == CHUNK_ROWS * k + pos && pos <= CHUNK_ROWS
    ensures pos < CHUNK_ROWS ==> row / CHUNK_ROWS == k && row % CHUNK_ROWS == pos
    ensures pos == CHUNK_ROWS ==> row / CHUNK_ROWS == k + 1 && row % CHUNK_ROWS == 0
  {
  }

  lemma FieldWidth()
    ensures FIELD_BYTES == 12
  {
  }

  lemma TagSmall(v: Value)
    ensures TypeTag(v) < U32
  {
  }

  lemma NoWrap(free: nat, size: nat)
    requires free + 3 + size < U32
    ensures Wrap32(free) == free && Wrap32(AlignUp(free)) == AlignUp(free)
    ensures Wrap32(free + size) == free + size && Wrap32(AlignUp(free) + size) == AlignUp(free) + size
  {
  }

  /** The allocator's test answers rightly whether the space is there exactly when the sum stays below
      2^32 or, wrapped, still lies past the end of the window. */
  lemma AllocTestExact(start: nat, size: nat, total: nat)
    requires total < U32
    ensures (Wrap32(start + size) > total <==> start + size > total)
            <==> start + size < U32 || Wrap32(start + size) > total
  {
  }

  /** And it can answer wrongly: 2^32 bytes behind the header and the first chunk are granted. */
  lemma AllocTestWraps(total: nat)
    requires HEADER_BYTES + CHUNK_BYTES <= total < U32
    ensures var start := HEADER_BYTES + CHUNK_BYTES;
      Wrap32(start + U32) <= total && start + U32 > total
  {
    assert Wrap32(HEADER_BYTES + CHUNK_BYTES + U32) == HEADER_BYTES + CHUNK_BYTES;
  }

  lemma PaddingAligns(free: nat)
    requires free < U32
    ensures free + (U32 - free) % 4 == AlignUp(free)
  {
  }

  lemma BufferTail(m: seq<Byte>, regions: set<Region>, offset: nat, v: Value)
    requires v.Text? || v.Blob?
    requires offset < U32 && |v.bytes| < U32 && InBuffer(m, regions, offset, v.bytes)
    ensures TailFor(m, regions, v, Enc32(offset) + Enc32(|v.bytes|), offset)
  {
    RoundTrip32(offset);
    RoundTrip32(|v.bytes|);
  }
}
