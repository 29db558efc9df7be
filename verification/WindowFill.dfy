/** The loop of `nativeExecuteForCursorWindow` that fills a window with a stretch of a query
    result around a required row, and `copyRow` below it. */
module WindowFill {
  import opened Common
  import opened WindowMemory
  import opened WindowTable
  import opened WindowLayout
  import opened CursorWindowObject

  /** A column of a result row; SQLite hands out text without its terminator. */
  datatype Column = Cell(value: Value) | UnknownType

  datatype CopyResult = CopyOk | CopyFull | CopyError

  function Stored(v: Value): Value {
    if v.Text? then Text(v.bytes + [0]) else v
  }

  predicate AllKnown(row: seq<Column>) {
    forall i :: 0 <= i < |row| ==> row[i].Cell?
  }

  function StoredRow(row: seq<Column>): (r: seq<Value>)
    ensures |r| == |row|
  {
    seq(|row|, i requires 0 <= i < |row| => if row[i].Cell? then Stored(row[i].value) else Null)
  }

  function StoredRows(rows: seq<seq<Column>>): (r: seq<seq<Value>>)
    ensures |r| == |rows|
  {
    seq(|rows|, i requires 0 <= i < |rows| => StoredRow(rows[i]))
  }

  /** The columns from `i` on put into the last row, which is given up when one does not fit. */
  function CopyColumns(w: Window, size: nat, row: seq<Column>, i: nat): (r: (Window, CopyResult))
    requires Shaped(w) && |w.rows| > 0 && i <= |row|
    ensures Shaped(r.0)
    decreases |row| - i
  {
    if i == |row| then (w, CopyOk)
    else if row[i].UnknownType? then (FreeLastRow(w), CopyError)
    else
      var (w1, st) := Put(w, size, |w.rows| - 1, i, Stored(row[i].value));
      if st != Ok then (FreeLastRow(w1), CopyFull) else CopyColumns(w1, size, row, i + 1)
  }

  function CopyRow(w: Window, size: nat, row: seq<Column>): (r: (Window, CopyResult))
    requires Shaped(w)
    ensures Shaped(r.0)
  {
    var (w1, st) := AllocRow(w, size);
    if st != Ok then (w1, CopyFull) else CopyColumns(w1, size, row, 0)
  }

  function Fresh(columns: nat): Window {
    Empty.(columns := columns)
  }

  /** A row that can be copied into a window just cleared. */
  predicate FitsAlone(size: nat, row: seq<Column>) {
    CopyRow(Fresh(|row|), size, row).1 == CopyOk
  }

  /** The bytes of the columns from `i` up to the first of unknown type. */
  function RowBytes(row: seq<Column>, i: nat): nat
    requires i <= |row|
    decreases |row| - i
  {
    if i == |row| || row[i].UnknownType? then 0
    else BufferSize(Stored(row[i].value)) + RowBytes(row, i + 1)
  }

  /** Where a row ends that goes behind the others of a window. */
  function RowEnd(w: Window, row: seq<Column>): nat {
    AlignUp(RowStart(w)) + FIELD_BYTES * |row| + RowBytes(row, 0)
  }

  // ---------------------------------------------------------------- what copying a row does

  lemma {:induction false} CopyColumnsRows(w: Window, size: nat, row: seq<Column>, i: nat)
    requires Shaped(w) && |w.rows| > 0 && i <= |row| == w.columns
    ensures var (w1, res) := CopyColumns(w, size, row, i); var n := |w.rows| - 1;
            && w1.columns == w.columns && w1.free >= w.free
            && (res == CopyOk ==> |w1.rows| == n + 1 && w1.rows[..n] == w.rows[..n])
            && (res == CopyOk ==> forall c :: i <= c < |row| ==> w1.rows[n][c] == StoredRow(row)[c])
            && (res == CopyOk ==> forall c :: 0 <= c < i ==> w1.rows[n][c] == w.rows[n][c])
            && (res != CopyOk ==> w1.rows == w.rows[..n])
    decreases |row| - i
  {
    if i < |row| && row[i].Cell? {
      var (w1, st) := Put(w, size, |w.rows| - 1, i, Stored(row[i].value));
      if st == Ok { CopyColumnsRows(w1, size, row, i + 1); }
    }
  }

  /** A copied row is appended whole; a row that could not be copied leaves no trace in the
      table. */
  lemma CopyRowRows(w: Window, size: nat, row: seq<Column>)
    requires Shaped(w) && |row| == w.columns
    ensures var (w1, res) := CopyRow(w, size, row);
            && w1.columns == w.columns && w1.free >= w.free
            && w1.rows == if res == CopyOk then w.rows + [StoredRow(row)] else w.rows
  {
    var (w1, st) := AllocRow(w, size);
    if st == Ok {
      CopyColumnsRows(w1, size, row, 0);
      var (w2, res) := CopyColumns(w1, size, row, 0);
      assert w1.rows[..|w.rows|] == w.rows;
      if res == CopyOk {
        assert w2.rows[|w.rows|] == StoredRow(row);
        assert w2.rows == w2.rows[..|w.rows|] + [w2.rows[|w.rows|]];
      }
    }
  }

  /** The columns from `i` on run out of space exactly when the bytes up to the first of unknown type do
      not fit; otherwise such a column is reached, if there is one. */
  lemma {:induction false} CopyColumnsSpace(w: Window, size: nat, row: seq<Column>, i: nat)
    requires Shaped(w) && |w.rows| > 0 && i <= |row| == w.columns && w.free <= size
    ensures CopyColumns(w, size, row, i).1 ==
              if w.free + RowBytes(row, i) > size then CopyFull
              else if forall c :: i <= c < |row| ==> row[c].Cell? then CopyOk
              else CopyError
    decreases |row| - i
  {
    if i < |row| && row[i].Cell? {
      var (w1, st) := Put(w, size, |w.rows| - 1, i, Stored(row[i].value));
      if st == Ok { CopyColumnsSpace(w1, size, row, i + 1); }
    }
  }

  /** What copying a row comes to, in bytes: it is full exactly when the row does not fit behind the others,
      and it would not fit behind what a failed copy leaves either. */
  lemma CopyRowExact(w: Window, size: nat, row: seq<Column>)
    requires Shaped(w) && |row| == w.columns
    ensures var (w1, res) := CopyRow(w, size, row);
      && res == (if RowEnd(w, row) > size then CopyFull else if AllKnown(row) then CopyOk else CopyError)
      && (res == CopyFull ==> RowEnd(w1, row) > size)
  {
    AllocRowExact(w, size);
    var (w1, st) := AllocRow(w, size);
    if st == Ok {
      CopyColumnsSpace(w1, size, row, 0);
      CopyColumnsRows(w1, size, row, 0);
    }
    AlignsInOrder(RowStart(w), RowStart(CopyRow(w, size, row).0));
    hide AllocRow, CopyColumns, AlignUp, RowBytes;
  }

  lemma AlignsInOrder(m: nat, n: nat)
    ensures m <= n ==> AlignUp(m) <= AlignUp(n)
  {
  }

  lemma FirstRow(columns: nat, size: nat)
    ensures var (w, st) := AllocRow(Fresh(columns), size);
            var end := HEADER_BYTES + CHUNK_BYTES + FIELD_BYTES * columns;
            && (st == Ok <==> end <= size)
            && (st == Ok ==> w.free == end && |w.rows| == 1 && w.columns == columns)
  {
    assert AlignUp(HEADER_BYTES + CHUNK_BYTES) == HEADER_BYTES + CHUNK_BYTES;
  }

  /** Exactly when a row fits into a window just cleared. */
  lemma FitsAloneIff(size: nat, row: seq<Column>)
    ensures FitsAlone(size, row) <==>
              AllKnown(row) && HEADER_BYTES + CHUNK_BYTES + FIELD_BYTES * |row| + RowBytes(row, 0) <= size
  {
    var w := Fresh(|row|);
    FirstRow(|row|, size);
    var (w1, st) := AllocRow(w, size);
    hide AllocRow;
    if st == Ok { CopyColumnsSpace(w1, size, row, 0); }
  }

  /** What fits beside other rows fits alone. */
  lemma FitsSomewhere(w: Window, size: nat, row: seq<Column>)
    requires Shaped(w) && |row| == w.columns && HEADER_BYTES + CHUNK_BYTES <= w.free
    requires CopyRow(w, size, row).1 == CopyOk
    ensures FitsAlone(size, row)
  {
    var (w1, st) := AllocRow(w, size);
    CopyColumnsSpace(w1, size, row, 0);
    FitsAloneIff(size, row);
  }

  // ---------------------------------------------------------------- copying into the buffer

  predicate RowFits32(size: nat, row: seq<Column>) {
    && ColumnsFit(size, |row|)
    && forall i :: 0 <= i < |row| && row[i].Cell? ==>
         Storable(row[i].value) && size + 4 + BufferSize(row[i].value) < U32
  }

  lemma ColumnStep(w: Window, size: nat, row: seq<Column>, i: nat)
    requires Shaped(w) && |w.rows| > 0 && i < |row|
    ensures row[i].UnknownType? ==> CopyColumns(w, size, row, i) == (FreeLastRow(w), CopyError)
    ensures row[i].Cell? ==>
              var (w1, st) := Put(w, size, |w.rows| - 1, i, Stored(row[i].value));
              && |w1.rows| == |w.rows| && w1.columns == w.columns && w1.chunks == w.chunks
              && (st == Ok ==> CopyColumns(w, size, row, i) == CopyColumns(w1, size, row, i + 1))
              && (st != Ok ==> CopyColumns(w, size, row, i) == (FreeLastRow(w1), CopyFull))
    ensures FreeLastRow(w).columns == w.columns
  {
  }

  /** One column of `copyRow`; a column that does not fit or has no known type gives up the
      row. */
  method CopyColumn(window: CursorWindow, slot: nat, row: seq<Column>, i: nat) returns (result: CopyResult)
    requires window.Valid() && i < |row| == window.view.columns && RowFits32(window.data.Length, row)
    requires |window.view.rows| > 0 && window.SlotOf(slot, |window.view.rows| - 1)
    modifies window, window.data
    ensures window.Valid() && window.view.columns == |row|
    ensures result == CopyOk ==> |window.view.rows| == |old(window.view).rows|
    ensures result == CopyOk ==> window.view.chunks == old(window.view).chunks
    ensures result == CopyOk && |window.view.rows| > 0 ==>
      CopyColumns(old(window.view), window.data.Length, row, i) == CopyColumns(window.view, window.data.Length, row, i + 1)
    ensures result != CopyOk ==> CopyColumns(old(window.view), window.data.Length, row, i) == (window.view, result)
  {
    HeaderFacts(window.data[..], window.view, window.regions);
    ColumnStep(window.view, window.data.Length, row, i);
    assert row[i].Cell? ==> Storable(Stored(row[i].value)) && window.view.free + 3 + BufferSize(Stored(row[i].value)) < U32;
    hide Represents, RowFits32, Storable, BufferSize, Stored, CopyColumns, Put, WindowTable.FreeLastRow;
    match row[i] {
      case UnknownType =>
        window.FreeLastRow();
        result := CopyError;
      case Cell(v) =>
        var status := window.PutValue(slot, i, Stored(v), |window.view.rows| - 1);
        if status == Ok {
          return CopyOk;
        }
        HeaderFacts(window.data[..], window.view, window.regions);
        window.FreeLastRow();
        result := CopyFull;
    }
  }

  /** The columns of `copyRow` put into the row just allocated. */
  method CopyColumnsInto(window: CursorWindow, slot: nat, row: seq<Column>) returns (result: CopyResult)
    requires window.Valid() && Shaped(window.view) && window.view.columns == |row|
    requires RowFits32(window.data.Length, row)
    requires |window.view.rows| > 0 && window.SlotOf(slot, |window.view.rows| - 1)
    modifies window, window.data
    ensures window.Valid()
    ensures window.view == CopyColumns(old(window.view), window.data.Length, row, 0).0
    ensures result == CopyColumns(old(window.view), window.data.Length, row, 0).1
  {
    hide CursorWindow.Valid, Represents, Shaped, RowFits32, CopyColumns;
    ghost var first := window.view;
    ghost var size := window.data.Length;
    for i := 0 to |row|
      invariant window.Valid() && Shaped(window.view) && window.view.columns == |row| && |window.view.rows| > 0
      invariant window.view.chunks == first.chunks && |window.view.rows| == |first.rows|
      invariant CopyColumns(first, size, row, 0) == CopyColumns(window.view, size, row, i)
    {
      result := CopyColumn(window, slot, row, i);
      window.HasRoom();
      if result != CopyOk {
        return;
      }
    }
    NoColumnLeft(window.view, size, row);
    result := CopyOk;
  }

  lemma NoColumnLeft(w: Window, size: nat, row: seq<Column>)
    requires Shaped(w) && |w.rows| > 0 && w.columns == |row|
    ensures CopyColumns(w, size, row, |row|) == (w, CopyOk)
  {
  }

  method CopyRowInto(window: CursorWindow, row: seq<Column>) returns (result: CopyResult)
    requires window.Valid() && window.view.columns == |row| && RowFits32(window.data.Length, row)
    modifies window, window.data
    ensures window.Valid()
    ensures window.view == CopyRow(old(window.view), window.data.Length, row).0
    ensures result == CopyRow(old(window.view), window.data.Length, row).1
  {
    hide Represents, CopyColumns, WindowTable.AllocRow;
    HeaderFacts(window.data[..], window.view, window.regions);
    RowsBounded(window.data[..], window.view, window.regions);
    var slot, status := window.AllocRow();
    if status != Ok {
      return CopyFull;
    }
    AllocatedRow(old(window.view), window.data.Length);
    window.HasRoom();
    result := CopyColumnsInto(window, slot, row);
  }

  lemma AllocatedRow(w: Window, size: nat)
    requires Shaped(w) && WindowTable.AllocRow(w, size).1 == Ok
    ensures var w1 := WindowTable.AllocRow(w, size).0; |w1.rows| == |w.rows| + 1 && w1.columns == w.columns
  {
  }

  // ---------------------------------------------------------------- the loop over the result

  datatype Fill = Fill(window: Window, start: nat, total: nat, added: nat, full: bool)

  /** One row of the result: skipped before the start position or once the window is full,
      otherwise copied; if it does not fit before the required row was reached, the window is
      cleared and filling starts again from this row. */
  function TakeRow(s: Fill, size: nat, row: seq<Column>, required: int): (r: (Fill, CopyResult))
    requires Shaped(s.window)
    ensures Shaped(r.0.window)
  {
    var w := if s.total == 0 then SetNumColumns(s.window, |row|).0 else s.window;
    if s.start >= s.total + 1 || s.full then (s.(window := w, total := s.total + 1), CopyOk)
    else TakeInto(s, w, size, row, required)
  }

  function TakeInto(s: Fill, w: Window, size: nat, row: seq<Column>, required: int): (r: (Fill, CopyResult))
    requires Shaped(w)
    ensures Shaped(r.0.window)
  {
    if CopyRow(w, size, row).1 == CopyFull && s.added > 0 && s.start + s.added <= required then
      Settle(CopyRow(Fresh(|row|), size, row), s.start + s.added, s.total + 1, 0)
    else
      Settle(CopyRow(w, size, row), s.start, s.total + 1, s.added)
  }

  function Settle(copied: (Window, CopyResult), start: nat, total: nat, added: nat): (r: (Fill, CopyResult))
    ensures r.1 == copied.1 && r.0.window == copied.0
  {
    (Fill(copied.0, start, total, if copied.1 == CopyOk then added + 1 else added, copied.1 == CopyFull), copied.1)
  }

  predicate Uniform(rows: seq<seq<Column>>) {
    forall i :: 0 <= i < |rows| ==> |rows[i]| == |rows[0]|
  }

  /** Every row from `lo` up to `hi` fits into a window of its own. */
  predicate AllFit(size: nat, rows: seq<seq<Column>>, lo: nat, hi: nat)
    requires hi <= |rows|
  {
    forall j :: lo <= j < hi ==> FitsAlone(size, rows[j])
  }

  predicate Holds(s: Fill, required: int) {
    s.start <= required < s.start + s.added
  }

  /** The window once `n` rows have been copied, one behind the other, from row `start` on. */
  function Packed(size: nat, rows: seq<seq<Column>>, start: nat, n: nat): (r: Window)
    requires start + n <= |rows| && rows != []
    ensures Shaped(r)
  {
    if n == 0 then Fresh(|rows[0]|) else CopyRow(Packed(size, rows, start, n - 1), size, rows[start + n - 1]).0
  }

  /** Row `next` does not fit behind the rows from `start` on. */
  predicate Overflows(size: nat, rows: seq<seq<Column>>, start: nat, next: nat) {
    start <= next < |rows| && RowEnd(Packed(size, rows, start, next - start), rows[next]) > size
  }

  /** The fill starts where it was told to, or at a row up to the required one that did not fit behind the
      stretch before it. */
  predicate StartsRight(size: nat, rows: seq<seq<Column>>, start0: nat, start: nat, required: int) {
    start == start0 || (start <= required && exists b :: start0 <= b < start && Overflows(size, rows, b, start))
  }

  predicate FillInv(s: Fill, size: nat, rows: seq<seq<Column>>, start0: nat, required: int) {
    var holds :=
      && Shaped(s.window) && HEADER_BYTES + CHUNK_BYTES <= s.window.free
      && s.total <= |rows| && start0 <= s.start
      && s.window.columns == (if s.total == 0 then 0 else |rows[0]|)
      && s.added == |s.window.rows| && (s.added > 0 ==> s.start + s.added <= s.total)
      && (s.added > 0 ==> s.window.rows == StoredRows(rows[s.start..s.start + s.added]))
      && (start0 <= required ==> s.start <= required) && StartsRight(size, rows, start0, s.start, required)
      && (!s.full ==> Filling(s, size, rows, start0))
      && (s.full ==> Stopped(s, size, rows))
      && (s.full && start0 <= required < |rows| ==> (Holds(s, required) <==> AllFit(size, rows, start0, required + 1)));
    holds
  }

  /** The window is full: the row that comes after its last did not fit behind it. */
  predicate Stopped(s: Fill, size: nat, rows: seq<seq<Column>>)
    requires s.total <= |rows|
  {
    s.start + s.added < s.total && Overflows(size, rows, s.start, s.start + s.added)
  }

  /** While the window is not full every row since the start position went into it. */
  predicate Filling(s: Fill, size: nat, rows: seq<seq<Column>>, start0: nat)
    requires s.total <= |rows|
  {
    && (s.added == 0 ==> s.window == Fresh(s.window.columns))
    && (s.added > 0 ==> s.start + s.added <= |rows| && s.window == Packed(size, rows, s.start, s.added))
    && (if s.total < s.start then s.added == 0 && s.start == start0 else s.start + s.added == s.total)
    && AllFit(size, rows, start0, s.total)
  }

  /** The window that the next row is copied into. */
  lemma PackedSoFar(s: Fill, w: Window, size: nat, rows: seq<seq<Column>>, start0: nat, required: int)
    requires FillInv(s, size, rows, start0, required) && s.total < |rows|
    requires s.start <= s.total && !s.full && w == s.window.(columns := |rows[0]|)
    ensures s.start + s.added == s.total && w == Packed(size, rows, s.start, s.added)
    ensures Packed(size, rows, s.start, s.added + 1) == CopyRow(w, size, rows[s.total]).0
  {
    hide FitsAlone, AllFit, StoredRows, StartsRight, CopyRow;
  }

  lemma SkipKeeps(s: Fill, size: nat, rows: seq<seq<Column>>, start0: nat, required: int)
    requires Uniform(rows) && FillInv(s, size, rows, start0, required) && s.total < |rows|
    requires s.start >= s.total + 1 || s.full
    ensures FillInv(TakeRow(s, size, rows[s.total], required).0, size, rows, start0, required)
  {
    hide FitsAlone, Packed, Overflows, StartsRight, StoredRows;
    assert |rows[s.total]| == |rows[0]|;
  }

  lemma AppendedRows(rows: seq<seq<Column>>, start: nat, added: nat)
    requires start + added < |rows|
    ensures StoredRows(rows[start..start + added]) + [StoredRow(rows[start + added])]
         == StoredRows(rows[start..start + added + 1])
  {
  }

  /** The window after a row was copied where it stands. */
  lemma CopiedRow(w: Window, size: nat, rows: seq<seq<Column>>, start: nat, added: nat)
    requires Shaped(w) && start + added < |rows| && |rows[start + added]| == w.columns
    requires w.rows == StoredRows(rows[start..start + added]) && HEADER_BYTES + CHUNK_BYTES <= w.free
    requires CopyRow(w, size, rows[start + added]).1 == CopyOk
    ensures var t := CopyRow(w, size, rows[start + added]).0;
      && Shaped(t) && HEADER_BYTES + CHUNK_BYTES <= t.free && t.columns == w.columns
      && t.rows == StoredRows(rows[start..start + added + 1]) && FitsAlone(size, rows[start + added])
  {
    CopyRowRows(w, size, rows[start + added]);
    FitsSomewhere(w, size, rows[start + added]);
    AppendedRows(rows, start, added);
  }

  lemma FitsOneMore(size: nat, rows: seq<seq<Column>>, lo: nat, hi: nat)
    requires hi < |rows| && AllFit(size, rows, lo, hi) && FitsAlone(size, rows[hi])
    ensures AllFit(size, rows, lo, hi + 1)
  {
    hide FitsAlone;
  }

  /** The row is copied where the window stands. */
  lemma CopyKeeps(s: Fill, w: Window, size: nat, rows: seq<seq<Column>>, start0: nat, required: int)
    requires Uniform(rows) && FillInv(s, size, rows, start0, required) && s.total < |rows|
    requires s.start <= s.total && !s.full && w == s.window.(columns := |rows[0]|)
    requires CopyRow(w, size, rows[s.total]).1 == CopyOk
    ensures FillInv(Settle(CopyRow(w, size, rows[s.total]), s.start, s.total + 1, s.added).0, size, rows, start0, required)
  {
    hide FitsAlone, AllFit, CopyRow, StoredRow, Packed, StartsRight;
    assert |rows[s.total]| == |rows[0]|;
    PackedSoFar(s, w, size, rows, start0, required);
    assert s.added == 0 ==> w.rows == StoredRows(rows[s.start..s.start + s.added]);
    CopiedRow(w, size, rows, s.start, s.added);
    FitsOneMore(size, rows, start0, s.total);
    hide StoredRows, Shaped, Uniform;
  }

  /** The row does not fit, and the required row is in the window already or fits nowhere. */
  lemma FullKeeps(s: Fill, w: Window, size: nat, rows: seq<seq<Column>>, start0: nat, required: int)
    requires Uniform(rows) && FillInv(s, size, rows, start0, required) && s.total < |rows|
    requires s.start <= s.total && !s.full && w == s.window.(columns := |rows[0]|)
    requires CopyRow(w, size, rows[s.total]).1 == CopyFull && (s.added == 0 || s.start + s.added > required)
    ensures FillInv(Settle(CopyRow(w, size, rows[s.total]), s.start, s.total + 1, s.added).0, size, rows, start0, required)
  {
    hide CopyRow, RowEnd, StoredRow, Packed, StartsRight;
    var row := rows[s.total];
    assert |row| == |rows[0]|;
    PackedSoFar(s, w, size, rows, start0, required);
    CopyRowRows(w, size, row);
    CopyRowExact(w, size, row);
    hide StoredRows, Shaped, Uniform;
    if s.added == 0 {
      assert w == Fresh(|row|) && !FitsAlone(size, rows[s.total]);
    }
  }

  lemma TakeRowKeeps(s: Fill, size: nat, rows: seq<seq<Column>>, start0: nat, required: int)
    requires Uniform(rows) && FillInv(s, size, rows, start0, required) && s.total < |rows|
    requires TakeRow(s, size, rows[s.total], required).1 != CopyError
    ensures FillInv(TakeRow(s, size, rows[s.total], required).0, size, rows, start0, required)
  {
    hide FitsAlone;
    var row := rows[s.total];
    assert |row| == |rows[0]|;
    if s.start >= s.total + 1 || s.full {
      SkipKeeps(s, size, rows, start0, required);
    } else {
      var w := if s.total == 0 then SetNumColumns(s.window, |row|).0 else s.window;
      assert w == s.window.(columns := |rows[0]|) && Shaped(w);
      hide TakeInto, FillInv, CopyRow, Uniform;
      TakeIntoKeeps(s, w, size, rows, start0, required);
    }
  }

  lemma TakeIntoKeeps(s: Fill, w: Window, size: nat, rows: seq<seq<Column>>, start0: nat, required: int)
    requires Uniform(rows) && FillInv(s, size, rows, start0, required) && s.total < |rows|
    requires s.start <= s.total && !s.full && w == s.window.(columns := |rows[0]|) && Shaped(w)
    requires TakeInto(s, w, size, rows[s.total], required).1 != CopyError
    ensures FillInv(TakeInto(s, w, size, rows[s.total], required).0, size, rows, start0, required)
  {
    hide FitsAlone, FillInv, CopyRow, Settle, Shaped;
    var row := rows[s.total];
    assert |row| == |rows[0]|;
    hide Uniform;
    if s.added > 0 { AddedMeansTaken(s, size, rows, start0, required); }
    if CopyRow(w, size, row).1 == CopyFull && s.added > 0 && s.start + s.added <= required {
      CopyRowExact(w, size, row);
      PackedSoFar(s, w, size, rows, start0, required);
      RestartKeeps(s, size, rows, start0, required);
    } else if CopyRow(w, size, row).1 == CopyOk {
      CopyKeeps(s, w, size, rows, start0, required);
    } else {
      FullKeeps(s, w, size, rows, start0, required);
    }
  }

  lemma AddedMeansTaken(s: Fill, size: nat, rows: seq<seq<Column>>, start0: nat, required: int)
    requires FillInv(s, size, rows, start0, required) && s.added > 0
    ensures s.total > 0
  {
    hide FitsAlone, AllFit, Filling, StoredRows;
  }

  /** The row is copied into a window cleared for it. */
  lemma RestartKeeps(s: Fill, size: nat, rows: seq<seq<Column>>, start0: nat, required: int)
    requires Uniform(rows) && FillInv(s, size, rows, start0, required) && 0 < s.total < |rows|
    requires s.start <= s.total && !s.full && s.added > 0 && s.start + s.added <= required
    requires CopyRow(Fresh(|rows[0]|), size, rows[s.total]).1 != CopyError && Overflows(size, rows, s.start, s.total)
    ensures FillInv(Settle(CopyRow(Fresh(|rows[0]|), size, rows[s.total]), s.start + s.added, s.total + 1, 0).0,
                    size, rows, start0, required)
  {
    hide FitsAlone, Packed, Overflows, RowEnd, CopyRow;
    var again := Fill(Fresh(|rows[0]|), s.total, s.total, 0, false);
    Again(s, size, rows, start0, required);
    hide FillInv, StartsRight;
    if CopyRow(Fresh(|rows[0]|), size, rows[s.total]).1 == CopyOk {
      CopyKeeps(again, Fresh(|rows[0]|), size, rows, start0, required);
    } else {
      FullKeeps(again, Fresh(|rows[0]|), size, rows, start0, required);
    }
  }

  /** The fill set back to an empty window before the row that did not fit. */
  lemma Again(s: Fill, size: nat, rows: seq<seq<Column>>, start0: nat, required: int)
    requires FillInv(s, size, rows, start0, required) && 0 < s.total < |rows|
    requires s.start <= s.total && !s.full && s.added > 0 && s.start + s.added <= required
    requires Overflows(size, rows, s.start, s.total)
    ensures s.start + s.added == s.total
    ensures FillInv(Fill(Fresh(|rows[0]|), s.total, s.total, 0, false), size, rows, start0, required)
  {
    hide FitsAlone, Packed, Overflows, StoredRows;
  }

  lemma FillStarts(size: nat, rows: seq<seq<Column>>, start0: nat, required: int)
    ensures FillInv(Fill(Empty, start0, 0, 0, false), size, rows, start0, required)
  {
  }

  /** The window holds a contiguous stretch of the result that begins at `start`; the required
      row is in it exactly when every row from the start position up to it fits in a window of
      its own, and the stretch ends where the result does or at a row that does not fit behind it. */
  predicate Filled(w: Window, size: nat, rows: seq<seq<Column>>, startPos: nat, required: int, start: nat, total: nat) {
    var end := start + |w.rows|;
    && startPos <= start && total <= |rows| && StartsRight(size, rows, startPos, start, required)
    && (|w.rows| > 0 ==> end <= total && w.rows == StoredRows(rows[start..end]))
    && (end < |rows| ==> Overflows(size, rows, start, end))
    && (startPos <= required < |rows| ==> (start <= required < end <==> AllFit(size, rows, startPos, required + 1)))
  }

  /** The loop is left at the end of the result or, unless all rows are to be counted, once the
      window is full. */
  lemma FillEnds(s: Fill, size: nat, rows: seq<seq<Column>>, start0: nat, required: int)
    requires FillInv(s, size, rows, start0, required) && (s.full || s.total == |rows|)
    ensures Filled(s.window, size, rows, start0, required, s.start, s.total)
  {
    hide FitsAlone;
  }

  /** What `sqlite3_step` may do at each call. */
  datatype StepOutcome = Ready | Busy | Fail

  // ---------------------------------------------------------------- when filling gives up

  /** A row that is not skipped has a column of unknown type, and the columns before it fit behind the rows
      already there, or in the window cleared for the row. */
  predicate ReachesUnknown(s: Fill, size: nat, row: seq<Column>, required: int) {
    && s.start <= s.total && !s.full && !AllKnown(row)
    && (RowEnd(s.window, row) <= size
        || (s.added > 0 && s.start + s.added <= required && RowEnd(Fresh(|row|), row) <= size))
  }

  /** Taking a row fails exactly when it reaches a column of unknown type. */
  lemma TakeRowFails(s: Fill, size: nat, row: seq<Column>, required: int)
    requires Shaped(s.window) && (s.total > 0 ==> s.window.columns == |row|)
    requires s.total == 0 ==> s.window.columns == 0 && s.window.rows == []
    ensures TakeRow(s, size, row, required).1 == CopyError <==> ReachesUnknown(s, size, row, required)
  {
    var w := if s.total == 0 then SetNumColumns(s.window, |row|).0 else s.window;
    CopyRowExact(w, size, row);
    CopyRowExact(Fresh(|row|), size, row);
    assert RowEnd(w, row) == RowEnd(s.window, row);
    hide CopyRow, RowEnd;
  }

  /** One call of the fill: a result, what SQLite answers at each call, and where to fill. */
  datatype Query = Query(rows: seq<seq<Column>>, step: nat -> StepOutcome, size: nat, start: nat, required: int,
                         countAll: bool)

  /** The state of the fill once `n` rows have been taken. */
  function FillAfter(q: Query, n: nat): (r: Fill)
    requires n <= |q.rows|
    ensures Shaped(r.window)
  {
    if n == 0 then Fill(Empty, q.start, 0, 0, false)
    else TakeRow(FillAfter(q, n - 1), q.size, q.rows[n - 1], q.required).0
  }

  /** How many of the calls before `k` found SQLite ready. */
  function ReadyBefore(step: nat -> StepOutcome, k: nat): (n: nat)
    ensures n <= k
  {
    if k == 0 then 0 else ReadyBefore(step, k - 1) + if step(k - 1) == Ready then 1 else 0
  }

  /** The fill is done before call `k`: the end of the result was reported, or the window is full and no
      more rows are to be counted. */
  predicate DoneBefore(q: Query, k: nat) {
    var n := ReadyBefore(q.step, k);
    n > |q.rows| || (!q.countAll && FillAfter(q, n).full)
  }

  predicate SevenBusy(step: nat -> StepOutcome, k: nat) {
    k >= 6 && forall j :: k - 6 <= j <= k ==> step(j) == Busy
  }

  /** Call `k` ends the fill with an exception. */
  predicate Raises(q: Query, k: nat) {
    var n := ReadyBefore(q.step, k);
    || q.step(k) == Fail
    || SevenBusy(q.step, k)
    || (q.step(k) == Ready && n < |q.rows| && ReachesUnknown(FillAfter(q, n), q.size, q.rows[n], q.required))
  }

  ghost predicate Raised(q: Query) {
    exists k: nat :: Raises(q, k) && !DoneBefore(q, k)
  }

  /** If no call fails, no seven calls in a row find SQLite busy and the type of every column is known, there
      is no exception. */
  lemma NothingRaised(q: Query)
    requires forall k: nat :: q.step(k) != Fail && !SevenBusy(q.step, k)
    requires forall i :: 0 <= i < |q.rows| ==> AllKnown(q.rows[i])
    ensures !Raised(q)
  {
  }

  lemma NoCallsYet(step: nat -> StepOutcome)
    ensures ReadyBefore(step, 0) == 0
  {
  }

  lemma OneMoreCall(step: nat -> StepOutcome, k: nat)
    ensures ReadyBefore(step, k + 1) == ReadyBefore(step, k) + if step(k) == Ready then 1 else 0
  {
  }

  lemma DoneIs(q: Query, k: nat, n: nat)
    requires n == ReadyBefore(q.step, k)
    ensures DoneBefore(q, k) <==> n > |q.rows| || (!q.countAll && FillAfter(q, n).full)
  {
  }

  lemma RaisedAt(q: Query, k: nat)
    requires Raises(q, k) && !DoneBefore(q, k)
    ensures Raised(q)
  {
  }

  /** A fill that is done stays done. */
  lemma {:induction false} DoneStays(q: Query, j: nat, k: nat)
    requires j <= k && DoneBefore(q, j)
    ensures DoneBefore(q, k)
    decreases k - j
  {
    if j < k {
      hide TakeInto;
      OneMoreCall(q.step, j);
      hide ReadyBefore;
      DoneStays(q, j + 1, k);
    }
  }

  /** The loop was left in the ordinary way. */
  lemma LeftQuietly(q: Query, calls: nat)
    requires DoneBefore(q, calls) && forall j :: 0 <= j < calls ==> !Raises(q, j)
    ensures !Raised(q)
  {
    hide DoneBefore, Raises;
    forall k: nat | Raises(q, k) ensures DoneBefore(q, k) {
      DoneStays(q, calls, k);
    }
  }

  /** The calls so far raised nothing; `retries` of them, the last, found SQLite busy. */
  ghost predicate Quiet(q: Query, calls: nat, retries: nat) {
    && retries <= calls && retries <= 6
    && (forall j :: 0 <= j < calls ==> !Raises(q, j))
    && (forall j :: calls - retries <= j < calls ==> q.step(j) == Busy)
    && (calls > retries ==> q.step(calls - retries - 1) != Busy)
  }

  lemma BusyCall(q: Query, calls: nat, retries: nat)
    requires Quiet(q, calls, retries) && q.step(calls) == Busy
    ensures Raises(q, calls) <==> retries == 6
    ensures retries < 6 ==> Quiet(q, calls + 1, retries + 1)
  {
    hide ReachesUnknown, FillAfter, ReadyBefore;
    if retries < 6 && calls > retries {
      assert q.step(calls - retries - 1) != Busy;
    }
  }

  lemma ReadyCall(q: Query, calls: nat, retries: nat)
    requires Quiet(q, calls, retries) && q.step(calls) == Ready
    ensures var n := ReadyBefore(q.step, calls);
      && (Raises(q, calls) <==> n < |q.rows| && ReachesUnknown(FillAfter(q, n), q.size, q.rows[n], q.required))
      && (!Raises(q, calls) ==> Quiet(q, calls + 1, 0))
  {
    hide ReachesUnknown, FillAfter, ReadyBefore;
    assert !SevenBusy(q.step, calls);
  }

  lemma QuietFacts(q: Query, calls: nat, retries: nat)
    requires Quiet(q, calls, retries)
    ensures forall j :: 0 <= j < calls ==> !Raises(q, j)
    ensures q.step(calls) == Fail ==> Raises(q, calls)
  {
    hide ReachesUnknown, FillAfter, ReadyBefore;
  }

  lemma QuietStart(q: Query)
    ensures Quiet(q, 0, 0) && FillAfter(q, 0) == Fill(Empty, q.start, 0, 0, false)
  {
  }

  /** How far a start position lies before the first row. */
  function Before(startPos: int): nat {
    if startPos < 0 then -startPos else 0
  }

  lemma BeforeFirst(startPos: int)
    ensures startPos + Before(startPos) >= 0 && (Before(startPos) > 0 ==> startPos + Before(startPos) == 0)
  {
  }

  /** The fill that a call of the loop asks for; from a negative position it starts at the first row, and all
      positions are that much too low. */
  function QueryOf(rows: seq<seq<Column>>, step: nat -> StepOutcome, size: nat, startPos: int, requiredPos: int,
                   countAllRows: bool): Query {
    BeforeFirst(startPos);
    Query(rows, step, size, startPos + Before(startPos), requiredPos + Before(startPos), countAllRows)
  }

  lemma QueryFacts(rows: seq<seq<Column>>, step: nat -> StepOutcome, size: nat, startPos: int, requiredPos: int,
                   countAllRows: bool)
    ensures var q := QueryOf(rows, step, size, startPos, requiredPos, countAllRows); var shift := Before(startPos);
      && q.rows == rows && q.step == step && q.size == size && q.countAll == countAllRows
      && q.start == startPos + shift && q.required == requiredPos + shift && (shift > 0 ==> q.start == 0)
  {
  }

  /** Fills the window from `startPos` on.  `step` decides, call by call, whether SQLite is
      ready, busy or failing; when ready it yields the next of `rows`, or the end. */
  method FillWindow(window: CursorWindow, rows: seq<seq<Column>>, step: nat -> StepOutcome,
                    startPos: int, requiredPos: int, countAllRows: bool)
    returns (start: int, totalRows: nat, gotException: bool)
    requires window.Valid() && Uniform(rows)
    requires forall i :: 0 <= i < |rows| ==> RowFits32(window.data.Length, rows[i])
    modifies window, window.data
    ensures window.Valid()
    ensures gotException <==> Raised(QueryOf(rows, step, window.data.Length, startPos, requiredPos, countAllRows))
    ensures !gotException ==>
      var q := QueryOf(rows, step, window.data.Length, startPos, requiredPos, countAllRows);
      var shift := Before(startPos);
      && start + shift >= 0
      && Filled(window.view, q.size, rows, q.start, q.required, start + shift, totalRows)
    ensures !gotException && countAllRows ==> totalRows == |rows|
  {
    hide *;
    ghost var shift := Before(startPos);
    ghost var q := QueryOf(rows, step, window.data.Length, startPos, requiredPos, countAllRows);
    QueryFacts(rows, step, window.data.Length, startPos, requiredPos, countAllRows);
    window.HasRoom();
    window.Clear();
    var retryCount: nat, addedRows: nat, windowFull, calls: nat := 0, 0, false, 0;
    start, totalRows, gotException := startPos, 0, false;
    FillStarts(q.size, rows, q.start, q.required);
    QuietStart(q);
    NoCallsYet(step);
    ghost var ended := false;
    while !gotException && (!windowFull || countAllRows)
      invariant window.Valid() && totalRows <= |rows| && retryCount <= 6 && start + shift >= 0
      invariant !gotException ==> FillInv(FillAfter(q, totalRows), q.size, rows, q.start, q.required)
      invariant !gotException ==> FillAfter(q, totalRows) == Fill(window.view, start + shift, totalRows, addedRows, windowFull)
      invariant !gotException ==> Quiet(q, calls, retryCount) && totalRows == ReadyBefore(step, calls)
      invariant gotException ==> Raised(q)
      invariant !ended
      decreases |rows| - totalRows, 6 - retryCount, !gotException
    {
      DoneIs(q, calls, totalRows);
      OneMoreCall(step, calls);
      QuietFacts(q, calls, retryCount);
      var err := step(calls);
      match err {
        case Ready =>
          ReadyCall(q, calls, retryCount);
          if Raises(q, calls) { RaisedAt(q, calls); }
          calls := calls + 1;
          if totalRows == |rows| {
            DoneIs(q, calls, totalRows + 1);
            ended := true;
            break;
          }
          retryCount := 0;
          start, addedRows, windowFull, gotException :=
            TakeNext(window, rows, start, totalRows, addedRows, windowFull, requiredPos, q, shift);
          totalRows := totalRows + 1;
        case Busy =>
          BusyCall(q, calls, retryCount);
          if Raises(q, calls) { RaisedAt(q, calls); }
          calls := calls + 1;
          if retryCount > 5 {
            gotException := true;
          } else {
            retryCount := retryCount + 1;
          }
        case Fail =>
          RaisedAt(q, calls);
          calls := calls + 1;
          gotException := true;
      }
    }
    if !gotException {
      if !ended { DoneIs(q, calls, totalRows); }
      QuietFacts(q, calls, if ended then 0 else retryCount);
      LeftQuietly(q, calls);
      FillEnds(FillAfter(q, totalRows), q.size, rows, q.start, q.required);
    }
  }

  /** From the first row on nothing is skipped. */
  lemma NoneSkipped(s: Fill, size: nat, rows: seq<seq<Column>>, required: int)
    requires FillInv(s, size, rows, 0, required)
    ensures s.start <= s.total || s.full
  {
    hide FitsAlone, AllFit;
  }

  /** What the loop's invariant says about the window before the next row. */
  lemma NextRowFacts(s: Fill, size: nat, rows: seq<seq<Column>>, start0: nat, required: int)
    requires Uniform(rows) && FillInv(s, size, rows, start0, required) && s.total < |rows|
    ensures Shaped(s.window)
    ensures s.total > 0 ==> s.window.columns == |rows[s.total]|
    ensures s.total == 0 ==> s.window.columns == 0 && s.window.rows == []
  {
    hide FitsAlone, AllFit;
    assert |rows[s.total]| == |rows[0]|;
  }

  /** The next row of the result, with the loop's invariant. */
  method TakeNext(window: CursorWindow, rows: seq<seq<Column>>, startPos: int, totalRows: nat, added: nat,
                  full: bool, requiredPos: int, ghost q: Query, ghost shift: nat)
    returns (start: int, addedRows: nat, windowFull: bool, gotException: bool)
    requires window.Valid() && Uniform(rows) && totalRows < |rows| && RowFits32(window.data.Length, rows[totalRows])
    requires q.rows == rows && q.size == window.data.Length && q.required == requiredPos + shift
    requires startPos + shift >= 0 && (shift > 0 ==> q.start == 0)
    requires FillAfter(q, totalRows) == Fill(window.view, startPos + shift, totalRows, added, full)
    requires FillInv(FillAfter(q, totalRows), q.size, rows, q.start, q.required)
    modifies window, window.data
    ensures window.Valid() && startPos <= start
    ensures gotException <==> ReachesUnknown(FillAfter(q, totalRows), q.size, rows[totalRows], q.required)
    ensures !gotException ==> FillInv(FillAfter(q, totalRows + 1), q.size, rows, q.start, q.required)
    ensures FillAfter(q, totalRows + 1) == Fill(window.view, start + shift, totalRows + 1, addedRows, windowFull)
  {
    hide *;
    ghost var s := FillAfter(q, totalRows);
    NextRowFacts(s, q.size, rows, q.start, q.required);
    if shift > 0 { NoneSkipped(s, q.size, rows, q.required); }
    TakeRowFails(s, q.size, rows[totalRows], q.required);
    NextFill(q, totalRows);
    var cpr;
    start, addedRows, windowFull, cpr :=
      TakeRowInto(window, rows[totalRows], startPos, totalRows, added, full, requiredPos, shift);
    gotException := cpr == CopyError;
    if !gotException {
      TakeRowKeeps(s, q.size, rows, q.start, q.required);
    }
  }

  lemma NextFill(q: Query, n: nat)
    requires n < |q.rows|
    ensures FillAfter(q, n + 1) == TakeRow(FillAfter(q, n), q.size, q.rows[n], q.required).0
  {
  }

  /** Clears the window and copies the row as its first. */
  method CopyRowAfresh(window: CursorWindow, row: seq<Column>) returns (result: CopyResult)
    requires window.Valid() && RowFits32(window.data.Length, row)
    modifies window, window.data
    ensures window.Valid()
    ensures window.view == CopyRow(Fresh(|row|), window.data.Length, row).0
    ensures result == CopyRow(Fresh(|row|), window.data.Length, row).1
  {
    hide Represents, CopyRow;
    window.HasRoom();
    window.Clear();
    var status := window.SetNumColumns(|row|);
    result := CopyRowInto(window, row);
  }

  /** A row that is not skipped is copied, into a cleared window if it has to be. */
  method CopyOrRestart(window: CursorWindow, row: seq<Column>, startPos: int, ghost totalRows: nat, added: nat,
                       ghost full: bool, requiredPos: int, ghost shift: nat)
    returns (start: int, addedRows: nat, windowFull: bool, cpr: CopyResult)
    requires window.Valid() && RowFits32(window.data.Length, row) && window.view.columns == |row|
    requires startPos + shift >= 0 && Shaped(window.view)
    modifies window, window.data
    ensures window.Valid() && startPos <= start
    ensures var s := Fill(old(window.view), startPos + shift, totalRows, added, full);
            var r := TakeInto(s, old(window.view), window.data.Length, row, requiredPos + shift);
            && r.0.window == window.view && r.0.start == start + shift && r.0.total == totalRows + 1
            && r.0.added == addedRows && r.0.full == windowFull && r.1 == cpr
  {
    hide Represents, CopyRow, Shaped;
    start, addedRows := startPos, added;
    cpr := CopyRowInto(window, row);
    if cpr == CopyFull && addedRows > 0 && start + addedRows <= requiredPos {
      start := start + addedRows;
      addedRows := 0;
      cpr := CopyRowAfresh(window, row);
    }
    windowFull := cpr == CopyFull;
    if cpr == CopyOk {
      addedRows := addedRows + 1;
    }
  }

  /** The body of the loop for one row. */
  method TakeRowInto(window: CursorWindow, row: seq<Column>, startPos: int, totalRows: nat, added: nat,
                     full: bool, requiredPos: int, ghost shift: nat)
    returns (start: int, addedRows: nat, windowFull: bool, cpr: CopyResult)
    requires window.Valid() && RowFits32(window.data.Length, row) && Shaped(window.view)
    requires totalRows > 0 ==> window.view.columns == |row|
    requires totalRows == 0 ==> window.view.columns == 0 && window.view.rows == []
    requires startPos + shift >= 0 && (shift > 0 ==> startPos + shift <= totalRows || full)
    modifies window, window.data
    ensures window.Valid() && startPos <= start
    ensures var s := Fill(old(window.view), startPos + shift, totalRows, added, full);
            var r := TakeRow(s, window.data.Length, row, requiredPos + shift);
            && r.0.window == window.view && r.0.start == start + shift && r.0.total == totalRows + 1
            && r.0.added == addedRows && r.0.full == windowFull && r.1 == cpr
  {
    hide Represents, TakeInto;
    window.HasRoom();
    start, addedRows, windowFull, cpr := startPos, added, full, CopyOk;
    ghost var w := window.view;
    if totalRows == 0 {
      var status := window.SetNumColumns(|row|);
    }
    if startPos >= totalRows + 1 || full {
      return;
    }
    ghost var s := Fill(w, startPos + shift, totalRows, added, full);
    SameTake(s, window.view, window.data.Length, row, requiredPos + shift);
    start, addedRows, windowFull, cpr := CopyOrRestart(window, row, startPos, totalRows, added, full, requiredPos, shift);
  }

  /** The window a row is taken into is given beside the state. */
  lemma SameTake(s: Fill, w: Window, size: nat, row: seq<Column>, required: int)
    requires Shaped(w)
    ensures TakeInto(s, w, size, row, required) == TakeInto(s.(window := w), w, size, row, required)
  {
  }
}
