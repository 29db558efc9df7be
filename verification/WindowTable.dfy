/** What a cursor window promises: a table of rows, together with the addresses and the
    free space that decide when an operation fails. */
module WindowTable {
  import opened Common
  import opened WindowMemory

  const HEADER_BYTES := 16
  const CHUNK_BYTES := 4096
  const CHUNK_ROWS := 1023
  const FIELD_BYTES := 12

  datatype Status = Ok | NoMemory | BadValue | InvalidOperation

  /** A double is its 64-bit pattern. */
  datatype Value =
    | Null
    | Integer(value: int)
    | Float(bits: nat)
    | Text(bytes: seq<Byte>)
    | Blob(bytes: seq<Byte>)

  predicate Storable(v: Value) {
    && (v.Integer? ==> -(U64 / 2) <= v.value < U64 / 2)
    && (v.Float? ==> v.bits < U64)
  }

  /** `chunks` are the offsets of the row slot chunks in chain order, `dirs` the offset of
      the field directory of each row, `free` the lowest unused byte. */
  datatype Window = Window(columns: nat, rows: seq<seq<Value>>, free: nat, chunks: seq<nat>, dirs: seq<nat>)

  const Empty := Window(0, [], HEADER_BYTES + CHUNK_BYTES, [HEADER_BYTES], [])

  predicate Shaped(w: Window) {
    && |w.chunks| >= 1 && |w.dirs| == |w.rows| <= CHUNK_ROWS * |w.chunks|
    && forall r :: 0 <= r < |w.rows| ==> |w.rows[r]| == w.columns
  }

  function AlignUp(n: nat): (r: nat)
    ensures n <= r < n + 4 && r % 4 == 0
  {
    (n + 3) / 4 * 4
  }

  /** Where the slot of a row lives: the chunk that covers it, past the chunk's link. */
  function SlotOffset(chunks: seq<nat>, row: nat): nat
    requires row < CHUNK_ROWS * |chunks|
  {
    chunks[row / CHUNK_ROWS] + 4 + 4 * (row % CHUNK_ROWS)
  }

  function NullRow(columns: nat): (r: seq<Value>)
    ensures |r| == columns && forall c :: 0 <= c < columns ==> r[c] == Null
  {
    seq(columns, _ => Null)
  }

  function BufferSize(v: Value): nat {
    if v.Text? || v.Blob? then |v.bytes| else 0
  }

  /** The chain made long enough for one more row: at a chunk boundary the next chunk is
      reused when an earlier row left it behind, and taken from the free space otherwise. */
  function GrowChain(w: Window, size: nat): (r: (Window, bool))
    requires Shaped(w)
    ensures Shaped(r.0) && r.0.rows == w.rows && r.0.columns == w.columns && r.0.dirs == w.dirs
    ensures r.1 ==> |w.rows| < CHUNK_ROWS * |r.0.chunks|
  {
    var k := |w.rows| / CHUNK_ROWS;
    if |w.rows| == 0 || |w.rows| % CHUNK_ROWS != 0 then (w, true)
    else if |w.chunks| > k then (w.(chunks := w.chunks[..k + 1]), true)
    else
      var c := AlignUp(w.free);
      if c + CHUNK_BYTES > size then (w, false)
      else (w.(chunks := w.chunks + [c], free := c + CHUNK_BYTES), true)
  }

  function AllocRow(w: Window, size: nat): (r: (Window, Status))
    requires Shaped(w)
    ensures Shaped(r.0)
  {
    var (g, grown) := GrowChain(w, size);
    if !grown then (g, NoMemory)
    else
      var d := AlignUp(g.free);
      if d + FIELD_BYTES * g.columns > size then (g, NoMemory)
      else (g.(rows := g.rows + [NullRow(g.columns)], dirs := g.dirs + [d],
               free := d + FIELD_BYTES * g.columns), Ok)
  }

  function FreeLastRow(w: Window): (r: Window)
    requires Shaped(w)
    ensures Shaped(r)
  {
    if w.rows == [] then w
    else w.(rows := w.rows[..|w.rows| - 1], dirs := w.dirs[..|w.rows| - 1])
  }

  function SetNumColumns(w: Window, columns: nat): (r: (Window, Status))
    requires Shaped(w)
    ensures Shaped(r.0)
  {
    if (w.columns > 0 || |w.rows| > 0) && w.columns != columns then (w, InvalidOperation)
    else (w.(columns := columns), Ok)
  }

  /** The number of columns is settled once: it is taken exactly when the window has neither columns nor
      rows yet or has that number already, and a refusal changes nothing. */
  lemma ColumnsTaken(w: Window, columns: nat)
    requires Shaped(w)
    ensures var (w1, st) := SetNumColumns(w, columns);
      && (st == Ok <==> w.columns == columns || (w.columns == 0 && w.rows == []))
      && w1 == (if st == Ok then w.(columns := columns) else w) && (st != Ok ==> st == InvalidOperation)
  {
  }

  function WithValue(w: Window, row: nat, column: nat, v: Value): (r: Window)
    requires Shaped(w) && row < |w.rows| && column < w.columns
    ensures Shaped(r)
  {
    w.(rows := w.rows[row := w.rows[row][column := v]])
  }

  function Put(w: Window, size: nat, row: nat, column: nat, v: Value): (r: (Window, Status))
    requires Shaped(w)
    ensures Shaped(r.0)
  {
    if row >= |w.rows| || column >= w.columns then (w, BadValue)
    else if w.free + BufferSize(v) > size && (v.Text? || v.Blob?) then (w, NoMemory)
    else (WithValue(w.(free := w.free + BufferSize(v)), row, column, v), Ok)
  }

  // ---------------------------------------------------------------- when operations succeed

  /** The first byte past which the directory of the next row may go: behind a new slot chunk when every
      slot of the chain is taken. */
  function RowStart(w: Window): nat {
    if |w.rows| == CHUNK_ROWS * |w.chunks| then AlignUp(w.free) + CHUNK_BYTES else w.free
  }

  lemma ChainFull(w: Window)
    requires Shaped(w)
    ensures |w.rows| == CHUNK_ROWS * |w.chunks| <==>
      |w.rows| > 0 && |w.rows| % CHUNK_ROWS == 0 && |w.chunks| <= |w.rows| / CHUNK_ROWS
  {
  }

  lemma Aligned(n: nat)
    ensures n % 4 == 0 ==> AlignUp(n) == n
    ensures AlignUp(AlignUp(n)) == AlignUp(n) && AlignUp(AlignUp(n) + CHUNK_BYTES) == AlignUp(n) + CHUNK_BYTES
  {
  }

  /** A row is allocated exactly when its directory fits, behind a new slot chunk if one is needed, and it
      takes that many bytes; otherwise the table stays as it is. */
  lemma AllocRowExact(w: Window, size: nat)
    requires Shaped(w)
    ensures var (w1, st) := AllocRow(w, size); var end := AlignUp(RowStart(w)) + FIELD_BYTES * w.columns;
      && (st == Ok <==> end <= size) && (st != Ok ==> st == NoMemory)
      && w1.rows == (if st == Ok then w.rows + [NullRow(w.columns)] else w.rows) && w1.columns == w.columns
      && (if st == Ok then w1.free == end else RowStart(w) <= RowStart(w1))
  {
    ChainFull(w);
    Aligned(w.free);
  }

  /** Taking back the row just allocated leaves the rows there were, and gives no space back. */
  lemma AllocThenFree(w: Window, size: nat)
    requires Shaped(w) && AllocRow(w, size).1 == Ok
    ensures var w1 := AllocRow(w, size).0; FreeLastRow(w1).rows == w.rows && FreeLastRow(w1).free == w1.free
  {
  }

  /** A value is stored exactly when its row and column exist and its bytes fit; a missing row or column is a
      bad value whatever the space, and only a text or a blob runs out of memory. */
  lemma PutExact(w: Window, size: nat, row: nat, column: nat, v: Value)
    requires Shaped(w) && w.free <= size
    ensures var (w1, st) := Put(w, size, row, column, v); var there := row < |w.rows| && column < w.columns;
      && (st == Ok <==> there && w.free + BufferSize(v) <= size)
      && (st == BadValue <==> !there)
      && (st == NoMemory <==> there && w.free + BufferSize(v) > size)
      && w1.free == w.free + (if st == Ok then BufferSize(v) else 0)
      && (st != Ok ==> w1 == w)
  {
  }

  // ---------------------------------------------------------------- runs

  datatype Op =
    | OpClear
    | OpSetNumColumns(columns: nat)
    | OpAllocRow
    | OpFreeLastRow
    | OpPut(row: nat, column: nat, value: Value)

  function Apply(w: Window, size: nat, op: Op): (r: (Window, Status))
    requires Shaped(w)
    ensures Shaped(r.0)
  {
    match op
    case OpClear => (Empty, Ok)
    case OpSetNumColumns(n) => SetNumColumns(w, n)
    case OpAllocRow => AllocRow(w, size)
    case OpFreeLastRow => (FreeLastRow(w), Ok)
    case OpPut(r, c, v) => Put(w, size, r, c, v)
  }

  function Run(w: Window, size: nat, ops: seq<Op>): (r: (Window, seq<Status>))
    requires Shaped(w)
    ensures Shaped(r.0) && |r.1| == |ops|
    decreases |ops|
  {
    if ops == [] then (w, [])
    else
      var n := |ops| - 1;
      var (w1, sts) := Run(w, size, ops[..n]);
      var (w2, st) := Apply(w1, size, ops[n]);
      (w2, sts + [st])
  }

  /** A failed operation changes no field, and no operation but `clear` moves the slot or the
      directory of a row that stays. */
  lemma ApplyKeeps(w: Window, size: nat, op: Op)
    requires Shaped(w)
    ensures Apply(w, size, op).1 != Ok ==> Apply(w, size, op).0.rows == w.rows && Apply(w, size, op).0.columns == w.columns
    ensures var w1 := Apply(w, size, op).0;
            forall r :: !op.OpClear? && 0 <= r < |w.rows| && r < |w1.rows| ==>
              SlotOffset(w1.chunks, r) == SlotOffset(w.chunks, r) && w1.dirs[r] == w.dirs[r]
  {
    var w1 := Apply(w, size, op).0;
    forall r | !op.OpClear? && 0 <= r < |w.rows| && r < |w1.rows|
      ensures SlotOffset(w1.chunks, r) == SlotOffset(w.chunks, r) && w1.dirs[r] == w.dirs[r]
    {
      assert w1.chunks[r / CHUNK_ROWS] == w.chunks[r / CHUNK_ROWS] by {
        if op.OpAllocRow? { ChainPrefix(w, size, r); }
      }
    }
  }

  lemma ChainPrefix(w: Window, size: nat, r: nat)
    requires Shaped(w) && r < |w.rows|
    ensures var g := GrowChain(w, size).0;
            r / CHUNK_ROWS < |g.chunks| && g.chunks[r / CHUNK_ROWS] == w.chunks[r / CHUNK_ROWS]
  {
  }

  /** What a log of operations says a field holds when the window ends up with `rows` rows:
      the last successful put to it, or null if its row was allocated after that, or `dflt`
      if the log says nothing. */
  function Logged(ops: seq<Op>, sts: seq<Status>, rows: nat, row: nat, column: nat, dflt: Value): Value
    requires |ops| == |sts|
    decreases |ops|
  {
    if ops == [] then dflt
    else
      var n := |ops| - 1;
      if sts[n] == Ok && ops[n].OpPut? && ops[n].row == row && ops[n].column == column then ops[n].value
      else if sts[n] == Ok && ops[n].OpAllocRow? && row + 1 == rows then Null
      else Logged(ops[..n], sts[..n], RowsBefore(ops[n], sts[n], rows), row, column, dflt)
  }

  /** How many rows there were before an operation that left `rows > 0` of them. */
  function RowsBefore(op: Op, st: Status, rows: nat): nat {
    if op.OpAllocRow? && st == Ok && rows > 0 then rows - 1
    else if op.OpFreeLastRow? then rows + 1
    else rows
  }

  /** What one operation does to a field of the table it leaves. */
  lemma FieldStep(w: Window, size: nat, op: Op, row: nat, column: nat)
    requires Shaped(w)
    requires var w1 := Apply(w, size, op).0; row < |w1.rows| && column < w1.columns
    ensures var (w1, st) := Apply(w, size, op);
            if st == Ok && op.OpPut? && op.row == row && op.column == column then w1.rows[row][column] == op.value
            else if st == Ok && op.OpAllocRow? && row + 1 == |w1.rows| then w1.rows[row][column] == Null
            else
              && row < |w.rows| && column < w.columns && w1.rows[row][column] == w.rows[row][column]
              && RowsBefore(op, st, |w1.rows|) == |w.rows|
  {
  }

  /** Over every run, whatever was rolled back, refused or cleared on the way, each field of
      the final table holds what was last put there. */
  lemma {:induction false} LastPutWins(w: Window, size: nat, ops: seq<Op>, row: nat, column: nat)
    requires Shaped(w)
    requires var w1 := Run(w, size, ops).0; row < |w1.rows| && column < w1.columns
    ensures var (w1, sts) := Run(w, size, ops);
            var dflt := if row < |w.rows| && column < w.columns then w.rows[row][column] else Null;
            w1.rows[row][column] == Logged(ops, sts, |w1.rows|, row, column, dflt)
    decreases |ops|
  {
    if ops != [] {
      var n := |ops| - 1;
      var (w1, sts) := Run(w, size, ops[..n]);
      var (w2, st) := Apply(w1, size, ops[n]);
      assert (sts + [st])[..n] == sts;
      FieldStep(w1, size, ops[n], row, column);
      hide Apply, RowsBefore;
      if row < |w1.rows| && column < w1.columns {
        LastPutWins(w, size, ops[..n], row, column);
      }
    }
  }

  // ---------------------------------------------------------------- how many rows a window takes

  /** Whatever was done to a window, clearing it leaves no row, no column and all the space but the header's
      and the first slot chunk's. */
  lemma ClearedWindow(w: Window, size: nat, ops: seq<Op>)
    requires Shaped(w)
    ensures var w1 := Run(w, size, ops + [OpClear]).0;
      w1.rows == [] && w1.columns == 0 && w1.free == HEADER_BYTES + CHUNK_BYTES && |w1.chunks| == 1
  {
    assert (ops + [OpClear])[|ops|] == OpClear;
  }

  function Rows(n: nat): seq<Op> {
    seq(n, _ => OpAllocRow)
  }

  /** The slot chunks that `n` rows need; the first is always there. */
  function ChunksFor(n: nat): nat {
    if n == 0 then 1 else (n - 1) / CHUNK_ROWS + 1
  }

  /** The bytes in use once `n` rows of null fields have been allocated. */
  function BytesFor(columns: nat, n: nat): nat {
    HEADER_BYTES + CHUNK_BYTES * ChunksFor(n) + FIELD_BYTES * (columns * n)
  }

  predicate AllOk(sts: seq<Status>) {
    forall i :: 0 <= i < |sts| ==> sts[i] == Ok
  }

  lemma BytesForNext(columns: nat, n: nat)
    ensures BytesFor(columns, n) % 4 == 0
    ensures BytesFor(columns, n + 1) == BytesFor(columns, n) + FIELD_BYTES * columns
              + if n == CHUNK_ROWS * ChunksFor(n) then CHUNK_BYTES else 0
    ensures n <= CHUNK_ROWS * ChunksFor(n)
  {
    ChunksForNext(n);
    var fields, more := columns * n, columns * (n + 1);
    assert more == fields + columns;
    hide ChunksFor;
  }

  lemma ChunksForNext(n: nat)
    ensures n <= CHUNK_ROWS * ChunksFor(n)
    ensures ChunksFor(n + 1) == ChunksFor(n) + if n == CHUNK_ROWS * ChunksFor(n) then 1 else 0
  {
  }

  /** The outcome of allocating `n` rows, in bytes. */
  predicate TakesRows(columns: nat, size: nat, n: nat, w: Window, sts: seq<Status>) {
    && (AllOk(sts) <==> n == 0 || BytesFor(columns, n) <= size)
    && (AllOk(sts) ==> |w.rows| == n && w.columns == columns)
    && (AllOk(sts) ==> |w.chunks| == ChunksFor(n) && w.free == BytesFor(columns, n))
  }

  /** A window set to some number of columns takes `n` rows exactly when their directories and all the slot
      chunks they need fit, over as many chunks as it takes. */
  lemma {:induction false} RowsThatFit(columns: nat, size: nat, n: nat)
    ensures var (w, sts) := Run(Empty.(columns := columns), size, Rows(n)); TakesRows(columns, size, n, w, sts)
  {
    if n > 0 {
      hide AllocRow, TakesRows, Shaped;
      RowsThatFit(columns, size, n - 1);
      RunOfRows(columns, size, n);
      var (w, sts) := Run(Empty.(columns := columns), size, Rows(n - 1));
      hide Run, Rows;
      TakesOneMore(columns, size, n - 1, w, sts);
    }
  }

  lemma TakesOneMore(columns: nat, size: nat, n: nat, w: Window, sts: seq<Status>)
    requires Shaped(w) && TakesRows(columns, size, n, w, sts)
    ensures TakesRows(columns, size, n + 1, AllocRow(w, size).0, sts + [AllocRow(w, size).1])
  {
    hide AllocRow, BytesFor, Shaped, AllOk, ChunksFor;
    BytesGrow(columns, n);
    OneMoreOk(sts, AllocRow(w, size).1);
    if AllOk(sts) {
      OneMoreRow(w, size, n);
    }
  }

  lemma BytesGrow(columns: nat, n: nat)
    ensures BytesFor(columns, n) <= BytesFor(columns, n + 1)
  {
    BytesForNext(columns, n);
    hide BytesFor;
  }

  lemma OneMoreOk(sts: seq<Status>, st: Status)
    ensures AllOk(sts + [st]) <==> AllOk(sts) && st == Ok
  {
    assert (sts + [st])[|sts|] == st;
    assert forall i :: 0 <= i < |sts| ==> (sts + [st])[i] == sts[i];
  }

  lemma RunOfRows(columns: nat, size: nat, n: nat)
    requires n > 0
    ensures var (w, sts) := Run(Empty.(columns := columns), size, Rows(n - 1));
      Run(Empty.(columns := columns), size, Rows(n)) == (AllocRow(w, size).0, sts + [AllocRow(w, size).1])
  {
    assert Rows(n)[..n - 1] == Rows(n - 1);
  }

  /** One more row in a window that has taken `n`. */
  lemma OneMoreRow(w: Window, size: nat, n: nat)
    requires Shaped(w) && |w.rows| == n && |w.chunks| == ChunksFor(n) && w.free == BytesFor(w.columns, n)
    ensures var (w1, st) := AllocRow(w, size);
      && (st == Ok <==> BytesFor(w.columns, n + 1) <= size)
      && (st == Ok ==> |w1.rows| == n + 1 && w1.columns == w.columns)
      && (st == Ok ==> |w1.chunks| == ChunksFor(n + 1) && w1.free == BytesFor(w.columns, n + 1))
  {
    BytesForNext(w.columns, n);
    AllocRowExact(w, size);
    Aligned(w.free);
    if AllocRow(w, size).1 == Ok { ChunkCount(w, size, n); }
    hide AllocRow, BytesFor, ChunksFor;
  }

  lemma ChunkCount(w: Window, size: nat, n: nat)
    requires Shaped(w) && |w.rows| == n && |w.chunks| == ChunksFor(n) && AllocRow(w, size).1 == Ok
    ensures |AllocRow(w, size).0.chunks| == ChunksFor(n + 1)
  {
  }
}
