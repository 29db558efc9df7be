/** How a byte image represents a window, and how each kind of write changes what it
    represents.  `regions` records every allocation since the last `clear`. */
module WindowLayout {
  import opened Common
  import opened WindowMemory
  import opened WindowTable

  datatype Kind = ChunkRegion | DirectoryRegion | BufferRegion

  datatype Region = Region(kind: Kind, start: nat, len: nat)

  ghost predicate RegionsOk(regions: set<Region>, free: nat) {
    && (forall a :: a in regions ==> HEADER_BYTES <= a.start && a.start + a.len <= free)
    && (forall a, b :: a in regions && b in regions && a != b ==>
          Apart(a.start, a.start + a.len, b.start, b.start + b.len))
  }

  function NextChunk(chunks: seq<nat>, i: nat): nat
    requires i < |chunks|
  {
    if i + 1 < |chunks| then chunks[i + 1] else 0
  }

  ghost predicate ChainOk(m: seq<Byte>, chunks: seq<nat>, regions: set<Region>) {
    && |chunks| >= 1 && chunks[0] == HEADER_BYTES
    && (forall i, j :: 0 <= i < j < |chunks| ==> chunks[i] < chunks[j])
    && (forall i :: 0 <= i < |chunks| ==> ChunkOk(m, chunks[i], regions))
    && (forall i :: 0 <= i < |chunks| ==> SlotHolds(m, chunks[i], NextChunk(chunks, i)))
  }

  ghost predicate ChunkOk(m: seq<Byte>, c: nat, regions: set<Region>) {
    c % 4 == 0 && c + CHUNK_BYTES <= |m| && Region(ChunkRegion, c, CHUNK_BYTES) in regions
  }

  ghost predicate DirsOk(m: seq<Byte>, columns: nat, chunks: seq<nat>, dirs: seq<nat>, regions: set<Region>) {
    && |dirs| <= CHUNK_ROWS * |chunks|
    && (forall i, j :: 0 <= i < j < |dirs| ==> dirs[i] + FIELD_BYTES * columns <= dirs[j])
    && (forall r :: 0 <= r < |dirs| ==> DirOk(m, columns, dirs[r], regions))
    && (forall r :: 0 <= r < |dirs| ==> SlotHolds(m, SlotOffset(chunks, r), dirs[r]))
  }

  ghost predicate DirOk(m: seq<Byte>, columns: nat, d: nat, regions: set<Region>) {
    && d % 4 == 0 && d + FIELD_BYTES * columns <= |m|
    && Region(DirectoryRegion, d, FIELD_BYTES * columns) in regions
  }

  predicate SlotHolds(m: seq<Byte>, o: nat, d: nat) {
    o + 4 <= |m| && Get32(m, o) == d
  }

  function Pattern(v: int): (n: nat)
    requires -(U64 / 2) <= v < U64 / 2
    ensures n < U64
  {
    if v >= 0 then v else v + U64
  }

  ghost predicate BufferHolds(m: seq<Byte>, regions: set<Region>, o: nat, bytes: seq<Byte>)
    requires o + FIELD_BYTES <= |m|
  {
    var off := Get32(m, o + 4);
    && Get32(m, o + 8) == |bytes|
    && Region(BufferRegion, off, |bytes|) in regions
    && BytesAt(m, off, bytes)
  }

  ghost predicate FieldHolds(m: seq<Byte>, regions: set<Region>, o: nat, v: Value) {
    && o + FIELD_BYTES <= |m| && Storable(v)
    && Get32(m, o) == TypeTag(v)
    && (v.Integer? ==> BytesAt(m, o + 4, Enc64(Pattern(v.value))))
    && (v.Float? ==> BytesAt(m, o + 4, Enc64(v.bits)))
    && (v.Text? || v.Blob? ==> BufferHolds(m, regions, o, v.bytes))
  }

  /** A field slot whose buffer, if it has one, lies in the image. */
  predicate Readable(m: seq<Byte>, o: nat) {
    o + FIELD_BYTES <= |m| && (Get32(m, o) >= 3 ==> Get32(m, o + 4) + Get32(m, o + 8) <= |m|)
  }

  /** What the accessors make of a field slot, by its type word. */
  function ReadValue(m: seq<Byte>, o: nat): Value
    requires Readable(m, o)
  {
    var tag, low, high := Get32(m, o), Get32(m, o + 4), Get32(m, o + 8);
    if tag == 0 then Null
    else if tag == 1 then Integer(if high < U32 / 2 then low + U32 * high else low + U32 * high - U64)
    else if tag == 2 then Float(low + U32 * high)
    else if tag == 3 then Text(m[low..low + high])
    else Blob(m[low..low + high])
  }

  lemma SignedWord(x: int, low: nat, high: nat)
    requires -(U64 / 2) <= x < U64 / 2 && low < U32 && high < U32 && low + U32 * high == Pattern(x)
    ensures x == if high < U32 / 2 then low + U32 * high else low + U32 * high - U64
  {
  }

  lemma ReadsBack(m: seq<Byte>, dirs: seq<nat>, rows: seq<seq<Value>>, regions: set<Region>, r: nat, c: nat, o: nat)
    requires CellOk(m, dirs, rows, regions, r, c)
    requires r < |dirs| && r < |rows| && c < |rows[r]| && o == dirs[r] + FIELD_BYTES * c
    ensures Readable(m, o) && ReadValue(m, o) == rows[r][c]
  {
    assert FieldHolds(m, regions, o, rows[r][c]);
    hide CellOk;
    FieldReadsBack(m, regions, o, rows[r][c]);
  }

  lemma FieldReadsBack(m: seq<Byte>, regions: set<Region>, o: nat, v: Value)
    requires FieldHolds(m, regions, o, v)
    ensures Readable(m, o) && ReadValue(m, o) == v
  {
    hide Get32, BytesAt, Enc64;
    match v
    case Null =>
    case Integer(x) =>
      BytesWord(m, o + 4, Pattern(x));
      SignedWord(x, Get32(m, o + 4), Get32(m, o + 8));
    case Float(b) =>
      BytesWord(m, o + 4, b);
    case _ =>
      BytesSlice(m, Get32(m, o + 4), v.bytes);
  }

  lemma BytesSlice(m: seq<Byte>, off: nat, bytes: seq<Byte>)
    requires BytesAt(m, off, bytes)
    ensures off + |bytes| <= |m| && m[off..off + |bytes|] == bytes
  {
  }

  function TypeTag(v: Value): nat {
    match v
    case Null => 0
    case Integer(_) => 1
    case Float(_) => 2
    case Text(_) => 3
    case Blob(_) => 4
  }

  ghost predicate CellOk(m: seq<Byte>, dirs: seq<nat>, rows: seq<seq<Value>>, regions: set<Region>, r: nat, c: nat) {
    r < |dirs| && r < |rows| && c < |rows[r]| ==> FieldHolds(m, regions, dirs[r] + FIELD_BYTES * c, rows[r][c])
  }

  /** The field holds at least one byte in a buffer. */
  predicate Buffered(rows: seq<seq<Value>>, r: nat, c: nat) {
    r < |rows| && c < |rows[r]| && (rows[r][c].Text? || rows[r][c].Blob?) && rows[r][c].bytes != []
  }

  /** Where the slot of a field says its buffer is. */
  function BufferOf(m: seq<Byte>, dirs: seq<nat>, r: nat, c: nat): nat {
    if r < |dirs| && dirs[r] + FIELD_BYTES * c + FIELD_BYTES <= |m| then Get32(m, dirs[r] + FIELD_BYTES * c + 4) else 0
  }

  /** No two fields share a buffer. */
  ghost predicate OwnBuffer(m: seq<Byte>, dirs: seq<nat>, rows: seq<seq<Value>>, r: nat, c: nat, s: nat, e: nat) {
    (r != s || c != e) && Buffered(rows, r, c) && Buffered(rows, s, e) ==> BufferOf(m, dirs, r, c) != BufferOf(m, dirs, s, e)
  }

  ghost predicate BuffersOk(m: seq<Byte>, dirs: seq<nat>, rows: seq<seq<Value>>) {
    forall r: nat, c: nat, s: nat, e: nat :: OwnBuffer(m, dirs, rows, r, c, s, e)
  }

  ghost predicate FieldsOk(m: seq<Byte>, dirs: seq<nat>, rows: seq<seq<Value>>, regions: set<Region>) {
    (forall r: nat, c: nat :: CellOk(m, dirs, rows, regions, r, c)) && BuffersOk(m, dirs, rows)
  }

  /** Everything but the header. */
  ghost predicate Body(m: seq<Byte>, w: Window, regions: set<Region>) {
    var ok :=
      && Shaped(w) && w.free <= |m|
      && RegionsOk(regions, w.free) && ChainOk(m, w.chunks, regions)
      && DirsOk(m, w.columns, w.chunks, w.dirs, regions)
      && FieldsOk(m, w.dirs, w.rows, regions);
    ok
  }

  ghost predicate HeaderOk(m: seq<Byte>, w: Window) {
    && HEADER_BYTES + CHUNK_BYTES <= |m|
    && Get32(m, 0) == w.free && Get32(m, 4) == HEADER_BYTES
    && Get32(m, 8) == |w.rows| && Get32(m, 12) == w.columns
  }

  ghost predicate Represents(m: seq<Byte>, w: Window, regions: set<Region>) {
    var ok := HeaderOk(m, w) && Body(m, w, regions);
    ok
  }

  // ---------------------------------------------------------------- separation

  lemma SlotInChunk(w: Window, r: nat)
    requires r < CHUNK_ROWS * |w.chunks|
    ensures r / CHUNK_ROWS < |w.chunks|
    ensures w.chunks[r / CHUNK_ROWS] + 4 <= SlotOffset(w.chunks, r)
         && SlotOffset(w.chunks, r) + 4 <= w.chunks[r / CHUNK_ROWS] + CHUNK_BYTES
    ensures w.chunks[r / CHUNK_ROWS] % 4 == 0 ==> SlotOffset(w.chunks, r) % 4 == 0
  {
  }

  lemma ChunksApart(w: Window, regions: set<Region>, m: seq<Byte>, i: nat, j: nat)
    requires RegionsOk(regions, w.free) && ChainOk(m, w.chunks, regions) && i < j < |w.chunks|
    ensures w.chunks[i] + CHUNK_BYTES <= w.chunks[j]
  {
    var a := Region(ChunkRegion, w.chunks[i], CHUNK_BYTES);
    var b := Region(ChunkRegion, w.chunks[j], CHUNK_BYTES);
    assert ChunkOk(m, w.chunks[i], regions) && ChunkOk(m, w.chunks[j], regions);
    assert a in regions && b in regions && a != b;
  }

  /** Distinct live rows have disjoint slots. */
  lemma SlotsApart(m: seq<Byte>, w: Window, regions: set<Region>, r: nat, s: nat)
    requires RegionsOk(regions, w.free) && ChainOk(m, w.chunks, regions)
    requires r < s < CHUNK_ROWS * |w.chunks|
    ensures SlotOffset(w.chunks, r) + 4 <= SlotOffset(w.chunks, s)
  {
    SlotInChunk(w, r);
    SlotInChunk(w, s);
    if r / CHUNK_ROWS < s / CHUNK_ROWS {
      ChunksApart(w, regions, m, r / CHUNK_ROWS, s / CHUNK_ROWS);
    }
  }

  /** The rows of a window: slots and directories never overlap, and both are 4-byte aligned. */
  lemma LiveRowsApart(m: seq<Byte>, w: Window, regions: set<Region>, r: nat, s: nat)
    requires Represents(m, w, regions) && r < |w.rows| && s < |w.rows|
    ensures SlotOffset(w.chunks, r) % 4 == 0 && w.dirs[r] % 4 == 0
    ensures r != s ==> Apart(SlotOffset(w.chunks, r), SlotOffset(w.chunks, r) + 4,
                             SlotOffset(w.chunks, s), SlotOffset(w.chunks, s) + 4)
    ensures r != s ==> Apart(w.dirs[r], w.dirs[r] + FIELD_BYTES * w.columns, w.dirs[s], w.dirs[s] + FIELD_BYTES * w.columns)
    ensures Apart(SlotOffset(w.chunks, r), SlotOffset(w.chunks, r) + 4, w.dirs[s], w.dirs[s] + FIELD_BYTES * w.columns)
    ensures HEADER_BYTES <= SlotOffset(w.chunks, r) && HEADER_BYTES <= w.dirs[r]
  {
    SlotInChunk(w, r);
    if r < s { SlotsApart(m, w, regions, r, s); }
    if s < r { SlotsApart(m, w, regions, s, r); }
    var a := Region(ChunkRegion, w.chunks[r / CHUNK_ROWS], CHUNK_BYTES);
    var b := Region(DirectoryRegion, w.dirs[s], FIELD_BYTES * w.columns);
    assert DirOk(m, w.columns, w.dirs[s], regions) && ChunkOk(m, w.chunks[r / CHUNK_ROWS], regions);
    assert a in regions && b in regions && a != b;
    assert DirOk(m, w.columns, w.dirs[r], regions);
  }

  /** The region of a live field's buffer. */
  lemma BufferRegionOf(m: seq<Byte>, w: Window, regions: set<Region>, r: nat, c: nat)
    requires Body(m, w, regions) && Buffered(w.rows, r, c)
    ensures Region(BufferRegion, BufferOf(m, w.dirs, r, c), |w.rows[r][c].bytes|) in regions
  {
    assert CellOk(m, w.dirs, w.rows, regions, r, c);
    hide BuffersOk, ChainOk, DirsOk, RegionsOk;
  }

  lemma RowRegions(m: seq<Byte>, w: Window, regions: set<Region>, s: nat)
    requires Body(m, w, regions) && s < |w.rows|
    ensures s / CHUNK_ROWS < |w.chunks|
    ensures Region(ChunkRegion, w.chunks[s / CHUNK_ROWS], CHUNK_BYTES) in regions
    ensures Region(DirectoryRegion, w.dirs[s], FIELD_BYTES * w.columns) in regions
  {
    hide FieldsOk, RegionsOk;
    assert DirOk(m, w.columns, w.dirs[s], regions) && ChunkOk(m, w.chunks[s / CHUNK_ROWS], regions);
  }

  lemma OwnBuffers(m: seq<Byte>, w: Window, regions: set<Region>, r: nat, c: nat, s: nat, e: nat)
    requires FieldsOk(m, w.dirs, w.rows, regions)
    ensures OwnBuffer(m, w.dirs, w.rows, r, c, s, e)
  {
  }

  /** The buffer of a live field: behind the header, inside the allocated part, apart from every slot,
      every directory and every other field's buffer. */
  lemma LiveBuffersApart(m: seq<Byte>, w: Window, regions: set<Region>, r: nat, c: nat, s: nat, e: nat)
    requires Represents(m, w, regions) && Buffered(w.rows, r, c) && s < |w.rows|
    ensures var off, len := BufferOf(m, w.dirs, r, c), |w.rows[r][c].bytes|;
      && HEADER_BYTES <= off && off + len <= w.free
      && Apart(off, off + len, SlotOffset(w.chunks, s), SlotOffset(w.chunks, s) + 4)
      && Apart(off, off + len, w.dirs[s], w.dirs[s] + FIELD_BYTES * w.columns)
      && ((r != s || c != e) && Buffered(w.rows, s, e) ==>
            Apart(off, off + len, BufferOf(m, w.dirs, s, e), BufferOf(m, w.dirs, s, e) + |w.rows[s][e].bytes|))
  {
    hide FieldsOk, ChainOk, DirsOk, BufferOf;
    OwnBuffers(m, w, regions, r, c, s, e);
    BufferRegionOf(m, w, regions, r, c);
    RowRegions(m, w, regions, s);
    SlotInChunk(w, s);
    if Buffered(w.rows, s, e) { BufferRegionOf(m, w, regions, s, e); }
    var g := Region(BufferRegion, BufferOf(m, w.dirs, r, c), |w.rows[r][c].bytes|);
    assert g in regions;
  }

  // ---------------------------------------------------------------- frames

  /** `[a, b)` meets none of the given regions. */
  ghost predicate Misses(regions: set<Region>, kind: Kind, a: nat, b: nat) {
    forall g :: g in regions && g.kind == kind ==> Apart(a, b, g.start, g.start + g.len)
  }

  lemma FieldFrame(m: seq<Byte>, n: seq<Byte>, regions: set<Region>, o: nat, v: Value, a: nat, b: nat)
    requires FieldHolds(m, regions, o, v) && SameExcept(m, n, a, b)
    requires Apart(a, b, o, o + FIELD_BYTES) && Misses(regions, BufferRegion, a, b)
    ensures FieldHolds(n, regions, o, v)
  {
    Get32Frame(m, n, a, b, o);
    Get32Frame(m, n, a, b, o + 4);
    Get32Frame(m, n, a, b, o + 8);
    if v.Integer? { BytesFrame(m, n, a, b, o + 4, Enc64(Pattern(v.value))); }
    if v.Float? { BytesFrame(m, n, a, b, o + 4, Enc64(v.bits)); }
    if v.Text? || v.Blob? {
      var off := Get32(m, o + 4);
      var g := Region(BufferRegion, off, |v.bytes|);
      assert g in regions;
      BytesFrame(m, n, a, b, off, v.bytes);
    }
  }

  lemma FieldsFrame(m: seq<Byte>, n: seq<Byte>, w: Window, regions: set<Region>, a: nat, b: nat)
    requires Shaped(w) && FieldsOk(m, w.dirs, w.rows, regions) && SameExcept(m, n, a, b)
    requires forall r :: 0 <= r < |w.dirs| ==> DirOk(m, w.columns, w.dirs[r], regions)
    requires Misses(regions, BufferRegion, a, b) && Misses(regions, DirectoryRegion, a, b)
    ensures FieldsOk(n, w.dirs, w.rows, regions)
  {
    forall r: nat, c: nat ensures CellOk(n, w.dirs, w.rows, regions, r, c) {
      assert CellOk(m, w.dirs, w.rows, regions, r, c);
      if r < |w.rows| && c < w.columns {
        assert DirOk(m, w.columns, w.dirs[r], regions);
        InsideDirectory(m, w.columns, w.dirs[r], regions, a, b, c);
        FieldFrame(m, n, regions, w.dirs[r] + FIELD_BYTES * c, w.rows[r][c], a, b);
      }
    }
    BuffersFrame(m, n, w, regions, a, b);
  }

  /** The buffer a field names, when nothing is written to its slot. */
  lemma BufferFrame(m: seq<Byte>, n: seq<Byte>, dirs: seq<nat>, r: nat, c: nat, a: nat, b: nat)
    requires r < |dirs| && SameExcept(m, n, a, b)
    requires Apart(a, b, dirs[r] + FIELD_BYTES * c, dirs[r] + FIELD_BYTES * c + FIELD_BYTES)
    ensures BufferOf(n, dirs, r, c) == BufferOf(m, dirs, r, c)
  {
    if dirs[r] + FIELD_BYTES * c + FIELD_BYTES <= |m| {
      Get32Frame(m, n, a, b, dirs[r] + FIELD_BYTES * c + 4);
    }
  }

  lemma BuffersFrame(m: seq<Byte>, n: seq<Byte>, w: Window, regions: set<Region>, a: nat, b: nat)
    requires Shaped(w) && BuffersOk(m, w.dirs, w.rows) && SameExcept(m, n, a, b)
    requires forall r :: 0 <= r < |w.dirs| ==> DirOk(m, w.columns, w.dirs[r], regions)
    requires Misses(regions, DirectoryRegion, a, b)
    ensures BuffersOk(n, w.dirs, w.rows)
  {
    forall r: nat, c: nat | Buffered(w.rows, r, c) ensures BufferOf(n, w.dirs, r, c) == BufferOf(m, w.dirs, r, c) {
      assert DirOk(m, w.columns, w.dirs[r], regions);
      InsideDirectory(m, w.columns, w.dirs[r], regions, a, b, c);
      BufferFrame(m, n, w.dirs, r, c, a, b);
    }
    hide Buffered, BufferOf;
    forall r: nat, c: nat, s: nat, e: nat ensures OwnBuffer(n, w.dirs, w.rows, r, c, s, e) {
      assert OwnBuffer(m, w.dirs, w.rows, r, c, s, e);
    }
  }

  lemma InsideDirectory(m: seq<Byte>, columns: nat, d: nat, regions: set<Region>, a: nat, b: nat, c: nat)
    requires DirOk(m, columns, d, regions) && c < columns && Misses(regions, DirectoryRegion, a, b)
    ensures Apart(a, b, d + FIELD_BYTES * c, d + FIELD_BYTES * c + FIELD_BYTES)
  {
    var g := Region(DirectoryRegion, d, FIELD_BYTES * columns);
    assert g in regions;
  }

  lemma DirsFrame(m: seq<Byte>, n: seq<Byte>, w: Window, regions: set<Region>, a: nat, b: nat)
    requires DirsOk(m, w.columns, w.chunks, w.dirs, regions) && SameExcept(m, n, a, b)
    requires forall r :: 0 <= r < |w.dirs| ==> Apart(a, b, SlotOffset(w.chunks, r), SlotOffset(w.chunks, r) + 4)
    ensures DirsOk(n, w.columns, w.chunks, w.dirs, regions)
  {
    forall r | 0 <= r < |w.dirs| ensures SlotHolds(n, SlotOffset(w.chunks, r), w.dirs[r]) {
      assert SlotHolds(m, SlotOffset(w.chunks, r), w.dirs[r]);
      Get32Frame(m, n, a, b, SlotOffset(w.chunks, r));
    }
    forall r | 0 <= r < |w.dirs| ensures DirOk(n, w.columns, w.dirs[r], regions) {
      assert DirOk(m, w.columns, w.dirs[r], regions);
    }
  }

  lemma ChainFrame(m: seq<Byte>, n: seq<Byte>, w: Window, regions: set<Region>, a: nat, b: nat)
    requires ChainOk(m, w.chunks, regions) && SameExcept(m, n, a, b)
    requires forall i :: 0 <= i < |w.chunks| ==> Apart(a, b, w.chunks[i], w.chunks[i] + 4)
    ensures ChainOk(n, w.chunks, regions)
  {
    forall i | 0 <= i < |w.chunks|
      ensures SlotHolds(n, w.chunks[i], NextChunk(w.chunks, i)) && ChunkOk(n, w.chunks[i], regions)
    {
      assert SlotHolds(m, w.chunks[i], NextChunk(w.chunks, i)) && ChunkOk(m, w.chunks[i], regions);
      Get32Frame(m, n, a, b, w.chunks[i]);
    }
  }

  /** A write into the header or into free space changes nothing. */
  lemma BodyFrame(m: seq<Byte>, n: seq<Byte>, w: Window, regions: set<Region>, a: nat, b: nat)
    requires Body(m, w, regions) && SameExcept(m, n, a, b)
    requires b <= HEADER_BYTES || w.free <= a
    ensures Body(n, w, regions)
  {
    assert Misses(regions, ChunkRegion, a, b) && Misses(regions, DirectoryRegion, a, b)
        && Misses(regions, BufferRegion, a, b);
    ChunkMissed(m, n, w, regions, a, b);
    FieldsFrame(m, n, w, regions, a, b);
  }

  /** A write into one chunk, between its link and its end, that misses the live slots. */
  lemma SlotFrame(m: seq<Byte>, n: seq<Byte>, w: Window, regions: set<Region>, s: nat)
    requires Body(m, w, regions) && |w.rows| <= s < CHUNK_ROWS * |w.chunks|
    requires SameExcept(m, n, SlotOffset(w.chunks, s), SlotOffset(w.chunks, s) + 4)
    ensures Body(n, w, regions)
  {
    var a := SlotOffset(w.chunks, s);
    var k := s / CHUNK_ROWS;
    SlotInChunk(w, s);
    forall i | 0 <= i < |w.chunks| ensures Apart(a, a + 4, w.chunks[i], w.chunks[i] + 4) {
      if i < k { ChunksApart(w, regions, m, i, k); }
      if k < i { ChunksApart(w, regions, m, k, i); }
    }
    ChainFrame(m, n, w, regions, a, a + 4);
    forall r | 0 <= r < |w.dirs|
      ensures Apart(a, a + 4, SlotOffset(w.chunks, r), SlotOffset(w.chunks, r) + 4)
    {
      SlotsApart(m, w, regions, r, s);
    }
    DirsFrame(m, n, w, regions, a, a + 4);
    InsideChunk(w, regions, m, k, a, a + 4);
    FieldsFrame(m, n, w, regions, a, a + 4);
  }

  lemma InsideChunk(w: Window, regions: set<Region>, m: seq<Byte>, k: nat, a: nat, b: nat)
    requires RegionsOk(regions, w.free) && ChainOk(m, w.chunks, regions)
    requires k < |w.chunks| && w.chunks[k] <= a <= b <= w.chunks[k] + CHUNK_BYTES
    ensures Misses(regions, BufferRegion, a, b) && Misses(regions, DirectoryRegion, a, b)
  {
    var c := Region(ChunkRegion, w.chunks[k], CHUNK_BYTES);
    assert ChunkOk(m, w.chunks[k], regions) && c in regions;
  }

  /** A write to the link of one chunk: everything but the chain stays. */
  lemma LinkFrame(m: seq<Byte>, n: seq<Byte>, w: Window, regions: set<Region>, k: nat)
    requires Body(m, w, regions) && k < |w.chunks|
    requires SameExcept(m, n, w.chunks[k], w.chunks[k] + 4)
    ensures FieldsOk(n, w.dirs, w.rows, regions)
    ensures DirsOk(n, w.columns, w.chunks, w.dirs, regions)
  {
    var a := w.chunks[k];
    InsideChunk(w, regions, m, k, a, a + 4);
    FieldsFrame(m, n, w, regions, a, a + 4);
    forall r | 0 <= r < |w.dirs|
      ensures Apart(a, a + 4, SlotOffset(w.chunks, r), SlotOffset(w.chunks, r) + 4)
    {
      SlotInChunk(w, r);
      var i := r / CHUNK_ROWS;
      if i < k { ChunksApart(w, regions, m, i, k); }
      if k < i { ChunksApart(w, regions, m, k, i); }
    }
    DirsFrame(m, n, w, regions, a, a + 4);
  }

  lemma LinkFrameChain(m: seq<Byte>, n: seq<Byte>, w: Window, regions: set<Region>, k: nat, i: nat)
    requires RegionsOk(regions, w.free) && ChainOk(m, w.chunks, regions)
    requires k < |w.chunks| && i < |w.chunks| && i != k
    requires SameExcept(m, n, w.chunks[k], w.chunks[k] + 4)
    ensures SlotHolds(n, w.chunks[i], NextChunk(w.chunks, i))
  {
    if i < k { ChunksApart(w, regions, m, i, k); } else { ChunksApart(w, regions, m, k, i); }
    assert SlotHolds(m, w.chunks[i], NextChunk(w.chunks, i));
    Get32Frame(m, n, w.chunks[k], w.chunks[k] + 4, w.chunks[i]);
  }

  // ---------------------------------------------------------------- operations on the image

  lemma AddRegion(regions: set<Region>, free: nat, g: Region)
    requires RegionsOk(regions, free) && HEADER_BYTES <= free <= g.start
    ensures RegionsOk(regions + {g}, g.start + g.len)
  {
  }

  lemma FieldsMore(m: seq<Byte>, w: Window, regions: set<Region>, more: set<Region>)
    requires FieldsOk(m, w.dirs, w.rows, regions) && regions <= more
    ensures FieldsOk(m, w.dirs, w.rows, more)
  {
    forall r: nat, c: nat ensures CellOk(m, w.dirs, w.rows, more, r, c) {
      assert CellOk(m, w.dirs, w.rows, regions, r, c);
    }
  }

  lemma DirsMore(m: seq<Byte>, w: Window, regions: set<Region>, more: set<Region>)
    requires DirsOk(m, w.columns, w.chunks, w.dirs, regions) && regions <= more
    ensures DirsOk(m, w.columns, w.chunks, w.dirs, more)
  {
    forall r | 0 <= r < |w.dirs| ensures DirOk(m, w.columns, w.dirs[r], more) {
      assert DirOk(m, w.columns, w.dirs[r], regions);
    }
  }

  lemma ChainMore(m: seq<Byte>, chunks: seq<nat>, regions: set<Region>, more: set<Region>)
    requires ChainOk(m, chunks, regions) && regions <= more
    ensures ChainOk(m, chunks, more)
  {
    forall i | 0 <= i < |chunks| ensures ChunkOk(m, chunks[i], more) {
      assert ChunkOk(m, chunks[i], regions);
    }
  }

  /** A fresh allocation, and nothing written to it yet. */
  lemma BodyGrow(m: seq<Byte>, w: Window, regions: set<Region>, g: Region)
    requires Body(m, w, regions) && HEADER_BYTES <= w.free <= g.start && g.start + g.len <= |m|
    ensures Body(m, w.(free := g.start + g.len), regions + {g})
  {
    AddRegion(regions, w.free, g);
    ChainMore(m, w.chunks, regions, regions + {g});
    DirsMore(m, w, regions, regions + {g});
    FieldsMore(m, w, regions, regions + {g});
  }

  /** Rows find their slots through a chain that agrees on the chunks they use. */
  lemma DirsRechain(m: seq<Byte>, columns: nat, chunks: seq<nat>, more: seq<nat>, dirs: seq<nat>, regions: set<Region>)
    requires DirsOk(m, columns, chunks, dirs, regions)
    requires chunks <= more || more <= chunks
    requires |dirs| <= CHUNK_ROWS * |more|
    ensures DirsOk(m, columns, more, dirs, regions)
  {
    forall r | 0 <= r < |dirs| ensures SlotHolds(m, SlotOffset(more, r), dirs[r]) {
      assert SlotHolds(m, SlotOffset(chunks, r), dirs[r]);
      assert r / CHUNK_ROWS < |chunks| && r / CHUNK_ROWS < |more|;
    }
  }

  lemma LinkAfterAppend(m: seq<Byte>, m1: seq<Byte>, n: seq<Byte>, w: Window, regions: set<Region>, c: nat, i: nat)
    requires RegionsOk(regions, w.free) && ChainOk(m, w.chunks, regions) && i < |w.chunks|
    requires w.chunks[i] + CHUNK_BYTES <= c
    requires Wrote32(m, m1, w.chunks[|w.chunks| - 1], c) && Wrote32(m1, n, c, 0)
    ensures SlotHolds(n, w.chunks[i], NextChunk(w.chunks + [c], i))
  {
    var k := |w.chunks| - 1;
    if i < k {
      LinkFrameChain(m, m1, w, regions, k, i);
    }
    assert w.chunks[i] + 4 <= |m|;
    hide ChainOk, RegionsOk, Get32;
    Get32Frame(m1, n, c, c + 4, w.chunks[i]);
  }

  /** The chain after its last link was set to `c` and the link of `c` was cleared. */
  lemma ChainAppend(m: seq<Byte>, m1: seq<Byte>, n: seq<Byte>, w: Window, regions: set<Region>, c: nat)
    requires RegionsOk(regions, w.free) && ChainOk(m, w.chunks, regions) && ChunkOk(m, c, regions)
    requires forall i :: 0 <= i < |w.chunks| ==> w.chunks[i] + CHUNK_BYTES <= c
    requires Wrote32(m, m1, w.chunks[|w.chunks| - 1], c) && Wrote32(m1, n, c, 0)
    ensures ChainOk(n, w.chunks + [c], regions)
  {
    var chunks := w.chunks + [c];
    forall i | 0 <= i < |chunks| ensures ChunkOk(n, chunks[i], regions) {
      if i < |w.chunks| { assert ChunkOk(m, w.chunks[i], regions); }
    }
    LinksAfterAppend(m, m1, n, w, regions, c);
    hide ChunkOk, SlotHolds, NextChunk, RegionsOk;
  }

  lemma LinksAfterAppend(m: seq<Byte>, m1: seq<Byte>, n: seq<Byte>, w: Window, regions: set<Region>, c: nat)
    requires RegionsOk(regions, w.free) && ChainOk(m, w.chunks, regions) && c + 4 <= |m|
    requires forall i :: 0 <= i < |w.chunks| ==> w.chunks[i] + CHUNK_BYTES <= c
    requires Wrote32(m, m1, w.chunks[|w.chunks| - 1], c) && Wrote32(m1, n, c, 0)
    ensures forall i :: 0 <= i <= |w.chunks| ==> SlotHolds(n, (w.chunks + [c])[i], NextChunk(w.chunks + [c], i))
  {
    var chunks := w.chunks + [c];
    hide Get32;
    forall i | 0 <= i <= |w.chunks| ensures SlotHolds(n, chunks[i], NextChunk(chunks, i)) {
      if i < |w.chunks| { LinkAfterAppend(m, m1, n, w, regions, c, i); }
    }
  }

  lemma AppendedFields(m: seq<Byte>, m1: seq<Byte>, n: seq<Byte>, w: Window, regions: set<Region>, c: nat)
    requires Body(m, w, regions) && ChunkOk(m, c, regions)
    requires SameExcept(m, m1, w.chunks[|w.chunks| - 1], w.chunks[|w.chunks| - 1] + 4) && SameExcept(m1, n, c, c + 4)
    ensures FieldsOk(n, w.dirs, w.rows, regions)
  {
    hide Body, ChainOk, FieldsOk, RegionsOk, DirsOk, Misses, SameExcept;
    BodyParts(m, w, regions);
    LinkFrame(m, m1, w, regions, |w.chunks| - 1);
    NewChunkMisses(regions, w.free, c);
    DirsAreOk(m1, w, regions);
    FieldsFrame(m1, n, w, regions, c, c + 4);
  }

  lemma BodyParts(m: seq<Byte>, w: Window, regions: set<Region>)
    requires Body(m, w, regions)
    ensures Shaped(w) && RegionsOk(regions, w.free) && ChainOk(m, w.chunks, regions)
    ensures DirsOk(m, w.columns, w.chunks, w.dirs, regions) && FieldsOk(m, w.dirs, w.rows, regions)
  {
    hide ChainOk, FieldsOk, RegionsOk, DirsOk, Shaped;
  }

  lemma DirsAreOk(m: seq<Byte>, w: Window, regions: set<Region>)
    requires DirsOk(m, w.columns, w.chunks, w.dirs, regions)
    ensures forall r :: 0 <= r < |w.dirs| ==> DirOk(m, w.columns, w.dirs[r], regions)
  {
  }

  lemma AppendedDirs(m: seq<Byte>, m1: seq<Byte>, n: seq<Byte>, w: Window, regions: set<Region>, c: nat)
    requires Body(m, w, regions)
    requires forall i :: 0 <= i < |w.chunks| ==> w.chunks[i] + CHUNK_BYTES <= c
    requires SameExcept(m, m1, w.chunks[|w.chunks| - 1], w.chunks[|w.chunks| - 1] + 4) && SameExcept(m1, n, c, c + 4)
    ensures DirsOk(n, w.columns, w.chunks + [c], w.dirs, regions)
  {
    hide Body, ChainOk, FieldsOk, RegionsOk, DirsOk, SameExcept;
    BodyParts(m, w, regions);
    LinkFrame(m, m1, w, regions, |w.chunks| - 1);
    forall r | 0 <= r < |w.dirs|
      ensures Apart(c, c + 4, SlotOffset(w.chunks, r), SlotOffset(w.chunks, r) + 4)
    {
      SlotInChunk(w, r);
    }
    hide Shaped, SlotOffset;
    DirsFrame(m1, n, w, regions, c, c + 4);
    DirsRechain(n, w.columns, w.chunks, w.chunks + [c], w.dirs, regions);
  }

  /** A chunk linked in at the end of the chain. */
  lemma BodyAppendChunk(m: seq<Byte>, m1: seq<Byte>, n: seq<Byte>, w: Window, regions: set<Region>, c: nat)
    requires Body(m, w, regions) && ChunkOk(m, c, regions)
    requires forall i :: 0 <= i < |w.chunks| ==> w.chunks[i] + CHUNK_BYTES <= c
    requires Wrote32(m, m1, w.chunks[|w.chunks| - 1], c) && Wrote32(m1, n, c, 0)
    ensures Body(n, w.(chunks := w.chunks + [c]), regions)
  {
    hide ChainOk, FieldsOk, RegionsOk, DirsOk;
    AppendedFields(m, m1, n, w, regions, c);
    AppendedDirs(m, m1, n, w, regions, c);
    ChainAppend(m, m1, n, w, regions, c);
  }

  lemma NewChunkMisses(regions: set<Region>, free: nat, c: nat)
    requires RegionsOk(regions, free) && Region(ChunkRegion, c, CHUNK_BYTES) in regions
    ensures Misses(regions, BufferRegion, c, c + 4) && Misses(regions, DirectoryRegion, c, c + 4)
  {
  }

  /** The chain cut after chunk `k`, behind the last row. */
  lemma BodyCutChain(m: seq<Byte>, n: seq<Byte>, w: Window, regions: set<Region>, k: nat)
    requires Body(m, w, regions) && k < |w.chunks| && |w.rows| <= CHUNK_ROWS * (k + 1)
    requires Wrote32(m, n, w.chunks[k], 0)
    ensures Body(n, w.(chunks := w.chunks[..k + 1]), regions)
  {
    LinkFrame(m, n, w, regions, k);
    ChainCut(m, n, w, regions, k);
    DirsRechain(n, w.columns, w.chunks, w.chunks[..k + 1], w.dirs, regions);
  }

  lemma ChainCut(m: seq<Byte>, n: seq<Byte>, w: Window, regions: set<Region>, k: nat)
    requires RegionsOk(regions, w.free) && ChainOk(m, w.chunks, regions) && k < |w.chunks|
    requires Wrote32(m, n, w.chunks[k], 0)
    ensures ChainOk(n, w.chunks[..k + 1], regions)
  {
    var chunks := w.chunks[..k + 1];
    forall i | 0 <= i < |chunks| ensures SlotHolds(n, chunks[i], NextChunk(chunks, i)) {
      if i < k { LinkFrameChain(m, n, w, regions, k, i); }
    }
    forall i | 0 <= i < |chunks| ensures ChunkOk(n, chunks[i], regions) {
      assert ChunkOk(m, w.chunks[i], regions);
    }
  }

  predicate Zeros(m: seq<Byte>, a: nat, b: nat) {
    a <= b <= |m| && forall i :: a <= i < b ==> m[i] == 0
  }

  /** A row whose directory is zeroed and whose slot is set. */
  lemma BodyAppendRow(m: seq<Byte>, w: Window, regions: set<Region>, d: nat)
    requires Body(m, w, regions) && |w.rows| < CHUNK_ROWS * |w.chunks|
    requires DirOk(m, w.columns, d, regions)
    requires forall i :: 0 <= i < |w.dirs| ==> w.dirs[i] + FIELD_BYTES * w.columns <= d
    requires Zeros(m, d, d + FIELD_BYTES * w.columns)
    requires SlotHolds(m, SlotOffset(w.chunks, |w.rows|), d)
    ensures Body(m, w.(rows := w.rows + [NullRow(w.columns)], dirs := w.dirs + [d]), regions)
  {
    DirsAppendRow(m, w.columns, w.chunks, w.dirs, regions, d);
    FieldsAppendRow(m, w, regions, d);
  }

  lemma DirsAppendRow(m: seq<Byte>, columns: nat, chunks: seq<nat>, dirs: seq<nat>, regions: set<Region>, d: nat)
    requires DirsOk(m, columns, chunks, dirs, regions) && |dirs| < CHUNK_ROWS * |chunks|
    requires DirOk(m, columns, d, regions) && SlotHolds(m, SlotOffset(chunks, |dirs|), d)
    requires forall i :: 0 <= i < |dirs| ==> dirs[i] + FIELD_BYTES * columns <= d
    ensures DirsOk(m, columns, chunks, dirs + [d], regions)
  {
    var more := dirs + [d];
    forall r | 0 <= r < |more|
      ensures DirOk(m, columns, more[r], regions) && SlotHolds(m, SlotOffset(chunks, r), more[r])
    {
      if r < |dirs| {
        assert DirOk(m, columns, dirs[r], regions) && SlotHolds(m, SlotOffset(chunks, r), dirs[r]);
      }
    }
  }

  lemma FieldsAppendRow(m: seq<Byte>, w: Window, regions: set<Region>, d: nat)
    requires Shaped(w) && FieldsOk(m, w.dirs, w.rows, regions)
    requires Zeros(m, d, d + FIELD_BYTES * w.columns)
    ensures FieldsOk(m, w.dirs + [d], w.rows + [NullRow(w.columns)], regions)
  {
    var rows, dirs := w.rows + [NullRow(w.columns)], w.dirs + [d];
    forall r: nat, c: nat ensures CellOk(m, dirs, rows, regions, r, c) {
      assert CellOk(m, w.dirs, w.rows, regions, r, c);
      if r == |w.rows| && c < w.columns {
        assert Get32(m, d + FIELD_BYTES * c) == 0;
      }
    }
    BuffersAppendRow(m, w, d);
  }

  lemma BuffersAppendRow(m: seq<Byte>, w: Window, d: nat)
    requires Shaped(w) && BuffersOk(m, w.dirs, w.rows)
    ensures BuffersOk(m, w.dirs + [d], w.rows + [NullRow(w.columns)])
  {
    var rows, dirs := w.rows + [NullRow(w.columns)], w.dirs + [d];
    forall r: nat, c: nat ensures Buffered(rows, r, c) <==> Buffered(w.rows, r, c)
      ensures Buffered(rows, r, c) ==> BufferOf(m, dirs, r, c) == BufferOf(m, w.dirs, r, c)
    {
    }
    hide Buffered, BufferOf;
    forall r: nat, c: nat, s: nat, e: nat ensures OwnBuffer(m, dirs, rows, r, c, s, e) {
      assert OwnBuffer(m, w.dirs, w.rows, r, c, s, e);
    }
  }

  lemma BodyDropRow(m: seq<Byte>, w: Window, regions: set<Region>)
    requires Body(m, w, regions)
    ensures Body(m, FreeLastRow(w), regions)
  {
    if w.rows != [] {
      DirsDropRow(m, w, regions);
      FieldsDropRow(m, w, regions);
      hide FieldsOk, DirsOk, ChainOk, RegionsOk, Shaped;
    }
  }

  lemma DirsDropRow(m: seq<Byte>, w: Window, regions: set<Region>)
    requires DirsOk(m, w.columns, w.chunks, w.dirs, regions) && w.dirs != []
    ensures DirsOk(m, w.columns, w.chunks, w.dirs[..|w.dirs| - 1], regions)
  {
    var dirs := w.dirs[..|w.dirs| - 1];
    forall r | 0 <= r < |dirs|
      ensures DirOk(m, w.columns, dirs[r], regions) && SlotHolds(m, SlotOffset(w.chunks, r), dirs[r])
    {
      assert DirOk(m, w.columns, w.dirs[r], regions) && SlotHolds(m, SlotOffset(w.chunks, r), w.dirs[r]);
    }
  }

  lemma FieldsDropRow(m: seq<Byte>, w: Window, regions: set<Region>)
    requires Shaped(w) && FieldsOk(m, w.dirs, w.rows, regions) && w.rows != []
    ensures FieldsOk(m, w.dirs[..|w.rows| - 1], w.rows[..|w.rows| - 1], regions)
  {
    var dirs, rows := w.dirs[..|w.rows| - 1], w.rows[..|w.rows| - 1];
    forall r: nat, c: nat ensures CellOk(m, dirs, rows, regions, r, c) {
      assert CellOk(m, w.dirs, w.rows, regions, r, c);
    }
    BuffersDropRow(m, w);
  }

  lemma BuffersDropRow(m: seq<Byte>, w: Window)
    requires Shaped(w) && BuffersOk(m, w.dirs, w.rows) && w.rows != []
    ensures BuffersOk(m, w.dirs[..|w.rows| - 1], w.rows[..|w.rows| - 1])
  {
    var dirs, rows := w.dirs[..|w.rows| - 1], w.rows[..|w.rows| - 1];
    forall r: nat, c: nat | Buffered(rows, r, c)
      ensures Buffered(w.rows, r, c) && BufferOf(m, dirs, r, c) == BufferOf(m, w.dirs, r, c)
    {
    }
    hide Buffered, BufferOf;
    forall r: nat, c: nat, s: nat, e: nat ensures OwnBuffer(m, dirs, rows, r, c, s, e) {
      assert OwnBuffer(m, w.dirs, w.rows, r, c, s, e);
    }
  }

  lemma FieldsApart(w: Window, r: nat, c: nat, s: nat, e: nat)
    requires Shaped(w) && r < |w.rows| && s < |w.rows| && c < w.columns && e < w.columns
    requires forall i, j :: 0 <= i < j < |w.dirs| ==> w.dirs[i] + FIELD_BYTES * w.columns <= w.dirs[j]
    requires r != s || c != e
    ensures Apart(w.dirs[r] + FIELD_BYTES * c, w.dirs[r] + FIELD_BYTES * c + FIELD_BYTES,
                  w.dirs[s] + FIELD_BYTES * e, w.dirs[s] + FIELD_BYTES * e + FIELD_BYTES)
  {
    assert r < s ==> w.dirs[r] + FIELD_BYTES * w.columns <= w.dirs[s];
    assert s < r ==> w.dirs[s] + FIELD_BYTES * w.columns <= w.dirs[r];
  }

  /** The buffer a string or blob field points to. */
  ghost predicate InBuffer(m: seq<Byte>, regions: set<Region>, off: nat, bytes: seq<Byte>) {
    && Region(BufferRegion, off, |bytes|) in regions
    && BytesAt(m, off, bytes)
  }

  /** The eight data bytes of a field slot for a value. */
  ghost predicate TailFor(m: seq<Byte>, regions: set<Region>, v: Value, tail: seq<Byte>, off: nat) {
    var encodes :=
      && Storable(v) && |tail| == 8
      && (v.Integer? ==> tail == Enc64(Pattern(v.value)))
      && (v.Float? ==> tail == Enc64(v.bits))
      && (v.Text? || v.Blob? ==>
            Get32(tail, 0) == off && Get32(tail, 4) == |v.bytes| && InBuffer(m, regions, off, v.bytes));
    encodes
  }

  /** A field slot at `o` that now reads as the value. */
  ghost predicate SlotWritten(m: seq<Byte>, n: seq<Byte>, regions: set<Region>, o: nat, v: Value, tail: seq<Byte>, off: nat) {
    && o + FIELD_BYTES <= |m| && SameExcept(m, n, o, o + FIELD_BYTES)
    && TailFor(m, regions, v, tail, off)
    && Get32(n, o) == TypeTag(v) && |tail| == 8 && BytesAt(n, o + 4, tail)
  }

  lemma FieldWritten(m: seq<Byte>, n: seq<Byte>, regions: set<Region>, o: nat, v: Value, tail: seq<Byte>, off: nat)
    requires SlotWritten(m, n, regions, o, v, tail, off) && Misses(regions, BufferRegion, o, o + FIELD_BYTES)
    ensures FieldHolds(n, regions, o, v)
  {
    BytesNumber(n, o + 4, tail, 0);
    BytesNumber(n, o + 4, tail, 4);
    if v.Text? || v.Blob? {
      var b := Region(BufferRegion, off, |v.bytes|);
      assert b in regions;
      BytesFrame(m, n, o, o + FIELD_BYTES, off, v.bytes);
    }
  }

  /** No live field uses the buffer at `off`. */
  ghost predicate Unused(m: seq<Byte>, w: Window, off: nat) {
    forall r: nat, c: nat :: Buffered(w.rows, r, c) ==> BufferOf(m, w.dirs, r, c) != off
  }

  /** A value that brings a buffer brings one of its own. */
  ghost predicate BringsOwn(m: seq<Byte>, w: Window, v: Value, off: nat) {
    (v.Text? || v.Blob?) && v.bytes != [] ==> Unused(m, w, off)
  }

  lemma BuffersPut(m: seq<Byte>, n: seq<Byte>, w: Window, regions: set<Region>,
                   row: nat, column: nat, v: Value, o: nat, tail: seq<Byte>, off: nat)
    requires Shaped(w) && row < |w.rows| && column < w.columns && BuffersOk(m, w.dirs, w.rows)
    requires forall i, j :: 0 <= i < j < |w.dirs| ==> w.dirs[i] + FIELD_BYTES * w.columns <= w.dirs[j]
    requires o == w.dirs[row] + FIELD_BYTES * column && SlotWritten(m, n, regions, o, v, tail, off)
    requires BringsOwn(m, w, v, off)
    ensures BuffersOk(n, w.dirs, w.rows[row := w.rows[row][column := v]])
  {
    var rows := w.rows[row := w.rows[row][column := v]];
    forall r: nat, c: nat | Buffered(rows, r, c) && (r != row || c != column)
      ensures Buffered(w.rows, r, c) && BufferOf(n, w.dirs, r, c) == BufferOf(m, w.dirs, r, c)
    {
      FieldsApart(w, row, column, r, c);
      BufferFrame(m, n, w.dirs, r, c, o, o + FIELD_BYTES);
    }
    BytesNumber(n, o + 4, tail, 0);
    assert Buffered(rows, row, column) ==> BufferOf(n, w.dirs, row, column) == off && Unused(m, w, off);
    hide Buffered, BufferOf;
    forall r: nat, c: nat, s: nat, e: nat ensures OwnBuffer(n, w.dirs, rows, r, c, s, e) {
      assert OwnBuffer(m, w.dirs, w.rows, r, c, s, e);
    }
  }

  lemma FieldsPut(m: seq<Byte>, n: seq<Byte>, w: Window, regions: set<Region>,
                  row: nat, column: nat, v: Value, o: nat, tail: seq<Byte>, off: nat)
    requires Shaped(w) && row < |w.rows| && column < w.columns
    requires FieldsOk(m, w.dirs, w.rows, regions)
    requires forall i, j :: 0 <= i < j < |w.dirs| ==> w.dirs[i] + FIELD_BYTES * w.columns <= w.dirs[j]
    requires o == w.dirs[row] + FIELD_BYTES * column && Misses(regions, BufferRegion, o, o + FIELD_BYTES)
    requires SlotWritten(m, n, regions, o, v, tail, off) && BringsOwn(m, w, v, off)
    ensures FieldsOk(n, w.dirs, w.rows[row := w.rows[row][column := v]], regions)
  {
    BuffersPut(m, n, w, regions, row, column, v, o, tail, off);
    var rows := w.rows[row := w.rows[row][column := v]];
    forall r: nat, c: nat ensures CellOk(n, w.dirs, rows, regions, r, c) {
      assert CellOk(m, w.dirs, w.rows, regions, r, c);
      if r == row && c == column {
        FieldWritten(m, n, regions, o, v, tail, off);
      } else if r < |rows| && c < w.columns {
        FieldsApart(w, row, column, r, c);
        assert rows[r][c] == w.rows[r][c];
        FieldFrame(m, n, regions, w.dirs[r] + FIELD_BYTES * c, w.rows[r][c], o, o + FIELD_BYTES);
      }
    }
  }

  /** A write inside one directory meets neither chunks nor buffers. */
  lemma DirectoryMisses(m: seq<Byte>, w: Window, regions: set<Region>, d: nat, a: nat, b: nat)
    requires RegionsOk(regions, w.free) && DirOk(m, w.columns, d, regions)
    requires d <= a <= b <= d + FIELD_BYTES * w.columns
    ensures Misses(regions, ChunkRegion, a, b) && Misses(regions, BufferRegion, a, b)
  {
    var g := Region(DirectoryRegion, d, FIELD_BYTES * w.columns);
    assert g in regions;
  }

  /** A write that meets no chunk leaves links and slots alone. */
  lemma ChunkMissed(m: seq<Byte>, n: seq<Byte>, w: Window, regions: set<Region>, a: nat, b: nat)
    requires ChainOk(m, w.chunks, regions) && DirsOk(m, w.columns, w.chunks, w.dirs, regions)
    requires SameExcept(m, n, a, b) && Misses(regions, ChunkRegion, a, b)
    ensures ChainOk(n, w.chunks, regions) && DirsOk(n, w.columns, w.chunks, w.dirs, regions)
  {
    forall i | 0 <= i < |w.chunks| ensures Apart(a, b, w.chunks[i], w.chunks[i] + CHUNK_BYTES) {
      var g := Region(ChunkRegion, w.chunks[i], CHUNK_BYTES);
      assert ChunkOk(m, w.chunks[i], regions) && g in regions;
    }
    ChainFrame(m, n, w, regions, a, b);
    forall r | 0 <= r < |w.dirs|
      ensures Apart(a, b, SlotOffset(w.chunks, r), SlotOffset(w.chunks, r) + 4)
    {
      SlotInChunk(w, r);
    }
    DirsFrame(m, n, w, regions, a, b);
  }

  /** One field slot rewritten: that field holds the new value, every other its old one. */
  lemma BodyPut(m: seq<Byte>, n: seq<Byte>, w: Window, regions: set<Region>,
                row: nat, column: nat, v: Value, o: nat, tail: seq<Byte>, off: nat)
    requires Body(m, w, regions) && row < |w.rows| && column < w.columns
    requires o == w.dirs[row] + FIELD_BYTES * column && SlotWritten(m, n, regions, o, v, tail, off)
    requires BringsOwn(m, w, v, off)
    ensures Body(n, WithValue(w, row, column, v), regions)
  {
    assert DirOk(m, w.columns, w.dirs[row], regions);
    DirectoryMisses(m, w, regions, w.dirs[row], o, o + FIELD_BYTES);
    ChunkMissed(m, n, w, regions, o, o + FIELD_BYTES);
    FieldsPut(m, n, w, regions, row, column, v, o, tail, off);
  }

  // ---------------------------------------------------------------- whole operations

  lemma HeaderFrame(m: seq<Byte>, n: seq<Byte>, w: Window, a: nat, b: nat)
    requires HeaderOk(m, w) && SameExcept(m, n, a, b) && HEADER_BYTES <= a
    ensures HeaderOk(n, w)
  {
    Get32Frame(m, n, a, b, 0);
    Get32Frame(m, n, a, b, 4);
    Get32Frame(m, n, a, b, 8);
    Get32Frame(m, n, a, b, 12);
  }

  /** The header with one of its words rewritten. */
  lemma HeaderPut(m: seq<Byte>, n: seq<Byte>, w: Window, off: nat, x: nat)
    requires HeaderOk(m, w) && (off == 0 || off == 8 || off == 12) && Wrote32(m, n, off, x)
    ensures off != 0 ==> Get32(n, 0) == w.free
    ensures Get32(n, 4) == HEADER_BYTES
    ensures off != 8 ==> Get32(n, 8) == |w.rows|
    ensures off != 12 ==> Get32(n, 12) == w.columns
  {
    if off != 0 { Get32Frame(m, n, off, off + 4, 0); }
    Get32Frame(m, n, off, off + 4, 4);
    if off != 8 { Get32Frame(m, n, off, off + 4, 8); }
    if off != 12 { Get32Frame(m, n, off, off + 4, 12); }
  }

  /** `clear`, whatever the image held before. */
  lemma ClearImage(m: seq<Byte>)
    requires HEADER_BYTES + CHUNK_BYTES <= |m|
    requires Get32(m, 0) == HEADER_BYTES + CHUNK_BYTES && Get32(m, 4) == HEADER_BYTES
    requires Get32(m, 8) == 0 && Get32(m, 12) == 0 && Get32(m, HEADER_BYTES) == 0
    ensures Represents(m, Empty, {Region(ChunkRegion, HEADER_BYTES, CHUNK_BYTES)})
  {
    var regions := {Region(ChunkRegion, HEADER_BYTES, CHUNK_BYTES)};
    assert ChainOk(m, [HEADER_BYTES], regions);
    assert DirsOk(m, 0, [HEADER_BYTES], [], regions);
    assert FieldsOk(m, [], [], regions);
  }

  /** An allocation: the free offset moves past the new region. */
  lemma AllocImage(m: seq<Byte>, n: seq<Byte>, w: Window, regions: set<Region>, g: Region)
    requires Represents(m, w, regions) && w.free <= g.start && g.start + g.len <= |m|
    requires HEADER_BYTES <= w.free && Wrote32(m, n, 0, g.start + g.len)
    ensures Represents(n, w.(free := g.start + g.len), regions + {g})
  {
    HeaderPut(m, n, w, 0, g.start + g.len);
    BodyFrame(m, n, w, regions, 0, 4);
    BodyGrow(n, w, regions, g);
  }

  lemma FreePositive(m: seq<Byte>, w: Window, regions: set<Region>)
    requires Body(m, w, regions)
    ensures HEADER_BYTES + CHUNK_BYTES <= w.free
    ensures forall i :: 0 <= i < |w.chunks| ==> HEADER_BYTES <= w.chunks[i] && w.chunks[i] + CHUNK_BYTES <= w.free
    ensures forall i :: 0 <= i < |w.dirs| ==> w.dirs[i] + FIELD_BYTES * w.columns <= w.free
  {
    forall i | 0 <= i < |w.chunks|
      ensures HEADER_BYTES <= w.chunks[i] && w.chunks[i] + CHUNK_BYTES <= w.free
    {
      var g := Region(ChunkRegion, w.chunks[i], CHUNK_BYTES);
      assert ChunkOk(m, w.chunks[i], regions) && g in regions;
    }
    forall i | 0 <= i < |w.dirs| ensures w.dirs[i] + FIELD_BYTES * w.columns <= w.free {
      assert DirOk(m, w.columns, w.dirs[i], regions);
      var g := Region(DirectoryRegion, w.dirs[i], FIELD_BYTES * w.columns);
      assert g in regions;
    }
  }

  /** What the accessors of the header can count on. */
  lemma HeaderFacts(m: seq<Byte>, w: Window, regions: set<Region>)
    requires Represents(m, w, regions)
    ensures Shaped(w) && HEADER_BYTES + CHUNK_BYTES <= w.free <= |m|
    ensures Get32(m, 0) == w.free && Get32(m, 4) == HEADER_BYTES
    ensures Get32(m, 8) == |w.rows| && Get32(m, 12) == w.columns
    ensures forall i :: 0 <= i < |w.chunks| ==> HEADER_BYTES <= w.chunks[i] && w.chunks[i] + CHUNK_BYTES <= w.free
    ensures forall i :: 0 <= i < |w.chunks| ==> SlotHolds(m, w.chunks[i], NextChunk(w.chunks, i))
  {
    FreePositive(m, w, regions);
  }

  /** A new chunk: allocated, linked from the last one, its own link cleared. */
  lemma NewChunkImage(m: seq<Byte>, m1: seq<Byte>, m2: seq<Byte>, n: seq<Byte>, w: Window, regions: set<Region>, c: nat)
    requires Represents(m, w, regions) && w.free <= c && c % 4 == 0 && c + CHUNK_BYTES <= |m|
    requires Wrote32(m, m1, 0, c + CHUNK_BYTES)
    requires Wrote32(m1, m2, w.chunks[|w.chunks| - 1], c) && Wrote32(m2, n, c, 0)
    ensures Represents(n, w.(chunks := w.chunks + [c], free := c + CHUNK_BYTES),
                       regions + {Region(ChunkRegion, c, CHUNK_BYTES)})
  {
    hide Body, SlotHolds, Get32;
    HeaderFacts(m, w, regions);
    var last := w.chunks[|w.chunks| - 1];
    var g := Region(ChunkRegion, c, CHUNK_BYTES);
    var v := w.(free := c + CHUNK_BYTES);
    AllocImage(m, m1, w, regions, g);
    BodyAppendChunk(m1, m2, n, v, regions + {g}, c);
    HeaderFrame(m1, m2, v, last, last + 4);
    HeaderFrame(m2, n, v, c, c + 4);
  }

  /** A chunk that earlier rows left behind is reused, and the chain ends there. */
  lemma ReuseChunkImage(m: seq<Byte>, n: seq<Byte>, w: Window, regions: set<Region>, k: nat)
    requires Represents(m, w, regions) && k < |w.chunks| && |w.rows| <= CHUNK_ROWS * (k + 1)
    requires Wrote32(m, n, w.chunks[k], 0)
    ensures Represents(n, w.(chunks := w.chunks[..k + 1]), regions)
  {
    FreePositive(m, w, regions);
    BodyCutChain(m, n, w, regions, k);
    HeaderFrame(m, n, w, w.chunks[k], w.chunks[k] + 4);
  }

  function WithRow(w: Window, d: nat): Window {
    w.(rows := w.rows + [NullRow(w.columns)], dirs := w.dirs + [d], free := d + FIELD_BYTES * w.columns)
  }

  lemma RowHeader(m: seq<Byte>, m1: seq<Byte>, m2: seq<Byte>, m3: seq<Byte>, n: seq<Byte>, w: Window, d: nat, o: nat)
    requires HeaderOk(m, w) && HEADER_BYTES <= d && HEADER_BYTES <= o
    requires Wrote32(m, m1, 8, |w.rows| + 1) && Wrote32(m1, m2, 0, d + FIELD_BYTES * w.columns)
    requires SameExcept(m2, m3, d, d + FIELD_BYTES * w.columns) && SameExcept(m3, n, o, o + 4)
    ensures HeaderOk(n, WithRow(w, d))
  {
    var w1 := w.(rows := w.rows + [NullRow(w.columns)], dirs := w.dirs + [d]);
    HeaderPut(m, m1, w, 8, |w.rows| + 1);
    HeaderPut(m1, m2, w1, 0, d + FIELD_BYTES * w.columns);
    HeaderFrame(m2, m3, WithRow(w, d), d, d + FIELD_BYTES * w.columns);
    HeaderFrame(m3, n, WithRow(w, d), o, o + 4);
  }

  /** The directory of a new row allocated and zeroed. */
  lemma RowCleared(m: seq<Byte>, m1: seq<Byte>, m2: seq<Byte>, m3: seq<Byte>, w: Window, regions: set<Region>, d: nat)
    requires Body(m, w, regions) && HEADER_BYTES <= w.free <= d && d + FIELD_BYTES * w.columns <= |m|
    requires SameExcept(m, m1, 8, 12) && SameExcept(m1, m2, 0, 4)
    requires SameExcept(m2, m3, d, d + FIELD_BYTES * w.columns)
    ensures Body(m3, w.(free := d + FIELD_BYTES * w.columns), regions + {Region(DirectoryRegion, d, FIELD_BYTES * w.columns)})
  {
    hide Body;
    BodyFrame(m, m1, w, regions, 8, 12);
    BodyFrame(m1, m2, w, regions, 0, 4);
    BodyFrame(m2, m3, w, regions, d, d + FIELD_BYTES * w.columns);
    BodyGrow(m3, w, regions, Region(DirectoryRegion, d, FIELD_BYTES * w.columns));
  }

  /** The slot of a new row pointed at its directory. */
  lemma RowPointed(m: seq<Byte>, n: seq<Byte>, w: Window, regions: set<Region>, d: nat)
    requires Body(m, w, regions) && |w.rows| < CHUNK_ROWS * |w.chunks| && d % 4 == 0
    requires d + FIELD_BYTES * w.columns <= |m| && Zeros(m, d, d + FIELD_BYTES * w.columns)
    requires Region(DirectoryRegion, d, FIELD_BYTES * w.columns) in regions
    requires forall i :: 0 <= i < |w.dirs| ==> w.dirs[i] + FIELD_BYTES * w.columns <= d
    requires var o := SlotOffset(w.chunks, |w.rows|); o + 4 <= d && Wrote32(m, n, o, d)
    ensures Body(n, w.(rows := w.rows + [NullRow(w.columns)], dirs := w.dirs + [d]), regions)
  {
    hide Body, Zeros;
    var o := SlotOffset(w.chunks, |w.rows|);
    SlotFrame(m, n, w, regions, |w.rows|);
    ZerosFrame(m, n, d, d + FIELD_BYTES * w.columns, o, o + 4);
    BodyAppendRow(n, w, regions, d);
  }

  lemma RowBody(m: seq<Byte>, m1: seq<Byte>, m2: seq<Byte>, m3: seq<Byte>, n: seq<Byte>, w: Window, regions: set<Region>, d: nat)
    requires Body(m, w, regions) && |w.rows| < CHUNK_ROWS * |w.chunks| && d % 4 == 0
    requires HEADER_BYTES <= w.free <= d && d + FIELD_BYTES * w.columns <= |m|
    requires SameExcept(m, m1, 8, 12) && SameExcept(m1, m2, 0, 4)
    requires SameExcept(m2, m3, d, d + FIELD_BYTES * w.columns) && Zeros(m3, d, d + FIELD_BYTES * w.columns)
    requires var o := SlotOffset(w.chunks, |w.rows|); o + 4 <= w.free && Wrote32(m3, n, o, d)
    ensures Body(n, WithRow(w, d), regions + {Region(DirectoryRegion, d, FIELD_BYTES * w.columns)})
  {
    hide Body, Zeros, SameExcept, SlotOffset, Get32;
    var len := FIELD_BYTES * w.columns;
    SameLength(m, m1, 8, 12);
    SameLength(m1, m2, 0, 4);
    SameLength(m2, m3, d, d + len);
    RowCleared(m, m1, m2, m3, w, regions, d);
    DirectoriesBelow(m, w, regions);
    RowPointed(m3, n, w.(free := d + len), regions + {Region(DirectoryRegion, d, len)}, d);
  }

  lemma DirectoriesBelow(m: seq<Byte>, w: Window, regions: set<Region>)
    requires Body(m, w, regions)
    ensures forall i :: 0 <= i < |w.dirs| ==> w.dirs[i] + FIELD_BYTES * w.columns <= w.free
  {
    hide FieldsOk, ChainOk;
    forall i | 0 <= i < |w.dirs| ensures w.dirs[i] + FIELD_BYTES * w.columns <= w.free {
      assert DirOk(m, w.columns, w.dirs[i], regions);
      var g := Region(DirectoryRegion, w.dirs[i], FIELD_BYTES * w.columns);
      assert g in regions;
    }
  }

  lemma SameLength(m: seq<Byte>, n: seq<Byte>, a: nat, b: nat)
    requires SameExcept(m, n, a, b)
    ensures |m| == |n|
  {
  }

  lemma ZerosFrame(m: seq<Byte>, n: seq<Byte>, lo: nat, hi: nat, a: nat, b: nat)
    requires Zeros(m, lo, hi) && SameExcept(m, n, a, b) && b <= lo
    ensures Zeros(n, lo, hi)
  {
  }

  /** The slot the next row will get lies in allocated space. */
  lemma NextSlot(m: seq<Byte>, w: Window, regions: set<Region>)
    requires Represents(m, w, regions) && |w.rows| < CHUNK_ROWS * |w.chunks|
    ensures HEADER_BYTES < SlotOffset(w.chunks, |w.rows|) && SlotOffset(w.chunks, |w.rows|) + 4 <= w.free
  {
    FreePositive(m, w, regions);
    SlotInChunk(w, |w.rows|);
  }

  /** A row allocated in a window whose chain covers it: the row count, the free offset, the
      zeroed directory and the slot are written in turn. */
  lemma AllocRowImage(m: seq<Byte>, m1: seq<Byte>, m2: seq<Byte>, m3: seq<Byte>, n: seq<Byte>, w: Window, regions: set<Region>, d: nat)
    requires Represents(m, w, regions) && |w.rows| < CHUNK_ROWS * |w.chunks| && d % 4 == 0
    requires w.free <= d && d + FIELD_BYTES * w.columns <= |m|
    requires Wrote32(m, m1, 8, |w.rows| + 1) && Wrote32(m1, m2, 0, d + FIELD_BYTES * w.columns)
    requires SameExcept(m2, m3, d, d + FIELD_BYTES * w.columns) && Zeros(m3, d, d + FIELD_BYTES * w.columns)
    requires Wrote32(m3, n, SlotOffset(w.chunks, |w.rows|), d)
    ensures Represents(n, WithRow(w, d), regions + {Region(DirectoryRegion, d, FIELD_BYTES * w.columns)})
  {
    NextSlot(m, w, regions);
    FreePositive(m, w, regions);
    RowHeader(m, m1, m2, m3, n, w, d, SlotOffset(w.chunks, |w.rows|));
    RowBody(m, m1, m2, m3, n, w, regions, d);
  }

  /** The row count written and taken back. */
  lemma BackOutImage(m: seq<Byte>, m1: seq<Byte>, n: seq<Byte>, w: Window, regions: set<Region>)
    requires Represents(m, w, regions)
    requires Wrote32(m, m1, 8, |w.rows| + 1) && Wrote32(m1, n, 8, |w.rows|)
    ensures Represents(n, w, regions)
  {
    BodyFrame(m, m1, w, regions, 8, 12);
    BodyFrame(m1, n, w, regions, 8, 12);
    HeaderPut(m, m1, w, 8, |w.rows| + 1);
    HeaderPut(m1, n, w.(rows := w.rows + [NullRow(w.columns)]), 8, |w.rows|);
  }

  lemma TwoWrites(m: seq<Byte>, m1: seq<Byte>, n: seq<Byte>, o: nat, x: nat, tail: seq<Byte>)
    requires Wrote32(m, m1, o, x) && Wrote(m1, n, o + 4, tail) && |tail| == 8
    ensures SameExcept(m, n, o, o + FIELD_BYTES) && Get32(n, o) == x && BytesAt(n, o + 4, tail)
  {
    Get32Frame(m1, n, o + 4, o + 12, o);
  }

  /** A field slot written as its type word and its eight data bytes. */
  lemma PutImage(m: seq<Byte>, m1: seq<Byte>, n: seq<Byte>, w: Window, regions: set<Region>,
                 row: nat, column: nat, v: Value, o: nat, tail: seq<Byte>, off: nat)
    requires Represents(m, w, regions) && Shaped(w) && row < |w.rows| && column < w.columns
    requires o == w.dirs[row] + FIELD_BYTES * column && |tail| == 8
    requires TailFor(m, regions, v, tail, off) && BringsOwn(m, w, v, off)
    requires Wrote32(m, m1, o, TypeTag(v)) && Wrote(m1, n, o + 4, tail)
    ensures Represents(n, WithValue(w, row, column, v), regions)
  {
    TwoWrites(m, m1, n, o, TypeTag(v), tail);
    BodyPut(m, n, w, regions, row, column, v, o, tail, off);
    PutHeader(m, n, w, regions, row, column, v, o);
  }

  lemma PutHeader(m: seq<Byte>, n: seq<Byte>, w: Window, regions: set<Region>, row: nat, column: nat, v: Value, o: nat)
    requires HeaderOk(m, w) && Body(m, w, regions) && row < |w.rows| && column < w.columns
    requires o == w.dirs[row] + FIELD_BYTES * column && SameExcept(m, n, o, o + FIELD_BYTES)
    ensures HeaderOk(n, WithValue(w, row, column, v))
  {
    FieldPlace(m, w, regions, row, column);
    HeaderFrame(m, n, w, o, o + FIELD_BYTES);
  }

  lemma FieldPlace(m: seq<Byte>, w: Window, regions: set<Region>, row: nat, column: nat)
    requires Body(m, w, regions) && row < |w.rows| && column < w.columns
    ensures DirOk(m, w.columns, w.dirs[row], regions)
    ensures SlotHolds(m, SlotOffset(w.chunks, row), w.dirs[row])
    ensures var o := w.dirs[row] + FIELD_BYTES * column; HEADER_BYTES <= o && o + FIELD_BYTES <= w.free
  {
    assert DirOk(m, w.columns, w.dirs[row], regions);
    var g := Region(DirectoryRegion, w.dirs[row], FIELD_BYTES * w.columns);
    assert g in regions;
  }

  /** Reading through the slots gives the table back. */
  lemma FieldReads(m: seq<Byte>, w: Window, regions: set<Region>, row: nat, column: nat, o: nat)
    requires Represents(m, w, regions) && Shaped(w) && row < |w.rows| && column < w.columns
    requires o == w.dirs[row] + FIELD_BYTES * column
    ensures Readable(m, o) && ReadValue(m, o) == w.rows[row][column]
  {
    assert CellOk(m, w.dirs, w.rows, regions, row, column);
    assert |w.dirs| == |w.rows| && |w.rows[row]| == w.columns;
    hide *;
    ReadsBack(m, w.dirs, w.rows, regions, row, column, o);
  }

  /** Bytes copied into fresh space. */
  lemma BufferImage(m: seq<Byte>, m1: seq<Byte>, n: seq<Byte>, w: Window, regions: set<Region>, bytes: seq<Byte>)
    requires Represents(m, w, regions) && w.free + |bytes| <= |m|
    requires Wrote32(m, m1, 0, w.free + |bytes|) && Wrote(m1, n, w.free, bytes)
    ensures Represents(n, w.(free := w.free + |bytes|), regions + {Region(BufferRegion, w.free, |bytes|)})
    ensures Unused(n, w, w.free)
  {
    FreePositive(m, w, regions);
    BodyFrame(m, m1, w, regions, 0, 4);
    BodyFrame(m1, n, w, regions, w.free, w.free + |bytes|);
    BodyGrow(n, w, regions, Region(BufferRegion, w.free, |bytes|));
    HeaderPut(m, m1, w, 0, w.free + |bytes|);
    HeaderFrame(m1, n, w.(free := w.free + |bytes|), w.free, w.free + |bytes|);
    FreeUnused(n, w, regions);
  }

  /** Free space is nobody's buffer. */
  lemma FreeUnused(m: seq<Byte>, w: Window, regions: set<Region>)
    requires Body(m, w, regions)
    ensures Unused(m, w, w.free)
  {
    forall r: nat, c: nat | Buffered(w.rows, r, c) ensures BufferOf(m, w.dirs, r, c) < w.free {
      assert CellOk(m, w.dirs, w.rows, regions, r, c);
      var g := Region(BufferRegion, BufferOf(m, w.dirs, r, c), |w.rows[r][c].bytes|);
      assert g in regions;
    }
  }

  lemma DropRowImage(m: seq<Byte>, n: seq<Byte>, w: Window, regions: set<Region>)
    requires Represents(m, w, regions) && w.rows != [] && Wrote32(m, n, 8, |w.rows| - 1)
    ensures Represents(n, FreeLastRow(w), regions)
  {
    HeaderPut(m, n, w, 8, |w.rows| - 1);
    BodyFrame(m, n, w, regions, 8, 12);
    BodyDropRow(n, w, regions);
  }

  lemma SetColumnsImage(m: seq<Byte>, n: seq<Byte>, w: Window, regions: set<Region>, columns: nat)
    requires Represents(m, w, regions) && (w.rows == [] || w.columns == columns) && Wrote32(m, n, 12, columns)
    ensures Represents(n, w.(columns := columns), regions)
  {
    HeaderPut(m, n, w, 12, columns);
    BodyFrame(m, n, w, regions, 12, 16);
  }

  lemma {:induction false} ChunkAfterChunk(m: seq<Byte>, w: Window, regions: set<Region>, i: nat)
    requires RegionsOk(regions, w.free) && ChainOk(m, w.chunks, regions) && i < |w.chunks|
    ensures HEADER_BYTES + CHUNK_BYTES * i <= w.chunks[i]
  {
    if i > 0 {
      ChunkAfterChunk(m, w, regions, i - 1);
      ChunksApart(w, regions, m, i - 1, i);
    }
  }

  /** A window never holds more rows than it has bytes to point at them. */
  lemma RowsBounded(m: seq<Byte>, w: Window, regions: set<Region>)
    requires Represents(m, w, regions)
    ensures 4 * |w.rows| < |m|
  {
    ChunkAfterChunk(m, w, regions, |w.chunks| - 1);
    FreePositive(m, w, regions);
  }
}
