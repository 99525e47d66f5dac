/** The shared buffer of a CursorWindow as a sequence of bytes: a header, a chain of row-slot chunks, a
  * field directory per row, and blobs, all handed out by a bump allocator.  This module says what a
  * well laid out buffer is, which table of cells it stands for, and which writes leave that table
  * alone.
  */
module CursorMemory {
  import opened Common
  import opened LittleEndian

  const HEADER_SIZE := 16
  const ROW_SLOT_CHUNK_NUM_ROWS := 100
  const NEXT_CHUNK := 400   // offset of nextChunkOffset within a chunk
  const CHUNK_SIZE := 404
  const FIELD_SIZE := 12

  // Offsets of the header fields.
  const FREE_OFFSET := 0
  const FIRST_CHUNK := 4
  const NUM_ROWS := 8
  const NUM_COLUMNS := 12

  const FIELD_TYPE_NULL := 0
  const FIELD_TYPE_INTEGER := 1
  const FIELD_TYPE_FLOAT := 2
  const FIELD_TYPE_STRING := 3
  const FIELD_TYPE_BLOB := 4

  /** What a field of the table holds; numbers by their 64 bits. */
  datatype Cell = Null | Integer(bits: uint64) | Float(bits: uint64) | String(bytes: seq<uint8>) | Blob(bytes: seq<uint8>)

  type Memory = seq<uint8>

  /** n bytes at o (nothing beyond the end). */
  function Slice(m: Memory, o: nat, n: nat): seq<uint8> {
    if o + n <= |m| then m[o..o + n] else []
  }

  function Word(m: Memory, o: nat): uint32 {
    if o + 4 <= |m| then Decode32(m[o..o + 4]) else 0
  }

  /** The field slot at s: a type and eight bytes of data - a number, or an offset and a size. */
  function CellAt(m: Memory, s: nat): Cell {
    var kind := Word(m, s);
    if s + FIELD_SIZE > |m| then Null
    else if kind == FIELD_TYPE_INTEGER then Integer(Decode64(m[s + 4..s + 12]))
    else if kind == FIELD_TYPE_FLOAT then Float(Decode64(m[s + 4..s + 12]))
    else if kind == FIELD_TYPE_STRING then String(Slice(m, Word(m, s + 4), Word(m, s + 8)))
    else if kind == FIELD_TYPE_BLOB then Blob(Slice(m, Word(m, s + 4), Word(m, s + 8)))
    else Null
  }

  predicate IsBuffer(m: Memory, s: nat) {
    Word(m, s) == FIELD_TYPE_STRING || Word(m, s) == FIELD_TYPE_BLOB
  }

  // ----- layout -----

  predicate Disjoint(a: nat, la: nat, b: nat, lb: nat) {
    a + la <= b || b + lb <= a
  }

  /** Where everything is: the offset of every chunk and of every row's field directory. */
  datatype Shape = Shape(free: nat, cols: nat, chunks: seq<nat>, dirs: seq<nat>)

  function DirSize(sh: Shape): nat { sh.cols * FIELD_SIZE }

  function SlotOf(sh: Shape, r: nat, c: nat): nat
    requires r < |sh.dirs|
  {
    sh.dirs[r] + c * FIELD_SIZE
  }

  /** Where the row slot of a row is. */
  function RowSlot(sh: Shape, r: nat): nat
    requires r < ROW_SLOT_CHUNK_NUM_ROWS * |sh.chunks|
  {
    sh.chunks[r / ROW_SLOT_CHUNK_NUM_ROWS] + 4 * (r % ROW_SLOT_CHUNK_NUM_ROWS)
  }

  ghost predicate HeaderOk(m: Memory, sh: Shape, rows: nat) {
    && HEADER_SIZE + CHUNK_SIZE <= sh.free <= |m|
    && Word(m, FREE_OFFSET) == sh.free && Word(m, FIRST_CHUNK) == HEADER_SIZE
    && Word(m, NUM_ROWS) == rows && Word(m, NUM_COLUMNS) == sh.cols
  }

  /** The chunks: aligned, in increasing order without overlap, the first right after the header. */
  ghost predicate ChunksOk(sh: Shape) {
    && |sh.chunks| > 0 && sh.chunks[0] == HEADER_SIZE
    && (forall i | 0 <= i < |sh.chunks| ::
          HEADER_SIZE <= sh.chunks[i] && sh.chunks[i] % 4 == 0 && sh.chunks[i] + CHUNK_SIZE <= sh.free)
    && (forall i, j | 0 <= i < j < |sh.chunks| :: sh.chunks[i] + CHUNK_SIZE <= sh.chunks[j])
  }

  /** Each chunk links to the next, the last to nothing. */
  ghost predicate ChainOk(m: Memory, sh: Shape) {
    forall i | 0 <= i < |sh.chunks| ::
      Word(m, sh.chunks[i] + NEXT_CHUNK) == if i + 1 < |sh.chunks| then sh.chunks[i + 1] else 0
  }

  /** The directories: aligned, in row order without overlap, and clear of the chunks. */
  ghost predicate DirsOk(sh: Shape) {
    && |sh.dirs| <= ROW_SLOT_CHUNK_NUM_ROWS * |sh.chunks|
    && (forall r | 0 <= r < |sh.dirs| ::
          HEADER_SIZE <= sh.dirs[r] && sh.dirs[r] % 4 == 0 && sh.dirs[r] + DirSize(sh) <= sh.free)
    && (forall r, q | 0 <= r < q < |sh.dirs| :: sh.dirs[r] + DirSize(sh) <= sh.dirs[q])
    && (forall r, i | 0 <= r < |sh.dirs| && 0 <= i < |sh.chunks| ::
          Disjoint(sh.dirs[r], DirSize(sh), sh.chunks[i], CHUNK_SIZE))
  }

  /** Each row's slot points at its directory. */
  ghost predicate SlotsOk(m: Memory, sh: Shape) {
    && |sh.dirs| <= ROW_SLOT_CHUNK_NUM_ROWS * |sh.chunks|
    && forall r | 0 <= r < |sh.dirs| :: Word(m, RowSlot(sh, r)) == sh.dirs[r]
  }

  /** The bytes of a buffer cell lie below the free offset, clear of header, chunks and directories. */
  ghost predicate BufferOk(m: Memory, sh: Shape, s: nat) {
    var o, n := Word(m, s + 4), Word(m, s + 8);
    && HEADER_SIZE <= o && o + n <= sh.free
    && (forall i | 0 <= i < |sh.chunks| :: Disjoint(o, n, sh.chunks[i], CHUNK_SIZE))
    && (forall r | 0 <= r < |sh.dirs| :: Disjoint(o, n, sh.dirs[r], DirSize(sh)))
  }

  ghost predicate BuffersOk(m: Memory, sh: Shape) {
    && (forall r, c | 0 <= r < |sh.dirs| && 0 <= c < sh.cols ::
          IsBuffer(m, SlotOf(sh, r, c)) ==> BufferOk(m, sh, SlotOf(sh, r, c)))
    && BuffersApart(m, sh)
  }

  /** The bytes of two different fields never overlap. */
  ghost predicate BuffersApart(m: Memory, sh: Shape) {
    forall r, c, q, d | 0 <= r < |sh.dirs| && 0 <= c < sh.cols && 0 <= q < |sh.dirs| && 0 <= d < sh.cols
                        && (r != q || c != d) ::
      Apart(m, SlotOf(sh, r, c), SlotOf(sh, q, d))
  }

  ghost predicate Apart(m: Memory, s: nat, t: nat) {
    IsBuffer(m, s) && IsBuffer(m, t) ==> Disjoint(Word(m, s + 4), Word(m, s + 8), Word(m, t + 4), Word(m, t + 8))
  }

  /** Another shape with (some of) the same rows, and a memory with the same cells there. */
  lemma ApartKept(m: Memory, m': Memory, sh: Shape, sh': Shape)
    requires BuffersApart(m, sh) && sh'.cols == sh.cols && sh'.dirs <= sh.dirs
    requires forall r, c | 0 <= r < |sh'.dirs| && 0 <= c < sh.cols :: CellSame(m, m', SlotOf(sh, r, c))
    ensures BuffersApart(m', sh')
  {
    hide CellAt, Word, Disjoint;
    forall r, c, q, d | 0 <= r < |sh'.dirs| && 0 <= c < sh'.cols && 0 <= q < |sh'.dirs| && 0 <= d < sh'.cols
                        && (r != q || c != d)
      ensures Apart(m', SlotOf(sh', r, c), SlotOf(sh', q, d))
    {
      assert Apart(m, SlotOf(sh, r, c), SlotOf(sh, q, d));
      assert CellSame(m, m', SlotOf(sh, r, c)) && CellSame(m, m', SlotOf(sh, q, d));
    }
  }

  /** The layout while the header claims a number of rows (allocRow counts the new row first). */
  ghost predicate LayoutWith(m: Memory, sh: Shape, rows: nat) {
    HeaderOk(m, sh, rows) && ChunksOk(sh) && ChainOk(m, sh) && DirsOk(sh) && SlotsOk(m, sh) && BuffersOk(m, sh)
  }

  ghost predicate Layout(m: Memory, sh: Shape) {
    LayoutWith(m, sh, |sh.dirs|)
  }

  /** The table the buffer stands for. */
  ghost function TableOf(m: Memory, sh: Shape): seq<seq<Cell>> {
    seq(|sh.dirs|, r requires 0 <= r < |sh.dirs| => RowOf(m, sh.dirs[r], sh.cols))
  }

  ghost function RowOf(m: Memory, dir: nat, cols: nat): seq<Cell> {
    seq(cols, c requires 0 <= c => CellAt(m, dir + c * FIELD_SIZE))
  }

  /** What a new directory is filled with, and the row it then stands for. */
  function Zeros(n: nat): seq<uint8> {
    seq(n, _ => 0)
  }

  function NullRow(cols: nat): (row: seq<Cell>)
    ensures |row| == cols && forall c | 0 <= c < cols :: row[c] == Null
  {
    seq(cols, _ => Null)
  }

  // ----- writes -----

  /** Write some bytes at an offset. */
  function Put(m: Memory, o: nat, bytes: seq<uint8>): (m': Memory)
    requires o + |bytes| <= |m|
    ensures |m'| == |m|
  {
    m[..o] + bytes + m[o + |bytes|..]
  }

  ghost predicate SameOutside(m: Memory, m': Memory, lo: nat, n: nat) {
    |m'| == |m| && forall i | 0 <= i < |m| && !(lo <= i < lo + n) :: m'[i] == m[i]
  }

  lemma PutFacts(m: Memory, o: nat, bytes: seq<uint8>)
    requires o + |bytes| <= |m|
    ensures Put(m, o, bytes)[o..o + |bytes|] == bytes
    ensures SameOutside(m, Put(m, o, bytes), o, |bytes|)
  {
  }

  lemma PutWord(m: Memory, o: nat, v: uint32)
    requires o + 4 <= |m|
    ensures Word(Put(m, o, Encode32(v)), o) == v
    ensures SameOutside(m, Put(m, o, Encode32(v)), o, 4)
  {
    PutFacts(m, o, Encode32(v));
    RoundTrip32(v);
  }

  lemma SliceFrame(m: Memory, m': Memory, lo: nat, n: nat, a: nat, k: nat)
    requires SameOutside(m, m', lo, n) && Disjoint(a, k, lo, n) && a + k <= |m|
    ensures m'[a..a + k] == m[a..a + k]
  {
    assert forall i | a <= i < a + k :: m'[i] == m[i];
  }

  lemma WordFrame(m: Memory, m': Memory, lo: nat, n: nat, o: nat)
    requires SameOutside(m, m', lo, n) && Disjoint(o, 4, lo, n)
    ensures Word(m', o) == Word(m, o)
  {
    if o + 4 <= |m| {
      SliceFrame(m, m', lo, n, o, 4);
    }
  }

  /** A write clear of a field slot and of the bytes it refers to leaves the cell alone. */
  lemma CellFrame(m: Memory, m': Memory, lo: nat, n: nat, s: nat)
    requires SameOutside(m, m', lo, n) && Disjoint(s, FIELD_SIZE, lo, n)
    requires IsBuffer(m, s) ==> Disjoint(Word(m, s + 4), Word(m, s + 8), lo, n)
    ensures CellAt(m', s) == CellAt(m, s)
    ensures IsBuffer(m', s) == IsBuffer(m, s) && Word(m', s + 4) == Word(m, s + 4) && Word(m', s + 8) == Word(m, s + 8)
  {
    WordFrame(m, m', lo, n, s);
    WordFrame(m, m', lo, n, s + 4);
    WordFrame(m, m', lo, n, s + 8);
    if s + FIELD_SIZE <= |m| {
      SliceFrame(m, m', lo, n, s + 4, 8);
      if IsBuffer(m, s) && Word(m, s + 4) + Word(m, s + 8) <= |m| {
        SliceFrame(m, m', lo, n, Word(m, s + 4), Word(m, s + 8));
      }
    }
  }

  // ----- what writes leave alone -----

  lemma ChainFrame(m: Memory, m': Memory, lo: nat, n: nat, sh: Shape)
    requires SameOutside(m, m', lo, n) && ChainOk(m, sh)
    requires forall i | 0 <= i < |sh.chunks| :: Disjoint(sh.chunks[i] + NEXT_CHUNK, 4, lo, n)
    ensures ChainOk(m', sh)
  {
    forall i | 0 <= i < |sh.chunks|
      ensures Word(m', sh.chunks[i] + NEXT_CHUNK) == Word(m, sh.chunks[i] + NEXT_CHUNK)
    {
      WordFrame(m, m', lo, n, sh.chunks[i] + NEXT_CHUNK);
    }
  }

  lemma SlotsFrame(m: Memory, m': Memory, lo: nat, n: nat, sh: Shape)
    requires SameOutside(m, m', lo, n) && SlotsOk(m, sh)
    requires forall r | 0 <= r < |sh.dirs| :: Disjoint(RowSlot(sh, r), 4, lo, n)
    ensures SlotsOk(m', sh)
  {
    forall r | 0 <= r < |sh.dirs|
      ensures Word(m', RowSlot(sh, r)) == Word(m, RowSlot(sh, r))
    {
      WordFrame(m, m', lo, n, RowSlot(sh, r));
    }
  }

  /** A field slot lies within its directory. */
  lemma SlotInDir(sh: Shape, r: nat, c: nat)
    requires r < |sh.dirs| && c < sh.cols
    ensures sh.dirs[r] <= SlotOf(sh, r, c) && SlotOf(sh, r, c) + FIELD_SIZE <= sh.dirs[r] + DirSize(sh)
  {
  }

  /** A write is clear of the directories and of everything the fields refer to. */
  ghost predicate ClearOfTable(m: Memory, sh: Shape, lo: nat, n: nat) {
    && (forall r | 0 <= r < |sh.dirs| :: Disjoint(sh.dirs[r], DirSize(sh), lo, n))
    && (forall r, c | 0 <= r < |sh.dirs| && 0 <= c < sh.cols ::
          IsBuffer(m, SlotOf(sh, r, c)) ==>
            Disjoint(Word(m, SlotOf(sh, r, c) + 4), Word(m, SlotOf(sh, r, c) + 8), lo, n))
  }

  lemma TableFrame(m: Memory, m': Memory, lo: nat, n: nat, sh: Shape)
    requires SameOutside(m, m', lo, n) && ClearOfTable(m, sh, lo, n) && BuffersOk(m, sh)
    ensures BuffersOk(m', sh)
    ensures TableOf(m', sh) == TableOf(m, sh)
    ensures forall r, c | 0 <= r < |sh.dirs| && 0 <= c < sh.cols :: CellSame(m, m', SlotOf(sh, r, c))
  {
    hide CellAt, BufferOk, Disjoint;
    forall r, c | 0 <= r < |sh.dirs| && 0 <= c < sh.cols
      ensures CellSame(m, m', SlotOf(sh, r, c))
    {
      FieldFrame(m, m', lo, n, sh, r, c);
    }
    forall r, c | 0 <= r < |sh.dirs| && 0 <= c < sh.cols && IsBuffer(m', SlotOf(sh, r, c))
      ensures BufferOk(m', sh, SlotOf(sh, r, c))
    {
      BufferSame(m, m', sh, SlotOf(sh, r, c));
    }
    ApartKept(m, m', sh, sh);
    SameCellsSameTable(m, m', sh);
  }

  lemma SameCellsSameTable(m: Memory, m': Memory, sh: Shape)
    requires forall r, c | 0 <= r < |sh.dirs| && 0 <= c < sh.cols :: CellSame(m, m', SlotOf(sh, r, c))
    ensures TableOf(m', sh) == TableOf(m, sh)
  {
    hide CellAt;
    forall r | 0 <= r < |sh.dirs|
      ensures RowOf(m', sh.dirs[r], sh.cols) == RowOf(m, sh.dirs[r], sh.cols)
    {
      forall c | 0 <= c < sh.cols
        ensures CellAt(m', sh.dirs[r] + c * FIELD_SIZE) == CellAt(m, sh.dirs[r] + c * FIELD_SIZE)
      {
        assert CellSame(m, m', SlotOf(sh, r, c));
      }
    }
  }

  ghost predicate CellSame(m: Memory, m': Memory, s: nat) {
    && CellAt(m', s) == CellAt(m, s) && IsBuffer(m', s) == IsBuffer(m, s)
    && Word(m', s + 4) == Word(m, s + 4) && Word(m', s + 8) == Word(m, s + 8)
  }

  lemma BufferSame(m: Memory, m': Memory, sh: Shape, s: nat)
    requires CellSame(m, m', s)
    ensures BufferOk(m, sh, s) ==> BufferOk(m', sh, s)
  {
  }

  lemma FieldFrame(m: Memory, m': Memory, lo: nat, n: nat, sh: Shape, r: nat, c: nat)
    requires SameOutside(m, m', lo, n) && r < |sh.dirs| && c < sh.cols
    requires Disjoint(sh.dirs[r], DirSize(sh), lo, n)
    requires IsBuffer(m, SlotOf(sh, r, c)) ==>
               Disjoint(Word(m, SlotOf(sh, r, c) + 4), Word(m, SlotOf(sh, r, c) + 8), lo, n)
    ensures CellSame(m, m', SlotOf(sh, r, c))
  {
    SlotInDir(sh, r, c);
    CellFrame(m, m', lo, n, SlotOf(sh, r, c));
  }

  // ----- steps of the allocator -----

  /** Everything alive ends at or below an offset. */
  ghost predicate Below(m: Memory, sh: Shape, o: nat) {
    && HEADER_SIZE <= o
    && (forall i | 0 <= i < |sh.chunks| :: sh.chunks[i] + CHUNK_SIZE <= o)
    && (forall r | 0 <= r < |sh.dirs| :: sh.dirs[r] + DirSize(sh) <= o)
    && (forall r, c | 0 <= r < |sh.dirs| && 0 <= c < sh.cols ::
          IsBuffer(m, SlotOf(sh, r, c)) ==> Word(m, SlotOf(sh, r, c) + 4) + Word(m, SlotOf(sh, r, c) + 8) <= o)
  }

  /** Writing a header word leaves chain, slots and table alone. */
  lemma HeaderFrame(m: Memory, m': Memory, lo: nat, sh: Shape, rows: nat)
    requires LayoutWith(m, sh, rows) && lo + 4 <= HEADER_SIZE && SameOutside(m, m', lo, 4)
    ensures ChainOk(m', sh) && SlotsOk(m', sh) && BuffersOk(m', sh) && TableOf(m', sh) == TableOf(m, sh)
  {
    hide TableOf, CellAt;
    ChainFrame(m, m', lo, 4, sh);
    SlotsFrame(m, m', lo, 4, sh);
    TableFrame(m, m', lo, 4, sh);
  }

  /** alloc: raising the free offset. */
  lemma AllocKeeps(m: Memory, sh: Shape, rows: nat, newFree: uint32)
    requires LayoutWith(m, sh, rows) && sh.free <= newFree <= |m|
    ensures var m' := Put(m, FREE_OFFSET, Encode32(newFree));
            && LayoutWith(m', sh.(free := newFree), rows) && TableOf(m', sh.(free := newFree)) == TableOf(m, sh)
            && Below(m', sh.(free := newFree), sh.free)
  {
    hide TableOf, CellAt;
    var m' := Put(m, FREE_OFFSET, Encode32(newFree));
    PutWord(m, FREE_OFFSET, newFree);
    HeaderFrame(m, m', FREE_OFFSET, sh, rows);
    HeaderWords(m, m', FREE_OFFSET);
    RaiseFree(m', sh, newFree);
  }

  lemma HeaderWords(m: Memory, m': Memory, lo: nat)
    requires SameOutside(m, m', lo, 4) && (lo == FREE_OFFSET || lo == NUM_ROWS || lo == NUM_COLUMNS)
    ensures lo != FREE_OFFSET ==> Word(m', FREE_OFFSET) == Word(m, FREE_OFFSET)
    ensures Word(m', FIRST_CHUNK) == Word(m, FIRST_CHUNK)
    ensures lo != NUM_ROWS ==> Word(m', NUM_ROWS) == Word(m, NUM_ROWS)
    ensures lo != NUM_COLUMNS ==> Word(m', NUM_COLUMNS) == Word(m, NUM_COLUMNS)
  {
    if lo != FREE_OFFSET { WordFrame(m, m', lo, 4, FREE_OFFSET); }
    WordFrame(m, m', lo, 4, FIRST_CHUNK);
    if lo != NUM_ROWS { WordFrame(m, m', lo, 4, NUM_ROWS); }
    if lo != NUM_COLUMNS { WordFrame(m, m', lo, 4, NUM_COLUMNS); }
  }

  lemma RaiseFree(m: Memory, sh: Shape, newFree: nat)
    requires sh.free <= newFree && HEADER_SIZE <= sh.free
    requires ChunksOk(sh) && ChainOk(m, sh) && DirsOk(sh) && SlotsOk(m, sh) && BuffersOk(m, sh)
    ensures var up := sh.(free := newFree);
            && ChunksOk(up) && ChainOk(m, up) && DirsOk(up) && SlotsOk(m, up) && BuffersOk(m, up)
            && TableOf(m, up) == TableOf(m, sh) && Below(m, up, sh.free)
  {
    hide CellAt, Word, IsBuffer;
    var up := sh.(free := newFree);
    assert TableOf(m, up) == TableOf(m, sh);
    RaiseBuffers(m, sh, newFree);
    assert SlotsOk(m, up) && ChainOk(m, up);
  }

  lemma RaiseBuffers(m: Memory, sh: Shape, newFree: nat)
    requires sh.free <= newFree && BuffersOk(m, sh) && DirsOk(sh) && ChunksOk(sh)
    ensures BuffersOk(m, sh.(free := newFree)) && Below(m, sh.(free := newFree), sh.free)
  {
    hide CellAt, Word, IsBuffer;
    var up := sh.(free := newFree);
    forall r, c | 0 <= r < |sh.dirs| && 0 <= c < sh.cols && IsBuffer(m, SlotOf(up, r, c))
      ensures BufferOk(m, up, SlotOf(up, r, c)) && Word(m, SlotOf(up, r, c) + 4) + Word(m, SlotOf(up, r, c) + 8) <= sh.free
    {
      assert SlotOf(up, r, c) == SlotOf(sh, r, c);
      assert BufferOk(m, sh, SlotOf(sh, r, c));
    }
    ApartKept(m, m, sh, up);
  }


  // ----- writes beyond the header -----

  lemma BodyWriteKeepsHeader(m: Memory, m': Memory, lo: nat, n: nat, sh: Shape, rows: nat)
    requires HeaderOk(m, sh, rows) && SameOutside(m, m', lo, n) && HEADER_SIZE <= lo
    ensures HeaderOk(m', sh, rows)
  {
    WordFrame(m, m', lo, n, FREE_OFFSET);
    WordFrame(m, m', lo, n, FIRST_CHUNK);
    WordFrame(m, m', lo, n, NUM_ROWS);
    WordFrame(m, m', lo, n, NUM_COLUMNS);
  }

  /** A write inside a chunk leaves header and table alone. */
  lemma ChunkWrite(m: Memory, m': Memory, lo: nat, n: nat, sh: Shape, rows: nat, k: nat)
    requires HeaderOk(m, sh, rows) && ChunksOk(sh) && DirsOk(sh) && BuffersOk(m, sh)
    requires k < |sh.chunks| && SameOutside(m, m', lo, n)
    requires sh.chunks[k] <= lo && lo + n <= sh.chunks[k] + CHUNK_SIZE
    ensures HeaderOk(m', sh, rows) && BuffersOk(m', sh) && TableOf(m', sh) == TableOf(m, sh)
    ensures forall o | Below(m, sh, o) :: Below(m', sh, o)
  {
    hide TableOf, CellAt;
    BodyWriteKeepsHeader(m, m', lo, n, sh, rows);
    TableFrame(m, m', lo, n, sh);
  }

  lemma SlotInChunk(sh: Shape, r: nat)
    requires r < ROW_SLOT_CHUNK_NUM_ROWS * |sh.chunks|
    ensures var k := r / ROW_SLOT_CHUNK_NUM_ROWS;
            k < |sh.chunks| && sh.chunks[k] <= RowSlot(sh, r) && RowSlot(sh, r) + 4 <= sh.chunks[k] + NEXT_CHUNK
  {
  }

  /** A write above everything alive leaves the whole layout alone. */
  lemma FreshWrite(m: Memory, m': Memory, o: nat, lo: nat, n: nat, sh: Shape, rows: nat)
    requires LayoutWith(m, sh, rows) && Below(m, sh, o) && o <= lo && SameOutside(m, m', lo, n)
    ensures LayoutWith(m', sh, rows) && TableOf(m', sh) == TableOf(m, sh) && Below(m', sh, o)
  {
    hide TableOf, CellAt;
    BodyWriteKeepsHeader(m, m', lo, n, sh, rows);
    ChainFrame(m, m', lo, n, sh);
    forall r | 0 <= r < |sh.dirs|
      ensures Disjoint(RowSlot(sh, r), 4, lo, n)
    {
      SlotInChunk(sh, r);
    }
    SlotsFrame(m, m', lo, n, sh);
    TableFrame(m, m', lo, n, sh);
  }

  /** A write to a chunk's link leaves header, slots and table alone. */
  lemma LinkWrite(m: Memory, m': Memory, sh: Shape, rows: nat, k: nat)
    requires LayoutWith(m, sh, rows) && k < |sh.chunks| && SameOutside(m, m', sh.chunks[k] + NEXT_CHUNK, 4)
    ensures HeaderOk(m', sh, rows) && SlotsOk(m', sh) && BuffersOk(m', sh) && TableOf(m', sh) == TableOf(m, sh)
    ensures forall o | Below(m, sh, o) :: Below(m', sh, o)
    ensures forall i | 0 <= i < |sh.chunks| && i != k ::
              Word(m', sh.chunks[i] + NEXT_CHUNK) == Word(m, sh.chunks[i] + NEXT_CHUNK)
  {
    hide TableOf, CellAt;
    var lo := sh.chunks[k] + NEXT_CHUNK;
    ChunkWrite(m, m', lo, 4, sh, rows, k);
    forall r | 0 <= r < |sh.dirs|
      ensures Disjoint(RowSlot(sh, r), 4, lo, 4)
    {
      SlotInChunk(sh, r);
    }
    SlotsFrame(m, m', lo, 4, sh);
    forall i | 0 <= i < |sh.chunks| && i != k
      ensures Word(m', sh.chunks[i] + NEXT_CHUNK) == Word(m, sh.chunks[i] + NEXT_CHUNK)
    {
      WordFrame(m, m', lo, 4, sh.chunks[i] + NEXT_CHUNK);
    }
  }

  // ----- chunks -----

  /** A freshly allocated chunk, its link cleared and the last chunk's link set to it, joins the chain.
    * The last link is set first and the new chunk's own link cleared after, as allocRowSlot does. */
  lemma AppendChunk(m: Memory, sh: Shape, rows: nat, o: uint32)
    requires LayoutWith(m, sh, rows) && Below(m, sh, o) && o % 4 == 0 && o + CHUNK_SIZE <= sh.free
    ensures var last := sh.chunks[|sh.chunks| - 1] + NEXT_CHUNK;
            var m1 := Put(m, last, Encode32(o));
            var m2 := Put(m1, o + NEXT_CHUNK, Encode32(0));
            var linked := sh.(chunks := sh.chunks + [o]);
            LayoutWith(m2, linked, rows) && TableOf(m2, linked) == TableOf(m, sh)
  {
    hide TableOf, DirsOk, SlotsOk, BuffersOk, Below, Put, Word, SameOutside, Encode32;
    var k := |sh.chunks| - 1;
    var last := sh.chunks[k] + NEXT_CHUNK;
    // The two writes do not touch, so it is as if the new chunk's link had been cleared first.
    var cleared := Put(m, o + NEXT_CHUNK, Encode32(0));
    var m1 := Put(m, last, Encode32(o));
    var m2 := Put(m1, o + NEXT_CHUNK, Encode32(0));
    PutWord(m, o + NEXT_CHUNK, 0);
    PutWord(m1, o + NEXT_CHUNK, 0);
    PutWord(m, last, o);
    FreshWrite(m, cleared, o, o + NEXT_CHUNK, 4, sh, rows);
    ChunkBelow(m, sh, o, k);
    SwapWrites(m, last, Encode32(o), o + NEXT_CHUNK, Encode32(0));
    PutWord(cleared, last, o);
    LinkWrite(cleared, m2, sh, rows, k);
    JoinChain(m2, sh, rows, o);
  }

  lemma JoinChain(m: Memory, sh: Shape, rows: nat, o: nat)
    requires HeaderOk(m, sh, rows) && ChunksOk(sh) && DirsOk(sh) && SlotsOk(m, sh) && BuffersOk(m, sh)
    requires Below(m, sh, o) && o % 4 == 0 && o + CHUNK_SIZE <= sh.free
    requires forall i | 0 <= i < |sh.chunks| ::
               Word(m, sh.chunks[i] + NEXT_CHUNK) == if i + 1 < |sh.chunks| then sh.chunks[i + 1] else o
    requires Word(m, o + NEXT_CHUNK) == 0
    ensures var linked := sh.(chunks := sh.chunks + [o]);
            LayoutWith(m, linked, rows) && TableOf(m, linked) == TableOf(m, sh)
  {
    hide CellAt, Word, IsBuffer;
    var linked := sh.(chunks := sh.chunks + [o]);
    JoinSlots(m, sh, o);
    JoinBuffers(m, sh, o);
    forall i | 0 <= i < |linked.chunks|
      ensures Word(m, linked.chunks[i] + NEXT_CHUNK) == if i + 1 < |linked.chunks| then linked.chunks[i + 1] else 0
    {
      if i < |sh.chunks| {
        assert linked.chunks[i] == sh.chunks[i];
        assert Word(m, sh.chunks[i] + NEXT_CHUNK) == if i + 1 < |sh.chunks| then sh.chunks[i + 1] else o;
        assert linked.chunks[i + 1] == if i + 1 < |sh.chunks| then sh.chunks[i + 1] else o;
      } else {
        assert linked.chunks[i] == o;
      }
    }
    assert TableOf(m, linked) == TableOf(m, sh);
  }

  lemma JoinSlots(m: Memory, sh: Shape, o: nat)
    requires SlotsOk(m, sh)
    ensures SlotsOk(m, sh.(chunks := sh.chunks + [o]))
  {
    hide Word;
    var linked := sh.(chunks := sh.chunks + [o]);
    forall r | 0 <= r < |sh.dirs|
      ensures RowSlot(linked, r) == RowSlot(sh, r)
    {
      SlotInChunk(sh, r);
    }
  }

  lemma JoinBuffers(m: Memory, sh: Shape, o: nat)
    requires BuffersOk(m, sh) && Below(m, sh, o)
    ensures BuffersOk(m, sh.(chunks := sh.chunks + [o]))
  {
    hide Word, IsBuffer;
    var linked := sh.(chunks := sh.chunks + [o]);
    ApartKept(m, m, sh, linked);
    forall r, c | 0 <= r < |linked.dirs| && 0 <= c < linked.cols && IsBuffer(m, SlotOf(linked, r, c))
      ensures BufferOk(m, linked, SlotOf(linked, r, c))
    {
      assert SlotOf(linked, r, c) == SlotOf(sh, r, c);
      assert BufferOk(m, sh, SlotOf(sh, r, c));
    }
  }

  lemma ChunkBelow(m: Memory, sh: Shape, o: nat, k: nat)
    requires Below(m, sh, o) && k < |sh.chunks|
    ensures sh.chunks[k] + CHUNK_SIZE <= o
  {
  }

  lemma SwapWrites(m: Memory, a: nat, x: seq<uint8>, b: nat, y: seq<uint8>)
    requires a + |x| <= b && b + |y| <= |m|
    ensures Put(Put(m, a, x), b, y) == Put(Put(m, b, y), a, x)
  {
  }

  /** Cutting the chain after chunk k, which allocRowSlot does whenever it crosses into chunk k. */
  lemma CutChain(m: Memory, sh: Shape, rows: nat, k: nat)
    requires LayoutWith(m, sh, rows) && k < |sh.chunks| && |sh.dirs| <= ROW_SLOT_CHUNK_NUM_ROWS * (k + 1)
    ensures var m' := Put(m, sh.chunks[k] + NEXT_CHUNK, Encode32(0));
            var cut := sh.(chunks := sh.chunks[..k + 1]);
            LayoutWith(m', cut, rows) && TableOf(m', cut) == TableOf(m, sh)
  {
    hide TableOf, Put, Word, SameOutside, Encode32, DirsOk, SlotsOk, BuffersOk;
    var m' := Put(m, sh.chunks[k] + NEXT_CHUNK, Encode32(0));
    PutWord(m, sh.chunks[k] + NEXT_CHUNK, 0);
    LinkWrite(m, m', sh, rows, k);
    FewerChunks(m', sh, k);
    FewerLinks(m', sh, k);
  }

  lemma FewerLinks(m: Memory, sh: Shape, k: nat)
    requires ChunksOk(sh) && k < |sh.chunks| && Word(m, sh.chunks[k] + NEXT_CHUNK) == 0
    requires forall i | 0 <= i < k :: Word(m, sh.chunks[i] + NEXT_CHUNK) == sh.chunks[i + 1]
    ensures var cut := sh.(chunks := sh.chunks[..k + 1]);
            ChunksOk(cut) && ChainOk(m, cut)
  {
    hide Word;
  }

  lemma FewerChunks(m: Memory, sh: Shape, k: nat)
    requires SlotsOk(m, sh) && BuffersOk(m, sh) && DirsOk(sh)
    requires k < |sh.chunks| && |sh.dirs| <= ROW_SLOT_CHUNK_NUM_ROWS * (k + 1)
    ensures var cut := sh.(chunks := sh.chunks[..k + 1]);
            SlotsOk(m, cut) && BuffersOk(m, cut) && DirsOk(cut) && TableOf(m, cut) == TableOf(m, sh)
  {
    hide CellAt, Word, IsBuffer;
    var cut := sh.(chunks := sh.chunks[..k + 1]);
    forall r | 0 <= r < |sh.dirs|
      ensures RowSlot(cut, r) == RowSlot(sh, r)
    {
      SlotInChunk(cut, r);
    }
    forall r, c | 0 <= r < |cut.dirs| && 0 <= c < cut.cols && IsBuffer(m, SlotOf(cut, r, c))
      ensures BufferOk(m, cut, SlotOf(cut, r, c))
    {
      assert SlotOf(cut, r, c) == SlotOf(sh, r, c);
      assert BufferOk(m, sh, SlotOf(sh, r, c));
    }
    assert TableOf(m, cut) == TableOf(m, sh);
    ApartKept(m, m, sh, cut);
  }

  // ----- rows -----

  /** Changing the row count in the header. */
  lemma SetRowCount(m: Memory, sh: Shape, rows: nat, newRows: uint32)
    requires LayoutWith(m, sh, rows)
    ensures var m' := Put(m, NUM_ROWS, Encode32(newRows));
            LayoutWith(m', sh, newRows) && TableOf(m', sh) == TableOf(m, sh)
  {
    hide TableOf, CellAt;
    var m' := Put(m, NUM_ROWS, Encode32(newRows));
    PutWord(m, NUM_ROWS, newRows);
    HeaderFrame(m, m', NUM_ROWS, sh, rows);
    HeaderWords(m, m', NUM_ROWS);
  }

  /** Forgetting the last directory. */
  lemma DropLastDir(m: Memory, sh: Shape, rows: nat)
    requires LayoutWith(m, sh, rows) && |sh.dirs| > 0
    ensures var n := |sh.dirs| - 1;
            var fewer := sh.(dirs := sh.dirs[..n]);
            LayoutWith(m, fewer, rows) && TableOf(m, fewer) == TableOf(m, sh)[..n]
  {
    hide CellAt, Word, IsBuffer;
    var n := |sh.dirs| - 1;
    var fewer := sh.(dirs := sh.dirs[..n]);
    FewerBuffers(m, sh);
    assert forall r | 0 <= r < n :: RowSlot(fewer, r) == RowSlot(sh, r);
    assert TableOf(m, fewer) == TableOf(m, sh)[..n];
  }

  lemma FewerBuffers(m: Memory, sh: Shape)
    requires BuffersOk(m, sh) && |sh.dirs| > 0
    ensures BuffersOk(m, sh.(dirs := sh.dirs[..|sh.dirs| - 1]))
  {
    hide CellAt, Word, IsBuffer;
    var n := |sh.dirs| - 1;
    var fewer := sh.(dirs := sh.dirs[..n]);
    forall r, c | 0 <= r < |fewer.dirs| && 0 <= c < fewer.cols && IsBuffer(m, SlotOf(fewer, r, c))
      ensures BufferOk(m, fewer, SlotOf(fewer, r, c))
    {
      assert SlotOf(fewer, r, c) == SlotOf(sh, r, c);
      assert BufferOk(m, sh, SlotOf(sh, r, c));
    }
    ApartKept(m, m, sh, fewer);
  }

  lemma RowSlotsDiffer(sh: Shape, r: nat, q: nat)
    requires ChunksOk(sh) && r < q < ROW_SLOT_CHUNK_NUM_ROWS * |sh.chunks|
    ensures Disjoint(RowSlot(sh, r), 4, RowSlot(sh, q), 4)
  {
    SlotInChunk(sh, r);
    SlotInChunk(sh, q);
    assert r / ROW_SLOT_CHUNK_NUM_ROWS <= q / ROW_SLOT_CHUNK_NUM_ROWS;
  }

  /** Writing the slot of the row after the last leaves chain, slots and table alone. */
  lemma NewSlotWrite(m: Memory, m': Memory, sh: Shape, rows: nat)
    requires LayoutWith(m, sh, rows) && |sh.dirs| < ROW_SLOT_CHUNK_NUM_ROWS * |sh.chunks|
    requires SameOutside(m, m', RowSlot(sh, |sh.dirs|), 4)
    ensures LayoutWith(m', sh, rows) && TableOf(m', sh) == TableOf(m, sh)
    ensures forall o | Below(m, sh, o) :: Below(m', sh, o)
  {
    hide TableOf, CellAt;
    var q := |sh.dirs|;
    SlotInChunk(sh, q);
    var k := q / ROW_SLOT_CHUNK_NUM_ROWS;
    ChunkWrite(m, m', RowSlot(sh, q), 4, sh, rows, k);
    forall r | 0 <= r < q
      ensures Disjoint(RowSlot(sh, r), 4, RowSlot(sh, q), 4)
    {
      RowSlotsDiffer(sh, r, q);
    }
    SlotsFrame(m, m', RowSlot(sh, q), 4, sh);
    hide BuffersOk, DirsOk, SlotsOk;
    ChainFrame(m, m', RowSlot(sh, q), 4, sh);
  }

  /** A fresh, zeroed directory entered in the slot of the next row adds a row of nulls. */
  lemma AddDir(m: Memory, sh: Shape, d: uint32)
    requires LayoutWith(m, sh, |sh.dirs| + 1) && |sh.dirs| < ROW_SLOT_CHUNK_NUM_ROWS * |sh.chunks|
    requires Below(m, sh, d) && d % 4 == 0 && d + DirSize(sh) <= sh.free
    ensures var zeroed := Put(m, d, Zeros(DirSize(sh)));
            var m' := Put(zeroed, RowSlot(sh, |sh.dirs|), Encode32(d));
            var more := sh.(dirs := sh.dirs + [d]);
            Layout(m', more) && TableOf(m', more) == TableOf(m, sh) + [NullRow(sh.cols)]
  {
    hide TableOf, CellAt;
    var slot := RowSlot(sh, |sh.dirs|);
    var zeros: seq<uint8> := Zeros(DirSize(sh));
    var zeroed := Put(m, d, zeros);
    var m' := Put(zeroed, slot, Encode32(d));
    SlotInChunk(sh, |sh.dirs|);
    ChunkBelow(m, sh, d, |sh.dirs| / ROW_SLOT_CHUNK_NUM_ROWS);
    PutFacts(m, d, zeros);
    PutWord(zeroed, slot, d);
    hide Put, Word, Encode32;
    FreshWrite(m, zeroed, d, d, DirSize(sh), sh, |sh.dirs| + 1);
    NewSlotWrite(zeroed, m', sh, |sh.dirs| + 1);
    SlicePart(zeroed, d, zeros, m', slot);
    EnterDir(m', sh, d);
  }

  lemma SlicePart(m: Memory, d: nat, zeros: seq<uint8>, m': Memory, slot: nat)
    requires SameOutside(m, m', slot, 4) && slot + 4 <= d && d + |zeros| <= |m| && m[d..d + |zeros|] == zeros
    ensures m'[d..d + |zeros|] == zeros
  {
    SliceFrame(m, m', slot, 4, d, |zeros|);
  }

  lemma ZeroIsNull(m: Memory, d: nat, cols: nat, c: nat)
    requires d + cols * FIELD_SIZE <= |m| && c < cols
    requires m[d..d + cols * FIELD_SIZE] == Zeros(cols * FIELD_SIZE)
    ensures Word(m, d + c * FIELD_SIZE) == 0 && CellAt(m, d + c * FIELD_SIZE) == Null
  {
    var s := d + c * FIELD_SIZE;
    assert forall i | s <= i < s + 4 :: m[i] == m[d..d + cols * FIELD_SIZE][i - d];
  }

  lemma EnterDir(m: Memory, sh: Shape, d: nat)
    requires LayoutWith(m, sh, |sh.dirs| + 1) && |sh.dirs| < ROW_SLOT_CHUNK_NUM_ROWS * |sh.chunks|
    requires Below(m, sh, d) && d % 4 == 0 && d + DirSize(sh) <= sh.free
    requires Word(m, RowSlot(sh, |sh.dirs|)) == d && m[d..d + DirSize(sh)] == Zeros(DirSize(sh))
    ensures var more := sh.(dirs := sh.dirs + [d]);
            Layout(m, more) && TableOf(m, more) == TableOf(m, sh) + [NullRow(sh.cols)]
  {
    var more := sh.(dirs := sh.dirs + [d]);
    forall c | 0 <= c < sh.cols
      ensures Word(m, d + c * FIELD_SIZE) == 0 && CellAt(m, d + c * FIELD_SIZE) == Null
    {
      ZeroIsNull(m, d, sh.cols, c);
    }
    hide Word, CellAt, BufferOk, IsBuffer;
    MoreBuffers(m, sh, d);
    MoreTable(m, sh, d);
    MoreDirs(m, sh, d);
    assert ChainOk(m, more);
  }

  lemma MoreTable(m: Memory, sh: Shape, d: nat)
    requires forall c | 0 <= c < sh.cols :: CellAt(m, d + c * FIELD_SIZE) == Null
    ensures TableOf(m, sh.(dirs := sh.dirs + [d])) == TableOf(m, sh) + [NullRow(sh.cols)]
  {
    hide CellAt;
    var more := sh.(dirs := sh.dirs + [d]);
    assert RowOf(m, d, sh.cols) == NullRow(sh.cols);
    assert TableOf(m, more) == TableOf(m, sh) + [NullRow(sh.cols)];
  }

  lemma MoreDirs(m: Memory, sh: Shape, d: nat)
    requires DirsOk(sh) && SlotsOk(m, sh) && |sh.dirs| < ROW_SLOT_CHUNK_NUM_ROWS * |sh.chunks|
    requires Below(m, sh, d) && d % 4 == 0 && d + DirSize(sh) <= sh.free
    requires Word(m, RowSlot(sh, |sh.dirs|)) == d
    ensures DirsOk(sh.(dirs := sh.dirs + [d])) && SlotsOk(m, sh.(dirs := sh.dirs + [d]))
  {
    hide Word, IsBuffer;
    var more := sh.(dirs := sh.dirs + [d]);
    assert forall r | 0 <= r < |more.dirs| :: RowSlot(more, r) == RowSlot(sh, r);
  }

  lemma MoreBuffers(m: Memory, sh: Shape, d: nat)
    requires BuffersOk(m, sh) && Below(m, sh, d)
    requires forall c | 0 <= c < sh.cols :: Word(m, d + c * FIELD_SIZE) == 0
    ensures BuffersOk(m, sh.(dirs := sh.dirs + [d]))
  {
    hide Word, CellAt;
    var more := sh.(dirs := sh.dirs + [d]);
    forall c | 0 <= c < sh.cols
      ensures !IsBuffer(m, SlotOf(more, |sh.dirs|, c))
    {
      assert SlotOf(more, |sh.dirs|, c) == d + c * FIELD_SIZE;
    }
    forall r, c | 0 <= r < |more.dirs| && 0 <= c < more.cols && IsBuffer(m, SlotOf(more, r, c))
      ensures BufferOk(m, more, SlotOf(more, r, c))
    {
      assert r < |sh.dirs|;
      assert SlotOf(more, r, c) == SlotOf(sh, r, c);
      assert BufferOk(m, sh, SlotOf(sh, r, c));
    }
    MoreApart(m, sh, d);
  }

  lemma MoreApart(m: Memory, sh: Shape, d: nat)
    requires BuffersApart(m, sh)
    requires forall c | 0 <= c < sh.cols :: Word(m, d + c * FIELD_SIZE) == 0
    ensures BuffersApart(m, sh.(dirs := sh.dirs + [d]))
  {
    hide Word, CellAt, Disjoint;
    var more := sh.(dirs := sh.dirs + [d]);
    forall r, c, q, e | 0 <= r < |more.dirs| && 0 <= c < more.cols && 0 <= q < |more.dirs| && 0 <= e < more.cols
                        && (r != q || c != e)
      ensures Apart(m, SlotOf(more, r, c), SlotOf(more, q, e))
    {
      if r < |sh.dirs| && q < |sh.dirs| {
        assert SlotOf(more, r, c) == SlotOf(sh, r, c) && SlotOf(more, q, e) == SlotOf(sh, q, e);
        assert Apart(m, SlotOf(sh, r, c), SlotOf(sh, q, e));
      } else {
        assert SlotOf(more, |sh.dirs|, c) == d + c * FIELD_SIZE && SlotOf(more, |sh.dirs|, e) == d + e * FIELD_SIZE;
      }
    }
  }

  // ----- fields -----

  /** Eight bytes a field can hold: any number, or a reference to bytes above everything alive. */
  ghost predicate FieldOk(m: Memory, sh: Shape, kind: uint32, bytes: seq<uint8>)
    requires |bytes| == 8
  {
    kind == FIELD_TYPE_STRING || kind == FIELD_TYPE_BLOB ==>
      var o, n := Decode32(bytes[..4]), Decode32(bytes[4..]);
      Below(m, sh, o) && o + n <= sh.free
  }

  lemma FieldWords(m: Memory, s: nat, kind: uint32, bytes: seq<uint8>)
    requires |bytes| == 8 && s + FIELD_SIZE <= |m|
    ensures var m' := Put(m, s, Encode32(kind) + bytes);
            && SameOutside(m, m', s, FIELD_SIZE)
            && Word(m', s) == kind && Word(m', s + 4) == Decode32(bytes[..4]) && Word(m', s + 8) == Decode32(bytes[4..])
            && m'[s + 4..s + 12] == bytes
  {
    var m' := Put(m, s, Encode32(kind) + bytes);
    PutFacts(m, s, Encode32(kind) + bytes);
    assert m'[s..s + 4] == Encode32(kind);
    RoundTrip32(kind);
    assert m'[s + 4..s + 8] == bytes[..4] && m'[s + 8..s + 12] == bytes[4..];
  }

  lemma SlotsDisjoint(sh: Shape, r: nat, c: nat, q: nat, d: nat)
    requires DirsOk(sh) && r < |sh.dirs| && c < sh.cols && q < |sh.dirs| && d < sh.cols && (r != q || c != d)
    ensures Disjoint(SlotOf(sh, r, c), FIELD_SIZE, SlotOf(sh, q, d), FIELD_SIZE)
  {
    SlotInDir(sh, r, c);
    SlotInDir(sh, q, d);
  }

  /** Writing a field changes that cell of the table and no other. */
  lemma WriteField(m: Memory, sh: Shape, r: nat, c: nat, kind: uint32, bytes: seq<uint8>)
    requires Layout(m, sh) && r < |sh.dirs| && c < sh.cols && |bytes| == 8 && FieldOk(m, sh, kind, bytes)
    ensures SlotOf(sh, r, c) + FIELD_SIZE <= |m|
    ensures var m' := Put(m, SlotOf(sh, r, c), Encode32(kind) + bytes);
            && Layout(m', sh)
            && TableOf(m', sh) == TableOf(m, sh)[r := TableOf(m, sh)[r][c := CellAt(m', SlotOf(sh, r, c))]]
  {
    SlotInDir(sh, r, c);
    var s := SlotOf(sh, r, c);
    var m' := Put(m, s, Encode32(kind) + bytes);
    FieldWords(m, s, kind, bytes);
    hide CellAt, Put, Word, SameOutside, Encode32;
    FieldWriteFrame(m, m', sh, r, c);
    FieldBuffers(m, m', sh, r, c, kind, bytes);
    FieldTable(m, m', sh, r, c);
  }

  /** A write inside a directory leaves header, chain and row slots alone. */
  lemma FieldWriteFrame(m: Memory, m': Memory, sh: Shape, r: nat, c: nat)
    requires Layout(m, sh) && r < |sh.dirs| && c < sh.cols && SameOutside(m, m', SlotOf(sh, r, c), FIELD_SIZE)
    ensures HeaderOk(m', sh, |sh.dirs|) && ChainOk(m', sh) && SlotsOk(m', sh)
    ensures forall q, d | 0 <= q < |sh.dirs| && 0 <= d < sh.cols && (q != r || d != c) :: CellSame(m, m', SlotOf(sh, q, d))
  {
    hide CellAt;
    SlotInDir(sh, r, c);
    var s := SlotOf(sh, r, c);
    BodyWriteKeepsHeader(m, m', s, FIELD_SIZE, sh, |sh.dirs|);
    forall i | 0 <= i < |sh.chunks|
      ensures Disjoint(sh.chunks[i], CHUNK_SIZE, s, FIELD_SIZE)
    {
      assert Disjoint(sh.dirs[r], DirSize(sh), sh.chunks[i], CHUNK_SIZE);
    }
    ChainFrame(m, m', s, FIELD_SIZE, sh);
    forall q | 0 <= q < |sh.dirs|
      ensures Disjoint(RowSlot(sh, q), 4, s, FIELD_SIZE)
    {
      SlotInChunk(sh, q);
      assert Disjoint(sh.chunks[q / ROW_SLOT_CHUNK_NUM_ROWS], CHUNK_SIZE, s, FIELD_SIZE);
    }
    SlotsFrame(m, m', s, FIELD_SIZE, sh);
    forall q, d | 0 <= q < |sh.dirs| && 0 <= d < sh.cols && (q != r || d != c)
      ensures CellSame(m, m', SlotOf(sh, q, d))
    {
      OtherField(m, m', sh, r, c, q, d);
    }
  }

  lemma OtherField(m: Memory, m': Memory, sh: Shape, r: nat, c: nat, q: nat, d: nat)
    requires DirsOk(sh) && BuffersOk(m, sh) && r < |sh.dirs| && c < sh.cols && q < |sh.dirs| && d < sh.cols
    requires SameOutside(m, m', SlotOf(sh, r, c), FIELD_SIZE) && (q != r || d != c)
    ensures CellSame(m, m', SlotOf(sh, q, d))
  {
    SlotsDisjoint(sh, r, c, q, d);
    SlotInDir(sh, r, c);
    if IsBuffer(m, SlotOf(sh, q, d)) {
      assert Disjoint(Word(m, SlotOf(sh, q, d) + 4), Word(m, SlotOf(sh, q, d) + 8), sh.dirs[r], DirSize(sh));
    }
    CellFrame(m, m', SlotOf(sh, r, c), FIELD_SIZE, SlotOf(sh, q, d));
  }

  lemma FieldBuffers(m: Memory, m': Memory, sh: Shape, r: nat, c: nat, kind: uint32, bytes: seq<uint8>)
    requires BuffersOk(m, sh) && r < |sh.dirs| && c < sh.cols && |bytes| == 8 && FieldOk(m, sh, kind, bytes)
    requires forall q, d | 0 <= q < |sh.dirs| && 0 <= d < sh.cols && (q != r || d != c) :: CellSame(m, m', SlotOf(sh, q, d))
    requires var s := SlotOf(sh, r, c);
             Word(m', s) == kind && Word(m', s + 4) == Decode32(bytes[..4]) && Word(m', s + 8) == Decode32(bytes[4..])
    ensures BuffersOk(m', sh)
  {
    hide CellAt, Word, Decode32;
    forall q, d | 0 <= q < |sh.dirs| && 0 <= d < sh.cols && IsBuffer(m', SlotOf(sh, q, d))
      ensures BufferOk(m', sh, SlotOf(sh, q, d))
    {
      if q != r || d != c {
        assert CellSame(m, m', SlotOf(sh, q, d));
        assert BufferOk(m, sh, SlotOf(sh, q, d));
        BufferSame(m, m', sh, SlotOf(sh, q, d));
      }
    }
    FieldApart(m, m', sh, r, c, kind, bytes);
  }

  lemma FieldApart(m: Memory, m': Memory, sh: Shape, r: nat, c: nat, kind: uint32, bytes: seq<uint8>)
    requires BuffersApart(m, sh) && r < |sh.dirs| && c < sh.cols && |bytes| == 8 && FieldOk(m, sh, kind, bytes)
    requires forall q, d | 0 <= q < |sh.dirs| && 0 <= d < sh.cols && (q != r || d != c) :: CellSame(m, m', SlotOf(sh, q, d))
    requires var s := SlotOf(sh, r, c);
             Word(m', s) == kind && Word(m', s + 4) == Decode32(bytes[..4]) && Word(m', s + 8) == Decode32(bytes[4..])
    ensures BuffersApart(m', sh)
  {
    hide CellAt, Word, Decode32;
    forall p, b, q, d | 0 <= p < |sh.dirs| && 0 <= b < sh.cols && 0 <= q < |sh.dirs| && 0 <= d < sh.cols
                        && (p != q || b != d)
      ensures Apart(m', SlotOf(sh, p, b), SlotOf(sh, q, d))
    {
      assert Apart(m, SlotOf(sh, p, b), SlotOf(sh, q, d));
      if p != r || b != c {
        assert CellSame(m, m', SlotOf(sh, p, b));
      }
      if q != r || d != c {
        assert CellSame(m, m', SlotOf(sh, q, d));
      }
    }
  }

  lemma FieldTable(m: Memory, m': Memory, sh: Shape, r: nat, c: nat)
    requires r < |sh.dirs| && c < sh.cols
    requires forall q, d | 0 <= q < |sh.dirs| && 0 <= d < sh.cols && (q != r || d != c) :: CellSame(m, m', SlotOf(sh, q, d))
    ensures TableOf(m', sh) == TableOf(m, sh)[r := TableOf(m, sh)[r][c := CellAt(m', SlotOf(sh, r, c))]]
  {
    hide CellAt, Word;
    var row := RowOf(m, sh.dirs[r], sh.cols)[c := CellAt(m', SlotOf(sh, r, c))];
    forall q | 0 <= q < |sh.dirs|
      ensures RowOf(m', sh.dirs[q], sh.cols) == if q == r then row else RowOf(m, sh.dirs[q], sh.cols)
    {
      forall d | 0 <= d < sh.cols && (q != r || d != c)
        ensures CellAt(m', sh.dirs[q] + d * FIELD_SIZE) == CellAt(m, sh.dirs[q] + d * FIELD_SIZE)
      {
        assert CellSame(m, m', SlotOf(sh, q, d));
      }
    }
  }

  // ----- clearing and columns -----

  /** The buffer after clear: only the header and one empty chunk matter. */
  lemma ClearedLayout(m: Memory)
    requires HEADER_SIZE + CHUNK_SIZE <= |m|
    requires Word(m, FREE_OFFSET) == HEADER_SIZE + CHUNK_SIZE && Word(m, FIRST_CHUNK) == HEADER_SIZE
    requires Word(m, NUM_ROWS) == 0 && Word(m, NUM_COLUMNS) == 0 && Word(m, HEADER_SIZE + NEXT_CHUNK) == 0
    ensures Layout(m, EMPTY_SHAPE) && TableOf(m, EMPTY_SHAPE) == []
  {
    hide Word, CellAt;
  }

  const EMPTY_SHAPE := Shape(HEADER_SIZE + CHUNK_SIZE, 0, [HEADER_SIZE], [])

  /** Setting the number of columns is harmless while there are no rows, or when it does not change. */
  lemma SetColumns(m: Memory, sh: Shape, cols: uint32)
    requires Layout(m, sh) && (|sh.dirs| == 0 || cols == sh.cols)
    ensures var m' := Put(m, NUM_COLUMNS, Encode32(cols));
            Layout(m', sh.(cols := cols)) && TableOf(m', sh.(cols := cols)) == TableOf(m, sh)
  {
    var m' := Put(m, NUM_COLUMNS, Encode32(cols));
    PutWord(m, NUM_COLUMNS, cols);
    HeaderFrame(m, m', NUM_COLUMNS, sh, |sh.dirs|);
    HeaderWords(m, m', NUM_COLUMNS);
    hide CellAt, Word, Put, Encode32;
    if |sh.dirs| == 0 {
      var wide := sh.(cols := cols);
      assert HeaderOk(m', wide, 0) && ChunksOk(wide) && ChainOk(m', wide);
      assert DirsOk(wide) && SlotsOk(m', wide) && BuffersOk(m', wide);
      assert TableOf(m, sh) == [] && TableOf(m', wide) == [];
    } else {
      assert HeaderOk(m', sh, |sh.dirs|);
      assert sh.(cols := cols) == sh;
    }
  }

  /** The chunks fill the space below the free offset, so there cannot be 2^32 row slots. */
  lemma {:induction false} ChunksFill(sh: Shape, k: nat)
    requires ChunksOk(sh) && k < |sh.chunks|
    ensures HEADER_SIZE + CHUNK_SIZE * k <= sh.chunks[k]
  {
    if k > 0 {
      ChunksFill(sh, k - 1);
    }
  }

  // ----- where the allocator puts things -----

  /** The next offset divisible by four. */
  function Aligned(o: nat): (a: nat)
    ensures a % 4 == 0 && o <= a < o + 4
  {
    o + (4 - o % 4) % 4
  }

  /** The first free byte after allocRow, if there is room: a chunk when every row slot is taken, and a
    * directory. */
  function AfterRow(sh: Shape): nat {
    var base := if |sh.dirs| == ROW_SLOT_CHUNK_NUM_ROWS * |sh.chunks| then Aligned(sh.free) + CHUNK_SIZE else sh.free;
    Aligned(base) + DirSize(sh)
  }
}
