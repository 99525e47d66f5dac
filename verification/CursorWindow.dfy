/** libs/androidfw/CursorWindow.cpp: the window as an object over its shared buffer.  Every method keeps
  * the layout of CursorMemory and is specified by what it does to the table of cells.
  */
module CursorWindows {
  import opened Common
  import opened LittleEndian
  import opened CursorMemory

  datatype Status = Ok | InvalidOperation | NoMemory | BadValue

  class CursorWindow {
    const data: array<uint8>
    const readOnly: bool
    /** Where things are in the buffer; known to the proof only. */
    ghost var shape: Shape

    ghost predicate Valid()
      reads this, data
    {
      data.Length < 0x1_0000_0000 && Layout(data[..], shape)
    }

    /** The rows of cells the window stands for. */
    ghost function Table(): seq<seq<Cell>>
      reads this, data
    {
      TableOf(data[..], shape)
    }

    ghost function Columns(): nat
      reads this
    {
      shape.cols
    }

    /** A new window over zeroed or any other memory big enough for a header and a chunk. */
    constructor Create(size: nat)
      requires HEADER_SIZE + CHUNK_SIZE <= size < 0x1_0000_0000
      ensures Valid() && fresh(data) && data.Length == size && !readOnly
      ensures Table() == [] && Columns() == 0
    {
      data := new uint8[size];
      readOnly := false;
      shape := EMPTY_SHAPE;
      new;
      var _ := Clear();
    }

    /** A reader's window: the same bytes mapped read-only. */
    constructor CreateFromParcel(shared: array<uint8>, ghost sh: Shape)
      requires shared.Length < 0x1_0000_0000 && Layout(shared[..], sh)
      ensures Valid() && data == shared && readOnly
      ensures Table() == TableOf(shared[..], sh) && Columns() == sh.cols
    {
      data := shared;
      readOnly := true;
      shape := sh;
    }

    // ----- raw access -----

    method ReadWord(o: nat) returns (v: uint32)
      requires o + 4 <= data.Length
      ensures v == Word(data[..], o)
    {
      v := Decode32(data[o..o + 4]);
    }

    method WriteBytes(o: nat, bytes: seq<uint8>)
      requires o + |bytes| <= data.Length
      modifies data
      ensures data[..] == Put(old(data[..]), o, bytes)
    {
      for i := 0 to |bytes|
        invariant data[..] == Put(old(data[..]), o, bytes[..i])
      {
        assert bytes[..i + 1] == bytes[..i] + [bytes[i]];
        data[o + i] := bytes[i];
      }
      assert bytes[..|bytes|] == bytes;
    }

    // ----- the public operations -----

    method Clear() returns (status: Status)
      requires HEADER_SIZE + CHUNK_SIZE <= data.Length < 0x1_0000_0000
      modifies this, data
      ensures status == if readOnly then InvalidOperation else Ok
      ensures readOnly ==> data[..] == old(data[..]) && shape == old(shape)
      ensures !readOnly ==> Valid() && Table() == [] && Columns() == 0 && shape == EMPTY_SHAPE
    {
      if readOnly {
        return InvalidOperation;
      }
      WriteHeader(HEADER_SIZE + CHUNK_SIZE, HEADER_SIZE, 0, 0);
      ghost var m := data[..];
      WriteBytes(HEADER_SIZE + NEXT_CHUNK, Encode32(0));
      shape := EMPTY_SHAPE;
      PutWord(m, HEADER_SIZE + NEXT_CHUNK, 0);
      ghost var lo := HEADER_SIZE + NEXT_CHUNK;
      WordFrame(m, data[..], lo, 4, FREE_OFFSET);
      WordFrame(m, data[..], lo, 4, FIRST_CHUNK);
      WordFrame(m, data[..], lo, 4, NUM_ROWS);
      WordFrame(m, data[..], lo, 4, NUM_COLUMNS);
      ClearedLayout(data[..]);
      return Ok;
    }

    method WriteHeader(free: uint32, first: uint32, rows: uint32, cols: uint32)
      requires HEADER_SIZE <= data.Length
      modifies data
      ensures SameOutside(old(data[..]), data[..], 0, HEADER_SIZE)
      ensures Word(data[..], FREE_OFFSET) == free && Word(data[..], FIRST_CHUNK) == first
      ensures Word(data[..], NUM_ROWS) == rows && Word(data[..], NUM_COLUMNS) == cols
    {
      hide Word, Encode32, Put;
      ghost var m0 := data[..];
      WriteBytes(FREE_OFFSET, Encode32(free));
      ghost var m1 := data[..];
      PutWord(m0, FREE_OFFSET, free);
      WriteBytes(FIRST_CHUNK, Encode32(first));
      ghost var m2 := data[..];
      PutWord(m1, FIRST_CHUNK, first);
      WriteBytes(NUM_ROWS, Encode32(rows));
      ghost var m3 := data[..];
      PutWord(m2, NUM_ROWS, rows);
      WriteBytes(NUM_COLUMNS, Encode32(cols));
      ghost var m4 := data[..];
      PutWord(m3, NUM_COLUMNS, cols);
      WordFrame(m1, m2, FIRST_CHUNK, 4, FREE_OFFSET);
      WordFrame(m2, m3, NUM_ROWS, 4, FREE_OFFSET);
      WordFrame(m2, m3, NUM_ROWS, 4, FIRST_CHUNK);
      WordFrame(m3, m4, NUM_COLUMNS, 4, FREE_OFFSET);
      WordFrame(m3, m4, NUM_COLUMNS, 4, FIRST_CHUNK);
      WordFrame(m3, m4, NUM_COLUMNS, 4, NUM_ROWS);
    }

    /** The number of columns can be set only while the window is empty of both rows and columns. */
    method SetNumColumns(numColumns: uint32) returns (status: Status)
      requires Valid()
      modifies this`shape, data
      ensures Valid() && Table() == old(Table())
      ensures status == if readOnly || ((old(Columns()) > 0 || |old(Table())| > 0) && old(Columns()) != numColumns)
                        then InvalidOperation else Ok
      ensures Columns() == if status == Ok then numColumns else old(Columns())
      ensures shape.free == old(shape.free)
    {
      hide Layout, TableOf, Put, Encode32, Word;
      if readOnly {
        return InvalidOperation;
      }
      Facts();
      var cur := ReadWord(NUM_COLUMNS);
      var rows := ReadWord(NUM_ROWS);
      if (cur > 0 || rows > 0) && cur != numColumns {
        return InvalidOperation;
      }
      ghost var m := data[..];
      WriteBytes(NUM_COLUMNS, Encode32(numColumns));
      SetColumns(m, shape, numColumns);
      shape := shape.(cols := numColumns);
      return Ok;
    }

    /** What the header says. */
    lemma Facts()
      requires Valid()
      ensures HEADER_SIZE + CHUNK_SIZE <= shape.free <= data.Length && |shape.chunks| > 0
      ensures Word(data[..], FREE_OFFSET) == shape.free && Word(data[..], FIRST_CHUNK) == HEADER_SIZE == shape.chunks[0]
      ensures Word(data[..], NUM_ROWS) == |shape.dirs| == |Table()| && Word(data[..], NUM_COLUMNS) == shape.cols
      ensures |shape.dirs| <= ROW_SLOT_CHUNK_NUM_ROWS * |shape.chunks|
    {
    }

    /** A row of nulls is appended, or the table stays as it was; the call succeeds exactly when the row's
      * slot and directory fit.  (Space may have been used up by a failed call.) */
    method AllocRow() returns (status: Status)
      requires Valid() && NoWrap(DirSize(shape) + CHUNK_SIZE + 3)
      modifies this`shape, data
      ensures Valid() && Columns() == old(Columns())
      ensures status == if readOnly then InvalidOperation else if old(AfterRow(shape)) <= data.Length then Ok else NoMemory
      ensures Table() == if status == Ok then old(Table()) + [NullRow(Columns())] else old(Table())
      ensures shape.free <= old(shape.free) + DirSize(old(shape)) + CHUNK_SIZE + 6
    {
      if readOnly {
        return InvalidOperation;
      }
      hide LayoutWith, TableOf;
      var rowSlot := AllocRowSlot();
      if rowSlot == 0 {
        return NoMemory;
      }
      status := AllocDirectory(rowSlot);
    }

    /** The second half of allocRow: a zeroed directory entered in the slot already counted, or the count
      * backed out. */
    method AllocDirectory(rowSlot: nat) returns (status: Status)
      requires data.Length < 0x1_0000_0000 && !readOnly && NoWrap(DirSize(shape))
      requires LayoutWith(data[..], shape, |shape.dirs| + 1) && |shape.dirs| < ROW_SLOT_CHUNK_NUM_ROWS * |shape.chunks|
      requires rowSlot == RowSlot(shape, |shape.dirs|)
      modifies this`shape, data
      ensures Valid() && Columns() == old(Columns())
      ensures status == if Aligned(old(shape.free)) + DirSize(old(shape)) <= data.Length then Ok else NoMemory
      ensures Table() == if status == Ok then old(Table()) + [NullRow(Columns())] else old(Table())
      ensures shape.free == if status == Ok then Aligned(old(shape.free)) + DirSize(old(shape)) else old(shape.free)
    {
      hide LayoutWith, TableOf, Put, Encode32, Word, Below, SameOutside, Aligned;
      ghost var rows := |shape.dirs|;
      WithFacts(data[..], shape, rows + 1);
      var cols := ReadWord(NUM_COLUMNS);
      var fieldDirSize := cols * FIELD_SIZE;
      var fieldDirOffset := Alloc(fieldDirSize, true, rows + 1);
      WithFacts(data[..], shape, rows + 1);
      ghost var m := data[..];
      if fieldDirOffset == 0 {
        var numRows := ReadWord(NUM_ROWS);
        WriteBytes(NUM_ROWS, Encode32(numRows - 1));
        SetRowCount(m, shape, rows + 1, rows);
        return NoMemory;
      }
      AddDir(m, shape, fieldDirOffset);
      WriteBytes(fieldDirOffset, Zeros(fieldDirSize));
      WriteBytes(rowSlot, Encode32(fieldDirOffset));
      shape := shape.(dirs := shape.dirs + [fieldDirOffset]);
      return Ok;
    }

    /** The arithmetic of alloc is 32 bits wide; callers keep requests below the point where it wraps. */
    ghost predicate NoWrap(size: nat)
      reads this
    {
      shape.free + 3 + size < 0x1_0000_0000
    }

    lemma WithFacts(m: Memory, sh: Shape, rows: nat)
      requires LayoutWith(m, sh, rows)
      ensures HEADER_SIZE + CHUNK_SIZE <= sh.free <= |m| && |sh.chunks| > 0
      ensures Word(m, FREE_OFFSET) == sh.free && Word(m, FIRST_CHUNK) == HEADER_SIZE == sh.chunks[0]
      ensures Word(m, NUM_ROWS) == rows && Word(m, NUM_COLUMNS) == sh.cols
      ensures |sh.dirs| < ROW_SLOT_CHUNK_NUM_ROWS * |sh.chunks| ==> RowSlot(sh, |sh.dirs|) + 4 <= |m|
      ensures forall i | 0 <= i < |sh.chunks| :: HEADER_SIZE <= sh.chunks[i] && sh.chunks[i] + CHUNK_SIZE <= |m|
      ensures forall i | 0 <= i < |sh.chunks| ::
                Word(m, sh.chunks[i] + NEXT_CHUNK) == if i + 1 < |sh.chunks| then sh.chunks[i + 1] else 0
      ensures Below(m, sh, sh.free)
    {
      if |sh.dirs| < ROW_SLOT_CHUNK_NUM_ROWS * |sh.chunks| {
        SlotInChunk(sh, |sh.dirs|);
      }
    }

    /** The last row goes; its space is not given back. */
    method FreeLastRow() returns (status: Status)
      requires Valid()
      modifies this`shape, data
      ensures Valid() && Columns() == old(Columns())
      ensures status == if readOnly then InvalidOperation else Ok
      ensures Table() == if status == Ok && |old(Table())| > 0 then old(Table())[..|old(Table())| - 1] else old(Table())
      ensures shape.free == old(shape.free)
    {
      hide LayoutWith, TableOf, Put, Encode32, Word;
      if readOnly {
        return InvalidOperation;
      }
      WithFacts(data[..], shape, |shape.dirs|);
      TableSize(data[..], shape);
      var numRows := ReadWord(NUM_ROWS);
      if numRows > 0 {
        ghost var m := data[..];
        WriteBytes(NUM_ROWS, Encode32(numRows - 1));
        SetRowCount(m, shape, |shape.dirs|, |shape.dirs| - 1);
        DropLastDir(data[..], shape, |shape.dirs| - 1);
        shape := shape.(dirs := shape.dirs[..|shape.dirs| - 1]);
      }
      return Ok;
    }

    lemma TableSize(m: Memory, sh: Shape)
      ensures |TableOf(m, sh)| == |sh.dirs| && forall r | 0 <= r < |sh.dirs| :: |TableOf(m, sh)[r]| == sh.cols
    {
    }

    // ----- the allocator -----

    /** Hands out size bytes at the (aligned) free offset, or 0 when the window is full. */
    method Alloc(size: nat, aligned: bool, ghost rows: nat) returns (offset: uint32)
      requires !readOnly && data.Length < 0x1_0000_0000 && LayoutWith(data[..], shape, rows) && NoWrap(size)
      modifies this`shape, data
      ensures LayoutWith(data[..], shape, rows) && Table() == old(Table())
      ensures var at := old(if aligned then Aligned(shape.free) else shape.free);
              if at + size > data.Length then offset == 0 && shape == old(shape)
              else offset == at && shape == old(shape).(free := at + size) && Below(data[..], shape, at)
    {
      hide LayoutWith, TableOf, Put, Encode32, Word, Below;
      WithFacts(data[..], shape, rows);
      var free := ReadWord(FREE_OFFSET);
      var padding := if aligned then (4 - free % 4) % 4 else 0;
      offset := free + padding;
      var nextFreeOffset := offset + size;
      if nextFreeOffset > data.Length {
        return 0;
      }
      ghost var m := data[..];
      WriteBytes(FREE_OFFSET, Encode32(nextFreeOffset));
      AllocKeeps(m, shape, rows, nextFreeOffset);
      shape := shape.(free := nextFreeOffset);
      BelowMore(data[..], shape, old(shape.free), offset);
    }

    lemma BelowMore(m: Memory, sh: Shape, o: nat, p: nat)
      requires Below(m, sh, o) && o <= p
      ensures Below(m, sh, p)
    {
    }

    /** Counts a new row and finds its slot, entering the next chunk of the chain - which it allocates if
      * there is none, and whose link it clears in any case - when the last row filled its chunk. */
    method AllocRowSlot() returns (slot: nat)
      requires Valid() && !readOnly && NoWrap(CHUNK_SIZE)
      modifies this`shape, data
      ensures Table() == old(Table()) && shape.dirs == old(shape.dirs) && shape.cols == old(shape.cols)
      ensures var full := old(|shape.dirs| == ROW_SLOT_CHUNK_NUM_ROWS * |shape.chunks|);
              if full && Aligned(old(shape.free)) + CHUNK_SIZE > data.Length then slot == 0 && Valid() && shape.free == old(shape.free)
              else
                && LayoutWith(data[..], shape, |shape.dirs| + 1)
                && |shape.dirs| < ROW_SLOT_CHUNK_NUM_ROWS * |shape.chunks|
                && slot == RowSlot(shape, |shape.dirs|) >= HEADER_SIZE
                && shape.free == old(if full then Aligned(shape.free) + CHUNK_SIZE else shape.free)
    {
      hide LayoutWith, TableOf, Put, Encode32, Word, Below;
      ghost var rows, m0 := |shape.dirs|, data[..];
      WithFacts(m0, shape, rows);
      RowsBound(m0, shape, rows);
      var chunkPos := ReadWord(NUM_ROWS);
      var chunk := ReadWord(FIRST_CHUNK);
      ghost var k := 0;
      while chunkPos > ROW_SLOT_CHUNK_NUM_ROWS
        modifies {}
        invariant data[..] == m0
        invariant 0 <= k < |shape.chunks| && chunk == shape.chunks[k] && chunkPos == rows - ROW_SLOT_CHUNK_NUM_ROWS * k
        invariant k > 0 ==> chunkPos > 0
      {
        chunk := ReadWord(chunk + NEXT_CHUNK);
        chunkPos := chunkPos - ROW_SLOT_CHUNK_NUM_ROWS;
        k := k + 1;
      }
      if chunkPos == ROW_SLOT_CHUNK_NUM_ROWS {
        chunk := EnterNextChunk(chunk, k);
        if chunk == 0 {
          return 0;
        }
        chunkPos := 0;
        k := k + 1;
      }
      WithFacts(data[..], shape, rows);
      var numRows := ReadWord(NUM_ROWS);
      ghost var m := data[..];
      WriteBytes(NUM_ROWS, Encode32(numRows + 1));
      SetRowCount(m, shape, rows, rows + 1);
      slot := chunk + 4 * chunkPos;
      Position(rows, k, chunkPos);
    }

    lemma Position(rows: nat, k: nat, pos: nat)
      requires rows == ROW_SLOT_CHUNK_NUM_ROWS * k + pos && pos < ROW_SLOT_CHUNK_NUM_ROWS
      ensures rows / ROW_SLOT_CHUNK_NUM_ROWS == k && rows % ROW_SLOT_CHUNK_NUM_ROWS == pos
    {
    }

    /** There is always room to count one more row in 32 bits. */
    lemma RowsBound(m: Memory, sh: Shape, rows: nat)
      requires LayoutWith(m, sh, rows) && |m| < 0x1_0000_0000
      ensures |sh.dirs| <= ROW_SLOT_CHUNK_NUM_ROWS * |sh.chunks|
      ensures |sh.dirs| + 1 < 0x1_0000_0000
    {
      ChunksFill(sh, |sh.chunks| - 1);
    }

    method EnterNextChunk(chunk: uint32, ghost k: nat) returns (next: uint32)
      requires Valid() && !readOnly && NoWrap(CHUNK_SIZE)
      requires k < |shape.chunks| && chunk == shape.chunks[k] && |shape.dirs| == ROW_SLOT_CHUNK_NUM_ROWS * (k + 1)
      modifies this`shape, data
      ensures Valid() && Table() == old(Table()) && shape.dirs == old(shape.dirs) && shape.cols == old(shape.cols)
      ensures var full := k + 1 == old(|shape.chunks|);
              if full && Aligned(old(shape.free)) + CHUNK_SIZE > data.Length then next == 0 && shape.free == old(shape.free)
              else
                && |shape.chunks| == k + 2 && next == shape.chunks[k + 1] > 0
                && shape.free == old(if full then Aligned(shape.free) + CHUNK_SIZE else shape.free)
    {
      hide LayoutWith, TableOf, Put, Encode32, Word, Below;
      ghost var rows := |shape.dirs|;
      WithFacts(data[..], shape, rows);
      next := ReadWord(chunk + NEXT_CHUNK);
      if next == 0 {
        next := Alloc(CHUNK_SIZE, true, rows);
        ghost var m := data[..];
        ghost var sh := shape;
        WithFacts(m, sh, rows);
        WriteBytes(chunk + NEXT_CHUNK, Encode32(next));
        if next == 0 {
          CutChain(m, sh, rows, k);
          assert sh.(chunks := sh.chunks[..k + 1]) == sh;
          return;
        }
        ghost var linked := data[..];
        AppendChunk(m, sh, rows, next);
        WriteBytes(next + NEXT_CHUNK, Encode32(0));
        shape := sh.(chunks := sh.chunks + [next]);
      } else {
        ghost var m := data[..];
        WriteBytes(next + NEXT_CHUNK, Encode32(0));
        CutChain(m, shape, rows, k + 1);
        shape := shape.(chunks := shape.chunks[..k + 2]);
      }
    }

    // ----- fields -----

    /** Where the row slot of an existing row is. */
    method GetRowSlot(row: nat) returns (slot: nat)
      requires Valid() && row < |shape.dirs|
      ensures |shape.dirs| <= ROW_SLOT_CHUNK_NUM_ROWS * |shape.chunks|
      ensures slot == RowSlot(shape, row)
    {
      hide LayoutWith, Word, Below;
      WithFacts(data[..], shape, |shape.dirs|);
      RowsBound(data[..], shape, |shape.dirs|);
      var chunkPos := row;
      var chunk := ReadWord(FIRST_CHUNK);
      ghost var k := 0;
      while chunkPos >= ROW_SLOT_CHUNK_NUM_ROWS
        invariant 0 <= k < |shape.chunks| && chunk == shape.chunks[k] && chunkPos == row - ROW_SLOT_CHUNK_NUM_ROWS * k >= 0
      {
        chunk := ReadWord(chunk + NEXT_CHUNK);
        chunkPos := chunkPos - ROW_SLOT_CHUNK_NUM_ROWS;
        k := k + 1;
      }
      slot := chunk + 4 * chunkPos;
      Position(row, k, chunkPos);
    }

    /** The slot of a field, or nothing when the row or column does not exist. */
    method GetFieldSlot(row: nat, column: nat) returns (slot: Option<nat>)
      requires Valid()
      ensures slot == if row >= |Table()| || column >= Columns() then None else Some(SlotOf(shape, row, column))
      ensures slot.Some? ==> slot.value + FIELD_SIZE <= data.Length
    {
      Facts();
      var rows := ReadWord(NUM_ROWS);
      var columns := ReadWord(NUM_COLUMNS);
      if row >= rows || column >= columns {
        return None;
      }
      var rowSlot := GetRowSlot(row);
      SlotInChunk(shape, row);
      SlotInDir(shape, row, column);
      var fieldDir := ReadWord(rowSlot);
      return Some(fieldDir + column * FIELD_SIZE);
    }

    /** The cell at a position, read back through the slot's type and value. */
    method GetField(row: nat, column: nat) returns (cell: Option<Cell>)
      requires Valid()
      ensures cell == if row >= |Table()| || column >= Columns() then None else Some(Table()[row][column])
    {
      hide LayoutWith, Word;
      var slot := GetFieldSlot(row, column);
      if slot.None? {
        return None;
      }
      return Some(CellAt(data[..], slot.value));
    }

    method PutBlobOrString(row: nat, column: nat, value: seq<uint8>, asString: bool) returns (status: Status)
      requires Valid() && NoWrap(|value|)
      modifies this`shape, data
      ensures Valid() && Columns() == old(Columns())
      ensures status == if readOnly then InvalidOperation
                        else if row >= |old(Table())| || column >= Columns() then BadValue
                        else if old(shape.free) + |value| > data.Length then NoMemory else Ok
      ensures Table() == if status == Ok then Replaced(old(Table()), row, column, if asString then String(value) else Blob(value))
                         else old(Table())
      ensures shape.free == old(shape.free) + if status == Ok then |value| else 0
    {
      hide LayoutWith, TableOf, Put, Encode32, Word, Below, CellAt, SameOutside;
      if readOnly {
        return InvalidOperation;
      }
      var slot := GetFieldSlot(row, column);
      TableSize(data[..], shape);
      if slot.None? {
        return BadValue;
      }
      WithFacts(data[..], shape, |shape.dirs|);
      var offset := Alloc(|value|, false, |shape.dirs|);
      if offset == 0 {
        return NoMemory;
      }
      ghost var m := data[..];
      WithFacts(m, shape, |shape.dirs|);
      PutFacts(m, offset, value);
      WriteBytes(offset, value);
      ghost var filled := data[..];
      FreshWrite(m, filled, offset, offset, |value|, shape, |shape.dirs|);
      var kind := if asString then FIELD_TYPE_STRING else FIELD_TYPE_BLOB;
      WriteReference(row, column, slot.value, kind, offset, |value|);
      ReferenceReads(filled, shape, row, column, kind, offset, value);
      return Ok;
    }

    /** Points a field at bytes just written. */
    method WriteReference(ghost row: nat, ghost column: nat, slot: nat, kind: uint32, offset: uint32, size: uint32)
      requires Valid() && row < |shape.dirs| && column < shape.cols && slot == SlotOf(shape, row, column)
      requires slot + FIELD_SIZE <= data.Length
      requires Below(data[..], shape, offset) && offset + size <= shape.free
      modifies data
      ensures Valid() && data[..] == Put(old(data[..]), slot, Encode32(kind) + (Encode32(offset) + Encode32(size)))
      ensures Table() == Replaced(old(Table()), row, column, CellAt(data[..], slot))
    {
      hide LayoutWith, TableOf, Put, Encode32, Word, Below, CellAt, SameOutside, Decode32;
      ghost var m := data[..];
      TableSize(m, shape);
      var reference := Encode32(offset) + Encode32(size);
      assert reference[..4] == Encode32(offset) && reference[4..] == Encode32(size);
      RoundTrip32(offset);
      RoundTrip32(size);
      WriteBytes(slot, Encode32(kind) + reference);
      WriteField(m, shape, row, column, kind, reference);
    }

    /** A field pointing at bytes above everything alive reads back as those bytes. */
    lemma ReferenceReads(m: Memory, sh: Shape, r: nat, c: nat, kind: uint32, offset: uint32, value: seq<uint8>)
      requires r < |sh.dirs| && c < sh.cols && Below(m, sh, offset) && |value| < 0x1_0000_0000
      requires offset + |value| <= |m| && m[offset..offset + |value|] == value
      requires kind == FIELD_TYPE_STRING || kind == FIELD_TYPE_BLOB
      ensures SlotOf(sh, r, c) + FIELD_SIZE <= |m|
      ensures CellAt(Put(m, SlotOf(sh, r, c), Encode32(kind) + (Encode32(offset) + Encode32(|value|))), SlotOf(sh, r, c))
           == if kind == FIELD_TYPE_STRING then String(value) else Blob(value)
    {
      SlotInDir(sh, r, c);
      assert sh.dirs[r] + DirSize(sh) <= offset;
      hide CellAt, Put, Encode32, Below;
      ReferenceAt(m, SlotOf(sh, r, c), kind, offset, value);
    }

    lemma ReferenceAt(m: Memory, s: nat, kind: uint32, offset: uint32, value: seq<uint8>)
      requires s + FIELD_SIZE <= offset && |value| < 0x1_0000_0000
      requires offset + |value| <= |m| && m[offset..offset + |value|] == value
      requires kind == FIELD_TYPE_STRING || kind == FIELD_TYPE_BLOB
      ensures CellAt(Put(m, s, Encode32(kind) + (Encode32(offset) + Encode32(|value|))), s)
           == if kind == FIELD_TYPE_STRING then String(value) else Blob(value)
    {
      hide Encode32, Decode32, Put;
      var reference := Encode32(offset) + Encode32(|value|);
      assert reference[..4] == Encode32(offset) && reference[4..] == Encode32(|value|);
      RoundTrip32(offset);
      RoundTrip32(|value|);
      FieldWords(m, s, kind, reference);
      SliceFrame(m, Put(m, s, Encode32(kind) + reference), s, FIELD_SIZE, offset, |value|);
    }

    /** putLong, putDouble and putNull: eight bytes of data under a type. */
    method PutPlain(row: nat, column: nat, cell: Cell) returns (status: Status)
      requires Valid() && (cell.Null? || cell.Integer? || cell.Float?)
      modifies data
      ensures Valid() && Columns() == old(Columns())
      ensures status == if readOnly then InvalidOperation
                        else if row >= |old(Table())| || column >= Columns() then BadValue else Ok
      ensures Table() == if status == Ok then Replaced(old(Table()), row, column, cell) else old(Table())
    {
      hide LayoutWith, TableOf, Put, Encode32, Word, CellAt, Decode64, Encode64;
      if readOnly {
        return InvalidOperation;
      }
      var slot := GetFieldSlot(row, column);
      TableSize(data[..], shape);
      if slot.None? {
        return BadValue;
      }
      var kind, bits := PlainKind(cell), PlainBits(cell);
      ghost var m := data[..];
      PlainReads(m, slot.value, cell);
      WriteBytes(slot.value, Encode32(kind) + Encode64(bits));
      WriteField(m, shape, row, column, kind, Encode64(bits));
      return Ok;
    }

    method PutBlob(row: nat, column: nat, value: seq<uint8>) returns (status: Status)
      requires Valid() && NoWrap(|value|)
      modifies this`shape, data
      ensures Valid() && Columns() == old(Columns())
      ensures status == Ok <==> !readOnly && row < |old(Table())| && column < Columns()
                                && old(shape.free) + |value| <= data.Length
      ensures Table() == if status == Ok then Replaced(old(Table()), row, column, Blob(value)) else old(Table())
    {
      status := PutBlobOrString(row, column, value, false);
    }

    method PutString(row: nat, column: nat, valueWithNull: seq<uint8>) returns (status: Status)
      requires Valid() && NoWrap(|valueWithNull|)
      modifies this`shape, data
      ensures Valid() && Columns() == old(Columns())
      ensures status == Ok <==> !readOnly && row < |old(Table())| && column < Columns()
                                && old(shape.free) + |valueWithNull| <= data.Length
      ensures Table() == if status == Ok then Replaced(old(Table()), row, column, String(valueWithNull)) else old(Table())
    {
      status := PutBlobOrString(row, column, valueWithNull, true);
    }

    static function PlainKind(cell: Cell): uint32 {
      if cell.Integer? then FIELD_TYPE_INTEGER else if cell.Float? then FIELD_TYPE_FLOAT else FIELD_TYPE_NULL
    }

    static function PlainBits(cell: Cell): uint64 {
      if cell.Integer? || cell.Float? then cell.bits else 0
    }

    static lemma PlainReads(m: Memory, s: nat, cell: Cell)
      requires s + FIELD_SIZE <= |m| && (cell.Null? || cell.Integer? || cell.Float?)
      ensures CellAt(Put(m, s, Encode32(PlainKind(cell)) + Encode64(PlainBits(cell))), s) == cell
    {
      FieldWords(m, s, PlainKind(cell), Encode64(PlainBits(cell)));
      RoundTrip64(PlainBits(cell));
    }
  }

  // ----- whole runs -----

  /** The operations of a window. */
  datatype Op =
    | Clear
    | SetNumColumns(columns: uint32)
    | AllocRow
    | FreeLastRow
    | PutCell(row: nat, column: nat, cell: Cell)

  /** A table with its number of columns. */
  datatype Sheet = Sheet(rows: seq<seq<Cell>>, columns: nat)

  /** What a successful operation does to a table; a failed one does nothing. */
  function Apply(sheet: Sheet, op: Op, status: Status): Sheet {
    if status != Ok then sheet
    else
      match op
      case Clear => Sheet([], 0)
      case SetNumColumns(columns) => sheet.(columns := columns)
      case AllocRow => sheet.(rows := sheet.rows + [NullRow(sheet.columns)])
      case FreeLastRow => if sheet.rows == [] then sheet else sheet.(rows := sheet.rows[..|sheet.rows| - 1])
      case PutCell(row, column, cell) => sheet.(rows := Replaced(sheet.rows, row, column, cell))
  }

  /** Whether an operation is legal on a table: if it fails all the same, it is for want of space. */
  predicate Legal(sheet: Sheet, op: Op) {
    match op
    case SetNumColumns(columns) => !((sheet.columns > 0 || |sheet.rows| > 0) && sheet.columns != columns)
    case PutCell(row, column, _) => row < |sheet.rows| && column < sheet.columns
    case _ => true
  }

  const QUARTER := 0x4000_0000

  /** Sizes for which the 32-bit arithmetic of the allocator cannot wrap. */
  predicate Modest(op: Op) {
    match op
    case SetNumColumns(columns) => columns * FIELD_SIZE < QUARTER
    case PutCell(_, _, cell) => cell.Blob? || cell.String? ==> |cell.bytes| < QUARTER
    case _ => true
  }

  function Replay(sheet: Sheet, ops: seq<Op>, statuses: seq<Status>): Sheet
    requires |ops| == |statuses|
  {
    if ops == [] then sheet
    else
      var n := |ops| - 1;
      Apply(Replay(sheet, ops[..n], statuses[..n]), ops[n], statuses[n])
  }

  /** The space an operation takes at most: for a row its directory, a chunk and their alignment. */
  function Need(sheet: Sheet, op: Op): nat {
    match op
    case AllocRow => 12 * sheet.columns + 410
    case PutCell(_, _, Blob(bytes)) => |bytes|
    case PutCell(_, _, String(bytes)) => |bytes|
    case _ => 0
  }

  /** The space a sequence of operations takes at most, each on the table left by those before it. */
  function Total(sheet: Sheet, ops: seq<Op>, statuses: seq<Status>): nat
    requires |ops| == |statuses|
  {
    if ops == [] then 0
    else
      var n := |ops| - 1;
      Total(sheet, ops[..n], statuses[..n]) + Need(Replay(sheet, ops[..n], statuses[..n]), ops[n])
  }

  /** The i-th operation is refused if it is illegal, and fails otherwise only for want of space - not as long as
    * what all of them up to it take at most fits. */
  ghost predicate AnsweredRight(sheet: Sheet, free: nat, size: nat, ops: seq<Op>, statuses: seq<Status>, i: nat)
    requires |ops| == |statuses| && i < |ops|
  {
    var at := Replay(sheet, ops[..i], statuses[..i]);
    && Answered(at, ops[i], statuses[i])
    && (Legal(at, ops[i]) && free + Total(sheet, ops[..i], statuses[..i]) + Need(at, ops[i]) <= size ==> statuses[i] == Ok)
  }

  ghost predicate AllAnswered(sheet: Sheet, free: nat, size: nat, ops: seq<Op>, statuses: seq<Status>) {
    |ops| == |statuses| && forall i | 0 <= i < |ops| :: AnsweredRight(sheet, free, size, ops, statuses, i)
  }

  /** One more operation changes nothing about the earlier ones. */
  lemma OneMore(sheet: Sheet, free: nat, size: nat, ops: seq<Op>, statuses: seq<Status>, op: Op, status: Status)
    requires AllAnswered(sheet, free, size, ops, statuses)
    requires var at := Replay(sheet, ops, statuses);
             && Answered(at, op, status)
             && (Legal(at, op) && free + Total(sheet, ops, statuses) + Need(at, op) <= size ==> status == Ok)
    ensures AllAnswered(sheet, free, size, ops + [op], statuses + [status])
    ensures Replay(sheet, ops + [op], statuses + [status]) == Apply(Replay(sheet, ops, statuses), op, status)
    ensures Total(sheet, ops + [op], statuses + [status])
         == Total(sheet, ops, statuses) + Need(Replay(sheet, ops, statuses), op)
  {
    hide Legal, Need, Apply, Answered;
    assert (ops + [op])[..|ops|] == ops && (statuses + [status])[..|ops|] == statuses;
    forall k | 0 <= k < |ops|
      ensures AnsweredRight(sheet, free, size, ops + [op], statuses + [status], k)
    {
      assert (ops + [op])[..k] == ops[..k] && (statuses + [status])[..k] == statuses[..k];
      assert AnsweredRight(sheet, free, size, ops, statuses, k);
    }
  }

  lemma NothingAnswered(sheet: Sheet, free: nat, size: nat)
    ensures AllAnswered(sheet, free, size, [], []) && Replay(sheet, [], []) == sheet && Total(sheet, [], []) == 0
  {
  }

  /** Any sequence of operations on a writable window leaves the table the successful ones make of it; an
    * illegal operation is refused, a legal one fails only for want of space, and not as long as what all of
    * them take at most fits. */
  method Run(w: CursorWindow, ops: seq<Op>) returns (statuses: seq<Status>)
    requires w.Valid() && !w.readOnly && w.data.Length < QUARTER && w.Columns() * FIELD_SIZE < QUARTER
    requires forall op | op in ops :: Modest(op)
    modifies w, w.data
    ensures w.Valid() && |statuses| == |ops|
    ensures Sheet(w.Table(), w.Columns()) == Replay(old(Sheet(w.Table(), w.Columns())), ops, statuses)
    ensures AllAnswered(old(Sheet(w.Table(), w.Columns())), old(w.shape.free), w.data.Length, ops, statuses)
  {
    hide Apply, Modest, TableOf, LayoutWith, Answered, Legal, Need, Replay, Total, AllAnswered;
    ghost var start, free := Sheet(w.Table(), w.Columns()), w.shape.free;
    statuses := [];
    NothingAnswered(start, free, w.data.Length);
    for i := 0 to |ops|
      invariant w.Valid() && |statuses| == i && w.Columns() * FIELD_SIZE < QUARTER
      invariant Sheet(w.Table(), w.Columns()) == Replay(start, ops[..i], statuses)
      invariant w.shape.free <= free + Total(start, ops[..i], statuses)
      invariant AllAnswered(start, free, w.data.Length, ops[..i], statuses)
    {
      var status := Perform(w, ops[i]);
      OneMore(start, free, w.data.Length, ops[..i], statuses, ops[i], status);
      assert ops[..i + 1] == ops[..i] + [ops[i]];
      statuses := statuses + [status];
    }
    assert ops[..|ops|] == ops;
  }

  predicate Answered(sheet: Sheet, op: Op, status: Status) {
    if Legal(sheet, op) then status == Ok || status == NoMemory else status == InvalidOperation || status == BadValue
  }

  method Perform(w: CursorWindow, op: Op) returns (status: Status)
    requires w.Valid() && !w.readOnly && w.data.Length < QUARTER && w.Columns() * FIELD_SIZE < QUARTER && Modest(op)
    modifies w, w.data
    ensures w.Valid() && w.Columns() * FIELD_SIZE < QUARTER
    ensures Sheet(w.Table(), w.Columns()) == Apply(old(Sheet(w.Table(), w.Columns())), op, status)
    ensures Answered(old(Sheet(w.Table(), w.Columns())), op, status)
    ensures var need := Need(old(Sheet(w.Table(), w.Columns())), op);
            && w.shape.free <= old(w.shape.free) + need
            && (Legal(old(Sheet(w.Table(), w.Columns())), op) && old(w.shape.free) + need <= w.data.Length ==> status == Ok)
  {
    hide TableOf, LayoutWith;
    w.Facts();
    match op {
      case Clear => status := w.Clear();
      case SetNumColumns(columns) => status := w.SetNumColumns(columns);
      case AllocRow => status := w.AllocRow();
      case FreeLastRow => status := w.FreeLastRow();
      case PutCell(row, column, cell) =>
        if cell.Blob? || cell.String? {
          status := w.PutBlobOrString(row, column, cell.bytes, cell.String?);
        } else {
          status := w.PutPlain(row, column, cell);
        }
    }
  }

  /** A table with one cell replaced. */
  function Replaced(table: seq<seq<Cell>>, row: nat, column: nat, cell: Cell): seq<seq<Cell>> {
    if row < |table| && column < |table[row]| then table[row := table[row][column := cell]] else table
  }
}
