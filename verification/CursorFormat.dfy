/** The bytes of a cursor window: how a reader finds a field by following offsets, and what a field slot says. */
module CursorFormat {
  import opened Common
  import opened LittleEndian
  import opened CursorMemory
  import opened CursorWindows

  /** Four bytes as a number, lowest first; 0 beyond the end. */
  function Number(m: Memory, o: nat): nat {
    if o + 4 <= |m| then
      m[o] + 0x100 * (m[o + 1] as int) + 0x1_0000 * (m[o + 2] as int) + 0x100_0000 * (m[o + 3] as int)
    else 0
  }

  lemma WordIs(m: Memory, o: nat)
    ensures Word(m, o) as int == Number(m, o)
  {
  }

  /** The k-th chunk of row slots: the header names the first, and each its successor after its hundred slots. */
  function ChunkNo(m: Memory, k: nat): nat {
    if k == 0 then Number(m, 4) else Number(m, ChunkNo(m, k - 1) + 400)
  }

  /** The field slot of a row and column: twelve bytes each, from where the row's slot points. */
  function FieldNo(m: Memory, r: nat, c: nat): nat {
    Number(m, ChunkNo(m, r / 100) + 4 * (r % 100)) + 12 * c
  }

  /** A field slot: the type, then a number of 64 bits, or an offset and a size. */
  ghost predicate Reads(m: Memory, s: nat, cell: Cell) {
    && s + 12 <= |m|
    && match Number(m, s)
       case 1 => cell.Integer? && cell.bits as int == Number(m, s + 4) + 0x1_0000_0000 * Number(m, s + 8)
       case 2 => cell.Float? && cell.bits as int == Number(m, s + 4) + 0x1_0000_0000 * Number(m, s + 8)
       case 3 => cell.String? && BytesAre(m, Number(m, s + 4), Number(m, s + 8), cell.bytes)
       case 4 => cell.Blob? && BytesAre(m, Number(m, s + 4), Number(m, s + 8), cell.bytes)
       case _ => cell.Null?
  }

  predicate BytesAre(m: Memory, o: nat, n: nat, bytes: seq<uint8>) {
    o + n <= |m| && m[o..o + n] == bytes
  }

  lemma {:induction false} ChunkFollows(m: Memory, sh: Shape, k: nat)
    requires Layout(m, sh) && k < |sh.chunks|
    ensures ChunkNo(m, k) == sh.chunks[k]
  {
    hide Word, Number, BuffersOk, SlotsOk, DirsOk;
    if k == 0 {
      WordIs(m, 4);
    } else {
      ChunkFollows(m, sh, k - 1);
      WordIs(m, sh.chunks[k - 1] + 400);
    }
  }

  lemma CellReads(m: Memory, s: nat)
    requires s + 12 <= |m|
    requires IsBuffer(m, s) ==> Word(m, s + 4) + Word(m, s + 8) <= |m|
    ensures Reads(m, s, CellAt(m, s))
  {
    hide Decode32;
    WordIs(m, s);
    WordIs(m, s + 4);
    WordIs(m, s + 8);
    assert m[s + 4..s + 12][..4] == m[s + 4..s + 8] && m[s + 4..s + 12][4..] == m[s + 8..s + 12];
  }

  /** The table a window stands for is what a reader finds: as many rows and columns as the header counts, and
    * each cell in the slot that the offsets lead to. */
  lemma TableByOffsets(m: Memory, sh: Shape)
    requires Layout(m, sh)
    ensures Number(m, 8) == |TableOf(m, sh)| && Number(m, 12) == sh.cols && Number(m, 0) == sh.free
    ensures forall r, c | 0 <= r < |sh.dirs| && 0 <= c < sh.cols :: Reads(m, FieldNo(m, r, c), TableOf(m, sh)[r][c])
  {
    hide Word, Number, CellAt, Reads, ChunkNo, BuffersApart;
    WordIs(m, 0);
    WordIs(m, 8);
    WordIs(m, 12);
    forall r, c | 0 <= r < |sh.dirs| && 0 <= c < sh.cols
      ensures Reads(m, FieldNo(m, r, c), TableOf(m, sh)[r][c])
    {
      ChunkFollows(m, sh, r / 100);
      WordIs(m, RowSlot(sh, r));
      SlotInDir(sh, r, c);
      CellReads(m, SlotOf(sh, r, c));
    }
  }

  /** Replacing a cell of the table changes that cell and no other. */
  lemma ReplacedIs(table: seq<seq<Cell>>, row: nat, column: nat, cell: Cell)
    ensures var after := Replaced(table, row, column, cell);
            && |after| == |table|
            && (forall r | 0 <= r < |table| :: |after[r]| == |table[r]|)
            && forall r, c | 0 <= r < |table| && 0 <= c < |table[r]| ::
                 after[r][c] == if r == row && c == column then cell else table[r][c]
  {
  }
}
