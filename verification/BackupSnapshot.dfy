/** The snapshot of a backup run (libs/androidfw/BackupHelpers.cpp): file states in key order, and the file
  * they are written to and read back from.
  */
module BackupSnapshot {
  import opened Common
  import opened LittleEndian
  import opened BackupStream

  // ----- sorted vectors of keyed values -----

  type Key = seq<uint8>

  /** Byte-wise order, as strcmp gives it. */
  predicate Less(a: Key, b: Key) {
    b != [] && (a == [] || a[0] < b[0] || (a[0] == b[0] && Less(a[1..], b[1..])))
  }

  lemma {:induction false} LessTransitive(a: Key, b: Key, c: Key)
    requires Less(a, b) && Less(b, c)
    ensures Less(a, c)
  {
    if a != [] && a[0] == b[0] == c[0] {
      LessTransitive(a[1..], b[1..], c[1..]);
    }
  }

  lemma {:induction false} LessIsTotal(a: Key, b: Key)
    ensures !(Less(a, b) && Less(b, a)) && !Less(a, a)
    ensures a == b <==> !Less(a, b) && !Less(b, a)
  {
    if a != [] {
      LessIsTotal(a[1..], a[1..]);
    }
    if a != [] && b != [] && a[0] == b[0] {
      LessIsTotal(a[1..], b[1..]);
      assert a == [a[0]] + a[1..] && b == [b[0]] + b[1..];
    }
  }

  datatype Pair<V> = Pair(key: Key, value: V)

  /** Strictly ascending keys. */
  ghost predicate Sorted<V>(s: seq<Pair<V>>) {
    forall i, j | 0 <= i < j < |s| :: Less(s[i].key, s[j].key)
  }

  function AsMap<V>(s: seq<Pair<V>>): map<Key, V> {
    if s == [] then map[] else AsMap(s[..|s| - 1])[s[|s| - 1].key := s[|s| - 1].value]
  }

  /** KeyedVector::add: in its place, replacing what was there under the key. */
  function Insert<V>(s: seq<Pair<V>>, p: Pair<V>): (r: seq<Pair<V>>)
    ensures |r| > 0 && |r| <= |s| + 1
  {
    if s == [] then [p]
    else
      var last := s[|s| - 1];
      if Less(last.key, p.key) then s + [p]
      else if last.key == p.key then s[..|s| - 1] + [p]
      else Insert(s[..|s| - 1], p) + [last]
  }

  /** Every key of a vector comes before a key. */
  ghost predicate AllLess<V>(s: seq<Pair<V>>, k: Key) {
    forall q | q in s :: Less(q.key, k)
  }

  lemma AppendSorted<V>(s: seq<Pair<V>>, p: Pair<V>)
    requires Sorted(s) && AllLess(s, p.key)
    ensures Sorted(s + [p])
  {
    hide Less;
    assert forall i | 0 <= i < |s| :: s[i] in s;
  }

  lemma AppendMap<V>(s: seq<Pair<V>>, p: Pair<V>)
    ensures AsMap(s + [p]) == AsMap(s)[p.key := p.value]
  {
    assert (s + [p])[..|s|] == s;
  }

  lemma FrontSorted<V>(s: seq<Pair<V>>)
    requires Sorted(s) && s != []
    ensures Sorted(s[..|s| - 1]) && AllLess(s[..|s| - 1], s[|s| - 1].key)
    ensures AsMap(s) == AsMap(s[..|s| - 1])[s[|s| - 1].key := s[|s| - 1].value]
  {
    hide Less;
  }

  lemma {:induction false} InsertKeepsOrder<V>(s: seq<Pair<V>>, p: Pair<V>)
    requires Sorted(s)
    ensures Sorted(Insert(s, p)) && AsMap(Insert(s, p)) == AsMap(s)[p.key := p.value]
    ensures forall q | q in Insert(s, p) :: q == p || q in s
  {
    hide Less, Sorted, AsMap;
    if s == [] {
      OneSorted(p);
    } else {
      var last, front := s[|s| - 1], s[..|s| - 1];
      FrontSorted(s);
      LessIsTotal(last.key, p.key);
      if Less(last.key, p.key) {
        forall q | q in s
          ensures Less(q.key, p.key)
        {
          if q in front { LessTransitive(q.key, last.key, p.key); }
        }
        AppendSorted(s, p);
        AppendMap(s, p);
      } else if last.key == p.key {
        AppendSorted(front, p);
        AppendMap(front, p);
      } else {
        InsertKeepsOrder(front, p);
        AppendSorted(Insert(front, p), last);
        AppendMap(Insert(front, p), last);
      }
    }
  }

  lemma OneSorted<V>(p: Pair<V>)
    ensures Sorted([p]) && AsMap([p]) == AsMap<V>([])[p.key := p.value]
  {
    AppendMap([], p);
  }

  lemma {:induction false} MapHolds<V>(s: seq<Pair<V>>, k: Key)
    requires Sorted(s)
    ensures k in AsMap(s) <==> exists i | 0 <= i < |s| :: s[i].key == k
    ensures forall i | 0 <= i < |s| && s[i].key == k :: k in AsMap(s) && AsMap(s)[k] == s[i].value
  {
    if s != [] {
      var n := |s| - 1;
      MapHolds(s[..n], k);
      forall i | 0 <= i < n
        ensures s[i].key != s[n].key
      {
        LessIsTotal(s[i].key, s[n].key);
      }
      if k in AsMap(s[..n]) {
        var i :| 0 <= i < n && s[..n][i].key == k;
        assert s[i].key == k;
      }
    }
  }

  // ----- the file -----

  /** What is remembered of a file; each a 32-bit number. */
  datatype FileState = FileState(modTimeSec: uint32, modTimeNsec: uint32, mode: uint32, size: uint32, crc32: uint32)

  type Snapshot = seq<Pair<FileState>>

  const MAGIC0: uint32 := 0x7061_6e53
  const MAGIC1: uint32 := 0x656c_6946
  const SNAPSHOT_HEADER_BYTES := 16
  const FILE_STATE_BYTES := 24
  const NAME_PADDING_BYTE: uint8 := 0xab

  /** A file state followed by the length of the name, the name and its padding. */
  function Record(p: Pair<FileState>): (b: seq<uint8>)
    requires |p.key| < 0x8000_0000
    ensures |b| == FILE_STATE_BYTES + |p.key| + PaddingExtra(|p.key|)
  {
    StateBytes(p.value, |p.key|) + p.key + NamePadding(|p.key|)
  }

  function StateBytes(s: FileState, nameLen: uint32): (b: seq<uint8>)
    ensures |b| == FILE_STATE_BYTES
  {
    Encode32(s.modTimeSec) + (Encode32(s.modTimeNsec) + (Encode32(s.mode) + (Encode32(s.size) + (Encode32(s.crc32) + Encode32(nameLen)))))
  }

  function NamePadding(n: nat): (b: seq<uint8>)
    ensures |b| == PaddingExtra(n)
  {
    seq(PaddingExtra(n), _ => NAME_PADDING_BYTE)
  }

  ghost predicate ShortNames(s: Snapshot) {
    forall i | 0 <= i < |s| :: |s[i].key| < 0x8000_0000
  }

  ghost function Records(s: Snapshot): seq<uint8>
    requires ShortNames(s)
  {
    if s == [] then [] else Records(s[..|s| - 1]) + Record(s[|s| - 1])
  }

  function SnapshotHeader(count: uint32, total: uint32): (b: seq<uint8>)
    ensures |b| == SNAPSHOT_HEADER_BYTES
  {
    Encode32(MAGIC0) + (Encode32(count) + (Encode32(MAGIC1) + Encode32(total)))
  }

  /** A snapshot whose file stays within the format's 32-bit sizes. */
  ghost predicate Storable(s: Snapshot) {
    ShortNames(s) && |s| < 0x8000_0000 && SNAPSHOT_HEADER_BYTES + |Records(s)| < 0x8000_0000
  }

  ghost function SnapshotBytes(s: Snapshot): seq<uint8>
    requires Storable(s)
  {
    SnapshotHeader(|s|, SNAPSHOT_HEADER_BYTES + |Records(s)|) + Records(s)
  }

  /** write_snapshot_file: a first pass adds up the size, a second writes. */
  method WriteSnapshotFile(s: Snapshot) returns (f: seq<uint8>)
    requires Storable(s)
    ensures f == SnapshotBytes(s)
  {
    hide Record, Records, SnapshotHeader;
    NoRecords();
    var bytesWritten := SNAPSHOT_HEADER_BYTES;
    for i := 0 to |s|
      invariant bytesWritten == SNAPSHOT_HEADER_BYTES + |Records(s[..i])|
    {
      RecordsStep(s, i);
      bytesWritten := bytesWritten + FILE_STATE_BYTES + |s[i].key| + PaddingExtra(|s[i].key|);
    }
    assert s[..|s|] == s;
    f := SnapshotHeader(|s|, bytesWritten);
    ghost var header := f;
    for i := 0 to |s|
      invariant f == header + Records(s[..i])
    {
      RecordsStep(s, i);
      f := AppendRecord(f, s[i]);
    }
  }

  method AppendRecord(file: seq<uint8>, p: Pair<FileState>) returns (f: seq<uint8>)
    requires |p.key| < 0x8000_0000
    ensures f == file + Record(p)
  {
    hide StateBytes;
    f := file + StateBytes(p.value, |p.key|);
    f := f + p.key;
    if PaddingExtra(|p.key|) != 0 {
      f := f + NamePadding(|p.key|);
    }
  }

  lemma RecordsStep(s: Snapshot, i: nat)
    requires ShortNames(s) && i < |s|
    ensures Records(s[..i + 1]) == Records(s[..i]) + Record(s[i])
  {
    assert s[..i + 1][..i] == s[..i];
  }

  lemma NoRecords()
    ensures Records([]) == []
  {
  }

  // ----- reading it back -----

  /** Some bytes of the file, 0 where it has none. */
  function Word(f: seq<uint8>, o: nat): uint32 {
    if o + 4 <= |f| then Decode32(f[o..o + 4]) else 0
  }

  function StateAt(f: seq<uint8>, o: nat): FileState {
    FileState(Word(f, o), Word(f, o + 4), Word(f, o + 8), Word(f, o + 12), Word(f, o + 16))
  }

  /** The record at an offset and where it ends; None when the file is cut short. */
  function RecordAt(f: seq<uint8>, o: nat): Option<(Pair<FileState>, nat)> {
    var nameLen := Signed(Word(f, o + 20));
    if o + FILE_STATE_BYTES > |f| || nameLen < 0 then None
    else
      var name := o + FILE_STATE_BYTES;
      var end := name + nameLen + PaddingExtra(nameLen);
      if end > |f| then None else Some((Pair(f[name..name + nameLen], StateAt(f, o)), end))
  }

  /** count records from an offset on, added to what there is. */
  function ReadRecords(f: seq<uint8>, o: nat, count: nat, found: Snapshot): Option<(Snapshot, nat)>
    decreases count
  {
    if count == 0 then Some((found, o))
    else
      match RecordAt(f, o)
      case None => None
      case Some((p, end)) => ReadRecords(f, end, count - 1, Insert(found, p))
  }

  /** The snapshot in a file; None for the errors of read_snapshot_file. */
  function ParseSnapshot(f: seq<uint8>): Option<Snapshot> {
    if |f| < SNAPSHOT_HEADER_BYTES || Word(f, 0) != MAGIC0 || Word(f, 8) != MAGIC1 then None
    else
      var count := Signed(Word(f, 4));
      var r := ReadRecords(f, SNAPSHOT_HEADER_BYTES, if count < 0 then 0 else count, []);
      if r.None? || Signed(Word(f, 12)) != r.value.1 then None else Some(r.value.0)
  }

  method ReadSnapshotFile(f: seq<uint8>) returns (r: Option<Snapshot>)
    ensures r == ParseSnapshot(f)
  {
    hide RecordAt, Insert, Word, Signed;
    if |f| < SNAPSHOT_HEADER_BYTES || Word(f, 0) != MAGIC0 || Word(f, 8) != MAGIC1 {
      return None;
    }
    var fileCount := Signed(Word(f, 4));
    var bytesRead: nat, snapshot: Snapshot := SNAPSHOT_HEADER_BYTES, [];
    var left := if fileCount < 0 then 0 else fileCount;
    ghost var whole := ReadRecords(f, bytesRead, left, snapshot);
    while left > 0
      invariant left >= 0 && whole == ReadRecords(f, bytesRead, left, snapshot)
    {
      var record := RecordAt(f, bytesRead);
      if record.None? {
        return None;
      }
      snapshot := Insert(snapshot, record.value.0);
      bytesRead := record.value.1;
      left := left - 1;
    }
    return if Signed(Word(f, 12)) != bytesRead then None else Some(snapshot);
  }

  /** From an offset on the file holds exactly these bytes. */
  predicate From(f: seq<uint8>, o: nat, bytes: seq<uint8>) {
    o <= |f| && f[o..] == bytes
  }

  lemma FromParts(f: seq<uint8>, o: nat, a: seq<uint8>, b: seq<uint8>)
    requires From(f, o, a + b)
    ensures o + |a| <= |f| && f[o..o + |a|] == a && From(f, o + |a|, b)
  {
    assert f[o..][..|a|] == a && f[o..][|a|..] == b;
    assert f[o..o + |a|] == f[o..][..|a|];
  }

  lemma FromWord(f: seq<uint8>, o: nat, v: uint32, b: seq<uint8>)
    requires From(f, o, Encode32(v) + b)
    ensures o + 4 <= |f| && Word(f, o) == v && From(f, o + 4, b)
  {
    hide Encode32, Decode32;
    FromParts(f, o, Encode32(v), b);
    RoundTrip32(v);
  }

  lemma StateReads(f: seq<uint8>, o: nat, s: FileState, nameLen: uint32, b: seq<uint8>)
    requires From(f, o, StateBytes(s, nameLen) + b)
    ensures o + FILE_STATE_BYTES <= |f| && StateAt(f, o) == s && Word(f, o + 20) == nameLen && From(f, o + FILE_STATE_BYTES, b)
  {
    hide Encode32, Word, From;
    var t5 := Encode32(nameLen) + b;
    var t4 := Encode32(s.crc32) + t5;
    var t3 := Encode32(s.size) + t4;
    var t2 := Encode32(s.mode) + t3;
    var t1 := Encode32(s.modTimeNsec) + t2;
    assert StateBytes(s, nameLen) + b == Encode32(s.modTimeSec) + t1;
    FromWord(f, o, s.modTimeSec, t1);
    FromWord(f, o + 4, s.modTimeNsec, t2);
    FromWord(f, o + 8, s.mode, t3);
    FromWord(f, o + 12, s.size, t4);
    FromWord(f, o + 16, s.crc32, t5);
    FromWord(f, o + 20, nameLen, b);
  }

  lemma RecordReads(f: seq<uint8>, o: nat, p: Pair<FileState>, b: seq<uint8>)
    requires |p.key| < 0x8000_0000 && From(f, o, Record(p) + b)
    ensures RecordAt(f, o) == Some((p, o + |Record(p)|)) && From(f, o + |Record(p)|, b)
  {
    hide StateBytes, NamePadding, StateAt, Word, From;
    var name := o + FILE_STATE_BYTES;
    var tail := NamePadding(|p.key|) + b;
    assert Record(p) + b == StateBytes(p.value, |p.key|) + (p.key + tail);
    StateReads(f, o, p.value, |p.key|, p.key + tail);
    FromParts(f, name, p.key, tail);
    FromParts(f, name + |p.key|, NamePadding(|p.key|), b);
  }

  /** Records from the k-th on, after the first k have been read. */
  lemma {:induction false} RecordsRead(f: seq<uint8>, o: nat, s: Snapshot, k: nat)
    requires ShortNames(s) && Sorted(s) && k <= |s|
    requires o == SNAPSHOT_HEADER_BYTES + |Records(s[..k])| && SNAPSHOT_HEADER_BYTES <= |f|
    requires f[SNAPSHOT_HEADER_BYTES..] == Records(s)
    ensures ReadRecords(f, o, |s| - k, s[..k]) == Some((s, |f|))
    decreases |s| - k
  {
    hide Record, Records, RecordAt, Less, Insert;
    if k == |s| {
      assert s[..k] == s;
    } else {
      RecordsStep(s, k);
      var rest := RecordsTail(s, k);
      var rest' := RecordsTail(s, k + 1);
      Regroup3(Records(s[..k]), Record(s[k]), rest');
      FromParts(f, SNAPSHOT_HEADER_BYTES, Records(s[..k]), Record(s[k]) + rest');
      RecordReads(f, o, s[k], rest');
      InsertLast(s, k);
      RecordsRead(f, o + |Record(s[k])|, s, k + 1);
    }
  }

  lemma Regroup3(a: seq<uint8>, b: seq<uint8>, c: seq<uint8>)
    ensures a + b + c == a + (b + c)
  {
  }

  lemma {:induction false} RecordsTail(s: Snapshot, k: nat) returns (rest: seq<uint8>)
    requires ShortNames(s) && k <= |s|
    ensures Records(s) == Records(s[..k]) + rest
    decreases |s| - k
  {
    hide Record, Records;
    if k == |s| {
      assert s[..k] == s;
      rest := [];
    } else {
      RecordsStep(s, k);
      var more := RecordsTail(s, k + 1);
      rest := Record(s[k]) + more;
    }
  }

  lemma InsertLast(s: Snapshot, k: nat)
    requires Sorted(s) && k < |s|
    ensures Insert(s[..k], s[k]) == s[..k + 1]
  {
    hide Less;
    assert s[..k] + [s[k]] == s[..k + 1];
    if k > 0 {
      assert Less(s[k - 1].key, s[k].key);
    }
  }

  /** A snapshot that fits the format reads back as itself. */
  lemma SnapshotRoundTrip(s: Snapshot)
    requires Sorted(s) && Storable(s)
    ensures ParseSnapshot(SnapshotBytes(s)) == Some(s)
  {
    hide Records, Encode32, Word;
    var f, total := SnapshotBytes(s), SNAPSHOT_HEADER_BYTES + |Records(s)|;
    var t3 := Encode32(total) + Records(s);
    var t2 := Encode32(MAGIC1) + t3;
    var t1 := Encode32(|s|) + t2;
    assert f == Encode32(MAGIC0) + t1;
    assert f[0..] == f;
    FromWord(f, 0, MAGIC0, t1);
    FromWord(f, 4, |s|, t2);
    FromWord(f, 8, MAGIC1, t3);
    FromWord(f, 12, total, Records(s));
    NoRecords();
    assert s[..0] == [];
    RecordsRead(f, SNAPSHOT_HEADER_BYTES, s, 0);
  }
}
