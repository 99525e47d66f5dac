/** Incremental file backup (libs/androidfw/BackupHelpers.cpp): the new snapshot is compared with the old
  * one by merging the two sorted lists, and what was added, changed or removed goes into the entity stream.
  */
module BackupDiff {
  import opened Common
  import opened LittleEndian
  import opened BackupStream
  import opened BackupSnapshot

  const CURRENT_METADATA_VERSION: uint32 := 1
  const METADATA_BYTES := 16
  const BUFFER_BYTES := 4096

  // ----- the data of one file -----

  /** A file as it is found when opened for the backup: its mode and size at that moment, and what
    * successive reads then return - nothing once the list is used up. */
  datatype Opened = Opened(mode: uint32, size: nat, chunks: seq<seq<uint8>>)

  function ReadNo(chunks: seq<seq<uint8>>, i: nat): seq<uint8> {
    if i < |chunks| then chunks[i] else []
  }

  /** What is used of the reads from the i-th on, when so many bytes are wanted. */
  function Used(chunks: seq<seq<uint8>>, i: nat, want: nat): (b: seq<uint8>)
    ensures |b| <= want
    decreases want
  {
    var piece := ReadNo(chunks, i);
    if want == 0 || piece == [] then []
    else if |piece| >= want then piece[..want]
    else piece + Used(chunks, i + 1, want - |piece|)
  }

  function Zeros(n: nat): (z: seq<uint8>)
    ensures |z| == n
  {
    seq(n, _ => 0)
  }

  function Metadata(mode: uint32): (b: seq<uint8>)
    ensures |b| == METADATA_BYTES
  {
    Encode32(CURRENT_METADATA_VERSION) + Encode32(mode) + Encode32(0) + Encode32(0)
  }

  /** Exactly as many bytes as promised: what the reads gave, cut off or filled up with zeros. */
  function Content(o: Opened): (b: seq<uint8>)
    ensures |b| == o.size
  {
    Used(o.chunks, 0, o.size) + Zeros(o.size - |Used(o.chunks, 0, o.size)|)
  }

  function FileData(mode: uint32, o: Opened): (b: seq<uint8>)
    ensures |b| == METADATA_BYTES + o.size
  {
    Metadata(mode) + Content(o)
  }

  /** The first n reads, one after the other. */
  function Delivered(chunks: seq<seq<uint8>>, n: nat): seq<uint8>
  {
    if n == 0 then [] else Delivered(chunks, n - 1) + ReadNo(chunks, n - 1)
  }

  /** What is used is a prefix of what was read, and all of it up to the first empty read if that comes
    * before the promised size. */
  lemma {:induction false} UsedIsWhatWasRead(chunks: seq<seq<uint8>>, i: nat, want: nat) returns (n: nat)
    ensures i <= n && Delivered(chunks, i) + Used(chunks, i, want) <= Delivered(chunks, n)
    ensures |Used(chunks, i, want)| == want
            || (ReadNo(chunks, n) == [] && Delivered(chunks, i) + Used(chunks, i, want) == Delivered(chunks, n))
    decreases want
  {
    var piece := ReadNo(chunks, i);
    if want == 0 || piece == [] {
      n := i;
    } else if |piece| >= want {
      n := i + 1;
    } else {
      n := UsedIsWhatWasRead(chunks, i + 1, want - |piece|);
      Associative(Delivered(chunks, i), piece, Used(chunks, i + 1, want - |piece|));
    }
  }

  /** The promised bytes are the first of what was read, or all of it and zeros after. */
  lemma ContentIsWhatWasRead(o: Opened) returns (n: nat)
    ensures |Content(o)| == o.size
    ensures Content(o) <= Delivered(o.chunks, n)
            || (ReadNo(o.chunks, n) == [] && |Delivered(o.chunks, n)| <= o.size
                && Content(o) == Delivered(o.chunks, n) + Zeros(o.size - |Delivered(o.chunks, n)|))
  {
    hide Used, ReadNo;
    n := UsedIsWhatWasRead(o.chunks, 0, o.size);
    assert Delivered(o.chunks, 0) == [];
  }

  /** write_update_file after the header: metadata, then the content in buffers, then zeros if the file has
    * shrunk.  Exactly the promised bytes are sent, or a prefix of them when a write fails. */
  method WriteContent(w: BackupDataWriter, mode: uint32, o: Opened) returns (r: Status)
    requires w.Valid() && w.status == NoError
    modifies w`file, w`room, w`status, w`pos
    ensures w.Valid() && r == w.status
    ensures r == NoError <==> |FileData(mode, o)| <= old(w.room)
    ensures r == NoError ==> w.file == old(w.file) + FileData(mode, o) && w.room == old(w.room) - |FileData(mode, o)|
    ensures old(w.file) <= w.file <= old(w.file) + FileData(mode, o)
  {
    hide Used, Metadata, Content;
    ghost var whole, before, room := FileData(mode, o), w.file, w.room;
    ghost var sent := Metadata(mode);
    r := w.WriteEntityData(Metadata(mode));
    if r != NoError {
      return;
    }
    var left := o.size;
    left, r, sent := WriteReads(w, o, whole, before, room, sent);
    if r != NoError {
      return;
    }
    while left > 0
      invariant left >= 0 && w.Valid() && w.status == NoError && r == NoError && Sending(w, whole, before, room, sent)
      invariant sent + Zeros(left) == whole
    {
      var amt := if left < BUFFER_BYTES then left else BUFFER_BYTES;
      assert Zeros(left) == Zeros(amt) + Zeros(left - amt);
      left := left - amt;
      r := w.WriteEntityData(Zeros(amt));
      if r != NoError {
        return;
      }
      sent := sent + Zeros(amt);
    }
  }

  /** How far a transfer has come: what has been sent of the whole, and that it has used up the room. */
  ghost predicate Sending(w: BackupDataWriter, whole: seq<uint8>, before: seq<uint8>, room: nat, sent: seq<uint8>)
    reads w
  {
    sent <= whole && w.file == before + sent && |sent| <= room && w.room == room - |sent|
  }

  /** One more piece of the whole. */
  method Send(w: BackupDataWriter, piece: seq<uint8>, ghost whole: seq<uint8>, ghost before: seq<uint8>, ghost room: nat,
              ghost start: seq<uint8>)
    returns (r: Status, ghost sent: seq<uint8>)
    requires w.Valid() && w.status == NoError && Sending(w, whole, before, room, start) && start + piece <= whole
    modifies w`file, w`room, w`status, w`pos
    ensures w.Valid() && r == w.status
    ensures r == NoError ==> sent == start + piece && Sending(w, whole, before, room, sent)
    ensures r != NoError ==> |whole| > room && before <= w.file <= before + whole
  {
    r := w.WriteEntityData(piece);
    sent := start + piece;
  }

  lemma UsedStep(chunks: seq<seq<uint8>>, i: nat, want: nat, amt: nat)
    requires want > 0 && ReadNo(chunks, i) != []
    requires amt == if |ReadNo(chunks, i)| < want then |ReadNo(chunks, i)| else want
    ensures 0 < amt && Used(chunks, i, want) == ReadNo(chunks, i)[..amt] + Used(chunks, i + 1, want - amt)
  {
  }

  lemma NothingUsed(chunks: seq<seq<uint8>>, i: nat, want: nat)
    requires want == 0 || ReadNo(chunks, i) == []
    ensures Used(chunks, i, want) == []
  {
  }

  lemma Resent(sent: seq<uint8>, piece: seq<uint8>, rest: seq<uint8>, fill: seq<uint8>)
    ensures sent + ((piece + rest) + fill) == sent + piece + (rest + fill)
    ensures sent + piece <= sent + ((piece + rest) + fill)
  {
  }

  /** The reading loop.  It reads once more after the last byte it wants. */
  method WriteReads(w: BackupDataWriter, o: Opened, ghost whole: seq<uint8>, ghost before: seq<uint8>, ghost room: nat,
                    ghost start: seq<uint8>)
    returns (left: nat, r: Status, ghost sent: seq<uint8>)
    requires w.Valid() && w.status == NoError && Sending(w, whole, before, room, start) && start + Content(o) == whole
    modifies w`file, w`room, w`status, w`pos
    ensures w.Valid() && r == w.status
    ensures r == NoError ==> Sending(w, whole, before, room, sent) && sent + Zeros(left) == whole
    ensures r != NoError ==> |whole| > room && before <= w.file <= before + whole
  {
    hide Used, ReadNo, Zeros, Sending;
    sent := start;
    var bytesLeft: int := o.size;
    var i := 0;
    ghost var want := o.size;
    ghost var fill := o.size - |Used(o.chunks, 0, o.size)|;
    r := NoError;
    while true
      invariant w.Valid() && w.status == NoError == r && Sending(w, whole, before, room, sent)
      invariant want == if bytesLeft > 0 then bytesLeft else 0
      invariant sent + (Used(o.chunks, i, want) + Zeros(fill)) == whole
      invariant fill == want - |Used(o.chunks, i, want)|
      decreases want
    {
      var buf := ReadNo(o.chunks, i);
      if |buf| == 0 || bytesLeft <= 0 {
        NothingUsed(o.chunks, i, want);
        break;
      }
      bytesLeft := bytesLeft - |buf|;
      var amt := if bytesLeft < 0 then |buf| + bytesLeft else |buf|;
      UsedStep(o.chunks, i, want, amt);
      Resent(sent, buf[..amt], Used(o.chunks, i + 1, want - amt), Zeros(fill));
      r, sent := Send(w, buf[..amt], whole, before, room, sent);
      if r != NoError {
        return 0, r, sent;
      }
      want := want - amt;
      i := i + 1;
    }
    left := if bytesLeft > 0 then bytesLeft else 0;
  }

  // ----- the comparison -----

  /** What a vector holds under a key. */
  ghost function Find<V>(s: seq<Pair<V>>, k: Key): Option<V> {
    if k in AsMap(s) then Some(AsMap(s)[k]) else None
  }

  lemma FindFirst<V>(s: seq<Pair<V>>, k: Key)
    requires Sorted(s) && s != []
    ensures Sorted(s[1..]) && Find(s, k) == if k == s[0].key then Some(s[0].value) else Find(s[1..], k)
    ensures Less(k, s[0].key) || k == s[0].key ==> Find(s[1..], k) == None
  {
    hide Less, AsMap;
    MapHolds(s, k);
    MapHolds(s[1..], k);
    forall i | 0 < i < |s|
      ensures s[i].key != s[0].key && !(s[i].key == k && (Less(k, s[0].key) || k == s[0].key))
    {
      LessIsTotal(s[0].key, s[i].key);
    }
    if k in AsMap(s) && k != s[0].key {
      var i :| 0 <= i < |s| && s[i].key == k;
      assert s[1..][i - 1].key == k;
    }
    if k in AsMap(s[1..]) {
      var i :| 0 <= i < |s| - 1 && s[1..][i].key == k;
      assert s[i + 1].key == k;
    }
  }

  /** An update of a key with a file's data, if it can be opened. */
  function Update(k: Key, mode: uint32, disk: map<Key, Opened>): (es: seq<Entity>)
    requires k in disk
  {
    [Entity(k, Some(FileData(mode, disk[k])))]
  }

  function Added(p: Pair<FileState>, disk: map<Key, Opened>): seq<Entity> {
    if p.key in disk then Update(p.key, disk[p.key].mode, disk) else []
  }

  function Changed(was: FileState, p: Pair<FileState>, disk: map<Key, Opened>): seq<Entity> {
    if was != p.value && p.key in disk then Update(p.key, p.value.mode, disk) else []
  }

  /** What the merge of the two snapshots emits. */
  function Merge(before: Snapshot, after: Snapshot, disk: map<Key, Opened>): seq<Entity>
    decreases |before| + |after|
  {
    if before == [] && after == [] then []
    else if before == [] then Added(after[0], disk) + Merge(before, after[1..], disk)
    else if after == [] || Less(before[0].key, after[0].key) then [Entity(before[0].key, None)] + Merge(before[1..], after, disk)
    else if before[0].key != after[0].key then Added(after[0], disk) + Merge(before, after[1..], disk)
    else Changed(before[0].value, after[0], disk) + Merge(before[1..], after[1..], disk)
  }

  /** What should be emitted for a key: a deletion if it is only in the old snapshot; new data if it is new
    * or its state differs - provided the file can be opened - under the mode found on opening if it is
    * new, under that of the snapshot otherwise; nothing if it is unchanged. */
  ghost function Wanted(before: Snapshot, after: Snapshot, disk: map<Key, Opened>, k: Key): Option<Entity> {
    match (Find(before, k), Find(after, k))
    case (None, None) => None
    case (Some(_), None) => Some(Entity(k, None))
    case (None, Some(_)) => if k in disk then Some(Entity(k, Some(FileData(disk[k].mode, disk[k])))) else None
    case (Some(was), Some(now)) =>
      if was != now && k in disk then Some(Entity(k, Some(FileData(now.mode, disk[k])))) else None
  }

  lemma Belongs<T>(e: T, a: seq<T>, b: seq<T>)
    ensures e in a + b <==> e in a || e in b
  {
  }

  /** The merge emits exactly what is wanted, ... */
  lemma {:induction false} MergeIsExactDiff(before: Snapshot, after: Snapshot, disk: map<Key, Opened>, e: Entity)
    requires Sorted(before) && Sorted(after)
    ensures e in Merge(before, after, disk) <==> Wanted(before, after, disk, e.key) == Some(e)
    decreases |before| + |after|
  {
    hide Less, Sorted, Find, FileData;
    var k := e.key;
    NothingFound(k);
    if before != [] { FindFirst(before, k); }
    if after != [] { FindFirst(after, k); }
    if before != [] && after != [] { LessIsTotal(before[0].key, after[0].key); }
    if before == [] && after == [] {
    } else if before == [] {
      MergeIsExactDiff(before, after[1..], disk, e);
      Belongs(e, Added(after[0], disk), Merge(before, after[1..], disk));
    } else if after == [] || Less(before[0].key, after[0].key) {
      MergeIsExactDiff(before[1..], after, disk, e);
      Belongs(e, [Entity(before[0].key, None)], Merge(before[1..], after, disk));
    } else if before[0].key != after[0].key {
      MergeIsExactDiff(before, after[1..], disk, e);
      Belongs(e, Added(after[0], disk), Merge(before, after[1..], disk));
    } else {
      MergeIsExactDiff(before[1..], after[1..], disk, e);
      Belongs(e, Changed(before[0].value, after[0], disk), Merge(before[1..], after[1..], disk));
    }
  }

  lemma NothingFound(k: Key)
    ensures Find<FileState>([], k) == None
  {
  }

  /** Every key of these is above a key. */
  ghost predicate AllAbove(k: Key, es: seq<Entity>) {
    forall e | e in es :: Less(k, e.key)
  }

  ghost predicate Ascending(es: seq<Entity>) {
    forall i, j | 0 <= i < j < |es| :: Less(es[i].key, es[j].key)
  }

  lemma PrependAscending(a: seq<Entity>, k: Key, es: seq<Entity>)
    requires |a| <= 1 && (a != [] ==> a[0].key == k) && AllAbove(k, es) && Ascending(es)
    ensures Ascending(a + es)
  {
    hide Less;
  }

  lemma TailAbove<V>(s: seq<Pair<V>>)
    requires Sorted(s) && s != []
    ensures Sorted(s[1..]) && forall p | p in s[1..] :: Less(s[0].key, p.key)
  {
    hide Less;
  }

  /** Every key emitted comes from one of the snapshots, so it is above whatever is below both. */
  lemma {:induction false} MergeAbove(k: Key, before: Snapshot, after: Snapshot, disk: map<Key, Opened>)
    requires forall p | p in before :: Less(k, p.key)
    requires forall p | p in after :: Less(k, p.key)
    ensures AllAbove(k, Merge(before, after, disk))
    decreases |before| + |after|
  {
    hide Less, FileData;
    if before == [] && after == [] {
    } else if before == [] {
      MergeAbove(k, before, after[1..], disk);
    } else if after == [] || Less(before[0].key, after[0].key) {
      MergeAbove(k, before[1..], after, disk);
    } else if before[0].key != after[0].key {
      MergeAbove(k, before, after[1..], disk);
    } else {
      MergeAbove(k, before[1..], after[1..], disk);
    }
  }

  lemma BelowAll<V>(k: Key, s: seq<Pair<V>>)
    requires Sorted(s) && (s != [] ==> Less(k, s[0].key))
    ensures forall p | p in s :: Less(k, p.key)
  {
    forall i | 0 <= i < |s|
      ensures Less(k, s[i].key)
    {
      if i > 0 { LessTransitive(k, s[0].key, s[i].key); }
    }
  }

  /** ... in key order, so no key twice. */
  lemma {:induction false} MergeIsAscending(before: Snapshot, after: Snapshot, disk: map<Key, Opened>)
    requires Sorted(before) && Sorted(after)
    ensures Ascending(Merge(before, after, disk))
    decreases |before| + |after|
  {
    hide Less, Sorted, FileData, AllAbove, Ascending;
    if before != [] { TailAbove(before); }
    if after != [] { TailAbove(after); }
    if before != [] && after != [] { LessIsTotal(before[0].key, after[0].key); }
    if before == [] && after == [] {
      NothingAscends();
    } else if before == [] {
      MergeIsAscending(before, after[1..], disk);
      MergeAbove(after[0].key, before, after[1..], disk);
      PrependAscending(Added(after[0], disk), after[0].key, Merge(before, after[1..], disk));
    } else if after == [] || Less(before[0].key, after[0].key) {
      MergeIsAscending(before[1..], after, disk);
      BelowAll(before[0].key, after);
      MergeAbove(before[0].key, before[1..], after, disk);
      PrependAscending([Entity(before[0].key, None)], before[0].key, Merge(before[1..], after, disk));
    } else if before[0].key != after[0].key {
      MergeIsAscending(before, after[1..], disk);
      BelowAll(after[0].key, before);
      MergeAbove(after[0].key, before, after[1..], disk);
      PrependAscending(Added(after[0], disk), after[0].key, Merge(before, after[1..], disk));
    } else {
      MergeIsAscending(before[1..], after[1..], disk);
      MergeAbove(before[0].key, before[1..], after[1..], disk);
      PrependAscending(Changed(before[0].value, after[0], disk), after[0].key, Merge(before[1..], after[1..], disk));
    }
  }

  lemma NothingAscends()
    ensures Ascending([])
  {
  }

  // ----- into the stream -----

  /** Entities as they appear in the stream, under the writer's key prefix. */
  function PrefixAll(prefix: Key, es: seq<Entity>): (r: seq<Entity>)
    ensures |r| == |es|
  {
    seq(|es|, i requires 0 <= i < |es| => Entity(Prefixed(prefix, es[i].key), es[i].data))
  }

  /** Where a writer stands after trying to emit some entities one by one: all of them if there was room,
    * otherwise in error, with a prefix of them written. */
  ghost predicate Emitted(w: BackupDataWriter, before: seq<uint8>, room: nat, es: seq<Entity>)
    reads w
  {
    w.Valid() && Stands(w.file, w.room, w.status, before, room, es)
  }

  ghost predicate Stands(file: seq<uint8>, left: nat, status: Status, before: seq<uint8>, room: nat, es: seq<Entity>) {
    && AllEncodable(es)
    && var whole := StreamBytes(|before|, es);
       if |whole| <= room then status == NoError && file == before + whole && left == room - |whole|
       else status != NoError && before <= file <= before + whole
  }

  /** How a writer gets from one state to the next by trying to emit an entity. */
  ghost predicate Tries(file: seq<uint8>, left: nat, status: Status, file': seq<uint8>, left': nat, status': Status, e: Entity)
    requires Encodable(e)
  {
    if status != NoError then status' == status && file' == file
    else
      var added := EntityBytes(|file|, e);
      && (status' == NoError <==> |added| <= left)
      && (status' == NoError ==> file' == file + added && left' == left - |added|)
      && file <= file' <= file + added
  }

  lemma NowStands(file: seq<uint8>, left: nat, status: Status, file': seq<uint8>, left': nat, status': Status,
                  before: seq<uint8>, room: nat, es: seq<Entity>, e: Entity)
    requires Stands(file, left, status, before, room, es) && Encodable(e) && Tries(file, left, status, file', left', status', e)
    ensures Stands(file', left', status', before, room, es + [e])
  {
    hide StreamBytes, EntityBytes, Encodable;
    StreamAppend(|before|, es, e);
    var whole := StreamBytes(|before|, es);
    if status == NoError {
      Associative(before, whole, EntityBytes(|file|, e));
    }
  }

  /** write_delete_file. */
  method EmitDelete(w: BackupDataWriter, key: Key, ghost before: seq<uint8>, ghost room: nat, ghost es: seq<Entity>)
    requires Emitted(w, before, room, es) && |w.FullKey(key)| < 0x8000_0000
    modifies w`file, w`room, w`status, w`pos
    ensures Emitted(w, before, room, es + [Entity(w.FullKey(key), None)])
  {
    hide Padding, BackupStream.Head, PaddingExtra, Stands;
    ghost var e, file, left, status := Entity(w.FullKey(key), None), w.file, w.room, w.status;
    assert EntityBytes(|file|, e) == Padding(|file|) + BackupStream.Head(e.key, -1);
    var _ := w.WriteEntityHeader(key, -1);
    NowStands(file, left, status, w.file, w.room, w.status, before, room, es, e);
  }

  /** write_update_file: the header promises the size found on opening, and the data that follows has it. */
  method WriteUpdateFile(w: BackupDataWriter, key: Key, mode: uint32, o: Opened) returns (r: Status)
    requires w.Valid() && |w.FullKey(key)| < 0x8000_0000 && METADATA_BYTES + o.size < 0x8000_0000
    modifies w`file, w`room, w`status, w`pos
    ensures w.Valid() && r == w.status
    ensures old(w.status) != NoError ==> w.status == old(w.status) && w.file == old(w.file)
    ensures old(w.status) == NoError ==>
              var added := EntityBytes(|old(w.file)|, Entity(w.FullKey(key), Some(FileData(mode, o))));
              && (r == NoError <==> |added| <= old(w.room))
              && (r == NoError ==> w.file == old(w.file) + added && w.room == old(w.room) - |added|)
              && old(w.file) <= w.file <= old(w.file) + added
  {
    hide Padding, BackupStream.Head, FileData, PaddingExtra;
    ghost var e, start := Entity(w.FullKey(key), Some(FileData(mode, o))), w.file;
    var size := METADATA_BYTES + o.size;
    ghost var head := Padding(|start|) + BackupStream.Head(e.key, size);
    assert EntityBytes(|start|, e) == head + FileData(mode, o);
    Associative(start, head, FileData(mode, o));
    r := w.WriteEntityHeader(key, size);
    if r != NoError {
      return;
    }
    r := WriteContent(w, mode, o);
    assert start + head <= w.file;
  }

  method EmitUpdate(w: BackupDataWriter, key: Key, mode: uint32, o: Opened, ghost before: seq<uint8>, ghost room: nat,
                    ghost es: seq<Entity>)
    requires Emitted(w, before, room, es) && |w.FullKey(key)| < 0x8000_0000 && METADATA_BYTES + o.size < 0x8000_0000
    modifies w`file, w`room, w`status, w`pos
    ensures Emitted(w, before, room, es + [Entity(w.FullKey(key), Some(FileData(mode, o)))])
  {
    hide EntityBytes, FileData, Stands;
    ghost var e, file, left, status := Entity(w.FullKey(key), Some(FileData(mode, o))), w.file, w.room, w.status;
    var _ := WriteUpdateFile(w, key, mode, o);
    NowStands(file, left, status, w.file, w.room, w.status, before, room, es, e);
  }

  /** Keys and sizes fit the stream's 32-bit fields. */
  ghost predicate Fitting(prefix: Key, before: Snapshot, after: Snapshot, disk: map<Key, Opened>) {
    && (forall p | p in before || p in after :: |prefix| + 1 + |p.key| < 0x8000_0000)
    && (forall k | k in disk :: METADATA_BYTES + disk[k].size < 0x8000_0000)
  }

  lemma KeyFits(prefix: Key, before: Snapshot, after: Snapshot, disk: map<Key, Opened>, p: Pair<FileState>)
    requires Fitting(prefix, before, after, disk) && (p in before || p in after)
    ensures |prefix| + 1 + |p.key| < 0x8000_0000 && (p.key in disk ==> METADATA_BYTES + disk[p.key].size < 0x8000_0000)
  {
  }

  lemma FittingRest(prefix: Key, before: Snapshot, n: nat, after: Snapshot, m: nat, disk: map<Key, Opened>)
    requires Fitting(prefix, before, after, disk) && n <= |before| && m <= |after|
    ensures Fitting(prefix, before[n..], after[m..], disk)
  {
  }

  lemma PrefixAppend(prefix: Key, es: seq<Entity>, e: Entity)
    ensures PrefixAll(prefix, es + [e]) == PrefixAll(prefix, es) + [Entity(Prefixed(prefix, e.key), e.data)]
  {
  }

  /** One file of the new snapshot that goes to the stream if it can be opened. */
  method EmitFile(w: BackupDataWriter, key: Key, disk: map<Key, Opened>, mode: Option<uint32>, ghost before: seq<uint8>,
                  ghost room: nat, ghost es: seq<Entity>)
    returns (ghost now: seq<Entity>)
    requires Emitted(w, before, room, PrefixAll(w.keyPrefix, es)) && |w.FullKey(key)| < 0x8000_0000
    requires key in disk ==> METADATA_BYTES + disk[key].size < 0x8000_0000
    modifies w`file, w`room, w`status, w`pos
    ensures now == es + if key in disk then Update(key, if mode.Some? then mode.value else disk[key].mode, disk) else []
    ensures Emitted(w, before, room, PrefixAll(w.keyPrefix, now))
  {
    hide Emitted, FileData, PrefixAll;
    now := es;
    if key in disk {
      var m := if mode.Some? then mode.value else disk[key].mode;
      PrefixAppend(w.keyPrefix, es, Entity(key, Some(FileData(m, disk[key]))));
      EmitUpdate(w, key, m, disk[key], before, room, PrefixAll(w.keyPrefix, es));
      now := es + Update(key, m, disk);
    }
  }

  /** How far the merge has come: what has been emitted, and that the rest of the merge is still to come. */
  ghost predicate Merging(w: BackupDataWriter, file: seq<uint8>, room: nat, es: seq<Entity>, rest: seq<Entity>, whole: seq<Entity>)
    reads w
  {
    Emitted(w, file, room, PrefixAll(w.keyPrefix, es)) && es + rest == whole
  }

  /** The merge loops of back_up_files; what the writer answers is ignored. */
  method EmitMerge(w: BackupDataWriter, before: Snapshot, after: Snapshot, disk: map<Key, Opened>)
    requires w.Valid() && w.status == NoError && Fitting(w.keyPrefix, before, after, disk)
    modifies w`file, w`room, w`status, w`pos
    ensures Emitted(w, old(w.file), old(w.room), PrefixAll(w.keyPrefix, Merge(before, after, disk)))
  {
    hide Emitted, PrefixAll, Merge, Less, FileData, Update, Fitting;
    ghost var file, room, whole := w.file, w.room, Merge(before, after, disk);
    EmittedNone(w);
    ghost var es: seq<Entity> := [];
    var n, m := 0, 0;
    assert before[0..] == before && after[0..] == after;
    while n < |before| && m < |after|
      invariant 0 <= n <= |before| && 0 <= m <= |after|
      invariant Merging(w, file, room, es, Merge(before[n..], after[m..], disk), whole)
      decreases |before| - n + |after| - m
    {
      MergeStep(before[n..], after[m..], disk);
      var p, q := before[n], after[m];
      InRange(before, n);
      InRange(after, m);
      KeyFits(w.keyPrefix, before, after, disk, p);
      KeyFits(w.keyPrefix, before, after, disk, q);
      if Less(p.key, q.key) {
        es := EmitRemoved(w, p.key, file, room, es);
        n := n + 1;
      } else if p.key != q.key {
        es := EmitFile(w, q.key, disk, None, file, room, es);
        m := m + 1;
      } else {
        if p.value != q.value {
          es := EmitFile(w, q.key, disk, Some(q.value.mode), file, room, es);
        }
        n, m := n + 1, m + 1;
      }
    }
    FittingRest(w.keyPrefix, before, n, after, m, disk);
    es := EmitRest(w, before[n..], after[m..], disk, file, room, es, whole);
  }

  lemma InRange(s: Snapshot, n: nat)
    requires n < |s|
    ensures s[n] in s && s[n..][0] == s[n] && s[n..][1..] == s[n + 1..]
  {
  }

  /** When one of the lists is used up: the rest of the other. */
  method EmitRest(w: BackupDataWriter, before: Snapshot, after: Snapshot, disk: map<Key, Opened>, ghost file: seq<uint8>,
                  ghost room: nat, ghost start: seq<Entity>, ghost whole: seq<Entity>)
    returns (ghost es: seq<Entity>)
    requires Merging(w, file, room, start, Merge(before, after, disk), whole) && (before == [] || after == [])
    requires Fitting(w.keyPrefix, before, after, disk)
    modifies w`file, w`room, w`status, w`pos
    ensures es == whole && Emitted(w, file, room, PrefixAll(w.keyPrefix, es))
  {
    hide Emitted, PrefixAll, Merge;
    es := start;
    var n, m := 0, 0;
    assert before[0..] == before && after[0..] == after;
    while n < |before|
      invariant 0 <= n <= |before| && (n < |before| ==> after == [])
      invariant Merging(w, file, room, es, Merge(before[n..], after, disk), whole)
    {
      MergeStep(before[n..], after, disk);
      InRange(before, n);
      es := EmitRemoved(w, before[n].key, file, room, es);
      n := n + 1;
    }
    assert before[n..] == [];
    while m < |after|
      invariant 0 <= m <= |after|
      invariant Merging(w, file, room, es, Merge([], after[m..], disk), whole)
    {
      MergeStep([], after[m..], disk);
      InRange(after, m);
      es := EmitFile(w, after[m].key, disk, None, file, room, es);
      m := m + 1;
    }
    assert after[m..] == [];
    MergeNothing(disk);
  }

  lemma MergeNothing(disk: map<Key, Opened>)
    ensures Merge([], [], disk) == []
  {
  }

  method EmitRemoved(w: BackupDataWriter, key: Key, ghost before: seq<uint8>, ghost room: nat, ghost es: seq<Entity>)
    returns (ghost now: seq<Entity>)
    requires Emitted(w, before, room, PrefixAll(w.keyPrefix, es)) && |w.FullKey(key)| < 0x8000_0000
    modifies w`file, w`room, w`status, w`pos
    ensures now == es + [Entity(key, None)] && Emitted(w, before, room, PrefixAll(w.keyPrefix, now))
  {
    hide Emitted, PrefixAll;
    PrefixAppend(w.keyPrefix, es, Entity(key, None));
    EmitDelete(w, key, before, room, PrefixAll(w.keyPrefix, es));
    now := es + [Entity(key, None)];
  }

  lemma MergeStep(b: Snapshot, a: Snapshot, disk: map<Key, Opened>)
    requires b != [] || a != []
    ensures b != [] && (a == [] || Less(b[0].key, a[0].key)) ==>
              Merge(b, a, disk) == [Entity(b[0].key, None)] + Merge(b[1..], a, disk)
    ensures a != [] && (b == [] || (b[0].key != a[0].key && !Less(b[0].key, a[0].key))) ==>
              Merge(b, a, disk) == Added(a[0], disk) + Merge(b, a[1..], disk)
    ensures b != [] && a != [] && b[0].key == a[0].key ==>
              Merge(b, a, disk) == Changed(b[0].value, a[0], disk) + Merge(b[1..], a[1..], disk)
  {
    if b != [] { LessIsTotal(b[0].key, b[0].key); }
  }

  lemma EmittedNone(w: BackupDataWriter)
    requires w.Valid() && w.status == NoError
    ensures Emitted(w, w.file, w.room, PrefixAll(w.keyPrefix, []))
  {
    assert PrefixAll(w.keyPrefix, []) == [];
    NothingYet(|w.file|);
  }
}
