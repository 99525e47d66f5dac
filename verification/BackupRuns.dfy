/** back_up_files (libs/androidfw/BackupHelpers.cpp) from end to end, and what a series of runs adds up to. */
module BackupRuns {
  import opened Common
  import opened BackupStream
  import opened BackupSnapshot
  import opened BackupDiff

  /** A file to back up: its key, what stat says (nothing if there is no such file), and its checksum
    * (nothing if it cannot be opened). */
  datatype FileInput = FileInput(key: Key, stat: Option<FileState>, crc32: Option<uint32>)

  function StateOf(f: FileInput): FileState
    requires f.stat.Some? && f.crc32.Some?
  {
    f.stat.value.(modTimeNsec := 0, crc32 := f.crc32.value)
  }

  /** The new snapshot from the first n files; None when a key is used twice. */
  function Collect(files: seq<FileInput>, n: nat): Option<Snapshot>
    requires n <= |files|
  {
    if n == 0 then Some([])
    else
      var before, f := Collect(files, n - 1), files[n - 1];
      if before.None? then None
      else if f.stat.None? then before
      else if f.key in AsMap(before.value) then None
      else if f.crc32.None? then before
      else Some(Insert(before.value, Pair(f.key, StateOf(f))))
  }

  lemma {:induction false} CollectFails(files: seq<FileInput>, n: nat, m: nat)
    requires n <= m <= |files| && Collect(files, n) == None
    ensures Collect(files, m) == None
  {
    if n < m { CollectFails(files, n, m - 1); }
  }

  /** A file that makes it into the snapshot. */
  predicate Present(f: FileInput) {
    f.stat.Some? && f.crc32.Some?
  }

  /** A later existing file with the key of one already taken. */
  predicate Clashes(files: seq<FileInput>, i: nat, j: nat)
    requires i < j < |files|
  {
    Present(files[i]) && files[j].stat.Some? && files[i].key == files[j].key
  }

  lemma FindInserted(s: Snapshot, p: Pair<FileState>, k: Key)
    requires Sorted(s)
    ensures Sorted(Insert(s, p)) && Find(Insert(s, p), k) == if k == p.key then Some(p.value) else Find(s, k)
  {
    hide Less, Insert, AsMap, Sorted;
    InsertKeepsOrder(s, p);
  }

  /** Under each key, the state of the present file of that key. */
  ghost predicate Holds(s: Snapshot, files: seq<FileInput>, n: nat)
    requires n <= |files|
  {
    && (forall i | 0 <= i < n && Present(files[i]) :: Find(s, files[i].key) == Some(StateOf(files[i])))
    && (forall k | Find(s, k).Some? :: exists i | 0 <= i < n :: Present(files[i]) && files[i].key == k)
  }

  /** The snapshot is sorted and holds the present files. */
  lemma {:induction false} CollectHolds(files: seq<FileInput>, n: nat)
    requires n <= |files| && Collect(files, n).Some?
    ensures Sorted(Collect(files, n).value) && Holds(Collect(files, n).value, files, n)
  {
    hide Less, StateOf, Sorted, Insert, Find, Holds;
    if n == 0 {
      EmptySorted();
      HoldsNothing(files);
    } else {
      CollectHolds(files, n - 1);
      var before, f := Collect(files, n - 1).value, files[n - 1];
      if Present(f) {
        FindInserted(before, Pair(f.key, StateOf(f)), f.key);
        HoldsMore(before, files, n);
      } else {
        HoldsSame(before, files, n);
      }
    }
  }

  lemma HoldsNothing(files: seq<FileInput>)
    ensures Holds([], files, 0)
  {
  }

  lemma HoldsSame(s: Snapshot, files: seq<FileInput>, n: nat)
    requires 0 < n <= |files| && Holds(s, files, n - 1) && !Present(files[n - 1])
    ensures Holds(s, files, n)
  {
    hide Find;
  }

  lemma HoldsMore(s: Snapshot, files: seq<FileInput>, n: nat)
    requires 0 < n <= |files| && Sorted(s) && Holds(s, files, n - 1)
    requires Present(files[n - 1]) && files[n - 1].key !in AsMap(s)
    ensures Holds(Insert(s, Pair(files[n - 1].key, StateOf(files[n - 1]))), files, n)
  {
    var f := files[n - 1];
    assert Find(s, f.key) == None;
    hide Find, Sorted, Insert, AsMap, StateOf, Less;
    var p := Pair(f.key, StateOf(f));
    forall k: Key
      ensures Find(Insert(s, p), k) == if k == p.key then Some(p.value) else Find(s, k)
    {
      FindInserted(s, p, k);
    }
  }

  lemma EmptySorted()
    ensures Sorted<FileState>([])
  {
  }

  /** Collecting fails exactly when an existing file has the key of one already taken - one that could not
    * be opened does not count as taken. */
  lemma {:induction false} CollectFailsIffClash(files: seq<FileInput>, n: nat)
    requires n <= |files|
    ensures Collect(files, n) == None <==> exists i, j | 0 <= i < j < n :: Clashes(files, i, j)
  {
    if n > 0 {
      CollectFailsIffClash(files, n - 1);
      if Collect(files, n - 1).Some? {
        CollectHolds(files, n - 1);
        var before, f := Collect(files, n - 1).value, files[n - 1];
        if f.stat.Some? && f.key in AsMap(before) {
          assert Find(before, f.key).Some?;
          var i :| 0 <= i < n - 1 && Present(files[i]) && files[i].key == f.key;
          assert Clashes(files, i, n - 1);
        }
        var last := n - 1;
        forall i | 0 <= i < last && Clashes(files, i, last)
          ensures f.key in AsMap(before)
        {
          assert Find(before, files[i].key) == Some(StateOf(files[i]));
        }
      }
    }
  }

  /** A snapshot read from any file is sorted. */
  lemma {:induction false} ReadRecordsSorted(f: seq<uint8>, o: nat, count: nat, found: Snapshot)
    requires Sorted(found) && ReadRecords(f, o, count, found).Some?
    ensures Sorted(ReadRecords(f, o, count, found).value.0)
    decreases count
  {
    hide RecordAt, Less, Insert;
    if count > 0 {
      var r := RecordAt(f, o).value;
      InsertKeepsOrder(found, r.0);
      ReadRecordsSorted(f, r.1, count - 1, Insert(found, r.0));
    }
  }

  /** The old snapshot as a run uses it: nothing when there is none or it cannot be read. */
  function OldSnapshot(file: Option<seq<uint8>>): Snapshot {
    if file.Some? && ParseSnapshot(file.value).Some? then ParseSnapshot(file.value).value else []
  }

  lemma OldSnapshotSorted(file: Option<seq<uint8>>)
    ensures Sorted(OldSnapshot(file))
  {
    hide RecordAt, Less, ReadRecords;
    EmptySorted();
    if file.Some? && ParseSnapshot(file.value).Some? {
      var count := Signed(Word(file.value, 4));
      ReadRecordsSorted(file.value, SNAPSHOT_HEADER_BYTES, if count < 0 then 0 else count, []);
    }
  }

  /** Whatever file is given as the old snapshot, a run sends exactly the differences to what can be read of
    * it, in the order of their keys. */
  lemma AnyOldFileGivesExactDiff(oldSnapshotFile: Option<seq<uint8>>, files: seq<FileInput>, disk: map<Key, Opened>)
    requires Collect(files, |files|).Some?
    ensures var before, after := OldSnapshot(oldSnapshotFile), Collect(files, |files|).value;
            && Ascending(Merge(before, after, disk))
            && forall e :: e in Merge(before, after, disk) <==> Wanted(before, after, disk, e.key) == Some(e)
  {
    hide Less, Sorted, Merge, Wanted, OldSnapshot, Collect, Ascending;
    var before, after := OldSnapshot(oldSnapshotFile), Collect(files, |files|).value;
    OldSnapshotSorted(oldSnapshotFile);
    CollectHolds(files, |files|);
    MergeIsAscending(before, after, disk);
    forall e: Entity
      ensures e in Merge(before, after, disk) <==> Wanted(before, after, disk, e.key) == Some(e)
    {
      MergeIsExactDiff(before, after, disk, e);
    }
  }

  /** One run: -1 and no effect when keys clash; otherwise the differences to the old snapshot go into the
    * stream (as far as there is room) and the new snapshot into its file. */
  method BackUpFiles(oldSnapshotFile: Option<seq<uint8>>, w: BackupDataWriter, files: seq<FileInput>, disk: map<Key, Opened>)
    returns (r: int, newSnapshotFile: seq<uint8>)
    requires w.Valid() && w.status == NoError
    requires Collect(files, |files|).Some? ==>
               Storable(Collect(files, |files|).value)
               && Fitting(w.keyPrefix, OldSnapshot(oldSnapshotFile), Collect(files, |files|).value, disk)
    modifies w`file, w`room, w`status, w`pos
    ensures r == if Collect(files, |files|).None? then -1 else 0
    ensures r == -1 ==> w.file == old(w.file) && newSnapshotFile == []
    ensures r == 0 ==>
              var after := Collect(files, |files|).value;
              && newSnapshotFile == SnapshotBytes(after)
              && Emitted(w, old(w.file), old(w.room), PrefixAll(w.keyPrefix, Merge(OldSnapshot(oldSnapshotFile), after, disk)))
  {
    hide Emitted, Merge, Less, Storable, Fitting, SnapshotBytes, ParseSnapshot, PrefixAll, Insert;
    var oldSnapshot: Snapshot := [];
    if oldSnapshotFile.Some? {
      var read := ReadSnapshotFile(oldSnapshotFile.value);
      oldSnapshot := if read.Some? then read.value else [];
    }
    var newSnapshot: Snapshot := [];
    for i := 0 to |files|
      invariant Collect(files, i) == Some(newSnapshot)
    {
      var f := files[i];
      if f.stat.None? {
        continue;
      }
      if f.key in AsMap(newSnapshot) {
        CollectFails(files, i + 1, |files|);
        return -1, [];
      }
      if f.crc32.None? {
        continue;
      }
      newSnapshot := Insert(newSnapshot, Pair(f.key, StateOf(f)));
    }
    EmitMerge(w, oldSnapshot, newSnapshot, disk);
    newSnapshotFile := WriteSnapshotFile(newSnapshot);
    r := 0;
  }

  // ----- series of runs -----

  /** What the backup has of a file: its state when its data was last taken, and that data. */
  datatype Stored = Stored(state: FileState, data: seq<uint8>)

  type Held = map<Key, Stored>

  /** Entities arriving at the backup: deletions remove, updates replace. */
  function Received(held: Held, es: seq<Entity>, states: map<Key, FileState>): Held {
    if es == [] then held
    else
      var e := es[|es| - 1];
      var before := Received(held, es[..|es| - 1], states);
      if e.data.None? || e.key !in states then before - {e.key} else before[e.key := Stored(states[e.key], e.data.value)]
  }

  ghost function At(held: Held, k: Key): Option<Stored> {
    if k in held then Some(held[k]) else None
  }

  ghost function States(held: Held): map<Key, FileState> {
    map k | k in held :: held[k].state
  }

  /** The last word on a key. */
  lemma {:induction false} ReceivedAt(held: Held, es: seq<Entity>, states: map<Key, FileState>, k: Key)
    requires Ascending(es)
    ensures (forall e | e in es :: e.key != k) ==> At(Received(held, es, states), k) == At(held, k)
    ensures forall e | e in es && e.key == k ::
              At(Received(held, es, states), k) ==
                if e.data.None? || k !in states then None else Some(Stored(states[k], e.data.value))
  {
    hide Less;
    if es != [] {
      var n := |es| - 1;
      ReceivedAt(held, es[..n], states, k);
      forall i | 0 <= i < n
        ensures es[i].key != es[n].key
      {
        LessIsTotal(es[i].key, es[n].key);
        assert Less(es[i].key, es[n].key);
      }
      assert forall e | e in es :: e in es[..n] || e == es[n];
    }
  }

  /** The data of a file as a run sends it: under the mode found on opening if the file is new, under that of
    * the snapshot otherwise. */
  function Sent(was: Option<FileState>, now: FileState, o: Opened): seq<uint8> {
    FileData(if was.None? then o.mode else now.mode, o)
  }

  /** After a run a backup that had the old snapshot's states holds, for each key of the new snapshot, what it
    * had if the state is the same or the file could not be opened, and otherwise the new state with the
    * data just sent. */
  lemma RunDelivers(held: Held, before: Snapshot, after: Snapshot, disk: map<Key, Opened>, k: Key)
    requires Sorted(before) && Sorted(after) && States(held) == AsMap(before)
    ensures var was, now := Find(before, k), Find(after, k);
            At(Received(held, Merge(before, after, disk), AsMap(after)), k) ==
              if now.None? then None
              else if was == now || k !in disk then At(held, k)
              else Some(Stored(now.value, Sent(was, now.value, disk[k])))
  {
    HeldIsFound(held, before, k);
    hide Less, Sorted, Merge, FileData, Received, AsMap, States;
    var es := Merge(before, after, disk);
    MergeIsAscending(before, after, disk);
    ReceivedAt(held, es, AsMap(after), k);
    var wanted := Wanted(before, after, disk, k);
    if wanted.Some? {
      MergeIsExactDiff(before, after, disk, wanted.value);
      assert wanted.value in es && wanted.value.key == k;
    } else {
      forall e | e in es
        ensures e.key != k
      {
        MergeIsExactDiff(before, after, disk, e);
      }
    }
  }

  lemma HeldIsFound(held: Held, s: Snapshot, k: Key)
    requires States(held) == AsMap(s)
    ensures k in held <==> Find(s, k).Some?
    ensures k in held ==> Find(s, k) == Some(held[k].state)
  {
    hide AsMap;
    assert k in held <==> k in States(held);
  }

  /** A run can bring the backup up to date: every file that is new or changed can be opened. */
  ghost predicate Covers(before: Snapshot, after: Snapshot, disk: map<Key, Opened>) {
    forall k | k in AsMap(after) :: k in disk || Find(before, k) == Find(after, k)
  }

  /** The backup keeps up with the snapshots exactly when every file that is new or changed can be opened. */
  lemma HeldFollowsSnapshot(held: Held, before: Snapshot, after: Snapshot, disk: map<Key, Opened>)
    requires Sorted(before) && Sorted(after) && States(held) == AsMap(before)
    ensures States(Received(held, Merge(before, after, disk), AsMap(after))) == AsMap(after) <==> Covers(before, after, disk)
  {
    hide Less, Sorted, Merge, FileData, Received, AsMap;
    var now := Received(held, Merge(before, after, disk), AsMap(after));
    forall k: Key
      ensures (if k in now then Some(now[k].state) else None) == Find(after, k) <==>
              (k !in AsMap(after) || k in disk || Find(before, k) == Find(after, k))
    {
      RunDelivers(held, before, after, disk, k);
      HeldIsFound(held, before, k);
    }
    if Covers(before, after, disk) {
      forall k: Key
        ensures k in now <==> k in AsMap(after)
        ensures k in now ==> now[k].state == AsMap(after)[k]
      {
        assert (if k in now then Some(now[k].state) else None) == Find(after, k);
      }
      assert States(now) == AsMap(after);
    } else {
      var k :| k in AsMap(after) && k !in disk && Find(before, k) != Find(after, k);
      assert (if k in now then Some(now[k].state) else None) != Find(after, k);
      assert k in States(now) <==> k in now;
    }
  }

  /** A run of the backup: the files it was given and what could be opened when their data was taken. */
  datatype Run = Run(files: seq<FileInput>, disk: map<Key, Opened>)

  /** The new snapshot of a run whose keys do not clash. */
  ghost function Taken(run: Run): Snapshot
    requires Collect(run.files, |run.files|).Some?
  {
    Collect(run.files, |run.files|).value
  }

  /** Runs that are not refused and whose snapshots can be stored. */
  ghost predicate Accepted(runs: seq<Run>) {
    forall i | 0 <= i < |runs| :: Collect(runs[i].files, |runs[i].files|).Some? && Storable(Taken(runs[i]))
  }

  /** The snapshot file after some runs, each given the file of the one before. */
  ghost function SnapshotFileAfter(runs: seq<Run>): Option<seq<uint8>>
    requires Accepted(runs)
  {
    if runs == [] then None else Some(SnapshotBytes(Taken(runs[|runs| - 1])))
  }

  /** What the backup holds after some runs, each comparing with the snapshot file of the one before. */
  ghost function HeldAfter(runs: seq<Run>): Held
    requires Accepted(runs)
    decreases |runs|
  {
    if runs == [] then map[]
    else
      var run, earlier := runs[|runs| - 1], runs[..|runs| - 1];
      Received(HeldAfter(earlier), Merge(OldSnapshot(SnapshotFileAfter(earlier)), Taken(run), run.disk), AsMap(Taken(run)))
  }

  /** The snapshot a run starts from: that of the run before, or nothing. */
  ghost function Before(runs: seq<Run>, i: nat): Snapshot
    requires Accepted(runs) && i <= |runs|
  {
    if i == 0 then [] else Taken(runs[i - 1])
  }

  /** Each run can open what is new or changed since the run before. */
  ghost predicate AllCover(runs: seq<Run>)
    requires Accepted(runs)
  {
    forall i | 0 <= i < |runs| :: Covers(Before(runs, i), Taken(runs[i]), runs[i].disk)
  }

  lemma AcceptedFirst(runs: seq<Run>)
    requires Accepted(runs) && runs != []
    ensures var earlier := runs[..|runs| - 1];
            && Accepted(earlier)
            && (forall i | 0 <= i <= |earlier| :: Before(earlier, i) == Before(runs, i))
            && (AllCover(runs) <==> AllCover(earlier) && Covers(Before(runs, |earlier|), Taken(runs[|earlier|]), runs[|earlier|].disk))
  {
    hide Covers, Collect, Storable;
    var n := |runs| - 1;
    assert forall i | 0 <= i < n :: runs[..n][i] == runs[i];
    if AllCover(runs[..n]) && Covers(Before(runs, n), Taken(runs[n]), runs[n].disk) {
      forall i | 0 <= i < |runs|
        ensures Covers(Before(runs, i), Taken(runs[i]), runs[i].disk)
      {
        if i < n {
          assert Before(runs[..n], i) == Before(runs, i);
        }
      }
    }
    if AllCover(runs) {
      forall i | 0 <= i < n
        ensures Covers(Before(runs[..n], i), Taken(runs[..n][i]), runs[..n][i].disk)
      {
        assert Covers(Before(runs, i), Taken(runs[i]), runs[i].disk);
      }
    }
  }

  /** The snapshot file of a run reads back as its snapshot, so that the next run starts from it. */
  lemma FileReadsBack(runs: seq<Run>)
    requires Accepted(runs)
    ensures OldSnapshot(SnapshotFileAfter(runs)) == Before(runs, |runs|) && Sorted(Before(runs, |runs|))
  {
    hide Less, Sorted, SnapshotBytes, ParseSnapshot, Collect;
    if runs == [] {
      EmptySorted();
    } else {
      var run := runs[|runs| - 1];
      CollectHolds(run.files, |run.files|);
      SnapshotRoundTrip(Taken(run));
    }
  }

  /** Runs compose: after any series of runs that open what is new or changed, the backup holds exactly the
    * files of the last, in their states. */
  lemma {:induction false} RunsCompose(runs: seq<Run>)
    requires Accepted(runs) && AllCover(runs)
    ensures States(HeldAfter(runs)) == AsMap(Before(runs, |runs|))
    decreases |runs|
  {
    hide Less, Sorted, Merge, Received, AsMap, Collect, Covers, AllCover, OldSnapshot, SnapshotFileAfter, Storable;
    if runs == [] {
      NothingHeld();
    } else {
      var run, earlier := runs[|runs| - 1], runs[..|runs| - 1];
      AcceptedFirst(runs);
      RunsCompose(earlier);
      FileReadsBack(earlier);
      FileReadsBack(runs);
      HeldFollowsSnapshot(HeldAfter(earlier), Before(runs, |earlier|), Taken(run), run.disk);
    }
  }

  lemma NothingHeld()
    ensures States(map[]) == AsMap<FileState>([])
  {
  }

  /** After each of the runs the backup is up to date. */
  ghost predicate AlwaysUpToDate(runs: seq<Run>)
    requires Accepted(runs)
    decreases |runs|
  {
    && States(HeldAfter(runs)) == AsMap(Before(runs, |runs|))
    && (runs != [] ==> AlwaysUpToDate(runs[..|runs| - 1]))
  }

  /** It always is exactly if each run can open what is new or changed. */
  lemma {:induction false} UpToDateIffAllCover(runs: seq<Run>)
    requires Accepted(runs)
    ensures AlwaysUpToDate(runs) <==> AllCover(runs)
    decreases |runs|
  {
    hide Less, Sorted, Merge, Received, AsMap, Collect, Covers, OldSnapshot, SnapshotFileAfter, Storable;
    if runs == [] {
      NothingHeld();
    } else {
      hide AllCover;
      var run, earlier := runs[|runs| - 1], runs[..|runs| - 1];
      AcceptedFirst(runs);
      UpToDateIffAllCover(earlier);
      FileReadsBack(earlier);
      FileReadsBack(runs);
      if AllCover(earlier) {
        HeldFollowsSnapshot(HeldAfter(earlier), Before(runs, |earlier|), Taken(run), run.disk);
      }
    }
  }

  /** The file of a run that is backed up under a key, if there is one. */
  ghost predicate IsFile(files: seq<FileInput>, k: Key, file: Option<FileInput>) {
    match file
    case Some(f) => f in files && f.stat.Some? && f.crc32.Some? && f.key == k
    case None => forall f | f in files && f.key == k :: f.stat.None? || f.crc32.None?
  }

  /** Seconds, mode, size or checksum differ; the nanoseconds of the modification do not count. */
  predicate Differ(f: FileInput, g: FileInput)
    requires f.stat.Some? && g.stat.Some?
  {
    || f.stat.value.modTimeSec != g.stat.value.modTimeSec || f.stat.value.mode != g.stat.value.mode
    || f.stat.value.size != g.stat.value.size || f.crc32 != g.crc32
  }

  lemma StatesDiffer(f: FileInput, g: FileInput)
    requires Present(f) && Present(g)
    ensures StateOf(f) != StateOf(g) <==> Differ(f, g)
  {
  }

  lemma FileIsFound(files: seq<FileInput>, k: Key, file: Option<FileInput>)
    requires Collect(files, |files|).Some? && IsFile(files, k, file)
    ensures Sorted(Collect(files, |files|).value)
    ensures Find(Collect(files, |files|).value, k) ==
              if file.Some? then Some(StateOf(file.value)) else None
  {
    hide Find, Sorted, StateOf;
    CollectHolds(files, |files|);
  }

  /** What a run after another sends under a key, told from the files the two were given: a deletion if the file is
    * gone; its data if it is new or differs in seconds, mode, size or checksum - provided it can be opened; and
    * nothing else. */
  lemma RunSends(earlier: Run, run: Run, was: Option<FileInput>, now: Option<FileInput>, e: Entity)
    requires Collect(earlier.files, |earlier.files|).Some? && Storable(Taken(earlier))
    requires Collect(run.files, |run.files|).Some?
    requires IsFile(earlier.files, e.key, was) && IsFile(run.files, e.key, now)
    ensures e in Merge(OldSnapshot(Some(SnapshotBytes(Taken(earlier)))), Taken(run), run.disk) <==>
            match now
            case None => was.Some? && e.data.None?
            case Some(g) =>
              && e.key in run.disk && (was.None? || Differ(was.value, g))
              && e.data == Some(FileData(if was.None? then run.disk[e.key].mode else g.stat.value.mode, run.disk[e.key]))
  {
    hide Find, Sorted, Merge, FileData, SnapshotBytes, ParseSnapshot, Collect, Storable, StateOf, Differ;
    FileIsFound(earlier.files, e.key, was);
    FileIsFound(run.files, e.key, now);
    SnapshotRoundTrip(Taken(earlier));
    MergeIsExactDiff(Taken(earlier), Taken(run), run.disk, e);
    if now.Some? {
      ModeOfState(now.value);
      if was.Some? {
        StatesDiffer(was.value, now.value);
      }
    }
  }

  lemma ModeOfState(f: FileInput)
    requires Present(f)
    ensures StateOf(f).mode == f.stat.value.mode
  {
  }

  /** What is read of a file depends on its key and its state only: the premise of backing up changes. */
  ghost predicate StateTellsContent(runs: seq<Run>, contents: (Key, FileState) -> seq<uint8>)
    requires Accepted(runs)
  {
    forall i, k | 0 <= i < |runs| && k in AsMap(Taken(runs[i])) && k in runs[i].disk ::
      Content(runs[i].disk[k]) == contents(k, AsMap(Taken(runs[i]))[k])
  }

  ghost predicate HasContents(held: Held, contents: (Key, FileState) -> seq<uint8>) {
    forall k | k in held ::
      |held[k].data| >= METADATA_BYTES && held[k].data[METADATA_BYTES..] == contents(k, held[k].state)
  }

  /** Then the bytes the backup has are those of the files of the last run, although most runs do not send
    * most files. */
  lemma {:induction false} RunsDeliverContents(runs: seq<Run>, contents: (Key, FileState) -> seq<uint8>)
    requires Accepted(runs) && AllCover(runs) && StateTellsContent(runs, contents)
    ensures HasContents(HeldAfter(runs), contents)
    decreases |runs|
  {
    hide Less, Sorted, Merge, Received, AsMap, Collect, Covers, AllCover, OldSnapshot, SnapshotFileAfter, Storable, Content,
      FileData;
    if runs != [] {
      var n := |runs| - 1;
      var run, earlier := runs[n], runs[..n];
      AcceptedFirst(runs);
      forall i, k | 0 <= i < n && k in AsMap(Taken(earlier[i])) && k in earlier[i].disk
        ensures Content(earlier[i].disk[k]) == contents(k, AsMap(Taken(earlier[i]))[k])
      {
        assert earlier[i] == runs[i];
      }
      RunsDeliverContents(earlier, contents);
      RunsCompose(earlier);
      FileReadsBack(earlier);
      FileReadsBack(runs);
      var before := HeldAfter(earlier);
      forall k | k in HeldAfter(runs)
        ensures |HeldAfter(runs)[k].data| >= METADATA_BYTES
        ensures HeldAfter(runs)[k].data[METADATA_BYTES..] == contents(k, HeldAfter(runs)[k].state)
      {
        RunDelivers(before, Before(runs, n), Taken(run), run.disk, k);
        if k in run.disk {
          SentContent(Find(Before(runs, n), k), HeldAfter(runs)[k].state, run.disk[k]);
        }
      }
    }
  }

  lemma SentContent(was: Option<FileState>, now: FileState, o: Opened)
    ensures |Sent(was, now, o)| >= METADATA_BYTES && Sent(was, now, o)[METADATA_BYTES..] == Content(o)
  {
    hide Metadata, Content;
  }

  /** A run over files that have not changed emits nothing. */
  lemma UnchangedEmitsNothing(s: Snapshot, disk: map<Key, Opened>)
    requires Sorted(s)
    ensures Merge(s, s, disk) == []
  {
    hide Less, Sorted, Merge, FileData, AsMap;
    forall e: Entity
      ensures e !in Merge(s, s, disk)
    {
      MergeIsExactDiff(s, s, disk, e);
    }
    SomeIn(Merge(s, s, disk));
  }

  lemma SomeIn(es: seq<Entity>)
    ensures es != [] ==> exists e: Entity :: e in es
  {
    if es != [] {
      assert es[0] in es;
    }
  }
}
