/** The files of a backup byte by byte: what an entity adds to the stream, what precedes the data of a file in
  * it, and the snapshot file; and the order of their keys.
  */
module BackupFormat {
  import opened Common
  import opened LittleEndian
  import opened BackupStream
  import opened BackupSnapshot
  import opened BackupDiff
  import Reading = BackupReading

  // ----- pieces -----

  /** Four bytes as a number, lowest first. */
  function Number(f: seq<uint8>, o: nat): int
    requires o + 4 <= |f|
  {
    f[o] + 0x100 * (f[o + 1] as int) + 0x1_0000 * (f[o + 2] as int) + 0x100_0000 * (f[o + 3] as int)
  }

  predicate NumberAt(f: seq<uint8>, o: nat, v: int) { o + 4 <= |f| && Number(f, o) == v }

  /** These bytes at an offset. */
  predicate BytesAt(f: seq<uint8>, o: nat, bytes: seq<uint8>) {
    o + |bytes| <= |f| && f[o..o + |bytes|] == bytes
  }

  /** The same byte from one offset to another. */
  predicate FilledWith(f: seq<uint8>, from: nat, to: nat, b: uint8) {
    from <= to <= |f| && forall i | from <= i < to :: f[i] == b
  }

  /** The next multiple of four. */
  function Aligned(n: nat): (a: nat)
    ensures n <= a < n + 4 && a % 4 == 0
  {
    n + (4 - n % 4) % 4
  }

  lemma AlignedIs(n: nat)
    ensures n + PaddingExtra(n) == Aligned(n)
  {
  }

  lemma PartsAt(f: seq<uint8>, o: nat, a: seq<uint8>, b: seq<uint8>)
    requires BytesAt(f, o, a + b)
    ensures BytesAt(f, o, a) && BytesAt(f, o + |a|, b)
  {
    var s := f[o..o + |a + b|];
    assert s[..|a|] == a && s[|a|..] == b;
    assert f[o..o + |a|] == s[..|a|] && f[o + |a|..o + |a| + |b|] == s[|a|..];
  }

  lemma EncodedAt(f: seq<uint8>, o: nat, v: uint32)
    requires BytesAt(f, o, Encode32(v))
    ensures NumberAt(f, o, v)
  {
    RoundTrip32(v);
    hide Encode32;
    var b := Encode32(v);
    assert f[o..o + 4] == b;
    assert b[0] == f[o] && b[1] == f[o + 1] && b[2] == f[o + 2] && b[3] == f[o + 3];
  }

  lemma EncodedThen(f: seq<uint8>, o: nat, v: uint32, rest: seq<uint8>)
    requires BytesAt(f, o, Encode32(v) + rest)
    ensures NumberAt(f, o, v) && BytesAt(f, o + 4, rest)
  {
    hide Encode32, BytesAt, NumberAt;
    PartsAt(f, o, Encode32(v), rest);
    EncodedAt(f, o, v);
  }

  lemma FillAt(f: seq<uint8>, o: nat, n: nat, b: uint8, fill: seq<uint8>)
    requires BytesAt(f, o, fill) && |fill| == n && forall i | 0 <= i < n :: fill[i] == b
    ensures FilledWith(f, o, o + n, b)
  {
    forall i | o <= i < o + n
      ensures f[i] == b
    {
      assert f[o..o + n][i - o] == f[i];
    }
  }

  // ----- an entity in the stream -----

  /** An entity starts at the next multiple of four, after bytes 0xbc: the magic number, the length of the key, the
    * size of the data - or -1 for a deletion -, the key and a zero, bytes 0xbc up to a multiple of four, and the
    * data. */
  ghost predicate EntityAt(f: seq<uint8>, at: nat, e: Entity) {
    var head := Aligned(at);
    var end := head + 12 + |e.key| + 1;
    && FilledWith(f, at, head, 0xbc)
    && NumberAt(f, head, 0x6174_6144) && NumberAt(f, head + 4, |e.key|)
    && NumberAt(f, head + 8, if e.data.Some? then |e.data.value| else 0xffff_ffff)
    && BytesAt(f, head + 12, e.key + [0]) && FilledWith(f, end, Aligned(end), 0xbc)
    && (e.data.Some? ==> BytesAt(f, Aligned(end), e.data.value))
  }

  lemma EntityLayout(f: seq<uint8>, at: nat, e: Entity)
    requires Encodable(e) && BytesAt(f, at, EntityBytes(at, e))
    ensures EntityAt(f, at, e)
  {
    hide BytesAt, FilledWith, NumberAt, Padding, Head, Fixed, Encode32;
    var head, size := Aligned(at), SizeOf(e);
    var end := head + 12 + |e.key| + 1;
    AlignedIs(at);
    AlignedIs(end);
    SamePadding(head, |e.key| + 1);
    HeadParts(e.key, size);
    var key, pad, data := e.key + [0], Padding(|e.key| + 1), DataOf(e);
    var tail := Fixed(|e.key|, size) + (key + (pad + data));
    assert EntityBytes(at, e) == Padding(at) + tail by { Regroup(Padding(at), Fixed(|e.key|, size), key, pad, data); }
    PartsAt(f, at, Padding(at), tail);
    PaddingFills(f, at, at);
    PartsAt(f, head, Fixed(|e.key|, size), key + (pad + data));
    FixedAt(f, head, |e.key|, size);
    PartsAt(f, head + 12, key, pad + data);
    PartsAt(f, end, pad, data);
    PaddingFills(f, end, |e.key| + 1);
  }

  /** Where the k-th entity of a stream starts, its padding included. */
  ghost function EntityStart(at: nat, es: seq<Entity>, k: nat): nat
    requires k <= |es|
  {
    if k == 0 then at
    else
      var e := es[k - 1];
      Aligned(Aligned(EntityStart(at, es, k - 1)) + 12 + |e.key| + 1) + if e.data.Some? then |e.data.value| else 0
  }

  /** A stream has its entities one after the other, and nothing else. */
  lemma StreamLayout(before: seq<uint8>, es: seq<Entity>)
    requires AllEncodable(es)
    ensures var f := before + StreamBytes(|before|, es);
            && |f| == EntityStart(|before|, es, |es|)
            && forall k | 0 <= k < |es| :: EntityAt(f, EntityStart(|before|, es, k), es[k])
  {
    hide EntityBytes, StreamBytes, EntityAt, BytesAt, EntityStart;
    var at, all := |before|, StreamBytes(|before|, es);
    var f := before + all;
    StreamLengths(at, es, |es|);
    assert es[..|es|] == es;
    forall k | 0 <= k < |es|
      ensures EntityAt(f, EntityStart(at, es, k), es[k])
    {
      StreamStep(at, es, k);
      StreamLengths(at, es, k);
      var done := StreamBytes(at, es[..k]);
      var bytes := EntityBytes(at + |done|, es[k]);
      PrefixAt(before, done, bytes, all);
      EntityLayout(f, at + |done|, es[k]);
    }
  }

  lemma PrefixAt(before: seq<uint8>, done: seq<uint8>, bytes: seq<uint8>, all: seq<uint8>)
    requires done + bytes <= all
    ensures BytesAt(before + all, |before| + |done|, bytes)
  {
    var f, o := before + all, |before| + |done|;
    forall i | 0 <= i < |bytes|
      ensures f[o + i] == bytes[i]
    {
      assert f[o + i] == all[|done| + i] == (done + bytes)[|done| + i];
    }
  }

  lemma {:induction false} StreamLengths(at: nat, es: seq<Entity>, k: nat)
    requires AllEncodable(es) && k <= |es|
    ensures at + |StreamBytes(at, es[..k])| == EntityStart(at, es, k)
  {
    hide EntityBytes, StreamBytes, Encodable, Aligned;
    if k == 0 {
      NothingYet(at);
      assert es[..0] == [];
    } else {
      StreamStep(at, es, k - 1);
      StreamLengths(at, es, k - 1);
      EntityLength(EntityStart(at, es, k - 1), es[k - 1]);
    }
  }

  lemma EntityLength(at: nat, e: Entity)
    requires Encodable(e)
    ensures at + |EntityBytes(at, e)| ==
              Aligned(Aligned(at) + 12 + |e.key| + 1) + (if e.data.Some? then |e.data.value| else 0)
  {
    AlignedIs(at);
    AlignedIs(Aligned(at) + 12 + |e.key| + 1);
    SamePadding(Aligned(at), |e.key| + 1);
  }

  lemma Regroup(p: seq<uint8>, a: seq<uint8>, b: seq<uint8>, c: seq<uint8>, d: seq<uint8>)
    ensures p + (a + b + c) + d == p + (a + (b + (c + d)))
  {
  }

  lemma SamePadding(head: nat, n: nat)
    requires head % 4 == 0
    ensures PaddingExtra(head + 12 + n) == PaddingExtra(n)
  {
  }

  lemma PaddingFills(f: seq<uint8>, o: nat, n: nat)
    requires BytesAt(f, o, Padding(n))
    ensures FilledWith(f, o, o + PaddingExtra(n), 0xbc)
  {
    FillAt(f, o, PaddingExtra(n), 0xbc, Padding(n));
  }

  lemma FixedAt(f: seq<uint8>, o: nat, keyLen: uint32, size: DataSize)
    requires BytesAt(f, o, Fixed(keyLen, size))
    ensures NumberAt(f, o, 0x6174_6144) && NumberAt(f, o + 4, keyLen)
    ensures NumberAt(f, o + 8, if size < 0 then 0xffff_ffff else size)
  {
    hide BytesAt, NumberAt, Encode32;
    var b, c := Encode32(keyLen), Encode32(Unsigned(size));
    assert Fixed(keyLen, size) == Encode32(BACKUP_HEADER_ENTITY_V1) + (b + c);
    EncodedThen(f, o, BACKUP_HEADER_ENTITY_V1, b + c);
    EncodedThen(f, o + 4, keyLen, c);
    EncodedAt(f, o + 8, Unsigned(size));
  }

  /** A key under a prefix: the prefix, a colon and the key. */
  lemma PrefixedKey(prefix: seq<uint8>, key: seq<uint8>)
    ensures prefix == [] ==> Prefixed(prefix, key) == key
    ensures prefix != [] ==>
              var full := Prefixed(prefix, key);
              |full| == |prefix| + 1 + |key| && prefix <= full && full[|prefix|] == 0x3a && full[|prefix| + 1..] == key
  {
  }

  // ----- reading a header -----

  /** A 32-bit number with a sign. */
  function SignedNumber(f: seq<uint8>, o: nat): int
    requires o + 4 <= |f|
  {
    if Number(f, o) < 0x8000_0000 then Number(f, o) else Number(f, o) - 0x1_0000_0000
  }

  /** What the reader makes of the bytes at a position that it counts right: the end where there are none, missing
    * padding, a header cut short, another magic number, a negative key length, a key or its padding cut short - and
    * otherwise the key, the size of the data and where that starts; a key of no bytes counts as invalid. */
  lemma HeaderByBytes(f: seq<uint8>, at: nat)
    ensures var p := Aligned(at);
            var next := Reading.NextHeader(f, at, 0);
            if p > at && p > |f| then next == (if at >= |f| then Reading.NoMore(false) else Reading.Failed(Errno))
            else if p >= |f| then next == Reading.NoMore(true)
            else if p + 12 > |f| then next == Reading.Failed(Errno)
            else if Number(f, p) != 0x6174_6144 then next == Reading.Failed(EINVAL)
            else if SignedNumber(f, p + 4) < 0 then next == Reading.Failed(ENOMEM)
            else
              var end := p + 12 + SignedNumber(f, p + 4) + 1;
              if end > |f| then next == Reading.Failed(if p + 12 == |f| then EIO else Errno)
              else if Aligned(end) > |f| then next == Reading.Failed(if end == |f| then EIO else Errno)
              else next == Reading.Head(f[p + 12..end - 1], SignedNumber(f, p + 8), Aligned(end),
                                        if end == p + 13 then EINVAL else NoError)
  {
    hide Aligned, PaddingExtra, Number, SignedNumber, Reading.Word, Signed, Reading.HeaderRest;
    AlignedIs(at);
    var p := Aligned(at);
    if p + 12 <= |f| {
      SameNumber(f, p);
      SameNumber(f, p + 4);
      SameNumber(f, p + 8);
      if SignedNumber(f, p + 4) >= 0 {
        KeyByBytes(f, p + 12, SignedNumber(f, p + 4), SignedNumber(f, p + 8));
      } else {
        NegativeKey(f, p + 12, SignedNumber(f, p + 4), SignedNumber(f, p + 8));
      }
    }
  }

  lemma NegativeKey(f: seq<uint8>, k: nat, keyLen: int, dataSize: int)
    requires keyLen < 0
    ensures Reading.HeaderRest(f, k, 0, keyLen, dataSize) == Reading.Failed(ENOMEM)
  {
  }

  lemma KeyByBytes(f: seq<uint8>, k: nat, keyLen: int, dataSize: int)
    requires k <= |f| && keyLen >= 0
    ensures var end, next := k + keyLen + 1, Reading.HeaderRest(f, k, 0, keyLen, dataSize);
            if end > |f| then next == Reading.Failed(if k == |f| then EIO else Errno)
            else if Aligned(end) > |f| then next == Reading.Failed(if end == |f| then EIO else Errno)
            else next == Reading.Head(f[k..end - 1], dataSize, Aligned(end), if keyLen == 0 then EINVAL else NoError)
  {
    hide Aligned, PaddingExtra;
    AlignedIs(k + keyLen + 1);
  }

  lemma SameNumber(f: seq<uint8>, o: nat)
    requires o + 4 <= |f|
    ensures Reading.Word(f, o) as int == Number(f, o) && Signed(Reading.Word(f, o)) == SignedNumber(f, o)
  {
  }

  // ----- the data of a file -----

  /** The data of a file starts with the version 1, the mode and eight zeros. */
  lemma FileDataLayout(mode: uint32, o: Opened)
    ensures var b := FileData(mode, o);
            && NumberAt(b, 0, 1) && NumberAt(b, 4, mode) && NumberAt(b, 8, 0) && NumberAt(b, 12, 0)
            && |b| == 16 + o.size && b[16..] == Content(o)
  {
    hide BytesAt, NumberAt, Encode32, Content;
    var b, zeros := FileData(mode, o), Encode32(0) + (Encode32(0) + Content(o));
    assert b == Encode32(CURRENT_METADATA_VERSION) + (Encode32(mode) + zeros);
    WholeAt(b);
    EncodedThen(b, 0, CURRENT_METADATA_VERSION, Encode32(mode) + zeros);
    EncodedThen(b, 4, mode, zeros);
    EncodedThen(b, 8, 0, Encode32(0) + Content(o));
    EncodedThen(b, 12, 0, Content(o));
    assert b[16..] == Content(o);
  }

  lemma WholeAt(b: seq<uint8>)
    ensures BytesAt(b, 0, b)
  {
  }

  // ----- the snapshot file -----

  /** A record: six numbers, the name, and bytes 0xab up to a multiple of four. */
  ghost predicate RecordIs(f: seq<uint8>, o: nat, p: Pair<FileState>) {
    && NumberAt(f, o, p.value.modTimeSec) && NumberAt(f, o + 4, p.value.modTimeNsec)
    && NumberAt(f, o + 8, p.value.mode) && NumberAt(f, o + 12, p.value.size) && NumberAt(f, o + 16, p.value.crc32)
    && NumberAt(f, o + 20, |p.key|) && BytesAt(f, o + 24, p.key)
    && FilledWith(f, o + 24 + |p.key|, o + 24 + Aligned(|p.key|), 0xab)
  }

  lemma RecordLayout(f: seq<uint8>, o: nat, p: Pair<FileState>)
    requires |p.key| < 0x8000_0000 && BytesAt(f, o, Record(p))
    ensures RecordIs(f, o, p) && |Record(p)| == 24 + Aligned(|p.key|)
  {
    hide BytesAt, NumberAt, FilledWith, StateBytes, NamePadding;
    AlignedIs(|p.key|);
    var n := |p.key|;
    assert Record(p) == StateBytes(p.value, n) + (p.key + NamePadding(n));
    PartsAt(f, o, StateBytes(p.value, n), p.key + NamePadding(n));
    StateAtOffset(f, o, p.value, n);
    PartsAt(f, o + 24, p.key, NamePadding(n));
    NameFill(f, o + 24 + n, n);
  }

  lemma NameFill(f: seq<uint8>, o: nat, n: nat)
    requires BytesAt(f, o, NamePadding(n))
    ensures FilledWith(f, o, o + PaddingExtra(n), 0xab)
  {
    FillAt(f, o, PaddingExtra(n), 0xab, NamePadding(n));
  }

  lemma StateAtOffset(f: seq<uint8>, o: nat, s: FileState, nameLen: uint32)
    requires BytesAt(f, o, StateBytes(s, nameLen))
    ensures NumberAt(f, o, s.modTimeSec) && NumberAt(f, o + 4, s.modTimeNsec) && NumberAt(f, o + 8, s.mode)
    ensures NumberAt(f, o + 12, s.size) && NumberAt(f, o + 16, s.crc32) && NumberAt(f, o + 20, nameLen)
  {
    hide BytesAt, NumberAt, Encode32;
    var t5 := Encode32(nameLen);
    var t4 := Encode32(s.crc32) + t5;
    var t3 := Encode32(s.size) + t4;
    var t2 := Encode32(s.mode) + t3;
    var t1 := Encode32(s.modTimeNsec) + t2;
    EncodedThen(f, o, s.modTimeSec, t1);
    EncodedThen(f, o + 4, s.modTimeNsec, t2);
    EncodedThen(f, o + 8, s.mode, t3);
    EncodedThen(f, o + 12, s.size, t4);
    EncodedThen(f, o + 16, s.crc32, t5);
    EncodedAt(f, o + 20, nameLen);
  }

  /** Where the k-th record starts. */
  ghost function RecordStart(s: Snapshot, k: nat): nat
    requires k <= |s|
  {
    if k == 0 then 16 else RecordStart(s, k - 1) + 24 + Aligned(|s[k - 1].key|)
  }

  /** The snapshot file: "Snap", the number of records, "File" and the size of the whole, then the records. */
  lemma SnapshotLayout(s: Snapshot)
    requires Storable(s)
    ensures var f := SnapshotBytes(s);
            && |f| == RecordStart(s, |s|)
            && NumberAt(f, 0, 0x7061_6e53) && NumberAt(f, 4, |s|) && NumberAt(f, 8, 0x656c_6946) && NumberAt(f, 12, |f|)
            && forall k | 0 <= k < |s| :: RecordIs(f, RecordStart(s, k), s[k])
  {
    hide BytesAt, NumberAt, Encode32, Records, RecordIs, RecordStart, Record;
    var f, total := SnapshotBytes(s), 16 + |Records(s)|;
    var t3 := Encode32(total) + Records(s);
    var t2 := Encode32(MAGIC1) + t3;
    var t1 := Encode32(|s|) + t2;
    assert f == Encode32(MAGIC0) + t1;
    WholeAt(f);
    EncodedThen(f, 0, MAGIC0, t1);
    EncodedThen(f, 4, |s|, t2);
    EncodedThen(f, 8, MAGIC1, t3);
    EncodedThen(f, 12, total, Records(s));
    RecordsBytes(s, |s|);
    assert s[..|s|] == s;
    forall k | 0 <= k < |s|
      ensures RecordIs(f, RecordStart(s, k), s[k])
    {
      RecordsStep(s, k);
      var rest := RecordsTail(s, k + 1);
      RecordsBytes(s, k);
      Regroup3(Records(s[..k]), Record(s[k]), rest);
      PartsAt(f, 16, Records(s[..k]), Record(s[k]) + rest);
      PartsAt(f, RecordStart(s, k), Record(s[k]), rest);
      RecordLayout(f, RecordStart(s, k), s[k]);
    }
  }

  lemma {:induction false} RecordsBytes(s: Snapshot, k: nat)
    requires ShortNames(s) && k <= |s|
    ensures 16 + |Records(s[..k])| == RecordStart(s, k)
  {
    hide Records, Record;
    if k == 0 {
      NoRecords();
      assert s[..0] == [];
    } else {
      RecordsStep(s, k - 1);
      RecordsBytes(s, k - 1);
      AlignedIs(|s[k - 1].key|);
    }
  }

  // ----- the order of the keys -----

  /** One key comes before another if it is a proper beginning of it, or has the smaller byte where they first
    * differ. */
  lemma {:induction false} LessIff(a: Key, b: Key)
    ensures Less(a, b) <==> exists n :: DiffersAt(a, b, n)
  {
    if a != [] && b != [] && a[0] == b[0] {
      LessIff(a[1..], b[1..]);
      if Less(a[1..], b[1..]) {
        var n :| DiffersAt(a[1..], b[1..], n);
        assert a[..n + 1] == [a[0]] + a[1..][..n] && b[..n + 1] == [b[0]] + b[1..][..n];
        assert DiffersAt(a, b, n + 1);
      }
      if n :| DiffersAt(a, b, n) {
        assert a[1..][..n - 1] == a[..n][1..] && b[1..][..n - 1] == b[..n][1..];
        assert DiffersAt(a[1..], b[1..], n - 1);
      }
    } else if b != [] && (a == [] || a[0] < b[0]) {
      assert DiffersAt(a, b, 0);
    } else {
      forall n
        ensures !DiffersAt(a, b, n)
      {
        SameFirst(a, b, n);
      }
    }
  }

  lemma SameFirst(a: Key, b: Key, n: int)
    ensures DiffersAt(a, b, n) && n > 0 ==> a != [] && b != [] && a[0] == b[0]
  {
    if DiffersAt(a, b, n) && n > 0 {
      assert a[..n][0] == a[0] && b[..n][0] == b[0];
    }
  }

  /** The two agree on n bytes, and then the first ends or has the smaller byte. */
  predicate DiffersAt(a: Key, b: Key, n: int) {
    0 <= n <= |a| && n < |b| && a[..n] == b[..n] && (n == |a| || a[n] < b[n])
  }
}
