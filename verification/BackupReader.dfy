/** The reading side of libs/androidfw/BackupData.cpp, and the round trip with the writer. */
module BackupReading {
  import opened Common
  import opened LittleEndian
  import opened BackupStream

  function Word(f: seq<uint8>, o: nat): uint32
    requires o + 4 <= |f|
  {
    Decode32(f[o..o + 4])
  }

  /** What ReadNextHeader finds at a position: the end (with or without its missing padding being an
    * error), something unusable, or a header - one with an empty key is reported as invalid. */
  datatype Next =
    | NoMore(clean: bool)
    | Failed(error: Status)
    | Head(key: seq<uint8>, dataSize: int, dataPos: nat, status: Status)

  /** Reading n bytes where fewer are left: nothing at all means the end. */
  function Short(f: seq<uint8>, o: nat): Status {
    if o >= |f| then EIO else Errno
  }

  /** drift is how far the reader's own count of its position is off the file's position at; the padding
    * follows the count. */
  function NextHeader(f: seq<uint8>, at: nat, drift: int): Next {
    var p := at + PaddingExtra(at + drift);
    if p > at && p > |f| then (if Short(f, at) == EIO then NoMore(false) else Failed(Errno))
    else if p >= |f| then NoMore(true)
    else if p + HEADER_BYTES > |f| then Failed(Errno)
    else if Word(f, p) != BACKUP_HEADER_ENTITY_V1 then Failed(EINVAL)
    else HeaderRest(f, p + HEADER_BYTES, drift, Signed(Word(f, p + 4)), Signed(Word(f, p + 8)))
  }

  /** The key after a header's three words, and the padding after the key. */
  function HeaderRest(f: seq<uint8>, k: nat, drift: int, keyLen: int, dataSize: int): Next {
    if keyLen < 0 then Failed(ENOMEM)
    else
      var end := k + keyLen + 1;
      if end > |f| then Failed(Short(f, k))
      else
        var dataPos := end + PaddingExtra(end + drift);
        if dataPos > end && dataPos > |f| then Failed(Short(f, end))
        else Head(f[k..k + keyLen], dataSize, dataPos, if keyLen == 0 then EINVAL else NoError)
  }

  /** What becomes of skipping an entity's data: nothing, as the system refuses to go to its end or reports
    * where that is as -1; the reader's new position and its count of it; or there is no padding to skip. */
  datatype Landing = Refused(stay: nat) | Landed(place: nat, count: int) | RanOut(error: Status)

  /** The position the system reports is kept in an int, so the count wraps at two gigabytes. */
  function SkipResult(f: seq<uint8>, at: nat, pos: int, dataSize: int, dataEndPos: int): Landing {
    if dataSize > 0 && (dataEndPos < 0 || Int32(dataEndPos) == -1)
    then Refused(if dataEndPos < 0 then at else dataEndPos)
    else
      var end := if dataSize > 0 then dataEndPos else at;
      var count := if dataSize > 0 then Int32(dataEndPos) else pos;
      var n := PaddingExtra(count);
      if n == 0 || end + n <= |f| then Landed(end + n, count + n) else RanOut(Short(f, end))
  }

  /** Where a read that finds too little leaves the file. */
  function Exhausted(f: seq<uint8>, o: nat): nat { if o < |f| then |f| else o }

  class BackupDataReader {
    const file: seq<uint8>
    /** The file's own position, and the reader's count of it: m_pos, which a skip passes through an int. */
    var at: nat
    var pos: int
    var dataEndPos: int
    var done: bool
    var status: Status
    var hasHeader: bool
    var key: seq<uint8>
    var dataSize: int

    constructor (contents: seq<uint8>, start: nat)
      ensures file == contents && at == pos == start && !done && status == NoError && !hasHeader
    {
      file, at, pos := contents, start, start;
      dataEndPos, done, status, hasHeader, key, dataSize := 0, false, NoError, false, [], 0;
    }

    /** Moves past n bytes, or fails: CHECK_SIZE. */
    method Take(n: nat) returns (r: Status)
      requires status == NoError
      modifies `at, `pos, `status, `done
      ensures if n == 0 || old(at) + n <= |file|
              then r == status == NoError && at == old(at) + n && pos == old(pos) + n && done == old(done)
              else r == status == Short(file, old(at)) && at == Exhausted(file, old(at)) && pos == old(pos)
                   && done == (old(done) || r == EIO)
    {
      if n > 0 && at + n > |file| {
        status := Short(file, at);
        done := done || status == EIO;
        at := Exhausted(file, at);
        return status;
      }
      at, pos := at + n, pos + n;
      return NoError;
    }

    method SkipPadding() returns (r: Status)
      requires status == NoError
      modifies `at, `pos, `status, `done
      ensures var n := PaddingExtra(old(pos));
              if n == 0 || old(at) + n <= |file|
              then r == status == NoError && at == old(at) + n && pos == old(pos) + n && done == old(done)
              else r == status == Short(file, old(at)) && at == Exhausted(file, old(at)) && pos == old(pos)
                   && done == (old(done) || r == EIO)
    {
      r := Take(PaddingExtra(pos));
    }

    method ReadNextHeader() returns (r: Status, isDone: bool)
      modifies this
      ensures old(status) != NoError ==> r == status == old(status) && isDone == done == old(done)
      ensures old(status) == NoError ==>
                match NextHeader(file, old(at), old(pos) - old(at))
                case NoMore(clean) => r == NoError && isDone && done && status == (if clean then NoError else EIO)
                case Failed(e) => r == status == e != NoError && (old(done) || (!isDone && done == (e == EIO)))
                case Head(k, n, p, s) =>
                  && r == status == s && !isDone && !done
                  && hasHeader && key == k && dataSize == n && at == p && dataEndPos == pos + n
                  && pos - at == old(pos) - old(at)
    {
      hide PaddingExtra, HeaderRest, Signed, Decode32, Exhausted;
      isDone := done;
      if status != NoError {
        return status, isDone;
      }
      r := SkipPadding();
      if r == EIO {
        done := true;
        return NoError, true;
      } else if r != NoError {
        return r, false;
      }
      done := at >= |file|;
      isDone := done;
      if isDone {
        return NoError, true;
      }
      r := Take(HEADER_BYTES);
      if r != NoError {
        return r, isDone;
      }
      hasHeader := Word(file, at - HEADER_BYTES) == BACKUP_HEADER_ENTITY_V1;
      if !hasHeader {
        status := EINVAL;
        return status, isDone;
      }
      var keyLen := Signed(Word(file, at - 8));
      dataSize := Signed(Word(file, at - 4));
      r := ReadKey(keyLen);
      return r, isDone;
    }

    /** The rest of a header: its key and the padding after that. */
    method ReadKey(keyLen: int) returns (r: Status)
      requires status == NoError && !done
      modifies `at, `pos, `status, `done, `key, `dataEndPos
      ensures r == status
      ensures match HeaderRest(file, old(at), old(pos) - old(at), keyLen, dataSize)
              case Failed(e) => r == e && e != NoError && done == (e == EIO)
              case Head(k, n, p, s) =>
                && r == s && !done && key == k && n == dataSize && at == p && dataEndPos == pos + n
                && pos - at == old(pos) - old(at)
              case NoMore(_) => false
    {
      hide PaddingExtra, Exhausted;
      if keyLen < 0 {
        status := ENOMEM;
        return status;
      }
      r := Take(keyLen + 1);
      if r != NoError {
        return r;
      }
      key := file[at - keyLen - 1..at - 1];
      r := SkipPadding();
      if r != NoError {
        return r;
      }
      if keyLen == 0 {
        status := EINVAL;
      }
      dataEndPos := pos + dataSize;
      return status;
    }

    method ReadEntityHeader() returns (r: Status, k: seq<uint8>, size: int)
      ensures r == if status != NoError then status else if !hasHeader then EINVAL else NoError
      ensures r == NoError ==> k == key && size == dataSize
    {
      if status != NoError {
        return status, [], 0;
      }
      if !hasHeader {
        return EINVAL, [], 0;
      }
      return NoError, key, dataSize;
    }

    /** Goes to the end of the data and past the padding - which must be there. */
    method SkipEntityData() returns (r: Status)
      modifies `at, `pos, `status, `done
      ensures old(status) != NoError ==> r == status == old(status) && done == old(done)
      ensures old(status) == NoError && !hasHeader ==>
                r == EINVAL && status == NoError && done == old(done) && at == old(at) && pos == old(pos)
      ensures old(status) == NoError && hasHeader ==>
                match SkipResult(file, old(at), old(pos), dataSize, dataEndPos)
                case Refused(stay) => r == Errno && status == NoError && done == old(done) && at == stay && pos == old(pos)
                case Landed(place, count) => r == status == NoError && done == old(done) && at == place && pos == count
                case RanOut(e) => r == status == e && done == (old(done) || e == EIO)
    {
      hide PaddingExtra, Int32, Exhausted;
      if status != NoError {
        return status;
      }
      if !hasHeader {
        return EINVAL;
      }
      if dataSize > 0 {
        if dataEndPos < 0 {
          return Errno;
        }
        at := dataEndPos;
        var reported := Int32(dataEndPos);
        if reported == -1 {
          return Errno;
        }
        pos := reported;
      }
      r := SkipPadding();
    }

    /** Up to size bytes of the current entity's data; the system may give fewer (granted, at least one).
      * Sizes are compared as ints: one of two gigabytes or more is not cut to what remains. */
    method ReadEntityData(size: nat, granted: nat) returns (amt: int, data: seq<uint8>)
      requires granted > 0
      modifies `at, `pos, `status, `done
      ensures old(status) != NoError ==>
                amt == -1 && status == old(status) && at == old(at) && pos == old(pos) && done == old(done)
      ensures old(status) == NoError ==>
                var remaining := Int32(dataEndPos - old(pos));
                var want := if remaining <= 0 then 0 else if Int32(size) > remaining then remaining else size;
                var left := if old(at) < |file| then |file| - old(at) else 0;
                && amt == Least(want, Least(left, granted))
                && at == old(at) + amt && pos == old(pos) + amt
                && (if remaining > 0 && amt == 0 then status == EIO && done
                    else status == NoError && done == old(done))
                && data == (if amt == 0 then [] else file[old(at)..old(at) + amt])
    {
      hide Int32;
      if status != NoError {
        return -1, [];
      }
      var remaining := Int32(dataEndPos - pos);
      if remaining <= 0 {
        return 0, [];
      }
      var want := if Int32(size) > remaining then remaining else size;
      var left := if at < |file| then |file| - at else 0;
      amt := Least(want, Least(left, granted));
      data := if amt == 0 then [] else file[at..at + amt];
      if amt == 0 {
        status := EIO;
        done := true;
      }
      at, pos := at + amt, pos + amt;
    }
  }

  function Least(a: nat, b: nat): nat { if a < b then a else b }

  // ----- the round trip -----

  /** From a position on, the file holds exactly the bytes of some entities. */
  ghost predicate Ahead(f: seq<uint8>, pos: nat, es: seq<Entity>) {
    pos <= |f| && AllEncodable(es) && f[pos..] == StreamBytes(pos, es)
  }

  /** The bytes from a position on start with these, and those follow. */
  predicate Starts(f: seq<uint8>, pos: nat, a: seq<uint8>, b: seq<uint8>) {
    pos <= |f| && f[pos..] == a + b
  }

  lemma StartsWith(f: seq<uint8>, pos: nat, a: seq<uint8>, b: seq<uint8>)
    requires Starts(f, pos, a, b)
    ensures pos + |a| <= |f| && f[pos..pos + |a|] == a && f[pos + |a|..] == b
  {
    assert f[pos..][..|a|] == a && f[pos..][|a|..] == b;
    assert f[pos..pos + |a|] == f[pos..][..|a|];
  }

  lemma WordReads(f: seq<uint8>, pos: nat, v: uint32, b: seq<uint8>)
    requires Starts(f, pos, Encode32(v), b)
    ensures pos + 4 <= |f| && Word(f, pos) == v && f[pos + 4..] == b
  {
    hide Encode32, Decode32;
    StartsWith(f, pos, Encode32(v), b);
    RoundTrip32(v);
  }

  lemma FixedReads(f: seq<uint8>, pos: nat, keyLen: uint32, size: DataSize, b: seq<uint8>)
    requires Starts(f, pos, Fixed(keyLen, size), b)
    ensures pos + HEADER_BYTES <= |f| && f[pos + HEADER_BYTES..] == b
    ensures Word(f, pos) == BACKUP_HEADER_ENTITY_V1 && Word(f, pos + 4) == keyLen && Signed(Word(f, pos + 8)) == size
  {
    hide Encode32, Word;
    var t, k, d := Encode32(BACKUP_HEADER_ENTITY_V1), Encode32(keyLen), Encode32(Unsigned(size));
    assert Fixed(keyLen, size) + b == t + (k + (d + b));
    WordReads(f, pos, BACKUP_HEADER_ENTITY_V1, k + (d + b));
    WordReads(f, pos + 4, keyLen, d + b);
    WordReads(f, pos + 8, Unsigned(size), b);
  }

  lemma PaddingAgrees(p: nat, n: nat)
    requires p % 4 == 0
    ensures PaddingExtra(p + n) == PaddingExtra(n)
  {
    assert (p + n) % 4 == n % 4;
  }

  lemma NoPadding(p: nat)
    requires p % 4 == 0
    ensures PaddingExtra(p) == 0
  {
  }

  /** The key after a header's words reads back. */
  lemma KeyReads(f: seq<uint8>, k: nat, key: seq<uint8>, size: int, rest: seq<uint8>)
    requires k % 4 == 0 && Starts(f, k, key + [0], Padding(|key| + 1) + rest)
    ensures var dataPos := k + |key| + 1 + PaddingExtra(|key| + 1);
            && dataPos <= |f| && f[dataPos..] == rest
            && HeaderRest(f, k, 0, |key|, size) == Head(key, size, dataPos, if key == [] then EINVAL else NoError)
  {
    hide Padding, PaddingExtra;
    StartsWith(f, k, key + [0], Padding(|key| + 1) + rest);
    var end := k + |key| + 1;
    assert f[k..k + |key|] == f[k..end][..|key|];
    StartsWith(f, end, Padding(|key| + 1), rest);
    PaddingAgrees(k, |key| + 1);
  }

  /** A header and its key at an aligned position read back; the data follows. */
  lemma HeadReads(f: seq<uint8>, p: nat, key: seq<uint8>, size: DataSize, rest: seq<uint8>)
    requires p % 4 == 0 && |key| < 0x8000_0000 && Starts(f, p, BackupStream.Head(key, size), rest)
    ensures var dataPos := p + |BackupStream.Head(key, size)|;
            && dataPos <= |f| && f[dataPos..] == rest
            && NextHeader(f, p, 0) == Head(key, size, dataPos, if key == [] then EINVAL else NoError)
  {
    hide Word, Fixed, Padding, PaddingExtra, HeaderRest, Signed;
    var tail := Padding(|key| + 1) + rest;
    HeadParts(key, size);
    assert BackupStream.Head(key, size) + rest == Fixed(|key|, size) + ((key + [0]) + tail);
    FixedReads(f, p, |key|, size, (key + [0]) + tail);
    SignedSmall(|key|);
    KeyReads(f, p + HEADER_BYTES, key, size, rest);
    NoPadding(p);
  }

  lemma SignedSmall(v: uint32)
    requires v < 0x8000_0000
    ensures Signed(v) == v
  {
  }

  lemma Regroup(a: seq<uint8>, b: seq<uint8>, c: seq<uint8>, d: seq<uint8>)
    ensures (a + b + c) + d == a + (b + (c + d))
  {
  }

  /** Where the data of the first entity of a stream starts, and where it ends. */
  function DataStart(pos: nat, e: Entity): (p: nat)
    requires Encodable(e)
    ensures p % 4 == 0
  {
    pos + PaddingExtra(pos) + |BackupStream.Head(e.key, SizeOf(e))|
  }

  function DataEnd(pos: nat, e: Entity): nat
    requires Encodable(e)
  {
    DataStart(pos, e) + |DataOf(e)|
  }

  /** The bytes of a stream, part by part. */
  lemma StreamParts(pos: nat, es: seq<Entity>)
    requires AllEncodable(es) && es != []
    ensures AllEncodable(es[1..])
    ensures StreamBytes(pos, es)
         == Padding(pos) + (BackupStream.Head(es[0].key, SizeOf(es[0])) + (DataOf(es[0]) + StreamBytes(DataEnd(pos, es[0]), es[1..])))
  {
    hide Padding, BackupStream.Head, PaddingExtra;
    var e := es[0];
    Regroup(Padding(pos), BackupStream.Head(e.key, SizeOf(e)), DataOf(e), StreamBytes(DataEnd(pos, e), es[1..]));
  }

  /** The padding of the next header may already have been skipped. */
  lemma PaddingSkipped(f: seq<uint8>, pos: nat, es: seq<Entity>)
    requires Ahead(f, pos, es) && es != []
    ensures pos + PaddingExtra(pos) <= |f| && Ahead(f, pos + PaddingExtra(pos), es)
  {
    var e, p := es[0], pos + PaddingExtra(pos);
    SameData(pos, e);
    hide BackupStream.Head, PaddingExtra, StreamBytes, Padding, DataStart, DataEnd, Encodable;
    StreamParts(pos, es);
    StreamParts(p, es);
    var after := BackupStream.Head(e.key, SizeOf(e)) + (DataOf(e) + StreamBytes(DataEnd(pos, e), es[1..]));
    assert [] + after == after;
    StartsWith(f, pos, Padding(pos), after);
  }

  lemma SameData(pos: nat, e: Entity)
    requires Encodable(e)
    ensures var p := pos + PaddingExtra(pos);
            PaddingExtra(p) == 0 && Padding(p) == [] && DataEnd(p, e) == DataEnd(pos, e)
  {
    hide BackupStream.Head, PaddingExtra;
    NoPadding(pos + PaddingExtra(pos));
  }

  /** The next header in a stream of entities is that of the first entity - invalid when its key is empty -
    * and its data follows. */
  lemma EntityReads(f: seq<uint8>, pos: nat, es: seq<Entity>)
    requires Ahead(f, pos, es) && es != []
    ensures var e := es[0];
            var dataPos := DataStart(pos, e);
            && NextHeader(f, pos, 0) == Head(e.key, SizeOf(e), dataPos, if e.key == [] then EINVAL else NoError)
            && DataEnd(pos, e) <= |f| && f[dataPos..DataEnd(pos, e)] == DataOf(e)
            && Ahead(f, DataEnd(pos, e), es[1..])
  {
    hide Padding, BackupStream.Head, PaddingExtra, StreamBytes;
    var e := es[0];
    var p, size, rest := pos + PaddingExtra(pos), SizeOf(e), StreamBytes(DataEnd(pos, e), es[1..]);
    StreamParts(pos, es);
    StartsWith(f, pos, Padding(pos), BackupStream.Head(e.key, size) + (DataOf(e) + rest));
    NoPadding(p);
    HeadReads(f, p, e.key, size, DataOf(e) + rest);
    StartsWith(f, DataStart(pos, e), DataOf(e), rest);
    SamePadded(f, pos, p);
  }

  lemma SamePadded(f: seq<uint8>, pos: nat, p: nat)
    requires p == pos + PaddingExtra(pos) <= |f|
    ensures NextHeader(f, pos, 0) == NextHeader(f, p, 0)
  {
    hide HeaderRest, Word;
    NoPadding(p);
  }

  /** At the end of the stream the reader is done; a missing last padding counts as the end, too. */
  lemma EndReads(f: seq<uint8>, pos: nat)
    requires Ahead(f, pos, [])
    ensures pos == |f| && NextHeader(f, pos, 0) == NoMore(PaddingExtra(pos) == 0)
  {
    assert |f[pos..]| == |f| - pos;
  }

  /** What a caller sees of an entity: its data only if it does not skip it. */
  datatype Seen = Seen(key: seq<uint8>, dataSize: int, data: seq<uint8>)

  function SeenOf(e: Entity, skipped: bool): Seen
    requires Encodable(e)
  {
    Seen(e.key, SizeOf(e), if skipped then [] else DataOf(e))
  }

  // ----- which skips land -----

  /** Where the data of the i-th of some entities ends. */
  function EndOf(pos: nat, es: seq<Entity>, i: nat): nat
    requires i < |es| && forall e | e in es :: Encodable(e)
    decreases i
  {
    if i == 0 then DataEnd(pos, es[0]) else EndOf(DataEnd(pos, es[0]), es[1..], i - 1)
  }

  /** A skip that has to move over data. */
  predicate Seeks(es: seq<Entity>, skip: nat -> bool, i: nat)
    requires i < |es|
  {
    skip(i) && DataOf(es[i]) != []
  }

  ghost predicate Quiet(es: seq<Entity>, skip: nat -> bool) {
    forall i | 0 <= i < |es| :: !Seeks(es, skip, i)
  }

  /** What skipping needs: whenever a skip moves over data, its target does not look like -1 in 32 bits, and
    * those of the skips before it that moved over data are below two gigabytes. */
  ghost predicate SkipsFit(pos: nat, es: seq<Entity>, skip: nat -> bool)
    requires forall e | e in es :: Encodable(e)
  {
    forall i | 0 <= i < |es| && Seeks(es, skip, i) ::
      && Int32(EndOf(pos, es, i)) != -1
      && forall j | 0 <= j < i && Seeks(es, skip, j) :: EndOf(pos, es, j) < 0x8000_0000
  }

  /** The same along the stream: inStep says whether the reader's count is still the file's position. */
  ghost predicate Lands(pos: nat, es: seq<Entity>, skip: nat -> bool, k: nat, inStep: bool)
    requires forall e | e in es :: Encodable(e)
    decreases |es|
  {
    es != [] ==>
      var end := DataEnd(pos, es[0]);
      if skip(k) && DataOf(es[0]) != []
      then inStep && Int32(end) != -1 && Lands(end, es[1..], skip, k + 1, end < 0x8000_0000)
      else Lands(end, es[1..], skip, k + 1, inStep)
  }

  function Later(skip: nat -> bool, k: nat): nat -> bool { (i: nat) => skip(i + k) }

  /** A skip that would start out of step cannot land, and one that starts in step lands as SkipsFit says. */
  lemma {:induction false} LandsIfFit(pos: nat, es: seq<Entity>, skip: nat -> bool, k: nat, inStep: bool)
    requires forall e | e in es :: Encodable(e)
    ensures Lands(pos, es, skip, k, inStep) <==>
            && SkipsFit(pos, es, Later(skip, k))
            && (inStep || Quiet(es, Later(skip, k)))
    decreases |es|
  {
    hide Int32, DataEnd, Encodable;
    if es != [] {
      var end, rest := DataEnd(pos, es[0]), es[1..];
      var now, next := Later(skip, k), Later(skip, k + 1);
      LandsIfFit(end, rest, skip, k + 1, if Seeks(es, now, 0) then end < 0x8000_0000 else inStep);
      assert EndOf(pos, es, 0) == end;
      forall i | 0 <= i < |rest|
        ensures EndOf(end, rest, i) == EndOf(pos, es, i + 1) && (Seeks(rest, next, i) <==> Seeks(es, now, i + 1))
      {
      }
      QuietStep(es, now, rest, next);
      FitStep(pos, es, now, end, rest, next);
    }
  }

  lemma QuietStep(es: seq<Entity>, now: nat -> bool, rest: seq<Entity>, next: nat -> bool)
    requires es != [] && rest == es[1..]
    requires forall i | 0 <= i < |rest| :: Seeks(rest, next, i) <==> Seeks(es, now, i + 1)
    ensures Quiet(es, now) <==> !Seeks(es, now, 0) && Quiet(rest, next)
  {
    hide Seeks;
    if Quiet(es, now) {
      forall i | 0 <= i < |rest|
        ensures !Seeks(rest, next, i)
      {
        assert !Seeks(es, now, i + 1);
      }
    }
    if !Seeks(es, now, 0) && Quiet(rest, next) {
      forall i | 0 <= i < |es|
        ensures !Seeks(es, now, i)
      {
        if i > 0 {
          assert !Seeks(rest, next, i - 1);
        }
      }
    }
  }

  lemma FitStep(pos: nat, es: seq<Entity>, now: nat -> bool, end: nat, rest: seq<Entity>, next: nat -> bool)
    requires es != [] && rest == es[1..] && (forall e | e in es :: Encodable(e)) && EndOf(pos, es, 0) == end
    requires forall i | 0 <= i < |rest| ::
               EndOf(end, rest, i) == EndOf(pos, es, i + 1) && (Seeks(rest, next, i) <==> Seeks(es, now, i + 1))
    ensures SkipsFit(pos, es, now) <==>
            && SkipsFit(end, rest, next)
            && (Seeks(es, now, 0) ==>
                  Int32(end) != -1 && (end < 0x8000_0000 || Quiet(rest, next)))
  {
    hide Int32, EndOf, Encodable, Seeks;
    if SkipsFit(pos, es, now) {
      forall i | 0 <= i < |rest| && Seeks(rest, next, i)
        ensures Int32(EndOf(end, rest, i)) != -1
        ensures forall j | 0 <= j < i && Seeks(rest, next, j) :: EndOf(end, rest, j) < 0x8000_0000
      {
        assert Seeks(es, now, i + 1);
        forall j | 0 <= j < i && Seeks(rest, next, j)
          ensures EndOf(end, rest, j) < 0x8000_0000
        {
          assert Seeks(es, now, j + 1);
        }
      }
    }
    if SkipsFit(end, rest, next) && (Seeks(es, now, 0) ==>
         Int32(end) != -1 && (end < 0x8000_0000 || Quiet(rest, next))) {
      forall i | 0 <= i < |es| && Seeks(es, now, i)
        ensures Int32(EndOf(pos, es, i)) != -1
        ensures forall j | 0 <= j < i && Seeks(es, now, j) :: EndOf(pos, es, j) < 0x8000_0000
      {
        if i > 0 {
          assert Seeks(rest, next, i - 1);
          forall j | 0 <= j < i && Seeks(es, now, j)
            ensures EndOf(pos, es, j) < 0x8000_0000
          {
            if j > 0 {
              assert Seeks(rest, next, j - 1);
            }
          }
        }
      }
    }
  }

  /** Reads an entity's data to its end, in buffers of any positive sizes an int can hold and with any short
    * reads; if the file ends first, that is an error. */
  method ReadData(r: BackupDataReader, sizes: nat -> nat, grants: nat -> nat) returns (data: seq<uint8>)
    requires r.status == NoError && !r.done && r.dataEndPos == r.pos + r.dataSize
    requires -0x8000_0000 <= r.dataSize < 0x8000_0000 && forall k :: sizes(k) < 0x7fff_ffff
    modifies r`at, r`pos, r`status, r`done
    ensures DataRead(r.file, old(r.at), r.dataSize, data, r.status, r.done)
    ensures r.at == old(r.at) + |data| && r.pos == old(r.pos) + |data|
  {
    hide Int32;
    data := [];
    var k := 0;
    ghost var start := r.at;
    while true
      invariant r.status == NoError && !r.done
      invariant r.at == start + |data| && r.pos == old(r.pos) + |data|
      invariant |data| <= Wanted(r.dataSize)
      invariant data == [] || (r.at <= |r.file| && data == r.file[start..r.at])
      decreases r.dataEndPos - r.pos
    {
      SmallIsItself(r.dataEndPos - r.pos);
      SmallIsItself(1 + sizes(k));
      var amt, piece := r.ReadEntityData(1 + sizes(k), 1 + grants(k));
      if amt <= 0 {
        break;
      }
      data := data + piece;
      k := k + 1;
    }
  }

  lemma SmallIsItself(x: int)
    requires -0x8000_0000 <= x < 0x8000_0000
    ensures Int32(x) == x
  {
  }

  function Wanted(dataSize: int): nat { if dataSize > 0 then dataSize else 0 }

  /** All of an entity's data has been read, or all there is and that is an error. */
  ghost predicate DataRead(f: seq<uint8>, at: nat, dataSize: int, data: seq<uint8>, status: Status, done: bool) {
    && |data| <= Wanted(dataSize)
    && (data == [] || (at + |data| <= |f| && data == f[at..at + |data|]))
    && (if |data| == Wanted(dataSize) then status == NoError && !done else status == EIO && done)
    && (at + Wanted(dataSize) <= |f| ==> |data| == Wanted(dataSize))
  }

  /** What a reader holds after handling an entity. */
  datatype After = After(at: nat, pos: int, status: Status, done: bool)

  /** What a caller gets for an entity whose header ends at p, and where the reader is then. */
  ghost predicate Handled(f: seq<uint8>, p: nat, drift: int, dataSize: int, skipped: bool,
                          data: seq<uint8>, status: Status, after: After) {
    if skipped then
      data == [] &&
      match SkipResult(f, p, p + drift, dataSize, p + drift + dataSize)
      case Refused(_) => status == Errno && !after.done
      case Landed(place, count) => status == NoError && after == After(place, count, NoError, false)
      case RanOut(e) => status == e && after.status == e && after.done == (e == EIO)
    else
      && DataRead(f, p, dataSize, data, after.status, after.done)
      && status == after.status && after.at == p + |data| && after.pos == after.at + drift
  }

  /** Reads or skips the entity whose header has just been read. */
  method HandleEntity(r: BackupDataReader, skipped: bool, sizes: nat -> nat, grants: nat -> nat)
    returns (seen: Seen, status: Status)
    requires r.status == NoError && !r.done && r.hasHeader && r.dataEndPos == r.pos + r.dataSize
    requires -0x8000_0000 <= r.dataSize < 0x8000_0000 && forall k :: sizes(k) < 0x7fff_ffff
    modifies r`at, r`pos, r`status, r`done
    ensures seen.key == r.key && seen.dataSize == r.dataSize
    ensures Handled(r.file, old(r.at), old(r.pos) - old(r.at), r.dataSize, skipped, seen.data, status,
                    After(r.at, r.pos, r.status, r.done))
    ensures status == NoError ==> r.status == NoError && !r.done
  {
    hide PaddingExtra, Int32;
    var _, key, dataSize := r.ReadEntityHeader();
    if skipped {
      status := r.SkipEntityData();
      seen := Seen(key, dataSize, []);
    } else {
      var data := ReadData(r, sizes, grants);
      seen, status := Seen(key, dataSize, data), r.status;
    }
  }

  const TWO_32 := 0x1_0000_0000

  /** Where a reader is that has seen what it should: the stream goes on at home, and the reader is there, or
    * past the padding there, or a multiple of four gigabytes before that. */
  ghost predicate OnTrack(f: seq<uint8>, home: nat, shift: int, at: nat, drift: int, es: seq<Entity>) {
    && Ahead(f, home, es)
    && shift <= 0 && shift % TWO_32 == 0 && drift <= 0 && drift % TWO_32 == 0
    && (at == home + shift || at == home + PaddingExtra(home) + shift)
    && (shift == 0 ==> Ahead(f, at, es))
  }

  ghost predicate FitsFrom(home: nat, shift: int, inStep: bool, es: seq<Entity>, skip: nat -> bool, k: nat)
    requires AllEncodable(es)
  {
    shift == 0 && Lands(home, es, skip, k, inStep)
  }

  lemma DriftIsAligned(n: int, m: int)
    requires m % 4 == 0
    ensures PaddingExtra(n + m) == PaddingExtra(n)
  {
    assert (n + m) % 4 == n % 4;
  }

  lemma ManyFours(m: int)
    requires m % TWO_32 == 0
    ensures m % 4 == 0
  {
    assert m == m / TWO_32 * TWO_32;
  }

  lemma SameHeaderAt(f: seq<uint8>, at: nat, drift: int)
    requires drift % 4 == 0
    ensures NextHeader(f, at, drift) == NextHeader(f, at, 0)
    ensures NextHeader(f, at, drift).Head? ==>
              var h := NextHeader(f, at, drift);
              var end := at + PaddingExtra(at) + HEADER_BYTES + |h.key| + 1;
              h.dataPos == end + PaddingExtra(end)
  {
    hide Word, PaddingExtra, Signed;
    DriftIsAligned(at, drift);
    var k := at + PaddingExtra(at) + HEADER_BYTES;
    if k <= |f| {
      var keyLen := Signed(Word(f, k - 8));
      DriftIsAligned(k + keyLen + 1, drift);
    }
  }

  /** The next header of a reader on track: the right one if it is in place, and whatever it finds with the
    * right key ends where the right one would, as far before that as the reader is. */
  lemma HeaderOnTrack(f: seq<uint8>, home: nat, shift: int, at: nat, drift: int, es: seq<Entity>)
    requires OnTrack(f, home, shift, at, drift, es) && es != []
    ensures var e, h := es[0], NextHeader(f, at, drift);
            && DataEnd(home, e) <= |f| && f[DataStart(home, e)..DataEnd(home, e)] == DataOf(e)
            && Ahead(f, DataEnd(home, e), es[1..])
            && (shift == 0 ==> h == Head(e.key, SizeOf(e), DataStart(home, e), if e.key == [] then EINVAL else NoError))
            && (h.Head? && h.key == e.key ==> h.dataPos == DataStart(home, e) + shift)
  {
    EntityReads(f, home, es);
    hide NextHeader, StreamBytes, PaddingExtra, BackupStream.Head, DataStart, DataEnd;
    ManyFours(drift);
    ManyFours(shift);
    SameHeaderAt(f, at, drift);
    KeyEnds(f, home, shift, at, drift, es[0]);
    if shift == 0 {
      EntityReads(f, at, es);
      PlaceOfData(home, shift, at, es[0]);
    }
  }

  lemma KeyEnds(f: seq<uint8>, home: nat, shift: int, at: nat, drift: int, e: Entity)
    requires Encodable(e) && shift % 4 == 0 && drift % 4 == 0
    requires at == home + shift || at == home + PaddingExtra(home) + shift
    ensures var h := NextHeader(f, at, drift);
            h.Head? && h.key == e.key ==> h.dataPos == DataStart(home, e) + shift
  {
    hide NextHeader, PaddingExtra, DataStart, Encodable;
    SameHeaderAt(f, at, drift);
    PlaceOfData(home, shift, at, e);
  }

  lemma PlaceOfData(home: nat, shift: int, at: nat, e: Entity)
    requires Encodable(e) && shift % 4 == 0
    requires at == home + shift || at == home + PaddingExtra(home) + shift
    ensures var k := at + PaddingExtra(at) + HEADER_BYTES + |e.key| + 1;
            k + PaddingExtra(k) == DataStart(home, e) + shift
    ensures shift == 0 ==> DataStart(at, e) == DataStart(home, e) && DataEnd(at, e) == DataEnd(home, e)
  {
    hide BackupStream.Head, PaddingExtra;
    var p := home + PaddingExtra(home);
    DriftIsAligned(home, shift);
    DriftIsAligned(p, shift);
    NoPadding(p);
    DriftIsAligned(|e.key| + 1, p + shift + HEADER_BYTES);
    assert at + PaddingExtra(at) == p + shift;
  }

  /** A reader before the end of its stream that is out of place does not find the end. */
  lemma EndOutOfPlace(f: seq<uint8>, home: nat, shift: int, at: nat, drift: int)
    requires OnTrack(f, home, shift, at, drift, []) && shift < 0
    ensures !NextHeader(f, at, drift).NoMore? && NextHeader(f, at, drift) != Failed(EIO)
  {
    hide Word;
    assert home == |f| by { EndReads(f, home); }
    assert shift <= -TWO_32;
  }

  /** From the end of an entity's data, its padding can be skipped unless it is the last and unpadded. */
  lemma SkipReaches(f: seq<uint8>, end: nat, es: seq<Entity>)
    requires Ahead(f, end, es)
    ensures es != [] ==> end + PaddingExtra(end) <= |f| && Ahead(f, end + PaddingExtra(end), es)
    ensures es == [] ==> end == |f| && (PaddingExtra(end) == 0 <==> |f| % 4 == 0)
  {
    if es != [] {
      PaddingSkipped(f, end, es);
    } else {
      EndReads(f, end);
    }
  }

  /** What skipping does to a reader on track: it is on track again after the entity, and whether the stream
    * fits is then a question about the rest; or the stream does not fit; or it ends here unpadded. */
  ghost predicate SkipKeeps(f: seq<uint8>, home: nat, shift: int, drift: int, es: seq<Entity>, skip: nat -> bool, k: nat,
                            shiftAfter: int)
    requires Ahead(f, home, es) && es != [] && DataStart(home, es[0]) + shift >= 0
  {
    var e, p := es[0], DataStart(home, es[0]) + shift;
    match SkipResult(f, p, p + drift, SizeOf(e), p + drift + SizeOf(e))
    case Refused(_) => !FitsFrom(home, shift, drift == 0, es, skip, k)
    case Landed(place, count) =>
      && OnTrack(f, DataEnd(home, e), shiftAfter, place, count - place, es[1..])
      && (FitsFrom(home, shift, drift == 0, es, skip, k) <==>
          FitsFrom(DataEnd(home, e), shiftAfter, count == place, es[1..], skip, k + 1))
      && (es[1..] == [] && shiftAfter == 0 ==> |f| % 4 == 0)
    case RanOut(error) =>
      error == EIO && es[1..] == [] && |f| % 4 != 0 && FitsFrom(home, shift, drift == 0, es, skip, k)
  }

  lemma SkipOnTrack(f: seq<uint8>, home: nat, shift: int, drift: int, es: seq<Entity>, skip: nat -> bool, k: nat)
    returns (shiftAfter: int)
    requires Ahead(f, home, es) && es != [] && skip(k)
    requires shift <= 0 && shift % TWO_32 == 0 && drift <= 0 && drift % TWO_32 == 0
    requires DataStart(home, es[0]) + shift >= 0
    requires DataEnd(home, es[0]) <= |f| && Ahead(f, DataEnd(home, es[0]), es[1..])
    ensures SkipKeeps(f, home, shift, drift, es, skip, k, shiftAfter)
  {
    hide SkipKeeps, Ahead, DataStart, DataEnd;
    if DataOf(es[0]) == [] {
      shiftAfter := shift;
      SkipNothing(f, home, shift, drift, es, skip, k);
    } else {
      shiftAfter := shift + drift;
      SkipData(f, home, shift, drift, es, skip, k);
    }
  }

  lemma SkipNothing(f: seq<uint8>, home: nat, shift: int, drift: int, es: seq<Entity>, skip: nat -> bool, k: nat)
    requires Ahead(f, home, es) && es != [] && DataOf(es[0]) == []
    requires shift <= 0 && shift % TWO_32 == 0 && drift <= 0 && drift % TWO_32 == 0
    requires DataStart(home, es[0]) + shift >= 0
    requires DataEnd(home, es[0]) <= |f| && Ahead(f, DataEnd(home, es[0]), es[1..])
    ensures SkipKeeps(f, home, shift, drift, es, skip, k, shift)
  {
    hide BackupStream.Head, PaddingExtra, StreamBytes, Int32, DataStart, Encodable, FitsFrom;
    var end := DataEnd(home, es[0]);
    SkipReaches(f, end, es[1..]);
    FitsUnfolds(home, shift, drift == 0, es, skip, k);
    ManyFours(shift);
    ManyFours(drift);
    NoPaddingAfter(DataStart(home, es[0]), shift, drift);
  }

  lemma SkipData(f: seq<uint8>, home: nat, shift: int, drift: int, es: seq<Entity>, skip: nat -> bool, k: nat)
    requires Ahead(f, home, es) && es != [] && skip(k) && DataOf(es[0]) != []
    requires shift <= 0 && shift % TWO_32 == 0 && drift <= 0 && drift % TWO_32 == 0
    requires DataStart(home, es[0]) + shift >= 0
    requires DataEnd(home, es[0]) <= |f| && Ahead(f, DataEnd(home, es[0]), es[1..])
    ensures SkipKeeps(f, home, shift, drift, es, skip, k, shift + drift)
  {
    hide BackupStream.Head, PaddingExtra, StreamBytes, Int32, DataStart, Encodable, FitsFrom;
    var end, shiftAfter := DataEnd(home, es[0]), shift + drift;
    SkipReaches(f, end, es[1..]);
    FitsUnfolds(home, shift, drift == 0, es, skip, k);
    var x := end + shiftAfter;
    Wraps(x);
    WrapKeepsPadding(end, shiftAfter, Int32(x) - x);
    FitsAtEnd(end, shiftAfter, end < 0x8000_0000, es[1..], skip, k + 1);
    FitsAtEnd(end, shiftAfter, Int32(x) == x, es[1..], skip, k + 1);
  }

  lemma FitsUnfolds(home: nat, shift: int, inStep: bool, es: seq<Entity>, skip: nat -> bool, k: nat)
    requires AllEncodable(es) && es != []
    ensures var end := DataEnd(home, es[0]);
            FitsFrom(home, shift, inStep, es, skip, k) <==>
              if skip(k) && DataOf(es[0]) != []
              then shift == 0 && inStep && Int32(end) != -1 && FitsFrom(end, 0, end < 0x8000_0000, es[1..], skip, k + 1)
              else FitsFrom(end, shift, inStep, es[1..], skip, k + 1)
  {
    hide Int32, DataEnd, Encodable;
  }

  lemma FitsAtEnd(home: nat, shift: int, inStep: bool, es: seq<Entity>, skip: nat -> bool, k: nat)
    requires AllEncodable(es)
    ensures es == [] && shift == 0 ==> FitsFrom(home, shift, inStep, es, skip, k)
    ensures shift != 0 ==> !FitsFrom(home, shift, inStep, es, skip, k)
  {
  }

  lemma NoPaddingAfter(p: nat, shift: int, drift: int)
    requires p % 4 == 0 && shift % 4 == 0 && drift % 4 == 0
    ensures PaddingExtra(p + shift + drift) == 0 && PaddingExtra(p) == 0
  {
  }

  lemma Wraps(x: int)
    ensures (Int32(x) - x) % TWO_32 == 0 && (x >= 0 ==> Int32(x) <= x && (Int32(x) == x <==> x < 0x8000_0000))
  {
  }

  lemma WrapKeepsPadding(end: nat, shift: int, drift: int)
    requires shift % TWO_32 == 0 && drift % TWO_32 == 0
    ensures PaddingExtra(end + shift + drift) == PaddingExtra(end)
  {
    ManyFours(shift);
    ManyFours(drift);
    DriftIsAligned(end, shift + drift);
  }

  /** What reading does: a reader out of place may read something else, but the reader in place does not. */
  lemma ReadOnTrack(f: seq<uint8>, home: nat, shift: int, at: nat, drift: int, es: seq<Entity>, skip: nat -> bool, k: nat,
                    data: seq<uint8>, after: After)
    requires OnTrack(f, home, shift, at, drift, es) && es != [] && es[0].key != [] && !skip(k)
    requires DataStart(home, es[0]) + shift >= 0
    requires DataRead(f, DataStart(home, es[0]) + shift, SizeOf(es[0]), data, after.status, after.done)
    requires after.at == DataStart(home, es[0]) + shift + |data| && after.pos == after.at + drift
    ensures var fits := FitsFrom(home, shift, drift == 0, es, skip, k);
            && (data != DataOf(es[0]) ==> !fits)
            && (data == DataOf(es[0]) ==>
                  && after.status == NoError && !after.done
                  && OnTrack(f, DataEnd(home, es[0]), shift, after.at, after.pos - after.at, es[1..])
                  && (fits <==> FitsFrom(DataEnd(home, es[0]), shift, after.pos == after.at, es[1..], skip, k + 1)))
  {
    hide NextHeader, PaddingExtra, DataStart, Encodable, StreamBytes;
    HeaderOnTrack(f, home, shift, at, drift, es);
    FitsUnfolds(home, shift, drift == 0, es, skip, k);
    hide FitsFrom;
    FitsAtEnd(home, shift, drift == 0, es, skip, k);
    assert Wanted(SizeOf(es[0])) == |DataOf(es[0])|;
  }

  /** One entity more: what a caller gets is right or the stream does not fit, and either way that a stream
    * fits is then a question about the rest of it. */
  lemma StepOnTrack(f: seq<uint8>, home: nat, shift: int, at: nat, drift: int, es: seq<Entity>, skip: nat -> bool, k: nat,
                    h: Next, one: Seen, status: Status, after: After)
    returns (shiftAfter: int)
    requires OnTrack(f, home, shift, at, drift, es) && es != [] && es[0].key != []
    requires h == NextHeader(f, at, drift) && h.Head? && one.key == h.key && one.dataSize == h.dataSize
    requires Handled(f, h.dataPos, drift, h.dataSize, skip(k), one.data, status, after)
    ensures var fits := FitsFrom(home, shift, drift == 0, es, skip, k);
            && (one != SeenOf(es[0], skip(k)) ==> !fits)
            && (one == SeenOf(es[0], skip(k)) && status != NoError ==>
                  (fits <==> after.done) && (after.done ==> es[1..] == [] && status == EIO && skip(k) && |f| % 4 != 0))
            && (one == SeenOf(es[0], skip(k)) && status == NoError ==>
                  && after.status == NoError && !after.done
                  && OnTrack(f, DataEnd(home, es[0]), shiftAfter, after.at, after.pos - after.at, es[1..])
                  && (fits <==> FitsFrom(DataEnd(home, es[0]), shiftAfter, after.pos == after.at, es[1..], skip, k + 1))
                  && (es[1..] == [] && shiftAfter == 0 && skip(k) ==> |f| % 4 == 0))
  {
    hide NextHeader, PaddingExtra, DataStart, DataEnd, StreamBytes, SkipResult, FitsFrom, OnTrack, DataRead, Encodable;
    TrackFacts(f, home, shift, at, drift, es);
    HeaderOnTrack(f, home, shift, at, drift, es);
    FitsAtEnd(home, shift, drift == 0, es, skip, k);
    shiftAfter := shift;
    if one.key == es[0].key && one.dataSize == SizeOf(es[0]) {
      if skip(k) {
        shiftAfter := SkipOnTrack(f, home, shift, drift, es, skip, k);
      } else {
        ReadOnTrack(f, home, shift, at, drift, es, skip, k, one.data, after);
      }
    }
  }

  lemma TrackFacts(f: seq<uint8>, home: nat, shift: int, at: nat, drift: int, es: seq<Entity>)
    requires OnTrack(f, home, shift, at, drift, es)
    ensures shift <= 0 && shift % TWO_32 == 0 && drift <= 0 && drift % TWO_32 == 0 && Ahead(f, home, es)
  {
  }

  /** A caller has seen the first of the entities, and nothing else. */
  ghost predicate IsPrefix(seen: seq<Seen>, es: seq<Entity>, skip: nat -> bool)
    requires AllEncodable(es)
  {
    |seen| <= |es| && forall i | 0 <= i < |seen| :: seen[i] == SeenOf(es[i], skip(i))
  }

  ghost predicate Sees(seen: seq<Seen>, es: seq<Entity>, skip: nat -> bool)
    requires AllEncodable(es)
  {
    |seen| == |es| && IsPrefix(seen, es, skip)
  }

  ghost predicate NoEmptyKey(es: seq<Entity>) {
    forall i | 0 <= i < |es| :: es[i].key != []
  }

  lemma StartsOnTrack(f: seq<uint8>, at: nat, es: seq<Entity>, skip: nat -> bool)
    requires Ahead(f, at, es)
    ensures OnTrack(f, at, 0, at, 0, es)
    ensures SkipsFit(at, es, skip) <==> FitsFrom(at, 0, true, es, skip, 0)
  {
    hide StreamBytes, Lands, Int32, EndOf, Encodable;
    LandsIfFit(at, es, skip, 0, true);
    assert forall i | 0 <= i < |es| :: Seeks(es, Later(skip, 0), i) <==> Seeks(es, skip, i);
  }

  /** A header's size is an int, and it is in order exactly if its key is not empty. */
  lemma HeadFacts(f: seq<uint8>, at: nat, drift: int)
    ensures var h := NextHeader(f, at, drift);
            h.Head? ==> -0x8000_0000 <= h.dataSize < 0x8000_0000 && h.status == if h.key == [] then EINVAL else NoError
  {
    hide Word, PaddingExtra;
  }

  /** What the next header tells about a reader on track: in place it finds the next entity or the end, and
    * out of place it never finds the end of a stream that has ended. */
  lemma NextOnTrack(f: seq<uint8>, home: nat, shift: int, at: nat, drift: int, es: seq<Entity>, skip: nat -> bool, k: nat)
    requires OnTrack(f, home, shift, at, drift, es)
    ensures var h := NextHeader(f, at, drift);
            && (shift != 0 ==> !FitsFrom(home, shift, drift == 0, es, skip, k))
            && (shift == 0 && es != [] ==> h.Head? && (h.status == NoError <==> es[0].key != []))
            && (shift == 0 && es == [] ==> h.NoMore? && FitsFrom(home, shift, drift == 0, es, skip, k))
            && (shift != 0 && es == [] ==> !h.NoMore? && h != Failed(EIO))
  {
    hide NextHeader, StreamBytes, PaddingExtra, DataStart, DataEnd, Encodable;
    FitsAtEnd(home, shift, drift == 0, es, skip, k);
    hide FitsFrom;
    if es != [] {
      HeaderOnTrack(f, home, shift, at, drift, es);
    } else if shift == 0 {
      ManyFours(drift);
      SameHeaderAt(f, at, drift);
      EndReads(f, at);
    } else {
      EndOutOfPlace(f, home, shift, at, drift);
    }
  }

  /** Reads a stream, skipping some entities and reading the data of the others, until it is done, something
    * fails, or as many entities have been read as the caller wants.  A caller that wants more than there are
    * sees exactly the entities and then the end if and only if none has an empty key and the skips fit; only
    * skipping the last entity can then fail, and does when its data ends unpadded. */
  method ReadAll(r: BackupDataReader, skip: nat -> bool, sizes: nat -> nat, grants: nat -> nat, most: nat,
                 ghost es: seq<Entity>)
    returns (seen: seq<Seen>, final: Status)
    requires r.status == NoError && !r.done && r.pos == r.at && Ahead(r.file, r.at, es) && most > |es|
    requires forall k :: sizes(k) < 0x7fff_ffff
    modifies r
    ensures r.done && Sees(seen, es, skip) <==> SkipsFit(old(r.at), es, skip) && NoEmptyKey(es)
    ensures r.done && Sees(seen, es, skip) ==>
              final == if es != [] && skip(|es| - 1) && |r.file| % 4 != 0 then EIO else NoError
  {
    hide NextHeader, StreamBytes, DataOf, SizeOf, SeenOf, Encodable, DataStart, DataEnd, FitsFrom, OnTrack, Handled,
      SkipsFit, NoEmptyKey;
    seen, final := [], NoError;
    ghost var fits, home, shift := SkipsFit(r.at, es, skip) && NoEmptyKey(es), r.at, 0;
    StartsOnTrack(r.file, r.at, es, skip);
    KeyOfFirst(es, |es|);
    assert es[0..] == es;
    while |seen| < most
      invariant r.status == NoError && !r.done
      invariant !IsPrefix(seen, es, skip) ==> !fits
      invariant IsPrefix(seen, es, skip) ==>
                  && OnTrack(r.file, home, shift, r.at, r.pos - r.at, es[|seen|..])
                  && (fits <==> FitsFrom(home, shift, r.pos == r.at, es[|seen|..], skip, |seen|) && NoEmptyKey(es[|seen|..]))
                  && (es != [] && |seen| == |es| && shift == 0 && skip(|es| - 1) ==> |r.file| % 4 == 0)
    {
      ghost var at, drift, k := r.at, r.pos - r.at, |seen|;
      ghost var h := NextHeader(r.file, at, drift);
      if IsPrefix(seen, es, skip) {
        KeyOfFirst(es, k);
        NextOnTrack(r.file, home, shift, at, drift, es[k..], skip, k);
      }
      var status, isDone := r.ReadNextHeader();
      if isDone {
        return seen, NoError;
      }
      if status != NoError {
        return seen, status;
      }
      HeadFacts(r.file, at, drift);
      var one;
      one, status := HandleEntity(r, skip(|seen|), sizes, grants);
      if IsPrefix(seen, es, skip) && k < |es| && es[k].key != [] {
        ghost var after := After(r.at, r.pos, r.status, r.done);
        ghost var next := StepOnTrack(r.file, home, shift, at, drift, es[k..], skip, k, h, one, status, after);
        shift, home := next, DataEnd(home, es[k]);
        assert es[k..][1..] == es[k + 1..];
      } else if k < |es| {
        SeenKey(es[k], skip(k));
      }
      seen := seen + [one];
      if status != NoError {
        return seen, status;
      }
    }
  }

  lemma SeenKey(e: Entity, skipped: bool)
    requires Encodable(e)
    ensures SeenOf(e, skipped).key == e.key
  {
  }

  lemma KeyOfFirst(es: seq<Entity>, k: nat)
    requires k <= |es|
    ensures NoEmptyKey(es[k..]) <==> (k < |es| ==> es[k].key != [] && NoEmptyKey(es[k + 1..]))
  {
    var rest := es[k..];
    if k < |es| {
      var later := es[k + 1..];
      assert rest == [es[k]] + later;
      if es[k].key != [] && NoEmptyKey(later) {
        forall i | 0 <= i < |rest|
          ensures rest[i].key != []
        {
          assert i > 0 ==> rest[i] == later[i - 1];
        }
      }
      if NoEmptyKey(rest) {
        assert rest[0] == es[k];
        forall i | 0 <= i < |later|
          ensures later[i].key != []
        {
          assert rest[i + 1] == later[i];
        }
      }
    }
  }

  /** Whatever is written - in any pieces, under any prefix, after anything already in the file - reads back
    * as the same list of entities exactly if none has an empty key and the skips fit. */
  method RoundTrip(existing: seq<uint8>, space: nat, prefix: seq<uint8>, ps: seq<Pending>,
                   skip: nat -> bool, sizes: nat -> nat, grants: nat -> nat)
    returns (written: bool, ended: bool, seen: seq<Seen>, final: Status)
    requires AllEncodable(EntitiesOf(ps, prefix))
    requires forall k :: sizes(k) < 0x7fff_ffff
    ensures var es := EntitiesOf(ps, prefix);
            && (written <==> |StreamBytes(|existing|, es)| <= space)
            && (written ==> (ended && Sees(seen, es, skip) <==> SkipsFit(|existing|, es, skip) && NoEmptyKey(es)))
            && (written && ended && Sees(seen, es, skip) && (ps == [] || !skip(|ps| - 1)) ==> final == NoError)
  {
    hide StreamBytes, EntityOf, Encodable, SkipsFit, Sees;
    var w := new BackupDataWriter(existing, space);
    w.SetKeyPrefix(prefix);
    var status := WriteAll(w, ps);
    if status != NoError {
      return false, false, [], status;
    }
    var r := new BackupDataReader(w.file, |existing|);
    ghost var es := EntitiesOf(ps, prefix);
    assert w.file[|existing|..] == StreamBytes(|existing|, es);
    seen, final := ReadAll(r, skip, sizes, grants, |ps| + 1, es);
    written, ended := true, r.done;
  }

  /** Every entity's data ends within the stream. */
  lemma {:induction false} EndsInFile(pos: nat, es: seq<Entity>, i: nat)
    requires AllEncodable(es) && i < |es|
    ensures EndOf(pos, es, i) <= pos + |StreamBytes(pos, es)|
    decreases i
  {
    hide DataStart, Encodable, BackupStream.Head, PaddingExtra;
    StreamParts(pos, es);
    EndIsThere(pos, es[0]);
    if i > 0 {
      EndsInFile(DataEnd(pos, es[0]), es[1..], i - 1);
    }
  }

  lemma EndIsThere(pos: nat, e: Entity)
    requires Encodable(e)
    ensures DataEnd(pos, e) == pos + |Padding(pos)| + |BackupStream.Head(e.key, SizeOf(e))| + |DataOf(e)|
  {
    hide PaddingExtra, BackupStream.Head;
  }

  /** Without skips, and in files that stay below two gigabytes, the skips fit. */
  lemma SmallStreamsFit(pos: nat, es: seq<Entity>, skip: nat -> bool)
    requires AllEncodable(es)
    requires pos + |StreamBytes(pos, es)| < 0x8000_0000 || forall i | 0 <= i < |es| :: !skip(i)
    ensures SkipsFit(pos, es, skip)
  {
    hide EndOf, StreamBytes, Encodable;
    forall i | 0 <= i < |es|
      ensures EndOf(pos, es, i) <= pos + |StreamBytes(pos, es)|
    {
      EndsInFile(pos, es, i);
    }
  }

  /** Three entities of a gigabyte that are all skipped do not: the second ends above two gigabytes, and the
    * third can no longer be skipped. */
  lemma ThreeGigabytesDoNotFit(key: seq<uint8>, data: seq<uint8>)
    requires 0 < |key| < 0x1000 && |data| == 0x4000_0000
    ensures var e := Entity(key, Some(data));
            AllEncodable([e, e, e]) && !SkipsFit(0, [e, e, e], _ => true)
  {
    hide Int32, BackupStream.Head, PaddingExtra;
    var e := Entity(key, Some(data));
    var es := [e, e, e];
    var all: nat -> bool := _ => true;
    EndIsThere(0, e);
    EndIsThere(DataEnd(0, e), e);
    assert es[1..] == [e, e] && [e, e][0] == e;
    assert EndOf(0, es, 1) == EndOf(DataEnd(0, e), [e, e], 0) == DataEnd(DataEnd(0, e), e);
    assert EndOf(0, es, 1) >= 0x8000_0000;
    assert Seeks(es, all, 1) && Seeks(es, all, 2);
  }

  /** Skipping the last entity of a stream fails when its data does not end at a multiple of four. */
  method SkipLast() returns (seen: seq<Seen>, final: Status)
    ensures final == EIO && seen == [Seen([0x6b], 1, [])]
  {
    hide StreamBytes;
    ghost var e := Entity([0x6b], Some([0x2a]));
    var w := new BackupDataWriter([], 100);
    var _ := WriteAll(w, [Pending([0x6b], Some([[0x2a]]))]);
    ghost var es := EntitiesOf([Pending([0x6b], Some([[0x2a]]))], []);
    assert Joined([[0x2a]]) == [0x2a] by { assert [[0x2a as uint8]][..0] == []; }
    assert es == [e];
    StreamCons(0, e, []);
    NothingYet(|EntityBytes(0, e)|);
    assert [e] + [] == [e];
    assert |StreamBytes(0, es)| == 17;
    var r := new BackupDataReader(w.file, 0);
    assert w.file[0..] == StreamBytes(0, es);
    SmallStreamsFit(0, es, _ => true);
    seen, final := ReadAll(r, _ => true, _ => 0, _ => 0, 2, es);
    assert seen[0] == SeenOf(e, true);
  }
}
