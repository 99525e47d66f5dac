/** The entity stream of a backup (libs/androidfw/BackupData.cpp): a writer that pads before each header,
  * a reader that skips that padding, and the round trip between them.
  */
module BackupStream {
  import opened Common
  import opened LittleEndian

  const BACKUP_HEADER_ENTITY_V1: uint32 := 0x6174_6144
  const HEADER_BYTES := 12
  const PADDING_BYTE: uint8 := 0xbc
  const COLON: uint8 := 0x3a

  /** Errno stands for whatever error number the system left, taken to be an error. */
  datatype Status = NoError | EIO | EINVAL | ENOMEM | Errno

  /** A key with its new value, or with nothing: the key is deleted. */
  datatype Entity = Entity(key: seq<uint8>, data: Option<seq<uint8>>)

  // ----- the format -----

  /** How many bytes are missing to the next multiple of four. */
  function PaddingExtra(n: int): (p: nat)
    ensures p < 4 && (n + p) % 4 == 0
  {
    [0, 3, 2, 1][n % 4]
  }

  function Padding(n: nat): (b: seq<uint8>)
    ensures |b| == PaddingExtra(n)
  {
    seq(PaddingExtra(n), _ => PADDING_BYTE)
  }

  type DataSize = x: int | -1 <= x < 0x8000_0000

  function Unsigned(size: DataSize): uint32 { if size < 0 then 0xffff_ffff else size }

  function Signed(v: uint32): int { if v < 0x8000_0000 then v else v - 0x1_0000_0000 }

  /** A header with its key, terminated and padded; it starts at a multiple of four. */
  function Head(key: seq<uint8>, dataSize: DataSize): (b: seq<uint8>)
    requires |key| < 0x8000_0000
    ensures |b| == HEADER_BYTES + |key| + 1 + PaddingExtra(|key| + 1) && |b| % 4 == 0
  {
    Fixed(|key|, dataSize) + (key + [0]) + Padding(|key| + 1)
  }

  function Fixed(keyLen: uint32, dataSize: DataSize): (b: seq<uint8>)
    ensures |b| == HEADER_BYTES
  {
    Encode32(BACKUP_HEADER_ENTITY_V1) + Encode32(keyLen) + Encode32(Unsigned(dataSize))
  }

  lemma HeadParts(key: seq<uint8>, dataSize: DataSize)
    requires |key| < 0x8000_0000
    ensures Head(key, dataSize) == Fixed(|key|, dataSize) + (key + [0]) + Padding(|key| + 1)
  {
  }

  /** What has been written after each of four writes, as a prefix of the whole. */
  lemma Pieces(before: seq<uint8>, a: seq<uint8>, b: seq<uint8>, c: seq<uint8>, d: seq<uint8>)
    ensures before + (a + (b + c + d)) == before + a + b + c + d
    ensures before <= before + a <= before + a + b <= before + a + b + c <= before + a + b + c + d
    ensures before + a + b + c <= before + (a + (b + c + d)) && before + a + b <= before + (a + (b + c + d))
    ensures before + a <= before + (a + (b + c + d)) && before <= before + (a + (b + c + d))
  {
  }

  predicate Encodable(e: Entity) {
    |e.key| < 0x8000_0000 && (e.data.Some? ==> |e.data.value| < 0x8000_0000)
  }

  function SizeOf(e: Entity): DataSize
    requires Encodable(e)
  {
    if e.data.Some? then |e.data.value| else -1
  }

  function DataOf(e: Entity): seq<uint8> {
    if e.data.Some? then e.data.value else []
  }

  /** What an entity adds to a stream of a given length: the padding its predecessor left out comes first. */
  function EntityBytes(at: nat, e: Entity): (b: seq<uint8>)
    requires Encodable(e)
    ensures |b| == PaddingExtra(at) + |Head(e.key, SizeOf(e))| + |DataOf(e)|
  {
    Padding(at) + Head(e.key, SizeOf(e)) + DataOf(e)
  }

  ghost predicate AllEncodable(es: seq<Entity>) {
    forall i | 0 <= i < |es| :: Encodable(es[i])
  }

  ghost function StreamBytes(at: nat, es: seq<Entity>): seq<uint8>
    requires AllEncodable(es)
    decreases |es|
  {
    if es == [] then [] else EntityBytes(at, es[0]) + StreamBytes(at + |EntityBytes(at, es[0])|, es[1..])
  }

  lemma {:induction false} StreamAppend(at: nat, es: seq<Entity>, e: Entity)
    requires AllEncodable(es) && Encodable(e)
    ensures StreamBytes(at, es + [e]) == StreamBytes(at, es) + EntityBytes(at + |StreamBytes(at, es)|, e)
    decreases |es|
  {
    hide EntityBytes, StreamBytes, Encodable;
    NothingYet(at);
    if es == [] {
      assert [e] + [] == [e] && es + [e] == [e];
      StreamCons(at, e, []);
      NothingYet(at + |EntityBytes(at, e)|);
    } else {
      var first, rest := EntityBytes(at, es[0]), es[1..];
      StreamAppend(at + |first|, rest, e);
      assert [es[0]] + rest == es && [es[0]] + (rest + [e]) == es + [e];
      StreamCons(at, es[0], rest);
      StreamCons(at, es[0], rest + [e]);
      var tail := StreamBytes(at + |first|, rest);
      Associative(first, tail, EntityBytes(at + |first| + |tail|, e));
    }
  }

  lemma StreamCons(at: nat, e: Entity, rest: seq<Entity>)
    requires Encodable(e) && AllEncodable(rest)
    ensures AllEncodable([e] + rest)
    ensures StreamBytes(at, [e] + rest) == EntityBytes(at, e) + StreamBytes(at + |EntityBytes(at, e)|, rest)
  {
    assert ([e] + rest)[1..] == rest;
  }

  lemma Associative(a: seq<uint8>, b: seq<uint8>, c: seq<uint8>)
    ensures a + (b + c) == a + b + c && |a + b| == |a| + |b|
  {
  }

  /** One more entity of a list, as the writer's loop sees it. */
  lemma StreamStep(at: nat, es: seq<Entity>, i: nat)
    requires AllEncodable(es) && i < |es|
    ensures AllEncodable(es[..i]) && AllEncodable(es[..i + 1])
    ensures StreamBytes(at, es[..i + 1]) == StreamBytes(at, es[..i]) + EntityBytes(at + |StreamBytes(at, es[..i])|, es[i])
    ensures StreamBytes(at, es[..i]) <= StreamBytes(at, es[..i + 1]) <= StreamBytes(at, es)
  {
    hide EntityBytes, StreamBytes;
    assert es[..i + 1] == es[..i] + [es[i]];
    StreamAppend(at, es[..i], es[i]);
    StreamPrefix(at, es, i + 1);
  }

  lemma {:induction false} StreamPrefix(at: nat, es: seq<Entity>, k: nat)
    requires AllEncodable(es) && k <= |es|
    ensures StreamBytes(at, es[..k]) <= StreamBytes(at, es)
    decreases |es| - k
  {
    hide EntityBytes;
    if k == |es| {
      assert es[..k] == es;
    } else {
      assert es[..k + 1] == es[..k] + [es[k]];
      StreamAppend(at, es[..k], es[k]);
      StreamPrefix(at, es, k + 1);
    }
  }

  // ----- the writer -----

  class BackupDataWriter {
    /** The file written to so far, and how much more it takes before writes fail. */
    var file: seq<uint8>
    var room: nat
    var status: Status
    var pos: nat
    var keyPrefix: seq<uint8>

    ghost predicate Valid()
      reads this
    {
      status == NoError ==> pos == |file|
    }

    constructor (existing: seq<uint8>, space: nat)
      ensures Valid() && file == existing && room == space && status == NoError && keyPrefix == []
    {
      file, room, status, pos, keyPrefix := existing, space, NoError, |existing|, [];
    }

    method SetKeyPrefix(prefix: seq<uint8>)
      modifies `keyPrefix
      ensures keyPrefix == prefix
    {
      keyPrefix := prefix;
    }

    /** The system's write: everything or, for want of room, nothing. */
    method Write(bytes: seq<uint8>) returns (ok: bool)
      modifies `file, `room
      ensures ok <==> |bytes| <= old(room)
      ensures if ok then file == old(file) + bytes && room == old(room) - |bytes| else file == old(file) && room == old(room)
    {
      ok := |bytes| <= room;
      if ok {
        file, room := file + bytes, room - |bytes|;
      }
    }

    method WritePaddingFor(n: nat) returns (r: Status)
      requires Valid() && status == NoError
      modifies `file, `room, `status, `pos
      ensures Valid() && r == status == if PaddingExtra(n) <= old(room) then NoError else Errno
      ensures if r == NoError then file == old(file) + Padding(n) && room == old(room) - PaddingExtra(n)
              else file == old(file) && room == old(room)
    {
      var paddingSize := PaddingExtra(n);
      if paddingSize > 0 {
        var ok := Write(Padding(n));
        if !ok {
          status := Errno;
          return status;
        }
        pos := pos + paddingSize;
      }
      return NoError;
    }

    /** The key as it is written, under the prefix if there is one. */
    function FullKey(key: seq<uint8>): seq<uint8>
      reads `keyPrefix
    {
      if |keyPrefix| > 0 then keyPrefix + [COLON] + key else key
    }

    /** Padding, header and key; a failed write leaves a prefix of that and poisons the writer. */
    method WriteEntityHeader(key: seq<uint8>, dataSize: DataSize) returns (r: Status)
      requires Valid() && |FullKey(key)| < 0x8000_0000
      modifies `file, `room, `status, `pos
      ensures Valid() && r == status
      ensures old(status) != NoError ==> status == old(status) && file == old(file)
      ensures old(status) == NoError ==>
                var added := Padding(|old(file)|) + Head(FullKey(key), dataSize);
                && (r == NoError <==> |added| <= old(room))
                && (r == NoError ==> file == old(file) + added && room == old(room) - |added|)
                && old(file) <= file <= old(file) + added
    {
      hide Padding, Fixed, Head, PaddingExtra;
      if status != NoError {
        return status;
      }
      var k := FullKey(key);
      HeadParts(k, dataSize);
      Pieces(file, Padding(pos), Fixed(|k|, dataSize), k + [0], Padding(|k| + 1));
      r := WritePaddingFor(pos);
      if r != NoError {
        return r;
      }
      var ok := Write(Fixed(|k|, dataSize));
      if !ok {
        status := Errno;
        return status;
      }
      pos := pos + HEADER_BYTES;
      ok := Write(k + [0]);
      if !ok {
        status := Errno;
        return status;
      }
      pos := pos + |k| + 1;
      r := WritePaddingFor(|k| + 1);
    }

    method WriteEntityData(data: seq<uint8>) returns (r: Status)
      requires Valid()
      modifies `file, `room, `status, `pos
      ensures Valid() && r == status
      ensures old(status) != NoError ==> status == old(status) && file == old(file) && room == old(room)
      ensures old(status) == NoError ==>
                && (r == NoError <==> |data| <= old(room))
                && (if r == NoError then file == old(file) + data && room == old(room) - |data|
                    else file == old(file) && room == old(room))
    {
      if status != NoError {
        return status;
      }
      var ok := Write(data);
      if !ok {
        status := Errno;
        return status;
      }
      pos := pos + |data|;
      return NoError;
    }
  }

  // ----- writing entities -----

  /** An entity as a caller hands it over: its data, if any, in pieces. */
  datatype Pending = Pending(key: seq<uint8>, chunks: Option<seq<seq<uint8>>>)

  function Joined(chunks: seq<seq<uint8>>): seq<uint8> {
    if chunks == [] then [] else Joined(chunks[..|chunks| - 1]) + chunks[|chunks| - 1]
  }

  function Prefixed(prefix: seq<uint8>, key: seq<uint8>): seq<uint8> {
    if |prefix| > 0 then prefix + [COLON] + key else key
  }

  /** The entity that ends up in the stream. */
  function EntityOf(p: Pending, prefix: seq<uint8>): Entity {
    Entity(Prefixed(prefix, p.key), if p.chunks.Some? then Some(Joined(p.chunks.value)) else None)
  }

  function EntitiesOf(ps: seq<Pending>, prefix: seq<uint8>): seq<Entity> {
    seq(|ps|, i requires 0 <= i < |ps| => EntityOf(ps[i], prefix))
  }

  /** Writes one entity; on failure what was written is a prefix of it. */
  method WriteEntity(w: BackupDataWriter, p: Pending) returns (r: Status)
    requires w.Valid() && w.status == NoError && Encodable(EntityOf(p, w.keyPrefix))
    modifies w`file, w`room, w`status, w`pos
    ensures w.Valid() && r == w.status
    ensures var added := EntityBytes(|old(w.file)|, EntityOf(p, w.keyPrefix));
            && (r == NoError <==> |added| <= old(w.room))
            && (r == NoError ==> w.file == old(w.file) + added && w.room == old(w.room) - |added|)
            && old(w.file) <= w.file <= old(w.file) + added
  {
    hide Head, Padding, Joined;
    var e := EntityOf(p, w.keyPrefix);
    ghost var before, head, data := w.file, Padding(|w.file|) + Head(e.key, SizeOf(e)), DataOf(e);
    r := w.WriteEntityHeader(p.key, SizeOf(e));
    assert before + (head + data) == before + head + data;
    if r != NoError || p.chunks.None? {
      return;
    }
    r := WriteChunks(w, p.chunks.value);
    assert before + head <= w.file;
  }

  method WriteChunks(w: BackupDataWriter, chunks: seq<seq<uint8>>) returns (r: Status)
    requires w.Valid() && w.status == NoError
    modifies w`file, w`room, w`status, w`pos
    ensures w.Valid() && r == w.status
    ensures r == NoError <==> |Joined(chunks)| <= old(w.room)
    ensures r == NoError ==> w.file == old(w.file) + Joined(chunks) && w.room == old(w.room) - |Joined(chunks)|
    ensures old(w.file) <= w.file <= old(w.file) + Joined(chunks)
  {
    for i := 0 to |chunks|
      invariant w.Valid() && w.status == NoError
      invariant |Joined(chunks[..i])| <= old(w.room) && w.room == old(w.room) - |Joined(chunks[..i])|
      invariant w.file == old(w.file) + Joined(chunks[..i])
    {
      assert chunks[..i + 1][..i] == chunks[..i];
      JoinedPrefix(chunks, i);
      JoinedPrefix(chunks, i + 1);
      r := w.WriteEntityData(chunks[i]);
      if r != NoError {
        return;
      }
    }
    assert chunks[..|chunks|] == chunks;
    r := NoError;
  }

  lemma {:induction false} JoinedPrefix(chunks: seq<seq<uint8>>, k: nat)
    requires k <= |chunks|
    ensures Joined(chunks[..k]) <= Joined(chunks)
    decreases |chunks| - k
  {
    if k == |chunks| {
      assert chunks[..k] == chunks;
    } else {
      assert chunks[..k + 1][..k] == chunks[..k];
      JoinedPrefix(chunks, k + 1);
    }
  }

  /** Writes a list of entities: all of it if it fits, and in any case a prefix of its bytes. */
  method WriteAll(w: BackupDataWriter, ps: seq<Pending>) returns (r: Status)
    requires w.Valid() && w.status == NoError && AllEncodable(EntitiesOf(ps, w.keyPrefix))
    modifies w`file, w`room, w`status, w`pos
    ensures w.Valid() && r == w.status
    ensures var added := StreamBytes(|old(w.file)|, EntitiesOf(ps, w.keyPrefix));
            && (r == NoError <==> |added| <= old(w.room))
            && (r == NoError ==> w.file == old(w.file) + added)
            && old(w.file) <= w.file <= old(w.file) + added
  {
    hide EntityBytes, EntityOf, Encodable, StreamBytes;
    ghost var at, es := |w.file|, EntitiesOf(ps, w.keyPrefix);
    NothingYet(at);
    for i := 0 to |ps|
      invariant w.Valid() && w.status == NoError
      invariant |StreamBytes(at, es[..i])| <= old(w.room) && w.room == old(w.room) - |StreamBytes(at, es[..i])|
      invariant w.file == old(w.file) + StreamBytes(at, es[..i])
    {
      StreamStep(at, es, i);
      r := WriteEntity(w, ps[i]);
      if r != NoError {
        return;
      }
    }
    assert es[..|ps|] == es;
    r := NoError;
  }

  lemma NothingYet(at: nat)
    ensures StreamBytes(at, []) == []
  {
  }
}
