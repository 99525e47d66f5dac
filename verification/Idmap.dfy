/** The idmap of a runtime resource overlay (libs/androidfw/ResourceTypes.cpp): createIdmap collects, per
  * type of the target package, which overlay entry replaces which target entry, and writes that as
  * bytes; parseIdmap and IdmapEntries.lookup read it back.
  */
module Idmap {
  import opened Common
  import opened LittleEndian

  const IDMAP_MAGIC: uint32 := 0x504D_4449
  const IDMAP_CURRENT_VERSION: uint32 := 1
  const PATH_BYTES := 256
  const IDMAP_HEADER_SIZE_BYTES := 4 * 4 + 2 * PATH_BYTES
  const NO_ENTRY: uint32 := 0xffff_ffff
  const TYPE_HEADER_BYTES := 8

  datatype Error = UnknownError | BadType
  datatype Result<+T> = Ok(value: T) | Err(error: Error)

  /** The type of a resource id, counted from 1, and the entry. */
  function TypeOf(id: uint32): uint8 { id / 0x1_0000 % 0x100 }

  function EntryOf(id: uint32): uint16 { id % 0x1_0000 }

  // ----- collecting one type -----

  /** The overlay's type (-1 until known), the first mapped entry, and the overlay entries from there on. */
  datatype TypeMap = TypeMap(overlayTypeId: int, entryOffset: nat, entryMap: seq<uint32>)

  const EMPTY_TYPE_MAP := TypeMap(-1, 0, [])

  function Gaps(n: nat): (g: seq<uint32>)
    ensures |g| == n && forall i | 0 <= i < n :: g[i] == NO_ENTRY
  {
    seq(n, _ => NO_ENTRY)
  }

  /** One entry of the target; id is the overlay's resource of the same type and name, 0 if there is none. */
  function AddEntry(tm: TypeMap, entryIndex: nat, id: uint32): Option<TypeMap> {
    if id == 0 then Some(if tm.entryMap == [] then tm.(entryOffset := tm.entryOffset + 1) else tm)
    else
      var typeId := if tm.overlayTypeId == -1 then TypeOf(id) else tm.overlayTypeId;
      if TypeOf(id) != typeId then None
      else
        var size := |tm.entryMap|;
        var filled := if tm.entryOffset + size < entryIndex then tm.entryMap + Gaps(entryIndex - tm.entryOffset - size)
                      else tm.entryMap;
        Some(TypeMap(typeId, tm.entryOffset, filled + [EntryOf(id)]))
  }

  /** The map of a type; None when its entries map to more than one overlay type. */
  function TypeMapOf(ids: seq<uint32>): Option<TypeMap> {
    if ids == [] then Some(EMPTY_TYPE_MAP)
    else
      var n := |ids| - 1;
      var before := TypeMapOf(ids[..n]);
      if before.None? then None else AddEntry(before.value, n, ids[n])
  }

  method BuildTypeMap(ids: seq<uint32>) returns (r: Option<TypeMap>)
    ensures r == TypeMapOf(ids)
  {
    var tm := EMPTY_TYPE_MAP;
    for e := 0 to |ids|
      invariant TypeMapOf(ids[..e]) == Some(tm)
    {
      assert ids[..e + 1][..e] == ids[..e];
      if ids[e] == 0 {
        if tm.entryMap == [] {
          tm := tm.(entryOffset := tm.entryOffset + 1);
        }
        continue;
      }
      if tm.overlayTypeId == -1 {
        tm := tm.(overlayTypeId := TypeOf(ids[e]));
      }
      if TypeOf(ids[e]) != tm.overlayTypeId {
        MixedStaysMixed(ids, e + 1);
        return None;
      }
      var oldSize := |tm.entryMap|;
      if tm.entryOffset + oldSize < e {
        tm := tm.(entryMap := tm.entryMap + Gaps(e - tm.entryOffset - oldSize) + [EntryOf(ids[e])]);
      } else {
        tm := tm.(entryMap := tm.entryMap + [EntryOf(ids[e])]);
      }
    }
    assert ids[..|ids|] == ids;
    return Some(tm);
  }

  lemma {:induction false} MixedStaysMixed(ids: seq<uint32>, n: nat)
    requires n <= |ids| && TypeMapOf(ids[..n]) == None
    ensures TypeMapOf(ids) == None
    decreases |ids| - n
  {
    if n == |ids| {
      assert ids[..n] == ids;
    } else {
      assert ids[..n + 1][..n] == ids[..n];
      MixedStaysMixed(ids, n + 1);
    }
  }

  /** What a type map says about an entry. */
  function EntryIn(tm: TypeMap, e: nat): Option<uint16> {
    if e < tm.entryOffset || e - tm.entryOffset >= |tm.entryMap| || tm.entryMap[e - tm.entryOffset] == NO_ENTRY then None
    else Some(EntryOf(tm.entryMap[e - tm.entryOffset]))
  }

  /** What it should say. */
  function Replacement(ids: seq<uint32>, e: nat): Option<uint16> {
    if e < |ids| && ids[e] != 0 then Some(EntryOf(ids[e])) else None
  }

  /** The map starts and ends with a mapped entry, so it is no longer than need be. */
  predicate Tight(tm: TypeMap) {
    |tm.entryMap| > 0 ==> tm.entryMap[0] != NO_ENTRY && tm.entryMap[|tm.entryMap| - 1] != NO_ENTRY
  }

  lemma {:induction false} MapOfIsExact(ids: seq<uint32>, e: nat)
    requires TypeMapOf(ids).Some?
    ensures EntryIn(TypeMapOf(ids).value, e) == Replacement(ids, e)
    ensures var tm := TypeMapOf(ids).value;
            && tm.entryOffset + |tm.entryMap| <= |ids| && Tight(tm)
            && (tm.entryMap == [] ==> tm.entryOffset == |ids| && tm.overlayTypeId == -1)
            && (tm.entryMap != [] ==> 0 <= tm.overlayTypeId < 0x100)
            && (e < |ids| && ids[e] != 0 ==> TypeOf(ids[e]) == tm.overlayTypeId && tm.entryMap != [])
  {
    if ids != [] {
      MapOfIsExact(ids[..|ids| - 1], e);
    }
  }

  /** Collecting fails exactly when two entries of the type map to different overlay types. */
  lemma {:induction false} MixedIffTwoTypes(ids: seq<uint32>)
    ensures TypeMapOf(ids).None? <==>
            exists i, j | 0 <= i < |ids| && 0 <= j < |ids| :: ids[i] != 0 && ids[j] != 0 && TypeOf(ids[i]) != TypeOf(ids[j])
  {
    if ids != [] {
      var n := |ids| - 1;
      var front := ids[..n];
      MixedIffTwoTypes(front);
      if TypeMapOf(front).Some? {
        var tm := TypeMapOf(front).value;
        forall i | 0 <= i < n
          ensures ids[i] != 0 ==> TypeOf(ids[i]) == tm.overlayTypeId && tm.entryMap != []
        {
          MapOfIsExact(front, i);
        }
        MapOfIsExact(front, 0);
        if tm.entryMap != [] {
          var e := SomeEntry(front);
        }
      } else {
        var i, j :| 0 <= i < n && 0 <= j < n && front[i] != 0 && front[j] != 0 && TypeOf(front[i]) != TypeOf(front[j]);
        assert ids[i] != 0 && ids[j] != 0 && TypeOf(ids[i]) != TypeOf(ids[j]);
      }
    }
  }

  lemma SomeEntry(ids: seq<uint32>) returns (e: nat)
    requires TypeMapOf(ids).Some? && TypeMapOf(ids).value.entryMap != []
    ensures e < |ids| && ids[e] != 0
  {
    e := TypeMapOf(ids).value.entryOffset;
    MapOfIsExact(ids, e);
  }

  // ----- collecting all types -----

  /** A mapped type of the target, by its index. */
  datatype Typed = Typed(typeIndex: uint8, tm: TypeMap)

  /** The mapped types among the first n, in order. */
  function Collect(types: seq<seq<uint32>>, n: nat): (r: Option<seq<Typed>>)
    requires n <= |types| < 0x100
    ensures r.Some? ==> |r.value| <= n
  {
    if n == 0 then Some([])
    else
      var before := Collect(types, n - 1);
      var tm := TypeMapOf(types[n - 1]);
      if before.None? || tm.None? then None
      else Some(if tm.value.entryMap == [] then before.value else before.value + [Typed(n - 1, tm.value)])
  }

  lemma {:induction false} CollectFails(types: seq<seq<uint32>>, n: nat, m: nat)
    requires n <= m <= |types| < 0x100 && Collect(types, n) == None
    ensures Collect(types, m) == None
  {
    if n < m {
      CollectFails(types, n, m - 1);
    }
  }

  /** Every type with a mapped entry is among the collected, and every collected one is such a type. */
  lemma {:induction false} CollectedExactly(types: seq<seq<uint32>>, n: nat)
    requires n <= |types| < 0x100 && Collect(types, n).Some?
    ensures var maps := Collect(types, n).value;
            && (forall k | 0 <= k < |maps| :: maps[k].typeIndex < n && maps[k].tm.entryMap != []
                                              && TypeMapOf(types[maps[k].typeIndex]) == Some(maps[k].tm))
            && (forall j, k | 0 <= j < k < |maps| :: maps[j].typeIndex < maps[k].typeIndex)
            && (forall t | 0 <= t < n ::
                  TypeMapOf(types[t]).Some?
                  && (TypeMapOf(types[t]).value.entryMap != [] ==> Typed(t, TypeMapOf(types[t]).value) in maps))
  {
    if n > 0 {
      CollectedExactly(types, n - 1);
    }
  }

  // ----- the format -----

  function Low16(n: int): uint16 { n % 0x1_0000 }

  function Words(ws: seq<uint32>): (b: seq<uint8>)
    ensures |b| == 4 * |ws|
  {
    if ws == [] then [] else Words(ws[..|ws| - 1]) + Encode32(ws[|ws| - 1])
  }

  function TypeHeader(t: Typed): (b: seq<uint8>)
    ensures |b| == TYPE_HEADER_BYTES
  {
    Encode16(t.typeIndex + 1) + Encode16(Low16(t.tm.overlayTypeId)) + Encode16(Low16(|t.tm.entryMap|))
    + Encode16(Low16(t.tm.entryOffset))
  }

  function Block(t: Typed): (b: seq<uint8>)
    ensures |b| == TYPE_HEADER_BYTES + 4 * |t.tm.entryMap|
  {
    TypeHeader(t) + Words(t.tm.entryMap)
  }

  function Blocks(maps: seq<Typed>): seq<uint8> {
    if maps == [] then [] else Block(maps[0]) + Blocks(maps[1..])
  }

  lemma {:induction false} BlocksAppend(maps: seq<Typed>, t: Typed)
    ensures Blocks(maps + [t]) == Blocks(maps) + Block(t)
  {
    hide Block;
    if maps == [] {
      assert maps + [t] == [t] && [t][1..] == [];
    } else {
      BlocksAppend(maps[1..], t);
      assert (maps + [t])[1..] == maps[1..] + [t];
      assert Block(maps[0]) + (Blocks(maps[1..]) + Block(t)) == Blocks(maps) + Block(t);
    }
  }

  /** A path, padded with zeros to 256 bytes. */
  function PathField(path: seq<uint8>): (b: seq<uint8>)
    requires |path| < PATH_BYTES
    ensures |b| == PATH_BYTES
  {
    path + seq(PATH_BYTES - |path|, _ => 0)
  }

  datatype Meta = Meta(targetCrc: uint32, overlayCrc: uint32, targetPath: seq<uint8>, overlayPath: seq<uint8>)

  function Numbers(meta: Meta): (b: seq<uint8>)
    ensures |b| == 16
  {
    Encode32(IDMAP_MAGIC) + Encode32(IDMAP_CURRENT_VERSION) + Encode32(meta.targetCrc) + Encode32(meta.overlayCrc)
  }

  function Header(meta: Meta): (b: seq<uint8>)
    requires |meta.targetPath| < PATH_BYTES && |meta.overlayPath| < PATH_BYTES
    ensures |b| == IDMAP_HEADER_SIZE_BYTES
  {
    Numbers(meta) + PathField(meta.targetPath) + PathField(meta.overlayPath)
  }

  function Image(meta: Meta, packageId: uint8, maps: seq<Typed>): seq<uint8>
    requires |meta.targetPath| < PATH_BYTES && |meta.overlayPath| < PATH_BYTES
  {
    Header(meta) + Encode16(packageId) + Encode16(Low16(|maps|)) + Blocks(maps)
  }

  /** What createIdmap makes of a target package's types. */
  function Created(types: seq<seq<uint32>>, packageId: uint8, meta: Meta): Result<seq<uint8>>
    requires |types| < 0x100
  {
    var maps := Collect(types, |types|);
    if maps.None? then Err(BadType)
    else if maps.value == [] || |meta.targetPath| >= PATH_BYTES || |meta.overlayPath| >= PATH_BYTES then Err(UnknownError)
    else Ok(Image(meta, packageId, maps.value))
  }

  // ----- writing -----

  /** Writes bytes at a position of the output buffer. */
  method Emit(data: array<uint8>, at: nat, bytes: seq<uint8>) returns (next: nat)
    requires at + |bytes| <= data.Length
    modifies data
    ensures next == at + |bytes| && data[..next] == old(data[..at]) + bytes
  {
    for i := 0 to |bytes|
      invariant data[..at + i] == old(data[..at]) + bytes[..i]
    {
      data[at + i] := bytes[i];
    }
    next := at + |bytes|;
  }

  method EmitPath(data: array<uint8>, at: nat, path: seq<uint8>) returns (next: nat)
    requires at + PATH_BYTES <= data.Length && |path| < PATH_BYTES
    modifies data
    ensures next == at + PATH_BYTES && data[..next] == old(data[..at]) + PathField(path)
  {
    for i := 0 to PATH_BYTES
      invariant data[..at + i] == old(data[..at]) + PathField(path)[..i]
    {
      data[at + i] := if i < |path| then path[i] else 0;
    }
    next := at + PATH_BYTES;
  }

  method EmitBlock(data: array<uint8>, at: nat, t: Typed) returns (next: nat)
    requires at + |Block(t)| <= data.Length
    modifies data
    ensures next == at + |Block(t)| && data[..next] == old(data[..at]) + Block(t)
  {
    hide TypeHeader, Block, Encode32;
    BlockParts(t);
    next := Emit(data, at, TypeHeader(t));
    ghost var start := data[..next];
    var entries := t.tm.entryMap;
    for j := 0 to |entries|
      invariant next == at + TYPE_HEADER_BYTES + 4 * j && data[..next] == start + Words(entries[..j])
    {
      assert entries[..j + 1][..j] == entries[..j];
      next := Emit(data, next, Encode32(entries[j]));
    }
    assert entries[..|entries|] == entries;
  }

  lemma BlockParts(t: Typed)
    ensures Block(t) == TypeHeader(t) + Words(t.tm.entryMap)
  {
  }

  method EmitBlocks(data: array<uint8>, at: nat, maps: seq<Typed>) returns (next: nat)
    requires at + |Blocks(maps)| <= data.Length
    modifies data
    ensures next == at + |Blocks(maps)| && data[..next] == old(data[..at]) + Blocks(maps)
  {
    hide Block;
    next := at;
    for i := 0 to |maps|
      invariant at <= next && next + |Blocks(maps[i..])| == at + |Blocks(maps)| <= data.Length
      invariant data[..next] + Blocks(maps[i..]) == old(data[..at]) + Blocks(maps)
    {
      assert maps[i..][1..] == maps[i + 1..];
      next := EmitBlock(data, next, maps[i]);
    }
  }

  /** The bytes written fill the buffer, whose size was added up while collecting, exactly. */
  method CreateIdmap(types: seq<seq<uint32>>, packageId: uint8, meta: Meta) returns (r: Result<array<uint8>>)
    requires |types| < 0x100
    ensures r.Ok? ==> fresh(r.value) && Created(types, packageId, meta) == Ok(r.value[..])
    ensures r.Err? ==> Created(types, packageId, meta) == Err(r.error)
  {
    hide Header, Block, Blocks, TypeMapOf;
    var outSize := IDMAP_HEADER_SIZE_BYTES + 2 * 2;
    var maps: seq<Typed> := [];
    EmptyBlocks();
    for t := 0 to |types|
      invariant Collect(types, t) == Some(maps)
      invariant outSize == IDMAP_HEADER_SIZE_BYTES + 4 + |Blocks(maps)|
    {
      var tm := BuildTypeMap(types[t]);
      if tm.None? {
        CollectFails(types, t + 1, |types|);
        return Err(BadType);
      }
      if tm.value.entryMap != [] {
        BlocksAppend(maps, Typed(t, tm.value));
        maps := maps + [Typed(t, tm.value)];
        outSize := outSize + TYPE_HEADER_BYTES + 4 * |tm.value.entryMap|;
      }
    }
    if maps == [] {
      return Err(UnknownError);
    }
    var data := new uint8[outSize];
    if |meta.targetPath| > 255 || |meta.overlayPath| > 255 {
      return Err(UnknownError);
    }
    var next := EmitHeader(data, meta);
    next := Emit(data, next, Encode16(packageId));
    next := Emit(data, next, Encode16(Low16(|maps|)));
    next := EmitBlocks(data, next, maps);
    assert data[..next] == data[..];
    return Ok(data);
  }

  lemma EmptyBlocks()
    ensures Blocks([]) == []
  {
  }

  method EmitHeader(data: array<uint8>, meta: Meta) returns (next: nat)
    requires IDMAP_HEADER_SIZE_BYTES <= data.Length && |meta.targetPath| < PATH_BYTES && |meta.overlayPath| < PATH_BYTES
    modifies data
    ensures next == IDMAP_HEADER_SIZE_BYTES && data[..next] == Header(meta)
  {
    hide Encode32, PathField, Numbers;
    next := Emit(data, 0, Numbers(meta));
    next := EmitPath(data, next, meta.targetPath);
    next := EmitPath(data, next, meta.overlayPath);
  }

  // ----- reading -----

  /** Numbers at an offset; what lies beyond the data reads as 0. */
  function U16(m: seq<uint8>, o: nat): uint16 {
    if o + 2 <= |m| then Decode16(m[o..o + 2]) else 0
  }

  function U32(m: seq<uint8>, o: nat): uint32 {
    if o + 4 <= |m| then Decode32(m[o..o + 4]) else 0
  }

  /** assertIdmapHeader, for data that is aligned. */
  predicate HeaderOk(m: seq<uint8>) {
    |m| >= IDMAP_HEADER_SIZE_BYTES && U32(m, 0) == IDMAP_MAGIC && U32(m, 4) == IDMAP_CURRENT_VERSION
  }

  /** IdmapEntries.setTo: whether size bytes can hold the type block at an offset. */
  predicate BlockOk(m: seq<uint8>, at: nat, size: nat) {
    && size >= TYPE_HEADER_BYTES
    && 0 < U16(m, at) <= 255 && 0 < U16(m, at + 2) <= 255
    && size >= 4 * (U16(m, at + 4) + 2)
  }

  function BlockBytes(m: seq<uint8>, at: nat): nat {
    TYPE_HEADER_BYTES + 4 * U16(m, at + 4)
  }

  /** The type blocks from an offset on, by overlay type; a later block replaces an earlier one. */
  function ParseBlocks(m: seq<uint8>, at: nat, size: nat, found: map<nat, nat>): Result<map<nat, nat>>
    decreases size
  {
    if size <= TYPE_HEADER_BYTES then Ok(found)
    else if !BlockOk(m, at, size) then Err(UnknownError)
    else ParseBlocks(m, at + BlockBytes(m, at), size - BlockBytes(m, at), found[U16(m, at + 2) := at])
  }

  datatype Parsed = Parsed(packageId: uint8, blocks: map<nat, nat>)

  /** parseIdmap.  The size of the package and count words is not subtracted from what remains. */
  function Parse(m: seq<uint8>): Result<Parsed> {
    if !HeaderOk(m) || |m| - IDMAP_HEADER_SIZE_BYTES < 4 then Err(UnknownError)
    else
      var packageId, mapCount := U16(m, IDMAP_HEADER_SIZE_BYTES), U16(m, IDMAP_HEADER_SIZE_BYTES + 2);
      if packageId == 0 || packageId > 255 || mapCount == 0 then Err(UnknownError)
      else
        match ParseBlocks(m, IDMAP_HEADER_SIZE_BYTES + 4, |m| - IDMAP_HEADER_SIZE_BYTES, map[])
        case Ok(blocks) => Ok(Parsed(packageId, blocks))
        case Err(e) => Err(e)
  }

  method ParseIdmap(m: seq<uint8>) returns (r: Result<Parsed>)
    ensures r == Parse(m)
  {
    if !HeaderOk(m) {
      return Err(UnknownError);
    }
    var size := |m| - IDMAP_HEADER_SIZE_BYTES;
    if size < 4 {
      return Err(UnknownError);
    }
    var packageId, mapCount := U16(m, IDMAP_HEADER_SIZE_BYTES), U16(m, IDMAP_HEADER_SIZE_BYTES + 2);
    if packageId == 0 || packageId > 255 || mapCount == 0 {
      return Err(UnknownError);
    }
    var at: nat := IDMAP_HEADER_SIZE_BYTES + 4;
    var blocks: map<nat, nat> := map[];
    ghost var whole := ParseBlocks(m, at, size, blocks);
    while size > TYPE_HEADER_BYTES
      invariant size >= 0 && whole == ParseBlocks(m, at, size, blocks)
      decreases size
    {
      if !BlockOk(m, at, size) {
        return Err(UnknownError);
      }
      blocks := blocks[U16(m, at + 2) := at];
      var bytes := BlockBytes(m, at);
      at, size := at + bytes, size - bytes;
    }
    return Ok(Parsed(packageId, blocks));
  }

  /** IdmapEntries.lookup in the block at an offset. */
  function Lookup(m: seq<uint8>, at: nat, entryId: uint16): Option<uint16> {
    var entryCount, offset := U16(m, at + 4), U16(m, at + 6);
    if entryId < offset || entryId - offset >= entryCount then None
    else
      var mapped := U32(m, at + TYPE_HEADER_BYTES + 4 * (entryId - offset));
      if mapped == NO_ENTRY then None else Some(EntryOf(mapped))
  }

  function TargetType(m: seq<uint8>, at: nat): uint16 { U16(m, at) }

  // ----- round trip -----

  /** A type block that its 16-bit fields can hold, with real type ids. */
  predicate Fits(t: Typed) {
    && t.typeIndex < 255 && 0 < t.tm.overlayTypeId <= 255
    && 0 < |t.tm.entryMap| && t.tm.entryOffset + |t.tm.entryMap| < 0x1_0000
  }

  lemma {:induction false} WordsAt(ws: seq<uint32>, j: nat)
    requires j < |ws|
    ensures Words(ws)[4 * j..4 * j + 4] == Encode32(ws[j])
  {
    hide Encode32;
    var n := |ws| - 1;
    if j < n {
      WordsAt(ws[..n], j);
      assert Words(ws)[4 * j..4 * j + 4] == Words(ws[..n])[4 * j..4 * j + 4];
    }
  }

  /** The slice of m that starts at an offset with these bytes. */
  predicate Holds(m: seq<uint8>, at: nat, bytes: seq<uint8>) {
    at + |bytes| <= |m| && m[at..at + |bytes|] == bytes
  }

  lemma HoldsPart(m: seq<uint8>, at: nat, a: seq<uint8>, b: seq<uint8>, c: seq<uint8>)
    requires Holds(m, at, a + b + c)
    ensures Holds(m, at, a) && Holds(m, at + |a|, b) && Holds(m, at + |a| + |b|, c)
  {
    var all := a + b + c;
    assert all[..|a|] == a && all[|a|..|a| + |b|] == b && all[|a| + |b|..] == c;
    forall i | 0 <= i < |all|
      ensures m[at + i] == all[i]
    {
      assert m[at..at + |all|][i] == m[at + i];
    }
  }

  lemma HoldsU16(m: seq<uint8>, at: nat, v: uint16)
    requires Holds(m, at, Encode16(v))
    ensures U16(m, at) == v
  {
    hide Encode16, Decode16;
    RoundTrip16(v);
  }

  lemma HoldsU32(m: seq<uint8>, at: nat, v: uint32)
    requires Holds(m, at, Encode32(v))
    ensures U32(m, at) == v
  {
    hide Encode32, Decode32;
    RoundTrip32(v);
  }

  lemma HoldsWord(m: seq<uint8>, at: nat, ws: seq<uint32>, k: nat)
    requires Holds(m, at, Words(ws)) && k < |ws|
    ensures U32(m, at + 4 * k) == ws[k]
  {
    hide Words, Encode32, U32, Holds;
    WordsAt(ws, k);
    var o := 4 * k;
    assert Words(ws)[o..o + 4] == Encode32(ws[k]);
    SubSlice(m, at, Words(ws), o, 4);
    HoldsU32(m, at + o, ws[k]);
  }

  lemma SubSlice(m: seq<uint8>, at: nat, bytes: seq<uint8>, o: nat, n: nat)
    requires Holds(m, at, bytes) && o + n <= |bytes|
    ensures Holds(m, at + o, bytes[o..o + n])
  {
    hide Holds;
    assert bytes[..o] + bytes[o..o + n] + bytes[o + n..] == bytes;
    HoldsPart(m, at, bytes[..o], bytes[o..o + n], bytes[o + n..]);
  }

  /** A type block reads back as what was written. */
  lemma BlockReads(m: seq<uint8>, at: nat, t: Typed)
    requires Holds(m, at, Block(t)) && Fits(t)
    ensures U16(m, at) == t.typeIndex + 1 && U16(m, at + 2) == t.tm.overlayTypeId
    ensures U16(m, at + 4) == |t.tm.entryMap| && U16(m, at + 6) == t.tm.entryOffset
    ensures Holds(m, at + TYPE_HEADER_BYTES, Words(t.tm.entryMap))
  {
    hide Words, Encode16, Holds, U16;
    assert TypeHeader(t) + Words(t.tm.entryMap) + [] == Block(t);
    HoldsPart(m, at, TypeHeader(t), Words(t.tm.entryMap), []);
    var a, b := Encode16(t.typeIndex + 1), Encode16(t.tm.overlayTypeId);
    var c, d := Encode16(|t.tm.entryMap|), Encode16(t.tm.entryOffset);
    assert TypeHeader(t) == a + b + (c + d);
    HoldsPart(m, at, a, b, c + d);
    assert c + d + [] == c + d;
    HoldsPart(m, at + 4, c, d, []);
    HoldsU16(m, at, t.typeIndex + 1);
    HoldsU16(m, at + 2, t.tm.overlayTypeId);
    HoldsU16(m, at + 4, |t.tm.entryMap|);
    HoldsU16(m, at + 6, t.tm.entryOffset);
  }

  /** Looking an entry up in a written block gives what the type map says. */
  lemma LookupReads(m: seq<uint8>, at: nat, t: Typed, e: uint16)
    requires Holds(m, at, Block(t)) && Fits(t)
    ensures Lookup(m, at, e) == EntryIn(t.tm, e)
  {
    hide Block, Words, Holds, U32, U16;
    BlockReads(m, at, t);
    var k := e - t.tm.entryOffset;
    if 0 <= k < |t.tm.entryMap| {
      HoldsWord(m, at + TYPE_HEADER_BYTES, t.tm.entryMap, k);
    }
  }

  /** Where the k-th of a run of blocks starts. */
  function BlockStart(maps: seq<Typed>, k: nat): nat
    requires k <= |maps|
  {
    |Blocks(maps[..k])|
  }

  lemma BlocksSplit(maps: seq<Typed>, k: nat)
    requires k < |maps|
    ensures Blocks(maps[..k + 1]) == Blocks(maps[..k]) + Block(maps[k])
  {
    assert maps[..k + 1] == maps[..k] + [maps[k]];
    BlocksAppend(maps[..k], maps[k]);
  }

  lemma {:induction false} BlocksHeld(m: seq<uint8>, at: nat, maps: seq<Typed>, k: nat)
    requires Holds(m, at, Blocks(maps)) && k < |maps|
    ensures Holds(m, at + BlockStart(maps, k), Block(maps[k]))
    decreases |maps|
  {
    hide Block;
    var n := |maps| - 1;
    BlocksSplit(maps, n);
    assert maps[..n + 1] == maps;
    assert Blocks(maps[..n]) + Block(maps[n]) + [] == Blocks(maps);
    HoldsPart(m, at, Blocks(maps[..n]), Block(maps[n]), []);
    if k < n {
      BlocksHeld(m, at, maps[..n], k);
      assert maps[..n][..k] == maps[..k];
    }
  }

  /** The block, if any, that speaks for an overlay type: the last one written for it. */
  ghost predicate SpeaksFor(maps: seq<Typed>, k: nat, overlayType: nat) {
    k < |maps| && maps[k].tm.overlayTypeId == overlayType
    && forall j | k < j < |maps| :: maps[j].tm.overlayTypeId != overlayType
  }

  /** What has been found once the first i blocks are read. */
  ghost predicate FoundUpTo(maps: seq<Typed>, i: nat, at: nat, found: map<nat, nat>)
    requires i <= |maps|
  {
    && (forall t | t in found :: exists k | 0 <= k < i :: SpeaksFor(maps[..i], k, t) && found[t] == at + BlockStart(maps, k))
    && (forall k | 0 <= k < i :: maps[k].tm.overlayTypeId >= 0 && maps[k].tm.overlayTypeId in found)
  }

  lemma FoundNext(maps: seq<Typed>, i: nat, at: nat, found: map<nat, nat>)
    requires i < |maps| && FoundUpTo(maps, i, at, found) && maps[i].tm.overlayTypeId >= 0
    ensures FoundUpTo(maps, i + 1, at, found[maps[i].tm.overlayTypeId := at + BlockStart(maps, i)])
  {
    hide BlockStart;
    var now := found[maps[i].tm.overlayTypeId := at + BlockStart(maps, i)];
    forall t | t in now
      ensures exists k | 0 <= k < i + 1 :: SpeaksFor(maps[..i + 1], k, t) && now[t] == at + BlockStart(maps, k)
    {
      if t == maps[i].tm.overlayTypeId {
        assert SpeaksFor(maps[..i + 1], i, t);
      } else {
        var k :| 0 <= k < i && SpeaksFor(maps[..i], k, t) && found[t] == at + BlockStart(maps, k);
        assert SpeaksFor(maps[..i + 1], k, t);
      }
    }
  }

  /** The parser walks the written blocks one by one and stops after the last. */
  lemma {:induction false} BlocksParse(m: seq<uint8>, at: nat, maps: seq<Typed>, i: nat, o: nat, size: nat, found: map<nat, nat>)
    requires i <= |maps| && Holds(m, at, Blocks(maps)) && at + |Blocks(maps)| == |m|
    requires o == at + BlockStart(maps, i) && o + size == |m| + 4
    requires forall k | 0 <= k < |maps| :: Fits(maps[k])
    requires FoundUpTo(maps, i, at, found)
    ensures var r := ParseBlocks(m, o, size, found);
            r.Ok? && FoundUpTo(maps, |maps|, at, r.value)
    decreases |maps| - i
  {
    hide Block, Blocks, FoundUpTo, Holds, U16;
    if i == |maps| {
      assert maps[..i] == maps;
    } else {
      var t := maps[i];
      BlocksHeld(m, at, maps, i);
      BlockReads(m, o, t);
      BlocksSplit(maps, i);
      BlocksBound(maps, i + 1);
      FoundNext(maps, i, at, found);
      BlocksParse(m, at, maps, i + 1, o + |Block(t)|, size - |Block(t)|, found[t.tm.overlayTypeId := o]);
    }
  }

  lemma {:induction false} BlocksBound(maps: seq<Typed>, k: nat)
    requires k <= |maps|
    ensures BlockStart(maps, k) <= |Blocks(maps)|
    decreases |maps| - k
  {
    hide Block, Blocks;
    if k == |maps| {
      assert maps[..k] == maps;
    } else {
      BlocksSplit(maps, k);
      BlocksBound(maps, k + 1);
    }
  }

  /** Some entry of a target type is replaced by a resource of an overlay type. */
  ghost predicate MapsTo(ids: seq<uint32>, overlayType: nat) {
    exists e | 0 <= e < |ids| :: ids[e] != 0 && TypeOf(ids[e]) == overlayType
  }

  /** A target type is the last one replaced from an overlay type. */
  ghost predicate LastFor(types: seq<seq<uint32>>, t: nat, overlayType: nat) {
    t < |types| && MapsTo(types[t], overlayType) && forall u | t < u < |types| :: !MapsTo(types[u], overlayType)
  }

  /** What resource ids promise: 16-bit entry counts, and no type 0. */
  ghost predicate RealIds(types: seq<seq<uint32>>) {
    && |types| < 0x100
    && (forall t | 0 <= t < |types| :: |types[t]| < 0x1_0000)
    && (forall t, e | 0 <= t < |types| && 0 <= e < |types[t]| && types[t][e] != 0 :: TypeOf(types[t][e]) != 0)
  }

  lemma MapsToIsTypeOfMap(ids: seq<uint32>, overlayType: nat)
    requires TypeMapOf(ids).Some?
    ensures MapsTo(ids, overlayType) <==>
            TypeMapOf(ids).value.entryMap != [] && TypeMapOf(ids).value.overlayTypeId == overlayType
  {
    if TypeMapOf(ids).value.entryMap != [] {
      var e := SomeEntry(ids);
      MapOfIsExact(ids, e);
    }
    forall e | 0 <= e < |ids| && ids[e] != 0
      ensures TypeOf(ids[e]) == TypeMapOf(ids).value.overlayTypeId && TypeMapOf(ids).value.entryMap != []
    {
      MapOfIsExact(ids, e);
    }
  }

  lemma CollectedFit(types: seq<seq<uint32>>, maps: seq<Typed>)
    requires RealIds(types) && Collect(types, |types|) == Some(maps)
    ensures forall k | 0 <= k < |maps| :: Fits(maps[k])
  {
    hide TypeMapOf, TypeOf;
    CollectedExactly(types, |types|);
    forall k | 0 <= k < |maps|
      ensures Fits(maps[k])
    {
      var ids := types[maps[k].typeIndex];
      var e := SomeEntry(ids);
      MapOfIsExact(ids, e);
    }
  }

  /** The collected block that speaks for an overlay type is that of the last target type mapped to it. */
  lemma SpeakerIsLast(types: seq<seq<uint32>>, maps: seq<Typed>, k: nat, overlayType: nat)
    requires |types| < 0x100 && Collect(types, |types|) == Some(maps) && SpeaksFor(maps, k, overlayType)
    ensures maps[k].typeIndex < |types| && TypeMapOf(types[maps[k].typeIndex]) == Some(maps[k].tm)
    ensures LastFor(types, maps[k].typeIndex, overlayType)
  {
    hide TypeMapOf, MapsTo;
    CollectedExactly(types, |types|);
    var t := maps[k].typeIndex;
    MapsToIsTypeOfMap(types[t], overlayType);
    forall u | t < u < |types|
      ensures !MapsTo(types[u], overlayType)
    {
      MapsToIsTypeOfMap(types[u], overlayType);
      LaterBlocksDiffer(maps, k, overlayType, Typed(u, TypeMapOf(types[u]).value));
    }
  }

  lemma LaterBlocksDiffer(maps: seq<Typed>, k: nat, overlayType: nat, later: Typed)
    requires SpeaksFor(maps, k, overlayType) && maps[k].typeIndex < later.typeIndex
    requires forall i, j | 0 <= i < j < |maps| :: maps[i].typeIndex < maps[j].typeIndex
    ensures later in maps ==> later.tm.overlayTypeId != overlayType
  {
  }

  /** The parts of the image, and what its header and counts read as. */
  lemma ImageParts(m: seq<uint8>, meta: Meta, packageId: uint8, maps: seq<Typed>)
    requires |meta.targetPath| < PATH_BYTES && |meta.overlayPath| < PATH_BYTES && 0 < |maps| < 0x100
    requires m == Image(meta, packageId, maps)
    ensures HeaderOk(m) && |m| == IDMAP_HEADER_SIZE_BYTES + 4 + |Blocks(maps)|
    ensures U16(m, IDMAP_HEADER_SIZE_BYTES) == packageId && U16(m, IDMAP_HEADER_SIZE_BYTES + 2) == |maps|
    ensures Holds(m, IDMAP_HEADER_SIZE_BYTES + 4, Blocks(maps))
  {
    hide Blocks, Header, Encode32, Decode32, HeaderOk;
    var counts := Encode16(packageId) + Encode16(|maps|);
    assert m == Header(meta) + counts + Blocks(maps);
    HoldsPart(m, 0, Header(meta), counts, Blocks(maps));
    assert counts + [] == counts;
    HoldsPart(m, IDMAP_HEADER_SIZE_BYTES, Encode16(packageId), Encode16(|maps|), []);
    RoundTrip16(packageId);
    RoundTrip16(|maps|);
    HeaderReads(m, meta);
  }

  lemma HeaderReads(m: seq<uint8>, meta: Meta)
    requires |meta.targetPath| < PATH_BYTES && |meta.overlayPath| < PATH_BYTES && Holds(m, 0, Header(meta))
    ensures HeaderOk(m)
  {
    hide PathField, Encode32, Decode32;
    HoldsPart(m, 0, Numbers(meta), PathField(meta.targetPath), PathField(meta.overlayPath));
    var rest := Encode32(meta.targetCrc) + Encode32(meta.overlayCrc);
    assert Numbers(meta) == Encode32(IDMAP_MAGIC) + Encode32(IDMAP_CURRENT_VERSION) + rest;
    HoldsPart(m, 0, Encode32(IDMAP_MAGIC), Encode32(IDMAP_CURRENT_VERSION), rest);
    RoundTrip32(IDMAP_MAGIC);
    RoundTrip32(IDMAP_CURRENT_VERSION);
  }

  /** What is found under an overlay type: the block of the last target type replaced from it, which looks
    * every entry up as it should. */
  ghost predicate AnswersFor(m: seq<uint8>, types: seq<seq<uint32>>, blocks: map<nat, nat>, t: nat, overlayType: nat)
    requires t < |types|
  {
    overlayType in blocks && TargetType(m, blocks[overlayType]) == t + 1
    && forall e: uint16 :: Lookup(m, blocks[overlayType], e) == Replacement(types[t], e)
  }

  /** Reading back a generated idmap: every overlay type used is found, none other, and the block found
    * answers for the last target type replaced from it - for every entry, gaps and ends included. */
  lemma RoundTrip(types: seq<seq<uint32>>, packageId: uint8, meta: Meta)
    requires RealIds(types) && packageId > 0 && Created(types, packageId, meta).Ok?
    ensures var m := Created(types, packageId, meta).value;
            && Parse(m).Ok? && Parse(m).value.packageId == packageId
            && (forall t, ot | 0 <= t < |types| && LastFor(types, t, ot) ::
                  AnswersFor(m, types, Parse(m).value.blocks, t, ot))
            && (forall ot | ot in Parse(m).value.blocks :: exists t | 0 <= t < |types| :: LastFor(types, t, ot))
  {
    hide Image, Blocks, Holds, HeaderOk, U16, Lookup, TypeMapOf, LastFor, AnswersFor, BlockStart, Collect, ParseBlocks;
    var m, maps := Created(types, packageId, meta).value, Collect(types, |types|).value;
    var at := IDMAP_HEADER_SIZE_BYTES + 4;
    MapsBound(types, maps);
    ImageParts(m, meta, packageId, maps);
    CollectedFit(types, maps);
    NothingFound(maps, at);
    BlocksParse(m, at, maps, 0, at, |m| + 4 - at, map[]);
    var blocks := Parse(m).value.blocks;
    assert FoundUpTo(maps, |maps|, at, blocks);
    forall ot | ot in blocks
      ensures exists t | 0 <= t < |types| :: LastFor(types, t, ot)
    {
      var k := FoundBlock(types, m, at, maps, blocks, ot);
      assert LastFor(types, maps[k].typeIndex, ot);
    }
    forall t, ot | 0 <= t < |types| && LastFor(types, t, ot)
      ensures AnswersFor(m, types, blocks, t, ot)
    {
      UsedIsFound(types, maps, at, blocks, t, ot);
      var k := FoundBlock(types, m, at, maps, blocks, ot);
      OneLast(types, t, maps[k].typeIndex, ot);
    }
  }

  lemma MapsBound(types: seq<seq<uint32>>, maps: seq<Typed>)
    requires |types| < 0x100 && Collect(types, |types|) == Some(maps)
    ensures |maps| < 0x100
  {
  }

  lemma NothingFound(maps: seq<Typed>, at: nat)
    ensures FoundUpTo(maps, 0, at, map[]) && BlockStart(maps, 0) == 0
  {
  }

  lemma OneLast(types: seq<seq<uint32>>, t: nat, u: nat, overlayType: nat)
    requires LastFor(types, t, overlayType) && LastFor(types, u, overlayType)
    ensures t == u
  {
  }

  /** Every overlay type in use has been found. */
  lemma UsedIsFound(types: seq<seq<uint32>>, maps: seq<Typed>, at: nat, blocks: map<nat, nat>, t: nat, ot: nat)
    requires |types| < 0x100 && Collect(types, |types|) == Some(maps) && FoundUpTo(maps, |maps|, at, blocks)
    requires LastFor(types, t, ot)
    ensures ot in blocks
  {
    hide TypeMapOf, MapsTo;
    CollectedExactly(types, |types|);
    MapsToIsTypeOfMap(types[t], ot);
    var k :| 0 <= k < |maps| && maps[k] == Typed(t, TypeMapOf(types[t]).value);
  }

  /** The block found for an overlay type answers for the last target type mapped to it. */
  lemma FoundBlock(types: seq<seq<uint32>>, m: seq<uint8>, at: nat, maps: seq<Typed>, blocks: map<nat, nat>, ot: nat)
    returns (k: nat)
    requires |types| < 0x100 && Collect(types, |types|) == Some(maps) && FoundUpTo(maps, |maps|, at, blocks)
    requires Holds(m, at, Blocks(maps)) && (forall i | 0 <= i < |maps| :: Fits(maps[i])) && ot in blocks
    ensures k < |maps| && maps[k].typeIndex < |types|
    ensures LastFor(types, maps[k].typeIndex, ot) && AnswersFor(m, types, blocks, maps[k].typeIndex, ot)
  {
    hide Blocks, Holds, TypeMapOf, LastFor, Lookup, U16, Replacement, EntryIn, Collect, BlockStart;
    k :| 0 <= k < |maps| && SpeaksFor(maps[..|maps|], k, ot) && blocks[ot] == at + BlockStart(maps, k);
    assert maps[..|maps|] == maps;
    SpeakerIsLast(types, maps, k, ot);
    BlocksHeld(m, at, maps, k);
    BlockReads(m, blocks[ot], maps[k]);
    forall e: uint16
      ensures Lookup(m, blocks[ot], e) == Replacement(types[maps[k].typeIndex], e)
    {
      LookupReads(m, blocks[ot], maps[k], e);
      MapOfIsExact(types[maps[k].typeIndex], e);
    }
  }

  /** No two target types are replaced from the same overlay type. */
  ghost predicate DistinctOverlayTypes(types: seq<seq<uint32>>) {
    forall t, u, ot | 0 <= t < u < |types| && MapsTo(types[t], ot) :: !MapsTo(types[u], ot)
  }

  /** Every replaced type survives the round trip exactly when overlay types are distinct. */
  lemma AllSurviveIffDistinct(types: seq<seq<uint32>>, packageId: uint8, meta: Meta)
    requires RealIds(types) && packageId > 0 && Created(types, packageId, meta).Ok?
    ensures var m := Created(types, packageId, meta).value;
            && Parse(m).Ok?
            && (DistinctOverlayTypes(types) <==>
                forall t, ot | 0 <= t < |types| && MapsTo(types[t], ot) :: AnswersFor(m, types, Parse(m).value.blocks, t, ot))
  {
    hide Parse, MapsTo, Created;
    RoundTrip(types, packageId, meta);
    var m := Created(types, packageId, meta).value;
    var blocks := Parse(m).value.blocks;
    if DistinctOverlayTypes(types) {
      forall t, ot | 0 <= t < |types| && MapsTo(types[t], ot)
        ensures AnswersFor(m, types, blocks, t, ot)
      {
        assert LastFor(types, t, ot);
      }
    } else {
      var t, u, ot :| 0 <= t < u < |types| && MapsTo(types[t], ot) && MapsTo(types[u], ot);
      OnlyOneAnswered(m, types, blocks, t, u, ot);
    }
  }

  lemma OnlyOneAnswered(m: seq<uint8>, types: seq<seq<uint32>>, blocks: map<nat, nat>, t: nat, u: nat, ot: nat)
    requires t < u < |types|
    ensures !(AnswersFor(m, types, blocks, t, ot) && AnswersFor(m, types, blocks, u, ot))
  {
  }
}
