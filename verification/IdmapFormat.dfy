/** The idmap file byte by byte, and ResTable::getIdmapInfo, which reads its header back. */
module IdmapFormat {
  import opened Common
  import opened LittleEndian
  import opened Idmap

  // ----- numbers -----

  /** Numbers are stored with their lowest byte first. */
  lemma NumbersAre(m: seq<uint8>, o: nat)
    ensures o + 2 <= |m| ==> U16(m, o) as int == m[o] + 0x100 * (m[o + 1] as int)
    ensures o + 4 <= |m| ==>
              U32(m, o) as int == m[o] + 0x100 * (m[o + 1] as int) + 0x1_0000 * (m[o + 2] as int)
                                  + 0x100_0000 * (m[o + 3] as int)
  {
  }

  // ----- the header -----

  /** A C string: the bytes up to the first zero.  What lies beyond the data reads as 0. */
  function CString(m: seq<uint8>, at: nat): seq<uint8>
    decreases |m| - at
  {
    if at >= |m| || m[at] == 0 then [] else [m[at]] + CString(m, at + 1)
  }

  datatype Info = Info(version: uint32, targetCrc: uint32, overlayCrc: uint32, targetPath: seq<uint8>, overlayPath: seq<uint8>)

  /** getIdmapInfo. */
  function GetIdmapInfo(m: seq<uint8>): Option<Info> {
    if !HeaderOk(m) then None
    else Some(Info(U32(m, 4), U32(m, 8), U32(m, 12), CString(m, 16), CString(m, 16 + PATH_BYTES)))
  }

  function ByteAt(m: seq<uint8>, at: nat, i: nat): uint8
    requires at + i < |m|
  {
    m[at + i]
  }

  /** A path, and zeros up to 256 bytes. */
  predicate PathAt(m: seq<uint8>, at: nat, path: seq<uint8>) {
    at + 256 <= |m| && forall i: nat | i < 256 :: ByteAt(m, at, i) == if i < |path| then path[i] else 0
  }

  lemma HoldsPath(m: seq<uint8>, at: nat, path: seq<uint8>)
    requires |path| < PATH_BYTES && Holds(m, at, PathField(path))
    ensures PathAt(m, at, path)
  {
    forall i: nat | i < 256
      ensures ByteAt(m, at, i) == if i < |path| then path[i] else 0
    {
      assert m[at..at + |PathField(path)|][i] == m[at + i];
    }
  }

  lemma {:induction false} CStringReads(m: seq<uint8>, at: nat, path: seq<uint8>)
    requires at + |path| < |m| && m[at + |path|] == 0
    requires forall i | 0 <= i < |path| :: m[at + i] == path[i] != 0
    ensures CString(m, at) == path
    decreases |path|
  {
    if path != [] {
      assert m[at + 0] == path[0];
      forall i | 0 <= i < |path| - 1
        ensures m[at + 1 + i] == path[1..][i] != 0
      {
        assert m[at + (i + 1)] == path[i + 1];
      }
      CStringReads(m, at + 1, path[1..]);
    }
  }

  /** The four numbers and the two paths of the header. */
  lemma HeaderLayout(m: seq<uint8>, meta: Meta)
    requires |meta.targetPath| < PATH_BYTES && |meta.overlayPath| < PATH_BYTES && Holds(m, 0, Header(meta))
    ensures U32(m, 0) == 0x504D_4449 && U32(m, 4) == 1
    ensures U32(m, 8) == meta.targetCrc && U32(m, 12) == meta.overlayCrc
    ensures PathAt(m, 16, meta.targetPath) && PathAt(m, 272, meta.overlayPath)
  {
    hide PathField, Encode32, U32, Holds, PathAt;
    HoldsPart(m, 0, Numbers(meta), PathField(meta.targetPath), PathField(meta.overlayPath));
    HoldsPath(m, 16, meta.targetPath);
    HoldsPath(m, 272, meta.overlayPath);
    NumbersLayout(m, meta);
  }

  lemma NumbersLayout(m: seq<uint8>, meta: Meta)
    requires Holds(m, 0, Numbers(meta))
    ensures U32(m, 0) == 0x504D_4449 && U32(m, 4) == 1
    ensures U32(m, 8) == meta.targetCrc && U32(m, 12) == meta.overlayCrc
  {
    hide Encode32, U32, Holds;
    var magic, version := Encode32(IDMAP_MAGIC), Encode32(IDMAP_CURRENT_VERSION);
    var target, overlay := Encode32(meta.targetCrc), Encode32(meta.overlayCrc);
    assert Numbers(meta) == magic + version + (target + overlay);
    HoldsPart(m, 0, magic, version, target + overlay);
    assert target + overlay + [] == target + overlay;
    HoldsPart(m, 8, target, overlay, []);
    HoldsU32(m, 0, IDMAP_MAGIC);
    HoldsU32(m, 4, IDMAP_CURRENT_VERSION);
    HoldsU32(m, 8, meta.targetCrc);
    HoldsU32(m, 12, meta.overlayCrc);
  }

  // ----- the whole file -----

  /** The blocks lie one after the other behind the header and the two counts, each with its four numbers and then
    * its entries. */
  ghost predicate BlockAt(m: seq<uint8>, o: nat, t: Typed) {
    && U16(m, o) as int == t.typeIndex + 1 && U16(m, o + 2) as int == t.tm.overlayTypeId
    && U16(m, o + 4) as int == |t.tm.entryMap| && U16(m, o + 6) as int == t.tm.entryOffset
    && forall j: nat | j < |t.tm.entryMap| :: EntryAt(m, o + 8, j) == t.tm.entryMap[j]
  }

  function EntryAt(m: seq<uint8>, o: nat, j: nat): uint32 { U32(m, o + 4 * j) }

  /** The number of bytes of the first k blocks. */
  function Bytes(maps: seq<Typed>, k: nat): nat
    requires k <= |maps|
  {
    if k == 0 then 0 else Bytes(maps, k - 1) + 8 + 4 * |maps[k - 1].tm.entryMap|
  }

  lemma {:induction false} BytesAre(maps: seq<Typed>, k: nat)
    requires k <= |maps|
    ensures BlockStart(maps, k) == Bytes(maps, k)
  {
    hide Block, Blocks;
    if k == 0 {
      NothingFound(maps, 0);
    } else {
      BytesAre(maps, k - 1);
      BlocksSplit(maps, k - 1);
    }
  }

  lemma BlockLayout(m: seq<uint8>, o: nat, t: Typed)
    requires Holds(m, o, Block(t)) && Fits(t)
    ensures BlockAt(m, o, t)
  {
    hide Block, Words, Holds, U16, U32;
    BlockReads(m, o, t);
    forall j: nat | j < |t.tm.entryMap|
      ensures EntryAt(m, o + 8, j) == t.tm.entryMap[j]
    {
      HoldsWord(m, o + TYPE_HEADER_BYTES, t.tm.entryMap, j);
    }
  }

  /** The file createIdmap writes: magic number, version, the two checksums, the two paths, package and number of
    * types, then a block for each type, and nothing else. */
  lemma FileLayout(types: seq<seq<uint32>>, packageId: uint8, meta: Meta) returns (maps: seq<Typed>)
    requires RealIds(types) && Created(types, packageId, meta).Ok?
    ensures Collect(types, |types|) == Some(maps) && 0 < |maps| < 0x100
    ensures var m := Created(types, packageId, meta).value;
            && |m| == 532 + Bytes(maps, |maps|)
            && U32(m, 0) == 0x504D_4449 && U32(m, 4) == 1
            && U32(m, 8) == meta.targetCrc && U32(m, 12) == meta.overlayCrc
            && PathAt(m, 16, meta.targetPath) && PathAt(m, 272, meta.overlayPath)
            && U16(m, 528) == packageId && U16(m, 530) as int == |maps|
            && forall k | 0 <= k < |maps| :: BlockAt(m, 532 + Bytes(maps, k), maps[k])
  {
    hide Image, Blocks, Block, Holds, U16, U32, TypeMapOf, Collect, BlockStart, BlockAt, PathAt, Header, Bytes;
    var m := Created(types, packageId, meta).value;
    maps := Collect(types, |types|).value;
    MapsBound(types, maps);
    ImageParts(m, meta, packageId, maps);
    ImageHeader(m, meta, packageId, maps);
    HeaderLayout(m, meta);
    CollectedFit(types, maps);
    forall k | 0 <= k < |maps|
      ensures BlockAt(m, 532 + Bytes(maps, k), maps[k])
    {
      BlocksHeld(m, 532, maps, k);
      BytesAre(maps, k);
      BlockLayout(m, 532 + Bytes(maps, k), maps[k]);
    }
    WholeBytes(maps);
  }

  lemma WholeBytes(maps: seq<Typed>)
    ensures |Blocks(maps)| == Bytes(maps, |maps|)
  {
    BytesAre(maps, |maps|);
    assert maps[..|maps|] == maps;
  }

  lemma ImageHeader(m: seq<uint8>, meta: Meta, packageId: uint8, maps: seq<Typed>)
    requires |meta.targetPath| < PATH_BYTES && |meta.overlayPath| < PATH_BYTES
    requires m == Image(meta, packageId, maps)
    ensures Holds(m, 0, Header(meta))
  {
    hide Header, Blocks;
    var rest := Encode16(packageId) + Encode16(Low16(|maps|));
    assert m == Header(meta) + rest + Blocks(maps);
    HoldsPart(m, 0, Header(meta), rest, Blocks(maps));
  }

  /** getIdmapInfo reads back what createIdmap was given; paths are C strings, which have no zeros in them. */
  lemma InfoReadsBack(types: seq<seq<uint32>>, packageId: uint8, meta: Meta)
    requires RealIds(types) && Created(types, packageId, meta).Ok?
    requires 0 !in meta.targetPath && 0 !in meta.overlayPath
    ensures GetIdmapInfo(Created(types, packageId, meta).value)
         == Some(Info(1, meta.targetCrc, meta.overlayCrc, meta.targetPath, meta.overlayPath))
  {
    hide Image, Blocks, Block, Holds, U16, U32, TypeMapOf, Collect, BlockStart, BlockAt, Header, Bytes, CString;
    var m := Created(types, packageId, meta).value;
    var maps := FileLayout(types, packageId, meta);
    PathReads(m, 16, meta.targetPath);
    PathReads(m, 272, meta.overlayPath);
  }

  lemma PathReads(m: seq<uint8>, at: nat, path: seq<uint8>)
    requires PathAt(m, at, path) && |path| < 256 && 0 !in path
    ensures CString(m, at) == path
  {
    assert ByteAt(m, at, |path|) == 0;
    forall i | 0 <= i < |path|
      ensures m[at + i] == path[i] != 0
    {
      assert ByteAt(m, at, i) == path[i] && path[i] in path;
    }
    CStringReads(m, at, path);
  }

  /** An entry is replaced by the low half of the overlay's resource id, where there is one. */
  lemma ReplacementIs(ids: seq<uint32>, e: nat)
    ensures Replacement(ids, e).Some? <==> e < |ids| && ids[e] != 0
    ensures Replacement(ids, e).Some? ==> Replacement(ids, e).value as int == ids[e] % 0x1_0000
  {
  }

  // ----- failures -----

  /** Two entries of a type are replaced from different overlay types. */
  ghost predicate Mixed(ids: seq<uint32>) {
    exists i, j | 0 <= i < |ids| && 0 <= j < |ids| ::
      ids[i] != 0 && ids[j] != 0 && ids[i] / 0x1_0000 % 0x100 != ids[j] / 0x1_0000 % 0x100
  }

  lemma MixedIs(ids: seq<uint32>)
    ensures TypeMapOf(ids).None? <==> Mixed(ids)
  {
    MixedIffTwoTypes(ids);
  }

  lemma {:induction false} CollectNone(types: seq<seq<uint32>>, n: nat)
    requires n <= |types| < 0x100
    ensures Collect(types, n).None? <==> exists t | 0 <= t < n :: TypeMapOf(types[t]).None?
  {
    hide TypeMapOf;
    if n > 0 {
      CollectNone(types, n - 1);
    }
  }

  /** Some entry of a type is replaced. */
  ghost predicate Replaces(ids: seq<uint32>) {
    exists e | 0 <= e < |ids| :: ids[e] != 0
  }

  lemma ReplacesIff(ids: seq<uint32>)
    requires TypeMapOf(ids).Some?
    ensures TypeMapOf(ids).value.entryMap != [] <==> Replaces(ids)
  {
    if TypeMapOf(ids).value.entryMap != [] {
      var e := SomeEntry(ids);
    }
    forall e | 0 <= e < |ids| && ids[e] != 0
      ensures TypeMapOf(ids).value.entryMap != []
    {
      MapOfIsExact(ids, e);
    }
  }

  /** createIdmap fails with BAD_TYPE exactly if the entries of some type are replaced from different overlay types,
    * and otherwise with UNKNOWN_ERROR exactly if nothing is replaced or a path is longer than 255 bytes. */
  lemma CreatedIff(types: seq<seq<uint32>>, packageId: uint8, meta: Meta)
    requires |types| < 0x100
    ensures var mixed := exists t | 0 <= t < |types| :: Mixed(types[t]);
            var used := exists t | 0 <= t < |types| :: Replaces(types[t]);
            var result := Created(types, packageId, meta);
            && (result == Err(BadType) <==> mixed)
            && (result == Err(UnknownError) <==>
                  !mixed && (!used || |meta.targetPath| > 255 || |meta.overlayPath| > 255))
            && (result.Ok? || result == Err(BadType) || result == Err(UnknownError))
  {
    hide TypeMapOf, Collect, Image, Mixed, Replaces;
    CollectNone(types, |types|);
    forall t | 0 <= t < |types|
      ensures TypeMapOf(types[t]).None? <==> Mixed(types[t])
    {
      MixedIs(types[t]);
    }
    if Collect(types, |types|).Some? {
      NoneCollectedIff(types);
    }
  }

  lemma NoneCollectedIff(types: seq<seq<uint32>>)
    requires |types| < 0x100 && Collect(types, |types|).Some?
    ensures Collect(types, |types|).value == [] <==> !exists t | 0 <= t < |types| :: Replaces(types[t])
  {
    hide TypeMapOf, Collect, Replaces;
    CollectedExactly(types, |types|);
    var maps := Collect(types, |types|).value;
    forall t | 0 <= t < |types|
      ensures TypeMapOf(types[t]).value.entryMap != [] <==> Replaces(types[t])
    {
      ReplacesIff(types[t]);
    }
    if maps != [] {
      assert Replaces(types[maps[0].typeIndex]);
    }
  }

  predicate BadFirstBlock(m: seq<uint8>) {
    && |m| - 528 > 8
    && (U16(m, 532) == 0 || U16(m, 532) > 255 || U16(m, 534) == 0 || U16(m, 534) > 255
        || |m| - 528 < 4 * (U16(m, 536) + 2))
  }

  /** parseIdmap refuses what is too short, has another magic number or version, no proper package id or no types;
    * and a first block without proper type ids or with more entries than the rest of the file has room for. */
  lemma ParseRefuses(m: seq<uint8>)
    ensures || |m| < 532 || U32(m, 0) != 0x504D_4449 || U32(m, 4) != 1
            || U16(m, 528) == 0 || U16(m, 528) > 255 || U16(m, 530) == 0
            || BadFirstBlock(m)
            ==> Parse(m) == Err(UnknownError)
    ensures Parse(m).Ok? ==> Parse(m).value.packageId as int == U16(m, 528)
  {
    hide U16, U32;
  }
}
