/** ResTable::getEntry: the one-pass scan over every type chunk of a resource type that keeps the
  * best configuration seen so far, and why one pass is enough.
  */
module ResourceEntry {
  import opened Common
  import opened ResourceConfig

  /** A type chunk: one configuration and, per entry index, the entry it defines (or NO_ENTRY). */
  datatype Chunk<T> = Chunk(config: Config, entries: seq<Option<T>>)

  /** What a runtime overlay's idmap says about this type. */
  datatype OverlayMap = OverlayMap(overlayTypeId: nat, entries: map<nat, nat>)

  /** One package's contribution to a resource type. */
  datatype TypeSpec<T> = TypeSpec(
    packageIndex: nat, entryCount: nat, flags: Option<seq<bv32>>,
    idmap: Option<OverlayMap>, chunks: seq<Option<Chunk<T>>>)
  {
    predicate Valid() {
      && (flags.Some? ==> |flags.value| == entryCount)
      && (idmap.Some? ==> idmap.value.overlayTypeId > 0)
      && forall i | 0 <= i < |chunks| :: chunks[i].Some? ==> |chunks[i].value.entries| == entryCount
    }
  }

  type TypeList<T> = specs: seq<TypeSpec<T>> | forall s | s in specs :: s.Valid() witness []

  /** A chunk that matches the device and defines the entry. */
  datatype Candidate<T> = Candidate(
    config: Config, entry: T, packageIndex: nat, typeIndex: int, overlay: bool)

  datatype EntryResult<T> =
    | Found(best: Candidate<T>, specFlags: bv32)
    | BadType
    | BadIndex

  // ----- what the scan ranges over -----

  /** The entry index to use within this package, if the package can have the entry at all. */
  function RealEntry<T>(spec: TypeSpec<T>, e: nat): Option<nat> {
    var local := if spec.idmap.None? then Some(e)
                else if e in spec.idmap.value.entries then Some(spec.idmap.value.entries[e]) else None;
    if local.Some? && local.value < spec.entryCount then local else None
  }

  function Offer<T>(spec: TypeSpec<T>, typeIndex: nat, local: nat, r: Config, c: nat): Option<Candidate<T>>
    requires spec.Valid() && local < spec.entryCount && c < |spec.chunks|
  {
    if spec.chunks[c].Some? && Matches(spec.chunks[c].value.config, r) && spec.chunks[c].value.entries[local].Some? then
      Some(Candidate(spec.chunks[c].value.config, spec.chunks[c].value.entries[local].value, spec.packageIndex,
                     if spec.idmap.Some? then spec.idmap.value.overlayTypeId - 1 else typeIndex,
                     spec.idmap.Some?))
    else None
  }

  function ChunkOffers<T>(spec: TypeSpec<T>, typeIndex: nat, local: nat, r: Config, c: nat): seq<Candidate<T>>
    requires spec.Valid() && local < spec.entryCount && c <= |spec.chunks|
    decreases |spec.chunks| - c
  {
    if c == |spec.chunks| then []
    else
      var rest := ChunkOffers(spec, typeIndex, local, r, c + 1);
      match Offer(spec, typeIndex, local, r, c)
      case None => rest
      case Some(cand) => [cand] + rest
  }

  function TypeOffers<T>(spec: TypeSpec<T>, typeIndex: nat, e: nat, r: Config): seq<Candidate<T>>
    requires spec.Valid()
  {
    match RealEntry(spec, e)
    case None => []
    case Some(local) => ChunkOffers(spec, typeIndex, local, r, 0)
  }

  function Candidates<T>(specs: TypeList<T>, typeIndex: nat, e: nat, r: Config, i: nat): seq<Candidate<T>>
    requires i <= |specs|
    decreases |specs| - i
  {
    if i == |specs| then [] else TypeOffers(specs[i], typeIndex, e, r) + Candidates(specs, typeIndex, e, r, i + 1)
  }

  /** A package that can have the entry adds its flags for it; one without flags sets them all. */
  function AddFlags<T>(spec: TypeSpec<T>, e: nat, sofar: bv32): bv32
    requires spec.Valid()
  {
    match RealEntry(spec, e)
    case None => sofar
    case Some(local) => if spec.flags.Some? then sofar | spec.flags.value[local] else 0xFFFF_FFFF
  }

  function FlagsFrom<T>(specs: TypeList<T>, e: nat, i: nat, sofar: bv32): bv32
    requires i <= |specs|
    decreases |specs| - i
  {
    if i == |specs| then sofar else FlagsFrom(specs, e, i + 1, AddFlags(specs[i], e, sofar))
  }

  // ----- the scan -----

  /** One step: a candidate replaces the best when it is better, or when it comes from an overlay
    * and has exactly the best's configuration. */
  function Pick<T>(best: Option<Candidate<T>>, cand: Candidate<T>, r: Config): Option<Candidate<T>> {
    if best.Some? && !IsBetterThan(cand.config, best.value.config, r)
       && (!cand.overlay || cand.config != best.value.config)
    then best else Some(cand)
  }

  function Scan<T>(best: Option<Candidate<T>>, cands: seq<Candidate<T>>, r: Config): Option<Candidate<T>>
    decreases |cands|
  {
    if cands == [] then best else Scan(Pick(best, cands[0], r), cands[1..], r)
  }

  function LookupEntry<T>(specs: TypeList<T>, typeIndex: nat, e: nat, r: Config): EntryResult<T> {
    if specs == [] then BadType
    else
      match Scan(None, Candidates(specs, typeIndex, e, r, 0), r)
      case None => BadIndex
      case Some(best) => Found(best, FlagsFrom(specs, e, 0, 0))
  }

  lemma ScanNothing<T>(best: Option<Candidate<T>>, r: Config)
    ensures Scan(best, [], r) == best
  {
  }

  lemma ScanCons<T>(best: Option<Candidate<T>>, cand: Candidate<T>, rest: seq<Candidate<T>>, r: Config)
    ensures Scan(best, [cand] + rest, r) == Scan(Pick(best, cand, r), rest, r)
  {
    assert ([cand] + rest)[1..] == rest;
  }

  /** The inner loop: offer one package's chunks to the best so far. */
  method ScanChunks<T>(spec: TypeSpec<T>, typeIndex: nat, local: nat, r: Config, sofar: Option<Candidate<T>>,
                       ghost later: seq<Candidate<T>>)
    returns (best: Option<Candidate<T>>)
    requires spec.Valid() && local < spec.entryCount
    ensures Scan(best, later, r) == Scan(sofar, ChunkOffers(spec, typeIndex, local, r, 0) + later, r)
  {
    hide IsBetterThan, Matches;
    best := sofar;
    for c := 0 to |spec.chunks|
      invariant Scan(best, ChunkOffers(spec, typeIndex, local, r, c) + later, r)
             == Scan(sofar, ChunkOffers(spec, typeIndex, local, r, 0) + later, r)
    {
      if spec.chunks[c].None? {
        continue;
      }
      var chunk := spec.chunks[c].value;
      if !Matches(chunk.config, r) {
        continue;
      }
      if chunk.entries[local].None? {
        continue;
      }
      var overlay := spec.idmap.Some?;
      var cand := Candidate(chunk.config, chunk.entries[local].value, spec.packageIndex,
                            if overlay then spec.idmap.value.overlayTypeId - 1 else typeIndex, overlay);
      ghost var others := ChunkOffers(spec, typeIndex, local, r, c + 1);
      assert [cand] + others + later == [cand] + (others + later);
      ScanCons(best, cand, others + later, r);
      if best.Some? && !IsBetterThan(chunk.config, best.value.config, r)
         && (!overlay || chunk.config != best.value.config) {
        continue;
      }
      best := Some(cand);
    }
    assert [] + later == later;
  }

  /** The body of the outer loop: one package's contribution to the type. */
  method ScanType<T>(spec: TypeSpec<T>, typeIndex: nat, e: nat, r: Config, sofar: Option<Candidate<T>>, flags: bv32,
                     ghost later: seq<Candidate<T>>)
    returns (best: Option<Candidate<T>>, specFlags: bv32)
    requires spec.Valid()
    ensures Scan(best, later, r) == Scan(sofar, TypeOffers(spec, typeIndex, e, r) + later, r)
    ensures specFlags == AddFlags(spec, e, flags)
  {
    hide Scan, ChunkOffers;
    best, specFlags := sofar, flags;
    assert [] + later == later;
    var local := e;
    if spec.idmap.Some? {
      if e !in spec.idmap.value.entries {
        return;
      }
      local := spec.idmap.value.entries[e];
    }
    if local >= spec.entryCount {
      return;
    }
    if spec.flags.Some? {
      specFlags := specFlags | spec.flags.value[local];
    } else {
      specFlags := 0xFFFF_FFFF;
    }
    best := ScanChunks(spec, typeIndex, local, r, sofar, later);
  }

  method GetEntry<T>(specs: TypeList<T>, typeIndex: nat, e: nat, r: Config) returns (result: EntryResult<T>)
    ensures result == LookupEntry(specs, typeIndex, e, r)
  {
    hide Scan, TypeOffers, AddFlags;
    if |specs| == 0 {
      return BadType;
    }
    var best: Option<Candidate<T>> := None;
    var specFlags: bv32 := 0;
    for i := 0 to |specs|
      invariant Scan(best, Candidates(specs, typeIndex, e, r, i), r)
             == Scan(None, Candidates(specs, typeIndex, e, r, 0), r)
      invariant FlagsFrom(specs, e, i, specFlags) == FlagsFrom(specs, e, 0, 0)
    {
      best, specFlags := ScanType(specs[i], typeIndex, e, r, best, specFlags, Candidates(specs, typeIndex, e, r, i + 1));
    }
    ScanNothing(best, r);
    if best.None? {
      return BadIndex;
    }
    return Found(best.value, specFlags);
  }

  // ----- what one pass finds -----

  ghost predicate Unbeaten<T>(best: Candidate<T>, cands: seq<Candidate<T>>, r: Config) {
    forall c | c in cands :: !IsBetterThan(c.config, best.config, r)
  }

  /** All candidates match, and the densities are in the range of the rule's arithmetic. */
  ghost predicate Accepted<T>(cands: seq<Candidate<T>>, r: Config) {
    InRange(r) && forall c | c in cands :: Matches(c.config, r)
  }

  ghost predicate Better<T>(c: Candidate<T>, d: Candidate<T>, r: Config) {
    IsBetterThan(c.config, d.config, r)
  }

  ghost predicate Clashing<T>(c: Candidate<T>, d: Candidate<T>, r: Config) {
    Clash(c.config, d.config, r)
  }

  /** Of every two candidates that clash, one is beaten by a candidate that clashes with neither. */
  ghost predicate ClashesSettled<T>(cands: seq<Candidate<T>>, r: Config) {
    forall x, y | x in cands && y in cands && Clashing(x, y, r) :: Settled(x, y, cands, r)
  }

  ghost predicate Settled<T>(x: Candidate<T>, y: Candidate<T>, cands: seq<Candidate<T>>, r: Config) {
    exists z | z in cands :: !Clashing(z, x, r) && !Clashing(z, y, r) && (Better(z, x, r) || Better(z, y, r))
  }

  // ----- candidates without clashes, and above all that have some -----

  ghost predicate Free<T>(c: Candidate<T>, cands: seq<Candidate<T>>, r: Config) {
    forall d | d in cands :: !Clashing(c, d, r)
  }

  ghost predicate Strong<T>(c: Candidate<T>, cands: seq<Candidate<T>>, r: Config) {
    Free(c, cands, r) && forall d | d in cands && !Free(d, cands, r) :: Better(c, d, r)
  }

  lemma BetterFacts<T>(c: Candidate<T>, d: Candidate<T>, r: Config)
    requires InRange(r) && Matches(c.config, r) && Matches(d.config, r)
    ensures Better(c, d, r) && Better(d, c, r) <==> Clashing(c, d, r)
    ensures Clashing(c, d, r) <==> Clashing(d, c, r)
    ensures !Better(c, c, r) && !Clashing(c, c, r)
    ensures Better(c, d, r) && !Clashing(c, d, r) ==> KeysAbove(AXES, c.config, d.config, r)
  {
    hide Matches, InRange, ClashIn, Decide, KeysAbove, StopIn;
    MutuallyBetterIffClash(AXES, c.config, d.config, r);
    ClashIsSymmetric(AXES, c.config, d.config, r);
    MutuallyBetterIffClash(AXES, c.config, c.config, r);
    NoSelfClash(AXES, c.config, r);
    if !Clashing(c, d, r) {
      DecideIsKeyOrder(AXES, c.config, d.config, r);
    }
  }

  lemma {:induction false} NoSelfClash(axes: seq<Axis>, c: Config, r: Config)
    ensures !ClashIn(axes, c, c, r)
  {
    if axes != [] {
      NoSelfClash(axes[1..], c, r);
    }
  }

  lemma BetterPasses<T>(c: Candidate<T>, d: Candidate<T>, e: Candidate<T>, r: Config)
    requires InRange(r) && Matches(c.config, r) && Matches(d.config, r) && Matches(e.config, r)
    requires !Clashing(c, d, r) && !Clashing(d, e, r) && !Clashing(c, e, r)
    requires Better(c, d, r) && Better(d, e, r)
    ensures Better(c, e, r)
  {
    hide Matches, InRange, Clash, IsBetterThan;
    BetterIsTransitive(c.config, d.config, e.config, r);
  }

  /** A free candidate and one with a clash are never tied. */
  lemma FreeIsDecided<T>(c: Candidate<T>, d: Candidate<T>, cands: seq<Candidate<T>>, r: Config)
    requires Accepted(cands, r) && c in cands && d in cands && Free(c, cands, r) && !Free(d, cands, r)
    ensures Better(c, d, r) <==> !Better(d, c, r)
    ensures Better(c, d, r) <==> KeysAbove(AXES, c.config, d.config, r)
  {
    hide Matches, InRange, Clash, IsBetterThan, KeysAbove;
    var e :| e in cands && Clashing(d, e, r);
    assert !Clashing(c, d, r) && !Clashing(c, e, r);
    ThirdParty(d.config, e.config, c.config, r);
  }

  /** A candidate that no other has larger keys than. */
  lemma {:induction false} GreatestKeys<T>(cands: seq<Candidate<T>>, r: Config) returns (m: Candidate<T>)
    requires cands != []
    ensures m in cands && forall c | c in cands :: !KeysAbove(AXES, c.config, m.config, r)
  {
    hide KeysAbove, AXES;
    var n := |cands| - 1;
    var l := cands[n];
    KeysAboveTotal(AXES, l.config, l.config, r);
    m := l;
    if n > 0 {
      var best := GreatestKeys(cands[..n], r);
      if !KeysAbove(AXES, l.config, best.config, r) {
        m := best;
      } else {
        forall c | c in cands[..n]
          ensures !KeysAbove(AXES, c.config, l.config, r)
        {
          if KeysAbove(AXES, c.config, l.config, r) {
            KeysAboveTransitive(AXES, c.config, l.config, best.config, r);
          }
        }
      }
      assert forall c | c in cands :: c in cands[..n] || c == l;
    } else {
      assert forall c | c in cands :: c == l;
    }
  }

  /** Where clashes are settled there is a strong candidate. */
  lemma StrongExists<T>(cands: seq<Candidate<T>>, r: Config) returns (m: Candidate<T>)
    requires Accepted(cands, r) && cands != [] && ClashesSettled(cands, r)
    ensures m in cands && Strong(m, cands, r)
  {
    hide Matches, InRange, Clash, IsBetterThan, KeysAbove;
    m := GreatestKeys(cands, r);
    forall y | y in cands
      ensures !Clashing(m, y, r)
    {
      if Clashing(m, y, r) {
        assert Settled(m, y, cands, r);
        var z :| z in cands && !Clashing(z, m, r) && !Clashing(z, y, r) && (Better(z, m, r) || Better(z, y, r));
        ThirdParty(m.config, y.config, z.config, r);
        assert KeysAbove(AXES, z.config, m.config, r);
      }
    }
    forall d | d in cands && !Free(d, cands, r)
      ensures Better(m, d, r)
    {
      FreeIsDecided(m, d, cands, r);
      BetterFacts(d, m, r);
    }
  }

  /** What beats a strong candidate is strong. */
  lemma StrongUpwards<T>(n: Candidate<T>, b: Candidate<T>, cands: seq<Candidate<T>>, r: Config)
    requires Accepted(cands, r) && n in cands && b in cands && Strong(b, cands, r) && Better(n, b, r)
    ensures Strong(n, cands, r)
  {
    hide Matches, InRange, Clash, IsBetterThan, KeysAbove;
    BetterFacts(b, n, r);
    if Free(n, cands, r) {
      forall d | d in cands && !Free(d, cands, r)
        ensures Better(n, d, r)
      {
        BetterFacts(b, n, r);
        BetterPasses(n, b, d, r);
      }
    }
  }

  /** What a strong candidate does not beat is strong. */
  lemma StrongSideways<T>(s: Candidate<T>, b: Candidate<T>, cands: seq<Candidate<T>>, r: Config)
    requires Accepted(cands, r) && s in cands && b in cands && Strong(s, cands, r) && !Better(s, b, r)
    ensures Strong(b, cands, r)
  {
    hide Matches, InRange, Clash, IsBetterThan, KeysAbove;
    assert Free(b, cands, r);
    forall d | d in cands && !Free(d, cands, r)
      ensures Better(b, d, r)
    {
      FreeIsDecided(b, d, cands, r);
      if Better(d, b, r) {
        BetterFacts(b, d, r);
        BetterPasses(s, d, b, r);
      }
    }
  }

  // ----- the scan with a strong candidate -----

  /** The result of a scan: strong, and beaten by nothing it has seen. */
  ghost predicate Top<T>(found: Option<Candidate<T>>, best: Candidate<T>, rest: seq<Candidate<T>>,
                         cands: seq<Candidate<T>>, r: Config) {
    && found.Some? && found.value in [best] + rest && Strong(found.value, cands, r)
    && forall c | c in [best] + rest :: !Better(c, found.value, r)
  }

  /** From a strong candidate the scan only climbs. */
  lemma {:induction false} ScanFromStrong<T>(best: Candidate<T>, rest: seq<Candidate<T>>,
                                             cands: seq<Candidate<T>>, r: Config)
    requires Accepted(cands, r) && best in cands && (forall c | c in rest :: c in cands) && Strong(best, cands, r)
    ensures var found := Scan(Some(best), rest, r);
            Top(found, best, rest, cands, r)
            && (found.value.config == best.config || Better(found.value, best, r))
    decreases |rest|
  {
    hide Matches, InRange, Clash, IsBetterThan, Strong;
    BetterFacts(best, best, r);
    if rest != [] {
      var c0, later := rest[0], rest[1..];
      var next := Pick(Some(best), c0, r).value;
      NextIsStrong(best, c0, cands, r);
      ScanFromStrong(next, later, cands, r);
      ClimbsPast(best, c0, next, Scan(Some(next), later, r).value, cands, r);
      assert rest == [c0] + later;
    }
  }

  lemma NextIsStrong<T>(best: Candidate<T>, c0: Candidate<T>, cands: seq<Candidate<T>>, r: Config)
    requires Accepted(cands, r) && best in cands && c0 in cands && Strong(best, cands, r)
    ensures Strong(Pick(Some(best), c0, r).value, cands, r)
  {
    hide Matches, InRange, Clash, IsBetterThan;
    if Better(c0, best, r) {
      StrongUpwards(c0, best, cands, r);
    }
  }

  /** One step of the climb: what it passes by does not beat where it leads. */
  lemma ClimbsPast<T>(best: Candidate<T>, c0: Candidate<T>, next: Candidate<T>, found: Candidate<T>,
                      cands: seq<Candidate<T>>, r: Config)
    requires Accepted(cands, r) && best in cands && c0 in cands && next in cands && found in cands
    requires Strong(best, cands, r) && Strong(found, cands, r) && Strong(next, cands, r)
    requires next == Pick(Some(best), c0, r).value
    requires found.config == next.config || Better(found, next, r)
    requires !Better(next, found, r)
    ensures !Better(best, found, r) && !Better(c0, found, r)
    ensures found.config == best.config || Better(found, best, r)
  {
    hide Matches, InRange, Clash, IsBetterThan;
    BetterFacts(best, next, r);
    BetterFacts(best, found, r);
    BetterFacts(found, next, r);
    BetterFacts(found, c0, r);
    if next.config != best.config && found.config != next.config {
      BetterPasses(found, next, best, r);
    }
    if Better(c0, found, r) && found.config != best.config && next != c0 {
      BetterPasses(c0, found, best, r);
    }
  }

  /** Once a strong candidate has been offered the best so far is strong. */
  lemma {:induction false} ScanPastStrong<T>(best: Candidate<T>, rest: seq<Candidate<T>>, s: Candidate<T>,
                                             cands: seq<Candidate<T>>, r: Config)
    requires Accepted(cands, r) && best in cands && (forall c | c in rest :: c in cands)
    requires s in [best] + rest && Strong(s, cands, r)
    ensures Top(Scan(Some(best), rest, r), best, rest, cands, r)
    decreases |rest|
  {
    hide Matches, InRange, Clash, IsBetterThan, Strong;
    if Strong(best, cands, r) {
      ScanFromStrong(best, rest, cands, r);
    } else {
      var c0, later := rest[0], rest[1..];
      assert rest == [c0] + later;
      var next := Pick(Some(best), c0, r).value;
      if Strong(c0, cands, r) && !Better(c0, best, r) {
        StrongSideways(c0, best, cands, r);
      }
      ScanPastStrong(next, later, if Strong(c0, cands, r) then c0 else s, cands, r);
      var found := Scan(Some(next), later, r).value;
      forall c | c in [best] + rest
        ensures !Better(c, found, r)
      {
        if Better(c, found, r) {
          StrongUpwards(c, found, cands, r);
        }
      }
    }
  }

  // ----- every arrangement -----

  /** A scan over these candidates ends on one that none of them beats. */
  ghost predicate EndsUnbeaten<T>(cands: seq<Candidate<T>>, r: Config) {
    cands != [] ==>
      var found := Scan(None, cands, r);
      found.Some? && found.value in cands && Unbeaten(found.value, cands, r)
  }

  lemma SettledEndsUnbeaten<T>(cands: seq<Candidate<T>>, r: Config)
    requires Accepted(cands, r) && ClashesSettled(cands, r)
    ensures EndsUnbeaten(cands, r)
  {
    hide Matches, InRange, Clash, IsBetterThan, Strong, ClashesSettled;
    if cands != [] {
      var s := StrongExists(cands, r);
      assert cands == [cands[0]] + cands[1..];
      ScanPastStrong(cands[0], cands[1..], s, cands, r);
      assert Scan(None, cands, r) == Scan(Some(cands[0]), cands[1..], r);
      var found := Scan(None, cands, r).value;
      forall c | c in cands
        ensures !IsBetterThan(c.config, found.config, r)
      {
        assert !Better(c, found, r);
      }
    }
  }

  /** A type spec has the entry, and one of its chunks makes this offer for it. */
  ghost predicate OffersIn<T>(spec: TypeSpec<T>, typeIndex: nat, e: nat, r: Config, cand: Candidate<T>)
    requires spec.Valid()
  {
    && RealEntry(spec, e).Some?
    && exists c | 0 <= c < |spec.chunks| :: Offer(spec, typeIndex, RealEntry(spec, e).value, r, c) == Some(cand)
  }

  /** Every chunk that matches the device and defines the entry is a candidate, and nothing else is. */
  lemma {:induction false} CandidatesAreOffers<T>(specs: TypeList<T>, typeIndex: nat, e: nat, r: Config, i: nat, cand: Candidate<T>)
    requires i <= |specs|
    ensures cand in Candidates(specs, typeIndex, e, r, i) <==>
            exists j | i <= j < |specs| :: OffersIn(specs[j], typeIndex, e, r, cand)
    decreases |specs| - i
  {
    hide Offer, ChunkOffers, RealEntry;
    if i < |specs| {
      CandidatesAreOffers(specs, typeIndex, e, r, i + 1, cand);
      TypeOffersAre(specs[i], typeIndex, e, r, cand);
    }
  }

  lemma TypeOffersAre<T>(spec: TypeSpec<T>, typeIndex: nat, e: nat, r: Config, cand: Candidate<T>)
    requires spec.Valid()
    ensures cand in TypeOffers(spec, typeIndex, e, r) <==> OffersIn(spec, typeIndex, e, r, cand)
  {
    hide Offer, ChunkOffers;
    if RealEntry(spec, e).Some? {
      OffersOfChunks(spec, typeIndex, RealEntry(spec, e).value, r, 0, cand);
    }
  }

  lemma {:induction false} OffersOfChunks<T>(spec: TypeSpec<T>, typeIndex: nat, local: nat, r: Config, c: nat, cand: Candidate<T>)
    requires spec.Valid() && local < spec.entryCount && c <= |spec.chunks|
    ensures cand in ChunkOffers(spec, typeIndex, local, r, c) <==>
            exists d | c <= d < |spec.chunks| :: Offer(spec, typeIndex, local, r, d) == Some(cand)
    decreases |spec.chunks| - c
  {
    if c < |spec.chunks| {
      OffersOfChunks(spec, typeIndex, local, r, c + 1, cand);
    }
  }

  lemma CandidatesMatch<T>(specs: TypeList<T>, typeIndex: nat, e: nat, r: Config)
    ensures forall cand | cand in Candidates(specs, typeIndex, e, r, 0) :: Matches(cand.config, r)
  {
    forall cand | cand in Candidates(specs, typeIndex, e, r, 0)
      ensures Matches(cand.config, r)
    {
      CandidatesAreOffers(specs, typeIndex, e, r, 0, cand);
    }
  }

  lemma {:induction false} ScanAppend<T>(best: Option<Candidate<T>>, a: seq<Candidate<T>>, b: seq<Candidate<T>>, r: Config)
    ensures Scan(best, a + b, r) == Scan(Scan(best, a, r), b, r)
    decreases |a|
  {
    hide Pick;
    if a == [] {
      assert a + b == b;
    } else {
      assert (a + b)[1..] == a[1..] + b;
      ScanAppend(Pick(best, a[0], r), a[1..], b, r);
    }
  }

  lemma {:induction false} ScanFinds<T>(best: Option<Candidate<T>>, part: seq<Candidate<T>>, r: Config)
    ensures best.Some? || part != [] ==> Scan(best, part, r).Some?
    ensures Scan(best, part, r) == best || (Scan(best, part, r).Some? && Scan(best, part, r).value in part)
    decreases |part|
  {
    hide IsBetterThan;
    if part != [] {
      ScanFinds(Pick(best, part[0], r), part[1..], r);
    }
  }

  // Where a clash is not settled: put the two that clash last, and the very last one is the result.

  /** A list without one occurrence each of two of its elements. */
  lemma Without<T>(cands: seq<T>, x: T, y: T) returns (others: seq<T>)
    requires x in cands && y in cands && x != y
    ensures multiset(others) + multiset{x, y} == multiset(cands)
  {
    var i :| 0 <= i < |cands| && cands[i] == x;
    var rest := cands[..i] + cands[i + 1..];
    assert cands == cands[..i] + [x] + cands[i + 1..];
    assert multiset(cands) == multiset(rest) + multiset{x};
    assert y in multiset(rest);
    var j :| 0 <= j < |rest| && rest[j] == y;
    others := rest[..j] + rest[j + 1..];
    assert rest == rest[..j] + [y] + rest[j + 1..];
  }

  lemma ScanTwo<T>(best: Option<Candidate<T>>, x: Candidate<T>, y: Candidate<T>, r: Config)
    ensures Scan(best, [x, y], r) == Pick(Pick(best, x, r), y, r)
  {
    hide Pick;
    assert [x, y] == [x] + [y] && [y] == [y] + [];
    ScanCons(best, x, [y], r);
    ScanCons(Pick(best, x, r), y, [], r);
  }

  /** After any best so far the second of two that clash wins, unless a candidate settles the clash. */
  lemma LastOfClashWins<T>(b: Candidate<T>, x: Candidate<T>, y: Candidate<T>, cands: seq<Candidate<T>>, r: Config)
    requires Accepted(cands, r) && x in cands && y in cands && b in cands
    requires Clashing(x, y, r) && !Settled(x, y, cands, r)
    ensures Scan(Some(b), [x, y], r) == Some(y)
  {
    ScanTwo(Some(b), x, y, r);
    hide Matches, InRange, Clash, IsBetterThan, KeysAbove;
    BetterFacts(x, y, r);
    BetterFacts(y, x, r);
    BetterFacts(b, x, r);
    BetterFacts(b, y, r);
    if !Clashing(b, x, r) && !Clashing(b, y, r) {
      ThirdParty(x.config, y.config, b.config, r);
    }
  }

  /** So this arrangement ends on the last. */
  lemma ClashLastEndsThere<T>(cands: seq<Candidate<T>>, x: Candidate<T>, y: Candidate<T>, r: Config)
    returns (q: seq<Candidate<T>>)
    requires Accepted(cands, r) && x in cands && y in cands && Clashing(x, y, r) && !Settled(x, y, cands, r)
    ensures multiset(q) == multiset(cands) && Scan(None, q, r) == Some(y)
  {
    hide Matches, InRange, Clash, IsBetterThan, Settled, Scan;
    BetterFacts(x, x, r);
    var others := Without(cands, x, y);
    q := others + [x, y];
    SameMembers(q, cands);
    ScanAppend(None, others, [x, y], r);
    ScanFinds(None, others, r);
    if others == [] {
      FirstOfClash(x, y, r);
    } else {
      var b := Scan(None, others, r).value;
      assert b in q;
      LastOfClashWins(b, x, y, cands, r);
    }
  }

  lemma FirstOfClash<T>(x: Candidate<T>, y: Candidate<T>, r: Config)
    requires InRange(r) && Matches(x.config, r) && Matches(y.config, r) && Clashing(x, y, r)
    ensures Scan(Scan(None, [], r), [x, y], r) == Some(y)
  {
    ScanNothing<T>(None, r);
    ScanTwo(None, x, y, r);
    hide Matches, InRange, Clash, IsBetterThan;
    BetterFacts(y, x, r);
    BetterFacts(x, y, r);
  }

  lemma ClashLastEndsBeaten<T>(cands: seq<Candidate<T>>, x: Candidate<T>, y: Candidate<T>, r: Config)
    returns (q: seq<Candidate<T>>)
    requires Accepted(cands, r) && x in cands && y in cands && Clashing(x, y, r) && !Settled(x, y, cands, r)
    ensures multiset(q) == multiset(cands) && !EndsUnbeaten(q, r)
  {
    hide Matches, InRange, Clash, IsBetterThan, Settled, Scan;
    q := ClashLastEndsThere(cands, x, y, r);
    SameMembers(q, cands);
    BetterFacts(x, y, r);
    assert x in q && Better(x, y, r);
  }

  /** One pass finds an unbeaten candidate in whatever order they come exactly when clashes are settled. */
  lemma AlwaysUnbeatenIffSettled<T>(cands: seq<Candidate<T>>, r: Config)
    requires Accepted(cands, r)
    ensures (forall q: seq<Candidate<T>> | multiset(q) == multiset(cands) :: EndsUnbeaten(q, r)) <==> ClashesSettled(cands, r)
  {
    hide Matches, InRange, IsBetterThan, Clashing, EndsUnbeaten, Settled;
    if ClashesSettled(cands, r) {
      forall q: seq<Candidate<T>> | multiset(q) == multiset(cands)
        ensures EndsUnbeaten(q, r)
      {
        SameMembers(q, cands);
        SettledFor(cands, q, r);
        SettledEndsUnbeaten(q, r);
      }
    } else {
      var x, y :| x in cands && y in cands && Clashing(x, y, r) && !Settled(x, y, cands, r);
      var q := ClashLastEndsBeaten(cands, x, y, r);
    }
  }

  lemma SameMembers<T>(p: seq<T>, q: seq<T>)
    requires multiset(p) == multiset(q)
    ensures forall c :: c in p <==> c in q
  {
    forall c
      ensures c in p <==> c in q
    {
      assert c in p <==> c in multiset(p);
      assert c in q <==> c in multiset(q);
    }
  }

  lemma SettledFor<T>(p: seq<Candidate<T>>, q: seq<Candidate<T>>, r: Config)
    requires ClashesSettled(p, r) && forall c :: c in p <==> c in q
    ensures ClashesSettled(q, r)
  {
    hide Clashing, Better;
    forall x, y | x in q && y in q && Clashing(x, y, r)
      ensures Settled(x, y, q, r)
    {
      assert Settled(x, y, p, r);
    }
  }

  /** getEntry returns a matching configuration that no other matching configuration beats, as long as
    * clashes among them are settled. */
  lemma LookupIsBest<T>(specs: TypeList<T>, typeIndex: nat, e: nat, r: Config)
    requires InRange(r) && ClashesSettled(Candidates(specs, typeIndex, e, r, 0), r)
    ensures var cands := Candidates(specs, typeIndex, e, r, 0);
            match LookupEntry(specs, typeIndex, e, r)
            case Found(best, _) => best in cands && Unbeaten(best, cands, r)
            case BadIndex => specs != [] && cands == []
            case BadType => specs == []
  {
    var cands := Candidates(specs, typeIndex, e, r, 0);
    CandidatesMatch(specs, typeIndex, e, r);
    hide IsBetterThan, Matches, InRange, Clash, ClashesSettled;
    SettledEndsUnbeaten(cands, r);
  }

  /** Without clashes there is nothing to settle. */
  lemma NoClashIsSettled<T>(cands: seq<Candidate<T>>, r: Config)
    requires forall c, d | c in cands && d in cands :: !Clashing(c, d, r)
    ensures ClashesSettled(cands, r)
  {
  }

  /** So on tables without clashes the entry found is one that no other beats, in whatever order the chunks
    * come. */
  lemma LookupWithoutClash<T>(specs: TypeList<T>, typeIndex: nat, e: nat, r: Config)
    requires InRange(r)
    requires var cands := Candidates(specs, typeIndex, e, r, 0);
             forall c, d | c in cands && d in cands :: !Clashing(c, d, r)
    ensures var cands := Candidates(specs, typeIndex, e, r, 0);
            && (LookupEntry(specs, typeIndex, e, r).Found? <==> cands != [])
            && (LookupEntry(specs, typeIndex, e, r).Found? ==> Unbeaten(LookupEntry(specs, typeIndex, e, r).best, cands, r))
            && forall q: seq<Candidate<T>> | multiset(q) == multiset(cands) :: EndsUnbeaten(q, r)
  {
    var cands := Candidates(specs, typeIndex, e, r, 0);
    CandidatesMatch(specs, typeIndex, e, r);
    hide Candidates, IsBetterThan, Matches, InRange, Clash, ClashesSettled, EndsUnbeaten;
    NoClashIsSettled(cands, r);
    LookupIsBest(specs, typeIndex, e, r);
    AlwaysUnbeatenIffSettled(cands, r);
  }

  /** A clash that is settled: two configurations that differ in their scripts only, below one that sets the
    * device's country code. */
  lemma HarmlessClash<T>(x: Candidate<T>, y: Candidate<T>, z: Candidate<T>, r: Config)
    requires InRange(r) && r.mcc != 0 && r.localeScript[0] != 0
    requires x.config == PLAIN.(localeScript := x.config.localeScript) && x.config.localeScript[0] != 0
    requires y.config == PLAIN.(localeScript := y.config.localeScript) && y.config.localeScript[0] != 0
    requires x.config.localeScript[0] != y.config.localeScript[0]
    requires z.config == PLAIN.(mcc := r.mcc)
    ensures Accepted([x, y, z], r) && Clashing(x, y, r) && ClashesSettled([x, y, z], r)
  {
    ScriptsClash(x.config, y.config, r);
    MutuallyBetterIffClash(AXES, x.config, y.config, r);
    FirstAxisDecides(z.config, x.config, r);
    FirstAxisDecides(z.config, y.config, r);
    hide ClashIn, Decide, IsBetterThan, InRange;
    OneSettles(x, y, z, r);
  }

  lemma OneSettles<T>(x: Candidate<T>, y: Candidate<T>, z: Candidate<T>, r: Config)
    requires Accepted([x, y, z], r)
    requires Better(z, x, r) && !Clashing(z, x, r) && Better(z, y, r) && !Clashing(z, y, r)
    ensures ClashesSettled([x, y, z], r)
  {
    hide Clash, IsBetterThan, Matches, InRange;
    var cands := [x, y, z];
    assert x in cands && y in cands && z in cands;
    BetterFacts(x, x, r);
    BetterFacts(y, y, r);
    BetterFacts(z, z, r);
    BetterFacts(z, x, r);
    BetterFacts(z, y, r);
    assert Settled(x, y, cands, r) && Settled(y, x, cands, r);
  }

  lemma FirstAxisDecides(z: Config, x: Config, r: Config)
    requires r.mcc != 0 && z.mcc == r.mcc && x.mcc == 0
    ensures IsBetterThan(z, x, r) && !IsBetterThan(x, z, r) && !Clash(z, x, r)
  {
  }

  /** Of two chunks, the scan's choice is unbeaten if and only if they do not clash. */
  lemma PairUnbeatenIffNoClash<T>(x: Candidate<T>, y: Candidate<T>, r: Config)
    requires InRange(r) && Matches(x.config, r) && Matches(y.config, r)
    ensures Scan(None, [x, y], r).Some?
    ensures Unbeaten(Scan(None, [x, y], r).value, [x, y], r) <==> !Clash(x.config, y.config, r)
  {
    assert Scan(None, [x, y], r) == Scan(Some(x), [y], r) by { assert [x, y][1..] == [y]; }
    assert Scan(Some(x), [y], r) == Pick(Some(x), y, r) by { assert [y][1..] == []; }
    MutuallyBetterIffClash(AXES, x.config, y.config, r);
    MutuallyBetterIffClash(AXES, y.config, x.config, r);
    MutuallyBetterIffClash(AXES, x.config, x.config, r);
    MutuallyBetterIffClash(AXES, y.config, y.config, r);
    NoSelfClash(AXES, x.config, r);
    NoSelfClash(AXES, y.config, r);
    assert x in [x, y] && y in [x, y];
  }

  /** The order of the chunks only decides among ties: of two arrangements of the same candidates neither
    * ends on a configuration better than the other's.  The two have the same key on every axis, or their
    * comparison stops. */
  lemma OrderOnlyBreaksTies<T>(p: seq<Candidate<T>>, q: seq<Candidate<T>>, r: Config)
    requires Accepted(p, r) && p != [] && ClashesSettled(p, r)
    requires forall c :: c in p <==> c in q
    ensures Scan(None, p, r).Some? && Scan(None, q, r).Some?
    ensures var a, b := Scan(None, p, r).value.config, Scan(None, q, r).value.config;
            Tied(a, b, r) && (StopIn(AXES, a, b, r) || SameKeys(AXES, a, b, r))
  {
    hide IsBetterThan, Matches, Clash, StopIn, SameKeys, InRange;
    assert p[0] in q;
    SettledFor(p, q, r);
    SettledEndsUnbeaten(p, r);
    SettledEndsUnbeaten(q, r);
    var a, b := Scan(None, p, r).value, Scan(None, q, r).value;
    assert a in q && b in p;
    BetterFacts(a, b, r);
    assert !Better(a, b, r);
    TiedIffStopOrSameKeys(a.config, b.config, r);
  }

  /** Two scans end on nothing, or on configurations of which neither is better. */
  ghost predicate EndTied<T>(p: seq<Candidate<T>>, q: seq<Candidate<T>>, r: Config) {
    var a, b := Scan(None, p, r), Scan(None, q, r);
    (a.None? && b.None?) || (a.Some? && b.Some? && Tied(a.value.config, b.value.config, r))
  }

  /** The order only decides among ties exactly when clashes are settled. */
  lemma OrderOnlyBreaksTiesIff<T>(cands: seq<Candidate<T>>, r: Config)
    requires Accepted(cands, r)
    ensures (forall p: seq<Candidate<T>>, q: seq<Candidate<T>>
               | multiset(p) == multiset(cands) && multiset(q) == multiset(cands) :: EndTied(p, q, r)) <==>
            ClashesSettled(cands, r)
  {
    hide Matches, InRange, IsBetterThan, Clashing, Settled, Scan, Tied, StopIn, SameKeys;
    if ClashesSettled(cands, r) {
      hide ClashesSettled;
      forall p: seq<Candidate<T>>, q: seq<Candidate<T>> | multiset(p) == multiset(cands) && multiset(q) == multiset(cands)
        ensures EndTied(p, q, r)
      {
        SameMembers(p, cands);
        SameMembers(q, cands);
        SettledFor(cands, p, r);
        if p == [] {
          assert q == [] by { assert |multiset(q)| == |multiset(p)|; }
          ScanNothing<T>(None, r);
        } else {
          OrderOnlyBreaksTies(p, q, r);
        }
      }
    } else {
      var x, y :| x in cands && y in cands && Clashing(x, y, r) && !Settled(x, y, cands, r);
      BetterFacts(x, y, r);
      if Settled(y, x, cands, r) {
        SettledIsSymmetric(x, y, cands, r);
      }
      BetterIsNoTie(x, y, r);
      var p := ClashLastEndsThere(cands, x, y, r);
      var q := ClashLastEndsThere(cands, y, x, r);
      assert !EndTied(p, q, r);
    }
  }

  lemma SettledIsSymmetric<T>(x: Candidate<T>, y: Candidate<T>, cands: seq<Candidate<T>>, r: Config)
    requires Settled(y, x, cands, r)
    ensures Settled(x, y, cands, r)
  {
    hide Clashing, Better;
  }

  lemma BetterIsNoTie<T>(x: Candidate<T>, y: Candidate<T>, r: Config)
    requires Better(x, y, r)
    ensures !Tied(y.config, x.config, r)
  {
    hide IsBetterThan;
  }
}
