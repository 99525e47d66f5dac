/** Which of several chunks ResTable::getEntry takes, told from the packages alone.
  *
  * The scan is described by the list of candidates it goes through.  Here the list is tied to the
  * places of the table - package by package, chunk by chunk -, and the entry returned is described
  * by its place: nothing beats it, and of the places with its configuration it is the last one of an
  * overlay or, without overlays, the first.
  */
module ResourceOverlay {
  import opened Common
  import opened ResourceConfig
  import opened ResourceEntry

  // ----- places -----

  /** A chunk of a package. */
  datatype Place = Place(spec: nat, chunk: nat) {
    predicate Before(other: Place) { spec < other.spec || (spec == other.spec && chunk < other.chunk) }
  }

  /** The package knows the entry under this index: an overlay through its idmap, any other as it is. */
  predicate KnownAs<T>(spec: TypeSpec<T>, e: nat, local: nat) {
    && local < spec.entryCount
    && match spec.idmap
       case None => local == e
       case Some(idmap) => e in idmap.entries && idmap.entries[e] == local
  }

  /** The chunk exists, matches the device and defines the entry. */
  predicate Defines<T>(specs: TypeList<T>, p: Place, e: nat, r: Config, local: nat) {
    && p.spec < |specs| && p.chunk < |specs[p.spec].chunks| && KnownAs(specs[p.spec], e, local)
    && specs[p.spec].chunks[p.chunk].Some?
    && var chunk := specs[p.spec].chunks[p.chunk].value;
       Matches(chunk.config, r) && local < |chunk.entries| && chunk.entries[local].Some?
  }

  /** What is found there: configuration, entry, package, type and kind of the chunk's package. */
  ghost predicate Holds<T>(specs: TypeList<T>, p: Place, typeIndex: nat, e: nat, r: Config, cand: Candidate<T>) {
    exists local: nat ::
      && Defines(specs, p, e, r, local)
      && var spec := specs[p.spec];
         var chunk := spec.chunks[p.chunk].value;
         && cand.config == chunk.config && cand.entry == chunk.entries[local].value
         && cand.packageIndex == spec.packageIndex && cand.overlay == spec.idmap.Some?
         && cand.typeIndex == (if spec.idmap.Some? then spec.idmap.value.overlayTypeId - 1 else typeIndex)
  }

  /** The candidates, place by place: in the order of the places, and none left out. */
  ghost predicate Lists<T>(specs: TypeList<T>, typeIndex: nat, e: nat, r: Config, i: nat, cands: seq<Candidate<T>>,
                           places: seq<Place>) {
    && |places| == |cands|
    && (forall k | 0 <= k < |places| :: i <= places[k].spec && Holds(specs, places[k], typeIndex, e, r, cands[k]))
    && (forall k, l | 0 <= k < l < |places| :: places[k].Before(places[l]))
    && forall p: Place, local: nat | i <= p.spec && Defines(specs, p, e, r, local) :: p in places
  }

  lemma RealEntryIff<T>(spec: TypeSpec<T>, e: nat, local: nat)
    ensures RealEntry(spec, e) == Some(local) <==> KnownAs(spec, e, local)
  {
  }

  lemma OfferIff<T>(specs: TypeList<T>, p: Place, typeIndex: nat, e: nat, r: Config, local: nat, cand: Candidate<T>)
    requires p.spec < |specs| && p.chunk < |specs[p.spec].chunks| && RealEntry(specs[p.spec], e) == Some(local)
    ensures specs[p.spec] in specs && specs[p.spec].Valid() && local < specs[p.spec].entryCount
    ensures Offer(specs[p.spec], typeIndex, local, r, p.chunk) == Some(cand) <==> Holds(specs, p, typeIndex, e, r, cand)
  {
    hide Matches;
    assert specs[p.spec] in specs;
    RealEntryIff(specs[p.spec], e, local);
    if Offer(specs[p.spec], typeIndex, local, r, p.chunk) == Some(cand) {
      assert Defines(specs, p, e, r, local);
    }
  }

  /** The places of one package's offers from a chunk on. */
  lemma {:induction false} ChunkPlaces<T>(specs: TypeList<T>, j: nat, typeIndex: nat, e: nat, r: Config, local: nat, c: nat)
    returns (places: seq<Place>)
    requires j < |specs| && RealEntry(specs[j], e) == Some(local) && c <= |specs[j].chunks|
    ensures specs[j] in specs && specs[j].Valid() && local < specs[j].entryCount
    ensures var cands := ChunkOffers(specs[j], typeIndex, local, r, c);
            && |places| == |cands|
            && forall k | 0 <= k < |places| :: Holds(specs, places[k], typeIndex, e, r, cands[k])
    ensures forall k | 0 <= k < |places| :: places[k].spec == j && c <= places[k].chunk
    ensures forall k, l | 0 <= k < l < |places| :: places[k].Before(places[l])
    ensures forall p: Place, m: nat | p.spec == j && c <= p.chunk && Defines(specs, p, e, r, m) :: p in places
    decreases |specs[j].chunks| - c
  {
    hide Offer, RealEntry, Holds, Defines;
    var spec := specs[j];
    assert spec in specs;
    RealEntryIff(spec, e, local);
    if c == |spec.chunks| {
      places := [];
      NoChunkThere(specs, j, e, r, c);
    } else {
      var rest := ChunkPlaces(specs, j, typeIndex, e, r, local, c + 1);
      var p := Place(j, c);
      OfferDefines(specs, p, typeIndex, e, r, local);
      var offer := Offer(spec, typeIndex, local, r, c);
      if offer.None? {
        places := rest;
      } else {
        places := [p] + rest;
        OfferIff(specs, p, typeIndex, e, r, local, offer.value);
      }
      forall q: Place, m: nat | q.spec == j && c <= q.chunk && Defines(specs, q, e, r, m)
        ensures q in places
      {
        assert q == p || c + 1 <= q.chunk;
      }
    }
  }

  lemma NoChunkThere<T>(specs: TypeList<T>, j: nat, e: nat, r: Config, c: nat)
    requires j < |specs| && |specs[j].chunks| <= c
    ensures forall p: Place, m: nat | p.spec == j && c <= p.chunk :: !Defines(specs, p, e, r, m)
  {
  }

  lemma OfferDefines<T>(specs: TypeList<T>, p: Place, typeIndex: nat, e: nat, r: Config, local: nat)
    requires p.spec < |specs| && p.chunk < |specs[p.spec].chunks| && RealEntry(specs[p.spec], e) == Some(local)
    ensures specs[p.spec] in specs && specs[p.spec].Valid() && local < specs[p.spec].entryCount
    ensures Offer(specs[p.spec], typeIndex, local, r, p.chunk).Some? <==> Defines(specs, p, e, r, local)
    ensures forall m: nat | Defines(specs, p, e, r, m) :: m == local
  {
    hide Matches;
    assert specs[p.spec] in specs;
    RealEntryIff(specs[p.spec], e, local);
    forall m: nat | Defines(specs, p, e, r, m)
      ensures m == local
    {
      RealEntryIff(specs[p.spec], e, m);
    }
  }

  /** The candidates are the places, in their order. */
  lemma {:induction false} CandidatePlaces<T>(specs: TypeList<T>, typeIndex: nat, e: nat, r: Config, i: nat)
    returns (places: seq<Place>)
    requires i <= |specs|
    ensures Lists(specs, typeIndex, e, r, i, Candidates(specs, typeIndex, e, r, i), places)
    decreases |specs| - i
  {
    hide RealEntry, Holds, Defines, ChunkOffers;
    if i == |specs| {
      places := [];
      NoPackageThere(specs, e, r, i);
    } else {
      var rest := CandidatePlaces(specs, typeIndex, e, r, i + 1);
      var own: seq<Place> := [];
      var local := RealEntry(specs[i], e);
      if local.Some? {
        own := ChunkPlaces(specs, i, typeIndex, e, r, local.value, 0);
      } else {
        UnknownThere(specs, i, e, r);
      }
      assert specs[i] in specs;
      var first, later := TypeOffers(specs[i], typeIndex, e, r), Candidates(specs, typeIndex, e, r, i + 1);
      places := own + rest;
      assert Candidates(specs, typeIndex, e, r, i) == first + later;
      forall p: Place, m: nat | i <= p.spec && Defines(specs, p, e, r, m)
        ensures p in places
      {
        assert p.spec == i || i + 1 <= p.spec;
      }
    }
  }

  lemma NoPackageThere<T>(specs: TypeList<T>, e: nat, r: Config, i: nat)
    requires |specs| <= i
    ensures forall p: Place, m: nat | i <= p.spec :: !Defines(specs, p, e, r, m)
  {
  }

  lemma UnknownThere<T>(specs: TypeList<T>, j: nat, e: nat, r: Config)
    requires j < |specs| && RealEntry(specs[j], e).None?
    ensures forall p: Place, m: nat | p.spec == j :: !Defines(specs, p, e, r, m)
  {
    forall p: Place, m: nat | p.spec == j
      ensures !Defines(specs, p, e, r, m)
    {
      RealEntryIff(specs[j], e, m);
    }
  }

  // ----- which candidate the scan ends on -----

  /** The last one installed: nothing after it is better, nor an overlay of the same configuration. */
  ghost predicate NothingReplaces<T>(cands: seq<Candidate<T>>, k: int, r: Config) {
    && 0 <= k < |cands|
    && forall m | k < m < |cands| ::
         !Better(cands[m], cands[k], r) && (cands[m].config == cands[k].config ==> !cands[m].overlay)
  }

  /** Whatever the candidates, the scan ends on one that nothing after it replaces. */
  lemma {:induction false} ScanEndsUnreplaced<T>(best: Candidate<T>, rest: seq<Candidate<T>>, r: Config) returns (k: nat)
    ensures k <= |rest|
    ensures Scan(Some(best), rest, r) == Some(([best] + rest)[k])
    ensures NothingReplaces([best] + rest, k, r)
    decreases |rest|
  {
    hide IsBetterThan;
    var all := [best] + rest;
    if rest == [] {
      k := 0;
    } else {
      var next := Pick(Some(best), rest[0], r).value;
      var below := [next] + rest[1..];
      var l := ScanEndsUnreplaced(next, rest[1..], r);
      if l == 0 && next == best && (Better(rest[0], best, r) <==> false)
         && !(rest[0].config == best.config && rest[0].overlay) {
        k := 0;
        assert forall m | 1 < m < |all| :: all[m] == below[m - 1];
      } else {
        k := l + 1;
        assert forall m | 1 < m < |all| :: all[m] == below[m - 1];
      }
    }
  }

  /** The last overlay among the candidates of its configuration, or without one the first of them. */
  ghost predicate LastOverlayOrFirst<T>(cands: seq<Candidate<T>>, k: int) {
    && 0 <= k < |cands|
    && (forall m | k < m < |cands| && cands[m].config == cands[k].config :: !cands[m].overlay)
    && (cands[k].overlay || forall m | 0 <= m < k :: cands[m].config != cands[k].config)
  }

  /** Strength only depends on the configuration. */
  lemma StrongByConfig<T>(c: Candidate<T>, d: Candidate<T>, cands: seq<Candidate<T>>, r: Config)
    requires Strong(c, cands, r) && c.config == d.config
    ensures Strong(d, cands, r)
  {
    hide Clash, IsBetterThan;
    forall x | x in cands
      ensures !Clashing(d, x, r)
    {
      assert !Clashing(c, x, r);
    }
    forall x | x in cands && !Free(x, cands, r)
      ensures Better(d, x, r)
    {
      assert Better(c, x, r);
    }
  }

  /** The scan never comes back to a strong candidate's configuration that it has left. */
  lemma StaysLeft<T>(best: Candidate<T>, next: Candidate<T>, rest: seq<Candidate<T>>, cands: seq<Candidate<T>>, r: Config)
    requires Accepted(cands, r) && best in cands && next in cands && (forall c | c in rest :: c in cands)
    requires Strong(best, cands, r) && Strong(next, cands, r) && Better(next, best, r)
    ensures Scan(Some(next), rest, r).Some? && Scan(Some(next), rest, r).value.config != best.config
  {
    hide Matches, InRange, Clash, IsBetterThan, Strong, Scan;
    ScanFromStrong(next, rest, cands, r);
    var found := Scan(Some(next), rest, r).value;
    BetterFacts(next, best, r);
    BetterFacts(best, best, r);
    if found.config == best.config {
      assert Better(best, next, r);
      assert Clashing(next, best, r) && Clashing(best, next, r);
      assert Free(best, cands, r) by { Unfold(best, cands, r); }
    }
  }

  lemma Unfold<T>(c: Candidate<T>, cands: seq<Candidate<T>>, r: Config)
    requires Strong(c, cands, r)
    ensures Free(c, cands, r)
  {
  }

  /** From a strong candidate with the configuration the scan ends on, only overlays of it take over. */
  lemma {:induction false} OverlaysTakeOver<T>(best: Candidate<T>, rest: seq<Candidate<T>>, cands: seq<Candidate<T>>, r: Config)
    returns (k: nat)
    requires Accepted(cands, r) && best in cands && (forall c | c in rest :: c in cands) && Strong(best, cands, r)
    requires Scan(Some(best), rest, r).Some? && Scan(Some(best), rest, r).value.config == best.config
    ensures k <= |rest| && Scan(Some(best), rest, r).value == ([best] + rest)[k]
    ensures LastOverlayOrFirst([best] + rest, k)
    decreases |rest|
  {
    hide Matches, InRange, Clash, IsBetterThan, Strong;
    var all := [best] + rest;
    if rest == [] {
      k := 0;
    } else {
      var c0 := rest[0];
      assert c0 in rest;
      var next := Pick(Some(best), c0, r).value;
      NextIsStrong(best, c0, cands, r);
      BetterFacts(best, best, r);
      if next.config != best.config {
        StaysLeft(best, next, rest[1..], cands, r);
      }
      var l := OverlaysTakeOver(next, rest[1..], cands, r);
      var below := [next] + rest[1..];
      assert forall m | 1 < m < |all| :: all[m] == below[m - 1];
      assert c0.config == best.config && c0.overlay ==> next == c0;
      k := if l == 0 && !(c0.config == best.config && c0.overlay) then 0 else l + 1;
      assert below[l] == all[k];
      assert l > 0 ==> below[l].overlay by { assert below[0].config == below[l].config; }
      assert forall m | k < m < |all| && all[m].config == all[k].config :: !all[m].overlay;
    }
  }

  /** Before the first candidate of the configuration the scan ends on, every best gives way to it. */
  lemma {:induction false} FirstIsTaken<T>(best: Candidate<T>, rest: seq<Candidate<T>>, cands: seq<Candidate<T>>, r: Config)
    returns (k: nat)
    requires Accepted(cands, r) && best in cands && forall c | c in rest :: c in cands
    requires Scan(Some(best), rest, r).Some? && Strong(Scan(Some(best), rest, r).value, cands, r)
    ensures k <= |rest| && Scan(Some(best), rest, r).value == ([best] + rest)[k]
    ensures LastOverlayOrFirst([best] + rest, k)
    decreases |rest|
  {
    hide Matches, InRange, Clash, IsBetterThan, Strong;
    var all := [best] + rest;
    var found := Scan(Some(best), rest, r).value;
    if best.config == found.config {
      StrongByConfig(found, best, cands, r);
      k := OverlaysTakeOver(best, rest, cands, r);
    } else {
      assert rest != [];
      var c0 := rest[0];
      assert c0 in rest;
      var next := Pick(Some(best), c0, r).value;
      if c0.config == found.config && next != c0 {
        StrongByConfig(found, c0, cands, r);
        GivesWay(best, c0, rest, cands, r);
      }
      var l := FirstIsTaken(next, rest[1..], cands, r);
      var below := [next] + rest[1..];
      assert forall m | 1 < m < |all| :: all[m] == below[m - 1];
      k := l + 1;
      assert below[l] == all[k];
      assert forall m | k < m < |all| && all[m].config == all[k].config :: !all[m].overlay;
      assert all[k].overlay || forall m | 0 <= m < k :: all[m].config != all[k].config by {
        NoneBefore(all, below, k);
      }
    }
  }

  lemma NoneBefore<T>(all: seq<Candidate<T>>, below: seq<Candidate<T>>, k: int)
    requires |all| == |below| + 1 && 0 < k < |all| && LastOverlayOrFirst(below, k - 1)
    requires (forall m | 1 < m < |all| :: all[m] == below[m - 1]) && below[k - 1] == all[k]
    requires all[0].config != all[k].config && (all[1].config == all[k].config ==> below[0] == all[1])
    ensures all[k].overlay || forall m | 0 <= m < k :: all[m].config != all[k].config
  {
    if !all[k].overlay {
      forall m | 0 <= m < k
        ensures all[m].config != all[k].config
      {
        if m == 1 && all[1].config == all[k].config {
          assert below[0].config == below[k - 1].config;
        }
      }
    }
  }

  /** A best that a strong candidate of the final configuration does not replace has that configuration. */
  lemma GivesWay<T>(best: Candidate<T>, c0: Candidate<T>, rest: seq<Candidate<T>>, cands: seq<Candidate<T>>, r: Config)
    requires Accepted(cands, r) && best in cands && c0 in cands && forall c | c in rest :: c in cands
    requires Strong(c0, cands, r) && !Better(c0, best, r)
    requires Scan(Some(best), rest, r).Some? && Scan(Some(best), rest, r).value.config == c0.config
    ensures best.config == c0.config
  {
    hide Matches, InRange, Clash, IsBetterThan, Strong, Scan;
    StrongSideways(c0, best, cands, r);
    ScanFromStrong(best, rest, cands, r);
  }

  /** The whole scan, where clashes are settled. */
  lemma ScanWinner<T>(cands: seq<Candidate<T>>, r: Config) returns (k: nat)
    requires Accepted(cands, r) && ClashesSettled(cands, r) && cands != []
    ensures k < |cands| && Scan(None, cands, r) == Some(cands[k])
    ensures LastOverlayOrFirst(cands, k)
    ensures forall c | c in cands :: !Better(c, cands[k], r)
  {
    hide Matches, InRange, Clash, IsBetterThan, Strong, ClashesSettled;
    assert cands == [cands[0]] + cands[1..];
    assert Scan(None, cands, r) == Scan(Some(cands[0]), cands[1..], r);
    var s := StrongExists(cands, r);
    ScanPastStrong(cands[0], cands[1..], s, cands, r);
    k := FirstIsTaken(cands[0], cands[1..], cands, r);
  }

  // ----- the entry returned -----

  /** The configuration of a place that defines the entry. */
  function ConfigAt<T>(specs: TypeList<T>, p: Place): Config
    requires p.spec < |specs| && p.chunk < |specs[p.spec].chunks| && specs[p.spec].chunks[p.chunk].Some?
  {
    specs[p.spec].chunks[p.chunk].value.config
  }

  /** A later place is never better, and no overlay of the same configuration. */
  ghost predicate NotReplaced<T>(specs: TypeList<T>, p: Place, e: nat, r: Config, config: Config) {
    forall q: Place, local: nat | Defines(specs, q, e, r, local) && p.Before(q) ::
      && !IsBetterThan(ConfigAt(specs, q), config, r)
      && (ConfigAt(specs, q) == config ==> specs[q.spec].idmap.None?)
  }

  /** No place is better. */
  ghost predicate NotBeaten<T>(specs: TypeList<T>, e: nat, r: Config, config: Config) {
    forall q: Place, local: nat | Defines(specs, q, e, r, local) :: !IsBetterThan(ConfigAt(specs, q), config, r)
  }

  /** Of the places with the configuration this is the first, and none is an overlay. */
  ghost predicate FirstOfBase<T>(specs: TypeList<T>, p: Place, e: nat, r: Config, config: Config) {
    forall q: Place, local: nat | Defines(specs, q, e, r, local) && ConfigAt(specs, q) == config ::
      !q.Before(p) && specs[q.spec].idmap.None?
  }

  /** The entry is found unless no place defines it, and no later place would have replaced it: in particular a
    * later overlay never has the same configuration. */
  lemma LookupIsNotReplaced<T>(specs: TypeList<T>, typeIndex: nat, e: nat, r: Config) returns (p: Place)
    ensures match LookupEntry(specs, typeIndex, e, r)
            case BadType => specs == []
            case BadIndex => specs != [] && forall q: Place, local: nat :: !Defines(specs, q, e, r, local)
            case Found(best, _) =>
              Holds(specs, p, typeIndex, e, r, best) && NotReplaced(specs, p, e, r, best.config)
  {
    hide IsBetterThan, Matches, Defines, Holds;
    p := Place(0, 0);
    var cands := Candidates(specs, typeIndex, e, r, 0);
    var places := CandidatePlaces(specs, typeIndex, e, r, 0);
    if cands == [] {
      ScanNothing<T>(None, r);
    } else {
      assert cands == [cands[0]] + cands[1..];
      assert Scan(None, cands, r) == Scan(Some(cands[0]), cands[1..], r);
      var k := ScanEndsUnreplaced(cands[0], cands[1..], r);
      p := places[k];
      forall q: Place, local: nat | Defines(specs, q, e, r, local) && p.Before(q)
        ensures InTable(specs, q)
        ensures !IsBetterThan(ConfigAt(specs, q), cands[k].config, r)
        ensures ConfigAt(specs, q) == cands[k].config ==> specs[q.spec].idmap.None?
      {
        var m :| 0 <= m < |places| && places[m] == q;
        HoldsConfig(specs, q, typeIndex, e, r, cands[m]);
      }
    }
  }

  predicate InTable<T>(specs: TypeList<T>, p: Place) {
    p.spec < |specs| && p.chunk < |specs[p.spec].chunks| && specs[p.spec].chunks[p.chunk].Some?
  }

  lemma HoldsConfig<T>(specs: TypeList<T>, p: Place, typeIndex: nat, e: nat, r: Config, cand: Candidate<T>)
    requires Holds(specs, p, typeIndex, e, r, cand)
    ensures InTable(specs, p) && cand.config == ConfigAt(specs, p) && cand.overlay == specs[p.spec].idmap.Some?
  {
  }

  /** Where clashes are settled no place at all is better, and a package that is no overlay provides the entry only
    * if its chunk comes first among those of the configuration and no overlay has one. */
  lemma LookupWinner<T>(specs: TypeList<T>, typeIndex: nat, e: nat, r: Config) returns (p: Place)
    requires InRange(r) && ClashesSettled(Candidates(specs, typeIndex, e, r, 0), r)
    requires LookupEntry(specs, typeIndex, e, r).Found?
    ensures var best := LookupEntry(specs, typeIndex, e, r).best;
            && Holds(specs, p, typeIndex, e, r, best)
            && NotReplaced(specs, p, e, r, best.config) && NotBeaten(specs, e, r, best.config)
            && (best.overlay || FirstOfBase(specs, p, e, r, best.config))
  {
    hide IsBetterThan, Matches, Defines, Holds, InRange, ClashesSettled;
    var cands := Candidates(specs, typeIndex, e, r, 0);
    CandidatesMatch(specs, typeIndex, e, r);
    var places := CandidatePlaces(specs, typeIndex, e, r, 0);
    ScanNothing<T>(None, r);
    var k := ScanWinner(cands, r);
    p := places[k];
    forall q: Place, local: nat | Defines(specs, q, e, r, local)
      ensures InTable(specs, q) && !IsBetterThan(ConfigAt(specs, q), cands[k].config, r)
      ensures ConfigAt(specs, q) == cands[k].config && p.Before(q) ==> specs[q.spec].idmap.None?
      ensures ConfigAt(specs, q) == cands[k].config && !cands[k].overlay ==> !q.Before(p) && specs[q.spec].idmap.None?
    {
      var m :| 0 <= m < |places| && places[m] == q;
      HoldsConfig(specs, q, typeIndex, e, r, cands[m]);
      assert cands[m] in cands && !Better(cands[m], cands[k], r);
      if m < k { assert places[m].Before(places[k]); }
      if k < m { assert places[k].Before(places[m]); }
    }
  }

  // ----- the flags of the entry -----

  /** None of the flags of the mask is set. */
  predicate Clear(flags: bv32, mask: bv32) { flags & mask == 0 }

  /** Every package from the i-th on that knows the entry has flags and leaves these clear. */
  ghost predicate AllClear<T>(specs: TypeList<T>, i: nat, e: nat, mask: bv32) {
    forall j, local: nat | i <= j < |specs| && KnownAs(specs[j], e, local) :: LeavesClear(specs[j], local, mask)
  }

  predicate LeavesClear<T>(spec: TypeSpec<T>, local: nat, mask: bv32) {
    spec.flags.Some? && local < |spec.flags.value| && Clear(spec.flags.value[local], mask)
  }

  lemma OrDistributes(a: bv32, b: bv32, mask: bv32)
    ensures (a | b) & mask == (a & mask) | (b & mask)
  {
  }

  lemma OrIsZero(a: bv32, b: bv32)
    ensures a | b == 0 <==> a == 0 && b == 0
  {
  }

  lemma OrClear(a: bv32, b: bv32, mask: bv32)
    ensures Clear(a | b, mask) <==> Clear(a, mask) && Clear(b, mask)
  {
    OrDistributes(a, b, mask);
    OrIsZero(a & mask, b & mask);
  }

  lemma AllOrNothing(mask: bv32)
    ensures Clear(0xFFFF_FFFF, mask) <==> mask == 0
    ensures Clear(0, mask)
  {
  }

  lemma FlagsOfPackage<T>(spec: TypeSpec<T>, e: nat, sofar: bv32, mask: bv32)
    requires spec.Valid() && mask != 0
    ensures Clear(AddFlags(spec, e, sofar), mask) <==>
            Clear(sofar, mask) && forall local: nat | KnownAs(spec, e, local) :: LeavesClear(spec, local, mask)
  {
    hide KnownAs, Clear;
    forall local: nat
      ensures RealEntry(spec, e) == Some(local) <==> KnownAs(spec, e, local)
    {
      RealEntryIff(spec, e, local);
    }
    AllOrNothing(mask);
    if RealEntry(spec, e).Some? && spec.flags.Some? {
      OrClear(sofar, spec.flags.value[RealEntry(spec, e).value], mask);
    }
  }

  lemma {:induction false} FlagsFromIff<T>(specs: TypeList<T>, e: nat, i: nat, sofar: bv32, mask: bv32)
    requires i <= |specs| && mask != 0
    ensures Clear(FlagsFrom(specs, e, i, sofar), mask) <==> Clear(sofar, mask) && AllClear(specs, i, e, mask)
    decreases |specs| - i
  {
    hide KnownAs, LeavesClear, AddFlags, Clear;
    if i < |specs| {
      assert specs[i] in specs;
      FlagsOfPackage(specs[i], e, sofar, mask);
      FlagsFromIff(specs, e, i + 1, AddFlags(specs[i], e, sofar), mask);
    }
  }

  /** Flags of the entry are clear exactly when every package that knows the entry has flags and leaves them clear. */
  lemma FlagsIff<T>(specs: TypeList<T>, typeIndex: nat, e: nat, r: Config, mask: bv32)
    requires mask != 0 && LookupEntry(specs, typeIndex, e, r).Found?
    ensures Clear(LookupEntry(specs, typeIndex, e, r).specFlags, mask) <==> AllClear(specs, 0, e, mask)
  {
    hide Scan, Candidates, FlagsFrom, AllClear, Clear;
    FlagsFromIff(specs, e, 0, 0, mask);
    AllOrNothing(mask);
  }
}
