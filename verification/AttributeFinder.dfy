/** include/androidfw/AttributeFinder.h: a linear search that keeps its position between queries and
  * jumps back to a remembered package start when the package of the query changes.
  */
module AttributeFinders {
  import opened Common

  /** The package a resource id belongs to (its top byte). */
  function Package(attr: uint32): (p: nat)
    ensures p < 0x100
  {
    attr / 0x100_0000
  }

  lemma PackageIs(package: uint8, rest: nat)
    requires rest < 0x100_0000
    ensures Package(package * 0x100_0000 + rest) == package
  {
  }

  const FRAMEWORK := 0x01
  const APP := 0x7f

  /** The list is grouped by package, in any package order, and strictly ascending within a package. */
  ghost predicate WellSorted(attrs: seq<uint32>) {
    && (forall i, j, k | 0 <= i < j < k < |attrs| && Package(attrs[i]) == Package(attrs[k]) ::
          Package(attrs[j]) == Package(attrs[i]))
    && (forall i, j | 0 <= i < j < |attrs| && Package(attrs[i]) == Package(attrs[j]) :: attrs[i] < attrs[j])
  }

  /** Plain search from a position on; the length of the list when there is no such id. */
  function LinearFrom(attrs: seq<uint32>, attr: uint32, i: nat): (r: nat)
    requires i <= |attrs|
    ensures i <= r <= |attrs| && (r < |attrs| ==> attrs[r] == attr)
    ensures forall k | i <= k < r :: attrs[k] != attr
    decreases |attrs| - i
  {
    if i == |attrs| || attrs[i] == attr then i else LinearFrom(attrs, attr, i + 1)
  }

  function LinearFind(attrs: seq<uint32>, attr: uint32): (r: nat)
    ensures r <= |attrs| && (r < |attrs| <==> attr in attrs)
  {
    LinearFrom(attrs, attr, 0)
  }

  lemma LinearFindIs(attrs: seq<uint32>, attr: uint32, r: nat)
    requires r <= |attrs| && (r < |attrs| ==> attrs[r] == attr)
    requires forall i | 0 <= i < r :: attrs[i] != attr
    ensures LinearFind(attrs, attr) == r
  {
  }

  /** The first entry of a package's group. */
  ghost predicate IsStart(attrs: seq<uint32>, s: nat) {
    s < |attrs| && (s > 0 ==> Package(attrs[s - 1]) != Package(attrs[s]))
  }

  lemma {:induction false} StartBefore(attrs: seq<uint32>, i: nat) returns (s: nat)
    requires i < |attrs|
    ensures s <= i && IsStart(attrs, s) && Package(attrs[s]) == Package(attrs[i])
  {
    if i > 0 && Package(attrs[i - 1]) == Package(attrs[i]) {
      s := StartBefore(attrs, i - 1);
    } else {
      s := i;
    }
  }

  lemma StartIsFirst(attrs: seq<uint32>, s: nat, i: nat)
    requires WellSorted(attrs) && IsStart(attrs, s) && i < |attrs| && Package(attrs[i]) == Package(attrs[s])
    ensures s <= i
  {
    Grouped(attrs, i, s - 1, s);
  }

  lemma Grouped(attrs: seq<uint32>, i: int, j: int, k: int)
    requires WellSorted(attrs)
    ensures 0 <= i < j < k < |attrs| && Package(attrs[i]) == Package(attrs[k]) ==> Package(attrs[j]) == Package(attrs[i])
  {
  }

  class Finder {
    const attrs: seq<uint32>
    var first: bool
    var current: nat
    var largest: nat
    var lastPackage: nat
    var currentAttr: uint32
    var frameworkStart: nat
    var appStart: nat
    var packageOffsets: map<nat, nat>
    /** The greatest query of the current run, the queries since the package last changed. */
    ghost var runMax: Option<uint32>

    constructor (list: seq<uint32>)
      requires WellSorted(list)
      ensures Valid() && attrs == list && runMax == None
    {
      attrs := list;
      first := true;
      current, largest, lastPackage, currentAttr := 0, 0, 0, 0;
      frameworkStart, appStart := |list|, |list|;
      packageOffsets := map[];
      runMax := None;
    }

    /** The remembered start of a package, if it has been seen. */
    function Recorded(p: nat): (start: Option<nat>)
      reads `frameworkStart, `appStart, `packageOffsets
    {
      var s := if p == FRAMEWORK then frameworkStart else if p == APP then appStart
               else if p in packageOffsets then packageOffsets[p] else |attrs|;
      if s == |attrs| then None else Some(s)
    }

    /** Every remembered offset is where its package's group starts, and every group that starts no later
      * than the farthest position reached is remembered. */
    ghost predicate OffsetsOk()
      reads `frameworkStart, `appStart, `packageOffsets, `first, `largest
    {
      && (forall p | Recorded(p).Some? :: IsStart(attrs, Recorded(p).value) && Package(attrs[Recorded(p).value]) == p)
      && (!first ==> forall s | 0 <= s <= largest && s < |attrs| && IsStart(attrs, s) :: Recorded(Package(attrs[s])).Some?)
    }

    /** The cursor separates the entries of the run's package: behind it those up to the greatest query,
      * ahead of it those above. */
    ghost predicate Separates()
      reads this
    {
      forall i | 0 <= i < |attrs| && Package(attrs[i]) == lastPackage ::
        if i < current then runMax.Some? && attrs[i] <= runMax.value
        else runMax.Some? ==> attrs[i] > runMax.value
    }

    ghost predicate RecordedReached()
      reads this
    {
      forall p | Recorded(p).Some? :: Recorded(p).value <= largest
    }

    ghost predicate Valid()
      reads this
    {
      && WellSorted(attrs) && RecordedReached()
      && current <= largest <= |attrs|
      && (first ==> current == 0 == largest && runMax == None)
      && (!first && current < |attrs| ==> currentAttr == attrs[current])
      && (!first ==> Separates() && (runMax.Some? ==> Package(runMax.value) == lastPackage))
      && OffsetsOk()
    }

    /** markCurrentPackageId. */
    method Mark(p: nat)
      requires current < |attrs|
      modifies `frameworkStart, `appStart, `packageOffsets
      ensures Recorded(p) == Some(current) && forall q | q != p :: Recorded(q) == old(Recorded(q))
    {
      if p == FRAMEWORK {
        frameworkStart := current;
      } else if p == APP {
        appStart := current;
      } else {
        packageOffsets := packageOffsets[p := current];
      }
    }

    /** jumpToClosestAttribute: no entry of the package lies before the new position. */
    method Jump(p: nat)
      requires Valid() && !first
      modifies `current, `currentAttr
      ensures current <= largest && (current < |attrs| ==> currentAttr == attrs[current])
      ensures forall i | 0 <= i < |attrs| && Package(attrs[i]) == p :: current <= i
    {
      var start := Recorded(p);
      current := if start.Some? then start.value else largest;
      if current != |attrs| {
        currentAttr := attrs[current];
      }
      forall i | 0 <= i < |attrs| && Package(attrs[i]) == p
        ensures current <= i
      {
        var s := StartBefore(attrs, i);
        if start.Some? {
          StartIsFirst(attrs, current, i);
        } else {
          assert s > largest;
        }
      }
    }

    /** Where the package bookkeeping stands between two steps of the search loop. */
    ghost predicate Tracking()
      reads this
    {
      && WellSorted(attrs) && OffsetsOk() && RecordedReached() && !first
      && current <= largest <= |attrs| && (current < |attrs| ==> currentAttr == attrs[current])
    }

    /** One step of the search loop, past the current entry. */
    method Advance()
      requires Tracking() && current < |attrs|
      modifies `current, `currentAttr, `largest, `frameworkStart, `appStart, `packageOffsets
      ensures Tracking() && current == old(current) + 1
    {
      hide Recorded, Package, IsStart, WellSorted;
      var haystack := Package(currentAttr);
      ghost var far := largest;
      current := current + 1;
      if current != |attrs| {
        currentAttr := attrs[current];
        var newHaystack := Package(currentAttr);
        StartHere(current, haystack);
        if haystack != newHaystack {
          Mark(newHaystack);
        }
      }
      if current > largest {
        largest := current;
      }
      forall s | 0 <= s <= largest && s < |attrs| && IsStart(attrs, s)
        ensures Recorded(Package(attrs[s])).Some?
      {
        assert s <= far || s == current;
      }
    }

    lemma StartHere(k: nat, before: nat)
      requires 0 < k < |attrs| && before == Package(attrs[k - 1])
      ensures IsStart(attrs, k) <==> before != Package(attrs[k])
    {
    }

    /** The search loop: where the first entry from here on that is the query lies, leaving the cursor
      * just behind it, or at the first larger entry of its package, or at the end. */
    method Walk(attr: uint32) returns (r: nat)
      requires Tracking()
      modifies `current, `currentAttr, `largest, `frameworkStart, `appStart, `packageOffsets
      ensures Tracking() && old(current) <= current
      ensures r <= |attrs| && (r < |attrs| ==> old(current) <= r && attrs[r] == attr)
      ensures forall i | old(current) <= i < r :: attrs[i] != attr
      ensures forall i | old(current) <= i < |attrs| && Package(attrs[i]) == Package(attr) ::
                if i < current then attrs[i] <= attr else attrs[i] > attr
    {
      hide *;
      Here();
      var needle := Package(attr);
      while current != |attrs|
        invariant Tracking() && old(current) <= current
        invariant current <= |attrs|
        invariant forall i | old(current) <= i < current :: attrs[i] != attr
        invariant forall i | old(current) <= i < current && Package(attrs[i]) == needle :: attrs[i] < attr
        decreases |attrs| - current
      {
        Here();
        var haystack := Package(currentAttr);
        var prevAttr := currentAttr;
        if needle == haystack && attr < currentAttr {
          Ahead(attr, current);
          break;
        }
        Advance();
        if attr == prevAttr {
          Ahead(attr, current - 1);
          return current - 1;
        }
      }
      return |attrs|;
    }

    lemma Here()
      requires Tracking()
      ensures WellSorted(attrs) && current <= |attrs| && (current < |attrs| ==> currentAttr == attrs[current])
    {
    }

    /** Entries of the query's package behind one that is no smaller are larger, and none of them is it. */
    lemma Ahead(attr: uint32, k: nat)
      requires WellSorted(attrs) && k < |attrs| && Package(attrs[k]) == Package(attr) && attr <= attrs[k]
      ensures forall i | k < i < |attrs| && Package(attrs[i]) == Package(attr) :: attrs[i] > attr
      ensures attr < attrs[k] ==> forall i | k <= i < |attrs| :: attrs[i] != attr
    {
    }

    /** Whether a query repeats or precedes one of the run it belongs to. */
    ghost predicate Stale(attr: uint32)
      reads `lastPackage, `runMax
    {
      runMax.Some? && lastPackage == Package(attr) && attr <= runMax.value
    }

    /** The position of the query, exactly as a linear search over the whole list would find it - unless
      * the query is stale, when nothing is found whether it is in the list or not. */
    method Find(attr: uint32) returns (r: nat)
      requires Valid()
      modifies this
      ensures Valid()
      ensures r == if old(Stale(attr)) then |attrs| else LinearFind(attrs, attr)
      ensures attrs != [] ==> lastPackage == Package(attr) && !first
      ensures attrs != [] ==> runMax == if old(Stale(attr)) then old(runMax) else Some(attr)
    {
      if |attrs| == 0 {
        return 0;
      }
      if first {
        Begin();
      }
      Seek(Package(attr));
      r := Search(attr);
    }

    /** Starts a new run when the package changes. */
    method Seek(needle: nat)
      requires Valid() && !first
      modifies `current, `currentAttr, `lastPackage, `runMax
      ensures Valid() && lastPackage == needle
      ensures runMax == if old(lastPackage) == needle then old(runMax) else None
    {
      hide Recorded, IsStart, WellSorted, Package;
      if lastPackage != needle {
        Jump(needle);
        lastPackage := needle;
        runMax := None;
      }
    }

    method Search(attr: uint32) returns (r: nat)
      requires Valid() && !first && lastPackage == Package(attr) && attrs != []
      modifies this
      ensures Valid() && !first && lastPackage == Package(attr)
      ensures r == if old(Stale(attr)) then |attrs| else LinearFind(attrs, attr)
      ensures runMax == if old(Stale(attr)) then old(runMax) else Some(attr)
    {
      hide Recorded, IsStart, WellSorted, Package, LinearFind;
      ghost var stale := Stale(attr);
      r := Walk(attr);
      if !stale {
        runMax := Some(attr);
        LinearFindIs(attrs, attr, r);
      } else if r < |attrs| {
        // The query would lie ahead of the cursor although it is no larger than the run's maximum.
        assert false;
      }
    }

    /** The one-time initialisation. */
    method Begin()
      requires Valid() && first && attrs != []
      modifies this
      ensures Valid() && !first && runMax == None
    {
      hide Recorded;
      first := false;
      currentAttr := attrs[0];
      lastPackage := Package(currentAttr);
      Mark(lastPackage);
    }
  }

  // ----- whole sequences of queries -----

  /** Queries j to i all ask for the same package. */
  ghost predicate SameRun(queries: seq<uint32>, j: nat, i: nat)
    requires j <= i < |queries|
  {
    forall k | j <= k <= i :: Package(queries[k]) == Package(queries[i])
  }

  /** A query that does not exceed an earlier one of its own run. */
  ghost predicate Repeats(queries: seq<uint32>, i: nat)
    requires i < |queries|
  {
    exists j | 0 <= j < i :: SameRun(queries, j, i) && queries[j] >= queries[i]
  }

  /** Within a run every query exceeds the one before. */
  ghost predicate AscendingRuns(queries: seq<uint32>) {
    forall i | 0 < i < |queries| && Package(queries[i - 1]) == Package(queries[i]) :: queries[i - 1] < queries[i]
  }

  lemma {:induction false} AscendingWithin(queries: seq<uint32>, j: nat, i: nat)
    requires AscendingRuns(queries) && j < i < |queries| && SameRun(queries, j, i)
    ensures queries[j] < queries[i]
  {
    assert Package(queries[i - 1]) == Package(queries[i]);
    if j < i - 1 {
      AscendingWithin(queries, j, i - 1);
    }
  }

  /** With ascending runs no query is stale, however often packages are revisited. */
  lemma AscendingNeverRepeats(queries: seq<uint32>, i: nat)
    requires AscendingRuns(queries) && i < |queries|
    ensures !Repeats(queries, i)
  {
    forall j | 0 <= j < i && SameRun(queries, j, i)
      ensures queries[j] < queries[i]
    {
      AscendingWithin(queries, j, i);
    }
  }

  /** The run that ends with query i, seen through its greatest member. */
  ghost predicate GreatestOfRun(queries: seq<uint32>, i: nat, m: uint32)
    requires i < |queries|
  {
    && (exists j | 0 <= j <= i :: SameRun(queries, j, i) && queries[j] == m)
    && (forall j | 0 <= j <= i && SameRun(queries, j, i) :: queries[j] <= m)
  }

  lemma SameRunStep(queries: seq<uint32>, j: nat, i: nat)
    requires j <= i && i + 1 < |queries|
    ensures SameRun(queries, j, i + 1) <==> SameRun(queries, j, i) && Package(queries[i]) == Package(queries[i + 1])
  {
    if SameRun(queries, j, i + 1) {
      assert Package(queries[i]) == Package(queries[i + 1]);
    }
  }

  /** One more query: whether it repeats, and the greatest of the run it ends. */
  lemma RunStep(queries: seq<uint32>, i: nat, m: uint32)
    requires i + 1 < |queries| && GreatestOfRun(queries, i, m)
    ensures var goesOn := Package(queries[i]) == Package(queries[i + 1]);
            && (Repeats(queries, i + 1) <==> goesOn && queries[i + 1] <= m)
            && GreatestOfRun(queries, i + 1, if goesOn && queries[i + 1] <= m then m else queries[i + 1])
  {
    hide Package, SameRun;
    var q := queries[i + 1];
    var goesOn := Package(queries[i]) == Package(q);
    forall j | 0 <= j <= i
      ensures SameRun(queries, j, i + 1) <==> SameRun(queries, j, i) && goesOn
    {
      SameRunStep(queries, j, i);
    }
    SingleRun(queries, i + 1);
    var j :| 0 <= j <= i && SameRun(queries, j, i) && queries[j] == m;
    if goesOn && q <= m {
      assert SameRun(queries, j, i + 1) && queries[j] >= q;
    } else {
      forall k | 0 <= k <= i && SameRun(queries, k, i + 1)
        ensures queries[k] < q
      {
        SameRunStep(queries, k, i);
        assert queries[k] <= m;
      }
    }
  }

  lemma SingleRun(queries: seq<uint32>, i: nat)
    requires i < |queries|
    ensures SameRun(queries, i, i)
  {
  }

  /** What a finder answers to the i-th query: linear search, unless the query repeats. */
  ghost function Answer(attrs: seq<uint32>, queries: seq<uint32>, i: nat): nat
    requires i < |queries|
  {
    if Repeats(queries, i) then |attrs| else LinearFind(attrs, queries[i])
  }

  /** The answer is wrong exactly when the query repeats although it is in the list. */
  lemma AnswerIsLinear(attrs: seq<uint32>, queries: seq<uint32>, i: nat)
    requires i < |queries|
    ensures Answer(attrs, queries, i) == LinearFind(attrs, queries[i]) <==> !(Repeats(queries, i) && queries[i] in attrs)
    ensures AscendingRuns(queries) ==> Answer(attrs, queries, i) == LinearFind(attrs, queries[i])
  {
    if AscendingRuns(queries) {
      AscendingNeverRepeats(queries, i);
    }
  }

  /** Every answer of a finder over any sequence of queries; linear search throughout when runs ascend. */
  method FindAll(attrs: seq<uint32>, queries: seq<uint32>) returns (answers: seq<nat>)
    requires WellSorted(attrs)
    ensures |answers| == |queries|
    ensures forall i | 0 <= i < |queries| :: answers[i] == Answer(attrs, queries, i)
    ensures AscendingRuns(queries) ==> forall i | 0 <= i < |queries| :: answers[i] == LinearFind(attrs, queries[i])
  {
    hide Repeats, GreatestOfRun, LinearFind, AscendingRuns, WellSorted, Answer, Package;
    hide Finder.Valid;
    var finder := new Finder(attrs);
    answers := [];
    for i := 0 to |queries|
      invariant finder.Valid() && finder.attrs == attrs && fresh(finder)
      invariant |answers| == i
      invariant i == 0 ==> finder.runMax == None
      invariant i > 0 && attrs != [] ==> finder.runMax.Some? && finder.lastPackage == Package(queries[i - 1])
                                         && GreatestOfRun(queries, i - 1, finder.runMax.value)
      invariant forall k | 0 <= k < i :: answers[k] == Answer(attrs, queries, k)
    {
      AnswerFromRun(attrs, queries, i, finder.lastPackage, finder.runMax);
      var r := finder.Find(queries[i]);
      answers := answers + [r];
    }
    forall i | 0 <= i < |queries|
      ensures AscendingRuns(queries) ==> answers[i] == LinearFind(attrs, queries[i])
    {
      AnswerIsLinear(attrs, queries, i);
    }
  }

  lemma AnswerFromRun(attrs: seq<uint32>, queries: seq<uint32>, i: nat, lastPackage: nat, runMax: Option<uint32>)
    requires i < |queries| && (i == 0 ==> runMax == None)
    requires i > 0 && attrs != [] ==> runMax.Some? && lastPackage == Package(queries[i - 1])
                                      && GreatestOfRun(queries, i - 1, runMax.value)
    ensures var stale := runMax.Some? && lastPackage == Package(queries[i]) && queries[i] <= runMax.value;
            && Answer(attrs, queries, i) == (if stale then |attrs| else LinearFind(attrs, queries[i]))
            && (attrs != [] ==> GreatestOfRun(queries, i, if stale then runMax.value else queries[i]))
  {
    hide LinearFind, GreatestOfRun, Repeats, Package;
    if i == 0 {
      FirstQuery(queries);
    } else if attrs != [] {
      RunStep(queries, i - 1, runMax.value);
    }
  }

  lemma FirstQuery(queries: seq<uint32>)
    requires |queries| > 0
    ensures !Repeats(queries, 0) && GreatestOfRun(queries, 0, queries[0])
  {
    SingleRun(queries, 0);
  }

  /** Asking for the same id twice in a row loses it the second time. */
  method AskTwice() returns (answers: seq<nat>)
    ensures answers == [0, 1]
  {
    var attrs: seq<uint32> := [0x7f01_0007];
    var queries: seq<uint32> := [0x7f01_0007, 0x7f01_0007];
    answers := FindAll(attrs, queries);
    assert SameRun(queries, 0, 1);
    assert attrs[0] == queries[0];
    LinearFindIs(attrs, queries[0], 0);
  }
}
