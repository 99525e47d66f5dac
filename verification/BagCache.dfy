/** The memoised computation of attribute bags in ResTable::getBagLocked, seen apart from the file
  * format: every slot has a plan - its own attributes and the slot it inherits from - and Build
  * threads a cache with an "in progress" mark through the recursion over plans.  On inheritance
  * chains that end, every call agrees with plain recursion, whatever was asked before.
  */
module BagCache {
  import opened Common

  datatype ResValue = ResValue(dataType: uint8, data: uint32)

  /** One attribute of a computed bag. */
  datatype BagItem = BagItem(name: uint32, value: ResValue, stringBlock: nat)

  datatype Slot = Slot(group: nat, typeIndex: nat, entry: nat)

  datatype BagError = BAD_INDEX | BAD_TYPE | UNKNOWN_ERROR

  datatype BagResult = Bag(items: seq<BagItem>, flags: bv32) | Failed(error: BagError)

  /** A cache slot: the original's sentinel 0xFFFFFFFF, or a finished bag. */
  datatype Cell = InProgress | Done(items: seq<BagItem>, flags: bv32)

  type Cache = map<Slot, Cell>

  /** What a slot's entry asks for: nothing can be done (the entry or its parent reference is bad),
    * or start from a parent - if there is one the table has - and overlay its own attributes, which
    * fails when one of them cannot be resolved. */
  datatype Plan =
    | Hopeless(error: BagError)
    | Level(parent: Option<Slot>, own: Option<seq<BagItem>>, flags: bv32)

  type Plans = map<Slot, Plan>

  function ParentSlot(plans: Plans, slot: Slot): Option<Slot>
    requires slot in plans
  {
    match plans[slot]
    case Hopeless(_) => None
    case Level(parent, _, _) => parent
  }

  /** Parents are slots of the table. */
  ghost predicate Closed(plans: Plans) {
    forall s | s in plans && ParentSlot(plans, s).Some? :: ParentSlot(plans, s).value in plans
  }

  // ----- merging -----

  /** Overlay own attributes on inherited ones, as two cursors moving through both lists. */
  function Merge(base: seq<BagItem>, own: seq<BagItem>): (merged: seq<BagItem>)
    ensures |merged| <= |base| + |own|
    decreases |base| + |own|
  {
    if own == [] then base
    else if base == [] then own
    else if base[0].name < own[0].name then [base[0]] + Merge(base[1..], own)
    else if base[0].name == own[0].name then [own[0]] + Merge(base[1..], own[1..])
    else [own[0]] + Merge(base, own[1..])
  }

  predicate Ascending(items: seq<BagItem>) {
    forall i, j | 0 <= i < j < |items| :: items[i].name < items[j].name
  }

  /** The bag as the mapping from attribute name to attribute that its users see. */
  ghost function AsMap(items: seq<BagItem>): map<uint32, BagItem> {
    if items == [] then map[] else AsMap(items[1..])[items[0].name := items[0]]
  }

  lemma {:induction false} AsMapNames(items: seq<BagItem>)
    ensures forall n :: n in AsMap(items) <==> exists i | 0 <= i < |items| :: items[i].name == n
    decreases |items|
  {
    if items != [] {
      AsMapNames(items[1..]);
      assert forall i | 0 < i < |items| :: items[i] == items[1..][i - 1];
    }
  }

  lemma AscendingTail(items: seq<BagItem>)
    requires items != [] && Ascending(items)
    ensures Ascending(items[1..])
    ensures forall n | n in AsMap(items[1..]) :: items[0].name < n
  {
    AsMapNames(items[1..]);
  }

  lemma AsMapOfCons(items: seq<BagItem>)
    ensures items == [] ==> AsMap(items) == map[]
    ensures items != [] ==> AsMap(items) == AsMap(items[1..])[items[0].name := items[0]]
  {
  }

  /** Putting an attribute before a list of larger names. */
  lemma AscendingCons(item: BagItem, rest: seq<BagItem>)
    requires Ascending(rest) && forall n | n in AsMap(rest) :: item.name < n
    ensures Ascending([item] + rest)
    ensures AsMap([item] + rest) == AsMap(rest)[item.name := item]
  {
    AsMapNames(rest);
    forall i | 0 <= i < |rest|
      ensures item.name < rest[i].name
    {
      assert rest[i].name in AsMap(rest);
    }
    assert ([item] + rest)[1..] == rest;
  }

  /** The merge of ascending lists is ascending, has exactly the names of both, and takes the own
    * attribute wherever both have one. */
  lemma {:induction false} MergeIsOverride(base: seq<BagItem>, own: seq<BagItem>)
    requires Ascending(base) && Ascending(own)
    ensures Ascending(Merge(base, own))
    ensures AsMap(Merge(base, own)) == AsMap(base) + AsMap(own)
    decreases |base| + |own|
  {
    hide AsMap;
    AsMapOfCons(base);
    AsMapOfCons(own);
    if base != [] { AscendingTail(base); }
    if own != [] { AscendingTail(own); }
    if base != [] && own != [] {
      if base[0].name < own[0].name {
        MergeIsOverride(base[1..], own);
        assert forall n | n in AsMap(own) :: base[0].name < n;
        AscendingCons(base[0], Merge(base[1..], own));
        KeepUpdate(AsMap(base[1..]), AsMap(own), base[0].name, base[0]);
      } else if base[0].name == own[0].name {
        MergeIsOverride(base[1..], own[1..]);
        AscendingCons(own[0], Merge(base[1..], own[1..]));
        assert AsMap(base) + AsMap(own) == (AsMap(base[1..]) + AsMap(own[1..]))[own[0].name := own[0]];
      } else {
        MergeIsOverride(base, own[1..]);
        assert forall n | n in AsMap(base) :: own[0].name < n;
        AscendingCons(own[0], Merge(base, own[1..]));
        assert AsMap(base) + AsMap(own) == (AsMap(base) + AsMap(own[1..]))[own[0].name := own[0]];
      }
    }
  }

  /** Nothing is inherited exactly if every inherited name is defined anyway. */
  lemma {:induction false} NothingInherited(base: seq<BagItem>, own: seq<BagItem>)
    requires Ascending(base) && Ascending(own)
    ensures Merge(base, own) == own <==> forall n | n in AsMap(base) :: n in AsMap(own)
    decreases |base| + |own|
  {
    hide AsMap;
    AsMapOfCons(base);
    AsMapOfCons(own);
    if base != [] { AscendingTail(base); }
    if own != [] { AscendingTail(own); }
    if base == [] {
    } else if own == [] {
      assert base[0].name in AsMap(base);
    } else if base[0].name < own[0].name {
      assert base[0].name in AsMap(base) && base[0].name !in AsMap(own);
    } else if base[0].name == own[0].name {
      NothingInherited(base[1..], own[1..]);
      assert Merge(base, own)[1..] == Merge(base[1..], own[1..]) && own == [own[0]] + own[1..];
      assert forall n | n in AsMap(base[1..]) :: n in AsMap(base) && n != own[0].name;
    } else {
      NothingInherited(base, own[1..]);
      assert Merge(base, own)[1..] == Merge(base, own[1..]) && own == [own[0]] + own[1..];
    }
  }

  lemma KeepUpdate<K, V>(m: map<K, V>, n: map<K, V>, k: K, v: V)
    requires k !in n
    ensures m[k := v] + n == (m + n)[k := v]
  {
  }

  // ----- the memoised computation -----

  const NOTHING: BagResult := Bag([], 0)

  /** Complete a level from what the parent's call returned; a failed parent passes nothing on. */
  function Finish(own: Option<seq<BagItem>>, flags: bv32, parent: BagResult): BagResult {
    match own
    case None => Failed(UNKNOWN_ERROR)
    case Some(items) =>
      Bag(Merge(if parent.Bag? then parent.items else [], items), (if parent.Bag? then parent.flags else 0) | flags)
  }

  /** Inheriting from a failure is inheriting nothing. */
  lemma FinishWithoutParent(own: Option<seq<BagItem>>, flags: bv32)
    ensures Finish(own, flags, Failed(BAD_INDEX)) == Finish(own, flags, NOTHING)
  {
  }

  function Store(cache: Cache, slot: Slot, result: BagResult): Cache {
    match result
    case Bag(items, flags) => cache[slot := Done(items, flags)]
    case Failed(_) => cache
  }

  /** getBagLocked as a function of the cache: the result and the cache it leaves behind. */
  function Build(plans: Plans, cache: Cache, slot: Slot): (BagResult, Cache)
    requires Closed(plans) && slot in plans
    decreases plans.Keys - cache.Keys
  {
    if slot in cache then
      match cache[slot]
      case Done(items, flags) => (Bag(items, flags), cache)
      case InProgress => (Failed(BAD_INDEX), cache)
    else
      var marked := cache[slot := InProgress];
      match plans[slot]
      case Hopeless(error) => (Failed(error), marked)
      case Level(parent, own, flags) =>
        assert slot in plans.Keys - cache.Keys && ParentSlot(plans, slot) == parent;
        var (parentBag, later) := if parent.None? then (NOTHING, marked) else Build(plans, marked, parent.value);
        var result := Finish(own, flags, parentBag);
        (result, Store(later, slot, result))
  }

  // ----- plain recursion -----

  /** The chain of parents of a slot ends after exactly n steps. */
  ghost predicate ChainLength(plans: Plans, slot: Slot, n: nat)
    requires Closed(plans) && slot in plans
    decreases n
  {
    match ParentSlot(plans, slot)
    case None => n == 0
    case Some(p) => n > 0 && ChainLength(plans, p, n - 1)
  }

  ghost predicate ChainEnds(plans: Plans, slot: Slot)
    requires Closed(plans) && slot in plans
  {
    exists n: nat :: ChainLength(plans, slot, n)
  }

  lemma {:induction false} ChainLengthUnique(plans: Plans, slot: Slot, m: nat, n: nat)
    requires Closed(plans) && slot in plans
    requires ChainLength(plans, slot, m) && ChainLength(plans, slot, n)
    ensures m == n
    decreases n
  {
    var p := ParentSlot(plans, slot);
    if p.Some? {
      ChainLengthUnique(plans, p.value, m - 1, n - 1);
    }
  }

  ghost function Height(plans: Plans, slot: Slot): nat
    requires Closed(plans) && slot in plans && ChainEnds(plans, slot)
  {
    var n: nat :| ChainLength(plans, slot, n);
    n
  }

  lemma ChainOfParent(plans: Plans, slot: Slot)
    requires Closed(plans) && slot in plans && ParentSlot(plans, slot).Some?
    ensures var p := ParentSlot(plans, slot).value;
            && (ChainEnds(plans, slot) <==> ChainEnds(plans, p))
            && (ChainEnds(plans, slot) ==> Height(plans, slot) == Height(plans, p) + 1)
  {
    var p := ParentSlot(plans, slot).value;
    if ChainEnds(plans, p) {
      assert ChainLength(plans, slot, Height(plans, p) + 1);
    }
    if ChainEnds(plans, slot) {
      var n := Height(plans, slot);
      assert ChainLength(plans, p, n - 1);
      ChainLengthUnique(plans, p, n - 1, Height(plans, p));
    }
  }

  /** The bag of a slot by plain recursion, without any cache. */
  ghost function BagOf(plans: Plans, slot: Slot): BagResult
    requires Closed(plans) && slot in plans && ChainEnds(plans, slot)
    decreases Height(plans, slot)
  {
    match plans[slot]
    case Hopeless(error) => Failed(error)
    case Level(parent, own, flags) =>
      if parent.None? then Finish(own, flags, NOTHING)
      else
        ChainOfParent(plans, slot);
        Finish(own, flags, BagOf(plans, parent.value))
  }

  // ----- the cache is right -----

  /** A result agrees with recursion: the same bag, or a failure where recursion fails.
    * (A second request for a failed bag reports BAD_INDEX whatever the first reported.) */
  ghost predicate Agrees(plans: Plans, slot: Slot, result: BagResult)
    requires Closed(plans) && slot in plans
  {
    ChainEnds(plans, slot) ==>
      if BagOf(plans, slot).Bag? then result == BagOf(plans, slot) else result.Failed?
  }

  function CellResult(cell: Cell): BagResult {
    match cell
    case Done(items, flags) => Bag(items, flags)
    case InProgress => Failed(BAD_INDEX)
  }

  /** What the cache holds: the mark for the calls still running, and otherwise what recursion
    * gives - with the mark standing for failure. */
  ghost predicate CacheSound(plans: Plans, cache: Cache, running: set<Slot>)
    requires Closed(plans)
  {
    && running <= cache.Keys <= plans.Keys
    && (forall s | s in running :: cache[s].InProgress?)
    && (forall s | s in cache && s !in running :: Agrees(plans, s, CellResult(cache[s])))
  }

  /** Every call still running is for a slot further down the chain than this one. */
  ghost predicate AboveRunning(plans: Plans, running: set<Slot>, slot: Slot)
    requires Closed(plans) && slot in plans && running <= plans.Keys
  {
    ChainEnds(plans, slot) ==>
      forall s | s in running && ChainEnds(plans, s) :: Height(plans, s) > Height(plans, slot)
  }

  lemma StoreKeepsSound(plans: Plans, cache: Cache, running: set<Slot>, slot: Slot, result: BagResult)
    requires Closed(plans) && slot in plans && slot !in running
    requires CacheSound(plans, cache, running + {slot}) && Agrees(plans, slot, result)
    ensures CacheSound(plans, Store(cache, slot, result), running)
  {
    var stored := Store(cache, slot, result);
    forall s | s in stored && s !in running
      ensures Agrees(plans, s, CellResult(stored[s]))
    {
      if s != slot {
        assert s !in running + {slot};
      }
    }
  }

  lemma ParentAboveRunning(plans: Plans, running: set<Slot>, slot: Slot)
    requires Closed(plans) && slot in plans && running <= plans.Keys
    requires AboveRunning(plans, running, slot) && ParentSlot(plans, slot).Some?
    ensures AboveRunning(plans, running + {slot}, ParentSlot(plans, slot).value)
  {
    ChainOfParent(plans, slot);
  }

  /** Finishing from a parent result that agrees with recursion agrees with recursion. */
  lemma InheritedAgrees(plans: Plans, slot: Slot, parentBag: BagResult)
    requires Closed(plans) && slot in plans && ParentSlot(plans, slot).Some?
    requires Agrees(plans, ParentSlot(plans, slot).value, parentBag)
    ensures Agrees(plans, slot, Finish(plans[slot].own, plans[slot].flags, parentBag))
  {
    ChainOfParent(plans, slot);
  }

  /** A call agrees with recursion when its chain ends, and leaves the cache right - also while
    * calls further down the same chain are running. */
  lemma {:induction false} BuildAgrees(plans: Plans, cache: Cache, running: set<Slot>, slot: Slot)
    requires Closed(plans) && slot in plans && CacheSound(plans, cache, running)
    requires AboveRunning(plans, running, slot)
    ensures CacheSound(plans, Build(plans, cache, slot).1, running)
    ensures Agrees(plans, slot, Build(plans, cache, slot).0)
    decreases plans.Keys - cache.Keys
  {
    if slot !in cache {
      var marked := cache[slot := InProgress];
      assert CacheSound(plans, marked, running + {slot});
      match plans[slot] {
        case Hopeless(error) =>
          StoreKeepsSound(plans, marked, running, slot, Failed(error));
        case Level(parent, own, flags) =>
          if parent.Some? {
            assert slot in plans.Keys - cache.Keys;
            ParentAboveRunning(plans, running, slot);
            BuildAgrees(plans, marked, running + {slot}, parent.value);
            var (parentBag, later) := Build(plans, marked, parent.value);
            InheritedAgrees(plans, slot, parentBag);
            StoreKeepsSound(plans, later, running, slot, Finish(own, flags, parentBag));
          } else {
            StoreKeepsSound(plans, marked, running, slot, Finish(own, flags, NOTHING));
          }
      }
    }
  }

  // ----- what a bag contains -----

  /** Every slot lists its own attributes in strictly ascending order of their names. */
  ghost predicate OwnAscending(plans: Plans) {
    forall s | s in plans && plans[s].Level? && plans[s].own.Some? :: Ascending(plans[s].own.value)
  }

  ghost function InheritedItems(plans: Plans, slot: Slot): seq<BagItem>
    requires Closed(plans) && slot in plans && ChainEnds(plans, slot)
  {
    if ParentSlot(plans, slot).None? then []
    else
      ChainOfParent(plans, slot);
      var parentBag := BagOf(plans, ParentSlot(plans, slot).value);
      if parentBag.Bag? then parentBag.items else []
  }

  /** A computed bag is ascending, and maps each name to the slot's own attribute where it has one
    * and to the parent's otherwise. */
  lemma {:induction false} BagOverridesParent(plans: Plans, slot: Slot)
    requires Closed(plans) && slot in plans && ChainEnds(plans, slot) && OwnAscending(plans)
    requires BagOf(plans, slot).Bag?
    ensures plans[slot].Level? && plans[slot].own.Some?
    ensures Ascending(BagOf(plans, slot).items)
    ensures AsMap(BagOf(plans, slot).items) == AsMap(InheritedItems(plans, slot)) + AsMap(plans[slot].own.value)
    decreases Height(plans, slot)
  {
    var p := ParentSlot(plans, slot);
    if p.Some? {
      ChainOfParent(plans, slot);
      if BagOf(plans, p.value).Bag? {
        BagOverridesParent(plans, p.value);
      }
    }
    MergeIsOverride(InheritedItems(plans, slot), plans[slot].own.value);
  }

  // ----- cycles -----

  /** The end of the chain is needed: two entries that inherit from each other give the one asked
    * first the attributes and flags of both, and the other only its own - so the answer for b depends on
    * whether a was asked before, unless b has every name and every flag that a has. */
  lemma CycleDependsOnOrder(plans: Plans, a: Slot, b: Slot)
    requires Closed(plans) && a in plans && b in plans && a != b
    requires ParentSlot(plans, a) == Some(b) && ParentSlot(plans, b) == Some(a)
    requires plans[a].own.Some? && plans[b].own.Some?
    ensures !ChainEnds(plans, a) && !ChainEnds(plans, b)
    ensures Build(plans, map[], b).0
         == Bag(Merge(plans[a].own.value, plans[b].own.value), plans[a].flags | plans[b].flags)
    ensures Build(plans, Build(plans, map[], a).1, b).0 == Bag(plans[b].own.value, plans[b].flags)
    ensures Ascending(plans[a].own.value) && Ascending(plans[b].own.value) ==>
              (Build(plans, map[], b).0 == Build(plans, Build(plans, map[], a).1, b).0 <==>
               && (forall n | n in AsMap(plans[a].own.value) :: n in AsMap(plans[b].own.value))
               && plans[a].flags | plans[b].flags == plans[b].flags)
  {
    ChainOfParent(plans, a);
    ChainOfParent(plans, b);
    BuildTwoCycle(plans, a, b);
    BuildTwoCycle(plans, b, a);
    if Ascending(plans[a].own.value) && Ascending(plans[b].own.value) {
      NothingInherited(plans[a].own.value, plans[b].own.value);
    }
  }

  /** Asking for the first entry of a two-cycle from an empty cache. */
  lemma BuildTwoCycle(plans: Plans, a: Slot, b: Slot)
    requires Closed(plans) && a in plans && b in plans && a != b
    requires ParentSlot(plans, a) == Some(b) && ParentSlot(plans, b) == Some(a)
    requires plans[a].own.Some? && plans[b].own.Some?
    ensures var (bagA, cache) := Build(plans, map[], a);
            && bagA == Bag(Merge(plans[b].own.value, plans[a].own.value), plans[b].flags | plans[a].flags)
            && b in cache && cache[b] == Done(plans[b].own.value, plans[b].flags)
  {
    hide Merge, Build, Finish;
    var bagB := BuildSecond(plans, a, b);
    var bagA := Finish(plans[a].own, plans[a].flags, bagB);
    BuildFrom(plans, map[], a, b);
    FinishFrom(plans[a].own.value, plans[a].flags, plans[b].own.value, plans[b].flags);
    assert Build(plans, map[], a) == (bagA, Store(map[a := InProgress, b := Done(plans[b].own.value, plans[b].flags)], a, bagA));
  }

  /** The other entry, asked for while the first is in progress. */
  lemma BuildSecond(plans: Plans, a: Slot, b: Slot) returns (bagB: BagResult)
    requires Closed(plans) && a in plans && b in plans && a != b
    requires ParentSlot(plans, a) == Some(b) && ParentSlot(plans, b) == Some(a) && plans[b].own.Some?
    ensures bagB == Bag(plans[b].own.value, plans[b].flags)
    ensures Build(plans, map[a := InProgress], b)
         == (bagB, map[a := InProgress, b := Done(plans[b].own.value, plans[b].flags)])
  {
    hide Merge, Build, Finish;
    var marked := map[a := InProgress, b := InProgress];
    assert map[a := InProgress][b := InProgress] == marked;
    BuildMarked(plans, marked, a);
    BuildFrom(plans, map[a := InProgress], b, a);
    FinishFailed(plans[b].own.value, plans[b].flags, Failed(BAD_INDEX));
    bagB := Bag(plans[b].own.value, plans[b].flags);
    assert Store(marked, b, bagB) == map[a := InProgress, b := Done(plans[b].own.value, plans[b].flags)];
  }

  lemma BuildMarked(plans: Plans, cache: Cache, slot: Slot)
    requires Closed(plans) && slot in plans && slot in cache && cache[slot].InProgress?
    ensures Build(plans, cache, slot) == (Failed(BAD_INDEX), cache)
  {
  }

  /** One level of a call. */
  lemma BuildFrom(plans: Plans, cache: Cache, slot: Slot, parent: Slot)
    requires Closed(plans) && slot in plans && slot !in cache && ParentSlot(plans, slot) == Some(parent) && parent in plans
    ensures var (parentBag, later) := Build(plans, cache[slot := InProgress], parent);
            var result := Finish(plans[slot].own, plans[slot].flags, parentBag);
            Build(plans, cache, slot) == (result, Store(later, slot, result))
  {
    hide Finish;
  }

  lemma FinishFrom(own: seq<BagItem>, flags: bv32, inherited: seq<BagItem>, more: bv32)
    ensures Finish(Some(own), flags, Bag(inherited, more)) == Bag(Merge(inherited, own), more | flags)
  {
    hide Merge;
  }

  /** Inheriting from a failure leaves the own attributes. */
  lemma FinishFailed(own: seq<BagItem>, flags: bv32, parent: BagResult)
    requires parent.Failed?
    ensures Finish(Some(own), flags, parent) == Bag(own, flags)
  {
    hide Merge;
    MergeNothing(own);
    NoMoreFlags(flags);
  }

  lemma NoMoreFlags(flags: bv32)
    ensures 0 | flags == flags
  {
  }

  lemma MergeNothing(items: seq<BagItem>)
    ensures Merge([], items) == items
  {
  }

  // ----- merging in place -----

  /** What the loop is on its way to: the finished prefix, then the merge of what is left of both. */
  ghost function Remaining(entries: seq<BagItem>, cur: nat, num: nat, own: seq<BagItem>): seq<BagItem>
    requires cur <= |entries| && num <= |entries|
  {
    entries[..cur] + Merge(if cur <= num then entries[cur..num] else [], own)
  }

  /** One step of the merge: what comes first, and what is left. */
  lemma MergeStep(base: seq<BagItem>, own: seq<BagItem>)
    requires own != []
    ensures base == [] ==> Merge(base, own) == [own[0]] + Merge([], own[1..])
    ensures base != [] && base[0].name < own[0].name ==> Merge(base, own) == [base[0]] + Merge(base[1..], own)
    ensures base != [] && base[0].name == own[0].name ==> Merge(base, own) == [own[0]] + Merge(base[1..], own[1..])
    ensures base != [] && base[0].name > own[0].name ==> Merge(base, own) == [own[0]] + Merge(base, own[1..])
  {
    if base == [] {
      assert own == [own[0]] + own[1..];
    }
  }

  lemma Regroup(a: seq<BagItem>, item: BagItem, rest: seq<BagItem>)
    ensures a + ([item] + rest) == (a + [item]) + rest
  {
  }

  lemma KeepFirst(entries: seq<BagItem>, cur: nat, num: nat, own: seq<BagItem>)
    requires cur < num <= |entries| && own != [] && entries[cur].name < own[0].name
    ensures Remaining(entries, cur, num, own) == Remaining(entries, cur + 1, num, own)
  {
    hide Merge;
    MergeStep(entries[cur..num], own);
    Regroup(entries[..cur], entries[cur], Merge(entries[cur + 1..num], own));
    assert entries[cur..num][1..] == entries[cur + 1..num];
    assert entries[..cur + 1] == entries[..cur] + [entries[cur]];
  }

  lemma ReplaceFirst(entries: seq<BagItem>, cur: nat, num: nat, own: seq<BagItem>)
    requires cur < num <= |entries| && own != [] && entries[cur].name == own[0].name
    ensures Remaining(entries, cur, num, own) == Remaining(entries[cur := own[0]], cur + 1, num, own[1..])
  {
    hide Merge;
    MergeStep(entries[cur..num], own);
    Regroup(entries[..cur], own[0], Merge(entries[cur + 1..num], own[1..]));
    assert entries[cur..num][1..] == entries[cur + 1..num] == entries[cur := own[0]][cur + 1..num];
    assert entries[cur := own[0]][..cur + 1] == entries[..cur] + [own[0]];
  }

  lemma InsertFirst(entries: seq<BagItem>, shifted: seq<BagItem>, cur: nat, num: nat, own: seq<BagItem>)
    requires cur < num < |entries| == |shifted| && own != [] && entries[cur].name > own[0].name
    requires shifted[..cur] == entries[..cur] && shifted[cur] == own[0] && shifted[cur + 1..num + 1] == entries[cur..num]
    ensures Remaining(entries, cur, num, own) == Remaining(shifted, cur + 1, num + 1, own[1..])
  {
    hide Merge;
    MergeStep(entries[cur..num], own);
    Regroup(entries[..cur], own[0], Merge(entries[cur..num], own[1..]));
    assert shifted[..cur + 1] == entries[..cur] + [own[0]];
  }

  lemma AppendFirst(entries: seq<BagItem>, cur: nat, num: nat, own: seq<BagItem>)
    requires num <= cur < |entries| && own != []
    ensures Remaining(entries, cur, num, own) == Remaining(entries[cur := own[0]], cur + 1, num, own[1..])
  {
    hide Merge;
    MergeStep([], own);
    Regroup(entries[..cur], own[0], Merge([], own[1..]));
    assert entries[cur := own[0]][..cur + 1] == entries[..cur] + [own[0]];
  }

  lemma RemainingNone(entries: seq<BagItem>, cur: nat, num: nat)
    requires cur <= |entries| && num <= |entries|
    ensures Remaining(entries, cur, num, []) == entries[..if cur > num then cur else num]
  {
  }

  /** One pass of the merge loop: find the place for an attribute and put it there - shift to
    * insert, overwrite on equal names, append at the end. There is always room. */
  method PlaceItem(entries: array<BagItem>, num: nat, cur: nat, item: BagItem, ghost own: seq<BagItem>)
    returns (newNum: nat, newCur: nat)
    requires num < entries.Length && cur < entries.Length
    requires own != [] && own[0] == item
    modifies entries
    ensures newNum <= num + 1 && newCur <= (if num > cur then num else cur) + 1
    ensures newNum <= entries.Length && newCur <= entries.Length
    ensures Remaining(entries[..], newCur, newNum, own[1..]) == Remaining(old(entries[..]), cur, num, own)
  {
    var place := SkipSmaller(entries, num, cur, item.name, own);
    if place < num && entries[place].name != item.name {
      InsertAt(entries, num, place, item, own);
      newNum := num + 1;
    } else {
      ghost var before := entries[..];
      entries[place] := item;
      newNum := num;
      assert entries[..] == before[place := item];
      if place < num {
        ReplaceFirst(before, place, num, own);
      } else {
        AppendFirst(before, place, num, own);
      }
    }
    newCur := place + 1;
  }

  method SkipSmaller(entries: array<BagItem>, num: nat, cur: nat, name: uint32, ghost own: seq<BagItem>)
    returns (place: nat)
    requires num < entries.Length && cur < entries.Length
    requires own != [] && own[0].name == name
    ensures cur <= place <= (if num > cur then num else cur)
    ensures place < num ==> entries[place].name >= name
    ensures Remaining(entries[..], place, num, own) == Remaining(entries[..], cur, num, own)
  {
    hide Remaining;
    place := cur;
    while place < num && entries[place].name < name
      invariant cur <= place <= (if num > cur then num else cur)
      invariant Remaining(entries[..], place, num, own) == Remaining(entries[..], cur, num, own)
    {
      KeepFirst(entries[..], place, num, own);
      place := place + 1;
    }
  }

  method InsertAt(entries: array<BagItem>, num: nat, place: nat, item: BagItem, ghost own: seq<BagItem>)
    requires place < num < entries.Length && own != [] && own[0] == item && entries[place].name > item.name
    modifies entries
    ensures Remaining(entries[..], place + 1, num + 1, own[1..]) == Remaining(old(entries[..]), place, num, own)
  {
    ghost var before := entries[..];
    forall i | place < i <= num {
      entries[i] := entries[i - 1];
    }
    entries[place] := item;
    InsertFirst(before, entries[..], place, num, own);
  }
}
