/** ResTable::getBagLocked and setParameters: reading an entry's plan from the table, and the object
  * that updates the bag cache.  The class computes GetBag, which BagCache explains.
  */
module ResourceBags {
  import opened Common
  import opened ResourceConfig
  import opened ResourceEntry
  import opened BagCache
  import opened BagCycles

  /** One attribute as stored in the resource file. */
  datatype MapItem = MapItem(name: uint32, value: ResValue)

  /** A resource entry; one without a map header has no parent and no items. */
  datatype MapEntry = MapEntry(parent: uint32, items: seq<MapItem>)

  datatype DynamicRefTable = DynamicRefTable(assignedPackageId: uint8, lookup: seq<uint8>)

  type RefTable = d: DynamicRefTable | |d.lookup| == 256
    witness DynamicRefTable(0, seq(256, _ => 0))

  datatype Group = Group(types: seq<TypeList<MapEntry>>, refs: RefTable)

  /** Package groups, and for each package id the 1-based index of its group (0: none). */
  datatype TableData = TableData(groups: seq<Group>, packageMap: seq<uint8>)

  type Table = t: TableData |
    |t.packageMap| == 256 && forall i | 0 <= i < 256 :: t.packageMap[i] <= |t.groups|
    witness TableData([], seq(256, _ => 0))

  const APP_PACKAGE_ID := 0x7f
  const TYPE_REFERENCE := 0x01
  const TYPE_DYNAMIC_REFERENCE := 0x07

  // ----- resource ids -----

  function PackageOf(id: uint32): uint8 { id / 0x100_0000 }
  function TypeOf(id: uint32): uint8 { id / 0x1_0000 % 0x100 }
  function EntryOf(id: uint32): uint16 { id % 0x1_0000 }

  /** Translate a build-time package id to the one assigned at run time. */
  function LookupResourceId(refs: RefTable, id: uint32): Option<uint32> {
    if PackageOf(id) == APP_PACKAGE_ID then Some(id)
    else if PackageOf(id) == 0 then Some(id + (refs.assignedPackageId as int) * 0x100_0000)
    else if refs.lookup[PackageOf(id)] == 0 then None
    else Some(id % 0x100_0000 + (refs.lookup[PackageOf(id)] as int) * 0x100_0000)
  }

  function LookupResourceValue(refs: RefTable, value: ResValue): Option<ResValue> {
    if value.dataType != TYPE_DYNAMIC_REFERENCE then Some(value)
    else
      match LookupResourceId(refs, value.data)
      case None => None
      case Some(id) => Some(ResValue(TYPE_REFERENCE, id))
  }

  predicate InternalId(id: uint32) {
    id / 0x1_0000 != 0 && TypeOf(id) == 0
  }

  /** The stored attribute as it enters the bag, unless one of its references cannot be resolved. */
  function Resolve(refs: RefTable, block: nat, item: MapItem): Option<BagItem> {
    var name := if InternalId(item.name) then Some(item.name) else LookupResourceId(refs, item.name);
    var value := LookupResourceValue(refs, item.value);
    if name.Some? && value.Some? then Some(BagItem(name.value, value.value, block)) else None
  }

  predicate Resolvable(refs: RefTable, block: nat, items: seq<MapItem>) {
    forall i | 0 <= i < |items| :: Resolve(refs, block, items[i]).Some?
  }

  function Own(refs: RefTable, block: nat, items: seq<MapItem>): (own: seq<BagItem>)
    requires Resolvable(refs, block, items)
  {
    seq(|items|, i requires 0 <= i < |items| => Resolve(refs, block, items[i]).value)
  }

  // ----- plans from the table -----

  /** The cache slot an id denotes, if the table has it. */
  function Locate(table: Table, id: uint32): Option<Slot> {
    var p := table.packageMap[PackageOf(id)] as int - 1;
    var t := TypeOf(id) as int - 1;
    if p < 0 || t < 0 || t >= |table.groups[p].types| then None
    else if EntryOf(id) >= EntryCount(table.groups[p].types[t]) then None
    else Some(Slot(p, t, EntryOf(id)))
  }

  function EntryCount(specs: TypeList<MapEntry>): nat {
    if specs == [] then 0 else specs[0].entryCount
  }

  function AllSlots(table: Table): set<Slot> {
    set g, t, e |
      0 <= g < |table.groups| && 0 <= t < |table.groups[g].types|
      && 0 <= e < EntryCount(table.groups[g].types[t])
      :: Slot(g, t, e)
  }

  /** What the file says about an entry under some parameters, references to other bags resolved. */
  datatype RawPlan =
    | Bad(error: BagError)
    | Raw(parent: Option<uint32>, items: seq<MapItem>, block: nat, flags: bv32)

  function ReadEntry(found: EntryResult<MapEntry>, refs: RefTable): RawPlan {
    match found
    case BadType => Bad(BAD_TYPE)
    case BadIndex => Bad(BAD_INDEX)
    case Found(best, flags) =>
      if best.entry.parent == 0 then Raw(None, best.entry.items, best.packageIndex, flags)
      else
        match LookupResourceId(refs, best.entry.parent)
        case None => Bad(UNKNOWN_ERROR)
        case Some(parent) => Raw(Some(parent), best.entry.items, best.packageIndex, flags)
  }

  function RawPlanOf(table: Table, params: Config, slot: Slot): RawPlan
    requires slot in AllSlots(table)
  {
    var group := table.groups[slot.group];
    ReadEntry(LookupEntry(group.types[slot.typeIndex], slot.typeIndex, slot.entry, params), group.refs)
  }

  function PlanOf(table: Table, params: Config, slot: Slot): Plan
    requires slot in AllSlots(table)
  {
    var refs := table.groups[slot.group].refs;
    match RawPlanOf(table, params, slot)
    case Bad(error) => Hopeless(error)
    case Raw(parent, items, block, flags) =>
      Level(if parent.Some? then Locate(table, parent.value) else None,
            OwnOf(refs, block, items), flags)
  }

  function PlansOf(table: Table, params: Config): (plans: Plans)
    ensures plans.Keys == AllSlots(table) && Closed(plans)
  {
    map s | s in AllSlots(table) :: PlanOf(table, params, s)
  }

  /** getBagLocked on a resource id. */
  function GetBag(table: Table, params: Config, cache: Cache, id: uint32): (BagResult, Cache) {
    match Locate(table, id)
    case None => (Failed(BAD_INDEX), cache)
    case Some(slot) => Build(PlansOf(table, params), cache, slot)
  }

  function OwnOf(refs: RefTable, block: nat, items: seq<MapItem>): Option<seq<BagItem>> {
    if Resolvable(refs, block, items) then Some(Own(refs, block, items)) else None
  }

  /** One level of getBagLocked, with the parent's call made on its resource id. */
  function GetBagStep(table: Table, params: Config, marked: Cache, slot: Slot): (BagResult, Cache)
    requires slot in AllSlots(table)
  {
    match RawPlanOf(table, params, slot)
    case Bad(error) => (Failed(error), marked)
    case Raw(parent, items, block, flags) =>
      var (parentBag, later) := if parent.None? then (NOTHING, marked) else GetBag(table, params, marked, parent.value);
      var result := Finish(OwnOf(table.groups[slot.group].refs, block, items), flags, parentBag);
      (result, Store(later, slot, result))
  }

  lemma GetBagUnfolds(table: Table, params: Config, cache: Cache, id: uint32)
    ensures GetBag(table, params, cache, id) ==
            match Locate(table, id)
            case None => (Failed(BAD_INDEX), cache)
            case Some(slot) =>
              if slot in cache then (CellResult(cache[slot]), cache)
              else
                assert slot in AllSlots(table);
                GetBagStep(table, params, cache[slot := InProgress], slot)
    ensures Locate(table, id).Some? ==>
              Locate(table, id).value in AllSlots(table) && Locate(table, id).value.group < |table.groups|
  {
    hide RawPlanOf, OwnOf, Finish;
    if Locate(table, id).Some? && RawPlanOf(table, params, Locate(table, id).value).Raw? {
      var slot := Locate(table, id).value;
      FinishWithoutParent(PlanOf(table, params, slot).own, PlanOf(table, params, slot).flags);
    }
  }

  // ----- whole runs -----

  datatype Op = SetParams(params: Config) | Get(id: uint32)

  /** One answered call: the parameters in force, the id asked for and the answer. */
  datatype Answer = Answer(params: Config, id: uint32, result: BagResult)

  /** Any sequence of setParameters (which clears the cache) and getBag calls. */
  function Run(table: Table, params: Config, cache: Cache, ops: seq<Op>): seq<Answer>
    decreases |ops|
  {
    if ops == [] then []
    else
      match ops[0]
      case SetParams(p) => Run(table, p, map[], ops[1..])
      case Get(id) =>
        var (result, later) := GetBag(table, params, cache, id);
        [Answer(params, id, result)] + Run(table, params, later, ops[1..])
  }

  ghost predicate AnsweredRight(table: Table, answer: Answer) {
    match Locate(table, answer.id)
    case None => answer.result == Failed(BAD_INDEX)
    case Some(slot) => Agrees(PlansOf(table, answer.params), slot, answer.result)
  }

  lemma GetBagAgrees(table: Table, params: Config, cache: Cache, id: uint32)
    requires CacheSound(PlansOf(table, params), cache, {})
    ensures CacheSound(PlansOf(table, params), GetBag(table, params, cache, id).1, {})
    ensures AnsweredRight(table, Answer(params, id, GetBag(table, params, cache, id).0))
  {
    hide PlanOf;
    if Locate(table, id).Some? {
      BuildAgrees(PlansOf(table, params), cache, {}, Locate(table, id).value);
    }
  }

  /** Over every run from an empty cache, every answer is the one plain recursion gives under the
    * parameters in force - for every id whose chain of parents ends. */
  lemma {:induction false} RunAgrees(table: Table, params: Config, cache: Cache, ops: seq<Op>)
    requires CacheSound(PlansOf(table, params), cache, {})
    ensures forall a | a in Run(table, params, cache, ops) :: AnsweredRight(table, a)
    decreases |ops|
  {
    hide PlanOf, PlansOf, GetBag, AnsweredRight, Agrees;
    if ops != [] {
      match ops[0] {
        case SetParams(p) => RunAgrees(table, p, map[], ops[1..]);
        case Get(id) =>
          GetBagAgrees(table, params, cache, id);
          RunAgrees(table, params, GetBag(table, params, cache, id).1, ops[1..]);
      }
    }
  }

  /** An answer is plain recursion on the table with at most one link of each circle cut. */
  ghost predicate AnsweredByCut(table: Table, answer: Answer) {
    match Locate(table, answer.id)
    case None => answer.result == Failed(BAD_INDEX)
    case Some(slot) =>
      var plans := PlansOf(table, answer.params);
      exists cuts ::
        OnePerCircle(plans, cuts) && ChainEnds(Cut(plans, cuts), slot) && Agrees(Cut(plans, cuts), slot, answer.result)
  }

  lemma GetBagIsRecursion(table: Table, params: Config, cache: Cache, cuts: set<Slot>, id: uint32) returns (more: set<Slot>)
    requires CacheFits(PlansOf(table, params), cache, cuts)
    ensures CacheFits(PlansOf(table, params), GetBag(table, params, cache, id).1, more)
    ensures AnsweredByCut(table, Answer(params, id, GetBag(table, params, cache, id).0))
  {
    hide PlanOf, CacheFits, ChainEnds, Agrees, Cut;
    more := cuts;
    if Locate(table, id).Some? {
      var plans, slot := PlansOf(table, params), Locate(table, id).value;
      CallFits(plans, cache, cuts, slot);
      more := MoreCuts(plans, cache, cuts, slot);
      assert OnePerCircle(plans, more) by { FittingCuts(plans, GetBag(table, params, cache, id).1, more); }
    }
  }

  lemma FittingCuts(plans: Plans, cache: Cache, cuts: set<Slot>)
    requires Closed(plans) && CacheFits(plans, cache, cuts)
    ensures OnePerCircle(plans, cuts)
  {
  }

  /** Over every run from an empty cache, every answer - also for ids whose parents run into a circle - is
    * plain recursion on such a cut table under the parameters in force. */
  lemma {:induction false} RunIsRecursion(table: Table, params: Config, cache: Cache, cuts: set<Slot>, ops: seq<Op>)
    requires CacheFits(PlansOf(table, params), cache, cuts)
    ensures forall a | a in Run(table, params, cache, ops) :: AnsweredByCut(table, a)
    decreases |ops|
  {
    hide PlanOf, PlansOf, GetBag, AnsweredByCut, CacheFits;
    if ops != [] {
      match ops[0] {
        case SetParams(p) =>
          NothingAsked(PlansOf(table, p));
          RunIsRecursion(table, p, map[], {}, ops[1..]);
        case Get(id) =>
          var more := GetBagIsRecursion(table, params, cache, cuts, id);
          RunIsRecursion(table, params, GetBag(table, params, cache, id).1, more, ops[1..]);
      }
    }
  }

  // ----- the original's shape -----

  /** The merge loop on one array with room for both lists. The count of attributes lags behind
    * appended ones, and the room always suffices: the original's reallocation is never reached. */
  method MergeInPlace(base: seq<BagItem>, items: seq<MapItem>, refs: RefTable, block: nat)
    returns (merged: Option<seq<BagItem>>)
    ensures merged.Some? <==> Resolvable(refs, block, items)
    ensures merged.Some? ==> merged.value == Merge(base, Own(refs, block, items))
  {
    hide Resolve, Merge;
    var filler := BagItem(0, ResValue(0, 0), 0);
    var entries := new BagItem[|base| + |items|](i requires 0 <= i < |base| + |items| =>
      if i < |base| then base[i] else filler);
    var numAttrs: nat, curEntry: nat, pos: nat := |base|, 0, 0;
    ghost var resolvable := Resolvable(refs, block, items);
    ghost var own := if resolvable then Own(refs, block, items) else [];
    assert entries[..|base|] == base;
    while pos < |items|
      invariant pos <= |items|
      invariant curEntry <= |base| + pos && numAttrs <= |base| + pos
      invariant forall k | 0 <= k < pos :: Resolve(refs, block, items[k]).Some?
      invariant resolvable ==> Remaining(entries[..], curEntry, numAttrs, own[pos..]) == Merge(base, own)
    {
      var item := Resolve(refs, block, items[pos]);
      if item.None? {
        return None;
      }
      numAttrs, curEntry := PlaceItem(entries, numAttrs, curEntry, item.value, if resolvable then own[pos..] else [item.value]);
      pos := pos + 1;
    }
    RemainingNone(entries[..], curEntry, numAttrs);
    if curEntry > numAttrs {
      numAttrs := curEntry;
    }
    return Some(entries[..numAttrs]);
  }

  /** The tail of getBagLocked: start from the parent's attributes and merge in the entry's own. */
  method FinishInPlace(plan: RawPlan, refs: RefTable, parentBag: BagResult) returns (result: BagResult)
    requires plan.Raw?
    ensures result == Finish(OwnOf(refs, plan.block, plan.items), plan.flags, parentBag)
  {
    hide Merge, Own;
    var inherited := if parentBag.Bag? then parentBag.items else [];
    var merged := MergeInPlace(inherited, plan.items, refs, plan.block);
    if merged.None? {
      return Failed(UNKNOWN_ERROR);
    }
    return Bag(merged.value, (if parentBag.Bag? then parentBag.flags else 0) | plan.flags);
  }

  class ResTable {
    const table: Table
    var params: Config
    var bags: Cache

    constructor (table: Table, params: Config)
      ensures this.table == table && this.params == params && bags == map[]
    {
      this.table := table;
      this.params := params;
      bags := map[];
    }

    /** setParameters: every cached bag is dropped. */
    method SetParameters(params: Config)
      modifies this
      ensures this.params == params && bags == map[]
    {
      this.params := params;
      bags := map[];
    }

    method ReadPlan(slot: Slot) returns (plan: RawPlan)
      requires slot in AllSlots(table)
      ensures plan == RawPlanOf(table, params, slot)
    {
      var group := table.groups[slot.group];
      var found := GetEntry(group.types[slot.typeIndex], slot.typeIndex, slot.entry, params);
      plan := ReadEntry(found, group.refs);
    }

    /** getBagLocked. It terminates on every table, cyclic or not: each level marks a new slot. */
    method GetBagLocked(id: uint32) returns (result: BagResult)
      modifies this
      ensures params == old(params)
      ensures (result, bags) == GetBag(table, params, old(bags), id)
      decreases AllSlots(table) - bags.Keys
    {
      hide RawPlanOf, GetBag, Locate, AllSlots, OwnOf, Finish;
      GetBagUnfolds(table, params, bags, id);
      var location := Locate(table, id);
      if location.None? {
        return Failed(BAD_INDEX);
      }
      var slot := location.value;
      if slot in bags {
        return CellResult(bags[slot]);
      }
      assert slot in AllSlots(table) - bags.Keys;
      bags := bags[slot := InProgress];

      var plan := ReadPlan(slot);
      if plan.Bad? {
        return Failed(plan.error);
      }
      var parentBag := NOTHING;
      if plan.parent.Some? {
        parentBag := GetBagLocked(plan.parent.value);
      }
      result := FinishInPlace(plan, table.groups[slot.group].refs, parentBag);
      if result.Bag? {
        bags := bags[slot := Done(result.items, result.flags)];
      }
    }
  }

  /** A table object answers any sequence of calls as specified: with plain recursion, under the parameters in
    * force, on the table with at most one link of each circle cut. */
  method Play(table: Table, params: Config, ops: seq<Op>) returns (answers: seq<Answer>)
    ensures answers == Run(table, params, map[], ops)
    ensures forall a | a in answers :: AnsweredRight(table, a) && AnsweredByCut(table, a)
  {
    hide GetBag, AnsweredRight, AnsweredByCut, PlanOf, PlansOf;
    var resources := new ResTable(table, params);
    answers := [];
    for i := 0 to |ops|
      invariant resources.table == table && fresh(resources)
      invariant answers + Run(table, resources.params, resources.bags, ops[i..]) == Run(table, params, map[], ops)
    {
      assert ops[i..][0] == ops[i] && ops[i..][1..] == ops[i + 1..];
      match ops[i] {
        case SetParams(p) => resources.SetParameters(p);
        case Get(id) =>
          var result := resources.GetBagLocked(id);
          answers := answers + [Answer(resources.params, id, result)];
      }
    }
    StartsRight(table, params);
    RunAgrees(table, params, map[], ops);
    RunIsRecursion(table, params, map[], {}, ops);
  }

  lemma StartsRight(table: Table, params: Config)
    ensures CacheSound(PlansOf(table, params), map[], {}) && CacheFits(PlansOf(table, params), map[], {})
  {
    hide PlanOf;
    NothingAsked(PlansOf(table, params));
  }
}
