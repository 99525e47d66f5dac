/** What a bag of the resource table contains, told from the entries of the table alone.
  *
  * The cache and the plans of the other modules do not appear: an answer to getBag - at any point of any
  * run - is described by the entry that getEntry finds, by the answer for its parent, and by what becomes
  * of each id.
  */
module ResourceInheritance {
  import opened Common
  import opened ResourceConfig
  import opened ResourceEntry
  import opened BagCache
  import opened BagCycles
  import opened ResourceBags

  // ----- ids -----

  function MakeId(package: uint8, kind: uint8, entry: uint16): uint32 {
    package * 0x100_0000 + kind * 0x1_0000 + entry
  }

  lemma IdParts(id: uint32)
    ensures id == MakeId(PackageOf(id), TypeOf(id), EntryOf(id))
  {
    var upper := id / 0x1_0000;
    assert id / 0x100_0000 == upper / 0x100;
  }

  lemma PartsOfMade(package: uint8, kind: uint8, entry: uint16)
    ensures PackageOf(MakeId(package, kind, entry)) == package
    ensures TypeOf(MakeId(package, kind, entry)) == kind && EntryOf(MakeId(package, kind, entry)) == entry
  {
    var id := MakeId(package, kind, entry);
    assert id / 0x1_0000 == package * 0x100 + kind;
    assert id / 0x100_0000 == package;
  }

  /** What an id of the file means at run time: application ids are kept, the package 0 is the table's own, any other
    * package goes through the table; type and entry stay. */
  predicate IdBecomes(refs: RefTable, id: uint32, out: uint32) {
    var package, rest := id / 0x100_0000, id % 0x100_0000;
    if package == 0x7f then out == id
    else if package == 0 then out == (refs.assignedPackageId as int) * 0x100_0000 + rest
    else refs.lookup[package] != 0 && out == (refs.lookup[package] as int) * 0x100_0000 + rest
  }

  /** Names of internal attributes - type byte 0 under a package or a type - are no ids. */
  predicate NameBecomes(refs: RefTable, name: uint32, out: uint32) {
    if name / 0x1_0000 != 0 && name / 0x1_0000 % 0x100 == 0 then out == name else IdBecomes(refs, name, out)
  }

  /** Only dynamic references are translated, and then they are plain references. */
  predicate ValueBecomes(refs: RefTable, value: ResValue, out: ResValue) {
    if value.dataType == 0x07 then out.dataType == 0x01 && IdBecomes(refs, value.data, out.data) else out == value
  }

  predicate ItemBecomes(refs: RefTable, block: nat, item: MapItem, out: BagItem) {
    out.stringBlock == block && NameBecomes(refs, item.name, out.name) && ValueBecomes(refs, item.value, out.value)
  }

  predicate ItemsBecome(refs: RefTable, block: nat, items: seq<MapItem>, own: seq<BagItem>) {
    |own| == |items| && forall i | 0 <= i < |items| :: ItemBecomes(refs, block, items[i], own[i])
  }

  lemma LookupIff(refs: RefTable, id: uint32, out: uint32)
    ensures LookupResourceId(refs, id) == Some(out) <==> IdBecomes(refs, id, out)
  {
    assert id == id / 0x100_0000 * 0x100_0000 + id % 0x100_0000;
  }

  /** Translation changes the package byte only, and fails exactly for a package the table does not know. */
  lemma TranslationByPackage(refs: RefTable, package: uint8, kind: uint8, entry: uint16)
    ensures LookupResourceId(refs, MakeId(package, kind, entry)) ==
              if package == 0x7f then Some(MakeId(0x7f, kind, entry))
              else if package == 0 then Some(MakeId(refs.assignedPackageId, kind, entry))
              else if refs.lookup[package] == 0 then None
              else Some(MakeId(refs.lookup[package], kind, entry))
  {
    PartsOfMade(package, kind, entry);
    assert MakeId(package, kind, entry) % 0x100_0000 == kind * 0x1_0000 + entry;
  }

  lemma ResolveIff(refs: RefTable, block: nat, item: MapItem, out: BagItem)
    ensures Resolve(refs, block, item) == Some(out) <==> ItemBecomes(refs, block, item, out)
  {
    LookupIff(refs, item.name, out.name);
    LookupIff(refs, item.value.data, out.value.data);
    hide LookupResourceId, IdBecomes;
  }

  lemma OwnIff(refs: RefTable, block: nat, items: seq<MapItem>, own: seq<BagItem>)
    ensures OwnOf(refs, block, items) == Some(own) <==> ItemsBecome(refs, block, items, own)
  {
    hide Resolve, ItemBecomes;
    if ItemsBecome(refs, block, items, own) {
      forall i | 0 <= i < |items|
        ensures Resolve(refs, block, items[i]) == Some(own[i])
      {
        ResolveIff(refs, block, items[i], own[i]);
      }
      assert Own(refs, block, items) == own;
    } else if OwnOf(refs, block, items) == Some(own) {
      forall i | 0 <= i < |items|
        ensures ItemBecomes(refs, block, items[i], own[i])
      {
        ResolveIff(refs, block, items[i], own[i]);
      }
    }
  }

  /** The slot of an id: its package byte through the package map, its type counted from one, and an entry that the
    * first package of the type has room for. */
  lemma LocateIff(table: Table, package: uint8, kind: uint8, entry: uint16, slot: Slot)
    ensures Locate(table, MakeId(package, kind, entry)) == Some(slot) <==>
              && table.packageMap[package] == slot.group + 1 && kind == slot.typeIndex + 1 && entry == slot.entry
              && slot.typeIndex < |table.groups[slot.group].types|
              && var specs := table.groups[slot.group].types[slot.typeIndex];
                 specs != [] && entry < specs[0].entryCount
  {
    PartsOfMade(package, kind, entry);
  }

  // ----- the entries of the table -----

  function EntryAt(table: Table, params: Config, slot: Slot): EntryResult<MapEntry>
    requires InTable(table, slot)
  {
    LookupEntry(table.groups[slot.group].types[slot.typeIndex], slot.typeIndex, slot.entry, params)
  }

  predicate InTable(table: Table, slot: Slot) {
    slot.group < |table.groups| && slot.typeIndex < |table.groups[slot.group].types|
  }

  lemma LocatedIsInTable(table: Table, id: uint32)
    requires Locate(table, id).Some?
    ensures InTable(table, Locate(table, id).value) && Locate(table, id).value in AllSlots(table)
  {
  }

  /** Following parents from an id comes to an end within n steps: at an id or entry the table does not have, at an
    * entry without a parent, or at a parent that cannot be translated. */
  ghost predicate EndsWithin(table: Table, params: Config, id: uint32, n: nat)
    decreases n
  {
    Locate(table, id).Some? ==>
      var slot := Locate(table, id).value;
      LocatedIsInTable(table, id);
      match EntryAt(table, params, slot)
      case BadType => true
      case BadIndex => true
      case Found(best, _) =>
        best.entry.parent != 0 ==>
          forall p: uint32 | IdBecomes(table.groups[slot.group].refs, best.entry.parent, p) ::
            n > 0 && EndsWithin(table, params, p, n - 1)
  }

  /** The plan of a slot, told from its entry. */
  lemma PlanIs(table: Table, params: Config, slot: Slot)
    requires slot in AllSlots(table) && InTable(table, slot)
    ensures var refs := table.groups[slot.group].refs;
            match EntryAt(table, params, slot)
            case BadType => PlanOf(table, params, slot) == Hopeless(BAD_TYPE)
            case BadIndex => PlanOf(table, params, slot) == Hopeless(BAD_INDEX)
            case Found(best, flags) =>
              var own := OwnOf(refs, best.packageIndex, best.entry.items);
              if best.entry.parent == 0 then PlanOf(table, params, slot) == Level(None, own, flags)
              else
                match LookupResourceId(refs, best.entry.parent)
                case None => PlanOf(table, params, slot) == Hopeless(UNKNOWN_ERROR)
                case Some(id) => PlanOf(table, params, slot) == Level(Locate(table, id), own, flags)
  {
    hide LookupEntry, Resolvable, LookupResourceId;
  }

  lemma {:induction false} EndingChain(table: Table, params: Config, id: uint32, n: nat)
    requires EndsWithin(table, params, id, n) && Locate(table, id).Some?
    ensures var plans := PlansOf(table, params);
            Locate(table, id).value in plans && ChainEnds(plans, Locate(table, id).value)
    decreases n
  {
    hide PlanOf, LookupEntry, LookupResourceId, Locate, IdBecomes, AllSlots, OwnOf, ChainLength;
    LocatedIsInTable(table, id);
    var plans, slot := PlansOf(table, params), Locate(table, id).value;
    PlanIs(table, params, slot);
    if ParentSlot(plans, slot).None? {
      ChainOfNone(plans, slot);
    } else {
      var entry := EntryAt(table, params, slot).best.entry;
      var parent := LookupResourceId(table.groups[slot.group].refs, entry.parent).value;
      LookupIff(table.groups[slot.group].refs, entry.parent, parent);
      EndingChain(table, params, parent, n - 1);
      ChainOfParent(plans, slot);
    }
  }

  lemma ChainOfNone(plans: Plans, slot: Slot)
    requires Closed(plans) && slot in plans && ParentSlot(plans, slot).None?
    ensures ChainEnds(plans, slot)
  {
    assert ChainLength(plans, slot, 0);
  }

  // ----- the answers of a run -----

  /** The parameters in force after these calls: those set last. */
  function InForce(start: Config, ops: seq<Op>): Config
    decreases |ops|
  {
    if ops == [] then start
    else if ops[|ops| - 1].SetParams? then ops[|ops| - 1].params
    else InForce(start, ops[..|ops| - 1])
  }

  /** Every getBag call of a run has its answer, in order, and no other call has one. */
  lemma {:induction false} RunGrows(table: Table, start: Config, cache: Cache, ops: seq<Op>, op: Op)
    ensures Run(table, start, cache, []) == []
    ensures op.SetParams? ==> Run(table, start, cache, ops + [op]) == Run(table, start, cache, ops)
    ensures op.Get? ==>
              exists result ::
                Run(table, start, cache, ops + [op])
                == Run(table, start, cache, ops) + [Answer(InForce(start, ops), op.id, result)]
    decreases |ops|
  {
    hide GetBag;
    if ops == [] {
      assert [op][0] == op && [op][1..] == [] && [] + [op] == [op];
      if op.Get? {
        var result := GetBag(table, start, cache, op.id).0;
        assert Run(table, start, cache, [op]) == [] + [Answer(start, op.id, result)];
      }
    } else {
      assert (ops + [op])[0] == ops[0] && (ops + [op])[1..] == ops[1..] + [op];
      var next := if ops[0].SetParams? then ops[0].params else start;
      InForceAfterFirst(start, ops);
      match ops[0] {
        case SetParams(p) => RunGrows(table, p, map[], ops[1..], op);
        case Get(id) =>
          var (first, later) := GetBag(table, start, cache, id);
          RunGrows(table, start, later, ops[1..], op);
          if op.Get? {
            var result :| Run(table, start, later, ops[1..] + [op])
                          == Run(table, start, later, ops[1..]) + [Answer(InForce(start, ops[1..]), op.id, result)];
            assert Run(table, start, cache, ops + [op])
                == Run(table, start, cache, ops) + [Answer(InForce(start, ops), op.id, result)];
          }
      }
    }
  }

  lemma {:induction false} InForceAfterFirst(start: Config, ops: seq<Op>)
    requires ops != []
    ensures InForce(start, ops) == InForce(if ops[0].SetParams? then ops[0].params else start, ops[1..])
    decreases |ops|
  {
    var n := |ops| - 1;
    if n > 0 {
      assert ops[1..][n - 1] == ops[n] && ops[1..][..n - 1] == ops[..n][1..];
      InForceAfterFirst(start, ops[..n]);
    }
  }

  lemma AnswersAreRight(table: Table, start: Config, ops: seq<Op>, a: Answer)
    requires a in Run(table, start, map[], ops)
    ensures AnsweredRight(table, a) && AnsweredByCut(table, a)
  {
    hide AnsweredRight, AnsweredByCut, PlansOf, Run;
    StartsRight(table, start);
    RunAgrees(table, start, map[], ops);
    RunIsRecursion(table, start, map[], {}, ops);
  }

  /** An answer for an id whose parents end is plain recursion. */
  lemma EndingAnswer(table: Table, start: Config, ops: seq<Op>, a: Answer, n: nat)
    requires a in Run(table, start, map[], ops) && EndsWithin(table, a.params, a.id, n)
    ensures match Locate(table, a.id)
            case None => a.result == Failed(BAD_INDEX)
            case Some(slot) =>
              && slot in PlansOf(table, a.params) && ChainEnds(PlansOf(table, a.params), slot)
              && var bag := BagOf(PlansOf(table, a.params), slot);
                 if bag.Bag? then a.result == bag else a.result.Failed?
  {
    hide PlanOf, Locate, Run, EndsWithin, ChainEnds, BagOf, AllSlots;
    AnswersAreRight(table, start, ops, a);
    if Locate(table, a.id).Some? {
      EndingChain(table, a.params, a.id, n);
    }
  }

  /** An entry without a parent: whenever it is asked for, the bag has the entry's own attributes, translated, and the
    * entry's flags. */
  lemma BagWithoutParent(table: Table, start: Config, ops: seq<Op>, a: Answer, slot: Slot,
                         best: Candidate<MapEntry>, flags: bv32, own: seq<BagItem>)
    requires a in Run(table, start, map[], ops)
    requires Locate(table, a.id) == Some(slot) && InTable(table, slot)
    requires EntryAt(table, a.params, slot) == Found(best, flags) && best.entry.parent == 0
    requires ItemsBecome(table.groups[slot.group].refs, best.packageIndex, best.entry.items, own)
    ensures a.result == Bag(own, flags)
  {
    hide LookupEntry, Locate, AllSlots, PlanOf, Run, ItemsBecome, OwnOf, Merge;
    LocatedIsInTable(table, a.id);
    EndingAnswer(table, start, ops, a, 0);
    PlanIs(table, a.params, slot);
    OwnIff(table.groups[slot.group].refs, best.packageIndex, best.entry.items, own);
    MergeNothing(own);
    NoMoreFlags(flags);
  }

  /** The parent's bag with these attributes laid over it, or just these if the parent's fails, and the flags of both. */
  ghost predicate LaidOver(parent: BagResult, own: seq<BagItem>, flags: bv32, result: BagResult) {
    match parent
    case Failed(_) => result == Bag(own, flags)
    case Bag(inherited, more) =>
      && result.Bag? && result.flags == more | flags
      && (Ascending(inherited) && Ascending(own) ==>
            Ascending(result.items) && AsMap(result.items) == AsMap(inherited) + AsMap(own))
  }

  lemma LaysOver(inherited: seq<BagItem>, more: bv32, own: seq<BagItem>, flags: bv32, both: bv32)
    requires both == more | flags
    ensures LaidOver(Bag(inherited, more), own, flags, Bag(Merge(inherited, own), both))
  {
    hide Merge, Ascending, AsMap;
    if Ascending(inherited) && Ascending(own) {
      MergeIsOverride(inherited, own);
    }
  }

  lemma FinishLaysOver(parent: BagResult, own: seq<BagItem>, flags: bv32)
    ensures LaidOver(parent, own, flags, Finish(Some(own), flags, parent))
  {
    match parent {
      case Failed(_) => FinishFailed(own, flags, parent);
      case Bag(inherited, more) =>
        hide LaidOver, Merge;
        LaysOver(inherited, more, own, flags, more | flags);
    }
  }

  /** One level of plain recursion, the parent's bag given by any answer that agrees with it. */
  lemma FoldOnce(plans: Plans, slot: Slot, parent: Slot, own: seq<BagItem>, flags: bv32, answer: BagResult)
    requires Closed(plans) && slot in plans && plans[slot] == Level(Some(parent), Some(own), flags)
    requires ChainEnds(plans, slot) && parent in plans && Agrees(plans, parent, answer)
    ensures BagOf(plans, slot) == Finish(Some(own), flags, answer)
  {
    hide Merge, ChainLength;
    assert ParentSlot(plans, slot) == Some(parent);
    ChainOfParent(plans, slot);
  }

  lemma FoldNone(plans: Plans, slot: Slot, own: seq<BagItem>, flags: bv32, error: BagError)
    requires Closed(plans) && slot in plans && plans[slot] == Level(None, Some(own), flags) && ChainEnds(plans, slot)
    ensures BagOf(plans, slot) == Finish(Some(own), flags, Failed(error))
  {
    hide Merge;
    assert NOTHING == Bag([], 0);
  }

  /** An entry with a parent: whenever the two are asked for under the same parameters, in one run or in different
    * ones, the bag is the parent's with the entry's own attributes laid over it. */
  lemma BagInherits(table: Table, a: Answer, startA: Config, opsA: seq<Op>, b: Answer, startB: Config, opsB: seq<Op>,
                    n: nat, slot: Slot, best: Candidate<MapEntry>, flags: bv32, own: seq<BagItem>)
    requires a in Run(table, startA, map[], opsA) && b in Run(table, startB, map[], opsB) && a.params == b.params
    requires Locate(table, a.id) == Some(slot) && InTable(table, slot) && EndsWithin(table, a.params, a.id, n)
    requires EntryAt(table, a.params, slot) == Found(best, flags) && best.entry.parent != 0
    requires IdBecomes(table.groups[slot.group].refs, best.entry.parent, b.id)
    requires ItemsBecome(table.groups[slot.group].refs, best.packageIndex, best.entry.items, own)
    ensures LaidOver(b.result, own, flags, a.result)
  {
    hide LookupEntry, Locate, AllSlots, PlanOf, Run, ItemsBecome, OwnOf, Finish, IdBecomes, EndsWithin, ChainEnds, BagOf, LaidOver;
    var refs, plans := table.groups[slot.group].refs, PlansOf(table, a.params);
    LocatedIsInTable(table, a.id);
    EndingAnswer(table, startA, opsA, a, n);
    PlanIs(table, a.params, slot);
    LookupIff(refs, best.entry.parent, b.id);
    OwnIff(refs, best.packageIndex, best.entry.items, own);
    AnswersAreRight(table, startB, opsB, b);
    FinishLaysOver(b.result, own, flags);
    FinishIsBag(Some(own), flags, b.result);
    var parent := Locate(table, b.id);
    if parent.Some? {
      LocatedIsInTable(table, b.id);
      FoldOnce(plans, slot, parent.value, own, flags, b.result);
    } else {
      FoldNone(plans, slot, own, flags, BAD_INDEX);
    }
  }

  lemma FinishIsBag(own: Option<seq<BagItem>>, flags: bv32, parent: BagResult)
    ensures Finish(own, flags, parent).Bag? <==> own.Some?
    ensures own.None? ==> Finish(own, flags, parent) == Failed(UNKNOWN_ERROR)
  {
  }

  // ----- failures -----

  /** The id cannot be translated. */
  ghost predicate NoId(refs: RefTable, id: uint32) {
    forall out: uint32 :: !IdBecomes(refs, id, out)
  }

  /** Some attribute cannot be translated. */
  ghost predicate NoItems(refs: RefTable, block: nat, items: seq<MapItem>) {
    exists i | 0 <= i < |items| :: NoItem(refs, block, items[i])
  }

  ghost predicate NoItem(refs: RefTable, block: nat, item: MapItem) {
    forall out :: !ItemBecomes(refs, block, item, out)
  }

  /** What makes a bag fail: getEntry finds nothing, or the parent or an own attribute cannot be translated. */
  ghost predicate Broken(found: EntryResult<MapEntry>, refs: RefTable) {
    found.Found? ==>
      var entry := found.best.entry;
      (entry.parent != 0 && NoId(refs, entry.parent)) || NoItems(refs, found.best.packageIndex, entry.items)
  }

  lemma NoIdIff(refs: RefTable, id: uint32)
    ensures LookupResourceId(refs, id).None? <==> NoId(refs, id)
  {
    hide LookupResourceId, IdBecomes;
    forall out: uint32
      ensures LookupResourceId(refs, id) == Some(out) <==> IdBecomes(refs, id, out)
    {
      LookupIff(refs, id, out);
    }
    if LookupResourceId(refs, id).Some? {
      assert IdBecomes(refs, id, LookupResourceId(refs, id).value);
    }
  }

  lemma NoItemsIff(refs: RefTable, block: nat, items: seq<MapItem>)
    ensures OwnOf(refs, block, items).None? <==> NoItems(refs, block, items)
  {
    hide Resolve, ItemBecomes;
    forall i | 0 <= i < |items|
      ensures Resolve(refs, block, items[i]).None? <==> NoItem(refs, block, items[i])
    {
      forall out
        ensures Resolve(refs, block, items[i]) == Some(out) <==> ItemBecomes(refs, block, items[i], out)
      {
        ResolveIff(refs, block, items[i], out);
      }
      if Resolve(refs, block, items[i]).Some? {
        assert ItemBecomes(refs, block, items[i], Resolve(refs, block, items[i]).value);
      }
    }
  }

  /** The plan of a slot has its own attributes exactly if nothing is broken. */
  lemma BrokenIff(table: Table, params: Config, slot: Slot)
    requires slot in AllSlots(table) && InTable(table, slot)
    ensures var plan := PlanOf(table, params, slot);
            Broken(EntryAt(table, params, slot), table.groups[slot.group].refs) <==> plan.Hopeless? || plan.own.None?
  {
    hide LookupEntry, LookupResourceId, OwnOf, NoItems, NoId, AllSlots, PlanOf;
    var refs := table.groups[slot.group].refs;
    PlanIs(table, params, slot);
    var found := EntryAt(table, params, slot);
    if found.Found? {
      NoIdIff(refs, found.best.entry.parent);
      NoItemsIff(refs, found.best.packageIndex, found.best.entry.items);
    }
  }

  lemma CutBagIff(plans: Plans, cuts: set<Slot>, slot: Slot)
    requires Closed(plans) && slot in plans && ChainEnds(Cut(plans, cuts), slot)
    ensures BagOf(Cut(plans, cuts), slot).Bag? <==> plans[slot].Level? && plans[slot].own.Some?
  {
    hide Merge;
    var cut := Cut(plans, cuts);
    if plans[slot].Level? {
      FinishIsBag(plans[slot].own, plans[slot].flags, NOTHING);
      assert cut[slot].own == plans[slot].own && cut[slot].flags == plans[slot].flags;
      if ParentSlot(cut, slot).Some? {
        ChainOfParent(cut, slot);
        FinishIsBag(plans[slot].own, plans[slot].flags, BagOf(cut, ParentSlot(cut, slot).value));
      }
    }
  }

  /** At any point of any run an id is answered with a bag exactly if the table has its slot and nothing of its entry
    * is broken, whatever becomes of its parents. */
  lemma BagIffWhole(table: Table, start: Config, ops: seq<Op>, a: Answer)
    requires a in Run(table, start, map[], ops)
    ensures Locate(table, a.id).None? ==> a.result == Failed(BAD_INDEX)
    ensures forall slot | Locate(table, a.id) == Some(slot) ::
              InTable(table, slot)
              && (a.result.Bag? <==> !Broken(EntryAt(table, a.params, slot), table.groups[slot.group].refs))
  {
    hide LookupEntry, Locate, AllSlots, PlanOf, Run, Broken, ChainEnds, BagOf, OnePerCircle, Cut;
    AnswersAreRight(table, start, ops, a);
    if Locate(table, a.id).Some? {
      var plans, slot := PlansOf(table, a.params), Locate(table, a.id).value;
      LocatedIsInTable(table, a.id);
      BrokenIff(table, a.params, slot);
      var cuts :| OnePerCircle(plans, cuts) && ChainEnds(Cut(plans, cuts), slot)
                  && Agrees(Cut(plans, cuts), slot, a.result);
      CutBagIff(plans, cuts, slot);
    }
  }

  /** The error of the first call of a run. */
  lemma FirstError(table: Table, params: Config, id: uint32, slot: Slot)
    requires Locate(table, id) == Some(slot) && InTable(table, slot)
    requires Broken(EntryAt(table, params, slot), table.groups[slot.group].refs)
    ensures Run(table, params, map[], [Get(id)]) == [Answer(params, id, Failed(
              match EntryAt(table, params, slot)
              case BadType => BAD_TYPE
              case BadIndex => BAD_INDEX
              case Found(_, _) => UNKNOWN_ERROR))]
  {
    hide LookupEntry, Locate, AllSlots, PlanOf, Broken, Finish, LookupResourceId;
    LocatedIsInTable(table, id);
    BrokenIff(table, params, slot);
    PlanIs(table, params, slot);
    var plans := PlansOf(table, params);
    assert plans[slot] == PlanOf(table, params, slot);
    if plans[slot].Level? {
      FinishIsBag(None, plans[slot].flags, NOTHING);
      var marked: Cache := map[slot := InProgress];
      if plans[slot].parent.Some? {
        assert ParentSlot(plans, slot) == plans[slot].parent;
        FinishIsBag(None, plans[slot].flags, Build(plans, marked, plans[slot].parent.value).0);
      }
    }
    assert Run(table, params, GetBag(table, params, map[], id).1, [Get(id)][1..]) == [];
  }

  /** The mapping an ascending list stands for: each name to the item that has it. */
  lemma {:induction false} AsMapAt(items: seq<BagItem>, name: uint32)
    requires Ascending(items)
    ensures name in AsMap(items) <==> exists i | 0 <= i < |items| :: items[i].name == name
    ensures forall i | 0 <= i < |items| && items[i].name == name :: name in AsMap(items) && AsMap(items)[name] == items[i]
  {
    AsMapNames(items);
    if items != [] {
      AscendingTail(items);
      AsMapAt(items[1..], name);
      assert forall i | 0 < i < |items| :: items[i] == items[1..][i - 1];
    }
  }
}
