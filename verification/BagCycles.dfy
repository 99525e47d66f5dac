/** Bags of entries that inherit in circles.  Whatever is asked in whatever order, every answer is plain
  * recursion on the table with one parent link of each circle cut: the one that leads back to the slot
  * where the circle was first entered.  So the order matters exactly where the slots beyond the entry of a
  * circle have something to add.
  */
module BagCycles {
  import opened Common
  import opened BagCache

  // ----- cutting links -----

  /** The table without the parent links of some slots. */
  function Cut(plans: Plans, cuts: set<Slot>): (cut: Plans)
    ensures cut.Keys == plans.Keys
    ensures forall s | s in plans ::
              && ParentSlot(cut, s) == (if s in cuts then None else ParentSlot(plans, s))
              && (s !in cuts ==> cut[s] == plans[s])
    ensures Closed(plans) ==> Closed(cut)
  {
    map s | s in plans :: if s in cuts && plans[s].Level? then plans[s].(parent := None) else plans[s]
  }

  /** The slot whose link leads back into the calls running, if asking for this slot runs into one. */
  function Closing(plans: Plans, cache: Cache, path: seq<Slot>, slot: Slot): (closing: set<Slot>)
    requires Closed(plans) && slot in plans
    ensures forall k | k in closing :: k in plans && k !in cache && ParentSlot(plans, k).Some?
    decreases plans.Keys - cache.Keys
  {
    if slot in cache then {}
    else
      match ParentSlot(plans, slot)
      case None => {}
      case Some(p) =>
        assert slot in plans.Keys - cache.Keys;
        if p in path + [slot] then {slot} else Closing(plans, cache[slot := InProgress], path + [slot], p)
  }

  ghost predicate Running(cache: Cache, path: seq<Slot>) {
    forall s | s in path :: s in cache && cache[s].InProgress?
  }

  /** Running into a call that is still running is like having no parent. */
  lemma {:induction false} BuildIsCut(plans: Plans, cache: Cache, path: seq<Slot>, slot: Slot, earlier: set<Slot>)
    requires Closed(plans) && slot in plans && Running(cache, path) && earlier <= cache.Keys
    ensures Build(Cut(plans, earlier + Closing(plans, cache, path, slot)), cache, slot) == Build(plans, cache, slot)
    decreases plans.Keys - cache.Keys
  {
    hide Finish, Store;
    if slot !in cache && plans[slot].Level? && plans[slot].parent.Some? {
      var p, marked := plans[slot].parent.value, cache[slot := InProgress];
      assert slot in plans.Keys - cache.Keys;
      assert ParentSlot(plans, slot) == Some(p);
      if p in path + [slot] {
        FinishWithoutParent(plans[slot].own, plans[slot].flags);
      } else {
        BuildIsCut(plans, marked, path + [slot], p, earlier);
        var cuts := earlier + Closing(plans, cache, path, slot);
        assert slot !in cuts && Cut(plans, cuts)[slot] == plans[slot];
      }
    }
  }

  // ----- chains in the cut table -----

  /** The last slot of a chain. */
  ghost function Root(plans: Plans, slot: Slot): Slot
    requires Closed(plans) && slot in plans && ChainEnds(plans, slot)
    decreases Height(plans, slot)
  {
    match ParentSlot(plans, slot)
    case None => slot
    case Some(p) =>
      ChainOfParent(plans, slot);
      Root(plans, p)
  }

  lemma RootOfParent(plans: Plans, slot: Slot)
    requires Closed(plans) && slot in plans && ParentSlot(plans, slot).Some?
    ensures var p := ParentSlot(plans, slot).value;
            && (ChainEnds(plans, slot) <==> ChainEnds(plans, p))
            && (ChainEnds(plans, slot) ==> Root(plans, slot) == Root(plans, p))
  {
    ChainOfParent(plans, slot);
  }

  lemma ChainEndsHere(plans: Plans, slot: Slot)
    requires Closed(plans) && slot in plans && ParentSlot(plans, slot).None?
    ensures ChainEnds(plans, slot) && Root(plans, slot) == slot
  {
    assert ChainLength(plans, slot, 0);
  }

  /** Slots whose parents are among them. */
  ghost predicate Together(plans: Plans, slots: set<Slot>)
    requires Closed(plans)
  {
    slots <= plans.Keys && forall s | s in slots && ParentSlot(plans, s).Some? :: ParentSlot(plans, s).value in slots
  }

  /** Two tables that agree on such slots give them the same chains and bags. */
  lemma {:induction false} SameOn(one: Plans, two: Plans, slots: set<Slot>, slot: Slot)
    requires Closed(one) && Closed(two) && Together(one, slots) && slots <= two.Keys && slot in slots
    requires (forall s | s in slots :: one[s] == two[s]) && ChainEnds(one, slot)
    ensures ChainEnds(two, slot) && BagOf(one, slot) == BagOf(two, slot) && Root(one, slot) == Root(two, slot)
    ensures Root(one, slot) in slots
    decreases Height(one, slot)
  {
    hide Finish;
    if ParentSlot(one, slot).None? {
      ChainEndsHere(one, slot);
      ChainEndsHere(two, slot);
    } else {
      RootOfParent(one, slot);
      RootOfParent(two, slot);
      ChainOfParent(one, slot);
      SameOn(one, two, slots, ParentSlot(one, slot).value);
    }
  }

  // ----- what the cache holds between calls -----

  /** Every cut link leads to a slot from which the cut table leads back to it: of each circle at most one
    * link is cut, and no other link is. */
  ghost predicate OnePerCircle(plans: Plans, cuts: set<Slot>)
    requires Closed(plans)
  {
    forall k | k in cuts ::
      && k in plans && ParentSlot(plans, k).Some?
      && var p := ParentSlot(plans, k).value;
      && ChainEnds(Cut(plans, cuts), p) && Root(Cut(plans, cuts), p) == k
  }

  ghost predicate AllEnd(plans: Plans, slots: set<Slot>)
    requires Closed(plans)
  {
    slots <= plans.Keys && forall s | s in slots :: ChainEnds(plans, s)
  }

  /** Between calls: the cache is right for the cut table, in which all its chains end. */
  ghost predicate CacheFits(plans: Plans, cache: Cache, cuts: set<Slot>)
    requires Closed(plans)
  {
    && cuts <= cache.Keys
    && CacheSound(Cut(plans, cuts), cache, {})
    && Together(plans, cache.Keys)
    && AllEnd(Cut(plans, cuts), cache.Keys)
    && OnePerCircle(plans, cuts)
  }

  /** A call leaves the slots in the cache with their parents among them, the calls running apart. */
  lemma {:induction false} BuildKeeps(plans: Plans, cache: Cache, running: set<Slot>, slot: Slot)
    requires Closed(plans) && slot in plans && cache.Keys <= plans.Keys
    requires forall s | s in cache && s !in running && ParentSlot(plans, s).Some? :: ParentSlot(plans, s).value in cache
    ensures var after := Build(plans, cache, slot).1;
            && slot in after && cache.Keys <= after.Keys <= plans.Keys
            && forall s | s in after && s !in running && ParentSlot(plans, s).Some? :: ParentSlot(plans, s).value in after
    decreases plans.Keys - cache.Keys
  {
    hide Finish;
    if slot !in cache {
      var marked := cache[slot := InProgress];
      if plans[slot].Level? && plans[slot].parent.Some? {
        assert slot in plans.Keys - cache.Keys && ParentSlot(plans, slot) == plans[slot].parent;
        BuildKeeps(plans, marked, running + {slot}, plans[slot].parent.value);
      }
    }
  }

  /** The slots of a path of calls, each the parent of the one before. */
  ghost predicate Leads(plans: Plans, path: seq<Slot>, slot: Slot) {
    forall i | 0 <= i < |path| :: path[i] in plans && ParentSlot(plans, path[i]) == Some((path + [slot])[i + 1])
  }

  lemma {:induction false} PathRoots(plans: Plans, path: seq<Slot>, slot: Slot, i: nat)
    requires Closed(plans) && slot in plans && Leads(plans, path, slot) && ChainEnds(plans, slot) && i < |path|
    ensures ChainEnds(plans, path[i]) && Root(plans, path[i]) == Root(plans, slot)
    decreases |path| - i
  {
    if i + 1 < |path| {
      PathRoots(plans, path, slot, i + 1);
    }
    assert path[i] in plans;
    RootOfParent(plans, path[i]);
  }

  /** With the closing link cut, the chain of the slot asked for ends; and if one was cut, it ends there, and
    * so does the chain of the slot to which the link led. */
  lemma {:induction false} ClosingEnds(plans: Plans, cache: Cache, path: seq<Slot>, slot: Slot, earlier: set<Slot>)
    requires Closed(plans) && slot in plans && Running(cache, path) && Leads(plans, path, slot)
    requires earlier <= cache.Keys <= plans.Keys && slot !in path && forall s | s in path :: s !in earlier
    requires var cut := Cut(plans, earlier + Closing(plans, cache, path, slot));
             forall s | s in cache && s !in path :: ChainEnds(cut, s)
    ensures var cut := Cut(plans, earlier + Closing(plans, cache, path, slot));
            && ChainEnds(cut, slot)
            && forall k | k in Closing(plans, cache, path, slot) ::
                 && Root(cut, slot) == k
                 && var p := ParentSlot(plans, k).value;
                 && ChainEnds(cut, p) && Root(cut, p) == k
    decreases plans.Keys - cache.Keys
  {
    hide Finish, Agrees, ChainLength;
    var closing := Closing(plans, cache, path, slot);
    var cut := Cut(plans, earlier + closing);
    if slot !in cache {
      var marked := cache[slot := InProgress];
      assert slot in plans.Keys - cache.Keys;
      match ParentSlot(plans, slot) {
        case None => ChainEndsHere(cut, slot);
        case Some(p) =>
          if p in path + [slot] {
            ChainEndsHere(cut, slot);
            LeadsInCut(plans, cut, path, slot);
            PathEnds(cut, path, slot);
          } else {
            LeadsOn(plans, path, slot, p);
            ClosingEnds(plans, marked, path + [slot], p, earlier);
            RootOfParent(cut, slot);
          }
      }
    }
  }

  lemma LeadsOn(plans: Plans, path: seq<Slot>, slot: Slot, p: Slot)
    requires slot in plans && Leads(plans, path, slot) && ParentSlot(plans, slot) == Some(p)
    ensures Leads(plans, path + [slot], p)
  {
    var longer := path + [slot];
    forall i | 0 <= i < |longer|
      ensures longer[i] in plans && ParentSlot(plans, longer[i]) == Some((longer + [p])[i + 1])
    {
      if i < |path| {
        assert path[i] in plans;
      }
    }
  }

  lemma LeadsInCut(plans: Plans, cut: Plans, path: seq<Slot>, slot: Slot)
    requires Leads(plans, path, slot) && cut.Keys == plans.Keys
    requires forall s | s in path :: ParentSlot(cut, s) == ParentSlot(plans, s)
    ensures Leads(cut, path, slot)
  {
    forall i | 0 <= i < |path|
      ensures path[i] in cut && ParentSlot(cut, path[i]) == ParentSlot(plans, path[i])
    {
      assert path[i] in path;
    }
  }

  lemma PathEnds(cut: Plans, path: seq<Slot>, slot: Slot)
    requires Closed(cut) && slot in cut && Leads(cut, path, slot) && ChainEnds(cut, slot)
    ensures forall s | s in path :: s in cut && ChainEnds(cut, s) && Root(cut, s) == Root(cut, slot)
  {
    forall s | s in path
      ensures s in cut && ChainEnds(cut, s) && Root(cut, s) == Root(cut, slot)
    {
      var i :| 0 <= i < |path| && path[i] == s;
      PathRoots(cut, path, slot, i);
    }
  }

  /** A call for a slot whose chain ends only reaches slots whose chains end. */
  lemma {:induction false} BuildReaches(plans: Plans, cache: Cache, slot: Slot)
    requires Closed(plans) && slot in plans && cache.Keys <= plans.Keys && ChainEnds(plans, slot)
    ensures forall s | s in Build(plans, cache, slot).1 && s !in cache :: s in plans && ChainEnds(plans, s)
    decreases plans.Keys - cache.Keys
  {
    hide Finish, ChainLength;
    if slot !in cache && plans[slot].Level? && plans[slot].parent.Some? {
      assert slot in plans.Keys - cache.Keys && ParentSlot(plans, slot) == plans[slot].parent;
      ChainOfParent(plans, slot);
      BuildReaches(plans, cache[slot := InProgress], plans[slot].parent.value);
    }
  }

  // ----- one call -----

  /** The cuts after one more call. */
  function MoreCuts(plans: Plans, cache: Cache, cuts: set<Slot>, slot: Slot): set<Slot>
    requires Closed(plans) && slot in plans
  {
    cuts + Closing(plans, cache, [], slot)
  }

  /** What the cache held is not affected by the new cut. */
  lemma KeepsEarlier(plans: Plans, cache: Cache, cuts: set<Slot>, more: set<Slot>, s: Slot)
    requires Closed(plans) && CacheFits(plans, cache, cuts) && cuts <= more && (more - cuts) !! cache.Keys && s in cache
    ensures ChainEnds(Cut(plans, more), s)
    ensures BagOf(Cut(plans, more), s) == BagOf(Cut(plans, cuts), s)
    ensures Root(Cut(plans, more), s) == Root(Cut(plans, cuts), s)
  {
    hide CacheSound, ChainLength, OnePerCircle, BagOf;
    SameOn(Cut(plans, cuts), Cut(plans, more), cache.Keys, s);
  }

  lemma CallFits(plans: Plans, cache: Cache, cuts: set<Slot>, slot: Slot)
    requires Closed(plans) && slot in plans && CacheFits(plans, cache, cuts)
    ensures var more := MoreCuts(plans, cache, cuts, slot);
            var (result, after) := Build(plans, cache, slot);
            && CacheFits(plans, after, more) && slot in after
            && ChainEnds(Cut(plans, more), slot) && Agrees(Cut(plans, more), slot, result)
  {
    hide Build, Closing, Agrees, ChainEnds, Height, Root, BagOf;
    var more := MoreCuts(plans, cache, cuts, slot);
    var cut := Cut(plans, more);
    forall s | s in cache
      ensures ChainEnds(cut, s)
      ensures BagOf(cut, s) == BagOf(Cut(plans, cuts), s) && Root(cut, s) == Root(Cut(plans, cuts), s)
    {
      KeepsEarlier(plans, cache, cuts, more, s);
    }
    BuildIsCut(plans, cache, [], slot, cuts);
    ClosingEnds(plans, cache, [], slot, cuts);
    BuildKeeps(plans, cache, {}, slot);
    BuildReaches(cut, cache, slot);
    SoundAfterCut(plans, cache, cuts, more);
    BuildAgrees(cut, cache, {}, slot);
    forall k | k in more
      ensures k in Build(plans, cache, slot).1
      ensures ChainEnds(cut, ParentSlot(plans, k).value) && Root(cut, ParentSlot(plans, k).value) == k
    {
      if k in cuts {
      } else {
        ClosingIsReached(plans, cache, [], slot, k);
      }
    }
  }

  lemma SoundAfterCut(plans: Plans, cache: Cache, cuts: set<Slot>, more: set<Slot>)
    requires Closed(plans) && CacheFits(plans, cache, cuts)
    requires forall s | s in cache ::
               ChainEnds(Cut(plans, more), s) && BagOf(Cut(plans, more), s) == BagOf(Cut(plans, cuts), s)
    ensures CacheSound(Cut(plans, more), cache, {})
  {
    hide ChainEnds, BagOf, OnePerCircle;
  }

  lemma {:induction false} ClosingIsReached(plans: Plans, cache: Cache, path: seq<Slot>, slot: Slot, k: Slot)
    requires Closed(plans) && slot in plans && k in Closing(plans, cache, path, slot) && Running(cache, path)
    ensures k in Build(plans, cache, slot).1
    decreases plans.Keys - cache.Keys
  {
    hide Finish;
    var p := ParentSlot(plans, slot).value;
    assert slot in plans.Keys - cache.Keys;
    if p !in path + [slot] {
      ClosingIsReached(plans, cache[slot := InProgress], path + [slot], p, k);
    }
  }

  // ----- any sequence of calls -----

  ghost predicate InTable(plans: Plans, asked: seq<Slot>) {
    forall s | s in asked :: s in plans
  }

  function CacheAfter(plans: Plans, cache: Cache, asked: seq<Slot>): Cache
    requires Closed(plans) && InTable(plans, asked)
    decreases |asked|
  {
    if asked == [] then cache else CacheAfter(plans, Build(plans, cache, asked[0]).1, asked[1..])
  }

  function Answers(plans: Plans, cache: Cache, asked: seq<Slot>): (answers: seq<BagResult>)
    requires Closed(plans) && InTable(plans, asked)
    ensures |answers| == |asked|
    decreases |asked|
  {
    if asked == [] then []
    else
      var (result, after) := Build(plans, cache, asked[0]);
      [result] + Answers(plans, after, asked[1..])
  }

  function CutsAfter(plans: Plans, cache: Cache, cuts: set<Slot>, asked: seq<Slot>): set<Slot>
    requires Closed(plans) && InTable(plans, asked)
    decreases |asked|
  {
    if asked == [] then cuts
    else CutsAfter(plans, Build(plans, cache, asked[0]).1, MoreCuts(plans, cache, cuts, asked[0]), asked[1..])
  }

  lemma NothingAsked(plans: Plans)
    requires Closed(plans)
    ensures CacheFits(plans, map[], {})
  {
  }

  /** In every sequence of calls every answer is plain recursion on one and the same cut table, in which at
    * most one link of each circle is missing. */
  lemma {:induction false} EveryAnswerIsRecursion(plans: Plans, cache: Cache, cuts: set<Slot>, asked: seq<Slot>)
    requires Closed(plans) && InTable(plans, asked) && CacheFits(plans, cache, cuts)
    ensures var all := CutsAfter(plans, cache, cuts, asked);
            && CacheFits(plans, CacheAfter(plans, cache, asked), all)
            && cache.Keys <= CacheAfter(plans, cache, asked).Keys
            && cuts <= all && (all - cuts) !! cache.Keys
            && forall i | 0 <= i < |asked| ::
                 && ChainEnds(Cut(plans, all), asked[i])
                 && Agrees(Cut(plans, all), asked[i], Answers(plans, cache, asked)[i])
    decreases |asked|
  {
    hide Build, Closing, ChainEnds, Height, Root, BagOf, CacheFits, Cut;
    if asked != [] {
      var slot, rest := asked[0], asked[1..];
      var more := MoreCuts(plans, cache, cuts, slot);
      var after := Build(plans, cache, slot).1;
      CallFits(plans, cache, cuts, slot);
      CallGrows(plans, cache, cuts, slot);
      EveryAnswerIsRecursion(plans, after, more, rest);
      var all := CutsAfter(plans, cache, cuts, asked);
      KeepsEarlier(plans, after, more, all, slot);
      forall i | 0 <= i < |asked|
        ensures ChainEnds(Cut(plans, all), asked[i]) && Agrees(Cut(plans, all), asked[i], Answers(plans, cache, asked)[i])
      {
        if i > 0 {
          assert asked[i] == rest[i - 1] && Answers(plans, cache, asked)[i] == Answers(plans, after, rest)[i - 1];
        }
      }
    }
  }

  lemma CallGrows(plans: Plans, cache: Cache, cuts: set<Slot>, slot: Slot)
    requires Closed(plans) && slot in plans && CacheFits(plans, cache, cuts)
    ensures cache.Keys <= Build(plans, cache, slot).1.Keys
    ensures (MoreCuts(plans, cache, cuts, slot) - cuts) !! cache.Keys
  {
    BuildKeeps(plans, cache, {}, slot);
  }

  // ----- lines of parents that run into a circle -----

  /** Slots, each the parent of the one before, the last one's parent being the m-th. */
  ghost predicate Lasso(plans: Plans, line: seq<Slot>, m: nat) {
    && m < |line| && Leads(plans, line, line[m])
    && forall i, j | 0 <= i < j < |line| :: line[i] != line[j]
  }

  /** Every slot whose chain does not end is the start of one. */
  lemma {:induction false} LassoExists(plans: Plans, path: seq<Slot>, slot: Slot) returns (line: seq<Slot>, m: nat)
    requires Closed(plans) && slot in plans && !ChainEnds(plans, slot) && Leads(plans, path, slot)
    requires slot !in path && forall i, j | 0 <= i < j < |path| :: path[i] != path[j]
    ensures Lasso(plans, line, m) && path + [slot] <= line
    decreases plans.Keys - set s | s in path
  {
    hide ChainLength;
    if ParentSlot(plans, slot).None? {
      ChainEndsHere(plans, slot);
    }
    var p := ParentSlot(plans, slot).value;
    LeadsOn(plans, path, slot, p);
    line := path + [slot];
    if p in line {
      m :| 0 <= m < |line| && line[m] == p;
    } else {
      assert (set s | s in line) == (set s | s in path) + {slot};
      RootOfParent(plans, slot);
      line, m := LassoExists(plans, line, p);
    }
  }

  lemma NextOnLine(plans: Plans, line: seq<Slot>, m: nat, i: nat)
    requires Lasso(plans, line, m) && i < |line|
    ensures line[i] in plans && ParentSlot(plans, line[i]) == Some(if i + 1 < |line| then line[i + 1] else line[m])
    ensures line[i] !in line[i + 1..] && line[i] !in line[..i]
  {
    assert line[i] in plans && ParentSlot(plans, line[i]) == Some((line + [line[m]])[i + 1]);
  }

  /** Asking along such a line closes at its end. */
  lemma {:induction false} ClosesAtEnd(plans: Plans, cache: Cache, line: seq<Slot>, m: nat, i: nat)
    requires Closed(plans) && Lasso(plans, line, m) && i < |line|
    requires forall k | i <= k < |line| :: line[k] !in cache
    ensures line[i] in plans && Closing(plans, cache, line[..i], line[i]) == {line[|line| - 1]}
    decreases |line| - i
  {
    NextOnLine(plans, line, m, i);
    assert line[..i] + [line[i]] == line[..i + 1];
    if i + 1 < |line| {
      NextOnLine(plans, line, m, i + 1);
      hide Lasso;
      ClosesAtEnd(plans, cache[line[i] := InProgress], line, m, i + 1);
    } else {
      assert line[m] in line[..i + 1];
    }
  }

  /** The bag of a list of slots, each inheriting from the next and the last from nothing. */
  ghost function Fold(plans: Plans, line: seq<Slot>): BagResult
    requires forall s | s in line :: s in plans && plans[s].Level?
    decreases |line|
  {
    if line == [] then NOTHING else Finish(plans[line[0]].own, plans[line[0]].flags, Fold(plans, line[1..]))
  }

  lemma LassoLevels(plans: Plans, line: seq<Slot>, m: nat)
    requires Lasso(plans, line, m)
    ensures forall s | s in line :: s in plans && plans[s].Level?
  {
    forall s | s in line
      ensures s in plans && plans[s].Level?
    {
      var i :| 0 <= i < |line| && line[i] == s;
      assert line[i] in plans && ParentSlot(plans, line[i]).Some?;
    }
  }

  /** From a slot at or before the circle the chain of the cut table stays on the line. */
  lemma {:induction false} RootOnLine(plans: Plans, cuts: set<Slot>, line: seq<Slot>, m: nat, t: nat, i: nat)
    requires Closed(plans) && Lasso(plans, line, m) && t <= m && t <= i < |line| && line[i] in plans
    requires ChainEnds(Cut(plans, cuts), line[i])
    ensures Root(Cut(plans, cuts), line[i]) in line[t..] && Root(Cut(plans, cuts), line[i]) in cuts
    decreases Height(Cut(plans, cuts), line[i])
  {
    hide ChainLength;
    var cut := Cut(plans, cuts);
    if line[i] in cuts {
      ChainEndsHere(cut, line[i]);
      assert line[i] == line[t..][i - t];
    } else {
      var n := if i + 1 < |line| then i + 1 else m;
      assert ParentSlot(cut, line[i]) == Some((line + [line[m]])[i + 1]) == Some(line[n]);
      ChainOfParent(cut, line[i]);
      RootOfParent(cut, line[i]);
      RootOnLine(plans, cuts, line, m, t, n);
    }
  }

  lemma {:induction false} FoldsToCut(plans: Plans, cuts: set<Slot>, line: seq<Slot>, m: nat, i: nat, j: nat)
    requires Closed(plans) && Lasso(plans, line, m) && i < j <= |line| && line[j - 1] in cuts
    requires (forall k | i <= k < j - 1 :: line[k] !in cuts) && line[i] in plans && ChainEnds(Cut(plans, cuts), line[i])
    requires forall s | s in line :: s in plans && plans[s].Level?
    ensures BagOf(Cut(plans, cuts), line[i]) == Fold(plans, line[i..j])
    decreases j - i
  {
    NextOnLine(plans, line, m, i);
    hide ChainLength, Finish, Lasso;
    var cut := Cut(plans, cuts);
    assert line[i] in line && line[i..j][0] == line[i] && line[i..j][1..] == line[i + 1..j];
    if i == j - 1 {
      assert ParentSlot(cut, line[i]) == None;
    } else {
      NextOnLine(plans, line, m, i + 1);
      ChainOfParent(cut, line[i]);
      FoldsToCut(plans, cuts, line, m, i + 1, j);
    }
  }

  /** So recursion on the cut table folds the line up to its first cut, which lies on the circle. */
  lemma CutBagIsPrefix(plans: Plans, cuts: set<Slot>, line: seq<Slot>, m: nat) returns (j: nat)
    requires Closed(plans) && Lasso(plans, line, m) && OnePerCircle(plans, cuts)
    requires line[0] in plans && ChainEnds(Cut(plans, cuts), line[0])
    ensures m < j <= |line| && line[j - 1] in cuts && (forall k | 0 <= k < j - 1 :: line[k] !in cuts)
    ensures forall s | s in line :: s in plans && plans[s].Level?
    ensures BagOf(Cut(plans, cuts), line[0]) == Fold(plans, line[..j])
  {
    hide ChainLength, Finish, Fold, BagOf, Root;
    LassoLevels(plans, line, m);
    RootOnLine(plans, cuts, line, m, 0, 0);
    j := FirstIn(line, cuts, 0);
    if j <= m {
      NextOnLine(plans, line, m, j - 1);
      RootOnLine(plans, cuts, line, m, j, j);
    }
    FoldsToCut(plans, cuts, line, m, 0, j);
    assert line[0..j] == line[..j];
  }

  lemma {:induction false} FirstIn(line: seq<Slot>, cuts: set<Slot>, i: nat) returns (j: nat)
    requires i < |line| && exists s :: s in line[i..] && s in cuts
    ensures i < j <= |line| && line[j - 1] in cuts && forall k | i <= k < j - 1 :: line[k] !in cuts
    decreases |line| - i
  {
    if line[i] in cuts {
      j := i + 1;
    } else {
      assert line[i..] == [line[i]] + line[i + 1..];
      j := FirstIn(line, cuts, i + 1);
    }
  }

  // ----- when the order matters -----

  /** All the slots resolve their own attributes. */
  ghost predicate Resolves(plans: Plans, line: seq<Slot>) {
    forall s | s in line :: s in plans && plans[s].Level? && plans[s].own.Some?
  }

  ghost predicate HasName(plans: Plans, line: seq<Slot>, n: uint32)
    requires Resolves(plans, line)
  {
    exists s | s in line :: n in AsMap(plans[s].own.value)
  }

  function FlagsOf(plans: Plans, line: seq<Slot>): bv32
    requires forall s | s in line :: s in plans && plans[s].Level?
    decreases |line|
  {
    if line == [] then 0 else FlagsOf(plans, line[1..]) | plans[line[0]].flags
  }

  predicate Within(a: bv32, f: bv32) { a | f == f }

  /** What a fold of slots that resolve contains. */
  lemma {:induction false} FoldContains(plans: Plans, line: seq<Slot>)
    requires OwnAscending(plans) && Resolves(plans, line)
    ensures Fold(plans, line).Bag? && Ascending(Fold(plans, line).items)
    ensures Fold(plans, line).flags == FlagsOf(plans, line)
    ensures forall n :: n in AsMap(Fold(plans, line).items) <==> HasName(plans, line, n)
    decreases |line|
  {
    hide Ascending, AsMap, Merge;
    if line == [] {
      NoNames();
    } else {
      var first, rest := line[0], line[1..];
      assert line == [first] + rest;
      FoldContains(plans, rest);
      MergeIsOverride(Fold(plans, rest).items, plans[first].own.value);
    }
  }

  lemma NoNames()
    ensures Ascending([]) && AsMap([]) == map[]
  {
  }

  lemma FoldStep(plans: Plans, line: seq<Slot>)
    requires OwnAscending(plans) && Resolves(plans, line) && line != []
    ensures Resolves(plans, line[1..]) && Fold(plans, line).Bag? && Fold(plans, line[1..]).Bag?
    ensures AsMap(Fold(plans, line).items) == AsMap(Fold(plans, line[1..]).items) + AsMap(plans[line[0]].own.value)
  {
    hide Ascending, AsMap, Merge, HasName;
    FoldContains(plans, line);
    FoldContains(plans, line[1..]);
    MergeIsOverride(Fold(plans, line[1..]).items, plans[line[0]].own.value);
  }

  /** Folding more slots is merging what they have under what is there. */
  lemma {:induction false} FoldMore(plans: Plans, line: seq<Slot>, more: seq<Slot>)
    requires OwnAscending(plans) && Resolves(plans, line) && Resolves(plans, more)
    ensures Resolves(plans, line + more) && Fold(plans, line).Bag? && Fold(plans, line + more).Bag? && Fold(plans, more).Bag?
    ensures AsMap(Fold(plans, line + more).items) == AsMap(Fold(plans, more).items) + AsMap(Fold(plans, line).items)
    ensures FlagsOf(plans, line + more) == FlagsOf(plans, more) | FlagsOf(plans, line)
    decreases |line|
  {
    hide Ascending, AsMap, Merge, HasName, Finish, OwnAscending;
    FoldContains(plans, more);
    if line == [] {
      NoNames();
      assert line + more == more && Fold(plans, line) == NOTHING;
    } else {
      var first, rest := line[0], line[1..];
      assert (line + more)[0] == first && (line + more)[1..] == rest + more;
      FoldMore(plans, rest, more);
      OrAssociates(FlagsOf(plans, more), FlagsOf(plans, rest), plans[first].flags);
      FoldStep(plans, line);
      FoldStep(plans, line + more);
    }
  }

  lemma OrAssociates(a: bv32, b: bv32, c: bv32)
    ensures (a | b) | c == a | (b | c)
  {
  }

  lemma FirstIsMapped(b: seq<BagItem>)
    ensures b != [] ==> b[0].name in AsMap(b)
  {
  }

  /** Ascending lists are equal if they are the same mapping. */
  lemma {:induction false} SameMapSameList(a: seq<BagItem>, b: seq<BagItem>)
    requires Ascending(a) && Ascending(b) && AsMap(a) == AsMap(b)
    ensures a == b
    decreases |a|
  {
    hide AsMap;
    AsMapOfCons(a);
    AsMapOfCons(b);
    FirstIsMapped(b);
    if a != [] {
      assert a[0].name in AsMap(b) && AsMap(a)[a[0].name] == a[0];
      assert b != [];
      AscendingTail(a);
      AscendingTail(b);
      assert b[0].name in AsMap(a) && AsMap(b)[b[0].name] == b[0];
      assert a[0].name == b[0].name;
      SameTails(AsMap(a[1..]), AsMap(b[1..]), a[0].name, a[0]);
      SameMapSameList(a[1..], b[1..]);
      assert a == [a[0]] + a[1..] && b == [b[0]] + b[1..];
    }
  }

  lemma SameTails<K, V>(m: map<K, V>, n: map<K, V>, k: K, v: V)
    requires k !in m && k !in n && m[k := v] == n[k := v]
    ensures m == n
  {
    forall x
      ensures x in m <==> x in n
      ensures x in m ==> m[x] == n[x]
    {
      assert x in m[k := v] <==> x in n[k := v];
      assert x in m && x in n ==> m[k := v][x] == n[k := v][x];
    }
  }

  /** More slots add nothing exactly if they have no new name and no new flag. */
  lemma FoldSame(plans: Plans, line: seq<Slot>, more: seq<Slot>)
    requires OwnAscending(plans) && Resolves(plans, line) && Resolves(plans, more) && line != []
    ensures Resolves(plans, line + more)
    ensures Fold(plans, line + more) == Fold(plans, line) <==>
            && (forall n | HasName(plans, more, n) :: HasName(plans, line, n))
            && Within(FlagsOf(plans, more), FlagsOf(plans, line))
  {
    hide Ascending, AsMap, Merge, HasName, Finish, OwnAscending;
    FoldMore(plans, line, more);
    FoldContains(plans, line);
    FoldContains(plans, more);
    FoldContains(plans, line + more);
    var a, b, all := AsMap(Fold(plans, line).items), AsMap(Fold(plans, more).items), AsMap(Fold(plans, line + more).items);
    if forall n | HasName(plans, more, n) :: HasName(plans, line, n) {
      assert b + a == a by { AddingKnown(b, a); }
      SameMapSameList(Fold(plans, line + more).items, Fold(plans, line).items);
    } else {
      var n :| HasName(plans, more, n) && !HasName(plans, line, n);
      assert n in all && n !in a;
    }
  }

  lemma AddingKnown<K, V>(m: map<K, V>, n: map<K, V>)
    requires forall k | k in m :: k in n
    ensures m + n == n
  {
  }

  /** A slot that does not resolve passes nothing on. */
  lemma {:induction false} FoldStops(plans: Plans, line: seq<Slot>, i: nat)
    requires (forall s | s in line :: s in plans && plans[s].Level?) && 0 < i < |line| && plans[line[i]].own.None?
    ensures Fold(plans, line) == Fold(plans, line[..i])
    decreases i
  {
    var rest := line[1..];
    assert line[..i][1..] == rest[..i - 1] && line[..i][0] == line[0];
    if i == 1 {
      assert rest[0] == line[1] && rest[..0] == [];
      FinishWithoutParent(plans[line[0]].own, plans[line[0]].flags);
      FailedIsNothing(plans[line[0]].own, plans[line[0]].flags);
    } else {
      FoldStops(plans, rest, i - 1);
    }
  }

  lemma FailedIsNothing(own: Option<seq<BagItem>>, flags: bv32)
    ensures Finish(own, flags, Failed(UNKNOWN_ERROR)) == Finish(own, flags, NOTHING)
  {
  }

  /** A slot has no name and no flag that these slots have not. */
  ghost predicate AddsNothing(plans: Plans, head: seq<Slot>, s: Slot)
    requires Resolves(plans, head) && s in plans && plans[s].Level? && plans[s].own.Some?
  {
    && (forall n | n in AsMap(plans[s].own.value) :: HasName(plans, head, n))
    && Within(plans[s].flags, FlagsOf(plans, head))
  }

  /** The slots of the circle beyond its entry add nothing to the line up to there - as far as slots resolve
    * and so pass anything on. */
  ghost predicate Covered(plans: Plans, line: seq<Slot>, m: nat, j: nat)
    requires m < j <= |line|
  {
    forall i | m < i < j && ResolvesUpTo(plans, line, i) :: Below(plans, line, m, i)
  }

  ghost predicate ResolvesUpTo(plans: Plans, line: seq<Slot>, i: nat)
    requires i < |line|
  {
    Resolves(plans, line[..i + 1])
  }

  ghost predicate Below(plans: Plans, line: seq<Slot>, m: nat, i: nat)
    requires m < i < |line| && ResolvesUpTo(plans, line, i)
  {
    ResolvesPart(plans, line, m, i);
    AddsNothing(plans, line[..m + 1], line[i])
  }

  lemma ResolvesPart(plans: Plans, line: seq<Slot>, m: nat, i: nat)
    requires m < i < |line| && ResolvesUpTo(plans, line, i)
    ensures Resolves(plans, line[..m + 1]) && Resolves(plans, line[m + 1..i + 1])
    ensures line[i] in plans && plans[line[i]].Level? && plans[line[i]].own.Some?
  {
    var upTo, head, mid := line[..i + 1], line[..m + 1], line[m + 1..i + 1];
    assert head + mid == upTo;
    ResolvesSubset(plans, upTo, head);
    ResolvesSubset(plans, upTo, mid);
    assert line[i] in upTo;
  }

  lemma OrCovers(a: bv32, b: bv32, f: bv32)
    ensures Within(a | b, f) <==> Within(a, f) && Within(b, f)
    ensures Within(0, f)
  {
  }

  lemma {:induction false} FlagsCovered(plans: Plans, line: seq<Slot>, f: bv32)
    requires forall s | s in line :: s in plans && plans[s].Level?
    ensures Within(FlagsOf(plans, line), f) <==> forall s | s in line :: Within(plans[s].flags, f)
    decreases |line|
  {
    hide Within;
    OrCovers(0, 0, f);
    if line != [] {
      assert line == [line[0]] + line[1..];
      FlagsCovered(plans, line[1..], f);
      OrCovers(FlagsOf(plans, line[1..]), plans[line[0]].flags, f);
    }
  }

  ghost predicate SameAnswer(a: BagResult, b: BagResult) {
    if a.Bag? then b == a else b.Failed?
  }

  /** Where all slots resolve: folding further adds nothing exactly if what is below adds nothing. */
  lemma ResolvedPrefixSame(plans: Plans, line: seq<Slot>, m: nat, j: nat)
    requires OwnAscending(plans) && m < j <= |line| && Resolves(plans, line[..j])
    ensures Resolves(plans, line[..m + 1])
    ensures Fold(plans, line[..j]) == Fold(plans, line[..m + 1]) <==> Covered(plans, line, m, j)
    ensures Fold(plans, line[..j]).Bag? && Fold(plans, line[..m + 1]).Bag?
  {
    hide HasName, Finish, OwnAscending, Fold, AsMap, FlagsOf, Within, Covered, AddsNothing;
    var head, mid := line[..m + 1], line[m + 1..j];
    assert head + mid == line[..j];
    ResolvesSubset(plans, line[..j], head);
    ResolvesSubset(plans, line[..j], mid);
    FoldContains(plans, head);
    FoldContains(plans, line[..j]);
    FoldSame(plans, head, mid);
    FlagsCovered(plans, mid, FlagsOf(plans, head));
    CoveredIsMid(plans, line, m, j, head, mid);
    MidAddsNothing(plans, head, mid);
  }

  lemma CoveredIsMid(plans: Plans, line: seq<Slot>, m: nat, j: nat, head: seq<Slot>, mid: seq<Slot>)
    requires m < j <= |line| && head == line[..m + 1] && mid == line[m + 1..j]
    requires Resolves(plans, line[..j]) && Resolves(plans, head) && Resolves(plans, mid)
    ensures Covered(plans, line, m, j) <==> forall s | s in mid :: AddsNothing(plans, head, s)
  {
    hide AddsNothing;
    forall i | m < i < j
      ensures ResolvesUpTo(plans, line, i) && line[i] in mid
      ensures Below(plans, line, m, i) <==> AddsNothing(plans, head, line[i])
    {
      ResolvesSubset(plans, line[..j], line[..i + 1]);
      assert mid[i - m - 1] == line[i];
    }
    if Covered(plans, line, m, j) {
      forall s | s in mid
        ensures AddsNothing(plans, head, s)
      {
        var k :| 0 <= k < |mid| && mid[k] == s;
        assert Below(plans, line, m, k + m + 1);
      }
    }
  }

  lemma ResolvesSubset(plans: Plans, line: seq<Slot>, part: seq<Slot>)
    requires Resolves(plans, line) && forall s | s in part :: s in line
    ensures Resolves(plans, part)
  {
  }

  lemma MidAddsNothing(plans: Plans, head: seq<Slot>, mid: seq<Slot>)
    requires Resolves(plans, head) && Resolves(plans, mid)
    ensures (forall s | s in mid :: AddsNothing(plans, head, s)) <==>
            && (forall n | HasName(plans, mid, n) :: HasName(plans, head, n))
            && (forall s | s in mid :: Within(plans[s].flags, FlagsOf(plans, head)))
  {
    hide FlagsOf, AsMap;
    if forall n | HasName(plans, mid, n) :: HasName(plans, head, n) {
      forall s, n | s in mid && n in AsMap(plans[s].own.value)
        ensures HasName(plans, head, n)
      {
        assert HasName(plans, mid, n);
      }
    }
    if forall s | s in mid :: AddsNothing(plans, head, s) {
      forall n | HasName(plans, mid, n)
        ensures HasName(plans, head, n)
      {
        var s :| s in mid && n in AsMap(plans[s].own.value);
        assert AddsNothing(plans, head, s);
      }
    }
  }

  /** The first slot of a line that does not resolve. */
  lemma FirstUnresolved(plans: Plans, line: seq<Slot>) returns (t: nat)
    requires forall s | s in line :: s in plans && plans[s].Level?
    ensures t <= |line| && Resolves(plans, line[..t]) && (t < |line| ==> plans[line[t]].own.None?)
    ensures forall i | t <= i < |line| :: !ResolvesUpTo(plans, line, i)
  {
    t := 0;
    while t < |line| && plans[line[t]].own.Some?
      invariant t <= |line| && Resolves(plans, line[..t])
    {
      assert line[..t + 1] == line[..t] + [line[t]];
      t := t + 1;
    }
    forall i | t <= i < |line|
      ensures !ResolvesUpTo(plans, line, i)
    {
      assert line[..i + 1][t] == line[t];
    }
  }

  /** Folding from the entry of the circle on leaves the answer as it is exactly if what is below adds nothing. */
  lemma PrefixSame(plans: Plans, line: seq<Slot>, m: nat, j: nat)
    requires OwnAscending(plans) && m < j <= |line| && forall s | s in line :: s in plans && plans[s].Level?
    ensures SameAnswer(Fold(plans, line[..j]), Fold(plans, line[..m + 1])) <==> Covered(plans, line, m, j)
  {
    hide HasName, Finish, OwnAscending, AsMap, FlagsOf, Within, AddsNothing, Fold;
    var t := FirstUnresolved(plans, line);
    if t <= m {
      UpTo(plans, line, t, j);
      UpTo(plans, line, t, m + 1);
    } else if t < j {
      UpTo(plans, line, t, j);
      ResolvedPrefixSame(plans, line, m, t);
    } else {
      ResolvesSubset(plans, line[..t], line[..j]);
      ResolvedPrefixSame(plans, line, m, j);
    }
  }

  lemma UpTo(plans: Plans, line: seq<Slot>, t: nat, j: nat)
    requires t < j <= |line| && plans.Keys >= (set s | s in line) && forall s | s in line :: s in plans && plans[s].Level?
    requires plans[line[t]].own.None?
    ensures t == 0 ==> Fold(plans, line[..j]) == Failed(UNKNOWN_ERROR)
    ensures t > 0 ==> Fold(plans, line[..j]) == Fold(plans, line[..t])
  {
    if t > 0 {
      FoldStops(plans, line[..j], t);
      assert line[..j][..t] == line[..t];
    }
  }

  /** The answer for a slot after any other calls. */
  function AnswerAfter(plans: Plans, asked: seq<Slot>, slot: Slot): BagResult
    requires Closed(plans) && InTable(plans, asked) && slot in plans
  {
    Build(plans, CacheAfter(plans, map[], asked), slot).0
  }

  /** It is a fold of the line of parents up to some slot of the circle: of the whole line if nothing was asked
    * before, and up to the entry of the circle if the slot after that was. */
  lemma AnswerIsPrefix(plans: Plans, line: seq<Slot>, m: nat, asked: seq<Slot>) returns (j: nat)
    requires Closed(plans) && Lasso(plans, line, m) && InTable(plans, asked)
    ensures m < j <= |line| && line[0] in plans && forall s | s in line :: s in plans && plans[s].Level?
    ensures SameAnswer(Fold(plans, line[..j]), AnswerAfter(plans, asked, line[0]))
    ensures asked == [] ==> j == |line|
    ensures m + 1 < |line| && asked == [line[m + 1]] ==> j == m + 1
  {
    NextOnLine(plans, line, m, 0);
    hide Build, Closing, ChainEnds, Height, Root, BagOf, Cut, Fold, Lasso;
    NothingAsked(plans);
    EveryAnswerIsRecursion(plans, map[], {}, asked);
    var cache, cuts := CacheAfter(plans, map[], asked), CutsAfter(plans, map[], {}, asked);
    CallFits(plans, cache, cuts, line[0]);
    var more := MoreCuts(plans, cache, cuts, line[0]);
    j := CutBagIsPrefix(plans, more, line, m);
    if asked == [] {
      ClosesAtEnd(plans, map[], line, m, 0);
      assert line[..0] == [];
      OnlyLast(plans, line, m, j);
    } else if m + 1 < |line| && asked == [line[m + 1]] {
      var circle := Turned(plans, line, m);
      ClosesAtEnd(plans, map[], circle, 0, 0);
      assert circle[..0] == [] && asked[1..] == [];
      assert line[m] in more;
    }
  }

  lemma OnlyLast(plans: Plans, line: seq<Slot>, m: nat, j: nat)
    requires Lasso(plans, line, m) && 0 < j <= |line| && line[j - 1] == line[|line| - 1]
    ensures j == |line|
  {
  }

  /** The circle of a line, starting with the slot after its entry. */
  lemma Turned(plans: Plans, line: seq<Slot>, m: nat) returns (circle: seq<Slot>)
    requires Lasso(plans, line, m) && m + 1 < |line|
    ensures Lasso(plans, circle, 0) && circle[0] == line[m + 1] && circle[|circle| - 1] == line[m]
  {
    circle := line[m + 1..] + [line[m]];
    forall i | 0 <= i < |circle|
      ensures circle[i] in plans && ParentSlot(plans, circle[i]) == Some((circle + [circle[0]])[i + 1])
    {
      NextOnLine(plans, line, m, if i + 1 < |circle| then m + 1 + i else m);
    }
  }

  /** For an entry whose parents run into a circle, the answer is the same whatever was asked before if and
    * only if the slots of the circle beyond its entry add nothing to the line up to there. */
  lemma OrderIrrelevantIff(plans: Plans, line: seq<Slot>, m: nat)
    requires Closed(plans) && OwnAscending(plans) && Lasso(plans, line, m)
    ensures line[0] in plans && !ChainEnds(plans, line[0])
    ensures (forall asked | InTable(plans, asked) ::
               SameAnswer(AnswerAfter(plans, [], line[0]), AnswerAfter(plans, asked, line[0]))) <==>
            Covered(plans, line, m, |line|)
  {
    hide AnswerAfter, Fold, Covered, ChainEnds, Lasso, Closed, OwnAscending, SameAnswer, Resolves, ResolvesUpTo, Below;
    NeverEnds(plans, line, m);
    var n := AnswerIsPrefix(plans, line, m, []);
    PrefixSame(plans, line, m, |line|);
    var whole, entry := Fold(plans, line[..n]), Fold(plans, line[..m + 1]);
    if Covered(plans, line, m, |line|) {
      forall asked | InTable(plans, asked)
        ensures SameAnswer(AnswerAfter(plans, [], line[0]), AnswerAfter(plans, asked, line[0]))
      {
        var j := AnswerIsPrefix(plans, line, m, asked);
        CoveredBelow(plans, line, m, j);
        PrefixSame(plans, line, m, j);
        var part := Fold(plans, line[..j]);
        AllSame(entry, whole, part, AnswerAfter(plans, [], line[0]), AnswerAfter(plans, asked, line[0]));
      }
    } else if m + 1 < |line| {
      var asked := [line[m + 1]];
      assert line[m + 1] in line;
      var j := AnswerIsPrefix(plans, line, m, asked);
      OneDiffers(entry, whole, AnswerAfter(plans, [], line[0]), AnswerAfter(plans, asked, line[0]));
    } else {
      NothingBelow(plans, line, m);
    }
  }

  lemma AllSame(entry: BagResult, whole: BagResult, part: BagResult, first: BagResult, later: BagResult)
    requires SameAnswer(whole, entry) && SameAnswer(part, entry) && SameAnswer(whole, first) && SameAnswer(part, later)
    ensures SameAnswer(first, later)
  {
  }

  lemma OneDiffers(entry: BagResult, whole: BagResult, first: BagResult, later: BagResult)
    requires !SameAnswer(whole, entry) && SameAnswer(whole, first) && SameAnswer(entry, later)
    ensures !SameAnswer(first, later)
  {
  }

  lemma CoveredBelow(plans: Plans, line: seq<Slot>, m: nat, j: nat)
    requires m < j <= |line| && Covered(plans, line, m, |line|)
    ensures Covered(plans, line, m, j)
  {
  }

  lemma NothingBelow(plans: Plans, line: seq<Slot>, m: nat)
    requires m + 1 == |line|
    ensures Covered(plans, line, m, |line|)
  {
  }

  lemma NeverEnds(plans: Plans, line: seq<Slot>, m: nat)
    requires Closed(plans) && Lasso(plans, line, m)
    ensures line[0] in plans && !ChainEnds(plans, line[0])
  {
    hide ChainLength;
    NextOnLine(plans, line, m, 0);
    if ChainEnds(plans, line[0]) {
      CutNothing(plans);
      RootOnLine(plans, {}, line, m, 0, 0);
    }
  }

  lemma CutNothing(plans: Plans)
    ensures Cut(plans, {}) == plans
  {
  }
}
