/** The search of the write cache, step by step, while roots are added, claimed and flushed. */
module CacheSearch {
  import opened AuthoritativeLoad
  import opened Types
  import opened WriteCache

  /** Where the search is. `max` is the bound that the cache index gave; slots above `next` are done.
      The ancestors are searched with the flushing roots locked, the roots with the unflushed roots locked. */
  datatype Pc =
    | Before
    | Bounded(max: Slot)
    | AtAncestors(max: Slot, next: int)
    | BeforeRoots(max: Slot)
    | AtRoots(max: Slot, next: int)
    | Answered(found: Found)
    | Undecided

  /** `moment` is a state of the cache that the search has seen; no step depends on it. */
  datatype Search = Search(key: Pubkey, ancestors: set<Slot>, pc: Pc, moment: State)

  datatype System = System(db: State, search: Search)

  ghost predicate HasMax(pc: Pc) { pc.Bounded? || pc.AtAncestors? || pc.BeforeRoots? || pc.AtRoots? }

  /** The reading bank itself: the newest ancestor, and the only one that is still written. */
  ghost predicate IsTip(ancestors: set<Slot>, slot: Slot) { slot in ancestors && forall a | a in ancestors :: a <= slot }

  /** The search is done with the slot or never looks at it, so it does not see what comes there now. */
  ghost predicate Passed(r: Search, t: Slot)
    requires HasMax(r.pc)
  {
    || t > r.pc.max
    || (t in r.ancestors && (r.pc.BeforeRoots? || r.pc.AtRoots? || (r.pc.AtAncestors? && t > r.pc.next)))
  }

  ghost predicate LateAt(d: State, r: Search, t: Slot)
    requires HasMax(r.pc)
  {
    VisibleSlot(r.ancestors, d.roots, t) && Held(d.cached, t, r.key) && Passed(r, t)
  }

  /** A version that the reader may see came to the cache, or was rooted, too late for the search. */
  ghost predicate Late(d: State, r: Search)
    requires HasMax(r.pc)
  {
    exists t: Slot :: LateAt(d, r, t)
  }

  /** The moment follows the database while the search goes on and nothing is late. */
  ghost function Noted(d: State, r: Search): Search {
    if !HasMax(r.pc) || Late(d, r) then r else r.(moment := d)
  }

  /** Reads the index, takes a lock, looks at one slot, or gives a lock up. */
  ghost predicate SearchStep(d: State, r: Search, pc': Pc) {
    match r.pc
    case Before =>
      || (pc'.Bounded? && forall t: Slot | Held(d.cached, t, r.key) :: t <= pc'.max)
      || (pc' == Undecided && forall t: Slot :: !Held(d.cached, t, r.key))
    case Bounded(max) => pc' == if r.ancestors != {} then AtAncestors(max, max) else BeforeRoots(max)
    case AtAncestors(max, next) =>
      if forall a | a in r.ancestors :: next < a then pc' == BeforeRoots(max)
      else if next >= 0 && next in r.ancestors && Held(d.cached, next, r.key) then
        pc' == Answered(Found(d.cached[next][r.key], next, if next in d.flushing then AncestorBeingFlushed else Ancestor))
      else pc' == AtAncestors(max, next - 1)
    case BeforeRoots(max) => pc' == AtRoots(max, max)
    case AtRoots(max, next) =>
      if next < 0 then pc' == Undecided
      else if next in d.unflushed && NotAbove(next, r.ancestors) && Held(d.cached, next, r.key) then
        pc' == Answered(Found(d.cached[next][r.key], next, UnflushedRoot))
      else pc' == AtRoots(max, next - 1)
    case Answered(_) => false
    case Undecided => false
  }

  /** The locks keep root changes out. Of the reader's ancestors only the newest, its own bank, may be
      written, and a new root that the reader can see is one of its ancestors. */
  ghost predicate Allowed(r: Search, step: Step) {
    && (r.pc.AtAncestors? ==> !step.BeginFlush? && !step.EndFlush?)
    && (r.pc.AtRoots? ==> !step.BeginFlush? && !step.AddRoot?)
    && (HasMax(r.pc) && step.Write? && step.key == r.key && step.slot in r.ancestors ==> IsTip(r.ancestors, step.slot))
    && (HasMax(r.pc) && step.AddRoot? && r.ancestors != {} ==> step.slot in r.ancestors || !NotAbove(step.slot, r.ancestors))
  }

  ghost predicate Next(s: System, s': System) {
    || (exists pc' :: SearchStep(s.db, s.search, pc') && s' == System(s.db, s.search.(pc := pc', moment := MomentAfter(s.db, s.search, pc'))))
    || (exists step :: Enabled(s.db, step) && Allowed(s.search, step) &&
          s' == System(Apply(s.db, step), Noted(Apply(s.db, step), s.search)))
  }

  /** Reading the bound starts the search; after that the moment is kept, unless the answer is right now. */
  ghost function MomentAfter(d: State, r: Search, pc': Pc): State {
    if r.pc.Before? || (pc'.Answered? && NewestVersion(d, r.ancestors, r.key, pc'.found.slot)) then d else r.moment
  }

  ghost predicate Run(states: seq<System>) {
    && |states| > 0 && Init(states[0].db) && states[0].search.pc.Before?
    && (forall i | 0 <= i < |states| - 1 :: Next(states[i], states[i + 1]))
    && (forall i | 0 <= i < |states| :: Fork(states[i].db, states[i].search.ancestors))
  }

  // ---- The invariant ----

  ghost predicate Claimed(d: State, t: Slot) { t in d.roots && t !in d.unflushed }

  /** Nothing is written to the slot from the moment on. */
  ghost predicate Frozen(m: State, r: Search, t: Slot) {
    t in m.roots || (t in r.ancestors && !IsTip(r.ancestors, t))
  }

  ghost predicate SameAt(m: State, d: State, key: Pubkey, t: Slot) {
    Held(d.cached, t, key) ==> Held(m.cached, t, key) && d.cached[t][key] == m.cached[t][key]
  }

  /** What can have happened between the moment and now: later roots that the reader may see lie above
      the bound or are ancestors, and cached versions either are still cached or have been claimed. */
  ghost predicate Since(m: State, d: State, r: Search, max: Slot) {
    && m.roots <= d.roots
    && (forall t | t in d.roots && t !in m.roots && NotAbove(t, r.ancestors) :: t > max || t in r.ancestors)
    && (forall t | t in m.roots && t !in m.unflushed :: t !in d.unflushed)
    && (forall t: Slot | Held(m.cached, t, r.key) :: Held(d.cached, t, r.key) || Claimed(d, t))
    && (forall t: Slot | Frozen(m, r, t) :: SameAt(m, d, r.key, t))
  }

  /** At the moment, the roots outside the reader's ancestors that hold the key were within the bound. */
  ghost predicate WithinBound(m: State, r: Search, max: Slot) {
    forall t | t in m.roots && t !in r.ancestors && NotAbove(t, r.ancestors) && Held(m.cached, t, r.key) :: t <= max
  }

  /** Ancestors that were passed stay out of the cache, except for the bank itself. */
  ghost predicate PassedStayOut(d: State, r: Search)
    requires HasMax(r.pc)
  {
    forall a | a in r.ancestors && Passed(r, a) && !IsTip(r.ancestors, a) :: !Held(d.cached, a, r.key)
  }

  /** An ancestor that was passed and held the key at the moment has been claimed by a flush. */
  ghost predicate PassedWereClaimed(d: State, r: Search)
    requires HasMax(r.pc)
  {
    forall a | a in r.ancestors && Passed(r, a) && Held(r.moment.cached, a, r.key) :: Claimed(d, a)
  }

  ghost predicate MomentRight(d: State, r: Search)
    requires HasMax(r.pc)
  {
    && Inv(r.moment) && Since(r.moment, d, r, r.pc.max) && WithinBound(r.moment, r, r.pc.max)
    && PassedStayOut(d, r) && PassedWereClaimed(d, r) && (!Late(d, r) ==> r.moment == d)
  }

  ghost predicate NoRootAbove(d: State, r: Search, max: Slot, next: int) {
    forall t | t in d.unflushed && next < t <= max && NotAbove(t, r.ancestors) :: !Held(d.cached, t, r.key)
  }

  /** The answer was the newest version, in the cache and in storage, at the moment. */
  ghost predicate WasNewest(m: State, r: Search, f: Found) {
    && NewestVersion(m, r.ancestors, r.key, f.slot)
    && Held(m.cached, f.slot, r.key) && f.account == m.cached[f.slot][r.key]
  }

  ghost predicate SearchSound(d: State, r: Search) {
    match r.pc
    case Before => true
    case Bounded(max) => MomentRight(d, r)
    case AtAncestors(max, next) => MomentRight(d, r) && r.ancestors != {} && next <= max
    case BeforeRoots(max) => MomentRight(d, r)
    case AtRoots(max, next) => MomentRight(d, r) && NoRootAbove(d, r, max, next) && next <= max
    case Answered(f) => Authoritative(f) ==> WasNewest(r.moment, r, f)
    case Undecided => true
  }

  // ---- Background steps ----

  lemma SinceStep(m: State, d: State, step: Step, r: Search)
    requires Inv(d) && Enabled(d, step) && HasMax(r.pc) && Allowed(r, step) && Since(m, d, r, r.pc.max)
    requires step.AddRoot? && r.ancestors == {} ==> step.slot > r.pc.max
    ensures Since(m, Apply(d, step), r, r.pc.max)
  {
    var d' := Apply(d, step);
    forall t: Slot | Frozen(m, r, t) ensures SameAt(m, d', r.key, t) {
      assert SameAt(m, d, r.key, t);
    }
  }

  lemma SinceNow(d: State, r: Search, max: Slot)
    ensures Since(d, d, r, max)
  {
  }

  lemma LateMeansAbove(d: State, step: Step, r: Search)
    requires Enabled(d, step) && HasMax(r.pc) && r.ancestors == {} && Late(Apply(d, step), r)
    ensures step.AddRoot? ==> step.slot > r.pc.max
  {
    var t: Slot :| LateAt(Apply(d, step), r, t);
  }

  lemma PassedStep(d: State, step: Step, r: Search)
    requires Enabled(d, step) && HasMax(r.pc) && Allowed(r, step)
    ensures PassedStayOut(d, r) ==> PassedStayOut(Apply(d, step), r)
    ensures Inv(d) && PassedWereClaimed(d, r) ==> PassedWereClaimed(Apply(d, step), r)
  {
  }

  lemma NotLateNow(d: State, r: Search)
    requires HasMax(r.pc) && !Late(d, r)
    ensures WithinBound(d, r, r.pc.max) && PassedWereClaimed(d, r.(moment := d))
  {
    forall t: Slot | VisibleSlot(r.ancestors, d.roots, t) && Held(d.cached, t, r.key)
      ensures !Passed(r, t)
    {
      assert !LateAt(d, r, t);
    }
  }

  lemma MomentStep(d: State, step: Step, r: Search)
    requires Inv(d) && Enabled(d, step) && HasMax(r.pc) && Allowed(r, step) && MomentRight(d, r)
    ensures MomentRight(Apply(d, step), Noted(Apply(d, step), r))
  {
    var d' := Apply(d, step);
    StepKeepsInv(d, step);
    PassedStep(d, step, r);
    if Late(d', r) {
      if r.ancestors == {} {
        LateMeansAbove(d, step, r);
      }
      SinceStep(r.moment, d, step, r);
    } else {
      SinceNow(d', r, r.pc.max);
      NotLateNow(d', r);
      SameLate(d', r);
    }
  }

  /** Whether something is late does not depend on the moment. */
  lemma SameLate(d: State, r: Search)
    requires HasMax(r.pc)
    ensures Late(d, r.(moment := d)) <==> Late(d, r)
    ensures PassedStayOut(d, r.(moment := d)) <==> PassedStayOut(d, r)
    ensures Since(d, d, r.(moment := d), r.pc.max) <==> Since(d, d, r, r.pc.max)
  {
    forall t: Slot ensures LateAt(d, r.(moment := d), t) <==> LateAt(d, r, t) {
    }
  }

  lemma RootsStayLookedAt(d: State, step: Step, r: Search, max: Slot, next: int)
    requires Inv(d) && Enabled(d, step) && r.pc.AtRoots? && Allowed(r, step) && NoRootAbove(d, r, max, next)
    ensures NoRootAbove(Apply(d, step), r, max, next)
  {
  }

  lemma BackgroundStepKeeps(d: State, step: Step, r: Search)
    requires Inv(d) && Enabled(d, step) && Allowed(r, step) && SearchSound(d, r)
    ensures SearchSound(Apply(d, step), Noted(Apply(d, step), r))
  {
    if HasMax(r.pc) {
      MomentStep(d, step, r);
      if r.pc.AtRoots? {
        RootsStayLookedAt(d, step, r, r.pc.max, r.pc.next);
      }
    }
  }

  // ---- Steps of the search ----

  /** Reading the bound: no slot above it holds the key. */
  lemma BoundRead(d: State, r: Search, max: Slot)
    requires Inv(d) && forall t: Slot | Held(d.cached, t, r.key) :: t <= max
    ensures MomentRight(d, r.(pc := Bounded(max), moment := d))
  {
    SinceNow(d, r.(pc := Bounded(max), moment := d), max);
  }

  /** The search moves on past slots that do not hold the key. */
  lemma MoveOn(d: State, r: Search, pc': Pc)
    requires HasMax(r.pc) && HasMax(pc') && pc'.max == r.pc.max && MomentRight(d, r)
    requires var r' := r.(pc := pc');
             forall t: Slot :: (Passed(r, t) ==> Passed(r', t)) && (Passed(r', t) ==> Passed(r, t) || !Held(d.cached, t, r.key))
    ensures MomentRight(d, r.(pc := pc'))
  {
    var r' := r.(pc := pc');
    SameSince(r.moment, d, r, pc');
    forall a | a in r.ancestors && Passed(r', a) && Held(r'.moment.cached, a, r.key)
      ensures Claimed(d, a)
    {
      assert Passed(r, a) || !Held(d.cached, a, r.key);
    }
    if Late(d, r) {
      var t: Slot :| LateAt(d, r, t);
      assert LateAt(d, r', t);
    }
  }

  lemma SameSince(m: State, d: State, r: Search, pc': Pc)
    requires HasMax(r.pc) && Since(m, d, r, r.pc.max) && WithinBound(m, r, r.pc.max)
    ensures Since(m, d, r.(pc := pc'), r.pc.max) && WithinBound(m, r.(pc := pc'), r.pc.max)
  {
    forall t: Slot | Frozen(m, r.(pc := pc'), t) ensures SameAt(m, d, r.key, t) {
      assert Frozen(m, r, t);
    }
  }

  /** The bank's own slot is the newest that it can see. */
  lemma TipIsNewest(d: State, r: Search, slot: Slot)
    requires IsTip(r.ancestors, slot) && Held(d.cached, slot, r.key)
    ensures NewestVersion(d, r.ancestors, r.key, slot)
  {
  }

  /** A version of an ancestor that is not being flushed is newer than all that has been claimed. */
  lemma ClaimedIsOlder(d: State, ancestors: set<Slot>, slot: Slot, t: Slot)
    requires Inv(d) && Fork(d, ancestors) && slot in d.cached && slot !in d.flushing && (slot in ancestors || slot in d.unflushed)
    requires Claimed(d, t)
    ensures t < slot
  {
  }

  /** A version that was there at the moment and has been passed has been claimed since. */
  lemma OldVersionClaimed(d: State, r: Search, t: Slot)
    requires HasMax(r.pc) && MomentRight(d, r) && t in r.ancestors && Passed(r, t)
    requires Held(r.moment.cached, t, r.key) || (r.key, t) in r.moment.stored
    ensures Claimed(d, t)
  {
    if (r.key, t) in r.moment.stored {
      assert (r.key, t).1 in r.moment.roots;
    }
  }

  lemma StoredWasClaimed(d: State, r: Search, t: Slot)
    requires HasMax(r.pc) && MomentRight(d, r) && (r.key, t) in r.moment.stored
    ensures Claimed(d, t)
  {
    assert (r.key, t).1 in r.moment.roots;
  }

  lemma AncestorHit(d: State, r: Search, slot: Slot)
    requires Inv(d) && Fork(d, r.ancestors) && r.pc.AtAncestors? && r.pc.next == slot && MomentRight(d, r)
    requires slot in r.ancestors && !IsTip(r.ancestors, slot) && Held(d.cached, slot, r.key) && slot !in d.flushing
    ensures NewestVersion(r.moment, r.ancestors, r.key, slot) && SameAt(r.moment, d, r.key, slot)
  {
    assert Frozen(r.moment, r, slot);
    forall t: Slot | Version(r.moment, r.ancestors, r.key, t) ensures t <= slot {
      if t in r.ancestors && t > slot {
        OldVersionClaimed(d, r, t);
        ClaimedIsOlder(d, r.ancestors, slot, t);
      }
    }
  }

  /** A root found in the unflushed roots, and not an ancestor, was the newest version at the moment. */
  lemma RootHit(d: State, r: Search, slot: Slot)
    requires Inv(d) && Fork(d, r.ancestors) && r.pc.AtRoots? && r.pc.next == slot <= r.pc.max && MomentRight(d, r)
    requires NoRootAbove(d, r, r.pc.max, slot)
    requires slot in d.unflushed && NotAbove(slot, r.ancestors) && Held(d.cached, slot, r.key) && slot !in r.ancestors
    ensures NewestVersion(r.moment, r.ancestors, r.key, slot) && SameAt(r.moment, d, r.key, slot)
  {
    assert slot in r.moment.roots && Frozen(r.moment, r, slot) && SameAt(r.moment, d, r.key, slot);
    forall t: Slot | Version(r.moment, r.ancestors, r.key, t) ensures t <= slot {
      RootedNotNewer(d, r, slot, t);
    }
  }

  lemma RootedNotNewer(d: State, r: Search, slot: Slot, t: Slot)
    requires Inv(d) && Fork(d, r.ancestors) && r.pc.AtRoots? && r.pc.next == slot <= r.pc.max && MomentRight(d, r)
    requires NoRootAbove(d, r, r.pc.max, slot) && slot in d.unflushed && slot in d.cached
    requires Version(r.moment, r.ancestors, r.key, t)
    ensures t <= slot
  {
    if t in r.ancestors {
      OldVersionClaimed(d, r, t);
      ClaimedIsOlder(d, r.ancestors, slot, t);
    } else if (r.key, t) in r.moment.stored {
      StoredWasClaimed(d, r, t);
      ClaimedIsOlder(d, r.ancestors, slot, t);
    } else if Claimed(d, t) {
      ClaimedIsOlder(d, r.ancestors, slot, t);
    }
  }

  lemma AncestorAnswer(d: State, r: Search, f: Found)
    requires Inv(d) && Fork(d, r.ancestors) && r.pc.AtAncestors? && r.pc.next == f.slot && MomentRight(d, r)
    requires f.slot in r.ancestors && Held(d.cached, f.slot, r.key) && f.slot !in d.flushing && f.account == d.cached[f.slot][r.key]
    ensures WasNewest(MomentAfter(d, r, Answered(f)), r, f)
  {
    if IsTip(r.ancestors, f.slot) {
      TipIsNewest(d, r, f.slot);
    } else {
      AncestorHit(d, r, f.slot);
    }
  }

  lemma RootAnswer(d: State, r: Search, f: Found)
    requires Inv(d) && Fork(d, r.ancestors) && r.pc.AtRoots? && r.pc.next == f.slot <= r.pc.max && MomentRight(d, r)
    requires NoRootAbove(d, r, r.pc.max, f.slot) && f.slot in d.unflushed && NotAbove(f.slot, r.ancestors)
    requires Held(d.cached, f.slot, r.key) && f.account == d.cached[f.slot][r.key]
    ensures WasNewest(MomentAfter(d, r, Answered(f)), r, f)
  {
    if f.slot in r.ancestors {
      assert IsTip(r.ancestors, f.slot);
      TipIsNewest(d, r, f.slot);
    } else {
      RootHit(d, r, f.slot);
    }
  }

  lemma AtAncestorsKeeps(d: State, r: Search, pc': Pc)
    requires Inv(d) && Fork(d, r.ancestors) && r.pc.AtAncestors? && SearchSound(d, r) && SearchStep(d, r, pc')
    ensures SearchSound(d, r.(pc := pc', moment := MomentAfter(d, r, pc')))
  {
    if pc'.Answered? {
      if Authoritative(pc'.found) {
        AncestorAnswer(d, r, pc'.found);
      }
    } else {
      MoveOn(d, r, pc');
    }
  }

  lemma AtRootsKeeps(d: State, r: Search, pc': Pc)
    requires Inv(d) && Fork(d, r.ancestors) && r.pc.AtRoots? && SearchSound(d, r) && SearchStep(d, r, pc')
    ensures SearchSound(d, r.(pc := pc', moment := MomentAfter(d, r, pc')))
  {
    if pc'.Answered? {
      RootAnswer(d, r, pc'.found);
    } else if pc'.AtRoots? {
      MoveOn(d, r, pc');
    }
  }

  lemma SearchStepKeeps(d: State, r: Search, pc': Pc)
    requires Inv(d) && Fork(d, r.ancestors) && SearchSound(d, r) && SearchStep(d, r, pc')
    ensures SearchSound(d, r.(pc := pc', moment := MomentAfter(d, r, pc')))
  {
    match r.pc
    case Before => if pc'.Bounded? { BoundRead(d, r, pc'.max); }
    case Bounded(_) => MoveOn(d, r, pc');
    case AtAncestors(_, _) => AtAncestorsKeeps(d, r, pc');
    case BeforeRoots(_) => MoveOn(d, r, pc');
    case AtRoots(_, _) => AtRootsKeeps(d, r, pc');
    case _ =>
  }

  lemma {:induction false} RunKeepsSound(states: seq<System>, i: nat)
    requires Run(states) && i < |states|
    ensures Inv(states[i].db) && SearchSound(states[i].db, states[i].search)
  {
    if i > 0 {
      RunKeepsSound(states, i - 1);
      var s, s' := states[i - 1], states[i];
      if pc' :| SearchStep(s.db, s.search, pc') && s' == System(s.db, s.search.(pc := pc', moment := MomentAfter(s.db, s.search, pc'))) {
        SearchStepKeeps(s.db, s.search, pc');
      } else {
        var step :| Enabled(s.db, step) && Allowed(s.search, step) &&
          s' == System(Apply(s.db, step), Noted(Apply(s.db, step), s.search));
        StepKeepsInv(s.db, step);
        BackgroundStepKeeps(s.db, step, s.search);
      }
    }
  }

  /** The moment is a state between the start of the search and now. */
  lemma {:induction false} MomentWasSeen(states: seq<System>, i: nat) returns (j: nat)
    requires Run(states) && i < |states| && !states[i].search.pc.Before?
    ensures 0 < j <= i && states[j].db == states[i].search.moment && !states[j].search.pc.Before?
  {
    var s, s' := states[i - 1], states[i];
    assert Next(s, s');
    if s.search.pc.Before? || s'.search.moment == s'.db {
      j := i;
    } else {
      j := MomentWasSeen(states, i - 1);
    }
  }

  /** However the search is interleaved with writes, new roots and flushes: an answer that the load
      takes without reading the index was the newest version anywhere at some time during the search. */
  lemma AnswerWasNewest(states: seq<System>, i: nat) returns (j: nat)
    requires Run(states) && i < |states| && states[i].search.pc.Answered? && Authoritative(states[i].search.pc.found)
    ensures j <= i && !states[j].search.pc.Before?
    ensures var r, f := states[i].search, states[i].search.pc.found;
            && NewestVersion(states[j].db, r.ancestors, r.key, f.slot)
            && Held(states[j].db.cached, f.slot, r.key) && f.account == states[j].db.cached[f.slot][r.key]
  {
    RunKeepsSound(states, i);
    j := MomentWasSeen(states, i);
  }

  // ---- The search alone ----

  ghost predicate StepsAt(d: State, r: Search, pcs: seq<Pc>, i: nat) {
    i + 1 < |pcs| ==> SearchStep(d, r.(pc := pcs[i]), pcs[i + 1])
  }

  /** The search goes through `pcs` while nobody else moves. */
  ghost predicate Alone(d: State, r: Search, pcs: seq<Pc>) {
    pcs != [] && pcs[0].Before? && forall i: nat :: StepsAt(d, r, pcs, i)
  }

  ghost predicate NoneAbove(d: State, r: Search, next: int) {
    forall a: Slot | a in r.ancestors && a > next :: !Held(d.cached, a, r.key)
  }

  ghost predicate NoUnflushedAbove(d: State, r: Search, next: int) {
    forall t: Slot | t in d.unflushed && t > next && NotAbove(t, r.ancestors) :: !Held(d.cached, t, r.key)
  }

  ghost predicate BoundsAll(d: State, r: Search, max: Slot) { forall t: Slot | Held(d.cached, t, r.key) :: t <= max }

  /** What a search alone knows at each point; its answer is that of the naive search. */
  ghost predicate Knows(d: State, r: Search, pc: Pc) {
    match pc
    case Before => true
    case Bounded(max) => BoundsAll(d, r, max)
    case AtAncestors(max, next) => BoundsAll(d, r, max) && NoneAbove(d, r, next)
    case BeforeRoots(max) => BoundsAll(d, r, max) && NoneAbove(d, r, -1)
    case AtRoots(max, next) => BoundsAll(d, r, max) && NoneAbove(d, r, -1) && NoUnflushedAbove(d, r, next)
    case Answered(f) => IsLatest(d.cached, d.unflushed, d.flushing, r.key, r.ancestors, Some(f))
    case Undecided => NoneAbove(d, r, -1) && NoUnflushedAbove(d, r, -1)
  }

  lemma AncestorIsLatest(d: State, r: Search, f: Found)
    requires f.slot in r.ancestors && Held(d.cached, f.slot, r.key) && NoneAbove(d, r, f.slot)
    requires f.account == d.cached[f.slot][r.key] && f.status == if f.slot in d.flushing then AncestorBeingFlushed else Ancestor
    ensures IsLatest(d.cached, d.unflushed, d.flushing, r.key, r.ancestors, Some(f))
  {
    assert Hit(d.cached, r.ancestors, r.key, f.slot);
  }

  lemma RootIsLatest(d: State, r: Search, f: Found)
    requires NoneAbove(d, r, -1) && NoUnflushedAbove(d, r, f.slot)
    requires f.slot in d.unflushed && NotAbove(f.slot, r.ancestors) && Held(d.cached, f.slot, r.key)
    requires f.account == d.cached[f.slot][r.key] && f.status == UnflushedRoot
    ensures IsLatest(d.cached, d.unflushed, d.flushing, r.key, r.ancestors, Some(f))
  {
    assert Hit(d.cached, d.unflushed, r.key, f.slot);
    assert forall s: Slot | Hit(d.cached, r.ancestors, r.key, s) :: s > -1;
  }

  lemma AtAncestorsKnows(d: State, r: Search, max: Slot, next: int, pc': Pc)
    requires Knows(d, r, AtAncestors(max, next)) && SearchStep(d, r.(pc := AtAncestors(max, next)), pc')
    ensures Knows(d, r, pc')
  {
    if pc'.Answered? {
      AncestorIsLatest(d, r, pc'.found);
    }
  }

  lemma AtRootsKnows(d: State, r: Search, max: Slot, next: int, pc': Pc)
    requires Knows(d, r, AtRoots(max, next)) && SearchStep(d, r.(pc := AtRoots(max, next)), pc')
    ensures Knows(d, r, pc')
  {
    if pc'.Answered? {
      RootIsLatest(d, r, pc'.found);
    }
  }

  lemma StepKnows(d: State, r: Search, pc: Pc, pc': Pc)
    requires Knows(d, r, pc) && SearchStep(d, r.(pc := pc), pc')
    ensures Knows(d, r, pc')
  {
    match pc
    case AtAncestors(max, next) => AtAncestorsKnows(d, r, max, next, pc');
    case AtRoots(max, next) => AtRootsKnows(d, r, max, next, pc');
    case _ =>
  }

  lemma {:induction false} AloneKnows(d: State, r: Search, pcs: seq<Pc>, i: nat)
    requires Alone(d, r, pcs) && i < |pcs|
    ensures Knows(d, r, pcs[i])
  {
    if i > 0 {
      AloneKnows(d, r, pcs, i - 1);
      assert StepsAt(d, r, pcs, i - 1);
      StepKnows(d, r, pcs[i - 1], pcs[i]);
    }
  }

  /** Alone, slot by slot, the search finds what the naive search finds, unless that is a root being flushed,
      which the load would not take as final. */
  lemma AloneFindsLatest(d: State, r: Search, pcs: seq<Pc>, latest: Option<Found>)
    requires Alone(d, r, pcs) && IsLatest(d.cached, d.unflushed, d.flushing, r.key, r.ancestors, latest)
    ensures var pc := pcs[|pcs| - 1];
            && (pc.Answered? ==> latest == Some(pc.found))
            && (pc.Undecided? ==> latest.None? || latest.value.status == RootBeingFlushed)
  {
    AloneKnows(d, r, pcs, |pcs| - 1);
    if pcs[|pcs| - 1].Answered? {
      LatestIsUnique(d, r, pcs[|pcs| - 1].found, latest);
    } else if pcs[|pcs| - 1].Undecided? {
      NothingFinal(d, r, latest);
    }
  }

  lemma LatestIsUnique(d: State, r: Search, f: Found, latest: Option<Found>)
    requires IsLatest(d.cached, d.unflushed, d.flushing, r.key, r.ancestors, Some(f))
    requires IsLatest(d.cached, d.unflushed, d.flushing, r.key, r.ancestors, latest)
    ensures latest == Some(f)
  {
  }

  lemma NothingFinal(d: State, r: Search, latest: Option<Found>)
    requires NoneAbove(d, r, -1) && NoUnflushedAbove(d, r, -1)
    requires IsLatest(d.cached, d.unflushed, d.flushing, r.key, r.ancestors, latest)
    ensures latest.None? || latest.value.status == RootBeingFlushed
  {
    if latest.Some? && latest.value.slot >= 0 {
      assert latest.value.slot > -1;
    }
  }
}
