/** The retry loop of a load, interleaved with the steps of `ReaderProtocol`. */
module ReaderLoad {
  import opened Types
  import opened ReaderProtocol

  datatype Hint = FixedMaxRoot | Unspecified

  /** Where the reader is. `prev` is the location whose lookup failed last. A stored location is
      probed in the map of stores (0), the shrink-in-progress map (1) and the map again (2);
      `locked` lookups run while the index entry of the key is held. */
  datatype Pc =
    | Idle
    | ReadIndex(prev: Option<(Slot, Location)>)
    | Probing(slot: Slot, loc: Location, probe: nat, prev: Option<(Slot, Location)>, locked: bool)
    | Done(slot: Slot, account: Account)
    | Absent
    | Panicked

  /** `missed` remembers the slot of the first cache miss; no step depends on it. */
  datatype Reader = Reader(key: Pubkey, ancestors: set<Slot>, hint: Hint, limit: nat,
                           failures: nat, missed: Option<Slot>, pc: Pc)

  datatype System = System(db: Db, reader: Reader)

  ghost predicate Candidate(d: Db, r: Reader, s: Slot) {
    (r.key, s) in d.index && VisibleSlot(r.ancestors, d.roots, s)
  }

  /** The entry that the index returns: the newest visible one. */
  ghost predicate Newest(d: Db, r: Reader, s: Slot) {
    Candidate(d, r, s) && forall t: Slot | Candidate(d, r, t) :: t <= s
  }

  /** Same slot and same store id: the check for a bad index entry. */
  predicate SamePlace(prev: Option<(Slot, Location)>, slot: Slot, loc: Location) {
    && prev.Some? && prev.value.0 == slot
    && (prev.value.1.Cached? <==> loc.Cached?)
    && (loc.Stored? ==> prev.value.1.id == loc.id)
  }

  function AfterRead(r: Reader, prev: Option<(Slot, Location)>, slot: Slot, loc: Location): Reader {
    if prev.Some? && r.failures >= r.limit then r.(pc := Probing(slot, loc, 0, prev, true))
    else if SamePlace(prev, slot, loc) && loc.Stored? then r.(pc := Panicked)
    else r.(pc := Probing(slot, loc, 0, None, false))
  }

  function AfterFound(r: Reader, account: Account): Reader
    requires r.pc.Probing?
  {
    var Probing(slot, loc, _, prev, locked) := r.pc;
    if locked && SamePlace(prev, slot, loc) then
      if loc.Stored? then r.(pc := Panicked) else r.(pc := Probing(slot, loc, 0, None, false))
    else r.(pc := Done(slot, account))
  }

  function AfterMiss(r: Reader): Reader
    requires r.pc.Probing?
  {
    var Probing(slot, loc, _, _, locked) := r.pc;
    var counted := if loc.Cached? || r.hint.Unspecified? then 1 else 0;
    var r' := r.(failures := r.failures + counted, pc := ReadIndex(Some((slot, loc))),
                 missed := if loc.Cached? && r.missed.None? then Some(slot) else r.missed);
    if locked || (loc.Cached? && r.hint.FixedMaxRoot? && r'.failures > 1) then r'.(pc := Panicked) else r'
  }

  /** One access of the reader to a store: read the account, try the next map, or give up. */
  function AfterStore(r: Reader, found: bool, s: Store): Reader
    requires r.pc.Probing? && r.pc.loc.Stored?
  {
    if found then
      if r.pc.loc.offset in s.accounts && s.accounts[r.pc.loc.offset].0 == r.key
      then AfterFound(r, s.accounts[r.pc.loc.offset].1) else r.(pc := Panicked)
    else if r.pc.probe < 2 then r.(pc := r.pc.(probe := r.pc.probe + 1))
    else AfterMiss(r)
  }

  ghost function Probe(d: Db, r: Reader): Reader
    requires r.pc.Probing?
  {
    var slot, loc := r.pc.slot, r.pc.loc;
    if loc.Cached? then
      if slot in d.caches && r.key in d.caches[slot] then AfterFound(r, d.caches[slot][r.key]) else AfterMiss(r)
    else if r.pc.probe == 1 then
      if slot in d.shrinking then AfterStore(r, d.shrinking[slot].next.id == loc.id, d.shrinking[slot].next)
      else AfterStore(r, false, Store(0, map[]))
    else
      if slot in d.stores then AfterStore(r, d.stores[slot].id == loc.id, d.stores[slot])
      else AfterStore(r, false, Store(0, map[]))
  }

  /** With a fixed maximum root, the reader's bank descends from every root. */
  ghost predicate MayStart(d: Db, r: Reader) {
    r.hint.FixedMaxRoot? ==> forall t | t in d.roots :: VisibleSlot(r.ancestors, d.roots, t)
  }

  ghost predicate ReaderStep(d: Db, r: Reader, r': Reader) {
    match r.pc
    case Idle => MayStart(d, r) && r' == r.(pc := ReadIndex(None))
    case ReadIndex(prev) =>
      || (exists s: Slot :: Newest(d, r, s) && r' == AfterRead(r, prev, s, d.index[(r.key, s)]))
      || ((forall s: Slot :: !Candidate(d, r, s)) && r' == r.(pc := Absent))
    case Probing(_, _, _, _, _) => r' == Probe(d, r)
    case _ => false
  }

  predicate WritesEntry(step: Step, key: Pubkey) {
    match step
    case Bank(b) => b.CacheIndex? && b.key == key
    case Flush(f) => (f.FlushPurge? || f.FlushIndex?) && f.key == key
    case Shrink(j) => (j.ShrinkIndex? || j.ShrinkPurge?) && j.key == key
    case Clean(c) => c.CleanKey? && c.key == key
  }

  /** Background steps wait for the index lock; no root is added while a load relies on that. */
  ghost predicate Allowed(r: Reader, step: Step) {
    && (r.pc.Probing? && r.pc.locked ==> !WritesEntry(step, r.key))
    && (r.hint.FixedMaxRoot? && !r.pc.Idle? ==> !(step.Bank? && step.bank.AddRoot?))
  }

  ghost predicate Next(s: System, s': System) {
    || s' == s
    || (s'.db == s.db && ReaderStep(s.db, s.reader, s'.reader))
    || (exists step :: Enabled(s.db, step) && Allowed(s.reader, step) && s' == System(Apply(s.db, step), s.reader))
  }

  ghost predicate Starts(s: System) {
    Init(s.db) && s.reader.pc == Idle && s.reader.failures == 0 && s.reader.missed.None?
  }

  ghost predicate Run(states: seq<System>) {
    |states| > 0 && Starts(states[0]) && forall i: nat :: NextAt(states, i)
  }

  ghost predicate NextAt(states: seq<System>, i: nat) { i + 1 < |states| ==> Next(states[i], states[i + 1]) }

  // ---- The invariant of the reader ----

  /** The index has left the place whose lookup failed, for good. */
  ghost predicate Left(d: Db, key: Pubkey, slot: Slot, loc: Location) {
    && slot in d.roots
    && (loc.Cached? ==> slot !in d.caches)
    && (loc.Stored? && (key, slot) in d.index ==> d.index[(key, slot)].Stored? && d.index[(key, slot)].id > loc.id)
  }

  /** Wherever a store with the id of the location is found, it holds the version. */
  ghost predicate Carries(d: Db, key: Pubkey, slot: Slot, loc: Location)
    requires loc.Stored?
  {
    && (slot in d.stores && d.stores[slot].id == loc.id ==> Holds(d, d.stores[slot], loc.offset, key, slot))
    && (slot in d.shrinking && d.shrinking[slot].next.id == loc.id ==>
          Holds(d, d.shrinking[slot].next, loc.offset, key, slot))
  }

  ghost predicate ProbingSound(d: Db, key: Pubkey, pc: Pc)
    requires pc.Probing?
  {
    var Probing(slot, loc, probe, prev, locked) := pc;
    && probe <= 2
    && (prev.Some? ==> Left(d, key, prev.value.0, prev.value.1))
    && (locked ==> Indexed(d, key, slot, loc))
    && (loc.Cached? ==> (slot in d.roots && slot !in d.caches) || (slot in d.caches && key in d.caches[slot]))
    && (loc.Stored? ==>
          && slot in d.roots && loc.id < d.nextId && Carries(d, key, slot, loc)
          && ((key, slot) in d.index ==> Later(loc, d.index[(key, slot)]))
          && (probe == 2 && Names(d, key, slot, loc.id) ==> slot in d.stores && d.stores[slot].id == loc.id))
  }

  ghost predicate ReaderSound(d: Db, r: Reader) {
    match r.pc
    case Idle => r.failures == 0
    case ReadIndex(prev) => prev.Some? ==> Left(d, r.key, prev.value.0, prev.value.1)
    case Probing(_, _, _, _, _) => ProbingSound(d, r.key, r.pc)
    case Done(_, _) => true
    case Absent => true
    case Panicked => false
  }

  ghost predicate NoNewerRoot(d: Db, key: Pubkey, v: Slot) {
    forall u | u in d.roots && (key, u) in d.index :: u <= v
  }

  /** No rooted entry is newer than `v`, and the cached ones are hidden behind an entry of `v`. */
  ghost predicate Shadows(d: Db, key: Pubkey, v: Slot) {
    && NoNewerRoot(d, key, v)
    && (forall u | u in d.roots && Indexed(d, key, u, Cached) :: (key, v) in d.index)
  }

  ghost predicate FixedRootSound(d: Db, r: Reader) {
    r.hint.FixedMaxRoot? && !r.pc.Idle? ==>
      && MayStart(d, r)
      && (r.missed.None? ==> r.failures == 0)
      && (r.missed.Some? ==> r.failures == 1 && r.missed.value in d.roots && r.missed.value !in d.caches
                             && Shadows(d, r.key, r.missed.value))
      && (r.pc.Probing? && r.pc.loc.Cached? && r.pc.slot in d.roots ==>
            r.missed.None? && Shadows(d, r.key, r.pc.slot))
      && (r.pc.Probing? || r.pc.Done? ==> NoNewerRoot(d, r.key, r.pc.slot))
  }

  ghost predicate SystemInv(s: System) {
    Inv(s.db) && ReaderSound(s.db, s.reader) && FixedRootSound(s.db, s.reader)
      && (s.reader.pc.Idle? ==> s.reader.missed.None?)
  }

  // ---- Background steps keep it ----

  lemma HoldsEvolves(d: Db, d': Db, key: Pubkey, slot: Slot, loc: Location)
    requires Evolves(d, d', key) && slot in d.roots && loc.Stored? && loc.id < d.nextId && Carries(d, key, slot, loc)
    ensures Carries(d', key, slot, loc)
  {
  }

  lemma EvolvesKeepsReader(d: Db, d': Db, r: Reader)
    requires Evolves(d, d', r.key) && ReaderSound(d, r)
    requires r.pc.Probing? && r.pc.locked ==> Indexed(d', r.key, r.pc.slot, r.pc.loc)
    ensures ReaderSound(d', r)
  {
    if r.pc.Probing? && r.pc.loc.Stored? {
      HoldsEvolves(d, d', r.key, r.pc.slot, r.pc.loc);
    }
  }

  lemma EvolvesKeepsShadow(d: Db, d': Db, key: Pubkey, v: Slot)
    requires Evolves(d, d', key) && d'.roots == d.roots && v in d.roots && Shadows(d, key, v)
    ensures Shadows(d', key, v)
  {
    assert ShadowKept(d, d', key, v);
  }

  lemma EvolvesKeepsNoNewerRoot(d: Db, d': Db, key: Pubkey, v: Slot)
    requires Evolves(d, d', key) && d'.roots == d.roots && NoNewerRoot(d, key, v)
    ensures NoNewerRoot(d', key, v)
  {
  }

  lemma EvolvesKeepsFixedRoot(d: Db, d': Db, r: Reader)
    requires Evolves(d, d', r.key) && FixedRootSound(d, r)
    requires r.hint.FixedMaxRoot? && !r.pc.Idle? ==> d'.roots == d.roots
    ensures FixedRootSound(d', r)
  {
    if r.hint.FixedMaxRoot? && !r.pc.Idle? {
      if r.missed.Some? {
        EvolvesKeepsShadow(d, d', r.key, r.missed.value);
      }
      if r.pc.Probing? && r.pc.loc.Cached? && r.pc.slot in d.roots {
        EvolvesKeepsShadow(d, d', r.key, r.pc.slot);
      }
      if r.pc.Probing? || r.pc.Done? {
        EvolvesKeepsNoNewerRoot(d, d', r.key, r.pc.slot);
      }
    }
  }

  ghost predicate SameEntries(d: Db, d': Db, key: Pubkey) {
    forall s: Slot | (key, s) in d.index :: (key, s) in d'.index && d'.index[(key, s)] == d.index[(key, s)]
  }

  lemma BankSameEntries(d: Db, step: BankStep, key: Pubkey)
    requires EnabledBank(d, step) && !WritesEntry(Bank(step), key)
    ensures SameEntries(d, ApplyBank(d, step), key) && (!step.AddRoot? ==> ApplyBank(d, step).roots == d.roots)
  {
  }

  lemma FlushSameEntries(d: Db, step: FlushStep, key: Pubkey)
    requires EnabledFlush(d, step)
    ensures !WritesEntry(Flush(step), key) ==> SameEntries(d, ApplyFlush(d, step), key)
    ensures ApplyFlush(d, step).roots == d.roots
  {
  }

  lemma ShrinkSameEntries(d: Db, step: ShrinkStep, key: Pubkey)
    requires EnabledShrink(d, step)
    ensures !WritesEntry(Shrink(step), key) ==> SameEntries(d, ApplyShrink(d, step), key)
    ensures ApplyShrink(d, step).roots == d.roots
  {
  }

  lemma CleanSameEntries(d: Db, step: CleanStep, key: Pubkey)
    requires EnabledClean(d, step)
    ensures !WritesEntry(Clean(step), key) ==> SameEntries(d, ApplyClean(d, step), key)
    ensures ApplyClean(d, step).roots == d.roots
  {
  }

  /** Steps that do not write the key's entries leave them alone, and only a new root changes the roots. */
  lemma OnlyWritersWrite(d: Db, step: Step, key: Pubkey)
    requires Enabled(d, step)
    ensures !WritesEntry(step, key) ==> SameEntries(d, Apply(d, step), key)
    ensures !(step.Bank? && step.bank.AddRoot?) ==> Apply(d, step).roots == d.roots
  {
    match step
    case Bank(b) => if !WritesEntry(step, key) { BankSameEntries(d, b, key); }
    case Flush(f) => FlushSameEntries(d, f, key);
    case Shrink(j) => ShrinkSameEntries(d, j, key);
    case Clean(c) => CleanSameEntries(d, c, key);
  }

  lemma BackgroundStepKeeps(s: System, step: Step)
    requires SystemInv(s) && Enabled(s.db, step) && Allowed(s.reader, step)
    ensures SystemInv(System(Apply(s.db, step), s.reader))
  {
    StepKeepsInv(s.db, step);
    StepEvolves(s.db, step, s.reader.key);
    OnlyWritersWrite(s.db, step, s.reader.key);
    EvolvesKeepsReader(s.db, Apply(s.db, step), s.reader);
    EvolvesKeepsFixedRoot(s.db, Apply(s.db, step), s.reader);
  }

  // ---- The reader's own steps keep it ----

  /** With a fixed root, a first cache miss rules out another cached entry that could be flushed. */
  lemma NewestShadows(d: Db, r: Reader, s: Slot)
    requires Newest(d, r, s) && MayStart(d, r) && r.hint.FixedMaxRoot? && IndexBacked(d)
    ensures Shadows(d, r.key, s)
    ensures forall v | v in d.roots && v !in d.caches && Shadows(d, r.key, v) && s in d.roots :: !Indexed(d, r.key, s, Cached)
  {
    forall u | u in d.roots && (r.key, u) in d.index ensures u <= s {
      assert Candidate(d, r, u);
    }
    if Indexed(d, r.key, s, Cached) {
      assert EntryBacked(d, r.key, s);
    }
  }

  lemma ReadKeepsReader(d: Db, r: Reader, s: Slot)
    requires IndexBacked(d) && IdsFresh(d) && StoresSound(d) && ShrinksSound(d)
    requires ReaderSound(d, r) && r.pc.ReadIndex? && Newest(d, r, s)
    ensures ReaderSound(d, AfterRead(r, r.pc.prev, s, d.index[(r.key, s)]))
  {
    assert EntryBacked(d, r.key, s);
  }

  lemma ReadKeepsFixedRoot(d: Db, r: Reader, s: Slot)
    requires IndexBacked(d) && FixedRootSound(d, r) && r.pc.ReadIndex? && Newest(d, r, s)
    ensures FixedRootSound(d, AfterRead(r, r.pc.prev, s, d.index[(r.key, s)]))
  {
    if r.hint.FixedMaxRoot? {
      NewestShadows(d, r, s);
    }
  }

  lemma ReadKeeps(d: Db, r: Reader, s: Slot)
    requires SystemInv(System(d, r)) && r.pc.ReadIndex? && Newest(d, r, s)
    ensures SystemInv(System(d, AfterRead(r, r.pc.prev, s, d.index[(r.key, s)])))
  {
    ReadKeepsReader(d, r, s);
    ReadKeepsFixedRoot(d, r, s);
  }

  lemma CacheProbeKeeps(d: Db, r: Reader)
    requires IndexBacked(d) && ReaderSound(d, r) && FixedRootSound(d, r) && r.pc.Probing? && r.pc.loc.Cached?
    ensures ReaderSound(d, Probe(d, r)) && FixedRootSound(d, Probe(d, r))
  {
    assert r.pc.locked ==> EntryBacked(d, r.key, r.pc.slot);
  }

  /** The three probes cannot miss a store that the index still names: probe 1 leaves only the map
      of stores for it, where it stays until the index leaves it. */
  lemma FailedLookupMeansIndexLeft(d: Db, key: Pubkey, pc: Pc)
    requires pc.Probing? && pc.loc.Stored? && pc.probe == 2 && ProbingSound(d, key, pc)
    requires !(pc.slot in d.stores && d.stores[pc.slot].id == pc.loc.id)
    ensures Left(d, key, pc.slot, pc.loc) && !Names(d, key, pc.slot, pc.loc.id) && !pc.locked
  {
  }

  lemma StoreProbeKeepsFixedRoot(d: Db, r: Reader)
    requires FixedRootSound(d, r) && r.pc.Probing? && r.pc.loc.Stored?
    ensures FixedRootSound(d, Probe(d, r))
  {
  }

  lemma StoreProbeKeeps(d: Db, r: Reader)
    requires IndexBacked(d) && ReaderSound(d, r) && r.pc.Probing? && r.pc.loc.Stored?
    ensures ReaderSound(d, Probe(d, r))
  {
    if (r.key, r.pc.slot) in d.index {
      assert EntryBacked(d, r.key, r.pc.slot);
    }
    if r.pc.probe == 2 && !(r.pc.slot in d.stores && d.stores[r.pc.slot].id == r.pc.loc.id) {
      FailedLookupMeansIndexLeft(d, r.key, r.pc);
    }
  }

  lemma ReaderStepKeeps(d: Db, r: Reader, r': Reader)
    requires SystemInv(System(d, r)) && ReaderStep(d, r, r')
    ensures SystemInv(System(d, r'))
  {
    if r.pc.ReadIndex? {
      if s: Slot :| Newest(d, r, s) && r' == AfterRead(r, r.pc.prev, s, d.index[(r.key, s)]) {
        ReadKeeps(d, r, s);
      }
    } else if r.pc.Probing? {
      if r.pc.loc.Cached? {
        CacheProbeKeeps(d, r);
      } else {
        StoreProbeKeeps(d, r);
        StoreProbeKeepsFixedRoot(d, r);
      }
    }
  }

  lemma NextKeeps(s: System, s': System)
    requires SystemInv(s) && Next(s, s')
    ensures SystemInv(s')
  {
    if s' == s {
      return;
    }
    if s'.db == s.db && ReaderStep(s.db, s.reader, s'.reader) {
      ReaderStepKeeps(s.db, s.reader, s'.reader);
    } else {
      var step :| Enabled(s.db, step) && Allowed(s.reader, step) && s' == System(Apply(s.db, step), s.reader);
      BackgroundStepKeeps(s, step);
    }
  }

  // ---- Over whole runs ----

  lemma {:induction false} RunKeepsInvariant(states: seq<System>, i: nat)
    requires Run(states) && i < |states|
    ensures SystemInv(states[i])
  {
    if i > 0 {
      RunKeepsInvariant(states, i - 1);
      assert NextAt(states, i - 1);
      NextKeeps(states[i - 1], states[i]);
    }
  }

  /** No interleaving reaches a panic of the retry loop: not the bad-index-entry check, not the
      bound of one cache miss under a fixed maximum root, not a failed lookup under the index lock,
      and not a store without the account. Under a fixed maximum root no root holds a version newer
      than the one being loaded. */
  lemma LoadNeverPanics(states: seq<System>, i: nat)
    requires Run(states) && i < |states|
    ensures var r := states[i].reader;
            && !r.pc.Panicked?
            && (r.hint.FixedMaxRoot? ==> r.failures <= 1)
            && (r.hint.FixedMaxRoot? && (r.pc.Probing? || r.pc.Done?) ==> NoNewerRoot(states[i].db, r.key, r.pc.slot))
  {
    RunKeepsInvariant(states, i);
  }

  lemma ReaderMoved(s: System, s': System)
    requires Next(s, s') && s'.reader != s.reader
    ensures s'.db == s.db && ReaderStep(s.db, s.reader, s'.reader)
  {
  }

  lemma ProbeReturnsTheVersion(d: Db, r: Reader, r': Reader)
    requires CachesSound(d) && ReaderSound(d, r) && ReaderStep(d, r, r') && r'.pc.Done?
    ensures r.pc.Probing? && r'.pc.slot == r.pc.slot && r'.key == r.key
    ensures (r.key, r'.pc.slot) in d.versions && r'.pc.account == d.versions[(r.key, r'.pc.slot)]
  {
  }

  /** The slot that the reader is looking up or has loaded. */
  ghost predicate At(r: Reader, slot: Slot) { (r.pc.Probing? || r.pc.Done?) && r.pc.slot == slot }

  lemma SlotComesFromIndex(d: Db, r: Reader, r': Reader, slot: Slot)
    requires ReaderStep(d, r, r') && At(r', slot)
    ensures r'.key == r.key && r'.ancestors == r.ancestors
    ensures At(r, slot) || (r.pc.ReadIndex? && Newest(d, r, slot))
  {
  }

  /** The slot was the newest visible one when the index was last read, and it has not changed since. */
  lemma {:induction false} IndexReadNamedSlot(states: seq<System>, i: nat, slot: Slot) returns (j: nat)
    requires Run(states) && i < |states| && At(states[i].reader, slot)
    ensures j < i && states[j].reader.pc.ReadIndex? && Newest(states[j].db, states[j].reader, slot)
    ensures states[j].reader.key == states[i].reader.key && forall k | j < k <= i :: At(states[k].reader, slot)
  {
    assert NextAt(states, i - 1);
    var s, s' := states[i - 1], states[i];
    if s'.reader != s.reader {
      ReaderMoved(s, s');
      SlotComesFromIndex(s.db, s.reader, s'.reader, slot);
    }
    if At(s.reader, slot) {
      j := IndexReadNamedSlot(states, i - 1, slot);
    } else {
      j := i - 1;
    }
  }

  /** A load that returns, returns the current account of the version that its last read of the index,
      at state `j`, named as the newest visible one. */
  lemma LoadReturnsTheVersion(states: seq<System>, i: nat) returns (j: nat)
    requires Run(states) && i + 1 < |states| && !states[i].reader.pc.Done? && states[i + 1].reader.pc.Done?
    ensures var r, d := states[i + 1].reader, states[i + 1].db;
            && (r.key, r.pc.slot) in d.versions && r.pc.account == d.versions[(r.key, r.pc.slot)]
            && j <= i && states[j].reader.pc.ReadIndex? && Newest(states[j].db, states[j].reader, r.pc.slot)
            && states[j].reader.key == r.key && forall k | j < k <= i + 1 :: At(states[k].reader, r.pc.slot)
  {
    RunKeepsInvariant(states, i);
    assert NextAt(states, i);
    ReaderMoved(states[i], states[i + 1]);
    ProbeReturnsTheVersion(states[i].db, states[i].reader, states[i + 1].reader);
    j := IndexReadNamedSlot(states, i + 1, states[i + 1].reader.pc.slot);
  }

  /** The reader looks the slot up at the location, or has loaded it. */
  ghost predicate Holding(r: Reader, slot: Slot, loc: Location) {
    (r.pc.Probing? && r.pc.slot == slot && r.pc.loc == loc) || (r.pc.Done? && r.pc.slot == slot)
  }

  lemma StepKeepsPlace(d: Db, r: Reader, r': Reader, slot: Slot, loc: Location)
    requires ReaderStep(d, r, r') && At(r', slot)
    requires Holding(r, slot, loc) || (r.pc.ReadIndex? && Newest(d, r, slot) && d.index[(r.key, slot)] == loc)
    ensures Holding(r', slot, loc)
  {
  }

  /** From the index read on, the reader keeps to the place that the index named. */
  lemma {:induction false} PlaceKept(states: seq<System>, j: nat, k: nat, slot: Slot)
    requires Run(states) && j < k < |states| && states[j].reader.pc.ReadIndex? && Newest(states[j].db, states[j].reader, slot)
    requires forall m | j < m <= k :: At(states[m].reader, slot)
    ensures Holding(states[k].reader, slot, states[j].db.index[(states[j].reader.key, slot)])
  {
    if k > j + 1 {
      PlaceKept(states, j, k - 1, slot);
    }
    assert NextAt(states, k - 1);
    var s, s' := states[k - 1], states[k];
    if s'.reader != s.reader {
      ReaderMoved(s, s');
      StepKeepsPlace(s.db, s.reader, s'.reader, slot, states[j].db.index[(states[j].reader.key, slot)]);
    }
  }

  /** A load that has ended stays where it is. */
  lemma {:induction false} NotDoneBefore(states: seq<System>, m: nat, k: nat)
    requires Run(states) && m <= k < |states| && !states[k].reader.pc.Done?
    ensures !states[m].reader.pc.Done?
    decreases k - m
  {
    if m < k {
      NotDoneBefore(states, m + 1, k);
      assert NextAt(states, m);
    }
  }

  /** After a failed lookup the index has moved on, so the next read returns another place. */
  lemma RetrySeesAnotherPlace(states: seq<System>, i: nat, s: Slot)
    requires Run(states) && i < |states| && states[i].reader.pc.ReadIndex? && Newest(states[i].db, states[i].reader, s)
    ensures !SamePlace(states[i].reader.pc.prev, s, states[i].db.index[(states[i].reader.key, s)])
  {
    RunKeepsInvariant(states, i);
    assert EntryBacked(states[i].db, states[i].reader.key, s);
  }
}
