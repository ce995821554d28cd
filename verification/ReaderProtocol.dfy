/** A reader racing with cache flushes, shrinks and cleans.

    The database is shared state; every step below is one atomic access of the source to one
    shared structure (index entry, map of caches, map of stores, shrink-in-progress map), and the
    steps of the reader and of the background service interleave freely. The background service
    runs its own jobs one after the other, except that several slots may shrink at once. */
module ReaderProtocol {
  import opened Types

  type StoreId = nat
  type Offset = nat

  datatype Location = Cached | Stored(id: StoreId, offset: Offset)

  /** An append vec: accounts are only ever added, at fresh offsets. */
  datatype Store = Store(id: StoreId, accounts: map<Offset, (Pubkey, Account)>)

  /** A slot leaving the write cache. `purge` and `todo` are the superseded and the kept keys whose
      index entries have not been visited yet; `unwritten` are the keys not yet in the store. */
  datatype FlushJob = FlushJob(slot: Slot, purge: set<Pubkey>, unwritten: set<Pubkey>, todo: set<Pubkey>, created: bool)

  /** A slot being rewritten into `next`, which readers find in the shrink-in-progress map. */
  datatype ShrinkJob = ShrinkJob(oldId: StoreId, next: Store, purge: set<Pubkey>, unwritten: set<Pubkey>,
                                 todo: set<Pubkey>, swapped: bool)

  datatype Db = Db(
    index: map<(Pubkey, Slot), Location>,
    caches: map<Slot, map<Pubkey, Account>>,
    stores: map<Slot, Store>,
    shrinking: map<Slot, ShrinkJob>,
    flush: Option<FlushJob>,
    roots: set<Slot>,
    nextId: StoreId,
    // The account last written as each version. No operation reads it: results are judged by it.
    versions: map<(Pubkey, Slot), Account>)

  /** Banks write to slots that are not rooted yet, and root them. */
  datatype BankStep =
    | CacheWrite(slot: Slot, key: Pubkey, account: Account)
    | CacheIndex(slot: Slot, key: Pubkey)
    | AddRoot(slot: Slot)

  datatype FlushStep =
    | FlushBegin(slot: Slot, purge: set<Pubkey>)
    | FlushPurge(key: Pubkey)
    | FlushCreate
    | FlushWrite(key: Pubkey, offset: Offset)
    | FlushIndex(key: Pubkey, offset: Offset, reclaimed: set<Slot>)
    | FlushEnd

  datatype ShrinkStep =
    | ShrinkBegin(slot: Slot, purge: set<Pubkey>)
    | ShrinkWrite(slot: Slot, key: Pubkey, from: Offset, offset: Offset)
    | ShrinkIndex(slot: Slot, key: Pubkey, offset: Offset)
    | ShrinkPurge(slot: Slot, key: Pubkey)
    | ShrinkSwap(slot: Slot)
    | ShrinkEnd(slot: Slot)

  datatype CleanStep =
    | CleanKey(key: Pubkey, slots: set<Slot>)
    | DropStore(slot: Slot)

  datatype Step = Bank(bank: BankStep) | Flush(job: FlushStep) | Shrink(shrink: ShrinkStep) | Clean(clean: CleanStep)

  ghost predicate Names(d: Db, key: Pubkey, slot: Slot, id: StoreId) {
    (key, slot) in d.index && d.index[(key, slot)].Stored? && d.index[(key, slot)].id == id
  }

  ghost predicate Indexed(d: Db, key: Pubkey, slot: Slot, loc: Location) {
    (key, slot) in d.index && d.index[(key, slot)] == loc
  }

  /** The keys with an entry for `slot` in the store `id`: the alive accounts of that store. */
  ghost function AliveKeys(d: Db, slot: Slot, id: StoreId): set<Pubkey> {
    set e | e in d.index && e.1 == slot && d.index[e].Stored? && d.index[e].id == id :: e.0
  }

  ghost predicate HasNewerRoot(d: Db, key: Pubkey, slot: Slot) {
    exists t :: t in d.roots && slot < t && (key, t) in d.index
  }

  ghost function RootedUpTo(d: Db, key: Pubkey, bound: Slot): set<Slot> {
    set e | e in d.index && e.0 == key && e.1 in d.roots && e.1 <= bound :: e.1
  }

  /** Clean removes entries of stored slots: either older ones, below a newer rooted entry that
      stays, or the whole rooted history up to a bound when the newest of it has no lamports. */
  ghost predicate Cleanable(d: Db, key: Pubkey, slots: set<Slot>) {
    && (forall s | s in slots :: (key, s) in d.index && d.index[(key, s)].Stored?)
    && (|| (exists t :: t in d.roots && t !in slots && (key, t) in d.index && forall s | s in slots :: s < t)
        || (exists bound: Slot :: slots == RootedUpTo(d, key, bound)))
  }

  /** What program order, the bank life cycle and the serial background service allow. That no shrink
      runs when a flush or a clean begins or a store is dropped, and that a shrink begins on a slot
      that has a store and no other shrink, is the assumption that the service is serial; the source
      asserts it as well. Its other assertions are not guards: `FlushAssertionsHold` and `ShrinkAssertionsHold` prove them. */
  ghost predicate EnabledBank(d: Db, step: BankStep) {
    match step
    case CacheWrite(slot, key, account) => slot !in d.roots
    case CacheIndex(slot, key) => slot !in d.roots && slot in d.caches && key in d.caches[slot]
    case AddRoot(slot) =>
      && (forall r | r in d.roots :: r < slot)
      && (slot in d.caches ==> forall k | k in d.caches[slot] :: (k, slot) in d.index)
  }

  ghost predicate EnabledFlush(d: Db, step: FlushStep) {
    match step
    case FlushBegin(slot, purge) =>
      && d.flush.None? && d.shrinking == map[] && slot in d.roots && slot in d.caches
      && purge <= d.caches[slot].Keys
      && forall k | k in purge :: HasNewerRoot(d, k, slot)
    case FlushPurge(key) => d.flush.Some? && !d.flush.value.created && key in d.flush.value.purge
    case FlushCreate =>
      d.flush.Some? && !d.flush.value.created && d.flush.value.purge == {} && d.flush.value.todo != {}
    case FlushWrite(key, offset) =>
      && d.flush.Some? && d.flush.value.created && key in d.flush.value.unwritten
      && d.flush.value.slot in d.caches && key in d.caches[d.flush.value.slot]
      && d.flush.value.slot in d.stores && offset !in d.stores[d.flush.value.slot].accounts
    case FlushIndex(key, offset, reclaimed) =>
      && d.flush.Some? && d.flush.value.created && d.flush.value.unwritten == {} && key in d.flush.value.todo
      && d.flush.value.slot in d.stores && offset in d.stores[d.flush.value.slot].accounts
      && d.stores[d.flush.value.slot].accounts[offset].0 == key
      && forall s | s in reclaimed ::
           s < d.flush.value.slot && (key, s) in d.index && d.index[(key, s)].Stored?
    case FlushEnd => d.flush.Some? && d.flush.value.purge == {} && d.flush.value.todo == {}
  }

  ghost predicate EnabledShrink(d: Db, step: ShrinkStep) {
    match step
    case ShrinkBegin(slot, purge) =>
      && d.flush.None? && slot in d.stores && slot !in d.shrinking && slot !in d.caches
      && purge <= AliveKeys(d, slot, d.stores[slot].id)
      && forall k, s | k in purge && (k, s) in d.index :: s == slot
    case ShrinkWrite(slot, key, from, offset) =>
      && slot in d.shrinking && key in d.shrinking[slot].unwritten
      && slot in d.stores && from in d.stores[slot].accounts && d.stores[slot].accounts[from].0 == key
      && offset !in d.shrinking[slot].next.accounts
    case ShrinkIndex(slot, key, offset) =>
      && slot in d.shrinking && d.shrinking[slot].unwritten == {} && key in d.shrinking[slot].todo
      && offset in d.shrinking[slot].next.accounts && d.shrinking[slot].next.accounts[offset].0 == key
    case ShrinkPurge(slot, key) =>
      slot in d.shrinking && key in d.shrinking[slot].purge
    case ShrinkSwap(slot) =>
      slot in d.shrinking && !d.shrinking[slot].swapped && d.shrinking[slot].todo == {} && d.shrinking[slot].purge == {}
    case ShrinkEnd(slot) => slot in d.shrinking && d.shrinking[slot].swapped
  }

  ghost predicate EnabledClean(d: Db, step: CleanStep) {
    match step
    case CleanKey(key, slots) => d.flush.None? && d.shrinking == map[] && Cleanable(d, key, slots)
    case DropStore(slot) =>
      && slot in d.stores && d.shrinking == map[] && (d.flush.Some? ==> d.flush.value.slot != slot)
      && AliveKeys(d, slot, d.stores[slot].id) == {}
  }

  ghost predicate Enabled(d: Db, step: Step) {
    match step
    case Bank(b) => EnabledBank(d, b)
    case Flush(f) => EnabledFlush(d, f)
    case Shrink(j) => EnabledShrink(d, j)
    case Clean(c) => EnabledClean(d, c)
  }

  function StoreAt(s: Store, offset: Offset, key: Pubkey, account: Account): Store {
    s.(accounts := s.accounts[offset := (key, account)])
  }

  // The effect of one step. Steps of a job also advance the job itself.

  ghost function ApplyBank(d: Db, step: BankStep): Db
    requires EnabledBank(d, step)
  {
    match step
    case CacheWrite(slot, key, account) =>
      var prior := if slot in d.caches then d.caches[slot] else map[];
      d.(caches := d.caches[slot := prior[key := account]], versions := d.versions[(key, slot) := account])
    case CacheIndex(slot, key) => d.(index := d.index[(key, slot) := Cached])
    case AddRoot(slot) => d.(roots := d.roots + {slot})
  }

  ghost function ApplyFlush(d: Db, step: FlushStep): Db
    requires EnabledFlush(d, step)
  {
    match step
    case FlushBegin(slot, purge) =>
      var keep := d.caches[slot].Keys - purge;
      d.(flush := Some(FlushJob(slot, purge, keep, keep, false)))
    case FlushPurge(key) =>
      var f := d.flush.value;
      d.(index := d.index - {(key, f.slot)}, flush := Some(f.(purge := f.purge - {key})))
    case FlushCreate =>
      var f := d.flush.value;
      d.(stores := d.stores[f.slot := Store(d.nextId, map[])], nextId := d.nextId + 1,
         flush := Some(f.(created := true)))
    case FlushWrite(key, offset) =>
      var f := d.flush.value;
      d.(stores := d.stores[f.slot := StoreAt(d.stores[f.slot], offset, key, d.caches[f.slot][key])],
         flush := Some(f.(unwritten := f.unwritten - {key})))
    case FlushIndex(key, offset, reclaimed) =>
      var f := d.flush.value;
      var older := set s | s in reclaimed :: (key, s);
      d.(index := (d.index - older)[(key, f.slot) := Stored(d.stores[f.slot].id, offset)],
         flush := Some(f.(todo := f.todo - {key})))
    case FlushEnd => d.(caches := d.caches - {d.flush.value.slot}, flush := None)
  }

  ghost function ApplyShrink(d: Db, step: ShrinkStep): Db
    requires EnabledShrink(d, step)
  {
    match step
    case ShrinkBegin(slot, purge) =>
      var oldId := d.stores[slot].id;
      var keep := AliveKeys(d, slot, oldId) - purge;
      d.(shrinking := d.shrinking[slot := ShrinkJob(oldId, Store(d.nextId, map[]), purge, keep, keep, false)],
         nextId := d.nextId + 1)
    case ShrinkWrite(slot, key, from, offset) =>
      var j := d.shrinking[slot];
      d.(shrinking := d.shrinking[slot := j.(next := StoreAt(j.next, offset, key, d.stores[slot].accounts[from].1),
                                             unwritten := j.unwritten - {key})])
    case ShrinkIndex(slot, key, offset) =>
      var j := d.shrinking[slot];
      d.(index := d.index[(key, slot) := Stored(j.next.id, offset)],
         shrinking := d.shrinking[slot := j.(todo := j.todo - {key})])
    case ShrinkPurge(slot, key) =>
      var j := d.shrinking[slot];
      d.(index := d.index - {(key, slot)}, shrinking := d.shrinking[slot := j.(purge := j.purge - {key})])
    case ShrinkSwap(slot) =>
      var j := d.shrinking[slot];
      d.(stores := d.stores[slot := j.next], shrinking := d.shrinking[slot := j.(swapped := true)])
    case ShrinkEnd(slot) => d.(shrinking := d.shrinking - {slot})
  }

  ghost function ApplyClean(d: Db, step: CleanStep): Db
    requires EnabledClean(d, step)
  {
    match step
    case CleanKey(key, slots) =>
      var gone := set s | s in slots :: (key, s);
      d.(index := d.index - gone)
    case DropStore(slot) => d.(stores := d.stores - {slot})
  }

  ghost function Apply(d: Db, step: Step): Db
    requires Enabled(d, step)
  {
    match step
    case Bank(b) => ApplyBank(d, b)
    case Flush(f) => ApplyFlush(d, f)
    case Shrink(j) => ApplyShrink(d, j)
    case Clean(c) => ApplyClean(d, c)
  }

  // ---- What every reachable database satisfies ----

  /** `s` holds, at `offset`, the current account of version (`key`, `slot`). */
  ghost predicate Holds(d: Db, s: Store, offset: Offset, key: Pubkey, slot: Slot) {
    && offset in s.accounts && (key, slot) in d.versions
    && s.accounts[offset] == (key, d.versions[(key, slot)])
  }

  /** A stored entry is found in the map of stores or in the shrink-in-progress map. */
  ghost predicate Backed(d: Db, key: Pubkey, slot: Slot, id: StoreId, offset: Offset) {
    || (slot in d.stores && d.stores[slot].id == id && Holds(d, d.stores[slot], offset, key, slot))
    || (slot in d.shrinking && d.shrinking[slot].next.id == id && Holds(d, d.shrinking[slot].next, offset, key, slot))
  }

  ghost predicate CachesSound(d: Db) {
    forall s, k | s in d.caches && k in d.caches[s] ::
      (k, s) in d.versions && d.caches[s][k] == d.versions[(k, s)]
  }

  ghost predicate EntryBacked(d: Db, k: Pubkey, s: Slot)
    requires (k, s) in d.index
  {
    match d.index[(k, s)]
    case Cached => s in d.caches && k in d.caches[s]
    case Stored(id, offset) => s in d.roots && Backed(d, k, s, id, offset)
  }

  ghost predicate IndexBacked(d: Db) {
    forall k, s | (k, s) in d.index :: EntryBacked(d, k, s)
  }

  ghost predicate IdsFresh(d: Db) {
    && (forall s | s in d.stores :: d.stores[s].id < d.nextId && s in d.roots)
    && (forall s | s in d.shrinking :: d.shrinking[s].next.id < d.nextId)
  }

  /** All that is stored in a store is the current account of its version. */
  ghost predicate StoresSound(d: Db) {
    && (forall s, o | s in d.stores && o in d.stores[s].accounts :: Holds(d, d.stores[s], o, d.stores[s].accounts[o].0, s))
    && (forall s, o | s in d.shrinking && o in d.shrinking[s].next.accounts ::
          Holds(d, d.shrinking[s].next, o, d.shrinking[s].next.accounts[o].0, s))
  }

  ghost predicate FlushSound(d: Db) {
    d.flush.Some? ==>
      var f := d.flush.value;
      && d.shrinking == map[] && f.slot in d.roots && f.slot in d.caches
      && f.purge !! f.todo && f.unwritten <= f.todo && f.todo <= d.caches[f.slot].Keys
      && (f.created <==> f.slot in d.stores)
      && (f.created ==> f.purge == {})
      && (forall k | k in f.purge || k in f.todo :: Indexed(d, k, f.slot, Cached))
      && (forall k | Indexed(d, k, f.slot, Cached) :: k in f.purge || k in f.todo)
      && (forall k | k in f.purge :: HasNewerRoot(d, k, f.slot))
  }

  ghost predicate ShrinkSound(d: Db, s: Slot)
    requires s in d.shrinking
  {
    var j := d.shrinking[s];
    && s in d.stores && s in d.roots && s !in d.caches
    && j.purge !! j.todo && j.unwritten <= j.todo
    && (j.swapped ==> d.stores[s] == j.next && j.todo == {} && j.purge == {})
    && (!j.swapped ==> d.stores[s].id == j.oldId && j.oldId < j.next.id)
    && (!j.swapped ==> forall k | Names(d, k, s, j.oldId) :: k in j.purge || k in j.todo)
    && (forall k | k in j.todo :: Names(d, k, s, j.oldId))
    && (forall k, u | k in j.purge && u in d.roots && u < s :: (k, u) !in d.index)
    && (forall k | k in j.purge :: (k, s) in d.index)
  }

  ghost predicate ShrinksSound(d: Db) {
    forall s | s in d.shrinking :: ShrinkSound(d, s)
  }

  ghost predicate Flushing(d: Db, s: Slot) {
    d.flush.Some? && d.flush.value.slot == s
  }

  /** A rooted slot is complete: before its flush begins all it holds is indexed as cached, and it
      has no store; a slot outside the cache has no cached entries (`IndexBacked`). */
  ghost predicate RootsFrozen(d: Db) {
    forall s | s in d.roots && s in d.caches && !Flushing(d, s) :: Frozen(d, s)
  }

  ghost predicate Frozen(d: Db, s: Slot)
    requires s in d.caches
  {
    && s !in d.stores
    && forall k | k in d.caches[s] :: Indexed(d, k, s, Cached)
  }

  ghost predicate Inv(d: Db) {
    && CachesSound(d) && IndexBacked(d) && IdsFresh(d) && StoresSound(d) && FlushSound(d)
    && ShrinksSound(d) && RootsFrozen(d)
  }

  ghost predicate Init(d: Db) {
    d == Db(map[], map[], map[], map[], None, {}, 0, map[])
  }

  // ---- Steps of banks ----

  ghost predicate BankNext(d: Db, step: BankStep, d': Db) { EnabledBank(d, step) && d' == ApplyBank(d, step) }

  lemma BankKeepsCaches(d: Db, step: BankStep, d': Db)
    requires BankNext(d, step, d') && CachesSound(d)
    ensures CachesSound(d')
  {
  }

  lemma BankKeepsStores(d: Db, step: BankStep, d': Db)
    requires BankNext(d, step, d') && IdsFresh(d) && StoresSound(d) && ShrinksSound(d)
    ensures IdsFresh(d') && StoresSound(d')
  {
  }

  lemma BankKeepsIndex(d: Db, step: BankStep, d': Db)
    requires BankNext(d, step, d') && IndexBacked(d) && IdsFresh(d)
    ensures IndexBacked(d')
  {
    forall k, s | (k, s) in d'.index
      ensures EntryBacked(d', k, s)
    {
      assert (k, s) in d.index ==> EntryBacked(d, k, s);
    }
  }

  lemma BankKeepsFlush(d: Db, step: BankStep, d': Db)
    requires BankNext(d, step, d') && FlushSound(d)
    ensures FlushSound(d')
  {
  }

  lemma BankKeepsShrinks(d: Db, step: BankStep, d': Db)
    requires BankNext(d, step, d') && ShrinksSound(d)
    ensures ShrinksSound(d')
  {
    forall s | s in d'.shrinking
      ensures ShrinkSound(d', s)
    {
      assert ShrinkSound(d, s);
    }
  }

  lemma BankKeepsFrozen(d: Db, step: BankStep, d': Db)
    requires BankNext(d, step, d') && RootsFrozen(d) && IdsFresh(d) && IndexBacked(d)
    ensures RootsFrozen(d')
  {
    forall s | s in d'.roots && s in d'.caches && !Flushing(d', s)
      ensures Frozen(d', s)
    {
      if step.AddRoot? && step.slot == s {
        forall k | k in d.caches[s]
          ensures Indexed(d, k, s, Cached)
        {
          assert EntryBacked(d, k, s);
        }
      } else {
        assert Frozen(d, s);
      }
    }
  }

  lemma BankKeepsInv(d: Db, step: BankStep, d': Db)
    requires Inv(d) && BankNext(d, step, d')
    ensures Inv(d')
  {
    BankKeepsCaches(d, step, d');
    BankKeepsStores(d, step, d');
    BankKeepsIndex(d, step, d');
    BankKeepsFlush(d, step, d');
    BankKeepsShrinks(d, step, d');
    BankKeepsFrozen(d, step, d');
  }

  // ---- Steps of a flush ----

  ghost predicate FlushNext(d: Db, step: FlushStep, d': Db) { EnabledFlush(d, step) && d' == ApplyFlush(d, step) }

  lemma FlushKeepsCaches(d: Db, step: FlushStep, d': Db)
    requires FlushNext(d, step, d') && CachesSound(d)
    ensures CachesSound(d')
  {
  }

  lemma FlushKeepsIds(d: Db, step: FlushStep, d': Db)
    requires FlushNext(d, step, d') && IdsFresh(d) && FlushSound(d)
    ensures IdsFresh(d')
  {
  }

  lemma FlushKeepsStores(d: Db, step: FlushStep, d': Db)
    requires FlushNext(d, step, d') && StoresSound(d) && CachesSound(d) && FlushSound(d)
    ensures StoresSound(d')
  {
  }

  lemma FlushKeepsEntry(d: Db, step: FlushStep, d': Db, k: Pubkey, s: Slot)
    requires FlushNext(d, step, d') && FlushSound(d) && StoresSound(d)
    requires (k, s) in d'.index && ((k, s) in d.index ==> EntryBacked(d, k, s))
    ensures EntryBacked(d', k, s)
  {
    if step.FlushEnd? {
      assert !Indexed(d, k, d.flush.value.slot, Cached);
    }
  }

  lemma FlushKeepsIndex(d: Db, step: FlushStep, d': Db)
    requires FlushNext(d, step, d') && IndexBacked(d) && FlushSound(d) && StoresSound(d)
    ensures IndexBacked(d')
  {
    forall k, s | (k, s) in d'.index
      ensures EntryBacked(d', k, s)
    {
      FlushKeepsEntry(d, step, d', k, s);
    }
  }

  lemma FlushBeginsSound(d: Db, step: FlushStep, d': Db)
    requires FlushNext(d, step, d') && step.FlushBegin? && RootsFrozen(d) && IndexBacked(d)
    ensures FlushSound(d')
  {
    assert Frozen(d, step.slot);
    forall k | Indexed(d, k, step.slot, Cached)
      ensures k in d.caches[step.slot]
    {
      assert EntryBacked(d, k, step.slot);
    }
  }

  lemma FlushKeepsFlush(d: Db, step: FlushStep, d': Db)
    requires FlushNext(d, step, d') && !step.FlushBegin? && FlushSound(d)
    ensures FlushSound(d')
  {
  }

  lemma FlushKeepsShrinks(d: Db, step: FlushStep, d': Db)
    requires FlushNext(d, step, d') && FlushSound(d)
    ensures ShrinksSound(d')
  {
    assert d'.shrinking == map[];
  }

  lemma FlushKeepsSlotFrozen(d: Db, step: FlushStep, d': Db, s: Slot)
    requires FlushNext(d, step, d') && s in d'.roots && s in d'.caches && !Flushing(d', s)
    requires RootsFrozen(d) && FlushSound(d)
    ensures Frozen(d', s)
  {
    assert s in d.caches && !Flushing(d, s) ==> Frozen(d, s);
  }

  lemma FlushKeepsInv(d: Db, step: FlushStep, d': Db)
    requires Inv(d) && FlushNext(d, step, d')
    ensures Inv(d')
  {
    FlushKeepsCaches(d, step, d');
    FlushKeepsIds(d, step, d');
    FlushKeepsStores(d, step, d');
    FlushKeepsIndex(d, step, d');
    if step.FlushBegin? {
      FlushBeginsSound(d, step, d');
    } else {
      FlushKeepsFlush(d, step, d');
    }
    FlushKeepsShrinks(d, step, d');
    forall s | s in d'.roots && s in d'.caches && !Flushing(d', s)
      ensures Frozen(d', s)
    {
      FlushKeepsSlotFrozen(d, step, d', s);
    }
  }

  // ---- Steps of a shrink ----

  ghost predicate ShrinkNext(d: Db, step: ShrinkStep, d': Db) { EnabledShrink(d, step) && d' == ApplyShrink(d, step) }

  lemma ShrinkKeepsCaches(d: Db, step: ShrinkStep, d': Db)
    requires ShrinkNext(d, step, d') && CachesSound(d)
    ensures CachesSound(d')
  {
  }

  lemma ShrinkKeepsIds(d: Db, step: ShrinkStep, d': Db)
    requires ShrinkNext(d, step, d') && IdsFresh(d) && (step.slot in d.shrinking ==> ShrinkSound(d, step.slot))
    ensures IdsFresh(d')
  {
  }

  lemma ShrinkKeepsStores(d: Db, step: ShrinkStep, d': Db)
    requires ShrinkNext(d, step, d') && StoresSound(d)
    ensures StoresSound(d')
  {
  }

  lemma ShrinkKeepsEntry(d: Db, step: ShrinkStep, d': Db, k: Pubkey, s: Slot)
    requires ShrinkNext(d, step, d') && StoresSound(d)
    requires (k, s) in d'.index && ((k, s) in d.index ==> EntryBacked(d, k, s))
    requires step.slot in d.shrinking ==> ShrinkSound(d, step.slot)
    ensures EntryBacked(d', k, s)
  {
    assert step.ShrinkSwap? ==> !Names(d, k, step.slot, d.shrinking[step.slot].oldId);
  }

  lemma ShrinkKeepsIndex(d: Db, step: ShrinkStep, d': Db)
    requires ShrinkNext(d, step, d') && IndexBacked(d) && StoresSound(d) && ShrinksSound(d)
    ensures IndexBacked(d')
  {
    forall k, s | (k, s) in d'.index
      ensures EntryBacked(d', k, s)
    {
      ShrinkKeepsEntry(d, step, d', k, s);
    }
  }

  lemma ShrinkKeepsFlush(d: Db, step: ShrinkStep, d': Db)
    requires ShrinkNext(d, step, d') && FlushSound(d)
    ensures FlushSound(d')
  {
  }

  lemma ShrinkBeginsSound(d: Db, step: ShrinkStep, d': Db)
    requires ShrinkNext(d, step, d') && step.ShrinkBegin? && IdsFresh(d)
    ensures ShrinkSound(d', step.slot)
  {
  }

  lemma ShrinkMovesKeepOwn(d: Db, step: ShrinkStep, d': Db)
    requires ShrinkNext(d, step, d') && (step.ShrinkWrite? || step.ShrinkIndex? || step.ShrinkPurge?)
    requires step.slot in d'.shrinking && ShrinkSound(d, step.slot)
    ensures ShrinkSound(d', step.slot)
  {
  }

  lemma ShrinkSwapKeepsOwn(d: Db, step: ShrinkStep, d': Db)
    requires ShrinkNext(d, step, d') && step.ShrinkSwap? && ShrinkSound(d, step.slot)
    ensures ShrinkSound(d', step.slot)
  {
  }

  lemma ShrinkKeepsOwn(d: Db, step: ShrinkStep, d': Db)
    requires ShrinkNext(d, step, d') && step.slot in d'.shrinking && IdsFresh(d)
    requires step.slot in d.shrinking ==> ShrinkSound(d, step.slot)
    ensures ShrinkSound(d', step.slot)
  {
    if step.ShrinkBegin? {
      ShrinkBeginsSound(d, step, d');
    } else if step.ShrinkSwap? {
      ShrinkSwapKeepsOwn(d, step, d');
    } else {
      ShrinkMovesKeepOwn(d, step, d');
    }
  }

  /** A step of one shrink adds no index entry and changes no other slot. */
  lemma ShrinkIsLocal(d: Db, step: ShrinkStep, d': Db, s: Slot)
    requires ShrinkNext(d, step, d') && s != step.slot
    requires step.slot in d.shrinking ==> ShrinkSound(d, step.slot)
    ensures d'.index.Keys <= d.index.Keys && d'.roots == d.roots && d'.caches == d.caches
    ensures forall k | (k, s) in d.index :: (k, s) in d'.index && d'.index[(k, s)] == d.index[(k, s)]
    ensures (s in d.stores <==> s in d'.stores) && (s in d.stores ==> d'.stores[s] == d.stores[s])
    ensures (s in d.shrinking <==> s in d'.shrinking) && (s in d.shrinking ==> d'.shrinking[s] == d.shrinking[s])
  {
    if step.ShrinkIndex? {
      assert Names(d, step.key, step.slot, d.shrinking[step.slot].oldId);
    }
  }

  lemma LocalKeepsShrink(d: Db, d': Db, s: Slot)
    requires s in d.shrinking && ShrinkSound(d, s) && s in d'.shrinking && d'.shrinking[s] == d.shrinking[s]
    requires d'.index.Keys <= d.index.Keys && d'.roots == d.roots && d'.caches == d.caches
    requires forall k | (k, s) in d.index :: (k, s) in d'.index && d'.index[(k, s)] == d.index[(k, s)]
    requires s in d'.stores && d'.stores[s] == d.stores[s]
    ensures ShrinkSound(d', s)
  {
  }

  lemma ShrinkKeepsShrinks(d: Db, step: ShrinkStep, d': Db)
    requires ShrinkNext(d, step, d') && ShrinksSound(d) && IdsFresh(d)
    ensures ShrinksSound(d')
  {
    forall s | s in d'.shrinking
      ensures ShrinkSound(d', s)
    {
      if s == step.slot {
        ShrinkKeepsOwn(d, step, d');
      } else {
        ShrinkIsLocal(d, step, d', s);
        LocalKeepsShrink(d, d', s);
      }
    }
  }

  lemma ShrinkKeepsSlotFrozen(d: Db, step: ShrinkStep, d': Db, s: Slot)
    requires ShrinkNext(d, step, d') && s in d'.roots && s in d'.caches && !Flushing(d', s) && RootsFrozen(d)
    requires step.slot in d.shrinking ==> ShrinkSound(d, step.slot)
    ensures Frozen(d', s)
  {
    assert Frozen(d, s);
    ShrinkIsLocal(d, step, d', s);
  }

  lemma ShrinkKeepsInv(d: Db, step: ShrinkStep, d': Db)
    requires Inv(d) && ShrinkNext(d, step, d')
    ensures Inv(d')
  {
    ShrinkKeepsCaches(d, step, d');
    ShrinkKeepsIds(d, step, d');
    ShrinkKeepsStores(d, step, d');
    ShrinkKeepsIndex(d, step, d');
    ShrinkKeepsFlush(d, step, d');
    ShrinkKeepsShrinks(d, step, d');
    forall s | s in d'.roots && s in d'.caches && !Flushing(d', s)
      ensures Frozen(d', s)
    {
      ShrinkKeepsSlotFrozen(d, step, d', s);
    }
  }

  // ---- Steps of a clean ----

  ghost predicate CleanNext(d: Db, step: CleanStep, d': Db) { EnabledClean(d, step) && d' == ApplyClean(d, step) }

  lemma CleanKeepsStores(d: Db, step: CleanStep, d': Db)
    requires CleanNext(d, step, d') && CachesSound(d) && IdsFresh(d) && StoresSound(d)
    ensures CachesSound(d') && IdsFresh(d') && StoresSound(d') && ShrinksSound(d')
  {
    assert d'.shrinking == map[];
  }

  lemma CleanKeepsIndex(d: Db, step: CleanStep, d': Db)
    requires CleanNext(d, step, d') && IndexBacked(d)
    ensures IndexBacked(d')
  {
    forall k, s | (k, s) in d'.index
      ensures EntryBacked(d', k, s)
    {
      assert EntryBacked(d, k, s);
      if step.DropStore? && s == step.slot {
        assert k !in AliveKeys(d, s, d.stores[s].id);
      }
    }
  }

  lemma CleanKeepsFlush(d: Db, step: CleanStep, d': Db)
    requires CleanNext(d, step, d') && FlushSound(d)
    ensures FlushSound(d')
  {
  }

  lemma CleanKeepsFrozen(d: Db, step: CleanStep, d': Db)
    requires CleanNext(d, step, d') && RootsFrozen(d)
    ensures RootsFrozen(d')
  {
    forall s | s in d'.roots && s in d'.caches && !Flushing(d', s)
      ensures Frozen(d', s)
    {
      assert Frozen(d, s);
    }
  }

  lemma CleanKeepsInv(d: Db, step: CleanStep, d': Db)
    requires Inv(d) && CleanNext(d, step, d')
    ensures Inv(d')
  {
    CleanKeepsStores(d, step, d');
    CleanKeepsIndex(d, step, d');
    CleanKeepsFlush(d, step, d');
    CleanKeepsFrozen(d, step, d');
  }

  /** Every step of banks and background service keeps the invariant. */
  lemma StepKeepsInv(d: Db, step: Step)
    requires Inv(d) && Enabled(d, step)
    ensures Inv(Apply(d, step))
  {
    match step
    case Bank(b) => BankKeepsInv(d, b, ApplyBank(d, b));
    case Flush(f) => FlushKeepsInv(d, f, ApplyFlush(d, f));
    case Shrink(j) => ShrinkKeepsInv(d, j, ApplyShrink(d, j));
    case Clean(c) => CleanKeepsInv(d, c, ApplyClean(d, c));
  }

  // ---- What the steps guarantee to a reader of one key ----

  ghost predicate Later(a: Location, b: Location) {
    a == b || (a.Cached? && b.Stored?) || (a.Stored? && b.Stored? && a.id < b.id)
  }

  ghost predicate Extends(a: Store, b: Store) {
    a.id == b.id && forall o | o in a.accounts :: o in b.accounts && b.accounts[o] == a.accounts[o]
  }

  /** A store that a slot has after a step is new, or one that the slot already had. */
  ghost predicate Known(d: Db, slot: Slot, s: Store) {
    || d.nextId <= s.id
    || (slot in d.stores && Extends(d.stores[slot], s))
    || (slot in d.shrinking && Extends(d.shrinking[slot].next, s))
  }

  /** The entry of a rooted version only moves forward: from the cache to a store, to a store with a
      larger id, or away; and a store in the map stays there as long as the entry names it. */
  ghost predicate SlotEvolves(d: Db, d': Db, key: Pubkey, s: Slot) {
    && (s !in d.caches ==> s !in d'.caches)
    && ((key, s) in d.versions ==> (key, s) in d'.versions && d'.versions[(key, s)] == d.versions[(key, s)])
    && ((key, s) in d'.index ==> (key, s) in d.index && Later(d.index[(key, s)], d'.index[(key, s)]))
    && (s in d'.stores ==> Known(d, s, d'.stores[s]))
    && (s in d'.shrinking ==> Known(d, s, d'.shrinking[s].next))
    && (s in d.stores && Names(d', key, s, d.stores[s].id) ==> s in d'.stores && d'.stores[s].id == d.stores[s].id)
  }

  /** An entry of a rooted version only goes away under a newer rooted entry, or together with all
      older rooted entries that are still cached. */
  ghost predicate ShadowKept(d: Db, d': Db, key: Pubkey, v: Slot) {
    (key, v) in d.index && (key, v) !in d'.index ==>
      || HasNewerRoot(d, key, v)
      || forall u | u in d.roots && u < v :: !Indexed(d', key, u, Cached)
  }

  /** Roots and ids only grow, and a key leaves the cache only with a rooted slot. */
  ghost predicate Grows(d: Db, d': Db, key: Pubkey) {
    && d.roots <= d'.roots && d.nextId <= d'.nextId
    && (forall s | s in d.caches && key in d.caches[s] ::
          (s in d.roots && s !in d'.caches) || (s in d'.caches && key in d'.caches[s]))
  }

  ghost predicate Evolves(d: Db, d': Db, key: Pubkey) {
    Grows(d, d', key) && forall s | s in d.roots :: SlotEvolves(d, d', key, s) && ShadowKept(d, d', key, s)
  }

  lemma BankSlotEvolves(d: Db, step: BankStep, d': Db, key: Pubkey, s: Slot)
    requires BankNext(d, step, d') && s in d.roots
    ensures SlotEvolves(d, d', key, s) && ShadowKept(d, d', key, s)
  {
  }

  lemma FlushSlotEvolves(d: Db, step: FlushStep, d': Db, key: Pubkey, s: Slot)
    requires FlushNext(d, step, d') && s in d.roots && FlushSound(d)
    ensures SlotEvolves(d, d', key, s) && ShadowKept(d, d', key, s)
  {
  }

  lemma ShrinkSlotEvolves(d: Db, step: ShrinkStep, d': Db, key: Pubkey, s: Slot)
    requires ShrinkNext(d, step, d') && s in d.roots && (s in d.shrinking ==> ShrinkSound(d, s))
    ensures SlotEvolves(d, d', key, s)
  {
    if step.ShrinkSwap? && step.slot == s {
      assert !Names(d, key, s, d.shrinking[s].oldId);
    }
  }

  lemma ShrinkKeepsShadow(d: Db, step: ShrinkStep, d': Db, key: Pubkey, v: Slot)
    requires ShrinkNext(d, step, d') && v in d.roots && (v in d.shrinking ==> ShrinkSound(d, v))
    ensures ShadowKept(d, d', key, v)
  {
  }

  lemma CleanSlotEvolves(d: Db, step: CleanStep, d': Db, key: Pubkey, s: Slot)
    requires CleanNext(d, step, d') && s in d.roots
    ensures SlotEvolves(d, d', key, s)
  {
    if step.DropStore? && step.slot == s {
      assert key !in AliveKeys(d, s, d.stores[s].id);
    }
  }

  lemma CleanKeepsShadow(d: Db, step: CleanStep, d': Db, key: Pubkey, v: Slot)
    requires CleanNext(d, step, d') && v in d.roots
    ensures ShadowKept(d, d', key, v)
  {
    if step.CleanKey? && step.key == key && v in step.slots {
      forall u | u in d.roots && u < v && (key, u) in d.index && !HasNewerRoot(d, key, v) ensures u in step.slots {
        if t :| t in d.roots && t !in step.slots && (key, t) in d.index && forall s | s in step.slots :: s < t {
          assert HasNewerRoot(d, key, v);
        } else {
          var bound: Slot :| step.slots == RootedUpTo(d, key, bound);
          assert u in RootedUpTo(d, key, bound);
        }
      }
    }
  }

  lemma StepEvolvesAt(d: Db, step: Step, key: Pubkey, s: Slot)
    requires FlushSound(d) && ShrinksSound(d) && Enabled(d, step) && s in d.roots
    ensures SlotEvolves(d, Apply(d, step), key, s) && ShadowKept(d, Apply(d, step), key, s)
  {
    match step
    case Bank(b) => BankSlotEvolves(d, b, ApplyBank(d, b), key, s);
    case Flush(f) => FlushSlotEvolves(d, f, ApplyFlush(d, f), key, s);
    case Shrink(j) =>
      ShrinkSlotEvolves(d, j, ApplyShrink(d, j), key, s);
      ShrinkKeepsShadow(d, j, ApplyShrink(d, j), key, s);
    case Clean(c) =>
      CleanSlotEvolves(d, c, ApplyClean(d, c), key, s);
      CleanKeepsShadow(d, c, ApplyClean(d, c), key, s);
  }

  lemma BankGrows(d: Db, step: BankStep, d': Db, key: Pubkey)
    requires BankNext(d, step, d')
    ensures Grows(d, d', key)
  {
  }

  lemma FlushGrows(d: Db, step: FlushStep, d': Db, key: Pubkey)
    requires FlushNext(d, step, d') && FlushSound(d)
    ensures Grows(d, d', key)
  {
  }

  lemma ShrinkGrows(d: Db, step: ShrinkStep, d': Db, key: Pubkey)
    requires ShrinkNext(d, step, d')
    ensures Grows(d, d', key)
  {
  }

  lemma CleanGrows(d: Db, step: CleanStep, d': Db, key: Pubkey)
    requires CleanNext(d, step, d')
    ensures Grows(d, d', key)
  {
  }

  lemma StepGrows(d: Db, step: Step, key: Pubkey)
    requires FlushSound(d) && Enabled(d, step)
    ensures Grows(d, Apply(d, step), key)
  {
    match step
    case Bank(b) => BankGrows(d, b, ApplyBank(d, b), key);
    case Flush(f) => FlushGrows(d, f, ApplyFlush(d, f), key);
    case Shrink(j) => ShrinkGrows(d, j, ApplyShrink(d, j), key);
    case Clean(c) => CleanGrows(d, c, ApplyClean(d, c), key);
  }

  lemma StepEvolves(d: Db, step: Step, key: Pubkey)
    requires Inv(d) && Enabled(d, step)
    ensures Evolves(d, Apply(d, step), key)
  {
    StepGrows(d, step, key);
    forall s | s in d.roots
      ensures SlotEvolves(d, Apply(d, step), key, s) && ShadowKept(d, Apply(d, step), key, s)
    {
      StepEvolvesAt(d, step, key, s);
    }
  }

  // ---- The assertions of the background service ----

  /** Purged keys were indexed and their slot has no store yet; a flush finds its slot without a
      store, no shrink running, and its slot cache in place; and what it still has to move is there. */
  lemma FlushAssertionsHold(d: Db, step: FlushStep)
    requires FlushSound(d) && EnabledFlush(d, step)
    ensures step.FlushPurge? ==> Indexed(d, step.key, d.flush.value.slot, Cached) && d.flush.value.slot !in d.stores
    ensures step.FlushCreate? ==> d.flush.value.slot !in d.stores && d.shrinking == map[]
    ensures step.FlushIndex? ==> Indexed(d, step.key, d.flush.value.slot, Cached)
    ensures step.FlushEnd? ==> d.flush.value.slot in d.caches && forall k :: !Indexed(d, k, d.flush.value.slot, Cached)
  {
  }

  /** A finished shrink replaces exactly the store it started from, to which no entry refers any more;
      what it moves is the current account of its version, still indexed where it was. */
  lemma ShrinkAssertionsHold(d: Db, step: ShrinkStep)
    requires StoresSound(d) && ShrinksSound(d) && EnabledShrink(d, step)
    ensures step.ShrinkIndex? ==> Names(d, step.key, step.slot, d.shrinking[step.slot].oldId)
    ensures step.ShrinkSwap? ==> step.slot in d.stores && d.stores[step.slot].id == d.shrinking[step.slot].oldId
                                 && forall k :: !Names(d, k, step.slot, d.shrinking[step.slot].oldId)
    ensures step.ShrinkWrite? ==> (step.key, step.slot) in d.versions
                                  && d.stores[step.slot].accounts[step.from].1 == d.versions[(step.key, step.slot)]
  {
    assert step.slot in d.shrinking ==> ShrinkSound(d, step.slot);
  }

  /** Between the last index update of a shrink and its end, a lookup that tries the map of stores
      before the swap and the shrink-in-progress map after the end finds nothing, although the
      index names the store all along: two probes are not enough. */
  lemma TwoProbesCanMiss(d: Db, slot: Slot, key: Pubkey)
    requires Inv(d) && slot in d.shrinking && EnabledShrink(d, ShrinkSwap(slot)) && Names(d, key, slot, d.shrinking[slot].next.id)
    ensures var id := d.shrinking[slot].next.id;
            var swapped := ApplyShrink(d, ShrinkSwap(slot));
            && EnabledShrink(swapped, ShrinkEnd(slot))
            && var ended := ApplyShrink(swapped, ShrinkEnd(slot));
            && d.stores[slot].id != id && slot !in ended.shrinking
            && Names(swapped, key, slot, id) && Names(ended, key, slot, id) && ended.stores[slot].id == id
  {
    assert ShrinkSound(d, slot);
  }
}
