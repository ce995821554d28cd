/** Flushing rooted slots from the write cache to storage, with and without cleaning. */
module CacheFlush {
  import opened Types

  datatype Place = Cached | Stored

  /** The parts of the database that a read by root goes through. */
  datatype Db = Db(
    caches: map<Slot, map<Pubkey, Account>>,
    stores: map<Slot, map<Pubkey, Account>>,
    index: map<(Pubkey, Slot), Place>,
    roots: set<Slot>)

  function Fetch(d: Db, key: Pubkey, slot: Slot): Option<Account>
    requires (key, slot) in d.index
  {
    var from := if d.index[(key, slot)].Cached? then d.caches else d.stores;
    if slot in from && key in from[slot] then Some(from[slot][key]) else None
  }

  /** Every index entry leads to an account. */
  ghost predicate Sound(d: Db) {
    forall key, slot | (key, slot) in d.index :: Fetch(d, key, slot).Some?
  }

  ghost predicate Rooted(d: Db, key: Pubkey, slot: Slot) {
    (key, slot) in d.index && slot in d.roots
  }

  /** A read bounded by `root` finds version `slot` of the key, holding `account`. */
  ghost predicate Shows(d: Db, key: Pubkey, root: Slot, slot: Slot, account: Account) {
    && Rooted(d, key, slot) && slot <= root && Fetch(d, key, slot) == Some(account)
    && forall t: Slot | Rooted(d, key, t) && t <= root :: t <= slot
  }

  /** Reads bounded by any root from `from` on cannot tell the two apart. */
  ghost predicate SameView(d: Db, d': Db, from: Slot) {
    forall key: Pubkey, root: Slot, slot: Slot, account | from <= root ::
      Shows(d, key, root, slot, account) <==> Shows(d', key, root, slot, account)
  }

  /** A newer rooted version at or below `from` hides the entry from all reads from there on. */
  ghost predicate Hidden(d: Db, key: Pubkey, slot: Slot, from: Slot) {
    exists t: Slot :: slot < t <= from && Rooted(d, key, t)
  }

  /** No entry appears or changes its account, and only hidden ones disappear. */
  ghost predicate OnlyHides(d: Db, d': Db, from: Slot) {
    && (forall key, slot | Rooted(d', key, slot) :: Rooted(d, key, slot) && Fetch(d', key, slot) == Fetch(d, key, slot))
    && (forall key, slot | Rooted(d, key, slot) :: Rooted(d', key, slot) || Hidden(d', key, slot, from))
  }

  lemma HidingKeepsView(d: Db, d': Db, from: Slot)
    requires OnlyHides(d, d', from)
    ensures SameView(d, d', from)
  {
    forall key: Pubkey, root: Slot, slot: Slot, account | from <= root
      ensures Shows(d, key, root, slot, account) <==> Shows(d', key, root, slot, account)
    {
      if Shows(d, key, root, slot, account) {
        assert !Hidden(d', key, slot, from);
      }
      if Shows(d', key, root, slot, account) {
        forall t: Slot | Rooted(d, key, t) && t <= root ensures t <= slot {
          assert Hidden(d', key, t, from) ==> t < slot;
        }
      }
    }
  }

  /** What flush relies on: slots still to be flushed are rooted, complete in the index, and have
      no storage of their own. */
  ghost predicate Ready(d: Db, slot: Slot) {
    && slot in d.roots && slot !in d.stores
    && (slot in d.caches ==> forall key | key in d.caches[slot] :: (key, slot) in d.index && d.index[(key, slot)] == Cached)
  }

  // ---- The single updates of a flush ----

  function WithoutEntry(d: Db, key: Pubkey, slot: Slot): Db {
    d.(index := d.index - {(key, slot)})
  }

  function WithStore(d: Db, slot: Slot, accounts: map<Pubkey, Account>): Db {
    d.(stores := d.stores[slot := accounts])
  }

  /** The entry moves to storage; with `reclaim`, stored entries of older slots go away with it. */
  function WithStoredEntry(d: Db, key: Pubkey, slot: Slot, reclaim: bool): Db {
    d.(index := (d.index - OlderStored(d.index, key, slot, reclaim))[(key, slot) := Stored])
  }

  function OlderStored(index: map<(Pubkey, Slot), Place>, key: Pubkey, slot: Slot, reclaim: bool): set<(Pubkey, Slot)> {
    set e | e in index && e.0 == key && e.1 < slot && index[e] == Stored && reclaim
  }

  function SlotsOf(entries: set<(Pubkey, Slot)>): set<Slot> { set e | e in entries :: e.1 }

  ghost predicate StoredBelow(d: Db, slots: set<Slot>, slot: Slot) {
    forall s | s in slots :: s < slot && s in d.stores
  }

  function WithoutStore(d: Db, slot: Slot): Db { d.(stores := d.stores - {slot}) }

  function WithoutCache(d: Db, slot: Slot): Db { d.(caches := d.caches - {slot}) }

  function WithoutRoot(d: Db, slot: Slot): Db { d.(roots := d.roots - {slot}) }

  ghost predicate Unused(d: Db, slot: Slot, place: Place) {
    forall key | (key, slot) in d.index :: d.index[(key, slot)] != place
  }

  lemma WithoutEntryHides(d: Db, key: Pubkey, slot: Slot, from: Slot)
    requires Sound(d) && Hidden(d, key, slot, from)
    ensures Sound(WithoutEntry(d, key, slot)) && OnlyHides(d, WithoutEntry(d, key, slot), from)
  {
    var d' := WithoutEntry(d, key, slot);
    var t: Slot :| slot < t <= from && Rooted(d, key, t);
    assert Rooted(d', key, t);
    forall k, s | (k, s) in d'.index ensures Fetch(d', k, s) == Fetch(d, k, s) && Fetch(d, k, s).Some? {
    }
  }

  lemma WithStoreHides(d: Db, slot: Slot, accounts: map<Pubkey, Account>, from: Slot)
    requires Sound(d) && slot !in d.stores
    ensures Sound(WithStore(d, slot, accounts)) && OnlyHides(d, WithStore(d, slot, accounts), from)
  {
    var d' := WithStore(d, slot, accounts);
    forall k, s | (k, s) in d'.index ensures Fetch(d', k, s) == Fetch(d, k, s) && Fetch(d, k, s).Some? {
    }
  }

  lemma WithStoredEntryHides(d: Db, key: Pubkey, slot: Slot, reclaim: bool, from: Slot)
    requires Sound(d) && Rooted(d, key, slot) && d.index[(key, slot)].Cached? && (reclaim ==> slot <= from)
    requires slot in d.stores && key in d.stores[slot] && Fetch(d, key, slot) == Some(d.stores[slot][key])
    ensures Sound(WithStoredEntry(d, key, slot, reclaim)) && OnlyHides(d, WithStoredEntry(d, key, slot, reclaim), from)
  {
    var d' := WithStoredEntry(d, key, slot, reclaim);
    assert Rooted(d', key, slot);
    forall k, s | (k, s) in d'.index ensures (k, s) in d.index && Fetch(d', k, s) == Fetch(d, k, s) && Fetch(d, k, s).Some? {
    }
  }

  lemma WithoutStoreHides(d: Db, slot: Slot, from: Slot)
    requires Sound(d) && Unused(d, slot, Stored)
    ensures Sound(WithoutStore(d, slot)) && OnlyHides(d, WithoutStore(d, slot), from)
  {
    var d' := WithoutStore(d, slot);
    forall k, s | (k, s) in d'.index ensures Fetch(d', k, s) == Fetch(d, k, s) && Fetch(d, k, s).Some? {
    }
  }

  lemma WithoutCacheHides(d: Db, slot: Slot, from: Slot)
    requires Sound(d) && Unused(d, slot, Cached)
    ensures Sound(WithoutCache(d, slot)) && OnlyHides(d, WithoutCache(d, slot), from)
  {
    var d' := WithoutCache(d, slot);
    forall k, s | (k, s) in d'.index ensures Fetch(d', k, s) == Fetch(d, k, s) && Fetch(d, k, s).Some? {
    }
  }

  lemma WithoutRootHides(d: Db, slot: Slot, from: Slot)
    requires Sound(d) && Unused(d, slot, Cached) && Unused(d, slot, Stored)
    ensures Sound(WithoutRoot(d, slot)) && OnlyHides(d, WithoutRoot(d, slot), from)
  {
    var d' := WithoutRoot(d, slot);
    forall k, s | (k, s) in d'.index ensures Fetch(d', k, s) == Fetch(d, k, s) && Fetch(d, k, s).Some? && s != slot {
    }
  }

  // ---- The flush itself ----

  /** Whether versions of this slot may be dropped in favour of newer flushed ones. */
  predicate Cleans(clean: bool, bound: Option<Slot>, slot: Slot) {
    clean && (bound.Some? ==> slot <= bound.value)
  }

  /** `from` is where reads must stay as they were: the clean bound or, without one, any slot that
      is not below the flushed roots. */
  ghost predicate Protects(from: Slot, clean: bool, bound: Option<Slot>, slot: Slot) {
    Cleans(clean, bound, slot) ==> slot <= from
  }

  /** Newer slots are untouched; of older slots only storage, and what is in it, may go away. */
  ghost predicate Local(d: Db, d': Db, slot: Slot) {
    && (forall t | t > slot ::
          && (t in d.caches <==> t in d'.caches) && (t in d.caches ==> d'.caches[t] == d.caches[t])
          && (t in d.stores <==> t in d'.stores) && (t in d.stores ==> d'.stores[t] == d.stores[t])
          && (t in d.roots <==> t in d'.roots))
    && (forall t | t < slot ::
          && (t in d.caches <==> t in d'.caches) && (t in d.caches ==> d'.caches[t] == d.caches[t])
          && (t in d'.stores ==> t in d.stores && d'.stores[t] == d.stores[t])
          && (t !in d.stores ==> (t in d.roots <==> t in d'.roots)))
    && (forall e | e in d.index && (e.1 > slot || (e.1 < slot && d.index[e].Cached?)) :: e in d'.index && d'.index[e] == d.index[e])
    && (forall e | e in d'.index && e.1 != slot :: e in d.index && d'.index[e] == d.index[e])
  }

  /** While a slot is being flushed: `cached` are the keys it still has cached entries for and
      `stored` those that already point to storage. */
  ghost predicate Entries(d: Db, slot: Slot, cached: set<Pubkey>, stored: set<Pubkey>) {
    && (forall key: Pubkey :: key in cached <==> (key, slot) in d.index && d.index[(key, slot)].Cached?)
    && (forall key: Pubkey :: key in stored <==> (key, slot) in d.index && d.index[(key, slot)].Stored?)
  }

  lemma LocalTrans(d: Db, d': Db, d'': Db, slot: Slot)
    requires Local(d, d', slot) && Local(d', d'', slot)
    ensures Local(d, d'', slot)
  {
  }

  lemma MovesOneEntry(d: Db, key: Pubkey, slot: Slot, reclaim: bool, cached: set<Pubkey>, stored: set<Pubkey>)
    requires Entries(d, slot, cached, stored) && key in cached
    ensures var d' := WithStoredEntry(d, key, slot, reclaim);
            Local(d, d', slot) && Entries(d', slot, cached - {key}, stored + {key})
  {
  }

  lemma DropsOneEntry(d: Db, key: Pubkey, slot: Slot, cached: set<Pubkey>)
    requires Entries(d, slot, cached, {}) && key in cached
    ensures Local(d, WithoutEntry(d, key, slot), slot) && Entries(WithoutEntry(d, key, slot), slot, cached - {key}, {})
  {
  }

  ghost predicate AllHidden(d: Db, keys: set<Pubkey>, slot: Slot, from: Slot) {
    forall key | key in keys :: Hidden(d, key, slot, from)
  }

  lemma OthersStayHidden(d: Db, key: Pubkey, keys: set<Pubkey>, slot: Slot, from: Slot)
    requires AllHidden(d, keys, slot, from)
    ensures AllHidden(WithoutEntry(d, key, slot), keys, slot, from)
  {
    var d' := WithoutEntry(d, key, slot);
    forall k | k in keys ensures Hidden(d', k, slot, from) {
      var t: Slot :| slot < t <= from && Rooted(d, k, t);
      assert Rooted(d', k, t);
    }
  }

  lemma ReadyEntries(d: Db, slot: Slot)
    requires Sound(d) && Ready(d, slot) && slot in d.caches
    ensures Entries(d, slot, d.caches[slot].Keys, {})
  {
    forall k: Pubkey | (k, slot) in d.index
      ensures d.index[(k, slot)].Cached? && k in d.caches[slot]
    {
      assert Fetch(d, k, slot).Some?;
    }
  }

  ghost predicate Apart(d: Db) { d.caches.Keys !! d.stores.Keys }

  function Restrict(accounts: map<Pubkey, Account>, keys: set<Pubkey>): map<Pubkey, Account> {
    map key | key in accounts && key in keys :: accounts[key]
  }

  ghost predicate Copied(accounts: map<Pubkey, Account>, store: map<Pubkey, Account>, keys: set<Pubkey>) {
    forall key | key in keys :: key in accounts && key in store && store[key] == accounts[key]
  }

  lemma RestrictCopies(accounts: map<Pubkey, Account>, keys: set<Pubkey>)
    requires keys <= accounts.Keys
    ensures Copied(accounts, Restrict(accounts, keys), keys)
  {
  }

  /** The keys of a slot that its flush writes, given those that newer roots have written already. */
  function Kept(accounts: map<Pubkey, Account>, cleaning: bool, written: set<Pubkey>): set<Pubkey> {
    if cleaning then accounts.Keys - written else accounts.Keys
  }

  /** Everything kept of the slot is in storage, and its cache is no longer needed. */
  ghost predicate Settled(d: Db, slot: Slot, keep: set<Pubkey>) {
    && slot in d.caches && Entries(d, slot, {}, keep)
    && (slot in d.stores <==> keep != {}) && (slot in d.roots <==> keep != {})
    && (keep != {} ==> d.stores[slot] == Restrict(d.caches[slot], keep))
  }

  lemma SlotSettled(d0: Db, d: Db, slot: Slot, clean: bool, bound: Option<Slot>, written: set<Pubkey>)
    requires slot in d0.caches && d.caches == d0.caches && d.stores.Keys <= d0.stores.Keys + {slot}
    requires Apart(d0) && Local(d0, d, slot) && Settled(d, slot, Kept(d0.caches[slot], Cleans(clean, bound, slot), written))
    ensures Unused(d, slot, Cached)
    ensures var d' := WithoutCache(d, slot);
            Apart(d') && Local(d0, d', slot) && SlotFlushed(d0, d', slot, clean, bound, written)
  {
    var d' := WithoutCache(d, slot);
    assert Local(d, d', slot);
    LocalTrans(d0, d, d', slot);
  }

  // ---- What cleaning reclaims ----

  ghost predicate InStorage(d: Db, e: (Pubkey, Slot)) { e in d.index && d.index[e].Stored? }

  /** Below the slot, exactly the stored entries of the keys have gone. */
  ghost predicate Reclaimed(d: Db, d': Db, slot: Slot, keys: set<Pubkey>) {
    forall e: (Pubkey, Slot) | e.1 < slot :: InStorage(d', e) <==> InStorage(d, e) && e.0 !in keys
  }

  /** The keys have a stored entry at `t`. */
  ghost predicate StoredAt(d: Db, keys: set<Pubkey>, t: Slot) {
    exists key :: key in keys && InStorage(d, (key, t))
  }

  /** The slots that the keys have stored entries at, below the given one. */
  ghost predicate ReclaimedSlots(d: Db, slot: Slot, keys: set<Pubkey>, slots: set<Slot>) {
    forall t: Slot :: t in slots <==> t < slot && StoredAt(d, keys, t)
  }

  /** The stored entries of the keys have gone, and `slots` is where they were. */
  ghost predicate Reclaiming(d: Db, d': Db, slot: Slot, keys: set<Pubkey>, slots: set<Slot>) {
    Reclaimed(d, d', slot, keys) && ReclaimedSlots(d, slot, keys, slots)
  }

  lemma ReclaimsNothing(d: Db, slot: Slot)
    ensures Reclaiming(d, d, slot, {}, {})
  {
  }

  lemma ReclaimedHaveStores(d: Db, slot: Slot, keys: set<Pubkey>, slots: set<Slot>)
    requires Sound(d) && ReclaimedSlots(d, slot, keys, slots)
    ensures StoredBelow(d, slots, slot)
  {
    forall t | t in slots ensures t < slot && t in d.stores {
      var key :| key in keys && InStorage(d, (key, t));
      assert Fetch(d, key, t).Some?;
    }
  }

  function OneKey(key: Pubkey, reclaim: bool): set<Pubkey> { if reclaim then {key} else {} }

  lemma ReclaimsOne(d: Db, key: Pubkey, slot: Slot, reclaim: bool)
    ensures Reclaiming(d, WithStoredEntry(d, key, slot, reclaim), slot, OneKey(key, reclaim), SlotsOf(OlderStored(d.index, key, slot, reclaim)))
  {
    var older := OlderStored(d.index, key, slot, reclaim);
    forall t: Slot ensures t in SlotsOf(older) <==> t < slot && StoredAt(d, OneKey(key, reclaim), t) {
      if t in SlotsOf(older) {
        var e :| e in older && e.1 == t;
        assert e == (key, t);
      }
      if t < slot && StoredAt(d, OneKey(key, reclaim), t) {
        assert (key, t) in older && (key, t).1 == t;
      }
    }
  }

  lemma ReclaimedJoins(d: Db, d': Db, d'': Db, slot: Slot, a: set<Pubkey>, b: set<Pubkey>, slots: set<Slot>, more: set<Slot>)
    requires Reclaiming(d, d', slot, a, slots) && a !! b && Reclaiming(d', d'', slot, b, more)
    ensures Reclaiming(d, d'', slot, a + b, slots + more)
  {
    forall t: Slot ensures t in slots + more <==> t < slot && StoredAt(d, a + b, t) {
      if t < slot {
        StoredAtJoins(d, d', slot, a, b, t);
      }
    }
  }

  lemma StoredAtJoins(d: Db, d': Db, slot: Slot, a: set<Pubkey>, b: set<Pubkey>, t: Slot)
    requires Reclaimed(d, d', slot, a) && a !! b && t < slot
    ensures StoredAt(d, a + b, t) <==> StoredAt(d, a, t) || StoredAt(d', b, t)
  {
    forall key | key in b ensures InStorage(d', (key, t)) <==> InStorage(d, (key, t)) {
      assert (key, t).1 < slot;
    }
  }

  /** Some entry leads to the storage. */
  ghost predicate Alive(d: Db, t: Slot) { exists key: Pubkey :: InStorage(d, (key, t)) }

  /** Of the candidates, exactly the storages without an entry have gone, and their roots with them. */
  ghost predicate DeadGone(d: Db, d': Db, slot: Slot, candidates: set<Slot>) {
    && d'.index == d.index
    && forall t: Slot | t < slot :: GoneIfDead(d, d', t, candidates)
  }

  ghost predicate GoneIfDead(d: Db, d': Db, t: Slot, candidates: set<Slot>) {
    && (t in d'.stores <==> t in d.stores && (t in candidates ==> Alive(d, t)))
    && (t in d'.roots <==> t in d.roots && (t in candidates ==> Alive(d, t)))
  }

  lemma OneMoreGone(d: Db, d': Db, d'': Db, slot: Slot, done: set<Slot>, s: Slot)
    requires DeadGone(d, d', slot, done) && d''.index == d'.index
    requires d''.stores.Keys == if Alive(d, s) then d'.stores.Keys else d'.stores.Keys - {s}
    requires d''.roots == if Alive(d, s) then d'.roots else d'.roots - {s}
    ensures DeadGone(d, d'', slot, done + {s})
  {
    forall t: Slot | t < slot ensures GoneIfDead(d, d'', t, done + {s}) {
      assert GoneIfDead(d, d', t, done);
    }
  }

  /** Cleaning below the slot: the stored entries of the keys have gone, and every storage that lost its
      last entry by that, with its root. */
  ghost predicate Cleaned(d: Db, d': Db, slot: Slot, keys: set<Pubkey>) {
    && Reclaimed(d, d', slot, keys)
    && forall t: Slot | t < slot && t in d.stores :: StorageCleaned(d, d', keys, t)
  }

  ghost predicate StorageCleaned(d: Db, d': Db, keys: set<Pubkey>, t: Slot) {
    && (t in d'.stores <==> (StoredAt(d, keys, t) ==> Alive(d', t)))
    && (t in d'.roots <==> t in d.roots && (StoredAt(d, keys, t) ==> Alive(d', t)))
  }

  ghost predicate SameBelow(d: Db, d': Db, slot: Slot) {
    && (forall e: (Pubkey, Slot) | e.1 < slot :: InStorage(d', e) <==> InStorage(d, e))
    && (forall t: Slot | t < slot :: (t in d'.stores <==> t in d.stores) && (t in d'.roots <==> t in d.roots))
  }

  lemma SameBelowTrans(d: Db, d': Db, d'': Db, slot: Slot)
    requires SameBelow(d, d', slot) && SameBelow(d', d'', slot)
    ensures SameBelow(d, d'', slot)
  {
  }

  lemma SameBelowKeeps(d: Db, d': Db, slot: Slot, keys: set<Pubkey>, t: Slot)
    requires SameBelow(d, d', slot) && t < slot
    ensures (StoredAt(d, keys, t) <==> StoredAt(d', keys, t)) && (Alive(d, t) <==> Alive(d', t))
  {
    forall key: Pubkey ensures InStorage(d', (key, t)) <==> InStorage(d, (key, t)) {
      assert (key, t).1 < slot;
    }
  }

  lemma NothingCleaned(d: Db, d': Db, slot: Slot)
    requires SameBelow(d, d', slot)
    ensures Cleaned(d, d', slot, {})
  {
  }

  /** First the entries go, then the storages. */
  lemma EntriesThenStorages(d: Db, d': Db, d'': Db, slot: Slot, keys: set<Pubkey>, slots: set<Slot>)
    requires Reclaiming(d, d', slot, keys, slots) && DeadGone(d', d'', slot, slots)
    requires forall t: Slot | t < slot :: (t in d'.stores <==> t in d.stores) && (t in d'.roots <==> t in d.roots)
    ensures Cleaned(d, d'', slot, keys)
  {
    forall t: Slot | t < slot && t in d.stores ensures StorageCleaned(d, d'', keys, t) {
      assert GoneIfDead(d', d'', t, slots);
    }
  }

  lemma CleanedAround(d0: Db, d: Db, d': Db, d1: Db, slot: Slot, keys: set<Pubkey>)
    requires SameBelow(d0, d, slot) && Cleaned(d, d', slot, keys) && SameBelow(d', d1, slot)
    ensures Cleaned(d0, d1, slot, keys)
  {
    forall t: Slot | t < slot && t in d0.stores ensures StorageCleaned(d0, d1, keys, t) {
      assert StorageCleaned(d, d', keys, t);
      SameBelowKeeps(d0, d, slot, keys, t);
      SameBelowKeeps(d', d1, slot, keys, t);
    }
  }

  /** Nothing but entries of the slot itself has changed. */
  ghost predicate OnlyHere(d: Db, d': Db, slot: Slot) { Local(d, d', slot) && SameBelow(d, d', slot) }

  lemma OnlyHereTrans(d: Db, d': Db, d'': Db, slot: Slot)
    requires OnlyHere(d, d', slot) && OnlyHere(d', d'', slot)
    ensures OnlyHere(d, d'', slot)
  {
    LocalTrans(d, d', d'', slot);
    SameBelowTrans(d, d', d'', slot);
  }

  /** While the entries of a slot move to storage: `todo` are those that have not yet. */
  ghost predicate Storing(d: Db, d': Db, slot: Slot, keys: set<Pubkey>, todo: set<Pubkey>, reclaim: bool, slots: set<Slot>) {
    && todo <= keys && Entries(d', slot, todo, keys - todo) && Local(d, d', slot)
    && Reclaiming(d, d', slot, if reclaim then keys - todo else {}, slots)
  }

  ghost predicate OneStored(d: Db, d': Db, slot: Slot, key: Pubkey, cached: set<Pubkey>, stored: set<Pubkey>, reclaim: bool, slots: set<Slot>) {
    && Entries(d', slot, cached - {key}, stored + {key}) && Local(d, d', slot)
    && Reclaiming(d, d', slot, OneKey(key, reclaim), slots)
  }

  lemma StoringStarts(d: Db, slot: Slot, keys: set<Pubkey>, reclaim: bool)
    requires Entries(d, slot, keys, {})
    ensures Storing(d, d, slot, keys, keys, reclaim, {})
  {
    ReclaimsNothing(d, slot);
    assert keys - keys == {};
  }

  lemma StoringNext(d: Db, d': Db, d'': Db, slot: Slot, keys: set<Pubkey>, todo: set<Pubkey>, reclaim: bool, slots: set<Slot>, key: Pubkey, more: set<Slot>)
    requires Storing(d, d', slot, keys, todo, reclaim, slots) && key in todo
    requires OneStored(d', d'', slot, key, todo, keys - todo, reclaim, more)
    ensures Storing(d, d'', slot, keys, todo - {key}, reclaim, slots + more)
  {
    var gone := if reclaim then keys - todo else {};
    LocalTrans(d, d', d'', slot);
    ReclaimedJoins(d, d', d'', slot, gone, OneKey(key, reclaim), slots, more);
    assert keys - (todo - {key}) == keys - todo + {key};
    assert gone + OneKey(key, reclaim) == if reclaim then keys - (todo - {key}) else {};
  }

  lemma StoringEnds(d: Db, d': Db, slot: Slot, keys: set<Pubkey>, reclaim: bool, slots: set<Slot>)
    requires Sound(d) && d'.stores == d.stores && Storing(d, d', slot, keys, {}, reclaim, slots)
    ensures AllStored(d, d', slot, keys, reclaim, slots) && StoredBelow(d', slots, slot)
  {
    assert keys - {} == keys;
    ReclaimedHaveStores(d, slot, if reclaim then keys else {}, slots);
  }

  ghost predicate AllStored(d: Db, d': Db, slot: Slot, keys: set<Pubkey>, reclaim: bool, slots: set<Slot>) {
    Entries(d', slot, {}, keys) && Local(d, d', slot) && Reclaiming(d, d', slot, if reclaim then keys else {}, slots)
  }

  ghost predicate SlotKept(d: Db, d': Db, slot: Slot) {
    && (slot in d'.stores <==> slot in d.stores) && (slot in d'.stores ==> d'.stores[slot] == d.stores[slot])
    && (slot in d'.roots <==> slot in d.roots) && d'.stores.Keys <= d.stores.Keys
  }

  /** While storages that lost their last entry are dropped. */
  ghost predicate Dropping(d: Db, d': Db, slot: Slot, done: set<Slot>) {
    Local(d, d', slot) && SlotKept(d, d', slot) && DeadGone(d, d', slot, done)
  }

  lemma DroppingNext(d: Db, d': Db, d'': Db, slot: Slot, done: set<Slot>, s: Slot)
    requires Dropping(d, d', slot, done) && Local(d', d'', slot) && s < slot && d''.index == d'.index
    requires d''.stores == (if Alive(d, s) then d'.stores else d'.stores - {s})
    requires d''.roots == if Alive(d, s) then d'.roots else d'.roots - {s}
    ensures Dropping(d, d'', slot, done + {s})
  {
    LocalTrans(d, d', d'', slot);
    OneMoreGone(d, d', d'', slot, done, s);
  }

  /** A new storage, then the entries, then the storages that have become empty. */
  lemma MoveCleans(d0: Db, d1: Db, d2: Db, d3: Db, slot: Slot, keys: set<Pubkey>, reclaim: bool, slots: set<Slot>)
    requires OnlyHere(d0, d1, slot) && AllStored(d1, d2, slot, keys, reclaim, slots) && Dropping(d2, d3, slot, slots)
    requires d2.stores == d1.stores && d2.roots == d1.roots
    ensures Entries(d3, slot, {}, keys) && Local(d0, d3, slot) && Cleaned(d0, d3, slot, if reclaim then keys else {})
  {
    LocalTrans(d0, d1, d2, slot);
    LocalTrans(d0, d2, d3, slot);
    EntriesThenStorages(d1, d2, d3, slot, if reclaim then keys else {}, slots);
    CleanedAround(d0, d1, d3, d3, slot, if reclaim then keys else {});
  }

  lemma ReclaimedAreApart(d: Db, slots: set<Slot>, slot: Slot)
    requires StoredBelow(d, slots, slot) && d.caches.Keys !! d.stores.Keys - {slot}
    ensures slots !! d.caches.Keys
  {
  }

  class AccountsDb {
    var caches: map<Slot, map<Pubkey, Account>>
    var stores: map<Slot, map<Pubkey, Account>>
    var index: map<(Pubkey, Slot), Place>
    var roots: set<Slot>
    var unflushed: set<Slot>
    var flushing: set<Slot>
    ghost var trace: seq<Db>  // every state the database went through

    ghost function Now(): Db
      reads this
    {
      Db(caches, stores, index, roots)
    }

    /** Reads from `from` on have seen the same thing in every state so far. */
    ghost predicate Steady(from: Slot)
      reads this
    {
      && Sound(Now()) && |trace| > 0 && trace[|trace| - 1] == Now()
      && forall i | 0 <= i < |trace| :: SameView(trace[0], trace[i], from)
    }

    ghost method Record(from: Slot, before: Db)
      requires |trace| > 0 && trace[|trace| - 1] == before && Sound(Now()) && OnlyHides(before, Now(), from)
      requires forall i | 0 <= i < |trace| :: SameView(trace[0], trace[i], from)
      modifies this`trace
      ensures Steady(from) && trace == old(trace) + [Now()]
    {
      HidingKeepsView(before, Now(), from);
      trace := trace + [Now()];
    }

    method DropEntry(key: Pubkey, slot: Slot, ghost from: Slot)
      requires Steady(from) && Hidden(Now(), key, slot, from)
      modifies this`index, this`trace
      ensures Steady(from) && Now() == WithoutEntry(old(Now()), key, slot) && trace == old(trace) + [Now()]
    {
      WithoutEntryHides(Now(), key, slot, from);
      ghost var before := Now();
      index := index - {(key, slot)};
      Record(from, before);
    }

    method AddStore(slot: Slot, accounts: map<Pubkey, Account>, ghost from: Slot)
      requires Steady(from) && slot !in stores
      modifies this`stores, this`trace
      ensures Steady(from) && Now() == WithStore(old(Now()), slot, accounts) && trace == old(trace) + [Now()]
    {
      WithStoreHides(Now(), slot, accounts, from);
      ghost var before := Now();
      stores := stores[slot := accounts];
      Record(from, before);
    }

    method MoveEntry(key: Pubkey, slot: Slot, reclaim: bool, ghost from: Slot) returns (reclaimed: set<Slot>)
      requires Steady(from) && Rooted(Now(), key, slot) && index[(key, slot)].Cached? && (reclaim ==> slot <= from)
      requires slot in stores && key in stores[slot] && Fetch(Now(), key, slot) == Some(stores[slot][key])
      modifies this`index, this`trace
      ensures Steady(from) && Now() == WithStoredEntry(old(Now()), key, slot, reclaim) && trace == old(trace) + [Now()]
      ensures reclaimed == SlotsOf(OlderStored(old(index), key, slot, reclaim))
    {
      WithStoredEntryHides(Now(), key, slot, reclaim, from);
      ghost var before := Now();
      var older := OlderStored(index, key, slot, reclaim);
      reclaimed := SlotsOf(older);
      index := (index - older)[(key, slot) := Stored];
      Record(from, before);
    }

    method DropStore(slot: Slot, ghost from: Slot)
      requires Steady(from) && Unused(Now(), slot, Stored) && slot !in caches
      modifies this`stores, this`roots, this`trace
      ensures Steady(from) && Now() == WithoutStore(WithoutRoot(old(Now()), slot), slot)
      ensures |trace| == |old(trace)| + 2 && trace[..|old(trace)|] == old(trace)
    {
      ghost var before := Now();
      assert Unused(before, slot, Cached) by {
        forall k | (k, slot) in before.index ensures before.index[(k, slot)] != Cached {
          assert Fetch(before, k, slot).Some?;
        }
      }
      WithoutRootHides(before, slot, from);
      roots := roots - {slot};
      Record(from, before);
      WithoutStoreHides(Now(), slot, from);
      before := Now();
      stores := stores - {slot};
      Record(from, before);
    }

    method DropCache(slot: Slot, ghost from: Slot)
      requires Steady(from) && Unused(Now(), slot, Cached)
      modifies this`caches, this`trace
      ensures Steady(from) && Now() == WithoutCache(old(Now()), slot) && trace == old(trace) + [Now()]
    {
      WithoutCacheHides(Now(), slot, from);
      ghost var before := Now();
      caches := caches - {slot};
      Record(from, before);
    }
  
    /** Drops one entry of a slot being flushed. */
    method PurgeKey(slot: Slot, key: Pubkey, ghost keys: set<Pubkey>, ghost cached: set<Pubkey>, ghost from: Slot)
      requires Steady(from) && Entries(Now(), slot, cached, {}) && key in cached && key in keys && AllHidden(Now(), keys, slot, from)
      modifies this`index, this`trace
      ensures Steady(from) && old(trace) <= trace && AllHidden(Now(), keys, slot, from)
      ensures Entries(Now(), slot, cached - {key}, {}) && OnlyHere(old(Now()), Now(), slot)
    {
      DropsOneEntry(Now(), key, slot, cached);
      OthersStayHidden(Now(), key, keys, slot, from);
      DropEntry(key, slot, from);
    }

    method PurgeKeys(slot: Slot, keys: set<Pubkey>, ghost all: set<Pubkey>, ghost from: Slot)
      requires Steady(from) && Entries(Now(), slot, all, {}) && keys <= all && AllHidden(Now(), keys, slot, from)
      modifies this`index, this`trace
      ensures Steady(from) && old(trace) <= trace
      ensures Entries(Now(), slot, all - keys, {}) && OnlyHere(old(Now()), Now(), slot)
    {
      var todo := keys;
      ghost var cached := all;
      while todo != {}
        invariant todo <= keys && cached == all - (keys - todo) && Steady(from) && old(trace) <= trace
        invariant Entries(Now(), slot, cached, {}) && OnlyHere(old(Now()), Now(), slot)
        invariant AllHidden(Now(), keys, slot, from)
      {
        var key :| key in todo;
        ghost var before := Now();
        PurgeKey(slot, key, keys, cached, from);
        OnlyHereTrans(old(Now()), before, Now(), slot);
        todo, cached := todo - {key}, cached - {key};
      }
      assert cached == all - keys;
    }

    /** Moves one entry of a slot being flushed from the cache to storage. */
    method StoreKey(slot: Slot, key: Pubkey, reclaim: bool, ghost cached: set<Pubkey>, ghost stored: set<Pubkey>, ghost from: Slot)
      returns (reclaimed: set<Slot>)
      requires Steady(from) && Entries(Now(), slot, cached, stored) && slot in roots && (reclaim ==> slot <= from)
      requires key in cached && slot in stores && slot in caches && Copied(caches[slot], stores[slot], {key})
      modifies this`index, this`trace
      ensures Steady(from) && old(trace) <= trace
      ensures OneStored(old(Now()), Now(), slot, key, cached, stored, reclaim, reclaimed)
    {
      MovesOneEntry(Now(), key, slot, reclaim, cached, stored);
      ReclaimsOne(Now(), key, slot, reclaim);
      reclaimed := MoveEntry(key, slot, reclaim, from);
    }

    method StoreKeys(slot: Slot, keys: set<Pubkey>, reclaim: bool, ghost from: Slot) returns (reclaimed: set<Slot>)
      requires Steady(from) && Entries(Now(), slot, keys, {}) && slot in roots && (reclaim ==> slot <= from)
      requires slot in caches && slot in stores && Copied(caches[slot], stores[slot], keys)
      modifies this`index, this`trace
      ensures Steady(from) && old(trace) <= trace
      ensures AllStored(old(Now()), Now(), slot, keys, reclaim, reclaimed)
      ensures StoredBelow(Now(), reclaimed, slot)
    {
      var todo := keys;
      reclaimed := {};
      StoringStarts(Now(), slot, keys, reclaim);
      while todo != {}
        invariant Steady(from) && old(trace) <= trace && Storing(old(Now()), Now(), slot, keys, todo, reclaim, reclaimed)
      {
        var key :| key in todo;
        ghost var before := Now();
        var more := StoreKey(slot, key, reclaim, todo, keys - todo, from);
        StoringNext(old(Now()), before, Now(), slot, keys, todo, reclaim, reclaimed, key, more);
        reclaimed, todo := reclaimed + more, todo - {key};
      }
      StoringEnds(old(Now()), Now(), slot, keys, reclaim, reclaimed);
    }

    /** A storage that lost its last entry is removed together with its root. */
    method DropIfDead(s: Slot, slot: Slot, ghost from: Slot)
      requires Steady(from) && s < slot && s in stores && s !in caches
      modifies this`stores, this`roots, this`trace
      ensures Steady(from) && old(trace) <= trace && Local(old(Now()), Now(), slot)
      ensures stores == if Alive(Now(), s) then old(stores) else old(stores) - {s}
      ensures roots == if Alive(Now(), s) then old(roots) else old(roots) - {s}
    {
      if forall e | e in index :: e.1 == s ==> index[e] != Stored {
        DropStore(s, from);
      }
    }

    method DropDeadStores(slot: Slot, candidates: set<Slot>, ghost from: Slot)
      requires Steady(from) && StoredBelow(Now(), candidates, slot) && candidates !! caches.Keys
      modifies this`stores, this`roots, this`trace
      ensures Steady(from) && old(trace) <= trace && Dropping(old(Now()), Now(), slot, candidates)
    {
      var todo := candidates;
      ghost var done: set<Slot> := {};
      while todo != {}
        invariant todo + done == candidates && Steady(from) && old(trace) <= trace && todo <= stores.Keys
        invariant Dropping(old(Now()), Now(), slot, done)
      {
        var s :| s in todo;
        ghost var before := Now();
        DropIfDead(s, slot, from);
        DroppingNext(old(Now()), before, Now(), slot, done, s);
        todo, done := todo - {s}, done + {s};
      }
      assert done == candidates;
    }

    /** Flushes one cached slot. When cleaning, the keys in `written` are already stored by a newer
        root: their entries are purged, and the others reclaim their older stored versions. */
    method FlushSlotCache(slot: Slot, clean: bool, bound: Option<Slot>, written: set<Pubkey>, ghost from: Slot)
      returns (written': set<Pubkey>)
      requires Steady(from) && Ready(Now(), slot) && slot in caches && Apart(Now())
      requires Protects(from, clean, bound, slot)
      requires Cleans(clean, bound, slot) ==> AllHidden(Now(), written, slot, from)
      modifies this`caches, this`stores, this`index, this`roots, this`trace
      ensures Steady(from) && old(trace) <= trace && Apart(Now())
      ensures Local(old(Now()), Now(), slot) && SlotFlushed(old(Now()), Now(), slot, clean, bound, written)
      ensures SlotCleaned(old(Now()), Now(), slot, clean, bound, written)
      // What is stored, and that an account leaves the older storages if and only if it is cleaned and stored.
      ensures SlotStores(old(Now()), Now(), slot, clean, bound, written)
      ensures written' == if Cleans(clean, bound, slot) then written + old(caches[slot]).Keys else written
    {
      var cleaning := Cleans(clean, bound, slot);
      var all := caches[slot].Keys;
      var keep := Kept(caches[slot], cleaning, written);
      written' := if cleaning then written + all else written;
      ReadyEntries(Now(), slot);
      PurgeKeys(slot, all - keep, all, from);
      assert all - (all - keep) == keep;
      ghost var purged := Now();
      StoreOrRetire(slot, keep, cleaning, from);
      LocalTrans(old(Now()), purged, Now(), slot);
      SlotSettled(old(Now()), Now(), slot, clean, bound, written);
      ghost var settled := Now();
      DropCache(slot, from);
      CleanedAround(old(Now()), purged, settled, Now(), slot, if cleaning then keep else {});
      FlushedStores(old(Now()), Now(), slot, clean, bound, written);
    }

    /** Stores what is kept of a slot; a slot that keeps nothing is no longer a root. */
    method StoreOrRetire(slot: Slot, keep: set<Pubkey>, reclaim: bool, ghost from: Slot)
      requires Steady(from) && Entries(Now(), slot, keep, {}) && slot in roots && (reclaim ==> slot <= from)
      requires slot in caches && keep <= caches[slot].Keys && Apart(Now())
      modifies this`stores, this`roots, this`index, this`trace
      ensures Steady(from) && old(trace) <= trace && Local(old(Now()), Now(), slot) && Settled(Now(), slot, keep)
      ensures Cleaned(old(Now()), Now(), slot, if reclaim then keep else {})
      ensures stores.Keys <= old(stores.Keys) + {slot}
    {
      if keep == {} {
        RetireRoot(slot, from);
        NothingCleaned(old(Now()), Now(), slot);
      } else {
        MoveToStorage(slot, keep, reclaim, from);
      }
    }

    /** A slot whose accounts were all superseded is no longer a root. */
    method RetireRoot(slot: Slot, ghost from: Slot)
      requires Steady(from) && Entries(Now(), slot, {}, {})
      modifies this`roots, this`trace
      ensures Steady(from) && old(trace) <= trace
      ensures Now() == WithoutRoot(old(Now()), slot) && Entries(Now(), slot, {}, {}) && OnlyHere(old(Now()), Now(), slot)
    {
      ghost var before := Now();
      assert Unused(before, slot, Cached) && Unused(before, slot, Stored);
      WithoutRootHides(before, slot, from);
      roots := roots - {slot};
      Record(from, before);
    }

    method AddStoreFor(slot: Slot, keys: set<Pubkey>, ghost from: Slot)
      requires Steady(from) && Entries(Now(), slot, keys, {}) && slot in caches && keys <= caches[slot].Keys && slot !in stores
      modifies this`stores, this`trace
      ensures Steady(from) && old(trace) <= trace && Entries(Now(), slot, keys, {}) && OnlyHere(old(Now()), Now(), slot)
      ensures stores == old(stores)[slot := Restrict(caches[slot], keys)]
    {
      AddStore(slot, Restrict(caches[slot], keys), from);
    }

    /** Writes the kept accounts to a new storage, then moves their index entries there. */
    method MoveToStorage(slot: Slot, keys: set<Pubkey>, reclaim: bool, ghost from: Slot)
      requires Steady(from) && Entries(Now(), slot, keys, {}) && slot in roots && (reclaim ==> slot <= from)
      requires slot in caches && keys <= caches[slot].Keys && Apart(Now())
      modifies this`stores, this`roots, this`index, this`trace
      ensures Steady(from) && old(trace) <= trace
      ensures Entries(Now(), slot, {}, keys) && Local(old(Now()), Now(), slot)
      ensures Cleaned(old(Now()), Now(), slot, if reclaim then keys else {})
      ensures slot in stores && stores[slot] == Restrict(caches[slot], keys) && slot in roots
      ensures stores.Keys <= old(stores.Keys) + {slot}
    {
      ghost var d0 := Now();
      AddStoreFor(slot, keys, from);
      RestrictCopies(caches[slot], keys);
      ghost var d1 := Now();
      var reclaimed := StoreKeys(slot, keys, reclaim, from);
      ghost var d2 := Now();
      ReclaimedAreApart(d2, reclaimed, slot);
      DropDeadStores(slot, reclaimed, from);
      MoveCleans(d0, d1, d2, Now(), slot, keys, reclaim, reclaimed);
    }

    /** Flushes the newest of the slots still to be flushed. */
    method FlushNext(flushed: set<Slot>, todo: set<Slot>, clean: bool, bound: Option<Slot>, written: set<Pubkey>, ghost d0: Db, ghost from: Slot)
      returns (slot: Slot, written': set<Pubkey>)
      requires todo != {} && Steady(from) && Progress(d0, Now(), flushed, todo, clean, bound, written, from)
      requires (forall s | s in todo :: Protects(from, clean, bound, s)) && Unstored(d0, flushed)
      modifies this`caches, this`stores, this`index, this`roots, this`trace
      ensures slot in todo && Steady(from) && old(trace) <= trace
      ensures Progress(d0, Now(), flushed, todo - {slot}, clean, bound, written', from)
    {
      slot := Largest(todo);
      ghost var d := Now();
      if slot in caches {
        HiddenByWritten(d0, d, flushed, todo, clean, bound, written, from, slot);
        written' := FlushSlotCache(slot, clean, bound, written, from);
        ProgressSlot(d0, d, Now(), flushed, todo, clean, bound, written, written', from, slot);
      } else {
        ProgressEmpty(d0, d, flushed, todo, clean, bound, written, from, slot);
        written' := written;
      }
    }

    /** Claims the roots up to the requested one and flushes them from the newest to the oldest. */
    method FlushRootedAccountsCache(requested: Option<Slot>, clean: bool, bound: Option<Slot>, ghost from: Slot)
      returns (flushed: set<Slot>)
      requires Steady(from) && Now() == trace[0] && Apart(Now()) && flushing == {}
      requires AllReady(Now(), unflushed)
      requires forall s | s in unflushed && (requested.Some? ==> s <= requested.value) :: Protects(from, clean, bound, s)
      modifies this
      ensures flushed == (set s | s in old(unflushed) && (requested.Some? ==> s <= requested.value))
      ensures unflushed == old(unflushed) - flushed && flushing == {}
      // Reads bounded from `from` on saw the same accounts throughout.
      ensures Steady(from) && trace[0] == old(Now())
      // Each flushed slot holds exactly its versions that no newer flushed root replaces.
      ensures AllFlushed(old(Now()), Now(), flushed, flushed, clean, bound)
      ensures CachesKept(old(Now()), Now(), flushed)
      // Of the flushed versions of an account at or below the bound of a cleaning flush only the newest is
      // stored; all others are stored in any case.
      ensures StoresNewest(old(Now()), Now(), flushed, clean, bound)
      // Those versions, and no others, replace stored versions below them.
      ensures Swept(old(Now()), Now(), flushed, clean, bound)
    {
      ghost var d0 := Now();
      flushed := set s | s in unflushed && (requested.Some? ==> s <= requested.value);
      unflushed, flushing := unflushed - flushed, flushed;
      var todo := flushed;
      var written: set<Pubkey> := {};
      ReadyUnstored(d0, flushed);
      NothingSwept(d0, clean, bound);
      while todo != {}
        invariant todo <= flushed && Steady(from) && trace[0] == d0
        invariant Progress(d0, Now(), flushed, todo, clean, bound, written, from)
        invariant unflushed == old(unflushed) - flushed
      {
        var slot;
        slot, written := FlushNext(flushed, todo, clean, bound, written, d0, from);
        todo := todo - {slot};
      }
      assert flushed - {} == flushed;
      flushing := {};
      FlushStores(d0, Now(), flushed, clean, bound);
    }
  }

  // ---- What the flush amounts to ----

  ghost predicate Replaced(d0: Db, flushed: set<Slot>, clean: bool, bound: Option<Slot>, key: Pubkey, s: Slot) {
    exists t :: t in flushed && s < t && Cleans(clean, bound, t) && t in d0.caches && key in d0.caches[t]
  }

  /** The keys of a slot that are written: all above the clean bound; else those not replaced by a
      newer flushed version at or below the bound. */
  ghost function WrittenKeys(d0: Db, flushed: set<Slot>, s: Slot, clean: bool, bound: Option<Slot>): set<Pubkey>
    requires s in d0.caches
  {
    set key | key in d0.caches[s] && (Cleans(clean, bound, s) ==> !Replaced(d0, flushed, clean, bound, key, s))
  }

  ghost predicate Contends(d0: Db, flushed: set<Slot>, clean: bool, bound: Option<Slot>, key: Pubkey, s: Slot) {
    s in flushed && clean && (bound.Some? ==> s <= bound.value) && CachedAt(d0, s, key)
  }

  ghost function Above(slots: set<Slot>, t: Slot): set<Slot> { set u | u in slots && u > t }

  /** Of the flushed versions of a key that may be cleaned, exactly one is written: the newest. */
  lemma {:induction false} OneVersionWritten(d0: Db, flushed: set<Slot>, clean: bool, bound: Option<Slot>, key: Pubkey, t: Slot)
    requires Contends(d0, flushed, clean, bound, key, t)
    ensures exists s: Slot ::
      && Contends(d0, flushed, clean, bound, key, s)
      && forall u: Slot | Contends(d0, flushed, clean, bound, key, u) ::
           u <= s && (key in WrittenKeys(d0, flushed, u, clean, bound) <==> u == s)
    decreases Above(flushed, t)
  {
    if Replaced(d0, flushed, clean, bound, key, t) {
      var u :| u in flushed && t < u && Cleans(clean, bound, u) && u in d0.caches && key in d0.caches[u];
      assert u !in Above(flushed, u) && u in Above(flushed, t);
      OneVersionWritten(d0, flushed, clean, bound, key, u);
    } else {
      forall u: Slot | Contends(d0, flushed, clean, bound, key, u)
        ensures u <= t && (key in WrittenKeys(d0, flushed, u, clean, bound) <==> u == t)
      {
        assert u <= t by {
          assert u > t ==> Replaced(d0, flushed, clean, bound, key, t);
        }
        if u < t {
          assert Replaced(d0, flushed, clean, bound, key, u);
        }
      }
    }
  }

  ghost predicate Flushed(d0: Db, d: Db, flushed: set<Slot>, s: Slot, clean: bool, bound: Option<Slot>)
    requires s in d0.caches
  {
    var keys := WrittenKeys(d0, flushed, s, clean, bound);
    && s !in d.caches && Entries(d, s, {}, keys)
    && (s in d.stores <==> keys != {}) && (keys != {} ==> d.stores[s] == Restrict(d0.caches[s], keys))
  }

  /** A flushed version above it, at or below the bound of a cleaning flush, replaces the stored version. */
  ghost predicate Superseded(d0: Db, done: set<Slot>, clean: bool, bound: Option<Slot>, e: (Pubkey, Slot)) {
    exists s: Slot :: s in done && clean && (bound.Some? ==> s <= bound.value) && e.1 < s && CachedAt(d0, s, e.0)
  }

  ghost predicate LostEntry(d0: Db, d: Db, t: Slot) {
    exists key: Pubkey :: InStorage(d0, (key, t)) && !InStorage(d, (key, t))
  }

  ghost predicate StorageSwept(d0: Db, d: Db, t: Slot) { t in d.stores <==> (LostEntry(d0, d, t) ==> Alive(d, t)) }

  /** Of what was in storage before, exactly the superseded entries have gone, and exactly the storages
      that lost an entry and have none left. */
  ghost predicate Swept(d0: Db, d: Db, done: set<Slot>, clean: bool, bound: Option<Slot>) {
    && (forall e: (Pubkey, Slot) | InStorage(d0, e) :: InStorage(d, e) <==> !Superseded(d0, done, clean, bound, e))
    && (forall t: Slot | t in d0.stores :: StorageSwept(d0, d, t))
    && NoNewEntries(d0, d, done)
  }

  ghost predicate NoNewEntries(d0: Db, d: Db, done: set<Slot>) {
    forall e: (Pubkey, Slot) | InStorage(d, e) && e.1 !in done :: InStorage(d0, e)
  }

  ghost predicate Unstored(d0: Db, flushed: set<Slot>) {
    forall s: Slot | s in flushed :: s !in d0.stores && forall key: Pubkey :: !InStorage(d0, (key, s))
  }

  lemma ReadyUnstored(d: Db, slots: set<Slot>)
    requires Sound(d) && AllReady(d, slots)
    ensures Unstored(d, slots)
  {
    forall s: Slot | s in slots ensures s !in d.stores && forall key: Pubkey :: !InStorage(d, (key, s)) {
      assert Ready(d, s);
      forall key: Pubkey ensures !InStorage(d, (key, s)) {
        assert (key, s) in d.index ==> Fetch(d, key, s).Some?;
      }
    }
  }

  lemma NothingSwept(d: Db, clean: bool, bound: Option<Slot>)
    requires Sound(d)
    ensures Swept(d, d, {}, clean, bound)
  {
  }

  /** Storing a slot supersedes what its own accounts replace; those that newer roots have written were
      superseded before. */
  lemma EntrySwept(d0: Db, d: Db, d': Db, done: set<Slot>, clean: bool, bound: Option<Slot>, written: set<Pubkey>, from: Slot, slot: Slot, e: (Pubkey, Slot))
    requires Swept(d0, d, done, clean, bound) && WrittenRight(d0, d, done, clean, bound, written, from)
    requires (forall t | t in done :: slot < t) && slot in d.caches && slot in d0.caches && d.caches[slot] == d0.caches[slot]
    requires Local(d, d', slot) && SlotCleaned(d, d', slot, clean, bound, written)
    requires InStorage(d0, e) && e.1 != slot
    ensures InStorage(d', e) <==> !Superseded(d0, done + {slot}, clean, bound, e)
  {
    if Superseded(d0, done, clean, bound, e) {
      assert Superseded(d0, done + {slot}, clean, bound, e);
    }
    if e.1 < slot && Cleans(clean, bound, slot) && e.0 in d0.caches[slot] {
      assert Superseded(d0, done + {slot}, clean, bound, e);
      if e.0 in written {
        WrittenSupersedes(d0, done, clean, bound, slot, e);
      }
    }
  }

  lemma WrittenSupersedes(d0: Db, done: set<Slot>, clean: bool, bound: Option<Slot>, slot: Slot, e: (Pubkey, Slot))
    requires WrittenBy(d0, done, clean, bound, e.0) && (forall t | t in done :: slot < t) && e.1 < slot
    ensures Superseded(d0, done, clean, bound, e)
  {
    var t :| t in done && Cleans(clean, bound, t) && t in d0.caches && e.0 in d0.caches[t];
    assert CachedAt(d0, t, e.0);
  }

  /** Another entry is lost at `t` only if it is one of the keys'. */
  lemma LostNow(d0: Db, d: Db, d': Db, done: set<Slot>, slot: Slot, keys: set<Pubkey>, t: Slot)
    requires NoNewEntries(d0, d, done) && Reclaimed(d, d', slot, keys) && t < slot && t !in done
    ensures LostEntry(d0, d', t) <==> LostEntry(d0, d, t) || StoredAt(d, keys, t)
    ensures !StoredAt(d, keys, t) ==> (Alive(d', t) <==> Alive(d, t))
    ensures Alive(d', t) ==> Alive(d, t)
  {
    forall key: Pubkey ensures InStorage(d', (key, t)) <==> InStorage(d, (key, t)) && key !in keys {
      assert (key, t).1 < slot;
    }
    forall key: Pubkey | InStorage(d, (key, t)) ensures InStorage(d0, (key, t)) {
      assert (key, t).1 !in done;
    }
  }

  lemma StorageBelowSwept(d0: Db, d: Db, d': Db, done: set<Slot>, slot: Slot, keys: set<Pubkey>, t: Slot)
    requires NoNewEntries(d0, d, done) && StorageSwept(d0, d, t) && t < slot && t !in done
    requires Local(d, d', slot) && Cleaned(d, d', slot, keys)
    ensures StorageSwept(d0, d', t)
  {
    LostNow(d0, d, d', done, slot, keys, t);
    if t in d.stores {
      assert StorageCleaned(d, d', keys, t);
    }
  }

  lemma StorageAboveSwept(d0: Db, d: Db, d': Db, slot: Slot, t: Slot)
    requires StorageSwept(d0, d, t) && t > slot && Local(d, d', slot)
    ensures StorageSwept(d0, d', t)
  {
    forall key: Pubkey ensures InStorage(d', (key, t)) <==> InStorage(d, (key, t)) {
      assert (key, t).1 > slot;
    }
  }

  lemma SweptGrows(d0: Db, d: Db, d': Db, done: set<Slot>, clean: bool, bound: Option<Slot>, written: set<Pubkey>, from: Slot, slot: Slot)
    requires Swept(d0, d, done, clean, bound) && WrittenRight(d0, d, done, clean, bound, written, from)
    requires (forall t | t in done :: slot < t) && slot in d.caches && slot in d0.caches && d.caches[slot] == d0.caches[slot]
    requires Local(d, d', slot) && SlotCleaned(d, d', slot, clean, bound, written) && Unstored(d0, {slot})
    ensures Swept(d0, d', done + {slot}, clean, bound)
  {
    forall e: (Pubkey, Slot) | InStorage(d0, e) ensures InStorage(d', e) <==> !Superseded(d0, done + {slot}, clean, bound, e) {
      assert e == (e.0, e.1) && e.1 != slot;
      EntrySwept(d0, d, d', done, clean, bound, written, from, slot, e);
    }
    forall t: Slot | t in d0.stores ensures StorageSwept(d0, d', t) {
      if t > slot {
        StorageAboveSwept(d0, d, d', slot, t);
      } else {
        StorageBelowSwept(d0, d, d', done, slot, if Cleans(clean, bound, slot) then Kept(d.caches[slot], true, written) else {}, t);
      }
    }
  }

  ghost predicate Descending(flushed: set<Slot>, todo: set<Slot>) {
    todo <= flushed && forall s, t | s in todo && t in flushed && t !in todo :: s < t
  }

  ghost predicate AllReady(d: Db, todo: set<Slot>) {
    forall s | s in todo :: Ready(d, s)
  }

  ghost predicate CachesKept(d0: Db, d: Db, done: set<Slot>) {
    forall s | s !in done :: (s in d.caches <==> s in d0.caches) && (s in d.caches ==> d.caches[s] == d0.caches[s])
  }

  ghost predicate AllFlushed(d0: Db, d: Db, flushed: set<Slot>, done: set<Slot>, clean: bool, bound: Option<Slot>) {
    forall s | s in done && s in d0.caches :: Flushed(d0, d, flushed, s, clean, bound)
  }

  ghost predicate WrittenRight(d0: Db, d: Db, done: set<Slot>, clean: bool, bound: Option<Slot>, written: set<Pubkey>, from: Slot) {
    && (forall key: Pubkey :: key in written <==> WrittenBy(d0, done, clean, bound, key))
    && (forall key | key in written :: Visible(d, done, key, from))
  }

  ghost predicate Progress(d0: Db, d: Db, flushed: set<Slot>, todo: set<Slot>, clean: bool, bound: Option<Slot>,
                           written: set<Pubkey>, from: Slot) {
    && Apart(d) && Descending(flushed, todo) && AllReady(d, todo)
    && Done(d0, d, flushed, flushed - todo, clean, bound, written, from)
  }

  ghost predicate Done(d0: Db, d: Db, flushed: set<Slot>, done: set<Slot>, clean: bool, bound: Option<Slot>, written: set<Pubkey>, from: Slot) {
    && CachesKept(d0, d, done) && AllFlushed(d0, d, flushed, done, clean, bound)
    && WrittenRight(d0, d, done, clean, bound, written, from) && Swept(d0, d, done, clean, bound)
  }

  ghost predicate WrittenBy(d0: Db, done: set<Slot>, clean: bool, bound: Option<Slot>, key: Pubkey) {
    exists t :: t in done && Cleans(clean, bound, t) && t in d0.caches && key in d0.caches[t]
  }

  ghost predicate Visible(d: Db, done: set<Slot>, key: Pubkey, from: Slot) {
    exists t :: t in done && t <= from && Rooted(d, key, t)
  }

  lemma HiddenByWritten(d0: Db, d: Db, flushed: set<Slot>, todo: set<Slot>, clean: bool, bound: Option<Slot>,
                        written: set<Pubkey>, from: Slot, slot: Slot)
    requires Descending(flushed, todo) && WrittenRight(d0, d, flushed - todo, clean, bound, written, from) && slot in todo
    ensures AllHidden(d, written, slot, from)
  {
  }

  lemma ProgressEmpty(d0: Db, d: Db, flushed: set<Slot>, todo: set<Slot>, clean: bool, bound: Option<Slot>,
                      written: set<Pubkey>, from: Slot, slot: Slot)
    requires Progress(d0, d, flushed, todo, clean, bound, written, from) && slot in todo && slot !in d.caches
    requires forall s | s in todo :: s <= slot
    ensures Progress(d0, d, flushed, todo - {slot}, clean, bound, written, from)
  {
    assert flushed - (todo - {slot}) == (flushed - todo) + {slot};
  }

  lemma OlderStaysReady(d: Db, d': Db, slot: Slot, s: Slot)
    requires Local(d, d', slot) && Ready(d, s) && s < slot
    ensures Ready(d', s)
  {
  }

  lemma NewerStaysFlushed(d0: Db, d: Db, d': Db, flushed: set<Slot>, clean: bool, bound: Option<Slot>, slot: Slot, s: Slot)
    requires Local(d, d', slot) && s > slot && s in d0.caches && Flushed(d0, d, flushed, s, clean, bound)
    ensures Flushed(d0, d', flushed, s, clean, bound)
  {
  }

  /** The newer flushed slots are those already done, so `written` decides which keys are replaced. */
  lemma WrittenMeansReplaced(d0: Db, flushed: set<Slot>, todo: set<Slot>, clean: bool, bound: Option<Slot>, slot: Slot, key: Pubkey)
    requires todo <= flushed && slot in todo && (forall s | s in todo :: s <= slot)
    requires forall t | t in flushed && t !in todo :: slot < t
    ensures WrittenBy(d0, flushed - todo, clean, bound, key) <==> Replaced(d0, flushed, clean, bound, key, slot)
  {
  }

  ghost predicate SlotCleaned(d: Db, d': Db, slot: Slot, clean: bool, bound: Option<Slot>, written: set<Pubkey>)
    requires slot in d.caches
  {
    Cleaned(d, d', slot, if Cleans(clean, bound, slot) then Kept(d.caches[slot], true, written) else {})
  }

  ghost predicate CachedAt(d: Db, s: Slot, key: Pubkey) { s in d.caches && key in d.caches[s] }

  ghost predicate KeptAt(d: Db, s: Slot, key: Pubkey) { s in d.stores && key in d.stores[s] }

  /** A slot at or below the bound of a cleaning flush stores what no newer root has written, and that
      replaces older stored versions; any other slot stores all its accounts, and replaces nothing. */
  ghost predicate SlotStores(d: Db, d': Db, slot: Slot, clean: bool, bound: Option<Slot>, written: set<Pubkey>)
    requires slot in d.caches
  {
    && (forall key: Pubkey :: KeptAt(d', slot, key) <==>
          key in d.caches[slot] && !(clean && (bound.Some? ==> slot <= bound.value) && key in written))
    && (forall key: Pubkey | KeptAt(d', slot, key) :: d'.stores[slot][key] == d.caches[slot][key])
    && (forall e: (Pubkey, Slot) | e.1 < slot && InStorage(d, e) ::
          InStorage(d', e) <==> !(clean && (bound.Some? ==> slot <= bound.value) && KeptAt(d', slot, e.0)))
  }

  lemma FlushedStores(d: Db, d': Db, slot: Slot, clean: bool, bound: Option<Slot>, written: set<Pubkey>)
    requires slot in d.caches && SlotFlushed(d, d', slot, clean, bound, written) && SlotCleaned(d, d', slot, clean, bound, written)
    ensures SlotStores(d, d', slot, clean, bound, written)
  {
    var keys := Kept(d.caches[slot], Cleans(clean, bound, slot), written);
    forall key: Pubkey ensures KeptAt(d', slot, key) <==> key in keys {
    }
  }

  ghost predicate SlotFlushed(d: Db, d': Db, slot: Slot, clean: bool, bound: Option<Slot>, written: set<Pubkey>)
    requires slot in d.caches
  {
    var keys := Kept(d.caches[slot], Cleans(clean, bound, slot), written);
    && slot !in d'.caches && Entries(d', slot, {}, keys)
    && (slot in d'.stores <==> keys != {}) && (slot in d'.roots <==> keys != {})
    && (keys != {} ==> d'.stores[slot] == Restrict(d.caches[slot], keys))
  }

  lemma SlotIsFlushed(d0: Db, d: Db, d': Db, flushed: set<Slot>, todo: set<Slot>, clean: bool, bound: Option<Slot>,
                      written: set<Pubkey>, from: Slot, slot: Slot)
    requires Descending(flushed, todo) && slot in todo && (forall s | s in todo :: s <= slot)
    requires CachesKept(d0, d, flushed - todo) && WrittenRight(d0, d, flushed - todo, clean, bound, written, from)
    requires slot in d.caches && SlotFlushed(d, d', slot, clean, bound, written)
    ensures slot in d0.caches && Flushed(d0, d', flushed, slot, clean, bound)
  {
    forall key: Pubkey ensures key in written <==> Replaced(d0, flushed, clean, bound, key, slot) {
      WrittenMeansReplaced(d0, flushed, todo, clean, bound, slot, key);
    }
    var keys := Kept(d.caches[slot], Cleans(clean, bound, slot), written);
    assert keys == WrittenKeys(d0, flushed, slot, clean, bound);
  }

  lemma WrittenGrows(d0: Db, d: Db, d': Db, done: set<Slot>, clean: bool, bound: Option<Slot>,
                     written: set<Pubkey>, from: Slot, slot: Slot)
    requires WrittenRight(d0, d, done, clean, bound, written, from) && (forall t | t in done :: slot < t)
    requires slot in d.caches && slot in d0.caches && d.caches[slot] == d0.caches[slot]
    requires Local(d, d', slot) && Protects(from, clean, bound, slot) && SlotFlushed(d, d', slot, clean, bound, written)
    ensures WrittenRight(d0, d', done + {slot}, clean, bound,
                         if Cleans(clean, bound, slot) then written + d.caches[slot].Keys else written, from)
  {
    var written' := if Cleans(clean, bound, slot) then written + d.caches[slot].Keys else written;
    forall key | key in written' ensures Visible(d', done + {slot}, key, from) && WrittenBy(d0, done + {slot}, clean, bound, key) {
      if key in written {
        var t :| t in done && t <= from && Rooted(d, key, t);
        assert Rooted(d', key, t);
      } else {
        assert Rooted(d', key, slot);
      }
    }
    forall key: Pubkey | WrittenBy(d0, done + {slot}, clean, bound, key) ensures key in written' {
      assert key in d0.caches[slot] || WrittenBy(d0, done, clean, bound, key);
    }
  }

  lemma FlushedGrows(d0: Db, d: Db, d': Db, flushed: set<Slot>, done: set<Slot>, clean: bool, bound: Option<Slot>, slot: Slot)
    requires AllFlushed(d0, d, flushed, done, clean, bound) && Local(d, d', slot) && (forall t | t in done :: slot < t)
    requires slot in d0.caches ==> Flushed(d0, d', flushed, slot, clean, bound)
    ensures AllFlushed(d0, d', flushed, done + {slot}, clean, bound)
  {
    forall s | s in done && s in d0.caches ensures Flushed(d0, d', flushed, s, clean, bound) {
      NewerStaysFlushed(d0, d, d', flushed, clean, bound, slot, s);
    }
  }

  lemma ProgressSlot(d0: Db, d: Db, d': Db, flushed: set<Slot>, todo: set<Slot>, clean: bool, bound: Option<Slot>,
                     written: set<Pubkey>, written': set<Pubkey>, from: Slot, slot: Slot)
    requires Progress(d0, d, flushed, todo, clean, bound, written, from) && slot in todo && slot in d.caches
    requires (forall s | s in todo :: s <= slot) && Protects(from, clean, bound, slot)
    requires Local(d, d', slot) && Apart(d') && SlotFlushed(d, d', slot, clean, bound, written)
    requires SlotCleaned(d, d', slot, clean, bound, written) && Unstored(d0, flushed)
    requires written' == if Cleans(clean, bound, slot) then written + d.caches[slot].Keys else written
    ensures Progress(d0, d', flushed, todo - {slot}, clean, bound, written', from)
  {
    OneMoreDone(flushed, todo, slot);
    UnstoredOne(d0, flushed, slot);
    ReadyShrinks(d, d', todo, slot);
    SlotIsFlushed(d0, d, d', flushed, todo, clean, bound, written, from, slot);
    DoneGrows(d0, d, d', flushed, flushed - todo, clean, bound, written, from, slot);
  }

  lemma OneMoreDone(flushed: set<Slot>, todo: set<Slot>, slot: Slot)
    requires Descending(flushed, todo) && slot in todo && forall s | s in todo :: s <= slot
    ensures Descending(flushed, todo - {slot}) && flushed - (todo - {slot}) == (flushed - todo) + {slot}
    ensures forall t | t in flushed - todo :: slot < t
  {
  }

  lemma UnstoredOne(d0: Db, flushed: set<Slot>, slot: Slot)
    requires Unstored(d0, flushed) && slot in flushed
    ensures Unstored(d0, {slot})
  {
  }

  lemma DoneGrows(d0: Db, d: Db, d': Db, flushed: set<Slot>, done: set<Slot>, clean: bool, bound: Option<Slot>,
                  written: set<Pubkey>, from: Slot, slot: Slot)
    requires Done(d0, d, flushed, done, clean, bound, written, from) && (forall t | t in done :: slot < t)
    requires slot in d.caches && slot in d0.caches && Flushed(d0, d', flushed, slot, clean, bound)
    requires Local(d, d', slot) && Protects(from, clean, bound, slot) && SlotFlushed(d, d', slot, clean, bound, written)
    requires SlotCleaned(d, d', slot, clean, bound, written) && Unstored(d0, {slot})
    ensures Done(d0, d', flushed, done + {slot}, clean, bound,
                 if Cleans(clean, bound, slot) then written + d.caches[slot].Keys else written, from)
  {
    CachesKeptGrows(d0, d, d', done, slot);
    FlushedGrows(d0, d, d', flushed, done, clean, bound, slot);
    WrittenGrows(d0, d, d', done, clean, bound, written, from, slot);
    SweptGrows(d0, d, d', done, clean, bound, written, from, slot);
  }

  lemma ReadyShrinks(d: Db, d': Db, todo: set<Slot>, slot: Slot)
    requires AllReady(d, todo) && Local(d, d', slot) && forall s | s in todo :: s <= slot
    ensures AllReady(d', todo - {slot})
  {
    forall s | s in todo - {slot} ensures Ready(d', s) {
      OlderStaysReady(d, d', slot, s);
    }
  }

  lemma CachesKeptGrows(d0: Db, d: Db, d': Db, done: set<Slot>, slot: Slot)
    requires CachesKept(d0, d, done) && Local(d, d', slot)
    ensures CachesKept(d0, d', done + {slot})
  {
  }

  /** The flushed version is the newest one at or below the bound. */
  ghost predicate NewestUpTo(d0: Db, flushed: set<Slot>, bound: Option<Slot>, key: Pubkey, s: Slot) {
    forall t: Slot | t in flushed && (bound.Some? ==> t <= bound.value) && CachedAt(d0, t, key) :: t <= s
  }

  ghost predicate StoresNewestAt(d0: Db, d: Db, flushed: set<Slot>, clean: bool, bound: Option<Slot>, s: Slot, key: Pubkey)
    requires CachedAt(d0, s, key)
  {
    && (KeptAt(d, s, key) <==> (clean && (bound.Some? ==> s <= bound.value) ==> NewestUpTo(d0, flushed, bound, key, s)))
    && (KeptAt(d, s, key) ==> d.stores[s][key] == d0.caches[s][key])
  }

  ghost predicate StoresNewest(d0: Db, d: Db, flushed: set<Slot>, clean: bool, bound: Option<Slot>) {
    forall s: Slot, key: Pubkey | s in flushed && CachedAt(d0, s, key) :: StoresNewestAt(d0, d, flushed, clean, bound, s, key)
  }

  lemma FlushStores(d0: Db, d: Db, flushed: set<Slot>, clean: bool, bound: Option<Slot>)
    requires AllFlushed(d0, d, flushed, flushed, clean, bound)
    ensures StoresNewest(d0, d, flushed, clean, bound)
  {
    forall s: Slot, key: Pubkey | s in flushed && CachedAt(d0, s, key)
      ensures StoresNewestAt(d0, d, flushed, clean, bound, s, key)
    {
      FlushStoresAt(d0, d, flushed, clean, bound, s, key);
    }
  }

  lemma FlushStoresAt(d0: Db, d: Db, flushed: set<Slot>, clean: bool, bound: Option<Slot>, s: Slot, key: Pubkey)
    requires CachedAt(d0, s, key) && Flushed(d0, d, flushed, s, clean, bound)
    ensures StoresNewestAt(d0, d, flushed, clean, bound, s, key)
  {
    var keys := WrittenKeys(d0, flushed, s, clean, bound);
    assert KeptAt(d, s, key) <==> key in keys;
    if clean && (bound.Some? ==> s <= bound.value) {
      if NewestUpTo(d0, flushed, bound, key, s) {
        assert !Replaced(d0, flushed, clean, bound, key, s) by {
          if t :| t in flushed && s < t && Cleans(clean, bound, t) && t in d0.caches && key in d0.caches[t] {
            assert CachedAt(d0, t, key);
          }
        }
      } else {
        var t: Slot :| t in flushed && (bound.Some? ==> t <= bound.value) && CachedAt(d0, t, key) && t > s;
        assert Replaced(d0, flushed, clean, bound, key, s);
      }
    }
  }

  lemma ReadyShows(d: Db, slot: Slot, key: Pubkey)
    requires Ready(d, slot) && slot in d.caches && key in d.caches[slot]
    ensures Shows(d, key, slot, slot, d.caches[slot][key])
  {
  }

  /** Without a bound, a flush that cleans drops the older of two versions. */
  lemma ReplacedIsGone(d0: Db, d: Db, flushed: set<Slot>, older: Slot, newer: Slot, key: Pubkey)
    requires older in d0.caches && key in d0.caches[older] && Flushed(d0, d, flushed, older, true, None)
    requires newer in flushed && older < newer && newer in d0.caches && key in d0.caches[newer]
    ensures (key, older) !in d.index
  {
    assert Replaced(d0, flushed, true, None, key, older);
    assert key !in WrittenKeys(d0, flushed, older, true, None);
  }
}
