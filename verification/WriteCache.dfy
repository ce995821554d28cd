/** The write cache: accounts of recent slots, a reference-counted index over them, and the roots
    that wait to be flushed. */
module WriteCache {
  import opened Types
  import opened Sums

  datatype SlotStatus = Ancestor | AncestorBeingFlushed | UnflushedRoot | RootBeingFlushed

  datatype Found = Found(account: Account, slot: Slot, status: SlotStatus)

  datatype SlotCache = SlotCache(accounts: map<Pubkey, Account>, size: nat, count: nat)

  /** The highest slot a key was ever written to while it stayed in the cache, and the number of
      slots that hold it now. */
  datatype IndexEntry = IndexEntry(maxSlot: Slot, refs: nat)

  type Contents = map<Slot, map<Pubkey, Account>>

  // ---- Specification ----

  ghost function Holders(c: Contents, key: Pubkey): set<Slot> {
    set s | s in c && key in c[s]
  }

  ghost predicate KeyRight(c: Contents, index: map<Pubkey, IndexEntry>, key: Pubkey) {
    var holders := Holders(c, key);
    if holders == {} then key !in index
    else key in index && index[key].refs == |holders| && forall s | s in holders :: s <= index[key].maxSlot
  }

  ghost predicate IndexRight(c: Contents, index: map<Pubkey, IndexEntry>) {
    forall key: Pubkey :: KeyRight(c, index, key)
  }

  ghost function DataLens(accounts: map<Pubkey, Account>): map<Pubkey, int> { map k | k in accounts :: |accounts[k].data| }

  ghost function DataSize(accounts: map<Pubkey, Account>): int { Sum(DataLens(accounts)) }

  ghost predicate Sized(s: SlotCache) {
    s.size == DataSize(s.accounts) && s.count == |s.accounts|
  }

  ghost predicate SizedAt(caches: map<Slot, SlotCache>, slot: Slot) { slot in caches ==> Sized(caches[slot]) }

  ghost predicate AllSized(caches: map<Slot, SlotCache>) {
    forall s: Slot :: SizedAt(caches, s)
  }

  ghost function SizeMap(caches: map<Slot, SlotCache>): map<Slot, int> { map s | s in caches :: caches[s].size }
  ghost function CountMap(caches: map<Slot, SlotCache>): map<Slot, int> { map s | s in caches :: caches[s].count }
  ghost function Sizes(caches: map<Slot, SlotCache>): int { Sum(SizeMap(caches)) }
  ghost function Counts(caches: map<Slot, SlotCache>): int { Sum(CountMap(caches)) }

  /** Slot caches taken out of the map whose last reference has not been dropped. */
  ghost function DetachedSizes(d: seq<SlotCache>): nat { if d == [] then 0 else d[0].size + DetachedSizes(d[1..]) }
  ghost function DetachedCounts(d: seq<SlotCache>): nat { if d == [] then 0 else d[0].count + DetachedCounts(d[1..]) }

  ghost predicate TotalsRight(caches: map<Slot, SlotCache>, detached: seq<SlotCache>, totalSize: int, totalCount: int) {
    && AllSized(caches)
    && totalSize == Sizes(caches) + DetachedSizes(detached)
    && totalCount == Counts(caches) + DetachedCounts(detached)
  }

  ghost predicate Held(c: Contents, slot: Slot, key: Pubkey) { slot in c && key in c[slot] }

  ghost predicate NotAbove(slot: Slot, ancestors: set<Slot>) { forall a | a in ancestors :: slot <= a }

  ghost predicate Hit(c: Contents, slots: set<Slot>, key: Pubkey, slot: Slot) { slot in slots && Held(c, slot, key) }

  /** The naive search of the roots: the highest unflushed root not above the lowest ancestor; else the
      highest such root being flushed. */
  ghost predicate IsLatestRoot(c: Contents, unflushed: set<Slot>, flushing: set<Slot>, key: Pubkey, ancestors: set<Slot>, r: Option<Found>) {
    if exists s: Slot :: Hit(c, unflushed, key, s) && NotAbove(s, ancestors) then
      && r.Some? && Hit(c, unflushed, key, r.value.slot) && NotAbove(r.value.slot, ancestors) && r.value.account == c[r.value.slot][key]
      && (forall s: Slot | Hit(c, unflushed, key, s) && NotAbove(s, ancestors) :: s <= r.value.slot)
      && r.value.status == UnflushedRoot
    else if exists s: Slot :: Hit(c, flushing, key, s) && NotAbove(s, ancestors) then
      && r.Some? && Hit(c, flushing, key, r.value.slot) && NotAbove(r.value.slot, ancestors) && r.value.account == c[r.value.slot][key]
      && (forall s: Slot | Hit(c, flushing, key, s) && NotAbove(s, ancestors) :: s <= r.value.slot)
      && r.value.status == RootBeingFlushed
    else r.None?
  }

  /** The naive search: the highest ancestor that holds the key; else what the search of the roots finds. */
  ghost predicate IsLatest(c: Contents, unflushed: set<Slot>, flushing: set<Slot>, key: Pubkey, ancestors: set<Slot>, r: Option<Found>) {
    if exists s: Slot :: Hit(c, ancestors, key, s) then
      && r.Some? && Hit(c, ancestors, key, r.value.slot) && r.value.account == c[r.value.slot][key]
      && (forall s: Slot | Hit(c, ancestors, key, s) :: s <= r.value.slot)
      && r.value.status == (if r.value.slot in flushing then AncestorBeingFlushed else Ancestor)
    else IsLatestRoot(c, unflushed, flushing, key, ancestors, r)
  }

  // ---- The index follows the contents ----

  function Inserted(index: map<Pubkey, IndexEntry>, key: Pubkey, slot: Slot): map<Pubkey, IndexEntry> {
    if key in index then index[key := IndexEntry(if slot > index[key].maxSlot then slot else index[key].maxSlot, index[key].refs + 1)]
    else index[key := IndexEntry(slot, 1)]
  }

  lemma InsertKeepsKey(c: Contents, c': Contents, index: map<Pubkey, IndexEntry>, key: Pubkey, slot: Slot)
    requires KeyRight(c, index, key) && !Held(c, slot, key)
    requires Holders(c', key) == Holders(c, key) + {slot}
    ensures KeyRight(c', Inserted(index, key, slot), key)
  {
    assert slot !in Holders(c, key);
  }

  function Released(index: map<Pubkey, IndexEntry>, key: Pubkey): map<Pubkey, IndexEntry>
    requires key in index && index[key].refs > 0
  {
    if index[key].refs == 1 then index - {key} else index[key := index[key].(refs := index[key].refs - 1)]
  }

  lemma ReleaseKeepsKey(c: Contents, index: map<Pubkey, IndexEntry>, key: Pubkey, slot: Slot)
    requires KeyRight(c, index, key) && Held(c, slot, key)
    ensures key in index && index[key].refs > 0 && KeyRight(c - {slot}, Released(index, key), key)
  {
    assert slot in Holders(c, key);
    assert Holders(c - {slot}, key) == Holders(c, key) - {slot};
    assert |Holders(c, key) - {slot}| == |Holders(c, key)| - 1;
  }

  /** The slot is gone and the keys in `todo` have not been released yet. */
  ghost predicate HalfRemoved(c: Contents, index: map<Pubkey, IndexEntry>, slot: Slot, todo: set<Pubkey>) {
    && (forall k: Pubkey | k in todo :: KeyRight(c, index, k) && Held(c, slot, k))
    && (forall k: Pubkey | k !in todo :: KeyRight(c - {slot}, index, k))
  }

  lemma RemovalStarts(c: Contents, index: map<Pubkey, IndexEntry>, slot: Slot)
    requires IndexRight(c, index) && slot in c
    ensures HalfRemoved(c, index, slot, c[slot].Keys)
  {
    forall k: Pubkey | k !in c[slot] ensures KeyRight(c - {slot}, index, k) {
      assert KeyRight(c, index, k);
      assert Holders(c - {slot}, k) == Holders(c, k);
    }
  }

  lemma RemovalEnds(c: Contents, index: map<Pubkey, IndexEntry>, slot: Slot)
    requires HalfRemoved(c, index, slot, {})
    ensures IndexRight(c - {slot}, index)
  {
  }

  lemma HalfRemovedStep(c: Contents, index: map<Pubkey, IndexEntry>, slot: Slot, todo: set<Pubkey>, key: Pubkey)
    requires HalfRemoved(c, index, slot, todo) && key in todo
    ensures key in index && index[key].refs > 0
    ensures HalfRemoved(c, Released(index, key), slot, todo - {key})
  {
    ReleaseKeepsKey(c, index, key, slot);
  }

  ghost function Put(c: Contents, slot: Slot, key: Pubkey, account: Account): Contents {
    c[slot := (if slot in c then c[slot] else map[])[key := account]]
  }

  lemma PutHolders(c: Contents, slot: Slot, key: Pubkey, account: Account, k: Pubkey)
    ensures Holders(Put(c, slot, key, account), k) == if k == key then Holders(c, k) + {slot} else Holders(c, k)
  {
  }

  lemma StoreKeepsIndex(c: Contents, index: map<Pubkey, IndexEntry>, index': map<Pubkey, IndexEntry>, slot: Slot, key: Pubkey, account: Account)
    requires IndexRight(c, index)
    requires index' == if Held(c, slot, key) then index else Inserted(index, key, slot)
    ensures IndexRight(Put(c, slot, key, account), index')
  {
    forall k: Pubkey ensures KeyRight(Put(c, slot, key, account), index', k) {
      assert KeyRight(c, index, k);
      PutHolders(c, slot, key, account, k);
      if k == key {
        if Held(c, slot, key) {
          assert Holders(c, k) + {slot} == Holders(c, k);
        } else {
          InsertKeepsKey(c, Put(c, slot, key, account), index, key, slot);
        }
      }
    }
  }

  // ---- The totals follow the contents ----

  lemma SizesUpdate(caches: map<Slot, SlotCache>, slot: Slot, cache: SlotCache)
    ensures Sizes(caches[slot := cache]) == Sizes(caches) - (if slot in caches then caches[slot].size else 0) + cache.size
    ensures slot in caches ==> Sizes(caches) >= caches[slot].size
  {
    SumAdds(SizeMap(caches), slot, cache.size);
    assert SizeMap(caches[slot := cache]) == SizeMap(caches)[slot := cache.size];
    if slot in caches {
      SumAtLeast(SizeMap(caches), slot);
    }
  }

  lemma CountsUpdate(caches: map<Slot, SlotCache>, slot: Slot, cache: SlotCache)
    ensures Counts(caches[slot := cache]) == Counts(caches) - (if slot in caches then caches[slot].count else 0) + cache.count
    ensures slot in caches ==> Counts(caches) >= caches[slot].count
  {
    SumAdds(CountMap(caches), slot, cache.count);
    assert CountMap(caches[slot := cache]) == CountMap(caches)[slot := cache.count];
    if slot in caches {
      SumAtLeast(CountMap(caches), slot);
    }
  }

  lemma SizesRemove(caches: map<Slot, SlotCache>, slot: Slot)
    requires slot in caches
    ensures Sizes(caches) == Sizes(caches - {slot}) + caches[slot].size
    ensures Counts(caches) == Counts(caches - {slot}) + caches[slot].count
  {
    SumTakesOut(SizeMap(caches), slot);
    SumTakesOut(CountMap(caches), slot);
    assert SizeMap(caches - {slot}) == SizeMap(caches) - {slot};
    assert CountMap(caches - {slot}) == CountMap(caches) - {slot};
  }

  lemma SizedUpdate(caches: map<Slot, SlotCache>, slot: Slot, cache: SlotCache)
    requires AllSized(caches) && Sized(cache)
    ensures AllSized(caches[slot := cache])
  {
    var caches' := caches[slot := cache];
    forall s: Slot ensures SizedAt(caches', s) {
      assert SizedAt(caches, s);
    }
  }

  lemma SizedRemove(caches: map<Slot, SlotCache>, slot: Slot)
    requires AllSized(caches)
    ensures AllSized(caches - {slot})
  {
    forall s: Slot ensures SizedAt(caches - {slot}, s) {
      assert SizedAt(caches, s);
    }
  }

  lemma DataSizeUpdate(accounts: map<Pubkey, Account>, key: Pubkey, account: Account)
    ensures DataSize(accounts[key := account]) == DataSize(accounts) - (if key in accounts then |accounts[key].data| else 0) + |account.data|
    ensures key in accounts ==> DataSize(accounts) >= |accounts[key].data|
  {
    SumAdds(DataLens(accounts), key, |account.data|);
    assert DataLens(accounts[key := account]) == DataLens(accounts)[key := |account.data|];
    if key in accounts {
      SumAtLeast(DataLens(accounts), key);
    }
  }

  lemma CountUpdate(accounts: map<Pubkey, Account>, key: Pubkey, account: Account)
    ensures |accounts[key := account]| == |accounts| + (if key in accounts then 0 else 1)
  {
    assert accounts[key := account].Keys == accounts.Keys + {key};
  }

  /** Writes an account into one slot cache. `grow` and `shrink` are what its size gained or lost. */
  method InsertIntoSlot(cache: SlotCache, key: Pubkey, account: Account) returns (cache': SlotCache, isNew: bool, grow: nat, shrink: nat)
    requires Sized(cache)
    ensures Sized(cache') && cache'.accounts == cache.accounts[key := account]
    ensures isNew == (key !in cache.accounts) && cache'.count == cache.count + (if isNew then 1 else 0)
    ensures cache'.size == cache.size + grow - shrink && shrink <= cache.size
  {
    DataSizeUpdate(cache.accounts, key, account);
    CountUpdate(cache.accounts, key, account);
    var len := |account.data|;
    grow, shrink := 0, 0;
    if key in cache.accounts {
      isNew := false;
      var oldLen := |cache.accounts[key].data|;
      if len > oldLen {
        grow := len - oldLen;
      } else if oldLen > len {
        shrink := oldLen - len;
      }
      cache' := SlotCache(cache.accounts[key := account], cache.size + grow - shrink, cache.count);
    } else {
      isNew, grow := true, len;
      cache' := SlotCache(cache.accounts[key := account], cache.size + len, cache.count + 1);
    }
  }

  lemma DetachedAppend(d: seq<SlotCache>, s: SlotCache)
    ensures DetachedSizes(d + [s]) == DetachedSizes(d) + s.size && DetachedCounts(d + [s]) == DetachedCounts(d) + s.count
  {
    if d == [] {
      assert [] + [s] == [s];
    } else {
      assert (d + [s])[1..] == d[1..] + [s];
      DetachedAppend(d[1..], s);
    }
  }

  lemma {:induction false} DetachedRemove(d: seq<SlotCache>, i: nat)
    requires i < |d|
    ensures DetachedSizes(d) == DetachedSizes(d[..i] + d[i + 1..]) + d[i].size
    ensures DetachedCounts(d) == DetachedCounts(d[..i] + d[i + 1..]) + d[i].count
  {
    if i == 0 {
      assert d[..0] + d[1..] == d[1..];
    } else {
      DetachedRemove(d[1..], i - 1);
      assert (d[..i] + d[i + 1..])[1..] == d[1..][..i - 1] + d[1..][i..];
    }
  }

  function CacheAt(caches: map<Slot, SlotCache>, slot: Slot): SlotCache {
    if slot in caches then caches[slot] else SlotCache(map[], 0, 0)
  }

  lemma CacheAtSized(caches: map<Slot, SlotCache>, slot: Slot)
    requires AllSized(caches)
    ensures Sized(CacheAt(caches, slot))
  {
    assert SizedAt(caches, slot);
  }

  lemma StoreKeepsTotals(caches: map<Slot, SlotCache>, detached: seq<SlotCache>, totalSize: nat, totalCount: nat, slot: Slot, cache: SlotCache)
    requires TotalsRight(caches, detached, totalSize, totalCount) && Sized(cache)
    ensures var was := CacheAt(caches, slot);
            && was.size <= totalSize && was.count <= totalCount
            && TotalsRight(caches[slot := cache], detached, totalSize - was.size + cache.size, totalCount - was.count + cache.count)
  {
    SizesNonNegative(caches);
    SizesUpdate(caches, slot, cache);
    CountsUpdate(caches, slot, cache);
    SizedUpdate(caches, slot, cache);
  }

  lemma RemoveKeepsTotals(caches: map<Slot, SlotCache>, detached: seq<SlotCache>, totalSize: nat, totalCount: nat, slot: Slot)
    requires TotalsRight(caches, detached, totalSize, totalCount) && slot in caches
    ensures TotalsRight(caches - {slot}, detached + [caches[slot]], totalSize, totalCount)
  {
    SizesRemove(caches, slot);
    SizedRemove(caches, slot);
    DetachedAppend(detached, caches[slot]);
  }

  ghost function ContentsOf(caches: map<Slot, SlotCache>): Contents { map s | s in caches :: caches[s].accounts }

  lemma ContentsUpdate(caches: map<Slot, SlotCache>, slot: Slot, cache: SlotCache, key: Pubkey, account: Account)
    requires cache.accounts == CacheAt(caches, slot).accounts[key := account]
    ensures ContentsOf(caches[slot := cache]) == Put(ContentsOf(caches), slot, key, account)
    ensures Held(ContentsOf(caches), slot, key) <==> key in CacheAt(caches, slot).accounts
  {
  }

  /** Writes into the slot's cache, creating it if need be, and keeps the totals. */
  method StoreInSlot(caches: map<Slot, SlotCache>, ghost detached: seq<SlotCache>, totalSize: nat, totalCount: nat, slot: Slot, key: Pubkey, account: Account)
    returns (caches': map<Slot, SlotCache>, totalSize': nat, totalCount': nat, isNew: bool)
    requires TotalsRight(caches, detached, totalSize, totalCount)
    ensures TotalsRight(caches', detached, totalSize', totalCount')
    ensures ContentsOf(caches') == Put(ContentsOf(caches), slot, key, account)
    ensures isNew == !Held(ContentsOf(caches), slot, key)
  {
    CacheAtSized(caches, slot);
    var cache, grow, shrink;
    cache, isNew, grow, shrink := InsertIntoSlot(CacheAt(caches, slot), key, account);
    StoreKeepsTotals(caches, detached, totalSize, totalCount, slot, cache);
    ContentsUpdate(caches, slot, cache, key, account);
    totalSize' := totalSize + grow - shrink;
    totalCount' := totalCount + (if isNew then 1 else 0);
    caches' := caches[slot := cache];
  }

  lemma ContentsRemove(caches: map<Slot, SlotCache>, slot: Slot)
    ensures ContentsOf(caches - {slot}) == ContentsOf(caches) - {slot}
  {
  }

  method IndexInsert(index: map<Pubkey, IndexEntry>, uniqueKeys: nat, key: Pubkey, slot: Slot) returns (index': map<Pubkey, IndexEntry>, uniqueKeys': nat)
    requires uniqueKeys == |index|
    ensures index' == Inserted(index, key, slot) && uniqueKeys' == |index'|
  {
    uniqueKeys' := if key in index then uniqueKeys else uniqueKeys + 1;
    index' := Inserted(index, key, slot);
    assert index'.Keys == index.Keys + {key};
  }

  /** Overwriting a key within a slot leaves the index as it is. */
  method IndexStore(index: map<Pubkey, IndexEntry>, uniqueKeys: nat, slot: Slot, key: Pubkey, isNew: bool, ghost c: Contents, ghost account: Account)
    returns (index': map<Pubkey, IndexEntry>, uniqueKeys': nat)
    requires IndexRight(c, index) && uniqueKeys == |index| && isNew == !Held(c, slot, key)
    ensures IndexRight(Put(c, slot, key, account), index') && uniqueKeys' == |index'|
  {
    index', uniqueKeys' := index, uniqueKeys;
    if isNew {
      index', uniqueKeys' := IndexInsert(index, uniqueKeys, key, slot);
    }
    StoreKeepsIndex(c, index, index', slot, key, account);
  }

  method IndexRelease(index: map<Pubkey, IndexEntry>, uniqueKeys: nat, key: Pubkey) returns (index': map<Pubkey, IndexEntry>, uniqueKeys': nat)
    requires uniqueKeys == |index| && key in index && index[key].refs > 0
    ensures index' == Released(index, key) && uniqueKeys' == |index'|
  {
    uniqueKeys' := if index[key].refs == 1 then uniqueKeys - 1 else uniqueKeys;
    index' := Released(index, key);
    assert index'.Keys == if index[key].refs == 1 then index.Keys - {key} else index.Keys;
  }

  /** Releases one reference of each key of a removed slot. None of them is missing. */
  method IndexRemove(index: map<Pubkey, IndexEntry>, uniqueKeys: nat, keys: set<Pubkey>, ghost c: Contents, ghost slot: Slot)
    returns (index': map<Pubkey, IndexEntry>, uniqueKeys': nat)
    requires IndexRight(c, index) && uniqueKeys == |index| && slot in c && keys == c[slot].Keys
    ensures IndexRight(c - {slot}, index') && uniqueKeys' == |index'|
  {
    var todo := keys;
    index', uniqueKeys' := index, uniqueKeys;
    RemovalStarts(c, index, slot);
    while todo != {}
      invariant uniqueKeys' == |index'| && HalfRemoved(c, index', slot, todo)
    {
      var key :| key in todo;
      HalfRemovedStep(c, index', slot, todo, key);
      index', uniqueKeys' := IndexRelease(index', uniqueKeys', key);
      todo := todo - {key};
    }
    RemovalEnds(c, index', slot);
  }

  class AccountsCache {
    var caches: map<Slot, SlotCache>
    var index: map<Pubkey, IndexEntry>
    var uniqueKeys: nat
    var unflushed: set<Slot>
    var flushing: set<Slot>
    var totalSize: nat
    var totalCount: nat
    ghost var detached: seq<SlotCache>

    /** The accounts by slot, without the bookkeeping. */
    ghost var contents: Contents

    /** Reference counts, slot bounds, the number of keys and all totals agree with the contents. */
    ghost predicate Valid()
      reads this
    {
      && contents == ContentsOf(caches)
      && IndexRight(contents, index) && uniqueKeys == |index|
      && TotalsRight(caches, detached, totalSize, totalCount)
    }

    constructor ()
      ensures Valid() && contents == map[] && unflushed == {} && flushing == {} && detached == []
    {
      caches, index, uniqueKeys, contents := map[], map[], 0, map[];
      unflushed, flushing := {}, {};
      totalSize, totalCount, detached := 0, 0, [];
    }

    method StoreAccount(slot: Slot, key: Pubkey, account: Account) returns (isNew: bool)
      requires contents == ContentsOf(caches) && TotalsRight(caches, detached, totalSize, totalCount)
      modifies this`caches, this`contents, this`totalSize, this`totalCount
      ensures contents == ContentsOf(caches) && TotalsRight(caches, detached, totalSize, totalCount)
      ensures contents == Put(old(contents), slot, key, account) && isNew == !Held(old(contents), slot, key)
    {
      caches, totalSize, totalCount, isNew := StoreInSlot(caches, detached, totalSize, totalCount, slot, key, account);
      contents := Put(contents, slot, key, account);
    }

    method Store(slot: Slot, key: Pubkey, account: Account)
      requires Valid()
      modifies this`caches, this`contents, this`index, this`uniqueKeys, this`totalSize, this`totalCount
      ensures Valid() && contents == Put(old(contents), slot, key, account)
    {
      var isNew := StoreAccount(slot, key, account);
      index, uniqueKeys := IndexStore(index, uniqueKeys, slot, key, isNew, old(contents), account);
    }

    method Detach(slot: Slot) returns (cache: SlotCache)
      requires contents == ContentsOf(caches) && TotalsRight(caches, detached, totalSize, totalCount) && slot in caches
      modifies this`caches, this`contents, this`detached
      ensures contents == ContentsOf(caches) && TotalsRight(caches, detached, totalSize, totalCount)
      ensures slot in old(contents) && cache.accounts == old(contents)[slot] && contents == old(contents) - {slot}
      ensures cache == old(caches[slot]) && detached == old(detached) + [cache]
    {
      cache := caches[slot];
      RemoveKeepsTotals(caches, detached, totalSize, totalCount, slot);
      ContentsRemove(caches, slot);
      caches, contents, detached := caches - {slot}, contents - {slot}, detached + [cache];
    }

    /** Takes a slot out of the cache. */
    method RemoveSlot(slot: Slot) returns (removed: Option<SlotCache>)
      requires Valid()
      modifies this`caches, this`contents, this`index, this`uniqueKeys, this`detached
      ensures Valid() && contents == old(contents) - {slot}
      ensures removed == if slot in old(caches) then Some(old(caches[slot])) else None
      ensures detached == old(detached) + (if removed.Some? then [removed.value] else [])
    {
      if slot in caches {
        var cache := Detach(slot);
        index, uniqueKeys := IndexRemove(index, uniqueKeys, cache.accounts.Keys, old(contents), slot);
        removed := Some(cache);
      } else {
        assert contents - {slot} == contents;
        removed := None;
      }
    }

    /** The last reference to a slot cache taken out earlier goes away. */
    method DropSlotCache(ghost i: nat, cache: SlotCache)
      requires Valid() && i < |detached| && cache == detached[i]
      modifies this`totalSize, this`totalCount, this`detached
      ensures Valid() && detached == old(detached)[..i] + old(detached)[i + 1..]
    {
      SizesNonNegative(caches);
      DetachedRemove(detached, i);
      totalSize, totalCount := totalSize - cache.size, totalCount - cache.count;
      detached := detached[..i] + detached[i + 1..];
    }

    method Load(slot: Slot, key: Pubkey) returns (r: Option<Account>)
      requires contents == ContentsOf(caches)
      ensures r.Some? <==> Held(contents, slot, key)
      ensures r.Some? ==> r.value == contents[slot][key]
    {
      r := if slot in caches && key in caches[slot].accounts then Some(caches[slot].accounts[key]) else None;
    }

    /** The highest of the slots, not above `bound`, that holds the key. */
    method SearchRoots(slots: set<Slot>, key: Pubkey, bound: Slot) returns (r: Option<(Account, Slot)>)
      requires contents == ContentsOf(caches)
      ensures r.None? ==> forall s: Slot | Hit(contents, slots, key, s) :: s > bound
      ensures r.Some? ==>
        && Hit(contents, slots, key, r.value.1) && r.value.1 <= bound && r.value.0 == contents[r.value.1][key]
        && forall s: Slot | Hit(contents, slots, key, s) && s <= bound :: s <= r.value.1
    {
      var todo := set s | s in slots && s <= bound;
      while todo != {}
        invariant todo <= slots && forall s | s in todo :: s <= bound
        invariant forall s: Slot | Hit(contents, slots, key, s) && s <= bound :: s in todo
      {
        var slot := Largest(todo);
        var account := Load(slot, key);
        if account.Some? {
          return Some((account.value, slot));
        }
        todo := todo - {slot};
      }
      return None;
    }

    /** The highest ancestor between `low` and `high` that holds the key. */
    method SearchAncestors(ancestors: set<Slot>, key: Pubkey, low: Slot, high: Slot) returns (r: Option<(Account, Slot)>)
      requires contents == ContentsOf(caches)
      requires forall a | a in ancestors :: low <= a
      ensures r.None? ==> forall s: Slot | Hit(contents, ancestors, key, s) :: s > high
      ensures r.Some? ==>
        && Hit(contents, ancestors, key, r.value.1) && r.value.0 == contents[r.value.1][key]
        && forall s: Slot | Hit(contents, ancestors, key, s) && s <= high :: s <= r.value.1
    {
      var next := high + 1;
      while next > low
        invariant next <= high + 1
        invariant forall s: Slot | Hit(contents, ancestors, key, s) && s <= high :: s < next
      {
        next := next - 1;
        if next in ancestors {
          var account := Load(next, key);
          if account.Some? {
            return Some((account.value, next));
          }
        }
      }
      return None;
    }

    /** The roots up to `bound`, which are those that the reader may see. */
    method LoadRoots(key: Pubkey, bound: Slot, ghost ancestors: set<Slot>) returns (r: Option<Found>)
      requires contents == ContentsOf(caches)
      requires forall s: Slot | Held(contents, s, key) :: s <= bound <==> NotAbove(s, ancestors)
      ensures IsLatestRoot(contents, unflushed, flushing, key, ancestors, r)
    {
      var found := SearchRoots(unflushed, key, bound);
      if found.Some? {
        return Some(Found(found.value.0, found.value.1, UnflushedRoot));
      }
      found := SearchRoots(flushing, key, bound);
      if found.Some? {
        return Some(Found(found.value.0, found.value.1, RootBeingFlushed));
      }
      return None;
    }

    /** The index bounds the slots that hold a key, and does not list keys that no slot holds. */
    lemma IndexBounds(key: Pubkey)
      requires IndexRight(contents, index)
      ensures key in index ==> forall s: Slot | Held(contents, s, key) :: s <= index[key].maxSlot
      ensures key !in index ==> forall s: Slot :: !Held(contents, s, key)
    {
      assert KeyRight(contents, index, key);
      assert forall s: Slot | Held(contents, s, key) :: s in Holders(contents, key);
    }

    /** The bounded search with early exits finds what the naive search finds. */
    method LoadLatest(key: Pubkey, ancestors: set<Slot>) returns (r: Option<Found>)
      requires Valid()
      ensures IsLatest(contents, unflushed, flushing, key, ancestors, r)
    {
      IndexBounds(key);
      if key !in index {
        return None;
      }
      var maxSlot := index[key].maxSlot;
      var bound := maxSlot;
      if ancestors != {} {
        var low := Smallest(ancestors);
        var found := SearchAncestors(ancestors, key, low, maxSlot);
        if found.Some? {
          var (account, slot) := found.value;
          return Some(Found(account, slot, if slot in flushing then AncestorBeingFlushed else Ancestor));
        }
        bound := if low < maxSlot then low else maxSlot;
      }
      r := LoadRoots(key, bound, ancestors);
    }

    method AddRoot(root: Slot)
      requires Valid()
      modifies this`unflushed
      ensures Valid() && contents == old(contents) && unflushed == old(unflushed) + {root}
    {
      unflushed := unflushed + {root};
    }

    /** Claims the roots up to the given one. */
    method BeginFlushRoots(maxRoot: Option<Slot>) returns (claimed: set<Slot>)
      requires Valid() && flushing == {}
      modifies this`unflushed, this`flushing
      ensures Valid() && contents == old(contents)
      ensures claimed == flushing && unflushed + claimed == old(unflushed)
      ensures forall s | s in claimed :: maxRoot.Some? ==> s <= maxRoot.value
      ensures forall s | s in unflushed :: maxRoot.Some? && s > maxRoot.value
    {
      claimed := set s | s in unflushed && (maxRoot.Some? ==> s <= maxRoot.value);
      unflushed := unflushed - claimed;
      flushing := claimed;
    }

    method EndFlushRoots()
      requires Valid()
      modifies this`flushing
      ensures Valid() && contents == old(contents) && flushing == {}
    {
      flushing := {};
    }
  }

  lemma SizesNonNegative(caches: map<Slot, SlotCache>)
    ensures Sizes(caches) >= 0 && Counts(caches) >= 0
  {
    SumNonNegative(SizeMap(caches));
    SumNonNegative(CountMap(caches));
  }
}
