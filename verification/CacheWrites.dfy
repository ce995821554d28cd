/** Writing a batch of accounts to the cache, with the writes that no load can see left out. */
module CacheWrites {
  import opened Types

  /** What is stored for each account and slot. */
  type Versions = map<(Pubkey, Slot), Account>

  /** The slot that each slot builds on. */
  type Forks = map<Slot, Slot>

  datatype Write = Write(key: Pubkey, account: Account)

  ghost predicate Tree(parent: Forks) { forall s | s in parent :: parent[s] < s }

  ghost predicate IsAncestor(parent: Forks, a: Slot, s: Slot)
    requires Tree(parent)
    decreases s
  {
    a == s || (s in parent && IsAncestor(parent, a, parent[s]))
  }

  function Visible(account: Account): Option<Account> {
    if account.IsZeroLamport() then None else Some(account)
  }

  /** The account as seen from slot `s`: the newest version on its fork, hidden if it has no lamports. */
  ghost function LoadAt(v: Versions, parent: Forks, key: Pubkey, s: Slot): Option<Account>
    requires Tree(parent)
    decreases s
  {
    if (key, s) in v then Visible(v[(key, s)])
    else if s in parent then LoadAt(v, parent, key, parent[s])
    else None
  }

  lemma {:induction false} AncestorsAreOlder(parent: Forks, a: Slot, s: Slot)
    requires Tree(parent) && IsAncestor(parent, a, s)
    ensures a <= s
    decreases s
  {
    if a != s {
      AncestorsAreOlder(parent, a, parent[s]);
    }
  }

  lemma {:induction false} AncestorsCompose(parent: Forks, a: Slot, b: Slot, s: Slot)
    requires Tree(parent) && IsAncestor(parent, a, b) && IsAncestor(parent, b, s)
    ensures IsAncestor(parent, a, s)
    decreases s
  {
    if b != s {
      AncestorsCompose(parent, a, b, parent[s]);
    }
  }

  /** Slots on the fork of `s` with a version of the account. */
  ghost predicate OnFork(v: Versions, parent: Forks, key: Pubkey, t: Slot, s: Slot)
    requires Tree(parent)
  {
    (key, t) in v && IsAncestor(parent, t, s)
  }

  /** The load is what the newest slot on the fork holds. */
  lemma {:induction false} LoadIsNewest(v: Versions, parent: Forks, key: Pubkey, t: Slot, s: Slot)
    requires Tree(parent) && OnFork(v, parent, key, t, s)
    requires forall u: Slot | OnFork(v, parent, key, u, s) :: u <= t
    ensures LoadAt(v, parent, key, s) == if v[(key, t)].lamports == 0 then None else Some(v[(key, t)])
    decreases s
  {
    if (key, s) in v {
      AncestorsAreOlder(parent, t, s);
      assert OnFork(v, parent, key, s, s);
    } else {
      assert forall u: Slot :: OnFork(v, parent, key, u, parent[s]) ==> OnFork(v, parent, key, u, s);
      LoadIsNewest(v, parent, key, t, parent[s]);
    }
  }

  lemma {:induction false} NothingToLoad(v: Versions, parent: Forks, key: Pubkey, s: Slot)
    requires Tree(parent) && forall u: Slot :: !OnFork(v, parent, key, u, s)
    ensures LoadAt(v, parent, key, s) == None
    decreases s
  {
    assert !OnFork(v, parent, key, s, s);
    if s in parent {
      assert forall u: Slot :: OnFork(v, parent, key, u, parent[s]) ==> OnFork(v, parent, key, u, s);
      NothingToLoad(v, parent, key, parent[s]);
    }
  }

  // ---- The write path ----

  /** Accounts without lamports are stored without their data. */
  function Stored(account: Account): Account {
    if account.IsZeroLamport() then Account(0, []) else account
  }

  /** The last write to the account in the batch. */
  function LastWrite(writes: seq<Write>, key: Pubkey): (w: Option<Account>)
    ensures w.None? <==> forall i | 0 <= i < |writes| :: writes[i].key != key
  {
    if writes == [] then None
    else
      var last := writes[|writes| - 1];
      if last.key == key then Some(last.account) else LastWrite(writes[..|writes| - 1], key)
  }

  lemma {:induction false} LastWriteAt(writes: seq<Write>, i: nat)
    requires i < |writes| && forall j | i < j < |writes| :: writes[j].key != writes[i].key
    ensures LastWrite(writes, writes[i].key) == Some(writes[i].account)
  {
    if i < |writes| - 1 {
      LastWriteAt(writes[..|writes| - 1], i);
    }
  }

  /** Storing every write, in order. */
  function StoreAll(v: Versions, slot: Slot, writes: seq<Write>): Versions {
    if writes == [] then v
    else
      var last := writes[|writes| - 1];
      StoreAll(v, slot, writes[..|writes| - 1])[(last.key, slot) := Stored(last.account)]
  }

  lemma {:induction false} StoreAllStoresLast(v: Versions, slot: Slot, writes: seq<Write>, key: Pubkey, s: Slot)
    ensures var v' := StoreAll(v, slot, writes);
            var w := LastWrite(writes, key);
            if s == slot && w.Some? then (key, s) in v' && v'[(key, s)] == Stored(w.value)
            else ((key, s) in v' <==> (key, s) in v) && ((key, s) in v ==> v'[(key, s)] == v[(key, s)])
  {
    if writes != [] {
      StoreAllStoresLast(v, slot, writes[..|writes| - 1], key, s);
    }
  }

  ghost predicate Needed(v: Versions, parent: Forks, slot: Slot, key: Pubkey, w: Option<Account>)
    requires Tree(parent)
  {
    w.Some? && (w.value.IsZeroLamport() ==> LoadAt(v, parent, key, slot).Some?)
  }

  ghost predicate SameEntry(v: Versions, v': Versions, e: (Pubkey, Slot)) {
    (e in v' <==> e in v) && (e in v ==> v'[e] == v[e])
  }

  ghost predicate EntryWritten(v: Versions, v': Versions, slot: Slot, key: Pubkey, w: Option<Account>, needed: bool) {
    if needed && w.Some? then (key, slot) in v' && v'[(key, slot)] == Stored(w.value) else SameEntry(v, v', (key, slot))
  }

  /** The last write to each account is stored, unless it takes the lamports of an account that
      already has none; nothing else changes. */
  ghost predicate Saved(v: Versions, v': Versions, parent: Forks, slot: Slot, writes: seq<Write>)
    requires Tree(parent)
  {
    && (forall key: Pubkey :: var w := LastWrite(writes, key); EntryWritten(v, v', slot, key, w, Needed(v, parent, slot, key, w)))
    && (forall e | e in v || e in v' :: e.1 != slot ==> SameEntry(v, v', e))
  }

  /** The accounts written from position `i` on are in place, and the others are as they were. */
  ghost predicate SavedFrom(v: Versions, v': Versions, parent: Forks, slot: Slot, writes: seq<Write>, i: nat)
    requires Tree(parent) && i <= |writes|
  {
    && (forall key: Pubkey :: var w := LastWrite(writes, key);
          EntryWritten(v, v', slot, key, w, Needed(v, parent, slot, key, w) && WrittenFrom(writes, key, i)))
    && (forall e | e in v || e in v' :: e.1 != slot ==> SameEntry(v, v', e))
  }

  ghost predicate WrittenFrom(writes: seq<Write>, key: Pubkey, i: nat) {
    exists j :: i <= j < |writes| && writes[j].key == key
  }

  /** The write is the last to its account, and it is needed. */
  ghost predicate Flagged(v: Versions, parent: Forks, slot: Slot, writes: seq<Write>, j: nat)
    requires Tree(parent) && j < |writes|
  {
    && !WrittenFrom(writes, writes[j].key, j + 1)
    && Needed(v, parent, slot, writes[j].key, Some(writes[j].account))
  }

  ghost predicate Indexes(index: map<(Pubkey, Slot), bool>, v: Versions) {
    index.Keys == v.Keys && forall e | e in v :: index[e] == v[e].IsZeroLamport()
  }

  lemma SaveStep(v: Versions, v1: Versions, v2: Versions, parent: Forks, slot: Slot, writes: seq<Write>, i: nat)
    requires Tree(parent) && i < |writes| && SavedFrom(v, v1, parent, slot, writes, i + 1)
    requires v2 == if Flagged(v, parent, slot, writes, i) then v1[(writes[i].key, slot) := Stored(writes[i].account)] else v1
    ensures SavedFrom(v, v2, parent, slot, writes, i)
  {
    forall key: Pubkey
      ensures var w := LastWrite(writes, key);
              EntryWritten(v, v2, slot, key, w, Needed(v, parent, slot, key, w) && WrittenFrom(writes, key, i))
    {
      assert EntryWritten(v, v1, slot, key, LastWrite(writes, key),
                          Needed(v, parent, slot, key, LastWrite(writes, key)) && WrittenFrom(writes, key, i + 1));
      assert WrittenFrom(writes, key, i) <==> writes[i].key == key || WrittenFrom(writes, key, i + 1);
      if !WrittenFrom(writes, writes[i].key, i + 1) {
        LastWriteAt(writes, i);
      }
    }
  }

  ghost predicate SeenFrom(writes: seq<Write>, seen: set<Pubkey>, i: nat) {
    forall key: Pubkey :: key in seen <==> WrittenFrom(writes, key, i)
  }

  /** The flags of the writes from `i` on. */
  ghost predicate FlagsFrom(v: Versions, parent: Forks, slot: Slot, writes: seq<Write>, flags: seq<bool>, i: nat)
    requires Tree(parent)
  {
    && i <= |writes| && |flags| == |writes| - i
    && forall j | i <= j < |writes| :: flags[j - i] <==> Flagged(v, parent, slot, writes, j)
  }

  lemma FlagStep(v: Versions, parent: Forks, slot: Slot, writes: seq<Write>, flags: seq<bool>, seen: set<Pubkey>, flag: bool, i: nat)
    requires Tree(parent) && i < |writes| && FlagsFrom(v, parent, slot, writes, flags, i + 1) && SeenFrom(writes, seen, i + 1)
    requires flag <==> Flagged(v, parent, slot, writes, i)
    ensures FlagsFrom(v, parent, slot, writes, [flag] + flags, i) && SeenFrom(writes, seen + {writes[i].key}, i)
  {
    forall key: Pubkey ensures key in seen + {writes[i].key} <==> WrittenFrom(writes, key, i) {
      assert WrittenFrom(writes, key, i) <==> writes[i].key == key || WrittenFrom(writes, key, i + 1);
    }
  }

  lemma SavedWhole(v: Versions, v': Versions, parent: Forks, slot: Slot, writes: seq<Write>)
    requires Tree(parent) && SavedFrom(v, v', parent, slot, writes, 0)
    ensures Saved(v, v', parent, slot, writes)
  {
    forall key: Pubkey
      ensures var w := LastWrite(writes, key); EntryWritten(v, v', slot, key, w, Needed(v, parent, slot, key, w))
    {
      assert LastWrite(writes, key).Some? ==> WrittenFrom(writes, key, 0);
    }
  }

  class CacheDb {
    var cache: Versions
    /** Whether the indexed version has no lamports. */
    var index: map<(Pubkey, Slot), bool>

    ghost predicate Valid()
      reads this
    {
      Indexes(index, cache)
    }

    /** Looks up whether the newest version on the fork has no lamports. */
    method NewestIsZero(key: Pubkey, fork: set<Slot>, slot: Slot, ghost parent: Forks, ghost v: Versions)
      returns (r: Option<bool>)
      requires Indexes(index, v) && Tree(parent) && forall t: Slot :: t in fork <==> IsAncestor(parent, t, slot)
      ensures LoadAt(v, parent, key, slot).None? <==> r != Some(false)
    {
      var slots := set t | t in fork && (key, t) in index;
      assert forall u: Slot :: OnFork(v, parent, key, u, slot) ==> u in slots;
      if slots == {} {
        NothingToLoad(v, parent, key, slot);
        return None;
      }
      var newest := Largest(slots);
      LoadIsNewest(v, parent, key, newest, slot);
      return Some(index[(key, newest)]);
    }

    method ShouldStore(w: Write, fork: set<Slot>, slot: Slot, ghost parent: Forks, ghost v: Versions) returns (b: bool)
      requires Indexes(index, v) && Tree(parent) && forall t: Slot :: t in fork <==> IsAncestor(parent, t, slot)
      ensures b <==> Needed(v, parent, slot, w.key, Some(w.account))
    {
      if !w.account.IsZeroLamport() {
        return true;
      }
      var zero := NewestIsZero(w.key, fork, slot, parent, v);
      return zero == Some(false);
    }

    /** Goes through the batch from its end; the index still shows what was there before. */
    method WriteAccountsToCache(slot: Slot, writes: seq<Write>, fork: set<Slot>, ghost parent: Forks)
      returns (storeAccount: seq<bool>)
      requires Valid() && Tree(parent) && forall t: Slot :: t in fork <==> IsAncestor(parent, t, slot)
      modifies this`cache
      ensures Saved(old(cache), cache, parent, slot, writes) && |storeAccount| == |writes|
      ensures FlagsFrom(old(cache), parent, slot, writes, storeAccount, 0)
    {
      ghost var v := cache;
      var seen: set<Pubkey> := {};
      storeAccount := [];
      var i: nat := |writes|;
      while i > 0
        invariant i <= |writes| && SeenFrom(writes, seen, i)
        invariant FlagsFrom(v, parent, slot, writes, storeAccount, i)
        invariant SavedFrom(v, cache, parent, slot, writes, i)
      {
        i := i - 1;
        var w := writes[i];
        var store := w.key !in seen;
        if store {
          store := ShouldStore(w, fork, slot, parent, v);
        }
        ghost var v1 := cache;
        if store {
          cache := cache[(w.key, slot) := Stored(w.account)];
        }
        SaveStep(v, v1, cache, parent, slot, writes, i);
        FlagStep(v, parent, slot, writes, storeAccount, seen, store, i);
        seen := seen + {w.key};
        storeAccount := [store] + storeAccount;
      }
      SavedWhole(v, cache, parent, slot, writes);
    }

    /** Indexes the accounts that went to the cache. */
    method UpdateIndexCachedAccounts(slot: Slot, writes: seq<Write>, storeAccount: seq<bool>, ghost parent: Forks, ghost v: Versions)
      requires Indexes(index, v) && Tree(parent) && FlagsFrom(v, parent, slot, writes, storeAccount, 0)
      requires Saved(v, cache, parent, slot, writes)
      modifies this`index
      ensures Valid()
    {
      for i := 0 to |writes|
        invariant IndexedUpTo(index, v, slot, writes, storeAccount, i)
      {
        ghost var before := index;
        if storeAccount[i] {
          index := index[(writes[i].key, slot) := writes[i].account.IsZeroLamport()];
        }
        IndexStep(before, index, v, slot, writes, storeAccount, i);
      }
      IndexedWhole(index, v, cache, parent, slot, writes, storeAccount);
    }

    /** Stores a batch at a slot: afterwards cache and index agree again. */
    method StoreAccountsUnfrozen(slot: Slot, writes: seq<Write>, fork: set<Slot>, ghost parent: Forks)
      requires Valid() && Tree(parent) && forall t: Slot :: t in fork <==> IsAncestor(parent, t, slot)
      modifies this
      ensures Valid() && Saved(old(cache), cache, parent, slot, writes)
    {
      if writes == [] {
        return;
      }
      var storeAccount := WriteAccountsToCache(slot, writes, fork, parent);
      UpdateIndexCachedAccounts(slot, writes, storeAccount, parent, old(cache));
    }
  }

  ghost predicate StoredBy(writes: seq<Write>, flags: seq<bool>, key: Pubkey, j: nat) {
    j < |writes| == |flags| && flags[j] && writes[j].key == key
  }

  ghost predicate LastFlagsOnly(writes: seq<Write>, flags: seq<bool>) {
    |flags| == |writes| && forall j: nat | j < |writes| && flags[j] :: !WrittenFrom(writes, writes[j].key, j + 1)
  }

  ghost predicate IndexedUpTo(index: map<(Pubkey, Slot), bool>, v: Versions, slot: Slot, writes: seq<Write>, flags: seq<bool>, i: nat) {
    && (forall key: Pubkey, j: nat | j < i && StoredBy(writes, flags, key, j) ::
          (key, slot) in index && (LastFlagsOnly(writes, flags) ==> index[(key, slot)] == writes[j].account.IsZeroLamport()))
    && (forall e | (e in index || e in v) && (e.1 != slot || forall j: nat | j < i :: !StoredBy(writes, flags, e.0, j)) ::
          e in v && e in index && index[e] == v[e].IsZeroLamport())
  }

  lemma IndexStep(before: map<(Pubkey, Slot), bool>, after: map<(Pubkey, Slot), bool>, v: Versions, slot: Slot,
                  writes: seq<Write>, flags: seq<bool>, i: nat)
    requires i < |writes| == |flags| && IndexedUpTo(before, v, slot, writes, flags, i)
    requires after == if flags[i] then before[(writes[i].key, slot) := writes[i].account.IsZeroLamport()] else before
    ensures IndexedUpTo(after, v, slot, writes, flags, i + 1)
  {
    assert flags[i] ==> StoredBy(writes, flags, writes[i].key, i);
    forall key: Pubkey, j: nat | j < i + 1 && StoredBy(writes, flags, key, j) && LastFlagsOnly(writes, flags)
      ensures (key, slot) in after && after[(key, slot)] == writes[j].account.IsZeroLamport()
    {
      assert !WrittenFrom(writes, key, j + 1);
    }
  }

  lemma IndexedWhole(index: map<(Pubkey, Slot), bool>, v: Versions, v': Versions, parent: Forks, slot: Slot,
                     writes: seq<Write>, flags: seq<bool>)
    requires Tree(parent) && |flags| == |writes| && IndexedUpTo(index, v, slot, writes, flags, |writes|)
    requires Saved(v, v', parent, slot, writes)
    requires forall j | 0 <= j < |writes| :: flags[j] <==> Flagged(v, parent, slot, writes, j)
    ensures Indexes(index, v')
  {
    assert LastFlagsOnly(writes, flags);
    forall e | e in index || e in v'
      ensures e in index && e in v' && index[e] == v'[e].IsZeroLamport()
    {
      var (key, s) := e;
      if s == slot {
        IndexedKey(index, v, v', parent, slot, writes, flags, key);
      } else {
        assert SameEntry(v, v', e);
      }
    }
  }

  lemma IndexedKey(index: map<(Pubkey, Slot), bool>, v: Versions, v': Versions, parent: Forks, slot: Slot,
                   writes: seq<Write>, flags: seq<bool>, key: Pubkey)
    requires Tree(parent) && |flags| == |writes| && IndexedUpTo(index, v, slot, writes, flags, |writes|)
    requires Saved(v, v', parent, slot, writes) && LastFlagsOnly(writes, flags)
    requires forall j | 0 <= j < |writes| :: flags[j] <==> Flagged(v, parent, slot, writes, j)
    ensures (key, slot) in index <==> (key, slot) in v'
    ensures (key, slot) in index ==> index[(key, slot)] == v'[(key, slot)].IsZeroLamport()
  {
    var w := LastWrite(writes, key);
    assert EntryWritten(v, v', slot, key, w, Needed(v, parent, slot, key, w));
    if Needed(v, parent, slot, key, w) {
      var j := LastPosition(writes, key);
      assert StoredBy(writes, flags, key, j);
    } else {
      forall j: nat
        ensures !StoredBy(writes, flags, key, j)
      {
        if j < |writes| && writes[j].key == key && !WrittenFrom(writes, key, j + 1) {
          LastWriteAt(writes, j);
        }
      }
    }
  }

  lemma {:induction false} LastPosition(writes: seq<Write>, key: Pubkey) returns (j: nat)
    requires LastWrite(writes, key).Some?
    ensures j < |writes| && writes[j].key == key && !WrittenFrom(writes, key, j + 1)
    ensures LastWrite(writes, key) == Some(writes[j].account)
  {
    j := |writes| - 1;
    if writes[j].key != key {
      var front := writes[..j];
      j := LastPosition(front, key);
      forall k | j < k < |front|
        ensures writes[k].key != key
      {
        assert front[k].key != key;
      }
    }
  }

  /** A load from the slot returns what the batch wrote last, and nothing if that took the account's lamports;
      accounts that the batch did not write are loaded as before. */
  lemma BatchIsRead(v: Versions, v': Versions, parent: Forks, slot: Slot, writes: seq<Write>, key: Pubkey)
    requires Tree(parent) && Saved(v, v', parent, slot, writes)
    ensures forall i | 0 <= i < |writes| && writes[i].key == key && (forall j | i < j < |writes| :: writes[j].key != key) ::
              LoadAt(v', parent, key, slot) == if writes[i].account.lamports == 0 then None else Some(writes[i].account)
    ensures (forall i | 0 <= i < |writes| :: writes[i].key != key) ==> LoadAt(v', parent, key, slot) == LoadAt(v, parent, key, slot)
  {
    var w := LastWrite(writes, key);
    assert EntryWritten(v, v', slot, key, w, Needed(v, parent, slot, key, w));
    ParentsUnchanged(v, v', parent, slot, writes, key);
    forall i | 0 <= i < |writes| && writes[i].key == key && (forall j | i < j < |writes| :: writes[j].key != key)
      ensures w == Some(writes[i].account)
    {
      LastWriteAt(writes, i);
    }
  }

  lemma ParentsUnchanged(v: Versions, v': Versions, parent: Forks, slot: Slot, writes: seq<Write>, key: Pubkey)
    requires Tree(parent) && Saved(v, v', parent, slot, writes)
    ensures slot in parent ==> LoadAt(v', parent, key, parent[slot]) == LoadAt(v, parent, key, parent[slot])
  {
    if slot in parent {
      var p := parent[slot];
      assert !IsAncestor(parent, slot, p) by {
        if IsAncestor(parent, slot, p) {
          AncestorsAreOlder(parent, slot, p);
        }
      }
      forall t: Slot | t != slot ensures SameEntry(v, v', (key, t)) {
        assert (key, t).1 != slot;
      }
      LoadElsewhere(v, v', parent, key, slot, p);
    }
  }

  // ---- Whole runs ----

  /** A slot takes writes only until a slot that builds on it has been written. */
  ghost predicate Open(v: Versions, parent: Forks, slot: Slot)
    requires Tree(parent)
  {
    forall e | e in v && e.1 != slot :: !IsAncestor(parent, slot, e.1)
  }

  ghost predicate SameLoads(full: Versions, v: Versions, parent: Forks)
    requires Tree(parent)
  {
    && v.Keys <= full.Keys
    && forall key: Pubkey, s: Slot :: LoadAt(full, parent, key, s) == LoadAt(v, parent, key, s)
  }

  /** From a slot that builds on `slot`, the load is the load at `slot`. */
  lemma {:induction false} LoadThrough(v: Versions, parent: Forks, key: Pubkey, slot: Slot, s: Slot)
    requires Tree(parent) && IsAncestor(parent, slot, s) && Open(v, parent, slot)
    ensures LoadAt(v, parent, key, s) == LoadAt(v, parent, key, slot)
    decreases s
  {
    if s != slot {
      assert (key, s) !in v;
      LoadThrough(v, parent, key, slot, parent[s]);
    }
  }

  /** Forks that do not contain `slot` do not notice a write there. */
  lemma {:induction false} LoadElsewhere(v: Versions, v': Versions, parent: Forks, key: Pubkey, slot: Slot, s: Slot)
    requires Tree(parent) && !IsAncestor(parent, slot, s)
    requires forall t: Slot | t != slot :: SameEntry(v, v', (key, t))
    ensures LoadAt(v, parent, key, s) == LoadAt(v', parent, key, s)
    decreases s
  {
    assert SameEntry(v, v', (key, s));
    if s in parent {
      LoadElsewhere(v, v', parent, key, slot, parent[s]);
    }
  }

  /** After the batch, the slot loads the last write to the account, in both. */
  lemma LoadAfterWrite(v: Versions, v': Versions, parent: Forks, slot: Slot, key: Pubkey, w: Account, needed: bool)
    requires Tree(parent) && EntryWritten(v, v', slot, key, Some(w), needed)
    requires forall t: Slot | t != slot :: SameEntry(v, v', (key, t))
    requires !needed ==> w.IsZeroLamport() && LoadAt(v, parent, key, slot).None?
    ensures LoadAt(v', parent, key, slot) == Visible(w)
  {
    if !needed {
      UnchangedLoad(v, v', parent, key, slot);
    }
  }

  lemma {:induction false} UnchangedLoad(v: Versions, v': Versions, parent: Forks, key: Pubkey, s: Slot)
    requires Tree(parent) && forall t: Slot :: SameEntry(v, v', (key, t))
    ensures LoadAt(v', parent, key, s) == LoadAt(v, parent, key, s)
    decreases s
  {
    assert SameEntry(v, v', (key, s));
    if s in parent {
      UnchangedLoad(v, v', parent, key, parent[s]);
    }
  }

  lemma SavedElsewhere(v: Versions, v': Versions, parent: Forks, slot: Slot, writes: seq<Write>, key: Pubkey)
    requires Tree(parent) && Saved(v, v', parent, slot, writes)
    ensures forall t: Slot | t != slot :: SameEntry(v, v', (key, t))
    ensures LastWrite(writes, key).None? ==> SameEntry(v, v', (key, slot))
  {
    assert EntryWritten(v, v', slot, key, LastWrite(writes, key), Needed(v, parent, slot, key, LastWrite(writes, key)));
  }

  lemma StoreAllElsewhere(v: Versions, slot: Slot, writes: seq<Write>, key: Pubkey)
    ensures forall t: Slot | t != slot :: SameEntry(v, StoreAll(v, slot, writes), (key, t))
    ensures EntryWritten(v, StoreAll(v, slot, writes), slot, key, LastWrite(writes, key), true)
  {
    StoreAllStoresLast(v, slot, writes, key, slot);
    forall t: Slot | t != slot
      ensures SameEntry(v, StoreAll(v, slot, writes), (key, t))
    {
      StoreAllStoresLast(v, slot, writes, key, t);
    }
  }

  lemma KeepsOpen(v: Versions, v': Versions, parent: Forks, slot: Slot)
    requires Tree(parent) && Open(v, parent, slot) && forall e | e in v' && e.1 != slot :: e in v
    ensures Open(v', parent, slot)
  {
  }

  lemma BatchKeepsLoad(full: Versions, v: Versions, v': Versions, parent: Forks, slot: Slot, writes: seq<Write>, key: Pubkey, s: Slot)
    requires Tree(parent) && SameLoads(full, v, parent) && Open(full, parent, slot) && Saved(v, v', parent, slot, writes)
    requires Open(StoreAll(full, slot, writes), parent, slot) && Open(v', parent, slot)
    ensures LoadAt(StoreAll(full, slot, writes), parent, key, s) == LoadAt(v', parent, key, s)
  {
    var full' := StoreAll(full, slot, writes);
    var w := LastWrite(writes, key);
    SavedElsewhere(v, v', parent, slot, writes, key);
    StoreAllElsewhere(full, slot, writes, key);
    assert LoadAt(full, parent, key, s) == LoadAt(v, parent, key, s);
    if w.None? {
      UnchangedLoad(v, v', parent, key, s);
      UnchangedLoad(full, full', parent, key, s);
    } else if IsAncestor(parent, slot, s) {
      LoadThrough(v', parent, key, slot, s);
      LoadThrough(full', parent, key, slot, s);
      LoadAfterWrite(v, v', parent, slot, key, w.value, Needed(v, parent, slot, key, w));
      LoadAfterWrite(full, full', parent, slot, key, w.value, true);
    } else {
      LoadElsewhere(v, v', parent, key, slot, s);
      LoadElsewhere(full, full', parent, key, slot, s);
    }
  }

  lemma BatchKeepsLoads(full: Versions, v: Versions, v': Versions, parent: Forks, slot: Slot, writes: seq<Write>)
    requires Tree(parent) && SameLoads(full, v, parent) && Open(full, parent, slot) && Saved(v, v', parent, slot, writes)
    ensures SameLoads(StoreAll(full, slot, writes), v', parent)
  {
    var full' := StoreAll(full, slot, writes);
    forall e | e in v'
      ensures e in full' && (e.1 != slot ==> e in v)
    {
      SavedElsewhere(v, v', parent, slot, writes, e.0);
      StoreAllElsewhere(full, slot, writes, e.0);
      assert SameEntry(v, v', (e.0, e.1)) || e.1 == slot;
      assert EntryWritten(v, v', slot, e.0, LastWrite(writes, e.0), Needed(v, parent, slot, e.0, LastWrite(writes, e.0)));
      StoreAllStoresLast(full, slot, writes, e.0, e.1);
    }
    forall e | e in full' && e.1 != slot
      ensures e in full
    {
      StoreAllStoresLast(full, slot, writes, e.0, e.1);
    }
    KeepsOpen(full, full', parent, slot);
    KeepsOpen(v, v', parent, slot);
    forall key: Pubkey, s: Slot
      ensures LoadAt(full', parent, key, s) == LoadAt(v', parent, key, s)
    {
      BatchKeepsLoad(full, v, v', parent, slot, writes, key, s);
    }
  }

  datatype Batch = Batch(slot: Slot, writes: seq<Write>)

  /** The two databases take the same batches: one stores everything, the other what is needed. */
  ghost predicate Run(full: seq<Versions>, v: seq<Versions>, parent: Forks, batches: seq<Batch>)
    requires Tree(parent)
  {
    && |full| == |v| == |batches| + 1 && full[0] == v[0]
    && forall i | 0 <= i < |batches| ::
         && Open(full[i], parent, batches[i].slot)
         && full[i + 1] == StoreAll(full[i], batches[i].slot, batches[i].writes)
         && Saved(v[i], v[i + 1], parent, batches[i].slot, batches[i].writes)
  }

  /** No load, from any slot on any fork and after any run, can tell the two apart. */
  lemma {:induction false} SkippedWritesInvisible(full: seq<Versions>, v: seq<Versions>, parent: Forks, batches: seq<Batch>, i: nat)
    requires Tree(parent) && Run(full, v, parent, batches) && i < |full|
    ensures SameLoads(full[i], v[i], parent)
  {
    if i > 0 {
      SkippedWritesInvisible(full, v, parent, batches, i - 1);
      BatchKeepsLoads(full[i - 1], v[i - 1], v[i], parent, batches[i - 1].slot, batches[i - 1].writes);
    }
  }

  /** A write to a slot that others build on already would bring a closed account back. */
  lemma LateWriteShows(key: Pubkey, account: Account)
    requires !account.IsZeroLamport()
    ensures var parent: Forks := map[1 := 0];
            var close, late := [Write(key, Account(0, []))], [Write(key, account)];
            && Tree(parent) && Saved(map[], map[], parent, 1, close)
            && LoadAt(StoreAll(map[], 0, late), parent, key, 1) == Some(account)
            && LoadAt(StoreAll(StoreAll(map[], 1, close), 0, late), parent, key, 1) == None
  {
    var parent: Forks := map[1 := 0];
    var close, late := [Write(key, Account(0, []))], [Write(key, account)];
    assert close[..0] == [] && late[..0] == [];
    assert forall k: Pubkey :: LastWrite(close, k) == if k == key then Some(Account(0, [])) else None;
  }
}
