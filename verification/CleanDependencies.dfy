/** Which slots clean may delete: the dependency closure between keys and slots. */
module CleanDependencies {
  import opened Types

  /** The rooted entries of a key that clean would like to purge, and its reference count. */
  datatype CleaningInfo = CleaningInfo(slotList: seq<Slot>, refCount: nat)

  /** How many alive accounts of a slot are not candidates, and which candidates it holds. */
  datatype StoreCount = StoreCount(count: nat, keys: set<Pubkey>)

  type Candidates = map<Pubkey, CleaningInfo>
  type StoreCounts = map<Slot, StoreCount>

  // ---- Specification ----

  predicate Holds(candidates: Candidates, key: Pubkey, slot: Slot) {
    key in candidates && slot in candidates[key].slotList
  }

  function KeysAt(candidates: Candidates, slot: Slot): set<Pubkey> {
    set key | key in candidates && slot in candidates[key].slotList
  }

  /** Slot lists name a slot at most once, and every named slot has a store whose alive accounts
      include the candidates. */
  ghost predicate WellFormed(candidates: Candidates, alive: map<Slot, set<Pubkey>>) {
    && (forall key, i, j | key in candidates && 0 <= i < j < |candidates[key].slotList| ::
          candidates[key].slotList[i] != candidates[key].slotList[j])
    && (forall key, slot | Holds(candidates, key, slot) :: slot in alive && key in alive[slot])
  }

  /** The counts as if every candidate were purged. */
  ghost predicate CountsFor(counts: StoreCounts, candidates: Candidates, alive: map<Slot, set<Pubkey>>) {
    && (forall slot: Slot :: slot in counts <==> exists key :: Holds(candidates, key, slot))
    && (forall slot | slot in counts ::
          && slot in alive && KeysAt(candidates, slot) <= alive[slot]
          && counts[slot] == StoreCount(|alive[slot] - KeysAt(candidates, slot)|, KeysAt(candidates, slot)))
  }

  /** Two slots hold a common candidate. */
  ghost predicate Linked(candidates: Candidates, a: Slot, b: Slot) {
    exists key :: Holds(candidates, key, a) && Holds(candidates, key, b)
  }

  /** A slot that cannot be deleted for a reason of its own: another account is alive in it, or one
      of its keys also lives in slots that are not going to be purged. */
  ghost predicate Stuck(candidates: Candidates, counts: StoreCounts, slot: Slot) {
    && slot in counts
    && (counts[slot].count != 0 || exists key :: Holds(candidates, key, slot) && |candidates[key].slotList| != candidates[key].refCount)
  }

  ghost predicate Path(candidates: Candidates, p: seq<Slot>) {
    |p| > 0 && forall i | 0 <= i < |p| - 1 :: Linked(candidates, p[i], p[i + 1])
  }

  /** Some slot of the same connected component is stuck. */
  ghost predicate Blocked(candidates: Candidates, counts: StoreCounts, slot: Slot) {
    exists p :: Path(candidates, p) && p[0] == slot && Stuck(candidates, counts, p[|p| - 1])
  }

  ghost function Unblocked(candidates: Candidates, counts: StoreCounts): StoreCounts {
    map slot | slot in counts && !Blocked(candidates, counts, slot) :: counts[slot]
  }

  // ---- The store counts ----

  lemma RemoveOne(alive: set<Pubkey>, keys: set<Pubkey>, key: Pubkey)
    requires key in alive && key !in keys
    ensures |alive - keys| > 0 && |alive - (keys + {key})| == |alive - keys| - 1
  {
    assert alive - (keys + {key}) == (alive - keys) - {key};
    assert key in alive - keys;
  }

  /** Keys `keys` of `slot` have been counted, and no other. */
  ghost predicate Counted(counts: StoreCounts, alive: map<Slot, set<Pubkey>>, slot: Slot, keys: set<Pubkey>) {
    if keys == {} then slot !in counts
    else slot in alive && slot in counts && counts[slot] == StoreCount(|alive[slot] - keys|, keys)
  }

  ghost function SeenAt(pairs: set<(Pubkey, Slot)>, slot: Slot): set<Pubkey> {
    set p | p in pairs && p.1 == slot :: p.0
  }

  /** One entry of a candidate: the first one of a slot looks up how many accounts are alive there. */
  function CountEntry(counts: StoreCounts, alive: map<Slot, set<Pubkey>>, slot: Slot, key: Pubkey): StoreCounts
    requires slot in alive && alive[slot] != {} && (slot in counts ==> counts[slot].count > 0)
  {
    if slot in counts then counts[slot := StoreCount(counts[slot].count - 1, counts[slot].keys + {key})]
    else counts[slot := StoreCount(|alive[slot]| - 1, {key})]
  }

  lemma SeenAtAdd(pairs: set<(Pubkey, Slot)>, key: Pubkey, slot: Slot, s: Slot)
    ensures SeenAt(pairs + {(key, slot)}, s) == if s == slot then SeenAt(pairs, s) + {key} else SeenAt(pairs, s)
  {
  }

  lemma CountEntryCounts(counts: StoreCounts, alive: map<Slot, set<Pubkey>>, pairs: set<(Pubkey, Slot)>, key: Pubkey, slot: Slot)
    requires Counted(counts, alive, slot, SeenAt(pairs, slot))
    requires slot in alive && key in alive[slot] && (key, slot) !in pairs
    ensures slot in counts ==> counts[slot].count > 0
    ensures Counted(CountEntry(counts, alive, slot, key), alive, slot, SeenAt(pairs + {(key, slot)}, slot))
  {
    var seen := SeenAt(pairs, slot);
    RemoveOne(alive[slot], seen, key);
    SeenAtAdd(pairs, key, slot, slot);
    if seen == {} {
      assert alive[slot] - {} == alive[slot] && {} + {key} == {key};
    }
  }

  ghost predicate CountedPairs(counts: StoreCounts, alive: map<Slot, set<Pubkey>>, pairs: set<(Pubkey, Slot)>) {
    forall s: Slot :: Counted(counts, alive, s, SeenAt(pairs, s))
  }

  lemma CountEntryKeeps(counts: StoreCounts, alive: map<Slot, set<Pubkey>>, pairs: set<(Pubkey, Slot)>, key: Pubkey, slot: Slot)
    requires CountedPairs(counts, alive, pairs)
    requires slot in alive && key in alive[slot] && (key, slot) !in pairs
    ensures slot in counts ==> counts[slot].count > 0
    ensures CountedPairs(CountEntry(counts, alive, slot, key), alive, pairs + {(key, slot)})
  {
    CountEntryCounts(counts, alive, pairs, key, slot);
    var counts', pairs' := CountEntry(counts, alive, slot, key), pairs + {(key, slot)};
    forall s: Slot ensures Counted(counts', alive, s, SeenAt(pairs', s)) {
      SeenAtAdd(pairs, key, slot, s);
      assert Counted(counts, alive, s, SeenAt(pairs, s));
    }
  }

  /** Builds the store counts key by key, in any order. The subtraction never underflows. */
  method BuildStoreCounts(candidates: Candidates, alive: map<Slot, set<Pubkey>>) returns (counts: StoreCounts)
    requires WellFormed(candidates, alive)
    ensures CountsFor(counts, candidates, alive)
  {
    counts := map[];
    var todo := candidates.Keys;
    ghost var pairs: set<(Pubkey, Slot)> := {};
    while todo != {}
      invariant todo <= candidates.Keys
      invariant forall k: Pubkey, s: Slot :: (k, s) in pairs <==> Holds(candidates, k, s) && k !in todo
      invariant CountedPairs(counts, alive, pairs)
    {
      var key :| key in todo;
      var slots := candidates[key].slotList;
      for i := 0 to |slots|
        invariant forall k: Pubkey, s: Slot :: (k, s) in pairs <==> (Holds(candidates, k, s) && k !in todo) || (k == key && s in slots[..i])
        invariant CountedPairs(counts, alive, pairs)
      {
        assert Holds(candidates, key, slots[i]);
        CountEntryKeeps(counts, alive, pairs, key, slots[i]);
        counts := CountEntry(counts, alive, slots[i], key);
        pairs := pairs + {(key, slots[i])};
      }
      todo := todo - {key};
    }
    AllCounted(counts, candidates, alive, pairs);
  }

  lemma AllCounted(counts: StoreCounts, candidates: Candidates, alive: map<Slot, set<Pubkey>>, pairs: set<(Pubkey, Slot)>)
    requires WellFormed(candidates, alive)
    requires forall k: Pubkey, s: Slot :: (k, s) in pairs <==> Holds(candidates, k, s)
    requires CountedPairs(counts, alive, pairs)
    ensures CountsFor(counts, candidates, alive)
  {
    forall slot: Slot ensures SeenAt(pairs, slot) == KeysAt(candidates, slot) {
      forall k: Pubkey ensures k in SeenAt(pairs, slot) <==> k in KeysAt(candidates, slot) {
        assert (k, slot) in pairs <==> Holds(candidates, k, slot);
      }
    }
    forall slot: Slot ensures Counted(counts, alive, slot, KeysAt(candidates, slot)) {
      assert Counted(counts, alive, slot, SeenAt(pairs, slot));
    }
    forall slot: Slot ensures slot in counts <==> exists key :: Holds(candidates, key, slot) {
      if slot in counts {
        var key :| key in KeysAt(candidates, slot);
        assert Holds(candidates, key, slot);
      } else {
        assert forall key | Holds(candidates, key, slot) :: key in KeysAt(candidates, slot);
      }
    }
    forall slot | slot in counts ensures KeysAt(candidates, slot) <= alive[slot] {
    }
  }

  // ---- The closure ----

  /** The slots of `counts` are those of the candidates, each with the candidates it holds. */
  ghost predicate Consistent(candidates: Candidates, counts: StoreCounts) {
    && (forall slot: Slot :: slot in counts <==> exists key :: Holds(candidates, key, slot))
    && (forall slot | slot in counts :: counts[slot].keys == KeysAt(candidates, slot))
  }

  function SlotsOf(candidates: Candidates, keys: set<Pubkey>): set<Slot> {
    set key, slot | key in keys && key in candidates && slot in candidates[key].slotList :: slot
  }

  /** The closure so far: `counted` are slots found blocked and taken out of the counts, `pending`
      are blocked slots still to be taken out, and no link leads from the one to anywhere else. */
  ghost predicate Closing(candidates: Candidates, counts0: StoreCounts, counts: StoreCounts, counted: set<Slot>, pending: set<Slot>) {
    && counted <= counts0.Keys && pending <= counts0.Keys
    && counts == counts0 - counted
    && AllBlocked(candidates, counts0, counted) && AllBlocked(candidates, counts0, pending)
    && LinksInside(candidates, counted, pending)
  }

  ghost predicate AllBlocked(candidates: Candidates, counts0: StoreCounts, slots: set<Slot>) {
    forall s | s in slots :: Blocked(candidates, counts0, s)
  }

  ghost predicate LinksInside(candidates: Candidates, counted: set<Slot>, pending: set<Slot>) {
    forall a, b | a in counted && Linked(candidates, a, b) :: b in counted || b in pending
  }

  /** A key that clean must keep makes all its slots blocked. */
  ghost predicate Kept(candidates: Candidates, counts0: StoreCounts, key: Pubkey)
    requires key in candidates
  {
    || |candidates[key].slotList| != candidates[key].refCount
    || exists slot :: slot in candidates[key].slotList && slot in counts0 && counts0[slot].count != 0
  }

  ghost predicate Handled(candidates: Candidates, counts0: StoreCounts, counted: set<Slot>, keys: set<Pubkey>) {
    forall key | key in keys && key in candidates && Kept(candidates, counts0, key) :: SlotsOf(candidates, {key}) <= counted
  }

  lemma LinkBlocks(candidates: Candidates, counts: StoreCounts, a: Slot, b: Slot)
    requires Linked(candidates, a, b) && Blocked(candidates, counts, b)
    ensures Blocked(candidates, counts, a)
  {
    var p :| Path(candidates, p) && p[0] == b && Stuck(candidates, counts, p[|p| - 1]);
    var q := [a] + p;
    assert q[|q| - 1] == p[|p| - 1];
    assert Path(candidates, q) by {
      forall i | 0 <= i < |q| - 1 ensures Linked(candidates, q[i], q[i + 1]) {
        assert i > 0 ==> Linked(candidates, p[i - 1], p[i]);
      }
    }
  }

  lemma StuckBlocks(candidates: Candidates, counts: StoreCounts, s: Slot)
    requires Stuck(candidates, counts, s)
    ensures Blocked(candidates, counts, s)
  {
    assert Path(candidates, [s]);
  }

  /** All slots of a key are blocked when the key is not in all the stores it should be in, or when
      one of its slots is. */
  lemma KeyBlocks(candidates: Candidates, counts: StoreCounts, key: Pubkey, why: Slot, slot: Slot)
    requires Consistent(candidates, counts) && Holds(candidates, key, slot)
    requires |candidates[key].slotList| != candidates[key].refCount || (Holds(candidates, key, why) && Blocked(candidates, counts, why))
    ensures Blocked(candidates, counts, slot)
  {
    if |candidates[key].slotList| != candidates[key].refCount {
      StuckBlocks(candidates, counts, slot);
    } else {
      assert Linked(candidates, slot, why);
      LinkBlocks(candidates, counts, slot, why);
    }
  }

  /** The slots of the given keys that are not counted yet join the pending ones. */
  method AddPending(candidates: Candidates, keys: set<Pubkey>, counted: set<Slot>, before: set<Slot>) returns (pending: set<Slot>)
    requires keys <= candidates.Keys
    ensures pending == before + (SlotsOf(candidates, keys) - counted)
  {
    pending := before;
    var todo := keys;
    while todo != {}
      invariant todo <= keys
      invariant pending == before + (SlotsOf(candidates, keys - todo) - counted)
    {
      var key :| key in todo;
      var slots := candidates[key].slotList;
      ghost var prior := pending;
      for i := 0 to |slots|
        invariant pending == prior + ((set s | s in slots[..i]) - counted)
      {
        if slots[i] !in counted {
          pending := pending + {slots[i]};
        }
      }
      assert SlotsOf(candidates, keys - (todo - {key})) == SlotsOf(candidates, keys - todo) + (set s | s in slots) by {
        assert keys - (todo - {key}) == (keys - todo) + {key};
      }
      assert slots[..|slots|] == slots;
      todo := todo - {key};
    }
    assert keys - todo == keys;
  }

  /** The slots of the keys of a slot are the slots linked to it. */
  lemma Neighbours(candidates: Candidates, slot: Slot, b: Slot)
    ensures b in SlotsOf(candidates, KeysAt(candidates, slot)) <==> Linked(candidates, slot, b)
  {
    if b in SlotsOf(candidates, KeysAt(candidates, slot)) {
      var key :| key in KeysAt(candidates, slot) && b in candidates[key].slotList;
      assert Holds(candidates, key, slot) && Holds(candidates, key, b);
    }
    if Linked(candidates, slot, b) {
      var key :| Holds(candidates, key, slot) && Holds(candidates, key, b);
      assert key in KeysAt(candidates, slot);
    }
  }

  /** They share its fate. */
  lemma NeighboursBlocked(candidates: Candidates, counts0: StoreCounts, slot: Slot)
    requires Consistent(candidates, counts0) && Blocked(candidates, counts0, slot)
    ensures var linked := SlotsOf(candidates, KeysAt(candidates, slot));
            linked <= counts0.Keys && AllBlocked(candidates, counts0, linked)
  {
    var linked := SlotsOf(candidates, KeysAt(candidates, slot));
    forall b | b in linked ensures b in counts0 && Blocked(candidates, counts0, b) {
      Neighbours(candidates, slot, b);
      var key :| Holds(candidates, key, slot) && Holds(candidates, key, b);
      assert Linked(candidates, b, slot);
      LinkBlocks(candidates, counts0, b, slot);
    }
  }

  lemma LinksGrow(candidates: Candidates, counted: set<Slot>, pending: set<Slot>, slot: Slot)
    requires LinksInside(candidates, counted, pending)
    ensures LinksInside(candidates, counted + {slot},
                        pending - {slot} + (SlotsOf(candidates, KeysAt(candidates, slot)) - (counted + {slot})))
  {
    forall b: Slot ensures b in SlotsOf(candidates, KeysAt(candidates, slot)) <==> Linked(candidates, slot, b) {
      Neighbours(candidates, slot, b);
    }
  }

  lemma CloseSlot(candidates: Candidates, counts0: StoreCounts, counts: StoreCounts, counted: set<Slot>, pending: set<Slot>, slot: Slot)
    requires Consistent(candidates, counts0) && Closing(candidates, counts0, counts, counted, pending)
    requires slot in pending && slot !in counted
    ensures slot in counts && slot in counts0 && counts[slot].keys == KeysAt(candidates, slot)
    ensures Closing(candidates, counts0, counts - {slot}, counted + {slot},
                    pending - {slot} + (SlotsOf(candidates, KeysAt(candidates, slot)) - (counted + {slot})))
  {
    LinksGrow(candidates, counted, pending, slot);
    NeighboursBlocked(candidates, counts0, slot);
    assert counts - {slot} == counts0 - (counted + {slot});
  }

  lemma SkipSlot(candidates: Candidates, counts0: StoreCounts, counts: StoreCounts, counted: set<Slot>, pending: set<Slot>, slot: Slot)
    requires Closing(candidates, counts0, counts, counted, pending) && slot in counted
    ensures Closing(candidates, counts0, counts, counted, pending - {slot})
  {
  }

  /** Takes one pending slot out of the counts; the other slots of its keys become pending. */
  method CloseOne(candidates: Candidates, ghost counts0: StoreCounts, counts: StoreCounts, counted: set<Slot>, pending: set<Slot>, slot: Slot)
    returns (counts': StoreCounts, counted': set<Slot>, pending': set<Slot>)
    requires Consistent(candidates, counts0) && Closing(candidates, counts0, counts, counted, pending) && slot in pending
    ensures Closing(candidates, counts0, counts', counted', pending')
    ensures counted' == counted + {slot} && pending - {slot} <= pending'
    ensures if slot in counted then pending' == pending - {slot} else slot in counts0
  {
    counted' := counted + {slot};
    if slot in counted {
      SkipSlot(candidates, counts0, counts, counted, pending, slot);
      assert counted' == counted;
      counts', pending' := counts, pending - {slot};
    } else {
      CloseSlot(candidates, counts0, counts, counted, pending, slot);
      counts' := counts - {slot};
      pending' := AddPending(candidates, counts[slot].keys, counted', pending - {slot});
    }
  }

  /** Takes everything reachable from the pending slots out of the counts. */
  method Close(candidates: Candidates, ghost counts0: StoreCounts, counts: StoreCounts, counted: set<Slot>, start: set<Slot>)
    returns (counts': StoreCounts, counted': set<Slot>)
    requires Consistent(candidates, counts0) && Closing(candidates, counts0, counts, counted, start)
    ensures Closing(candidates, counts0, counts', counted', {})
    ensures counted + start <= counted'
  {
    counts', counted' := counts, counted;
    var pending := start;
    while pending != {}
      invariant Closing(candidates, counts0, counts', counted', pending)
      invariant counted <= counted' && start <= counted' + pending
      decreases counts0.Keys - counted', pending
    {
      var slot :| slot in pending;
      counts', counted', pending := CloseOne(candidates, counts0, counts', counted', pending, slot);
    }
  }

  /** Whether every slot of the key can still be deleted. */
  method CanDelete(info: CleaningInfo, counts: StoreCounts) returns (delete: bool, failed: Option<Slot>)
    ensures delete <==> |info.slotList| == info.refCount && forall s | s in info.slotList :: s in counts && counts[s].count == 0
    ensures !delete && |info.slotList| == info.refCount ==>
      failed.Some? && failed.value in info.slotList && (failed.value !in counts || counts[failed.value].count != 0)
  {
    delete, failed := |info.slotList| == info.refCount, None;
    var i := 0;
    while delete && i < |info.slotList|
      invariant 0 <= i <= |info.slotList|
      invariant delete ==> |info.slotList| == info.refCount && forall s | s in info.slotList[..i] :: s in counts && counts[s].count == 0
      invariant !delete && |info.slotList| == info.refCount ==>
        failed.Some? && failed.value in info.slotList && (failed.value !in counts || counts[failed.value].count != 0)
      decreases delete, |info.slotList| - i
    {
      var slot := info.slotList[i];
      if slot in counts && counts[slot].count == 0 {
        i := i + 1;
      } else {
        delete, failed := false, Some(slot);
      }
    }
    assert delete ==> info.slotList[..i] == info.slotList;
  }

  /** A key that cannot be deleted now has only blocked slots, so closing over them is sound. */
  lemma StartClosing(candidates: Candidates, counts0: StoreCounts, counts: StoreCounts, counted: set<Slot>, key: Pubkey, why: Slot)
    requires Consistent(candidates, counts0) && Closing(candidates, counts0, counts, counted, {}) && key in candidates
    requires || |candidates[key].slotList| != candidates[key].refCount
             || (Holds(candidates, key, why) && (why !in counts || counts[why].count != 0))
    ensures Closing(candidates, counts0, counts, counted, SlotsOf(candidates, {key}) - counted)
  {
    forall s | s in SlotsOf(candidates, {key}) ensures s in counts0 && Blocked(candidates, counts0, s) {
      assert Holds(candidates, key, s);
      if |candidates[key].slotList| == candidates[key].refCount {
        assert why in counts0;
        if why in counts {
          StuckBlocks(candidates, counts0, why);
        }
      }
      KeyBlocks(candidates, counts0, key, why, s);
    }
  }

  /** When all keys are handled, exactly the blocked slots are gone. */
  lemma ClosedIsExact(candidates: Candidates, counts0: StoreCounts, counts: StoreCounts, counted: set<Slot>)
    requires Consistent(candidates, counts0) && Closing(candidates, counts0, counts, counted, {})
    requires Handled(candidates, counts0, counted, candidates.Keys)
    ensures counts == Unblocked(candidates, counts0)
  {
    forall s | s in counts0 && Blocked(candidates, counts0, s) ensures s in counted {
      var p :| Path(candidates, p) && p[0] == s && Stuck(candidates, counts0, p[|p| - 1]);
      StuckIsCounted(candidates, counts0, counted, p[|p| - 1]);
      PathStaysCounted(candidates, counts0, counts, counted, p);
    }
  }

  lemma StuckIsCounted(candidates: Candidates, counts0: StoreCounts, counted: set<Slot>, s: Slot)
    requires Consistent(candidates, counts0) && Handled(candidates, counts0, counted, candidates.Keys)
    requires Stuck(candidates, counts0, s)
    ensures s in counted
  {
    var key;
    if counts0[s].count != 0 {
      key :| Holds(candidates, key, s);
    } else {
      key :| Holds(candidates, key, s) && |candidates[key].slotList| != candidates[key].refCount;
    }
    assert Kept(candidates, counts0, key) && s in SlotsOf(candidates, {key});
  }

  lemma {:induction false} PathStaysCounted(candidates: Candidates, counts0: StoreCounts, counts: StoreCounts, counted: set<Slot>, p: seq<Slot>)
    requires Closing(candidates, counts0, counts, counted, {}) && Path(candidates, p) && p[|p| - 1] in counted
    ensures p[0] in counted
  {
    if |p| > 1 {
      assert Path(candidates, p[1..]) by {
        forall i | 0 <= i < |p[1..]| - 1 ensures Linked(candidates, p[1..][i], p[1..][i + 1]) {
          assert Linked(candidates, p[i + 1], p[i + 2]);
        }
      }
      PathStaysCounted(candidates, counts0, counts, counted, p[1..]);
      assert Linked(candidates, p[0], p[1]);
      assert Linked(candidates, p[1], p[0]);
    }
  }

  lemma HandledKey(candidates: Candidates, counts0: StoreCounts, before: set<Slot>, counted: set<Slot>, done: set<Pubkey>, key: Pubkey)
    requires Handled(candidates, counts0, before, done) && before <= counted && key in candidates
    requires SlotsOf(candidates, {key}) <= counted || !Kept(candidates, counts0, key)
    ensures Handled(candidates, counts0, counted, done + {key})
  {
  }

  /** Looks at one candidate; one that must be kept takes all that is linked to it out of the counts. */
  method HandleKey(candidates: Candidates, ghost counts0: StoreCounts, counts: StoreCounts, counted: set<Slot>, key: Pubkey)
    returns (counts': StoreCounts, counted': set<Slot>)
    requires Consistent(candidates, counts0) && Closing(candidates, counts0, counts, counted, {}) && key in candidates
    ensures Closing(candidates, counts0, counts', counted', {}) && counted <= counted'
    ensures SlotsOf(candidates, {key}) <= counted' || !Kept(candidates, counts0, key)
  {
    var delete, failed := CanDelete(candidates[key], counts);
    counts', counted' := counts, counted;
    if delete {
      DeletedIsNotKept(candidates, counts0, counts, counted, key);
    } else {
      var pending := AddPending(candidates, {key}, counted, {});
      StartClosing(candidates, counts0, counts, counted, key, if failed.Some? then failed.value else 0);
      assert pending == SlotsOf(candidates, {key}) - counted;
      counts', counted' := Close(candidates, counts0, counts, counted, pending);
    }
  }

  lemma DeletedIsNotKept(candidates: Candidates, counts0: StoreCounts, counts: StoreCounts, counted: set<Slot>, key: Pubkey)
    requires Closing(candidates, counts0, counts, counted, {}) && key in candidates
    requires |candidates[key].slotList| == candidates[key].refCount
    requires forall s | s in candidates[key].slotList :: s in counts && counts[s].count == 0
    ensures !Kept(candidates, counts0, key)
  {
  }

  /** Takes out of the store counts every slot that cannot be deleted, visiting candidates and
      pending slots in any order. What is left does not depend on that order: it is exactly the
      slots of the components without a stuck slot. */
  method CalcDeleteDependencies(candidates: Candidates, counts0: StoreCounts) returns (counts: StoreCounts)
    requires Consistent(candidates, counts0)
    ensures counts == Unblocked(candidates, counts0)
  {
    counts := counts0;
    var counted: set<Slot> := {};
    var todo := candidates.Keys;
    ghost var done: set<Pubkey> := {};
    assert counts0 - {} == counts0;
    while todo != {}
      invariant todo + done == candidates.Keys
      invariant Closing(candidates, counts0, counts, counted, {})
      invariant Handled(candidates, counts0, counted, done)
    {
      var key :| key in todo;
      ghost var before := counted;
      counts, counted := HandleKey(candidates, counts0, counts, counted, key);
      HandledKey(candidates, counts0, before, counted, done, key);
      todo, done := todo - {key}, done + {key};
    }
    assert done == candidates.Keys;
    ClosedIsExact(candidates, counts0, counts, counted);
  }

  // ---- What is purged ----

  const SLOT_MAX: nat := 0xFFFF_FFFF_FFFF_FFFF

  /** Zero-lamport accounts newer than the last full snapshot must stay for the incremental one. */
  predicate FilterForIncremental(maxCleanRoot: Option<Slot>, lastFullSnapshot: Option<Slot>) {
    var bound := if maxCleanRoot.Some? then maxCleanRoot.value else SLOT_MAX;
    var full := if lastFullSnapshot.Some? then lastFullSnapshot.value else SLOT_MAX;
    bound > full
  }

  /** Every slot of the key is going to be deleted. */
  ghost predicate AllDeleted(candidates: Candidates, counts: StoreCounts, key: Pubkey) {
    key in candidates && forall s | s in candidates[key].slotList :: s in counts && counts[s].count == 0
  }

  predicate IsNewest(slots: seq<Slot>, slot: Slot) {
    slot in slots && forall s | s in slots :: s <= slot
  }

  method NewestSlot(slots: seq<Slot>) returns (slot: Slot)
    requires slots != []
    ensures IsNewest(slots, slot)
  {
    slot := slots[0];
    for i := 1 to |slots|
      invariant slot in slots && forall s | s in slots[..i] :: s <= slot
    {
      assert slots[..i + 1] == slots[..i] + [slots[i]];
      if slots[i] > slot {
        slot := slots[i];
      }
    }
    assert slots[..|slots|] == slots;
  }

  method AllSlotsDeleted(slots: seq<Slot>, counts: StoreCounts) returns (all: bool)
    ensures all <==> forall s | s in slots :: s in counts && counts[s].count == 0
  {
    for i := 0 to |slots|
      invariant forall s | s in slots[..i] :: s in counts && counts[s].count == 0
    {
      if slots[i] !in counts || counts[slots[i]].count != 0 {
        return false;
      }
    }
    assert slots[..|slots|] == slots;
    return true;
  }

  /** Slots are 64-bit numbers. */
  predicate InSlotRange(slot: Option<Slot>) { slot.Some? ==> slot.value <= SLOT_MAX }

  /** The clean goes beyond the last full snapshot, and so does the history of the key. */
  ghost predicate HeldBack(candidates: Candidates, maxCleanRoot: Option<Slot>, lastFullSnapshot: Option<Slot>, key: Pubkey) {
    && lastFullSnapshot.Some? && key in candidates
    && (maxCleanRoot.Some? ==> lastFullSnapshot.value < maxCleanRoot.value)
    && (maxCleanRoot.None? ==> lastFullSnapshot.value < SLOT_MAX)
    && exists s :: s in candidates[key].slotList && s > lastFullSnapshot.value
  }

  lemma NewestDecides(candidates: Candidates, maxCleanRoot: Option<Slot>, lastFullSnapshot: Option<Slot>, key: Pubkey, newest: Slot)
    requires InSlotRange(maxCleanRoot) && key in candidates && IsNewest(candidates[key].slotList, newest)
    ensures FilterForIncremental(maxCleanRoot, lastFullSnapshot) ==> lastFullSnapshot.Some?
    ensures HeldBack(candidates, maxCleanRoot, lastFullSnapshot, key) <==>
              FilterForIncremental(maxCleanRoot, lastFullSnapshot) && newest > lastFullSnapshot.value
  {
  }

  /** Keeps the candidates whose whole history goes away and, with incremental snapshots, is not
      newer than the last full one; the keys held back only for the latter are remembered. */
  method FilterCandidates(candidates: Candidates, counts: StoreCounts, maxCleanRoot: Option<Slot>, lastFullSnapshot: Option<Slot>)
    returns (kept: set<Pubkey>, later: set<(Slot, Pubkey)>)
    requires forall key | key in candidates :: candidates[key].slotList != []
    requires InSlotRange(maxCleanRoot)
    ensures forall key: Pubkey :: key in kept <==>
      AllDeleted(candidates, counts, key) && !HeldBack(candidates, maxCleanRoot, lastFullSnapshot, key)
    ensures forall s: Slot, key: Pubkey :: (s, key) in later <==>
      && AllDeleted(candidates, counts, key) && HeldBack(candidates, maxCleanRoot, lastFullSnapshot, key)
      && IsNewest(candidates[key].slotList, s)
  {
    kept, later := {}, {};
    var incremental := FilterForIncremental(maxCleanRoot, lastFullSnapshot);
    var todo := candidates.Keys;
    while todo != {}
      invariant todo <= candidates.Keys
      invariant forall key: Pubkey :: key in kept <==>
        key !in todo && AllDeleted(candidates, counts, key) && !HeldBack(candidates, maxCleanRoot, lastFullSnapshot, key)
      invariant forall s: Slot, key: Pubkey :: (s, key) in later <==>
        && key !in todo && AllDeleted(candidates, counts, key) && HeldBack(candidates, maxCleanRoot, lastFullSnapshot, key)
        && IsNewest(candidates[key].slotList, s)
    {
      var key :| key in todo;
      var all := AllSlotsDeleted(candidates[key].slotList, counts);
      if all {
        var newest := NewestSlot(candidates[key].slotList);
        NewestDecides(candidates, maxCleanRoot, lastFullSnapshot, key, newest);
        if incremental && newest > lastFullSnapshot.value {
          later := later + {(newest, key)};
        } else {
          kept := kept + {key};
        }
      }
      todo := todo - {key};
    }
  }

  /** A set of keys that can be purged together: each has no version outside its slot list, and
      every slot they touch holds no alive account of any other key. */
  ghost predicate Purgeable(candidates: Candidates, alive: map<Slot, set<Pubkey>>, keys: set<Pubkey>) {
    && keys <= candidates.Keys
    && (forall key | key in keys :: |candidates[key].slotList| == candidates[key].refCount)
    && (forall key, slot, other | key in keys && Holds(candidates, key, slot) && slot in alive && other in alive[slot] ::
          other in keys && Holds(candidates, other, slot))
  }

  ghost function PurgedKeys(candidates: Candidates, counts: StoreCounts): set<Pubkey> {
    set key | key in candidates && AllDeleted(candidates, Unblocked(candidates, counts), key)
  }

  lemma CountsAreConsistent(candidates: Candidates, alive: map<Slot, set<Pubkey>>, counts: StoreCounts)
    requires CountsFor(counts, candidates, alive)
    ensures Consistent(candidates, counts)
  {
  }

  /** All that is alive in a slot left in the counts is a candidate, and purged. */
  lemma UnblockedSlotEmpties(candidates: Candidates, alive: map<Slot, set<Pubkey>>, counts: StoreCounts, slot: Slot)
    requires CountsFor(counts, candidates, alive) && slot in Unblocked(candidates, counts)
    ensures alive[slot] == KeysAt(candidates, slot)
    ensures alive[slot] <= PurgedKeys(candidates, counts)
  {
    CountsAreConsistent(candidates, alive, counts);
    if Stuck(candidates, counts, slot) {
      StuckBlocks(candidates, counts, slot);
    }
    assert |alive[slot] - KeysAt(candidates, slot)| == 0;
    forall key | key in alive[slot] ensures key in KeysAt(candidates, slot) && key in PurgedKeys(candidates, counts) {
      assert key !in alive[slot] - KeysAt(candidates, slot);
      KeyOfUnblockedSlot(candidates, counts, slot, key);
    }
  }

  lemma PurgedKeyIsWhole(candidates: Candidates, counts: StoreCounts, key: Pubkey)
    requires key in PurgedKeys(candidates, counts) && candidates[key].slotList != []
    ensures |candidates[key].slotList| == candidates[key].refCount
  {
    var slot := candidates[key].slotList[0];
    assert Holds(candidates, key, slot) && slot in Unblocked(candidates, counts);
    if |candidates[key].slotList| != candidates[key].refCount {
      StuckBlocks(candidates, counts, slot);
    }
  }

  /** What clean purges is purgeable together: every slot it deletes loses all its alive accounts. */
  lemma PurgedIsPurgeable(candidates: Candidates, alive: map<Slot, set<Pubkey>>, counts: StoreCounts)
    requires WellFormed(candidates, alive) && CountsFor(counts, candidates, alive)
    requires forall key | key in candidates :: candidates[key].slotList != []
    ensures Purgeable(candidates, alive, PurgedKeys(candidates, counts))
    ensures forall slot | slot in Unblocked(candidates, counts) :: alive[slot] <= PurgedKeys(candidates, counts)
  {
    var keys := PurgedKeys(candidates, counts);
    forall slot | slot in Unblocked(candidates, counts) ensures alive[slot] <= keys {
      UnblockedSlotEmpties(candidates, alive, counts, slot);
    }
    forall key | key in keys ensures |candidates[key].slotList| == candidates[key].refCount {
      PurgedKeyIsWhole(candidates, counts, key);
    }
    forall key, slot, other | key in keys && Holds(candidates, key, slot) && slot in alive && other in alive[slot]
      ensures other in keys && Holds(candidates, other, slot)
    {
      UnblockedSlotEmpties(candidates, alive, counts, slot);
    }
  }

  lemma KeyOfUnblockedSlot(candidates: Candidates, counts: StoreCounts, slot: Slot, key: Pubkey)
    requires Consistent(candidates, counts) && slot in Unblocked(candidates, counts) && Holds(candidates, key, slot)
    ensures AllDeleted(candidates, Unblocked(candidates, counts), key)
  {
    forall s | s in candidates[key].slotList ensures s in counts && !Blocked(candidates, counts, s) && counts[s].count == 0 {
      assert Holds(candidates, key, s);
      assert Linked(candidates, slot, s);
      if Blocked(candidates, counts, s) {
        LinkBlocks(candidates, counts, slot, s);
      }
      if Stuck(candidates, counts, s) {
        StuckBlocks(candidates, counts, s);
      }
    }
  }

  /** And it is the largest such set: whatever can be purged together, is purged. */
  lemma PurgedIsLargest(candidates: Candidates, alive: map<Slot, set<Pubkey>>, counts: StoreCounts, keys: set<Pubkey>)
    requires WellFormed(candidates, alive) && CountsFor(counts, candidates, alive) && Purgeable(candidates, alive, keys)
    ensures keys <= PurgedKeys(candidates, counts)
  {
    CountsAreConsistent(candidates, alive, counts);
    forall key, slot | key in keys && Holds(candidates, key, slot) ensures slot in counts && !Blocked(candidates, counts, slot) && counts[slot].count == 0 {
      forall p | Path(candidates, p) && p[0] == slot ensures !Stuck(candidates, counts, p[|p| - 1]) {
        PathStaysPurgeable(candidates, alive, keys, p, |p| - 1);
        NotStuck(candidates, alive, counts, keys, p[|p| - 1]);
      }
      NotStuck(candidates, alive, counts, keys, slot);
    }
    forall key | key in keys ensures AllDeleted(candidates, Unblocked(candidates, counts), key) {
      forall s | s in candidates[key].slotList ensures s in counts && !Blocked(candidates, counts, s) && counts[s].count == 0 {
        assert Holds(candidates, key, s);
      }
    }
  }

  ghost predicate Touches(candidates: Candidates, keys: set<Pubkey>, slot: Slot) {
    exists key :: key in keys && Holds(candidates, key, slot)
  }

  lemma {:induction false} PathStaysPurgeable(candidates: Candidates, alive: map<Slot, set<Pubkey>>, keys: set<Pubkey>, p: seq<Slot>, i: nat)
    requires WellFormed(candidates, alive) && Purgeable(candidates, alive, keys)
    requires Path(candidates, p) && i < |p| && Touches(candidates, keys, p[0])
    ensures Touches(candidates, keys, p[i])
  {
    if i > 0 {
      PathStaysPurgeable(candidates, alive, keys, p, i - 1);
      var key :| key in keys && Holds(candidates, key, p[i - 1]);
      assert Linked(candidates, p[i - 1], p[i]);
      var other :| Holds(candidates, other, p[i - 1]) && Holds(candidates, other, p[i]);
      assert other in keys;
    }
  }

  lemma TouchedSlotEmpties(candidates: Candidates, alive: map<Slot, set<Pubkey>>, keys: set<Pubkey>, slot: Slot)
    requires WellFormed(candidates, alive) && Purgeable(candidates, alive, keys) && Touches(candidates, keys, slot)
    ensures slot in alive && alive[slot] - KeysAt(candidates, slot) == {} && KeysAt(candidates, slot) <= keys
  {
    var key :| key in keys && Holds(candidates, key, slot);
    forall other | other in alive[slot] ensures other in KeysAt(candidates, slot) {
      assert Holds(candidates, other, slot);
    }
    forall other | other in KeysAt(candidates, slot) ensures other in keys {
      assert Holds(candidates, other, slot);
    }
  }

  lemma NotStuck(candidates: Candidates, alive: map<Slot, set<Pubkey>>, counts: StoreCounts, keys: set<Pubkey>, slot: Slot)
    requires WellFormed(candidates, alive) && CountsFor(counts, candidates, alive) && Purgeable(candidates, alive, keys)
    requires Touches(candidates, keys, slot)
    ensures slot in counts && counts[slot].count == 0 && !Stuck(candidates, counts, slot)
  {
    TouchedSlotEmpties(candidates, alive, keys, slot);
    forall other | Holds(candidates, other, slot) ensures |candidates[other].slotList| == candidates[other].refCount {
      assert other in KeysAt(candidates, slot);
    }
  }

  // ---- The whole computation ----

  /** The key belongs to some set of keys that can be purged together. */
  ghost predicate CanGo(candidates: Candidates, alive: map<Slot, set<Pubkey>>, key: Pubkey) {
    exists keys: set<Pubkey> :: Purgeable(candidates, alive, keys) && key in keys
  }

  ghost predicate ShareSlot(candidates: Candidates, a: Pubkey, b: Pubkey) {
    exists slot: Slot :: Holds(candidates, a, slot) && Holds(candidates, b, slot)
  }

  lemma PurgedIffCanGo(candidates: Candidates, alive: map<Slot, set<Pubkey>>, counts: StoreCounts, key: Pubkey)
    requires WellFormed(candidates, alive) && CountsFor(counts, candidates, alive)
    requires forall k | k in candidates :: candidates[k].slotList != []
    ensures AllDeleted(candidates, Unblocked(candidates, counts), key) <==> CanGo(candidates, alive, key)
  {
    PurgedIsPurgeable(candidates, alive, counts);
    if keys: set<Pubkey> :| Purgeable(candidates, alive, keys) && key in keys {
      PurgedIsLargest(candidates, alive, counts, keys);
    }
  }

  /** The purged keys can go together, unless one shares a slot with a key that is held back. */
  lemma KeptPurgeable(candidates: Candidates, alive: map<Slot, set<Pubkey>>, all: set<Pubkey>, kept: set<Pubkey>)
    requires WellFormed(candidates, alive) && Purgeable(candidates, alive, all) && kept <= all
    ensures Purgeable(candidates, alive, kept) <==> forall a, b | a in kept && b in all - kept :: !ShareSlot(candidates, a, b)
  {
    if forall a, b | a in kept && b in all - kept :: !ShareSlot(candidates, a, b) {
      forall key, slot, other | key in kept && Holds(candidates, key, slot) && slot in alive && other in alive[slot]
        ensures other in kept && Holds(candidates, other, slot)
      {
        assert other in all && Holds(candidates, other, slot);
        assert ShareSlot(candidates, key, other);
      }
    }
    if Purgeable(candidates, alive, kept) {
      forall a, b | a in kept && b in all - kept
        ensures !ShareSlot(candidates, a, b)
      {
        assert forall slot: Slot | Holds(candidates, a, slot) :: b !in alive[slot];
      }
    }
  }

  ghost function AllThatCanGo(candidates: Candidates, alive: map<Slot, set<Pubkey>>): set<Pubkey> {
    set key | key in candidates && CanGo(candidates, alive, key)
  }

  /** From the candidates and the storages: purges exactly the keys that can go and are not held back. */
  method KeysToPurge(candidates: Candidates, alive: map<Slot, set<Pubkey>>, maxCleanRoot: Option<Slot>, lastFullSnapshot: Option<Slot>)
    returns (kept: set<Pubkey>, later: set<(Slot, Pubkey)>)
    requires WellFormed(candidates, alive) && forall key | key in candidates :: candidates[key].slotList != []
    requires InSlotRange(maxCleanRoot)
    ensures forall key: Pubkey :: key in kept <==>
              CanGo(candidates, alive, key) && !HeldBack(candidates, maxCleanRoot, lastFullSnapshot, key)
    ensures forall s: Slot, key: Pubkey :: (s, key) in later <==>
              && CanGo(candidates, alive, key) && HeldBack(candidates, maxCleanRoot, lastFullSnapshot, key)
              && IsNewest(candidates[key].slotList, s)
    // Without a full snapshot nothing is held back. With one, since clean does not collect versions above its
    // bound, exactly the keys without a version after the snapshot go.
    ensures lastFullSnapshot.None? ==> forall key: Pubkey :: key in kept <==> CanGo(candidates, alive, key)
    ensures lastFullSnapshot.Some? && WithinBound(candidates, maxCleanRoot) ==>
              forall key: Pubkey :: key in kept <==>
                CanGo(candidates, alive, key) && forall s | s in candidates[key].slotList :: s <= lastFullSnapshot.value
  {
    var counts := BuildStoreCounts(candidates, alive);
    CountsAreConsistent(candidates, alive, counts);
    var unblocked := CalcDeleteDependencies(candidates, counts);
    kept, later := FilterCandidates(candidates, unblocked, maxCleanRoot, lastFullSnapshot);
    forall key: Pubkey
      ensures AllDeleted(candidates, unblocked, key) <==> CanGo(candidates, alive, key)
    {
      PurgedIffCanGo(candidates, alive, counts, key);
    }
    if lastFullSnapshot.Some? && WithinBound(candidates, maxCleanRoot) {
      forall key: Pubkey | key in candidates
        ensures HeldBack(candidates, maxCleanRoot, lastFullSnapshot, key) <==>
                  exists s :: s in candidates[key].slotList && s > lastFullSnapshot.value
      {
        LaterVersionHoldsBack(candidates, maxCleanRoot, lastFullSnapshot.value, key);
      }
      assert forall key: Pubkey | CanGo(candidates, alive, key) :: key in candidates;
    }
  }

  /** No candidate has a version above the bound of the clean. */
  ghost predicate WithinBound(candidates: Candidates, maxCleanRoot: Option<Slot>) {
    forall key: Pubkey, s: Slot | Holds(candidates, key, s) :: s <= if maxCleanRoot.Some? then maxCleanRoot.value else SLOT_MAX
  }

  lemma LaterVersionHoldsBack(candidates: Candidates, maxCleanRoot: Option<Slot>, full: Slot, key: Pubkey)
    requires WithinBound(candidates, maxCleanRoot) && key in candidates
    ensures HeldBack(candidates, maxCleanRoot, Some(full), key) <==> exists s :: s in candidates[key].slotList && s > full
  {
    if s: Slot :| s in candidates[key].slotList && s > full {
      assert Holds(candidates, key, s);
    }
  }

  /** What is purged empties all slots it touches if and only if no purged key shares a slot with a
      held-back one; in particular, whenever no incremental snapshot is due. */
  lemma PurgedTogether(candidates: Candidates, alive: map<Slot, set<Pubkey>>, maxCleanRoot: Option<Slot>,
                       lastFullSnapshot: Option<Slot>, kept: set<Pubkey>)
    requires WellFormed(candidates, alive) && forall key | key in candidates :: candidates[key].slotList != []
    requires forall key :: key in kept <==>
               CanGo(candidates, alive, key) && !HeldBack(candidates, maxCleanRoot, lastFullSnapshot, key)
    ensures Purgeable(candidates, alive, kept) <==>
              forall a, b | a in kept && b in AllThatCanGo(candidates, alive) - kept :: !ShareSlot(candidates, a, b)
    ensures (lastFullSnapshot.None? || (maxCleanRoot.Some? && maxCleanRoot.value <= lastFullSnapshot.value)) ==>
              Purgeable(candidates, alive, kept)
  {
    var all := AllThatCanGo(candidates, alive);
    AllCanGoTogether(candidates, alive);
    forall key | key in kept
      ensures key in all
    {
      assert CanGo(candidates, alive, key);
    }
    KeptPurgeable(candidates, alive, all, kept);
    if lastFullSnapshot.None? || (maxCleanRoot.Some? && maxCleanRoot.value <= lastFullSnapshot.value) {
      assert kept == all;
    }
  }

  lemma AllCanGoTogether(candidates: Candidates, alive: map<Slot, set<Pubkey>>)
    requires WellFormed(candidates, alive)
    ensures Purgeable(candidates, alive, AllThatCanGo(candidates, alive))
  {
    var all := AllThatCanGo(candidates, alive);
    forall key, slot, other | key in all && Holds(candidates, key, slot) && slot in alive && other in alive[slot]
      ensures other in all && Holds(candidates, other, slot)
    {
      var keys: set<Pubkey> :| Purgeable(candidates, alive, keys) && key in keys;
      assert other in keys;
      assert CanGo(candidates, alive, other);
    }
    forall key | key in all
      ensures |candidates[key].slotList| == candidates[key].refCount
    {
      var keys: set<Pubkey> :| Purgeable(candidates, alive, keys) && key in keys;
    }
  }

  /** It can happen: key 1 was last changed before the full snapshot at slot 5 and key 2 after it, and
      both are in slot 1. Key 1 goes, with slot 3 that holds its newest version, but slot 1 stays. */
  lemma HeldBackKeyKeepsSlot()
    ensures var candidates: Candidates := map[1 := CleaningInfo([1, 3], 2), 2 := CleaningInfo([1, 7], 2)];
            var alive: map<Slot, set<Pubkey>> := map[1 := {1, 2}, 3 := {1}, 7 := {2}];
            && WellFormed(candidates, alive) && Purgeable(candidates, alive, {1, 2})
            && !HeldBack(candidates, None, Some(5), 1) && HeldBack(candidates, None, Some(5), 2)
            && ShareSlot(candidates, 1, 2) && !Purgeable(candidates, alive, {1})
  {
    var candidates: Candidates := map[1 := CleaningInfo([1, 3], 2), 2 := CleaningInfo([1, 7], 2)];
    var alive: map<Slot, set<Pubkey>> := map[1 := {1, 2}, 3 := {1}, 7 := {2}];
    assert Holds(candidates, 1, 1) && Holds(candidates, 2, 1) && 2 in alive[1];
    assert 7 in candidates[2].slotList;
  }
}
