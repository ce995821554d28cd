/** Read and write locks of the accounts that transactions in flight use. */
module AccountLocks {
  import opened Seqs
  import opened Types

  type BatchId = nat

  datatype Use = Use(key: Pubkey, writable: bool)

  datatype Error = TooManyAccountLocks | AccountLoadedTwice | AccountInUse | Earlier(code: nat)

  datatype Outcome = Ok | Err(error: Error)

  // ---- Validation ----

  const USE_ACCOUNT_LOCK_SET_SIZE := 32

  method HasDuplicates(keys: seq<Pubkey>) returns (dup: bool)
    ensures dup <==> !Distinct(keys)
  {
    if |keys| >= USE_ACCOUNT_LOCK_SET_SIZE {
      var seen: set<Pubkey> := {};
      for i := 0 to |keys|
        invariant Distinct(keys[..i]) && seen == set j | 0 <= j < i :: keys[j]
      {
        if keys[i] in seen {
          return true;
        }
        seen := seen + {keys[i]};
      }
      assert keys[..|keys|] == keys;
      return false;
    }
    for i := 0 to |keys|
      invariant forall a, b | 0 <= a < i && a < b < |keys| :: keys[a] != keys[b]
    {
      for j := i + 1 to |keys|
        invariant forall b | i < b < j :: keys[i] != keys[b]
      {
        if keys[i] == keys[j] {
          return true;
        }
      }
    }
    return false;
  }

  function Keys(uses: seq<Use>): seq<Pubkey> { seq(|uses|, i requires 0 <= i < |uses| => uses[i].key) }

  method Validate(keys: seq<Pubkey>, limit: nat) returns (r: Outcome)
    ensures r == Ok <==> |keys| <= limit && Distinct(keys)
    ensures r == Err(TooManyAccountLocks) <==> |keys| > limit
    ensures r == Err(AccountLoadedTwice) <==> |keys| <= limit && !Distinct(keys)
  {
    if |keys| > limit {
      return Err(TooManyAccountLocks);
    }
    var dup := HasDuplicates(keys);
    return if dup then Err(AccountLoadedTwice) else Ok;
  }

  /** An earlier error stays; then too many accounts come before accounts named twice. */
  ghost function Validated(tx: seq<Use>, result: Outcome, limit: nat): Outcome {
    if result != Ok then result
    else if |tx| > limit then Err(TooManyAccountLocks)
    else if exists i, j :: 0 <= i < j < |tx| && tx[i].key == tx[j].key then Err(AccountLoadedTwice)
    else Ok
  }

  lemma DistinctKeys(tx: seq<Use>)
    ensures Distinct(Keys(tx)) <==> forall i, j | 0 <= i < j < |tx| :: tx[i].key != tx[j].key
  {
    assert forall i | 0 <= i < |tx| :: Keys(tx)[i] == tx[i].key;
  }

  method ValidateBatch(txs: seq<seq<Use>>, results: seq<Outcome>, limit: nat) returns (validated: seq<Outcome>)
    requires |results| == |txs|
    ensures |validated| == |txs|
    ensures forall i | 0 <= i < |txs| :: validated[i] == Validated(txs[i], results[i], limit)
  {
    validated := [];
    for i := 0 to |txs|
      invariant |validated| == i
      invariant forall j | 0 <= j < i :: validated[j] == Validated(txs[j], results[j], limit)
    {
      var r := results[i];
      if r == Ok {
        r := Validate(Keys(txs[i]), limit);
        DistinctKeys(txs[i]);
      }
      validated := validated + [r];
    }
  }

  // ---- Who holds what ----

  datatype TxId = TxId(batch: BatchId, index: nat)

  /** The transactions that have locked their accounts, and how they use them. */
  type Held = map<TxId, set<Use>>

  ghost predicate Clash(a: set<Use>, b: set<Use>) {
    exists u, v :: u in a && v in b && u.key == v.key && (u.writable || v.writable)
  }

  /** A transaction that writes an account shares it with its own batch only. */
  ghost predicate Exclusive(held: Held) {
    forall a, b | a in held && b in held && a.batch != b.batch :: !Clash(held[a], held[b])
  }

  ghost predicate Conflicts(held: Held, uses: set<Use>) { exists a :: a in held && Clash(held[a], uses) }

  ghost function Using(held: Held, u: Use): set<TxId> { set a | a in held && u in held[a] }

  ghost predicate EntryRight(locks: map<Pubkey, nat>, held: Held, u: Use) {
    if u.key in locks then locks[u.key] > 0 && locks[u.key] == |Using(held, u)| else |Using(held, u)| == 0
  }

  /** The map counts the holders of each key; a key without a holder has no entry. */
  ghost predicate Represents(locks: map<Pubkey, nat>, held: Held, writable: bool) {
    forall key: Pubkey :: EntryRight(locks, held, Use(key, writable))
  }

  /** The lock maps are a function of what is held: when the same transactions hold locks again,
      the maps are the same again. */
  lemma HeldDeterminesLocks(a: map<Pubkey, nat>, b: map<Pubkey, nat>, held: Held, writable: bool)
    requires Represents(a, held, writable) && Represents(b, held, writable)
    ensures a == b
  {
    forall key: Pubkey
      ensures key in a <==> key in b
      ensures key in a ==> a[key] == b[key]
    {
      assert EntryRight(a, held, Use(key, writable)) && EntryRight(b, held, Use(key, writable));
    }
  }

  ghost function WithUse(held: Held, id: TxId, u: Use): Held
    requires id in held
  {
    held[id := held[id] + {u}]
  }

  ghost function WithoutUse(held: Held, id: TxId, u: Use): Held
    requires id in held
  {
    held[id := held[id] - {u}]
  }

  lemma UseAdded(held: Held, id: TxId, u: Use, v: Use)
    requires id in held && u !in held[id]
    ensures |Using(WithUse(held, id, u), v)| == |Using(held, v)| + if u == v then 1 else 0
  {
    assert Using(WithUse(held, id, u), v) == Using(held, v) + if u == v then {id} else {};
  }

  lemma UseRemoved(held: Held, id: TxId, u: Use, v: Use)
    requires id in held && u in held[id]
    ensures |Using(WithoutUse(held, id, u), v)| == |Using(held, v)| - if u == v then 1 else 0
  {
    assert Using(WithoutUse(held, id, u), v) == Using(held, v) - if u == v then {id} else {};
  }

  /** A holder that uses nothing makes no difference. */
  lemma IdleHolder(locks: map<Pubkey, nat>, held: Held, id: TxId, writable: bool)
    requires id !in held
    ensures Represents(locks, held, writable) <==> Represents(locks, held[id := {}], writable)
  {
    var idle := held[id := {}];
    forall key: Pubkey
      ensures EntryRight(locks, held, Use(key, writable)) <==> EntryRight(locks, idle, Use(key, writable))
    {
      assert Using(idle, Use(key, writable)) == Using(held, Use(key, writable));
    }
  }

  function Incremented(locks: map<Pubkey, nat>, key: Pubkey): map<Pubkey, nat> {
    locks[key := (if key in locks then locks[key] else 0) + 1]
  }

  function Decremented(locks: map<Pubkey, nat>, key: Pubkey): map<Pubkey, nat> {
    if key !in locks || locks[key] == 0 then locks
    else if locks[key] == 1 then locks - {key} else locks[key := locks[key] - 1]
  }

  lemma AddUse(locks: map<Pubkey, nat>, held: Held, id: TxId, u: Use, writable: bool)
    requires Represents(locks, held, writable) && id in held && u !in held[id]
    ensures Represents(if u.writable == writable then Incremented(locks, u.key) else locks, WithUse(held, id, u), writable)
  {
    forall key: Pubkey
      ensures EntryRight(if u.writable == writable then Incremented(locks, u.key) else locks,
                         WithUse(held, id, u), Use(key, writable))
    {
      assert EntryRight(locks, held, Use(key, writable));
      UseAdded(held, id, u, Use(key, writable));
    }
  }

  lemma RemoveUse(locks: map<Pubkey, nat>, held: Held, id: TxId, u: Use, writable: bool)
    requires Represents(locks, held, writable) && id in held && u in held[id]
    ensures Represents(if u.writable == writable then Decremented(locks, u.key) else locks, WithoutUse(held, id, u), writable)
    ensures u.writable == writable ==> u.key in locks
  {
    assert id in Using(held, u);
    assert EntryRight(locks, held, Use(u.key, writable));
    forall key: Pubkey
      ensures EntryRight(if u.writable == writable then Decremented(locks, u.key) else locks,
                         WithoutUse(held, id, u), Use(key, writable))
    {
      assert EntryRight(locks, held, Use(key, writable));
      UseRemoved(held, id, u, Use(key, writable));
    }
  }

  ghost function LetIn(outcomes: seq<Outcome>, batch: BatchId): set<TxId> {
    set i: nat | i < |outcomes| && outcomes[i] == Ok :: TxId(batch, i)
  }

  /** What a batch adds: its transactions that were let in. */
  ghost function Batch(txs: seq<seq<Use>>, outcomes: seq<Outcome>, batch: BatchId): Held
    requires |outcomes| == |txs|
  {
    map id | id in LetIn(outcomes, batch) :: Elements(txs[id.index])
  }

  lemma BatchGrows(txs: seq<seq<Use>>, outcomes: seq<Outcome>, batch: BatchId, i: nat)
    requires |outcomes| == |txs| && i < |txs|
    ensures Batch(txs[..i + 1], outcomes[..i + 1], batch)
         == if outcomes[i] == Ok then Batch(txs[..i], outcomes[..i], batch)[TxId(batch, i) := Elements(txs[i])]
            else Batch(txs[..i], outcomes[..i], batch)
  {
  }

  lemma HeldGrows(held: Held, txs: seq<seq<Use>>, outcomes: seq<Outcome>, batch: BatchId, i: nat)
    requires |outcomes| == |txs| && i < |txs| && BatchFree(held, batch)
    ensures var before := held + Batch(txs[..i], outcomes[..i], batch);
            var after := held + Batch(txs[..i + 1], outcomes[..i + 1], batch);
            && TxId(batch, i) !in before
            && after == if outcomes[i] == Ok then before[TxId(batch, i) := Elements(txs[i])] else before
  {
    BatchGrows(txs, outcomes, batch, i);
  }

  ghost predicate BatchFree(held: Held, batch: BatchId) { forall id | id in held :: id.batch != batch }

  lemma BatchExclusive(held: Held, txs: seq<seq<Use>>, outcomes: seq<Outcome>, batch: BatchId)
    requires Exclusive(held) && BatchFree(held, batch) && |outcomes| == |txs|
    requires forall i | 0 <= i < |txs| && outcomes[i] == Ok :: !Conflicts(held, Elements(txs[i]))
    ensures Exclusive(held + Batch(txs, outcomes, batch))
  {
    var after := held + Batch(txs, outcomes, batch);
    forall a, b | a in after && b in after && a.batch != b.batch
      ensures !Clash(after[a], after[b])
    {
      if a in held && b !in held {
        assert !Conflicts(held, Elements(txs[b.index]));
      } else if a !in held && b in held {
        assert !Conflicts(held, Elements(txs[a.index]));
        ClashIsSymmetric(after[a], after[b]);
      }
    }
  }

  lemma ClashIsSymmetric(a: set<Use>, b: set<Use>)
    ensures Clash(a, b) <==> Clash(b, a)
  {
  }

  class Locks {
    var writeLocks: map<Pubkey, nat>
    var readonlyLocks: map<Pubkey, nat>
    ghost var held: Held

    ghost predicate Counted()
      reads this
    {
      Represents(writeLocks, held, true) && Represents(readonlyLocks, held, false)
    }

    ghost predicate Valid()
      reads this
    {
      Counted() && Exclusive(held)
    }

    constructor ()
      ensures Valid() && held == map[]
    {
      writeLocks, readonlyLocks, held := map[], map[], map[];
    }

    predicate IsLocked(u: Use)
      reads this
    {
      var locks := if u.writable then writeLocks else readonlyLocks;
      u.key in locks && locks[u.key] > 0
    }

    lemma LockedIffUsed(u: Use)
      requires Counted()
      ensures IsLocked(u) <==> exists a :: a in held && u in held[a]
    {
      assert EntryRight(if u.writable then writeLocks else readonlyLocks, held, u);
      assert |Using(held, u)| == 0 <==> forall a :: a !in Using(held, u);
      assert forall a :: a in Using(held, u) <==> a in held && u in held[a];
    }

    /** A set of uses can be locked unless it clashes with a transaction that holds locks. */
    method CanLock(uses: seq<Use>) returns (ok: bool)
      requires Counted()
      ensures ok <==> !Conflicts(held, Elements(uses))
    {
      for i := 0 to |uses|
        invariant !Conflicts(held, Elements(uses[..i]))
      {
        var u := uses[i];
        LockedIffUsed(Use(u.key, true));
        LockedIffUsed(Use(u.key, false));
        if IsLocked(Use(u.key, true)) || (u.writable && IsLocked(Use(u.key, false))) {
          assert u in Elements(uses);
          return false;
        }
        assert Elements(uses[..i + 1]) == Elements(uses[..i]) + {u};
      }
      assert uses[..|uses|] == uses;
      return true;
    }

    method LockOne(u: Use, ghost id: TxId)
      requires Counted() && id in held && u !in held[id]
      modifies this
      ensures Counted() && held == WithUse(old(held), id, u)
    {
      AddUse(writeLocks, held, id, u, true);
      AddUse(readonlyLocks, held, id, u, false);
      if u.writable {
        writeLocks := Incremented(writeLocks, u.key);
      } else {
        readonlyLocks := Incremented(readonlyLocks, u.key);
      }
      held := WithUse(held, id, u);
    }

    method UnlockOne(u: Use, ghost id: TxId)
      requires Counted() && id in held && u in held[id]
      modifies this
      ensures Counted() && held == WithoutUse(old(held), id, u)
    {
      RemoveUse(writeLocks, held, id, u, true);
      RemoveUse(readonlyLocks, held, id, u, false);
      if u.writable {
        writeLocks := Decremented(writeLocks, u.key);
      } else {
        readonlyLocks := Decremented(readonlyLocks, u.key);
      }
      held := WithoutUse(held, id, u);
    }

    method LockAccounts(uses: seq<Use>, ghost id: TxId)
      requires Counted() && Distinct(Keys(uses)) && id !in held
      modifies this
      ensures Counted() && held == old(held)[id := Elements(uses)]
    {
      IdleHolder(writeLocks, held, id, true);
      IdleHolder(readonlyLocks, held, id, false);
      held := held[id := {}];
      assert Elements(uses[..0]) == {};
      for i := 0 to |uses|
        invariant Counted() && held == old(held)[id := Elements(uses[..i])]
      {
        NotYet(uses, i);
        LockOne(uses[i], id);
        assert Elements(uses[..i + 1]) == Elements(uses[..i]) + {uses[i]};
      }
      assert uses[..|uses|] == uses;
    }

    /** Gives back everything that the transaction locked. */
    method UnlockAccounts(uses: seq<Use>, ghost id: TxId)
      requires Counted() && Distinct(Keys(uses)) && id in held && held[id] == Elements(uses)
      modifies this
      ensures Counted() && held == old(held) - {id}
    {
      for i := 0 to |uses|
        invariant Counted() && held == old(held)[id := Elements(uses[i..])]
      {
        NotLater(uses, i);
        UnlockOne(uses[i], id);
      }
      ghost var rest := held - {id};
      IdleHolder(writeLocks, rest, id, true);
      IdleHolder(readonlyLocks, rest, id, false);
      assert Elements(uses[|uses|..]) == {};
      assert held == rest[id := {}];
      held := rest;
    }

    /** A transaction of a batch gets its locks if and only if it has not failed before, names no more
        accounts than the limit, names none twice, and clashes with no transaction outside the batch. */
    method LockBatch(txs: seq<seq<Use>>, results: seq<Outcome>, limit: nat, ghost batch: BatchId)
      returns (outcomes: seq<Outcome>)
      requires Valid() && |results| == |txs| && BatchFree(held, batch)
      modifies this
      ensures Valid() && |outcomes| == |txs|
      ensures forall i | 0 <= i < |txs| :: outcomes[i] ==
                if Validated(txs[i], results[i], limit) != Ok then Validated(txs[i], results[i], limit)
                else if Conflicts(old(held), Elements(txs[i])) then Err(AccountInUse) else Ok
      ensures held == old(held) + Batch(txs, outcomes, batch)
    {
      var validated := ValidateBatch(txs, results, limit);
      forall i | 0 <= i < |txs| && validated[i] == Ok
        ensures Distinct(Keys(txs[i]))
      {
        DistinctKeys(txs[i]);
      }
      outcomes := TryLockBatch(txs, validated, batch);
    }

    /** The validated transactions of a batch that clash with no transaction outside it get their
        locks, whatever the rest of the batch uses. */
    method TryLockBatch(txs: seq<seq<Use>>, validated: seq<Outcome>, ghost batch: BatchId)
      returns (outcomes: seq<Outcome>)
      requires Valid() && |validated| == |txs| && BatchFree(held, batch)
      requires forall i | 0 <= i < |txs| && validated[i] == Ok :: Distinct(Keys(txs[i]))
      modifies this
      ensures Valid() && |outcomes| == |txs|
      ensures forall i | 0 <= i < |txs| :: outcomes[i] ==
                if validated[i] != Ok then validated[i]
                else if Conflicts(old(held), Elements(txs[i])) then Err(AccountInUse) else Ok
      ensures held == old(held) + Batch(txs, outcomes, batch)
    {
      outcomes := Available(txs, validated);
      LockAvailable(txs, outcomes, batch);
      BatchExclusive(old(held), txs, outcomes, batch);
    }

    method Available(txs: seq<seq<Use>>, validated: seq<Outcome>) returns (outcomes: seq<Outcome>)
      requires Counted() && |validated| == |txs|
      ensures |outcomes| == |txs|
      ensures forall i | 0 <= i < |txs| :: outcomes[i] ==
                if validated[i] != Ok then validated[i]
                else if Conflicts(held, Elements(txs[i])) then Err(AccountInUse) else Ok
    {
      outcomes := validated;
      for i := 0 to |txs|
        invariant |outcomes| == |txs| && outcomes[i..] == validated[i..]
        invariant forall j | 0 <= j < i :: outcomes[j] ==
                    if validated[j] != Ok then validated[j]
                    else if Conflicts(held, Elements(txs[j])) then Err(AccountInUse) else Ok
      {
        if outcomes[i] == Ok {
          var ok := CanLock(txs[i]);
          if !ok {
            outcomes := outcomes[i := Err(AccountInUse)];
          }
        }
      }
    }

    method LockAvailable(txs: seq<seq<Use>>, outcomes: seq<Outcome>, ghost batch: BatchId)
      requires Counted() && |outcomes| == |txs| && BatchFree(held, batch)
      requires forall i | 0 <= i < |txs| && outcomes[i] == Ok :: Distinct(Keys(txs[i]))
      modifies this
      ensures Counted() && held == old(held) + Batch(txs, outcomes, batch)
    {
      for i := 0 to |txs|
        invariant Counted() && held == old(held) + Batch(txs[..i], outcomes[..i], batch)
      {
        HeldGrows(old(held), txs, outcomes, batch, i);
        if outcomes[i] == Ok {
          LockAccounts(txs[i], TxId(batch, i));
        }
      }
      assert txs[..|txs|] == txs && outcomes[..|txs|] == outcomes;
    }

    /** Unlocking a batch gives up the locks of its transactions that were let in, and no others. */
    method UnlockBatch(txs: seq<seq<Use>>, outcomes: seq<Outcome>, ghost batch: BatchId)
      requires Valid() && |outcomes| == |txs|
      requires forall i | 0 <= i < |txs| && outcomes[i] == Ok :: Distinct(Keys(txs[i]))
      requires forall id | id in Batch(txs, outcomes, batch) :: id in held && held[id] == Batch(txs, outcomes, batch)[id]
      modifies this
      ensures Valid() && held == old(held) - Batch(txs, outcomes, batch).Keys
    {
      for i := 0 to |txs|
        invariant Counted() && held == old(held) - Batch(txs[..i], outcomes[..i], batch).Keys
      {
        BatchGrows(txs, outcomes, batch, i);
        if outcomes[i] == Ok {
          assert TxId(batch, i) in Batch(txs, outcomes, batch);
          UnlockAccounts(txs[i], TxId(batch, i));
        }
      }
      assert txs[..|txs|] == txs && outcomes[..|txs|] == outcomes;
    }
  }

  lemma NotYet(uses: seq<Use>, i: nat)
    requires Distinct(Keys(uses)) && i < |uses|
    ensures uses[i] !in Elements(uses[..i])
  {
    forall j | 0 <= j < i
      ensures uses[j] != uses[i]
    {
      assert Keys(uses)[j] != Keys(uses)[i];
    }
  }

  lemma NotLater(uses: seq<Use>, i: nat)
    requires Distinct(Keys(uses)) && i < |uses|
    ensures uses[i] in Elements(uses[i..]) && Elements(uses[i + 1..]) == Elements(uses[i..]) - {uses[i]}
  {
    assert uses[i..] == [uses[i]] + uses[i + 1..];
    forall j | i < j < |uses|
      ensures uses[j] != uses[i]
    {
      assert Keys(uses)[i] != Keys(uses)[j];
    }
    assert uses[i..][0] == uses[i];
    forall u | u in Elements(uses[i + 1..])
      ensures u in Elements(uses[i..]) && u != uses[i]
    {
      var j :| 0 <= j < |uses[i + 1..]| && uses[i + 1..][j] == u;
      assert uses[i..][j + 1] == u;
    }
    forall u | u in Elements(uses[i..]) && u != uses[i]
      ensures u in Elements(uses[i + 1..])
    {
      var j :| 0 <= j < |uses[i..]| && uses[i..][j] == u;
      assert uses[i + 1..][j - 1] == u;
    }
  }
}
