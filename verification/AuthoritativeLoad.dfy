/** When the write cache alone answers a load. */
module AuthoritativeLoad {
  import IndexLookup
  import opened Types
  import opened WriteCache

  /** The write cache with its root sets, next to what has been flushed to storage. */
  datatype State = State(cached: Contents, stored: map<(Pubkey, Slot), Account>, roots: set<Slot>, unflushed: set<Slot>, flushing: set<Slot>)

  datatype Step =
    | Write(slot: Slot, key: Pubkey, account: Account)
    | AddRoot(slot: Slot)
    | BeginFlush(maxRoot: Option<Slot>)
    | FlushSlot(slot: Slot, kept: set<Pubkey>)
    | EndFlush
    | Clean(gone: set<(Pubkey, Slot)>)

  /** Banks write only to slots that are not rooted, and roots are added in increasing order. */
  ghost predicate Enabled(s: State, step: Step) {
    match step
    case Write(slot, key, account) => slot !in s.roots
    case AddRoot(slot) => forall r | r in s.roots :: r < slot
    case BeginFlush(_) => s.flushing == {}
    case FlushSlot(slot, kept) => slot in s.flushing && slot in s.cached
    case EndFlush => forall r | r in s.flushing :: r !in s.cached
    case Clean(_) => true
  }

  /** The versions that a flush of the slot stores. */
  ghost function Moved(accounts: map<Pubkey, Account>, slot: Slot, kept: set<Pubkey>): map<(Pubkey, Slot), Account> {
    map k | k in accounts && k in kept :: (k, slot) := accounts[k]
  }

  lemma MovedIs(accounts: map<Pubkey, Account>, slot: Slot, kept: set<Pubkey>, e: (Pubkey, Slot))
    ensures e in Moved(accounts, slot, kept) <==> e.1 == slot && e.0 in accounts && e.0 in kept
    ensures e in Moved(accounts, slot, kept) ==> Moved(accounts, slot, kept)[e] == accounts[e.0]
  {
    if e.1 == slot && e.0 in accounts && e.0 in kept {
      assert e == (e.0, slot);
    }
  }

  ghost function Apply(s: State, step: Step): State
    requires Enabled(s, step)
  {
    match step
    case Write(slot, key, account) => s.(cached := Put(s.cached, slot, key, account))
    case AddRoot(slot) => s.(roots := s.roots + {slot}, unflushed := s.unflushed + {slot})
    case BeginFlush(maxRoot) =>
      var claimed := set r | r in s.unflushed && (maxRoot.Some? ==> r <= maxRoot.value);
      s.(unflushed := s.unflushed - claimed, flushing := claimed)
    case FlushSlot(slot, kept) =>
      s.(stored := s.stored + Moved(s.cached[slot], slot, kept), cached := s.cached - {slot})
    case EndFlush => s.(flushing := {})
    case Clean(gone) => s.(stored := s.stored - gone)
  }

  ghost predicate Init(s: State) { s == State(map[], map[], {}, {}, {}) }

  ghost predicate Run(states: seq<State>, steps: seq<Step>) {
    && |states| == |steps| + 1 && Init(states[0])
    && forall i | 0 <= i < |steps| :: Enabled(states[i], steps[i]) && states[i + 1] == Apply(states[i], steps[i])
  }

  /** Claimed roots are all below the roots still waiting, and a rooted slot leaves the cache only
      while it is being flushed. */
  ghost predicate Inv(s: State) {
    && s.unflushed <= s.roots && s.flushing <= s.roots && s.unflushed !! s.flushing
    && (forall e | e in s.stored :: e.1 in s.roots && e.1 !in s.unflushed)
    && (forall u, t | u in s.unflushed && t in s.roots && t !in s.unflushed :: t < u)
    && (forall r | r in s.roots && r in s.cached :: r in s.unflushed || r in s.flushing)
  }

  lemma StepKeepsInv(s: State, step: Step)
    requires Inv(s) && Enabled(s, step)
    ensures Inv(Apply(s, step))
  {
  }

  lemma {:induction false} RunKeepsInv(states: seq<State>, steps: seq<Step>, i: nat)
    requires Run(states, steps) && i < |states|
    ensures Inv(states[i])
  {
    if i > 0 {
      RunKeepsInv(states, steps, i - 1);
      StepKeepsInv(states[i - 1], steps[i - 1]);
    }
  }

  /** A version of the key that the reader may see, in the cache or in storage. */
  ghost predicate Version(s: State, ancestors: set<Slot>, key: Pubkey, slot: Slot) {
    VisibleSlot(ancestors, s.roots, slot) && (Held(s.cached, slot, key) || (key, slot) in s.stored)
  }

  ghost predicate NewestVersion(s: State, ancestors: set<Slot>, key: Pubkey, slot: Slot) {
    Version(s, ancestors, key, slot) && forall t: Slot | Version(s, ancestors, key, t) :: t <= slot
  }

  /** A fork of the bank tree: its slots up to the highest root are rooted. */
  ghost predicate Fork(s: State, ancestors: set<Slot>) {
    forall a, r | a in ancestors && r in s.roots && a <= r :: a in s.roots
  }

  predicate Authoritative(f: Found) { f.status == Ancestor || f.status == UnflushedRoot }

  /** An ancestor or an unflushed root that the cache answers with is the newest version anywhere. */
  lemma AuthoritativeIsNewest(s: State, ancestors: set<Slot>, key: Pubkey, f: Found)
    requires Inv(s) && Fork(s, ancestors)
    requires IsLatest(s.cached, s.unflushed, s.flushing, key, ancestors, Some(f)) && Authoritative(f)
    ensures NewestVersion(s, ancestors, key, f.slot) && f.account == s.cached[f.slot][key]
  {
    assert f.status == Ancestor ==> Hit(s.cached, ancestors, key, f.slot);
    forall t: Slot | Version(s, ancestors, key, t) ensures t <= f.slot {
      assert Held(s.cached, t, key) && t in ancestors ==> Hit(s.cached, ancestors, key, t);
      assert Held(s.cached, t, key) && t in s.unflushed ==> Hit(s.cached, s.unflushed, key, t);
    }
  }

  ghost function Content(s: State, slot: Slot, key: Pubkey): Account
    requires Held(s.cached, slot, key) || (key, slot) in s.stored
  {
    if Held(s.cached, slot, key) then s.cached[slot][key] else s.stored[(key, slot)]
  }

  /** The index lists the slots of a key: those with a cached or a stored version. */
  ghost predicate Indexes(s: State, key: Pubkey, slots: seq<Slot>) {
    forall t: Slot :: t in slots <==> Held(s.cached, t, key) || (key, t) in s.stored
  }

  /** A load asks the write cache first. Unless that answer is final, it takes the slot at the position
      that the search of the slot list returns, and the account that is kept for that slot. */
  ghost predicate Loads(s: State, ancestors: set<Slot>, key: Pubkey, cacheAnswer: Option<Found>,
                        slots: seq<Slot>, at: Option<nat>, r: Option<(Account, Slot)>) {
    && IsLatest(s.cached, s.unflushed, s.flushing, key, ancestors, cacheAnswer)
    && Indexes(s, key, slots)
    && if cacheAnswer.Some? && Authoritative(cacheAnswer.value) then r == Some((cacheAnswer.value.account, cacheAnswer.value.slot))
       else
         && IndexLookup.IsLatestVisible(ancestors, slots, s.roots, at)
         && match at
            case None => r == None
            case Some(i) => assert slots[i] in slots; r == Some((Content(s, slots[i], key), slots[i]))
  }

  lemma LookupIsNewest(s: State, ancestors: set<Slot>, key: Pubkey, slots: seq<Slot>, at: Option<nat>)
    requires Indexes(s, key, slots) && IndexLookup.IsLatestVisible(ancestors, slots, s.roots, at)
    ensures if at.Some? then NewestVersion(s, ancestors, key, slots[at.value]) else forall t: Slot :: !Version(s, ancestors, key, t)
  {
    forall t: Slot | Version(s, ancestors, key, t)
      ensures at.Some? && t <= slots[at.value]
    {
      var i :| 0 <= i < |slots| && slots[i] == t;
    }
    if at.Some? {
      assert slots[at.value] in slots;
    }
  }

  /** On every run, a load returns the newest visible version, and nothing only if there is none. */
  lemma LoadIsNewest(states: seq<State>, steps: seq<Step>, i: nat, ancestors: set<Slot>, key: Pubkey,
                     cacheAnswer: Option<Found>, slots: seq<Slot>, at: Option<nat>, r: Option<(Account, Slot)>)
    requires Run(states, steps) && i < |states| && Fork(states[i], ancestors)
    requires Loads(states[i], ancestors, key, cacheAnswer, slots, at, r)
    ensures var s := states[i];
            if r.Some? then NewestVersion(s, ancestors, key, r.value.1) && r.value.0 == Content(s, r.value.1, key)
            else forall t: Slot :: !Version(s, ancestors, key, t)
  {
    RunKeepsInv(states, steps, i);
    if cacheAnswer.Some? && Authoritative(cacheAnswer.value) {
      AuthoritativeIsNewest(states[i], ancestors, key, cacheAnswer.value);
    } else {
      LookupIsNewest(states[i], ancestors, key, slots, at);
    }
  }

  /** Without its newest ancestor, the search finds an older one. */
  lemma OlderFound(c: Contents, unflushed: set<Slot>, flushing: set<Slot>, ancestors: set<Slot>, key: Pubkey, newest: Slot, older: Slot, r: Option<Found>)
    requires Hit(c, ancestors, key, older) && older != newest && forall t: Slot | Hit(c, ancestors, key, t) :: t <= newest
    requires IsLatest(c - {newest}, unflushed, flushing, key, ancestors, r)
    ensures r.Some? && r.value.slot < newest && r.value.slot in ancestors && r.value.slot in c
    ensures r.value.slot in flushing ==> !Authoritative(r.value)
  {
    assert Hit(c - {newest}, ancestors, key, older);
    assert Hit(c, ancestors, key, r.value.slot);
  }

  /** The other answers cannot be trusted: once the newest ancestor that holds the key has been
      flushed while an older one is still cached, the write cache answers with the older one, and says
      that it is being flushed. */
  lemma BeingFlushedIsStale(s: State, ancestors: set<Slot>, key: Pubkey, newest: Slot, older: Slot, kept: set<Pubkey>, r: Option<Found>)
    requires Inv(s) && Fork(s, ancestors)
    requires Enabled(s, FlushSlot(newest, kept)) && key in kept && older < newest
    requires Hit(s.cached, ancestors, key, newest) && Hit(s.cached, ancestors, key, older)
    requires forall t: Slot | Hit(s.cached, ancestors, key, t) :: t <= newest
    requires var s' := Apply(s, FlushSlot(newest, kept)); IsLatest(s'.cached, s'.unflushed, s'.flushing, key, ancestors, r)
    ensures var s' := Apply(s, FlushSlot(newest, kept));
            && r.Some? && r.value.slot < newest && !NewestVersion(s', ancestors, key, r.value.slot)
            && !Authoritative(r.value)
  {
    OlderFound(s.cached, s.unflushed, s.flushing, ancestors, key, newest, older, r);
    MovedIs(s.cached[newest], newest, kept, (key, newest));
    assert Version(Apply(s, FlushSlot(newest, kept)), ancestors, key, newest);
  }
}
