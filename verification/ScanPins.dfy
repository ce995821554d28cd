/** Scans pin the root they read at, and clean stays at or below every pinned root. */
module ScanPins {
  import opened Types
  import CacheFlush

  type BankId = nat

  datatype Guard = Guard(maxRoot: Slot, bank: BankId)

  type Guards = map<nat, Guard>

  /** The scans in progress that read at root `s`. */
  ghost function Pinning(guards: Guards, s: Slot): set<nat> {
    set id | id in guards && guards[id].maxRoot == s
  }

  lemma PinAdded(guards: Guards, id: nat, g: Guard, s: Slot)
    requires id !in guards
    ensures |Pinning(guards[id := g], s)| == |Pinning(guards, s)| + if s == g.maxRoot then 1 else 0
  {
    assert Pinning(guards[id := g], s) == Pinning(guards, s) + if s == g.maxRoot then {id} else {};
  }

  lemma PinDropped(guards: Guards, id: nat, s: Slot)
    requires id in guards
    ensures |Pinning(guards - {id}, s)| == |Pinning(guards, s)| - if s == guards[id].maxRoot then 1 else 0
  {
    assert Pinning(guards - {id}, s) == Pinning(guards, s) - if s == guards[id].maxRoot then {id} else {};
  }

  ghost predicate IsMinPin(guards: Guards, m: Option<Slot>) {
    && (m.None? <==> guards == map[])
    && (m.Some? ==> Pinning(guards, m.value) != {} && forall id | id in guards :: m.value <= guards[id].maxRoot)
  }

  predicate AtMost(bound: Slot, limit: Option<Slot>) { limit.Some? ==> bound <= limit.value }

  /** The bound of a clean: the highest slot that passes neither a pinned root nor the proposed one. */
  function MaxCleanRoot(minPin: Option<Slot>, proposed: Option<Slot>): (r: Option<Slot>)
    ensures r.None? <==> minPin.None? && proposed.None?
    ensures r.Some? ==> forall bound: Slot :: bound <= r.value <==> AtMost(bound, minPin) && AtMost(bound, proposed)
  {
    match (minPin, proposed)
    case (None, None) => None
    case (Some(pin), None) => Some(pin)
    case (None, Some(root)) => Some(root)
    case (Some(pin), Some(root)) => Some(if pin < root then pin else root)
  }

  class ScanTracker {
    var ongoing: map<Slot, nat>
    var removedBanks: set<BankId>
    var activeScans: nat
    /** The guards that have not been dropped. */
    ghost var guards: Guards

    ghost predicate CountsRight(s: Slot)
      reads this
    {
      if s in ongoing then ongoing[s] > 0 && ongoing[s] == |Pinning(guards, s)| else |Pinning(guards, s)| == 0
    }

    /** Each pinned root is counted once per scan, and no other root is listed. */
    ghost predicate Valid()
      reads this
    {
      activeScans == |guards| && forall s: Slot :: CountsRight(s)
    }

    constructor ()
      ensures Valid() && guards == map[] && removedBanks == {}
    {
      ongoing, removedBanks, activeScans, guards := map[], {}, 0, map[];
    }

    /** Pins the current maximum root, unless the bank has been removed. */
    method TryNew(bank: BankId, maxRoot: Slot, ghost id: nat) returns (guard: Option<Guard>)
      requires Valid() && id !in guards
      modifies this`ongoing, this`activeScans, this`guards
      ensures Valid()
      ensures guard == if bank in removedBanks then None else Some(Guard(maxRoot, bank))
      ensures guards == if guard.Some? then old(guards)[id := guard.value] else old(guards)
    {
      if bank in removedBanks {
        return None;
      }
      var g := Guard(maxRoot, bank);
      ghost var before := guards;
      assert CountsRight(maxRoot);
      ongoing := ongoing[maxRoot := (if maxRoot in ongoing then ongoing[maxRoot] else 0) + 1];
      activeScans := activeScans + 1;
      guards := guards[id := g];
      forall s: Slot
        ensures CountsRight(s)
      {
        assert old(CountsRight(s));
        PinAdded(before, id, g, s);
      }
      guard := Some(g);
    }

    /** The scan ends; its root stays pinned only by other scans of the same root. */
    method Drop(guard: Guard, ghost id: nat)
      requires Valid() && id in guards && guards[id] == guard
      modifies this`ongoing, this`activeScans, this`guards
      ensures Valid() && guards == old(guards) - {id}
    {
      ghost var before := guards;
      assert CountsRight(guard.maxRoot) && id in Pinning(guards, guard.maxRoot);
      activeScans := activeScans - 1;
      if ongoing[guard.maxRoot] == 1 {
        ongoing := ongoing - {guard.maxRoot};
      } else {
        ongoing := ongoing[guard.maxRoot := ongoing[guard.maxRoot] - 1];
      }
      guards := guards - {id};
      forall s: Slot
        ensures CountsRight(s)
      {
        assert old(CountsRight(s));
        PinDropped(before, id, s);
      }
    }

    /** The lowest root that a scan in progress reads at. */
    method MinOngoingScanRoot() returns (m: Option<Slot>)
      requires Valid()
      ensures IsMinPin(guards, m)
    {
      forall id | id in guards
        ensures guards[id].maxRoot in ongoing
      {
        assert id in Pinning(guards, guards[id].maxRoot) && CountsRight(guards[id].maxRoot);
      }
      if ongoing == map[] {
        assert guards.Keys == {};
        return None;
      }
      var min := Smallest(ongoing.Keys);
      assert CountsRight(min);
      return Some(min);
    }
  }

  // ---- Scans and cleans running together ----

  /** `cleans` are the cleans and flushes in progress, with the bound each has chosen. */
  datatype System = System(maxRoot: Slot, guards: Guards, cleans: map<nat, Option<Slot>>)

  datatype Step =
    | ScanStart(id: nat, bank: BankId)
    | ScanEnd(id: nat)
    | AdvanceRoot(root: Slot)
    | CleanStart(id: nat, proposed: Option<Slot>, minPin: Option<Slot>)
    | CleanEnd(id: nat)

  /** A proposed bound is a root that has already been set. */
  ghost predicate Enabled(s: System, step: Step) {
    match step
    case ScanStart(id, _) => id !in s.guards
    case ScanEnd(id) => id in s.guards
    case AdvanceRoot(root) => s.maxRoot <= root
    case CleanStart(id, proposed, minPin) =>
      id !in s.cleans && IsMinPin(s.guards, minPin) && (proposed.Some? ==> proposed.value <= s.maxRoot)
    case CleanEnd(id) => id in s.cleans
  }

  ghost function Apply(s: System, step: Step): System
    requires Enabled(s, step)
  {
    match step
    case ScanStart(id, bank) => s.(guards := s.guards[id := Guard(s.maxRoot, bank)])
    case ScanEnd(id) => s.(guards := s.guards - {id})
    case AdvanceRoot(root) => s.(maxRoot := root)
    case CleanStart(id, proposed, minPin) => s.(cleans := s.cleans[id := MaxCleanRoot(minPin, proposed)])
    case CleanEnd(id) => s.(cleans := s.cleans - {id})
  }

  /** Clean is given a root to stop at, or at least one scan bounds it. */
  ghost predicate Bounded(s: System, step: Step) {
    step.CleanStart? ==> step.proposed.Some? || s.guards != map[]
  }

  ghost predicate Run(states: seq<System>, steps: seq<Step>) {
    && |states| == |steps| + 1 && states[0].guards == map[] && states[0].cleans == map[]
    && forall i | 0 <= i < |steps| :: Enabled(states[i], steps[i]) && states[i + 1] == Apply(states[i], steps[i])
  }

  ghost predicate BoundedAt(states: seq<System>, steps: seq<Step>, i: nat) { i < |steps| && i < |states| ==> Bounded(states[i], steps[i]) }

  ghost predicate Protects(bound: Option<Slot>, pin: Slot) { bound.Some? && bound.value <= pin }

  ghost predicate AllProtected(s: System) {
    && (forall g | g in s.guards :: s.guards[g].maxRoot <= s.maxRoot)
    && (forall c | c in s.cleans :: Protects(s.cleans[c], s.maxRoot))
    && (forall c, g | c in s.cleans && g in s.guards :: Protects(s.cleans[c], s.guards[g].maxRoot))
  }

  lemma StepKeepsProtection(s: System, step: Step)
    requires AllProtected(s) && Enabled(s, step) && Bounded(s, step)
    ensures AllProtected(Apply(s, step))
  {
  }

  /** Every scan is protected from every clean that runs at the same time, whichever started first. */
  lemma {:induction false} CleansStayBelowPins(states: seq<System>, steps: seq<Step>, i: nat)
    requires Run(states, steps) && i < |states| && forall j: nat | j < i :: BoundedAt(states, steps, j)
    ensures AllProtected(states[i])
  {
    if i > 0 {
      CleansStayBelowPins(states, steps, i - 1);
      assert BoundedAt(states, steps, i - 1);
      StepKeepsProtection(states[i - 1], steps[i - 1]);
    }
  }

  /** Without a proposed root and without a scan in progress, the clean has no bound at all, and the
      next scan to start is not protected from it: the condition is exact. */
  lemma UnboundedCleanUnprotected(s: System, step: Step, scan: Step)
    requires Enabled(s, step) && step.CleanStart? && !Bounded(s, step)
    requires scan.ScanStart? && Enabled(Apply(s, step), scan)
    ensures !AllProtected(Apply(Apply(s, step), scan))
  {
    var t := Apply(Apply(s, step), scan);
    assert step.id in t.cleans && !Protects(t.cleans[step.id], t.maxRoot);
  }

  // ---- A flush next to scans ----

  /** Reads at the root show the same in every state that the database went through. */
  ghost predicate Undisturbed(trace: seq<CacheFlush.Db>, root: Slot) {
    forall i, key: Pubkey, slot: Slot, account | 0 <= i < |trace| ::
      CacheFlush.Shows(trace[0], key, root, slot, account) <==> CacheFlush.Shows(trace[i], key, root, slot, account)
  }

  lemma SteadyIsUndisturbed(trace: seq<CacheFlush.Db>, from: Slot, root: Slot)
    requires from <= root && forall i | 0 <= i < |trace| :: CacheFlush.SameView(trace[0], trace[i], from)
    ensures Undisturbed(trace, root)
  {
    forall i, key: Pubkey, slot: Slot, account | 0 <= i < |trace|
      ensures CacheFlush.Shows(trace[0], key, root, slot, account) <==> CacheFlush.Shows(trace[i], key, root, slot, account)
    {
      assert CacheFlush.SameView(trace[0], trace[i], from);
    }
  }

  /** A flush leaves alone all reads that its bound protects. */
  ghost predicate LeavesAlone(trace: seq<CacheFlush.Db>, bound: Option<Slot>) {
    forall root: Slot | Protects(bound, root) :: Undisturbed(trace, root)
  }

  /** Flushes the roots up to the requested one, cleaning up to the bound that the scans allow: no scan
      in progress, and no read at or above the bound, sees a change in any state on the way. */
  method FlushWithClean(db: CacheFlush.AccountsDb, tracker: ScanTracker, requested: Option<Slot>)
    returns (flushed: set<Slot>, bound: Option<Slot>)
    requires tracker.Valid() && CacheFlush.Sound(db.Now()) && db.trace == [db.Now()] && CacheFlush.Apart(db.Now())
    requires db.flushing == {} && CacheFlush.AllReady(db.Now(), db.unflushed)
    modifies db
    ensures exists minPin :: IsMinPin(tracker.guards, minPin) && bound == MaxCleanRoot(minPin, requested)
    ensures flushed == set s | s in old(db.unflushed) && AtMost(s, requested)
    ensures CacheFlush.AllFlushed(old(db.Now()), db.Now(), flushed, flushed, true, bound)
    ensures CacheFlush.StoresNewest(old(db.Now()), db.Now(), flushed, true, bound)
    ensures CacheFlush.Swept(old(db.Now()), db.Now(), flushed, true, bound)
    ensures db.trace != [] && db.trace[0] == old(db.Now()) && db.trace[|db.trace| - 1] == db.Now()
    ensures LeavesAlone(db.trace, bound)
    ensures forall id | id in tracker.guards :: Undisturbed(db.trace, tracker.guards[id].maxRoot)
  {
    var minPin := tracker.MinOngoingScanRoot();
    bound := MaxCleanRoot(minPin, requested);
    var from := 0;
    if bound.Some? {
      from := bound.value;
    } else if db.unflushed != {} {
      from := Largest(db.unflushed);
    }
    flushed := db.FlushRootedAccountsCache(requested, true, bound, from);
    forall root: Slot | Protects(bound, root)
      ensures Undisturbed(db.trace, root)
    {
      SteadyIsUndisturbed(db.trace, from, root);
    }
    assert forall id | id in tracker.guards :: Protects(bound, tracker.guards[id].maxRoot);
  }

  lemma MinPinUnique(guards: Guards, m: Option<Slot>, n: Option<Slot>)
    requires IsMinPin(guards, m) && IsMinPin(guards, n)
    ensures m == n
  {
    if m.Some? && n.Some? {
      var i :| i in Pinning(guards, m.value);
      var j :| j in Pinning(guards, n.value);
    }
  }

  ghost predicate Goes(steps: seq<Step>, clean: nat, i: nat) { i < |steps| ==> steps[i] != CleanEnd(clean) }

  /** A clean keeps its bound until it ends. */
  lemma {:induction false} BoundKept(states: seq<System>, steps: seq<Step>, clean: nat, k: nat, i: nat)
    requires Run(states, steps) && k <= i < |states| && clean in states[k].cleans && forall j: nat | k <= j < i :: Goes(steps, clean, j)
    ensures clean in states[i].cleans && states[i].cleans[clean] == states[k].cleans[clean]
  {
    if k < i {
      BoundKept(states, steps, clean, k, i - 1);
      assert Goes(steps, clean, i - 1);
    }
  }

  /** The flush of `FlushWithClean` as a step of a run: its bound is that of the clean it starts, and no
      scan that is there before it ends, also none that starts after the bound was chosen, sees a change. */
  method FlushInRun(db: CacheFlush.AccountsDb, tracker: ScanTracker, requested: Option<Slot>,
                    ghost states: seq<System>, ghost steps: seq<Step>, ghost k: nat)
    returns (flushed: set<Slot>, bound: Option<Slot>)
    requires tracker.Valid() && CacheFlush.Sound(db.Now()) && db.trace == [db.Now()] && CacheFlush.Apart(db.Now())
    requires db.flushing == {} && CacheFlush.AllReady(db.Now(), db.unflushed)
    requires Run(states, steps) && k < |steps| && steps[k].CleanStart? && steps[k].proposed == requested
    requires states[k].guards == tracker.guards
    modifies db
    ensures steps[k].id in states[k + 1].cleans && states[k + 1].cleans[steps[k].id] == bound
    ensures db.trace != [] && db.trace[0] == old(db.Now()) && db.trace[|db.trace| - 1] == db.Now()
    ensures forall i: nat, scan | Meets(states, steps, k, i, scan) :: Undisturbed(db.trace, states[i].guards[scan].maxRoot)
  {
    flushed, bound := FlushWithClean(db, tracker, requested);
    ghost var minPin :| IsMinPin(tracker.guards, minPin) && bound == MaxCleanRoot(minPin, requested);
    MinPinUnique(tracker.guards, minPin, steps[k].minPin);
    forall i: nat, scan | Meets(states, steps, k, i, scan)
      ensures Undisturbed(db.trace, states[i].guards[scan].maxRoot)
    {
      BoundKept(states, steps, steps[k].id, k + 1, i);
      ScansUndisturbed(states, steps, i, steps[k].id, scan, bound, db.trace);
    }
  }

  /** The scan is in progress at state `i`, when the clean that step `k` starts has not ended. */
  ghost predicate Meets(states: seq<System>, steps: seq<Step>, k: nat, i: nat, scan: nat) {
    && k < |steps| && steps[k].CleanStart? && k < i < |states| && scan in states[i].guards
    && (forall j: nat | k < j < i :: Goes(steps, steps[k].id, j)) && forall j: nat | j < i :: BoundedAt(states, steps, j)
  }

  /** On every run, a scan is undisturbed by a flush with the bound of a clean in progress. */
  lemma ScansUndisturbed(states: seq<System>, steps: seq<Step>, i: nat, clean: nat, scan: nat, bound: Option<Slot>, trace: seq<CacheFlush.Db>)
    requires Run(states, steps) && i < |states| && forall j: nat | j < i :: BoundedAt(states, steps, j)
    requires clean in states[i].cleans && scan in states[i].guards
    requires bound == states[i].cleans[clean] && LeavesAlone(trace, bound)
    ensures Undisturbed(trace, states[i].guards[scan].maxRoot)
  {
    CleansStayBelowPins(states, steps, i);
  }

  /** Without a bound, the scan does see a change: of a key that is cached at two of the roots, the flush
      keeps only the newer version, and a read at the older root, where the scan reads, no longer
      shows the account that it showed. */
  lemma UnboundedFlushDisturbs(s: System, clean: nat, scan: nat, before: CacheFlush.Db, after: CacheFlush.Db,
                               flushed: set<Slot>, key: Pubkey, newer: Slot)
    requires clean in s.cleans && s.cleans[clean].None? && scan in s.guards
    requires CacheFlush.Sound(before) && CacheFlush.AllReady(before, flushed)
    requires CacheFlush.AllFlushed(before, after, flushed, flushed, true, s.cleans[clean])
    requires var older := s.guards[scan].maxRoot;
             && older in flushed && newer in flushed && older < newer
             && older in before.caches && key in before.caches[older] && newer in before.caches && key in before.caches[newer]
    ensures var older := s.guards[scan].maxRoot;
            && CacheFlush.Shows(before, key, older, older, before.caches[older][key])
            && forall account :: !CacheFlush.Shows(after, key, older, older, account)
  {
    var older := s.guards[scan].maxRoot;
    assert CacheFlush.Ready(before, older);
    CacheFlush.ReadyShows(before, older, key);
    assert CacheFlush.Flushed(before, after, flushed, older, true, None);
    CacheFlush.ReplacedIsGone(before, after, flushed, older, newer, key);
  }
}
