/** Every load ends: the retry loop after a bounded number of steps for each time that others changed an
    index entry of the key, and with it the whole load. */
module LoadEnds {
  import opened Types
  import opened ReaderProtocol
  import opened ReaderLoad
  import Auth = AuthoritativeLoad
  import CacheSearch
  import Whole = WholeLoad
  import WriteCache

  predicate Ended(r: Reader) { r.pc.Done? || r.pc.Absent? }

  /** How many steps of its own the reader needs at most, if nobody else moves. A place that the index has
      left costs the remaining probes and another read of the index. */
  ghost function Rank(d: Db, r: Reader): nat {
    match r.pc
    case Idle => 5
    case ReadIndex(_) => 4
    case Probing(slot, loc, probe, _, _) =>
      (if probe < 3 then 3 - probe else 0) + if Indexed(d, r.key, slot, loc) then 0 else 4
    case _ => 0
  }

  // ---- Each step of the reader ----

  /** A cached place that the index names is found at once, and ends the load. */
  lemma CachedRanks(d: Db, r: Reader)
    requires r.pc.Probing? && r.pc.loc.Cached? && IndexBacked(d) && ReaderSound(d, r) && ReaderSound(d, Probe(d, r))
    ensures Rank(d, Probe(d, r)) < Rank(d, r)
  {
    if Indexed(d, r.key, r.pc.slot, r.pc.loc) {
      assert EntryBacked(d, r.key, r.pc.slot);
    }
  }

  /** A store that the index names is found by one of the three probes. */
  lemma StoredRanks(d: Db, r: Reader)
    requires r.pc.Probing? && r.pc.loc.Stored? && IndexBacked(d) && ReaderSound(d, r) && ReaderSound(d, Probe(d, r))
    ensures Rank(d, Probe(d, r)) < Rank(d, r)
  {
    if Indexed(d, r.key, r.pc.slot, r.pc.loc) {
      assert EntryBacked(d, r.key, r.pc.slot);
    }
  }

  /** No step of the reader is in vain. */
  lemma StepRanks(d: Db, r: Reader, r': Reader)
    requires SystemInv(System(d, r)) && ReaderStep(d, r, r')
    ensures Rank(d, r') < Rank(d, r)
  {
    ReaderStepKeeps(d, r, r');
    match r.pc
    case Idle =>
    case ReadIndex(prev) =>
      if s: Slot :| Newest(d, r, s) && r' == AfterRead(r, prev, s, d.index[(r.key, s)]) {
        assert Indexed(d, r.key, s, d.index[(r.key, s)]);
      }
    case Probing(_, loc, _, _, _) => if loc.Cached? { CachedRanks(d, r); } else { StoredRanks(d, r); }
    case _ =>
  }

  lemma {:induction false} HasLargest(slots: set<Slot>) returns (m: Slot)
    requires slots != {}
    ensures m in slots && forall s | s in slots :: s <= m
  {
    var s: Slot :| s in slots;
    if slots == {s} {
      m := s;
    } else {
      assert slots - {s} != {};
      var rest := HasLargest(slots - {s});
      m := if s > rest then s else rest;
      assert forall t | t in slots :: t == s || t in slots - {s};
    }
  }

  lemma NewestExists(d: Db, r: Reader, s: Slot) returns (m: Slot)
    requires Candidate(d, r, s)
    ensures Newest(d, r, m)
  {
    var slots := set e | e in d.index && e.0 == r.key && VisibleSlot(r.ancestors, d.roots, e.1) :: e.1;
    forall t: Slot | Candidate(d, r, t) ensures t in slots {
      assert (r.key, t).0 == r.key && (r.key, t).1 == t;
    }
    m := HasLargest(slots);
    var e :| e in d.index && e.0 == r.key && VisibleSlot(r.ancestors, d.roots, e.1) && e.1 == m;
    assert e == (r.key, m);
  }

  /** A reader that has not ended can go on. */
  lemma ReaderCanStep(d: Db, r: Reader) returns (r': Reader)
    requires ReaderSound(d, r) && !Ended(r) && (r.pc.Idle? ==> MayStart(d, r))
    ensures ReaderStep(d, r, r')
  {
    match r.pc
    case Idle => r' := r.(pc := ReadIndex(None));
    case ReadIndex(prev) =>
      if s: Slot :| Candidate(d, r, s) {
        var m := NewestExists(d, r, s);
        r' := AfterRead(r, prev, m, d.index[(r.key, m)]);
      } else {
        r' := r.(pc := Absent);
      }
    case Probing(_, _, _, _, _) => r' := Probe(d, r);
  }

  // ---- Alone ----

  ghost predicate StepsAt(d: Db, rs: seq<Reader>, i: nat) { i + 1 < |rs| ==> ReaderStep(d, rs[i], rs[i + 1]) }

  /** The reader goes through `rs` while nobody else moves. */
  ghost predicate Alone(d: Db, rs: seq<Reader>) { rs != [] && forall i: nat :: StepsAt(d, rs, i) }

  lemma {:induction false} AloneRanks(d: Db, rs: seq<Reader>, i: nat)
    requires Alone(d, rs) && SystemInv(System(d, rs[0])) && i < |rs|
    ensures SystemInv(System(d, rs[i])) && i + Rank(d, rs[i]) <= Rank(d, rs[0])
  {
    if i > 0 {
      AloneRanks(d, rs, i - 1);
      assert StepsAt(d, rs, i - 1);
      StepRanks(d, rs[i - 1], rs[i]);
      ReaderStepKeeps(d, rs[i - 1], rs[i]);
    }
  }

  /** From every state of every run, a reader that is left alone makes at most seven steps. */
  lemma AloneIsShort(states: seq<System>, i: nat, rs: seq<Reader>)
    requires Run(states) && i < |states| && Alone(states[i].db, rs) && rs[0] == states[i].reader
    ensures |rs| <= 8
  {
    RunKeepsInvariant(states, i);
    AloneRanks(states[i].db, rs, |rs| - 1);
  }

  lemma {:induction false} GoesToTheEnd(d: Db, r: Reader) returns (rs: seq<Reader>)
    requires SystemInv(System(d, r)) && (r.pc.Idle? ==> MayStart(d, r))
    ensures Alone(d, rs) && rs[0] == r && Ended(rs[|rs| - 1])
    decreases Rank(d, r)
  {
    rs := [r];
    if !Ended(r) {
      var r' := ReaderCanStep(d, r);
      ReaderStepKeeps(d, r, r');
      StepRanks(d, r, r');
      var rest := GoesToTheEnd(d, r');
      rs := [r] + rest;
      forall i: nat ensures StepsAt(d, rs, i) {
        assert i > 0 ==> StepsAt(d, rest, i - 1);
      }
    }
  }

  /** And it makes them: within seven steps it has the account, or knows that there is none. */
  lemma AloneReachesTheEnd(states: seq<System>, i: nat) returns (rs: seq<Reader>)
    requires Run(states) && i < |states| && (states[i].reader.pc.Idle? ==> MayStart(states[i].db, states[i].reader))
    ensures Alone(states[i].db, rs) && rs[0] == states[i].reader && |rs| <= 8 && Ended(rs[|rs| - 1])
  {
    RunKeepsInvariant(states, i);
    rs := GoesToTheEnd(states[i].db, states[i].reader);
    AloneIsShort(states, i, rs);
  }

  // ---- With others moving ----

  /** The steps of the reader between two states of a run. */
  ghost function Moves(states: seq<System>, i: nat, k: nat): nat
    requires k < |states|
  {
    if k <= i then 0 else Moves(states, i, k - 1) + if states[k].reader != states[k - 1].reader then 1 else 0
  }

  /** How often others changed or removed an index entry of the key. */
  ghost function Changes(states: seq<System>, i: nat, k: nat): nat
    requires k < |states|
  {
    if k <= i then 0
    else Changes(states, i, k - 1) + if SameEntries(states[k - 1].db, states[k].db, states[k].reader.key) then 0 else 1
  }

  lemma NextRanks(s: System, s': System)
    requires SystemInv(s) && Next(s, s')
    ensures (if s'.reader != s.reader then 1 else 0) + Rank(s'.db, s'.reader)
         <= Rank(s.db, s.reader) + if SameEntries(s.db, s'.db, s'.reader.key) then 0 else 4
  {
    if s'.reader != s.reader {
      ReaderMoved(s, s');
      StepRanks(s.db, s.reader, s'.reader);
    }
  }

  lemma StepAtRanks(states: seq<System>, k: nat)
    requires Run(states) && k + 1 < |states|
    ensures (if states[k + 1].reader != states[k].reader then 1 else 0) + Rank(states[k + 1].db, states[k + 1].reader)
         <= Rank(states[k].db, states[k].reader)
            + if SameEntries(states[k].db, states[k + 1].db, states[k + 1].reader.key) then 0 else 4
  {
    RunKeepsInvariant(states, k);
    assert NextAt(states, k);
    NextRanks(states[k], states[k + 1]);
  }

  lemma {:induction false} RunRanks(states: seq<System>, i: nat, k: nat)
    requires Run(states) && i <= k < |states|
    ensures Moves(states, i, k) + Rank(states[k].db, states[k].reader)
         <= Rank(states[i].db, states[i].reader) + 4 * Changes(states, i, k)
  {
    if i < k {
      RunRanks(states, i, k - 1);
      StepAtRanks(states, k - 1);
    }
  }

  /** On every run, and from any of its states, seven steps of the reader, and four more for each time that
      others changed an entry of its key, end the load. */
  lemma LoadEnds(states: seq<System>, i: nat, k: nat)
    requires Run(states) && i <= k < |states| && Moves(states, i, k) >= 7 + 4 * Changes(states, i, k)
    ensures Ended(states[k].reader)
  {
    RunRanks(states, i, k);
    RunKeepsInvariant(states, i);
    RunKeepsInvariant(states, k);
  }

  // ---- The locked attempt ----

  predicate Locked(r: Reader) { r.pc.Probing? && r.pc.locked }

  lemma LockedProbe(d: Db, r: Reader)
    requires IndexBacked(d) && Locked(r) && ReaderSound(d, r) && ReaderSound(d, Probe(d, r))
    ensures Locked(Probe(d, r)) || Probe(d, r).pc.Done?
  {
    assert EntryBacked(d, r.key, r.pc.slot);
  }

  lemma LockedRank(d: Db, r: Reader)
    requires Locked(r) && ReaderSound(d, r)
    ensures r.pc.probe <= 2 && Rank(d, r) == 3 - r.pc.probe
  {
  }

  lemma LockedStep(d: Db, r: Reader, r': Reader)
    requires SystemInv(System(d, r)) && Locked(r) && ReaderStep(d, r, r')
    ensures (Locked(r') || r'.pc.Done?) && Rank(d, r') < Rank(d, r)
  {
    ReaderStepKeeps(d, r, r');
    StepRanks(d, r, r');
    LockedProbe(d, r);
  }

  lemma LockedNext(s: System, s': System)
    requires SystemInv(s) && Next(s, s') && Locked(s.reader)
    ensures Locked(s'.reader) || s'.reader.pc.Done?
    ensures (if s'.reader != s.reader then 1 else 0) + Rank(s'.db, s'.reader) <= Rank(s.db, s.reader)
  {
    if s'.reader != s.reader {
      ReaderMoved(s, s');
      LockedStep(s.db, s.reader, s'.reader);
    } else {
      NextKeeps(s, s');
      LockedRank(s.db, s.reader);
      LockedRank(s'.db, s'.reader);
    }
  }

  lemma DoneNext(s: System, s': System)
    requires Next(s, s') && s.reader.pc.Done?
    ensures s'.reader == s.reader
  {
  }

  lemma LockedIsNear(states: seq<System>, i: nat)
    requires Run(states) && i < |states| && Locked(states[i].reader)
    ensures Rank(states[i].db, states[i].reader) <= 3
  {
    RunKeepsInvariant(states, i);
    LockedRank(states[i].db, states[i].reader);
  }

  lemma LockedStepRanks(states: seq<System>, k: nat)
    requires Run(states) && k + 1 < |states| && (Locked(states[k].reader) || states[k].reader.pc.Done?)
    ensures Locked(states[k + 1].reader) || states[k + 1].reader.pc.Done?
    ensures (if states[k + 1].reader != states[k].reader then 1 else 0) + Rank(states[k + 1].db, states[k + 1].reader)
         <= Rank(states[k].db, states[k].reader)
  {
    assert NextAt(states, k);
    if Locked(states[k].reader) {
      RunKeepsInvariant(states, k);
      LockedNext(states[k], states[k + 1]);
    } else {
      DoneNext(states[k], states[k + 1]);
    }
  }

  lemma {:induction false} LockedRanks(states: seq<System>, i: nat, k: nat)
    requires Run(states) && i <= k < |states| && Locked(states[i].reader)
    ensures Locked(states[k].reader) || states[k].reader.pc.Done?
    ensures Moves(states, i, k) + Rank(states[k].db, states[k].reader) <= 3
  {
    if i == k {
      LockedIsNear(states, i);
    } else {
      LockedRanks(states, i, k - 1);
      LockedStepRanks(states, k - 1);
    }
  }

  /** Whatever others do, a locked attempt has the account after at most three probes. */
  lemma LockedAttemptEnds(states: seq<System>, i: nat, k: nat)
    requires Run(states) && i <= k < |states| && Locked(states[i].reader) && Moves(states, i, k) >= 3
    ensures states[k].reader.pc.Done?
  {
    LockedRanks(states, i, k);
    RunKeepsInvariant(states, k);
  }

  // ---- Misses that count ----

  function Left(limit: nat, failures: nat): nat { if failures < limit then limit - failures else 0 }

  /** The steps left once another miss has been counted: three probes and an index read for each retry. */
  function AfterNextMiss(r: Reader): nat { 4 * (Left(r.limit, r.failures + 1) + 1) }

  function Tries(r: Reader): nat {
    match r.pc
    case Idle => 5 + AfterNextMiss(r)
    case ReadIndex(prev) => if prev.Some? && r.failures >= r.limit then 4 else 4 + AfterNextMiss(r)
    case Probing(_, _, probe, _, locked) =>
      (if probe < 3 then 3 - probe else 0) + if locked then 0 else AfterNextMiss(r)
    case _ => 0
  }

  lemma ReadTries(d: Db, r: Reader, s: Slot)
    requires r.pc.ReadIndex? && Newest(d, r, s)
    ensures var r' := AfterRead(r, r.pc.prev, s, d.index[(r.key, s)]);
            Tries(r') < Tries(r) && r'.hint == r.hint && r'.limit == r.limit
  {
  }

  lemma LockedTries(d: Db, r: Reader)
    requires Locked(r) && IndexBacked(d) && ReaderSound(d, r) && ReaderSound(d, Probe(d, r))
    ensures Tries(Probe(d, r)) < Tries(r)
  {
    LockedProbe(d, r);
  }

  lemma CacheProbeTries(d: Db, r: Reader)
    requires r.pc.Probing? && r.pc.loc.Cached? && !r.pc.locked && r.hint.Unspecified? && r.pc.probe <= 2
    ensures Tries(Probe(d, r)) < Tries(r)
  {
  }

  lemma StoreProbeTries(d: Db, r: Reader)
    requires r.pc.Probing? && r.pc.loc.Stored? && !r.pc.locked && r.hint.Unspecified? && r.pc.probe <= 2
    ensures Tries(Probe(d, r)) < Tries(r)
  {
  }

  lemma ProbeKeepsHint(d: Db, r: Reader)
    requires r.pc.Probing?
    ensures Probe(d, r).hint == r.hint && Probe(d, r).limit == r.limit
  {
  }

  lemma StepTries(d: Db, r: Reader, r': Reader)
    requires SystemInv(System(d, r)) && ReaderStep(d, r, r') && r.hint.Unspecified?
    ensures Tries(r') < Tries(r) && r'.hint == r.hint && r'.limit == r.limit
  {
    match r.pc
    case Idle =>
    case ReadIndex(prev) =>
      if s: Slot :| Newest(d, r, s) && r' == AfterRead(r, prev, s, d.index[(r.key, s)]) {
        ReadTries(d, r, s);
      }
    case Probing(_, loc, _, _, locked) =>
      ReaderStepKeeps(d, r, r');
      ProbeKeepsHint(d, r);
      if locked {
        LockedTries(d, r);
      } else if loc.Cached? {
        CacheProbeTries(d, r);
      } else {
        StoreProbeTries(d, r);
      }
    case _ =>
  }

  lemma {:induction false} RunTries(states: seq<System>, k: nat)
    requires Run(states) && k < |states| && states[0].reader.hint.Unspecified?
    ensures states[k].reader.hint.Unspecified? && states[k].reader.limit == states[0].reader.limit
    ensures Moves(states, 0, k) + Tries(states[k].reader) <= Tries(states[0].reader)
  {
    if k > 0 {
      RunTries(states, k - 1);
      RunKeepsInvariant(states, k - 1);
      assert NextAt(states, k - 1);
      var s, s' := states[k - 1], states[k];
      if s'.reader != s.reader {
        ReaderMoved(s, s');
        StepTries(s.db, s.reader, s'.reader);
      }
    }
  }

  /** Where every miss counts, the load ends after a number of steps that depends on the limit alone. */
  lemma CountedLoadEnds(states: seq<System>, k: nat)
    requires Run(states) && k < |states| && states[0].reader.hint.Unspecified?
    requires var limit := states[0].reader.limit; Moves(states, 0, k) >= 5 + 4 * (if limit > 0 then limit else 1)
    ensures Ended(states[k].reader)
  {
    RunTries(states, k);
    RunKeepsInvariant(states, k);
  }

  // ---- The whole load ----

  /** How many steps the search of the write cache still takes at most. */
  function SearchRank(pc: CacheSearch.Pc): nat {
    match pc
    case Bounded(max) => 2 * max + 6
    case AtAncestors(max, next) => (if next >= 0 then next + 1 else 0) + max + 4
    case BeforeRoots(max) => max + 3
    case AtRoots(max, next) => (if next >= 0 then next + 1 else 0) + 1
    case _ => 0
  }

  lemma SearchStepRanks(d: Auth.State, r: CacheSearch.Search, pc': CacheSearch.Pc)
    requires CacheSearch.SearchStep(d, r, pc') && !r.pc.Before?
    ensures SearchRank(pc') < SearchRank(r.pc) && !pc'.Before?
  {
  }

  ghost predicate LoadEnded(s: Whole.System) { Whole.Final(s.search.pc) || Ended(s.reader) }

  /** The search, and the retry loop unless the answer of the search is final. */
  ghost function LoadRank(s: Whole.System): nat {
    SearchRank(s.search.pc) + if Whole.Final(s.search.pc) then 0 else Rank(s.shared.db, s.reader)
  }

  ghost predicate LoadMoved(s: Whole.System, s': Whole.System) { s'.search.pc != s.search.pc || s'.reader != s.reader }

  ghost function LoadMoves(states: seq<Whole.System>, i: nat, k: nat): nat
    requires k < |states|
  {
    if k <= i then 0 else LoadMoves(states, i, k - 1) + if LoadMoved(states[k - 1], states[k]) then 1 else 0
  }

  ghost function LoadChanges(states: seq<Whole.System>, i: nat, k: nat): nat
    requires k < |states|
  {
    if k <= i then 0
    else LoadChanges(states, i, k - 1)
         + if SameEntries(states[k - 1].shared.db, states[k].shared.db, states[k].reader.key) then 0 else 1
  }

  lemma OthersRank(s: Whole.System, s': Whole.System)
    requires Whole.OthersMove(s, s')
    ensures !LoadMoved(s, s')
    ensures LoadRank(s') <= LoadRank(s) + if SameEntries(s.shared.db, s'.shared.db, s'.reader.key) then 0 else 4
  {
  }

  lemma LoadNextRanks(s: Whole.System, s': Whole.System)
    requires SystemInv(Whole.ReaderView(s)) && Whole.Agree(s) && Whole.Next(s, s') && !s.search.pc.Before?
    ensures !s'.search.pc.Before?
    ensures (if LoadMoved(s, s') then 1 else 0) + LoadRank(s')
         <= LoadRank(s) + if SameEntries(s.shared.db, s'.shared.db, s'.reader.key) then 0 else 4
  {
    if Whole.SearchMoves(s, s') {
      SearchStepRanks(Whole.View(s.shared), s.search, s'.search.pc);
    } else if Whole.ReaderMoves(s, s') {
      StepRanks(s.shared.db, s.reader, s'.reader);
    } else {
      OthersRank(s, s');
    }
  }

  lemma ReaderInvariant(states: seq<Whole.System>, i: nat)
    requires Whole.Run(states) && i < |states|
    ensures SystemInv(Whole.ReaderView(states[i]))
  {
    Whole.ReaderRuns(states);
    RunKeepsInvariant(Whole.ReaderRun(states), i);
  }

  lemma LoadStepRanks(states: seq<Whole.System>, k: nat)
    requires Whole.Run(states) && k + 1 < |states| && !states[k].search.pc.Before?
    ensures !states[k + 1].search.pc.Before?
    ensures (if LoadMoved(states[k], states[k + 1]) then 1 else 0) + LoadRank(states[k + 1])
         <= LoadRank(states[k]) + if SameEntries(states[k].shared.db, states[k + 1].shared.db, states[k + 1].reader.key) then 0 else 4
  {
    Whole.RunKeeps(states, k);
    ReaderInvariant(states, k);
    assert Whole.NextAt(states, k);
    LoadNextRanks(states[k], states[k + 1]);
  }

  lemma {:induction false} LoadRunRanks(states: seq<Whole.System>, i: nat, k: nat)
    requires Whole.Run(states) && i <= k < |states| && !states[i].search.pc.Before?
    ensures !states[k].search.pc.Before?
    ensures LoadMoves(states, i, k) + LoadRank(states[k]) <= LoadRank(states[i]) + 4 * LoadChanges(states, i, k)
  {
    if i < k {
      LoadRunRanks(states, i, k - 1);
      LoadStepRanks(states, k - 1);
    }
  }

  lemma UnendedRanks(states: seq<Whole.System>, k: nat)
    requires Whole.Run(states) && k < |states| && !states[k].search.pc.Before? && !LoadEnded(states[k])
    ensures LoadRank(states[k]) > 0
  {
    ReaderInvariant(states, k);
  }

  /** On every run, a load whose search got the bound `max` ends after that many steps of its own, and four
      more for each time that others changed an entry of its key. */
  lemma WholeLoadEnds(states: seq<Whole.System>, i: nat, k: nat)
    requires Whole.Run(states) && i <= k < |states| && states[i].search.pc.Bounded?
    requires LoadMoves(states, i, k) >= 2 * states[i].search.pc.max + 11 + 4 * LoadChanges(states, i, k)
    ensures LoadEnded(states[k])
  {
    Whole.RunKeeps(states, i);
    LoadRunRanks(states, i, k);
    if !LoadEnded(states[k]) {
      UnendedRanks(states, k);
    }
  }

  lemma SearchCanStep(d: Auth.State, r: CacheSearch.Search) returns (pc': CacheSearch.Pc)
    requires !r.pc.Answered? && !r.pc.Undecided?
    ensures CacheSearch.SearchStep(d, r, pc')
  {
    match r.pc
    case Before =>
      var slots := set t | t in d.cached && r.key in d.cached[t];
      if slots == {} {
        assert forall t: Slot | WriteCache.Held(d.cached, t, r.key) :: t in slots;
        pc' := CacheSearch.Undecided;
      } else {
        var max := HasLargest(slots);
        assert forall t: Slot | WriteCache.Held(d.cached, t, r.key) :: t in slots;
        pc' := CacheSearch.Bounded(max);
      }
    case Bounded(max) => pc' := if r.ancestors != {} then CacheSearch.AtAncestors(max, max) else CacheSearch.BeforeRoots(max);
    case AtAncestors(max, next) =>
      if forall a | a in r.ancestors :: next < a {
        pc' := CacheSearch.BeforeRoots(max);
      } else if next >= 0 && next in r.ancestors && WriteCache.Held(d.cached, next, r.key) {
        pc' := CacheSearch.Answered(WriteCache.Found(d.cached[next][r.key], next,
                 if next in d.flushing then WriteCache.AncestorBeingFlushed else WriteCache.Ancestor));
      } else {
        pc' := CacheSearch.AtAncestors(max, next - 1);
      }
    case BeforeRoots(max) => pc' := CacheSearch.AtRoots(max, max);
    case AtRoots(max, next) =>
      if next < 0 {
        pc' := CacheSearch.Undecided;
      } else if next in d.unflushed && WriteCache.NotAbove(next, r.ancestors) && WriteCache.Held(d.cached, next, r.key) {
        pc' := CacheSearch.Answered(WriteCache.Found(d.cached[next][r.key], next, WriteCache.UnflushedRoot));
      } else {
        pc' := CacheSearch.AtRoots(max, next - 1);
      }
  }

  /** A load that has not ended can go on: after a search without a final answer, with the index. */
  lemma LoadCanStep(states: seq<Whole.System>, i: nat) returns (s': Whole.System)
    requires Whole.Run(states) && i < |states| && !LoadEnded(states[i])
    requires states[i].reader.pc.Idle? ==> MayStart(states[i].shared.db, states[i].reader)
    ensures Whole.SearchMoves(states[i], s') || Whole.ReaderMoves(states[i], s')
    ensures Whole.GoesOn(states[i].search.pc) && states[i].reader.pc.Idle? ==> s'.reader.pc == ReadIndex(None)
  {
    var s := states[i];
    if Whole.GoesOn(s.search.pc) {
      ReaderInvariant(states, i);
      var r' := ReaderCanStep(s.shared.db, s.reader);
      s' := s.(reader := r');
    } else {
      var pc' := SearchCanStep(Whole.View(s.shared), s.search);
      s' := s.(search := s.search.(pc := pc', moment := CacheSearch.MomentAfter(Whole.View(s.shared), s.search, pc')));
    }
  }

  lemma LoopNext(s: Whole.System, s': Whole.System)
    requires Whole.Agree(s) && Whole.Next(s, s') && !s.reader.pc.Idle?
    ensures !s'.reader.pc.Idle? && (LoadMoved(s, s') <==> s'.reader != s.reader)
  {
  }

  lemma LoopStep(states: seq<Whole.System>, k: nat)
    requires Whole.Run(states) && k + 1 < |states| && !states[k].reader.pc.Idle?
    ensures var run := Whole.ReaderRun(states);
            !states[k + 1].reader.pc.Idle? && (LoadMoved(states[k], states[k + 1]) <==> run[k + 1].reader != run[k].reader)
  {
    Whole.RunKeeps(states, k);
    assert Whole.NextAt(states, k);
    LoopNext(states[k], states[k + 1]);
  }

  /** Once the retry loop has begun, every step of the load is one of its steps. */
  lemma {:induction false} LoopMoves(states: seq<Whole.System>, i: nat, k: nat)
    requires Whole.Run(states) && i <= k < |states| && !states[i].reader.pc.Idle?
    ensures !states[k].reader.pc.Idle? && LoadMoves(states, i, k) == Moves(Whole.ReaderRun(states), i, k)
  {
    if i < k {
      LoopMoves(states, i, k - 1);
      LoopStep(states, k - 1);
    }
  }

  lemma WholeLockedAttemptEnds(states: seq<Whole.System>, i: nat, k: nat)
    requires Whole.Run(states) && i <= k < |states| && Locked(states[i].reader) && LoadMoves(states, i, k) >= 3
    ensures states[k].reader.pc.Done?
  {
    Whole.ReaderRuns(states);
    LoopMoves(states, i, k);
    LockedAttemptEnds(Whole.ReaderRun(states), i, k);
  }

  /** A cached account that the search finds at an ancestor that is not being flushed, or at an unflushed root,
      is the result of the load. */
  lemma FoundEndsLoad(states: seq<Whole.System>, i: nat)
    requires Whole.Run(states) && i < |states| && states[i].search.pc.Answered?
    requires var status := states[i].search.pc.found.status; status == WriteCache.Ancestor || status == WriteCache.UnflushedRoot
    ensures var f := states[i].search.pc.found; LoadEnded(states[i]) && Whole.Result(states[i]) == Some((f.slot, f.account))
    ensures states[i].reader.pc.Idle?
  {
    Whole.RunKeeps(states, i);
  }

  // ---- When the lock is taken ----

  lemma LockNeedsMisses(d: Db, r: Reader, r': Reader)
    requires ReaderStep(d, r, r') && (Locked(r) ==> r.failures >= r.limit)
    ensures Locked(r') ==> r'.failures >= r'.limit
  {
  }

  /** The reader holds the lock of an index entry only once it has missed as often as the limit says. */
  lemma {:induction false} LockedAfterLimit(states: seq<System>, i: nat)
    requires Run(states) && i < |states| && Locked(states[i].reader)
    ensures states[i].reader.failures >= states[i].reader.limit
  {
    assert NextAt(states, i - 1);
    var s, s' := states[i - 1], states[i];
    if Locked(s.reader) {
      LockedAfterLimit(states, i - 1);
    }
    if s'.reader != s.reader {
      ReaderMoved(s, s');
      LockNeedsMisses(s.db, s.reader, s'.reader);
    }
  }
}
