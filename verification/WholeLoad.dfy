/** A whole load: the search of the write cache and, unless that is final, the index read and the retry
    loop, interleaved with the steps of banks and of the background service. */
module WholeLoad {
  import opened Types
  import WriteCache
  import Auth = AuthoritativeLoad
  import CacheSearch
  import Protocol = ReaderProtocol
  import Reader = ReaderLoad

  /** The database, and the root sets of its write cache. */
  datatype Shared = Shared(db: Protocol.Db, unflushed: set<Slot>, flushing: set<Slot>)

  /** `Claim` and `Release` begin and end a flush of the roots claimed in between. */
  datatype Step = DbStep(step: Protocol.Step) | Claim(maxRoot: Option<Slot>) | Release

  predicate IsAddRoot(step: Protocol.Step) { step.Bank? && step.bank.AddRoot? }

  /** Only claimed slots are flushed, and all of them before they are released. */
  ghost predicate Enabled(s: Shared, step: Step) {
    match step
    case DbStep(p) => Protocol.Enabled(s.db, p) && (p.Flush? && p.job.FlushBegin? ==> p.job.slot in s.flushing)
    case Claim(_) => s.flushing == {}
    case Release => forall r | r in s.flushing :: r !in s.db.caches
  }

  ghost function Apply(s: Shared, step: Step): Shared
    requires Enabled(s, step)
  {
    match step
    case DbStep(p) =>
      s.(db := Protocol.Apply(s.db, p), unflushed := s.unflushed + if IsAddRoot(p) then {p.bank.slot} else {})
    case Claim(maxRoot) =>
      var claimed := set r | r in s.unflushed && (maxRoot.Some? ==> r <= maxRoot.value);
      s.(unflushed := s.unflushed - claimed, flushing := claimed)
    case Release => s.(flushing := {})
  }

  ghost predicate Inv(s: Shared) {
    Protocol.Inv(s.db) && JobClaimed(s.db, s.flushing)
  }

  ghost predicate JobClaimed(d: Protocol.Db, flushing: set<Slot>) { d.flush.Some? ==> d.flush.value.slot in flushing }

  lemma StepKeepsInv(s: Shared, step: Step)
    requires Inv(s) && Enabled(s, step)
    ensures Inv(Apply(s, step))
  {
    match step
    case DbStep(p) => Protocol.StepKeepsInv(s.db, p); FlushJobClaimed(s, p);
    case Claim(_) =>
    case Release =>
  }

  lemma FlushJobClaimed(s: Shared, p: Protocol.Step)
    requires Enabled(s, DbStep(p)) && JobClaimed(s.db, s.flushing)
    ensures JobClaimed(Protocol.Apply(s.db, p), s.flushing)
  {
    match p
    case Bank(b) =>
    case Flush(f) => FlushKeepsJob(s.db, f, s.flushing);
    case Shrink(j) => ShrinkKeepsJob(s.db, j);
    case Clean(c) =>
  }

  lemma FlushKeepsJob(d: Protocol.Db, f: Protocol.FlushStep, flushing: set<Slot>)
    requires Protocol.EnabledFlush(d, f) && JobClaimed(d, flushing) && (f.FlushBegin? ==> f.slot in flushing)
    ensures JobClaimed(Protocol.ApplyFlush(d, f), flushing)
  {
  }

  lemma ShrinkKeepsJob(d: Protocol.Db, j: Protocol.ShrinkStep)
    requires Protocol.EnabledShrink(d, j)
    ensures Protocol.ApplyShrink(d, j).flush == d.flush
  {
  }

  // ---- What the search of the write cache sees of it ----

  ghost predicate InCache(d: Protocol.Db, e: (Pubkey, Slot)) { WriteCache.Held(d.caches, e.1, e.0) }

  /** The versions that only the index leads to. */
  ghost function Stored(d: Protocol.Db): map<(Pubkey, Slot), Account> {
    map e | e in d.index && e in d.versions && !InCache(d, e) :: d.versions[e]
  }

  ghost function View(s: Shared): Auth.State {
    Auth.State(s.db.caches, Stored(s.db), s.db.roots, s.unflushed, s.flushing)
  }

  ghost function Entries(key: Pubkey, slots: set<Slot>): set<(Pubkey, Slot)> { set s | s in slots :: (key, s) }

  ghost function KeysOf(d: Protocol.Db, slot: Slot): set<Pubkey> { set e | e in d.index && e.1 == slot :: e.0 }

  /** The entries that a step takes out of the index. */
  ghost function Gone(step: Protocol.Step): set<(Pubkey, Slot)> {
    match step
    case Flush(f) => if f.FlushIndex? then Entries(f.key, f.reclaimed) else {}
    case Shrink(j) => if j.ShrinkPurge? then {(j.key, j.slot)} else {}
    case Clean(c) => if c.CleanKey? then Entries(c.key, c.slots) else {}
    case Bank(_) => {}
  }

  /** The step as the search sees it. */
  ghost function Seen(s: Shared, step: Step): Auth.Step
    requires Enabled(s, step)
  {
    match step
    case Claim(maxRoot) => Auth.BeginFlush(maxRoot)
    case Release => Auth.EndFlush
    case DbStep(p) =>
      if p.Bank? && p.bank.CacheWrite? then Auth.Write(p.bank.slot, p.bank.key, p.bank.account)
      else if IsAddRoot(p) then Auth.AddRoot(p.bank.slot)
      else if p.Flush? && p.job.FlushEnd? then Auth.FlushSlot(s.db.flush.value.slot, KeysOf(s.db, s.db.flush.value.slot))
      else Auth.Clean(Gone(p))
  }

  /** Apart from cached versions, exactly the entries `gone` leave the index. */
  ghost predicate Forgets(d: Protocol.Db, d': Protocol.Db, gone: set<(Pubkey, Slot)>) {
    && d'.caches == d.caches && d'.versions == d.versions && d'.roots == d.roots
    && forall e: (Pubkey, Slot) | !InCache(d, e) :: e in d'.index <==> e in d.index && e !in gone
  }

  lemma ForgetsStored(d: Protocol.Db, d': Protocol.Db, gone: set<(Pubkey, Slot)>)
    requires Forgets(d, d', gone)
    ensures Stored(d') == Stored(d) - gone
  {
    forall e: (Pubkey, Slot) ensures e in Stored(d') <==> e in Stored(d) && e !in gone {
      assert InCache(d', e) <==> InCache(d, e);
    }
  }

  lemma BankForgets(d: Protocol.Db, step: Protocol.BankStep)
    requires Protocol.EnabledBank(d, step) && step.CacheIndex?
    ensures Forgets(d, Protocol.ApplyBank(d, step), {})
  {
  }

  lemma FlushForgets(d: Protocol.Db, step: Protocol.FlushStep)
    requires Protocol.IndexBacked(d) && Protocol.FlushSound(d) && Protocol.EnabledFlush(d, step) && !step.FlushEnd?
    ensures Forgets(d, Protocol.ApplyFlush(d, step), Gone(Protocol.Flush(step)))
  {
    if step.FlushPurge? {
      assert Protocol.EntryBacked(d, step.key, d.flush.value.slot);
    }
  }

  lemma ShrinkForgets(d: Protocol.Db, step: Protocol.ShrinkStep)
    requires Protocol.ShrinksSound(d) && Protocol.EnabledShrink(d, step)
    ensures Forgets(d, Protocol.ApplyShrink(d, step), Gone(Protocol.Shrink(step)))
  {
    if step.ShrinkIndex? {
      assert Protocol.ShrinkSound(d, step.slot);
    }
  }

  lemma CleanForgets(d: Protocol.Db, step: Protocol.CleanStep)
    requires Protocol.EnabledClean(d, step)
    ensures Forgets(d, Protocol.ApplyClean(d, step), Gone(Protocol.Clean(step)))
  {
  }

  /** A slot is written while it is not rooted, when nothing of it is in storage. */
  lemma WriteKeepsStored(d: Protocol.Db, step: Protocol.BankStep)
    requires Protocol.IndexBacked(d) && Protocol.EnabledBank(d, step) && step.CacheWrite?
    ensures Stored(Protocol.ApplyBank(d, step)) == Stored(d)
  {
    var d' := Protocol.ApplyBank(d, step);
    forall e: (Pubkey, Slot) ensures e in Stored(d') <==> e in Stored(d) {
      if e == (step.key, step.slot) && e in d.index {
        assert Protocol.EntryBacked(d, e.0, e.1);
      }
    }
  }

  ghost function WithoutCache(d: Protocol.Db, slot: Slot): Protocol.Db { d.(caches := d.caches - {slot}, flush := None) }

  lemma KeysOfIs(d: Protocol.Db, slot: Slot, key: Pubkey)
    ensures key in KeysOf(d, slot) <==> (key, slot) in d.index
  {
    if (key, slot) in d.index {
      assert (key, slot).1 == slot && (key, slot).0 == key;
    }
  }

  lemma MovedEntry(d: Protocol.Db, slot: Slot, e: (Pubkey, Slot))
    requires slot in d.caches && (InCache(d, e) ==> e in d.versions && d.caches[e.1][e.0] == d.versions[e])
    ensures var joined := Stored(d) + Auth.Moved(d.caches[slot], slot, KeysOf(d, slot));
            && (e in Stored(WithoutCache(d, slot)) <==> e in joined)
            && (e in joined ==> joined[e] == d.versions[e])
  {
    Auth.MovedIs(d.caches[slot], slot, KeysOf(d, slot), e);
    KeysOfIs(d, slot, e.0);
    assert e.1 == slot ==> e == (e.0, slot);
    assert InCache(WithoutCache(d, slot), e) <==> InCache(d, e) && e.1 != slot;
  }

  lemma FlushEndStores(d: Protocol.Db, slot: Slot)
    requires Protocol.CachesSound(d) && slot in d.caches
    ensures Stored(WithoutCache(d, slot)) == Stored(d) + Auth.Moved(d.caches[slot], slot, KeysOf(d, slot))
  {
    var after, joined := Stored(WithoutCache(d, slot)), Stored(d) + Auth.Moved(d.caches[slot], slot, KeysOf(d, slot));
    forall e: (Pubkey, Slot)
      ensures e in after <==> e in joined
      ensures e in joined ==> after[e] == joined[e]
    {
      MovedEntry(d, slot, e);
    }
  }

  ghost predicate Simulates(s: Shared, step: Step)
    requires Enabled(s, step)
  {
    Auth.Enabled(View(s), Seen(s, step)) && View(Apply(s, step)) == Auth.Apply(View(s), Seen(s, step))
  }

  lemma BankSimulates(s: Shared, b: Protocol.BankStep)
    requires Protocol.IndexBacked(s.db) && Enabled(s, DbStep(Protocol.Bank(b)))
    ensures Simulates(s, DbStep(Protocol.Bank(b)))
  {
    var d, d' := s.db, Protocol.ApplyBank(s.db, b);
    match b
    case CacheWrite(_, _, _) => WriteKeepsStored(d, b);
    case CacheIndex(_, _) =>
      BankForgets(d, b);
      ForgetsStored(d, d', {});
    case AddRoot(_) => assert Stored(d') == Stored(d);
  }

  lemma FlushEndSimulates(s: Shared)
    requires Protocol.CachesSound(s.db) && Enabled(s, DbStep(Protocol.Flush(Protocol.FlushEnd)))
    requires s.db.flush.value.slot in s.db.caches && s.db.flush.value.slot in s.flushing
    ensures Simulates(s, DbStep(Protocol.Flush(Protocol.FlushEnd)))
  {
    var slot := s.db.flush.value.slot;
    FlushEndStores(s.db, slot);
    assert Protocol.Apply(s.db, Protocol.Flush(Protocol.FlushEnd)) == WithoutCache(s.db, slot);
  }

  lemma FlushStepSimulates(s: Shared, f: Protocol.FlushStep)
    requires Protocol.IndexBacked(s.db) && Protocol.FlushSound(s.db) && Enabled(s, DbStep(Protocol.Flush(f))) && !f.FlushEnd?
    ensures Simulates(s, DbStep(Protocol.Flush(f)))
  {
    FlushForgets(s.db, f);
    ForgetsStored(s.db, Protocol.ApplyFlush(s.db, f), Gone(Protocol.Flush(f)));
  }

  lemma ShrinkSimulates(s: Shared, j: Protocol.ShrinkStep)
    requires Protocol.ShrinksSound(s.db) && Enabled(s, DbStep(Protocol.Shrink(j)))
    ensures Simulates(s, DbStep(Protocol.Shrink(j)))
  {
    ShrinkForgets(s.db, j);
    ForgetsStored(s.db, Protocol.ApplyShrink(s.db, j), Gone(Protocol.Shrink(j)));
  }

  lemma CleanSimulates(s: Shared, c: Protocol.CleanStep)
    requires Enabled(s, DbStep(Protocol.Clean(c)))
    ensures Simulates(s, DbStep(Protocol.Clean(c)))
  {
    CleanForgets(s.db, c);
    ForgetsStored(s.db, Protocol.ApplyClean(s.db, c), Gone(Protocol.Clean(c)));
  }

  /** Every step of the database is a step, or no step, of the cache and the storage that the search sees. */
  lemma StepSimulates(s: Shared, step: Step)
    requires Inv(s) && Enabled(s, step)
    ensures Simulates(s, step)
  {
    if step.DbStep? {
      match step.step
      case Bank(b) => BankSimulates(s, b);
      case Flush(f) => if f.FlushEnd? { FlushEndSimulates(s); } else { FlushStepSimulates(s, f); }
      case Shrink(j) => ShrinkSimulates(s, j);
      case Clean(c) => CleanSimulates(s, c);
    }
  }

  // ---- The load ----

  datatype System = System(shared: Shared, search: CacheSearch.Search, reader: Reader.Reader)

  /** The write cache has been searched, and its answer is not final. */
  predicate GoesOn(pc: CacheSearch.Pc) { pc.Undecided? || (pc.Answered? && !Auth.Authoritative(pc.found)) }

  predicate Final(pc: CacheSearch.Pc) { pc.Answered? && Auth.Authoritative(pc.found) }

  predicate Loading(s: System) {
    !s.search.pc.Before? && !Final(s.search.pc) && !s.reader.pc.Done? && !s.reader.pc.Absent?
  }

  ghost predicate Writes(step: Step, key: Pubkey, slot: Slot) {
    step.DbStep? && step.step.Bank? && step.step.bank.CacheWrite? && step.step.bank.key == key && step.step.bank.slot == slot
  }

  /** Locks and forks as for the search and for the retry loop. Of the reader's ancestors, only its own
      bank writes the account during the load. */
  ghost predicate Allowed(s: System, step: Step)
    requires Enabled(s.shared, step)
  {
    && CacheSearch.Allowed(s.search, Seen(s.shared, step))
    && (step.DbStep? ==> Reader.Allowed(s.reader, step.step))
    && (Loading(s) ==> forall a | a in s.search.ancestors && Writes(step, s.search.key, a) :: CacheSearch.IsTip(s.search.ancestors, a))
  }

  ghost predicate SearchMoves(s: System, s': System) {
    exists pc' :: CacheSearch.SearchStep(View(s.shared), s.search, pc') &&
      s' == s.(search := s.search.(pc := pc', moment := CacheSearch.MomentAfter(View(s.shared), s.search, pc')))
  }

  ghost predicate ReaderMoves(s: System, s': System) {
    GoesOn(s.search.pc) && Reader.ReaderStep(s.shared.db, s.reader, s'.reader) && s' == s.(reader := s'.reader)
  }

  ghost predicate OthersMove(s: System, s': System) {
    exists step :: Enabled(s.shared, step) && Allowed(s, step) &&
      s' == System(Apply(s.shared, step), CacheSearch.Noted(View(Apply(s.shared, step)), s.search), s.reader)
  }

  ghost predicate Next(s: System, s': System) { SearchMoves(s, s') || ReaderMoves(s, s') || OthersMove(s, s') }

  ghost predicate Starts(s: System) {
    && Reader.Starts(ReaderView(s)) && s.shared.unflushed == {} && s.shared.flushing == {} && s.search.pc.Before?
    && s.reader.key == s.search.key && s.reader.ancestors == s.search.ancestors
  }

  ghost predicate Run(states: seq<System>) {
    && |states| > 0 && Starts(states[0])
    && (forall i: nat :: NextAt(states, i)) && (forall i: nat :: ForkAt(states, i))
  }

  ghost predicate NextAt(states: seq<System>, i: nat) { i + 1 < |states| ==> Next(states[i], states[i + 1]) }

  ghost predicate ForkAt(states: seq<System>, i: nat) {
    i < |states| ==> Auth.Fork(View(states[i].shared), states[i].search.ancestors)
  }

  // ---- Both halves of the load run as before ----

  ghost function SearchView(s: System): CacheSearch.System { CacheSearch.System(View(s.shared), s.search) }

  ghost function ReaderView(s: System): Reader.System { Reader.System(s.shared.db, s.reader) }

  ghost function SearchRun(states: seq<System>): seq<CacheSearch.System> {
    seq(|states|, i requires 0 <= i < |states| => SearchView(states[i]))
  }

  ghost function ReaderRun(states: seq<System>): seq<Reader.System> {
    seq(|states|, i requires 0 <= i < |states| => ReaderView(states[i]))
  }

  /** While the retry loop runs, the search sees nothing happen. */
  lemma SearchRests(s: CacheSearch.System)
    requires GoesOn(s.search.pc)
    ensures CacheSearch.Next(s, s)
  {
    var rest := Auth.Clean({});
    assert s.db.stored - {} == s.db.stored;
    assert Auth.Enabled(s.db, rest) && CacheSearch.Allowed(s.search, rest) && Auth.Apply(s.db, rest) == s.db;
  }

  lemma SearchNext(s: System, s': System)
    requires Inv(s.shared) && Next(s, s')
    ensures CacheSearch.Next(SearchView(s), SearchView(s'))
  {
    if ReaderMoves(s, s') {
      SearchRests(SearchView(s));
    } else if OthersMove(s, s') {
      var step :| Enabled(s.shared, step) && Allowed(s, step) &&
        s' == System(Apply(s.shared, step), CacheSearch.Noted(View(Apply(s.shared, step)), s.search), s.reader);
      StepSimulates(s.shared, step);
    }
  }

  lemma ReaderNext(s: System, s': System)
    requires Next(s, s')
    ensures Reader.Next(ReaderView(s), ReaderView(s'))
  {
    if OthersMove(s, s') {
      var step :| Enabled(s.shared, step) && Allowed(s, step) &&
        s' == System(Apply(s.shared, step), CacheSearch.Noted(View(Apply(s.shared, step)), s.search), s.reader);
    }
  }

  /** The retry loop starts when the search is over; both look for the same account. */
  ghost predicate Agree(s: System) {
    && s.reader.key == s.search.key && s.reader.ancestors == s.search.ancestors
    && (!s.reader.pc.Idle? ==> GoesOn(s.search.pc))
  }

  lemma ReaderKeepsKey(d: Protocol.Db, r: Reader.Reader, r': Reader.Reader)
    requires Reader.ReaderStep(d, r, r')
    ensures r'.key == r.key && r'.ancestors == r.ancestors
  {
  }

  lemma NextKeeps(s: System, s': System)
    requires Inv(s.shared) && Agree(s) && Next(s, s')
    ensures Inv(s'.shared) && Agree(s') && s'.search.key == s.search.key && s'.search.ancestors == s.search.ancestors
  {
    if ReaderMoves(s, s') {
      ReaderKeepsKey(s.shared.db, s.reader, s'.reader);
    } else if OthersMove(s, s') {
      var step :| Enabled(s.shared, step) && Allowed(s, step) &&
        s' == System(Apply(s.shared, step), CacheSearch.Noted(View(Apply(s.shared, step)), s.search), s.reader);
      StepKeepsInv(s.shared, step);
    }
  }

  lemma {:induction false} RunKeeps(states: seq<System>, i: nat)
    requires Run(states) && i < |states|
    ensures Inv(states[i].shared) && Agree(states[i])
    ensures states[i].search.key == states[0].search.key && states[i].search.ancestors == states[0].search.ancestors
  {
    if i > 0 {
      RunKeeps(states, i - 1);
      assert NextAt(states, i - 1);
      NextKeeps(states[i - 1], states[i]);
    }
  }

  lemma SearchRuns(states: seq<System>)
    requires Run(states)
    ensures CacheSearch.Run(SearchRun(states))
  {
    forall i | 0 <= i < |states| - 1
      ensures CacheSearch.Next(SearchRun(states)[i], SearchRun(states)[i + 1])
    {
      RunKeeps(states, i);
      assert NextAt(states, i);
      SearchNext(states[i], states[i + 1]);
    }
    forall i | 0 <= i < |states|
      ensures Auth.Fork(SearchRun(states)[i].db, SearchRun(states)[i].search.ancestors)
    {
      assert ForkAt(states, i);
    }
    assert Stored(states[0].shared.db) == map[];
  }

  lemma ReaderRuns(states: seq<System>)
    requires Run(states)
    ensures Reader.Run(ReaderRun(states))
  {
    var run := ReaderRun(states);
    forall i: nat ensures Reader.NextAt(run, i) {
      assert NextAt(states, i);
      if i + 1 < |states| {
        ReaderNext(states[i], states[i + 1]);
      }
    }
  }

  // ---- What a load returns ----

  /** The account is what the version holds; the reader may see it, and nothing newer in the index. */
  ghost predicate IsNewest(d: Protocol.Db, ancestors: set<Slot>, key: Pubkey, slot: Slot, account: Account) {
    && VisibleSlot(ancestors, d.roots, slot) && (InCache(d, (key, slot)) || (key, slot) in d.index)
    && (key, slot) in d.versions && d.versions[(key, slot)] == account
    && forall t: Slot | VisibleSlot(ancestors, d.roots, t) && (key, t) in d.index :: t <= slot
  }

  lemma FoundIsNewest(s: Shared, ancestors: set<Slot>, key: Pubkey, f: WriteCache.Found)
    requires Inv(s) && Auth.NewestVersion(View(s), ancestors, key, f.slot)
    requires WriteCache.Held(s.db.caches, f.slot, key) && f.account == s.db.caches[f.slot][key]
    ensures IsNewest(s.db, ancestors, key, f.slot, f.account)
  {
    forall t: Slot | VisibleSlot(ancestors, s.db.roots, t) && (key, t) in s.db.index
      ensures t <= f.slot
    {
      assert Protocol.EntryBacked(s.db, key, t);
      assert Auth.Version(View(s), ancestors, key, t);
    }
  }

  /** The answer of the write cache, if it is final. */
  lemma FinalAnswer(states: seq<System>, i: nat) returns (j: nat)
    requires Run(states) && i < |states| && Final(states[i].search.pc)
    ensures var r, f := states[i].search, states[i].search.pc.found;
            j <= i && !states[j].search.pc.Before? && IsNewest(states[j].shared.db, r.ancestors, r.key, f.slot, f.account)
  {
    SearchRuns(states);
    j := CacheSearch.AnswerWasNewest(SearchRun(states), i);
    RunKeeps(states, j);
    FoundIsNewest(states[j].shared, states[i].search.ancestors, states[i].search.key, states[i].search.pc.found);
  }

  lemma OnlyReaderMoves(s: System, s': System)
    requires Next(s, s') && s'.reader != s.reader
    ensures ReaderMoves(s, s')
  {
  }

  /** Where the retry loop ended. */
  lemma {:induction false} EndOf(states: seq<System>, i: nat) returns (k: nat)
    requires Run(states) && i < |states| && (states[i].reader.pc.Done? || states[i].reader.pc.Absent?)
    ensures k < i && states[k + 1].reader == states[i].reader && ReaderMoves(states[k], states[k + 1])
  {
    assert NextAt(states, i - 1);
    if states[i - 1].reader == states[i].reader {
      k := EndOf(states, i - 1);
    } else {
      OnlyReaderMoves(states[i - 1], states[i]);
      k := i - 1;
    }
  }

  ghost predicate SameVersion(d: Protocol.Db, d': Protocol.Db, key: Pubkey, slot: Slot) {
    && d.roots <= d'.roots && ((key, slot) in d'.versions <==> (key, slot) in d.versions)
    && ((key, slot) in d.versions ==> d'.versions[(key, slot)] == d.versions[(key, slot)])
  }

  lemma BankKeepsVersion(d: Protocol.Db, b: Protocol.BankStep, key: Pubkey, slot: Slot)
    requires Protocol.EnabledBank(d, b) && !Writes(DbStep(Protocol.Bank(b)), key, slot)
    ensures SameVersion(d, Protocol.ApplyBank(d, b), key, slot)
  {
  }

  lemma OthersKeepVersions(d: Protocol.Db, p: Protocol.Step)
    requires Protocol.Enabled(d, p) && !p.Bank?
    ensures Protocol.Apply(d, p).versions == d.versions && Protocol.Apply(d, p).roots == d.roots
  {
    match p
    case Flush(f) => FlushKeepsVersions(d, f);
    case Shrink(j) => ShrinkKeepsVersions(d, j);
    case Clean(c) =>
  }

  lemma FlushKeepsVersions(d: Protocol.Db, f: Protocol.FlushStep)
    requires Protocol.EnabledFlush(d, f)
    ensures Protocol.ApplyFlush(d, f).versions == d.versions && Protocol.ApplyFlush(d, f).roots == d.roots
  {
  }

  lemma ShrinkKeepsVersions(d: Protocol.Db, j: Protocol.ShrinkStep)
    requires Protocol.EnabledShrink(d, j)
    ensures Protocol.ApplyShrink(d, j).versions == d.versions && Protocol.ApplyShrink(d, j).roots == d.roots
  {
  }

  /** Nothing is written to the slot during the load. */
  ghost predicate Frozen(d: Protocol.Db, ancestors: set<Slot>, slot: Slot) {
    slot in d.roots || (slot in ancestors && !CacheSearch.IsTip(ancestors, slot))
  }

  lemma VersionStep(s: System, step: Step, slot: Slot)
    requires Enabled(s.shared, step) && Allowed(s, step) && Loading(s) && Frozen(s.shared.db, s.search.ancestors, slot)
    ensures SameVersion(s.shared.db, Apply(s.shared, step).db, s.search.key, slot)
  {
    if step.DbStep? {
      if step.step.Bank? {
        BankKeepsVersion(s.shared.db, step.step.bank, s.search.key, slot);
      } else {
        OthersKeepVersions(s.shared.db, step.step);
      }
    }
  }

  lemma VersionNext(s: System, s': System, slot: Slot)
    requires Next(s, s') && Loading(s) && Frozen(s.shared.db, s.search.ancestors, slot)
    ensures SameVersion(s.shared.db, s'.shared.db, s.search.key, slot)
  {
    if OthersMove(s, s') {
      var step :| Enabled(s.shared, step) && Allowed(s, step) &&
        s' == System(Apply(s.shared, step), CacheSearch.Noted(View(Apply(s.shared, step)), s.search), s.reader);
      VersionStep(s, step, slot);
    }
  }

  lemma SameVersionTrans(d: Protocol.Db, d': Protocol.Db, d'': Protocol.Db, key: Pubkey, slot: Slot)
    requires SameVersion(d, d', key, slot) && SameVersion(d', d'', key, slot)
    ensures SameVersion(d, d'', key, slot)
  {
  }

  ghost predicate LoadingAt(states: seq<System>, i: nat) { i < |states| ==> Loading(states[i]) }

  lemma VersionAfter(s: System, s': System, d: Protocol.Db, slot: Slot)
    requires Next(s, s') && Loading(s) && Frozen(d, s.search.ancestors, slot)
    requires SameVersion(d, s.shared.db, s.search.key, slot)
    ensures SameVersion(d, s'.shared.db, s.search.key, slot)
  {
    VersionNext(s, s', slot);
    SameVersionTrans(d, s.shared.db, s'.shared.db, s.search.key, slot);
  }

  lemma {:induction false} VersionKept(states: seq<System>, j: nat, k: nat, slot: Slot)
    requires Run(states) && j <= k < |states| && (forall m: nat | j <= m < k :: LoadingAt(states, m))
    requires Frozen(states[j].shared.db, states[0].search.ancestors, slot)
    ensures SameVersion(states[j].shared.db, states[k].shared.db, states[0].search.key, slot)
  {
    if j < k {
      VersionKept(states, j, k - 1, slot);
      RunKeeps(states, k - 1);
      assert NextAt(states, k - 1) && LoadingAt(states, k - 1);
      VersionAfter(states[k - 1], states[k], states[j].shared.db, slot);
    }
  }

  lemma CandidateIsNewest(d: Protocol.Db, d': Protocol.Db, r: Reader.Reader, slot: Slot, account: Account)
    requires Reader.Newest(d, r, slot) && SameVersion(d, d', r.key, slot)
    requires (r.key, slot) in d'.versions && d'.versions[(r.key, slot)] == account
    ensures IsNewest(d, r.ancestors, r.key, slot, account)
  {
    forall t: Slot | VisibleSlot(r.ancestors, d.roots, t) && (r.key, t) in d.index ensures t <= slot {
      assert Reader.Candidate(d, r, t);
    }
  }

  /** What the index named as the newest version at state `j`, and the load returned after state `k`. */
  ghost predicate Returned(states: seq<System>, j: nat, k: nat, slot: Slot)
    requires k + 1 < |states|
  {
    && j < k && states[j].reader.pc.ReadIndex? && Reader.Newest(states[j].shared.db, states[j].reader, slot)
    && (forall m | j < m <= k :: states[m].reader.pc.Probing? && states[m].reader.pc.slot == slot)
    && ReaderMoves(states[k], states[k + 1]) && states[k + 1].reader.pc.Done? && states[k + 1].reader.pc.slot == slot
  }

  lemma LoadingBetween(states: seq<System>, j: nat, k: nat, slot: Slot)
    requires Run(states) && k + 1 < |states| && Returned(states, j, k, slot)
    ensures forall m: nat | j <= m < k + 1 :: LoadingAt(states, m)
  {
    forall m: nat | j <= m < k + 1 ensures LoadingAt(states, m) {
      RunKeeps(states, m);
    }
  }

  /** Loaded from a slot that nobody writes: newest when the index was read. */
  lemma LoadedFrozen(states: seq<System>, j: nat, k: nat, slot: Slot, account: Account)
    requires Run(states) && k + 1 < |states| && Returned(states, j, k, slot)
    requires Frozen(states[j].shared.db, states[j].reader.ancestors, slot)
    requires var v := states[k + 1].shared.db.versions; (states[j].reader.key, slot) in v && v[(states[j].reader.key, slot)] == account
    ensures IsNewest(states[j].shared.db, states[j].reader.ancestors, states[j].reader.key, slot, account)
  {
    RunKeeps(states, j);
    LoadingBetween(states, j, k, slot);
    VersionKept(states, j, k + 1, slot);
    CandidateIsNewest(states[j].shared.db, states[k + 1].shared.db, states[j].reader, slot, account);
  }

  /** Loaded from the reader's own bank: newest when it was loaded. */
  lemma LoadedTip(d: Protocol.Db, r: Reader.Reader, slot: Slot)
    requires CacheSearch.IsTip(r.ancestors, slot) && InCache(d, (r.key, slot)) && Protocol.CachesSound(d)
    ensures (r.key, slot) in d.versions && IsNewest(d, r.ancestors, r.key, slot, d.versions[(r.key, slot)])
  {
  }

  lemma CachedWhenLoaded(d: Protocol.Db, r: Reader.Reader, r': Reader.Reader, slot: Slot)
    requires Reader.ReaderStep(d, r, r') && r'.pc.Done? && r.pc.Probing? && r.pc.slot == slot && r.pc.loc.Cached?
    ensures InCache(d, (r.key, slot))
  {
  }

  /** A version that can still be written is one of the reader's own bank, and it is loaded from the cache. */
  lemma CachedTip(states: seq<System>, j: nat, k: nat, slot: Slot)
    requires Run(states) && k + 1 < |states| && Returned(states, j, k, slot)
    requires !Frozen(states[j].shared.db, states[j].reader.ancestors, slot)
    ensures CacheSearch.IsTip(states[k].reader.ancestors, slot) && InCache(states[k].shared.db, (states[k].reader.key, slot))
  {
    RunKeeps(states, j);
    RunKeeps(states, k);
    assert Protocol.EntryBacked(states[j].shared.db, states[j].reader.key, slot);
    ReaderRuns(states);
    Reader.PlaceKept(ReaderRun(states), j, k, slot);
    CachedWhenLoaded(states[k].shared.db, states[k].reader, states[k + 1].reader, slot);
  }

  lemma LoadedAt(states: seq<System>, j: nat, k: nat, slot: Slot, account: Account) returns (m: nat)
    requires Run(states) && k + 1 < |states| && Returned(states, j, k, slot)
    requires var v := states[k + 1].shared.db.versions; (states[k].reader.key, slot) in v && v[(states[k].reader.key, slot)] == account
    ensures m <= k && !states[m].search.pc.Before?
    ensures IsNewest(states[m].shared.db, states[0].search.ancestors, states[0].search.key, slot, account)
  {
    RunKeeps(states, j);
    RunKeeps(states, k);
    if Frozen(states[j].shared.db, states[j].reader.ancestors, slot) {
      LoadedFrozen(states, j, k, slot, account);
      m := j;
    } else {
      CachedTip(states, j, k, slot);
      LoadedTip(states[k].shared.db, states[k].reader, slot);
      m := k;
    }
  }

  /** The account that the index led to. */
  lemma LoadedAccount(states: seq<System>, i: nat) returns (j: nat)
    requires Run(states) && i < |states| && states[i].reader.pc.Done?
    ensures var r := states[i].reader;
            && j <= i && !states[j].search.pc.Before?
            && IsNewest(states[j].shared.db, states[0].search.ancestors, states[0].search.key, r.pc.slot, r.pc.account)
  {
    var k := EndOf(states, i);
    var slot, account := states[i].reader.pc.slot, states[i].reader.pc.account;
    ReaderRuns(states);
    var run := ReaderRun(states);
    var read := Reader.LoadReturnsTheVersion(run, k);
    forall m | read < m <= k ensures states[m].reader.pc.Probing? && states[m].reader.pc.slot == slot {
      assert Reader.At(run[m].reader, slot);
      Reader.NotDoneBefore(run, m, k);
    }
    j := LoadedAt(states, read, k, slot, account);
  }

  function Result(s: System): Option<(Slot, Account)> {
    if Final(s.search.pc) then Some((s.search.pc.found.slot, s.search.pc.found.account))
    else if s.reader.pc.Done? then Some((s.reader.pc.slot, s.reader.pc.account))
    else None
  }

  /** However a load is interleaved with writes, new roots, flushes, shrinks and cleans: what it returns
      was, at some time during the load, the newest version that the reader could see, and its content. */
  lemma LoadReturnsNewest(states: seq<System>, i: nat) returns (j: nat)
    requires Run(states) && i < |states| && Result(states[i]).Some?
    ensures var r, (slot, account) := states[i].search, Result(states[i]).value;
            j <= i && !states[j].search.pc.Before? && IsNewest(states[j].shared.db, r.ancestors, r.key, slot, account)
  {
    RunKeeps(states, i);
    if Final(states[i].search.pc) {
      j := FinalAnswer(states, i);
    } else {
      j := LoadedAccount(states, i);
    }
  }

  /** A load returns nothing only if, at some time during it, the index had no version that the reader could see. */
  lemma LoadReturnsNothing(states: seq<System>, i: nat) returns (j: nat)
    requires Run(states) && i < |states| && states[i].reader.pc.Absent?
    ensures j < i && !states[j].search.pc.Before?
    ensures forall t: Slot | VisibleSlot(states[i].reader.ancestors, states[j].shared.db.roots, t) ::
              (states[i].reader.key, t) !in states[j].shared.db.index
  {
    j := EndOf(states, i);
    NothingToSee(states[j].shared.db, states[j].reader, states[j + 1].reader);
  }

  lemma NothingToSee(d: Protocol.Db, r: Reader.Reader, r': Reader.Reader)
    requires Reader.ReaderStep(d, r, r') && r'.pc.Absent?
    ensures r'.key == r.key && r'.ancestors == r.ancestors
    ensures forall t: Slot | VisibleSlot(r.ancestors, d.roots, t) :: (r.key, t) !in d.index
  {
    forall t: Slot | VisibleSlot(r.ancestors, d.roots, t) ensures (r.key, t) !in d.index {
      assert !Reader.Candidate(d, r, t);
    }
  }
}
