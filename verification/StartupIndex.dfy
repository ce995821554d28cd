/** Index generation at startup: totals are summed over every stored version, and the versions that
    turn out to be superseded are taken out again. */
module StartupIndex {
  import opened Types
  import opened Sums

  const LANES: nat := 1024
  const LANE_SIZE: nat := 0x1_0000
  const U64_MAX: nat := 0xFFFF_FFFF_FFFF_FFFF

  type U16 = x: nat | x < LANE_SIZE

  /** A lattice hash: 1024 lanes of 16 bits, mixed lane by lane with wrap-around. */
  type LtHash = h: seq<U16> | |h| == LANES witness seq(LANES, (i: nat) => 0)

  function Identity(): LtHash { seq(LANES, (i: nat) => 0) }

  function MixIn(a: LtHash, b: LtHash): LtHash {
    seq(LANES, (i: nat) requires i < LANES => (a[i] + b[i]) % LANE_SIZE)
  }

  function MixOut(a: LtHash, b: LtHash): LtHash {
    seq(LANES, (i: nat) requires i < LANES => (a[i] + LANE_SIZE - b[i]) % LANE_SIZE)
  }

  /** `rawHash` is the hash of the contents; accounts without lamports count as the identity. */
  datatype StoredAccount = StoredAccount(key: Pubkey, lamports: nat, dataLen: nat, rawHash: LtHash) {
    function Hash(): LtHash { if lamports == 0 then Identity() else rawHash }
    function CountedLen(): nat { if lamports == 0 then 0 else dataLen }
  }

  /** The accounts of a storage by offset, in file order, and the offsets marked obsolete. */
  datatype Storage = Storage(slot: Slot, accounts: seq<(nat, StoredAccount)>, obsolete: set<nat>)

  datatype Totals = Totals(capitalization: nat, dataLen: nat, hash: LtHash)

  type Versions = map<(Pubkey, Slot), StoredAccount>

  // ---- Specification: totals over a set of versions ----

  ghost function Lamports(v: Versions): map<(Pubkey, Slot), int> { map e | e in v :: v[e].lamports }

  /** Closed accounts, which have no lamports, add neither to the data length nor to the hash. */
  ghost function Lens(v: Versions): map<(Pubkey, Slot), int> { map e | e in v && v[e].lamports > 0 :: v[e].dataLen }

  ghost function Lane(v: Versions, i: nat): map<(Pubkey, Slot), int>
    requires i < LANES
  {
    map e | e in v && v[e].lamports > 0 :: v[e].rawHash[i]
  }

  ghost predicate LaneMeasures(h: LtHash, v: Versions, i: nat)
    requires i < LANES
  {
    h[i] == Sum(Lane(v, i)) % LANE_SIZE
  }

  ghost predicate HashMeasures(h: LtHash, v: Versions) { forall i: nat | i < LANES :: LaneMeasures(h, v, i) }

  /** `t` are the totals of exactly the versions in `v`. */
  ghost predicate Measures(t: Totals, v: Versions) {
    t.capitalization == Sum(Lamports(v)) && t.dataLen == Sum(Lens(v)) && HashMeasures(t.hash, v)
  }

  ghost predicate Newest(v: Versions, e: (Pubkey, Slot)) {
    e in v && forall s: Slot | (e.0, s) in v :: s <= e.1
  }

  ghost function NewestOf(v: Versions): Versions { map e | e in v && Newest(v, e) :: v[e] }
  ghost function OlderOf(v: Versions): Versions { map e | e in v && !Newest(v, e) :: v[e] }

  // ---- Single accounts and unions ----

  function AddAccount(t: Totals, a: StoredAccount): Totals {
    Totals(t.capitalization + a.lamports, t.dataLen + a.CountedLen(), MixIn(t.hash, a.Hash()))
  }

  function Combine(a: Totals, b: Totals): Totals {
    Totals(a.capitalization + b.capitalization, a.dataLen + b.dataLen, MixIn(a.hash, b.hash))
  }

  lemma EmptyMeasures()
    ensures Measures(Totals(0, 0, Identity()), map[])
  {
    assert Lamports(map[]) == map[] && Lens(map[]) == map[];
    forall i: nat | i < LANES ensures LaneMeasures(Identity(), map[], i) {
      assert Lane(map[], i) == map[];
    }
  }

  lemma LamportsJoin(v: Versions, w: Versions)
    ensures Lamports(v + w) == Lamports(v) + Lamports(w)
  {
  }

  lemma LamportsUnion(v: Versions, w: Versions)
    requires v.Keys !! w.Keys
    ensures Sum(Lamports(v + w)) == Sum(Lamports(v)) + Sum(Lamports(w))
  {
    LamportsJoin(v, w);
    SumUnion(Lamports(v), Lamports(w));
  }

  lemma LensJoin(v: Versions, w: Versions)
    requires v.Keys !! w.Keys
    ensures Lens(v + w) == Lens(v) + Lens(w)
  {
  }

  lemma LensUnion(v: Versions, w: Versions)
    requires v.Keys !! w.Keys
    ensures Sum(Lens(v + w)) == Sum(Lens(v)) + Sum(Lens(w))
  {
    LensJoin(v, w);
    SumUnion(Lens(v), Lens(w));
  }

  lemma LaneJoin(v: Versions, w: Versions, i: nat)
    requires i < LANES && v.Keys !! w.Keys
    ensures Lane(v + w, i) == Lane(v, i) + Lane(w, i)
  {
  }

  lemma LaneUnion(v: Versions, w: Versions, i: nat)
    requires i < LANES && v.Keys !! w.Keys
    ensures Sum(Lane(v + w, i)) == Sum(Lane(v, i)) + Sum(Lane(w, i))
  {
    LaneJoin(v, w, i);
    SumUnion(Lane(v, i), Lane(w, i));
  }

  lemma WrapAdds(x: int, y: int)
    ensures (x % LANE_SIZE + y % LANE_SIZE) % LANE_SIZE == (x + y) % LANE_SIZE
  {
  }

  lemma WrapTakesOut(x: int, y: int)
    ensures ((x + y) % LANE_SIZE + LANE_SIZE - y % LANE_SIZE) % LANE_SIZE == x % LANE_SIZE
  {
  }

  lemma MixInAt(h: LtHash, g: LtHash, i: nat)
    requires i < LANES
    ensures MixIn(h, g)[i] == (h[i] + g[i]) % LANE_SIZE
  {
  }

  lemma MixOutAt(h: LtHash, g: LtHash, i: nat)
    requires i < LANES
    ensures MixOut(h, g)[i] == (h[i] + LANE_SIZE - g[i]) % LANE_SIZE
  {
  }

  lemma MixInWraps(h: LtHash, g: LtHash, i: nat, x: int, y: int)
    requires i < LANES && h[i] == x % LANE_SIZE && g[i] == y % LANE_SIZE
    ensures MixIn(h, g)[i] == (x + y) % LANE_SIZE
  {
    MixInAt(h, g, i);
    WrapAdds(x, y);
  }

  lemma MixOutWraps(h: LtHash, g: LtHash, i: nat, x: int, y: int)
    requires i < LANES && h[i] == (x + y) % LANE_SIZE && g[i] == y % LANE_SIZE
    ensures MixOut(h, g)[i] == x % LANE_SIZE
  {
    MixOutAt(h, g, i);
    WrapTakesOut(x, y);
  }

  lemma MixInLane(h: LtHash, v: Versions, g: LtHash, w: Versions, i: nat)
    requires i < LANES && LaneMeasures(h, v, i) && LaneMeasures(g, w, i) && v.Keys !! w.Keys
    ensures LaneMeasures(MixIn(h, g), v + w, i)
  {
    LaneUnion(v, w, i);
    MixInWraps(h, g, i, Sum(Lane(v, i)), Sum(Lane(w, i)));
  }

  lemma MixOutLane(h: LtHash, v: Versions, g: LtHash, w: Versions, i: nat)
    requires i < LANES && LaneMeasures(h, v + w, i) && LaneMeasures(g, w, i) && v.Keys !! w.Keys
    ensures LaneMeasures(MixOut(h, g), v, i)
  {
    LaneUnion(v, w, i);
    MixOutWraps(h, g, i, Sum(Lane(v, i)), Sum(Lane(w, i)));
  }

  lemma MixInMeasures(h: LtHash, v: Versions, g: LtHash, w: Versions)
    requires HashMeasures(h, v) && HashMeasures(g, w) && v.Keys !! w.Keys
    ensures HashMeasures(MixIn(h, g), v + w)
  {
    forall i: nat | i < LANES
      ensures LaneMeasures(MixIn(h, g), v + w, i)
    {
      MixInLane(h, v, g, w, i);
    }
  }

  lemma MixOutMeasures(h: LtHash, v: Versions, g: LtHash, w: Versions)
    requires HashMeasures(h, v + w) && HashMeasures(g, w) && v.Keys !! w.Keys
    ensures HashMeasures(MixOut(h, g), v)
  {
    forall i: nat | i < LANES
      ensures LaneMeasures(MixOut(h, g), v, i)
    {
      MixOutLane(h, v, g, w, i);
    }
  }

  lemma HashIsUnique(h: LtHash, g: LtHash, v: Versions)
    requires HashMeasures(h, v) && HashMeasures(g, v)
    ensures h == g
  {
    forall i: nat | i < LANES ensures h[i] == g[i] {
      assert LaneMeasures(h, v, i) && LaneMeasures(g, v, i);
    }
  }

  ghost function Open(v: Versions): Versions { map e | e in v && v[e].lamports > 0 :: v[e] }

  /** Leaving out the closed accounts changes no total. */
  lemma ClosedAddNothing(t: Totals, v: Versions)
    ensures Measures(t, v) <==> Measures(t, Open(v))
  {
    assert Lens(Open(v)) == Lens(v);
    forall i: nat | i < LANES ensures LaneMeasures(t.hash, Open(v), i) <==> LaneMeasures(t.hash, v, i) {
      assert Lane(Open(v), i) == Lane(v, i);
    }
    SumOfOpen(v);
  }

  lemma {:induction false} SumOfOpen(v: Versions)
    ensures Sum(Lamports(Open(v))) == Sum(Lamports(v))
    decreases |v|
  {
    if e :| e in v && v[e].lamports == 0 {
      var w := v - {e};
      assert w.Keys == v.Keys - {e};
      SumOfOpen(w);
      assert Open(w) == Open(v);
      assert Lamports(w) == Lamports(v) - {e};
      SumTakesOut(Lamports(v), e);
    } else {
      assert Open(v) == v;
    }
  }

  lemma CombineMeasures(t: Totals, v: Versions, u: Totals, w: Versions)
    requires Measures(t, v) && Measures(u, w) && v.Keys !! w.Keys
    ensures Measures(Combine(t, u), v + w)
  {
    LamportsUnion(v, w);
    LensUnion(v, w);
    MixInMeasures(t.hash, v, u.hash, w);
  }

  lemma SumOfOne(e: (Pubkey, Slot), x: int)
    ensures Sum(map[e := x]) == x
  {
    SumTakesOut(map[e := x], e);
    assert map[e := x] - {e} == map[];
  }

  lemma OneLane(e: (Pubkey, Slot), a: StoredAccount, i: nat)
    requires i < LANES
    ensures LaneMeasures(a.Hash(), map[e := a], i)
  {
    if a.lamports > 0 {
      assert Lane(map[e := a], i) == map[e := a.rawHash[i]];
      SumOfOne(e, a.rawHash[i]);
    } else {
      assert Lane(map[e := a], i) == map[];
    }
  }

  lemma OneLength(e: (Pubkey, Slot), a: StoredAccount)
    ensures Sum(Lens(map[e := a])) == a.CountedLen()
  {
    if a.lamports > 0 {
      assert Lens(map[e := a]) == map[e := a.dataLen];
      SumOfOne(e, a.dataLen);
    } else {
      assert Lens(map[e := a]) == map[];
    }
  }

  lemma OneMeasures(e: (Pubkey, Slot), a: StoredAccount)
    ensures Measures(Totals(a.lamports, a.CountedLen(), a.Hash()), map[e := a])
  {
    assert Lamports(map[e := a]) == map[e := a.lamports];
    SumOfOne(e, a.lamports);
    OneLength(e, a);
    forall i: nat | i < LANES ensures LaneMeasures(a.Hash(), map[e := a], i) {
      OneLane(e, a, i);
    }
  }

  lemma JoinOne(v: Versions, e: (Pubkey, Slot), a: StoredAccount)
    requires e !in v
    ensures v + map[e := a] == v[e := a] && v.Keys !! map[e := a].Keys
  {
  }

  lemma AddMeasures(t: Totals, v: Versions, e: (Pubkey, Slot), a: StoredAccount)
    requires Measures(t, v) && e !in v
    ensures Measures(AddAccount(t, a), v[e := a])
  {
    OneMeasures(e, a);
    JoinOne(v, e, a);
    CombineMeasures(t, v, Totals(a.lamports, a.CountedLen(), a.Hash()), map[e := a]);
  }

  /** Taking out the totals of some of the versions leaves those of the rest, without underflow. */
  lemma RemoveMeasures(t: Totals, v: Versions, u: Totals, w: Versions)
    requires Measures(t, v + w) && Measures(u, w) && v.Keys !! w.Keys
    ensures u.capitalization <= t.capitalization && u.dataLen <= t.dataLen
    ensures Measures(Totals(t.capitalization - u.capitalization, t.dataLen - u.dataLen, MixOut(t.hash, u.hash)), v)
  {
    LamportsUnion(v, w);
    LensUnion(v, w);
    SumNonNegative(Lamports(v));
    SumNonNegative(Lens(v));
    MixOutMeasures(t.hash, v, u.hash, w);
  }

  // ---- Scanning the storages ----

  /** The versions among the first `n` accounts of a storage that are not marked obsolete. */
  ghost function Scanned(st: Storage, n: nat): Versions
    requires n <= |st.accounts|
  {
    if n == 0 then map[]
    else if st.accounts[n - 1].0 in st.obsolete then Scanned(st, n - 1)
    else Scanned(st, n - 1)[(st.accounts[n - 1].1.key, st.slot) := st.accounts[n - 1].1]
  }

  ghost function VersionsIn(st: Storage): Versions { Scanned(st, |st.accounts|) }

  /** A storage holds at most one version of a key. */
  ghost predicate OnePerKey(st: Storage) {
    forall i, j | 0 <= i < j < |st.accounts| && st.accounts[i].0 !in st.obsolete && st.accounts[j].0 !in st.obsolete ::
      st.accounts[i].1.key != st.accounts[j].1.key
  }

  lemma {:induction false} ScannedKeys(st: Storage, n: nat, e: (Pubkey, Slot))
    requires n <= |st.accounts| && e in Scanned(st, n)
    ensures e.1 == st.slot && exists i :: 0 <= i < n && st.accounts[i].0 !in st.obsolete && st.accounts[i].1.key == e.0
  {
    if e != (st.accounts[n - 1].1.key, st.slot) || st.accounts[n - 1].0 in st.obsolete {
      ScannedKeys(st, n - 1, e);
    }
  }

  ghost predicate NoSlot(v: Versions, slot: Slot) { forall e | e in v :: e.1 != slot }

  /** The lamports of one storage must fit into 64 bits. */
  ghost predicate Fits(st: Storage) { Sum(Lamports(VersionsIn(st))) <= U64_MAX }

  lemma LamportsAdd(v: Versions, e: (Pubkey, Slot), a: StoredAccount)
    requires e !in v
    ensures Sum(Lamports(v[e := a])) == Sum(Lamports(v)) + a.lamports
  {
    SumAdds(Lamports(v), e, a.lamports);
    assert Lamports(v[e := a]) == Lamports(v)[e := a.lamports];
  }

  lemma {:induction false} ScannedGrows(st: Storage, n: nat, m: nat)
    requires n <= m <= |st.accounts| && OnePerKey(st)
    ensures Sum(Lamports(Scanned(st, n))) <= Sum(Lamports(Scanned(st, m)))
  {
    if n < m {
      ScannedGrows(st, n, m - 1);
      var (offset, a) := st.accounts[m - 1];
      if offset !in st.obsolete {
        NewVersion(st, m - 1);
        LamportsAdd(Scanned(st, m - 1), (a.key, st.slot), a);
      }
    }
  }

  lemma NewVersion(st: Storage, n: nat)
    requires n < |st.accounts| && OnePerKey(st) && st.accounts[n].0 !in st.obsolete
    ensures (st.accounts[n].1.key, st.slot) !in Scanned(st, n)
  {
    if (st.accounts[n].1.key, st.slot) in Scanned(st, n) {
      ScannedKeys(st, n, (st.accounts[n].1.key, st.slot));
    }
  }

  /** The totals of one storage; nothing if its lamports overflow. */
  method SumStorage(st: Storage) returns (t: Option<Totals>)
    requires OnePerKey(st)
    ensures t.Some? <==> Fits(st)
    ensures t.Some? ==> Measures(t.value, VersionsIn(st))
  {
    var capitalization: nat, dataLen: nat, hash := 0, 0, Identity();
    EmptyMeasures();
    for i := 0 to |st.accounts|
      invariant Measures(Totals(capitalization, dataLen, hash), Scanned(st, i)) && capitalization <= U64_MAX
    {
      var (offset, a) := st.accounts[i];
      if offset !in st.obsolete {
        NewVersion(st, i);
        AddMeasures(Totals(capitalization, dataLen, hash), Scanned(st, i), (a.key, st.slot), a);
        if a.lamports != 0 {
          dataLen := dataLen + a.dataLen;
        }
        hash := MixIn(hash, a.Hash());
        capitalization := capitalization + a.lamports;
        if capitalization > U64_MAX {
          ScannedGrows(st, i + 1, |st.accounts|);
          return None;
        }
      }
    }
    t := Some(Totals(capitalization, dataLen, hash));
  }

  /** Adds what one storage holds to the totals of a thread. */
  method ScanStorage(st: Storage, before: Totals, ghost v: Versions) returns (t: Option<Totals>)
    requires Measures(before, v) && OnePerKey(st) && NoSlot(v, st.slot)
    ensures t.Some? <==> Fits(st)
    ensures t.Some? ==> Measures(t.value, v + VersionsIn(st))
  {
    var here := SumStorage(st);
    if here.None? {
      return None;
    }
    forall e | e in VersionsIn(st) ensures e !in v {
      ScannedKeys(st, |st.accounts|, e);
    }
    CombineMeasures(before, v, here.value, VersionsIn(st));
    t := Some(Combine(before, here.value));
  }

  /** The versions in the first `n` storages of a thread, and in the first `n` threads. */
  ghost function ThreadVersions(storages: seq<Storage>, n: nat): Versions
    requires n <= |storages|
  {
    if n == 0 then map[] else ThreadVersions(storages, n - 1) + VersionsIn(storages[n - 1])
  }

  ghost function AllVersions(threads: seq<seq<Storage>>, n: nat): Versions
    requires n <= |threads|
  {
    if n == 0 then map[] else AllVersions(threads, n - 1) + ThreadVersions(threads[n - 1], |threads[n - 1]|)
  }

  /** The storages of a thread have distinct slots and one version per key. */
  ghost predicate Distinct(storages: seq<Storage>) {
    && (forall j | 0 <= j < |storages| :: OnePerKey(storages[j]))
    && (forall j, k | 0 <= j < k < |storages| :: storages[j].slot != storages[k].slot)
  }

  /** The threads share out storages of distinct slots. */
  ghost predicate Shared(threads: seq<seq<Storage>>) {
    && (forall i | 0 <= i < |threads| :: Distinct(threads[i]))
    && (forall i, k | 0 <= i < k < |threads| :: SlotsApart(threads[i], threads[k]))
  }

  ghost predicate SlotsApart(a: seq<Storage>, b: seq<Storage>) {
    forall j, l | 0 <= j < |a| && 0 <= l < |b| :: a[j].slot != b[l].slot
  }

  lemma {:induction false} ThreadSlots(storages: seq<Storage>, n: nat, e: (Pubkey, Slot))
    requires n <= |storages| && e in ThreadVersions(storages, n)
    ensures exists j :: 0 <= j < n && storages[j].slot == e.1
  {
    if e in VersionsIn(storages[n - 1]) {
      ScannedKeys(storages[n - 1], |storages[n - 1].accounts|, e);
    } else {
      ThreadSlots(storages, n - 1, e);
    }
  }

  lemma {:induction false} AllSlots(threads: seq<seq<Storage>>, n: nat, e: (Pubkey, Slot))
    requires n <= |threads| && e in AllVersions(threads, n)
    ensures exists i, j :: 0 <= i < n && 0 <= j < |threads[i]| && threads[i][j].slot == e.1
  {
    if e in ThreadVersions(threads[n - 1], |threads[n - 1]|) {
      ThreadSlots(threads[n - 1], |threads[n - 1]|, e);
    } else {
      AllSlots(threads, n - 1, e);
    }
  }

  ghost predicate ThreadApart(threads: seq<seq<Storage>>, i: nat)
    requires i < |threads|
  {
    AllVersions(threads, i).Keys !! ThreadVersions(threads[i], |threads[i]|).Keys
  }

  lemma ThreadsDisjoint(threads: seq<seq<Storage>>, i: nat)
    requires Shared(threads) && i < |threads|
    ensures ThreadApart(threads, i) && Distinct(threads[i])
  {
    forall e | e in ThreadVersions(threads[i], |threads[i]|) ensures e !in AllVersions(threads, i) {
      ThreadSlots(threads[i], |threads[i]|, e);
      if e in AllVersions(threads, i) {
        AllSlots(threads, i, e);
      }
    }
  }

  lemma ThreadLacksSlot(storages: seq<Storage>, n: nat)
    requires Distinct(storages) && n < |storages|
    ensures NoSlot(ThreadVersions(storages, n), storages[n].slot)
  {
    forall e | e in ThreadVersions(storages, n) ensures e.1 != storages[n].slot {
      ThreadSlots(storages, n, e);
    }
  }

  // ---- What the versions are ----

  /** The storage holds this account as version `e`, and has not marked it obsolete. */
  ghost predicate Holds(st: Storage, n: nat, e: (Pubkey, Slot), a: StoredAccount)
    requires n <= |st.accounts|
  {
    exists k :: 0 <= k < n && st.accounts[k].0 !in st.obsolete && st.accounts[k].1 == a && (a.key, st.slot) == e
  }

  ghost predicate IsVersion(v: Versions, e: (Pubkey, Slot), a: StoredAccount) { e in v && v[e] == a }

  lemma {:induction false} ScannedHolds(st: Storage, n: nat, e: (Pubkey, Slot), a: StoredAccount)
    requires n <= |st.accounts| && OnePerKey(st)
    ensures IsVersion(Scanned(st, n), e, a) <==> Holds(st, n, e, a)
  {
    if n > 0 {
      ScannedHolds(st, n - 1, e, a);
      if st.accounts[n - 1].0 !in st.obsolete {
        NewVersion(st, n - 1);
        ScannedHolds(st, n - 1, (st.accounts[n - 1].1.key, st.slot), a);
      }
    }
  }

  ghost predicate ThreadHolds(storages: seq<Storage>, n: nat, e: (Pubkey, Slot), a: StoredAccount)
    requires n <= |storages|
  {
    exists j :: 0 <= j < n && Holds(storages[j], |storages[j].accounts|, e, a)
  }

  lemma {:induction false} ThreadVersionsHold(storages: seq<Storage>, n: nat, e: (Pubkey, Slot), a: StoredAccount)
    requires n <= |storages| && Distinct(storages)
    ensures IsVersion(ThreadVersions(storages, n), e, a) <==> ThreadHolds(storages, n, e, a)
  {
    if n > 0 {
      var last := storages[n - 1];
      ThreadVersionsHold(storages, n - 1, e, a);
      ThreadLacksSlot(storages, n - 1);
      ScannedHolds(last, |last.accounts|, e, a);
      if e in VersionsIn(last) {
        ScannedKeys(last, |last.accounts|, e);
      }
    }
  }

  /** Some storage of the first `n` threads holds the account as version `e`. */
  ghost predicate StoredAs(threads: seq<seq<Storage>>, n: nat, e: (Pubkey, Slot), a: StoredAccount)
    requires n <= |threads|
  {
    exists i :: 0 <= i < n && ThreadHolds(threads[i], |threads[i]|, e, a)
  }

  lemma StoredAsGrows(threads: seq<seq<Storage>>, n: nat, e: (Pubkey, Slot), a: StoredAccount)
    requires n < |threads|
    ensures StoredAs(threads, n + 1, e, a) <==> StoredAs(threads, n, e, a) || ThreadHolds(threads[n], |threads[n]|, e, a)
  {
  }

  lemma VersionOfUnion(v: Versions, w: Versions, e: (Pubkey, Slot), a: StoredAccount)
    requires v.Keys !! w.Keys
    ensures IsVersion(v + w, e, a) <==> IsVersion(v, e, a) || IsVersion(w, e, a)
  {
  }

  /** The versions of the first `n` threads are exactly what they store. */
  ghost predicate VersionsRight(threads: seq<seq<Storage>>, n: nat, e: (Pubkey, Slot), a: StoredAccount)
    requires n <= |threads|
  {
    IsVersion(AllVersions(threads, n), e, a) <==> StoredAs(threads, n, e, a)
  }

  lemma HoldNext(threads: seq<seq<Storage>>, n: nat, e: (Pubkey, Slot), a: StoredAccount)
    requires n < |threads| && Distinct(threads[n]) && ThreadApart(threads, n) && VersionsRight(threads, n, e, a)
    ensures VersionsRight(threads, n + 1, e, a)
  {
    ThreadVersionsHold(threads[n], |threads[n]|, e, a);
    VersionOfUnion(AllVersions(threads, n), ThreadVersions(threads[n], |threads[n]|), e, a);
    StoredAsGrows(threads, n, e, a);
  }

  /** The versions are exactly the accounts that are stored and not obsolete, under their key and slot. */
  lemma {:induction false} AllVersionsHold(threads: seq<seq<Storage>>, n: nat, e: (Pubkey, Slot), a: StoredAccount)
    requires n <= |threads| && Shared(threads)
    ensures VersionsRight(threads, n, e, a)
  {
    if n == 0 {
      assert !IsVersion(AllVersions(threads, 0), e, a) && !StoredAs(threads, 0, e, a);
    } else {
      var m := n - 1;
      AllVersionsHold(threads, m, e, a);
      ThreadsDisjoint(threads, m);
      HoldNext(threads, m, e, a);
    }
  }

  /** The first `n` storages of a thread, and those of the first `n` threads, fit. */
  ghost predicate ThreadFits(storages: seq<Storage>, n: nat)
    requires n <= |storages|
  {
    forall j | 0 <= j < n :: Fits(storages[j])
  }

  ghost predicate AllFit(threads: seq<seq<Storage>>, n: nat)
    requires n <= |threads|
  {
    forall i | 0 <= i < n :: ThreadFits(threads[i], |threads[i]|)
  }

  method AddStorage(storages: seq<Storage>, j: nat, accum: Totals) returns (t: Option<Totals>)
    requires Distinct(storages) && j < |storages| && Measures(accum, ThreadVersions(storages, j))
    ensures t.Some? <==> Fits(storages[j])
    ensures t.Some? ==> Measures(t.value, ThreadVersions(storages, j + 1))
  {
    ThreadLacksSlot(storages, j);
    t := ScanStorage(storages[j], accum, ThreadVersions(storages, j));
  }

  /** One thread scans the storages handed to it. */
  method ScanThread(storages: seq<Storage>) returns (t: Option<Totals>)
    requires Distinct(storages)
    ensures t.Some? <==> ThreadFits(storages, |storages|)
    ensures t.Some? ==> Measures(t.value, ThreadVersions(storages, |storages|))
  {
    EmptyMeasures();
    t := Some(Totals(0, 0, Identity()));
    for j := 0 to |storages|
      invariant t.Some? && Measures(t.value, ThreadVersions(storages, j)) && ThreadFits(storages, j)
    {
      t := AddStorage(storages, j, t.value);
      if t.None? {
        return;
      }
    }
  }

  method AddThread(threads: seq<seq<Storage>>, i: nat, accum: Totals) returns (t: Option<Totals>)
    requires Shared(threads) && i < |threads| && Measures(accum, AllVersions(threads, i))
    ensures t.Some? <==> ThreadFits(threads[i], |threads[i]|)
    ensures t.Some? ==> Measures(t.value, AllVersions(threads, i + 1))
  {
    t := ScanThread(threads[i]);
    if t.Some? {
      ThreadsDisjoint(threads, i);
      CombineMeasures(accum, AllVersions(threads, i), t.value, ThreadVersions(threads[i], |threads[i]|));
      t := Some(Combine(accum, t.value));
    }
  }

  /** All threads together, reduced to one total. */
  method ScanAll(threads: seq<seq<Storage>>) returns (t: Option<Totals>)
    requires Shared(threads)
    ensures t.Some? <==> AllFit(threads, |threads|)
    ensures t.Some? ==> Measures(t.value, AllVersions(threads, |threads|))
  {
    EmptyMeasures();
    t := Some(Totals(0, 0, Identity()));
    for i := 0 to |threads|
      invariant t.Some? && Measures(t.value, AllVersions(threads, i)) && AllFit(threads, i)
    {
      t := AddThread(threads, i, t.value);
      if t.None? {
        return;
      }
    }
  }

  // ---- Partitions ----

  ghost predicate Has(threads: seq<seq<Storage>>, n: nat, st: Storage)
    requires n <= |threads|
  {
    exists i, j :: 0 <= i < n && 0 <= j < |threads[i]| && threads[i][j] == st
  }

  /** The same storages, shared out in whatever way. */
  ghost predicate SameStorages(a: seq<seq<Storage>>, b: seq<seq<Storage>>) {
    forall st :: Has(a, |a|, st) <==> Has(b, |b|, st)
  }

  lemma StoredMoves(a: seq<seq<Storage>>, b: seq<seq<Storage>>, e: (Pubkey, Slot), account: StoredAccount)
    requires SameStorages(a, b) && StoredAs(a, |a|, e, account)
    ensures StoredAs(b, |b|, e, account)
  {
    var i :| 0 <= i < |a| && ThreadHolds(a[i], |a[i]|, e, account);
    var j :| 0 <= j < |a[i]| && Holds(a[i][j], |a[i][j].accounts|, e, account);
    assert Has(a, |a|, a[i][j]);
    var k, l :| 0 <= k < |b| && 0 <= l < |b[k]| && b[k][l] == a[i][j];
    assert ThreadHolds(b[k], |b[k]|, e, account);
  }

  lemma VersionMoves(a: seq<seq<Storage>>, b: seq<seq<Storage>>, e: (Pubkey, Slot))
    requires Shared(a) && Shared(b) && SameStorages(a, b) && e in AllVersions(a, |a|)
    ensures IsVersion(AllVersions(b, |b|), e, AllVersions(a, |a|)[e])
  {
    var account := AllVersions(a, |a|)[e];
    AllVersionsHold(a, |a|, e, account);
    StoredMoves(a, b, e, account);
    AllVersionsHold(b, |b|, e, account);
  }

  lemma AllFitMoves(a: seq<seq<Storage>>, b: seq<seq<Storage>>)
    requires SameStorages(a, b) && AllFit(a, |a|)
    ensures AllFit(b, |b|)
  {
    forall k, l | 0 <= k < |b| && 0 <= l < |b[k]|
      ensures Fits(b[k][l])
    {
      assert Has(b, |b|, b[k][l]);
      var i, j :| 0 <= i < |a| && 0 <= j < |a[i]| && a[i][j] == b[k][l];
      assert ThreadFits(a[i], |a[i]|);
    }
  }

  /** However the same storages are shared out among threads, the versions are the same, and so is
      whether the sums fit. */
  lemma PartitionsHoldTheSame(a: seq<seq<Storage>>, b: seq<seq<Storage>>)
    requires Shared(a) && Shared(b) && SameStorages(a, b)
    ensures AllVersions(a, |a|) == AllVersions(b, |b|)
    ensures AllFit(a, |a|) <==> AllFit(b, |b|)
  {
    forall e | e in AllVersions(a, |a|)
      ensures IsVersion(AllVersions(b, |b|), e, AllVersions(a, |a|)[e])
    {
      VersionMoves(a, b, e);
    }
    forall e | e in AllVersions(b, |b|)
      ensures IsVersion(AllVersions(a, |a|), e, AllVersions(b, |b|)[e])
    {
      VersionMoves(b, a, e);
    }
    if AllFit(a, |a|) {
      AllFitMoves(a, b);
    } else if AllFit(b, |b|) {
      AllFitMoves(b, a);
    }
  }

  /** What index generation returns: the totals of the newest versions, if all sums fit. */
  ghost predicate Generated(threads: seq<seq<Storage>>, t: Option<Totals>) {
    var newest := NewestOf(AllVersions(threads, |threads|));
    && (t.Some? <==> AllFit(threads, |threads|) && Sum(Lamports(newest)) <= U64_MAX)
    && (t.Some? ==> Measures(t.value, newest))
  }

  ghost predicate SameTotals(t: Totals, u: Totals) {
    t.capitalization == u.capitalization && t.dataLen == u.dataLen && t.hash == u.hash
  }

  /** So the result of index generation does not depend on how storages are shared out. */
  lemma PartitionsAgree(a: seq<seq<Storage>>, b: seq<seq<Storage>>, t: Option<Totals>, u: Option<Totals>)
    requires Shared(a) && Shared(b) && SameStorages(a, b) && Generated(a, t) && Generated(b, u)
    ensures t.Some? <==> u.Some?
    ensures t.Some? ==> SameTotals(t.value, u.value)
  {
    PartitionsHoldTheSame(a, b);
    var newest := NewestOf(AllVersions(a, |a|));
    if t.Some? {
      HashIsUnique(t.value.hash, u.value.hash, newest);
    }
  }

  // ---- Duplicates ----

  ghost function Pick(v: Versions, chosen: set<(Pubkey, Slot)>): Versions { map e | e in v && e in chosen :: v[e] }

  lemma PickAdds(t: Totals, v: Versions, chosen: set<(Pubkey, Slot)>, e: (Pubkey, Slot))
    requires Measures(t, Pick(v, chosen)) && e in v && e !in chosen
    ensures Measures(AddAccount(t, v[e]), Pick(v, chosen + {e}))
  {
    AddMeasures(t, Pick(v, chosen), e, v[e]);
    assert Pick(v, chosen + {e}) == Pick(v, chosen)[e := v[e]];
  }

  function SlotsOf(v: Versions, key: Pubkey): set<Slot> { set e | e in v && e.0 == key :: e.1 }

  /** Added to what was chosen before: the versions of the key, except the newest and those still to do. */
  ghost predicate OlderChosen(v: Versions, before: set<(Pubkey, Slot)>, chosen: set<(Pubkey, Slot)>, key: Pubkey, max: Slot, todo: set<Slot>) {
    forall e :: e in chosen <==> e in before || (e in v && e.0 == key && e.1 != max && e.1 !in todo)
  }

  lemma NothingChosenYet(v: Versions, before: set<(Pubkey, Slot)>, key: Pubkey, slots: set<Slot>, max: Slot)
    requires forall s: Slot | (key, s) in v :: s in slots
    ensures OlderChosen(v, before, before, key, max, slots - {max})
  {
    forall e | e in v && e.0 == key ensures e.1 in slots {
      assert e == (key, e.1);
    }
  }

  lemma OneMoreChosen(v: Versions, before: set<(Pubkey, Slot)>, chosen: set<(Pubkey, Slot)>, key: Pubkey, max: Slot, todo: set<Slot>, slot: Slot)
    requires OlderChosen(v, before, chosen, key, max, todo) && (key, slot) in v && slot in todo && slot != max
    ensures OlderChosen(v, before, chosen + {(key, slot)}, key, max, todo - {slot})
  {
  }

  lemma OnlyNewestLeft(v: Versions, before: set<(Pubkey, Slot)>, chosen: set<(Pubkey, Slot)>, key: Pubkey, max: Slot)
    requires OlderChosen(v, before, chosen, key, max, {}) && (key, max) in v && forall s: Slot | (key, s) in v :: s <= max
    ensures forall e :: e in chosen <==> e in before || (e in v && e.0 == key && !Newest(v, e))
  {
    forall e | e in v && e.0 == key ensures Newest(v, e) <==> e.1 == max {
      assert (e.0, max) in v && e == (key, e.1);
    }
  }

  lemma SlotsOfIs(v: Versions, key: Pubkey)
    ensures forall s: Slot :: s in SlotsOf(v, key) <==> (key, s) in v
  {
    forall s: Slot | (key, s) in v ensures s in SlotsOf(v, key) {
      assert (key, s).0 == key && (key, s).1 == s;
    }
  }

  /** The older versions of one key, given all its slots. */
  method VisitKey(v: Versions, key: Pubkey, before: Totals, ghost chosen: set<(Pubkey, Slot)>)
    returns (t: Totals, ghost chosen': set<(Pubkey, Slot)>)
    requires Measures(before, Pick(v, chosen)) && forall e | e in chosen :: e.0 != key
    ensures Measures(t, Pick(v, chosen'))
    ensures forall e :: e in chosen' <==> e in chosen || (e in v && e.0 == key && !Newest(v, e))
  {
    t, chosen' := before, chosen;
    var slots := SlotsOf(v, key);
    SlotsOfIs(v, key);
    if slots == {} {
      return;
    }
    var max := Largest(slots);
    var todo := slots - {max};
    NothingChosenYet(v, chosen, key, slots, max);
    while todo != {}
      invariant todo <= slots - {max} && Measures(t, Pick(v, chosen')) && OlderChosen(v, chosen, chosen', key, max, todo)
    {
      var slot :| slot in todo;
      PickAdds(t, v, chosen', (key, slot));
      OneMoreChosen(v, chosen, chosen', key, max, todo, slot);
      t := AddAccount(t, v[(key, slot)]);
      chosen' := chosen' + {(key, slot)};
      todo := todo - {slot};
    }
    OnlyNewestLeft(v, chosen, chosen', key, max);
  }

  /** Sums the older versions of the keys found in more than one slot. */
  method VisitDuplicates(v: Versions, duplicates: set<Pubkey>) returns (t: Totals)
    requires forall e | e in OlderOf(v) :: e.0 in duplicates
    ensures Measures(t, OlderOf(v))
  {
    EmptyMeasures();
    t := Totals(0, 0, Identity());
    ghost var chosen: set<(Pubkey, Slot)> := {};
    assert Pick(v, {}) == map[];
    var todo := duplicates;
    while todo != {}
      invariant todo <= duplicates && Measures(t, Pick(v, chosen))
      invariant forall e :: e in chosen <==> e in v && e.0 in duplicates && e.0 !in todo && !Newest(v, e)
    {
      var key :| key in todo;
      t, chosen := VisitKey(v, key, t, chosen);
      todo := todo - {key};
    }
    assert Pick(v, chosen) == OlderOf(v);
  }

  lemma RemoveOlder(all: Totals, older: Totals, v: Versions)
    requires Measures(all, v) && Measures(older, OlderOf(v))
    ensures older.capitalization <= all.capitalization && older.dataLen <= all.dataLen
    ensures Measures(Totals(all.capitalization - older.capitalization, all.dataLen - older.dataLen, MixOut(all.hash, older.hash)), NewestOf(v))
  {
    assert NewestOf(v) + OlderOf(v) == v;
    RemoveMeasures(all, NewestOf(v), older, OlderOf(v));
  }

  /** Startup totals equal the sums over the newest version of each key, for every way to share out
      the storages among threads and every order of visiting keys. Nothing underflows, and the only
      panics are lamports of one storage or of all newest versions that do not fit into 64 bits. */
  method GenerateIndex(threads: seq<seq<Storage>>, duplicates: set<Pubkey>) returns (t: Option<Totals>)
    requires Shared(threads)
    requires forall e | e in OlderOf(AllVersions(threads, |threads|)) :: e.0 in duplicates
    ensures Generated(threads, t)
  {
    var scanned := ScanAll(threads);
    if scanned.None? {
      return None;
    }
    var all := scanned.value;
    var index := BuildIndex(threads);
    var older := VisitDuplicates(index, duplicates);
    RemoveOlder(all, older, index);
    var capitalization := all.capitalization - older.capitalization;
    if capitalization > U64_MAX {
      return None;
    }
    t := Some(Totals(capitalization, all.dataLen - older.dataLen, MixOut(all.hash, older.hash)));
  }

  method IndexStorage(st: Storage, before: Versions) returns (v: Versions)
    ensures v == before + Scanned(st, |st.accounts|)
  {
    v := before;
    for k := 0 to |st.accounts|
      invariant v == before + Scanned(st, k)
    {
      if st.accounts[k].0 !in st.obsolete {
        v := v[(st.accounts[k].1.key, st.slot) := st.accounts[k].1];
      }
    }
  }

  lemma UnionAssociates(a: Versions, b: Versions, c: Versions)
    ensures (a + b) + c == a + (b + c)
  {
  }

  method IndexThread(storages: seq<Storage>, before: Versions) returns (v: Versions)
    ensures v == before + ThreadVersions(storages, |storages|)
  {
    v := before;
    for j := 0 to |storages|
      invariant v == before + ThreadVersions(storages, j)
    {
      UnionAssociates(before, ThreadVersions(storages, j), VersionsIn(storages[j]));
      v := IndexStorage(storages[j], v);
    }
  }

  /** Collected storage by storage, the index has an entry for a key and a slot if and only if a
      storage of that slot holds an account of the key that is not obsolete, and it is that account. */
  method BuildIndex(threads: seq<seq<Storage>>) returns (v: Versions)
    requires Shared(threads)
    ensures forall e: (Pubkey, Slot), a :: IsVersion(v, e, a) <==> StoredAs(threads, |threads|, e, a)
    ensures v == AllVersions(threads, |threads|)
  {
    v := map[];
    for i := 0 to |threads|
      invariant v == AllVersions(threads, i)
    {
      v := IndexThread(threads[i], v);
    }
    forall e: (Pubkey, Slot), a
      ensures IsVersion(v, e, a) <==> StoredAs(threads, |threads|, e, a)
    {
      AllVersionsHold(threads, |threads|, e, a);
    }
  }

  // ---- Walking the index ----

  /** Capitalization and hash of the newest versions, if the sum fits. */
  ghost predicate Walked(v: Versions, capitalization: Option<nat>, hash: LtHash) {
    var sum := Sum(Lamports(NewestOf(v)));
    && (capitalization.Some? <==> sum <= U64_MAX) && (capitalization.Some? ==> capitalization.value == sum)
    && HashMeasures(hash, NewestOf(v))
  }

  /** Capitalization and hash computed key by key from the index; no capitalization if a checked sum
      overflows, which happens if and only if the whole sum does. */
  method TotalsFromIndex(v: Versions) returns (capitalization: Option<nat>, hash: LtHash)
    ensures Walked(v, capitalization, hash)
  {
    var overflow := false;
    EmptyMeasures();
    var t := Totals(0, 0, Identity());
    ghost var chosen: set<(Pubkey, Slot)> := {};
    var todo := set e | e in v :: e.0;
    NothingChosen(v);
    while todo != {}
      invariant (forall key | key in todo :: exists e :: e in v && e.0 == key) && Measures(t, Pick(v, chosen))
      invariant ChosenRight(v, chosen, todo)
      invariant overflow <==> t.capitalization > U64_MAX
    {
      var key :| key in todo;
      t, chosen := AddNewest(v, key, t, chosen, todo);
      overflow := overflow || t.capitalization > U64_MAX;
      todo := todo - {key};
    }
    AllChosen(v, chosen);
    capitalization := if overflow then None else Some(t.capitalization);
    hash := t.hash;
  }

  /** The newest versions of all keys but those still to be visited. */
  ghost predicate ChosenRight(v: Versions, chosen: set<(Pubkey, Slot)>, todo: set<Pubkey>) {
    forall e :: e in chosen <==> e.0 !in todo && Newest(v, e)
  }

  lemma NothingChosen(v: Versions)
    ensures ChosenRight(v, {}, set e | e in v :: e.0) && Pick(v, {}) == map[]
  {
  }

  lemma AllChosen(v: Versions, chosen: set<(Pubkey, Slot)>)
    requires ChosenRight(v, chosen, {})
    ensures Pick(v, chosen) == NewestOf(v)
  {
  }

  /** The newest version of a key. */
  method AddNewest(v: Versions, key: Pubkey, before: Totals, ghost chosen: set<(Pubkey, Slot)>, ghost todo: set<Pubkey>)
    returns (t: Totals, ghost chosen': set<(Pubkey, Slot)>)
    requires Measures(before, Pick(v, chosen)) && ChosenRight(v, chosen, todo) && key in todo && exists e :: e in v && e.0 == key
    ensures Measures(t, Pick(v, chosen')) && t.capitalization >= before.capitalization
    ensures ChosenRight(v, chosen', todo - {key})
  {
    var slots := SlotsOf(v, key);
    SlotsOfIs(v, key);
    var max := Largest(slots);
    assert forall e: (Pubkey, Slot) | e.0 == key :: Newest(v, e) <==> e == (key, max);
    PickAdds(before, v, chosen, (key, max));
    t := AddAccount(before, v[(key, max)]);
    chosen' := chosen + {(key, max)};
  }

  /** Index generation and a walk of the index agree: on the totals, and on whether they fit once each
      storage does. */
  lemma MeasuresAgree(threads: seq<seq<Storage>>, t: Option<Totals>, capitalization: Option<nat>, hash: LtHash)
    requires Generated(threads, t) && Walked(AllVersions(threads, |threads|), capitalization, hash)
    ensures t.Some? ==> capitalization == Some(t.value.capitalization) && hash == t.value.hash
    ensures AllFit(threads, |threads|) ==> (t.Some? <==> capitalization.Some?)
  {
    var newest := NewestOf(AllVersions(threads, |threads|));
    SumNonNegative(Lamports(newest));
    if t.Some? {
      HashIsUnique(t.value.hash, hash, newest);
    }
  }
}
