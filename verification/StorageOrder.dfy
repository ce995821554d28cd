/** The order in which storages are archived, and the threads that share them out. */
module StorageOrder {
  import opened Seqs
  import opened Types

  // ---- Alternating picks from the two ends of a range ----

  /** The nth of `len` picks: from each cycle, `startRate` picks from the start, then `endRate` from the end. */
  function Select(len: nat, nth: nat, startRate: nat, endRate: nat): int
    requires startRate + endRate > 0
  {
    var cycle := startRate + endRate;
    Pick(len, nth / cycle, nth % cycle, startRate, endRate)
  }

  function Pick(len: nat, cycleNum: nat, cycleIndex: nat, startRate: nat, endRate: nat): int {
    if cycleIndex < startRate then cycleNum * startRate + cycleIndex
    else len - (cycleNum * endRate + cycleIndex - startRate) - 1
  }

  ghost predicate FromStart(nth: nat, startRate: nat, endRate: nat)
    requires startRate + endRate > 0
  {
    nth % (startRate + endRate) < startRate
  }

  /** How many of the first `n` picks are from the start. */
  ghost function StartPicks(n: nat, startRate: nat, endRate: nat): (k: nat)
    requires startRate + endRate > 0
    ensures k <= n
  {
    if n == 0 then 0
    else StartPicks(n - 1, startRate, endRate) + if FromStart(n - 1, startRate, endRate) then 1 else 0
  }

  lemma QuotientOf(n: nat, q: nat, r: nat, c: nat)
    requires r < c && n == q * c + r
    ensures n / c == q && n % c == r
  {
    var d := n / c - q;
    assert d * c == r - n % c;
    assert d == 0 by {
      assert d > 0 ==> d * c >= c;
      assert d < 0 ==> d * c + c <= 0;
    }
  }

  /** The picks from the start in `q` whole cycles and the first `r` picks of another. */
  ghost function PicksIn(q: nat, r: nat, startRate: nat): nat { q * startRate + if r < startRate then r else startRate }

  lemma {:induction false} StartPicksByCycle(n: nat, q: nat, r: nat, startRate: nat, endRate: nat)
    requires r < startRate + endRate && n == q * (startRate + endRate) + r
    ensures StartPicks(n, startRate, endRate) == PicksIn(q, r, startRate)
    decreases n
  {
    var c := startRate + endRate;
    if r > 0 {
      StartPicksByCycle(n - 1, q, r - 1, startRate, endRate);
      QuotientOf(n - 1, q, r - 1, c);
    } else if q > 0 {
      LastOfCycle(n, q, c);
      StartPicksByCycle(n - 1, q - 1, c - 1, startRate, endRate);
      QuotientOf(n - 1, q - 1, c - 1, c);
      LastOfCycle(q * startRate, q, startRate);
    }
  }

  lemma LastOfCycle(n: nat, q: nat, c: nat)
    requires q > 0 && n == q * c
    ensures n == (q - 1) * c + c
  {
  }

  lemma PickTakesNext(len: nat, nth: nat, q: nat, r: nat, startRate: nat, endRate: nat, picks: nat)
    requires nth == q * (startRate + endRate) + r && picks == PicksIn(q, r, startRate)
    ensures Pick(len, q, r, startRate, endRate) == if r < startRate then picks else len - 1 - (nth - picks)
  {
    assert q * (startRate + endRate) == q * startRate + q * endRate;
  }

  lemma SelectIsPick(len: nat, nth: nat, startRate: nat, endRate: nat, picks: nat)
    requires startRate + endRate > 0
    requires var c := startRate + endRate; picks == PicksIn(nth / c, nth % c, startRate)
    ensures Select(len, nth, startRate, endRate) == if FromStart(nth, startRate, endRate) then picks else len - 1 - (nth - picks)
  {
    var c := startRate + endRate;
    var q, r := nth / c, nth % c;
    assert nth == q * c + r;
    PickTakesNext(len, nth, q, r, startRate, endRate, picks);
  }

  /** Each pick takes the next value that its end of the range has left. */
  lemma SelectTakesNext(len: nat, nth: nat, startRate: nat, endRate: nat)
    requires startRate + endRate > 0
    ensures Select(len, nth, startRate, endRate) ==
              if FromStart(nth, startRate, endRate) then StartPicks(nth, startRate, endRate)
              else len - 1 - (nth - StartPicks(nth, startRate, endRate))
  {
    var c := startRate + endRate;
    assert nth == nth / c * c + nth % c;
    StartPicksByCycle(nth, nth / c, nth % c, startRate, endRate);
    SelectIsPick(len, nth, startRate, endRate, StartPicks(nth, startRate, endRate));
  }

  lemma {:induction false} PicksGrow(a: nat, b: nat, startRate: nat, endRate: nat)
    requires startRate + endRate > 0 && a <= b
    ensures StartPicks(a, startRate, endRate) <= StartPicks(b, startRate, endRate)
    ensures StartPicks(b, startRate, endRate) - StartPicks(a, startRate, endRate) <= b - a
    decreases b
  {
    if a < b {
      PicksGrow(a, b - 1, startRate, endRate);
    }
  }

  /** The picks from the start are the lowest values, in ascending order, and those from the end the others. */
  lemma SelectSplits(len: nat, nth: nat, startRate: nat, endRate: nat)
    requires startRate + endRate > 0 && nth < len
    ensures var k := Select(len, nth, startRate, endRate);
            && 0 <= k < len
            && (k < StartPicks(len, startRate, endRate) <==> FromStart(nth, startRate, endRate))
  {
    SelectTakesNext(len, nth, startRate, endRate);
    PicksGrow(nth + 1, len, startRate, endRate);
  }

  /** No value is picked twice. */
  lemma SelectInjective(len: nat, a: nat, b: nat, startRate: nat, endRate: nat)
    requires startRate + endRate > 0 && a < b < len
    ensures Select(len, a, startRate, endRate) != Select(len, b, startRate, endRate)
  {
    SelectSplits(len, a, startRate, endRate);
    SelectSplits(len, b, startRate, endRate);
    SelectTakesNext(len, a, startRate, endRate);
    SelectTakesNext(len, b, startRate, endRate);
    PicksGrow(a + 1, b, startRate, endRate);
  }

  // ---- The orderer ----

  ghost predicate IsPermutation(s: seq<nat>, n: nat) {
    |s| == n && Distinct(s) && forall i | 0 <= i < n :: s[i] < n
  }

  ghost predicate ByCapacity(s: seq<nat>, capacities: seq<nat>) {
    && (forall i | 0 <= i < |s| :: s[i] < |capacities|)
    && forall i, j | 0 <= i < j < |s| :: capacities[s[i]] <= capacities[s[j]]
  }

  method PlaceByCapacity(s: seq<nat>, x: nat, capacities: seq<nat>) returns (k: nat)
    requires ByCapacity(s, capacities) && x < |capacities|
    ensures k <= |s| && ByCapacity(s[..k] + [x] + s[k..], capacities)
  {
    k := 0;
    while k < |s| && capacities[s[k]] <= capacities[x]
      invariant k <= |s| && forall j | 0 <= j < k :: capacities[s[j]] <= capacities[x]
    {
      k := k + 1;
    }
  }

  method SortedIndices(capacities: seq<nat>) returns (s: seq<nat>)
    ensures IsPermutation(s, |capacities|) && ByCapacity(s, capacities)
  {
    s := [];
    for i := 0 to |capacities|
      invariant IsPermutation(s, i) && ByCapacity(s, capacities)
    {
      var k := PlaceByCapacity(s, i, capacities);
      s := s[..k] + [i] + s[k..];
    }
  }

  lemma {:induction false} AscendingPermutationIsIdentity(s: seq<nat>, n: nat, i: nat)
    requires IsPermutation(s, n) && (forall a, b | 0 <= a < b < n :: s[a] < s[b]) && i < n
    ensures s[i] == i
  {
    AtLeastPosition(s, i);
    AtMostPosition(s, n, i);
  }

  lemma {:induction false} AtLeastPosition(s: seq<nat>, i: nat)
    requires i < |s| && forall a, b | 0 <= a < b < |s| :: s[a] < s[b]
    ensures s[i] >= i
  {
    if i > 0 {
      AtLeastPosition(s, i - 1);
    }
  }

  lemma {:induction false} AtMostPosition(s: seq<nat>, n: nat, i: nat)
    requires IsPermutation(s, n) && i < n && forall a, b | 0 <= a < b < n :: s[a] < s[b]
    ensures s[i] <= i
    decreases n - i
  {
    if i < n - 1 {
      AtMostPosition(s, n, i + 1);
    }
  }

  ghost predicate StrictlyAscending(s: seq<nat>) { forall i, j | 0 <= i < j < |s| :: s[i] < s[j] }

  // ---- The documented order ----

  ghost function Smaller(capacities: seq<nat>, k: nat): set<nat>
    requires k < |capacities|
  {
    set j: nat | j < |capacities| && capacities[j] < capacities[k]
  }

  ghost function NotLarger(capacities: seq<nat>, k: nat): set<nat>
    requires k < |capacities|
  {
    set j: nat | j < |capacities| && capacities[j] <= capacities[k]
  }

  /** Counting from the smallest, storage `k` can be number `r`; storages of equal capacity share their numbers. */
  ghost predicate HasRank(capacities: seq<nat>, k: nat, r: nat)
    requires k < |capacities|
  {
    |Smaller(capacities, k)| <= r < |NotLarger(capacities, k)|
  }

  /** Small and large storages in turn: each position holds a storage of the rank that is picked for it. */
  ghost predicate Documented(indices: seq<nat>, capacities: seq<nat>, small: nat, large: nat)
    requires small + large > 0
  {
    && IsPermutation(indices, |capacities|)
    && forall i | 0 <= i < |indices| ::
         0 <= Select(|indices|, i, small, large) && HasRank(capacities, indices[i], Select(|indices|, i, small, large))
  }

  ghost predicate Sorts(sorted: seq<nat>, capacities: seq<nat>) {
    IsPermutation(sorted, |capacities|) && ByCapacity(sorted, capacities)
  }

  lemma PrefixSize(s: seq<nat>, r: nat)
    requires Distinct(s) && r <= |s|
    ensures |Elements(s[..r])| == r
  {
    DistinctSize(s[..r]);
  }

  lemma SubsetSize(a: set<nat>, b: set<nat>)
    requires a <= b
    ensures |a| <= |b|
  {
    assert b == a + (b - a);
  }

  /** What sorts below position `r` is among the first `r`. */
  lemma BelowIsPrefix(sorted: seq<nat>, capacities: seq<nat>, r: nat, below: set<nat>)
    requires Sorts(sorted, capacities) && r < |capacities|
    requires forall j | j in below :: j < |capacities| && capacities[j] < capacities[sorted[r]]
    ensures |below| <= r
  {
    forall j | j in below
      ensures j in Elements(sorted[..r])
    {
      PermutationReaches(sorted, |capacities|, j);
      var i :| 0 <= i < |sorted| && sorted[i] == j;
      assert i < r;
      assert sorted[..r][i] == j;
    }
    PrefixSize(sorted, r);
    SubsetSize(below, Elements(sorted[..r]));
  }

  lemma PrefixIsBelow(sorted: seq<nat>, capacities: seq<nat>, r: nat, below: set<nat>)
    requires Sorts(sorted, capacities) && r < |capacities|
    requires forall j: nat | j < |capacities| && capacities[j] <= capacities[sorted[r]] :: j in below
    ensures r < |below|
  {
    forall j | j in Elements(sorted[..r + 1])
      ensures j in below
    {
      var i :| 0 <= i < |sorted[..r + 1]| && sorted[..r + 1][i] == j;
      assert sorted[i] == j && capacities[sorted[i]] <= capacities[sorted[r]];
    }
    PrefixSize(sorted, r + 1);
    SubsetSize(Elements(sorted[..r + 1]), below);
  }

  /** A storage has rank `r` if and only if its capacity is that of number `r` in any sorted order. */
  lemma RankBySorting(sorted: seq<nat>, capacities: seq<nat>, k: nat, r: nat)
    requires Sorts(sorted, capacities) && k < |capacities| && r < |capacities|
    ensures HasRank(capacities, k, r) <==> capacities[k] == capacities[sorted[r]]
  {
    if capacities[k] <= capacities[sorted[r]] {
      BelowIsPrefix(sorted, capacities, r, Smaller(capacities, k));
    }
    if capacities[k] < capacities[sorted[r]] {
      BelowIsPrefix(sorted, capacities, r, NotLarger(capacities, k));
    }
    if capacities[k] == capacities[sorted[r]] {
      PrefixIsBelow(sorted, capacities, r, NotLarger(capacities, k));
    }
    if capacities[k] > capacities[sorted[r]] {
      PrefixIsBelow(sorted, capacities, r, Smaller(capacities, k));
    }
  }

  /** The order that the source computes from a sorted order of the input. */
  ghost predicate Selected(indices: seq<nat>, sorted: seq<nat>, small: nat, large: nat)
    requires small + large > 0
  {
    |indices| == |sorted| && forall i | 0 <= i < |indices| :: indices[i] == Select(|indices|, sorted[i], small, large)
  }

  /** Picking by rank and ranking the pick lead to storages of the same capacity. */
  ghost predicate PicksByRank(sorted: seq<nat>, capacities: seq<nat>, small: nat, large: nat)
    requires small + large > 0 && IsPermutation(sorted, |capacities|)
  {
    forall i: nat | i < |sorted| :: PicksRank(sorted, capacities, small, large, i)
  }

  ghost predicate PicksRank(sorted: seq<nat>, capacities: seq<nat>, small: nat, large: nat, i: nat)
    requires small + large > 0 && IsPermutation(sorted, |capacities|) && i < |sorted|
  {
    var n := |capacities|;
    && 0 <= Select(n, sorted[i], small, large) < n && 0 <= Select(n, i, small, large) < n
    && capacities[Select(n, sorted[i], small, large)] == capacities[sorted[Select(n, i, small, large)]]
  }

  /** With any capacities, equal ones included, the order is as documented if and only if the
      sorted order that was used commutes with the picks, up to equal capacities. */
  lemma DocumentedIffPicksByRank(indices: seq<nat>, sorted: seq<nat>, capacities: seq<nat>, small: nat, large: nat)
    requires small + large > 0 && Sorts(sorted, capacities) && Selected(indices, sorted, small, large)
    requires IsPermutation(indices, |capacities|)
    ensures Documented(indices, capacities, small, large) <==> PicksByRank(sorted, capacities, small, large)
  {
    var n := |capacities|;
    forall i: nat | i < n
      ensures 0 <= Select(n, i, small, large)
      ensures HasRank(capacities, indices[i], Select(n, i, small, large)) <==> PicksRank(sorted, capacities, small, large, i)
    {
      SelectSplits(n, sorted[i], small, large);
      SelectSplits(n, i, small, large);
      RankBySorting(sorted, capacities, indices[i], Select(n, i, small, large));
    }
  }

  /** The number of smaller storages. */
  ghost function Rank(capacities: seq<nat>, k: nat): nat
    requires k < |capacities|
  {
    |Smaller(capacities, k)|
  }

  /** A condition on the input alone: the rank of the pick for a position is the pick for the rank of
      the storage at that position. */
  ghost predicate Commutes(capacities: seq<nat>, small: nat, large: nat)
    requires small + large > 0
  {
    forall k: nat | k < |capacities| :: CommutesAt(capacities, small, large, k)
  }

  ghost predicate CommutesAt(capacities: seq<nat>, small: nat, large: nat, k: nat)
    requires small + large > 0 && k < |capacities|
  {
    var n := |capacities|;
    && 0 <= Select(n, k, small, large) < n
    && Rank(capacities, Select(n, k, small, large)) == Select(n, Rank(capacities, k), small, large)
  }

  lemma RankOfSorted(sorted: seq<nat>, capacities: seq<nat>, i: nat)
    requires Sorts(sorted, capacities) && Distinct(capacities) && i < |sorted|
    ensures Rank(capacities, sorted[i]) == i
  {
    RankBySorting(sorted, capacities, sorted[i], i);
    assert NotLarger(capacities, sorted[i]) == Smaller(capacities, sorted[i]) + {sorted[i]};
  }

  /** Where no two capacities are equal: as documented if and only if the input commutes with the picks. */
  lemma DocumentedIffCommutes(indices: seq<nat>, sorted: seq<nat>, capacities: seq<nat>, small: nat, large: nat)
    requires small + large > 0 && Sorts(sorted, capacities) && Selected(indices, sorted, small, large)
    requires IsPermutation(indices, |capacities|) && Distinct(capacities)
    ensures Documented(indices, capacities, small, large) <==> Commutes(capacities, small, large)
  {
    DocumentedIffPicksByRank(indices, sorted, capacities, small, large);
    forall i: nat | i < |sorted|
      ensures PicksRank(sorted, capacities, small, large, i) <==> CommutesAt(capacities, small, large, sorted[i])
    {
      PicksIffCommutes(sorted, capacities, small, large, i);
    }
    if PicksByRank(sorted, capacities, small, large) {
      forall k: nat | k < |capacities|
        ensures CommutesAt(capacities, small, large, k)
      {
        PermutationReaches(sorted, |capacities|, k);
        var i: nat :| i < |sorted| && sorted[i] == k;
        assert PicksRank(sorted, capacities, small, large, i);
      }
    }
  }

  lemma PicksIffCommutes(sorted: seq<nat>, capacities: seq<nat>, small: nat, large: nat, i: nat)
    requires small + large > 0 && Sorts(sorted, capacities) && Distinct(capacities) && i < |sorted|
    ensures PicksRank(sorted, capacities, small, large, i) <==> CommutesAt(capacities, small, large, sorted[i])
  {
    var n := |capacities|;
    SelectSplits(n, sorted[i], small, large);
    SelectSplits(n, i, small, large);
    RankOfSorted(sorted, capacities, i);
    RankIsPosition(sorted, capacities, Select(n, sorted[i], small, large), Select(n, i, small, large));
  }

  lemma RankIsPosition(sorted: seq<nat>, capacities: seq<nat>, k: nat, r: nat)
    requires Sorts(sorted, capacities) && Distinct(capacities) && k < |capacities| && r < |capacities|
    ensures capacities[k] == capacities[sorted[r]] <==> Rank(capacities, k) == r
  {
    PermutationReaches(sorted, |capacities|, k);
    var i :| 0 <= i < |sorted| && sorted[i] == k;
    RankOfSorted(sorted, capacities, i);
    RankOfSorted(sorted, capacities, r);
  }

  /** Storages in strictly ascending order of capacity come out as documented. */
  lemma DocumentedWhenAscending(indices: seq<nat>, sorted: seq<nat>, capacities: seq<nat>, small: nat, large: nat)
    requires small + large > 0 && Sorts(sorted, capacities) && Selected(indices, sorted, small, large)
    requires IsPermutation(indices, |capacities|) && StrictlyAscending(capacities)
    ensures Documented(indices, capacities, small, large)
  {
    var n := |capacities|;
    forall a, b | 0 <= a < b < n
      ensures sorted[a] < sorted[b]
    {
      assert capacities[sorted[a]] <= capacities[sorted[b]];
    }
    forall i | 0 <= i < n
      ensures 0 <= Select(n, i, small, large) < n && sorted[i] == i
    {
      AscendingPermutationIsIdentity(sorted, n, i);
      SelectSplits(n, i, small, large);
    }
    DocumentedIffPicksByRank(indices, sorted, capacities, small, large);
  }

  /** Without picks from the end, every input comes out as documented: in ascending order. */
  lemma DocumentedWithoutLarge(indices: seq<nat>, sorted: seq<nat>, capacities: seq<nat>, small: nat)
    requires small > 0 && Sorts(sorted, capacities) && Selected(indices, sorted, small, 0)
    requires IsPermutation(indices, |capacities|)
    ensures Documented(indices, capacities, small, 0)
  {
    forall i: nat
      ensures Select(|capacities|, i, small, 0) == i
    {
      assert i / small * small + i % small == i;
    }
    DocumentedIffPicksByRank(indices, sorted, capacities, small, 0);
  }

  /** Every storage occurs once in the order; for distinct capacities it is the documented order if
      and only if the input commutes with the picks. */
  method WithSmallToLargeRatio(capacities: seq<nat>, small: nat, large: nat) returns (indices: seq<nat>, ghost sorted: seq<nat>)
    requires small + large > 0
    ensures IsPermutation(indices, |capacities|)
    ensures Sorts(sorted, capacities) && Selected(indices, sorted, small, large)
    ensures Documented(indices, capacities, small, large) <==> PicksByRank(sorted, capacities, small, large)
    ensures Distinct(capacities) ==> (Documented(indices, capacities, small, large) <==> Commutes(capacities, small, large))
    ensures StrictlyAscending(capacities) || large == 0 ==> Documented(indices, capacities, small, large)
  {
    var n := |capacities|;
    var byCapacity := SortedIndices(capacities);
    sorted := byCapacity;
    indices := [];
    for i := 0 to n
      invariant |indices| == i
      invariant forall j | 0 <= j < i :: indices[j] == Select(n, sorted[j], small, large) < n
    {
      SelectSplits(n, sorted[i], small, large);
      indices := indices + [Select(n, byCapacity[i], small, large)];
    }
    forall i, j | 0 <= i < j < n
      ensures indices[i] != indices[j]
    {
      var a, b := sorted[i], sorted[j];
      SelectInjective(n, if a < b then a else b, if a < b then b else a, small, large);
    }
    WhenDocumented(indices, sorted, capacities, small, large);
  }

  lemma WhenDocumented(indices: seq<nat>, sorted: seq<nat>, capacities: seq<nat>, small: nat, large: nat)
    requires small + large > 0 && Sorts(sorted, capacities) && Selected(indices, sorted, small, large)
    requires IsPermutation(indices, |capacities|)
    ensures Documented(indices, capacities, small, large) <==> PicksByRank(sorted, capacities, small, large)
    ensures Distinct(capacities) ==> (Documented(indices, capacities, small, large) <==> Commutes(capacities, small, large))
    ensures StrictlyAscending(capacities) || large == 0 ==> Documented(indices, capacities, small, large)
  {
    DocumentedIffPicksByRank(indices, sorted, capacities, small, large);
    if Distinct(capacities) {
      DocumentedIffCommutes(indices, sorted, capacities, small, large);
    }
    if StrictlyAscending(capacities) {
      DocumentedWhenAscending(indices, sorted, capacities, small, large);
    } else if large == 0 {
      DocumentedWithoutLarge(indices, sorted, capacities, small);
    }
  }

  /** The picks go by where a storage stands in the input, not by its rank: of these three storages
      with a ratio of one to one, the smallest should come first, but the order starts with the second. */
  lemma RatioIgnoresCapacity()
    ensures var capacities, sorted, order := [30, 10, 20], [1, 2, 0], [2, 1, 0];
            Sorts(sorted, capacities) && Selected(order, sorted, 1, 1) && !Documented(order, capacities, 1, 1)
  {
    var capacities, sorted, order := [30, 10, 20], [1, 2, 0], [2, 1, 0];
    assert Select(3, 0, 1, 1) == 0;
    RankBySorting(sorted, capacities, order[0], 0);
  }

  /** Equal capacities can spoil it even for ascending input: which of them sorts first is left open. */
  lemma TiesBreakOrder()
    ensures var capacities, sorted, order := [1, 1, 2, 3], [1, 0, 2, 3], [3, 0, 1, 2];
            Sorts(sorted, capacities) && Selected(order, sorted, 1, 1) && !Documented(order, capacities, 1, 1)
  {
    var capacities, sorted, order := [1, 1, 2, 3], [1, 0, 2, 3], [3, 0, 1, 2];
    assert Select(4, 0, 1, 1) == 0;
    RankBySorting(sorted, capacities, order[0], 0);
  }

  // ---- Sharing the storages out ----

  ghost function UpTo(n: nat): (s: set<nat>)
    ensures |s| == n && forall i: nat :: i in s <==> i < n
  {
    if n == 0 then {} else UpTo(n - 1) + {n - 1}
  }

  /** A permutation reaches every index. */
  lemma PermutationReaches(s: seq<nat>, n: nat, k: nat)
    requires IsPermutation(s, n) && k < n
    ensures exists i :: 0 <= i < n && s[i] == k
  {
    DistinctSize(s);
    assert Elements(s) <= UpTo(n);
    SubsetOfSameSize(Elements(s), UpTo(n));
    assert k in Elements(s);
  }

  lemma SubsetOfSameSize(a: set<nat>, b: set<nat>)
    requires a <= b && |a| == |b|
    ensures a == b
  {
    assert b == a + (b - a);
  }

  class ConcurrentConsumer {
    const indices: seq<nat>
    var position: nat
    /** The storages handed out so far, in the order of the calls by all threads. */
    ghost var handed: seq<nat>

    ghost predicate Valid()
      reads this
    {
      && IsPermutation(indices, |indices|)
      && handed == indices[..if position < |indices| then position else |indices|]
    }

    constructor (indices: seq<nat>)
      requires IsPermutation(indices, |indices|)
      ensures Valid() && handed == [] && this.indices == indices
    {
      this.indices, position, handed := indices, 0, [];
    }

    /** Whichever thread calls, it gets a storage that no call has returned, or nothing once each
        storage has been returned. */
    method Next() returns (item: Option<nat>)
      requires Valid()
      modifies this
      ensures Valid()
      ensures item.Some? ==> item.value < |indices| && item.value !in old(handed) && handed == old(handed) + [item.value]
      ensures item.None? ==> handed == old(handed) && forall k: nat | k < |indices| :: k in handed
    {
      var at := position;
      position := position + 1;
      if at < |indices| {
        assert indices[..at + 1] == indices[..at] + [indices[at]];
        handed := handed + [indices[at]];
        return Some(indices[at]);
      }
      forall k: nat | k < |indices|
        ensures k in handed
      {
        PermutationReaches(indices, |indices|, k);
      }
      return None;
    }
  }
}
