/** Reading a storage file for a snapshot, without the accounts that were obsolete by then. */
module StorageReader {
  import opened Types

  const STORE_META_OVERHEAD := 136
  const ALIGN_BOUNDARY := 8

  function Align(n: nat): (r: nat)
    ensures r % ALIGN_BOUNDARY == 0 && n <= r < n + ALIGN_BOUNDARY
  {
    if n % ALIGN_BOUNDARY == 0 then n else n + ALIGN_BOUNDARY - n % ALIGN_BOUNDARY
  }

  /** The bytes an account takes in a file: its metadata and data, up to the next aligned offset. */
  function StoredSize(dataLen: nat): nat { Align(STORE_META_OVERHEAD + dataLen) }

  datatype Item = Item(offset: nat, dataLen: nat, slot: Slot)

  datatype Range = Range(start: nat, size: nat)

  /** Position `p` belongs to the account. */
  ghost predicate InAccount(item: Item, p: nat) { item.offset <= p < item.offset + StoredSize(item.dataLen) }

  predicate ObsoleteAsOf(item: Item, snapshot: Option<Slot>) { snapshot.Some? ==> item.slot <= snapshot.value }

  /** How many of the ranges cover position `p`. */
  ghost function Count(ranges: seq<Range>, p: nat): nat {
    if ranges == [] then 0
    else Count(ranges[..|ranges| - 1], p) + if Covers(ranges[|ranges| - 1], p) then 1 else 0
  }

  ghost predicate Covers(r: Range, p: nat) { r.start <= p < r.start + r.size }

  ghost predicate SeparatedFrom(ranges: seq<Range>, from: nat, total: nat) {
    forall p: nat | from <= p < total :: Count(ranges, p) <= 1
  }

  /** No byte of the file lies in two ranges. */
  ghost predicate Separated(ranges: seq<Range>, total: nat) { SeparatedFrom(ranges, 0, total) }

  /** The bytes from `from` on that no range covers. */
  ghost function AliveBytes(data: seq<bv8>, ranges: seq<Range>, from: nat): seq<bv8>
    requires from <= |data|
    decreases |data| - from
  {
    if from == |data| then []
    else (if Count(ranges, from) == 0 then [data[from]] else []) + AliveBytes(data, ranges, from + 1)
  }

  lemma {:induction false} AliveRun(data: seq<bv8>, ranges: seq<Range>, from: nat, until: nat)
    requires from <= until <= |data|
    requires forall p: nat | from <= p < until :: Count(ranges, p) == 0
    ensures AliveBytes(data, ranges, from) == data[from..until] + AliveBytes(data, ranges, until)
    decreases until - from
  {
    if from < until {
      AliveRun(data, ranges, from + 1, until);
      var run, rest := data[from + 1..until], AliveBytes(data, ranges, until);
      assert data[from..until] == [data[from]] + run;
      assert ([data[from]] + run) + rest == [data[from]] + (run + rest);
    }
  }

  lemma {:induction false} DeadRun(data: seq<bv8>, ranges: seq<Range>, from: nat, until: nat)
    requires from <= until <= |data|
    requires forall p: nat | from <= p < until :: Count(ranges, p) > 0
    ensures AliveBytes(data, ranges, from) == AliveBytes(data, ranges, until)
    decreases until - from
  {
    if from < until {
      DeadRun(data, ranges, from + 1, until);
    }
  }

  lemma {:induction false} SameCounts(data: seq<bv8>, a: seq<Range>, b: seq<Range>, from: nat)
    requires from <= |data| && forall p: nat | from <= p < |data| :: Count(a, p) == Count(b, p)
    ensures AliveBytes(data, a, from) == AliveBytes(data, b, from)
    decreases |data| - from
  {
    if from < |data| {
      SameCounts(data, a, b, from + 1);
    }
  }

  // ---- Which accounts count ----

  /** The ranges of the accounts that were obsolete as of the snapshot. */
  function Obsolete(items: seq<Item>, snapshot: Option<Slot>): seq<Range> {
    if items == [] then []
    else
      var item := items[|items| - 1];
      Obsolete(items[..|items| - 1], snapshot)
      + if ObsoleteAsOf(item, snapshot) then [Range(item.offset, StoredSize(item.dataLen))] else []
  }

  /** The account was marked obsolete at or before the snapshot, and the byte belongs to it. */
  ghost predicate Marks(item: Item, snapshot: Option<Slot>, p: nat) {
    (snapshot.Some? ==> item.slot <= snapshot.value) && InAccount(item, p)
  }

  ghost predicate DroppedAt(items: seq<Item>, snapshot: Option<Slot>, p: nat) {
    exists i :: 0 <= i < |items| && Marks(items[i], snapshot, p)
  }

  ghost predicate MarkedTwice(items: seq<Item>, snapshot: Option<Slot>, p: nat) {
    exists i, j :: 0 <= i < j < |items| && Marks(items[i], snapshot, p) && Marks(items[j], snapshot, p)
  }

  /** A byte is covered by the ranges as often as it belongs to an account marked by the snapshot. */
  lemma {:induction false} DroppedIffObsolete(items: seq<Item>, snapshot: Option<Slot>, p: nat)
    ensures Count(Obsolete(items, snapshot), p) > 0 <==> DroppedAt(items, snapshot, p)
    ensures Count(Obsolete(items, snapshot), p) > 1 <==> MarkedTwice(items, snapshot, p)
  {
    if items != [] {
      var front, item := items[..|items| - 1], items[|items| - 1];
      DroppedIffObsolete(front, snapshot, p);
      CountNext(front, item, snapshot, p);
      assert front + [item] == items;
      MarkedNext(front, item, snapshot, p);
    }
  }

  lemma MarkedNext(items: seq<Item>, item: Item, snapshot: Option<Slot>, p: nat)
    ensures DroppedAt(items + [item], snapshot, p) <==> DroppedAt(items, snapshot, p) || Marks(item, snapshot, p)
    ensures MarkedTwice(items + [item], snapshot, p)
       <==> MarkedTwice(items, snapshot, p) || (DroppedAt(items, snapshot, p) && Marks(item, snapshot, p))
  {
    var all := items + [item];
    assert all[|items|] == item && forall i | 0 <= i < |items| :: all[i] == items[i];
  }

  lemma CountNext(items: seq<Item>, item: Item, snapshot: Option<Slot>, p: nat)
    ensures Count(Obsolete(items + [item], snapshot), p)
         == Count(Obsolete(items, snapshot), p) + if Marks(item, snapshot, p) then 1 else 0
  {
    assert (items + [item])[..|items|] == items;
    var head := Obsolete(items, snapshot);
    if ObsoleteAsOf(item, snapshot) {
      var r := Range(item.offset, StoredSize(item.dataLen));
      assert Obsolete(items + [item], snapshot) == head + [r] && (head + [r])[..|head|] == head;
    } else {
      assert Obsolete(items + [item], snapshot) == head;
    }
  }

  /** The bytes from `from` on, without those of accounts marked obsolete at or before the snapshot. */
  ghost function KeptBytes(data: seq<bv8>, items: seq<Item>, snapshot: Option<Slot>, from: nat): seq<bv8>
    requires from <= |data|
    decreases |data| - from
  {
    if from == |data| then []
    else (if DroppedAt(items, snapshot, from) then [] else [data[from]]) + KeptBytes(data, items, snapshot, from + 1)
  }

  lemma {:induction false} AliveIsKept(data: seq<bv8>, items: seq<Item>, snapshot: Option<Slot>, from: nat)
    requires from <= |data|
    ensures AliveBytes(data, Obsolete(items, snapshot), from) == KeptBytes(data, items, snapshot, from)
    decreases |data| - from
  {
    if from < |data| {
      AliveIsKept(data, items, snapshot, from + 1);
      DroppedIffObsolete(items, snapshot, from);
    }
  }

  /** Some byte that stays lies behind a byte that is marked twice. */
  ghost predicate HidesKept(items: seq<Item>, snapshot: Option<Slot>, total: nat) {
    exists p: nat, q: nat :: p < q < total && MarkedTwice(items, snapshot, p) && !DroppedAt(items, snapshot, q)
  }

  /** No byte of the file is marked twice. */
  ghost predicate MarkedOnce(items: seq<Item>, snapshot: Option<Slot>, total: nat) {
    forall p: nat | p < total :: !MarkedTwice(items, snapshot, p)
  }

  lemma HidingByMarks(items: seq<Item>, snapshot: Option<Slot>, total: nat)
    ensures Hides(Obsolete(items, snapshot), 0, total) <==> HidesKept(items, snapshot, total)
    ensures Separated(Obsolete(items, snapshot), total) <==> MarkedOnce(items, snapshot, total)
  {
    forall p: nat
      ensures Count(Obsolete(items, snapshot), p) > 0 <==> DroppedAt(items, snapshot, p)
      ensures Count(Obsolete(items, snapshot), p) > 1 <==> MarkedTwice(items, snapshot, p)
    {
      DroppedIffObsolete(items, snapshot, p);
    }
  }

  lemma {:induction false} ObsoleteInFile(items: seq<Item>, snapshot: Option<Slot>, total: nat)
    requires forall i | 0 <= i < |items| :: items[i].offset < total
    ensures InFile(Obsolete(items, snapshot), total)
  {
    if items != [] {
      ObsoleteInFile(items[..|items| - 1], snapshot, total);
    }
  }

  // ---- Announced length ----

  ghost predicate InFile(ranges: seq<Range>, total: nat) {
    forall i | 0 <= i < |ranges| :: ranges[i].start < total && ranges[i].size > 0
  }

  /** The part of a range that lies in the file; the last account need not be padded. */
  function Clipped(r: Range, total: nat): nat
    requires r.start <= total
  {
    if r.size < total - r.start then r.size else total - r.start
  }

  function ObsoleteBytes(ranges: seq<Range>, total: nat): nat
    requires InFile(ranges, total)
  {
    if ranges == [] then 0
    else ObsoleteBytes(ranges[..|ranges| - 1], total) + Clipped(ranges[|ranges| - 1], total)
  }

  /** Bytes covered from `from` on, each as often as it is covered. */
  ghost function Weight(ranges: seq<Range>, from: nat, total: nat): nat
    requires from <= total
    decreases total - from
  {
    if from == total then 0 else Count(ranges, from) + Weight(ranges, from + 1, total)
  }

  lemma {:induction false} WeightAdds(ranges: seq<Range>, r: Range, from: nat, total: nat)
    requires from <= total && r.start < total && r.size > 0
    ensures Weight(ranges + [r], from, total) == Weight(ranges, from, total)
         + (if from <= r.start then Clipped(r, total)
            else if r.start + r.size <= from then 0 else Clipped(r, total) - (from - r.start))
    decreases total - from
  {
    if from < total {
      WeightAdds(ranges, r, from + 1, total);
      assert (ranges + [r])[..|ranges|] == ranges;
    }
  }

  lemma {:induction false} WeightIsObsoleteBytes(ranges: seq<Range>, total: nat)
    requires InFile(ranges, total)
    ensures Weight(ranges, 0, total) == ObsoleteBytes(ranges, total)
  {
    if ranges == [] {
      NoWeight(0, total);
    } else {
      var n := |ranges| - 1;
      WeightIsObsoleteBytes(ranges[..n], total);
      WeightAdds(ranges[..n], ranges[n], 0, total);
      assert ranges[..n] + [ranges[n]] == ranges;
    }
  }

  lemma {:induction false} NoWeight(from: nat, total: nat)
    requires from <= total
    ensures Weight([], from, total) == 0
    decreases total - from
  {
    if from < total {
      NoWeight(from + 1, total);
    }
  }

  lemma SeparatedSplits(ranges: seq<Range>, from: nat, total: nat)
    requires from < total
    ensures SeparatedFrom(ranges, from, total) <==> Count(ranges, from) <= 1 && SeparatedFrom(ranges, from + 1, total)
  {
  }

  lemma {:induction false} AlivePlusWeight(data: seq<bv8>, ranges: seq<Range>, from: nat)
    requires from <= |data|
    ensures |AliveBytes(data, ranges, from)| + Weight(ranges, from, |data|) >= |data| - from
    ensures |AliveBytes(data, ranges, from)| + Weight(ranges, from, |data|) == |data| - from
       <==> SeparatedFrom(ranges, from, |data|)
    decreases |data| - from
  {
    if from < |data| {
      AlivePlusWeight(data, ranges, from + 1);
      SeparatedSplits(ranges, from, |data|);
      assert AliveBytes(data, ranges, from) == (if Count(ranges, from) == 0 then [data[from]] else []) + AliveBytes(data, ranges, from + 1);
    }
  }

  /** The announced length is the number of bytes that stay, if and only if no byte was marked
      obsolete twice; otherwise it is too small. */
  lemma AnnouncedLength(data: seq<bv8>, ranges: seq<Range>)
    requires InFile(ranges, |data|)
    ensures |data| - ObsoleteBytes(ranges, |data|) <= |AliveBytes(data, ranges, 0)|
    ensures |data| - ObsoleteBytes(ranges, |data|) == |AliveBytes(data, ranges, 0)| <==> Separated(ranges, |data|)
  {
    WeightIsObsoleteBytes(ranges, |data|);
    AlivePlusWeight(data, ranges, 0);
  }

  // ---- Sorting ----

  predicate Descending(s: seq<Range>) { forall i, j | 0 <= i < j < |s| :: s[i].start >= s[j].start }

  ghost predicate SameCover(a: seq<Range>, b: seq<Range>, total: nat)
    requires InFile(a, total)
  {
    && InFile(b, total) && ObsoleteBytes(a, total) == ObsoleteBytes(b, total)
    && forall p: nat :: Count(a, p) == Count(b, p)
  }

  lemma {:induction false} CountInserted(a: seq<Range>, r: Range, b: seq<Range>, p: nat)
    ensures Count(a + [r] + b, p) == Count(a + b + [r], p)
  {
    if b != [] {
      var n := |b| - 1;
      CountInserted(a, r, b[..n], p);
      assert (a + [r] + b)[..|a| + 1 + n] == a + [r] + b[..n];
      assert (a + b + [r])[..|a| + n + 1] == a + b && (a + b)[..|a| + n] == a + b[..n];
      assert (a + b[..n] + [r])[..|a| + n] == a + b[..n];
    } else {
      assert a + [r] + b == a + b + [r];
    }
  }

  lemma InsertedCover(all: seq<Range>, a: seq<Range>, r: Range, b: seq<Range>, total: nat)
    requires InFile(all + [r], total) && InFile(all, total) && SameCover(all, a + b, total)
    ensures SameCover(all + [r], a + [r] + b, total)
  {
    assert (all + [r])[..|all|] == all && (a + b + [r])[..|a + b|] == a + b;
    forall p: nat
      ensures Count(all + [r], p) == Count(a + [r] + b, p)
    {
      CountInserted(a, r, b, p);
    }
    forall i | 0 <= i < |a + [r] + b|
      ensures (a + [r] + b)[i].start < total && (a + [r] + b)[i].size > 0
    {
      assert i < |a| ==> (a + [r] + b)[i] == (a + b)[i];
      assert i > |a| ==> (a + [r] + b)[i] == (a + b)[i - 1];
      assert i == |a| ==> (a + [r] + b)[i] == (all + [r])[|all|];
    }
    WeightIsObsoleteBytes(all + [r], total);
    WeightIsObsoleteBytes(a + [r] + b, total);
    SameWeight(all + [r], a + [r] + b, 0, total);
  }

  lemma {:induction false} SameWeight(a: seq<Range>, b: seq<Range>, from: nat, total: nat)
    requires from <= total && forall p: nat :: Count(a, p) == Count(b, p)
    ensures Weight(a, from, total) == Weight(b, from, total)
    decreases total - from
  {
    if from < total {
      SameWeight(a, b, from + 1, total);
    }
  }

  method Place(s: seq<Range>, r: Range) returns (k: nat)
    requires Descending(s)
    ensures k <= |s| && Descending(s[..k] + [r] + s[k..])
  {
    k := 0;
    while k < |s| && s[k].start >= r.start
      invariant k <= |s| && forall j | 0 <= j < k :: s[j].start >= r.start
    {
      k := k + 1;
    }
  }

  method SortDescending(ranges: seq<Range>, ghost total: nat) returns (s: seq<Range>)
    requires InFile(ranges, total)
    ensures Descending(s) && SameCover(ranges, s, total)
  {
    s := [];
    for i := 0 to |ranges|
      invariant Descending(s) && SameCover(ranges[..i], s, total)
    {
      var k := Place(s, ranges[i]);
      assert ranges[..i + 1] == ranges[..i] + [ranges[i]] && s[..k] + s[k..] == s;
      InsertedCover(ranges[..i], s[..k], ranges[i], s[k..], total);
      s := s[..k] + [ranges[i]] + s[k..];
    }
    assert ranges[..|ranges|] == ranges;
  }

  // ---- The stream ----

  /** What the reader delivers from `cursor` on, with the ranges still to come, the next one last.
      A range that starts before the cursor stops it. */
  ghost function Stream(data: seq<bv8>, ranges: seq<Range>, cursor: nat): seq<bv8>
    requires cursor <= |data| && InFile(ranges, |data|)
    decreases |ranges|, |data| - cursor
  {
    if ranges == [] then data[cursor..]
    else
      var r := ranges[|ranges| - 1];
      if r.start < cursor then []
      else if r.start == cursor then Stream(data, ranges[..|ranges| - 1], cursor + Clipped(r, |data|))
      else data[cursor..r.start] + Stream(data, ranges, r.start)
  }

  ghost predicate Ahead(ranges: seq<Range>, cursor: nat) { forall i | 0 <= i < |ranges| :: ranges[i].start >= cursor }

  lemma {:induction false} NoneBefore(ranges: seq<Range>, p: nat)
    requires Ahead(ranges, p + 1)
    ensures Count(ranges, p) == 0
  {
    if ranges != [] {
      NoneBefore(ranges[..|ranges| - 1], p);
    }
  }

  lemma {:induction false} CountsOne(ranges: seq<Range>, i: nat, p: nat)
    requires i < |ranges| && Covers(ranges[i], p)
    ensures Count(ranges, p) > 0
  {
    if i < |ranges| - 1 {
      CountsOne(ranges[..|ranges| - 1], i, p);
    }
  }

  /** Some byte that stays lies behind a byte that is marked twice. */
  ghost predicate Hides(ranges: seq<Range>, from: nat, total: nat) {
    exists p: nat, q: nat :: from <= p < q < total && Count(ranges, p) > 1 && Count(ranges, q) == 0
  }

  ghost predicate AllCovered(ranges: seq<Range>, from: nat, total: nat) {
    forall q: nat | from <= q < total :: Count(ranges, q) > 0
  }

  lemma {:induction false} NothingAlive(data: seq<bv8>, ranges: seq<Range>, from: nat)
    requires from <= |data|
    ensures AliveBytes(data, ranges, from) == [] <==> AllCovered(ranges, from, |data|)
    decreases |data| - from
  {
    if from < |data| {
      NothingAlive(data, ranges, from + 1);
      assert AllCovered(ranges, from, |data|) <==> Count(ranges, from) > 0 && AllCovered(ranges, from + 1, |data|);
    }
  }

  lemma SkipCount(ranges: seq<Range>, cursor: nat, total: nat, p: nat)
    requires ranges != [] && ranges[|ranges| - 1].start == cursor <= p < total
    ensures var n := |ranges| - 1;
            Count(ranges, p) == Count(ranges[..n], p) + if p < cursor + Clipped(ranges[n], total) then 1 else 0
  {
  }

  /** The next range is left out; behind it, only the others count. */
  lemma SkipRange(data: seq<bv8>, ranges: seq<Range>, cursor: nat)
    requires ranges != [] && InFile(ranges, |data|) && ranges[|ranges| - 1].start == cursor
    ensures var n := |ranges| - 1;
            var next := cursor + Clipped(ranges[n], |data|);
            cursor < next <= |data| && AliveBytes(data, ranges, cursor) == AliveBytes(data, ranges[..n], next)
  {
    var n := |ranges| - 1;
    var next := cursor + Clipped(ranges[n], |data|);
    DeadRun(data, ranges, cursor, next);
    SameCounts(data, ranges, ranges[..n], next);
  }

  /** The other ranges lie behind the next one: nothing is hidden before them. */
  lemma SkipKeepsHiding(data: seq<bv8>, ranges: seq<Range>, cursor: nat)
    requires ranges != [] && InFile(ranges, |data|) && ranges[|ranges| - 1].start == cursor
    requires Ahead(ranges[..|ranges| - 1], cursor + Clipped(ranges[|ranges| - 1], |data|))
    ensures var n := |ranges| - 1;
            Hides(ranges, cursor, |data|) <==> Hides(ranges[..n], cursor + Clipped(ranges[n], |data|), |data|)
  {
    var n := |ranges| - 1;
    var next := cursor + Clipped(ranges[n], |data|);
    if p: nat, q: nat :| cursor <= p < q < |data| && Count(ranges, p) > 1 && Count(ranges, q) == 0 {
      SkipCount(ranges, cursor, |data|, p);
      SkipCount(ranges, cursor, |data|, q);
      if p < next {
        NoneBefore(ranges[..n], p);
      }
    }
    if p: nat, q: nat :| next <= p < q < |data| && Count(ranges[..n], p) > 1 && Count(ranges[..n], q) == 0 {
      SkipCount(ranges, cursor, |data|, p);
      SkipCount(ranges, cursor, |data|, q);
    }
  }

  lemma SkipKeepsAgreement(data: seq<bv8>, ranges: seq<Range>, cursor: nat)
    requires ranges != [] && InFile(ranges, |data|) && Descending(ranges) && ranges[|ranges| - 1].start == cursor
    requires |ranges| > 1 ==> ranges[|ranges| - 2].start >= cursor + Clipped(ranges[|ranges| - 1], |data|)
    ensures var n := |ranges| - 1;
            var next := cursor + Clipped(ranges[n], |data|);
            && next <= |data| && Ahead(ranges[..n], next) && InFile(ranges[..n], |data|) && Descending(ranges[..n])
            && Stream(data, ranges, cursor) == Stream(data, ranges[..n], next)
            && AliveBytes(data, ranges, cursor) == AliveBytes(data, ranges[..n], next)
            && (Hides(ranges, cursor, |data|) <==> Hides(ranges[..n], next, |data|))
  {
    SkipRange(data, ranges, cursor);
    SkipKeepsHiding(data, ranges, cursor);
  }

  lemma StuckHides(ranges: seq<Range>, cursor: nat, total: nat)
    requires |ranges| > 1 && InFile(ranges, total) && Ahead(ranges, cursor) && ranges[|ranges| - 1].start == cursor
    requires ranges[|ranges| - 2].start < cursor + Clipped(ranges[|ranges| - 1], total)
    ensures var n := |ranges| - 1;
            AllCovered(ranges[..n], cursor + Clipped(ranges[n], total), total) <==> !Hides(ranges, cursor, total)
  {
    var n := |ranges| - 1;
    var next := cursor + Clipped(ranges[n], total);
    if !AllCovered(ranges[..n], next, total) {
      var p := ranges[n - 1].start;
      CountsOne(ranges[..n], n - 1, p);
      SkipCount(ranges, cursor, total, p);
      var q: nat :| next <= q < total && Count(ranges[..n], q) == 0;
      SkipCount(ranges, cursor, total, q);
    } else if Hides(ranges, cursor, total) {
      var p: nat, q: nat :| cursor <= p < q < total && Count(ranges, p) > 1 && Count(ranges, q) == 0;
      SkipCount(ranges, cursor, total, q);
    }
  }

  /** Another range starts within the next one: the stream ends there. */
  lemma StuckStream(data: seq<bv8>, ranges: seq<Range>, cursor: nat)
    requires |ranges| > 1 && InFile(ranges, |data|) && Ahead(ranges, cursor) && ranges[|ranges| - 1].start == cursor
    requires ranges[|ranges| - 2].start < cursor + Clipped(ranges[|ranges| - 1], |data|)
    ensures Stream(data, ranges, cursor) == []
    ensures AliveBytes(data, ranges, cursor) == [] <==> !Hides(ranges, cursor, |data|)
  {
    var n := |ranges| - 1;
    SkipRange(data, ranges, cursor);
    NothingAlive(data, ranges[..n], cursor + Clipped(ranges[n], |data|));
    StuckHides(ranges, cursor, |data|);
  }

  lemma RunKeepsHiding(ranges: seq<Range>, cursor: nat, start: nat, total: nat)
    requires cursor <= start && Ahead(ranges, start)
    ensures Hides(ranges, cursor, total) <==> Hides(ranges, start, total)
  {
    forall p: nat | cursor <= p < start
      ensures Count(ranges, p) == 0
    {
      NoneBefore(ranges, p);
    }
  }

  lemma RunKeepsAgreement(data: seq<bv8>, ranges: seq<Range>, cursor: nat, start: nat)
    requires cursor < start <= |data| && ranges != [] && ranges[|ranges| - 1].start == start
    requires InFile(ranges, |data|) && Ahead(ranges, start)
    ensures Stream(data, ranges, cursor) == AliveBytes(data, ranges, cursor)
       <==> Stream(data, ranges, start) == AliveBytes(data, ranges, start)
    ensures Hides(ranges, cursor, |data|) <==> Hides(ranges, start, |data|)
  {
    RunKeepsHiding(ranges, cursor, start, |data|);
    forall p: nat | cursor <= p < start
      ensures Count(ranges, p) == 0
    {
      NoneBefore(ranges, p);
    }
    AliveRun(data, ranges, cursor, start);
    SameTail(data[cursor..start], Stream(data, ranges, start), AliveBytes(data, ranges, start));
  }

  /** The reader delivers exactly the bytes that stay if and only if none of them lies behind a byte
      that is marked obsolete twice. */
  lemma {:induction false} StreamIsAlive(data: seq<bv8>, ranges: seq<Range>, cursor: nat)
    requires cursor <= |data| && InFile(ranges, |data|) && Descending(ranges) && Ahead(ranges, cursor)
    ensures Stream(data, ranges, cursor) == AliveBytes(data, ranges, cursor) <==> !Hides(ranges, cursor, |data|)
    decreases |ranges|, |data| - cursor
  {
    if ranges == [] {
      AliveRun(data, ranges, cursor, |data|);
    } else {
      var n := |ranges| - 1;
      var r := ranges[n];
      if r.start == cursor {
        var next := cursor + Clipped(r, |data|);
        if n > 0 && ranges[n - 1].start < next {
          StuckStream(data, ranges, cursor);
        } else {
          SkipKeepsAgreement(data, ranges, cursor);
          StreamIsAlive(data, ranges[..n], next);
        }
      } else {
        StreamIsAlive(data, ranges, r.start);
        RunKeepsAgreement(data, ranges, cursor, r.start);
      }
    }
  }

  lemma SameHides(a: seq<Range>, b: seq<Range>, total: nat)
    requires InFile(a, total) && SameCover(a, b, total)
    ensures Hides(a, 0, total) <==> Hides(b, 0, total)
  {
  }

  lemma SeparatedHidesNothing(ranges: seq<Range>, total: nat)
    requires Separated(ranges, total)
    ensures !Hides(ranges, 0, total)
  {
  }

  lemma OpenedStream(data: seq<bv8>, ranges: seq<Range>, sorted: seq<Range>)
    requires InFile(ranges, |data|) && Descending(sorted) && SameCover(ranges, sorted, |data|)
    ensures InFile(sorted, |data|)
    ensures var stream, alive := Stream(data, sorted, 0), AliveBytes(data, ranges, 0);
            && (stream == alive <==> !Hides(ranges, 0, |data|))
            && (stream == alive && |data| - ObsoleteBytes(ranges, |data|) == |stream| <==> Separated(ranges, |data|))
  {
    SameCounts(data, ranges, sorted, 0);
    SameHides(ranges, sorted, |data|);
    StreamIsAlive(data, sorted, 0);
    AnnouncedLength(data, ranges);
    if Separated(ranges, |data|) {
      SeparatedHidesNothing(ranges, |data|);
    }
  }

  lemma SameTail(head: seq<bv8>, a: seq<bv8>, b: seq<bv8>)
    ensures head + a == head + b <==> a == b
  {
    assert (head + a)[|head|..] == a && (head + b)[|head|..] == b;
  }

  lemma TwiceCounts(size: nat, p: nat)
    ensures Count([Range(0, size), Range(0, size)], p) == if p < size then 2 else 0
  {
    var twice, once := [Range(0, size), Range(0, size)], [Range(0, size)];
    assert twice[..1] == once;
    assert Count(once, p) == if p < size then 1 else 0;
  }

  lemma TwiceStops(data: seq<bv8>, size: nat)
    requires 0 < size < |data|
    ensures Stream(data, [Range(0, size), Range(0, size)], 0) == []
  {
    var twice := [Range(0, size), Range(0, size)];
    assert twice[..1] == [Range(0, size)] && Clipped(Range(0, size), |data|) == size;
    assert Stream(data, twice[..1], size) == [];
  }

  /** Marked twice, the first account hides everything behind it. */
  lemma MarkedTwiceTruncates(data: seq<bv8>, size: nat)
    requires 0 < size < |data|
    ensures var twice := [Range(0, size), Range(0, size)];
            Stream(data, twice, 0) == [] && AliveBytes(data, twice, 0) == data[size..]
  {
    var twice := [Range(0, size), Range(0, size)];
    TwiceStops(data, size);
    forall p: nat ensures Count(twice, p) == if p < size then 2 else 0 {
      TwiceCounts(size, p);
    }
    DeadRun(data, twice, 0, size);
    AliveRun(data, twice, size, |data|);
  }

  ghost predicate Joins(a: seq<bv8>, b: seq<bv8>, whole: seq<bv8>) { a + b == whole }

  function RunLength(data: seq<bv8>, ranges: seq<Range>, cursor: nat): nat
    requires cursor <= |data| && InFile(ranges, |data|)
    ensures cursor + RunLength(data, ranges, cursor) <= |data|
  {
    if ranges == [] then |data| - cursor
    else
      var start := ranges[|ranges| - 1].start;
      if start < cursor then 0 else start - cursor
  }

  /** A stretch of bytes up to the next range heads the stream, and nothing follows an empty one. */
  lemma RunHeadsStream(data: seq<bv8>, ranges: seq<Range>, cursor: nat, n: nat, head: seq<bv8>, whole: seq<bv8>)
    requires cursor <= |data| && InFile(ranges, |data|) && n <= RunLength(data, ranges, cursor)
    requires ranges != [] ==> ranges[|ranges| - 1].start != cursor
    requires Joins(head, Stream(data, ranges, cursor), whole)
    ensures Joins(head + data[cursor..cursor + n], Stream(data, ranges, cursor + n), whole)
    ensures RunLength(data, ranges, cursor) == 0 ==> Stream(data, ranges, cursor) == []
  {
    if n > 0 && ranges != [] {
      var start := ranges[|ranges| - 1].start;
      assert data[cursor..start] == data[cursor..cursor + n] + data[cursor + n..start];
    }
    JoinShift(head, data[cursor..cursor + n], Stream(data, ranges, cursor + n), whole);
  }

  lemma JoinShift(head: seq<bv8>, read: seq<bv8>, rest: seq<bv8>, whole: seq<bv8>)
    requires Joins(head, read + rest, whole)
    ensures Joins(head + read, rest, whole)
  {
    assert (head + read) + rest == head + (read + rest);
  }

  lemma JoinLength(read: seq<bv8>, rest: seq<bv8>, whole: seq<bv8>, room: nat)
    requires Joins(read, rest, whole) && |read| <= room && (|read| == room || rest == [])
    ensures |read| == if |whole| < room then |whole| else room
  {
    assert |whole| == |read| + |rest|;
  }

  class AccountStorageReader {
    const data: seq<bv8>
    const numAliveBytes: int
    var sortedObsolete: seq<Range>
    var currentOffset: nat

    ghost predicate Valid()
      reads this
    {
      currentOffset <= |data| && InFile(sortedObsolete, |data|)
    }

    ghost function Remaining(): seq<bv8>
      requires Valid()
      reads this
    {
      Stream(data, sortedObsolete, currentOffset)
    }

    /** Opened on a storage: the stream is the bytes that stay at the snapshot if and only if none of them
        lies behind a byte marked twice, and its length is announced as well if and only if no byte is. */
    constructor (contents: seq<bv8>, items: seq<Item>, snapshot: Option<Slot>)
      requires forall i | 0 <= i < |items| :: items[i].offset < |contents|
      ensures Valid() && data == contents
      ensures Remaining() == KeptBytes(contents, items, snapshot, 0) <==> !HidesKept(items, snapshot, |contents|)
      ensures Remaining() == KeptBytes(contents, items, snapshot, 0) && numAliveBytes == |Remaining()|
         <==> MarkedOnce(items, snapshot, |contents|)
    {
      var ranges := Obsolete(items, snapshot);
      ObsoleteInFile(items, snapshot, |contents|);
      data := contents;
      numAliveBytes := |contents| - ObsoleteBytes(ranges, |contents|);
      currentOffset := 0;
      var sorted := SortDescending(ranges, |contents|);
      sortedObsolete := sorted;
      new;
      OpenedStream(contents, ranges, sorted);
      AliveIsKept(contents, items, snapshot, 0);
      HidingByMarks(items, snapshot, |contents|);
    }

    /** One read of the underlying file, which may return fewer bytes than it was asked for. */
    method ReadFile(buf: array<bv8>, at: nat, wanted: nat) returns (n: nat)
      requires at + wanted <= buf.Length && currentOffset + wanted <= |data|
      modifies buf
      ensures n <= wanted && (n == 0 <==> wanted == 0)
      ensures buf[..at + n] == old(buf[..at]) + data[currentOffset..currentOffset + n]
      ensures forall k | at + n <= k < buf.Length :: buf[k] == old(buf[k])
    {
      n := 0;
      if wanted > 0 {
        n :| 0 < n <= wanted;
      }
      forall k | 0 <= k < n {
        buf[at + k] := data[currentOffset + k];
      }
    }

    method SkipObsolete() returns (skipped: bool)
      requires Valid()
      modifies this
      ensures Valid() && Remaining() == old(Remaining())
      ensures skipped ==> |sortedObsolete| < |old(sortedObsolete)|
      ensures !skipped ==> sortedObsolete == old(sortedObsolete) && currentOffset == old(currentOffset)
      ensures !skipped && sortedObsolete != [] ==> sortedObsolete[|sortedObsolete| - 1].start != currentOffset
    {
      skipped := false;
      if sortedObsolete != [] {
        var r := sortedObsolete[|sortedObsolete| - 1];
        if currentOffset == r.start {
          currentOffset := currentOffset + Clipped(r, |data|);
          sortedObsolete := sortedObsolete[..|sortedObsolete| - 1];
          skipped := true;
        }
      }
    }

    /** Reads from the stretch of bytes before the next range. */
    method ReadRun(buf: array<bv8>, at: nat, ghost stream: seq<bv8>) returns (n: nat)
      requires Valid() && at < buf.Length && Joins(buf[..at], Remaining(), stream)
      requires sortedObsolete != [] ==> sortedObsolete[|sortedObsolete| - 1].start != currentOffset
      modifies this`currentOffset, buf
      ensures Valid() && at + n <= buf.Length
      ensures Joins(buf[..at + n], Remaining(), stream)
      ensures forall k | at + n <= k < buf.Length :: buf[k] == old(buf[k])
      ensures n == 0 ==> Remaining() == []
    {
      var run := RunLength(data, sortedObsolete, currentOffset);
      var wanted := if buf.Length - at < run then buf.Length - at else run;
      ghost var head := buf[..at];
      n := ReadFile(buf, at, wanted);
      RunHeadsStream(data, sortedObsolete, currentOffset, n, head, stream);
      currentOffset := currentOffset + n;
    }

    /** One round of the reading loop: a range is skipped, or bytes are read, or the stream has ended. */
    method Advance(buf: array<bv8>, at: nat, ghost stream: seq<bv8>) returns (n: nat, more: bool)
      requires Valid() && at < buf.Length && Joins(buf[..at], Remaining(), stream)
      modifies this, buf
      ensures Valid() && at + n <= buf.Length
      ensures Joins(buf[..at + n], Remaining(), stream)
      ensures forall k | at + n <= k < buf.Length :: buf[k] == old(buf[k])
      ensures !more ==> Remaining() == []
      ensures more ==> |sortedObsolete| < |old(sortedObsolete)| || (|sortedObsolete| == |old(sortedObsolete)| && n > 0)
    {
      var skipped := SkipObsolete();
      if skipped {
        n, more := 0, true;
      } else {
        n := ReadRun(buf, at, stream);
        more := n > 0;
      }
    }

    /** Fills the buffer from the stream; it comes up short only at the end of the stream. */
    method Read(buf: array<bv8>) returns (total: nat)
      requires Valid()
      modifies this, buf
      ensures Valid()
      ensures total == if |old(Remaining())| < buf.Length then |old(Remaining())| else buf.Length
      ensures Joins(buf[..total], Remaining(), old(Remaining()))
      ensures forall k | total <= k < buf.Length :: buf[k] == old(buf[k])
    {
      total := 0;
      ghost var stream := Remaining();
      var more := true;
      while more && total < buf.Length
        invariant Valid() && total <= buf.Length
        invariant Joins(buf[..total], Remaining(), stream)
        invariant forall k | total <= k < buf.Length :: buf[k] == old(buf[k])
        invariant !more ==> Remaining() == []
        decreases more, |sortedObsolete|, buf.Length - total
      {
        var n;
        n, more := Advance(buf, total, stream);
        total := total + n;
      }
      JoinLength(buf[..total], Remaining(), stream, buf.Length);
    }
  }
}
