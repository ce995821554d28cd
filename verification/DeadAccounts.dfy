/** What is still alive in each storage, as accounts are written to it and reclaimed from it. */
module DeadAccounts {
  import opened Seqs
  import opened Types
  import opened Sums
  import StorageReader

  type Offset = nat

  /** A storage file and its counters; `layout` gives the data length of the account at each offset. */
  datatype Store = Store(layout: map<Offset, nat>, len: nat, capacity: nat,
                         count: nat, aliveBytes: nat, obsolete: seq<StorageReader.Item>)

  ghost function Sizes(layout: map<Offset, nat>, offsets: set<Offset>): map<Offset, int> {
    map o | o in offsets && o in layout :: StorageReader.StoredSize(layout[o])
  }

  /** The bytes that the accounts at these offsets take in the file. */
  ghost function Bytes(layout: map<Offset, nat>, offsets: set<Offset>): int { Sum(Sizes(layout, offsets)) }

  lemma BytesSplit(layout: map<Offset, nat>, offsets: set<Offset>, part: set<Offset>)
    requires part <= offsets
    ensures Bytes(layout, offsets) == Bytes(layout, offsets - part) + Bytes(layout, part)
    ensures 0 <= Bytes(layout, part) <= Bytes(layout, offsets)
  {
    assert Sizes(layout, offsets) == Sizes(layout, offsets - part) + Sizes(layout, part);
    SumUnion(Sizes(layout, offsets - part), Sizes(layout, part));
    SumNonNegative(Sizes(layout, part));
    SumNonNegative(Sizes(layout, offsets - part));
  }

  lemma BytesOfOne(layout: map<Offset, nat>, o: Offset)
    requires o in layout
    ensures Bytes(layout, {o}) == StorageReader.StoredSize(layout[o])
  {
    var empty: map<Offset, int> := map[];
    assert Sizes(layout, {o}) == empty[o := StorageReader.StoredSize(layout[o])];
    SumAdds(empty, o, StorageReader.StoredSize(layout[o]));
    assert empty - {o} == empty;
  }

  ghost predicate Marked(obsolete: seq<StorageReader.Item>, o: Offset) {
    exists i :: 0 <= i < |obsolete| && obsolete[i].offset == o
  }

  /** Obsolete accounts are in the file, were alive once and are marked once. */
  ghost predicate MarksRight(store: Store, alive: set<Offset>) {
    && (forall i | 0 <= i < |store.obsolete| ::
          store.obsolete[i].offset in store.layout && store.obsolete[i].offset !in alive
          && store.obsolete[i].dataLen == store.layout[store.obsolete[i].offset])
    && forall i, j | 0 <= i < j < |store.obsolete| :: store.obsolete[i].offset != store.obsolete[j].offset
  }

  ghost predicate InFile(layout: map<Offset, nat>, o: Offset, len: nat)
    requires o in layout
  {
    o % 8 == 0 && o + StorageReader.STORE_META_OVERHEAD + layout[o] <= len
  }

  ghost predicate Apart(layout: map<Offset, nat>, o: Offset, p: Offset)
    requires o in layout
  {
    o < p ==> o + StorageReader.StoredSize(layout[o]) <= p
  }

  /** The accounts lie in the file one behind the other. */
  ghost predicate LaidOut(layout: map<Offset, nat>, len: nat) {
    && (forall o | o in layout :: InFile(layout, o, len))
    && forall o, p | o in layout && p in layout :: Apart(layout, o, p)
  }

  /** The counters say how many accounts are alive and how many bytes they take. */
  ghost predicate Tracks(store: Store, alive: set<Offset>) {
    && LaidOut(store.layout, store.len) && alive <= store.layout.Keys && store.count == |alive| && store.aliveBytes == Bytes(store.layout, alive)
    && MarksRight(store, alive)
  }

  method StoredBytes(store: Store, offsets: set<Offset>) returns (bytes: nat)
    requires offsets <= store.layout.Keys
    ensures bytes == Bytes(store.layout, offsets)
  {
    bytes := 0;
    var rest := offsets;
    assert Bytes(store.layout, {}) == 0 by { assert Sizes(store.layout, {}) == map[]; }
    while rest != {}
      invariant rest <= offsets && bytes == Bytes(store.layout, offsets - rest)
    {
      var o :| o in rest;
      BytesOfOne(store.layout, o);
      BytesSplit(store.layout, offsets - (rest - {o}), {o});
      assert offsets - (rest - {o}) - {o} == offsets - rest;
      bytes := bytes + StorageReader.StoredSize(store.layout[o]);
      rest := rest - {o};
    }
    assert offsets - {} == offsets;
  }

  method MarkObsolete(store: Store, offsets: set<Offset>, slot: Slot, ghost alive: set<Offset>)
    returns (obsolete: seq<StorageReader.Item>)
    requires MarksRight(store, alive) && offsets <= alive <= store.layout.Keys
    ensures MarksRight(store.(obsolete := obsolete), alive - offsets)
    ensures store.obsolete <= obsolete && |obsolete| == |store.obsolete| + |offsets|
    ensures forall i | |store.obsolete| <= i < |obsolete| :: obsolete[i].offset in offsets && obsolete[i].slot == slot
    ensures forall o | o in offsets :: Marked(obsolete, o)
  {
    obsolete := store.obsolete;
    var rest := offsets;
    while rest != {}
      invariant rest <= offsets && MarksRight(store.(obsolete := obsolete), alive - (offsets - rest))
      invariant store.obsolete <= obsolete && |obsolete| == |store.obsolete| + |offsets| - |rest|
      invariant forall i | |store.obsolete| <= i < |obsolete| :: obsolete[i].offset in offsets && obsolete[i].slot == slot
      invariant forall o | o in offsets && o !in rest :: Marked(obsolete, o)
      decreases rest
    {
      var o :| o in rest;
      ghost var before := obsolete;
      obsolete := obsolete + [StorageReader.Item(o, store.layout[o], slot)];
      assert obsolete[|before|].offset == o;
      forall p | p in offsets && Marked(before, p)
        ensures Marked(obsolete, p)
      {
        var i :| 0 <= i < |before| && before[i].offset == p;
        assert obsolete[i].offset == p;
      }
      rest := rest - {o};
    }
    assert offsets - {} == offsets;
  }

  /** Takes accounts off the counters; no more than there are. */
  function RemoveAccounts(store: Store, bytes: nat, accounts: nat): (r: Store)
    requires bytes <= store.aliveBytes && accounts <= store.count
    ensures r.count + accounts == store.count && r.aliveBytes + bytes == store.aliveBytes
    ensures r == store.(count := r.count, aliveBytes := r.aliveBytes)
  {
    store.(count := store.count - accounts, aliveBytes := store.aliveBytes - bytes)
  }

  lemma SameSizeSubset(a: set<Offset>, b: set<Offset>)
    requires a <= b
    ensures |a| <= |b| && (|a| == |b| <==> a == b) && |b - a| == |b| - |a|
  {
    assert b == a + (b - a);
  }

  /** The reclaimed accounts are marked with the given slot, unless the whole storage is dead. */
  ghost predicate Remarked(store: Store, r: Store, gone: set<Offset>, mark: Option<Slot>, dead: bool) {
    && r.layout == store.layout && r.len == store.len && r.capacity == store.capacity && store.obsolete <= r.obsolete
    && (forall i | |store.obsolete| <= i < |r.obsolete| ::
          mark.Some? && r.obsolete[i].offset in gone && r.obsolete[i].slot == mark.value)
    && if mark.Some? && !dead then forall o | o in gone :: Marked(r.obsolete, o) else r.obsolete == store.obsolete
  }

  /** Removes reclaimed accounts of one storage. Without looking at them, it removes everything when
      there are as many as are alive, and the counters come out the same. */
  method RemoveDead(store: Store, offsets: set<Offset>, mark: Option<Slot>, ghost alive: set<Offset>) returns (r: Store)
    requires Tracks(store, alive) && offsets <= alive
    ensures Tracks(r, alive - offsets)
    ensures r.count == 0 <==> offsets == alive
    ensures Remarked(store, r, offsets, mark, offsets == alive)
  {
    SameSizeSubset(offsets, alive);
    BytesSplit(store.layout, alive, offsets);
    if |offsets| == store.count {
      r := RemoveAccounts(store, store.aliveBytes, |offsets|);
      assert alive - offsets == {};
    } else {
      var bytes := StoredBytes(store, offsets);
      r := RemoveAccounts(store, bytes, |offsets|);
      if mark.Some? {
        var obsolete := MarkObsolete(store, offsets, mark.value, alive);
        r := r.(obsolete := obsolete);
      }
    }
  }

  // ---- Appending ----

  lemma AlignGrows(a: nat, b: nat)
    requires a <= b
    ensures StorageReader.Align(a) <= StorageReader.Align(b)
  {
  }

  lemma AlignedEnd(pos: nat, dataLen: nat)
    requires pos % 8 == 0
    ensures StorageReader.Align(pos + StorageReader.STORE_META_OVERHEAD + dataLen) == pos + StorageReader.StoredSize(dataLen)
  {
  }

  /** Adds the distances between consecutive offsets. */
  method Span(offsets: seq<nat>) returns (size: nat)
    requires |offsets| > 0 && forall i, j | 0 <= i < j < |offsets| :: offsets[i] <= offsets[j]
    ensures size == offsets[|offsets| - 1] - offsets[0]
  {
    size := 0;
    for i := 1 to |offsets|
      invariant size == offsets[i - 1] - offsets[0]
    {
      size := size + (offsets[i] - offsets[i - 1]);
    }
  }

  ghost predicate Extends(layout: map<Offset, nat>, layout': map<Offset, nat>, offsets: seq<Offset>) {
    && layout'.Keys == layout.Keys + Elements(offsets) && layout.Keys !! Elements(offsets)
    && forall o | o in layout :: o in layout' && layout'[o] == layout[o]
  }

  ghost predicate Ascending(offsets: seq<Offset>, end: nat) {
    && (forall i, j | 0 <= i < j < |offsets| :: offsets[i] < offsets[j])
    && forall i | 0 <= i < |offsets| :: offsets[i] < end
  }

  /** The accounts at these offsets fill the file up to its aligned end. */
  ghost predicate Fills(layout: map<Offset, nat>, offsets: seq<Offset>, len: nat) {
    offsets != [] ==> offsets[0] + Bytes(layout, Elements(offsets)) == StorageReader.Align(len)
  }

  ghost predicate HasLens(layout: map<Offset, nat>, offsets: seq<Offset>, dataLens: seq<nat>) {
    |offsets| <= |dataLens| && forall i | 0 <= i < |offsets| :: offsets[i] in layout && layout[offsets[i]] == dataLens[i]
  }

  lemma PastEnd(layout: map<Offset, nat>, len: nat, o: Offset)
    requires LaidOut(layout, len) && o in layout
    ensures o + StorageReader.StoredSize(layout[o]) <= StorageReader.Align(len) && o < len
  {
    assert InFile(layout, o, len);
    AlignedEnd(o, layout[o]);
    AlignGrows(o + StorageReader.STORE_META_OVERHEAD + layout[o], len);
  }

  /** An account behind the first `len` bytes starts at the next aligned offset. */
  ghost predicate Placed(len: nat, dataLen: nat, pos: nat, end: nat) {
    pos == StorageReader.Align(len) && end == pos + StorageReader.STORE_META_OVERHEAD + dataLen
  }

  lemma LayNext(layout: map<Offset, nat>, len: nat, dataLen: nat, pos: nat, end: nat)
    requires LaidOut(layout, len) && Placed(len, dataLen, pos, end)
    ensures pos !in layout && LaidOut(layout[pos := dataLen], end)
  {
    var next := layout[pos := dataLen];
    assert pos in layout ==> InFile(layout, pos, len);
    forall o | o in next
      ensures InFile(next, o, end)
    {
      assert o in layout ==> InFile(layout, o, len);
    }
    forall o, p | o in next && p in next
      ensures Apart(next, o, p)
    {
      if o in layout {
        PastEnd(layout, len, o);
        assert p in layout ==> Apart(layout, o, p);
      } else {
        assert p in layout ==> InFile(layout, p, len);
      }
    }
  }

  lemma BytesGrow(layout: map<Offset, nat>, offsets: set<Offset>, pos: Offset, dataLen: nat)
    requires pos !in layout && offsets <= layout.Keys
    ensures Bytes(layout[pos := dataLen], offsets + {pos}) == Bytes(layout, offsets) + StorageReader.StoredSize(dataLen)
  {
    var next := layout[pos := dataLen];
    BytesSplit(next, offsets + {pos}, {pos});
    BytesOfOne(next, pos);
    assert offsets + {pos} - {pos} == offsets;
    assert Sizes(next, offsets) == Sizes(layout, offsets);
  }

  lemma FillNext(layout: map<Offset, nat>, offsets: seq<Offset>, len: nat, dataLen: nat, pos: nat, end: nat)
    requires Fills(layout, offsets, len) && Placed(len, dataLen, pos, end)
    requires pos !in layout && Elements(offsets) <= layout.Keys
    ensures Fills(layout[pos := dataLen], offsets + [pos], end)
  {
    ElementsGrow(offsets, pos);
    AlignedEnd(pos, dataLen);
    BytesGrow(layout, Elements(offsets), pos, dataLen);
    assert offsets == [] ==> Sizes(layout, Elements(offsets)) == map[];
  }

  lemma AscendNext(offsets: seq<Offset>, len: nat, dataLen: nat, pos: nat, end: nat)
    requires Ascending(offsets, len) && Placed(len, dataLen, pos, end)
    ensures Ascending(offsets + [pos], end)
  {
  }

  lemma ExtendNext(layout: map<Offset, nat>, layout': map<Offset, nat>, offsets: seq<Offset>, dataLens: seq<nat>, pos: Offset)
    requires Extends(layout, layout', offsets) && HasLens(layout', offsets, dataLens) && pos !in layout'
    requires |offsets| < |dataLens|
    ensures Extends(layout, layout'[pos := dataLens[|offsets|]], offsets + [pos])
    ensures HasLens(layout'[pos := dataLens[|offsets|]], offsets + [pos], dataLens)
  {
    ElementsGrow(offsets, pos);
  }

  ghost predicate Appending(store: Store, r: Store, offsets: seq<Offset>, dataLens: seq<nat>) {
    && LaidOut(r.layout, r.len) && r == store.(layout := r.layout, len := r.len)
    && Extends(store.layout, r.layout, offsets) && Ascending(offsets, r.len)
    && Fills(r.layout, offsets, r.len) && HasLens(r.layout, offsets, dataLens)
  }

  lemma AppendStep(store: Store, r: Store, next: Store, offsets: seq<Offset>, dataLens: seq<nat>, pos: nat)
    requires Appending(store, r, offsets, dataLens) && |offsets| < |dataLens|
    requires next == r.(layout := r.layout[pos := dataLens[|offsets|]], len := next.len)
    requires Placed(r.len, dataLens[|offsets|], pos, next.len)
    ensures Appending(store, next, offsets + [pos], dataLens)
  {
    LayNext(r.layout, r.len, dataLens[|offsets|], pos, next.len);
    AscendNext(offsets, r.len, dataLens[|offsets|], pos, next.len);
    FillNext(r.layout, offsets, r.len, dataLens[|offsets|], pos, next.len);
    ExtendNext(store.layout, r.layout, offsets, dataLens, pos);
  }

  method AppendNext(ghost store: Store, r: Store, offsets: seq<Offset>, dataLens: seq<nat>)
    returns (r': Store, offsets': seq<Offset>)
    requires Appending(store, r, offsets, dataLens) && |offsets| < |dataLens|
    ensures Appending(store, r', offsets', dataLens) && |offsets'| == |offsets| + 1
    ensures r'.len == StorageReader.Align(r.len) + StorageReader.STORE_META_OVERHEAD + dataLens[|offsets|]
  {
    var pos := StorageReader.Align(r.len);
    var dataLen := dataLens[|offsets|];
    r' := r.(layout := r.layout[pos := dataLen], len := pos + StorageReader.STORE_META_OVERHEAD + dataLen);
    offsets' := offsets + [pos];
    AppendStep(store, r, r', offsets, dataLens, pos);
  }

  /** The size reported for the appended accounts, from the first offset to the aligned end. */
  method AppendedSize(store: Store, r: Store, offsets: seq<Offset>, ghost dataLens: seq<nat>) returns (size: nat)
    requires Appending(store, r, offsets, dataLens)
    ensures size == Bytes(r.layout, Elements(offsets))
  {
    size := 0;
    if offsets != [] {
      size := Span(offsets + [StorageReader.Align(r.len)]);
    } else {
      assert Sizes(r.layout, Elements(offsets)) == map[];
    }
  }

  /** The accounts are stored behind what was there, as many of them as fit. */
  ghost predicate Appended(store: Store, r: Store, offsets: seq<Offset>, dataLens: seq<nat>) {
    && r.capacity == store.capacity && r.obsolete == store.obsolete
    && Extends(store.layout, r.layout, offsets) && HasLens(r.layout, offsets, dataLens)
    && (offsets != [] ==> r.len <= r.capacity)
    && (|offsets| < |dataLens| ==>
          StorageReader.Align(r.len) + StorageReader.STORE_META_OVERHEAD + dataLens[|offsets|] > r.capacity)
  }

  /** Appends accounts while they fit: all of them, or up to the first that does not. */
  method AppendAccounts(store: Store, dataLens: seq<nat>) returns (r: Store, offsets: seq<Offset>, size: nat)
    requires LaidOut(store.layout, store.len)
    ensures Appending(store, r, offsets, dataLens) && size == Bytes(r.layout, Elements(offsets))
    ensures Appended(store, r, offsets, dataLens)
  {
    r, offsets := store, [];
    var i := 0;
    while i < |dataLens|
      invariant 0 <= i == |offsets| <= |dataLens| && Appending(store, r, offsets, dataLens)
      invariant offsets != [] ==> r.len <= r.capacity
    {
      if r.capacity < StorageReader.Align(r.len) + StorageReader.STORE_META_OVERHEAD + dataLens[i] {
        break;
      }
      r, offsets := AppendNext(store, r, offsets, dataLens);
      i := i + 1;
    }
    size := AppendedSize(store, r, offsets, dataLens);
  }

  lemma GrownBytes(layout: map<Offset, nat>, layout': map<Offset, nat>, alive: set<Offset>, added: set<Offset>)
    requires alive <= layout.Keys && alive !! added && forall o | o in layout :: o in layout' && layout'[o] == layout[o]
    ensures Bytes(layout', alive + added) == Bytes(layout, alive) + Bytes(layout', added)
  {
    BytesSplit(layout', alive + added, added);
    assert alive + added - added == alive;
    assert Sizes(layout', alive) == Sizes(layout, alive);
  }

  lemma GrownCount(alive: set<Offset>, offsets: seq<Offset>)
    requires Distinct(offsets) && alive !! Elements(offsets)
    ensures |alive + Elements(offsets)| == |alive| + |offsets|
  {
    DistinctSize(offsets);
  }

  /** Writes accounts to a storage; the counters take in exactly the accounts that were appended. */
  method WriteAccounts(store: Store, dataLens: seq<nat>, ghost alive: set<Offset>) returns (r: Store, offsets: seq<Offset>)
    requires Tracks(store, alive)
    ensures Tracks(r, alive + Elements(offsets)) && Appended(store, r, offsets, dataLens)
  {
    var size;
    r, offsets, size := AppendAccounts(store, dataLens);
    GrownBytes(store.layout, r.layout, alive, Elements(offsets));
    GrownCount(alive, offsets);
    assert MarksRight(r, alive + Elements(offsets));
    r := r.(count := r.count + |offsets|, aliveBytes := r.aliveBytes + size);
  }

  // ---- The marks and the snapshot reader ----

  /** The offsets that stay. */
  ghost function Left(alive: set<Offset>, gone: set<Offset>): set<Offset> { set o | o in alive && o !in gone }

  /** The byte belongs to the account at the offset. */
  ghost predicate InAccountAt(layout: map<Offset, nat>, o: Offset, p: nat)
    requires o in layout
  {
    o <= p < o + StorageReader.StoredSize(layout[o])
  }

  lemma BytesOfOneAccount(layout: map<Offset, nat>, len: nat, a: Offset, b: Offset, p: nat)
    requires LaidOut(layout, len) && a in layout && b in layout && InAccountAt(layout, a, p) && InAccountAt(layout, b, p)
    ensures a == b
  {
    assert Apart(layout, a, b) && Apart(layout, b, a);
  }

  /** A mark covers exactly the bytes of its account. */
  lemma MarkCovers(store: Store, alive: set<Offset>, i: nat, p: nat)
    requires MarksRight(store, alive) && i < |store.obsolete|
    ensures var item := store.obsolete[i];
            item.offset in store.layout && item.offset !in alive
            && (StorageReader.InAccount(item, p) <==> InAccountAt(store.layout, item.offset, p))
  {
  }

  lemma NotMarkedTwice(store: Store, alive: set<Offset>, snapshot: Option<Slot>, p: nat)
    requires LaidOut(store.layout, store.len) && MarksRight(store, alive)
    ensures !StorageReader.MarkedTwice(store.obsolete, snapshot, p)
  {
    forall i, j | 0 <= i < j < |store.obsolete|
      ensures !(StorageReader.InAccount(store.obsolete[i], p) && StorageReader.InAccount(store.obsolete[j], p))
    {
      MarkCovers(store, alive, i, p);
      MarkCovers(store, alive, j, p);
      if StorageReader.InAccount(store.obsolete[i], p) && StorageReader.InAccount(store.obsolete[j], p) {
        BytesOfOneAccount(store.layout, store.len, store.obsolete[i].offset, store.obsolete[j].offset, p);
      }
    }
  }

  /** Whatever has been written and reclaimed, the marks satisfy what the snapshot reader needs: no
      byte of the file is marked obsolete twice. */
  lemma MarksSuitReader(store: Store, alive: set<Offset>, snapshot: Option<Slot>)
    requires Tracks(store, alive)
    ensures StorageReader.MarkedOnce(store.obsolete, snapshot, store.len)
    ensures forall i | 0 <= i < |store.obsolete| :: store.obsolete[i].offset < store.len
  {
    forall i | 0 <= i < |store.obsolete|
      ensures store.obsolete[i].offset < store.len
    {
      PastEnd(store.layout, store.len, store.obsolete[i].offset);
    }
    forall p: nat | p < store.len
      ensures !StorageReader.MarkedTwice(store.obsolete, snapshot, p)
    {
      NotMarkedTwice(store, alive, snapshot, p);
    }
  }

  /** So a reader of the storage delivers exactly the bytes outside the accounts that were marked at or
      before the snapshot, and announces their number. */
  method OpenReader(store: Store, data: seq<bv8>, snapshot: Option<Slot>, ghost alive: set<Offset>)
    returns (reader: StorageReader.AccountStorageReader)
    requires Tracks(store, alive) && |data| == store.len
    ensures fresh(reader) && reader.Valid() && reader.data == data
    ensures reader.Remaining() == StorageReader.KeptBytes(data, store.obsolete, snapshot, 0)
    ensures reader.numAliveBytes == |reader.Remaining()|
  {
    MarksSuitReader(store, alive, snapshot);
    reader := new StorageReader.AccountStorageReader(data, store.obsolete, snapshot);
  }

  /** All bytes of the account are delivered at snapshots before `mark`, and none from there on. */
  ghost predicate GoneFrom(store: Store, o: Offset, mark: Slot)
    requires o in store.layout
  {
    forall snapshot: Slot, p: nat | InAccountAt(store.layout, o, p) ::
      StorageReader.DroppedAt(store.obsolete, Some(snapshot), p) <==> mark <= snapshot
  }

  /** All bytes of the account are delivered at every snapshot. */
  ghost predicate AlwaysThere(store: Store, o: Offset)
    requires o in store.layout
  {
    forall snapshot: Option<Slot>, p: nat | InAccountAt(store.layout, o, p) :: !StorageReader.DroppedAt(store.obsolete, snapshot, p)
  }

  lemma MarkDecides(store: Store, alive: set<Offset>, i: nat, snapshot: Slot, p: nat)
    requires LaidOut(store.layout, store.len) && MarksRight(store, alive) && i < |store.obsolete|
    requires store.obsolete[i].offset in store.layout && InAccountAt(store.layout, store.obsolete[i].offset, p)
    ensures StorageReader.DroppedAt(store.obsolete, Some(snapshot), p) <==> store.obsolete[i].slot <= snapshot
  {
    MarkCovers(store, alive, i, p);
    if store.obsolete[i].slot <= snapshot {
      assert StorageReader.Marks(store.obsolete[i], Some(snapshot), p);
    } else {
      forall j | 0 <= j < |store.obsolete| ensures !StorageReader.Marks(store.obsolete[j], Some(snapshot), p) {
        MarkCovers(store, alive, j, p);
        if StorageReader.InAccount(store.obsolete[j], p) {
          BytesOfOneAccount(store.layout, store.len, store.obsolete[i].offset, store.obsolete[j].offset, p);
          assert i == j;
        }
      }
    }
  }

  /** A marked account is gone from the slot of its mark on. */
  lemma MarkedIsGone(store: Store, alive: set<Offset>, i: nat)
    requires LaidOut(store.layout, store.len) && MarksRight(store, alive) && i < |store.obsolete|
    ensures store.obsolete[i].offset in store.layout && GoneFrom(store, store.obsolete[i].offset, store.obsolete[i].slot)
  {
    forall snapshot: Slot, p: nat | InAccountAt(store.layout, store.obsolete[i].offset, p)
      ensures StorageReader.DroppedAt(store.obsolete, Some(snapshot), p) <==> store.obsolete[i].slot <= snapshot
    {
      MarkDecides(store, alive, i, snapshot, p);
    }
  }

  /** What is alive is always there. */
  lemma AliveIsThere(store: Store, alive: set<Offset>, o: Offset)
    requires LaidOut(store.layout, store.len) && MarksRight(store, alive) && o in alive && o in store.layout
    ensures AlwaysThere(store, o)
  {
    forall snapshot: Option<Slot>, p: nat | InAccountAt(store.layout, o, p)
      ensures !StorageReader.DroppedAt(store.obsolete, snapshot, p)
    {
      forall j | 0 <= j < |store.obsolete| ensures !StorageReader.Marks(store.obsolete[j], snapshot, p) {
        MarkCovers(store, alive, j, p);
        if StorageReader.InAccount(store.obsolete[j], p) {
          BytesOfOneAccount(store.layout, store.len, o, store.obsolete[j].offset, p);
        }
      }
    }
  }

  /** An account reclaimed with a mark is gone from that slot on. */
  lemma ReclaimedIsGone(store: Store, r: Store, alive: set<Offset>, gone: set<Offset>, mark: Slot, o: Offset)
    requires MarksRight(store, alive) && gone <= alive && Remarked(store, r, gone, Some(mark), false) && o in gone
    requires LaidOut(r.layout, r.len) && MarksRight(r, Left(alive, gone))
    ensures o in r.layout && GoneFrom(r, o, mark)
  {
    var i :| 0 <= i < |r.obsolete| && r.obsolete[i].offset == o;
    MarkedIsGone(r, Left(alive, gone), i);
  }

  // ---- All storages ----

  datatype Reclaim = Reclaim(slot: Slot, offset: Offset)

  ghost function OffsetsIn(reclaims: seq<Reclaim>, slot: Slot): set<Offset> {
    set i | 0 <= i < |reclaims| && reclaims[i].slot == slot :: reclaims[i].offset
  }

  lemma OffsetsGrow(reclaims: seq<Reclaim>, i: nat, slot: Slot)
    requires i < |reclaims|
    ensures OffsetsIn(reclaims[..i + 1], slot)
         == OffsetsIn(reclaims[..i], slot) + if slot == reclaims[i].slot then {reclaims[i].offset} else {}
  {
  }

  function At(offsets: map<Slot, set<Offset>>, slot: Slot): set<Offset> {
    if slot in offsets then offsets[slot] else {}
  }

  method BySlot(reclaims: seq<Reclaim>) returns (offsets: map<Slot, set<Offset>>)
    ensures Grouped(reclaims, offsets)
  {
    offsets := map[];
    for i := 0 to |reclaims|
      invariant forall s: Slot :: At(offsets, s) == OffsetsIn(reclaims[..i], s)
      invariant forall s | s in offsets :: offsets[s] != {}
    {
      var r := reclaims[i];
      ghost var before := offsets;
      offsets := offsets[r.slot := At(offsets, r.slot) + {r.offset}];
      forall s: Slot
        ensures At(offsets, s) == OffsetsIn(reclaims[..i + 1], s)
      {
        assert reclaims[..i + 1] == reclaims[..i] + [r];
        assert At(before, s) == OffsetsIn(reclaims[..i], s);
        OffsetsGrow(reclaims, i, s);
      }
    }
    assert reclaims[..|reclaims|] == reclaims;
    assert forall s: Slot :: At(offsets, s) == OffsetsIn(reclaims, s);
  }

  lemma NothingGone(alive: set<Offset>)
    ensures Left(alive, {}) == alive
  {
  }

  ghost predicate TracksAt(stores: map<Slot, Store>, alive: map<Slot, set<Offset>>, s: Slot) {
    s in stores && s in alive && Tracks(stores[s], alive[s])
  }

  ghost predicate AllTracked(stores: map<Slot, Store>, alive: map<Slot, set<Offset>>) {
    stores.Keys == alive.Keys && forall s | s in stores :: TracksAt(stores, alive, s)
  }

  lemma OneMoreTracked(stores: map<Slot, Store>, alive: map<Slot, set<Offset>>, slot: Slot, store: Store, offsets: set<Offset>)
    requires AllTracked(stores, alive) && Tracks(store, offsets)
    ensures AllTracked(stores[slot := store], alive[slot := offsets])
  {
    var stores', alive' := stores[slot := store], alive[slot := offsets];
    forall s | s in stores'
      ensures TracksAt(stores', alive', s)
    {
      assert s != slot ==> TracksAt(stores, alive, s);
    }
  }

  /** A storage and what is alive in it, before and after its share of the reclaims. */
  ghost predicate Reduced(store: Store, r: Store, alive: set<Offset>, alive': set<Offset>, gone: set<Offset>, mark: Option<Slot>) {
    alive' == Left(alive, gone) && (r.count == 0 <==> gone == alive) && Remarked(store, r, gone, mark, r.count == 0)
  }

  method RemoveOne(store: Store, offsets: set<Offset>, mark: Option<Slot>, ghost alive: set<Offset>) returns (r: Store)
    requires Tracks(store, alive) && offsets <= alive
    ensures Tracks(r, Left(alive, offsets)) && Reduced(store, r, alive, Left(alive, offsets), offsets, mark)
  {
    r := RemoveDead(store, offsets, mark, alive);
    assert Left(alive, offsets) == alive - offsets;
  }

  /** Before and after: slots outside `rest` have lost their reclaims, the others are the same. */
  ghost predicate SlotDone(stores: map<Slot, Store>, stores': map<Slot, Store>, alive: map<Slot, set<Offset>>,
                           alive': map<Slot, set<Offset>>, offsets: map<Slot, set<Offset>>, mark: Option<Slot>, rest: set<Slot>, s: Slot) {
    && s in stores && s in stores' && s in alive && s in alive'
    && if s in offsets && s !in rest then Reduced(stores[s], stores'[s], alive[s], alive'[s], offsets[s], mark)
       else stores'[s] == stores[s] && alive'[s] == alive[s]
  }

  /** All storages, in the middle of the loop over the slots with reclaims. */
  ghost predicate AllDone(stores: map<Slot, Store>, stores': map<Slot, Store>, alive: map<Slot, set<Offset>>,
                          alive': map<Slot, set<Offset>>, offsets: map<Slot, set<Offset>>, mark: Option<Slot>, rest: set<Slot>) {
    stores'.Keys == stores.Keys && forall s | s in stores :: SlotDone(stores, stores', alive, alive', offsets, mark, rest, s)
  }

  ghost predicate DeadSoFar(stores': map<Slot, Store>, offsets: map<Slot, set<Offset>>, rest: set<Slot>, dead: set<Slot>) {
    forall s: Slot :: s in dead <==> s in stores' && s in offsets && s !in rest && stores'[s].count == 0
  }

  ghost predicate Within(offsets: map<Slot, set<Offset>>, alive: map<Slot, set<Offset>>) {
    forall s | s in offsets && s in alive :: offsets[s] <= alive[s]
  }

  /** The slot has not been visited: it is as it was, and its reclaims are alive in it. */
  lemma NotVisited(stores: map<Slot, Store>, stores': map<Slot, Store>, alive: map<Slot, set<Offset>>, alive': map<Slot, set<Offset>>,
                   offsets: map<Slot, set<Offset>>, mark: Option<Slot>, rest: set<Slot>, slot: Slot)
    requires AllDone(stores, stores', alive, alive', offsets, mark, rest) && AllTracked(stores', alive') && Within(offsets, alive)
    requires slot in rest && slot in stores && slot in offsets
    ensures slot in stores' && slot in alive && slot in alive' && stores'[slot] == stores[slot] && alive'[slot] == alive[slot]
    ensures Tracks(stores'[slot], alive'[slot]) && offsets[slot] <= alive'[slot]
  {
    assert SlotDone(stores, stores', alive, alive', offsets, mark, rest, slot);
    assert TracksAt(stores', alive', slot);
  }

  method RemoveNext(ghost stores: map<Slot, Store>, stores': map<Slot, Store>, ghost alive: map<Slot, set<Offset>>, ghost alive': map<Slot, set<Offset>>,
                    offsets: map<Slot, set<Offset>>, mark: Option<Slot>, ghost rest: set<Slot>, slot: Slot)
    returns (store: Store, ghost left: set<Offset>)
    requires AllDone(stores, stores', alive, alive', offsets, mark, rest) && AllTracked(stores', alive') && Within(offsets, alive)
    requires slot in rest && slot in stores && slot in offsets && slot in stores'
    ensures AllTracked(stores'[slot := store], alive'[slot := left])
    ensures AllDone(stores, stores'[slot := store], alive, alive'[slot := left], offsets, mark, rest - {slot})
  {
    NotVisited(stores, stores', alive, alive', offsets, mark, rest, slot);
    store := RemoveOne(stores'[slot], offsets[slot], mark, alive'[slot]);
    left := Left(alive'[slot], offsets[slot]);
    OneMoreTracked(stores', alive', slot, store, left);
    OneMoreDone(stores, stores', alive, alive', offsets, mark, rest, slot, store, left);
  }

  lemma NoneDone(stores: map<Slot, Store>, alive: map<Slot, set<Offset>>, offsets: map<Slot, set<Offset>>, mark: Option<Slot>)
    requires stores.Keys == alive.Keys
    ensures AllDone(stores, stores, alive, alive, offsets, mark, offsets.Keys)
  {
  }

  method RemoveGrouped(stores: map<Slot, Store>, offsets: map<Slot, set<Offset>>, mark: Option<Slot>, ghost alive: map<Slot, set<Offset>>)
    returns (stores': map<Slot, Store>, dead: set<Slot>, ghost alive': map<Slot, set<Offset>>)
    requires AllTracked(stores, alive) && Within(offsets, alive)
    ensures AllTracked(stores', alive') && AllDone(stores, stores', alive, alive', offsets, mark, {})
    ensures DeadSoFar(stores', offsets, {}, dead)
  {
    stores', dead, alive' := stores, {}, alive;
    var rest := offsets.Keys;
    NoneDone(stores, alive, offsets, mark);
    while rest != {}
      invariant rest <= offsets.Keys && AllTracked(stores', alive') && AllDone(stores, stores', alive, alive', offsets, mark, rest)
      invariant DeadSoFar(stores', offsets, rest, dead)
      decreases rest
    {
      var slot :| slot in rest;
      if slot in stores' {
        var store;
        ghost var left;
        store, left := RemoveNext(stores, stores', alive, alive', offsets, mark, rest, slot);
        DeadGrows(stores', offsets, rest, dead, slot, store);
        dead := if store.count == 0 then dead + {slot} else dead;
        stores', alive' := stores'[slot := store], alive'[slot := left];
      } else {
        NoStorage(stores, stores', alive, alive', offsets, mark, rest, slot);
        NoneDead(stores', offsets, rest, dead, slot);
      }
      rest := rest - {slot};
    }
  }

  lemma DeadGrows(stores': map<Slot, Store>, offsets: map<Slot, set<Offset>>, rest: set<Slot>, dead: set<Slot>, slot: Slot, store: Store)
    requires DeadSoFar(stores', offsets, rest, dead) && slot in rest && slot in stores' && slot in offsets
    ensures DeadSoFar(stores'[slot := store], offsets, rest - {slot}, if store.count == 0 then dead + {slot} else dead)
  {
  }

  lemma NoneDead(stores': map<Slot, Store>, offsets: map<Slot, set<Offset>>, rest: set<Slot>, dead: set<Slot>, slot: Slot)
    requires DeadSoFar(stores', offsets, rest, dead) && slot !in stores'
    ensures DeadSoFar(stores', offsets, rest - {slot}, dead)
  {
  }

  lemma NoStorage(stores: map<Slot, Store>, stores': map<Slot, Store>, alive: map<Slot, set<Offset>>, alive': map<Slot, set<Offset>>,
                  offsets: map<Slot, set<Offset>>, mark: Option<Slot>, rest: set<Slot>, slot: Slot)
    requires AllDone(stores, stores', alive, alive', offsets, mark, rest) && slot !in stores'
    ensures AllDone(stores, stores', alive, alive', offsets, mark, rest - {slot})
  {
    forall s | s in stores
      ensures SlotDone(stores, stores', alive, alive', offsets, mark, rest - {slot}, s)
    {
      assert SlotDone(stores, stores', alive, alive', offsets, mark, rest, s);
    }
  }

  lemma OneMoreDone(stores: map<Slot, Store>, stores': map<Slot, Store>, alive: map<Slot, set<Offset>>, alive': map<Slot, set<Offset>>,
                    offsets: map<Slot, set<Offset>>, mark: Option<Slot>, rest: set<Slot>, slot: Slot, store: Store, left: set<Offset>)
    requires AllDone(stores, stores', alive, alive', offsets, mark, rest)
    requires slot in rest && slot in stores && slot in offsets && slot in alive
    requires Reduced(stores[slot], store, alive[slot], left, offsets[slot], mark)
    ensures AllDone(stores, stores'[slot := store], alive, alive'[slot := left], offsets, mark, rest - {slot})
  {
    forall s | s in stores
      ensures SlotDone(stores, stores'[slot := store], alive, alive'[slot := left], offsets, mark, rest - {slot}, s)
    {
      assert SlotDone(stores, stores', alive, alive', offsets, mark, rest, s);
    }
  }

  ghost function Remaining(alive: map<Slot, set<Offset>>, reclaims: seq<Reclaim>): map<Slot, set<Offset>> {
    map s | s in alive :: Left(alive[s], OffsetsIn(reclaims, s))
  }

  ghost predicate Grouped(reclaims: seq<Reclaim>, offsets: map<Slot, set<Offset>>) {
    && (forall s: Slot :: s in offsets <==> OffsetsIn(reclaims, s) != {})
    && forall s | s in offsets :: offsets[s] == OffsetsIn(reclaims, s)
  }

  /** The index refers to every reclaimed account of a storage that is still there. */
  ghost predicate AllAlive(reclaims: seq<Reclaim>, alive: map<Slot, set<Offset>>) {
    forall i | 0 <= i < |reclaims| && reclaims[i].slot in alive :: reclaims[i].offset in alive[reclaims[i].slot]
  }

  /** Accounts of the slot are reclaimed, and they are all that was alive. */
  ghost predicate LastWent(alive: map<Slot, set<Offset>>, reclaims: seq<Reclaim>, s: Slot) {
    s in alive && OffsetsIn(reclaims, s) != {} && OffsetsIn(reclaims, s) == alive[s]
  }

  lemma GroupsAlive(reclaims: seq<Reclaim>, offsets: map<Slot, set<Offset>>, alive: map<Slot, set<Offset>>)
    requires AllAlive(reclaims, alive) && Grouped(reclaims, offsets)
    ensures Within(offsets, alive)
  {
  }

  ghost predicate SlotReclaimed(stores: map<Slot, Store>, stores': map<Slot, Store>, reclaims: seq<Reclaim>, mark: Option<Slot>, dead: bool, s: Slot) {
    && s in stores && s in stores'
    && if OffsetsIn(reclaims, s) == {} then stores'[s] == stores[s]
       else Remarked(stores[s], stores'[s], OffsetsIn(reclaims, s), mark, dead)
  }

  /** Each storage has the marks for its reclaimed accounts, and the dead slots are those that lost all. */
  ghost predicate Reclaimed(stores: map<Slot, Store>, stores': map<Slot, Store>, alive: map<Slot, set<Offset>>,
                            reclaims: seq<Reclaim>, mark: Option<Slot>, dead: set<Slot>) {
    && stores'.Keys == stores.Keys
    && (forall s: Slot :: s in dead <==> s in stores && LastWent(alive, reclaims, s))
    && forall s | s in stores :: SlotReclaimed(stores, stores', reclaims, mark, s in dead, s)
  }

  lemma DoneIsReclaimed(stores: map<Slot, Store>, stores': map<Slot, Store>, alive: map<Slot, set<Offset>>, alive': map<Slot, set<Offset>>,
                        reclaims: seq<Reclaim>, offsets: map<Slot, set<Offset>>, mark: Option<Slot>, s: Slot)
    requires Grouped(reclaims, offsets) && SlotDone(stores, stores', alive, alive', offsets, mark, {}, s)
    ensures s in offsets && stores'[s].count == 0 <==> LastWent(alive, reclaims, s)
    ensures SlotReclaimed(stores, stores', reclaims, mark, s in offsets && stores'[s].count == 0, s)
    ensures alive'[s] == Left(alive[s], OffsetsIn(reclaims, s))
  {
    NothingGone(alive[s]);
  }

  lemma AllReclaimed(stores: map<Slot, Store>, stores': map<Slot, Store>, alive: map<Slot, set<Offset>>, alive': map<Slot, set<Offset>>,
                     reclaims: seq<Reclaim>, offsets: map<Slot, set<Offset>>, mark: Option<Slot>, dead: set<Slot>)
    requires Grouped(reclaims, offsets) && AllDone(stores, stores', alive, alive', offsets, mark, {}) && DeadSoFar(stores', offsets, {}, dead)
    requires stores.Keys == alive.Keys == alive'.Keys
    ensures Reclaimed(stores, stores', alive, reclaims, mark, dead) && alive' == Remaining(alive, reclaims)
  {
    forall s | s in stores
      ensures s in dead <==> LastWent(alive, reclaims, s)
      ensures SlotReclaimed(stores, stores', reclaims, mark, s in dead, s)
      ensures alive'[s] == Left(alive[s], OffsetsIn(reclaims, s))
    {
      DoneIsReclaimed(stores, stores', alive, alive', reclaims, offsets, mark, s);
    }
  }

  method RemoveFromStores(stores: map<Slot, Store>, reclaims: seq<Reclaim>, mark: Option<Slot>, ghost alive: map<Slot, set<Offset>>)
    returns (stores': map<Slot, Store>, dead: set<Slot>)
    requires AllTracked(stores, alive) && AllAlive(reclaims, alive)
    ensures AllTracked(stores', Remaining(alive, reclaims)) && Reclaimed(stores, stores', alive, reclaims, mark, dead)
  {
    var offsets := BySlot(reclaims);
    GroupsAlive(reclaims, offsets, alive);
    ghost var alive';
    stores', dead, alive' := RemoveGrouped(stores, offsets, mark, alive);
    AllReclaimed(stores, stores', alive, alive', reclaims, offsets, mark, dead);
  }

  /** Accounts reclaimed with a mark, from storages that stay, are gone from the slot of the mark on. */
  ghost predicate GoneFromMark(stores: map<Slot, Store>, reclaims: seq<Reclaim>, mark: Slot, dead: set<Slot>) {
    forall s: Slot, o: Offset | s in stores && s !in dead && o in OffsetsIn(reclaims, s) ::
      o in stores[s].layout && GoneFrom(stores[s], o, mark)
  }

  /** Accounts that are alive are there at every snapshot. */
  ghost predicate AliveThere(stores: map<Slot, Store>, alive: map<Slot, set<Offset>>) {
    forall s: Slot, o: Offset | s in stores && s in alive && o in alive[s] :: o in stores[s].layout && AlwaysThere(stores[s], o)
  }

  lemma TrackedIsThere(stores: map<Slot, Store>, alive: map<Slot, set<Offset>>)
    requires AllTracked(stores, alive)
    ensures AliveThere(stores, alive)
  {
    forall s: Slot, o: Offset | s in stores && s in alive && o in alive[s]
      ensures o in stores[s].layout && AlwaysThere(stores[s], o)
    {
      assert TracksAt(stores, alive, s);
      AliveIsThere(stores[s], alive[s], o);
    }
  }

  lemma ReclaimsAreGone(stores: map<Slot, Store>, stores': map<Slot, Store>, alive: map<Slot, set<Offset>>,
                        reclaims: seq<Reclaim>, mark: Slot, dead: set<Slot>)
    requires AllTracked(stores, alive) && AllAlive(reclaims, alive) && AllTracked(stores', Remaining(alive, reclaims))
    requires Reclaimed(stores, stores', alive, reclaims, Some(mark), dead)
    ensures GoneFromMark(stores', reclaims, mark, dead)
  {
    forall s: Slot, o: Offset | s in stores' && s !in dead && o in OffsetsIn(reclaims, s)
      ensures o in stores'[s].layout && GoneFrom(stores'[s], o, mark)
    {
      assert TracksAt(stores, alive, s) && TracksAt(stores', Remaining(alive, reclaims), s);
      assert SlotReclaimed(stores, stores', reclaims, Some(mark), s in dead, s);
      ReclaimedIsGone(stores[s], stores'[s], alive[s], OffsetsIn(reclaims, s), mark, o);
    }
  }

  method WriteTo(stores: map<Slot, Store>, slot: Slot, dataLens: seq<nat>, ghost alive: map<Slot, set<Offset>>)
    returns (store: Store, offsets: seq<Offset>)
    requires AllTracked(stores, alive) && slot in stores
    ensures slot in alive && AllTracked(stores[slot := store], alive[slot := alive[slot] + Elements(offsets)])
    ensures Appended(stores[slot], store, offsets, dataLens)
  {
    assert TracksAt(stores, alive, slot);
    store, offsets := WriteAccounts(stores[slot], dataLens, alive[slot]);
    OneMoreTracked(stores, alive, slot, store, alive[slot] + Elements(offsets));
  }

  class Storages {
    var stores: map<Slot, Store>
    /** The offsets in each storage that the index refers to. */
    ghost var alive: map<Slot, set<Offset>>

    ghost predicate Valid()
      reads this
    {
      AllTracked(stores, alive)
    }

    constructor ()
      ensures Valid() && stores == map[] && alive == map[]
    {
      stores, alive := map[], map[];
    }

    /** A new storage for a slot, without accounts. */
    method CreateStore(slot: Slot, capacity: nat)
      requires Valid() && slot !in stores
      modifies this
      ensures Valid() && alive == old(alive)[slot := {}]
      ensures stores == old(stores)[slot := Store(map[], 0, capacity, 0, 0, [])]
    {
      var store := Store(map[], 0, capacity, 0, 0, []);
      assert Sizes(store.layout, {}) == map[];
      OneMoreTracked(stores, alive, slot, store, {});
      stores := stores[slot := store];
      alive := alive[slot := {}];
    }

    /** Writes accounts to the storage of a slot; those that fit are alive there. */
    method StoreAccounts(slot: Slot, dataLens: seq<nat>) returns (offsets: seq<Offset>)
      requires Valid() && slot in stores
      modifies this
      ensures Valid() && alive == old(alive)[slot := old(alive)[slot] + Elements(offsets)]
      ensures stores.Keys == old(stores).Keys && forall s | s in stores && s != slot :: stores[s] == old(stores)[s]
      ensures Appended(old(stores)[slot], stores[slot], offsets, dataLens)
    {
      var store;
      store, offsets := WriteTo(stores, slot, dataLens, alive);
      stores := stores[slot := store];
      alive := alive[slot := alive[slot] + Elements(offsets)];
    }

    /** Removes reclaimed accounts. A slot is dead if and only if all its alive accounts went. */
    method RemoveDeadAccounts(reclaims: seq<Reclaim>, mark: Option<Slot>) returns (dead: set<Slot>)
      requires Valid() && AllAlive(reclaims, alive)
      modifies this
      ensures Valid() && alive == Remaining(old(alive), reclaims)
      ensures Reclaimed(old(stores), stores, old(alive), reclaims, mark, dead)
      // A snapshot before the mark still has the reclaimed accounts of slots that did not die, a snapshot from
      // the mark on does not; every snapshot has what is alive.
      ensures mark.Some? ==> GoneFromMark(stores, reclaims, mark.value, dead)
      ensures AliveThere(stores, alive)
    {
      ghost var before := stores;
      stores, dead := RemoveFromStores(stores, reclaims, mark, alive);
      if mark.Some? {
        ReclaimsAreGone(before, stores, alive, reclaims, mark.value, dead);
      }
      alive := Remaining(alive, reclaims);
      TrackedIsThere(stores, alive);
    }
  }
}
