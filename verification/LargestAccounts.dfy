/** The accounts with the largest balances. */
module LargestAccounts {
  import opened Seqs
  import opened Types

  datatype Entry = Entry(lamports: nat, key: Pubkey)

  datatype AddressFilter = Exclude | Include

  predicate Less(a: Entry, b: Entry) { a.lamports < b.lamports || (a.lamports == b.lamports && a.key < b.key) }

  predicate Collect(e: Entry, addresses: set<Pubkey>, filter: AddressFilter) {
    e.lamports != 0 && (filter.Include? <==> e.key in addresses)
  }

  /** The accounts of a scan that the filter lets through. */
  ghost function Collected(scan: seq<Entry>, addresses: set<Pubkey>, filter: AddressFilter): set<Entry> {
    set i | 0 <= i < |scan| && Collect(scan[i], addresses, filter) :: scan[i]
  }

  ghost predicate AllBelow(rest: set<Entry>, top: set<Entry>) { forall e, t | e in rest && t in top :: Less(e, t) }

  /** `top` holds the `num` largest of `all`, or all of them if there are fewer. */
  ghost predicate IsTop(top: set<Entry>, all: set<Entry>, num: nat) {
    top <= all && AllBelow(all - top, top) && |top| == if |all| < num then |all| else num
  }

  ghost predicate Descending(s: seq<Entry>) { forall i, j | 0 <= i < j < |s| :: Less(s[j], s[i]) }

  ghost predicate DistinctKeys(scan: seq<Entry>) { forall i, j | 0 <= i < j < |scan| :: scan[i].key != scan[j].key }

  /** The smallest entry of the heap. */
  method Peek(heap: set<Entry>) returns (min: Entry)
    requires heap != {}
    ensures min in heap && forall e | e in heap && e != min :: Less(min, e)
  {
    min :| min in heap;
    var rest := heap - {min};
    while rest != {}
      invariant rest <= heap && min in heap && min !in rest
      invariant forall e | e in heap && e !in rest && e != min :: Less(min, e)
      decreases rest
    {
      var e :| e in rest;
      rest := rest - {e};
      if Less(e, min) {
        min := e;
      }
    }
  }

  lemma PushFits(heap: set<Entry>, all: set<Entry>, num: nat, e: Entry)
    requires IsTop(heap, all, num) && e !in all && |heap| < num
    ensures IsTop(heap + {e}, all + {e}, num)
  {
    assert all == heap + (all - heap);
    assert all == heap;
  }

  lemma SkipSmall(heap: set<Entry>, all: set<Entry>, num: nat, min: Entry, e: Entry)
    requires IsTop(heap, all, num) && e !in all && |heap| == num
    requires min in heap && (forall t | t in heap && t != min :: Less(min, t)) && Less(e, min)
    ensures IsTop(heap, all + {e}, num)
  {
    assert (all + {e}) - heap == (all - heap) + {e};
  }

  lemma ReplaceMin(heap: set<Entry>, all: set<Entry>, num: nat, min: Entry, e: Entry)
    requires IsTop(heap, all, num) && e !in all && |heap| == num
    requires min in heap && (forall t | t in heap && t != min :: Less(min, t)) && Less(min, e)
    ensures IsTop(heap - {min} + {e}, all + {e}, num)
  {
    var top := heap - {min} + {e};
    assert (all + {e}) - top == (all - heap) + {min};
    assert AllBelow((all - heap) + {min}, top) by {
      forall x, t | x in (all - heap) + {min} && t in top
        ensures Less(x, t)
      {
        assert x != min ==> Less(x, min);
      }
    }
    assert |all| >= num by { assert all == heap + (all - heap); }
  }

  /** One account of the scan. */
  method Offer(heap: set<Entry>, num: nat, e: Entry, ghost all: set<Entry>) returns (r: set<Entry>)
    requires num > 0 && IsTop(heap, all, num) && e !in all
    ensures IsTop(r, all + {e}, num)
  {
    if |heap| == num {
      var min := Peek(heap);
      if Less(e, min) || e == min {
        SkipSmall(heap, all, num, min, e);
        return heap;
      }
      ReplaceMin(heap, all, num, min, e);
      return heap - {min} + {e};
    }
    PushFits(heap, all, num, e);
    return heap + {e};
  }

  /** Takes the entries out of the heap, the smallest first, to the end of the result. */
  method IntoSorted(heap: set<Entry>) returns (s: seq<Entry>)
    ensures Descending(s) && Elements(s) == heap
  {
    s := [];
    var rest := heap;
    while rest != {}
      invariant rest <= heap && Descending(s) && Elements(s) == heap - rest
      invariant AllBelow(Elements(s), rest)
      decreases rest
    {
      var min := Peek(rest);
      rest := rest - {min};
      ElementsJoin([min], s);
      ElementsOfOne(min);
      s := [min] + s;
    }
  }

  ghost predicate Wanted(e: Entry, addresses: set<Pubkey>, filter: AddressFilter) {
    && e.lamports > 0
    && match filter
       case Include => e.key in addresses
       case Exclude => e.key !in addresses
  }

  lemma CollectedIsWanted(scan: seq<Entry>, addresses: set<Pubkey>, filter: AddressFilter, e: Entry)
    ensures e in Collected(scan, addresses, filter) <==> e in scan && Wanted(e, addresses, filter)
  {
  }

  /** The top of what is collected, said of the accounts themselves. */
  lemma TopIsLargest(scan: seq<Entry>, num: nat, addresses: set<Pubkey>, filter: AddressFilter, s: seq<Entry>)
    requires Descending(s) && IsTop(Elements(s), Collected(scan, addresses, filter), num)
    ensures |s| <= num
    ensures forall e | e in s :: e in scan && Wanted(e, addresses, filter)
    ensures forall e | e in scan && Wanted(e, addresses, filter) && e !in s :: |s| == num &&
              forall t | t in s :: t.lamports > e.lamports || (t.lamports == e.lamports && t.key > e.key)
  {
    var all := Collected(scan, addresses, filter);
    DistinctSize(s);
    ElementsAre(s);
    forall e ensures e in all <==> e in scan && Wanted(e, addresses, filter) {
      CollectedIsWanted(scan, addresses, filter, e);
    }
    if Elements(s) < all {
      assert all == Elements(s) + (all - Elements(s));
    }
  }

  lemma ElementsAre(s: seq<Entry>)
    ensures forall e :: e in Elements(s) <==> e in s
  {
  }

  lemma CollectNext(scan: seq<Entry>, addresses: set<Pubkey>, filter: AddressFilter, i: nat)
    requires DistinctKeys(scan) && i < |scan|
    ensures scan[i] !in Collected(scan[..i], addresses, filter)
    ensures Collected(scan[..i + 1], addresses, filter)
         == Collected(scan[..i], addresses, filter) + if Collect(scan[i], addresses, filter) then {scan[i]} else {}
  {
  }

  /** The largest accounts in descending order of balance, and of address for equal balances. */
  method LoadLargestAccounts(scan: seq<Entry>, num: nat, addresses: set<Pubkey>, filter: AddressFilter)
    returns (largest: seq<Entry>)
    requires DistinctKeys(scan)
    ensures Descending(largest) && IsTop(Elements(largest), Collected(scan, addresses, filter), num)
    // Highest balance first, and the higher address first among equal balances.
    ensures forall i, j | 0 <= i < j < |largest| ::
              || largest[i].lamports > largest[j].lamports
              || (largest[i].lamports == largest[j].lamports && largest[i].key > largest[j].key)
    ensures |largest| <= num
    // Every one of them was in the scan, has lamports, and is among the addresses to include, or not among those to exclude.
    ensures forall e | e in largest :: e in scan && Wanted(e, addresses, filter)
    // Such an account is missing only if there are `num` larger ones.
    ensures forall e | e in scan && Wanted(e, addresses, filter) && e !in largest :: |largest| == num &&
              forall t | t in largest :: t.lamports > e.lamports || (t.lamports == e.lamports && t.key > e.key)
  {
    if num == 0 {
      TopIsLargest(scan, num, addresses, filter, []);
      return [];
    }
    var heap: set<Entry> := {};
    for i := 0 to |scan|
      invariant IsTop(heap, Collected(scan[..i], addresses, filter), num)
    {
      CollectNext(scan, addresses, filter, i);
      if Collect(scan[i], addresses, filter) {
        heap := Offer(heap, num, scan[i], Collected(scan[..i], addresses, filter));
      }
    }
    assert scan[..|scan|] == scan;
    largest := IntoSorted(heap);
    TopIsLargest(scan, num, addresses, filter, largest);
  }
}
