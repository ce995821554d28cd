/** Recent block hashes and their ages. */
module BlockhashQueue {
  import opened Types

  type Hash = nat

  datatype Info = Info(lamportsPerSignature: nat, index: nat)

  /** The calls that put a hash in the queue. */
  datatype Op = Genesis(hash: Hash, lamportsPerSignature: nat) | Register(hash: Hash, lamportsPerSignature: nat)

  ghost function Registered(ops: seq<Op>): nat {
    if ops == [] then 0 else Registered(ops[..|ops| - 1]) + if ops[|ops| - 1].Register? then 1 else 0
  }

  /** What the latest call for a hash said about it. */
  ghost function Latest(ops: seq<Op>, hash: Hash): Option<Info> {
    if ops == [] then None
    else
      var op := ops[|ops| - 1];
      if op.hash == hash then Some(Info(op.lamportsPerSignature, if op.Register? then Registered(ops) else 0))
      else Latest(ops[..|ops| - 1], hash)
  }

  lemma {:induction false} LatestInRange(ops: seq<Op>, hash: Hash)
    requires Latest(ops, hash).Some?
    ensures Latest(ops, hash).value.index <= Registered(ops)
  {
    if ops[|ops| - 1].hash != hash {
      LatestInRange(ops[..|ops| - 1], hash);
    }
  }

  ghost predicate GenesisFirst(ops: seq<Op>) { forall i | 0 < i < |ops| :: ops[i].Register? }

  /** Two hashes cannot share an index. */
  lemma {:induction false} IndicesDiffer(ops: seq<Op>, a: Hash, b: Hash)
    requires GenesisFirst(ops) && a != b && Latest(ops, a).Some? && Latest(ops, b).Some?
    ensures Latest(ops, a).value.index != Latest(ops, b).value.index
  {
    var front := ops[..|ops| - 1];
    if ops[|ops| - 1].hash == a {
      LatestInRange(front, b);
    } else if ops[|ops| - 1].hash == b {
      LatestInRange(front, a);
    } else {
      IndicesDiffer(front, a, b);
    }
  }

  ghost predicate InWindow(ops: seq<Op>, hash: Hash, lo: int, hi: int) {
    Latest(ops, hash).Some? && lo <= Latest(ops, hash).value.index < hi
  }

  ghost predicate Since(ops: seq<Op>, hash: Hash, from: int) {
    Latest(ops, hash).Some? && from <= Latest(ops, hash).value.index
  }

  /** A window of `n` indices holds at most `n` hashes. */
  lemma {:induction false} WindowBounds(ops: seq<Op>, hashes: set<Hash>, lo: int, n: nat)
    requires GenesisFirst(ops) && forall h | h in hashes :: InWindow(ops, h, lo, lo + n)
    ensures |hashes| <= n
    decreases n
  {
    if hashes != {} {
      var h :| h in hashes;
      assert InWindow(ops, h, lo, lo + n);
      var top := set h | h in hashes && !InWindow(ops, h, lo, lo + n - 1);
      forall a, b | a in top && b in top
        ensures a == b
      {
        if a != b {
          IndicesDiffer(ops, a, b);
        }
      }
      AtMostOne(top);
      WindowBounds(ops, hashes - top, lo, n - 1);
      assert hashes == (hashes - top) + top;
    }
  }

  lemma AtMostOne(s: set<Hash>)
    requires forall a, b | a in s && b in s :: a == b
    ensures |s| <= 1
  {
    if x :| x in s {
      assert s == {x};
    }
  }

  /** Each listed hash carries what its latest call said, and everything from `keptFrom` on is listed. */
  ghost predicate Lists(hashes: map<Hash, Info>, ops: seq<Op>, keptFrom: int) {
    && (forall h | h in hashes :: Latest(ops, h) == Some(hashes[h]))
    && (forall h: Hash | Since(ops, h, keptFrom) :: h in hashes)
  }

  /** What a call says about its hash. */
  ghost function InfoOf(ops: seq<Op>, op: Op): Info {
    Info(op.lamportsPerSignature, if op.Register? then Registered(ops) + 1 else 0)
  }

  lemma OpAdded(ops: seq<Op>, op: Op, h: Hash)
    ensures Registered(ops + [op]) == Registered(ops) + if op.Register? then 1 else 0
    ensures Latest(ops + [op], h) == if op.hash == h then Some(InfoOf(ops, op)) else Latest(ops, h)
  {
    assert (ops + [op])[..|ops|] == ops;
  }

  lemma ListsGrows(hashes: map<Hash, Info>, ops: seq<Op>, op: Op, keptFrom: int)
    requires Lists(hashes, ops, keptFrom)
    ensures Lists(hashes[op.hash := InfoOf(ops, op)], ops + [op], keptFrom)
  {
    var hashes' := hashes[op.hash := InfoOf(ops, op)];
    forall h: Hash
      ensures h in hashes' ==> Latest(ops + [op], h) == Some(hashes'[h])
      ensures Since(ops + [op], h, keptFrom) ==> h in hashes'
    {
      OpAdded(ops, op, h);
      assert Since(ops, h, keptFrom) ==> h in hashes;
    }
  }

  lemma NothingListed(hashes: map<Hash, Info>, keptFrom: int)
    requires Lists(hashes, [], keptFrom)
    ensures hashes == map[]
  {
    forall h: Hash
      ensures h !in hashes
    {
      assert Latest([], h) == None;
    }
  }

  /** A genesis call that comes first finds the queue empty. */
  lemma GenesisSize(hashes: map<Hash, Info>, ops: seq<Op>, op: Op, keptFrom: int)
    requires Lists(hashes, ops, keptFrom) && op.Genesis? && GenesisFirst(ops + [op])
    ensures |hashes[op.hash := InfoOf(ops, op)]| == 1
  {
    assert (ops + [op])[|ops|] == op;
    assert ops == [];
    NothingListed(hashes, keptFrom);
  }

  lemma RegisterSize(hashes: map<Hash, Info>, ops: seq<Op>, op: Op, n: nat)
    requires GenesisFirst(ops) ==> |hashes| <= n
    ensures GenesisFirst(ops + [op]) ==> |hashes[op.hash := InfoOf(ops, op)]| <= n + 1
  {
    var hashes' := hashes[op.hash := InfoOf(ops, op)];
    if GenesisFirst(ops + [op]) {
      forall i | 0 < i < |ops|
        ensures ops[i].Register?
      {
        assert (ops + [op])[i] == ops[i];
      }
      assert hashes'.Keys == hashes.Keys + {op.hash};
    }
  }

  /** The hashes that are not older than `maxAge`. */
  function Young(hashes: map<Hash, Info>, last: nat, maxAge: nat): map<Hash, Info> {
    map h | h in hashes && last - hashes[h].index <= maxAge :: hashes[h]
  }

  lemma YoungLists(hashes: map<Hash, Info>, ops: seq<Op>, keptFrom: int, last: nat, maxAge: nat)
    requires Lists(hashes, ops, keptFrom)
    ensures Lists(Young(hashes, last, maxAge), ops, MaxInt(keptFrom, last - maxAge))
  {
    forall h: Hash | Since(ops, h, MaxInt(keptFrom, last - maxAge))
      ensures h in Young(hashes, last, maxAge)
    {
      assert Since(ops, h, keptFrom);
    }
  }

  lemma YoungBounded(hashes: map<Hash, Info>, ops: seq<Op>, keptFrom: int, last: nat, maxAge: nat)
    requires Lists(hashes, ops, keptFrom) && GenesisFirst(ops) && Registered(ops) <= last <= Registered(ops) + 1
    ensures |Young(hashes, last, maxAge)| <= maxAge + 1 - (last - Registered(ops))
  {
    var young := Young(hashes, last, maxAge);
    forall h | h in young
      ensures InWindow(ops, h, last - maxAge, Registered(ops) + 1)
    {
      LatestInRange(ops, h);
    }
    if last - maxAge <= Registered(ops) + 1 {
      WindowBounds(ops, young.Keys, last - maxAge, Registered(ops) + 1 - (last - maxAge));
    }
  }

  class Queue {
    var lastHashIndex: nat
    var lastHash: Option<Hash>
    var hashes: map<Hash, Info>
    var maxAge: nat
    ghost var ops: seq<Op>
    /** No hash with this index or a later one has been purged. */
    ghost var keptFrom: int
    /** The smallest maximum age there has been. */
    ghost var floor: nat

    ghost predicate Valid()
      reads this
    {
      && Lists(hashes, ops, keptFrom) && lastHashIndex == Registered(ops)
      && keptFrom + floor <= lastHashIndex && floor <= maxAge
      && (lastHash == if ops == [] then None else Some(ops[|ops| - 1].hash))
      && (GenesisFirst(ops) ==> |hashes| <= maxAge + 1)
    }

    constructor (maxAge: nat)
      ensures Valid() && ops == [] && this.maxAge == floor == maxAge
    {
      lastHashIndex, lastHash, hashes, this.maxAge, ops, keptFrom, floor := 0, None, map[], maxAge, [], 0 - maxAge as int, maxAge;
    }

    /** The age of a hash is the number of registrations since its latest one. */
    method GetHashAge(hash: Hash) returns (age: Option<nat>)
      requires Valid()
      ensures age.Some? ==> Latest(ops, hash).Some? && age.value == Registered(ops) - Latest(ops, hash).value.index
      ensures age.None? ==> !Since(ops, hash, keptFrom)
    {
      if hash !in hashes {
        return None;
      }
      LatestInRange(ops, hash);
      return Some(lastHashIndex - hashes[hash].index);
    }

    /** A hash is valid for an age if and only if its latest call lies within that many registrations;
        for ages above the smallest maximum age so far that reach back before `keptFrom`, only if. */
    method GetHashInfoIfValid(hash: Hash, age: nat) returns (info: Option<Info>)
      requires Valid()
      ensures info.Some? ==> info == Latest(ops, hash) && Registered(ops) - info.value.index <= age
      ensures age <= floor || keptFrom <= Registered(ops) - age ==>
                (info.Some? <==> Latest(ops, hash).Some? && Registered(ops) - Latest(ops, hash).value.index <= age)
    {
      info := None;
      if hash in hashes && lastHashIndex - hashes[hash].index <= age {
        info := Some(hashes[hash]);
      }
      if Latest(ops, hash).Some? {
        LatestInRange(ops, hash);
      }
    }

    method GenesisHash(hash: Hash, lamportsPerSignature: nat)
      requires Valid()
      modifies this`hashes, this`lastHash, this`ops
      ensures Valid() && ops == old(ops) + [Genesis(hash, lamportsPerSignature)]
    {
      ghost var op := Genesis(hash, lamportsPerSignature);
      ListsGrows(hashes, ops, op, keptFrom);
      OpAdded(ops, op, hash);
      if GenesisFirst(ops + [op]) {
        GenesisSize(hashes, ops, op, keptFrom);
      }
      hashes := hashes[hash := Info(lamportsPerSignature, 0)];
      lastHash := Some(hash);
      ops := ops + [op];
    }

    method RegisterHash(hash: Hash, lamportsPerSignature: nat)
      requires Valid()
      modifies this`hashes, this`lastHash, this`lastHashIndex, this`ops, this`keptFrom
      ensures Valid() && ops == old(ops) + [Register(hash, lamportsPerSignature)]
      ensures old(keptFrom) <= keptFrom <= MaxInt(old(keptFrom), lastHashIndex - maxAge)
    {
      ghost var op := Register(hash, lamportsPerSignature);
      lastHashIndex := lastHashIndex + 1;
      Purge();
      ListsGrows(hashes, ops, op, keptFrom);
      OpAdded(ops, op, hash);
      RegisterSize(hashes, ops, op, maxAge);
      hashes := hashes[hash := Info(lamportsPerSignature, lastHashIndex)];
      lastHash := Some(hash);
      ops := ops + [op];
    }

    /** Drops the hashes that are too old, once there are as many as the queue should hold. */
    method Purge()
      requires Lists(hashes, ops, keptFrom) && Registered(ops) <= lastHashIndex <= Registered(ops) + 1
      modifies this`hashes, this`keptFrom
      ensures Lists(hashes, ops, keptFrom)
      ensures old(keptFrom) <= keptFrom <= MaxInt(old(keptFrom), lastHashIndex - maxAge)
      ensures GenesisFirst(ops) ==> |hashes| <= maxAge + 1 - (lastHashIndex - Registered(ops))
    {
      if |hashes| >= maxAge {
        YoungLists(hashes, ops, keptFrom, lastHashIndex, maxAge);
        if GenesisFirst(ops) {
          YoungBounded(hashes, ops, keptFrom, lastHashIndex, maxAge);
        }
        hashes := Young(hashes, lastHashIndex, maxAge);
        keptFrom := MaxInt(keptFrom, lastHashIndex - maxAge);
      }
    }

    method SetMaxAge(age: nat)
      requires Valid() && age > 0
      modifies this`hashes, this`maxAge, this`keptFrom, this`floor
      ensures Valid() && maxAge == age && floor == (if age < old(floor) then age else old(floor)) && keptFrom <= MaxInt(old(keptFrom), lastHashIndex - age)
    {
      maxAge := age;
      floor := if age < floor then age else floor;
      Purge();
    }
  }

  function MaxInt(a: int, b: int): int { if a < b then b else a }
}
