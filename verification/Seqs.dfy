/** Sequences as collections of their elements. */
module Seqs {

  ghost function Elements<T>(s: seq<T>): set<T> { set i | 0 <= i < |s| :: s[i] }

  ghost predicate Distinct<T>(s: seq<T>) { forall i, j | 0 <= i < j < |s| :: s[i] != s[j] }

  lemma ElementsJoin<T>(a: seq<T>, b: seq<T>)
    ensures Elements(a + b) == Elements(a) + Elements(b)
  {
    forall x | x in Elements(a) + Elements(b)
      ensures x in Elements(a + b)
    {
      assert x in a + b;
    }
    forall x | x in Elements(a + b)
      ensures x in Elements(a) + Elements(b)
    {
      assert x in a || x in b;
    }
  }

  lemma ElementsOfOne<T>(x: T)
    ensures Elements([x]) == {x}
  {
    assert [x][0] == x;
  }

  lemma ElementsGrow<T>(s: seq<T>, x: T)
    ensures Elements(s + [x]) == Elements(s) + {x}
  {
    ElementsJoin(s, [x]);
    ElementsOfOne(x);
  }

  lemma {:induction false} DistinctSize<T>(s: seq<T>)
    requires Distinct(s)
    ensures |Elements(s)| == |s|
  {
    if s != [] {
      var n := |s| - 1;
      DistinctSize(s[..n]);
      ElementsGrow(s[..n], s[n]);
      assert s[..n] + [s[n]] == s;
    }
  }
}
