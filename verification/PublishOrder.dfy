/** The order in which the crates of the workspace are published. */
module PublishOrder {
  import opened Seqs

  type Package = nat

  /** Dependencies by package; those outside the workspace are of no interest. */
  type Graph = map<Package, set<Package>>

  datatype Result = Order(packages: seq<Package>) | Circular

  ghost predicate DependsOnlyOn(p: Package, s: set<Package>, graph: Graph)
    requires p in graph
  {
    forall d | d in graph[p] && d in graph :: d in s
  }

  /** Each package comes after all packages of the workspace it depends on. */
  ghost predicate DependenciesFirst(order: seq<Package>, graph: Graph) {
    forall i | 0 <= i < |order| :: order[i] in graph && DependsOnlyOn(order[i], Elements(order[..i]), graph)
  }

  ghost predicate Publishable(order: seq<Package>, graph: Graph) {
    Distinct(order) && Elements(order) == graph.Keys && DependenciesFirst(order, graph)
  }

  // ---- Cycles ----

  /** A walk along dependencies that ends where it started. */
  ghost predicate IsCycle(path: seq<Package>, graph: Graph) {
    && |path| >= 2 && path[0] == path[|path| - 1]
    && (forall i | 0 <= i < |path| :: path[i] in graph)
    && forall i | 0 <= i < |path| - 1 :: path[i + 1] in graph[path[i]]
  }

  ghost predicate Blocked(p: Package, s: set<Package>, graph: Graph)
    requires p in graph
  {
    exists d :: d in graph[p] && d in s
  }

  /** Every package in the set depends on one in the set. */
  ghost predicate Stuck(s: set<Package>, graph: Graph) {
    s != {} && s <= graph.Keys && forall p | p in s :: Blocked(p, s, graph)
  }

  ghost predicate IsWalk(path: seq<Package>, s: set<Package>, graph: Graph)
    requires s <= graph.Keys
  {
    && (forall i | 0 <= i < |path| :: path[i] in s)
    && forall i | 0 <= i < |path| - 1 :: path[i + 1] in graph[path[i]]
  }

  lemma {:induction false} LongWalk(s: set<Package>, graph: Graph, n: nat) returns (path: seq<Package>)
    requires Stuck(s, graph)
    ensures |path| == n + 1 && IsWalk(path, s, graph)
  {
    if n == 0 {
      var p :| p in s;
      path := [p];
    } else {
      var front := LongWalk(s, graph, n - 1);
      assert Blocked(front[n - 1], s, graph);
      var p :| p in graph[front[n - 1]] && p in s;
      path := front + [p];
    }
  }

  lemma {:induction false} DistinctFits(path: seq<Package>, s: set<Package>)
    requires Distinct(path) && forall i | 0 <= i < |path| :: path[i] in s
    ensures |path| <= |s|
  {
    if path != [] {
      var n := |path| - 1;
      DistinctFits(path[..n], s - {path[n]});
    }
  }

  /** A stuck set contains a cycle. */
  lemma StuckHasCycle(s: set<Package>, graph: Graph) returns (cycle: seq<Package>)
    requires Stuck(s, graph)
    ensures IsCycle(cycle, graph)
  {
    var path := LongWalk(s, graph, |s|);
    var i, j := Repeats(path, s);
    cycle := path[i..j + 1];
    forall k | 0 <= k < |cycle| - 1
      ensures cycle[k + 1] in graph[cycle[k]]
    {
      assert path[i + k + 1] in graph[path[i + k]];
    }
  }

  /** A walk with more stops than there are packages comes by one of them twice. */
  lemma Repeats(path: seq<Package>, s: set<Package>) returns (i: nat, j: nat)
    requires |path| > |s| && forall k | 0 <= k < |path| :: path[k] in s
    ensures i < j < |path| && path[i] == path[j]
  {
    if Distinct(path) {
      DistinctFits(path, s);
    }
    i, j :| 0 <= i < j < |path| && path[i] == path[j];
  }

  /** With a cycle there is no order. */
  lemma CycleForbidsOrder(cycle: seq<Package>, order: seq<Package>, graph: Graph)
    requires IsCycle(cycle, graph)
    ensures !Publishable(order, graph)
  {
    if Publishable(order, graph) {
      var last := |cycle| - 1;
      var at := Position(order, cycle[0]);
      var end := PositionsFall(cycle, order, graph, last, at);
    }
  }

  lemma Position(order: seq<Package>, p: Package) returns (i: nat)
    requires p in Elements(order)
    ensures i < |order| && order[i] == p
  {
    i :| 0 <= i < |order| && order[i] == p;
  }

  /** Along the walk, the positions in the order fall. */
  lemma {:induction false} PositionsFall(cycle: seq<Package>, order: seq<Package>, graph: Graph, k: nat, at: nat) returns (i: nat)
    requires IsCycle(cycle, graph) && Publishable(order, graph) && k < |cycle|
    requires at < |order| && order[at] == cycle[0]
    ensures i + k <= at && order[i] == cycle[k]
  {
    if k == 0 {
      i := at;
    } else {
      var j := PositionsFall(cycle, order, graph, k - 1, at);
      assert DependsOnlyOn(order[j], Elements(order[..j]), graph);
      i := Position(order[..j], cycle[k]);
    }
  }

  // ---- One pass, and all passes ----

  ghost predicate IsReady(p: Package, remaining: set<Package>, graph: Graph) {
    p in graph && !Blocked(p, remaining, graph)
  }

  ghost predicate Parted(remaining: seq<Package>, ready: seq<Package>, rest: seq<Package>, graph: Graph) {
    && Distinct(ready) && Distinct(rest)
    && (forall p :: p in Elements(ready) <==> p in Elements(remaining) && IsReady(p, Elements(remaining), graph))
    && (forall p :: p in Elements(rest) <==> p in Elements(remaining) && !IsReady(p, Elements(remaining), graph))
  }

  /** The remaining packages that depend on no remaining package, and the others. */
  method Pass(remaining: seq<Package>, graph: Graph) returns (ready: seq<Package>, rest: seq<Package>)
    requires Distinct(remaining) && Elements(remaining) <= graph.Keys
    ensures Parted(remaining, ready, rest, graph)
  {
    ready, rest := [], [];
    for i := 0 to |remaining|
      invariant Distinct(ready) && Distinct(rest)
      invariant forall p :: p in Elements(ready) <==> p in Elements(remaining[..i]) && IsReady(p, Elements(remaining), graph)
      invariant forall p :: p in Elements(rest) <==> p in Elements(remaining[..i]) && !IsReady(p, Elements(remaining), graph)
    {
      var p := remaining[i];
      var blocked := exists d | d in graph[p] :: d in remaining;
      assert blocked <==> !IsReady(p, Elements(remaining), graph) by {
        assert forall d :: d in remaining <==> d in Elements(remaining);
        assert p in Elements(remaining);
      }
      assert remaining[..i + 1] == remaining[..i] + [p];
      ElementsGrow(remaining[..i], p);
      if blocked {
        ElementsGrow(rest, p);
        rest := rest + [p];
      } else {
        ElementsGrow(ready, p);
        ready := ready + [p];
      }
    }
    assert remaining[..|remaining|] == remaining;
  }

  /** What is in order so far, and that the rest is all that is missing. */
  ghost predicate Partial(order: seq<Package>, remaining: seq<Package>, graph: Graph) {
    && Distinct(order) && Distinct(remaining) && Elements(order) !! Elements(remaining)
    && Elements(order) + Elements(remaining) == graph.Keys && DependenciesFirst(order, graph)
  }

  lemma PassKeepsPartial(order: seq<Package>, remaining: seq<Package>, ready: seq<Package>, rest: seq<Package>, graph: Graph)
    requires Partial(order, remaining, graph) && Parted(remaining, ready, rest, graph)
    ensures Partial(order + ready, rest, graph)
  {
    ElementsJoin(order, ready);
    var longer := order + ready;
    forall i | 0 <= i < |longer|
      ensures longer[i] in graph && DependsOnlyOn(longer[i], Elements(longer[..i]), graph)
    {
      if i < |order| {
        assert longer[..i] == order[..i];
      } else {
        assert longer[i] == ready[i - |order|] && longer[i] in Elements(ready);
        assert longer[..i] == order + ready[..i - |order|];
        ElementsJoin(order, ready[..i - |order|]);
      }
    }
    forall i, j | 0 <= i < j < |longer|
      ensures longer[i] != longer[j]
    {
      if i < |order| <= j {
        assert order[i] in Elements(order) && ready[j - |order|] in Elements(ready);
      }
    }
  }

  /** If no package was ready, the remaining ones are stuck. */
  lemma NoneReady(remaining: seq<Package>, ready: seq<Package>, rest: seq<Package>, graph: Graph)
    requires Distinct(remaining) && Elements(remaining) <= graph.Keys && remaining != [] && Parted(remaining, ready, rest, graph)
    ensures |rest| < |remaining| || Stuck(Elements(remaining), graph)
    ensures Stuck(Elements(remaining), graph) ==> Elements(rest) == Elements(remaining)
  {
    DistinctSize(remaining);
    DistinctSize(rest);
    var all, left := Elements(remaining), Elements(rest);
    assert all == left + (all - left);
    assert remaining[0] in all;
    if |rest| >= |remaining| {
      assert left == all;
    }
  }

  lemma NoCycles(order: seq<Package>, graph: Graph)
    requires Publishable(order, graph)
    ensures !exists cycle :: IsCycle(cycle, graph)
  {
    if cycle :| IsCycle(cycle, graph) {
      CycleForbidsOrder(cycle, order, graph);
    }
  }

  /** Enough passes are left, unless no number of passes will do. */
  ghost predicate EnoughPasses(order: seq<Package>, remaining: seq<Package>, graph: Graph, passes: nat) {
    Partial(order, remaining, graph) && (Stuck(Elements(remaining), graph) || |remaining| <= passes)
  }

  lemma PassUsesOne(order: seq<Package>, remaining: seq<Package>, ready: seq<Package>, rest: seq<Package>, graph: Graph, passes: nat)
    requires EnoughPasses(order, remaining, graph, passes) && Parted(remaining, ready, rest, graph)
    requires remaining != [] && passes > 0
    ensures EnoughPasses(order + ready, rest, graph, passes - 1)
  {
    PassKeepsPartial(order, remaining, ready, rest, graph);
    NoneReady(remaining, ready, rest, graph);
  }

  /** The number of passes after which the script gives up. */
  function Budget(n: nat): (passes: nat)
    ensures n <= passes
  {
    n * n
  }

  lemma StartsWithEnough(packages: seq<Package>, graph: Graph, passes: nat)
    requires Distinct(packages) && Elements(packages) == graph.Keys && |packages| <= passes
    ensures EnoughPasses([], packages, graph, passes)
  {
  }

  /** With passes used up and packages left, there is a cycle. */
  lemma OutOfPasses(order: seq<Package>, remaining: seq<Package>, graph: Graph)
    requires EnoughPasses(order, remaining, graph, 0) && remaining != []
    ensures exists cycle :: IsCycle(cycle, graph)
  {
    var cycle := StuckHasCycle(Elements(remaining), graph);
  }

  /** With nothing left, the order is complete, and there is no cycle. */
  lemma NothingLeft(order: seq<Package>, graph: Graph, passes: nat)
    requires EnoughPasses(order, [], graph, passes)
    ensures Publishable(order, graph) && !exists cycle :: IsCycle(cycle, graph)
  {
    NoCycles(order, graph);
  }

  lemma RemainingAreKnown(order: seq<Package>, remaining: seq<Package>, graph: Graph, passes: nat)
    requires EnoughPasses(order, remaining, graph, passes)
    ensures Distinct(remaining) && Elements(remaining) <= graph.Keys
  {
  }

  /** Either there is an order to publish all packages in, or there is a cycle, and then it says so.
      The bound on the number of passes never cuts a solvable case short. */
  method OrderPackages(packages: seq<Package>, graph: Graph) returns (r: Result)
    requires Distinct(packages) && Elements(packages) == graph.Keys
    ensures r.Order? ==> Publishable(r.packages, graph)
    ensures r.Circular? <==> exists cycle :: IsCycle(cycle, graph)
  {
    var remaining, order := packages, [];
    var passes := Budget(|packages|);
    StartsWithEnough(packages, graph, passes);
    while remaining != []
      invariant EnoughPasses(order, remaining, graph, passes)
      decreases passes
    {
      if passes == 0 {
        OutOfPasses(order, remaining, graph);
        return Circular;
      }
      order, remaining := OnePass(order, remaining, graph, passes);
      passes := passes - 1;
    }
    NothingLeft(order, graph, passes);
    return Order(order);
  }

  method OnePass(order: seq<Package>, remaining: seq<Package>, graph: Graph, ghost passes: nat)
    returns (order': seq<Package>, rest: seq<Package>)
    requires EnoughPasses(order, remaining, graph, passes) && remaining != [] && passes > 0
    ensures EnoughPasses(order', rest, graph, passes - 1)
  {
    RemainingAreKnown(order, remaining, graph, passes);
    var ready;
    ready, rest := Pass(remaining, graph);
    PassUsesOne(order, remaining, ready, rest, graph, passes);
    order' := order + ready;
  }

  /** Two packages that depend on each other, or one on itself, are reported before any ordering. */
  method HasDirectCycle(graph: Graph) returns (b: bool)
    ensures b <==> exists p, d :: p in graph && d in graph[p] && d in graph && p in graph[d]
    ensures b ==> exists cycle :: IsCycle(cycle, graph)
  {
    b := exists p, d | p in graph && d in graph[p] :: d in graph && p in graph[d];
    if b {
      ghost var p, d :| p in graph && d in graph[p] && d in graph && p in graph[d];
      assert IsCycle([p, d, p], graph);
    }
  }

  /** The script prints an order if and only if the dependencies have no cycle of any length. */
  method GetPackages(packages: seq<Package>, graph: Graph) returns (r: Result)
    requires Distinct(packages) && Elements(packages) == graph.Keys
    ensures r.Order? ==> Publishable(r.packages, graph)
    ensures r.Circular? <==> exists cycle :: IsCycle(cycle, graph)
  {
    var direct := HasDirectCycle(graph);
    if direct {
      return Circular;
    }
    r := OrderPackages(packages, graph);
  }
}
