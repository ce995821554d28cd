/** The search of one index entry for the version that a reader sees. */
module IndexLookup {
  import opened Types

  ghost predicate Newest(slots: seq<Slot>, allowed: iset<Slot>, i: nat) {
    i < |slots| && slots[i] in allowed && forall j | 0 <= j < |slots| && slots[j] in allowed :: slots[j] <= slots[i]
  }

  ghost predicate NoneAllowed(slots: seq<Slot>, allowed: iset<Slot>) {
    forall j | 0 <= j < |slots| :: slots[j] !in allowed
  }

  predicate AtMost(slot: Slot, max: Option<Slot>) { max.Some? ==> slot <= max.value }

  /** The newest ancestor in the slot list or, if there is none, the newest root up to `maxRoot`. */
  method LatestSlot(ancestors: set<Slot>, slots: seq<Slot>, roots: set<Slot>, maxRoot: Option<Slot>) returns (r: Option<nat>)
    ensures var anc := iset s | s in ancestors;
            var rooted := iset s | s in roots && AtMost(s, maxRoot);
            if !NoneAllowed(slots, anc) then r.Some? && Newest(slots, anc, r.value)
            else if !NoneAllowed(slots, rooted) then r.Some? && Newest(slots, rooted, r.value)
            else r.None?
  {
    r := None;
    var i := |slots|;
    while i > 0
      invariant 0 <= i <= |slots|
      invariant r.Some? ==> i <= r.value < |slots| && slots[r.value] in ancestors
      invariant forall j | i <= j < |slots| && slots[j] in ancestors :: r.Some? && slots[j] <= slots[r.value]
    {
      i := i - 1;
      if (r.None? || slots[i] > slots[r.value]) && slots[i] in ancestors {
        r := Some(i);
      }
    }
    if r.Some? {
      return;
    }
    i := |slots|;
    while i > 0
      invariant 0 <= i <= |slots|
      invariant r.Some? ==> i <= r.value < |slots| && slots[r.value] in roots && AtMost(slots[r.value], maxRoot)
      invariant forall j | i <= j < |slots| && slots[j] in roots && AtMost(slots[j], maxRoot) :: r.Some? && slots[j] <= slots[r.value]
    {
      i := i - 1;
      if (r.None? || slots[i] > slots[r.value]) && AtMost(slots[i], maxRoot) && slots[i] in roots {
        r := Some(i);
      }
    }
  }

  /** The position of the newest visible slot, or nothing if no slot is visible. */
  ghost predicate IsLatestVisible(ancestors: set<Slot>, slots: seq<Slot>, roots: set<Slot>, r: Option<nat>) {
    var visible := iset s: Slot | VisibleSlot(ancestors, roots, s);
    if r.Some? then Newest(slots, visible, r.value) else NoneAllowed(slots, visible)
  }

  /** With the oldest ancestor as the root bound, the two-phase search returns the newest visible
      slot: no visible root is newer than an ancestor. */
  method LatestVisible(ancestors: set<Slot>, slots: seq<Slot>, roots: set<Slot>) returns (r: Option<nat>)
    ensures IsLatestVisible(ancestors, slots, roots, r)
  {
    var maxRoot: Option<Slot> := None;
    if ancestors != {} {
      var min := Smallest(ancestors);
      maxRoot := Some(min);
    }
    r := LatestSlot(ancestors, slots, roots, maxRoot);
  }
}
