/** Names shared by every component of the model of the accounts database. */
module Types {
  type Slot = nat
  type Pubkey = nat

  datatype Option<+T> = None | Some(value: T)

  /** The part of an account that the database itself looks at. */
  datatype Account = Account(lamports: nat, data: seq<bv8>) {
    predicate IsZeroLamport() { lamports == 0 }
  }

  /** A slot is visible to a reader when it is one of the reader's ancestors, or a root that is
      not newer than the oldest ancestor. Without ancestors every root is visible. */
  ghost predicate VisibleSlot(ancestors: set<Slot>, roots: set<Slot>, slot: Slot) {
    slot in ancestors || (slot in roots && forall a | a in ancestors :: slot <= a)
  }

  method Largest(slots: set<Slot>) returns (slot: Slot)
    requires slots != {}
    ensures slot in slots && forall s | s in slots :: s <= slot
  {
    slot :| slot in slots;
    var todo := slots - {slot};
    while todo != {}
      invariant slot in slots && todo <= slots && forall s | s in slots && s !in todo :: s <= slot
    {
      var s :| s in todo;
      if s > slot {
        slot := s;
      }
      todo := todo - {s};
    }
  }

  method Smallest(slots: set<Slot>) returns (slot: Slot)
    requires slots != {}
    ensures slot in slots && forall s | s in slots :: slot <= s
  {
    slot :| slot in slots;
    var todo := slots - {slot};
    while todo != {}
      invariant slot in slots && todo <= slots && forall s | s in slots && s !in todo :: slot <= s
    {
      var s :| s in todo;
      if s < slot {
        slot := s;
      }
      todo := todo - {s};
    }
  }
}
