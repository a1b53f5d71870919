/** Timeslots and epochs. */
module Timeslots {

  const EPOCH := 600

  /** The number of the timeslot within its epoch. */
  function Phase(slot: nat): nat {
    slot % EPOCH
  }

  function Epoch(slot: nat): nat {
    slot / EPOCH
  }

  lemma PhaseGrows(a: nat, b: nat)
    requires a < b && Epoch(a) == Epoch(b)
    ensures Phase(a) < Phase(b)
  {
    assert a == EPOCH * Epoch(a) + Phase(a) && b == EPOCH * Epoch(b) + Phase(b);
  }
}
