/** Allocation of service indices on the cyclic range [2^8, 2^32 - 2^8). */
module ServiceIndex {
  import opened Bytes

  const LOW := 0x100
  const SPAN := TWO_32 - 0x200

  predicate InRange(i: int) {
    LOW <= i < LOW + SPAN
  }

  /** `(i - 2^8 + step) % (2^32 - 2^9) + 2^8` on unsigned 32-bit words. */
  function Advance(i: nat, step: nat): (j: nat)
    requires i < TWO_32 && step < LOW
    ensures InRange(j)
  {
    (if i - LOW + step < 0 then i - LOW + step + TWO_32 else i - LOW + step) % SPAN + LOW
  }

  function BumpIndex(i: nat): nat
    requires i < TWO_32
  {
    Advance(i, 42)
  }

  /** How many steps of one, wrapping round, lead from `i` to `f`. */
  function Distance(i: nat, f: nat): nat
    requires InRange(i) && InRange(f)
  {
    if i <= f then f - i else f - i + SPAN
  }

  /** On unsigned words, where an index below the range makes the subtraction wrap. */
  lemma AdvanceIs(i: nat, step: nat)
    requires i < TWO_32 && step < LOW
    ensures i + step >= 0x100 ==> Advance(i, step) == (i + step - 0x100) % 0xFFFF_FE00 + 0x100
    ensures i + step < 0x100 ==> Advance(i, step) == (i + step + 0xFFFF_FF00) % 0xFFFF_FE00 + 0x100
    ensures BumpIndex(i) == Advance(i, 42)
  {
  }

  lemma AdvanceOne(i: nat)
    requires InRange(i)
    ensures Advance(i, 1) == if i + 1 < LOW + SPAN then i + 1 else LOW
  {
  }

  lemma AdvanceWithoutWrap(i: nat, step: nat)
    requires InRange(i) && step < LOW && InRange(i + step)
    ensures Advance(i, step) == i + step
  {
  }

  ghost predicate HasFree(used: set<nat>) {
    exists f :: InRange(f) && f !in used
  }

  /** Some index that is not taken, to measure progress against. */
  ghost function SomeFree(used: set<nat>): (f: nat)
    requires HasFree(used)
    ensures InRange(f) && f !in used
  {
    var f :| InRange(f) && f !in used;
    f
  }

  ghost function StepsLeft(i: nat, used: set<nat>): nat
    requires HasFree(used)
  {
    if InRange(i) then Distance(i, SomeFree(used)) else SPAN
  }

  /** The tail recursion of `CheckIndex`. It ends because a free index is ahead. */
  function CheckIndex(i: nat, used: set<nat>): nat
    requires i < TWO_32 && HasFree(used)
    decreases StepsLeft(i, used)
  {
    if i !in used then i
    else
      CheckStep(i, used);
      CheckIndex(Advance(i, 1), used)
  }

  lemma CheckStep(i: nat, used: set<nat>)
    requires i < TWO_32 && HasFree(used) && i in used
    ensures StepsLeft(Advance(i, 1), used) < StepsLeft(i, used)
  {
    if InRange(i) { AdvanceOne(i); }
  }

  /** The index found is in range and free, and every index passed on the way to it is taken:
      it is the first free one in cyclic order. */
  lemma {:induction false} CheckIndexFindsFirstFree(i: nat, used: set<nat>)
    requires InRange(i) && HasFree(used)
    ensures InRange(CheckIndex(i, used)) && CheckIndex(i, used) !in used
    ensures forall j :: InRange(j) && Distance(i, j) < Distance(i, CheckIndex(i, used)) ==> j in used
    decreases StepsLeft(i, used)
  {
    if i in used {
      CheckStep(i, used);
      var next := Advance(i, 1);
      AdvanceOne(i);
      CheckIndexFindsFirstFree(next, used);
      var r := CheckIndex(next, used);
      forall j | InRange(j) && Distance(i, j) < Distance(i, r) ensures j in used {
        if j != i { assert Distance(next, j) == Distance(i, j) - 1; }
      }
    }
  }

  /** Fewer services than indices leave one free, so the search ends. */
  lemma FewServicesLeaveRoom(used: set<nat>)
    requires |used| < SPAN
    ensures HasFree(used)
  {
    if !HasFree(used) {
      forall i | LOW <= i < LOW + SPAN ensures i in used { assert InRange(i); }
      RangeIsLarge(used, LOW, LOW + SPAN);
    }
  }

  lemma {:induction false} RangeIsLarge(used: set<nat>, lo: nat, hi: nat)
    requires lo <= hi && forall i :: lo <= i < hi ==> i in used
    ensures |used| >= hi - lo
    decreases hi - lo
  {
    if lo < hi {
      RangeIsLarge(used - {lo}, lo + 1, hi);
    }
  }

  /** `DeriveIndex`: the search from the index after `i`. */
  function DeriveIndex(i: nat, used: set<nat>): nat
    requires i < TWO_32 && HasFree(used)
  {
    CheckIndex(Advance(i, 1), used)
  }

  /** From any word at all, in range or not, the derived index is in range, free, and the first free
      one after where the word leads. */
  lemma DerivedIndexIsFree(i: nat, used: set<nat>)
    requires i < TWO_32 && HasFree(used)
    ensures InRange(DeriveIndex(i, used)) && DeriveIndex(i, used) !in used
    ensures var start := Advance(i, 1);
            forall j :: InRange(j) && Distance(start, j) < Distance(start, DeriveIndex(i, used)) ==> j in used
  {
    CheckIndexFindsFirstFree(Advance(i, 1), used);
  }

  /** The search from `i` ends at `f` exactly when `f` is in range and free and every index passed on
      the way is taken. */
  lemma CheckIndexIsExactlyWhen(i: nat, used: set<nat>, f: nat)
    requires InRange(i) && HasFree(used)
    ensures CheckIndex(i, used) == f <==>
            && InRange(f) && f !in used
            && forall j :: InRange(j) && Distance(i, j) < Distance(i, f) ==> j in used
  {
    CheckIndexFindsFirstFree(i, used);
    hide CheckIndex;
  }
}
