/** The life of one preimage of one service: solicited, supplied, forgotten, solicited again.
    Its history is a list of at most three timeslots, and what the list says about the past
    must not change while the past is within the expunge window. */
module Preimages {
  import opened Bytes

  const EXPUNGE_PERIOD := 28800  // D

  type History = seq<nat>

  /** `isPreimageAvailableAt`; a history that is absent says no. */
  predicate Available(h: Option<History>, q: nat) {
    match h
    case None => false
    case Some(h) =>
      if |h| == 1 then h[0] <= q
      else if |h| == 2 then h[0] <= q < h[1]
      else if |h| == 3 then h[0] <= q < h[1] || h[2] <= q
      else false
  }

  /** `timeslot - D` on unsigned 32-bit words. */
  function ExpungeLimit(t: nat): int {
    if t >= EXPUNGE_PERIOD then t - EXPUNGE_PERIOD else t - EXPUNGE_PERIOD + TWO_32
  }

  lemma ExpungeLimitIs(t: nat)
    requires t < TWO_32
    ensures ExpungeLimit(t) == (t + TWO_32 - 28800) % TWO_32
  {
  }

  // ---------------------------------------------- what each operation does to it

  function AfterSolicit(h: Option<History>, t: nat): Option<History> {
    match h
    case None => Some([])
    case Some(h) => if |h| == 2 then Some(h + [t]) else Some(h)
  }

  predicate SolicitAccepts(h: Option<History>) {
    h.None? || |h.value| == 2
  }

  function AfterForget(h: Option<History>, t: nat): Option<History> {
    match h
    case None => None
    case Some(h) =>
      if |h| == 0 then None
      else if |h| == 1 then Some(h + [t])
      else if |h| == 2 && h[1] < ExpungeLimit(t) then None
      else if |h| == 3 && h[1] < ExpungeLimit(t) then Some([h[2], t])
      else Some(h)
  }

  /** Forgetting is refused only inside the window; it also accepts what was never solicited. */
  predicate ForgetAccepts(h: Option<History>, t: nat) {
    h.None? || |h.value| <= 1 || (|h.value| <= 3 && h.value[1] < ExpungeLimit(t))
  }

  /** A preimage is taken when nothing is recorded for it, solicited or not. */
  function AfterSupply(h: Option<History>, known: bool, t: nat): Option<History> {
    if !known && (h.None? || |h.value| == 0) then Some([t]) else h
  }

  // -------------------------------------------------------------------- one step

  datatype Action = Solicit | Forget | Supply(known: bool)

  function After(a: Action, h: Option<History>, t: nat): Option<History> {
    match a
    case Solicit => AfterSolicit(h, t)
    case Forget => AfterForget(h, t)
    case Supply(known) => AfterSupply(h, known, t)
  }

  /** At most three entries, ascending, none in the future. */
  ghost predicate WellFormed(h: Option<History>, now: nat) {
    h.Some? ==>
      && |h.value| <= 3
      && (forall i, j :: 0 <= i < j < |h.value| ==> h.value[i] <= h.value[j])
      && (forall i :: 0 <= i < |h.value| ==> h.value[i] <= now)
  }

  lemma StepKeepsWellFormed(a: Action, h: Option<History>, now: nat, t: nat)
    requires WellFormed(h, now) && now <= t
    ensures WellFormed(After(a, h, t), t)
  {
  }

  /** Inside the window of a query no action changes its answer. */
  lemma StepKeepsAnswer(a: Action, h: Option<History>, t: nat, q: nat)
    requires t >= EXPUNGE_PERIOD && q < t <= q + EXPUNGE_PERIOD
    ensures Available(After(a, h, t), q) == Available(h, q)
  {
  }

  // ------------------------------------------------------- what each operation means for queries

  /** An accepted Forget at `t` ends availability at `t`. Since when it held is kept: a history of one
      entry or of three was running since its last entry. Everything else is gone. */
  lemma ForgetMeans(h: Option<History>, t: nat, q: nat)
    requires ForgetAccepts(h, t)
    ensures q >= t ==> !Available(AfterForget(h, t), q)
    ensures q < t ==>
              (Available(AfterForget(h, t), q) <==>
                 h.Some? && (|h.value| == 1 || |h.value| == 3) && h.value[|h.value| - 1] <= q)
    ensures h.None? || |h.value| == 0 || |h.value| == 2 <==> AfterForget(h, t).None?
  {
  }

  /** Forgetting is refused exactly for a preimage that was forgotten no longer than D ago, or for
      more entries than there can be, and then the history stays. */
  lemma ForgetRefused(h: Option<History>, t: nat)
    requires EXPUNGE_PERIOD <= t
    ensures !ForgetAccepts(h, t) <==>
            h.Some? && (|h.value| > 3 || (|h.value| >= 2 && t <= h.value[1] + EXPUNGE_PERIOD))
    ensures !ForgetAccepts(h, t) ==> AfterForget(h, t) == h
  {
  }

  /** Soliciting asks for what is not recorded, and makes what was forgotten available again from `t`
      on. Anything else is refused and stays. */
  lemma SolicitMeans(h: Option<History>, t: nat, q: nat)
    ensures SolicitAccepts(h) <==> h.None? || |h.value| == 2
    ensures SolicitAccepts(h) ==> AfterSolicit(h, t).Some?
    ensures h.None? ==> AfterSolicit(h, t) == Some([])
    ensures h.Some? && |h.value| == 2 ==> (Available(AfterSolicit(h, t), q) <==> Available(h, q) || t <= q)
    ensures !SolicitAccepts(h) ==> AfterSolicit(h, t) == h
  {
  }

  /** A preimage that is taken at `t` is available from then on and was not before. */
  lemma SupplyMeans(h: Option<History>, known: bool, t: nat, q: nat)
    ensures !known && (h.None? || h.value == []) ==> (Available(AfterSupply(h, known, t), q) <==> t <= q)
    ensures known || (h.Some? && h.value != []) ==> AfterSupply(h, known, t) == h
  {
  }

  /** Once forgotten, a preimage is not available again without being solicited or supplied. */
  lemma ForgottenStays(h: Option<History>, t: nat, time: nat)
    requires forall q: nat :: q >= t ==> !Available(h, q)
    ensures forall q: nat :: q >= t ==> !Available(AfterForget(h, time), q)
  {
    assert h.Some? && |h.value| == 1 ==> Available(h, Max(t, h.value[0]));
    assert h.Some? && |h.value| == 3 ==> Available(h, Max(t, h.value[2]));
  }

  /** Available from `t` on, a preimage stays so until it is forgotten. */
  lemma AvailableStays(h: Option<History>, t: nat, time: nat, known: bool)
    requires forall q: nat :: q >= t ==> Available(h, q)
    ensures AfterSolicit(h, time) == h && AfterSupply(h, known, time) == h
  {
    assert Available(h, t);
    assert |h.value| == 2 ==> !Available(h, Max(t, h.value[1]));
  }

  // -------------------------------------------------------------------- every run

  datatype Event = Event(action: Action, time: nat)

  function Run(h: Option<History>, events: seq<Event>): Option<History> {
    if events == [] then h
    else
      var last := events[|events| - 1];
      After(last.action, Run(h, events[..|events| - 1]), last.time)
  }

  /** A run is its events one after the other. */
  lemma RunIs(h: Option<History>, events: seq<Event>, e: Event)
    ensures Run(h, []) == h && Run(h, events + [e]) == After(e.action, Run(h, events), e.time)
  {
    assert (events + [e])[..|events|] == events;
  }

  ghost predicate ClockRuns(events: seq<Event>, start: nat) {
    && (forall i :: 0 <= i < |events| ==> start <= events[i].time)
    && (forall i, j :: 0 <= i < j < |events| ==> events[i].time <= events[j].time)
  }

  lemma {:induction false} RunKeepsWellFormed(h: Option<History>, events: seq<Event>, start: nat)
    requires WellFormed(h, start) && ClockRuns(events, start)
    ensures WellFormed(Run(h, events), if events == [] then start else events[|events| - 1].time)
  {
    if events != [] {
      var n := |events| - 1;
      RunKeepsWellFormed(h, events[..n], start);
      StepKeepsWellFormed(events[n].action, Run(h, events[..n]),
                          if n == 0 then start else events[n - 1].time, events[n].time);
    }
  }

  /** Over any run whose events all fall inside the window of a query, from any state, the answer
      to the query stays what it was. */
  lemma {:induction false} HistoryIsStable(h: Option<History>, events: seq<Event>, q: nat)
    requires forall i :: 0 <= i < |events| ==>
               events[i].time >= EXPUNGE_PERIOD && q < events[i].time <= q + EXPUNGE_PERIOD
    ensures Available(Run(h, events), q) == Available(h, q)
  {
    if events != [] {
      var n := |events| - 1;
      HistoryIsStable(h, events[..n], q);
      StepKeepsAnswer(events[n].action, Run(h, events[..n]), events[n].time, q);
    }
  }

  // ----------------------------------------------------- the first 28800 timeslots

  /** Whether forgetting at time `t` respects every query in its window. */
  ghost predicate ForgetRespectsWindow(t: nat) {
    forall h: Option<History>, q: nat :: WellFormed(h, t) && q < t <= q + EXPUNGE_PERIOD ==>
      Available(AfterForget(h, t), q) == Available(h, q)
  }

  /** The subtraction wraps in the first 28800 timeslots, and then a preimage that is still in
      its window can be expunged. That is the only time it happens. */
  lemma WindowHoldsExactlyWhen(t: nat)
    requires t < TWO_32
    ensures ForgetRespectsWindow(t) <==> t == 0 || t >= EXPUNGE_PERIOD
  {
    if 0 < t < EXPUNGE_PERIOD {
      var h: Option<History> := Some([0, t]);
      assert WellFormed(h, t) && Available(h, t - 1) && !Available(AfterForget(h, t), t - 1);
    } else if t >= EXPUNGE_PERIOD {
      forall h: Option<History>, q: nat | WellFormed(h, t) && q < t <= q + EXPUNGE_PERIOD
        ensures Available(AfterForget(h, t), q) == Available(h, q)
      {
        StepKeepsAnswer(Forget, h, t, q);
      }
    }
  }

  /** A preimage supplied at 0 and forgotten at 100 was there at 99. Forgetting it once more, at 100,
      takes that away. */
  lemma EarlyForgetExample()
    ensures Available(Some([0, 100]), 99) && !Available(AfterForget(Some([0, 100]), 100), 99)
    ensures ForgetAccepts(Some([0, 100]), 100) && !ForgetRespectsWindow(100)
  {
    WindowHoldsExactlyWhen(100);
  }
}
