/** The ticket contest of Safrole: which tickets a block may bring, how the accumulator keeps the
    best of an epoch, which winners a block announces and which series seals the next epoch.
    Ring signatures are a parameter. An identifier is its 32 octets read big-endian as one number,
    so that comparing numbers is comparing the octets. */
module Safrole {
  import opened Bytes
  import opened Sorting
  import opened Timeslots

  const SUBMISSION := 500
  const MAX_TICKETS := 16
  const MAX_ATTEMPTS := 2

  datatype Ticket = Ticket(id: nat, attempt: nat)

  datatype TicketProof = TicketProof(attempt: nat, proof: seq<byte>)

  /** The output hash of a ring signature, or nothing when it does not verify. */
  type Verifier = TicketProof -> Option<nat>

  datatype Error =
    | BadSlot | UnexpectedTicket | TooManyTickets | BadAttempt | BadProof | DuplicateTicket | BadOrder
    | UselessTicket | NoCommitment | NoFallback

  datatype Result<+T> = Ok(value: T) | Err(error: Error)

  function Id(t: Ticket): nat {
    t.id
  }

  function Ids(s: seq<Ticket>): set<nat> {
    set t | t in s :: t.id
  }

  lemma HasId(s: seq<Ticket>, t: Ticket)
    requires t in s
    ensures t.id in Ids(s)
  {
  }

  // --------------------------------------------------------------------- the tickets of a block

  /** What is wrong with one ticket proof, if anything. */
  function Fault(verify: Verifier, taken: set<nat>, p: TicketProof): Option<Error> {
    if p.attempt >= MAX_ATTEMPTS then Some(BadAttempt)
    else if verify(p).None? then Some(BadProof)
    else if verify(p).value in taken then Some(DuplicateTicket)
    else None
  }

  ghost predicate FirstFault(verify: Verifier, taken: set<nat>, proofs: seq<TicketProof>, e: Error) {
    exists i :: 0 <= i < |proofs| && Fault(verify, taken, proofs[i]) == Some(e)
      && forall j :: 0 <= j < i ==> Fault(verify, taken, proofs[j]) == None
  }

  predicate Faultless(verify: Verifier, taken: set<nat>, proofs: seq<TicketProof>) {
    forall i :: 0 <= i < |proofs| ==> Fault(verify, taken, proofs[i]) == None
  }

  function TicketOf(verify: Verifier, p: TicketProof): Ticket {
    Ticket(if verify(p).Some? then verify(p).value else 0, p.attempt)
  }

  function TicketsOf(verify: Verifier, proofs: seq<TicketProof>): (r: seq<Ticket>)
    ensures |r| == |proofs|
  {
    seq(|proofs|, i requires 0 <= i < |proofs| => TicketOf(verify, proofs[i]))
  }

  /** The proofs a block may bring when the accumulator is `accumulator`. */
  predicate Admissible(verify: Verifier, accumulator: seq<Ticket>, proofs: seq<TicketProof>) {
    && |proofs| <= MAX_TICKETS
    && Faultless(verify, Ids(accumulator), proofs)
    && Ascending(Id, TicketsOf(verify, proofs))
  }

  lemma IdsSnoc(s: seq<Ticket>, n: nat)
    requires n < |s|
    ensures Ids(s[..n + 1]) == Ids(s[..n]) + {s[n].id}
  {
    assert s[..n + 1] == s[..n] + [s[n]];
  }

  lemma FaultFound(verify: Verifier, taken: set<nat>, proofs: seq<TicketProof>, n: nat)
    requires n < |proofs| && Faultless(verify, taken, proofs[..n])
    ensures Fault(verify, taken, proofs[n]).Some? ==>
              !Faultless(verify, taken, proofs) && FirstFault(verify, taken, proofs, Fault(verify, taken,
                  proofs[n]).value)
    ensures Fault(verify, taken, proofs[n]).None? ==> Faultless(verify, taken, proofs[..n + 1])
  {
    hide Fault;
    assert forall j :: 0 <= j < n ==> proofs[..n][j] == proofs[j];
    assert forall j :: 0 <= j < n + 1 ==> proofs[..n + 1][j] == proofs[j];
  }

  lemma TicketsOfSnoc(verify: Verifier, proofs: seq<TicketProof>, n: nat)
    requires n < |proofs|
    ensures TicketsOf(verify, proofs[..n + 1]) == TicketsOf(verify, proofs[..n]) + [TicketOf(verify, proofs[n])]
  {
    hide TicketOf;
  }

  lemma AscendingSnoc(s: seq<Ticket>, n: nat)
    requires 1 <= n < |s| && Ascending(Id, s[..n])
    ensures s[n - 1].id >= s[n].id ==> !Ascending(Id, s)
    ensures s[n - 1].id < s[n].id ==> Ascending(Id, s[..n + 1])
  {
    if s[n - 1].id < s[n].id {
      var r := s[..n + 1];
      forall i, j | 0 <= i < j < |r| ensures r[i].id < r[j].id {
        assert r[i] == s[i] && r[j] == s[j] && s[..n][i] == s[i] && s[..n][n - 1] == s[n - 1];
        if j < n { assert s[..n][j] == s[j]; }
      }
    }
  }

  lemma FaultlessIsNew(verify: Verifier, taken: set<nat>, proofs: seq<TicketProof>)
    requires Faultless(verify, taken, proofs)
    ensures Ids(TicketsOf(verify, proofs)) !! taken
  {
    var r := TicketsOf(verify, proofs);
    forall x | x in Ids(r) ensures x !in taken {
      var i :| 0 <= i < |r| && r[i].id == x;
      assert Fault(verify, taken, proofs[i]).None?;
    }
  }

  method CalculateTickets(verify: Verifier, accumulator: seq<Ticket>, proofs: seq<TicketProof>)
    returns (r: Result<seq<Ticket>>)
    ensures r.Ok? <==> Admissible(verify, accumulator, proofs)
    ensures r.Ok? ==> r.value == TicketsOf(verify, proofs)
    ensures r.Ok? ==> Ascending(Id, r.value) && Ids(r.value) !! Ids(accumulator)
    ensures r == Err(TooManyTickets) <==> |proofs| > MAX_TICKETS
    ensures r.Err? && r.error !in {TooManyTickets, BadOrder} ==> FirstFault(verify, Ids(accumulator), proofs, r.error)
    ensures r == Err(BadOrder) ==> Faultless(verify, Ids(accumulator), proofs)
  {
    assert Ids(accumulator[..0]) == {};
    assert forall taken :: Faultless(verify, taken, proofs[..0]);
    assert TicketsOf(verify, proofs[..0]) == [];
    assert forall s: seq<Ticket> :: |s| <= 1 ==> Ascending(Id, s);
    hide Ids, Faultless, FirstFault, TicketsOf, Ascending;
    if |proofs| > MAX_TICKETS { return Err(TooManyTickets); }
    var existing: set<nat> := {};
    for n := 0 to |accumulator|
      invariant existing == Ids(accumulator[..n])
    {
      IdsSnoc(accumulator, n);
      existing := existing + {accumulator[n].id};
    }
    assert accumulator[..|accumulator|] == accumulator;
    var tickets: seq<Ticket> := [];
    for n := 0 to |proofs|
      invariant Faultless(verify, existing, proofs[..n])
      invariant tickets == TicketsOf(verify, proofs[..n])
    {
      var p := proofs[n];
      FaultFound(verify, existing, proofs, n);
      if p.attempt >= MAX_ATTEMPTS { return Err(BadAttempt); }
      var output := verify(p);
      if output.None? { return Err(BadProof); }
      if output.value in existing { return Err(DuplicateTicket); }
      TicketsOfSnoc(verify, proofs, n);
      tickets := tickets + [Ticket(output.value, p.attempt)];
    }
    assert proofs[..|proofs|] == proofs;
    for n := 1 to Max(1, |tickets|)
      invariant n <= |tickets| ==> Ascending(Id, tickets[..n])
    {
      AscendingSnoc(tickets, n);
      if tickets[n - 1].id >= tickets[n].id { return Err(BadOrder); }
    }
    assert tickets[..|tickets|] == tickets;
    FaultlessIsNew(verify, existing, proofs);
    r := Ok(tickets);
  }

  // ---------------------------------------------------------------------------- the accumulator

  function Truncated(s: seq<Ticket>): seq<Ticket> {
    if |s| > EPOCH then s[..EPOCH] else s
  }

  function Merge(accumulator: seq<Ticket>, tickets: seq<Ticket>): seq<Ticket> {
    Truncated(Sorted(Id, accumulator + tickets))
  }

  // -------------------------------------------------------------------------- one Safrole step

  datatype Sealing = Tickets(tickets: seq<Ticket>) | Keys(keys: seq<int>)

  datatype State = State(slot: nat, accumulator: seq<Ticket>, sealing: Sealing)

  /** A block as Safrole sees it. Whether a ring commitment can be computed and which fallback keys
      come out are results of the cryptography. */
  datatype Input = Input(slot: nat, proofs: seq<TicketProof>, verify: Verifier, ring: bool, fallback: Option<seq<int>>)

  /** The new state and the winning-ticket marker. */
  datatype Outcome = Outcome(state: State, marker: Option<seq<Ticket>>)

  /** First, last, second, last but one, and so on. */
  function OutsideIn(s: seq<Ticket>): (r: seq<Ticket>)
    ensures |r| == |s|
  {
    if |s| < 2 then s else [s[0], s[|s| - 1]] + OutsideIn(s[1..|s| - 1])
  }

  lemma {:induction false} OutsideInAt(s: seq<Ticket>, i: nat)
    requires i < |s|
    ensures OutsideIn(s)[i] == if i % 2 == 0 then s[i / 2] else s[|s| - 1 - i / 2]
  {
    if |s| >= 2 && i >= 2 {
      var inner := s[1..|s| - 1];
      OutsideInAt(inner, i - 2);
      assert OutsideIn(s)[i] == OutsideIn(inner)[i - 2];
      assert (i - 2) % 2 == i % 2 && (i - 2) / 2 == i / 2 - 1;
    }
  }

  lemma {:induction false} OutsideInPermutes(s: seq<Ticket>)
    ensures multiset(OutsideIn(s)) == multiset(s)
  {
    if |s| >= 2 {
      var inner := s[1..|s| - 1];
      OutsideInPermutes(inner);
      assert s == [s[0]] + inner + [s[|s| - 1]];
    }
  }

  lemma {:induction false} OutsideInInjective(a: seq<Ticket>, b: seq<Ticket>)
    requires OutsideIn(a) == OutsideIn(b)
    ensures a == b
  {
    assert |a| == |b|;
    if |a| >= 2 {
      var n := |a| - 1;
      assert OutsideIn(a)[0] == a[0] && OutsideIn(b)[0] == b[0];
      assert OutsideIn(a)[1] == a[n] && OutsideIn(b)[1] == b[n];
      assert OutsideIn(a)[2..] == OutsideIn(a[1..n]) && OutsideIn(b)[2..] == OutsideIn(b[1..n]);
      OutsideInInjective(a[1..n], b[1..n]);
      assert a == [a[0]] + a[1..n] + [a[n]];
      assert b == [b[0]] + b[1..n] + [b[n]];
    }
  }

  method OutsideInSequence(tickets: seq<Ticket>) returns (r: seq<Ticket>)
    ensures r == OutsideIn(tickets)
  {
    var n := |tickets|;
    var result := new Ticket[n](_ => Ticket(0, 0));
    var left, right := 0, n - 1;
    for i := 0 to n
      invariant left == (i + 1) / 2 && right == n - 1 - i / 2
      invariant forall k :: 0 <= k < i ==> result[k] == OutsideIn(tickets)[k]
    {
      OutsideInAt(tickets, i);
      if i % 2 == 0 {
        result[i] := tickets[left];
        left := left + 1;
      } else {
        result[i] := tickets[right];
        right := right - 1;
      }
    }
    r := result[..];
  }

  /** The accumulator after the block's tickets, before any reset. Tickets are merged into the
      accumulator at hand, on an epoch change too. */
  ghost function Accumulated(s: State, input: Input): Option<seq<Ticket>> {
    if input.proofs == [] then Some(s.accumulator)
    else
      var tickets := TicketsOf(input.verify, input.proofs);
      var merged := Merge(s.accumulator, tickets);
      if Admissible(input.verify, s.accumulator, input.proofs) && Ids(tickets) <= Ids(merged) then Some(merged)
      else None
  }

  predicate SealsByTickets(s: State, slot: nat) {
    Epoch(slot) == Epoch(s.slot) + 1 && Phase(s.slot) >= SUBMISSION && |s.accumulator| == EPOCH
  }

  predicate Announces(s: State, slot: nat) {
    Epoch(slot) == Epoch(s.slot) && Phase(s.slot) < SUBMISSION <= Phase(slot) && |s.accumulator| == EPOCH
  }

  ghost predicate Accepts(s: State, input: Input) {
    && s.slot < input.slot
    && (input.proofs == [] || Phase(input.slot) < SUBMISSION)
    && Accumulated(s, input).Some?
    && (Epoch(input.slot) > Epoch(s.slot) ==>
          input.ring && (SealsByTickets(s, input.slot) || input.fallback.Some?))
  }

  /** What an accepted block does. */
  ghost function Step(s: State, input: Input): Outcome
    requires Accepts(s, input)
  {
    var accumulated := Accumulated(s, input).value;
    if Epoch(input.slot) > Epoch(s.slot) then
      Outcome(State(input.slot, [],
                    if SealsByTickets(s, input.slot) then Tickets(OutsideIn(accumulated))
                        else Keys(input.fallback.value)),
              None)
    else
      Outcome(State(input.slot, accumulated, s.sealing),
              if Announces(s, input.slot) then Some(OutsideIn(accumulated)) else None)
  }

  method UpdateSafroleState(input: Input, s: State) returns (r: Result<Outcome>)
    ensures r.Ok? <==> Accepts(s, input)
    ensures r.Ok? ==> r.value == Step(s, input)
    ensures r == Err(BadSlot) <==> input.slot <= s.slot
    ensures r == Err(UnexpectedTicket) <==>
              s.slot < input.slot && input.proofs != [] && Phase(input.slot) >= SUBMISSION
    ensures r == Err(UselessTicket) ==>
              var tickets := TicketsOf(input.verify, input.proofs);
              !(Ids(tickets) <= Ids(Merge(s.accumulator, tickets)))
  {
    hide Merge, Admissible, OutsideIn;
    if input.slot <= s.slot { return Err(BadSlot); }
    if Phase(input.slot) >= SUBMISSION && |input.proofs| > 0 { return Err(UnexpectedTicket); }
    var accumulator := s.accumulator;
    if |input.proofs| > 0 {
      var tickets := CalculateTickets(input.verify, s.accumulator, input.proofs);
      if tickets.Err? { return Err(tickets.error); }
      var all := Merge(s.accumulator, tickets.value);
      var existing := Ids(all);
      for n := 0 to |tickets.value|
        invariant Ids(tickets.value[..n]) <= existing
      {
        if tickets.value[n].id !in existing {
          HasId(tickets.value, tickets.value[n]);
          return Err(UselessTicket);
        }
        assert tickets.value[..n + 1] == tickets.value[..n] + [tickets.value[n]];
      }
      assert tickets.value[..|tickets.value|] == tickets.value;
      accumulator := all;
    }
    var epoch, preEpoch := Epoch(input.slot), Epoch(s.slot);
    var full := |s.accumulator| == EPOCH;
    var next := State(input.slot, accumulator, s.sealing);
    if epoch > preEpoch {
      if !input.ring { return Err(NoCommitment); }
      if epoch == preEpoch + 1 && Phase(s.slot) >= SUBMISSION && full {
        var sealing := OutsideInSequence(accumulator);
        next := next.(sealing := Tickets(sealing));
      } else {
        if input.fallback.None? { return Err(NoFallback); }
        next := next.(sealing := Keys(input.fallback.value));
      }
      next := next.(accumulator := []);
    }
    var marker := None;
    if epoch == preEpoch && Phase(s.slot) < SUBMISSION <= Phase(input.slot) && full {
      var winners := OutsideInSequence(accumulator);
      marker := Some(winners);
    }
    r := Ok(Outcome(next, marker));
  }

  // ------------------------------------------------------------------------ what a step means

  /** A proof is good if its attempt is 0 or 1, it verifies, and no ticket at hand has its output. */
  ghost predicate GoodProof(verify: Verifier, accumulator: seq<Ticket>, p: TicketProof) {
    p.attempt < 2 && verify(p).Some? && forall t :: t in accumulator ==> t.id != verify(p).value
  }

  lemma FaultMeans(verify: Verifier, accumulator: seq<Ticket>, p: TicketProof)
    ensures Fault(verify, Ids(accumulator), p) == None <==> GoodProof(verify, accumulator, p)
  {
    if verify(p).Some? && verify(p).value in Ids(accumulator) {
      var t :| t in accumulator && t.id == verify(p).value;
    }
  }

  lemma FaultlessMeans(verify: Verifier, accumulator: seq<Ticket>, proofs: seq<TicketProof>)
    ensures Faultless(verify, Ids(accumulator), proofs) <==>
            forall p :: p in proofs ==> GoodProof(verify, accumulator, p)
  {
    hide Fault, GoodProof, Ids;
    forall i | 0 <= i < |proofs|
      ensures proofs[i] in proofs
      ensures Fault(verify, Ids(accumulator), proofs[i]) == None <==> GoodProof(verify, accumulator, proofs[i]) {
      FaultMeans(verify, accumulator, proofs[i]);
    }
  }

  /** At most 16 proofs, all good, with ascending outputs. The tickets are those outputs with their attempts. */
  lemma AdmissibleMeans(verify: Verifier, accumulator: seq<Ticket>, proofs: seq<TicketProof>)
    ensures Admissible(verify, accumulator, proofs) <==>
            && |proofs| <= 16 && (forall p :: p in proofs ==> GoodProof(verify, accumulator, p))
            && (forall i, j :: 0 <= i < j < |proofs| && verify(proofs[i]).Some? && verify(proofs[j]).Some? ==>
                  verify(proofs[i]).value < verify(proofs[j]).value)
    ensures Admissible(verify, accumulator, proofs) ==>
              var tickets := TicketsOf(verify, proofs);
              && |tickets| == |proofs|
              && forall i :: 0 <= i < |proofs| ==>
                   verify(proofs[i]).Some? && tickets[i] == Ticket(verify(proofs[i]).value, proofs[i].attempt)
  {
    FaultlessMeans(verify, accumulator, proofs);
    hide Faultless, Ids;
    if forall p :: p in proofs ==> GoodProof(verify, accumulator, p) {
      forall i | 0 <= i < |proofs|
        ensures verify(proofs[i]).Some?
        ensures TicketsOf(verify, proofs)[i] == Ticket(verify(proofs[i]).value, proofs[i].attempt) {
        assert GoodProof(verify, accumulator, proofs[i]);
      }
      hide GoodProof;
    }
  }

  lemma IdsWithin(a: seq<Ticket>, b: seq<Ticket>)
    ensures Ids(a) <= Ids(b) <==> forall t :: t in a ==> exists u :: u in b && u.id == t.id
  {
    forall t | t in a ensures t.id in Ids(a) { }
    if Ids(a) <= Ids(b) {
      forall t | t in a ensures exists u :: u in b && u.id == t.id { assert t.id in Ids(b); }
    }
  }

  /** A block is accepted exactly if it is later than the last, brings tickets only in the first 500 slots of an
      epoch, only admissible and useful ones, and, on an epoch change, the ring commitment and whatever is to seal
      the epoch can be had. */
  lemma AcceptsMeans(s: State, input: Input)
    ensures Accepts(s, input) <==>
            && s.slot < input.slot
            && (input.proofs != [] ==>
                  && input.slot % 600 < 500 && Admissible(input.verify, s.accumulator, input.proofs)
                  && forall t :: t in TicketsOf(input.verify, input.proofs) ==>
                       exists u :: u in Merge(s.accumulator, TicketsOf(input.verify, input.proofs)) && u.id == t.id)
            && (input.slot / 600 > s.slot / 600 ==>
                  input.ring && (SealedByTickets(s, input.slot) || input.fallback.Some?))
  {
    hide Admissible, Merge, TicketsOf;
    var tickets := TicketsOf(input.verify, input.proofs);
    IdsWithin(tickets, Merge(s.accumulator, tickets));
    hide Ids;
  }

  /** The next epoch is the one right after, submission was closed, and the accumulator is full. */
  predicate SealedByTickets(s: State, slot: nat) {
    slot / 600 == s.slot / 600 + 1 && s.slot % 600 >= 500 && |s.accumulator| == 600
  }

  /** What an accepted block does. It merges its tickets; on an epoch change the accumulator is emptied and the
      series becomes the tickets, outside in, or the fallback keys; and in the epoch, when submission closes with a
      full accumulator, the winners are announced, outside in. */
  lemma StepMeans(s: State, input: Input)
    requires Accepts(s, input)
    ensures var o := Step(s, input);
            var merged := if input.proofs == [] then s.accumulator
                          else Merge(s.accumulator, TicketsOf(input.verify, input.proofs));
            var opens := input.slot / 600 > s.slot / 600;
            && o.state.slot == input.slot
            && o.state.accumulator == (if opens then [] else merged)
            && (!opens ==> o.state.sealing == s.sealing)
            && (opens && SealedByTickets(s, input.slot) ==> o.state.sealing == Tickets(OutsideIn(merged)))
            && (opens && !SealedByTickets(s, input.slot) ==>
                  input.fallback.Some? && o.state.sealing == Keys(input.fallback.value))
            && (o.marker.Some? <==>
                  !opens && s.slot % 600 < 500 <= input.slot % 600 && |s.accumulator| == 600)
            && (o.marker.Some? ==> o.marker.value == OutsideIn(merged))
  {
    hide Admissible, Merge, TicketsOf, OutsideIn;
  }

  // ---------------------------------------------------------------- the contest over whole runs

  /** `lowest` is the list of the EPOCH lowest identifiers among `all`. */
  ghost predicate Lowest(lowest: seq<Ticket>, all: seq<Ticket>) {
    && Ascending(Id, lowest) && DistinctKeys(Id, all)
    && |lowest| == Min(EPOCH, |all|)
    && (forall t :: t in lowest ==> t in all)
    && (forall t :: t in all ==> t in lowest || Above(t, lowest))
  }

  /** `t` lost: the list is full and everything in it is lower. */
  ghost predicate Above(t: Ticket, s: seq<Ticket>) {
    |s| == EPOCH && forall u :: u in s ==> u.id < t.id
  }

  /** What merging gives, without the sorting. */
  lemma MergeFacts(a: seq<Ticket>, b: seq<Ticket>)
    requires DistinctKeys(Id, a + b)
    ensures Ascending(Id, Sorted(Id, a + b)) && |Sorted(Id, a + b)| == |a| + |b|
    ensures forall t :: t in Sorted(Id, a + b) <==> t in a || t in b
    ensures Merge(a, b) == Truncated(Sorted(Id, a + b)) && Ascending(Id, Merge(a, b))
    ensures |Merge(a, b)| == Min(EPOCH, |a| + |b|)
    ensures forall t :: t in Merge(a, b) ==> t in a || t in b
  {
    var all := a + b;
    SortedAscends(Id, all);
    SortedSorts(Id, all);
    hide Sorted;
    forall t ensures t in Sorted(Id, all) <==> t in a || t in b {
      SameMembers(Sorted(Id, all), all, t);
    }
  }

  /** A ticket is dropped by a merge exactly when enough tickets come below it. */
  lemma KeptOrAbove(a: seq<Ticket>, b: seq<Ticket>, t: Ticket)
    requires DistinctKeys(Id, a + b) && (t in a || t in b)
    ensures t in Merge(a, b) || Above(t, Merge(a, b))
  {
    MergeFacts(a, b);
    hide Merge, Sorted;
    var m := Sorted(Id, a + b);
    var k :| 0 <= k < |m| && m[k] == t;
    if |m| > EPOCH {
      if k < EPOCH { assert m[..EPOCH][k] == t; }
    }
  }

  /** A ticket above a full accumulator is useless. */
  lemma AboveIsUseless(a: seq<Ticket>, b: seq<Ticket>, u: Ticket)
    requires DistinctKeys(Id, a + b) && DistinctKeys(Id, a) && u in Merge(a, b)
    ensures !Above(u, a)
  {
    MergeFacts(a, b);
    hide Merge, Sorted;
    if Above(u, a) {
      var m := Sorted(Id, a + b);
      var k :| 0 <= k < |Truncated(m)| && Truncated(m)[k] == u;
      RankBound(Id, m, a, k);
    }
  }

  lemma NewAreDistinct(a: seq<Ticket>, b: seq<Ticket>)
    requires DistinctKeys(Id, a) && DistinctKeys(Id, b) && Ids(a) !! Ids(b)
    ensures DistinctKeys(Id, a + b)
  {
    var all := a + b;
    forall i, j | 0 <= i < j < |all| ensures all[i].id != all[j].id {
      if i < |a| <= j { HasId(a, a[i]); HasId(b, b[j - |a|]); }
    }
  }

  /** Every ticket of an accepted list is in the accumulator right after. */
  lemma NoneIsUseless(a: seq<Ticket>, b: seq<Ticket>, t: Ticket)
    requires Ascending(Id, a) && Ascending(Id, b) && Ids(a) !! Ids(b) && Ids(b) <= Ids(Merge(a, b)) && t in b
    ensures t in Merge(a, b)
  {
    AscendingIsDistinct(Id, a); AscendingIsDistinct(Id, b);
    NewAreDistinct(a, b);
    MergeFacts(a, b);
    hide Merge, Sorted;
    HasId(b, t);
    var u :| u in Merge(a, b) && u.id == t.id;
    if u in a { HasId(a, u); }
    var i :| 0 <= i < |b| && b[i] == t;
    var j :| 0 <= j < |b| && b[j] == u;
    if i < j { } else if j < i { }
  }

  lemma NeverSeen(a: seq<Ticket>, all: seq<Ticket>, b: seq<Ticket>)
    requires Lowest(a, all) && Ascending(Id, b) && Ids(a) !! Ids(b) && Ids(b) <= Ids(Merge(a, b))
    ensures Ids(all) !! Ids(b)
  {
    hide Merge;
    AscendingIsDistinct(Id, a); AscendingIsDistinct(Id, b);
    NewAreDistinct(a, b);
    forall t | t in all ensures t.id !in Ids(b) {
      if t.id in Ids(b) {
        var u :| u in b && u.id == t.id;
        if t in a {
          HasId(a, t);
        } else {
          NoneIsUseless(a, b, u);
          AboveIsUseless(a, b, u);
        }
      }
    }
  }

  /** One merge keeps the accumulator the list of the lowest identifiers seen. */
  lemma MergeKeepsLowest(a: seq<Ticket>, all: seq<Ticket>, b: seq<Ticket>)
    requires Lowest(a, all) && Ascending(Id, b) && Ids(a) !! Ids(b) && Ids(b) <= Ids(Merge(a, b))
    ensures Lowest(Merge(a, b), all + b)
  {
    NeverSeen(a, all, b);
    AscendingIsDistinct(Id, a); AscendingIsDistinct(Id, b);
    NewAreDistinct(a, b); NewAreDistinct(all, b);
    MergeFacts(a, b);
    hide Merge, Sorted, Ids, Truncated;
    var m := Merge(a, b);
    forall t | t in all + b ensures t in m || Above(t, m) {
      if t in a || t in b { KeptOrAbove(a, b, t); }
      else {
        forall u | u in m ensures u.id < t.id {
          if u.id >= t.id { AboveIsUseless(a, b, u); }
        }
      }
    }
  }

  /** There is only one such list. */
  lemma LowestIsUnique(a: seq<Ticket>, b: seq<Ticket>, all: seq<Ticket>)
    requires Lowest(a, all) && Lowest(b, all)
    ensures a == b
  {
    LowestCovers(a, b, all); LowestCovers(b, a, all);
    SameAscending(Id, a, b);
  }

  lemma LowestCovers(a: seq<Ticket>, b: seq<Ticket>, all: seq<Ticket>)
    requires Lowest(a, all) && Lowest(b, all)
    ensures forall t :: t in a ==> t in b
  {
    AscendingIsDistinct(Id, a); AscendingIsDistinct(Id, b);
    DistinctSize(Id, a); DistinctSize(Id, b);
    var x, y := Members(a), Members(b);
    forall t | t in a ensures t in b {
      if t !in b {
        assert Above(t, b);
        forall u | u in b ensures u in a {
          assert u in a || Above(u, a);
        }
        SubsetSize(y + {t}, x);
      }
    }
  }

  ghost predicate AllAccepted(s: State, inputs: seq<Input>)
    decreases |inputs|, 0
  {
    inputs == [] || var n := |inputs| - 1; AllAccepted(s, inputs[..n]) && Accepts(After(s, inputs[..n]), inputs[n])
  }

  ghost function After(s: State, inputs: seq<Input>): State
    requires AllAccepted(s, inputs)
    decreases |inputs|, 1
  {
    if inputs == [] then s
    else var n := |inputs| - 1; Step(After(s, inputs[..n]), inputs[n]).state
  }

  /** A run is its blocks one after the other, each accepted. */
  lemma AfterIs(s: State, inputs: seq<Input>, input: Input)
    ensures AllAccepted(s, []) && After(s, []) == s
    ensures AllAccepted(s, inputs + [input]) <==> AllAccepted(s, inputs) && Accepts(After(s, inputs), input)
    ensures AllAccepted(s, inputs + [input]) ==> After(s, inputs + [input]) == Step(After(s, inputs), input).state
  {
    assert (inputs + [input])[..|inputs|] == inputs;
    hide Accepts, Step;
  }

  /** All tickets the blocks brought, in order. */
  ghost function Brought(inputs: seq<Input>): seq<Ticket> {
    if inputs == [] then []
    else var n := |inputs| - 1; Brought(inputs[..n]) + TicketsOf(inputs[n].verify, inputs[n].proofs)
  }

  predicate WithinEpoch(inputs: seq<Input>, e: nat) {
    forall i :: 0 <= i < |inputs| ==> Epoch(inputs[i].slot) == e
  }

  /** One accepted block inside an epoch. */
  lemma StepKeepsLowest(s: State, input: Input, all: seq<Ticket>)
    requires Accepts(s, input) && Epoch(input.slot) == Epoch(s.slot) && Lowest(s.accumulator, all)
    ensures Lowest(Step(s, input).state.accumulator, all + TicketsOf(input.verify, input.proofs))
    ensures forall t :: t in TicketsOf(input.verify, input.proofs) ==> t in Step(s, input).state.accumulator
  {
    assert Ascending(Id, s.accumulator);
    hide Merge, Lowest;
    var tickets := TicketsOf(input.verify, input.proofs);
    if input.proofs == [] {
      assert all + tickets == all;
    } else {
      FaultlessIsNew(input.verify, Ids(s.accumulator), input.proofs);
      MergeKeepsLowest(s.accumulator, all, tickets);
      forall t | t in tickets ensures t in Merge(s.accumulator, tickets) {
        NoneIsUseless(s.accumulator, tickets, t);
      }
    }
  }

  lemma EpochKept(s: State, inputs: seq<Input>, e: nat)
    requires AllAccepted(s, inputs) && WithinEpoch(inputs, e) && Epoch(s.slot) == e
    ensures Epoch(After(s, inputs).slot) == e
  {
    hide Accepts, Accumulated;
  }

  /** Over every run of accepted blocks inside an epoch, started with an empty accumulator, the
      accumulator holds exactly the EPOCH lowest identifiers among all tickets brought so far. */
  lemma {:induction false} ContestKeepsLowest(s: State, inputs: seq<Input>)
    requires s.accumulator == [] && AllAccepted(s, inputs) && WithinEpoch(inputs, Epoch(s.slot))
    ensures Lowest(After(s, inputs).accumulator, Brought(inputs))
  {
    if inputs == [] {
      assert Brought(inputs) == [];
    } else {
      hide Accepts, Step, Lowest;
      var n := |inputs| - 1;
      assert WithinEpoch(inputs[..n], Epoch(s.slot));
      ContestKeepsLowest(s, inputs[..n]);
      EpochKept(s, inputs[..n], Epoch(s.slot));
      StepKeepsLowest(After(s, inputs[..n]), inputs[n], Brought(inputs[..n]));
    }
  }

  // --------------------------------------------------------------- winners announced and used

  /** Once submission has closed nothing moves the accumulator before the epoch ends. */
  lemma {:induction false} ClosedContest(s: State, inputs: seq<Input>)
    requires AllAccepted(s, inputs) && WithinEpoch(inputs, Epoch(s.slot)) && Phase(s.slot) >= SUBMISSION
    ensures After(s, inputs).accumulator == s.accumulator
    ensures Epoch(After(s, inputs).slot) == Epoch(s.slot) && Phase(After(s, inputs).slot) >= SUBMISSION
  {
    if inputs != [] {
      hide Merge, Admissible;
      var n := |inputs| - 1;
      assert WithinEpoch(inputs[..n], Epoch(s.slot));
      ClosedContest(s, inputs[..n]);
      var last := After(s, inputs[..n]);
      assert Epoch(inputs[n].slot) == Epoch(last.slot) && inputs[n].slot > last.slot;
      PhaseGrows(last.slot, inputs[n].slot);
    }
  }

  /** New tickets always change the accumulator they are merged into. */
  lemma NewTicketsShow(s: State, input: Input)
    requires Accumulated(s, input).Some? && input.proofs != []
    ensures Accumulated(s, input).value != s.accumulator
  {
    hide Merge, Ids, Ascending, TicketsOf;
    var tickets := TicketsOf(input.verify, input.proofs);
    FaultlessIsNew(input.verify, Ids(s.accumulator), input.proofs);
    assert tickets[0] in tickets;
    HasId(tickets, tickets[0]);
  }

  /** The winners announced when submission closes are the ones that seal the next epoch, exactly
      when the block that opens it carries no tickets of its own. */
  lemma PublishedWinnersAreUsed(s: State, closing: Input, between: seq<Input>, opening: Input)
    requires Accepts(s, closing) && Step(s, closing).marker.Some?
    requires AllAccepted(Step(s, closing).state, between) && WithinEpoch(between, Epoch(s.slot))
    requires var last := After(Step(s, closing).state, between);
             Accepts(last, opening) && Epoch(opening.slot) == Epoch(s.slot) + 1
    ensures var last := After(Step(s, closing).state, between);
            var winners := Step(s, closing).marker.value;
            && winners == OutsideIn(last.accumulator) && |winners| == EPOCH
            && multiset(winners) == multiset(last.accumulator)
            && (Step(last, opening).state.sealing == Tickets(winners) <==> opening.proofs == [])
            && Step(last, opening).state.sealing.Tickets?
  {
    hide Merge, Admissible;
    var closed := Step(s, closing).state;
    ClosedContest(closed, between);
    var last := After(closed, between);
    OutsideInPermutes(last.accumulator);
    hide OutsideIn;
    if opening.proofs != [] {
      NewTicketsShow(last, opening);
      if OutsideIn(Accumulated(last, opening).value) == OutsideIn(last.accumulator) {
        OutsideInInjective(Accumulated(last, opening).value, last.accumulator);
      }
    }
  }

  /** 600 tickets, with identifiers from 1 on. */
  function FullContest(): (r: seq<Ticket>)
    ensures |r| == EPOCH && Ascending(Id, r) && forall t :: t in r ==> t.id > 0
  {
    seq(EPOCH, i requires 0 <= i => Ticket(i + 1, 0))
  }

  /** A ticket lower than all of a full accumulator is taken. */
  lemma LowTicketIsTaken(a: seq<Ticket>, t: Ticket)
    requires Ascending(Id, a) && |a| == EPOCH && forall u :: u in a ==> u.id > t.id
    ensures Ids([t]) !! Ids(a) && Ids([t]) <= Ids(Merge(a, [t]))
  {
    AscendingIsDistinct(Id, a);
    NewAreDistinct(a, [t]);
    MergeFacts(a, [t]);
    hide Merge, Sorted, Truncated;
    KeptOrAbove(a, [t], t);
    var m := Merge(a, [t]);
    assert m[0] in m;
    if t in m { HasId(m, t); }
  }

  /** Submission closes with a full accumulator, and the block that opens the next epoch brings one
      ticket that is lower than all: the epoch is sealed by other tickets than were announced. */
  lemma OpeningTicketExample() returns (s: State, closing: Input, opening: Input)
    ensures Accepts(s, closing) && Step(s, closing).marker.Some?
    ensures var last := Step(s, closing).state;
            && Accepts(last, opening) && Epoch(opening.slot) == Epoch(s.slot) + 1 && |opening.proofs| == 1
            && Step(last, opening).state.sealing != Tickets(Step(s, closing).marker.value)
  {
    var verify: Verifier := _ => Some(0);
    var proof := TicketProof(0, []);
    s := State(SUBMISSION - 1, FullContest(), Keys([]));
    closing := Input(SUBMISSION, [], verify, true, None);
    opening := Input(EPOCH, [proof], verify, true, None);
    var t := Ticket(0, 0);
    LowTicketIsTaken(s.accumulator, t);
    var last := Step(s, closing).state;
    assert last.accumulator == s.accumulator;
    OneTicketIsAdmissible(verify, s.accumulator, proof, t);
    hide Merge, Admissible, Ids, FullContest, OutsideIn;
    assert Accepts(last, opening);
    assert AllAccepted(last, []) && After(last, []) == last;
    PublishedWinnersAreUsed(s, closing, [], opening);
  }

  lemma OneTicketIsAdmissible(verify: Verifier, a: seq<Ticket>, p: TicketProof, t: Ticket)
    requires p.attempt < MAX_ATTEMPTS && verify(p) == Some(t.id) && t.attempt == p.attempt && Ids([t]) !! Ids(a)
    ensures TicketsOf(verify, [p]) == [t] && Admissible(verify, a, [p])
  {
    assert TicketOf(verify, p) == t;
    HasId([t], t);
  }

  /** Tickets never seal an epoch without having been announced: if a run that starts while
      submission is open ends in a block that seals by tickets, one of its blocks announced. */
  lemma {:induction false} SealedWereAnnounced(s: State, inputs: seq<Input>, slot: nat)
    requires Phase(s.slot) < SUBMISSION && AllAccepted(s, inputs) && WithinEpoch(inputs, Epoch(s.slot))
    requires SealsByTickets(After(s, inputs), slot)
    ensures exists k :: 0 <= k < |inputs| && AllAccepted(s, inputs[..k]) && Announces(After(s, inputs[..k]),
        inputs[k].slot)
  {
    if inputs != [] {
      hide Merge, Admissible;
      var n := |inputs| - 1;
      assert WithinEpoch(inputs[..n], Epoch(s.slot));
      EpochKept(s, inputs[..n], Epoch(s.slot));
      var before := After(s, inputs[..n]);
      if Phase(before.slot) < SUBMISSION {
        assert Announces(before, inputs[n].slot);
      } else {
        assert inputs[n].proofs == [] by { PhaseGrows(before.slot, inputs[n].slot); }
        assert SealsByTickets(before, slot);
        SealedWereAnnounced(s, inputs[..n], slot);
        var k :| 0 <= k < n && AllAccepted(s, inputs[..n][..k]) && Announces(After(s, inputs[..n][..k]),
            inputs[..n][k].slot);
        assert inputs[..n][..k] == inputs[..k];
      }
    }
  }
}
