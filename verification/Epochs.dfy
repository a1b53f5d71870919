/** The whole Safrole state: around the ticket contest, the entropy pool, the validator keys that move
    up by one place each epoch, the ring commitment, the fallback keys and the epoch marker. */
module Epochs {
  import opened Bytes
  import opened Safrole
  import opened Timeslots

  datatype Validator = Validator(bandersnatch: int, ed25519: int)

  const NULL_VALIDATOR := Validator(0, 0)

  datatype Pool = Pool(e0: int, e1: int, e2: int, e3: int)

  /** `verify` takes the keys of the ring, their commitment, the entropy and a proof; `commit` the keys
      of a ring; `mix` the entropy so far and that of a block; `draw` an entropy and a position. */
  datatype Crypto = Crypto(
    verify: (seq<int>, int, int, TicketProof) -> Option<nat>,
    commit: seq<int> -> Option<int>,
    mix: (int, int) -> int,
    draw: (int, nat) -> nat)

  datatype Whole = Whole(
    contest: State, pool: Pool, commitment: int,
    queued: seq<Validator>, next: seq<Validator>, current: seq<Validator>, archived: seq<Validator>)

  datatype Block = Block(slot: nat, proofs: seq<TicketProof>, entropy: int, offenders: seq<int>)

  datatype EpochMark = EpochMark(entropy: int, ticketsEntropy: int, keys: seq<int>)

  datatype WholeOutcome = WholeOutcome(state: Whole, winners: Option<seq<Ticket>>, epochMark: Option<EpochMark>)

  predicate Changes(s: Whole, b: Block) {
    Epoch(b.slot) > Epoch(s.contest.slot)
  }

  // ------------------------------------------------------------------------------------- the parts

  function RingKeys(vs: seq<Validator>): (r: seq<int>)
    ensures |r| == |vs|
  {
    seq(|vs|, i requires 0 <= i < |vs| => vs[i].bandersnatch)
  }

  function Nullified(vs: seq<Validator>, offenders: seq<int>): (r: seq<Validator>)
    ensures |r| == |vs|
  {
    seq(|vs|, i requires 0 <= i < |vs| => if vs[i].ed25519 in offenders then NULL_VALIDATOR else vs[i])
  }

  method NullifyOffenders(vs: seq<Validator>, offenders: seq<int>) returns (r: seq<Validator>)
    ensures r == Nullified(vs, offenders)
    ensures |r| == |vs|
    ensures forall i :: 0 <= i < |vs| && vs[i].ed25519 in offenders ==> r[i] == Validator(0, 0)
    ensures forall i :: 0 <= i < |vs| && vs[i].ed25519 !in offenders ==> r[i] == vs[i]
  {
    var result := new Validator[|vs|](i requires 0 <= i < |vs| => vs[i]);
    for n := 0 to |vs|
      invariant forall i :: 0 <= i < n ==>
                  result[i] == if vs[i].ed25519 in offenders then NULL_VALIDATOR else vs[i]
      invariant forall i :: n <= i < |vs| ==> result[i] == vs[i]
    {
      if vs[n].ed25519 in offenders { result[n] := NULL_VALIDATOR; }
    }
    r := result[..];
  }

  function NewPool(k: Crypto, s: Whole, b: Block): Pool {
    var first := k.mix(s.pool.e0, b.entropy);
    if Changes(s, b) then Pool(first, s.pool.e0, s.pool.e1, s.pool.e2) else s.pool.(e0 := first)
  }

  function FallbackKey(k: Crypto, entropy: int, vs: seq<Validator>, i: nat): int
    requires |vs| > 0
  {
    vs[k.draw(entropy, i) % |vs|].bandersnatch
  }

  function FallbackKeys(k: Crypto, entropy: int, vs: seq<Validator>): (r: seq<int>)
    requires |vs| > 0
    ensures |r| == EPOCH
  {
    seq(EPOCH, i requires 0 <= i => FallbackKey(k, entropy, vs, i))
  }

  method SelectFallbackKeys(k: Crypto, entropy: int, vs: seq<Validator>) returns (r: seq<int>)
    requires |vs| > 0
    ensures r == FallbackKeys(k, entropy, vs)
    ensures |r| == EPOCH && forall i :: 0 <= i < EPOCH ==> r[i] == vs[k.draw(entropy, i) % |vs|].bandersnatch
  {
    var keys := new int[EPOCH];
    for i := 0 to EPOCH
      invariant forall j :: 0 <= j < i ==> keys[j] == FallbackKey(k, entropy, vs, j)
      invariant forall j :: 0 <= j < i ==> keys[j] == vs[k.draw(entropy, j) % |vs|].bandersnatch
    {
      var index := k.draw(entropy, i) % |vs|;
      keys[i] := vs[index].bandersnatch;
    }
    r := keys[..];
  }

  // ---------------------------------------------------------------------------------- one block

  /** The keys of the epoch after the next, once the block is in. */
  function NextKeys(s: Whole, b: Block): seq<Validator> {
    if Changes(s, b) then Nullified(s.queued, b.offenders) else s.next
  }

  /** Tickets are checked against the keys and the pool before the block, on an epoch change too. A
      ring that cannot be built is a verifier that refuses every proof. */
  function VerifierOf(k: Crypto, s: Whole): Verifier {
    p => k.verify(RingKeys(s.next), s.commitment, s.pool.e2, p)
  }

  /** What the contest sees of a block. */
  function InputOf(k: Crypto, s: Whole, b: Block): Input
    requires |s.next| > 0
  {
    Input(b.slot, b.proofs, VerifierOf(k, s), k.commit(RingKeys(NextKeys(s, b))).Some?,
          Some(FallbackKeys(k, NewPool(k, s, b).e2, s.next)))
  }

  ghost predicate Takes(k: Crypto, s: Whole, b: Block)
    requires |s.next| > 0
  {
    Accepts(s.contest, InputOf(k, s, b))
  }

  /** Every list of keys has its validators; in the original they are arrays. */
  predicate Peopled(s: Whole) {
    |s.queued| > 0 && |s.next| > 0
  }

  /** What an accepted block does to everything. */
  ghost function WholeStep(k: Crypto, s: Whole, b: Block): (r: WholeOutcome)
    requires |s.next| > 0 && Takes(k, s, b)
    ensures Peopled(s) ==> Peopled(r.state)
  {
    var o := Step(s.contest, InputOf(k, s, b));
    var next := NextKeys(s, b);
    if Changes(s, b) then
      WholeOutcome(Whole(o.state, NewPool(k, s, b), k.commit(RingKeys(next)).value, s.queued, next, s.next, s.current),
                   o.marker, Some(EpochMark(s.pool.e0, s.pool.e1, RingKeys(next))))
    else WholeOutcome(s.(contest := o.state, pool := NewPool(k, s, b)), o.marker, None)
  }

  method CalculateNewEntropyPool(k: Crypto, s: Whole, b: Block) returns (pool: Pool)
    ensures pool == NewPool(k, s, b)
  {
    pool := s.pool;
    if Epoch(b.slot) > Epoch(s.contest.slot) {
      pool := pool.(e3 := pool.e2);
      pool := pool.(e2 := pool.e1);
      pool := pool.(e1 := pool.e0);
    }
    pool := pool.(e0 := k.mix(s.pool.e0, b.entropy));
  }

  method UpdateSafrole(k: Crypto, b: Block, s: Whole) returns (r: Result<WholeOutcome>)
    requires |s.next| > 0
    ensures r.Ok? <==> Takes(k, s, b)
    ensures r.Ok? ==> r.value == WholeStep(k, s, b)
    ensures r == Err(BadSlot) <==> b.slot <= s.contest.slot
  {
    hide Accepts, Step, FallbackKeys, RingKeys, Nullified;
    var pool := CalculateNewEntropyPool(k, s, b);
    var changed := Epoch(b.slot) > Epoch(s.contest.slot);
    var next := s.next;
    if changed { next := NullifyOffenders(s.queued, b.offenders); }
    var commitment := k.commit(RingKeys(next));
    var fallback := SelectFallbackKeys(k, pool.e2, s.next);
    var contest := UpdateSafroleState(
      Input(b.slot, b.proofs, VerifierOf(k, s), commitment.Some?, Some(fallback)), s.contest);
    if contest.Err? { return Err(contest.error); }
    if changed {
      CommitmentIsThere(k, s, b);
      r := Ok(WholeOutcome(
        Whole(contest.value.state, pool, commitment.value, s.queued, next, s.next, s.current),
        contest.value.marker, Some(EpochMark(s.pool.e0, s.pool.e1, RingKeys(next)))));
    } else {
      r := Ok(WholeOutcome(s.(contest := contest.value.state, pool := pool), contest.value.marker, None));
    }
  }

  lemma CommitmentIsThere(k: Crypto, s: Whole, b: Block)
    requires |s.next| > 0 && Takes(k, s, b) && Changes(s, b)
    ensures k.commit(RingKeys(NextKeys(s, b))).Some?
  {
  }

  // -------------------------------------------------------------------------------- whole runs

  ghost predicate AllTaken(k: Crypto, s: Whole, blocks: seq<Block>)
    requires Peopled(s)
    decreases |blocks|, 0
  {
    blocks == [] || (
      var n := |blocks| - 1;
      AllTaken(k, s, blocks[..n]) && Takes(k, WholeAfter(k, s, blocks[..n]), blocks[n]))
  }

  ghost function WholeAfter(k: Crypto, s: Whole, blocks: seq<Block>): (r: Whole)
    requires Peopled(s) && AllTaken(k, s, blocks)
    ensures Peopled(r)
    decreases |blocks|, 1
  {
    if blocks == [] then s
    else
      var n := |blocks| - 1;
      var before := WholeAfter(k, s, blocks[..n]);
      WholeStep(k, before, blocks[n]).state
  }

  /** A run is its blocks one after the other, each taken. */
  lemma WholeAfterIs(k: Crypto, s: Whole, blocks: seq<Block>, b: Block)
    requires Peopled(s)
    ensures AllTaken(k, s, []) && WholeAfter(k, s, []) == s
    ensures AllTaken(k, s, blocks + [b]) <==> AllTaken(k, s, blocks) && Takes(k, WholeAfter(k, s, blocks), b)
    ensures AllTaken(k, s, blocks + [b]) ==>
              WholeAfter(k, s, blocks + [b]) == WholeStep(k, WholeAfter(k, s, blocks), b).state
  {
    assert (blocks + [b])[..|blocks|] == blocks;
    hide Takes, WholeStep;
  }

  /** The inputs of the contest along a run. */
  ghost function InputsOf(k: Crypto, s: Whole, blocks: seq<Block>): (r: seq<Input>)
    requires Peopled(s) && AllTaken(k, s, blocks)
    ensures |r| == |blocks|
  {
    if blocks == [] then []
    else
      var n := |blocks| - 1;
      InputsOf(k, s, blocks[..n]) + [InputOf(k, WholeAfter(k, s, blocks[..n]), blocks[n])]
  }

  /** A run of the whole state is a run of the contest, so everything proved of runs of the contest
      holds here. */
  lemma {:induction false} RunIsContestRun(k: Crypto, s: Whole, blocks: seq<Block>)
    requires Peopled(s) && AllTaken(k, s, blocks)
    ensures AllAccepted(s.contest, InputsOf(k, s, blocks))
    ensures After(s.contest, InputsOf(k, s, blocks)) == WholeAfter(k, s, blocks).contest
  {
    if blocks != [] {
      var n := |blocks| - 1;
      RunIsContestRun(k, s, blocks[..n]);
      hide Accepts, Step, InputOf;
      var inputs := InputsOf(k, s, blocks);
      assert inputs[..n] == InputsOf(k, s, blocks[..n]);
    }
  }

  ghost predicate SameEpoch(blocks: seq<Block>, e: nat) {
    forall i :: 0 <= i < |blocks| ==> Epoch(blocks[i].slot) == e
  }

  /** Inside an epoch keys, commitment and the older entropies stand still. */
  lemma {:induction false} EpochStandsStill(k: Crypto, s: Whole, blocks: seq<Block>)
    requires Peopled(s) && AllTaken(k, s, blocks) && SameEpoch(blocks, Epoch(s.contest.slot))
    ensures var r := WholeAfter(k, s, blocks);
            && r == s.(contest := r.contest, pool := s.pool.(e0 := r.pool.e0))
            && Epoch(r.contest.slot) == Epoch(s.contest.slot)
  {
    if blocks != [] {
      var n := |blocks| - 1;
      assert SameEpoch(blocks[..n], Epoch(s.contest.slot));
      EpochStandsStill(k, s, blocks[..n]);
      hide Accepts, InputOf, Accumulated;
    }
  }

  /** What an epoch marker publishes is what is used. In the epoch it opens, tickets are verified with
      the ring of its keys and its second entropy; the block that opens the epoch after it makes its
      keys the current ones, and draws fallback keys from them with its first entropy. */
  lemma PublishedKeysAreUsed(k: Crypto, s: Whole, opening: Block, between: seq<Block>, next: Block)
    requires Peopled(s) && Takes(k, s, opening) && Changes(s, opening)
    requires AllTaken(k, WholeStep(k, s, opening).state, between) && SameEpoch(between, Epoch(opening.slot))
    requires var last := WholeAfter(k, WholeStep(k, s, opening).state, between);
             Takes(k, last, next) && Changes(last, next)
    ensures WholeStep(k, s, opening).epochMark.Some?
    ensures var mark := WholeStep(k, s, opening).epochMark.value;
            var last := WholeAfter(k, WholeStep(k, s, opening).state, between);
            var after := WholeStep(k, last, next).state;
            && RingKeys(last.next) == mark.keys && k.commit(mark.keys) == Some(last.commitment)
            && last.pool.e2 == mark.ticketsEntropy
            && after.current == Nullified(s.queued, opening.offenders) && RingKeys(after.current) == mark.keys
            && after.pool.e2 == mark.entropy
            && (after.contest.sealing.Keys? ==>
                  after.contest.sealing.keys == FallbackKeys(k, mark.entropy, after.current))
  {
    var started := WholeStep(k, s, opening).state;
    CommitmentIsThere(k, s, opening);
    StepMovesSlot(k, s, opening);
    EpochStandsStill(k, started, between);
    var last := WholeAfter(k, started, between);
    SealingOf(k, last, next);
    hide Takes, Accepts, RingKeys, FallbackKeys, Nullified, AllTaken;
  }

  lemma StepMovesSlot(k: Crypto, s: Whole, b: Block)
    requires |s.next| > 0 && Takes(k, s, b)
    ensures WholeStep(k, s, b).state.contest.slot == b.slot
  {
    hide Accepts, InputOf;
    assert InputOf(k, s, b).slot == b.slot by { SlotOfInput(k, s, b); }
  }

  lemma SlotOfInput(k: Crypto, s: Whole, b: Block)
    requires |s.next| > 0
    ensures InputOf(k, s, b).slot == b.slot
  {
  }

  lemma SealingOf(k: Crypto, s: Whole, b: Block)
    requires |s.next| > 0 && Takes(k, s, b) && Changes(s, b)
    ensures var sealing := WholeStep(k, s, b).state.contest.sealing;
            sealing.Keys? ==> sealing.keys == FallbackKeys(k, NewPool(k, s, b).e2, s.next)
  {
    hide Accepts, Accumulated, FallbackKeys, RingKeys, OutsideIn;
  }

  // -------------------------------------------------------------- what moves on an epoch change

  /** A block that opens an epoch moves every list of keys and every entropy up by one place. The queued
      validators come in, each in its place, offenders replaced by zeros; the commitment is that of their keys,
      and the marker publishes them with the two newest entropies before the block. */
  lemma OpeningBlockMoves(k: Crypto, s: Whole, b: Block)
    requires |s.next| > 0 && Takes(k, s, b) && Changes(s, b)
    ensures var r := WholeStep(k, s, b);
            && r.state.archived == s.current && r.state.current == s.next && r.state.queued == s.queued
            && |r.state.next| == |s.queued|
            && (forall i :: 0 <= i < |s.queued| && s.queued[i].ed25519 in b.offenders ==>
                  r.state.next[i] == Validator(0, 0))
            && (forall i :: 0 <= i < |s.queued| && s.queued[i].ed25519 !in b.offenders ==>
                  r.state.next[i] == s.queued[i])
            && r.state.pool == Pool(k.mix(s.pool.e0, b.entropy), s.pool.e0, s.pool.e1, s.pool.e2)
            && r.epochMark.Some? && r.epochMark.value.entropy == s.pool.e0
            && r.epochMark.value.ticketsEntropy == s.pool.e1
            && IsRing(r.epochMark.value.keys, r.state.next)
            && k.commit(r.epochMark.value.keys) == Some(r.state.commitment)
  {
    CommitmentIsThere(k, s, b);
    RingOf(NextKeys(s, b));
    hide Takes, Accepts, RingKeys, FallbackKeys;
  }

  /** The keys are those of the validators, in order. */
  predicate IsRing(keys: seq<int>, vs: seq<Validator>) {
    |keys| == |vs| && forall i :: 0 <= i < |vs| ==> keys[i] == vs[i].bandersnatch
  }

  lemma RingOf(vs: seq<Validator>)
    ensures IsRing(RingKeys(vs), vs)
  {
  }

  /** Without offenders the queued validators come in as they are. */
  lemma HonestComeIn(k: Crypto, s: Whole, b: Block)
    requires |s.next| > 0 && Takes(k, s, b) && Changes(s, b)
    requires forall v :: v in s.queued ==> v.ed25519 !in b.offenders
    ensures WholeStep(k, s, b).state.next == s.queued
  {
    OpeningBlockMoves(k, s, b);
    hide WholeStep;
    var next := WholeStep(k, s, b).state.next;
    forall i | 0 <= i < |s.queued| ensures next[i] == s.queued[i] { assert s.queued[i] in s.queued; }
  }

  /** Any other block mixes its entropy into the newest and moves nothing. */
  lemma OtherBlocksMove(k: Crypto, s: Whole, b: Block)
    requires |s.next| > 0 && Takes(k, s, b) && !Changes(s, b)
    ensures var r := WholeStep(k, s, b);
            && r.state == s.(contest := r.state.contest, pool := r.state.pool) && r.epochMark == None
            && r.state.pool == Pool(k.mix(s.pool.e0, b.entropy), s.pool.e1, s.pool.e2, s.pool.e3)
  {
    hide Takes, Accepts;
  }

  /** Tickets are verified with the keys of the next validators, in order, the commitment and the third
      entropy, all before the block. */
  lemma TicketsAreVerifiedWith(k: Crypto, s: Whole, b: Block, p: TicketProof, keys: seq<int>)
    requires |s.next| > 0 && IsRing(keys, s.next)
    ensures InputOf(k, s, b).verify(p) == k.verify(keys, s.commitment, s.pool.e2, p)
    ensures InputOf(k, s, b).slot == b.slot && InputOf(k, s, b).proofs == b.proofs
  {
    RingOf(s.next);
    assert keys == RingKeys(s.next);
    hide RingKeys, FallbackKeys;
  }

  // ------------------------------------------------------- tickets in the block that opens an epoch

  /** The tickets of a block are verified with the entropy, the ring and the commitment that hold
      after it exactly when it opens no epoch, or the values it moves up happen to be the same. */
  lemma TicketsUseNewValuesExactlyWhen(k: Crypto, s: Whole, b: Block)
    requires |s.next| > 0 && Takes(k, s, b)
    ensures var after := WholeStep(k, s, b).state;
            && s.pool.e2 == after.pool.e2 && RingKeys(s.next) == RingKeys(after.next)
            && s.commitment == after.commitment
            <==>
            || !Changes(s, b)
            || (var queued := RingKeys(Nullified(s.queued, b.offenders));
                s.pool.e1 == s.pool.e2 && queued == RingKeys(s.next) && k.commit(queued) == Some(s.commitment))
  {
    if Changes(s, b) { CommitmentIsThere(k, s, b); }
    hide Takes, Accepts, RingKeys, Nullified, FallbackKeys;
  }

  /** A ticket that only the entropy before the block accepts is taken by the block that opens the
      epoch, though it fails with the entropy of the epoch it is in. */
  lemma OldEntropyExample() returns (k: Crypto, s: Whole, b: Block)
    ensures Peopled(s) && Takes(k, s, b) && Changes(s, b) && |b.proofs| == 1
    ensures var after := WholeStep(k, s, b).state;
            VerifierOf(k, s)(b.proofs[0]).Some? && VerifierOf(k, after)(b.proofs[0]) == None
  {
    var proof, vs := TicketProof(0, []), [NULL_VALIDATOR];
    k := Crypto((ring, z, entropy, p) => if entropy == 2 then Some(0) else None, ring => Some(0),
                (a, b) => 0, (entropy, i) => 0);
    s := Whole(State(0, [], Keys([])), Pool(0, 1, 2, 3), 0, vs, vs, vs, vs);
    b := Block(EPOCH, [proof], 0, []);
    assert VerifierOf(k, s)(proof) == Some(0);
    FirstTicketIsTaken(VerifierOf(k, s), proof, Ticket(0, 0));
    hide Merge, Admissible, Ids;
    assert Accepts(s.contest, InputOf(k, s, b));
    assert NewPool(k, s, b).e2 == 1;
  }

  lemma FirstTicketIsTaken(verify: Verifier, p: TicketProof, t: Ticket)
    requires verify(p) == Some(t.id) && t.attempt == p.attempt < MAX_ATTEMPTS
    ensures TicketsOf(verify, [p]) == [t] && Admissible(verify, [], [p]) && Ids([t]) <= Ids(Merge([], [t]))
  {
    OneTicketIsAdmissible(verify, [], p, t);
    NewAreDistinct([], [t]);
    MergeFacts([], [t]);
    KeptOrAbove([], [t], t);
    hide Merge;
    HasId(Merge([], [t]), t);
  }
}
