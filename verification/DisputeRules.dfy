/** What it means for a dispute extrinsic to be accepted, vote by vote, and how it is recorded. */
module DisputeRules {
  import opened Bytes
  import opened Disputes

  // ------------------------------------------------------------------- what acceptance means

  /** A verdict of this epoch is voted on with the keys of the current validators, one of the epoch before with
      those of the archived ones, each voter once and in order. The report was not judged before, and the
      votes are all positive, with a fault against the report, all negative, with two culprits, or one third. */
  ghost predicate VerdictMeans(verify: Verifier, d: Extrinsic, j: Judgements, vs: Validators, v: Verdict) {
    && (v.epoch == vs.epoch || v.epoch + 1 == vs.epoch)
    && (forall a, b :: 0 <= a < b < |v.judgements| ==> v.judgements[a].index < v.judgements[b].index)
    && (forall a :: 0 <= a < |v.judgements| ==>
          VoteMeans(verify, v.report, v.judgements[a], if v.epoch == vs.epoch then vs.current else vs.archived))
    && v.report !in j.good && v.report !in j.bad && v.report !in j.wonky
    && (|| (Positive(v.judgements) == 683 && exists f :: f in d.faults && f.report == v.report && !f.valid)
        || (Positive(v.judgements) == 0 && |d.culprits| >= 2)
        || Positive(v.judgements) == 341)
  }

  predicate VoteMeans(verify: Verifier, report: nat, vote: Judgement, keys: seq<nat>) {
    vote.index < |keys|
    && verify(keys[vote.index], if vote.valid then ValidVote else InvalidVote, report, vote.signature)
  }

  /** The report has a verdict with `count` positive votes. */
  ghost predicate Judged(d: Extrinsic, report: nat, count: nat) {
    exists k :: 0 <= k < |d.verdicts| && d.verdicts[k].report == report && Positive(d.verdicts[k].judgements) == count
  }

  /** A fault is signed for what it says, names no known offender, and calls its report invalid exactly if the
      report was found good by this extrinsic. */
  ghost predicate FaultMeans(verify: Verifier, d: Extrinsic, j: Judgements, f: Fault) {
    && verify(f.key, if f.valid then ValidVote else InvalidVote, f.report, f.signature)
    && f.key !in j.offenders
    && (!f.valid <==> Judged(d, f.report, 683))
  }

  /** A culprit signed a guarantee for a report found bad by this extrinsic, and is no known offender nor made one
      by a fault. */
  ghost predicate CulpritMeans(verify: Verifier, d: Extrinsic, j: Judgements, c: Culprit) {
    && verify(c.key, Guarantee, c.report, c.signature)
    && Judged(d, c.report, 0) && c.key !in j.offenders
    && forall f :: f in d.faults && f.key == c.key ==> f.valid
  }

  ghost predicate InOrder(d: Extrinsic) {
    && (forall a, b :: 0 <= a < b < |d.verdicts| ==> d.verdicts[a].report < d.verdicts[b].report)
    && (forall a, b :: 0 <= a < b < |d.culprits| ==> d.culprits[a].key < d.culprits[b].key)
    && (forall a, b :: 0 <= a < b < |d.faults| ==> d.faults[a].key < d.faults[b].key)
  }

  /** An extrinsic is accepted exactly if everything in it is in order and means what it should. */
  lemma AcceptsMeans(verify: Verifier, d: Extrinsic, j: Judgements, vs: Validators)
    requires FullVerdicts(d)
    ensures Accepts(verify, d, j, vs) <==>
            && InOrder(d)
            && (forall v :: v in d.verdicts ==> VerdictMeans(verify, d, j, vs, v))
            && (forall f :: f in d.faults ==> FaultMeans(verify, d, j, f))
            && (forall c :: c in d.culprits ==> CulpritMeans(verify, d, j, c))
  {
    if InOrder(d) {
      VerdictsMean(verify, d, j, vs);
      FaultsMean(verify, d, j);
      hide VerdictMeans, FaultMeans, Reports, WithVerdicts;
      if (forall f :: f in d.faults ==> FaultMeans(verify, d, j, f)) {
        CulpritsMean(verify, d, j);
      }
      hide CulpritMeans;
      assert FaultsAscend(d.faults) && VerdictsAscend(d.verdicts) && CulpritsAscend(d.culprits);
      hide InOrder, FaultsAscend, VerdictsAscend, CulpritsAscend;
    }
  }

  lemma OneVerdict(d: Extrinsic, report: nat, k: nat)
    requires InOrder(d) && k < |d.verdicts| && d.verdicts[k].report == report
    ensures FirstOn(d.verdicts, report, k)
    ensures forall count :: Judged(d, report, count) <==> Positive(d.verdicts[k].judgements) == count
  {
    hide Positive;
    forall count ensures Judged(d, report, count) <==> Positive(d.verdicts[k].judgements) == count {
      if Judged(d, report, count) {
        var i :| 0 <= i < |d.verdicts| && d.verdicts[i].report == report
                 && Positive(d.verdicts[i].judgements) == count;
        if i < k { } else if k < i { }
      }
    }
  }

  lemma JudgedMeans(d: Extrinsic, report: nat)
    requires InOrder(d) && FullVerdicts(d)
    ensures UpheldReport(d.verdicts, report) <==> Judged(d, report, 683)
    ensures CondemnedReport(d.verdicts, report) <==> Judged(d, report, 0)
  {
    if k: nat :| k < |d.verdicts| && d.verdicts[k].report == report {
      OneVerdict(d, report, k);
      FirstDecides(d.verdicts, report, k);
      hide Positive, UpheldReport, CondemnedReport, Judged;
    }
  }

  lemma VerdictsMean(verify: Verifier, d: Extrinsic, j: Judgements, vs: Validators)
    ensures (forall v :: v in d.verdicts ==> VerdictMeans(verify, d, j, vs, v)) <==>
            && (forall i :: 0 <= i < |d.verdicts| ==> JudgementsAscend(d.verdicts[i].judgements))
            && (forall i :: 0 <= i < |d.verdicts| ==> VerdictSigned(verify, d.verdicts[i], vs))
            && NotJudged(d.verdicts, j)
            && (forall i :: 0 <= i < |d.verdicts| ==> VerdictStands(d.verdicts[i], d))
  {
    forall i | 0 <= i < |d.verdicts|
      ensures VerdictMeans(verify, d, j, vs, d.verdicts[i]) <==>
              && JudgementsAscend(d.verdicts[i].judgements) && VerdictSigned(verify, d.verdicts[i], vs)
              && d.verdicts[i].report !in j.good && d.verdicts[i].report !in j.bad && d.verdicts[i].report !in j.wonky
              && VerdictStands(d.verdicts[i], d) {
      VerdictMeansOne(verify, d, j, vs, d.verdicts[i]);
    }
    hide VerdictMeans, JudgementsAscend, VerdictSigned, VerdictStands;
    assert forall i :: 0 <= i < |d.verdicts| ==> d.verdicts[i] in d.verdicts;
  }

  lemma VerdictMeansOne(verify: Verifier, d: Extrinsic, j: Judgements, vs: Validators, v: Verdict)
    ensures VerdictMeans(verify, d, j, vs, v) <==>
            && JudgementsAscend(v.judgements) && VerdictSigned(verify, v, vs)
            && v.report !in j.good && v.report !in j.bad && v.report !in j.wonky && VerdictStands(v, d)
  {
    SignedMeans(verify, v, vs);
    FaultAgainst(d.faults, v.report);
    hide VerdictSigned, VoteMeans, Positive, FaultKeys;
  }

  lemma SignedMeans(verify: Verifier, v: Verdict, vs: Validators)
    ensures VerdictSigned(verify, v, vs) <==>
            && (v.epoch == vs.epoch || v.epoch + 1 == vs.epoch)
            && (forall a :: 0 <= a < |v.judgements| ==>
                  VoteMeans(verify, v.report, v.judgements[a], if v.epoch == vs.epoch then vs.current else vs.archived))
  {
    assert forall a :: 0 <= a < |v.judgements| ==>
        (JudgementSigned(verify, v, KeysFor(v, vs), v.judgements[a]) <==>
         VoteMeans(verify, v.report, v.judgements[a], if v.epoch == vs.epoch then vs.current else vs.archived));
    hide JudgementSigned, VoteMeans;
  }

  lemma {:induction false} FaultAgainst(faults: seq<Fault>, report: nat)
    ensures FaultKeys(faults, report) != [] <==> exists f :: f in faults && f.report == report && !f.valid
  {
    if faults != [] {
      var n := |faults| - 1;
      FaultAgainst(faults[..n], report);
      assert faults == faults[..n] + [faults[n]];
    }
  }

  lemma FaultsMean(verify: Verifier, d: Extrinsic, j: Judgements)
    requires InOrder(d) && FullVerdicts(d)
    ensures (forall f :: f in d.faults ==> FaultMeans(verify, d, j, f)) <==>
            FaultsOppose(d) && NotOffending(d.faults, j.offenders) && FaultsSigned(verify, d.faults)
  {
    hide UpheldReport, CondemnedReport, Judged, InOrder, FullVerdicts;
    forall i | 0 <= i < |d.faults|
      ensures UpheldReport(d.verdicts, d.faults[i].report) <==> Judged(d, d.faults[i].report, 683) {
      JudgedMeans(d, d.faults[i].report);
    }
    assert forall i :: 0 <= i < |d.faults| ==> d.faults[i] in d.faults;
  }

  lemma CulpritsMean(verify: Verifier, d: Extrinsic, j: Judgements)
    requires InOrder(d) && FullVerdicts(d) && forall f :: f in d.faults ==> FaultMeans(verify, d, j, f)
    ensures (forall c :: c in d.culprits ==> CulpritMeans(verify, d, j, c)) <==>
            && CulpritsCondemned(d) && CulpritsSigned(verify, d.culprits)
            && FreshCulprits(d.culprits, WithVerdicts(d.verdicts, d.faults, j).offenders)
  {
    hide UpheldReport, CondemnedReport, Judged, InOrder, FullVerdicts, WithVerdicts;
    forall i | 0 <= i < |d.culprits|
      ensures CondemnedReport(d.verdicts, d.culprits[i].report) <==> Judged(d, d.culprits[i].report, 0)
      ensures d.culprits[i].key !in WithVerdicts(d.verdicts, d.faults, j).offenders <==>
              d.culprits[i].key !in j.offenders && forall f :: f in d.faults && f.key == d.culprits[i].key ==> f.valid {
      JudgedMeans(d, d.culprits[i].report);
      OffendersByFaults(verify, d, j, d.culprits[i].key);
    }
    assert forall i :: 0 <= i < |d.culprits| ==> d.culprits[i] in d.culprits;
  }

  /** After the verdicts the offenders are the old ones and the keys of the faults that call a report invalid. */
  lemma OffendersByFaults(verify: Verifier, d: Extrinsic, j: Judgements, key: nat)
    requires forall f :: f in d.faults ==> FaultMeans(verify, d, j, f)
    ensures key in WithVerdicts(d.verdicts, d.faults, j).offenders <==>
            key in j.offenders || exists f :: f in d.faults && f.key == key && !f.valid
  {
    AddKeysFacts(j.offenders, GoodFaultKeys(d.verdicts, d.faults));
    GoodFaultKeysAre(d.verdicts, d.faults, key);
    hide AddKeys, GoodFaultKeys, Reports, Positive;
    forall f | f in d.faults && !f.valid ensures f.report in Reports(d.verdicts, SUPER_MAJORITY) {
      ReportsAre(d.verdicts, SUPER_MAJORITY, f.report);
    }
  }

  // --------------------------------------------------------------------- what is recorded

  /** From position `n` on the numbers ascend. */
  predicate Ascends(s: seq<nat>, n: nat) {
    forall a, b :: n <= a < b < |s| ==> s[a] < s[b]
  }

  lemma {:induction false} ReportsAscend(verdicts: seq<Verdict>, count: nat)
    requires VerdictsAscend(verdicts)
    ensures Ascends(Reports(verdicts, count), 0)
  {
    if verdicts != [] {
      var n := |verdicts| - 1;
      hide Positive;
      assert VerdictsAscend(verdicts[..n]);
      ReportsAscend(verdicts[..n], count);
      var r := Reports(verdicts[..n], count);
      forall a | 0 <= a < |r| ensures r[a] < verdicts[n].report {
        ReportsAre(verdicts[..n], count, r[a]);
        assert r[a] in r;
      }
    }
  }

  /** The newly judged reports are appended in ascending order. */
  lemma RecordedInOrder(verify: Verifier, d: Extrinsic, j: Judgements, vs: Validators)
    requires Accepts(verify, d, j, vs)
    ensures var r := AfterDispute(verify, d, j, vs);
            && j.good <= r.good && j.bad <= r.bad && j.wonky <= r.wonky
            && Ascends(r.good, |j.good|) && Ascends(r.bad, |j.bad|) && Ascends(r.wonky, |j.wonky|)
  {
    hide Reports, AddKeys, GoodFaultKeys, CulpritKeys, AllSigned, VerdictStands;
    ReportsAscend(d.verdicts, SUPER_MAJORITY);
    ReportsAscend(d.verdicts, 0);
    ReportsAscend(d.verdicts, ONE_THIRD);
    AppendedAscend(j.good, Reports(d.verdicts, SUPER_MAJORITY));
    AppendedAscend(j.bad, Reports(d.verdicts, 0));
    AppendedAscend(j.wonky, Reports(d.verdicts, ONE_THIRD));
  }

  lemma AppendedAscend(known: seq<nat>, added: seq<nat>)
    requires Ascends(added, 0)
    ensures Ascends(known + added, |known|)
  {
    var all := known + added;
    forall a, b | |known| <= a < b < |all| ensures all[a] < all[b] {
      assert added[a - |known|] < added[b - |known|];
    }
  }

  // ----------------------------------------------------------------------- two culprits each

  predicate IsBad(v: Verdict) {
    Positive(v.judgements) == 0
  }

  /** Two different culprits guaranteed the report. */
  predicate HasTwoCulprits(d: Extrinsic, report: nat) {
    exists a, b :: 0 <= a < b < |d.culprits| && d.culprits[a].report == report && d.culprits[b].report == report
  }

  /** The bad verdicts are on these reports. */
  predicate BadAmong(d: Extrinsic, bad: set<nat>) {
    forall v :: v in d.verdicts && IsBad(v) ==> v.report in bad
  }

  /** In every accepted extrinsic with at most `n` bad verdicts each of them has two culprits. */
  ghost predicate AlwaysTwoCulprits(n: nat) {
    forall verify: Verifier, d: Extrinsic, j: Judgements, vs: Validators, bad: set<nat>, v: Verdict ::
      Accepts(verify, d, j, vs) && FullVerdicts(d) && |bad| <= n && BadAmong(d, bad) && v in d.verdicts && IsBad(v)
      ==> HasTwoCulprits(d, v.report)
  }

  /** Two culprits are asked for once, not for each bad verdict, so that each has its own exactly with one. */
  lemma TwoCulpritsExactlyWhen(n: nat)
    ensures AlwaysTwoCulprits(n) <==> n <= 1
  {
    if n <= 1 {
      forall verify: Verifier, d: Extrinsic, j: Judgements, vs: Validators, bad: set<nat>, v: Verdict
        | Accepts(verify, d, j, vs) && FullVerdicts(d) && |bad| <= n && BadAmong(d, bad) && v in d.verdicts && IsBad(v)
        ensures HasTwoCulprits(d, v.report) {
        OneBadVerdict(verify, d, j, vs, bad, v);
      }
    } else {
      var verify: Verifier := (key, context, report, signature) => true;
      var d, v := MissingCulpritsExample(verify);
      hide Accepts, FullVerdicts, HasTwoCulprits;
      assert |{1, 2}| == 2 <= n;
    }
  }

  lemma OneBadVerdict(verify: Verifier, d: Extrinsic, j: Judgements, vs: Validators, bad: set<nat>, v: Verdict)
    requires Accepts(verify, d, j, vs) && FullVerdicts(d) && |bad| <= 1 && BadAmong(d, bad)
    requires v in d.verdicts && IsBad(v)
    ensures HasTwoCulprits(d, v.report)
  {
    AcceptsMeans(verify, d, j, vs);
    hide Accepts;
    assert VerdictMeans(verify, d, j, vs, v);
    forall c | c in d.culprits ensures c.report == v.report {
      assert CulpritMeans(verify, d, j, c);
      var k :| 0 <= k < |d.verdicts| && d.verdicts[k].report == c.report && Positive(d.verdicts[k].judgements) == 0;
      assert d.verdicts[k] in d.verdicts && IsBad(d.verdicts[k]);
      OnlyOne(bad, c.report, v.report);
    }
    hide VerdictMeans, CulpritMeans, FaultMeans, InOrder;
    assert d.culprits[0] in d.culprits && d.culprits[1] in d.culprits;
  }

  lemma OnlyOne(s: set<nat>, x: nat, y: nat)
    requires |s| <= 1 && x in s && y in s
    ensures x == y
  {
    assert |s - {x}| == |s| - 1;
    assert s - {x} == {};
  }

  /** The votes of 683 validators against a report. */
  function AllAgainst(): (r: seq<Judgement>)
    ensures |r| == SUPER_MAJORITY
  {
    seq(SUPER_MAJORITY, i requires 0 <= i => Judgement(false, i, []))
  }

  /** Reports 1 and 2 are found bad, and both culprits guaranteed report 1. */
  function BadPair(votes: seq<Judgement>): Extrinsic {
    Extrinsic([Verdict(1, 0, votes), Verdict(2, 0, votes)], [Culprit(1, 5, []), Culprit(1, 6, [])], [])
  }

  lemma PairIsFull(d: Extrinsic, votes: seq<Judgement>)
    requires d == BadPair(votes) && |votes| == SUPER_MAJORITY
    ensures FullVerdicts(d) && InOrder(d) && d.faults == []
  {
  }

  lemma PairIsBad(d: Extrinsic, votes: seq<Judgement>)
    requires d == BadPair(votes) && Positive(votes) == 0
    ensures BadAmong(d, {1, 2}) && IsBad(d.verdicts[1]) && d.verdicts[1] in d.verdicts && d.verdicts[1].report == 2
    ensures forall v :: v in d.verdicts ==> v == d.verdicts[0] || v == d.verdicts[1]
  {
    hide Positive;
  }

  lemma PairIsJudged(d: Extrinsic, votes: seq<Judgement>)
    requires d == BadPair(votes) && Positive(votes) == 0
    ensures Judged(d, 1, 0)
  {
    hide Positive;
    assert d.verdicts[0].report == 1;
  }

  lemma PairHasNoTwo(d: Extrinsic, votes: seq<Judgement>)
    requires d == BadPair(votes)
    ensures !HasTwoCulprits(d, 2) && |d.culprits| == 2 && forall c :: c in d.culprits ==> c.report == 1
  {
  }

  lemma MissingCulpritsExample(verify: Verifier) returns (d: Extrinsic, v: Verdict)
    requires forall key, context, report, signature :: verify(key, context, report, signature)
    ensures Accepts(verify, d, Judgements([], [], [], []), Validators(0, seq(SUPER_MAJORITY, i => 0), []))
    ensures FullVerdicts(d) && BadAmong(d, {1, 2}) && v in d.verdicts && IsBad(v) && !HasTwoCulprits(d, v.report)
  {
    var votes := AllAgainst();
    PositiveMeans(votes);
    d := BadPair(votes);
    v := d.verdicts[1];
    var j, vs := Judgements([], [], [], []), Validators(0, seq(SUPER_MAJORITY, i => 0), []);
    PairIsFull(d, votes);
    PairIsBad(d, votes);
    PairIsJudged(d, votes);
    PairHasNoTwo(d, votes);
    AgainstIsMeant(verify, d, j, vs, d.verdicts[0]);
    AgainstIsMeant(verify, d, j, vs, d.verdicts[1]);
    hide AllAgainst, Positive, Accepts, VerdictMeans, InOrder, Judged, HasTwoCulprits, BadAmong, FullVerdicts, IsBad;
    AcceptsMeans(verify, d, j, vs);
  }

  lemma AgainstIsMeant(verify: Verifier, d: Extrinsic, j: Judgements, vs: Validators, v: Verdict)
    requires forall key, context, report, signature :: verify(key, context, report, signature)
    requires v.judgements == AllAgainst() && v.epoch == vs.epoch && |vs.current| == SUPER_MAJORITY && |d.culprits| == 2
    requires v.report !in j.good && v.report !in j.bad && v.report !in j.wonky
    ensures VerdictMeans(verify, d, j, vs, v)
  {
    PositiveMeans(v.judgements);
    hide Positive;
  }
}
