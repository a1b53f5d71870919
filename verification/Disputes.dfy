/** Disputes: how an extrinsic of verdicts, culprits and faults moves the judgements on record.
    Hashes and keys are their 32 octets read big-endian as one number, so that comparing numbers
    is comparing the octets. Signature verification is a parameter. */
module Disputes {
  import opened Bytes

  const SUPER_MAJORITY := 683
  const ONE_THIRD := 341

  datatype Context = Guarantee | ValidVote | InvalidVote

  /** Key, context, report, signature. */
  type Verifier = (nat, Context, nat, seq<byte>) -> bool

  datatype Judgement = Judgement(valid: bool, index: nat, signature: seq<byte>)

  datatype Verdict = Verdict(report: nat, epoch: nat, judgements: seq<Judgement>)

  datatype Culprit = Culprit(report: nat, key: nat, signature: seq<byte>)

  datatype Fault = Fault(report: nat, valid: bool, key: nat, signature: seq<byte>)

  datatype Extrinsic = Extrinsic(verdicts: seq<Verdict>, culprits: seq<Culprit>, faults: seq<Fault>)

  datatype Judgements = Judgements(good: seq<nat>, bad: seq<nat>, wonky: seq<nat>, offenders: seq<nat>)

  /** The epoch of the block and the keys of the current and the archived validators. */
  datatype Validators = Validators(epoch: nat, current: seq<nat>, archived: seq<nat>)

  datatype Error =
    | FaultsNotSorted | VerdictsNotSorted | JudgementsNotSorted | CulpritsNotSorted
    | BadIndex | BadSignature | BadAge | AlreadyOffending | AlreadyJudged | WrongFault
    | TooFewFaults | TooFewCulprits | BadVoteSplit | VerdictNotBad

  /** A verdict holds exactly a super-majority of judgements. */
  predicate FullVerdicts(d: Extrinsic) {
    forall i :: 0 <= i < |d.verdicts| ==> |d.verdicts[i].judgements| == SUPER_MAJORITY
  }

  function Contexts(valid: bool): Context {
    if valid then ValidVote else InvalidVote
  }

  // ------------------------------------------------------------------------------------- votes

  function Positive(s: seq<Judgement>): (n: nat)
    ensures n <= |s|
  {
    if s == [] then 0 else Positive(s[..|s| - 1]) + if s[|s| - 1].valid then 1 else 0
  }

  lemma {:induction false} PositiveMeans(s: seq<Judgement>)
    ensures Positive(s) == |s| <==> forall i :: 0 <= i < |s| ==> s[i].valid
    ensures Positive(s) == 0 <==> forall i :: 0 <= i < |s| ==> !s[i].valid
  {
    if s != [] {
      var n := |s| - 1;
      var t := s[..n];
      PositiveMeans(t);
      assert forall i :: 0 <= i < n ==> t[i] == s[i];
      assert (forall i :: 0 <= i < |s| ==> s[i].valid) <==> (forall i :: 0 <= i < n ==> t[i].valid) && s[n].valid;
      assert (forall i :: 0 <= i < |s| ==> !s[i].valid) <==> (forall i :: 0 <= i < n ==> !t[i].valid) && !s[n].valid;
    }
  }

  method CountPositiveJudgments(s: seq<Judgement>) returns (count: nat)
    ensures count == Positive(s)
    ensures count == |s| <==> forall i :: 0 <= i < |s| ==> s[i].valid
    ensures count == 0 <==> forall i :: 0 <= i < |s| ==> !s[i].valid
  {
    count := 0;
    for n := 0 to |s|
      invariant count == Positive(s[..n])
    {
      assert s[..n + 1][..n] == s[..n];
      if s[n].valid { count := count + 1; }
    }
    assert s[..|s|] == s;
    PositiveMeans(s);
  }

  // -------------------------------------------------------------------------------- the checks

  predicate FaultsAscend(s: seq<Fault>) {
    forall i, j :: 0 <= i < j < |s| ==> s[i].key < s[j].key
  }

  predicate VerdictsAscend(s: seq<Verdict>) {
    forall i, j :: 0 <= i < j < |s| ==> s[i].report < s[j].report
  }

  predicate JudgementsAscend(s: seq<Judgement>) {
    forall i, j :: 0 <= i < j < |s| ==> s[i].index < s[j].index
  }

  predicate CulpritsAscend(s: seq<Culprit>) {
    forall i, j :: 0 <= i < j < |s| ==> s[i].key < s[j].key
  }

  predicate SortedUnique(d: Extrinsic) {
    && FaultsAscend(d.faults) && VerdictsAscend(d.verdicts)
    && forall i :: 0 <= i < |d.verdicts| ==> JudgementsAscend(d.verdicts[i].judgements)
  }

  method VerifySortedUnique(d: Extrinsic) returns (e: Option<Error>)
    ensures e.None? <==> SortedUnique(d)
  {
    for n := 1 to Max(1, |d.faults|)
      invariant forall i, j :: 0 <= i < j < n && j < |d.faults| ==> d.faults[i].key < d.faults[j].key
    {
      if d.faults[n - 1].key >= d.faults[n].key { return Some(FaultsNotSorted); }
    }
    for n := 1 to Max(1, |d.verdicts|)
      invariant forall i, j :: 0 <= i < j < n && j < |d.verdicts| ==> d.verdicts[i].report < d.verdicts[j].report
    {
      if d.verdicts[n - 1].report >= d.verdicts[n].report { return Some(VerdictsNotSorted); }
    }
    for k := 0 to |d.verdicts|
      invariant forall i :: 0 <= i < k ==> JudgementsAscend(d.verdicts[i].judgements)
    {
      var js := d.verdicts[k].judgements;
      for n := 1 to Max(1, |js|)
        invariant forall i, j :: 0 <= i < j < n && j < |js| ==> js[i].index < js[j].index
      {
        if js[n - 1].index >= js[n].index { return Some(JudgementsNotSorted); }
      }
    }
    e := None;
  }

  function KeysFor(v: Verdict, vs: Validators): seq<nat> {
    if v.epoch != vs.epoch then vs.archived else vs.current
  }

  predicate JudgementSigned(verify: Verifier, v: Verdict, keys: seq<nat>, j: Judgement) {
    j.index < |keys| && verify(keys[j.index], Contexts(j.valid), v.report, j.signature)
  }

  predicate VerdictSigned(verify: Verifier, v: Verdict, vs: Validators) {
    && (forall i :: 0 <= i < |v.judgements| ==> JudgementSigned(verify, v, KeysFor(v, vs), v.judgements[i]))
    && v.epoch <= vs.epoch <= v.epoch + 1
  }

  predicate CulpritsSigned(verify: Verifier, s: seq<Culprit>) {
    forall i :: 0 <= i < |s| ==> verify(s[i].key, Guarantee, s[i].report, s[i].signature)
  }

  predicate FaultsSigned(verify: Verifier, s: seq<Fault>) {
    forall i :: 0 <= i < |s| ==> verify(s[i].key, Contexts(s[i].valid), s[i].report, s[i].signature)
  }

  predicate AllSigned(verify: Verifier, d: Extrinsic, vs: Validators) {
    && (forall i :: 0 <= i < |d.verdicts| ==> VerdictSigned(verify, d.verdicts[i], vs))
    && CulpritsSigned(verify, d.culprits) && FaultsSigned(verify, d.faults)
  }

  method VerifyVerdictSignatures(verify: Verifier, v: Verdict, vs: Validators) returns (e: Option<Error>)
    ensures e.None? <==> VerdictSigned(verify, v, vs)
  {
    var keys := vs.current;
    if v.epoch != vs.epoch { keys := vs.archived; }
    for n := 0 to |v.judgements|
      invariant forall i :: 0 <= i < n ==> JudgementSigned(verify, v, KeysFor(v, vs), v.judgements[i])
    {
      var j := v.judgements[n];
      assert JudgementSigned(verify, v, keys, j) == JudgementSigned(verify, v, KeysFor(v, vs), v.judgements[n]);
      if j.index >= |keys| { return Some(BadIndex); }
      if !verify(keys[j.index], Contexts(j.valid), v.report, j.signature) { return Some(BadSignature); }
    }
    if v.epoch > vs.epoch { return Some(BadAge); }
    if vs.epoch - v.epoch > 1 { return Some(BadAge); }
    e := None;
  }

  method VerifyAllSignatures(verify: Verifier, d: Extrinsic, vs: Validators) returns (e: Option<Error>)
    ensures e.None? <==> AllSigned(verify, d, vs)
  {
    hide VerdictSigned;
    for n := 0 to |d.verdicts|
      invariant forall i :: 0 <= i < n ==> VerdictSigned(verify, d.verdicts[i], vs)
    {
      e := VerifyVerdictSignatures(verify, d.verdicts[n], vs);
      if e.Some? { return; }
    }
    for n := 0 to |d.culprits|
      invariant forall i :: 0 <= i < n ==> verify(d.culprits[i].key, Guarantee, d.culprits[i].report,
          d.culprits[i].signature)
    {
      var c := d.culprits[n];
      if !verify(c.key, Guarantee, c.report, c.signature) { return Some(BadSignature); }
    }
    for n := 0 to |d.faults|
      invariant forall i :: 0 <= i < n ==>
                  verify(d.faults[i].key, Contexts(d.faults[i].valid), d.faults[i].report, d.faults[i].signature)
    {
      var f := d.faults[n];
      if !verify(f.key, Contexts(f.valid), f.report, f.signature) { return Some(BadSignature); }
    }
    e := None;
  }

  predicate NotOffending(faults: seq<Fault>, offenders: seq<nat>) {
    forall i :: 0 <= i < |faults| ==> faults[i].key !in offenders
  }

  predicate NotJudged(verdicts: seq<Verdict>, j: Judgements) {
    forall i :: 0 <= i < |verdicts| ==>
      verdicts[i].report !in j.good && verdicts[i].report !in j.bad && verdicts[i].report !in j.wonky
  }

  /** `k` is the first verdict on the report. */
  predicate FirstOn(verdicts: seq<Verdict>, report: nat, k: nat) {
    k < |verdicts| && verdicts[k].report == report && forall j :: 0 <= j < k ==> verdicts[j].report != report
  }

  /** There is a verdict on the report, and all votes of the first one are positive. */
  predicate UpheldReport(verdicts: seq<Verdict>, report: nat) {
    exists k :: 0 <= k < |verdicts| && FirstOn(verdicts, report, k)
      && Positive(verdicts[k].judgements) == |verdicts[k].judgements|
  }

  /** There is a verdict on the report, and all votes of the first one are negative. */
  predicate CondemnedReport(verdicts: seq<Verdict>, report: nat) {
    exists k :: 0 <= k < |verdicts| && FirstOn(verdicts, report, k) && Positive(verdicts[k].judgements) == 0
  }

  predicate FaultsOppose(d: Extrinsic) {
    forall i :: 0 <= i < |d.faults| ==> d.faults[i].valid != UpheldReport(d.verdicts, d.faults[i].report)
  }

  predicate CulpritsCondemned(d: Extrinsic) {
    forall i :: 0 <= i < |d.culprits| ==> CondemnedReport(d.verdicts, d.culprits[i].report)
  }

  lemma FirstDecides(verdicts: seq<Verdict>, report: nat, k: nat)
    requires FirstOn(verdicts, report, k)
    ensures UpheldReport(verdicts, report) <==> Positive(verdicts[k].judgements) == |verdicts[k].judgements|
    ensures CondemnedReport(verdicts, report) <==> Positive(verdicts[k].judgements) == 0
  {
    hide Positive;
    forall i: nat | FirstOn(verdicts, report, i) ensures i == k {
      if i < k { } else if k < i { }
    }
  }

  method VerifyFaults(verify: Verifier, d: Extrinsic, offenders: seq<nat>) returns (e: Option<Error>)
    ensures e.None? <==> FaultsOppose(d) && NotOffending(d.faults, offenders) && FaultsSigned(verify, d.faults)
  {
    hide UpheldReport;
    for n := 0 to |d.faults|
      invariant forall i :: 0 <= i < n ==> d.faults[i].valid != UpheldReport(d.verdicts, d.faults[i].report)
      invariant forall i :: 0 <= i < n ==> d.faults[i].key !in offenders
      invariant forall i :: 0 <= i < n ==>
                  verify(d.faults[i].key, Contexts(d.faults[i].valid), d.faults[i].report, d.faults[i].signature)
    {
      var f := d.faults[n];
      var allPositive := IsUpheld(d.verdicts, f.report);
      if f.valid == allPositive { return Some(WrongFault); }
      if f.key in offenders { return Some(AlreadyOffending); }
      if !verify(f.key, Contexts(f.valid), f.report, f.signature) { return Some(BadSignature); }
    }
    e := None;
  }

  /** The inner loop of `VerifyFaults`. */
  method IsUpheld(verdicts: seq<Verdict>, report: nat) returns (all: bool)
    ensures all == UpheldReport(verdicts, report)
  {
    for n := 0 to |verdicts|
      invariant forall i :: 0 <= i < n ==> verdicts[i].report != report
    {
      if verdicts[n].report == report {
        var count := CountPositiveJudgments(verdicts[n].judgements);
        FirstDecides(verdicts, report, n);
        return count == |verdicts[n].judgements|;
      }
    }
    all := false;
  }

  // -------------------------------------------------------------------------- the new judgements

  /** The reports whose verdict has `count` positive votes, in order. */
  function Reports(verdicts: seq<Verdict>, count: nat): seq<nat> {
    if verdicts == [] then []
    else
      var v := verdicts[|verdicts| - 1];
      Reports(verdicts[..|verdicts| - 1], count) + if Positive(v.judgements) == count then [v.report] else []
  }

  /** Keys of the faults that called the report invalid, in order. */
  function FaultKeys(faults: seq<Fault>, report: nat): seq<nat> {
    if faults == [] then []
    else
      var f := faults[|faults| - 1];
      FaultKeys(faults[..|faults| - 1], report) + if f.report == report && !f.valid then [f.key] else []
  }

  /** Keys of the faults that called a newly good report invalid. */
  function GoodFaultKeys(verdicts: seq<Verdict>, faults: seq<Fault>): seq<nat> {
    if verdicts == [] then []
    else
      var v := verdicts[|verdicts| - 1];
      GoodFaultKeys(verdicts[..|verdicts| - 1], faults)
        + if Positive(v.judgements) == SUPER_MAJORITY then FaultKeys(faults, v.report) else []
  }

  function CulpritKeys(culprits: seq<Culprit>): seq<nat> {
    if culprits == [] then []
    else CulpritKeys(culprits[..|culprits| - 1]) + [culprits[|culprits| - 1].key]
  }

  /** Append each key that is not there yet. */
  function AddKeys(offenders: seq<nat>, keys: seq<nat>): seq<nat> {
    if keys == [] then offenders
    else
      var r := AddKeys(offenders, keys[..|keys| - 1]);
      if keys[|keys| - 1] in r then r else r + [keys[|keys| - 1]]
  }

  lemma {:induction false} AddKeysConcat(offenders: seq<nat>, a: seq<nat>, b: seq<nat>)
    ensures AddKeys(offenders, a + b) == AddKeys(AddKeys(offenders, a), b)
  {
    if b == [] {
      assert a + b == a;
    } else {
      var n := |b| - 1;
      AddKeysConcat(offenders, a, b[..n]);
      assert (a + b)[..|a + b| - 1] == a + b[..n];
    }
  }

  predicate VerdictStands(v: Verdict, d: Extrinsic) {
    var n := Positive(v.judgements);
    || (n == SUPER_MAJORITY && FaultKeys(d.faults, v.report) != [])
    || (n == 0 && |d.culprits| >= 2)
    || n == ONE_THIRD
  }

  function WithVerdicts(verdicts: seq<Verdict>, faults: seq<Fault>, j: Judgements): Judgements {
    Judgements(j.good + Reports(verdicts, SUPER_MAJORITY), j.bad + Reports(verdicts, 0),
               j.wonky + Reports(verdicts, ONE_THIRD), AddKeys(j.offenders, GoodFaultKeys(verdicts, faults)))
  }

  lemma ReportsSnoc(verdicts: seq<Verdict>, n: nat, count: nat)
    requires n < |verdicts|
    ensures Reports(verdicts[..n + 1], count) ==
            Reports(verdicts[..n], count)
              + if Positive(verdicts[n].judgements) == count then [verdicts[n].report] else []
  {
    assert verdicts[..n + 1][..n] == verdicts[..n];
  }

  lemma WithVerdictsSnoc(verdicts: seq<Verdict>, n: nat, faults: seq<Fault>, j: Judgements)
    requires n < |verdicts|
    ensures var v := verdicts[n]; var p := WithVerdicts(verdicts[..n], faults, j); var c := Positive(v.judgements);
            WithVerdicts(verdicts[..n + 1], faults, j) ==
              if c == SUPER_MAJORITY then p.(good := p.good + [v.report], offenders := AddKeys(p.offenders,
                  FaultKeys(faults, v.report)))
              else if c == 0 then p.(bad := p.bad + [v.report])
              else if c == ONE_THIRD then p.(wonky := p.wonky + [v.report])
              else p
  {
    ReportsSnoc(verdicts, n, SUPER_MAJORITY); ReportsSnoc(verdicts, n, 0); ReportsSnoc(verdicts, n, ONE_THIRD);
    hide Reports, Positive, FaultKeys;
    assert verdicts[..n + 1][..n] == verdicts[..n];
    var keys := if Positive(verdicts[n].judgements) == SUPER_MAJORITY then FaultKeys(faults,
        verdicts[n].report) else [];
    assert GoodFaultKeys(verdicts[..n + 1], faults) == GoodFaultKeys(verdicts[..n], faults) + keys;
    AddKeysConcat(j.offenders, GoodFaultKeys(verdicts[..n], faults), keys);
  }

  method ProcessPositiveVerdict(v: Verdict, faults: seq<Fault>, j: Judgements) returns (e: Option<Error>, r: Judgements)
    ensures e.None? <==> FaultKeys(faults, v.report) != []
    ensures e.None? ==> r == j.(good := j.good + [v.report], offenders := AddKeys(j.offenders, FaultKeys(faults,
        v.report)))
  {
    var validFaults := 0;
    r := j;
    for n := 0 to |faults|
      invariant validFaults == |FaultKeys(faults[..n], v.report)|
      invariant r == j.(offenders := AddKeys(j.offenders, FaultKeys(faults[..n], v.report)))
    {
      assert faults[..n + 1][..n] == faults[..n];
      var f := faults[n];
      if f.report != v.report || f.valid {
        assert FaultKeys(faults[..n + 1], v.report) == FaultKeys(faults[..n], v.report);
      } else {
        validFaults := validFaults + 1;
        var keys := FaultKeys(faults[..n + 1], v.report);
        assert keys[..|keys| - 1] == FaultKeys(faults[..n], v.report);
        if f.key !in r.offenders {
          r := r.(offenders := r.offenders + [f.key]);
        }
      }
    }
    assert faults[..|faults|] == faults;
    if validFaults == 0 { return Some(TooFewFaults), j; }
    r := r.(good := r.good + [v.report]);
    e := None;
  }

  method ProcessVerdicts(d: Extrinsic, j: Judgements) returns (e: Option<Error>, r: Judgements)
    ensures e.None? <==> forall i :: 0 <= i < |d.verdicts| ==> VerdictStands(d.verdicts[i], d)
    ensures e.None? ==> r == WithVerdicts(d.verdicts, d.faults, j)
  {
    assert WithVerdicts(d.verdicts[..0], d.faults, j) == j;
    hide WithVerdicts, AddKeys, FaultKeys;
    r := j;
    for n := 0 to |d.verdicts|
      invariant forall i :: 0 <= i < n ==> VerdictStands(d.verdicts[i], d)
      invariant r == WithVerdicts(d.verdicts[..n], d.faults, j)
    {
      WithVerdictsSnoc(d.verdicts, n, d.faults, j);
      var v := d.verdicts[n];
      var count := CountPositiveJudgments(v.judgements);
      if count == SUPER_MAJORITY {
        e, r := ProcessPositiveVerdict(v, d.faults, r);
        if e.Some? { return; }
      } else if count == 0 {
        if |d.culprits| < 2 { return Some(TooFewCulprits), r; }
        r := r.(bad := r.bad + [v.report]);
      } else if count == ONE_THIRD {
        r := r.(wonky := r.wonky + [v.report]);
      } else {
        return Some(BadVoteSplit), r;
      }
    }
    assert d.verdicts[..|d.verdicts|] == d.verdicts;
    e := None;
  }

  predicate FreshCulprits(culprits: seq<Culprit>, offenders: seq<nat>) {
    forall i :: 0 <= i < |culprits| ==> culprits[i].key !in offenders
  }

  predicate ReportsIn(culprits: seq<Culprit>, bad: seq<nat>) {
    forall i :: 0 <= i < |culprits| ==> culprits[i].report in bad
  }

  method VerifyCulprits(verify: Verifier, culprits: seq<Culprit>, bad: seq<nat>,
                        offenders: seq<nat>) returns (e: Option<Error>)
    ensures e.None? <==> CulpritsAscend(culprits) && FreshCulprits(culprits, offenders)
                         && CulpritsSigned(verify, culprits) && ReportsIn(culprits, bad)
  {
    for n := 1 to Max(1, |culprits|)
      invariant forall i, j :: 0 <= i < j < n && j < |culprits| ==> culprits[i].key < culprits[j].key
    {
      if culprits[n - 1].key >= culprits[n].key { return Some(CulpritsNotSorted); }
    }
    for n := 0 to |culprits|
      invariant forall i :: 0 <= i < n ==> culprits[i].report in bad
      invariant forall i :: 0 <= i < n ==> verify(culprits[i].key, Guarantee, culprits[i].report, culprits[i].signature)
      invariant forall i :: 0 <= i < n ==> culprits[i].key !in offenders
    {
      var c := culprits[n];
      if !verify(c.key, Guarantee, c.report, c.signature) { return Some(BadSignature); }
      if c.report !in bad { return Some(VerdictNotBad); }
      if c.key in offenders { return Some(AlreadyOffending); }
    }
    e := None;
  }

  /** The inner loop of `ProcessCulprits`. */
  method IsCondemned(verdicts: seq<Verdict>, report: nat) returns (e: Option<Error>)
    ensures e.None? <==> CondemnedReport(verdicts, report)
  {
    for n := 0 to |verdicts|
      invariant forall i :: 0 <= i < n ==> verdicts[i].report != report
    {
      if verdicts[n].report == report {
        var count := CountPositiveJudgments(verdicts[n].judgements);
        FirstDecides(verdicts, report, n);
        if count > 0 { return Some(BadVoteSplit); }
        return None;
      }
    }
    e := Some(VerdictNotBad);
  }

  lemma {:induction false} CondemnedAreBad(verdicts: seq<Verdict>, report: nat)
    requires CondemnedReport(verdicts, report)
    ensures report in Reports(verdicts, 0)
  {
    var n := |verdicts| - 1;
    var i :| 0 <= i < |verdicts| && FirstOn(verdicts, report, i) && Positive(verdicts[i].judgements) == 0;
    if i < n {
      assert FirstOn(verdicts[..n], report, i);
      CondemnedAreBad(verdicts[..n], report);
    }
  }

  method ProcessCulprits(verify: Verifier, d: Extrinsic, j: Judgements) returns (e: Option<Error>, r: Judgements)
    ensures e.None? <==> CulpritsCondemned(d) && CulpritsAscend(d.culprits) && FreshCulprits(d.culprits, j.offenders)
                         && CulpritsSigned(verify, d.culprits) && ReportsIn(d.culprits, j.bad)
    ensures e.None? ==> r == j.(offenders := AddKeys(j.offenders, CulpritKeys(d.culprits)))
  {
    r := j;
    for n := 0 to |d.culprits|
      invariant forall i :: 0 <= i < n ==> CondemnedReport(d.verdicts, d.culprits[i].report)
    {
      e := IsCondemned(d.verdicts, d.culprits[n].report);
      if e.Some? { return; }
    }
    hide CondemnedReport;
    e := VerifyCulprits(verify, d.culprits, j.bad, j.offenders);
    if e.Some? { return; }
    for n := 0 to |d.culprits|
      invariant r == j.(offenders := AddKeys(j.offenders, CulpritKeys(d.culprits[..n])))
    {
      CulpritKeysSnoc(d.culprits, n);
      if d.culprits[n].key !in r.offenders {
        r := r.(offenders := r.offenders + [d.culprits[n].key]);
      }
    }
    assert d.culprits[..|d.culprits|] == d.culprits;
  }

  lemma CulpritKeysSnoc(s: seq<Culprit>, n: nat)
    requires n < |s|
    ensures CulpritKeys(s[..n + 1]) == CulpritKeys(s[..n]) + [s[n].key]
    ensures CulpritKeys(s[..n + 1])[..|CulpritKeys(s[..n + 1])| - 1] == CulpritKeys(s[..n])
  {
    assert s[..n + 1][..n] == s[..n];
  }

  // ----------------------------------------------------------------------- the whole transition

  /** What an accepted extrinsic makes of the judgements. */
  function NewJudgements(d: Extrinsic, j: Judgements): Judgements {
    var w := WithVerdicts(d.verdicts, d.faults, j);
    w.(offenders := AddKeys(w.offenders, CulpritKeys(d.culprits)))
  }

  /** Exactly the extrinsics the state accepts. */
  predicate Accepts(verify: Verifier, d: Extrinsic, j: Judgements, vs: Validators) {
    && SortedUnique(d) && AllSigned(verify, d, vs)
    && NotOffending(d.faults, j.offenders) && NotJudged(d.verdicts, j)
    && FaultsOppose(d)
    && (forall i :: 0 <= i < |d.verdicts| ==> VerdictStands(d.verdicts[i], d))
    && CulpritsCondemned(d) && CulpritsAscend(d.culprits)
    && FreshCulprits(d.culprits, WithVerdicts(d.verdicts, d.faults, j).offenders)
  }

  function AfterDispute(verify: Verifier, d: Extrinsic, j: Judgements, vs: Validators): Judgements {
    if Accepts(verify, d, j, vs) then NewJudgements(d, j) else j
  }

  method CalculateNewJudgements(verify: Verifier, d: Extrinsic, j: Judgements, vs: Validators)
    returns (e: Option<Error>, r: Judgements)
    ensures e.None? <==> Accepts(verify, d, j, vs)
    ensures r == AfterDispute(verify, d, j, vs)
  {
    hide SortedUnique, WithVerdicts, VerdictStands, FaultsOppose, FreshCulprits, AddKeys, CulpritsCondemned;
    e := VerifySortedUnique(d);
    if e.Some? { return e, j; }
    e := VerifyAllSignatures(verify, d, vs);
    if e.Some? { return e, j; }
    for n := 0 to |d.faults|
      invariant forall i :: 0 <= i < n ==> d.faults[i].key !in j.offenders
    {
      if d.faults[n].key in j.offenders { return Some(AlreadyOffending), j; }
    }
    for n := 0 to |d.verdicts|
      invariant NotJudged(d.verdicts[..n], j)
    {
      var h := d.verdicts[n].report;
      if h in j.good || h in j.bad || h in j.wonky { return Some(AlreadyJudged), j; }
    }
    assert d.verdicts[..|d.verdicts|] == d.verdicts;
    e := VerifyFaults(verify, d, j.offenders);
    if e.Some? { return e, j; }
    e, r := ProcessVerdicts(d, j);
    if e.Some? { return e, j; }
    if CulpritsCondemned(d) { CondemnedInBad(d, j); }
    e, r := ProcessCulprits(verify, d, r);
    if e.Some? { return e, j; }
  }

  /** Condemned reports are recorded as bad, so that part of the check of culprits never fails. */
  lemma CondemnedInBad(d: Extrinsic, j: Judgements)
    requires CulpritsCondemned(d)
    ensures ReportsIn(d.culprits, WithVerdicts(d.verdicts, d.faults, j).bad)
  {
    hide CondemnedReport, Reports, AddKeys;
    forall i | 0 <= i < |d.culprits| ensures d.culprits[i].report in WithVerdicts(d.verdicts, d.faults, j).bad {
      CondemnedAreBad(d.verdicts, d.culprits[i].report);
    }
  }

  // ----------------------------------------------------------------- what every extrinsic keeps

  predicate Unique(s: seq<nat>) {
    forall i, j :: 0 <= i < j < |s| ==> s[i] != s[j]
  }

  predicate Apart(a: seq<nat>, b: seq<nat>) {
    forall x :: x in a ==> x !in b
  }

  /** Lists without duplicates, and no report judged two ways. */
  predicate Consistent(j: Judgements) {
    && Unique(j.good) && Unique(j.bad) && Unique(j.wonky) && Unique(j.offenders)
    && Apart(j.good, j.bad) && Apart(j.good, j.wonky) && Apart(j.bad, j.wonky)
  }

  ghost predicate Grown(a: Judgements, b: Judgements) {
    && a.good <= b.good && a.bad <= b.bad && a.wonky <= b.wonky && a.offenders <= b.offenders
  }

  /** Membership in `Reports`. */
  lemma {:induction false} ReportsAre(verdicts: seq<Verdict>, count: nat, x: nat)
    ensures x in Reports(verdicts, count) <==>
            exists i :: 0 <= i < |verdicts| && verdicts[i].report == x && Positive(verdicts[i].judgements) == count
  {
    if verdicts != [] {
      var n := |verdicts| - 1;
      ReportsAre(verdicts[..n], count, x);
      hide Positive;
      assert forall i :: 0 <= i < n ==> verdicts[..n][i] == verdicts[i];
    }
  }

  lemma {:induction false} ReportsUnique(verdicts: seq<Verdict>, count: nat)
    requires VerdictsAscend(verdicts)
    ensures Unique(Reports(verdicts, count))
  {
    if verdicts != [] {
      var n := |verdicts| - 1;
      hide Positive;
      assert VerdictsAscend(verdicts[..n]);
      ReportsUnique(verdicts[..n], count);
      ReportsAre(verdicts[..n], count, verdicts[n].report);
      assert verdicts[n].report !in Reports(verdicts[..n], count);
    }
  }

  lemma ReportsApart(verdicts: seq<Verdict>, a: nat, b: nat)
    requires VerdictsAscend(verdicts) && a != b
    ensures Apart(Reports(verdicts, a), Reports(verdicts, b))
  {
    hide Reports, Positive;
    forall x | x in Reports(verdicts, a) ensures x !in Reports(verdicts, b) {
      ReportsAre(verdicts, a, x); ReportsAre(verdicts, b, x);
    }
  }

  lemma JoinUnique(a: seq<nat>, b: seq<nat>)
    requires Unique(a) && Unique(b) && Apart(b, a)
    ensures Unique(a + b)
  {
    var c := a + b;
    forall i, j | 0 <= i < j < |c| ensures c[i] != c[j] {
      if i < |a| <= j { assert b[j - |a|] in b && a[i] in a; }
    }
  }

  lemma JoinApart(a: seq<nat>, a': seq<nat>, b: seq<nat>, b': seq<nat>)
    requires Apart(a, b) && Apart(a', b') && Apart(a', b) && Apart(b', a)
    ensures Apart(a + a', b + b')
  {
  }

  lemma {:induction false} AddKeysFacts(offenders: seq<nat>, keys: seq<nat>)
    ensures offenders <= AddKeys(offenders, keys)
    ensures Unique(offenders) ==> Unique(AddKeys(offenders, keys))
    ensures forall x :: x in AddKeys(offenders, keys) <==> x in offenders || x in keys
  {
    if keys != [] {
      var n := |keys| - 1;
      AddKeysFacts(offenders, keys[..n]);
      assert keys == keys[..n] + [keys[n]];
    }
  }

  /** New reports were not judged before. */
  lemma NewReportsAreNew(verdicts: seq<Verdict>, count: nat, j: Judgements)
    requires NotJudged(verdicts, j)
    ensures Apart(Reports(verdicts, count), j.good) && Apart(Reports(verdicts, count), j.bad)
    ensures Apart(Reports(verdicts, count), j.wonky)
  {
    hide Reports, Positive;
    forall x | x in Reports(verdicts, count) ensures x !in j.good && x !in j.bad && x !in j.wonky {
      ReportsAre(verdicts, count, x);
    }
  }

  lemma DisputeKeepsConsistent(verify: Verifier, d: Extrinsic, j: Judgements, vs: Validators)
    requires Consistent(j)
    ensures Consistent(AfterDispute(verify, d, j, vs)) && Grown(j, AfterDispute(verify, d, j, vs))
  {
    if Accepts(verify, d, j, vs) {
      hide AllSigned, VerdictStands, FaultsOppose, CulpritsCondemned, FreshCulprits, NotJudged;
      hide Reports, AddKeys, GoodFaultKeys, CulpritKeys;
      var g, b, w := Reports(d.verdicts, SUPER_MAJORITY), Reports(d.verdicts, 0), Reports(d.verdicts, ONE_THIRD);
      ReportsUnique(d.verdicts, SUPER_MAJORITY); ReportsUnique(d.verdicts, 0); ReportsUnique(d.verdicts, ONE_THIRD);
      ReportsApart(d.verdicts, SUPER_MAJORITY, 0); ReportsApart(d.verdicts, SUPER_MAJORITY, ONE_THIRD);
      ReportsApart(d.verdicts, 0, ONE_THIRD);
      NewReportsAreNew(d.verdicts, SUPER_MAJORITY, j); NewReportsAreNew(d.verdicts, 0, j);
      NewReportsAreNew(d.verdicts, ONE_THIRD, j);
      hide Apart, Unique;
      JoinUnique(j.good, g); JoinUnique(j.bad, b); JoinUnique(j.wonky, w);
      JoinApart(j.good, g, j.bad, b); JoinApart(j.good, g, j.wonky, w); JoinApart(j.bad, b, j.wonky, w);
      var keys := AddKeys(j.offenders, GoodFaultKeys(d.verdicts, d.faults));
      AddKeysFacts(j.offenders, GoodFaultKeys(d.verdicts, d.faults));
      AddKeysFacts(keys, CulpritKeys(d.culprits));
    }
  }

  // ------------------------------------------------------------------------- who the offenders are

  ghost predicate IsCulprit(d: Extrinsic, key: nat) {
    exists i :: 0 <= i < |d.culprits| && d.culprits[i].key == key
  }

  /** The key called a report invalid that the verdicts of this extrinsic find good. */
  ghost predicate FaultedGoodReport(d: Extrinsic, key: nat) {
    exists i :: 0 <= i < |d.faults| && d.faults[i].key == key && !d.faults[i].valid
      && d.faults[i].report in Reports(d.verdicts, SUPER_MAJORITY)
  }

  lemma {:induction false} FaultKeysAre(faults: seq<Fault>, report: nat, key: nat)
    ensures key in FaultKeys(faults, report) <==>
            exists i :: 0 <= i < |faults| && faults[i].key == key && !faults[i].valid && faults[i].report == report
  {
    if faults != [] {
      var n := |faults| - 1;
      FaultKeysAre(faults[..n], report, key);
      assert forall i :: 0 <= i < n ==> faults[..n][i] == faults[i];
    }
  }

  lemma {:induction false} GoodFaultKeysAre(verdicts: seq<Verdict>, faults: seq<Fault>, key: nat)
    ensures key in GoodFaultKeys(verdicts, faults) <==>
            exists i :: 0 <= i < |faults| && faults[i].key == key && !faults[i].valid
              && faults[i].report in Reports(verdicts, SUPER_MAJORITY)
  {
    hide FaultKeys;
    if verdicts != [] {
      var n := |verdicts| - 1;
      GoodFaultKeysAre(verdicts[..n], faults, key);
      FaultKeysAre(faults, verdicts[n].report, key);
      hide Positive;
    }
  }

  lemma {:induction false} CulpritKeysAre(culprits: seq<Culprit>, key: nat)
    ensures key in CulpritKeys(culprits) <==> exists i :: 0 <= i < |culprits| && culprits[i].key == key
  {
    if culprits != [] {
      var n := |culprits| - 1;
      CulpritKeysAre(culprits[..n], key);
      assert forall i :: 0 <= i < n ==> culprits[..n][i] == culprits[i];
    }
  }

  /** The offenders after an accepted extrinsic are exactly the old ones, its culprits, and those
      whose faults called a newly good report invalid. */
  lemma OffendersExactly(verify: Verifier, d: Extrinsic, j: Judgements, vs: Validators, key: nat)
    requires Accepts(verify, d, j, vs)
    ensures key in AfterDispute(verify, d, j, vs).offenders <==>
            key in j.offenders || IsCulprit(d, key) || FaultedGoodReport(d, key)
  {
    hide Reports, AddKeys, GoodFaultKeys, CulpritKeys, AllSigned, VerdictStands, SortedUnique;
    AddKeysFacts(j.offenders, GoodFaultKeys(d.verdicts, d.faults));
    AddKeysFacts(AddKeys(j.offenders, GoodFaultKeys(d.verdicts, d.faults)), CulpritKeys(d.culprits));
    GoodFaultKeysAre(d.verdicts, d.faults, key);
    CulpritKeysAre(d.culprits, key);
  }

  lemma {:induction false} UpheldIsGood(verdicts: seq<Verdict>, report: nat)
    requires UpheldReport(verdicts, report)
    requires forall i :: 0 <= i < |verdicts| ==> |verdicts[i].judgements| == SUPER_MAJORITY
    ensures report in Reports(verdicts, SUPER_MAJORITY)
  {
    hide Positive;
    var n := |verdicts| - 1;
    var i :| 0 <= i < |verdicts| && FirstOn(verdicts, report, i)
             && Positive(verdicts[i].judgements) == |verdicts[i].judgements|;
    if i < n {
      assert FirstOn(verdicts[..n], report, i);
      UpheldIsGood(verdicts[..n], report);
    }
  }

  /** A fault of an accepted extrinsic makes an offender exactly when it calls its report invalid, or
      its key is that of a culprit. */
  lemma FaultOffendsExactlyWhen(verify: Verifier, d: Extrinsic, j: Judgements, vs: Validators, i: nat)
    requires Accepts(verify, d, j, vs) && FullVerdicts(d) && i < |d.faults|
    ensures d.faults[i].key in AfterDispute(verify, d, j, vs).offenders <==>
            !d.faults[i].valid || IsCulprit(d, d.faults[i].key)
  {
    var f := d.faults[i];
    OffendersExactly(verify, d, j, vs, f.key);
    if !f.valid { UpheldIsGood(d.verdicts, f.report); }
    assert f.key !in j.offenders && FaultsAscend(d.faults);
    hide Accepts, AfterDispute, Reports, IsCulprit, UpheldReport;
  }

  /** So every fault makes an offender exactly when each is of that kind. */
  lemma FaultsOffendExactlyWhen(verify: Verifier, d: Extrinsic, j: Judgements, vs: Validators)
    requires Accepts(verify, d, j, vs) && FullVerdicts(d)
    ensures (forall i :: 0 <= i < |d.faults| ==> d.faults[i].key in AfterDispute(verify, d, j, vs).offenders) <==>
            forall i :: 0 <= i < |d.faults| ==> !d.faults[i].valid || IsCulprit(d, d.faults[i].key)
  {
    hide Accepts, AfterDispute, IsCulprit;
    forall i | 0 <= i < |d.faults|
      ensures d.faults[i].key in AfterDispute(verify, d, j, vs).offenders <==>
              !d.faults[i].valid || IsCulprit(d, d.faults[i].key) {
      FaultOffendsExactlyWhen(verify, d, j, vs, i);
    }
  }

  /** A lone fault that calls its report valid is accepted, and its key is no offender. */
  lemma UnpunishedFaultExample(verify: Verifier, d: Extrinsic, j: Judgements, vs: Validators)
    requires verify(5, ValidVote, 7, []) && d == Extrinsic([], [], [Fault(7, true, 5, [])])
    requires 5 !in j.offenders
    ensures Accepts(verify, d, j, vs) && d.faults[0].key !in AfterDispute(verify, d, j, vs).offenders
  {
    assert !UpheldReport(d.verdicts, 7);
    assert Accepts(verify, d, j, vs);
    FaultOffendsExactlyWhen(verify, d, j, vs, 0);
  }

  /** Each verdict of an accepted extrinsic puts its report on exactly the list its votes say. */
  lemma VerdictsAreRecorded(verify: Verifier, d: Extrinsic, j: Judgements, vs: Validators, k: nat)
    requires Accepts(verify, d, j, vs) && FullVerdicts(d) && k < |d.verdicts|
    ensures var v, r := d.verdicts[k], AfterDispute(verify, d, j, vs);
            && (v.report in r.good <==> forall i :: 0 <= i < |v.judgements| ==> v.judgements[i].valid)
            && (v.report in r.bad <==> forall i :: 0 <= i < |v.judgements| ==> !v.judgements[i].valid)
            && (v.report in r.wonky <==> Positive(v.judgements) == ONE_THIRD)
            && (v.report in r.good || v.report in r.bad || v.report in r.wonky)
            && (v.report in r.bad ==> |d.culprits| >= 2)
            && (v.report in r.good ==>
                  exists i :: 0 <= i < |d.faults| && d.faults[i].report == v.report && !d.faults[i].valid)
  {
    hide Positive, Reports, AddKeys, GoodFaultKeys, CulpritKeys, AllSigned, FaultKeys;
    var v, r := d.verdicts[k], AfterDispute(verify, d, j, vs);
    assert VerdictStands(v, d) && |v.judgements| == SUPER_MAJORITY;
    assert v.report !in j.good && v.report !in j.bad && v.report !in j.wonky;
    if FaultKeys(d.faults, v.report) != [] {
      FaultKeysAre(d.faults, v.report, FaultKeys(d.faults, v.report)[0]);
    }
    PositiveMeans(v.judgements);
    RecordedOn(d.verdicts, k, SUPER_MAJORITY); RecordedOn(d.verdicts, k, 0); RecordedOn(d.verdicts, k, ONE_THIRD);
    assert v.report in r.good <==> Positive(v.judgements) == SUPER_MAJORITY;
    assert v.report in r.bad <==> Positive(v.judgements) == 0;
    assert v.report in r.wonky <==> Positive(v.judgements) == ONE_THIRD;
  }

  lemma RecordedOn(verdicts: seq<Verdict>, k: nat, count: nat)
    requires VerdictsAscend(verdicts) && k < |verdicts|
    ensures verdicts[k].report in Reports(verdicts, count) <==> Positive(verdicts[k].judgements) == count
  {
    hide Positive, Reports;
    ReportsAre(verdicts, count, verdicts[k].report);
    forall i | 0 <= i < |verdicts| && verdicts[i].report == verdicts[k].report ensures i == k {
      if i < k { } else if k < i { }
    }
  }

  // ------------------------------------------------------------------------------- over all runs

  datatype Block = Block(extrinsic: Extrinsic, validators: Validators)

  ghost function AfterAll(verify: Verifier, j: Judgements, blocks: seq<Block>): Judgements {
    if blocks == [] then j
    else
      var b := blocks[|blocks| - 1];
      AfterDispute(verify, b.extrinsic, AfterAll(verify, j, blocks[..|blocks| - 1]), b.validators)
  }

  /** A run is its extrinsics one after the other; one that is not accepted changes nothing. */
  lemma AfterAllIs(verify: Verifier, j: Judgements, blocks: seq<Block>, b: Block)
    ensures AfterAll(verify, j, []) == j
    ensures var before, after := AfterAll(verify, j, blocks), AfterAll(verify, j, blocks + [b]);
            && (!Accepts(verify, b.extrinsic, before, b.validators) ==> after == before)
            && (Accepts(verify, b.extrinsic, before, b.validators) ==> after == NewJudgements(b.extrinsic, before))
  {
    assert (blocks + [b])[..|blocks|] == blocks;
    hide Accepts, NewJudgements;
  }

  /** Over every run of dispute extrinsics, accepted or not, the judgements stay consistent and
      only grow: a report judged good never turns bad or wonky, and so on. */
  lemma {:induction false} RunsStayConsistent(verify: Verifier, j: Judgements, blocks: seq<Block>)
    requires Consistent(j)
    ensures Consistent(AfterAll(verify, j, blocks)) && Grown(j, AfterAll(verify, j, blocks))
  {
    hide AfterDispute, Consistent;
    if blocks != [] {
      var n := |blocks| - 1;
      RunsStayConsistent(verify, j, blocks[..n]);
      DisputeKeepsConsistent(verify, blocks[n].extrinsic, AfterAll(verify, j, blocks[..n]), blocks[n].validators);
    }
  }
}
