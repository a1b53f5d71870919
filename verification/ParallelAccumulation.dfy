/** Parallel accumulation. One goroutine per service, and three more for the privileged state, each
    accumulate on the same initial state and then enter a mutex to add their part. A run is an order
    of entering the mutex. Accumulating one service (`Delta`) is a pure function of the service. */
module ParallelAccumulation {
  import opened Bytes
  import opened Hashing
  import opened Sorting
  import Accounts

  type Account = Accounts.Account

  datatype Transfer = Transfer(sender: nat, receiver: nat, amount: nat, memo: seq<byte>, gas: nat)

  datatype Privileges = Privileges(manager: nat, assign: nat, designate: nat, gas: map<nat, nat>)

  datatype Context = Context(services: map<nat, Account>, validators: seq<int>, queues: seq<int>,
      privileges: Privileges)

  datatype Outcome = Outcome(context: Context, transfers: seq<Transfer>, hash: Option<Hash>, gas: nat)

  type Delta = nat -> Outcome

  datatype Pair = Pair(service: nat, hash: Hash)

  function Service(p: Pair): nat {
    p.service
  }

  datatype Task = Accumulate(service: nat) | TakePrivileges | TakeValidators | TakeQueues

  /** What the goroutines share. */
  datatype Board = Board(
    gas: nat, transfers: seq<Transfer>, pairs: seq<Pair>, produced: map<nat, Account>, removed: set<nat>,
    privileges: Option<Privileges>, validators: Option<seq<int>>, queues: Option<seq<int>>)

  const EMPTY := Board(0, [], [], map[], {}, None, None, None)

  /** What service `s` adds: its own account and every account that was not there before. */
  function Produced(delta: Delta, initial: Context, s: nat): map<nat, Account> {
    map id | id in delta(s).context.services && (id == s || id !in initial.services) :: delta(s).context.services[id]
  }

  /** What service `s` takes away. */
  function Removed(delta: Delta, initial: Context, s: nat): set<nat> {
    initial.services.Keys - delta(s).context.services.Keys
  }

  function PairsOf(delta: Delta, s: nat): seq<Pair> {
    if delta(s).hash.Some? then [Pair(s, delta(s).hash.value)] else []
  }

  function Entered(delta: Delta, initial: Context, b: Board, t: Task): Board {
    match t
    case Accumulate(s) =>
      b.(gas := (b.gas + delta(s).gas) % TWO_64,
         transfers := b.transfers + delta(s).transfers,
         pairs := b.pairs + PairsOf(delta, s),
         produced := b.produced + Produced(delta, initial, s),
         removed := b.removed + Removed(delta, initial, s))
    case TakePrivileges => b.(privileges := Some(delta(initial.privileges.manager).context.privileges))
    case TakeValidators => b.(validators := Some(delta(initial.privileges.assign).context.validators))
    case TakeQueues => b.(queues := Some(delta(initial.privileges.designate).context.queues))
  }

  /** Service `s` writes the account `id`: its own, or one that was not there before. */
  predicate Writes(delta: Delta, initial: Context, s: nat, id: nat) {
    id in delta(s).context.services && (id == s || id !in initial.services)
  }

  /** From `b` to `c` the shared state only grows. A service changes no account but those it writes and
      none of the privileged state; the other goroutines change nothing but that. */
  ghost predicate OnlyAdds(delta: Delta, initial: Context, b: Board, c: Board, t: Task) {
    && b.transfers <= c.transfers && b.pairs <= c.pairs && b.removed <= c.removed
    && (t.Accumulate? ==>
          && (forall id :: Writes(delta, initial, t.service, id) ==>
                id in c.produced && c.produced[id] == delta(t.service).context.services[id])
          && (forall id :: !Writes(delta, initial, t.service, id) ==>
                && (id in c.produced <==> id in b.produced)
                && (id in b.produced ==> c.produced[id] == b.produced[id]))
          && b.privileges == c.privileges && b.validators == c.validators && b.queues == c.queues)
    && (!t.Accumulate? ==>
          && b.gas == c.gas && b.transfers == c.transfers && b.pairs == c.pairs
          && b.produced == c.produced && b.removed == c.removed)
  }

  lemma EnteredOnlyAdds(delta: Delta, initial: Context, b: Board, t: Task)
    ensures OnlyAdds(delta, initial, b, Entered(delta, initial, b, t), t)
  {
    hide Removed, PairsOf;
    var c := Entered(delta, initial, b, t);
    if t.Accumulate? {
      assert forall id :: Writes(delta, initial, t.service, id) <==> id in Produced(delta, initial, t.service);
    }
  }

  function AfterTasks(delta: Delta, initial: Context, order: seq<Task>): Board {
    if order == [] then EMPTY
    else Entered(delta, initial, AfterTasks(delta, initial, order[..|order| - 1]), order[|order| - 1])
  }

  class Shared {
    var gas: nat
    var transfers: seq<Transfer>
    var pairs: seq<Pair>
    var produced: map<nat, Account>
    var removed: set<nat>
    var privileges: Option<Privileges>
    var validators: Option<seq<int>>
    var queues: Option<seq<int>>

    function Value(): Board
      reads this
    {
      Board(gas, transfers, pairs, produced, removed, privileges, validators, queues)
    }

    constructor ()
      ensures Value() == EMPTY
    {
      gas, transfers, pairs, produced, removed := 0, [], [], map[], {};
      privileges, validators, queues := None, None, None;
    }

    /** What one goroutine does while it holds the mutex. */
    method Enter(delta: Delta, initial: Context, t: Task)
      modifies this
      ensures Value() == Entered(delta, initial, old(Value()), t)
      ensures OnlyAdds(delta, initial, old(Value()), Value(), t)
    {
      EnteredOnlyAdds(delta, initial, Value(), t);
      hide Produced, Removed, OnlyAdds;
      match t
      case Accumulate(s) =>
        var o := delta(s);
        gas := (gas + o.gas) % TWO_64;
        if |o.transfers| > 0 { transfers := transfers + o.transfers; }
        if o.hash.Some? { pairs := pairs + [Pair(s, o.hash.value)]; }
        produced := produced + Produced(delta, initial, s);
        removed := removed + Removed(delta, initial, s);
      case TakePrivileges => privileges := Some(delta(initial.privileges.manager).context.privileges);
      case TakeValidators => validators := Some(delta(initial.privileges.assign).context.validators);
      case TakeQueues => queues := Some(delta(initial.privileges.designate).context.queues);
    }
  }

  // ------------------------------------------------------------------------- the tasks of a run

  ghost function Involved(reports: seq<seq<nat>>, privilegedGas: map<nat, nat>): set<nat> {
    (set i, j | 0 <= i < |reports| && 0 <= j < |reports[i]| :: reports[i][j]) + privilegedGas.Keys
  }

  method ServiceIndices(reports: seq<seq<nat>>, privilegedGas: map<nat, nat>) returns (r: set<nat>)
    ensures r == Involved(reports, privilegedGas)
    ensures forall s :: s in privilegedGas ==> s in r
    ensures forall i :: 0 <= i < |reports| ==> forall s :: s in reports[i] ==> s in r
    ensures forall s :: s in r ==> s in privilegedGas || exists i :: 0 <= i < |reports| && s in reports[i]
  {
    r := {};
    for n := 0 to |reports|
      invariant r == set i, j | 0 <= i < n && 0 <= j < |reports[i]| :: reports[i][j]
    {
      ghost var before := r;
      for m := 0 to |reports[n]|
        invariant r == before + set j | 0 <= j < m :: reports[n][j]
      {
        r := r + {reports[n][m]};
      }
    }
    r := r + privilegedGas.Keys;
  }

  function Tasks(services: set<nat>): set<Task> {
    (set s | s in services :: Accumulate(s)) + {TakePrivileges, TakeValidators, TakeQueues}
  }

  /** Every task once. */
  predicate Schedule(order: seq<Task>, tasks: set<Task>) {
    Members(order) == tasks && forall i, j :: 0 <= i < j < |order| ==> order[i] != order[j]
  }

  /** The merged state, given what the goroutines left. */
  function Merged(initial: Context, b: Board): (r: map<nat, Account>)
    ensures r.Keys == (initial.services.Keys + b.produced.Keys) - b.removed
  {
    (initial.services + b.produced) - b.removed
  }

  datatype Total = Total(gas: nat, services: map<nat, Account>, privileges: Privileges, validators: seq<int>,
                         queues: seq<int>, transfers: seq<Transfer>, pairs: seq<Pair>)

  /** The result of `ParallelDelta` when the mutex is taken in this order. */
  ghost predicate ResultIs(delta: Delta, initial: Context, order: seq<Task>, r: Total) {
    var b := AfterTasks(delta, initial, order);
    && r.gas == b.gas && r.services == Merged(initial, b) && r.transfers == b.transfers
    && r.pairs == Sorted(Service, b.pairs)
    && b.privileges == Some(r.privileges) && b.validators == Some(r.validators) && b.queues == Some(r.queues)
  }

  method ParallelDelta(delta: Delta, initial: Context, reports: seq<seq<nat>>, privilegedGas: map<nat, nat>,
                       order: seq<Task>)
    returns (r: Total)
    requires Schedule(order, Tasks(Involved(reports, privilegedGas)))
    ensures ResultIs(delta, initial, order, r)
    ensures ResultMeans(delta, initial, Involved(reports, privilegedGas), order, r)
  {
    hide Entered, Sorted, ResultMeans;
    var services := ServiceIndices(reports, privilegedGas);
    assert Members(order) == Tasks(services);
    var shared := new Shared();
    for n := 0 to |order|
      invariant shared.Value() == AfterTasks(delta, initial, order[..n])
    {
      assert order[..n + 1][..n] == order[..n];
      shared.Enter(delta, initial, order[n]);
    }
    assert order[..|order|] == order;
    TakenOnce(delta, initial, order);
    assert TakePrivileges in Members(order) && TakeValidators in Members(order) && TakeQueues in Members(order);
    var merged := (initial.services + shared.produced) - shared.removed;
    r := Total(shared.gas, merged, shared.privileges.value, shared.validators.value, shared.queues.value,
               shared.transfers, Sorted(Service, shared.pairs));
    ResultIsWhatItMeans(delta, initial, services, order, r);
  }

  /** The privileged parts have one writer each. */
  lemma {:induction false} TakenOnce(delta: Delta, initial: Context, order: seq<Task>)
    ensures var b := AfterTasks(delta, initial, order);
            && b.privileges == (if TakePrivileges in order
                then Some(delta(initial.privileges.manager).context.privileges)
                else None)
            && b.validators == (if TakeValidators in order
                then Some(delta(initial.privileges.assign).context.validators)
                else None)
            && b.queues == (if TakeQueues in order
                then Some(delta(initial.privileges.designate).context.queues)
                else None)
  {
    hide Produced, Removed, PairsOf;
    if order != [] {
      var n := |order| - 1;
      TakenOnce(delta, initial, order[..n]);
      assert order == order[..n] + [order[n]];
      var b := AfterTasks(delta, initial, order[..n]);
      assert AfterTasks(delta, initial, order) == Entered(delta, initial, b, order[n]);
    }
  }

  // ---------------------------------------------------------------------- sums over a schedule

  function Sum(f: Task -> nat, order: seq<Task>): nat {
    if order == [] then 0 else Sum(f, order[..|order| - 1]) + f(order[|order| - 1])
  }

  lemma {:induction false} SumWithout(f: Task -> nat, order: seq<Task>, k: nat)
    requires k < |order|
    ensures Sum(f, order) == Sum(f, order[..k] + order[k + 1..]) + f(order[k])
  {
    var n := |order| - 1;
    var rest := order[..k] + order[k + 1..];
    if k == n {
      assert rest == order[..n];
    } else {
      SumWithout(f, order[..n], k);
      assert order[..n][..k] + order[..n][k + 1..] == rest[..|rest| - 1];
    }
  }

  lemma WithoutOne(s: seq<Task>, k: nat)
    requires k < |s|
    ensures multiset(s[..k] + s[k + 1..]) == multiset(s) - multiset{s[k]}
  {
    assert s == s[..k] + [s[k]] + s[k + 1..];
  }

  /** A sum does not depend on the order. */
  lemma {:induction false} SumPermuted(f: Task -> nat, a: seq<Task>, b: seq<Task>)
    requires multiset(a) == multiset(b)
    ensures Sum(f, a) == Sum(f, b)
  {
    if a == [] {
      assert |b| == |multiset(b)|;
    } else {
      var n := |a| - 1;
      assert a[n] in multiset(a);
      assert a[n] in b;
      var k :| 0 <= k < |b| && b[k] == a[n];
      SumWithout(f, b, k);
      SumWithout(f, a, n);
      WithoutOne(b, k);
      WithoutOne(a, n);
      hide Sum;
      SumPermuted(f, a[..n] + a[n + 1..], b[..k] + b[k + 1..]);
    }
  }

  /** Two schedules of the same tasks are permutations of each other. */
  lemma SchedulesPermute(a: seq<Task>, b: seq<Task>, tasks: set<Task>)
    requires Schedule(a, tasks) && Schedule(b, tasks)
    ensures multiset(a) == multiset(b)
  {
    forall t ensures multiset(a)[t] == multiset(b)[t] {
      OnceEach(a, t); OnceEach(b, t);
      assert t in a <==> t in Members(a);
      assert t in b <==> t in Members(b);
    }
  }

  lemma {:induction false} OnceEach(s: seq<Task>, t: Task)
    requires forall i, j :: 0 <= i < j < |s| ==> s[i] != s[j]
    ensures multiset(s)[t] == if t in s then 1 else 0
  {
    if s != [] {
      OnceEach(s[1..], t);
      assert s == [s[0]] + s[1..];
      if t == s[0] { assert t !in s[1..]; }
    }
  }

  function GasOf(delta: Delta, t: Task): nat {
    if t.Accumulate? then delta(t.service).gas else 0
  }

  function TransfersOf(delta: Delta, t: Task): seq<Transfer> {
    if t.Accumulate? then delta(t.service).transfers else []
  }

  lemma {:induction false} GasIsSum(delta: Delta, initial: Context, order: seq<Task>, f: Task -> nat)
    requires forall t :: f(t) == GasOf(delta, t)
    ensures AfterTasks(delta, initial, order).gas == Sum(f, order) % TWO_64
  {
    hide Produced, Removed, PairsOf;
    if order != [] {
      var n := |order| - 1;
      GasIsSum(delta, initial, order[..n], f);
      var b := AfterTasks(delta, initial, order[..n]);
      assert AfterTasks(delta, initial, order) == Entered(delta, initial, b, order[n]);
      assert f(order[n]) == GasOf(delta, order[n]);
      AddWrapped(Sum(f, order[..n]), GasOf(delta, order[n]));
    }
  }

  lemma AddWrapped(a: nat, b: nat)
    ensures (a % TWO_64 + b) % TWO_64 == (a + b) % TWO_64
    ensures b == 0 ==> (a + b) % TWO_64 == a % TWO_64
  {
  }

  lemma EnteredTransfers(delta: Delta, initial: Context, b: Board, t: Task)
    ensures Entered(delta, initial, b, t).transfers == b.transfers + TransfersOf(delta, t)
  {
    hide Produced, Removed, PairsOf;
    if !t.Accumulate? { assert b.transfers + [] == b.transfers; }
  }

  lemma TransfersStep(delta: Delta, initial: Context, order: seq<Task>)
    requires order != []
    ensures AfterTasks(delta, initial, order).transfers ==
            AfterTasks(delta, initial, order[..|order| - 1]).transfers + TransfersOf(delta, order[|order| - 1])
  {
    hide Entered, TransfersOf;
    EnteredTransfers(delta, initial, AfterTasks(delta, initial, order[..|order| - 1]), order[|order| - 1]);
  }

  lemma {:induction false} TransfersAreSum(delta: Delta, initial: Context, order: seq<Task>, x: Transfer,
      f: Task -> nat)
    requires forall t :: f(t) == multiset(TransfersOf(delta, t))[x]
    ensures multiset(AfterTasks(delta, initial, order).transfers)[x] == Sum(f, order)
  {
    if order != [] {
      hide AfterTasks, TransfersOf;
      var n := |order| - 1;
      TransfersAreSum(delta, initial, order[..n], x, f);
      TransfersStep(delta, initial, order);
    }
  }

  // ------------------------------------------------------------------------------ the hash pairs

  lemma {:induction false} PairsAre(delta: Delta, initial: Context, order: seq<Task>, p: Pair)
    ensures p in AfterTasks(delta, initial, order).pairs <==>
            Accumulate(p.service) in order && delta(p.service).hash == Some(p.hash)
  {
    if order != [] {
      var n := |order| - 1;
      PairsAre(delta, initial, order[..n], p);
      var b := AfterTasks(delta, initial, order[..n]);
      assert AfterTasks(delta, initial, order) == Entered(delta, initial, b, order[n]);
      assert order == order[..n] + [order[n]];
    }
  }

  lemma {:induction false} PairsDistinct(delta: Delta, initial: Context, order: seq<Task>)
    requires forall i, j :: 0 <= i < j < |order| ==> order[i] != order[j]
    ensures DistinctKeys(Service, AfterTasks(delta, initial, order).pairs)
  {
    if order != [] {
      var n := |order| - 1;
      var b := AfterTasks(delta, initial, order[..n]);
      PairsDistinct(delta, initial, order[..n]);
      assert AfterTasks(delta, initial, order) == Entered(delta, initial, b, order[n]);
      if order[n].Accumulate? {
        forall i | 0 <= i < |b.pairs| ensures b.pairs[i].service != order[n].service {
          PairsAre(delta, initial, order[..n], b.pairs[i]);
          assert order[n] !in order[..n];
        }
      }
    }
  }

  /** Sorted by service, the hash pairs are one and the same list. */
  lemma SortedPairsAgree(delta: Delta, initial: Context, a: seq<Task>, b: seq<Task>, tasks: set<Task>)
    requires Schedule(a, tasks) && Schedule(b, tasks)
    ensures Sorted(Service, AfterTasks(delta, initial, a).pairs) == Sorted(Service, AfterTasks(delta, initial, b).pairs)
  {
    PairsDistinct(delta, initial, a); PairsDistinct(delta, initial, b);
    hide AfterTasks, Sorted;
    var p, q := AfterTasks(delta, initial, a).pairs, AfterTasks(delta, initial, b).pairs;
    forall x ensures x in p <==> x in q {
      PairsAre(delta, initial, a, x); PairsAre(delta, initial, b, x);
      var t := Accumulate(x.service);
      assert (t in a <==> t in Members(a)) && (t in b <==> t in Members(b));
    }
    assert Members(p) == Members(q);
    DistinctSize(Service, p); DistinctSize(Service, q);
    SortedSorts(Service, p); SortedSorts(Service, q);
    SortedAscends(Service, p); SortedAscends(Service, q);
    forall x ensures x in Sorted(Service, p) <==> x in Sorted(Service, q) {
      SameMembers(Sorted(Service, p), p, x); SameMembers(Sorted(Service, q), q, x);
    }
    SameAscending(Service, Sorted(Service, p), Sorted(Service, q));
  }

  // ---------------------------------------------------------------------------- the service map

  ghost predicate ProducedBySome(delta: Delta, initial: Context, tasks: set<Task>, id: nat) {
    exists s :: Accumulate(s) in tasks && id in Produced(delta, initial, s)
  }

  ghost predicate RemovedBySome(delta: Delta, initial: Context, tasks: set<Task>, id: nat) {
    exists s :: Accumulate(s) in tasks && id in Removed(delta, initial, s)
  }

  lemma {:induction false} ProducedAre(delta: Delta, initial: Context, order: seq<Task>, id: nat)
    ensures id in AfterTasks(delta, initial, order).produced <==> ProducedBySome(delta, initial, Members(order), id)
    ensures id in AfterTasks(delta, initial, order).removed <==> RemovedBySome(delta, initial, Members(order), id)
  {
    if order != [] {
      var n := |order| - 1;
      var before := order[..n];
      ProducedAre(delta, initial, before, id);
      var b := AfterTasks(delta, initial, before);
      var t := order[n];
      assert AfterTasks(delta, initial, order) == Entered(delta, initial, b, t);
      assert order == before + [t];
      assert Members(order) == Members(before) + {t};
      hide Produced, Removed, AfterTasks;
      if t.Accumulate? { assert Accumulate(t.service) in Members(order); }
      assert ProducedBySome(delta, initial, Members(order), id) <==>
             ProducedBySome(delta, initial, Members(before), id) || (t.Accumulate? && id in Produced(delta,
                 initial, t.service));
      assert RemovedBySome(delta, initial, Members(order), id) <==>
             RemovedBySome(delta, initial, Members(before), id) || (t.Accumulate? && id in Removed(delta, initial,
                 t.service));
    }
  }

  /** No account outside the initial state comes out of two services in two versions. Inside the
      initial state only the service itself writes its account. */
  ghost predicate NoClash(delta: Delta, initial: Context, services: set<nat>) {
    forall a, b, id :: a in services && b in services && a != b
      && id in Produced(delta, initial, a) && id in Produced(delta, initial, b)
      ==> Produced(delta, initial, a)[id] == Produced(delta, initial, b)[id]
  }

  /** With no clash, the produced account is the one any of its producers made. */
  lemma {:induction false} ProducedValue(delta: Delta, initial: Context, order: seq<Task>, services: set<nat>,
      s: nat, id: nat)
    requires NoClash(delta, initial, services) && Members(order) <= Tasks(services)
    requires Accumulate(s) in order && id in Produced(delta, initial, s)
    ensures id in AfterTasks(delta, initial, order).produced
    ensures AfterTasks(delta, initial, order).produced[id] == Produced(delta, initial, s)[id]
  {
    var n := |order| - 1;
    var before := order[..n];
    var t := order[n];
    var b := AfterTasks(delta, initial, before);
    assert AfterTasks(delta, initial, order) == Entered(delta, initial, b, t);
    assert order == before + [t];
    assert t in Members(order) && Accumulate(s) in Members(order);
    hide Produced, AfterTasks;
    if !(t.Accumulate? && id in Produced(delta, initial, t.service)) {
      assert Accumulate(s) in before;
      assert Members(before) <= Members(order);
      ProducedValue(delta, initial, before, services, s, id);
    }
  }

  lemma ServiceMapsAgree(delta: Delta, initial: Context, a: seq<Task>, b: seq<Task>, services: set<nat>)
    requires NoClash(delta, initial, services)
    requires Schedule(a, Tasks(services)) && Schedule(b, Tasks(services))
    ensures AfterTasks(delta, initial, a).produced == AfterTasks(delta, initial, b).produced
  {
    hide AfterTasks, Produced, NoClash;
    var p, q := AfterTasks(delta, initial, a).produced, AfterTasks(delta, initial, b).produced;
    forall id ensures (id in p <==> id in q) && (id in p && id in q ==> p[id] == q[id]) {
      ProducedAre(delta, initial, a, id); ProducedAre(delta, initial, b, id);
      if id in p {
        var s :| Accumulate(s) in Tasks(services) && id in Produced(delta, initial, s);
        assert Accumulate(s) in Members(a) && Accumulate(s) in Members(b);
        ProducedValue(delta, initial, a, services, s, id); ProducedValue(delta, initial, b, services, s, id);
      }
    }
  }

  // ------------------------------------------------------------------- what the result means

  /** The result in terms of the initial state and of what each service made of it. */
  ghost predicate ResultMeans(delta: Delta, initial: Context, services: set<nat>, order: seq<Task>, r: Total) {
    && PartsMean(delta, initial, services, r)
    && AmountsMean(delta, order, r)
    && (forall id :: AccountMeans(delta, initial, services, order, r, id))
  }

  /** Each privileged part comes from the service that holds the privilege, and there is one pair, in
      order of service, for each service that gave a hash. */
  ghost predicate PartsMean(delta: Delta, initial: Context, services: set<nat>, r: Total) {
    && r.privileges == delta(initial.privileges.manager).context.privileges
    && r.validators == delta(initial.privileges.assign).context.validators
    && r.queues == delta(initial.privileges.designate).context.queues
    && (forall i, j :: 0 <= i < j < |r.pairs| ==> r.pairs[i].service < r.pairs[j].service)
    && (forall p :: p in r.pairs <==> p.service in services && delta(p.service).hash == Some(p.hash))
  }

  /** The gas of all services on a word, and as many of each transfer as they made together. */
  ghost predicate AmountsMean(delta: Delta, order: seq<Task>, r: Total) {
    && r.gas == Sum(t => GasOf(delta, t), order) % TWO_64
    && forall x :: multiset(r.transfers)[x] == Sum(t => multiset(TransfersOf(delta, t))[x], order)
  }

  /** The task accumulates a service and leaves an account `id` there. */
  predicate Leaves(delta: Delta, t: Task, id: nat) {
    t.Accumulate? && id in delta(t.service).context.services
  }

  predicate IsProducer(delta: Delta, initial: Context, t: Task, id: nat) {
    t.Accumulate? && Writes(delta, initial, t.service, id)
  }

  /** An account is there afterwards if it was there or a service made it, and no service took it away.
      One that was there is as its own service left it, or as it was if that service did not run. A new
      one is as the last service that made it left it. */
  ghost predicate AccountMeans(delta: Delta, initial: Context, services: set<nat>, order: seq<Task>, r: Total,
                               id: nat)
  {
    && (id in r.services <==>
          && (id in initial.services || exists s :: s in services && id in delta(s).context.services)
          && (id in initial.services ==> forall s :: s in services ==> id in delta(s).context.services))
    && (id in r.services && id in initial.services ==>
          && (id in services ==> id in delta(id).context.services && r.services[id] == delta(id).context.services[id])
          && (id !in services ==> r.services[id] == initial.services[id]))
    && (id in r.services && id !in initial.services ==>
          forall k :: 0 <= k < |order| && Leaves(delta, order[k], id)
            && (forall j :: k < j < |order| ==> !Leaves(delta, order[j], id))
            ==> r.services[id] == delta(order[k].service).context.services[id])
  }

  /** The board holds the account of the last producer. */
  lemma {:induction false} LastProducer(delta: Delta, initial: Context, order: seq<Task>, k: nat, id: nat)
    requires k < |order| && IsProducer(delta, initial, order[k], id)
    requires forall j :: k < j < |order| ==> !IsProducer(delta, initial, order[j], id)
    ensures id in AfterTasks(delta, initial, order).produced
    ensures AfterTasks(delta, initial, order).produced[id] == delta(order[k].service).context.services[id]
  {
    var n := |order| - 1;
    var before := AfterTasks(delta, initial, order[..n]);
    assert AfterTasks(delta, initial, order) == Entered(delta, initial, before, order[n]);
    EnteredOnlyAdds(delta, initial, before, order[n]);
    hide AfterTasks, Entered, Writes;
    if k < n { LastProducer(delta, initial, order[..n], k, id); }
  }

  lemma {:induction false} NoProducer(delta: Delta, initial: Context, order: seq<Task>, id: nat)
    requires forall j :: 0 <= j < |order| ==> !IsProducer(delta, initial, order[j], id)
    ensures id !in AfterTasks(delta, initial, order).produced
  {
    if order != [] {
      var n := |order| - 1;
      var before := AfterTasks(delta, initial, order[..n]);
      assert AfterTasks(delta, initial, order) == Entered(delta, initial, before, order[n]);
      EnteredOnlyAdds(delta, initial, before, order[n]);
      hide AfterTasks, Entered, Writes;
      NoProducer(delta, initial, order[..n], id);
    }
  }

  /** An account that was there has one possible producer. */
  lemma OldAccount(delta: Delta, initial: Context, services: set<nat>, order: seq<Task>, r: Total, id: nat)
    requires Schedule(order, Tasks(services)) && ResultIs(delta, initial, order, r)
    requires id in r.services && id in initial.services
    ensures id in services ==> id in delta(id).context.services && r.services[id] == delta(id).context.services[id]
    ensures id !in services ==> r.services[id] == initial.services[id]
  {
    ProducedAre(delta, initial, order, id);
    assert Accumulate(id) in Members(order) <==> id in services;
    assert id in Removed(delta, initial, id) <==> id !in delta(id).context.services;
    hide AfterTasks, Sorted;
    if id in services {
      var k :| 0 <= k < |order| && order[k] == Accumulate(id);
      LastProducer(delta, initial, order, k, id);
    } else {
      NoProducer(delta, initial, order, id);
    }
  }

  lemma NewAccount(delta: Delta, initial: Context, order: seq<Task>, r: Total, id: nat, k: nat)
    requires ResultIs(delta, initial, order, r) && id in r.services && id !in initial.services
    requires k < |order| && Leaves(delta, order[k], id)
    requires forall j :: k < j < |order| ==> !Leaves(delta, order[j], id)
    ensures r.services[id] == delta(order[k].service).context.services[id]
  {
    LastProducer(delta, initial, order, k, id);
    hide AfterTasks, Sorted, IsProducer;
  }

  lemma AccountDomain(delta: Delta, initial: Context, services: set<nat>, order: seq<Task>, r: Total, id: nat)
    requires Schedule(order, Tasks(services)) && ResultIs(delta, initial, order, r)
    ensures id in r.services <==>
            && (id in initial.services || exists s :: s in services && id in delta(s).context.services)
            && (id in initial.services ==> forall s :: s in services ==> id in delta(s).context.services)
  {
    DomainIs(delta, initial, order, Tasks(services));
    hide AfterTasks, Sorted, Merged;
    forall s: nat ensures Accumulate(s) in Tasks(services) <==> s in services {
    }
    assert forall s: nat :: id in Produced(delta, initial, s) <==>
             id in delta(s).context.services && (id == s || id !in initial.services);
    assert forall s: nat :: id in Removed(delta, initial, s) <==>
             id in initial.services && id !in delta(s).context.services;
    hide Produced, Removed, Tasks, Schedule;
  }

  lemma AmountsAre(delta: Delta, initial: Context, order: seq<Task>, r: Total)
    requires ResultIs(delta, initial, order, r)
    ensures AmountsMean(delta, order, r)
  {
    hide AfterTasks, Sorted, Merged;
    GasIsSum(delta, initial, order, t => GasOf(delta, t));
    forall x ensures multiset(r.transfers)[x] == Sum(t => multiset(TransfersOf(delta, t))[x], order) {
      TransfersAreSum(delta, initial, order, x, t => multiset(TransfersOf(delta, t))[x]);
    }
  }

  lemma PairsMean(delta: Delta, initial: Context, services: set<nat>, order: seq<Task>, pairs: seq<Pair>)
    requires Schedule(order, Tasks(services)) && pairs == Sorted(Service, AfterTasks(delta, initial, order).pairs)
    ensures forall i, j :: 0 <= i < j < |pairs| ==> pairs[i].service < pairs[j].service
    ensures forall p :: p in pairs <==> p.service in services && delta(p.service).hash == Some(p.hash)
  {
    PairsDistinct(delta, initial, order);
    hide AfterTasks, Sorted;
    var unsorted := AfterTasks(delta, initial, order).pairs;
    SortedSorts(Service, unsorted);
    SortedAscends(Service, unsorted);
    assert forall i, j :: 0 <= i < j < |pairs| ==> Service(pairs[i]) < Service(pairs[j]);
    forall p ensures p in pairs <==> p.service in services && delta(p.service).hash == Some(p.hash) {
      PairsAre(delta, initial, order, p);
      SameMembers(pairs, unsorted, p);
      assert Accumulate(p.service) in Members(order) <==> p.service in services;
    }
  }

  lemma PartsAre(delta: Delta, initial: Context, services: set<nat>, order: seq<Task>, r: Total)
    requires Schedule(order, Tasks(services)) && ResultIs(delta, initial, order, r)
    ensures PartsMean(delta, initial, services, r)
  {
    TakenOnce(delta, initial, order);
    assert TakePrivileges in Members(order) && TakeValidators in Members(order) && TakeQueues in Members(order);
    hide AfterTasks, Sorted, Merged, Tasks;
    PairsMean(delta, initial, services, order, r.pairs);
    hide Schedule;
  }

  lemma ResultIsWhatItMeans(delta: Delta, initial: Context, services: set<nat>, order: seq<Task>, r: Total)
    requires Schedule(order, Tasks(services)) && ResultIs(delta, initial, order, r)
    ensures ResultMeans(delta, initial, services, order, r)
  {
    hide ResultIs, PartsMean, AmountsMean, Tasks, Schedule;
    PartsAre(delta, initial, services, order, r);
    AmountsAre(delta, initial, order, r);
    forall id ensures AccountMeans(delta, initial, services, order, r, id) {
      AccountDomain(delta, initial, services, order, r, id);
      if id in r.services && id in initial.services { OldAccount(delta, initial, services, order, r, id); }
      if id in r.services && id !in initial.services {
        forall k | 0 <= k < |order| && Leaves(delta, order[k], id)
          && (forall j :: k < j < |order| ==> !Leaves(delta, order[j], id))
          ensures r.services[id] == delta(order[k].service).context.services[id] {
          NewAccount(delta, initial, order, r, id, k);
        }
      }
    }
  }

  /** Without clashes a new account is as any service that made it left it. */
  lemma NewAccountOfAny(delta: Delta, initial: Context, services: set<nat>, order: seq<Task>, r: Total, s: nat, id: nat)
    requires Schedule(order, Tasks(services)) && ResultIs(delta, initial, order, r) && NoClash(delta, initial, services)
    requires s in services && id in delta(s).context.services && id !in initial.services
    ensures id in r.services && r.services[id] == delta(s).context.services[id]
  {
    AccountDomain(delta, initial, services, order, r, id);
    assert Accumulate(s) in Members(order);
    assert id in Produced(delta, initial, s);
    ProducedValue(delta, initial, order, services, s, id);
    hide AfterTasks, Sorted, NoClash;
  }

  // ----------------------------------------------------------------------------------- confluence

  /** Every two orders of taking the mutex give the same gas total, sorted hash pairs, transfers up
      to order, privileged state and set of services, which is (d ∪ n) \ m. */
  lemma Confluence(delta: Delta, initial: Context, services: set<nat>, a: seq<Task>, b: seq<Task>, x: Total, y: Total)
    requires Schedule(a, Tasks(services)) && Schedule(b, Tasks(services))
    requires ResultIs(delta, initial, a, x) && ResultIs(delta, initial, b, y)
    ensures x.gas == y.gas && x.pairs == y.pairs && multiset(x.transfers) == multiset(y.transfers)
    ensures x.privileges == y.privileges && x.validators == y.validators && x.queues == y.queues
    ensures x.services.Keys == y.services.Keys
    ensures forall id :: id in x.services <==>
              (id in initial.services || ProducedBySome(delta, initial, Tasks(services), id))
              && !RemovedBySome(delta, initial, Tasks(services), id)
    ensures NoClash(delta, initial, services) ==> x == y.(transfers := x.transfers)
  {
    hide AfterTasks, Sorted, Tasks, Produced, Removed, NoClash, ProducedBySome, RemovedBySome;
    var tasks := Tasks(services);
    SchedulesPermute(a, b, tasks);
    SameMembersOf(a, b, tasks);
    GasAgrees(delta, initial, a, b);
    TransfersAgree(delta, initial, a, b);
    SortedPairsAgree(delta, initial, a, b, tasks);
    TakenOnce(delta, initial, a); TakenOnce(delta, initial, b);
    SameMembers(a, b, TakePrivileges); SameMembers(a, b, TakeValidators); SameMembers(a, b, TakeQueues);
    DomainIs(delta, initial, a, tasks); DomainIs(delta, initial, b, tasks);
    hide Merged, Schedule;
    assert x.services.Keys == y.services.Keys;
    if NoClash(delta, initial, services) {
      ServiceMapsAgree(delta, initial, a, b, services);
      RemovedAgree(delta, initial, a, b);
      MergedFrom(initial, AfterTasks(delta, initial, a), AfterTasks(delta, initial, b));
    }
  }

  lemma GasAgrees(delta: Delta, initial: Context, a: seq<Task>, b: seq<Task>)
    requires multiset(a) == multiset(b)
    ensures AfterTasks(delta, initial, a).gas == AfterTasks(delta, initial, b).gas
  {
    var gas := t => GasOf(delta, t);
    GasIsSum(delta, initial, a, gas); GasIsSum(delta, initial, b, gas);
    SumPermuted(gas, a, b);
  }

  lemma TransfersAgree(delta: Delta, initial: Context, a: seq<Task>, b: seq<Task>)
    requires multiset(a) == multiset(b)
    ensures multiset(AfterTasks(delta, initial, a).transfers) == multiset(AfterTasks(delta, initial, b).transfers)
  {
    hide AfterTasks;
    var p, q := AfterTasks(delta, initial, a).transfers, AfterTasks(delta, initial, b).transfers;
    forall t ensures multiset(p)[t] == multiset(q)[t] {
      TransferAgrees(delta, initial, a, b, t);
    }
    assert multiset(p) == multiset(q);
  }

  lemma TransferAgrees(delta: Delta, initial: Context, a: seq<Task>, b: seq<Task>, t: Transfer)
    requires multiset(a) == multiset(b)
    ensures multiset(AfterTasks(delta, initial, a).transfers)[t] == multiset(AfterTasks(delta, initial, b).transfers)[t]
  {
    var count := u => multiset(TransfersOf(delta, u))[t];
    TransfersAreSum(delta, initial, a, t, count); TransfersAreSum(delta, initial, b, t, count);
    SumPermuted(count, a, b);
  }

  lemma DomainIs(delta: Delta, initial: Context, order: seq<Task>, tasks: set<Task>)
    requires Members(order) == tasks
    ensures forall id :: id in Merged(initial, AfterTasks(delta, initial, order)) <==>
              (id in initial.services || ProducedBySome(delta, initial, tasks, id))
              && !RemovedBySome(delta, initial, tasks, id)
  {
    hide AfterTasks, ProducedBySome, RemovedBySome;
    forall id ensures id in Merged(initial, AfterTasks(delta, initial, order)) <==>
              (id in initial.services || ProducedBySome(delta, initial, tasks, id))
              && !RemovedBySome(delta, initial, tasks, id) {
      ProducedAre(delta, initial, order, id);
    }
  }

  lemma RemovedAgree(delta: Delta, initial: Context, a: seq<Task>, b: seq<Task>)
    requires Members(a) == Members(b)
    ensures AfterTasks(delta, initial, a).removed == AfterTasks(delta, initial, b).removed
  {
    hide AfterTasks, RemovedBySome, ProducedBySome;
    forall id ensures id in AfterTasks(delta, initial, a).removed <==> id in AfterTasks(delta, initial, b).removed {
      ProducedAre(delta, initial, a, id); ProducedAre(delta, initial, b, id);
    }
  }

  /** A schedule exists for any tasks. */
  ghost function AnyOrder(tasks: set<Task>): (r: seq<Task>)
    ensures Schedule(r, tasks)
  {
    if tasks == {} then []
    else
      var t :| t in tasks;
      var rest := AnyOrder(tasks - {t});
      assert Members(rest + [t]) == Members(rest) + {t};
      assert t !in Members(rest);
      rest + [t]
  }

  ghost predicate AllOrdersAgree(delta: Delta, initial: Context, services: set<nat>) {
    forall a, b :: Schedule(a, Tasks(services)) && Schedule(b, Tasks(services)) ==>
      Merged(initial, AfterTasks(delta, initial, a)) == Merged(initial, AfterTasks(delta, initial, b))
  }

  lemma LastTwo(rest: seq<Task>, s: Task, t: Task, tasks: set<Task>)
    requires s != t && s in tasks && t in tasks && Schedule(rest, tasks - {s, t})
    ensures Schedule(rest + [s, t], tasks)
  {
    var r := rest + [s, t];
    assert Members(r) == Members(rest) + {s, t};
    assert s !in Members(rest) && t !in Members(rest);
    forall i, j | 0 <= i < j < |r| ensures r[i] != r[j] {
      if i < |rest| { assert rest[i] in Members(rest); }
    }
  }

  /** Whoever comes last wins. */
  lemma LastWins(delta: Delta, initial: Context, rest: seq<Task>, s: nat, t: nat, id: nat)
    requires id in Produced(delta, initial, t) && id !in initial.services
    ensures id in Merged(initial, AfterTasks(delta, initial, rest + [Accumulate(s), Accumulate(t)]))
    ensures Merged(initial, AfterTasks(delta, initial, rest + [Accumulate(s),
        Accumulate(t)]))[id] == Produced(delta, initial, t)[id]
  {
    var order := rest + [Accumulate(s), Accumulate(t)];
    ProducedAre(delta, initial, order, id);
    assert order[..|order| - 1] == rest + [Accumulate(s)];
    assert AfterTasks(delta, initial, order)
        == Entered(delta, initial, AfterTasks(delta, initial, rest + [Accumulate(s)]), Accumulate(t));
    hide AfterTasks;
  }

  /** The account values are the same for every order exactly when nothing clashes. */
  lemma AgreeExactlyWhen(delta: Delta, initial: Context, services: set<nat>)
    ensures AllOrdersAgree(delta, initial, services) <==> NoClash(delta, initial, services)
  {
    hide AfterTasks, Merged, Schedule, Produced;
    if NoClash(delta, initial, services) {
      forall a, b | Schedule(a, Tasks(services)) && Schedule(b, Tasks(services))
        ensures Merged(initial, AfterTasks(delta, initial, a)) == Merged(initial, AfterTasks(delta, initial, b)) {
        SameMembersOf(a, b, Tasks(services));
        ServiceMapsAgree(delta, initial, a, b, services);
        RemovedAgree(delta, initial, a, b);
        MergedFrom(initial, AfterTasks(delta, initial, a), AfterTasks(delta, initial, b));
      }
    } else {
      var s, t, id :| s in services && t in services && s != t
        && id in Produced(delta, initial, s) && id in Produced(delta, initial, t)
        && Produced(delta, initial, s)[id] != Produced(delta, initial, t)[id];
      var x, y := Accumulate(s), Accumulate(t);
      assert x in Tasks(services) && y in Tasks(services);
      var rest := AnyOrder(Tasks(services) - {x, y});
      LastTwo(rest, x, y, Tasks(services));
      assert Tasks(services) - {x, y} == Tasks(services) - {y, x};
      LastTwo(rest, y, x, Tasks(services));
      ClashIsNew(delta, initial, s, t, id);
      LastWins(delta, initial, rest, s, t, id);
      LastWins(delta, initial, rest, t, s, id);
    }
  }

  lemma ClashIsNew(delta: Delta, initial: Context, s: nat, t: nat, id: nat)
    requires s != t && id in Produced(delta, initial, s) && id in Produced(delta, initial, t)
    ensures id !in initial.services
  {
  }

  lemma SameMembersOf(a: seq<Task>, b: seq<Task>, tasks: set<Task>)
    requires Schedule(a, tasks) && Schedule(b, tasks)
    ensures Members(a) == Members(b)
  {
  }

  lemma MergedFrom(initial: Context, x: Board, y: Board)
    requires x.produced == y.produced && x.removed == y.removed
    ensures Merged(initial, x) == Merged(initial, y)
  {
  }

  /** Services 1 and 2 both make an account with the index 300, one with balance 1 and one with
      balance 2. Who enters the mutex last decides. */
  lemma ClashExample() returns (delta: Delta, initial: Context)
    ensures !AllOrdersAgree(delta, initial, {1, 2})
  {
    var privileges := Privileges(0, 0, 0, map[]);
    initial := Context(map[], [], [], privileges);
    delta := (s: nat) => Outcome(
      Context(map[300 := Accounts.Account(map[], None, None, ZERO_HASH, s, 0, 0)], [], [], privileges), [], None, 0);
    assert 300 in Produced(delta, initial, 1) && 300 in Produced(delta, initial, 2);
    assert Produced(delta, initial, 1)[300] != Produced(delta, initial, 2)[300];
    hide AllOrdersAgree, Produced;
    AgreeExactlyWhen(delta, initial, {1, 2});
  }
}
