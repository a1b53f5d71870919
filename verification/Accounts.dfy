/** Service accounts and the host calls that change them while a service accumulates. */
module Accounts {
  import opened Bytes
  import opened Hashing
  import opened Preimages
  import opened ServiceIndex

  type Blob = seq<byte>

  /** The key of a preimage's history: its hash and its presupposed length. */
  datatype MetaKey = MetaKey(hash: Hash, length: nat)

  /** `lookup` and `meta` are `None` while the Go map is nil, as `lookup` is in an account made by
      `New`. Reading a nil map finds nothing. */
  datatype Account = Account(
    storage: map<Hash, Blob>,
    lookup: Option<map<Hash, Blob>>,
    meta: Option<map<MetaKey, History>>,
    codeHash: Hash,
    balance: nat,
    gasAccumulate: nat,
    gasTransfer: nat)
  {
    function Lookup(): map<Hash, Blob> {
      if lookup.None? then map[] else lookup.value
    }

    function Meta(): map<MetaKey, History> {
      if meta.None? then map[] else meta.value
    }

    function HistoryOf(key: MetaKey): Option<History> {
      if key in Meta() then Some(Meta()[key]) else None
    }

    /** Writes to the metadata map or deletes from it. Deleting from a nil map does nothing. */
    function WithHistory(key: MetaKey, h: Option<History>): (a: Account)
      ensures a.HistoryOf(key) == h
      ensures forall k :: k != key ==> a.HistoryOf(k) == HistoryOf(k)
      ensures a == this.(meta := a.meta)
    {
      if h.Some? then this.(meta := Some(Meta()[key := h.value]))
      else if meta.None? then this
      else this.(meta := Some(meta.value - {key}))
    }

    /** `delete(serviceAccount.PreimageLookup, h)`: nothing happens to a nil map. */
    function WithoutBlob(h: Hash): Account {
      if lookup.None? then this else this.(lookup := Some(lookup.value - {h}))
    }
  }

  // ------------------------------------------------------------------ thresholds

  const BASIC_BALANCE := 100
  const BALANCE_PER_ITEM := 10
  const BALANCE_PER_OCTET := 1

  /** The sum of the sizes of the values of a map, each with a fixed overhead. */
  ghost function Octets(m: map<Hash, Blob>, overhead: nat): nat
    decreases |m|
  {
    if m == map[] then 0
    else
      var k :| k in m;
      overhead + |m[k]| + Octets(m - {k}, overhead)
  }

  lemma {:induction false} OctetsRemove(m: map<Hash, Blob>, overhead: nat, x: Hash)
    requires x in m
    ensures Octets(m, overhead) == overhead + |m[x]| + Octets(m - {x}, overhead)
    decreases |m|
  {
    var k :| k in m && Octets(m, overhead) == overhead + |m[k]| + Octets(m - {k}, overhead);
    if k != x {
      OctetsRemove(m - {k}, overhead, x);
      OctetsRemove(m - {x}, overhead, k);
      assert m - {k} - {x} == m - {x} - {k};
    }
  }

  lemma OctetsShrink(m: map<Hash, Blob>, overhead: nat, x: Hash)
    ensures Octets(m - {x}, overhead) <= Octets(m, overhead) && |m - {x}| <= |m|
  {
    if x in m { OctetsRemove(m, overhead, x); } else { assert m - {x} == m; }
  }

  /** Unsigned words. */
  function Word64(x: nat): (r: nat)
    ensures r < TWO_64
  {
    x % TWO_64
  }

  function Word32(x: nat): (r: nat)
    ensures r < TWO_32
  {
    x % TWO_32
  }

  lemma Word64Adds(a: nat, b: nat)
    ensures 0 <= Word64(a) && 0 <= Word64(a + b) && Word64(Word64(a) + b) == Word64(a + b)
  {
  }

  lemma Word64Fits(x: nat)
    ensures x < TWO_64 ==> Word64(x) == x
  {
  }

  lemma Word32Fits(x: nat)
    ensures x < TWO_32 ==> Word32(x) == x
  {
  }

  /** The number of items before it is cut to 32 bits. */
  function Items(a: Account): nat {
    2 * |a.Lookup()| + |a.storage|
  }

  function TotalItems(a: Account): nat {
    Word32(Items(a))
  }

  ghost function StorageSize(a: Account): nat {
    Octets(a.Lookup(), 81) + Octets(a.storage, 32)
  }

  /** What an account must hold, on unsigned 64-bit words. */
  ghost function Threshold(a: Account): nat {
    Word64(StorageSize(a) + BASIC_BALANCE + BALANCE_PER_ITEM * TotalItems(a))
  }

  /** An account whose items and octets fit the words they are counted in. */
  ghost predicate Fits(a: Account) {
    Items(a) < TWO_32 && StorageSize(a) + BASIC_BALANCE + BALANCE_PER_ITEM * Items(a) < TWO_64
  }

  lemma ThresholdOfFitting(a: Account)
    requires Fits(a)
    ensures Threshold(a) == StorageSize(a) + BASIC_BALANCE + BALANCE_PER_ITEM * Items(a)
  {
    hide Octets, Word64, Word32;
    Word32Fits(Items(a));
    Word64Fits(StorageSize(a) + BASIC_BALANCE + BALANCE_PER_ITEM * Items(a));
  }

  /** One of the two loops of `TotalStorageSize`, from the sum so far: the map is walked in any
      order. */
  method SumSizes(m: map<Hash, Blob>, overhead: nat, start: nat) returns (al: nat)
    ensures al == Word64(start + Octets(m, overhead))
  {
    Word64Adds(start, 0);
    hide Word64;
    al := Word64(start);
    var left := m;
    ghost var done: nat := start;
    while left != map[]
      invariant done + Octets(left, overhead) == start + Octets(m, overhead) && al == Word64(done)
      decreases |left|
    {
      var k :| k in left;
      OctetsRemove(left, overhead, k);
      Word64Adds(done, overhead + |left[k]|);
      done := done + (overhead + |left[k]|);
      al := Word64(al + (overhead + |left[k]|));
      left := left - {k};
    }
  }

  method ThresholdBalance(a: Account) returns (t: nat)
    ensures t == Threshold(a)
    ensures Fits(a) ==> t == Octets(a.Lookup(), 81) + Octets(a.storage, 32) + 100
                             + 10 * (2 * |a.Lookup()| + |a.storage|)
  {
    hide Word64, Word32, Octets;
    var p := SumSizes(a.Lookup(), 81, 0);
    var al := SumSizes(a.storage, 32, p);
    ghost var octets := Octets(a.Lookup(), 81);
    Word64Adds(octets, Octets(a.storage, 32));
    Word64Adds(octets + Octets(a.storage, 32), BASIC_BALANCE + BALANCE_PER_ITEM * TotalItems(a));
    t := Word64(BALANCE_PER_OCTET * al + (BASIC_BALANCE + BALANCE_PER_ITEM * TotalItems(a)));
    if Fits(a) { ThresholdOfFitting(a); }
  }

  // ------------------------------------------------------------------ host calls

  const HOST_CALL_COST := 10

  datatype Code = OK | HUH | FULL | WHO | CASH

  /** How a host call ends: without gas, in a panic because the hash could not be read, stopped by the
      runtime at a write to a nil map, or with a value in register 7. */
  datatype Exit = OutOfGas | Panic | Crashed | Returned(code: Code) | ReturnedIndex(index: nat)

  datatype Call =
    | New(code: Hash, length: nat, gasAccumulate: nat, gasTransfer: nat)
    | Upgrade(code: Hash, gasAccumulate: nat, gasTransfer: nat)
    | SolicitCall(key: MetaKey, time: nat)
    | ForgetCall(key: MetaKey, time: nat)
    | Eject(target: nat, hash: Hash, time: nat)

  /** The part of the context that the calls change. */
  datatype Ledger = Ledger(services: map<nat, Account>, next: nat)

  /** Unsigned 64-bit subtraction and addition. */
  function Sub64(a: nat, b: nat): nat
    requires a < TWO_64 && b < TWO_64
  {
    if a >= b then a - b else a - b + TWO_64
  }

  function Add64(a: nat, b: nat): nat
    requires a < TWO_64 && b < TWO_64
  {
    if a + b < TWO_64 then a + b else a + b - TWO_64
  }

  /** The account that `New` makes: nothing in it but the solicited code. */
  function FreshAccount(code: Hash, length: nat, g: nat, m: nat): (a: Account)
    ensures Threshold(a) == BASIC_BALANCE == a.balance
  {
    Account(map[], None, Some(map[MetaKey(code, length) := []]), code, BASIC_BALANCE, g, m)
  }

  ghost predicate Balances64(services: map<nat, Account>) {
    forall s :: s in services ==> services[s].balance < TWO_64
  }

  ghost predicate CanPay(a: Account)
    requires a.balance < TWO_64
  {
    Sub64(a.balance, BASIC_BALANCE) >= Threshold(a)
  }

  /** The caller has an account, balances are 64-bit words, and if there is an account to make there
      is an index left for it. Without one the search would not end. */
  ghost predicate Callable(l: Ledger, caller: nat, call: Call) {
    && caller in l.services && Balances64(l.services) && l.next < TWO_32
    && (call.New? && CanPay(l.services[caller]) ==> HasFree(l.services.Keys))
  }

  /** The length of the history key an ejected service must have: its code without 81 octets. */
  function CodeLength(a: Account): nat {
    var n := if a.codeHash in a.Lookup() then |a.Lookup()[a.codeHash]| else 0;
    Max(81, n) - 81
  }

  /** The checks of `Eject`, in order. A service offers itself by setting its code hash to the
      caller's index on 32 octets, which read as a number is the index. */
  function EjectCode(services: map<nat, Account>, caller: nat, d: nat, hash: Hash, t: nat): Code {
    if d == caller || d !in services || services[d].codeHash != Hash(caller) then WHO
    else if TotalItems(services[d]) != 2 then HUH
    else
      var h := services[d].HistoryOf(MetaKey(hash, CodeLength(services[d])));
      if h.Some? && |h.value| == 2 && h.value[1] < ExpungeLimit(t) then OK else HUH
  }

  ghost function Performed(l: Ledger, caller: nat, call: Call): Ledger
    requires Callable(l, caller, call)
  {
    var a := l.services[caller];
    match call
    case New(code, length, g, m) =>
      if !CanPay(a) then l
      else
        var id := CheckIndex(BumpIndex(l.next), l.services.Keys);
        var paid := a.(balance := Sub64(a.balance, BASIC_BALANCE));
        Ledger(l.services[caller := paid][id := FreshAccount(code, length, g, m)], id)
    case Upgrade(code, g, m) =>
      l.(services := l.services[caller := a.(codeHash := code, gasAccumulate := g, gasTransfer := m)])
    case SolicitCall(key, t) =>
      if a.meta.None? then l
      else l.(services := l.services[caller := a.WithHistory(key, AfterSolicit(a.HistoryOf(key), t))])
    case ForgetCall(key, t) =>
      var h := a.HistoryOf(key);
      var forgotten := a.WithHistory(key, AfterForget(h, t));
      l.(services := l.services[caller := if AfterForget(h, t).None? then forgotten.WithoutBlob(key.hash)
          else forgotten])
    case Eject(d, hash, t) =>
      if EjectCode(l.services, caller, d, hash, t) != OK then l
      else
        l.(services := (l.services - {d})[caller := a.(balance := Add64(a.balance, l.services[d].balance))])
  }

  /** What register 7 holds afterwards. `New` reports the index it held before the call, while
      the account is kept under the next one. */
  ghost function Answer(l: Ledger, caller: nat, call: Call): Exit
    requires Callable(l, caller, call)
  {
    var a := l.services[caller];
    match call
    case New(_, _, _, _) => if CanPay(a) then ReturnedIndex(l.next) else Returned(CASH)
    case Upgrade(_, _, _) => Returned(OK)
    case SolicitCall(key, _) =>
      if a.meta.None? then Crashed
      else if !SolicitAccepts(a.HistoryOf(key)) then Returned(HUH)
      else if a.balance < Threshold(a) then Returned(FULL)
      else Returned(OK)
    case ForgetCall(key, t) => Returned(if ForgetAccepts(a.HistoryOf(key), t) then OK else HUH)
    case Eject(d, hash, t) => Returned(EjectCode(l.services, caller, d, hash, t))
  }

  lemma NoChange(services: map<nat, Account>, s: nat, key: MetaKey)
    requires s in services && key in services[s].Meta()
    ensures services[s := services[s].WithHistory(key, Some(services[s].Meta()[key]))] == services
  {
    var a := services[s];
    assert a.meta.value[key := a.meta.value[key]] == a.meta.value;
  }

  lemma MetaKeepsThreshold(a: Account, key: MetaKey, h: Option<History>)
    ensures Threshold(a.WithHistory(key, h)) == Threshold(a)
  {
    SameThreshold(a, a.WithHistory(key, h));
    hide Threshold;
  }

  /** Only blobs and storage count. */
  lemma SameThreshold(a: Account, b: Account)
    requires a.lookup == b.lookup && a.storage == b.storage
    ensures Threshold(a) == Threshold(b) && Fits(a) == Fits(b)
  {
    hide Word64, Word32, Octets;
    assert a.Lookup() == b.Lookup();
  }

  /** A preimage that was forgotten at `t` is available at no later time. */
  lemma ForgetEnds(l: Ledger, caller: nat, key: MetaKey, t: nat)
    requires Callable(l, caller, ForgetCall(key, t))
    ensures var after := Performed(l, caller, ForgetCall(key, t)).services;
            caller in after && (Answer(l, caller, ForgetCall(key, t)) == Returned(OK) ==>
              forall q: nat :: q >= t ==> !Available(after[caller].HistoryOf(key), q))
  {
    var h := l.services[caller].HistoryOf(key);
    hide Available, AfterForget, ForgetAccepts, Threshold;
    if ForgetAccepts(h, t) {
      forall q: nat | q >= t ensures !Available(AfterForget(h, t), q) { ForgetMeans(h, t, q); }
    }
  }

  /** The context of one accumulation. Go copies the account but shares its maps, so a change to
      the metadata is there even when the call then answers FULL. */
  class AccumulateContext {
    const serviceId: nat
    var services: map<nat, Account>
    var newServiceId: nat
    var gas: int

    constructor (serviceId: nat, services: map<nat, Account>, newServiceId: nat, gas: int)
      ensures this.serviceId == serviceId && this.services == services
      ensures this.newServiceId == newServiceId && this.gas == gas
    {
      this.serviceId, this.services, this.newServiceId, this.gas := serviceId, services, newServiceId, gas;
    }

    ghost function State(): Ledger
      reads this
    {
      Ledger(services, newServiceId)
    }

    /** What every call promises: nothing without gas; the gas and no more without a hash; and
        otherwise exactly the step of the ledger and its answer. */
    twostate predicate Did(hash: Option<Hash>, call: Call, exit: Exit)
      requires old(Callable(State(), serviceId, call))
      reads this
    {
      if old(gas) < HOST_CALL_COST then exit == OutOfGas && gas == old(gas) && State() == old(State())
      else if hash.None? then exit == Panic && gas == old(gas) - HOST_CALL_COST && State() == old(State())
      else
        && exit == old(Answer(State(), serviceId, call))
        && gas == old(gas) - HOST_CALL_COST
        && State() == old(Performed(State(), serviceId, call))
    }

    method New(code: Option<Hash>, length: nat, g: nat, m: nat) returns (exit: Exit)
      requires Callable(State(), serviceId, Call.New(if code.Some? then code.value
          else ZERO_HASH, length % TWO_32, g, m))
      modifies this
      ensures Did(code, Call.New(if code.Some? then code.value else ZERO_HASH, length % TWO_32, g, m), exit)
      ensures exit.ReturnedIndex? ==>
                && newServiceId !in old(services) && newServiceId in services && services[newServiceId].balance == 100
                && code == Some(services[newServiceId].codeHash)
                && services[newServiceId].gasAccumulate == g && services[newServiceId].gasTransfer == m
      ensures !exit.ReturnedIndex? ==> services == old(services) && newServiceId == old(newServiceId)
    {
      if gas < HOST_CALL_COST { return OutOfGas; }
      gas := gas - HOST_CALL_COST;
      if code.None? { return Panic; }
      var account := FreshAccount(code.value, length % TWO_32, g, m);
      var fee := ThresholdBalance(account);
      var current := services[serviceId];
      var b := Sub64(current.balance, fee);
      var t := ThresholdBalance(current);
      if b >= t {
        exit := ReturnedIndex(newServiceId);
        CheckIndexFindsFirstFree(BumpIndex(newServiceId), services.Keys);
        var newId := CheckIndex(BumpIndex(newServiceId), services.Keys);
        newServiceId := newId;
        services := services[serviceId := current.(balance := b)];
        services := services[newId := account];
        return;
      }
      exit := Returned(CASH);
    }

    method Upgrade(code: Option<Hash>, g: nat, m: nat) returns (exit: Exit)
      requires Callable(State(), serviceId, Call.Upgrade(if code.Some? then code.value else ZERO_HASH, g, m))
      modifies this
      ensures Did(code, Call.Upgrade(if code.Some? then code.value else ZERO_HASH, g, m), exit)
      ensures exit.Returned? ==>
                && serviceId in services && code == Some(services[serviceId].codeHash)
                && services[serviceId].gasAccumulate == g && services[serviceId].gasTransfer == m
    {
      if gas < HOST_CALL_COST { return OutOfGas; }
      gas := gas - HOST_CALL_COST;
      if code.None? { return Panic; }
      var current := services[serviceId];
      current := current.(codeHash := code.value);
      current := current.(gasAccumulate := g);
      current := current.(gasTransfer := m);
      services := services[serviceId := current];
      exit := Returned(OK);
    }

    method Solicit(hash: Option<Hash>, length: nat, t: nat) returns (exit: Exit)
      requires Callable(State(), serviceId, SolicitCall(MetaKey(if hash.Some? then hash.value
          else ZERO_HASH, length % TWO_32), t))
      modifies this
      ensures Did(hash, SolicitCall(MetaKey(if hash.Some? then hash.value else ZERO_HASH, length % TWO_32), t), exit)
      ensures exit.Returned? ==>
                && hash.Some? && serviceId in services
                && MetaKey(hash.value, length % TWO_32) in services[serviceId].Meta()
    {
      if gas < HOST_CALL_COST { return OutOfGas; }
      gas := gas - HOST_CALL_COST;
      if hash.None? { return Panic; }
      var key := MetaKey(hash.value, length % TWO_32);
      var account := services[serviceId];
      ghost var before := account;
      if account.meta.None? { return Crashed; }
      if key !in account.meta.value {
        account := account.(meta := Some(account.meta.value[key := []]));
      } else if |account.meta.value[key]| == 2 {
        account := account.(meta := Some(account.meta.value[key := account.meta.value[key] + [t]]));
      } else {
        NoChange(services, serviceId, key);
        return Returned(HUH);
      }
      services := services[serviceId := account];
      MetaKeepsThreshold(before, key, account.HistoryOf(key));
      var threshold := ThresholdBalance(account);
      exit := Returned(if account.balance < threshold then FULL else OK);
    }

    method Forget(hash: Option<Hash>, length: nat, t: nat) returns (exit: Exit)
      requires Callable(State(), serviceId, ForgetCall(MetaKey(if hash.Some? then hash.value
          else ZERO_HASH, length % TWO_32), t))
      modifies this
      ensures Did(hash, ForgetCall(MetaKey(if hash.Some? then hash.value else ZERO_HASH, length % TWO_32), t), exit)
      ensures exit == Returned(OK) ==>
                && hash.Some? && serviceId in services
                && forall q: nat :: q >= t ==>
                     !Available(services[serviceId].HistoryOf(MetaKey(hash.value, length % TWO_32)), q)
    {
      if gas < HOST_CALL_COST { return OutOfGas; }
      gas := gas - HOST_CALL_COST;
      if hash.None? { return Panic; }
      var key := MetaKey(hash.value, length % TWO_32);
      var account := services[serviceId];
      var h := if key in account.Meta() then account.Meta()[key] else [];
      ForgetEnds(State(), serviceId, key, t);
      hide Available, Threshold, Fits, CanPay;
      if |h| == 0 || (|h| == 2 && h[1] < ExpungeLimit(t)) {
        account := account.WithHistory(key, None).WithoutBlob(key.hash);
        services := services[serviceId := account];
        return Returned(OK);
      }
      if |h| == 1 {
        account := account.(meta := Some(account.meta.value[key := h + [t]]));
        services := services[serviceId := account];
        return Returned(OK);
      }
      if |h| == 3 && h[1] < ExpungeLimit(t) {
        account := account.(meta := Some(account.meta.value[key := [h[2], t]]));
        services := services[serviceId := account];
        return Returned(OK);
      }
      NoChange(services, serviceId, key);
      exit := Returned(HUH);
    }

    method Eject(d: nat, hash: Option<Hash>, t: nat) returns (exit: Exit)
      requires Callable(State(), serviceId, Call.Eject(d % TWO_32, if hash.Some? then hash.value else ZERO_HASH, t))
      modifies this
      ensures Did(hash, Call.Eject(d % TWO_32, if hash.Some? then hash.value else ZERO_HASH, t), exit)
      ensures exit == Returned(OK) ==>
                && d % TWO_32 in old(services) && old(services)[d % TWO_32].codeHash == Hash(serviceId)
                && d % TWO_32 !in services && serviceId in services
                && services[serviceId].balance ==
                     Add64(old(services)[serviceId].balance, old(services)[d % TWO_32].balance)
    {
      if gas < HOST_CALL_COST { return OutOfGas; }
      gas := gas - HOST_CALL_COST;
      if hash.None? { return Panic; }
      var id := d % TWO_32;
      if id == serviceId { return Returned(WHO); }
      if id !in services { return Returned(WHO); }
      var target := services[id];
      if target.codeHash != Hash(serviceId) { return Returned(WHO); }
      if TotalItems(target) != 2 { return Returned(HUH); }
      var key := MetaKey(hash.value, CodeLength(target));
      if key !in target.Meta() { return Returned(HUH); }
      var h := target.Meta()[key];
      if |h| == 2 && h[1] < ExpungeLimit(t) {
        var xs := services[serviceId];
        xs := xs.(balance := Add64(xs.balance, target.balance));
        services := services - {id};
        services := services[serviceId := xs];
        return Returned(OK);
      }
      exit := Returned(HUH);
    }
  }

  // ------------------------------------------------------------ what each call does

  /** From `l` to `after` nothing changes but the account of the caller. */
  ghost predicate OnlyCaller(l: Ledger, after: Ledger, caller: nat) {
    && after.next == l.next && after.services.Keys == l.services.Keys
    && forall s :: s in l.services && s != caller ==> after.services[s] == l.services[s]
  }

  /** New is refused exactly when the balance, less 100 on a word, is below the threshold. Otherwise the
      caller pays 100, and the new account holds them, the solicited code and nothing else. */
  lemma NewMeans(l: Ledger, caller: nat, call: Call)
    requires Callable(l, caller, call) && call.New?
    ensures var a, after := l.services[caller], Performed(l, caller, call);
            var left := if a.balance >= 100 then a.balance - 100 else a.balance + TWO_64 - 100;
            && (left < Threshold(a) ==> Answer(l, caller, call) == Returned(CASH) && after == l)
            && (left >= Threshold(a) ==>
                  && Answer(l, caller, call) == ReturnedIndex(l.next)
                  && caller in after.services && after.services[caller] == a.(balance := left)
                  && after.next in after.services && after.next != caller
                  && after.services[after.next] == Account(
                       map[], None, Some(map[MetaKey(call.code, call.length) := []]), call.code, 100,
                       call.gasAccumulate, call.gasTransfer))
  {
    hide Threshold, Total;
    if CanPay(l.services[caller]) { NewNeverOverwrites(l, caller, call); }
  }

  lemma UpgradeMeans(l: Ledger, caller: nat, call: Call)
    requires Callable(l, caller, call) && call.Upgrade?
    ensures var a, after := l.services[caller], Performed(l, caller, call);
            && Answer(l, caller, call) == Returned(OK) && OnlyCaller(l, after, caller)
            && after.services[caller] == Account(a.storage, a.lookup, a.meta, call.code, a.balance,
                                                 call.gasAccumulate, call.gasTransfer)
  {
    hide Threshold;
  }

  /** Soliciting records an empty history for what has none, and a third entry after two; it answers FULL
      when the caller is below its threshold, and has recorded it all the same. */
  lemma SolicitCallMeans(l: Ledger, caller: nat, key: MetaKey, t: nat)
    requires Callable(l, caller, SolicitCall(key, t))
    ensures var a, after := l.services[caller], Performed(l, caller, SolicitCall(key, t));
            var h, answer := a.HistoryOf(key), Answer(l, caller, SolicitCall(key, t));
            && (a.meta.None? <==> answer == Crashed)
            && (answer == Returned(HUH) <==> a.meta.Some? && h.Some? && |h.value| != 2)
            && (answer == Returned(FULL) <==>
                  a.meta.Some? && (h.None? || |h.value| == 2) && a.balance < Threshold(a))
            && (answer.Crashed? || answer == Returned(HUH) ==> after == l)
            && (!answer.Crashed? && answer != Returned(HUH) ==>
                  && OnlyCaller(l, after, caller)
                  && after.services[caller] == a.(meta := Some(a.Meta()[key := if h.None? then [] else h.value + [t]])))
            && (answer.Crashed? || answer in {Returned(HUH), Returned(FULL), Returned(OK)})
  {
    hide Threshold;
    var a := l.services[caller];
    if a.meta.Some? && key in a.Meta() { NoChange(l.services, caller, key); }
  }

  /** Forgetting deletes the history and the blob of what is not available and has been forgotten for more
      than D, ends a running history at `t`, and otherwise answers HUH and changes nothing. */
  lemma ForgetCallMeans(l: Ledger, caller: nat, key: MetaKey, t: nat)
    requires Callable(l, caller, ForgetCall(key, t)) && EXPUNGE_PERIOD <= t
    ensures var a, after := l.services[caller], Performed(l, caller, ForgetCall(key, t));
            var h, answer := a.HistoryOf(key), Answer(l, caller, ForgetCall(key, t));
            var n := if h.None? then 0 else |h.value|;
            && OnlyCaller(l, after, caller)
            && (answer == Returned(OK) <==> n <= 1 || (n <= 3 && h.value[1] + EXPUNGE_PERIOD < t))
            && (answer == Returned(HUH) <==> answer != Returned(OK)) && (answer == Returned(HUH) ==> after == l)
            && (answer == Returned(OK) && (n == 0 || n == 2) ==>
                  after.services[caller] == a.(
                    lookup := if a.lookup.None? then None else Some(a.lookup.value - {key.hash}),
                    meta := if a.meta.None? then None else Some(a.meta.value - {key})))
            && (answer == Returned(OK) && n == 1 ==>
                  after.services[caller] == a.(meta := Some(a.Meta()[key := [h.value[0], t]])))
            && (answer == Returned(OK) && n == 3 ==>
                  after.services[caller] == a.(meta := Some(a.Meta()[key := [h.value[2], t]])))
  {
    hide Threshold;
    var a := l.services[caller];
    if key in a.Meta() {
      NoChange(l.services, caller, key);
      if |a.Meta()[key]| == 1 { assert a.Meta()[key] + [t] == [a.Meta()[key][0], t]; }
    }
  }

  /** A service is ejected exactly if it is another one that offered itself to the caller, by its code hash,
      and has two items left, the code among them, forgotten for more than D. Its balance goes to the caller. */
  lemma EjectMeans(l: Ledger, caller: nat, d: nat, hash: Hash, t: nat)
    requires Callable(l, caller, Eject(d, hash, t)) && EXPUNGE_PERIOD <= t
    ensures var after, answer := Performed(l, caller, Eject(d, hash, t)), Answer(l, caller, Eject(d, hash, t));
            && (answer == Returned(WHO) <==> d == caller || d !in l.services || l.services[d].codeHash != Hash(caller))
            && (answer == Returned(OK) <==>
                  && d != caller && d in l.services && l.services[d].codeHash == Hash(caller)
                  && (2 * |l.services[d].Lookup()| + |l.services[d].storage|) % TWO_32 == 2
                  && Expired(l.services[d], hash, t))
            && answer in {Returned(WHO), Returned(HUH), Returned(OK)}
            && (answer != Returned(OK) ==> after == l)
            && (answer == Returned(OK) ==>
                  && after.next == l.next && after.services.Keys == l.services.Keys - {d}
                  && after.services[caller] == l.services[caller].(
                       balance := (l.services[caller].balance + l.services[d].balance) % TWO_64)
                  && forall s :: s in l.services && s != caller && s != d ==> after.services[s] == l.services[s])
  {
    hide Threshold;
    if d in l.services {
      WordSum(l.services[caller].balance, l.services[d].balance);
      CodeLengthIs(l.services[d]);
    }
  }

  /** The history under the hash and the length of the code, less 81, has two entries, the second of them
      more than D ago. */
  predicate Expired(a: Account, hash: Hash, t: nat) {
    var code := if a.codeHash in a.Lookup() then a.Lookup()[a.codeHash] else [];
    var key := MetaKey(hash, if |code| > 81 then |code| - 81 else 0);
    key in a.Meta() && |a.Meta()[key]| == 2 && a.Meta()[key][1] + EXPUNGE_PERIOD < t
  }

  lemma CodeLengthIs(a: Account)
    ensures a.codeHash !in a.Lookup() || |a.Lookup()[a.codeHash]| <= 81 ==> CodeLength(a) == 0
    ensures a.codeHash in a.Lookup() && |a.Lookup()[a.codeHash]| > 81 ==>
              CodeLength(a) == |a.Lookup()[a.codeHash]| - 81
  {
  }

  lemma WordSum(a: nat, b: nat)
    requires a < TWO_64 && b < TWO_64
    ensures Add64(a, b) == (a + b) % TWO_64
  {
  }

  // ---------------------------------------------------------------- conservation

  /** The sum of all balances. */
  ghost function Total(services: map<nat, Account>): nat
    decreases |services|
  {
    if services == map[] then 0
    else
      var s :| s in services;
      services[s].balance + Total(services - {s})
  }

  lemma {:induction false} TotalRemove(services: map<nat, Account>, x: nat)
    requires x in services
    ensures Total(services) == services[x].balance + Total(services - {x})
    decreases |services|
  {
    var s :| s in services && Total(services) == services[s].balance + Total(services - {s});
    if s != x {
      TotalRemove(services - {s}, x);
      TotalRemove(services - {x}, s);
      assert services - {s} - {x} == services - {x} - {s};
    }
  }

  lemma TotalSet(services: map<nat, Account>, x: nat, a: Account)
    ensures x in services ==> Total(services[x := a]) == Total(services) - services[x].balance + a.balance
    ensures x !in services ==> Total(services[x := a]) == Total(services) + a.balance
  {
    var after := services[x := a];
    TotalRemove(after, x);
    if x in services {
      TotalRemove(services, x);
      assert after - {x} == services - {x};
    } else {
      assert after - {x} == services;
    }
  }

  lemma TotalCovers(services: map<nat, Account>, x: nat)
    requires x in services
    ensures services[x].balance <= Total(services)
    ensures forall y :: y in services && y != x ==> services[x].balance + services[y].balance <= Total(services)
  {
    TotalRemove(services, x);
    forall y | y in services && y != x ensures services[x].balance + services[y].balance <= Total(services) {
      TotalRemove(services - {x}, y);
    }
  }

  /** The new account gets an index nobody has, so no account is overwritten. */
  lemma NewNeverOverwrites(l: Ledger, caller: nat, call: Call)
    requires Callable(l, caller, call) && call.New? && CanPay(l.services[caller])
    ensures var l' := Performed(l, caller, call);
            && InRange(l'.next) && l'.next !in l.services
            && l'.services.Keys == l.services.Keys + {l'.next}
            && l'.services[l'.next] == FreshAccount(call.code, call.length, call.gasAccumulate, call.gasTransfer)
            && forall s :: s in l.services && s != caller ==> l'.services[s] == l.services[s]
  {
    CheckIndexFindsFirstFree(BumpIndex(l.next), l.services.Keys);
  }

  /** `New` answers with the index it held before the call, and stores the account where the search
      from the index after that one ends. The two are one index exactly when the index it held is
      free and everything before it on the way round is taken. */
  lemma NewAnswersItsIndexExactlyWhen(l: Ledger, caller: nat, call: Call)
    requires Callable(l, caller, call) && call.New? && CanPay(l.services[caller])
    ensures Answer(l, caller, call) == ReturnedIndex(Performed(l, caller, call).next) <==>
            && InRange(l.next) && l.next !in l.services
            && forall j :: InRange(j) && Distance(BumpIndex(l.next), j) < Distance(BumpIndex(l.next), l.next)
                 ==> j in l.services
  {
    CheckIndexIsExactlyWhen(BumpIndex(l.next), l.services.Keys, l.next);
  }

  /** What `New` does when the index it tries first is free. */
  lemma NewAtFirstTry(l: Ledger, caller: nat, call: Call)
    requires Callable(l, caller, call) && call.New? && CanPay(l.services[caller]) && BumpIndex(l.next) !in l.services
    ensures Answer(l, caller, call) == ReturnedIndex(l.next) && Performed(l, caller, call).next == BumpIndex(l.next)
    ensures BumpIndex(l.next) in Performed(l, caller, call).services
    ensures l.next !in l.services && l.next != BumpIndex(l.next) ==> l.next !in Performed(l, caller, call).services
    ensures caller != BumpIndex(l.next) ==>
              Performed(l, caller, call).services[caller].balance == Sub64(l.services[caller].balance, BASIC_BALANCE)
  {
    hide Total, Threshold;
  }

  /** A ledger with one service, which holds `balance`, and 256 as the next index. */
  lemma OneService(balance: nat) returns (l: Ledger)
    requires balance < TWO_64
    ensures l.services.Keys == {1000} && l.services[1000].balance == balance && l.next == 256
    ensures Fits(l.services[1000]) && Threshold(l.services[1000]) == BASIC_BALANCE && Total(l.services) == balance
    ensures forall call :: Callable(l, 1000, call)
    ensures CanPay(l.services[1000]) <==> Sub64(balance, BASIC_BALANCE) >= BASIC_BALANCE
    ensures BumpIndex(l.next) == 298
  {
    var a := Account(map[], None, Some(map[]), ZERO_HASH, balance, 0, 0);
    assert Octets(a.Lookup(), 81) == 0 && Octets(a.storage, 32) == 0;
    l := Ledger(map[1000 := a], 256);
    TotalRemove(l.services, 1000);
    assert l.services - {1000} == map[];
    assert l.services.Keys == {1000};
    hide Total, Threshold, Advance;
    AdvanceWithoutWrap(l.next, 42);
    FewServicesLeaveRoom(l.services.Keys);
  }

  /** The next index is 256. `New` answers 256, and the account is under 298. */
  lemma NewMisreportsExample(call: Call) returns (l: Ledger)
    requires call.New?
    ensures l.next == 256 && Sound(l, 1000) && Callable(l, 1000, call)
    ensures Answer(l, 1000, call) == ReturnedIndex(256) && 256 !in Performed(l, 1000, call).services
    ensures Performed(l, 1000, call).next == 298 && 298 in Performed(l, 1000, call).services
  {
    l := OneService(1000);
    hide Total, Threshold, Fits, Performed, Answer, BumpIndex, CanPay, Callable;
    NewAtFirstTry(l, 1000, call);
  }

  /** A caller with 50 pays a fee of 100 and ends with almost 2^64. */
  lemma NewCreatesMoneyExample(call: Call) returns (l: Ledger)
    requires call.New?
    ensures Callable(l, 1000, call) && Total(l.services) == 50
    ensures 1000 in Performed(l, 1000, call).services && Total(Performed(l, 1000, call).services) != 50
    ensures Performed(l, 1000, call).services[1000].balance == TWO_64 - 50
  {
    l := OneService(50);
    hide Total, Threshold, Fits, Performed, BumpIndex, CanPay, Callable;
    NewAtFirstTry(l, 1000, call);
    NewNeverOverwrites(l, 1000, call);
    NewConservesExactlyWhen(l, 1000, call);
  }

  /** Exactly when `New` keeps the total: a caller with less than the fee makes the subtraction
      wrap, and unless its threshold is enormous the call goes through and creates money. */
  lemma NewConservesExactlyWhen(l: Ledger, caller: nat, call: Call)
    requires Callable(l, caller, call) && call.New?
    ensures Total(Performed(l, caller, call).services) == Total(l.services) <==>
            l.services[caller].balance >= BASIC_BALANCE || !CanPay(l.services[caller])
  {
    var a := l.services[caller];
    if CanPay(a) {
      NewNeverOverwrites(l, caller, call);
      var paid := l.services[caller := a.(balance := Sub64(a.balance, BASIC_BALANCE))];
      TotalSet(l.services, caller, a.(balance := Sub64(a.balance, BASIC_BALANCE)));
      TotalSet(paid, Performed(l, caller, call).next,
               FreshAccount(call.code, call.length, call.gasAccumulate, call.gasTransfer));
    }
  }

  /** Balances add up to less than 2^64, and the caller can cover its threshold, which fits its
      word. */
  ghost predicate Sound(l: Ledger, caller: nat) {
    && caller in l.services && l.next < TWO_32
    && Total(l.services) < TWO_64 && Fits(l.services[caller])
    && l.services[caller].balance >= Threshold(l.services[caller])
  }

  lemma SoundIsCallable(l: Ledger, caller: nat, call: Call)
    requires Sound(l, caller) && (call.New? ==> |l.services| < SPAN)
    ensures Callable(l, caller, call)
  {
    forall s | s in l.services ensures l.services[s].balance < TWO_64 { TotalCovers(l.services, s); }
    assert |l.services.Keys| == |l.services|;
    if call.New? { FewServicesLeaveRoom(l.services.Keys); }
  }

  /** Whatever replaces the caller's account with the same balance and blobs keeps everything. */
  lemma PlainKeepsSound(l: Ledger, caller: nat, a: Account)
    requires Sound(l, caller) && a.balance == l.services[caller].balance
    requires Fits(a) && Threshold(a) <= Threshold(l.services[caller])
    ensures Sound(l.(services := l.services[caller := a]), caller)
    ensures Total(l.services[caller := a]) == Total(l.services)
  {
    hide Total, Threshold, Fits;
    SameBalance(l, caller, a);
  }

  lemma NewKeepsSound(l: Ledger, caller: nat, call: Call)
    requires Sound(l, caller) && Callable(l, caller, call) && call.New?
    ensures Sound(Performed(l, caller, call), caller)
    ensures Total(Performed(l, caller, call).services) == Total(l.services)
  {
    var a := l.services[caller];
    ThresholdOfFitting(a);
    NewConservesExactlyWhen(l, caller, call);
    hide Total, Threshold, Fits, StorageSize, Items, CheckIndex, HasFree;
    if CanPay(a) {
      NewNeverOverwrites(l, caller, call);
      SameThreshold(a, Performed(l, caller, call).services[caller]);
    }
  }

  /** Each call keeps the sum of all balances and leaves the caller able to cover its threshold. */
  lemma CallKeepsSound(l: Ledger, caller: nat, call: Call)
    requires Sound(l, caller) && Callable(l, caller, call)
    ensures Sound(Performed(l, caller, call), caller)
    ensures Total(Performed(l, caller, call).services) == Total(l.services)
  {
    hide Total, CheckIndex, HasFree, EjectCode, AfterSolicit, AfterForget, Threshold, Fits;
    var a := l.services[caller];
    if call.New? {
      NewKeepsSound(l, caller, call);
    } else if call.Eject? {
      if EjectCode(l.services, caller, call.target, call.hash, call.time) == OK {
        EjectTargets(l.services, caller, call.target, call.hash, call.time);
        EjectConserves(l, caller, call.target);
      }
    } else {
      var b := Performed(l, caller, call).services[caller];
      if call.ForgetCall? { ForgetShrinks(a, b, call.key); } else { SameThreshold(a, b); }
      PlainKeepsSound(l, caller, b);
      assert call.SolicitCall? && a.meta.None? ==> l.services[caller := a] == l.services;
    }
  }

  /** Dropping a blob never makes the threshold larger. */
  lemma ForgetShrinks(a: Account, b: Account, key: MetaKey)
    requires Fits(a) && b.storage == a.storage && (b.lookup == a.lookup || b.lookup == a.WithoutBlob(key.hash).lookup)
    ensures Fits(b) && Threshold(b) <= Threshold(a)
  {
    hide Octets, Word64, Word32;
    if a.lookup.Some? { OctetsShrink(a.lookup.value, 81, key.hash); }
    assert StorageSize(b) <= StorageSize(a) && Items(b) <= Items(a);
    ThresholdOfFitting(a);
    ThresholdOfFitting(b);
  }

  lemma EjectTargets(services: map<nat, Account>, caller: nat, d: nat, hash: Hash, t: nat)
    requires EjectCode(services, caller, d, hash, t) == OK
    ensures d in services && d != caller
  {
  }

  lemma SameBalance(l: Ledger, caller: nat, a: Account)
    requires caller in l.services && a.balance == l.services[caller].balance
    ensures Total(l.services[caller := a]) == Total(l.services)
  {
    TotalSet(l.services, caller, a);
  }

  lemma EjectConserves(l: Ledger, caller: nat, d: nat)
    requires Sound(l, caller) && d in l.services && d != caller && Balances64(l.services)
    ensures var a := l.services[caller];
            var merged := a.(balance := Add64(a.balance, l.services[d].balance));
            && Total((l.services - {d})[caller := merged]) == Total(l.services)
            && merged.balance >= Threshold(merged) && Fits(merged)
  {
    hide Total, Threshold, Fits;
    var a := l.services[caller];
    TotalCovers(l.services, caller);
    TotalRemove(l.services, d);
    var rest := l.services - {d};
    var merged := a.(balance := Add64(a.balance, l.services[d].balance));
    TotalSet(rest, caller, merged);
    SameThreshold(a, merged);
  }

  /** Whenever the run makes an account there are fewer services than indices. */
  ghost predicate RoomForNew(l: Ledger, caller: nat, calls: seq<Call>)
    requires Sound(l, caller)
    decreases |calls|, 0
  {
    calls == [] || (
      var n := |calls| - 1;
      RoomForNew(l, caller, calls[..n]) && (calls[n].New? ==> |RunCalls(l, caller, calls[..n]).services| < SPAN))
  }

  /** Any run of calls by one caller, of any length, keeps the sum of all balances and leaves the
      caller able to cover its threshold. */
  ghost function RunCalls(l: Ledger, caller: nat, calls: seq<Call>): (r: Ledger)
    requires Sound(l, caller) && RoomForNew(l, caller, calls)
    ensures Sound(r, caller) && Total(r.services) == Total(l.services)
    decreases |calls|, 1
  {
    if calls == [] then l
    else
      var n := |calls| - 1;
      var mid := RunCalls(l, caller, calls[..n]);
      SoundIsCallable(mid, caller, calls[n]); CallKeepsSound(mid, caller, calls[n]);
      Performed(mid, caller, calls[n])
  }

  /** A run is its calls one after the other. */
  lemma RunCallsIs(l: Ledger, caller: nat, calls: seq<Call>, call: Call)
    requires Sound(l, caller) && RoomForNew(l, caller, calls + [call])
    ensures RoomForNew(l, caller, calls) && RunCalls(l, caller, []) == l
    ensures Callable(RunCalls(l, caller, calls), caller, call)
    ensures RunCalls(l, caller, calls + [call]) == Performed(RunCalls(l, caller, calls), caller, call)
  {
    assert (calls + [call])[..|calls|] == calls;
    SoundIsCallable(RunCalls(l, caller, calls), caller, call);
    hide Performed, Sound, Callable;
  }

  // ------------------------------------------------------------ preimages supplied

  datatype Preimage = Preimage(service: nat, data: Blob)

  /** The given state and its shallow clone. Maps are shared between the two, except that a nil map
      is replaced in the clone only. */
  datatype Supplied = Supplied(given: map<nat, Account>, clone: map<nat, Account>)

  /** Nothing is recorded for the preimage, solicited or not. */
  predicate Solicited(services: map<nat, Account>, service: nat, key: MetaKey)
    ensures Solicited(services, service, key) ==> service in services
  {
    service in services && key.hash !in services[service].Lookup()
    && (key in services[service].Meta() ==> services[service].Meta()[key] == [])
  }

  function KeyOf(H: Blob -> Hash, p: Preimage): MetaKey {
    MetaKey(H(p.data), |p.data| % TWO_32)
  }

  function SupplyOne(H: Blob -> Hash, s: Supplied, p: Preimage, t: nat): Supplied {
    var key := KeyOf(H, p);
    if !Solicited(s.given, p.service, key) then s
    else
      var a := s.given[p.service];
      var lookup := Some(a.Lookup()[key.hash := p.data]);
      var meta := Some(a.Meta()[key := [t]]);
      Supplied(s.given[p.service := a.(lookup := if a.lookup.None? then None else lookup,
                                       meta := if a.meta.None? then None else meta)],
               s.clone[p.service := a.(lookup := lookup, meta := meta)])
  }

  function SupplyAll(H: Blob -> Hash, s: Supplied, ps: seq<Preimage>, t: nat): Supplied {
    if ps == [] then s
    else SupplyOne(H, SupplyAll(H, s, ps[..|ps| - 1], t), ps[|ps| - 1], t)
  }

  method CalculateIntermediateServiceState(H: Blob -> Hash, ps: seq<Preimage>, services: map<nat, Account>, t: nat)
    returns (r: map<nat, Account>)
    ensures r == SupplyAll(H, Supplied(services, services), ps, t).clone
  {
    var given: map<nat, Account>, clone: map<nat, Account> := services, services;
    for n := 0 to |ps|
      invariant Supplied(given, clone) == SupplyAll(H, Supplied(services, services), ps[..n], t)
    {
      assert ps[..n + 1][..n] == ps[..n];
      var p := ps[n];
      var key := MetaKey(H(p.data), |p.data| % TWO_32);
      if Solicited(given, p.service, key) {
        var account := given[p.service];
        var wasNil := account.lookup.None?;
        if wasNil { account := account.(lookup := Some(map[])); }
        account := account.(lookup := Some(account.lookup.value[key.hash := p.data]));
        if !wasNil { given := given[p.service := given[p.service].(lookup := account.lookup)]; }
        wasNil := account.meta.None?;
        if wasNil { account := account.(meta := Some(map[])); }
        account := account.(meta := Some(account.meta.value[key := [t]]));
        if !wasNil { given := given[p.service := given[p.service].(meta := account.meta)]; }
        clone := clone[p.service := account];
      }
    }
    assert ps[..|ps|] == ps;
    r := clone;
  }

  // --------------------------------------------------- which preimages are there afterwards

  /** When its turn comes, preimage `i` of the extrinsic is one that the service waits for. */
  ghost predicate Taken(H: Blob -> Hash, services: map<nat, Account>, ps: seq<Preimage>, t: nat, i: nat)
    requires i < |ps|
  {
    Solicited(SupplyAll(H, Supplied(services, services), ps[..i], t).given, ps[i].service, KeyOf(H, ps[i]))
  }

  /** The last preimage taken for service `x`. */
  ghost function LastTaken(H: Blob -> Hash, services: map<nat, Account>, ps: seq<Preimage>, t: nat,
                           x: nat): (r: Option<nat>)
    ensures r.Some? ==> r.value < |ps| && ps[r.value].service == x
  {
    if ps == [] then None
    else
      var n := |ps| - 1;
      if ps[n].service == x && Taken(H, services, ps, t, n) then Some(n) else LastTaken(H, services, ps[..n], t, x)
  }

  lemma TakenInPrefix(H: Blob -> Hash, services: map<nat, Account>, ps: seq<Preimage>, t: nat, m: nat, i: nat)
    requires i < m <= |ps|
    ensures Taken(H, services, ps[..m], t, i) == Taken(H, services, ps, t, i)
  {
    assert ps[..m][..i] == ps[..i];
  }

  /** What supplying leaves of the two maps of service `x`. A map that was there is one map for both
      states; in place of a nil map the clone has one with the last preimage taken and nothing else. */
  ghost predicate MapsAre(H: Blob -> Hash, a: Account, ps: seq<Preimage>, t: nat, last: Option<nat>, given: Account,
                          clone: Account)
    requires last.Some? ==> last.value < |ps|
  {
    && (given.lookup.Some? <==> a.lookup.Some?) && (given.meta.Some? <==> a.meta.Some?)
    && clone.lookup == (if a.lookup.Some? then given.lookup
                        else if last.None? then None
                        else Some(map[H(ps[last.value].data) := ps[last.value].data]))
    && clone.meta == (if a.meta.Some? then given.meta
                      else if last.None? then None
                      else Some(map[KeyOf(H, ps[last.value]) := [t]]))
  }

  lemma {:induction false} MapsFollow(H: Blob -> Hash, services: map<nat, Account>, ps: seq<Preimage>, t: nat, x: nat)
    requires x in services
    ensures var s := SupplyAll(H, Supplied(services, services), ps, t);
            && s.given.Keys == s.clone.Keys == services.Keys
            && MapsAre(H, services[x], ps, t, LastTaken(H, services, ps, t, x), s.given[x], s.clone[x])
  {
    if ps != [] {
      var n := |ps| - 1;
      MapsFollow(H, services, ps[..n], t, x);
      hide Solicited, KeyOf;
    }
  }

  /** In a map that was there, what was taken stays. */
  lemma {:induction false} TakenStays(H: Blob -> Hash, services: map<nat, Account>, ps: seq<Preimage>, t: nat, i: nat)
    requires i < |ps| && Taken(H, services, ps, t, i) && ps[i].service in services
    ensures var s, x := SupplyAll(H, Supplied(services, services), ps, t), ps[i].service;
            && x in s.given
            && (services[x].lookup.Some? ==> Holds(s.given[x].Lookup(), H(ps[i].data), ps[i].data))
            && (services[x].meta.Some? ==> Holds(s.given[x].Meta(), KeyOf(H, ps[i]), [t]))
  {
    var n := |ps| - 1;
    MapsFollow(H, services, ps[..n], t, ps[i].service);
    if i < n {
      TakenInPrefix(H, services, ps, t, n, i);
      TakenStays(H, services, ps[..n], t, i);
    }
    hide KeyOf, LastTaken;
  }

  predicate Holds<K, V(==)>(m: map<K, V>, k: K, v: V) {
    k in m && m[k] == v
  }

  /** A preimage that was taken is in the lookup map afterwards exactly when the service had one, or
      the last preimage taken for the service is the same blob. Its history is there exactly when the
      service had a metadata map, or the last preimage taken has the same key. */
  lemma SuppliedExactlyWhen(H: Blob -> Hash, services: map<nat, Account>, ps: seq<Preimage>, t: nat, i: nat)
    requires i < |ps| && Taken(H, services, ps, t, i)
    ensures ps[i].service in services
    ensures var x := ps[i].service;
            var last := LastTaken(H, services, ps, t, x);
            var after := SupplyAll(H, Supplied(services, services), ps, t).clone;
            && last.Some? && x in after
            && (Holds(after[x].Lookup(), H(ps[i].data), ps[i].data) <==>
                  services[x].lookup.Some? || ps[last.value].data == ps[i].data)
            && (Holds(after[x].Meta(), KeyOf(H, ps[i]), [t]) <==>
                  services[x].meta.Some? || KeyOf(H, ps[last.value]) == KeyOf(H, ps[i]))
  {
    var x := ps[i].service;
    ServicesStay(H, services, ps[..i], t);
    MapsFollow(H, services, ps, t, x);
    TakenStays(H, services, ps, t, i);
    SomeLast(H, services, ps, t, i);
    hide KeyOf, LastTaken, SupplyAll, Taken;
  }

  lemma {:induction false} ServicesStay(H: Blob -> Hash, services: map<nat, Account>, ps: seq<Preimage>, t: nat)
    ensures SupplyAll(H, Supplied(services, services), ps, t).given.Keys == services.Keys
  {
    if ps != [] { ServicesStay(H, services, ps[..|ps| - 1], t); }
  }

  lemma {:induction false} SomeLast(H: Blob -> Hash, services: map<nat, Account>, ps: seq<Preimage>, t: nat, i: nat)
    requires i < |ps| && Taken(H, services, ps, t, i)
    ensures LastTaken(H, services, ps, t, ps[i].service).Some?
  {
    var n := |ps| - 1;
    if i < n {
      TakenInPrefix(H, services, ps, t, n, i);
      hide Taken;
      SomeLast(H, services, ps[..n], t, i);
    }
  }

  /** The given state differs from what it was only where the maps were there, by blobs and histories
      of the extrinsic, and never loses a blob or a history that is not empty. */
  lemma {:induction false} GivenGrows(H: Blob -> Hash, services: map<nat, Account>, ps: seq<Preimage>, t: nat, x: nat,
                                      key: MetaKey)
    requires x in services
    ensures var a, given := services[x], SupplyAll(H, Supplied(services, services), ps, t).given;
            && x in given
            && (key.hash in a.Lookup() ==> key.hash in given[x].Lookup())
            && (key.hash in given[x].Lookup() && key.hash !in a.Lookup() ==>
                  a.lookup.Some? && exists j :: 0 <= j < |ps| && ps[j].service == x && H(ps[j].data) == key.hash)
            && (key in a.Meta() && a.Meta()[key] != [] ==> Holds(given[x].Meta(), key, a.Meta()[key]))
            && (given[x].HistoryOf(key) != a.HistoryOf(key) ==>
                  a.meta.Some? && exists j :: 0 <= j < |ps| && ps[j].service == x && H(ps[j].data) == key.hash)
  {
    ServicesStay(H, services, ps, t);
    if ps != [] {
      var n := |ps| - 1;
      GivenGrows(H, services, ps[..n], t, x, key);
      MapsFollow(H, services, ps[..n], t, x);
      assert forall j :: 0 <= j < n ==> ps[..n][j] == ps[j];
      assert ps[n].service == x && H(ps[n].data) == key.hash ==>
          exists j :: 0 <= j < |ps| && ps[j].service == x && H(ps[j].data) == key.hash;
      hide LastTaken;
    }
  }

  predicate NoCollision(H: Blob -> Hash, ps: seq<Preimage>) {
    forall i, j :: 0 <= i < |ps| && 0 <= j < |ps| && H(ps[i].data) == H(ps[j].data) ==> ps[i].data == ps[j].data
  }

  /** Preimage `i` is not a repetition of an earlier one for its service. */
  predicate FirstOfItsKind(ps: seq<Preimage>, i: nat)
    requires i < |ps|
  {
    forall j :: 0 <= j < i && ps[j].service == ps[i].service ==> ps[j].data != ps[i].data
  }

  lemma NewIsTaken(H: Blob -> Hash, services: map<nat, Account>, ps: seq<Preimage>, t: nat, i: nat)
    requires i < |ps| && NoCollision(H, ps) && Solicited(services, ps[i].service, KeyOf(H, ps[i]))
    requires FirstOfItsKind(ps, i)
             || (services[ps[i].service].lookup.None? && services[ps[i].service].meta.None?)
    ensures Taken(H, services, ps, t, i)
  {
    GivenGrows(H, services, ps[..i], t, ps[i].service, KeyOf(H, ps[i]));
    hide SupplyAll;
  }

  lemma RepeatedIsSkipped(H: Blob -> Hash, services: map<nat, Account>, ps: seq<Preimage>, t: nat, i: nat, j: nat)
    requires j < i < |ps| && ps[j] == ps[i] && Taken(H, services, ps, t, j) && ps[i].service in services
    requires services[ps[i].service].lookup.Some? || services[ps[i].service].meta.Some?
    ensures !Taken(H, services, ps, t, i)
  {
    TakenInPrefix(H, services, ps, t, i, j);
    TakenStays(H, services, ps[..i], t, j);
    hide SupplyAll;
  }

  /** What is taken, in terms of the extrinsic and the given state alone: what the service waits for,
      at its first occurrence. A service with no maps at all forgets what came before. */
  lemma TakenExactlyWhen(H: Blob -> Hash, services: map<nat, Account>, ps: seq<Preimage>, t: nat, i: nat)
    requires i < |ps| && NoCollision(H, ps)
    ensures Taken(H, services, ps, t, i) <==>
            && Solicited(services, ps[i].service, KeyOf(H, ps[i]))
            && (FirstOfItsKind(ps, i)
                || (services[ps[i].service].lookup.None? && services[ps[i].service].meta.None?))
  {
    var x, key := ps[i].service, KeyOf(H, ps[i]);
    ServicesStay(H, services, ps[..i], t);
    if x in services {
      GivenGrows(H, services, ps[..i], t, x, key);
      if Solicited(services, x, key) {
        if FirstOfItsKind(ps, i) || (services[x].lookup.None? && services[x].meta.None?) {
          NewIsTaken(H, services, ps, t, i);
        } else {
          var j := FirstLike(ps, i);
          hide Taken, Solicited, SupplyAll;
          NewIsTaken(H, services, ps, t, j);
          RepeatedIsSkipped(H, services, ps, t, i, j);
        }
      }
    }
  }

  lemma {:induction false} FirstLike(ps: seq<Preimage>, i: nat) returns (j: nat)
    requires i < |ps|
    ensures j <= i && ps[j] == ps[i] && FirstOfItsKind(ps, j)
  {
    j := i;
    if !FirstOfItsKind(ps, i) {
      var k :| 0 <= k < i && ps[k].service == ps[i].service && ps[k].data == ps[i].data;
      j := FirstLike(ps, k);
    }
  }

  /** A service that `New` made and that solicited two preimages: both are taken and both histories
      say so, but the first blob is gone. */
  lemma LostPreimageExample(H: Blob -> Hash, a: Account, ps: seq<Preimage>, t: nat)
    requires H([7]) != H([7, 8]) && ps == [Preimage(5, [7]), Preimage(5, [7, 8])]
    requires a.lookup == None && a.meta == Some(map[KeyOf(H, ps[0]) := [], KeyOf(H, ps[1]) := []])
    ensures Taken(H, map[5 := a], ps, t, 0) && Taken(H, map[5 := a], ps, t, 1)
    ensures var after := SupplyAll(H, Supplied(map[5 := a], map[5 := a]), ps, t).clone;
            && 5 in after && after[5].HistoryOf(KeyOf(H, ps[0])) == after[5].HistoryOf(KeyOf(H, ps[1])) == Some([t])
            && H([7]) !in after[5].Lookup() && Holds(after[5].Lookup(), H([7, 8]), [7, 8])
  {
    var services := map[5 := a];
    NewIsTaken(H, services, ps, t, 0);
    NewIsTaken(H, services, ps, t, 1);
    SuppliedExactlyWhen(H, services, ps, t, 0);
    SuppliedExactlyWhen(H, services, ps, t, 1);
    MapsFollow(H, services, ps, t, 5);
    hide Taken, SupplyAll;
  }

  // ------------------------------------------------------- histories over all runs

  ghost function HistoryAt(services: map<nat, Account>, s: nat, key: MetaKey): Option<History> {
    if s in services then services[s].HistoryOf(key) else None
  }

  lemma HistoryAtIs(services: map<nat, Account>, s: nat, key: MetaKey)
    ensures HistoryAt(services, s, key).Some? <==> s in services && key in services[s].Meta()
    ensures HistoryAt(services, s, key).Some? ==> HistoryAt(services, s, key).value == services[s].Meta()[key]
  {
  }

  /** The clone and the given state have one metadata map, unless it is nil in the given state; then
      the clone records nothing but supplies at `t`. */
  ghost predicate SameHistories(s: Supplied, t: nat) {
    && s.given.Keys == s.clone.Keys
    && forall x: nat :: x in s.given ==>
      || s.given[x].meta == s.clone[x].meta
      || (s.given[x].meta.None? && forall k :: k in s.clone[x].Meta() ==> s.clone[x].Meta()[k] == [t])
  }

  lemma SupplyOneKeeps(H: Blob -> Hash, s: Supplied, p: Preimage, t: nat)
    requires SameHistories(s, t)
    ensures SameHistories(SupplyOne(H, s, p, t), t) && SupplyOne(H, s, p, t).clone.Keys == s.clone.Keys
  {
  }

  /** A history that says nothing about the time before `t`. */
  predicate Blank(h: Option<History>, t: nat) {
    h == None || h == Some([]) || h == Some([t])
  }

  /** Supplying changes only histories that say nothing about the time before `t`, and they still say
      nothing about it. */
  lemma SupplyOneActs(H: Blob -> Hash, s: Supplied, p: Preimage, t: nat, x: nat, key: MetaKey)
    requires SameHistories(s, t)
    ensures var before, after := HistoryAt(s.clone, x, key), HistoryAt(SupplyOne(H, s, p, t).clone, x, key);
            after == before || (Blank(before, t) && Blank(after, t))
  {
  }

  lemma {:induction false} SupplyAllActs(H: Blob -> Hash, s: Supplied, ps: seq<Preimage>, t: nat, x: nat,
      key: MetaKey, q: nat)
    requires SameHistories(s, t) && q < t
    ensures SameHistories(SupplyAll(H, s, ps, t), t) && SupplyAll(H, s, ps, t).clone.Keys == s.clone.Keys
    ensures Available(HistoryAt(SupplyAll(H, s, ps, t).clone, x, key), q) == Available(HistoryAt(s.clone, x, key), q)
  {
    assert forall h: Option<History> :: Blank(h, t) ==> !Available(h, q);
    hide SupplyOne, Available, HistoryAt, Blank;
    if ps != [] {
      var n := |ps| - 1;
      SupplyAllActs(H, s, ps[..n], t, x, key, q);
      SupplyOneKeeps(H, SupplyAll(H, s, ps[..n], t), ps[n], t);
      SupplyOneActs(H, SupplyAll(H, s, ps[..n], t), ps[n], t, x, key);
    }
  }

  datatype LedgerEvent = ByCall(caller: nat, call: Call) | BySupply(preimages: seq<Preimage>, time: nat)

  ghost function AfterEvent(H: Blob -> Hash, l: Ledger, e: LedgerEvent): Ledger {
    match e
    case ByCall(caller, call) => if Callable(l, caller, call) then Performed(l, caller, call) else l
    case BySupply(ps, t) => l.(services := SupplyAll(H, Supplied(l.services, l.services), ps, t).clone)
  }

  /** The event happens inside the window of a query at `q`; calls that carry no time always do. */
  predicate InWindow(e: LedgerEvent, q: nat) {
    match e
    case ByCall(_, SolicitCall(_, t)) => EXPUNGE_PERIOD <= t && q < t <= q + EXPUNGE_PERIOD
    case ByCall(_, ForgetCall(_, t)) => EXPUNGE_PERIOD <= t && q < t <= q + EXPUNGE_PERIOD
    case ByCall(_, _) => true
    case BySupply(_, t) => q < t
  }

  lemma CallKeepsAnswer(l: Ledger, caller: nat, call: Call, s: nat, key: MetaKey, q: nat)
    requires Callable(l, caller, call) && InWindow(ByCall(caller, call), q)
    requires s in l.services && s in Performed(l, caller, call).services
    ensures Available(HistoryAt(Performed(l, caller, call).services, s, key), q)
            == Available(HistoryAt(l.services, s, key), q)
  {
    hide Available, AfterForget, AfterSolicit, CheckIndex, HasFree, Threshold;
    var h := HistoryAt(l.services, s, key);
    match call
    case New(_, _, _, _) =>
      if CanPay(l.services[caller]) { NewNeverOverwrites(l, caller, call); }
    case Upgrade(_, _, _) =>
    case SolicitCall(_, t) => StepKeepsAnswer(Solicit, h, t, q);
    case ForgetCall(_, t) => StepKeepsAnswer(Forget, h, t, q);
    case Eject(_, _, _) =>
  }

  ghost function LedgerRun(H: Blob -> Hash, l: Ledger, events: seq<LedgerEvent>): Ledger {
    if events == [] then l
    else AfterEvent(H, LedgerRun(H, l, events[..|events| - 1]), events[|events| - 1])
  }

  /** A run is its events one after the other: calls that can be made, and extrinsics. */
  lemma LedgerRunIs(H: Blob -> Hash, l: Ledger, events: seq<LedgerEvent>, e: LedgerEvent)
    ensures LedgerRun(H, l, []) == l
    ensures var before, after := LedgerRun(H, l, events), LedgerRun(H, l, events + [e]);
            && (e.ByCall? && Callable(before, e.caller, e.call) ==> after == Performed(before, e.caller, e.call))
            && (e.ByCall? && !Callable(before, e.caller, e.call) ==> after == before)
            && (e.BySupply? ==>
                  && after.next == before.next
                  && after.services ==
                       SupplyAll(H, Supplied(before.services, before.services), e.preimages, e.time).clone)
  {
    assert (events + [e])[..|events|] == events;
    hide Performed, Callable, SupplyAll;
  }

  /** Over every run of calls by any services and of supplied preimages, whatever the history of
      a preimage says about a past timeslot stays as it was while that timeslot is within the
      window, as long as its service is not ejected. */
  lemma {:induction false} AnswersAreStable(H: Blob -> Hash, l: Ledger, events: seq<LedgerEvent>, s: nat,
      key: MetaKey, q: nat)
    requires forall n :: 0 <= n < |events| ==> InWindow(events[n], q)
    requires forall n :: 0 <= n <= |events| ==> s in LedgerRun(H, l, events[..n]).services
    ensures Available(HistoryAt(LedgerRun(H, l, events).services, s, key), q)
            == Available(HistoryAt(l.services, s, key), q)
  {
    hide Available, HistoryAt, Performed, SupplyAll, InWindow, Callable;
    if events != [] {
      var n := |events| - 1;
      var before := LedgerRun(H, l, events[..n]);
      forall k | 0 <= k <= n ensures s in LedgerRun(H, l, events[..n][..k]).services {
        assert events[..n][..k] == events[..k];
      }
      AnswersAreStable(H, l, events[..n], s, key, q);
      assert events[..|events|] == events;
      EventKeepsAnswer(H, before, events[n], s, key, q);
    }
  }

  lemma EventKeepsAnswer(H: Blob -> Hash, l: Ledger, e: LedgerEvent, s: nat, key: MetaKey, q: nat)
    requires InWindow(e, q) && s in l.services && s in AfterEvent(H, l, e).services
    ensures Available(HistoryAt(AfterEvent(H, l, e).services, s, key), q)
            == Available(HistoryAt(l.services, s, key), q)
  {
    hide Available, HistoryAt, Performed, SupplyAll, Callable;
    match e
    case ByCall(caller, call) => if Callable(l, caller, call) { CallKeepsAnswer(l, caller, call, s, key, q); }
    case BySupply(ps, t) => SupplyAllActs(H, Supplied(l.services, l.services), ps, t, s, key, q);
  }

  // ------------------------------------------------- available until forgotten, over all runs

  /** The preimage is available at `t` and ever after. */
  ghost predicate AvailableFrom(h: Option<History>, t: nat) {
    forall q: nat :: q >= t ==> Available(h, q)
  }

  /** The event solicits the preimage for the service, or supplies it. */
  predicate AsksFor(H: Blob -> Hash, e: LedgerEvent, s: nat, key: MetaKey) {
    match e
    case ByCall(caller, SolicitCall(k, _)) => caller == s && k == key
    case ByCall(_, _) => false
    case BySupply(ps, _) => exists i :: 0 <= i < |ps| && ps[i].service == s && KeyOf(H, ps[i]) == key
  }

  predicate Forgets(e: LedgerEvent, s: nat, key: MetaKey) {
    e.ByCall? && e.caller == s && e.call.ForgetCall? && e.call.key == key
  }

  /** Supplying other preimages, or the preimage to others, leaves its history. */
  lemma {:induction false} SupplyLeaves(H: Blob -> Hash, services: map<nat, Account>, ps: seq<Preimage>, t: nat,
                                        x: nat, key: MetaKey)
    requires forall i :: 0 <= i < |ps| && ps[i].service == x ==> KeyOf(H, ps[i]) != key
    ensures var s := SupplyAll(H, Supplied(services, services), ps, t);
            HistoryAt(s.given, x, key) == HistoryAt(s.clone, x, key) == HistoryAt(services, x, key)
  {
    if ps != [] {
      SupplyLeaves(H, services, ps[..|ps| - 1], t, x, key);
      hide KeyOf;
    }
  }

  /** Supplying never touches a history with entries. */
  lemma {:induction false} SupplyLeavesFilled(H: Blob -> Hash, services: map<nat, Account>, ps: seq<Preimage>, t: nat,
                                              x: nat, key: MetaKey)
    requires HistoryAt(services, x, key).Some? && HistoryAt(services, x, key).value != []
    ensures var s := SupplyAll(H, Supplied(services, services), ps, t);
            HistoryAt(s.given, x, key) == HistoryAt(s.clone, x, key) == HistoryAt(services, x, key)
  {
    if ps != [] { SupplyLeavesFilled(H, services, ps[..|ps| - 1], t, x, key); }
  }

  /** What an event that does not ask for a preimage does to its history. */
  lemma EventOnHistory(H: Blob -> Hash, l: Ledger, e: LedgerEvent, s: nat, key: MetaKey)
    requires !AsksFor(H, e, s, key)
    ensures var h, after := HistoryAt(l.services, s, key), HistoryAt(AfterEvent(H, l, e).services, s, key);
            after == h || after == None || after == Some([])
            || (Forgets(e, s, key) && after == AfterForget(h, e.call.time))
  {
    match e
    case BySupply(ps, t) => SupplyLeaves(H, l.services, ps, t, s, key);
    case ByCall(caller, call) =>
      if Callable(l, caller, call) {
        hide AfterForget, AfterSolicit, CheckIndex, HasFree, Threshold, EjectCode, Callable;
        if call.New? && CanPay(l.services[caller]) {
          NewNeverOverwrites(l, caller, call);
          NewMeans(l, caller, call);
          hide Performed, CanPay, Answer;
        }
      }
  }

  /** Over every run in which it is neither solicited nor supplied, a preimage that is not available from
      `t` on stays so. */
  lemma {:induction false} ForgottenUntilAsked(H: Blob -> Hash, l: Ledger, events: seq<LedgerEvent>, s: nat,
                                               key: MetaKey, t: nat)
    requires forall q: nat :: q >= t ==> !Available(HistoryAt(l.services, s, key), q)
    requires forall n :: 0 <= n < |events| ==> !AsksFor(H, events[n], s, key)
    ensures forall q: nat :: q >= t ==> !Available(HistoryAt(LedgerRun(H, l, events).services, s, key), q)
  {
    if events != [] {
      hide AfterEvent, AsksFor, HistoryAt, AfterForget, Forgets;
      var n := |events| - 1;
      ForgottenUntilAsked(H, l, events[..n], s, key, t);
      var before := LedgerRun(H, l, events[..n]);
      EventOnHistory(H, before, events[n], s, key);
      if Forgets(events[n], s, key) {
        ForgetsIsCall(events[n], s, key);
        ForgottenStays(HistoryAt(before.services, s, key), t, events[n].call.time);
      }
    }
  }

  lemma ForgetsIsCall(e: LedgerEvent, s: nat, key: MetaKey)
    requires Forgets(e, s, key)
    ensures e == ByCall(s, ForgetCall(key, e.call.time))
  {
  }

  /** So after an accepted Forget at `t` the preimage is not available at any `q >= t` until it is solicited
      or supplied again. */
  lemma ForgetForgets(H: Blob -> Hash, l: Ledger, s: nat, key: MetaKey, t: nat, events: seq<LedgerEvent>, q: nat)
    requires Callable(l, s, ForgetCall(key, t)) && Answer(l, s, ForgetCall(key, t)) == Returned(OK) && q >= t
    requires forall n :: 0 <= n < |events| ==> !AsksFor(H, events[n], s, key)
    ensures !Available(HistoryAt(LedgerRun(H, Performed(l, s, ForgetCall(key, t)), events).services, s, key), q)
  {
    var after := Performed(l, s, ForgetCall(key, t));
    var h := HistoryAt(l.services, s, key);
    assert HistoryAt(after.services, s, key) == AfterForget(h, t);
    hide LedgerRun, HistoryAt, Performed, AfterForget, AsksFor, Available;
    forall q': nat | q' >= t ensures !Available(AfterForget(h, t), q') { ForgetMeans(h, t, q'); }
    ForgottenUntilAsked(H, after, events, s, key, t);
  }

  /** An event that does not forget a preimage which is available from `t` on leaves its history. */
  lemma EventLeavesAvailable(H: Blob -> Hash, l: Ledger, e: LedgerEvent, s: nat, key: MetaKey, t: nat)
    requires AvailableFrom(HistoryAt(l.services, s, key), t) && !Forgets(e, s, key)
    requires s in AfterEvent(H, l, e).services
    ensures HistoryAt(AfterEvent(H, l, e).services, s, key) == HistoryAt(l.services, s, key)
  {
    AvailableIsRecorded(HistoryAt(l.services, s, key), t);
    match e
    case BySupply(ps, time) => SupplyLeavesFilled(H, l.services, ps, time, s, key);
    case ByCall(caller, call) =>
      if Callable(l, caller, call) {
        if call.SolicitCall? { AvailableStays(HistoryAt(l.services, s, key), t, call.time, false); }
        hide AfterForget, AfterSolicit, CheckIndex, HasFree, Threshold, EjectCode, Callable, AvailableFrom;
        if call.New? && CanPay(l.services[caller]) { NewNeverOverwrites(l, caller, call); }
      }
  }

  lemma AvailableIsRecorded(h: Option<History>, t: nat)
    requires AvailableFrom(h, t)
    ensures h.Some? && h.value != []
  {
    assert Available(h, t);
  }

  /** Over every run in which it is not forgotten and its service not ejected, a preimage that is available
      from `t` on stays so, whatever is solicited and supplied. */
  lemma {:induction false} AvailableUntilForgotten(H: Blob -> Hash, l: Ledger, events: seq<LedgerEvent>, s: nat,
                                                   key: MetaKey, t: nat)
    requires AvailableFrom(HistoryAt(l.services, s, key), t)
    requires forall n :: 0 <= n < |events| ==> !Forgets(events[n], s, key)
    requires forall n :: 0 <= n <= |events| ==> s in LedgerRun(H, l, events[..n]).services
    ensures HistoryAt(LedgerRun(H, l, events).services, s, key) == HistoryAt(l.services, s, key)
    ensures AvailableFrom(HistoryAt(LedgerRun(H, l, events).services, s, key), t)
  {
    if events != [] {
      hide AfterEvent, HistoryAt, Forgets, AvailableFrom;
      var n := |events| - 1;
      forall k | 0 <= k <= n ensures s in LedgerRun(H, l, events[..n][..k]).services {
        assert events[..n][..k] == events[..k];
      }
      AvailableUntilForgotten(H, l, events[..n], s, key, t);
      assert events[..|events|] == events;
      EventLeavesAvailable(H, LedgerRun(H, l, events[..n]), events[n], s, key, t);
    }
  }

  // ------------------------------------------------------------- well-formed over all runs

  ghost predicate AllWellFormed(services: map<nat, Account>, now: nat) {
    forall s: nat, key :: s in services ==> WellFormed(HistoryAt(services, s, key), now)
  }

  /** The event happens at `t`; calls that carry no time happen at any. */
  predicate HappensAt(e: LedgerEvent, t: nat) {
    match e
    case ByCall(_, SolicitCall(_, time)) => time == t
    case ByCall(_, ForgetCall(_, time)) => time == t
    case ByCall(_, _) => true
    case BySupply(_, time) => time == t
  }

  lemma LaterIsWellFormed(h: Option<History>, now: nat, t: nat)
    requires WellFormed(h, now) && now <= t
    ensures WellFormed(h, t)
  {
  }

  lemma CallKeepsWellFormed(l: Ledger, caller: nat, call: Call, now: nat, t: nat, s: nat, key: MetaKey)
    requires Callable(l, caller, call) && HappensAt(ByCall(caller, call), t) && now <= t
    requires AllWellFormed(l.services, now) && s in Performed(l, caller, call).services
    ensures WellFormed(HistoryAt(Performed(l, caller, call).services, s, key), t)
  {
    hide WellFormed, AfterForget, AfterSolicit, CheckIndex, HasFree, Threshold, EjectCode;
    var h := HistoryAt(l.services, s, key);
    NothingIsWellFormed(t);
    if s in l.services { LaterIsWellFormed(h, now, t); }
    match call
    case New(_, _, _, _) =>
      if CanPay(l.services[caller]) { NewNeverOverwrites(l, caller, call); }
    case Upgrade(_, _, _) =>
    case SolicitCall(_, _) => StepKeepsWellFormed(Solicit, h, now, t);
    case ForgetCall(_, _) => StepKeepsWellFormed(Forget, h, now, t);
    case Eject(_, _, _) =>
  }

  lemma NothingIsWellFormed(t: nat)
    ensures WellFormed(None, t) && WellFormed(Some([]), t) && WellFormed(Some([t]), t)
  {
  }

  lemma {:induction false} SupplyKeepsWellFormed(H: Blob -> Hash, s: Supplied, ps: seq<Preimage>, now: nat, t: nat,
      x: nat, key: MetaKey)
    requires SameHistories(s, t) && AllWellFormed(s.clone, now) && now <= t
    ensures SameHistories(SupplyAll(H, s, ps, t), t) && SupplyAll(H, s, ps, t).clone.Keys == s.clone.Keys
    ensures x in s.clone ==> WellFormed(HistoryAt(SupplyAll(H, s, ps, t).clone, x, key), t)
  {
    hide SupplyOne, WellFormed, HistoryAt;
    NothingIsWellFormed(t);
    if ps == [] {
      if x in s.clone { LaterIsWellFormed(HistoryAt(s.clone, x, key), now, t); }
    } else {
      var n := |ps| - 1;
      SupplyKeepsWellFormed(H, s, ps[..n], now, t, x, key);
      SupplyOneKeeps(H, SupplyAll(H, s, ps[..n], t), ps[n], t);
      SupplyOneActs(H, SupplyAll(H, s, ps[..n], t), ps[n], t, x, key);
    }
  }

  lemma EventKeepsWellFormed(H: Blob -> Hash, l: Ledger, e: LedgerEvent, now: nat, t: nat)
    requires AllWellFormed(l.services, now) && now <= t && HappensAt(e, t)
    ensures AllWellFormed(AfterEvent(H, l, e).services, t)
  {
    hide WellFormed, HistoryAt, Performed, SupplyAll, Callable;
    var after := AfterEvent(H, l, e).services;
    forall s: nat, key | s in after ensures WellFormed(HistoryAt(after, s, key), t) {
      match e
      case ByCall(caller, call) =>
        if Callable(l, caller, call) { CallKeepsWellFormed(l, caller, call, now, t, s, key); }
        else { LaterIsWellFormed(HistoryAt(l.services, s, key), now, t); }
      case BySupply(ps, _) => SupplyKeepsWellFormed(H, Supplied(l.services, l.services), ps, now, t, s, key);
    }
  }

  /** Over every run with a clock that never goes back, every history of every service stays
      ascending, with at most three entries and none in the future. */
  lemma {:induction false} HistoriesStayWellFormed(H: Blob -> Hash, l: Ledger, events: seq<LedgerEvent>,
      clock: seq<nat>, start: nat)
    requires |clock| == |events| && AllWellFormed(l.services, start)
    requires forall n :: 0 <= n < |events| ==> HappensAt(events[n], clock[n]) && start <= clock[n]
    requires forall i, j :: 0 <= i < j < |clock| ==> clock[i] <= clock[j]
    ensures AllWellFormed(LedgerRun(H, l, events).services, if clock == [] then start else clock[|clock| - 1])
  {
    hide AllWellFormed, AfterEvent, HappensAt;
    if events != [] {
      var n := |events| - 1;
      HistoriesStayWellFormed(H, l, events[..n], clock[..n], start);
      EventKeepsWellFormed(H, LedgerRun(H, l, events[..n]), events[n], if n == 0 then start
          else clock[n - 1], clock[n]);
    }
  }
}
