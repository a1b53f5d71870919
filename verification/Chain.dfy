/** Chain heads: a store of headers by hash, the set of known leaves kept up to date header by header,
    and the latest finalized block. Hashing a header is a parameter. */
module Chain {
  import opened Bytes
  import opened Hashing

  const GENESIS_PARENT := Hash(1)
  const GENERATIONS := 6

  datatype Header = Header(parent: Hash, slot: nat, rest: int)

  const GENESIS := Header(GENESIS_PARENT, 1, 0)

  type Hasher = Header -> Hash

  type Store = map<Hash, Header>

  datatype State = State(store: Store, leaves: map<Hash, nat>, finalized: Hash, finalizedSlot: nat)

  datatype Verdict = Accepted | ParentMissing | NotDescendant

  // ------------------------------------------------------------------------------ what is kept

  /** Parents have a lower rank than their children. */
  ghost predicate Ranked(store: Store, rank: map<Hash, nat>) {
    && (forall x :: x in store ==> x in rank)
    && (forall x :: x in store && store[x].parent in store ==> rank[store[x].parent] < rank[x])
  }

  /** Following parents never goes round in a circle. */
  ghost predicate Founded(store: Store) {
    exists rank :: Ranked(store, rank)
  }

  ghost function Height(store: Store, x: Hash): nat
    requires Founded(store)
  {
    var rank :| Ranked(store, rank);
    if x in store then rank[x] + 1 else 0
  }

  /** Every header is stored under its hash. */
  ghost predicate Keyed(H: Hasher, store: Store) {
    forall x :: x in store ==> H(store[x]) == x
  }

  /** Parents are stored, all the way down to genesis. */
  ghost predicate Closed(H: Hasher, store: Store) {
    && H(GENESIS) in store && store[H(GENESIS)] == GENESIS
    && GENESIS_PARENT !in store
    && (forall x :: x in store && x != H(GENESIS) ==> store[x].parent in store)
  }

  ghost predicate HasChild(store: Store, x: Hash) {
    exists y :: y in store && store[y].parent == x
  }

  /** The known leaves are exactly the stored headers, other than genesis, with no stored child. */
  ghost predicate LeavesExact(H: Hasher, c: State) {
    && (forall x :: x in c.leaves <==> x in c.store && x != H(GENESIS) && !HasChild(c.store, x))
    && (forall x :: x in c.leaves && x in c.store ==> c.leaves[x] == c.store[x].slot)
  }

  ghost predicate Sound(H: Hasher, c: State) {
    && Founded(c.store) && Keyed(H, c.store) && Closed(H, c.store)
    && c.finalized in c.store && c.store[c.finalized].slot == c.finalizedSlot
  }

  // ------------------------------------------------------------------------------- descendants

  /** Following parents from `x` leads to `target`. */
  ghost predicate Descends(store: Store, x: Hash, target: Hash)
    requires Founded(store)
    decreases Height(store, x)
  {
    x == target || (x in store && store[x].parent in store && Descends(store, store[x].parent, target))
  }

  /** The first header at or below `slot` on the way back from `x`, if the way does not end first. */
  ghost function Stop(store: Store, x: Hash, slot: nat): Option<Hash>
    requires Founded(store)
    decreases Height(store, x)
  {
    if x !in store then None
    else if store[x].slot <= slot then Some(x)
    else if store[x].parent !in store then None
    else Stop(store, store[x].parent, slot)
  }

  /** Following parents from `x` leads to `target`, and everything before it is above `slot`. */
  ghost predicate DescendsAbove(store: Store, x: Hash, target: Hash, slot: nat)
    requires Founded(store)
    decreases Height(store, x)
  {
    x == target
    || (x in store && store[x].slot > slot && store[x].parent in store
        && DescendsAbove(store, store[x].parent, target, slot))
  }

  /** The walk stops at a block at or below the slot exactly when it is reached without passing
      another such block. */
  lemma {:induction false} StopIsDescent(store: Store, x: Hash, target: Hash, slot: nat)
    requires Founded(store) && x in store && target in store && store[target].slot <= slot
    ensures Stop(store, x, slot) == Some(target) <==> DescendsAbove(store, x, target, slot)
    decreases Height(store, x)
  {
    if store[x].slot > slot && store[x].parent in store { StopIsDescent(store, store[x].parent, target, slot); }
  }

  /** Slots grow from parent to child. */
  ghost predicate SlotsGrow(store: Store) {
    forall x :: x in store && store[x].parent in store ==> store[store[x].parent].slot < store[x].slot
  }

  /** Where slots grow, going back to a block passes only later ones. */
  lemma {:induction false} DescentIsAbove(store: Store, x: Hash, target: Hash)
    requires Founded(store) && SlotsGrow(store) && x in store && target in store
    ensures Descends(store, x, target) <==> DescendsAbove(store, x, target, store[target].slot)
    ensures Descends(store, x, target) && x != target ==> store[target].slot < store[x].slot
    decreases Height(store, x)
  {
    if store[x].parent in store { DescentIsAbove(store, store[x].parent, target); }
  }

  // ----------------------------------------------------------------------------- finalization

  /** The header `n` generations above `x`, if all up to it are stored. */
  function Ancestor(store: Store, x: Hash, n: nat): Option<Hash>
    decreases n
  {
    if x !in store then None
    else if n == 0 then Some(x)
    else Ancestor(store, store[x].parent, n - 1)
  }

  lemma {:induction false} AncestorIs(store: Store, x: Hash, n: nat)
    requires Founded(store) && Ancestor(store, x, n).Some?
    ensures x in store && Ancestor(store, x, n).value in store
    ensures Descends(store, x, Ancestor(store, x, n).value)
    ensures Height(store, Ancestor(store, x, n).value) <= Height(store, x)
    ensures n > 0 ==> HasChild(store, Ancestor(store, x, n).value)
    decreases n
  {
    if n > 0 { AncestorIs(store, store[x].parent, n - 1); }
  }

  // ---------------------------------------------------------------------------- one new header

  /** What the walk by slots decides, for any header. */
  ghost predicate Accepts(H: Hasher, c: State, h: Header)
    requires Founded(c.store)
  {
    if h.slot > c.finalizedSlot then Stop(c.store, h.parent, c.finalizedSlot) == Some(c.finalized)
    else h.slot == c.finalizedSlot && H(h) == c.finalized
  }

  /** A header whose hash is taken is the one stored there. */
  predicate SameIfStored(H: Hasher, c: State, h: Header) {
    H(h) in c.store ==> c.store[H(h)] == h
  }

  predicate Fresh(H: Hasher, c: State, h: Header) {
    H(h) !in c.store && H(h) != GENESIS_PARENT
  }

  /** If the header is accepted, it is not genesis and nothing stored is built on it; it may be stored
      already. */
  ghost predicate Childless(H: Hasher, c: State, h: Header)
    requires Founded(c.store)
  {
    && H(h) != GENESIS_PARENT && SameIfStored(H, c, h)
    && (Accepts(H, c, h) ==> H(h) != H(GENESIS) && !HasChild(c.store, H(h)))
  }

  function AfterAccepting(H: Hasher, c: State, h: Header): State {
    var store := c.store[H(h) := h];
    var leaves := (c.leaves - {h.parent})[H(h) := h.slot];
    match Ancestor(store, h.parent, GENERATIONS - 1)
    case None => State(store, leaves, c.finalized, c.finalizedSlot)
    case Some(f) =>
      if f in store then State(store, leaves - {f}, f, store[f].slot)
      else State(store, leaves, c.finalized, c.finalizedSlot)
  }

  ghost function AfterHeader(H: Hasher, c: State, h: Header): State
    requires Founded(c.store)
  {
    if Accepts(H, c, h) then AfterAccepting(H, c, h) else c
  }

  class BlockService {
    const hash: Hasher
    var store: Store
    var leaves: map<Hash, nat>
    var finalized: Hash
    var finalizedSlot: nat

    function Value(): State
      reads this
    {
      State(store, leaves, finalized, finalizedSlot)
    }

    constructor (hash: Hasher)
      requires hash(GENESIS) != GENESIS_PARENT
      ensures this.hash == hash && Value() == Initial(hash)
      ensures Sound(hash, Value()) && LeavesExact(hash, Value())
    {
      this.hash := hash;
      store, leaves := map[hash(GENESIS) := GENESIS], map[];
      finalized, finalizedSlot := hash(GENESIS), GENESIS.slot;
      new;
      InitialIsSound(hash);
    }

    /** Walks back from the header while its slot is above the finalized one. */
    method IsDescendantOfFinalized(header: Header) returns (v: Verdict)
      requires Sound(hash, Value())
      ensures v == Accepted <==> Accepts(hash, Value(), header)
      ensures v == ParentMissing <==>
                header.slot > finalizedSlot && Stop(store, header.parent, finalizedSlot) == None
    {
      if header.slot > finalizedSlot {
        if header.parent !in store { return ParentMissing; }
        var x := header.parent;
        while store[x].slot > finalizedSlot
          invariant x in store
          invariant Stop(store, header.parent, finalizedSlot) == Stop(store, x, finalizedSlot)
          decreases Height(store, x)
        {
          if store[x].parent !in store { return ParentMissing; }
          x := store[x].parent;
        }
        if store[x].slot == finalizedSlot {
          return if hash(store[x]) == finalized then Accepted else NotDescendant;
        }
        return NotDescendant;
      }
      if header.slot == finalizedSlot {
        return if hash(header) == finalized then Accepted else NotDescendant;
      }
      v := NotDescendant;
    }

    method CheckFinalization(x: Hash)
      requires Keyed(hash, store)
      modifies this
      ensures match Ancestor(old(store), x, GENERATIONS - 1)
              case None => Value() == old(Value())
              case Some(f) => f in old(store) && Value() == State(old(store), old(leaves) - {f}, f, old(store)[f].slot)
    {
      var current := x;
      var last := GENESIS;
      for i := 0 to GENERATIONS
        invariant Value() == old(Value())
        invariant i < GENERATIONS ==>
                    Ancestor(store, x, GENERATIONS - 1) == Ancestor(store, current, GENERATIONS - 1 - i)
        invariant i == GENERATIONS ==>
                    && Ancestor(store, x, GENERATIONS - 1) == Some(hash(last))
                    && hash(last) in store && store[hash(last)] == last
      {
        if current !in store { return; }
        last := store[current];
        current := last.parent;
      }
      leaves := leaves - {hash(last)};
      finalized, finalizedSlot := hash(last), last.slot;
    }

    method HandleNewHeader(header: Header) returns (v: Verdict)
      requires Sound(hash, Value()) && SameIfStored(hash, Value(), header)
      modifies this
      ensures v == Accepted <==> Accepts(hash, old(Value()), header)
      ensures Value() == AfterHeader(hash, old(Value()), header)
    {
      v := IsDescendantOfFinalized(header);
      if v != Accepted { return; }
      store := store[hash(header) := header];
      leaves := leaves - {header.parent};
      leaves := leaves[hash(header) := header.slot];
      CheckFinalization(header.parent);
    }
  }

  ghost function Initial(H: Hasher): State {
    State(map[H(GENESIS) := GENESIS], map[], H(GENESIS), GENESIS.slot)
  }

  lemma InitialIsSound(H: Hasher)
    requires H(GENESIS) != GENESIS_PARENT
    ensures Sound(H, Initial(H)) && LeavesExact(H, Initial(H))
  {
    assert Ranked(Initial(H).store, map[H(GENESIS) := 0]);
  }

  // ------------------------------------------------------------- what the walk decides, and when

  /** A slot that exceeds the parent's. */
  predicate Later(c: State, h: Header) {
    h.parent in c.store ==> c.store[h.parent].slot < h.slot
  }

  /** For any header: it is accepted exactly when it is the finalized block, or leads back to it past
      nothing but blocks of later slots. */
  lemma AcceptsExactlyWhen(H: Hasher, c: State, h: Header)
    requires Sound(H, c) && SameIfStored(H, c, h)
    ensures Accepts(H, c, h) <==>
            || H(h) == c.finalized
            || (h.slot > c.finalizedSlot && h.parent in c.store
                && DescendsAbove(c.store, h.parent, c.finalized, c.finalizedSlot))
  {
    hide Closed;
    if h.parent in c.store { StopIsDescent(c.store, h.parent, c.finalized, c.finalizedSlot); }
  }

  /** Where slots grow along the chain, the walk by slots accepts exactly the descendants of the
      latest finalized block, and that block itself. */
  lemma AcceptsDescendants(H: Hasher, c: State, h: Header)
    requires Sound(H, c) && SameIfStored(H, c, h) && SlotsGrow(c.store) && Later(c, h)
    ensures Accepts(H, c, h) <==>
            H(h) == c.finalized || (h.parent in c.store && Descends(c.store, h.parent, c.finalized))
  {
    AcceptsExactlyWhen(H, c, h);
    hide Closed, Accepts;
    if h.parent in c.store { DescentIsAbove(c.store, h.parent, c.finalized); }
  }

  /** A hash for the examples. */
  function SlotHash(h: Header): Hash {
    Hash(h.slot + 5)
  }

  /** Genesis, a block of slot 15, its child of slot 16 and a child of that of slot 12. */
  function SlowStore(): Store {
    map[Hash(6) := GENESIS, Hash(20) := Header(Hash(6), 15, 0), Hash(21) := Header(Hash(20), 16, 0),
        Hash(17) := Header(Hash(21), 12, 0)]
  }

  lemma SlowStoreIsFounded()
    ensures Founded(SlowStore())
  {
    var rank := map[Hash(6) := 0, Hash(20) := 1, Hash(21) := 2, Hash(17) := 3];
    assert SlowStore().Keys == {Hash(6), Hash(20), Hash(21), Hash(17)};
    assert Ranked(SlowStore(), rank);
  }

  lemma SlowStoreIsClosed()
    ensures Keyed(SlotHash, SlowStore()) && Closed(SlotHash, SlowStore())
  {
    assert SlowStore().Keys == {Hash(6), Hash(20), Hash(21), Hash(17)};
  }

  /** With the block of slot 15 finalized, a header of slot 20 on the one of slot 12 descends from it
      and is refused, because the walk stops at slot 12. */
  lemma RefusedDescendantExample() returns (c: State, next: Header)
    ensures c.store == SlowStore() && c.finalizedSlot == 15 && next.slot == 20
    ensures Sound(SlotHash, c) && SameIfStored(SlotHash, c, next)
    ensures Descends(c.store, next.parent, c.finalized) && !Accepts(SlotHash, c, next)
  {
    c := State(SlowStore(), map[Hash(17) := 12], Hash(20), 15);
    next := Header(Hash(17), 20, 0);
    SlowStoreIsFounded();
    SlowStoreIsClosed();
    var z, y, b := Hash(17), Hash(21), Hash(20);
    assert z in c.store && c.store[z] == Header(y, 12, 0) && y in c.store && c.store[y] == Header(b, 16, 0);
    assert b in c.store && c.store[b].slot == 15 && Hash(25) !in c.store;
    hide SlowStore, Founded, Keyed, Closed;
    assert Descends(c.store, b, b) && Descends(c.store, y, b) && Descends(c.store, z, b);
    assert Stop(c.store, z, 15) == Some(z);
  }

  // -------------------------------------------------------------------------- what a header keeps

  lemma RankGrows(store: Store, h: Header, k: Hash, rank: map<Hash, nat>)
    requires Ranked(store, rank) && k !in store && h.parent in store && !HasChild(store, k)
    ensures Founded(store[k := h])
  {
    var after := store[k := h];
    var ranks := rank[k := rank[h.parent] + 1];
    forall x | x in after && after[x].parent in after ensures ranks[after[x].parent] < ranks[x] {
      if x != k { assert after[x].parent != k; }
    }
    assert Ranked(after, ranks);
  }

  lemma NoChildYet(H: Hasher, c: State, k: Hash)
    requires Closed(H, c.store) && k !in c.store && k != GENESIS_PARENT
    ensures !HasChild(c.store, k)
  {
  }

  lemma StoreGrows(H: Hasher, c: State, h: Header)
    requires Sound(H, c) && SameIfStored(H, c, h) && H(h) != GENESIS_PARENT
    requires h.parent in c.store || H(h) == H(GENESIS)
    ensures Founded(c.store[H(h) := h]) && Keyed(H, c.store[H(h) := h]) && Closed(H, c.store[H(h) := h])
  {
    if H(h) in c.store {
      assert c.store[H(h) := h] == c.store;
    } else {
      NoChildYet(H, c, H(h));
      var rank :| Ranked(c.store, rank);
      RankGrows(c.store, h, H(h), rank);
    }
  }

  lemma AcceptedParent(H: Hasher, c: State, h: Header)
    requires Sound(H, c) && SameIfStored(H, c, h) && Accepts(H, c, h)
    ensures h.parent in c.store || H(h) == H(GENESIS)
  {
  }

  /** Any header, of any slot, keeps the store closed under parents down to genesis. */
  lemma HeaderKeepsSound(H: Hasher, c: State, h: Header)
    requires Sound(H, c) && SameIfStored(H, c, h) && H(h) != GENESIS_PARENT
    ensures Sound(H, AfterHeader(H, c, h))
  {
    if Accepts(H, c, h) {
      AcceptedParent(H, c, h);
      StoreGrows(H, c, h);
      hide Founded, Keyed, Closed, Accepts;
    }
  }

  /** Adding a header gives its parent a child and changes nothing else about children. */
  lemma ChildrenAfter(store: Store, x: Hash, h: Header, k: Hash)
    requires k in store ==> store[k] == h
    ensures HasChild(store[k := h], x) <==> HasChild(store, x) || x == h.parent
  {
    var after := store[k := h];
    if HasChild(store, x) {
      var y :| y in store && store[y].parent == x;
      assert y in after && after[y].parent == x;
    }
    if x == h.parent { assert k in after && after[k].parent == x; }
    if HasChild(after, x) {
      var y :| y in after && after[y].parent == x;
      if y != k { assert y in store && store[y].parent == x; }
    }
  }

  /** After an accepted header, new or repeated, the leaves are exact exactly when the header is not
      genesis and has no stored child. A header that is announced again after a child of it was
      becomes a leaf that is not one. */
  lemma LeavesExactlyWhen(H: Hasher, c: State, h: Header)
    requires Sound(H, c) && LeavesExact(H, c) && SameIfStored(H, c, h) && H(h) != GENESIS_PARENT
    requires Accepts(H, c, h)
    ensures LeavesExact(H, AfterHeader(H, c, h)) <==> H(h) != H(GENESIS) && !HasChild(c.store, H(h))
  {
    hide Founded, Keyed, Closed, Ancestor, HasChild, AfterAccepting, Accepts;
    AcceptedParent(H, c, h);
    StoreGrows(H, c, h);
    NotOwnAncestor(H, c, h);
    var after := AfterHeader(H, c, h);
    NewLeaf(H, c, h);
    ChildrenAfter(c.store, H(h), h, H(h));
    forall x | x != H(h)
      ensures x in after.leaves <==> x in after.store && x != H(GENESIS) && !HasChild(after.store, x)
      ensures x in after.leaves && x in after.store ==> after.leaves[x] == after.store[x].slot {
      OtherLeaf(H, c, h, x);
    }
    hide AfterHeader, Sound;
    if H(h) != H(GENESIS) && !HasChild(c.store, H(h)) {
      assert LeavesExact(H, after);
    } else {
      assert HasChild(after.store, H(h)) || H(h) == H(GENESIS);
    }
  }

  /** Genesis, a child of it and a child of that. */
  function ThreeHeaders(): State {
    State(map[Hash(6) := GENESIS, Hash(7) := Header(Hash(6), 2, 0), Hash(8) := Header(Hash(7), 3, 0)],
          map[Hash(8) := 3], Hash(6), 1)
  }

  lemma ThreeHeadersAreFounded()
    ensures Founded(ThreeHeaders().store)
  {
    assert ThreeHeaders().store.Keys == {Hash(6), Hash(7), Hash(8)};
    assert Ranked(ThreeHeaders().store, map[Hash(6) := 0, Hash(7) := 1, Hash(8) := 2]);
  }

  lemma ThreeHeadersAreSound()
    ensures Sound(SlotHash, ThreeHeaders())
  {
    ThreeHeadersAreFounded();
    hide Founded;
    assert ThreeHeaders().store.Keys == {Hash(6), Hash(7), Hash(8)};
  }

  lemma ThreeHeadersAreExact()
    ensures LeavesExact(SlotHash, ThreeHeaders()) && HasChild(ThreeHeaders().store, Hash(7))
  {
    var store := ThreeHeaders().store;
    assert store[Hash(7)].parent == Hash(6) && store[Hash(8)].parent == Hash(7);
  }

  /** Announcing the middle one of the three again makes it a leaf beside its child. */
  lemma RepeatedHeaderExample()
    ensures var c, again := ThreeHeaders(), Header(Hash(6), 2, 0);
            && Sound(SlotHash, c) && LeavesExact(SlotHash, c) && Accepts(SlotHash, c, again)
            && !LeavesExact(SlotHash, AfterHeader(SlotHash, c, again))
  {
    ThreeHeadersAreSound();
    ThreeHeadersAreExact();
    hide LeavesExact, HasChild, AfterHeader, Founded;
    assert Accepts(SlotHash, ThreeHeaders(), Header(Hash(6), 2, 0));
    LeavesExactlyWhen(SlotHash, ThreeHeaders(), Header(Hash(6), 2, 0));
  }

  /** The new header itself. */
  lemma NewLeaf(H: Hasher, c: State, h: Header)
    requires Founded(c.store) && Accepts(H, c, h)
    requires Ancestor(c.store[H(h) := h], h.parent, GENERATIONS - 1) != Some(H(h))
    ensures var after := AfterHeader(H, c, h);
            after.store == c.store[H(h) := h] && H(h) in after.leaves && after.leaves[H(h)] == h.slot
  {
    hide Ancestor, Founded, Accepts;
  }

  /** Any other header. */
  lemma OtherLeaf(H: Hasher, c: State, h: Header, x: Hash)
    requires Sound(H, c) && LeavesExact(H, c) && Accepts(H, c, h) && SameIfStored(H, c, h) && x != H(h)
    requires Founded(c.store[H(h) := h])
    ensures var after := AfterHeader(H, c, h);
            && (x in after.leaves <==> x in after.store && x != H(GENESIS) && !HasChild(after.store, x))
            && (x in after.leaves && x in after.store ==> after.leaves[x] == after.store[x].slot)
  {
    hide Founded, Keyed, Closed, Ancestor, HasChild, Accepts, AfterAccepting;
    var store := c.store[H(h) := h];
    var f := Ancestor(store, h.parent, GENERATIONS - 1);
    ChildrenAfter(c.store, x, h, H(h));
    if f.Some? { AncestorIs(store, h.parent, GENERATIONS - 1); }
    LeafStep(H, c, h, x);
  }

  lemma LeafStep(H: Hasher, c: State, h: Header, x: Hash)
    requires Founded(c.store) && Accepts(H, c, h) && x != H(h)
    requires Ancestor(c.store[H(h) := h], h.parent, GENERATIONS - 1).Some? ==>
               Ancestor(c.store[H(h) := h], h.parent, GENERATIONS - 1).value in c.store[H(h) := h]
    ensures var after := AfterHeader(H, c, h);
            && after.store == c.store[H(h) := h]
            && (x in after.leaves <==>
                  x in c.leaves && x != h.parent && Ancestor(c.store[H(h) := h], h.parent, GENERATIONS - 1) != Some(x))
            && (x in after.leaves ==> after.leaves[x] == c.leaves[x])
  {
    hide Ancestor, Founded, Accepts;
  }

  /** Nothing on the way back from the header's parent is the header itself. */
  lemma NotOwnAncestor(H: Hasher, c: State, h: Header)
    requires Sound(H, c) && SameIfStored(H, c, h) && H(h) != GENESIS_PARENT
    requires h.parent in c.store || H(h) == H(GENESIS)
    ensures Ancestor(c.store[H(h) := h], h.parent, GENERATIONS - 1) != Some(H(h)) && h.parent != H(h)
  {
    var store := c.store[H(h) := h];
    StoreGrows(H, c, h);
    assert h.parent in c.store || h == GENESIS;
    var rank :| Ranked(store, rank);
    hide Closed, Keyed;
    if Ancestor(store, h.parent, GENERATIONS - 1) == Some(H(h)) {
      AncestorIs(store, h.parent, GENERATIONS - 1);
    }
  }

  /** A header that nothing is built on, of any slot, new or repeated, keeps everything exact. */
  lemma ChildlessKeepsExact(H: Hasher, c: State, h: Header)
    requires Sound(H, c) && LeavesExact(H, c) && Childless(H, c, h)
    ensures Sound(H, AfterHeader(H, c, h)) && LeavesExact(H, AfterHeader(H, c, h))
  {
    HeaderKeepsSound(H, c, h);
    hide Founded, Keyed, LeavesExact, HasChild, Accepts;
    if Accepts(H, c, h) { LeavesExactlyWhen(H, c, h); }
  }

  /** Nothing is built on a fresh header. */
  lemma FreshIsChildless(H: Hasher, c: State, h: Header)
    requires Sound(H, c) && Fresh(H, c, h)
    ensures Childless(H, c, h)
  {
    NoChildYet(H, c, H(h));
  }

  /** A fresh header, of any slot, keeps everything exact. */
  lemma FreshKeepsExact(H: Hasher, c: State, h: Header)
    requires Sound(H, c) && LeavesExact(H, c) && Fresh(H, c, h)
    ensures Sound(H, AfterHeader(H, c, h)) && LeavesExact(H, AfterHeader(H, c, h))
  {
    FreshIsChildless(H, c, h);
    ChildlessKeepsExact(H, c, h);
    hide Founded, Keyed, LeavesExact, HasChild, Accepts, AfterHeader, Childless;
  }

  // --------------------------------------------------------------------------------- over all runs

  ghost function Announced(H: Hasher, headers: seq<Header>): (c: State)
    requires H(GENESIS) != GENESIS_PARENT && Proper(H, headers)
    ensures Sound(H, c) && LeavesExact(H, c)
    decreases |headers|, 1
  {
    if headers == [] then InitialIsSound(H); Initial(H)
    else
      var n := |headers| - 1;
      var before := Announced(H, headers[..n]);
      ChildlessKeepsExact(H, before, headers[n]);
      AfterHeader(H, before, headers[n])
  }

  /** Every header is one that nothing is built on when it is announced. */
  ghost predicate Proper(H: Hasher, headers: seq<Header>)
    requires H(GENESIS) != GENESIS_PARENT
    decreases |headers|, 0
  {
    headers == [] || (
      var n := |headers| - 1;
      Proper(H, headers[..n]) && Childless(H, Announced(H, headers[..n]), headers[n]))
  }

  /** A run is its headers one after the other, from genesis on. */
  lemma AnnouncedIs(H: Hasher, headers: seq<Header>, h: Header)
    requires H(GENESIS) != GENESIS_PARENT
    ensures Proper(H, []) && Announced(H, []) == State(map[H(GENESIS) := GENESIS], map[], H(GENESIS), 1)
    ensures Proper(H, headers + [h]) <==> Proper(H, headers) && Childless(H, Announced(H, headers), h)
    ensures Proper(H, headers + [h]) ==>
              Announced(H, headers + [h]) == AfterHeader(H, Announced(H, headers), h)
  {
    assert (headers + [h])[..|headers|] == headers;
    hide AfterHeader, LeavesExact, Childless, Keyed, Closed;
  }

  /** Every header has a later slot than its parent. */
  ghost predicate AllLater(H: Hasher, headers: seq<Header>)
    requires H(GENESIS) != GENESIS_PARENT && Proper(H, headers)
  {
    headers == [] || (
      var n := |headers| - 1;
      AllLater(H, headers[..n]) && Later(Announced(H, headers[..n]), headers[n]))
  }

  lemma LaterKeepsSlots(H: Hasher, c: State, h: Header)
    requires Sound(H, c) && Childless(H, c, h) && SlotsGrow(c.store) && Later(c, h)
    ensures SlotsGrow(AfterHeader(H, c, h).store)
  {
    var after := AfterHeader(H, c, h).store;
    assert after == c.store || (after == c.store[H(h) := h] && !HasChild(c.store, H(h)));
    assert !HasChild(c.store, H(h)) ==> forall x :: x in c.store ==> c.store[x].parent != H(h);
    hide Founded, Keyed, Closed, Accepts, AfterHeader, HasChild;
  }

  lemma {:induction false} LaterRunsGrow(H: Hasher, headers: seq<Header>)
    requires H(GENESIS) != GENESIS_PARENT && Proper(H, headers) && AllLater(H, headers)
    ensures SlotsGrow(Announced(H, headers).store)
  {
    if headers != [] {
      var n := |headers| - 1;
      LaterRunsGrow(H, headers[..n]);
      LaterKeepsSlots(H, Announced(H, headers[..n]), headers[n]);
    }
  }

  /** Whatever is stored descends from genesis. */
  lemma {:induction false} AllFromGenesis(H: Hasher, store: Store, x: Hash)
    requires Founded(store) && Closed(H, store) && x in store
    ensures Descends(store, x, H(GENESIS))
    decreases Height(store, x)
  {
    if x != H(GENESIS) { AllFromGenesis(H, store, store[x].parent); }
  }

  /** Over every run from genesis on, of headers of any slots, new or repeated, that nothing is built
      on: everything stored descends from genesis, the leaves are exact, and the next header is
      taken exactly when it is the latest finalized block or leads back to it past nothing but blocks
      of later slots. */
  lemma ChainHeadsAreExact(H: Hasher, headers: seq<Header>, x: Hash, next: Header)
    requires H(GENESIS) != GENESIS_PARENT && Proper(H, headers + [next])
    ensures Proper(H, headers)
    ensures var c, after := Announced(H, headers), Announced(H, headers + [next]);
            && (x in c.store ==> Descends(c.store, x, H(GENESIS)))
            && (x in c.leaves <==> x in c.store && x != H(GENESIS) && !HasChild(c.store, x))
            && after == (if Accepts(H, c, next) then AfterAccepting(H, c, next) else c)
            && (Accepts(H, c, next) <==>
                  || H(next) == c.finalized
                  || (next.slot > c.finalizedSlot && next.parent in c.store
                      && DescendsAbove(c.store, next.parent, c.finalized, c.finalizedSlot)))
  {
    assert (headers + [next])[..|headers|] == headers;
    var c := Announced(H, headers);
    if x in c.store { AllFromGenesis(H, c.store, x); }
    AcceptsExactlyWhen(H, c, next);
    hide Founded, Keyed, Closed, Descends, DescendsAbove, Accepts, AfterAccepting;
    assert Announced(H, headers + [next]) == AfterHeader(H, c, next);
  }

  /** If in addition every header is later than its parent, the next one is taken exactly when it
      is the latest finalized block or descends from it. */
  lemma LaterHeadersDescend(H: Hasher, headers: seq<Header>, next: Header)
    requires H(GENESIS) != GENESIS_PARENT && Proper(H, headers + [next]) && AllLater(H, headers + [next])
    ensures Proper(H, headers)
    ensures var c, after := Announced(H, headers), Announced(H, headers + [next]);
            && after == (if Accepts(H, c, next) then AfterAccepting(H, c, next) else c)
            && (Accepts(H, c, next) <==>
                  H(next) == c.finalized || (next.parent in c.store && Descends(c.store, next.parent, c.finalized)))
  {
    assert (headers + [next])[..|headers|] == headers;
    var c := Announced(H, headers);
    LaterRunsGrow(H, headers);
    AcceptsDescendants(H, c, next);
    hide Founded, Keyed, Closed, Descends, Accepts, SlotsGrow, AfterAccepting;
    assert Announced(H, headers + [next]) == AfterHeader(H, c, next);
  }

  // ------------------------------------------------------------------- when finalization advances

  lemma {:induction false} DescentLowers(store: Store, x: Hash, target: Hash)
    requires Founded(store) && target in store && Descends(store, x, target)
    ensures Height(store, target) <= Height(store, x)
    decreases Height(store, x)
  {
    if x != target { DescentLowers(store, store[x].parent, target); }
  }

  /** `target` is less than `n` generations above `x`. */
  predicate Within(store: Store, x: Hash, target: Hash, n: nat) {
    exists d :: 0 <= d < n && Ancestor(store, x, d) == Some(target)
  }

  /** The farther of two ancestors does not descend from the nearer. */
  lemma {:induction false} AncestorSplits(store: Store, x: Hash, d: nat, n: nat)
    requires Founded(store) && d < n && Ancestor(store, x, d).Some? && Ancestor(store, x, n).Some?
    ensures !Descends(store, Ancestor(store, x, n).value, Ancestor(store, x, d).value)
    decreases d
  {
    AncestorIs(store, x, d);
    if d > 0 {
      AncestorSplits(store, store[x].parent, d - 1, n - 1);
    } else {
      AncestorIs(store, store[x].parent, n - 1);
      if Descends(store, Ancestor(store, x, n).value, x) { DescentLowers(store, Ancestor(store, x, n).value, x); }
    }
  }

  /** What lies at least `n` generations above is still above the ancestor of `n` generations. */
  lemma {:induction false} AncestorStays(store: Store, x: Hash, target: Hash, n: nat)
    requires Founded(store) && target in store && Descends(store, x, target) && Ancestor(store, x, n).Some?
    requires !Within(store, x, target, n)
    ensures Descends(store, Ancestor(store, x, n).value, target)
    decreases n
  {
    if n > 0 {
      assert x == target ==> Ancestor(store, x, 0) == Some(target);
      var y := store[x].parent;
      forall d | 0 <= d < n - 1 ensures Ancestor(store, y, d) != Some(target) {
        assert Ancestor(store, x, d + 1) == Ancestor(store, y, d);
      }
      AncestorStays(store, y, target, n - 1);
    }
  }

  lemma {:induction false} DescentInMore(store: Store, more: Store, x: Hash, target: Hash, slot: nat)
    requires Founded(store) && Founded(more) && DescendsAbove(store, x, target, slot)
    requires forall y :: y in store ==> y in more && more[y] == store[y]
    ensures Descends(more, x, target)
    decreases Height(store, x)
  {
    if x != target { DescentInMore(store, more, store[x].parent, target, slot); }
  }

  /** A new header has no part in the ancestors of its parent. */
  lemma {:induction false} AncestorBefore(store: Store, k: Hash, h: Header, x: Hash, n: nat)
    requires k !in store && !HasChild(store, k) && x != k
    ensures Ancestor(store[k := h], x, n) == Ancestor(store, x, n)
    decreases n
  {
    if x in store && n > 0 { AncestorBefore(store, k, h, store[x].parent, n - 1); }
  }

  /** A fresh block keeps the finalized one on the chain below it, or moves on from it, exactly when
      it does not reach back past it: when there is nothing to finalize, or the finalized block is
      none of the five blocks before the new one. */
  lemma FinalizationStandsExactlyWhen(H: Hasher, c: State, h: Header)
    requires Sound(H, c) && Fresh(H, c, h) && Accepts(H, c, h)
    ensures Sound(H, AfterHeader(H, c, h))
    ensures var after := AfterHeader(H, c, h);
            Descends(after.store, after.finalized, c.finalized) <==>
            || Ancestor(c.store, h.parent, GENERATIONS - 1).None?
            || !Within(c.store, h.parent, c.finalized, GENERATIONS - 1)
  {
    HeaderKeepsSound(H, c, h);
    NoChildYet(H, c, H(h));
    AcceptsExactlyWhen(H, c, h);
    var n := GENERATIONS - 1;
    var store := c.store[H(h) := h];
    forall d: nat ensures Ancestor(store, h.parent, d) == Ancestor(c.store, h.parent, d) {
      AncestorBefore(c.store, H(h), h, h.parent, d);
    }
    assert Within(store, h.parent, c.finalized, n) == Within(c.store, h.parent, c.finalized, n);
    assert AfterHeader(H, c, h).store == store;
    DescentInMore(c.store, store, h.parent, c.finalized, c.finalizedSlot);
    hide Founded, Keyed, Closed, Accepts, Descends, Within;
    var f := Ancestor(store, h.parent, n);
    if f.Some? {
      AncestorIs(store, h.parent, n);
      assert AfterHeader(H, c, h).finalized == f.value;
      if Within(store, h.parent, c.finalized, n) {
        var d :| 0 <= d < n && Ancestor(store, h.parent, d) == Some(c.finalized);
        AncestorSplits(store, h.parent, d, n);
      } else {
        AncestorStays(store, h.parent, c.finalized, n);
      }
    }
  }

  // ------------------------------------------------------------------------------ a line of blocks

  /** `n` blocks in a line on genesis, slot by slot. */
  function Line(n: nat): (r: seq<Header>)
    ensures |r| == n
  {
    seq(n, i requires 0 <= i < n => Header(Hash(i + 6), i + 2, 0))
  }

  function LineStore(n: nat): Store {
    if n == 0 then map[Hash(6) := GENESIS] else LineStore(n - 1)[Hash(n + 6) := Header(Hash(n + 5), n + 1, 0)]
  }

  lemma {:induction false} LineAt(n: nat, v: int)
    ensures Hash(v) in LineStore(n) <==> 6 <= v <= n + 6
    ensures 6 < v <= n + 6 ==> LineStore(n)[Hash(v)] == Header(Hash(v - 1), v - 5, 0)
    ensures v == 6 ==> LineStore(n)[Hash(v)] == GENESIS
  {
    if n > 0 { LineAt(n - 1, v); }
  }

  lemma {:induction false} AncestorOnLine(n: nat, v: int, d: nat)
    requires 6 <= v <= n + 6
    ensures Ancestor(LineStore(n), Hash(v), d) == if v - d >= 6 then Some(Hash(v - d)) else None
    decreases d
  {
    LineAt(n, v);
    LineAt(n, 1);
    hide LineStore;
    if d > 0 && v > 6 { AncestorOnLine(n, v - 1, d - 1); }
  }

  lemma {:induction false} StopOnLine(n: nat, v: int, slot: nat)
    requires Founded(LineStore(n)) && 6 <= v <= n + 6 && slot >= 1
    ensures Stop(LineStore(n), Hash(v), slot) == Some(Hash(Min(v, slot + 5)))
    decreases v
  {
    LineAt(n, v);
    LineAt(n, v - 1);
    hide LineStore, Founded;
    if v - 5 > slot { StopOnLine(n, v - 1, slot); }
  }

  lemma RunSnoc(H: Hasher, headers: seq<Header>, h: Header)
    requires H(GENESIS) != GENESIS_PARENT && Proper(H, headers) && Fresh(H, Announced(H, headers), h)
    ensures Proper(H, headers + [h])
    ensures Announced(H, headers + [h]) == AfterHeader(H, Announced(H, headers), h)
  {
    assert (headers + [h])[..|headers|] == headers;
    FreshIsChildless(H, Announced(H, headers), h);
    hide AfterHeader, LeavesExact, Fresh, Childless, Founded, Keyed, Closed;
  }

  lemma LineSnoc(n: nat)
    requires n > 0
    ensures Line(n) == Line(n - 1) + [Header(Hash(n + 5), n + 1, 0)]
  {
  }

  lemma LineStep(n: nat, c: State, h: Header)
    requires n > 0 && Founded(c.store) && c.store == LineStore(n - 1) && h == Header(Hash(n + 5), n + 1, 0)
    requires c.finalized == Hash(Max(6, n - 1)) && c.finalizedSlot == Max(6, n - 1) - 5
    ensures Fresh(SlotHash, c, h)
    ensures var after := AfterHeader(SlotHash, c, h);
            && after.store == LineStore(n)
            && after.finalized == Hash(Max(6, n)) && after.finalizedSlot == Max(6, n) - 5
  {
    LineAt(n - 1, n + 6);
    StopOnLine(n - 1, n + 5, c.finalizedSlot);
    AncestorOnLine(n, n + 5, GENERATIONS - 1);
    LineAt(n, n);
    assert c.store[SlotHash(h) := h] == LineStore(n);
    hide Founded, LineStore, Stop, Ancestor;
    assert Accepts(SlotHash, c, h);
  }

  /** Announced one after the other, the sixth block before the newest is the finalized one. */
  lemma {:induction false} LineRun(n: nat)
    ensures Proper(SlotHash, Line(n))
    ensures var c := Announced(SlotHash, Line(n));
            && c.store == LineStore(n)
            && c.finalized == Hash(Max(6, n)) && c.finalizedSlot == Max(6, n) - 5
  {
    if n == 0 {
      assert Line(n) == [];
    } else {
      hide Founded, AfterHeader, LeavesExact, Fresh, Keyed, Closed, LineStore, Line, Proper;
      LineRun(n - 1);
      var c, h := Announced(SlotHash, Line(n - 1)), Header(Hash(n + 5), n + 1, 0);
      LineSnoc(n);
      LineStep(n, c, h);
      RunSnoc(SlotHash, Line(n - 1), h);
    }
  }

  lemma ForkStep(c: State, fork: Header)
    requires Founded(c.store) && c.store == LineStore(11) && c.finalized == Hash(11) && c.finalizedSlot == 6
    requires fork == Header(Hash(11), 20, 0)
    ensures Fresh(SlotHash, c, fork) && AfterHeader(SlotHash, c, fork).finalized == Hash(6)
  {
    LineAt(11, 25);
    StopOnLine(11, 11, c.finalizedSlot);
    ForkFinalizes(fork);
    hide Founded, LineStore, Stop, Ancestor;
    assert Accepts(SlotHash, c, fork);
  }

  /** Eleven blocks in a line finalize the fifth; another block on the fifth finalizes genesis. */
  lemma FinalizationMovesBackExample(fork: Header)
    requires fork == Header(Hash(11), 20, 0)
    ensures Proper(SlotHash, Line(11)) && Proper(SlotHash, Line(11) + [fork])
    ensures Announced(SlotHash, Line(11)).finalized == Hash(11) == SlotHash(Line(11)[4])
    ensures Announced(SlotHash, Line(11) + [fork]).finalized == SlotHash(GENESIS)
  {
    LineRun(11);
    assert Line(11)[4] == Header(Hash(10), 6, 0);
    ForkStep(Announced(SlotHash, Line(11)), fork);
    RunSnoc(SlotHash, Line(11), fork);
    hide AfterHeader, Sound, LeavesExact, Fresh, LineStore, Announced, Proper, Line;
  }

  lemma ForkFinalizes(fork: Header)
    requires fork == Header(Hash(11), 20, 0)
    ensures var store := LineStore(11)[SlotHash(fork) := fork];
            Ancestor(store, fork.parent, GENERATIONS - 1) == Some(Hash(6)) && Hash(6) in store
  {
    var store := LineStore(11)[SlotHash(fork) := fork];
    LineAt(11, 25);
    LineAt(11, 6);
    forall v | 6 < v <= 11 ensures Hash(v) in store && store[Hash(v)].parent == Hash(v - 1) { LineAt(11, v); }
    hide LineStore;
    assert Ancestor(store, Hash(6), 0) == Some(Hash(6));
    assert Ancestor(store, Hash(7), 1) == Some(Hash(6));
    assert Ancestor(store, Hash(8), 2) == Some(Hash(6));
    assert Ancestor(store, Hash(9), 3) == Some(Hash(6));
    assert Ancestor(store, Hash(10), 4) == Some(Hash(6));
  }
}
