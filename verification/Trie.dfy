/** The binary Patricia trie of the state: its root, and the nodes it stores on the way. */
module Trie {
  import opened Bytes
  import opened Division
  import opened Hashing
  import opened Sorting

  type Octets = seq<byte>

  /** Any function from octets to octets; nothing else is assumed of it. */
  type HashFunction = Octets -> Octets

  datatype Entry = Entry(key: Octets, value: Octets)

  /** A state key is an array of 32 octets. */
  ghost predicate StateKeys(kvs: seq<Entry>) {
    forall n :: 0 <= n < |kvs| ==> |kvs[n].key| == 32
  }

  function Key(kv: Entry): Octets {
    kv.key
  }

  /** Bit `t` of a word, counted from the least significant. */
  predicate BitAt(x: nat, t: nat) {
    Shr(x, t) % 2 == 1
  }

  /** `bit`: from the most significant bit of the first octet on. */
  predicate Bit(k: Octets, i: nat)
    requires i < 256 && |k| == 32
  {
    BitAt(k[i / 8], 7 - i % 8)
  }

  // ------------------------------------------------------------------ encodings

  function Zeros(n: nat): Octets {
    seq(n, _ => 0)
  }

  /** `EncodeLeafNode`: short values are embedded, long ones hashed. */
  function LeafNode(H: HashFunction, kv: Entry): Octets
    requires |kv.key| == 32
  {
    if |kv.value| <= 32 then
      [128 + |kv.value|] + kv.key[..31] + (kv.value + Zeros(32 - |kv.value|))
    else
      [192] + kv.key[..31] + H(kv.value)
  }

  /** `EncodeBranchNode`: the left hash without its first bit, and the right hash. */
  function BranchNode(l: Octets, r: Octets): Octets {
    ClearTopBit(l) + r
  }

  function ClearTopBit(l: Octets): Octets {
    if l == [] then [] else [l[0] % 128] + l[1..]
  }

  /** A leaf is 64 octets: a header, the key without its last octet, and the value followed by zeros, or its hash.
      The header is 128 and the length of an embedded value, or 192 for a hashed one. */
  lemma LeafFields(H: HashFunction, kv: Entry)
    requires |kv.key| == 32 && |H(kv.value)| == 32
    ensures var node := LeafNode(H, kv);
            && |node| == 64 && node[1..32] == kv.key[..31]
            && (|kv.value| <= 32 ==> node[0] == 128 + |kv.value| && node[32..32 + |kv.value|] == kv.value)
            && (|kv.value| <= 32 ==> forall i :: 32 + |kv.value| <= i < 64 ==> node[i] == 0)
            && (|kv.value| > 32 ==> node[0] == 192 && node[32..] == H(kv.value))
  {
  }

  /** A branch is the left hash with its first bit cleared, and the right hash. */
  lemma BranchFields(l: Octets, r: Octets)
    requires |l| == 32 && |r| == 32
    ensures var node := BranchNode(l, r);
            && |node| == 64 && node[0] == (if l[0] < 128 then l[0] else l[0] - 128)
            && node[1..32] == l[1..] && node[32..] == r
  {
  }

  /** Bit `i` of a key is in octet i / 8, the most significant first. */
  lemma BitIs(k: Octets, i: nat)
    requires i < 256 && |k| == 32
    ensures Bit(k, i) <==> k[i / 8] % Pow2(8 - i % 8) >= Pow2(7 - i % 8)
  {
    BitAtIs(k[i / 8], 7 - i % 8);
    hide BitAt, Pow2;
  }

  lemma {:induction false} BitAtIs(x: nat, t: nat)
    ensures BitAt(x, t) <==> x % Pow2(t + 1) >= Pow2(t)
    decreases t
  {
    if t == 0 {
      assert Pow2(1) == 2 && Pow2(0) == 1;
    } else {
      BitAtIs(x / 2, t - 1);
      assert BitAt(x, t) == BitAt(x / 2, t - 1);
      assert Pow2(t + 1) == 2 * Pow2(t) && Pow2(t) == 2 * Pow2(t - 1);
      HalvedRemainder(x, Pow2(t));
      hide BitAt, Pow2;
    }
  }

  lemma HalvedRemainder(x: nat, p: nat)
    requires p > 0
    ensures x % (2 * p) == 2 * (x / 2 % p) + x % 2
  {
    var q, r := x / 2 / p, x / 2 % p;
    Divided(x / 2, p);
    TwiceProduct(p, q);
    DivisionIs(x, 2 * p, q, 2 * r + x % 2);
  }

  lemma TwiceProduct(p: nat, q: nat)
    ensures (2 * p) * q == 2 * (p * q)
  {
  }

  // ------------------------------------------------------------ root and stores

  datatype Stored = Stored(hash: Octets, node: Octets)

  /** What one call returns and the nodes it hands to the store, in order. */
  datatype Tree = Tree(root: Octets, stored: seq<Stored>)

  const EMPTY := Tree(Zeros(32), [])

  function Leaf(H: HashFunction, kv: Entry): Tree
    requires |kv.key| == 32
  {
    Tree(H(LeafNode(H, kv)), [Stored(H(LeafNode(H, kv)), LeafNode(H, kv))])
  }

  function Branch(H: HashFunction, l: Option<Tree>, r: Option<Tree>): Option<Tree> {
    if l.None? || r.None? then None
    else
      var node := BranchNode(l.value.root, r.value.root);
      Some(Tree(H(node), l.value.stored + r.value.stored + [Stored(H(node), node)]))
  }

  /** The entries on one side of bit `i`, in the order they come. */
  function Keep(kvs: seq<Entry>, i: nat, side: bool): seq<Entry>
    requires i < 256 && StateKeys(kvs)
  {
    if kvs == [] then []
    else (if Bit(kvs[0].key, i) == side then [kvs[0]] else []) + Keep(kvs[1..], i, side)
  }

  lemma {:induction false} KeepMembers(kvs: seq<Entry>, i: nat, side: bool)
    requires i < 256 && StateKeys(kvs)
    ensures StateKeys(Keep(kvs, i, side))
    ensures forall e :: e in Keep(kvs, i, side) <==> e in kvs && |e.key| == 32 && Bit(e.key, i) == side
  {
    hide Bit;
    if kvs != [] {
      var rest := Keep(kvs[1..], i, side);
      KeepMembers(kvs[1..], i, side);
      assert kvs == [kvs[0]] + kvs[1..];
    }
  }

  /** The recursion of `Merklize` on a list. With two or more entries left at bit 256 the Go
      code indexes past the end of a key and panics: that is `None`. */
  function TreeOf(H: HashFunction, kvs: seq<Entry>, i: nat): Option<Tree>
    requires StateKeys(kvs)
    decreases 256 - i
  {
    if |kvs| == 0 then Some(EMPTY)
    else if |kvs| == 1 then Some(Leaf(H, kvs[0]))
    else if i >= 256 then None
    else
      KeepMembers(kvs, i, false); KeepMembers(kvs, i, true);
      Branch(H, TreeOf(H, Keep(kvs, i, false), i + 1), TreeOf(H, Keep(kvs, i, true), i + 1))
  }

  /** One unfolding of `TreeOf` at a branch. */
  lemma TreeStep(H: HashFunction, kvs: seq<Entry>, i: nat)
    requires StateKeys(kvs) && |kvs| > 1 && i < 256
    ensures StateKeys(Keep(kvs, i, false)) && StateKeys(Keep(kvs, i, true))
    ensures TreeOf(H, kvs, i)
            == Branch(H, TreeOf(H, Keep(kvs, i, false), i + 1), TreeOf(H, Keep(kvs, i, true), i + 1))
  {
    hide Branch, Keep;
    KeepMembers(kvs, i, false);
    KeepMembers(kvs, i, true);
  }

  lemma TreeLeaf(H: HashFunction, kvs: seq<Entry>, i: nat)
    requires StateKeys(kvs)
    ensures |kvs| == 0 ==> TreeOf(H, kvs, i) == Some(EMPTY)
    ensures |kvs| == 1 ==> TreeOf(H, kvs, i) == Some(Leaf(H, kvs[0]))
    ensures |kvs| > 1 && i >= 256 ==> TreeOf(H, kvs, i) == None
  {
    hide Branch, Keep;
  }

  lemma {:induction false} KeepSnoc(kvs: seq<Entry>, n: nat, i: nat, side: bool)
    requires StateKeys(kvs) && n < |kvs| && i < 256
    ensures Keep(kvs[..n + 1], i, side) ==
            Keep(kvs[..n], i, side) + (if Bit(kvs[n].key, i) == side then [kvs[n]] else [])
  {
    hide Bit;
    if n == 0 {
      assert kvs[..1] == [kvs[0]] && kvs[..1][1..] == [];
    } else {
      KeepSnoc(kvs[1..], n - 1, i, side);
      assert kvs[..n + 1][1..] == kvs[1..][..n] && kvs[..n][1..] == kvs[1..][..n - 1];
    }
  }

  method SplitAt(kvs: seq<Entry>, i: nat) returns (left: seq<Entry>, right: seq<Entry>)
    requires StateKeys(kvs) && i < 256
    ensures left == Keep(kvs, i, false) && right == Keep(kvs, i, true)
  {
    left, right := [], [];
    for n := 0 to |kvs|
      invariant left == Keep(kvs[..n], i, false) && right == Keep(kvs[..n], i, true)
    {
      KeepSnoc(kvs, n, i, false);
      KeepSnoc(kvs, n, i, true);
      if Bit(kvs[n].key, i) { right := right + [kvs[n]]; } else { left := left + [kvs[n]]; }
    }
    assert kvs[..|kvs|] == kvs;
  }

  /** `Merklize` with its splitting loop and its storing callback. */
  method Merklize(H: HashFunction, kvs: seq<Entry>, i: nat, store: seq<Stored>) returns (root: Option<Octets>,
                  store': seq<Stored>)
    requires StateKeys(kvs)
    ensures root.Some? <==> TreeOf(H, kvs, i).Some?
    ensures root.Some? ==> root.value == TreeOf(H, kvs, i).value.root
    ensures root.Some? ==> store' == store + TreeOf(H, kvs, i).value.stored
    decreases 256 - i
  {
    hide TreeOf, Keep, LeafNode, BranchNode;
    TreeLeaf(H, kvs, i);
    store' := store;
    if |kvs| == 0 { return Some(Zeros(32)), store'; }
    if |kvs| == 1 {
      var leaf := LeafNode(H, kvs[0]);
      return Some(H(leaf)), store' + [Stored(H(leaf), leaf)];
    }
    if i >= 256 { return None, store'; }
    TreeStep(H, kvs, i);
    var left, right := SplitAt(kvs, i);
    var l, r;
    l, store' := Merklize(H, left, i + 1, store');
    if l.None? { return None, store'; }
    r, store' := Merklize(H, right, i + 1, store');
    if r.None? { return None, store'; }
    var branch := BranchNode(l.value, r.value);
    root := Some(H(branch));
    store' := store' + [Stored(H(branch), branch)];
  }

  // ------------------------------------------------------- the mapping decides

  ghost predicate StateKeySet(es: set<Entry>) {
    forall e :: e in es ==> |e.key| == 32
  }

  /** The tree of a set of entries, with no order among them at all. */
  ghost function TreeOfSet(H: HashFunction, es: set<Entry>, i: nat): Option<Tree>
    requires StateKeySet(es)
    decreases 256 - i
  {
    if es == {} then Some(EMPTY)
    else if exists e :: es == {e} then (var e :| es == {e}; assert e in es; Some(Leaf(H, e)))
    else if i >= 256 then None
    else Branch(H, TreeOfSet(H, Half(es, i, false), i + 1), TreeOfSet(H, Half(es, i, true), i + 1))
  }

  ghost function Half(es: set<Entry>, i: nat, side: bool): (r: set<Entry>)
    requires i < 256 && StateKeySet(es)
    ensures StateKeySet(r)
  {
    set e | e in es && Bit(e.key, i) == side
  }

  ghost function Entries(kvs: seq<Entry>): (es: set<Entry>)
    ensures forall e :: e in es <==> e in kvs
  {
    set n | 0 <= n < |kvs| :: kvs[n]
  }

  lemma EntriesOfKeep(kvs: seq<Entry>, i: nat, side: bool)
    requires StateKeys(kvs) && i < 256
    ensures StateKeySet(Entries(kvs)) && StateKeys(Keep(kvs, i, side))
    ensures Entries(Keep(kvs, i, side)) == Half(Entries(kvs), i, side)
  {
    hide Bit;
    KeepMembers(kvs, i, side);
    forall e | e in Entries(kvs) ensures |e.key| == 32 { assert e in kvs; }
    assert forall e :: e in Entries(Keep(kvs, i, side)) <==> e in Half(Entries(kvs), i, side);
  }

  lemma {:induction false} KeepDistinct(key: Entry -> Octets, kvs: seq<Entry>, i: nat, side: bool)
    requires StateKeys(kvs) && i < 256 && DistinctKeys(key, kvs)
    ensures DistinctKeys(key, Keep(kvs, i, side))
  {
    hide Bit;
    if kvs != [] {
      var rest := Keep(kvs[1..], i, side);
      KeepDistinct(key, kvs[1..], i, side);
      KeepMembers(kvs[1..], i, side);
      forall n | 0 <= n < |rest| ensures key(rest[n]) != key(kvs[0]) {
        assert rest[n] in rest;
        assert rest[n] in kvs[1..];
      }
    }
  }

  lemma SingletonEntries(kvs: seq<Entry>)
    requires DistinctKeys(Key, kvs)
    ensures |kvs| == 0 <==> Entries(kvs) == {}
    ensures |kvs| == 1 ==> Entries(kvs) == {kvs[0]}
    ensures |kvs| > 1 ==> !exists e :: Entries(kvs) == {e}
  {
    if |kvs| > 0 { assert kvs[0] in Entries(kvs); }
    if |kvs| > 1 {
      assert kvs[1] in Entries(kvs);
      assert kvs[0].key != kvs[1].key;
      forall e ensures Entries(kvs) != {e} {
        if kvs[0] == e { assert kvs[1] !in {e}; } else { assert kvs[0] !in {e}; }
      }
    }
  }

  /** On distinct keys the order of the list plays no part. */
  lemma {:induction false} TreeOfListIsTreeOfSet(H: HashFunction, kvs: seq<Entry>, i: nat)
    requires StateKeys(kvs) && DistinctKeys(Key, kvs) && StateKeySet(Entries(kvs))
    ensures TreeOf(H, kvs, i) == TreeOfSet(H, Entries(kvs), i)
    decreases 256 - i
  {
    hide TreeOf, Keep, Half, Branch, Leaf, DistinctKeys;
    SingletonEntries(kvs);
    TreeLeaf(H, kvs, i);
    if |kvs| > 1 && i < 256 {
      TreeStep(H, kvs, i);
      EntriesOfKeep(kvs, i, false);
      EntriesOfKeep(kvs, i, true);
      KeepDistinct(Key, kvs, i, false);
      KeepDistinct(Key, kvs, i, true);
      HalvesAreStateKeys(Entries(kvs), i);
      TreeOfListIsTreeOfSet(H, Keep(kvs, i, false), i + 1);
      TreeOfListIsTreeOfSet(H, Keep(kvs, i, true), i + 1);
    }
  }

  lemma HalvesAreStateKeys(es: set<Entry>, i: nat)
    requires i < 256 && StateKeySet(es)
    ensures StateKeySet(Half(es, i, false)) && StateKeySet(Half(es, i, true))
  {
  }

  /** The state root depends only on the mapping: two lists that hold the same entries, in any
      order, give the same root and hand the same nodes to the store in the same order. */
  lemma RootDependsOnlyOnMapping(H: HashFunction, a: seq<Entry>, b: seq<Entry>)
    requires StateKeys(a) && DistinctKeys(Key, a) && multiset(a) == multiset(b)
    ensures StateKeys(b) && TreeOf(H, a, 0).Some? && TreeOf(H, a, 0) == TreeOf(H, b, 0)
  {
    hide TreeOf, TreeOfSet;
    SameEntries(a, b);
    SameEntries(b, a);
    assert Entries(a) == Entries(b);
    PermutationKeepsDistinct(a, b);
    TreeOfListIsTreeOfSet(H, a, 0);
    TreeOfListIsTreeOfSet(H, b, 0);
    SucceedsExactlyWhenDistinct(H, a);
  }

  lemma SameEntries(a: seq<Entry>, b: seq<Entry>)
    requires multiset(a) == multiset(b)
    ensures forall e :: e in Entries(a) ==> e in Entries(b)
    ensures StateKeys(a) ==> StateKeySet(Entries(a)) && StateKeys(b)
  {
    forall e | e in Entries(a) ensures e in Entries(b) {
      assert e in multiset(a);
      assert e in multiset(b);
    }
    if StateKeys(a) {
      forall e | e in Entries(a) ensures |e.key| == 32 { assert e in a; }
      forall n | 0 <= n < |b| ensures |b[n].key| == 32 { assert b[n] in multiset(b); assert b[n] in multiset(a); }
    }
  }

  lemma PermutationKeepsDistinct(a: seq<Entry>, b: seq<Entry>)
    requires DistinctKeys(Key, a) && multiset(a) == multiset(b)
    ensures DistinctKeys(Key, b)
  {
    forall n, m | 0 <= n < m < |b| ensures b[n].key != b[m].key {
      assert b[n] in multiset(b) && b[m] in multiset(b);
      assert b[n] in multiset(a) && b[m] in multiset(a);
      SameKeySameEntry(a, b[n], b[m]);
      DistinctOccursOnce(Key, a, b[n]);
      if b[n] == b[m] { OccursTwice(b, n, m); }
    }
  }

  lemma SameKeySameEntry(a: seq<Entry>, x: Entry, y: Entry)
    requires DistinctKeys(Key, a) && x in a && y in a
    ensures x.key == y.key ==> x == y
  {
  }

  // --------------------------------------------------- when it succeeds at all

  ghost predicate AgreeBelow(a: Octets, b: Octets, i: nat)
    requires |a| == 32 && |b| == 32 && i <= 256
  {
    forall j :: 0 <= j < i ==> Bit(a, j) == Bit(b, j)
  }

  lemma {:induction false} WordFromBits(x: nat, y: nat, k: nat)
    requires x < Pow2(k) && y < Pow2(k)
    requires forall t :: 0 <= t < k ==> BitAt(x, t) == BitAt(y, t)
    ensures x == y
    decreases k
  {
    if k > 0 {
      assert BitAt(x, 0) == BitAt(y, 0);
      forall t | 0 <= t < k - 1 ensures BitAt(x / 2, t) == BitAt(y / 2, t) {
        assert BitAt(x, t + 1) == BitAt(y, t + 1);
      }
      WordFromBits(x / 2, y / 2, k - 1);
    }
  }

  lemma KeyFromBits(a: Octets, b: Octets, m: nat)
    requires |a| == 32 && |b| == 32 && m <= 32 && AgreeBelow(a, b, 8 * m)
    ensures a[..m] == b[..m]
  {
    assert Pow2(8) == 256;
    hide BitAt, Pow2;
    forall n | 0 <= n < m ensures a[n] == b[n] {
      forall t | 0 <= t < 8 ensures BitAt(a[n], t) == BitAt(b[n], t) {
        var i := 8 * n + (7 - t);
        assert i / 8 == n && i % 8 == 7 - t;
        assert Bit(a, i) == Bit(b, i);
      }
      WordFromBits(a[n], b[n], 8);
    }
  }

  ghost predicate AllAgreeBelow(kvs: seq<Entry>, i: nat)
    requires StateKeys(kvs) && i <= 256
  {
    forall n, m :: 0 <= n < |kvs| && 0 <= m < |kvs| ==> AgreeBelow(kvs[n].key, kvs[m].key, i)
  }

  lemma KeepAgrees(kvs: seq<Entry>, i: nat, side: bool)
    requires StateKeys(kvs) && i < 256 && AllAgreeBelow(kvs, i)
    ensures StateKeys(Keep(kvs, i, side)) && AllAgreeBelow(Keep(kvs, i, side), i + 1)
  {
    KeepMembers(kvs, i, side);
    var r := Keep(kvs, i, side);
    hide Keep, Bit;
    forall n, m | 0 <= n < |r| && 0 <= m < |r| ensures AgreeBelow(r[n].key, r[m].key, i + 1) {
      assert r[n] in r && r[m] in r;
      assert r[n] in kvs && r[m] in kvs;
    }
  }

  /** Distinct keys part company before bit 256, so the recursion never looks past the key. */
  lemma {:induction false} DistinctSucceeds(H: HashFunction, kvs: seq<Entry>, i: nat)
    requires StateKeys(kvs) && i <= 256 && AllAgreeBelow(kvs, i) && DistinctKeys(Key, kvs)
    ensures TreeOf(H, kvs, i).Some?
    decreases 256 - i
  {
    hide TreeOf, Keep, BranchNode;
    TreeLeaf(H, kvs, i);
    if |kvs| > 1 {
      if i == 256 {
        assert kvs[0].key[..32] == kvs[0].key && kvs[1].key[..32] == kvs[1].key;
        KeyFromBits(kvs[0].key, kvs[1].key, 32);
      } else {
        TreeStep(H, kvs, i);
        KeepAgrees(kvs, i, false);
        KeepAgrees(kvs, i, true);
        KeepDistinct(Key, kvs, i, false);
        KeepDistinct(Key, kvs, i, true);
        DistinctSucceeds(H, Keep(kvs, i, false), i + 1);
        DistinctSucceeds(H, Keep(kvs, i, true), i + 1);
      }
    }
  }

  /** A repeated key keeps its two entries together to the end. */
  lemma {:induction false} RepeatFails(H: HashFunction, kvs: seq<Entry>, i: nat, n: nat, m: nat)
    requires StateKeys(kvs) && n < m < |kvs| && kvs[n].key == kvs[m].key
    ensures TreeOf(H, kvs, i).None?
    decreases 256 - i
  {
    hide TreeOf, Keep, BranchNode, Bit;
    TreeLeaf(H, kvs, i);
    if i < 256 {
      TreeStep(H, kvs, i);
      var side := Bit(kvs[n].key, i);
      var n', m' := KeepPair(kvs, i, n, m);
      RepeatFails(H, Keep(kvs, i, side), i + 1, n', m');
    }
  }

  lemma KeepCons(kvs: seq<Entry>, i: nat, side: bool)
    requires StateKeys(kvs) && i < 256 && kvs != []
    ensures Bit(kvs[0].key, i) == side ==> Keep(kvs, i, side) == [kvs[0]] + Keep(kvs[1..], i, side)
    ensures Bit(kvs[0].key, i) != side ==> Keep(kvs, i, side) == Keep(kvs[1..], i, side)
  {
    hide Bit;
  }

  lemma {:induction false} KeepPair(kvs: seq<Entry>, i: nat, n: nat, m: nat) returns (n': nat, m': nat)
    requires StateKeys(kvs) && i < 256 && n < m < |kvs| && kvs[n].key == kvs[m].key
    ensures n' < m' < |Keep(kvs, i, Bit(kvs[n].key, i))|
    ensures Keep(kvs, i, Bit(kvs[n].key, i))[n'].key == kvs[n].key == Keep(kvs, i, Bit(kvs[n].key, i))[m'].key
  {
    hide Bit, Keep;
    var side := Bit(kvs[n].key, i);
    KeepCons(kvs, i, side);
    if n > 0 {
      n', m' := KeepPair(kvs[1..], i, n - 1, m - 1);
      if Bit(kvs[0].key, i) == side { n', m' := n' + 1, m' + 1; }
    } else {
      KeepMembers(kvs[1..], i, side);
      assert kvs[m] == kvs[1..][m - 1];
      assert kvs[m] in Keep(kvs[1..], i, side);
      var p :| 0 <= p < |Keep(kvs[1..], i, side)| && Keep(kvs[1..], i, side)[p] == kvs[m];
      n', m' := 0, p + 1;
    }
  }

  /** `Merklize` of state keys succeeds exactly when no key is repeated. */
  lemma SucceedsExactlyWhenDistinct(H: HashFunction, kvs: seq<Entry>)
    requires StateKeys(kvs)
    ensures TreeOf(H, kvs, 0).Some? <==> DistinctKeys(Key, kvs)
  {
    hide TreeOf;
    if DistinctKeys(Key, kvs) {
      DistinctSucceeds(H, kvs, 0);
    } else {
      var n, m :| 0 <= n < m < |kvs| && kvs[n].key == kvs[m].key;
      RepeatFails(H, kvs, 0, n, m);
    }
  }

  /** One key with two values is a state that `Merklize` cannot take. */
  lemma RepeatedKeyExample(H: HashFunction)
    ensures var twice := [Entry(Zeros(32), [1]), Entry(Zeros(32), [2])];
            StateKeys(twice) && TreeOf(H, twice, 0) == None
  {
    hide TreeOf;
    var twice := [Entry(Zeros(32), [1]), Entry(Zeros(32), [2])];
    assert Key(twice[0]) == Key(twice[1]);
    SucceedsExactlyWhenDistinct(H, twice);
  }

  // ------------------------------------------------------------ what the root binds

  ghost predicate Hashes32(H: HashFunction) {
    forall x :: |H(x)| == 32
  }

  /** The hash as a branch keeps it for its left child: without the first bit. */
  function Shortened(H: HashFunction): HashFunction {
    x => ClearTopBit(H(x))
  }

  /** Everything hashed to compute the root of a list: its nodes, and the values too long to embed. */
  ghost function Inputs(H: HashFunction, kvs: seq<Entry>, i: nat): set<Octets>
    requires StateKeys(kvs)
    decreases 256 - i
  {
    if |kvs| == 0 then {}
    else if |kvs| == 1 then {LeafNode(H, kvs[0])} + if |kvs[0].value| > 32 then {kvs[0].value} else {}
    else if i >= 256 || TreeOf(H, kvs, i).None? then {}
    else
      KeepMembers(kvs, i, false); KeepMembers(kvs, i, true);
      var l, r := Keep(kvs, i, false), Keep(kvs, i, true);
      {BranchNode(TreeOf(H, l, i + 1).value.root, TreeOf(H, r, i + 1).value.root)}
        + Inputs(H, l, i + 1) + Inputs(H, r, i + 1)
  }

  /** No other entry agrees with `e` on all of the first `d` bits. */
  ghost predicate Alone(kvs: seq<Entry>, e: Entry, d: nat)
    requires |e.key| == 32 && d <= 256
  {
    forall f :: f in kvs && f != e && |f.key| == 32 ==> !AgreeBelow(e.key, f.key, d)
  }

  /** The depth, from `i` on, at which `e` has parted company with all others. */
  ghost function Depth(kvs: seq<Entry>, e: Entry, i: nat): (d: nat)
    requires |e.key| == 32 && i <= 256
    ensures i <= d <= 256 && (d == 256 || Alone(kvs, e, d))
    decreases 256 - i
  {
    if i == 256 || Alone(kvs, e, i) then i else Depth(kvs, e, i + 1)
  }

  /** What reaches the root of an entry: the key without its last octet, the value, and those bits of
      the last octet that lead to its leaf. */
  datatype Mark = Mark(prefix: Octets, value: Octets, path: seq<bool>)

  function LastBits(k: Octets, d: nat): (r: seq<bool>)
    requires |k| == 32 && d <= 256
    ensures |r| == Max(0, d - 248)
  {
    seq(Max(0, d - 248), j requires 0 <= j < d - 248 => Bit(k, 248 + j))
  }

  ghost function MarkOf(kvs: seq<Entry>, i: nat, e: Entry): Mark
    requires |e.key| == 32 && i <= 256
  {
    Mark(e.key[..31], e.value, LastBits(e.key, Depth(kvs, e, i)))
  }

  ghost function Marks(kvs: seq<Entry>, i: nat): set<Mark>
    requires i <= 256
  {
    set e | e in kvs && |e.key| == 32 :: MarkOf(kvs, i, e)
  }

  predicate MarkBit(m: Mark, i: nat)
    requires |m.prefix| == 31
  {
    if i < 248 then BitAt(m.prefix[i / 8], 7 - i % 8) else i - 248 < |m.path| && m.path[i - 248]
  }

  /** Before its leaf the mark of an entry shows the bit that decides the side. */
  lemma MarkShowsBit(kvs: seq<Entry>, i: nat, e: Entry)
    requires |e.key| == 32 && i < 256 && Depth(kvs, e, i) > i
    ensures MarkBit(MarkOf(kvs, i, e), i) == Bit(e.key, i)
  {
    hide Depth;
    if i >= 248 { assert LastBits(e.key, Depth(kvs, e, i))[i - 248] == Bit(e.key, i); }
  }

  /** Below a branch the others on the far side no longer matter. */
  lemma AloneOnSide(kvs: seq<Entry>, i: nat, side: bool, e: Entry, d: nat)
    requires StateKeys(kvs) && i < d <= 256 && e in kvs && |e.key| == 32 && Bit(e.key, i) == side
    ensures Alone(kvs, e, d) == Alone(Keep(kvs, i, side), e, d)
  {
    KeepMembers(kvs, i, side);
    hide Keep, Bit;
  }

  lemma {:induction false} SameDepth(kvs: seq<Entry>, r: seq<Entry>, e: Entry, i: nat)
    requires |e.key| == 32 && i <= 256 && forall d :: i <= d <= 256 ==> Alone(kvs, e, d) == Alone(r, e, d)
    ensures Depth(kvs, e, i) == Depth(r, e, i)
    decreases 256 - i
  {
    hide Alone;
    assert Alone(kvs, e, i) == Alone(r, e, i);
    if i < 256 { SameDepth(kvs, r, e, i + 1); }
  }

  lemma DepthOnSide(kvs: seq<Entry>, i: nat, side: bool, e: Entry)
    requires StateKeys(kvs) && i < 256 && e in kvs && |e.key| == 32 && Bit(e.key, i) == side
    ensures Depth(kvs, e, i + 1) == Depth(Keep(kvs, i, side), e, i + 1)
  {
    hide Alone, Keep, Bit, Depth;
    var r := Keep(kvs, i, side);
    forall d | i < d <= 256 ensures Alone(kvs, e, d) == Alone(r, e, d) { AloneOnSide(kvs, i, side, e, d); }
    SameDepth(kvs, r, e, i + 1);
  }

  /** Among others that agree so far an entry is not alone. */
  lemma NotAlone(kvs: seq<Entry>, i: nat, e: Entry)
    requires StateKeys(kvs) && i < 256 && AllAgreeBelow(kvs, i) && DistinctKeys(Key, kvs) && |kvs| > 1
    requires e in kvs && |e.key| == 32
    ensures !Alone(kvs, e, i) && Depth(kvs, e, i) == Depth(kvs, e, i + 1)
  {
    var n :| 0 <= n < |kvs| && kvs[n] == e;
    var m := if n == 0 then 1 else 0;
    assert Key(kvs[0]) != Key(kvs[1]);
    assert kvs[m] in kvs && kvs[m] != e && AgreeBelow(kvs[n].key, kvs[m].key, i);
    hide AgreeBelow;
  }

  lemma SideMark(kvs: seq<Entry>, i: nat, side: bool, e: Entry)
    requires StateKeys(kvs) && i < 256 && AllAgreeBelow(kvs, i) && DistinctKeys(Key, kvs) && |kvs| > 1
    requires e in kvs && |e.key| == 32
    ensures MarkBit(MarkOf(kvs, i, e), i) == Bit(e.key, i)
    ensures Bit(e.key, i) == side ==> MarkOf(Keep(kvs, i, side), i + 1, e) == MarkOf(kvs, i, e)
  {
    NotAlone(kvs, i, e);
    MarkShowsBit(kvs, i, e);
    hide Keep, Bit, Depth, Alone, AgreeBelow;
    if Bit(e.key, i) == side { DepthOnSide(kvs, i, side, e); }
  }

  /** The marks on one side of a branch are the marks that show that bit. */
  lemma MarksOfKeep(kvs: seq<Entry>, i: nat, side: bool, m: Mark)
    requires StateKeys(kvs) && i < 256 && AllAgreeBelow(kvs, i) && DistinctKeys(Key, kvs) && |kvs| > 1
    ensures m in Marks(Keep(kvs, i, side), i + 1) <==> m in Marks(kvs, i) && |m.prefix| == 31 && MarkBit(m, i) == side
  {
    KeepMembers(kvs, i, side);
    var r := Keep(kvs, i, side);
    hide Keep, Bit, MarkBit, Depth, AllAgreeBelow, DistinctKeys;
    if m in Marks(r, i + 1) {
      var e :| e in r && |e.key| == 32 && MarkOf(r, i + 1, e) == m;
      SideMark(kvs, i, side, e);
    }
    if m in Marks(kvs, i) {
      var e :| e in kvs && |e.key| == 32 && MarkOf(kvs, i, e) == m;
      SideMark(kvs, i, side, e);
    }
  }

  lemma MarkOfOne(kvs: seq<Entry>, i: nat)
    requires StateKeys(kvs) && |kvs| == 1 && i <= 256
    ensures Marks(kvs, i) == {Mark(kvs[0].key[..31], kvs[0].value, LastBits(kvs[0].key, i))}
  {
    assert kvs[0] in kvs && Alone(kvs, kvs[0], i);
    hide LastBits;
    assert MarkOf(kvs, i, kvs[0]) == Mark(kvs[0].key[..31], kvs[0].value, LastBits(kvs[0].key, i));
  }

  /** Different entries have different marks. */
  lemma MarksDiffer(kvs: seq<Entry>, i: nat, e: Entry, f: Entry)
    requires i <= 256 && e in kvs && f in kvs && |e.key| == 32 && |f.key| == 32 && e.key != f.key
    ensures MarkOf(kvs, i, e) != MarkOf(kvs, i, f)
  {
    var d := Min(Depth(kvs, e, i), Depth(kvs, f, i));
    var j := WhereTheyPart(kvs, i, e, f, d);
    hide Depth, Alone, AgreeBelow;
    if j >= 248 {
      assert LastBits(e.key, Depth(kvs, e, i))[j - 248] == Bit(e.key, j);
      assert LastBits(f.key, Depth(kvs, f, i))[j - 248] == Bit(f.key, j);
    } else {
      assert e.key[..31][j / 8] == e.key[j / 8] && f.key[..31][j / 8] == f.key[j / 8];
    }
  }

  lemma WhereTheyPart(kvs: seq<Entry>, i: nat, e: Entry, f: Entry, d: nat) returns (j: nat)
    requires i <= 256 && e in kvs && f in kvs && |e.key| == 32 && |f.key| == 32 && e.key != f.key
    requires d == Min(Depth(kvs, e, i), Depth(kvs, f, i))
    ensures j < d && Bit(e.key, j) != Bit(f.key, j)
  {
    hide Bit, Depth;
    if AgreeBelow(e.key, f.key, d) {
      assert AgreeBelow(f.key, e.key, d);
      assert d == 256;
      assert e.key[..32] == e.key && f.key[..32] == f.key;
      KeyFromBits(e.key, f.key, 32);
      assert false;
    }
    j :| 0 <= j < d && Bit(e.key, j) != Bit(f.key, j);
  }

  /** Lists with the same marks are both empty, both of one entry, or both larger. */
  lemma MarksCount(a: seq<Entry>, b: seq<Entry>, i: nat)
    requires StateKeys(a) && StateKeys(b) && i <= 256 && DistinctKeys(Key, b) && Marks(a, i) == Marks(b, i)
    ensures |a| == 0 ==> |b| == 0
    ensures |a| == 1 ==> |b| <= 1
  {
    assert |a| == 0 ==> Marks(a, i) == {};
    if |b| > 0 {
      assert b[0] in b;
      assert MarkOf(b, i, b[0]) in Marks(b, i);
    }
    if |b| > 1 && |a| == 1 {
      MarkOfOne(a, i);
      assert Key(b[0]) != Key(b[1]) && b[0] in b && b[1] in b;
      assert MarkOf(b, i, b[0]) in Marks(b, i) && MarkOf(b, i, b[1]) in Marks(b, i);
      MarksDiffer(b, i, b[0], b[1]);
    }
  }

  /** Two inputs that agree on their hash but for its first bit, or one that hashes to the root of
      the empty state, but for its first bit. */
  ghost predicate Broken(H: HashFunction, inputs: set<Octets>) {
    CollidesAmong(Shortened(H), inputs) || exists x :: x in inputs && Shortened(H)(x) == Zeros(32)
  }

  lemma SameNode(H: HashFunction, x: Octets, y: Octets, inputs: set<Octets>)
    requires x in inputs && y in inputs && ClearTopBit(H(x)) == ClearTopBit(H(y)) && !Broken(H, inputs)
    ensures x == y
  {
    assert Shortened(H)(x) == Shortened(H)(y);
  }

  lemma LeafStub(H: HashFunction, a: Entry, b: Entry, inputs: set<Octets>)
    requires |a.key| == 32 && |b.key| == 32 && LeafNode(H, a) == LeafNode(H, b) && Hashes32(H)
    requires |a.value| > 32 ==> a.value in inputs
    requires |b.value| > 32 ==> b.value in inputs
    requires !Broken(H, inputs)
    ensures a.key[..31] == b.key[..31] && a.value == b.value
  {
    hide Broken, ClearTopBit;
    var x, y := LeafNode(H, a), LeafNode(H, b);
    assert x[0] == y[0];
    assert x[1..32] == a.key[..31] && y[1..32] == b.key[..31];
    if |a.value| <= 32 {
      assert x[32..32 + |a.value|] == a.value && y[32..32 + |a.value|] == b.value;
    } else {
      assert x[32..] == H(a.value) && y[32..] == H(b.value);
      SameNode(H, a.value, b.value, inputs);
    }
  }

  lemma LeafIsNoBranch(H: HashFunction, a: Entry, l: Octets, r: Octets)
    requires |a.key| == 32 && |l| == 32
    ensures LeafNode(H, a) != BranchNode(l, r)
  {
    assert LeafNode(H, a)[0] >= 128 && BranchNode(l, r)[0] < 128;
  }

  lemma BranchSides(l: Octets, r: Octets, l': Octets, r': Octets)
    requires |l| == |l'| == 32 && BranchNode(l, r) == BranchNode(l', r')
    ensures ClearTopBit(l) == ClearTopBit(l') && r == r'
  {
    var x, y := BranchNode(l, r), BranchNode(l', r');
    assert x[..32] == ClearTopBit(l) && y[..32] == ClearTopBit(l');
    assert x[32..] == r && y[32..] == r';
  }

  /** A non-empty tree is the hash of one of its inputs; an empty one is zero. */
  lemma RootIsHash(H: HashFunction, kvs: seq<Entry>, i: nat) returns (node: Octets)
    requires StateKeys(kvs) && TreeOf(H, kvs, i).Some? && Hashes32(H)
    ensures |TreeOf(H, kvs, i).value.root| == 32
    ensures kvs == [] ==> TreeOf(H, kvs, i).value.root == Zeros(32)
    ensures kvs != [] ==> node in Inputs(H, kvs, i) && TreeOf(H, kvs, i).value.root == H(node)
    ensures |kvs| == 1 ==> node == LeafNode(H, kvs[0])
    ensures |kvs| > 1 ==>
              && i < 256 && StateKeys(Keep(kvs, i, false)) && StateKeys(Keep(kvs, i, true))
              && TreeOf(H, Keep(kvs, i, false), i + 1).Some? && TreeOf(H, Keep(kvs, i, true), i + 1).Some?
              && node == BranchNode(TreeOf(H, Keep(kvs, i, false), i + 1).value.root,
                                    TreeOf(H, Keep(kvs, i, true), i + 1).value.root)
  {
    TreeLeaf(H, kvs, i);
    node := [];
    if |kvs| == 1 {
      node := LeafNode(H, kvs[0]);
    } else if |kvs| > 1 {
      TreeStep(H, kvs, i);
      node := BranchNode(TreeOf(H, Keep(kvs, i, false), i + 1).value.root,
                         TreeOf(H, Keep(kvs, i, true), i + 1).value.root);
    }
    hide TreeOf, Keep, LeafNode, BranchNode;
  }

  lemma InputsBelow(H: HashFunction, kvs: seq<Entry>, i: nat, side: bool)
    requires StateKeys(kvs) && |kvs| > 1 && i < 256 && TreeOf(H, kvs, i).Some? && StateKeys(Keep(kvs, i, side))
    ensures Inputs(H, Keep(kvs, i, side), i + 1) <= Inputs(H, kvs, i)
  {
    hide TreeOf, Keep, BranchNode;
  }

  lemma EmptyBinds(H: HashFunction, b: seq<Entry>, i: nat, inputs: set<Octets>)
    requires StateKeys(b) && TreeOf(H, b, i).Some? && Hashes32(H) && Inputs(H, b, i) <= inputs && !Broken(H, inputs)
    requires ClearTopBit(TreeOf(H, b, i).value.root) == ClearTopBit(Zeros(32))
    ensures b == []
  {
    var y := RootIsHash(H, b, i);
    var zero := Zeros(32);
    assert ClearTopBit(zero) == zero;
    hide TreeOf, Inputs, ClearTopBit;
    assert b != [] ==> Shortened(H)(y) == zero;
  }

  lemma LeavesBind(H: HashFunction, a: seq<Entry>, b: seq<Entry>, i: nat, inputs: set<Octets>)
    requires StateKeys(a) && StateKeys(b) && |a| == 1 && |b| == 1 && Hashes32(H)
    requires LeafNode(H, a[0]) == LeafNode(H, b[0])
    requires Inputs(H, a, i) + Inputs(H, b, i) <= inputs && !Broken(H, inputs)
    requires i <= 256 && AgreeBelow(a[0].key, b[0].key, i)
    ensures Marks(a, i) == Marks(b, i)
  {
    hide LeafNode, Broken, Marks, Bit;
    LeafStub(H, a[0], b[0], inputs);
    MarkOfOne(a, i);
    MarkOfOne(b, i);
    assert LastBits(a[0].key, i) == LastBits(b[0].key, i);
  }

  /** Two lists on one path: all their keys agree so far. */
  ghost predicate Together(a: seq<Entry>, b: seq<Entry>, i: nat)
    requires StateKeys(a) && StateKeys(b) && i <= 256
  {
    && AllAgreeBelow(a, i) && AllAgreeBelow(b, i)
    && forall n, m :: 0 <= n < |a| && 0 <= m < |b| ==> AgreeBelow(a[n].key, b[m].key, i)
  }

  lemma KeepTogether(a: seq<Entry>, b: seq<Entry>, i: nat, side: bool)
    requires StateKeys(a) && StateKeys(b) && i < 256 && Together(a, b, i)
    ensures StateKeys(Keep(a, i, side)) && StateKeys(Keep(b, i, side))
    ensures Together(Keep(a, i, side), Keep(b, i, side), i + 1)
  {
    KeepAgrees(a, i, side);
    KeepAgrees(b, i, side);
    hide Keep, Bit, AllAgreeBelow, AgreeBelow;
    var r, t := Keep(a, i, side), Keep(b, i, side);
    forall n, m | 0 <= n < |r| && 0 <= m < |t| ensures AgreeBelow(r[n].key, t[m].key, i + 1) {
      AcrossAgree(a, b, i, side, r[n], t[m]);
    }
  }

  lemma AcrossAgree(a: seq<Entry>, b: seq<Entry>, i: nat, side: bool, x: Entry, y: Entry)
    requires StateKeys(a) && StateKeys(b) && i < 256 && Together(a, b, i)
    requires x in Keep(a, i, side) && y in Keep(b, i, side)
    ensures |x.key| == 32 && |y.key| == 32 && AgreeBelow(x.key, y.key, i + 1)
  {
    KeepMembers(a, i, side);
    KeepMembers(b, i, side);
    hide Keep, Bit, AllAgreeBelow, AgreeBelow;
    var n :| 0 <= n < |a| && a[n] == x;
    var m :| 0 <= m < |b| && b[m] == y;
    assert AgreeBelow(a[n].key, b[m].key, i);
    OneBitMore(x.key, y.key, i);
  }

  lemma OneBitMore(a: Octets, b: Octets, i: nat)
    requires |a| == 32 && |b| == 32 && i < 256 && AgreeBelow(a, b, i) && Bit(a, i) == Bit(b, i)
    ensures AgreeBelow(a, b, i + 1)
  {
    hide Bit;
  }

  /** Marks that are the same on both sides are the same. */
  lemma MarksJoin(a: seq<Entry>, b: seq<Entry>, i: nat)
    requires StateKeys(a) && StateKeys(b) && i < 256 && |a| > 1 && |b| > 1 && Together(a, b, i)
    requires DistinctKeys(Key, a) && DistinctKeys(Key, b)
    requires Marks(Keep(a, i, false), i + 1) == Marks(Keep(b, i, false), i + 1)
    requires Marks(Keep(a, i, true), i + 1) == Marks(Keep(b, i, true), i + 1)
    ensures Marks(a, i) == Marks(b, i)
  {
    MarkPrefixes(a, i);
    MarkPrefixes(b, i);
    hide Marks, MarkBit, Keep, DistinctKeys, AllAgreeBelow;
    forall m ensures m in Marks(a, i) <==> m in Marks(b, i) {
      MarksOfKeep(a, i, false, m); MarksOfKeep(a, i, true, m);
      MarksOfKeep(b, i, false, m); MarksOfKeep(b, i, true, m);
    }
  }

  lemma MarkPrefixes(kvs: seq<Entry>, i: nat)
    requires i <= 256
    ensures forall m :: m in Marks(kvs, i) ==> |m.prefix| == 31
  {
  }

  lemma MixedDiffer(H: HashFunction, a: seq<Entry>, b: seq<Entry>, i: nat, r: Octets)
    requires StateKeys(a) && StateKeys(b) && |a| == 1 && |b| > 1 && i < 256 && Hashes32(H)
    requires StateKeys(Keep(b, i, false)) && TreeOf(H, Keep(b, i, false), i + 1).Some?
    ensures LeafNode(H, a[0]) != BranchNode(TreeOf(H, Keep(b, i, false), i + 1).value.root, r)
  {
    var y := RootIsHash(H, Keep(b, i, false), i + 1);
    hide TreeOf, Keep, LeafNode, BranchNode;
    LeafIsNoBranch(H, a[0], TreeOf(H, Keep(b, i, false), i + 1).value.root, r);
  }

  /** Two states on one path: equal roots, even without their first bit, mean equal marks. */
  lemma {:induction false} RootBindsAt(H: HashFunction, a: seq<Entry>, b: seq<Entry>, i: nat, inputs: set<Octets>)
    requires StateKeys(a) && StateKeys(b) && TreeOf(H, a, i).Some? && TreeOf(H, b, i).Some? && Hashes32(H)
    requires ClearTopBit(TreeOf(H, a, i).value.root) == ClearTopBit(TreeOf(H, b, i).value.root)
    requires Inputs(H, a, i) + Inputs(H, b, i) <= inputs && !Broken(H, inputs)
    requires i <= 256 && DistinctKeys(Key, a) && DistinctKeys(Key, b) && Together(a, b, i)
    ensures Marks(a, i) == Marks(b, i)
    decreases 256 - i
  {
    assert |a| == 1 && |b| == 1 ==> AgreeBelow(a[0].key, b[0].key, i);
    hide TreeOf, Keep, Broken, LeafNode, BranchNode, ClearTopBit, Inputs, Hashes32, StateKeys;
    hide Marks, Together, DistinctKeys, AgreeBelow;
    var x := RootIsHash(H, a, i);
    var y := RootIsHash(H, b, i);
    if a == [] {
      EmptyBinds(H, b, i, inputs);
    } else if b == [] {
      EmptyBinds(H, a, i, inputs);
    } else {
      SameNode(H, x, y, inputs);
      if |a| == 1 && |b| == 1 {
        LeavesBind(H, a, b, i, inputs);
      } else if |a| == 1 {
        MixedDiffer(H, a, b, i, TreeOf(H, Keep(b, i, true), i + 1).value.root);
      } else if |b| == 1 {
        MixedDiffer(H, b, a, i, TreeOf(H, Keep(a, i, true), i + 1).value.root);
      } else {
        BranchesMatch(H, a, b, i);
        InputsBelow(H, a, i, false); InputsBelow(H, a, i, true);
        InputsBelow(H, b, i, false); InputsBelow(H, b, i, true);
        KeepTogether(a, b, i, false); KeepTogether(a, b, i, true);
        KeepDistinct(Key, a, i, false); KeepDistinct(Key, a, i, true);
        KeepDistinct(Key, b, i, false); KeepDistinct(Key, b, i, true);
        RootBindsAt(H, Keep(a, i, false), Keep(b, i, false), i + 1, inputs);
        RootBindsAt(H, Keep(a, i, true), Keep(b, i, true), i + 1, inputs);
        MarksJoin(a, b, i);
      }
    }
  }

  lemma BranchesMatch(H: HashFunction, a: seq<Entry>, b: seq<Entry>, i: nat)
    requires i < 256 && StateKeys(a) && StateKeys(b) && Hashes32(H)
    requires StateKeys(Keep(a, i, false)) && StateKeys(Keep(a, i, true))
    requires StateKeys(Keep(b, i, false)) && StateKeys(Keep(b, i, true))
    requires TreeOf(H, Keep(a, i, false), i + 1).Some? && TreeOf(H, Keep(a, i, true), i + 1).Some?
    requires TreeOf(H, Keep(b, i, false), i + 1).Some? && TreeOf(H, Keep(b, i, true), i + 1).Some?
    requires BranchNode(TreeOf(H, Keep(a, i, false), i + 1).value.root, TreeOf(H, Keep(a, i, true), i + 1).value.root)
          == BranchNode(TreeOf(H, Keep(b, i, false), i + 1).value.root, TreeOf(H, Keep(b, i, true), i + 1).value.root)
    ensures ClearTopBit(TreeOf(H, Keep(a, i, false), i + 1).value.root)
         == ClearTopBit(TreeOf(H, Keep(b, i, false), i + 1).value.root)
    ensures ClearTopBit(TreeOf(H, Keep(a, i, true), i + 1).value.root)
         == ClearTopBit(TreeOf(H, Keep(b, i, true), i + 1).value.root)
  {
    hide TreeOf, Keep, BranchNode, ClearTopBit, Inputs, LeafNode;
    var x := RootIsHash(H, Keep(a, i, false), i + 1);
    var y := RootIsHash(H, Keep(b, i, false), i + 1);
    BranchSides(TreeOf(H, Keep(a, i, false), i + 1).value.root, TreeOf(H, Keep(a, i, true), i + 1).value.root,
                TreeOf(H, Keep(b, i, false), i + 1).value.root, TreeOf(H, Keep(b, i, true), i + 1).value.root);
  }

  /** The root binds the marks of the state: two states with one root have the same marks, or the
      hash function fails on what was hashed for the two roots, by two inputs that agree but for the
      first bit of their hash or one that looks like the empty state. */
  lemma RootBinds(H: HashFunction, a: seq<Entry>, b: seq<Entry>)
    requires StateKeys(a) && StateKeys(b) && DistinctKeys(Key, a) && DistinctKeys(Key, b) && Hashes32(H)
    requires TreeOf(H, a, 0).Some? && TreeOf(H, b, 0).Some?
    requires TreeOf(H, a, 0).value.root == TreeOf(H, b, 0).value.root
    ensures Marks(a, 0) == Marks(b, 0) || Broken(H, Inputs(H, a, 0) + Inputs(H, b, 0))
  {
    assert Together(a, b, 0);
    hide TreeOf, Inputs, Broken, Marks, Together;
    var inputs := Inputs(H, a, 0) + Inputs(H, b, 0);
    if !Broken(H, inputs) { RootBindsAt(H, a, b, 0, inputs); }
  }

  /** The last octet of a lone key never reaches the root. */
  lemma LastOctetIsDropped(H: HashFunction, k: Octets, k': Octets, v: Octets)
    requires |k| == 32 && |k'| == 32 && k[..31] == k'[..31]
    ensures TreeOf(H, [Entry(k, v)], 0) == TreeOf(H, [Entry(k', v)], 0)
  {
    TreeLeaf(H, [Entry(k, v)], 0);
    TreeLeaf(H, [Entry(k', v)], 0);
    assert LeafNode(H, Entry(k, v)) == LeafNode(H, Entry(k', v));
  }

  /** No two keys of the two states differ in their last octet only. */
  ghost predicate LastOctetsFollow(a: seq<Entry>, b: seq<Entry>) {
    forall x, y :: x in a && y in b && |x.key| == 32 && |y.key| == 32 && x.key[..31] == y.key[..31] ==> x.key == y.key
  }

  lemma MarksGiveEntries(a: seq<Entry>, b: seq<Entry>)
    requires StateKeys(a) && StateKeys(b) && Marks(a, 0) == Marks(b, 0) && LastOctetsFollow(a, b)
    ensures forall e :: e in a ==> e in b
  {
    hide Depth;
    forall e | e in a ensures e in b {
      assert MarkOf(a, 0, e) in Marks(b, 0);
      var f :| f in b && |f.key| == 32 && MarkOf(b, 0, f) == MarkOf(a, 0, e);
      assert f == e;
    }
  }

  /** So equal roots mean equal states where the first 31 octets decide a key. */
  lemma RootDecidesState(H: HashFunction, a: seq<Entry>, b: seq<Entry>)
    requires StateKeys(a) && StateKeys(b) && DistinctKeys(Key, a) && DistinctKeys(Key, b) && Hashes32(H)
    requires TreeOf(H, a, 0).Some? && TreeOf(H, b, 0).Some? && LastOctetsFollow(a, b)
    requires TreeOf(H, a, 0).value.root == TreeOf(H, b, 0).value.root
    ensures Entries(a) == Entries(b) || Broken(H, Inputs(H, a, 0) + Inputs(H, b, 0))
  {
    RootBinds(H, a, b);
    hide TreeOf, Inputs, Broken, Marks;
    if Marks(a, 0) == Marks(b, 0) {
      MarksGiveEntries(a, b);
      MarksGiveEntries(b, a);
    }
  }

  // --------------------------------------------------------------- what decides the root

  lemma SameLeaf(H: HashFunction, a: seq<Entry>, b: seq<Entry>, i: nat)
    requires StateKeys(a) && StateKeys(b) && |a| == |b| == 1 && i <= 256 && Marks(a, i) == Marks(b, i)
    ensures Leaf(H, a[0]) == Leaf(H, b[0])
  {
    MarkOfOne(a, i);
    MarkOfOne(b, i);
    hide Marks, LastBits;
    assert Mark(a[0].key[..31], a[0].value, LastBits(a[0].key, i)) in Marks(b, i);
    assert LeafNode(H, a[0]) == LeafNode(H, b[0]);
  }

  /** The tree of a list is decided by its marks. */
  lemma {:induction false} MarksDecideTree(H: HashFunction, a: seq<Entry>, b: seq<Entry>, i: nat)
    requires StateKeys(a) && StateKeys(b) && i <= 256 && AllAgreeBelow(a, i) && AllAgreeBelow(b, i)
    requires DistinctKeys(Key, a) && DistinctKeys(Key, b) && Marks(a, i) == Marks(b, i)
    ensures TreeOf(H, a, i) == TreeOf(H, b, i)
    decreases 256 - i, 1
  {
    hide TreeOf, Keep, BranchNode, Marks, LeafNode, Leaf, AllAgreeBelow, DistinctKeys;
    TreeLeaf(H, a, i);
    TreeLeaf(H, b, i);
    MarksCount(a, b, i);
    MarksCount(b, a, i);
    if |a| == 1 {
      SameLeaf(H, a, b, i);
    } else if |a| > 1 && i < 256 {
      TreeStep(H, a, i);
      TreeStep(H, b, i);
      SidesMatch(H, a, b, i, false);
      SidesMatch(H, a, b, i, true);
    }
  }

  lemma {:induction false} SidesMatch(H: HashFunction, a: seq<Entry>, b: seq<Entry>, i: nat, side: bool)
    requires StateKeys(a) && StateKeys(b) && i < 256 && AllAgreeBelow(a, i) && AllAgreeBelow(b, i)
    requires DistinctKeys(Key, a) && DistinctKeys(Key, b) && Marks(a, i) == Marks(b, i) && |a| > 1 && |b| > 1
    ensures StateKeys(Keep(a, i, side)) && StateKeys(Keep(b, i, side))
    ensures TreeOf(H, Keep(a, i, side), i + 1) == TreeOf(H, Keep(b, i, side), i + 1)
    decreases 256 - i, 0
  {
    hide TreeOf, Keep, Marks, DistinctKeys, AllAgreeBelow, MarkBit;
    var left, right := Marks(Keep(a, i, side), i + 1), Marks(Keep(b, i, side), i + 1);
    forall m ensures m in left <==> m in right {
      MarksOfKeep(a, i, side, m);
      MarksOfKeep(b, i, side, m);
    }
    KeepAgrees(a, i, side); KeepAgrees(b, i, side);
    KeepDistinct(Key, a, i, side); KeepDistinct(Key, b, i, side);
    MarksDecideTree(H, Keep(a, i, side), Keep(b, i, side), i + 1);
  }

  /** Two states have one root exactly when they have the same marks, unless the hash function fails
      on what was hashed for them. */
  lemma SameRootExactlyWhen(H: HashFunction, a: seq<Entry>, b: seq<Entry>)
    requires StateKeys(a) && StateKeys(b) && DistinctKeys(Key, a) && DistinctKeys(Key, b) && Hashes32(H)
    ensures TreeOf(H, a, 0).Some? && TreeOf(H, b, 0).Some?
    ensures Marks(a, 0) == Marks(b, 0) ==> TreeOf(H, a, 0) == TreeOf(H, b, 0)
    ensures TreeOf(H, a, 0).value.root == TreeOf(H, b, 0).value.root ==>
              Marks(a, 0) == Marks(b, 0) || Broken(H, Inputs(H, a, 0) + Inputs(H, b, 0))
  {
    hide TreeOf, Marks, Inputs, Broken;
    SucceedsExactlyWhenDistinct(H, a);
    SucceedsExactlyWhenDistinct(H, b);
    if Marks(a, 0) == Marks(b, 0) { MarksDecideTree(H, a, b, 0); }
    if TreeOf(H, a, 0).value.root == TreeOf(H, b, 0).value.root { RootBinds(H, a, b); }
  }

  // ------------------------------------------------------------------ the store

  ghost predicate WellStored(H: HashFunction, t: Tree, empty: bool) {
    && (forall n :: 0 <= n < |t.stored| ==> t.stored[n].hash == H(t.stored[n].node))
    && (!empty ==> t.stored != [] && t.stored[|t.stored| - 1].hash == t.root)
  }

  lemma BranchWellStored(H: HashFunction, l: Tree, r: Tree, a: bool, b: bool)
    requires WellStored(H, l, a) && WellStored(H, r, b)
    ensures WellStored(H, Branch(H, Some(l), Some(r)).value, false)
  {
    hide BranchNode;
  }

  /** Every node is stored under its own hash, and the root of a non-empty state is the node
      stored last. */
  lemma {:induction false} StoredUnderOwnHash(H: HashFunction, kvs: seq<Entry>, i: nat)
    requires StateKeys(kvs) && TreeOf(H, kvs, i).Some?
    ensures WellStored(H, TreeOf(H, kvs, i).value, kvs == [])
    decreases 256 - i
  {
    hide TreeOf, Keep, BranchNode, LeafNode;
    TreeLeaf(H, kvs, i);
    if |kvs| > 1 {
      TreeStep(H, kvs, i);
      var l, r := Keep(kvs, i, false), Keep(kvs, i, true);
      StoredUnderOwnHash(H, l, i + 1);
      StoredUnderOwnHash(H, r, i + 1);
      BranchWellStored(H, TreeOf(H, l, i + 1).value, TreeOf(H, r, i + 1).value, l == [], r == []);
    }
  }

  /** What a batch of puts leaves in a store. */
  function PutAll(store: map<Octets, Octets>, batch: seq<Stored>): map<Octets, Octets> {
    if batch == [] then store
    else PutAll(store, batch[..|batch| - 1])[batch[|batch| - 1].hash := batch[|batch| - 1].node]
  }

  /** The trie database: a content-addressed store and the last root. */
  class DB {
    const H: HashFunction
    var store: map<Octets, Octets>
    var root: Octets

    /** Every node is kept under its own hash. */
    ghost predicate Valid()
      reads this
    {
      forall h :: h in store ==> H(store[h]) == h
    }

    constructor (H: HashFunction)
      ensures Valid() && this.H == H && store == map[] && root == Zeros(32)
    {
      this.H := H;
      store := map[];
      root := Zeros(32);
    }

    /** `MerklizeAndCommit`: puts all nodes of the new tree, or, on failure, nothing. */
    method MerklizeAndCommit(kvs: seq<Entry>) returns (r: Option<Octets>)
      requires Valid() && StateKeys(kvs)
      modifies this
      ensures Valid()
      ensures r.Some? <==> DistinctKeys(Key, kvs)
      ensures r.None? ==> store == old(store) && root == old(root)
      ensures r.Some? ==> TreeOf(H, kvs, 0).Some? && root == r.value == TreeOf(H, kvs, 0).value.root
      ensures r.Some? ==> store == PutAll(old(store), TreeOf(H, kvs, 0).value.stored)
      ensures r.Some? && kvs != [] ==> root in store
    {
      hide TreeOf, DistinctKeys;
      SucceedsExactlyWhenDistinct(H, kvs);
      var batch;
      r, batch := Merklize(H, kvs, 0, []);
      if r.None? { return; }
      assert [] + TreeOf(H, kvs, 0).value.stored == TreeOf(H, kvs, 0).value.stored;
      StoredUnderOwnHash(H, kvs, 0);
      for n := 0 to |batch|
        invariant Valid() && root == old(root)
        invariant store == PutAll(old(store), batch[..n])
        invariant n > 0 ==> batch[n - 1].hash in store
      {
        assert batch[..n + 1][..n] == batch[..n];
        store := store[batch[n].hash := batch[n].node];
      }
      assert batch[..|batch|] == batch;
      root := r.value;
    }
  }
}
