/** Merkle mountain ranges: appending a leaf is incrementing a binary counter whose digits are
    perfect trees. Also the list of recent blocks, which carries the range along. */
module MountainRange {
  import opened Bytes
  import opened Hashing

  type Peaks = seq<Option<Hash>>

  function ReplacePeakAt(peaks: Peaks, i: nat, v: Option<Hash>): Peaks
    requires i < |peaks|
  {
    peaks[i := v]
  }

  function PlacePeak(H: Combine, peaks: Peaks, item: Hash, pos: nat): Peaks
    requires pos <= |peaks|
    decreases |peaks| - pos
  {
    if pos >= |peaks| then peaks + [Some(item)]
    else match peaks[pos]
    case None => ReplacePeakAt(peaks, pos, Some(item))
    case Some(p) => PlacePeak(H, ReplacePeakAt(peaks, pos, None), H(p, item), pos + 1)
  }

  function Append(H: Combine, r: Peaks, l: Hash): Peaks {
    PlacePeak(H, r, l, 0)
  }

  // ------------------------------------------------------ the range, level by level

  /** Neighbours hashed together; an odd one out at the end is left for its own peak. */
  function Pairs(H: Combine, nodes: seq<Hash>): (r: seq<Hash>)
    ensures |r| == |nodes| / 2
    ensures forall j :: 0 <= j < |r| ==> r[j] == H(nodes[2 * j], nodes[2 * j + 1])
  {
    seq(|nodes| / 2, j requires 0 <= j < |nodes| / 2 => H(nodes[2 * j], nodes[2 * j + 1]))
  }

  /** The range of a list of leaves, defined from the leaves alone. */
  function RangeOf(H: Combine, nodes: seq<Hash>): Peaks
    decreases |nodes|
  {
    if nodes == [] then []
    else [if |nodes| % 2 == 1 then Some(nodes[|nodes| - 1]) else None] + RangeOf(H, Pairs(H, nodes))
  }

  lemma {:induction false} PlacePeakShift(H: Combine, d: Option<Hash>, peaks: Peaks, item: Hash, pos: nat)
    requires pos <= |peaks|
    ensures PlacePeak(H, [d] + peaks, item, pos + 1) == [d] + PlacePeak(H, peaks, item, pos)
    decreases |peaks| - pos
  {
    if pos < |peaks| {
      assert ([d] + peaks)[pos + 1] == peaks[pos];
      match peaks[pos]
      case None => assert ([d] + peaks)[pos + 1 := Some(item)] == [d] + peaks[pos := Some(item)];
      case Some(p) =>
        assert ([d] + peaks)[pos + 1 := None] == [d] + peaks[pos := None];
        PlacePeakShift(H, d, peaks[pos := None], H(p, item), pos + 1);
    }
  }

  /** One append is one step of the counter: it turns the range of the leaves so far into the
      range of the leaves with the new one. */
  lemma {:induction false} AppendExtendsRange(H: Combine, nodes: seq<Hash>, l: Hash)
    ensures Append(H, RangeOf(H, nodes), l) == RangeOf(H, nodes + [l])
    decreases |nodes|
  {
    var all := nodes + [l];
    if nodes == [] {
      assert Pairs(H, all) == [];
    } else {
      var up := RangeOf(H, Pairs(H, nodes));
      var range := RangeOf(H, nodes);
      if |nodes| % 2 == 0 {
        assert Pairs(H, all) == Pairs(H, nodes);
        assert range[0 := Some(l)] == [Some(l)] + up;
      } else {
        var last := nodes[|nodes| - 1];
        assert Pairs(H, all) == Pairs(H, nodes) + [H(last, l)];
        assert range[0 := None] == [None] + up;
        PlacePeakShift(H, None, up, H(last, l), 0);
        AppendExtendsRange(H, Pairs(H, nodes), H(last, l));
      }
    }
  }

  function AppendAll(H: Combine, r: Peaks, leaves: seq<Hash>): Peaks {
    if leaves == [] then r else Append(H, AppendAll(H, r, leaves[..|leaves| - 1]), leaves[|leaves| - 1])
  }

  lemma {:induction false} AppendAllIsRange(H: Combine, leaves: seq<Hash>)
    ensures AppendAll(H, [], leaves) == RangeOf(H, leaves)
  {
    if leaves != [] {
      var n := |leaves| - 1;
      AppendAllIsRange(H, leaves[..n]);
      AppendExtendsRange(H, leaves[..n], leaves[n]);
      assert leaves[..n] + [leaves[n]] == leaves;
    }
  }

  // ------------------------------------------------------------- perfect trees

  /** The root of the balanced binary tree over the leaves; over `2^k` leaves it is perfect. */
  function TreeRoot(H: Combine, leaves: seq<Hash>): Hash
    requires leaves != []
    decreases |leaves|
  {
    if |leaves| == 1 then leaves[0]
    else H(TreeRoot(H, leaves[..|leaves| / 2]), TreeRoot(H, leaves[|leaves| / 2..]))
  }

  /** Pairing commutes with taking an even block. */
  lemma PairsOfBlock(H: Combine, nodes: seq<Hash>, lo: nat, hi: nat)
    requires lo <= hi && 2 * hi <= |nodes|
    ensures Pairs(H, nodes)[lo..hi] == Pairs(H, nodes[2 * lo..2 * hi])
  {
  }

  /** A perfect tree can be built from the bottom: pair the leaves first. */
  lemma {:induction false} RootOfPairs(H: Combine, k: nat, leaves: seq<Hash>)
    requires k > 0 && |leaves| == Pow2(k)
    ensures |Pairs(H, leaves)| > 0
    ensures TreeRoot(H, leaves) == TreeRoot(H, Pairs(H, leaves))
  {
    hide TreeRoot, Pairs;
    if k == 1 {
      assert Pow2(1) == 2;
      RootOfTwo(H, leaves);
    } else {
      var q := Pow2(k - 2);
      assert Pow2(k - 1) == 2 * q && |leaves| == 4 * q;
      PairsOfHalves(H, leaves, q);
      RootOfPairs(H, k - 1, leaves[..2 * q]);
      RootOfPairs(H, k - 1, leaves[2 * q..]);
      TreeUnfold(H, leaves, 2 * q);
      TreeUnfold(H, Pairs(H, leaves), q);
    }
  }

  lemma RootOfTwo(H: Combine, leaves: seq<Hash>)
    requires |leaves| == 2
    ensures |Pairs(H, leaves)| > 0
    ensures TreeRoot(H, leaves) == TreeRoot(H, Pairs(H, leaves))
  {
    TreeUnfold(H, leaves, 1);
  }

  lemma TreeUnfold(H: Combine, leaves: seq<Hash>, m: nat)
    requires |leaves| == 2 * m > 0
    ensures TreeRoot(H, leaves) == H(TreeRoot(H, leaves[..m]), TreeRoot(H, leaves[m..]))
  {
  }

  lemma PairsOfHalves(H: Combine, leaves: seq<Hash>, q: nat)
    requires |leaves| == 4 * q
    ensures |Pairs(H, leaves)| == 2 * q
    ensures Pairs(H, leaves)[..q] == Pairs(H, leaves[..2 * q])
    ensures Pairs(H, leaves)[q..] == Pairs(H, leaves[2 * q..])
  {
    PairsOfBlock(H, leaves, 0, q);
    PairsOfBlock(H, leaves, q, 2 * q);
    assert leaves[0..2 * q] == leaves[..2 * q] && leaves[2 * q..4 * q] == leaves[2 * q..];
  }

  /** Where the block of peak `i` starts among `n` leaves: after the leaves of higher peaks. */
  function BlockStart(n: nat, i: nat): nat {
    Shl(Shr(n, i + 1), i + 1)
  }

  lemma BlockFits(n: nat, i: nat)
    ensures BlockStart(n, i) + (if Shr(n, i) % 2 == 1 then Pow2(i) else 0) == Shl(Shr(n, i), i) <= n
    ensures BlockStart(n, i) == 2 * Shl(Shr(n, i + 1), i)
  {
    SplitBits(n, i);
    ShrShr(n, i, 1);
    var d := Shr(n, i);
    assert Shr(d, 1) == d / 2;
    ShlAdd(2 * (d / 2), d % 2, i);
    ShlShl(d / 2, 1, i);
    assert Shl(d / 2, 1) == 2 * (d / 2);
    ShlPow2(0, i);
    ShlZero(i);
  }

  lemma {:induction false} RangeLength(H: Combine, nodes: seq<Hash>, i: nat)
    ensures i < |RangeOf(H, nodes)| <==> Shr(|nodes|, i) > 0
    decreases i
  {
    if i == 0 {
      assert Shr(|nodes|, 0) == |nodes|;
    } else if nodes == [] {
      ShrZero(i);
    } else {
      RangeLength(H, Pairs(H, nodes), i - 1);
    }
  }

  lemma {:induction false} ShrZero(k: nat)
    ensures Shr(0, k) == 0
  {
    if k != 0 { ShrZero(k - 1); }
  }

  lemma PairsLength(H: Combine, nodes: seq<Hash>)
    ensures |Pairs(H, nodes)| == |nodes| / 2
  {
  }

  /** One level up there are half as many nodes and the blocks are half as long. */
  lemma LevelUp(n: nat, i: nat)
    requires i > 0
    ensures BlockStart(n, i) == 2 * BlockStart(n / 2, i - 1)
    ensures Shr(n, i) == Shr(n / 2, i - 1)
    ensures Pow2(i) == 2 * Pow2(i - 1) && Pow2(i - 1) > 0
  {
    assert Shr(n, i + 1) == Shr(n / 2, i);
  }

  ghost predicate PeakHolds(H: Combine, leaves: seq<Hash>, i: nat, peak: Option<Hash>) {
    var lo := BlockStart(|leaves|, i);
    && (peak.Some? <==> Shr(|leaves|, i) % 2 == 1)
    && (peak.Some? ==> lo + Pow2(i) <= |leaves| && peak.value == TreeRoot(H, leaves[lo..lo + Pow2(i)]))
  }

  lemma PeakFromPairs(H: Combine, leaves: seq<Hash>, i: nat, peak: Option<Hash>)
    requires i > 0 && PeakHolds(H, Pairs(H, leaves), i - 1, peak)
    ensures PeakHolds(H, leaves, i, peak)
  {
    hide Shr, BlockStart, Pow2, TreeRoot, Pairs;
    var n := |leaves|;
    LevelUp(n, i);
    PairsLength(H, leaves);
    if peak.Some? {
      var lo := BlockStart(n / 2, i - 1);
      var hi := lo + Pow2(i - 1);
      PairsOfBlock(H, leaves, lo, hi);
      RootOfPairs(H, i, leaves[2 * lo..2 * hi]);
    }
  }

  lemma LowestPeak(H: Combine, leaves: seq<Hash>)
    requires leaves != []
    ensures PeakHolds(H, leaves, 0, RangeOf(H, leaves)[0])
  {
    var n := |leaves|;
    assert Shr(n, 0) == n && Shr(n, 1) == n / 2 && Shl(n / 2, 1) == 2 * (n / 2) && Pow2(0) == 1;
    assert BlockStart(n, 0) == 2 * (n / 2);
    hide Shr, Shl, BlockStart, Pow2;
    if n % 2 == 1 { assert leaves[n - 1..n][0] == leaves[n - 1]; }
  }

  /** Peak `i` is present exactly when bit `i` of the number of leaves is one, and is then the
      root of the perfect tree over its own block of `2^i` consecutive leaves. */
  lemma {:induction false} PeakIsPerfectTree(H: Combine, leaves: seq<Hash>, i: nat)
    requires i < |RangeOf(H, leaves)|
    ensures PeakHolds(H, leaves, i, RangeOf(H, leaves)[i])
    decreases i
  {
    hide PeakHolds, Pairs;
    if i == 0 {
      LowestPeak(H, leaves);
    } else {
      var up := Pairs(H, leaves);
      PeakIsPerfectTree(H, up, i - 1);
      PeakFromPairs(H, leaves, i, RangeOf(H, up)[i - 1]);
      assert RangeOf(H, leaves)[i] == RangeOf(H, up)[i - 1];
    }
  }

  /** The main result about `Append`: after `n` appends to the empty range there is a peak `i`
      exactly when bit `i` of `n` is one, and it is the perfect tree over its own block. */
  lemma AppendedRange(H: Combine, leaves: seq<Hash>, i: nat)
    ensures i < |AppendAll(H, [], leaves)| <==> Shr(|leaves|, i) > 0
    ensures i < |AppendAll(H, [], leaves)| ==> PeakHolds(H, leaves, i, AppendAll(H, [], leaves)[i])
  {
    AppendAllIsRange(H, leaves);
    RangeLength(H, leaves, i);
    if i < |RangeOf(H, leaves)| { PeakIsPerfectTree(H, leaves, i); }
  }

  /** The blocks of the peaks follow each other: the block of a present peak `i` ends where the
      leaves not covered by peak `i` or a higher one begin, and those are fewer than `2^i`. */
  lemma BlocksTile(n: nat, i: nat)
    requires Shr(n, i) % 2 == 1
    ensures BlockStart(n, i) + Pow2(i) == Shl(Shr(n, i), i) == n - Low(n, i)
    ensures i > 0 ==> BlockStart(n, i - 1) == Shl(Shr(n, i), i)
    ensures Low(n, i) < Pow2(i)
  {
    SplitBits(n, i);
    BlockFits(n, i);
  }

  // --------------------------------------------------------------- super-peak

  function Present(peaks: Peaks): seq<Hash> {
    if peaks == [] then []
    else (if peaks[0].Some? then [peaks[0].value] else []) + Present(peaks[1..])
  }

  lemma {:induction false} PresentSnoc(peaks: Peaks, i: nat)
    requires i < |peaks|
    ensures Present(peaks[..i + 1]) == Present(peaks[..i]) + (if peaks[i].Some? then [peaks[i].value] else [])
  {
    if i == 0 {
      assert peaks[..1] == [peaks[0]] && peaks[..1][1..] == [];
    } else {
      PresentSnoc(peaks[1..], i - 1);
      assert peaks[..i + 1][1..] == peaks[1..][..i];
      assert peaks[..i][1..] == peaks[1..][..i - 1];
    }
  }

  /** The hashes folded into one; `K` hashes the tag "peak" and two hashes. */
  function Fold(K: Combine, hs: seq<Hash>): Hash {
    if |hs| == 0 then ZERO_HASH
    else if |hs| == 1 then hs[0]
    else K(Fold(K, hs[..|hs| - 1]), hs[|hs| - 1])
  }

  /** Filters out the absent peaks, then recurses on the present ones. */
  method SuperPeak(K: Combine, peaks: Peaks) returns (r: Hash)
    ensures r == Fold(K, Present(peaks))
    decreases |peaks|
  {
    var valid: seq<Hash> := [];
    for i := 0 to |peaks|
      invariant valid == Present(peaks[..i]) && |valid| <= i
    {
      PresentSnoc(peaks, i);
      if peaks[i].Some? { valid := valid + [peaks[i].value]; }
    }
    assert peaks[..|peaks|] == peaks;
    if |valid| == 0 { return ZERO_HASH; }
    if |valid| == 1 { return valid[0]; }
    var n := |valid| - 1;
    var rest := seq(n, i requires 0 <= i < n => Some(valid[i]));
    PresentOfAll(rest, valid[..n]);
    var sub := SuperPeak(K, rest);
    r := K(sub, valid[n]);
  }

  lemma {:induction false} PresentOfAll(peaks: Peaks, hs: seq<Hash>)
    requires |peaks| == |hs| && forall i :: 0 <= i < |hs| ==> peaks[i] == Some(hs[i])
    ensures Present(peaks) == hs
  {
    if hs != [] {
      PresentOfAll(peaks[1..], hs[1..]);
      assert hs == [hs[0]] + hs[1..];
    }
  }

  /** The pairs hashed to build the range of a list. */
  ghost function RangeInputs(H: Combine, nodes: seq<Hash>): set<(Hash, Hash)>
    decreases |nodes|
  {
    if nodes == [] then {}
    else (set j | 0 <= j < |nodes| / 2 :: (nodes[2 * j], nodes[2 * j + 1])) + RangeInputs(H, Pairs(H, nodes))
  }

  /** The pairs hashed to fold a list. */
  ghost function FoldInputs(K: Combine, hs: seq<Hash>): set<(Hash, Hash)> {
    if |hs| <= 1 then {}
    else {(Fold(K, hs[..|hs| - 1]), hs[|hs| - 1])} + FoldInputs(K, hs[..|hs| - 1])
  }

  /** The super-peak of a range commits to every leaf: two lists of leaves of one length with the
      same super-peak are equal, or there is a collision among the pairs hashed to build the two
      ranges, or among those hashed to fold their peaks. */
  lemma SuperPeakBinds(H: Combine, K: Combine, a: seq<Hash>, b: seq<Hash>)
    requires |a| == |b|
    requires Fold(K, Present(RangeOf(H, a))) == Fold(K, Present(RangeOf(H, b)))
    ensures || a == b
            || CollidesAmong(Paired(H), RangeInputs(H, a) + RangeInputs(H, b))
            || CollidesAmong(Paired(K), FoldInputs(K, Present(RangeOf(H, a))) + FoldInputs(K, Present(RangeOf(H, b))))
  {
    hide CollidesAmong, FoldInputs, RangeInputs;
    PresentLength(H, a, b);
    var x, y := Present(RangeOf(H, a)), Present(RangeOf(H, b));
    FoldBinds(K, x, y, FoldInputs(K, x) + FoldInputs(K, y));
    if x == y { RangeBinds(H, a, b, RangeInputs(H, a) + RangeInputs(H, b)); }
  }

  lemma {:induction false} PresentLength(H: Combine, a: seq<Hash>, b: seq<Hash>)
    requires |a| == |b|
    ensures |Present(RangeOf(H, a))| == |Present(RangeOf(H, b))|
    decreases |a|
  {
    if a != [] {
      PresentLength(H, Pairs(H, a), Pairs(H, b));
      RangeTail(H, a);
      RangeTail(H, b);
    }
  }

  lemma RangeTail(H: Combine, a: seq<Hash>)
    requires a != []
    ensures |a| % 2 == 1 ==> Present(RangeOf(H, a)) == [a[|a| - 1]] + Present(RangeOf(H, Pairs(H, a)))
    ensures |a| % 2 == 0 ==> Present(RangeOf(H, a)) == Present(RangeOf(H, Pairs(H, a)))
  {
    assert RangeOf(H, a)[1..] == RangeOf(H, Pairs(H, a));
  }

  lemma {:induction false} FoldBinds(K: Combine, a: seq<Hash>, b: seq<Hash>, inputs: set<(Hash, Hash)>)
    requires |a| == |b| && Fold(K, a) == Fold(K, b) && FoldInputs(K, a) + FoldInputs(K, b) <= inputs
    ensures a == b || CollidesAmong(Paired(K), inputs)
    decreases |a|
  {
    hide CollidesAmong;
    if |a| > 1 && !CollidesAmong(Paired(K), inputs) {
      var n := |a| - 1;
      SameHash(K, Fold(K, a[..n]), a[n], Fold(K, b[..n]), b[n], inputs);
      FoldBinds(K, a[..n], b[..n], inputs);
      assert a == a[..n] + [a[n]] && b == b[..n] + [b[n]];
    }
  }

  lemma {:induction false} RangeBinds(H: Combine, a: seq<Hash>, b: seq<Hash>, inputs: set<(Hash, Hash)>)
    requires |a| == |b| && Present(RangeOf(H, a)) == Present(RangeOf(H, b))
    requires RangeInputs(H, a) + RangeInputs(H, b) <= inputs
    ensures a == b || CollidesAmong(Paired(H), inputs)
    decreases |a|
  {
    hide CollidesAmong;
    if a != [] {
      RangeTail(H, a);
      RangeTail(H, b);
      var pa, pb := Present(RangeOf(H, Pairs(H, a))), Present(RangeOf(H, Pairs(H, b)));
      if |a| % 2 == 1 { ConsInjective(a[|a| - 1], pa, b[|b| - 1], pb); }
      RangeBinds(H, Pairs(H, a), Pairs(H, b), inputs);
      if !CollidesAmong(Paired(H), inputs) { PairsBind(H, a, b, inputs); }
    }
  }

  lemma ConsInjective(x: Hash, xs: seq<Hash>, y: Hash, ys: seq<Hash>)
    requires [x] + xs == [y] + ys
    ensures x == y && xs == ys
  {
    assert ([x] + xs)[0] == x && ([y] + ys)[0] == y;
    assert ([x] + xs)[1..] == xs && ([y] + ys)[1..] == ys;
  }

  lemma PairIsInput(H: Combine, a: seq<Hash>, j: nat)
    requires j < |a| / 2
    ensures (a[2 * j], a[2 * j + 1]) in RangeInputs(H, a) && Pairs(H, a)[j] == H(a[2 * j], a[2 * j + 1])
  {
  }

  lemma PairBinds(H: Combine, a: seq<Hash>, b: seq<Hash>, inputs: set<(Hash, Hash)>, j: nat)
    requires |a| == |b| && j < |a| / 2 && Pairs(H, a) == Pairs(H, b)
    requires RangeInputs(H, a) + RangeInputs(H, b) <= inputs && !CollidesAmong(Paired(H), inputs)
    ensures a[2 * j] == b[2 * j] && a[2 * j + 1] == b[2 * j + 1]
  {
    PairIsInput(H, a, j); PairIsInput(H, b, j);
    hide CollidesAmong, RangeInputs, Pairs;
    SameHash(H, a[2 * j], a[2 * j + 1], b[2 * j], b[2 * j + 1], inputs);
  }

  lemma PairsBind(H: Combine, a: seq<Hash>, b: seq<Hash>, inputs: set<(Hash, Hash)>)
    requires |a| == |b| && Pairs(H, a) == Pairs(H, b)
    requires RangeInputs(H, a) + RangeInputs(H, b) <= inputs && !CollidesAmong(Paired(H), inputs)
    requires |a| % 2 == 1 ==> a[|a| - 1] == b[|b| - 1]
    ensures a == b
  {
    hide CollidesAmong, RangeInputs, Pairs;
    forall i | 0 <= i < |a| ensures a[i] == b[i] {
      if i / 2 < |a| / 2 { PairBinds(H, a, b, inputs, i / 2); }
    }
  }

  // ------------------------------------------------------------- recent blocks

  const MAX_RECENT_BLOCKS := 8

  datatype BlockState = BlockState(headerHash: Hash, stateRoot: Hash, mmr: Peaks, workReports: map<Hash, Hash>)

  datatype BlockInput = BlockInput(headerHash: Hash, priorStateRoot: Hash, accumulationRoot: Hash,
      workReports: map<Hash, Hash>)

  function WithStateRoot(b: BlockState, root: Hash): BlockState {
    BlockState(b.headerHash, root, b.mmr, b.workReports)
  }

  /** `UpdateRecentBlocks`, statement by statement on the list it is given. */
  method UpdateRecentBlocks(H: Combine, inp: BlockInput, recent: seq<BlockState>) returns (blocks: seq<BlockState>)
    ensures blocks == UpdatedBlocks(H, inp, recent)
  {
    blocks := recent;
    if |blocks| > 0 {
      blocks := blocks[|blocks| - 1 := WithStateRoot(blocks[|blocks| - 1], inp.priorStateRoot)];
    }
    var lastMMR: Peaks := [];
    if |blocks| > 0 { lastMMR := blocks[|blocks| - 1].mmr; }
    var newMMR := Append(H, lastMMR, inp.accumulationRoot);
    blocks := blocks + [BlockState(inp.headerHash, ZERO_HASH, newMMR, inp.workReports)];
    if |blocks| > MAX_RECENT_BLOCKS {
      blocks := blocks[|blocks| - MAX_RECENT_BLOCKS..];
    }
  }

  /** The newest entry learns its state root from the next block. */
  function Settled(root: Hash, recent: seq<BlockState>): seq<BlockState> {
    if recent == [] then [] else recent[|recent| - 1 := WithStateRoot(recent[|recent| - 1], root)]
  }

  function LastRange(recent: seq<BlockState>): Peaks {
    if recent == [] then [] else recent[|recent| - 1].mmr
  }

  function UpdatedBlocks(H: Combine, inp: BlockInput, recent: seq<BlockState>): seq<BlockState> {
    (Settled(inp.priorStateRoot, recent)
     + [BlockState(inp.headerHash, ZERO_HASH, Append(H, LastRange(recent), inp.accumulationRoot), inp.workReports)])
    [Max(0, |recent| + 1 - MAX_RECENT_BLOCKS)..]
  }

  function RunBlocks(H: Combine, inps: seq<BlockInput>): seq<BlockState> {
    if inps == [] then []
    else UpdatedBlocks(H, inps[|inps| - 1], RunBlocks(H, inps[..|inps| - 1]))
  }

  function Roots(inps: seq<BlockInput>): (r: seq<Hash>)
    ensures |r| == |inps|
  {
    seq(|inps|, i requires 0 <= i < |inps| => inps[i].accumulationRoot)
  }

  /** What the entry `back` steps from the newest must be after a run. */
  ghost predicate EntryHolds(H: Combine, inps: seq<BlockInput>, k: nat, b: BlockState)
    requires k < |inps|
  {
    && b.headerHash == inps[k].headerHash
    && b.workReports == inps[k].workReports
    && b.mmr == RangeOf(H, Roots(inps[..k + 1]))
    && b.stateRoot == if k + 1 < |inps| then inps[k + 1].priorStateRoot else ZERO_HASH
  }

  ghost predicate HistoryHolds(H: Combine, inps: seq<BlockInput>, blocks: seq<BlockState>) {
    && |blocks| == Min(|inps|, MAX_RECENT_BLOCKS)
    && forall j :: 0 <= j < |blocks| ==> EntryHolds(H, inps, |inps| - |blocks| + j, blocks[j])
  }

  /** In every run, only the last eight blocks are kept, yet the newest one holds the range of
      all the accumulation roots since the start, and every older one the range up to itself. */
  lemma {:induction false} RecentBlocksHoldWholeHistory(H: Combine, inps: seq<BlockInput>)
    ensures HistoryHolds(H, inps, RunBlocks(H, inps))
  {
    EmptyHistory(H);
    hide HistoryHolds, UpdatedBlocks;
    if inps != [] {
      var n := |inps| - 1;
      RecentBlocksHoldWholeHistory(H, inps[..n]);
      StepKeepsHistory(H, inps[..n], inps[n], RunBlocks(H, inps[..n]));
      assert inps[..n] + [inps[n]] == inps;
    }
  }

  lemma EmptyHistory(H: Combine)
    ensures HistoryHolds(H, [], [])
  {
  }

  lemma StepKeepsHistory(H: Combine, before: seq<BlockInput>, last: BlockInput, recent: seq<BlockState>)
    requires HistoryHolds(H, before, recent)
    ensures HistoryHolds(H, before + [last], UpdatedBlocks(H, last, recent))
  {
    hide UpdatedBlocks, EntryHolds;
    var inps := before + [last];
    var blocks := UpdatedBlocks(H, last, recent);
    UpdatedLength(H, last, recent);
    forall j | 0 <= j < |blocks| ensures EntryHolds(H, inps, |inps| - |blocks| + j, blocks[j]) {
      StepKeepsEntry(H, before, last, recent, j);
    }
  }

  lemma UpdatedLength(H: Combine, last: BlockInput, recent: seq<BlockState>)
    requires |recent| <= MAX_RECENT_BLOCKS
    ensures |UpdatedBlocks(H, last, recent)| == Min(|recent| + 1, MAX_RECENT_BLOCKS)
  {
    hide Append;
  }

  lemma StepKeepsEntry(H: Combine, before: seq<BlockInput>, last: BlockInput, recent: seq<BlockState>, j: nat)
    requires HistoryHolds(H, before, recent) && j < |UpdatedBlocks(H, last, recent)|
    ensures EntryHolds(H, before + [last], |before| + 1 - |UpdatedBlocks(H, last, recent)| + j, UpdatedBlocks(H,
        last, recent)[j])
  {
    hide RangeOf, Append;
    var inps := before + [last];
    var blocks := UpdatedBlocks(H, last, recent);
    var k := |inps| - |blocks| + j;
    if k == |before| {
      NewestRange(H, before, last, recent);
      assert inps[..k + 1] == inps;
    } else {
      assert EntryHolds(H, before, k, recent[k - (|before| - |recent|)]);
      assert inps[..k + 1] == before[..k + 1];
    }
  }

  lemma NewestRange(H: Combine, before: seq<BlockInput>, last: BlockInput, recent: seq<BlockState>)
    requires |recent| == Min(|before|, MAX_RECENT_BLOCKS)
    requires |recent| > 0 ==> EntryHolds(H, before, |before| - 1, recent[|recent| - 1])
    ensures Append(H, LastRange(recent), last.accumulationRoot)
            == RangeOf(H, Roots(before + [last]))
  {
    assert Roots(before + [last]) == Roots(before) + [last.accumulationRoot];
    if |recent| > 0 { assert before[..|before|] == before; }
    AppendExtendsRange(H, Roots(before), last.accumulationRoot);
  }
}
