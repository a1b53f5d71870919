/** Constant-depth binary Merkle trees and the traces that prove one leaf against the root. */
module BinaryTree {
  import opened Bytes
  import opened Hashing

  type Blob = seq<byte>

  /** A hash function from blobs to blobs; that its results have 32 octets is assumed only
      where it matters, by `Hashes32`. */
  type HashFunction = Blob -> Blob

  const NODE: Blob := [110, 111, 100, 101]  // "node"
  const LEAF: Blob := [108, 101, 97, 102]   // "leaf"

  function Inner(H: HashFunction, l: Blob, r: Blob): Blob {
    H(NODE + (l + r))
  }

  /** `ComputeNode`: splits at the rounded-down middle. */
  function Node(H: HashFunction, blobs: seq<Blob>): Blob
    decreases |blobs|
  {
    if |blobs| == 0 then []
    else if |blobs| == 1 then H(blobs[0])
    else
      var mid := |blobs| / 2;
      Inner(H, Node(H, blobs[..mid]), Node(H, blobs[mid..]))
  }

  /** The trace functions split at the rounded-up middle. */
  function Mid(blobs: seq<Blob>): nat {
    (|blobs| + 1) / 2
  }

  function Side(blobs: seq<Blob>, index: nat, s: bool): seq<Blob> {
    if (index < Mid(blobs)) == s then blobs[..Mid(blobs)] else blobs[Mid(blobs)..]
  }

  function Offset(blobs: seq<Blob>, index: nat): nat {
    if index < Mid(blobs) then 0 else Mid(blobs)
  }

  function Trace(H: HashFunction, blobs: seq<Blob>, index: nat): seq<Blob>
    decreases |blobs|
  {
    if |blobs| <= 1 then []
    else [Node(H, Side(blobs, index, false))] + Trace(H, Side(blobs, index, true), index - Offset(blobs, index))
  }

  // ------------------------------------------------------------- preprocessing

  /** The least `d` with `n <= 2^d`. */
  function Depth(n: nat): (d: nat)
    ensures n <= Pow2(d)
    ensures d > 0 ==> Pow2(d - 1) < n
  {
    if n <= 1 then 0 else 1 + Depth((n + 1) / 2)
  }

  function Padded(H: HashFunction, blobs: seq<Blob>): (r: seq<Blob>)
    ensures |r| == if |blobs| == 0 then 0 else Pow2(Depth(|blobs|))
  {
    if |blobs| == 0 then []
    else seq(Pow2(Depth(|blobs|)), i requires i >= 0 => if i < |blobs| then H(LEAF + blobs[i]) else [])
  }

  /** `preprocessForConstantDepth`: hashes the leaves into a fresh array; the places after the
      last leaf keep the nil blob they are created with. */
  method Preprocess(H: HashFunction, blobs: seq<Blob>) returns (r: seq<Blob>)
    ensures r == Padded(H, blobs)
    ensures |blobs| <= |r| && forall i :: 0 <= i < |r| ==> r[i] == if i < |blobs| then H(LEAF + blobs[i]) else []
  {
    if |blobs| == 0 { return []; }
    var n := Pow2(Depth(|blobs|));
    var result := new Blob[n](_ => []);
    for i := 0 to |blobs|
      invariant forall j :: 0 <= j < i ==> result[j] == H(LEAF + blobs[j])
      invariant forall j :: i <= j < n ==> result[j] == []
    {
      result[i] := H(LEAF + blobs[i]);
    }
    r := result[..];
  }

  /** `ComputeConstantDepthRoot` for a non-empty list. */
  function ConstantDepthRoot(H: HashFunction, blobs: seq<Blob>): Blob {
    Node(H, Padded(H, blobs))
  }

  /** A node of two or more is the hash of "node" and the nodes of its two halves, the left one first. */
  lemma NodeIs(H: HashFunction, blobs: seq<Blob>)
    ensures |blobs| == 0 ==> Node(H, blobs) == []
    ensures |blobs| == 1 ==> Node(H, blobs) == H(blobs[0])
    ensures |blobs| >= 2 ==>
              var mid := |blobs| / 2;
              Node(H, blobs) == H([110, 111, 100, 101] + Node(H, blobs[..mid]) + Node(H, blobs[mid..]))
  {
    if |blobs| >= 2 {
      var mid := |blobs| / 2;
      var l, r := Node(H, blobs[..mid]), Node(H, blobs[mid..]);
      assert NODE + (l + r) == [110, 111, 100, 101] + l + r;
    }
  }

  /** The root of three blobs: four leaves, the last of them empty. */
  lemma RootOfThree(H: HashFunction, a: Blob, b: Blob, c: Blob)
    ensures var x, y, z := H(H(LEAF + a)), H(H(LEAF + b)), H(H(LEAF + c));
            ConstantDepthRoot(H, [a, b, c]) == H(NODE + H(NODE + x + y) + H(NODE + z + H([])))
  {
    var leaves := Padded(H, [a, b, c]);
    assert Depth(3) == 1 + Depth(2) && Depth(2) == 1 + Depth(1) && Depth(1) == 0 && Pow2(2) == 4;
    assert leaves == [H(LEAF + a), H(LEAF + b), H(LEAF + c), []];
    hide Padded;
    NodeIs(H, leaves);
    NodeIs(H, leaves[..2]);
    NodeIs(H, leaves[2..]);
    NodeIs(H, leaves[..2][..1]);
    NodeIs(H, leaves[..2][1..]);
    NodeIs(H, leaves[2..][..1]);
    NodeIs(H, leaves[2..][1..]);
    hide Node;
  }

  // -------------------------------------------------------------- completeness

  /** What a verifier does with a proof: from the leaf's hash up, put each trace entry on the
      side that the next bit of the index says. */
  function FoldTrace(H: HashFunction, trace: seq<Blob>, index: nat, acc: Blob): Blob
    decreases |trace|
  {
    if trace == [] then acc
    else
      var n := |trace| - 1;
      FoldTrace(H, trace[..n], index / 2,
                if index % 2 == 0 then Inner(H, acc, trace[n]) else Inner(H, trace[n], acc))
  }

  function Up(H: HashFunction, index: nat, acc: Blob, sibling: Blob): Blob {
    if index % 2 == 0 then Inner(H, acc, sibling) else Inner(H, sibling, acc)
  }

  lemma FoldUnfold(H: HashFunction, trace: seq<Blob>, last: Blob, index: nat, acc: Blob)
    ensures FoldTrace(H, trace + [last], index, acc) == FoldTrace(H, trace, index / 2, Up(H, index, acc, last))
    ensures FoldTrace(H, [], index, acc) == acc
  {
    assert (trace + [last])[..|trace|] == trace;
  }

  /** The fold seen from the root: the first trace entry is combined last, by the top bit. */
  lemma {:induction false} FoldFromRoot(H: HashFunction, top: Blob, trace: seq<Blob>, index: nat, acc: Blob)
    requires index < Pow2(|trace| + 1)
    ensures index < Pow2(|trace|) ==>
              FoldTrace(H, [top] + trace, index, acc) == Inner(H, FoldTrace(H, trace, index, acc), top)
    ensures index >= Pow2(|trace|) ==>
              FoldTrace(H, [top] + trace, index, acc) == Inner(H, top, FoldTrace(H, trace, index - Pow2(|trace|), acc))
    decreases |trace|
  {
    hide FoldTrace, Pow2, Inner;
    if trace == [] {
      Pow2Step(0);
      Pow2Step(1);
      FoldUnfold(H, [], top, index, acc);
      FoldUnfold(H, [], top, 0, Up(H, index, acc, top));
      FoldUnfold(H, [], top, 0, acc);
      assert [top] + trace == [] + [top];
    } else {
      var n := |trace| - 1;
      var front, last := trace[..n], trace[n];
      assert trace == front + [last] && [top] + trace == ([top] + front) + [last];
      HalfIndex(index, n);
      FoldUnfold(H, [top] + front, last, index, acc);
      FoldFromRoot(H, top, front, index / 2, Up(H, index, acc, last));
      FoldUnfold(H, front, last, index, acc);
      if index >= Pow2(n + 1) { FoldUnfold(H, front, last, index - Pow2(n + 1), acc); }
    }
  }

  lemma HalfIndex(index: nat, n: nat)
    requires index < Pow2(n + 2)
    ensures index / 2 < Pow2(n + 1)
    ensures index < Pow2(n + 1) <==> index / 2 < Pow2(n)
    ensures index >= Pow2(n + 1) ==>
              (index - Pow2(n + 1)) / 2 == index / 2 - Pow2(n) && (index - Pow2(n + 1)) % 2 == index % 2
  {
    assert Pow2(n + 2) == 2 * Pow2(n + 1) && Pow2(n + 1) == 2 * Pow2(n);
  }

  /** On `2^d` blobs both middles agree, the trace has `d` entries, and folding it over the
      leaf's own node gives the node of the whole list. */
  lemma {:induction false} TraceComplete(H: HashFunction, d: nat, blobs: seq<Blob>, index: nat)
    requires |blobs| == Pow2(d) && index < |blobs|
    ensures |Trace(H, blobs, index)| == d
    ensures FoldTrace(H, Trace(H, blobs, index), index, H(blobs[index])) == Node(H, blobs)
    decreases d
  {
    hide Trace, FoldTrace, Node, Pow2, Inner;
    Pow2Step(d);
    if d == 0 {
      SingleBlob(H, blobs[0]);
      assert blobs == [blobs[0]];
    } else {
      var half := Pow2(d - 1);
      TraceUnfold(H, blobs, index, half);
      NodeUnfold(H, blobs, half);
      if index < half {
        TraceComplete(H, d - 1, blobs[..half], index);
        FoldFromRoot(H, Node(H, blobs[half..]), Trace(H, blobs[..half], index), index, H(blobs[index]));
      } else {
        TraceComplete(H, d - 1, blobs[half..], index - half);
        FoldFromRoot(H, Node(H, blobs[..half]), Trace(H, blobs[half..], index - half), index, H(blobs[index]));
      }
    }
  }

  lemma SingleBlob(H: HashFunction, b: Blob)
    ensures Trace(H, [b], 0) == [] && Node(H, [b]) == H(b) == FoldTrace(H, [], 0, H(b))
  {
  }

  lemma TraceUnfold(H: HashFunction, blobs: seq<Blob>, index: nat, half: nat)
    requires |blobs| == 2 * half > 0
    ensures index < half ==>
              Trace(H, blobs, index) == [Node(H, blobs[half..])] + Trace(H, blobs[..half], index)
    ensures index >= half ==>
              Trace(H, blobs, index) == [Node(H, blobs[..half])] + Trace(H, blobs[half..], index - half)
  {
    hide Node;
    SidesOf(blobs, index, half);
    assert Trace(H, blobs, index) == [Node(H, Side(blobs, index, false))]
           + Trace(H, Side(blobs, index, true), index - Offset(blobs, index));
    hide Trace, Side, Offset;
  }

  lemma SidesOf(blobs: seq<Blob>, index: nat, half: nat)
    requires |blobs| == 2 * half
    ensures index < half ==> Side(blobs, index, true) == blobs[..half] && Side(blobs, index, false) == blobs[half..]
    ensures index >= half ==> Side(blobs, index, true) == blobs[half..] && Side(blobs, index, false) == blobs[..half]
    ensures Offset(blobs, index) == if index < half then 0 else half
  {
    assert Mid(blobs) == half;
  }

  lemma NodeUnfold(H: HashFunction, blobs: seq<Blob>, half: nat)
    requires |blobs| == 2 * half > 0
    ensures Node(H, blobs) == Inner(H, Node(H, blobs[..half]), Node(H, blobs[half..]))
  {
  }

  /** Every leaf of a constant-depth tree, padding included, has a proof, and the proof has
      exactly as many entries as the tree is deep. */
  lemma ProofsAreComplete(H: HashFunction, blobs: seq<Blob>, index: nat)
    requires blobs != [] && index < |Padded(H, blobs)|
    ensures var leaves := Padded(H, blobs);
            && |Trace(H, leaves, index)| == Depth(|blobs|)
            && FoldTrace(H, Trace(H, leaves, index), index, H(leaves[index])) == ConstantDepthRoot(H, blobs)
  {
    TraceComplete(H, Depth(|blobs|), Padded(H, blobs), index);
  }

  // ----------------------------------------------------------------- soundness

  ghost predicate Hashes32(H: HashFunction) {
    forall x :: |H(x)| == 32
  }

  /** What hashing an inner node hashes. */
  function Pair(l: Blob, r: Blob): Blob {
    NODE + (l + r)
  }

  /** Everything that is hashed to compute the node of a list. */
  ghost function NodeInputs(H: HashFunction, blobs: seq<Blob>): set<Blob>
    decreases |blobs|
  {
    if |blobs| == 0 then {}
    else if |blobs| == 1 then {blobs[0]}
    else
      var mid := |blobs| / 2;
      {Pair(Node(H, blobs[..mid]), Node(H, blobs[mid..]))}
        + NodeInputs(H, blobs[..mid]) + NodeInputs(H, blobs[mid..])
  }

  /** Everything that is hashed to fold a trace. */
  ghost function FoldInputs(H: HashFunction, trace: seq<Blob>, index: nat, acc: Blob): set<Blob>
    decreases |trace|
  {
    if trace == [] then {}
    else
      var n := |trace| - 1;
      {if index % 2 == 0 then Pair(acc, trace[n]) else Pair(trace[n], acc)}
        + FoldInputs(H, trace[..n], index / 2, Up(H, index, acc, trace[n]))
  }

  lemma InnerBinds(H: HashFunction, a: Blob, b: Blob, c: Blob, d: Blob, inputs: set<Blob>)
    requires |a| == |c| && Inner(H, a, b) == Inner(H, c, d) && Pair(a, b) in inputs && Pair(c, d) in inputs
    ensures (a == c && b == d) || CollidesAmong(H, inputs)
  {
    var x, y := Pair(a, b), Pair(c, d);
    if x == y {
      assert x[4..] == a + b && y[4..] == c + d;
      assert (a + b)[..|a|] == a && (c + d)[..|a|] == c;
      assert (a + b)[|a|..] == b && (c + d)[|a|..] == d;
    }
  }

  ghost predicate Entries32(trace: seq<Blob>) {
    forall i :: 0 <= i < |trace| ==> |trace[i]| == 32
  }

  lemma FoldInputsUnfold(H: HashFunction, trace: seq<Blob>, last: Blob, index: nat, acc: Blob)
    ensures FoldInputs(H, trace + [last], index, acc) ==
            {if index % 2 == 0 then Pair(acc, last) else Pair(last, acc)}
              + FoldInputs(H, trace, index / 2, Up(H, index, acc, last))
    ensures FoldInputs(H, [], index, acc) == {}
  {
    hide Pair, Up;
    assert (trace + [last])[..|trace|] == trace;
  }

  /** The inputs of the fold seen from the root: those below the first entry, and the last pair. */
  lemma {:induction false} InputsFromRoot(H: HashFunction, top: Blob, trace: seq<Blob>, index: nat, acc: Blob)
    requires index < Pow2(|trace| + 1)
    ensures index < Pow2(|trace|) ==>
              FoldInputs(H, [top] + trace, index, acc) ==
              FoldInputs(H, trace, index, acc) + {Pair(FoldTrace(H, trace, index, acc), top)}
    ensures index >= Pow2(|trace|) ==>
              var low := index - Pow2(|trace|);
              FoldInputs(H, [top] + trace, index, acc) ==
              FoldInputs(H, trace, low, acc) + {Pair(top, FoldTrace(H, trace, low, acc))}
    decreases |trace|
  {
    hide FoldTrace, FoldInputs, Pow2, Pair, Up;
    if trace == [] {
      Pow2Step(0);
      Pow2Step(1);
      FoldInputsUnfold(H, [], top, index, acc);
      FoldInputsUnfold(H, [], top, 0, Up(H, index, acc, top));
      FoldInputsUnfold(H, [], top, 0, acc);
      FoldUnfold(H, [], top, 0, acc);
      assert [top] + trace == [] + [top];
    } else {
      var n := |trace| - 1;
      var front, last := trace[..n], trace[n];
      assert trace == front + [last] && [top] + trace == ([top] + front) + [last];
      HalfIndex(index, n);
      var up := Up(H, index, acc, last);
      FoldInputsUnfold(H, [top] + front, last, index, acc);
      InputsFromRoot(H, top, front, index / 2, up);
      if index >= Pow2(n + 1) {
        UpAgrees(H, index, index - Pow2(n + 1), acc, last);
        FoldInputsUnfold(H, front, last, index - Pow2(n + 1), acc);
        FoldUnfold(H, front, last, index - Pow2(n + 1), acc);
      } else {
        FoldInputsUnfold(H, front, last, index, acc);
        FoldUnfold(H, front, last, index, acc);
      }
    }
  }

  lemma UpAgrees(H: HashFunction, i: nat, j: nat, acc: Blob, sibling: Blob)
    requires i % 2 == j % 2
    ensures Up(H, i, acc, sibling) == Up(H, j, acc, sibling)
  {
  }

  lemma NodeInputsUnfold(H: HashFunction, blobs: seq<Blob>, half: nat)
    requires |blobs| == 2 * half > 0
    ensures NodeInputs(H, blobs) ==
            {Pair(Node(H, blobs[..half]), Node(H, blobs[half..]))}
              + NodeInputs(H, blobs[..half]) + NodeInputs(H, blobs[half..])
  {
    hide Node, Pair;
  }

  /** Everything hashed by a verifier of the leaf and by whoever computed the node. */
  ghost function ProofInputs(H: HashFunction, blobs: seq<Blob>, index: nat, leaf: Blob, trace: seq<Blob>): set<Blob> {
    NodeInputs(H, blobs) + FoldInputs(H, trace, index, H(leaf)) + {leaf}
  }

  /** A proof of the right depth binds the leaf: whatever leaf and trace a prover offers for an
      index, if they fold to the node of the list then the leaf is the one in the list, or there is
      a collision among the blobs hashed for that node and for that fold. */
  lemma {:induction false} TraceSound(H: HashFunction, d: nat, blobs: seq<Blob>, index: nat, leaf: Blob,
                                      trace: seq<Blob>)
    requires Hashes32(H) && |blobs| == Pow2(d) && index < |blobs| && |trace| == d && Entries32(trace)
    requires FoldTrace(H, trace, index, H(leaf)) == Node(H, blobs)
    ensures leaf == blobs[index] || CollidesAmong(H, ProofInputs(H, blobs, index, leaf, trace))
    decreases d, 0
  {
    hide FoldTrace, FoldInputs, Node, NodeInputs, Pow2, Inner, Pair, CollidesAmong;
    Pow2Step(d);
    if d == 0 {
      OneLeafBinds(H, blobs, index, leaf, trace);
    } else {
      var half, top, rest := Pow2(d - 1), trace[0], trace[1..];
      var all := ProofInputs(H, blobs, index, leaf, trace);
      assert trace == [top] + rest;
      FoldFromRoot(H, top, rest, index, H(leaf));
      InputsFromRoot(H, top, rest, index, H(leaf));
      NodeUnfold(H, blobs, half);
      NodeInputsUnfold(H, blobs, half);
      var l, r := Node(H, blobs[..half]), Node(H, blobs[half..]);
      NodeLength(H, blobs[..half]);
      if index < half {
        FoldLength(H, rest, index, H(leaf));
        InnerBinds(H, FoldTrace(H, rest, index, H(leaf)), top, l, r, all);
        if !CollidesAmong(H, all) { BelowBinds(H, d - 1, blobs[..half], index, leaf, rest, all); }
      } else {
        InnerBinds(H, top, FoldTrace(H, rest, index - half, H(leaf)), l, r, all);
        if !CollidesAmong(H, all) { BelowBinds(H, d - 1, blobs[half..], index - half, leaf, rest, all); }
      }
    }
  }

  /** The induction step of `TraceSound`, with the inputs of the whole tree. */
  lemma {:induction false} BelowBinds(H: HashFunction, d: nat, blobs: seq<Blob>, index: nat, leaf: Blob,
                                      trace: seq<Blob>, all: set<Blob>)
    requires Hashes32(H) && |blobs| == Pow2(d) && index < |blobs| && |trace| == d && Entries32(trace)
    requires FoldTrace(H, trace, index, H(leaf)) == Node(H, blobs)
    requires ProofInputs(H, blobs, index, leaf, trace) <= all && !CollidesAmong(H, all)
    ensures leaf == blobs[index]
    decreases d, 1
  {
    hide FoldTrace, FoldInputs, Node, NodeInputs, Pow2, CollidesAmong, ProofInputs;
    TraceSound(H, d, blobs, index, leaf, trace);
    if CollidesAmong(H, ProofInputs(H, blobs, index, leaf, trace)) {
      CollidesAmongMore(H, ProofInputs(H, blobs, index, leaf, trace), all);
    }
  }

  lemma OneLeafBinds(H: HashFunction, blobs: seq<Blob>, index: nat, leaf: Blob, trace: seq<Blob>)
    requires |blobs| == 1 && index == 0 && trace == [] && FoldTrace(H, trace, index, H(leaf)) == Node(H, blobs)
    ensures leaf == blobs[index] || CollidesAmong(H, ProofInputs(H, blobs, index, leaf, trace))
  {
    assert leaf in ProofInputs(H, blobs, index, leaf, trace) && blobs[0] in ProofInputs(H, blobs, index, leaf, trace);
    assert H(leaf) == H(blobs[0]);
  }

  lemma NodeLength(H: HashFunction, blobs: seq<Blob>)
    requires Hashes32(H) && blobs != []
    ensures |Node(H, blobs)| == 32
  {
  }

  lemma {:induction false} FoldLength(H: HashFunction, trace: seq<Blob>, index: nat, acc: Blob)
    requires Hashes32(H) && |acc| == 32
    ensures |FoldTrace(H, trace, index, acc)| == 32
    decreases |trace|
  {
    if trace != [] {
      var n := |trace| - 1;
      FoldLength(H, trace[..n], index / 2,
                 if index % 2 == 0 then Inner(H, acc, trace[n]) else Inner(H, trace[n], acc));
    }
  }
}
