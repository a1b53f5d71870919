/** Programs of the virtual machine: code with a mark on every octet that starts an instruction, the
    distance from one mark to the next, and the starts of basic blocks. */
module Programs {
  import opened Bytes

  const BITMASK_MAX := 24

  /** Code and bitmask end in the sentinel: a trap that is marked as an instruction. */
  datatype Program = Program(code: seq<byte>, bitmask: seq<bool>, jumpTable: seq<nat>, blocks: set<nat>) {
    /** The position of the sentinel, |c|. */
    function Sentinel(): int {
      |code| - 1
    }

    predicate Valid() {
      && |code| == |bitmask| > 0 && code[|code| - 1] == 0 && bitmask[|code| - 1]
      && 0 in blocks && forall b :: b in blocks ==> b <= Sentinel()
    }
  }

  /** How far the next marked position is, from position `i` after `n` on. */
  function SkipFrom(n: nat, bitmask: seq<bool>, i: nat): nat
    requires n < |bitmask|
    decreases |bitmask| - i
  {
    if n + 1 + i >= |bitmask| then 0
    else if i > BITMASK_MAX then BITMASK_MAX
    else if bitmask[n + 1 + i] then i
    else SkipFrom(n, bitmask, i + 1)
  }

  function SkipLength(n: nat, bitmask: seq<bool>): nat
    requires n < |bitmask|
  {
    SkipFrom(n, bitmask, 0)
  }

  /** `q` is the first marked position after `n`. */
  predicate NextMark(n: nat, bitmask: seq<bool>, q: nat) {
    n < q < |bitmask| && bitmask[q] && forall j :: n < j < q ==> !bitmask[j]
  }

  lemma {:induction false} SkipFromFinds(n: nat, bitmask: seq<bool>, i: nat, q: nat)
    requires n < |bitmask| && NextMark(n, bitmask, q) && n + 1 + i <= q <= n + 1 + BITMASK_MAX
    ensures SkipFrom(n, bitmask, i) == q - n - 1
    decreases q - i
  {
    if n + 1 + i < q { SkipFromFinds(n, bitmask, i + 1, q); }
  }

  lemma {:induction false} SkipFromEnds(n: nat, bitmask: seq<bool>, i: nat)
    requires n < |bitmask| && i <= BITMASK_MAX + 1
    requires forall j :: n < j <= n + 1 + BITMASK_MAX && j < |bitmask| ==> !bitmask[j]
    ensures SkipFrom(n, bitmask, i) == if n + 1 + BITMASK_MAX + 1 < |bitmask| then BITMASK_MAX else 0
    decreases BITMASK_MAX + 1 - i
  {
    if n + 1 + i < |bitmask| && i <= BITMASK_MAX { SkipFromEnds(n, bitmask, i + 1); }
  }

  /** The skip leads to the next mark when that is within reach; otherwise it is 24, or nothing at
      all when the bitmask ends within reach. */
  lemma SkipIs(n: nat, bitmask: seq<bool>)
    requires n < |bitmask|
    ensures forall q: nat :: NextMark(n, bitmask, q) && q <= n + 1 + BITMASK_MAX ==> n + 1 + SkipLength(n, bitmask) == q
    ensures (forall q: nat :: NextMark(n, bitmask, q) ==> q > n + 1 + BITMASK_MAX) ==>
              SkipLength(n, bitmask) == if n + 1 + BITMASK_MAX + 1 < |bitmask| then BITMASK_MAX else 0
  {
    forall q: nat | NextMark(n, bitmask, q) && q <= n + 1 + BITMASK_MAX ensures n + 1 + SkipLength(n, bitmask) == q {
      SkipFromFinds(n, bitmask, 0, q);
    }
    if forall q: nat :: NextMark(n, bitmask, q) ==> q > n + 1 + BITMASK_MAX {
      NoMark(n, bitmask, n + 1 + BITMASK_MAX);
      SkipFromEnds(n, bitmask, 0);
    }
  }

  lemma {:induction false} NoMark(n: nat, bitmask: seq<bool>, l: nat)
    requires n < |bitmask| && n <= l && forall q: nat :: NextMark(n, bitmask, q) ==> q > l
    ensures forall j :: n < j <= l && j < |bitmask| ==> !bitmask[j]
  {
    if l > n {
      NoMark(n, bitmask, l - 1);
      assert l < |bitmask| && bitmask[l] ==> NextMark(n, bitmask, l);
    }
  }

  method Skip(n: nat, bitmask: seq<bool>) returns (r: nat)
    requires n < |bitmask|
    ensures r == SkipLength(n, bitmask)
  {
    for i := 0 to |bitmask| - n - 1
      invariant SkipFrom(n, bitmask, 0) == SkipFrom(n, bitmask, i)
    {
      if i > BITMASK_MAX { return BITMASK_MAX; }
      if bitmask[n + 1 + i] { return i; }
    }
    r := 0;
  }

  /** A skip never leaves the bitmask. */
  lemma {:induction false} SkipFromBound(n: nat, bitmask: seq<bool>, i: nat)
    requires n < |bitmask|
    ensures n + 1 + SkipFrom(n, bitmask, i) <= |bitmask|
    ensures n + 1 + i <= |bitmask| - 1 && bitmask[|bitmask| - 1] ==> n + 1 + SkipFrom(n, bitmask, i) <= |bitmask| - 1
    decreases |bitmask| - i
  {
    if n + 1 + i < |bitmask| && i <= BITMASK_MAX && !bitmask[n + 1 + i] { SkipFromBound(n, bitmask, i + 1); }
  }

  /** Opcodes that end a basic block. */
  predicate Terminates(op: nat) {
    op == 0 || op == 1 || op == 40 || op == 50 || 80 <= op <= 90 || 170 <= op <= 175 || op == 180
  }

  ghost predicate EndsBlock(code: seq<byte>, bitmask: seq<bool>, i: nat, b: nat)
    requires |code| == |bitmask|
  {
    i < |code| && bitmask[i] && Terminates(code[i]) && b == i + 1 + SkipLength(i, bitmask)
  }

  /** The start of the code, and what follows each instruction that ends a block. */
  ghost predicate IsBlocks(code: seq<byte>, bitmask: seq<bool>, n: nat, blocks: set<nat>)
    requires |code| == |bitmask|
  {
    forall b: nat :: b in blocks <==> b == 0 || exists i: nat :: i < n && EndsBlock(code, bitmask, i, b)
  }

  method Instantiate(code: seq<byte>, bitmask: seq<bool>, jumpTable: seq<nat>) returns (p: Program)
    requires |code| == |bitmask|
    ensures p.Valid() && p.Sentinel() == |code|
    ensures p.code == code + [0] && p.bitmask == bitmask + [true] && p.jumpTable == jumpTable
    ensures IsBlocks(code, bitmask, |code|, p.blocks)
  {
    hide SkipFrom;
    var blocks: set<nat> := {0};
    for i := 0 to |bitmask|
      invariant IsBlocks(code, bitmask, i, blocks)
      invariant 0 in blocks && forall b :: b in blocks ==> b <= |code|
    {
      ghost var before := blocks;
      if bitmask[i] && Terminates(code[i]) {
        var skip := Skip(i, bitmask);
        SkipFromBound(i, bitmask, 0);
        blocks := blocks + {i + 1 + skip};
      }
      BlocksSnoc(code, bitmask, i, before, blocks);
    }
    p := Program(code + [0], bitmask + [true], jumpTable, blocks);
  }

  lemma BlocksSnoc(code: seq<byte>, bitmask: seq<bool>, i: nat, before: set<nat>, after: set<nat>)
    requires |code| == |bitmask| && i < |code| && IsBlocks(code, bitmask, i, before)
    requires after == if bitmask[i] && Terminates(code[i]) then before + {i + 1 + SkipLength(i, bitmask)} else before
    ensures IsBlocks(code, bitmask, i + 1, after)
  {
    hide SkipLength, Terminates;
    forall b: nat ensures b in after <==> b == 0 || exists k: nat :: k < i + 1 && EndsBlock(code, bitmask, k, b) {
      if b in after && b != 0 && b !in before { assert EndsBlock(code, bitmask, i, b); }
    }
  }

  // ------------------------------------------------------------------------- on instruction marks

  /** The position is marked as the start of an instruction; the sentinel always is. */
  predicate Marked(p: Program, n: nat) {
    n < |p.bitmask| && p.bitmask[n]
  }

  /** There is a mark within the reach of a skip from `n`. */
  ghost predicate Near(bitmask: seq<bool>, n: nat) {
    exists q: nat :: q <= n + 1 + BITMASK_MAX && NextMark(n, bitmask, q)
  }

  lemma {:induction false} FirstMark(n: nat, bitmask: seq<bool>, l: nat) returns (q: nat)
    requires n < l < |bitmask| && bitmask[l]
    ensures NextMark(n, bitmask, q) && q <= l
    decreases l
  {
    if j :| n < j < l && bitmask[j] {
      q := FirstMark(n, bitmask, j);
    } else {
      q := l;
    }
  }

  /** A skip lands on a mark exactly when there is one within reach. */
  lemma LandsOnMarkExactlyWhen(p: Program, n: nat)
    requires p.Valid() && n < p.Sentinel()
    ensures Marked(p, n + 1 + SkipLength(n, p.bitmask)) <==> Near(p.bitmask, n)
  {
    SkipIs(n, p.bitmask);
    hide SkipLength;
    if Near(p.bitmask, n) {
      var q: nat :| q <= n + 1 + BITMASK_MAX && NextMark(n, p.bitmask, q);
    } else {
      var q := FirstMark(n, p.bitmask, p.Sentinel());
      OneNextMark(n, p.bitmask, q);
    }
  }

  lemma OneNextMark(n: nat, bitmask: seq<bool>, q: nat)
    requires NextMark(n, bitmask, q)
    ensures forall r: nat :: NextMark(n, bitmask, r) ==> r == q
  {
    forall r: nat | NextMark(n, bitmask, r) ensures r == q {
      if r < q { } else if q < r { }
    }
  }

  /** What follows a marked instruction that ends a block is marked exactly when there is a mark
      within reach or the code ends right after the opcode. Skips that look for block starts do not
      see the sentinel. */
  lemma BlockIsMarkedExactlyWhen(code: seq<byte>, bitmask: seq<bool>, p: Program, i: nat)
    requires |code| == |bitmask| && i < |code| && p.Valid() && p.bitmask == bitmask + [true]
    ensures Marked(p, i + 1 + SkipLength(i, bitmask)) <==> Near(bitmask, i) || i + 1 == |code|
  {
    SkipIs(i, bitmask);
    hide SkipLength;
    if Near(bitmask, i) {
      var q: nat :| q <= i + 1 + BITMASK_MAX && NextMark(i, bitmask, q);
      assert p.bitmask[q] == bitmask[q];
    } else {
      NoMark(i, bitmask, i + 1 + BITMASK_MAX);
      assert forall j :: 0 <= j < |bitmask| ==> p.bitmask[j] == bitmask[j];
    }
  }

  /** Every instruction is followed by a mark within reach, and every block start is marked. */
  ghost predicate WellMarked(p: Program) {
    && (forall n: nat :: n < p.Sentinel() && Marked(p, n) ==> Near(p.bitmask, n))
    && (forall b: nat :: b in p.blocks ==> Marked(p, b))
  }

  /** A jump with one octet of offset at the very end of the code makes that octet a block start. */
  lemma BlockInsideOperandExample(p: Program)
    requires p.Valid() && p.code == [40, 0, 0] && p.bitmask == [true, false, true]
    requires IsBlocks([40, 0], [true, false], 2, p.blocks)
    ensures 1 in p.blocks && !Marked(p, 1) && !WellMarked(p)
  {
    assert EndsBlock([40, 0], [true, false], 0, 1);
  }
}
