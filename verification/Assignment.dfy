/** Which core each validator guarantees for: spread the cores over the validators, shuffle by
    entropy, rotate by the time within the epoch. */
module Assignment {
  import opened Bytes
  import opened Division
  import opened Timeslots

  const ROTATION_PERIOD := 10

  // ------------------------------------------------------------------------------ random numbers

  /** The `i`-th number drawn from `h`: four octets of the hash of `h` and a block counter. */
  function Drawn(H: seq<byte> -> seq<byte>, h: seq<byte>, i: nat): nat
    requires |H(h + LittleEndian(i / 8, 4))| == 32
  {
    var p := 4 * (i % 8);
    FromLittleEndian(H(h + LittleEndian(i / 8, 4))[p..p + 4])
  }

  ghost predicate Digests(H: seq<byte> -> seq<byte>) {
    forall x :: |H(x)| == 32
  }

  /** The first `l` numbers drawn from `h`. */
  ghost function Numbers(H: seq<byte> -> seq<byte>, h: seq<byte>, l: nat): (r: seq<nat>)
    requires Digests(H)
    ensures |r| == l
  {
    if l == 0 then [] else Numbers(H, h, l - 1) + [Drawn(H, h, l - 1)]
  }

  lemma Offset(i: nat)
    ensures 4 * i % TWO_32 % 32 == 4 * (i % 8) && 4 * (i % 8) + 4 <= 32
  {
    var q, r := i / 8, i % 8;
    var wraps := 4 * i / TWO_32;
    assert 4 * i % TWO_32 == 32 * (q - 0x800_0000 * wraps) + 4 * r;
  }

  /** The number is little-endian in the `q`-th four octets of the hash. */
  predicate IsFourOctets(r: nat, hash: seq<byte>, q: nat) {
    |hash| == 32 && q < 8 && LittleEndian(r, 4) == hash[4 * q..4 * q + 4]
  }

  method GenerateRandomNumbers(H: seq<byte> -> seq<byte>, h: seq<byte>, l: nat) returns (r: seq<nat>)
    requires Digests(H) && l <= TWO_32
    ensures r == Numbers(H, h, l)
    ensures forall i :: 0 <= i < l ==> r[i] < TWO_32 && IsFourOctets(r[i], H(h + LittleEndian(i / 8, 4)), i % 8)
  {
    hide LittleEndian, FromLittleEndian, Drawn, IsFourOctets;
    r := [];
    for i := 0 to l
      invariant r == Numbers(H, h, i)
      invariant forall k :: 0 <= k < i ==> r[k] < TWO_32 && IsFourOctets(r[k], H(h + LittleEndian(k / 8, 4)), k % 8)
    {
      var number := GenerateOne(H, h, i);
      r := r + [number];
    }
  }

  method FourFrom(hash: seq<byte>, p: nat) returns (b: seq<byte>)
    requires |hash| == 32 && p + 4 <= 32
    ensures b == hash[p..p + 4]
  {
    b := [];
    for j := 0 to 4
      invariant b == hash[p..p + j]
    {
      b := b + [hash[(p + j) % 32]];
    }
  }

  /** The body of the loop of `GenerateRandomNumbers`. */
  method GenerateOne(H: seq<byte> -> seq<byte>, h: seq<byte>, i: nat) returns (r: nat)
    requires Digests(H)
    ensures r == Drawn(H, h, i) && r < TWO_32 && IsFourOctets(r, H(h + LittleEndian(i / 8, 4)), i % 8)
  {
    hide LittleEndian, FromLittleEndian;
    var k := i / 8;
    var encoded := LittleEndian(k, 4);
    var hash := H(h + encoded);
    var p := 4 * i % TWO_32 % 32;
    Offset(i);
    var b := FourFrom(hash, p);
    FourOctets(b);
    r := FromLittleEndian(b);
  }

  lemma FourOctets(b: seq<byte>)
    requires |b| == 4
    ensures FromLittleEndian(b) < TWO_32
    ensures LittleEndian(FromLittleEndian(b), 4) == b
  {
    FromLittleEndianBound(b);
    LittleEndianOfBytes(b);
    WordSizes();
  }

  // ---------------------------------------------------------------------------------- the shuffle

  /** The list without position `i`: the last element takes its place. */
  function Plucked(s: seq<nat>, i: nat): (r: seq<nat>)
    requires i < |s|
    ensures |r| == |s| - 1
  {
    s[i := s[|s| - 1]][..|s| - 1]
  }

  /** Draw an element, put the last one in its place, go on with the rest. */
  function Shuffle(s: seq<nat>, r: seq<nat>): (t: seq<nat>)
    requires |r| >= |s|
    ensures |t| == |s|
    decreases |s|
  {
    if |s| == 0 then []
    else
      var index := r[0] % |s|;
      [s[index]] + Shuffle(Plucked(s, index), r[1..])
  }

  lemma PluckedLeaves(s: seq<nat>, i: nat)
    requires i < |s|
    ensures multiset(s) == multiset(Plucked(s, i)) + multiset{s[i]}
  {
    var l := |s| - 1;
    assert s == s[..l] + [s[l]];
    if i < l {
      assert Plucked(s, i) == s[..l][i := s[l]];
    } else {
      assert Plucked(s, i) == s[..l];
    }
  }

  /** The shuffle permutes. */
  lemma {:induction false} ShufflePermutes(s: seq<nat>, r: seq<nat>)
    requires |r| >= |s|
    ensures multiset(Shuffle(s, r)) == multiset(s)
    decreases |s|
  {
    if |s| > 0 {
      var index := r[0] % |s|;
      PluckedLeaves(s, index);
      ShufflePermutes(Plucked(s, index), r[1..]);
      hide Plucked;
      assert Shuffle(s, r) == [s[index]] + Shuffle(Plucked(s, index), r[1..]);
    }
  }

  /** The first number picks the first element. Before going on, the last element takes the place of the one
      that was picked, and all others stay where they were. */
  lemma ShuffleDraws(s: seq<nat>, r: seq<nat>, rest: seq<nat>)
    requires 0 < |s| <= |r| && |rest| == |s| - 1
    requires forall j :: 0 <= j < |rest| ==> rest[j] == s[if j == r[0] % |s| then |s| - 1 else j]
    ensures Shuffle(s, r)[0] == s[r[0] % |s|] && Shuffle(s, r)[1..] == Shuffle(rest, r[1..])
  {
    assert rest == Plucked(s, r[0] % |s|);
    hide Plucked;
  }

  method DeterministicShuffle(H: seq<byte> -> seq<byte>, h: seq<byte>, s: seq<nat>) returns (t: seq<nat>)
    requires Digests(H) && |s| <= TWO_32
    ensures t == Shuffle(s, Numbers(H, h, |s|))
    ensures multiset(t) == multiset(s) && |t| == |s|
  {
    hide Drawn;
    var r := GenerateRandomNumbers(H, h, |s|);
    assert r == Numbers(H, h, |s|);
    t := Shuffle(s, r);
    ShufflePermutes(s, r);
  }

  lemma ShuffleStep(s: seq<nat>, index: nat, r: seq<nat>)
    requires index < |s| && |r| >= |s| - 1
    ensures Shuffle(s, [index] + r) == [s[index]] + Shuffle(Plucked(s, index), r)
  {
    hide Plucked;
    assert ([index] + r)[1..] == r;
    SmallRemainder(index, |s|);
  }

  lemma SmallRemainder(i: nat, n: nat)
    requires i < n
    ensures i % n == i
  {
  }

  lemma Cancel(a: multiset<nat>, b: multiset<nat>, x: nat)
    requires a + multiset{x} == b + multiset{x}
    ensures a == b
  {
    forall y ensures a[y] == b[y] {
      assert (a + multiset{x})[y] == (b + multiset{x})[y];
    }
  }

  lemma Tail(t: seq<nat>)
    requires t != []
    ensures multiset(t) == multiset(t[1..]) + multiset{t[0]}
  {
    assert t == [t[0]] + t[1..];
  }

  /** Which position to draw so that `t` can come out. */
  lemma Choice(s: seq<nat>, t: seq<nat>) returns (index: nat)
    requires multiset(s) == multiset(t) && |s| == |t| > 0
    ensures index < |s| && s[index] == t[0] && multiset(Plucked(s, index)) == multiset(t[1..])
  {
    assert t[0] in multiset(t);
    assert t[0] in s;
    index :| 0 <= index < |s| && s[index] == t[0];
    PluckedLeaves(s, index);
    Tail(t);
    Cancel(multiset(Plucked(s, index)), multiset(t[1..]), t[0]);
  }

  /** The shuffle can produce every permutation. */
  lemma {:induction false} ShuffleReaches(s: seq<nat>, t: seq<nat>) returns (r: seq<nat>)
    requires multiset(s) == multiset(t) && |s| == |t| && |s| <= TWO_32
    ensures |r| == |s| && Shuffle(s, r) == t
    ensures forall i :: 0 <= i < |r| ==> r[i] < TWO_32
    decreases |s|
  {
    if s == [] {
      r := [];
    } else {
      hide Shuffle;
      var index := Choice(s, t);
      var left := Plucked(s, index);
      assert |left| == |s| - 1;
      var rest := ShuffleReaches(left, t[1..]);
      ShuffleStep(s, index, rest);
      r := [index] + rest;
    }
  }

  // --------------------------------------------------------------------------------- the fair spread

  /** With `k` validators to a core, validator `i` starts on core `i / k`. */
  lemma SpreadIsFloor(cores: nat, k: nat, i: nat)
    requires cores > 0 && k > 0 && i < cores * k
    ensures cores * i / (cores * k) == i / k
  {
    var q, rest := i / k, i % k;
    assert i == k * q + rest;
    assert cores * i == (cores * k) * q + cores * rest;
    assert cores * rest < cores * k;
    DivisionIs(cores * i, cores * k, q, cores * rest);
  }

  /** `k` times 0, `k` times 1, and so on below `cores`. */
  function Blocks(cores: nat, k: nat): (r: seq<nat>)
    ensures |r| == cores * k
  {
    if cores == 0 then [] else Blocks(cores - 1, k) + seq(k, _ => cores - 1)
  }

  lemma {:induction false} BlockAt(cores: nat, k: nat, i: nat)
    requires k > 0 && i < cores * k
    ensures Blocks(cores, k)[i] == i / k && i / k < cores
  {
    if i < (cores - 1) * k {
      BlockAt(cores - 1, k, i);
    } else {
      DivisionIs(i, k, cores - 1, i - (cores - 1) * k);
    }
  }

  lemma {:induction false} Constant(k: nat, x: nat, c: nat)
    ensures multiset(seq(k, _ => x))[c] == if c == x then k else 0
  {
    if k > 0 {
      assert seq(k, _ => x) == seq(k - 1, _ => x) + [x];
      Constant(k - 1, x, c);
    }
  }

  lemma {:induction false} BlocksAreFair(cores: nat, k: nat, c: nat)
    ensures multiset(Blocks(cores, k))[c] == if c < cores then k else 0
  {
    if cores > 0 {
      BlocksAreFair(cores - 1, k, c);
      Constant(k, cores - 1, c);
    }
  }

  // ------------------------------------------------------------------------------------- rotation

  /** Rotating by `n`, as addition below `cores`. */
  lemma RotateOne(x: nat, n: nat, cores: nat)
    requires x < cores
    ensures (x + n) % cores == if x + n % cores < cores then x + n % cores else x + n % cores - cores
  {
    var q, m := n / cores, n % cores;
    assert n == cores * q + m;
    if x + m < cores {
      DivisionIs(x + n, cores, q, x + m);
    } else {
      assert cores * (q + 1) == cores * q + cores;
      DivisionIs(x + n, cores, q + 1, x + m - cores);
    }
  }

  function Turned(x: nat, n: nat, cores: nat): nat
    requires cores > 0
  {
    (x + n) % cores
  }

  function Rotated(s: seq<nat>, n: nat, cores: nat): (r: seq<nat>)
    requires cores > 0
    ensures |r| == |s|
  {
    if s == [] then [] else Rotated(s[..|s| - 1], n, cores) + [Turned(s[|s| - 1], n, cores)]
  }

  /** The core that rotation takes to `c`. */
  function Origin(c: nat, n: nat, cores: nat): (r: nat)
    requires cores > 0 && c < cores
    ensures r < cores
  {
    if c >= n % cores then c - n % cores else c + cores - n % cores
  }

  lemma RotatesTo(x: nat, n: nat, cores: nat, c: nat)
    requires x < cores && c < cores
    ensures Turned(x, n, cores) == c <==> x == Origin(c, n, cores)
  {
    RotateOne(x, n, cores);
  }

  lemma CountOne(s: seq<nat>, x: nat, c: nat)
    ensures multiset(s + [x])[c] == multiset(s)[c] + if x == c then 1 else 0
  {
  }

  lemma {:induction false} RotationMovesCounts(s: seq<nat>, n: nat, cores: nat, c: nat)
    requires cores > 0 && c < cores && forall i :: 0 <= i < |s| ==> s[i] < cores
    ensures multiset(Rotated(s, n, cores))[c] == multiset(s)[Origin(c, n, cores)]
  {
    hide Origin, Turned;
    if s != [] {
      var l := |s| - 1;
      RotationMovesCounts(s[..l], n, cores, c);
      RotatesTo(s[l], n, cores, c);
      CountOne(Rotated(s[..l], n, cores), Turned(s[l], n, cores), c);
      assert s == s[..l] + [s[l]];
      CountOne(s[..l], s[l], Origin(c, n, cores));
    }
  }

  method RotateSequence(s: seq<nat>, n: nat, cores: nat) returns (r: seq<nat>)
    requires 0 < cores < TWO_16 && n < TWO_16 && forall i :: 0 <= i < |s| ==> s[i] < cores
    ensures r == Rotated(s, n, cores) && |r| == |s|
    ensures forall i :: 0 <= i < |r| ==> r[i] == (s[i] + n) % cores < cores
  {
    var rotated := new nat[|s|];
    for i := 0 to |s|
      invariant rotated[..i] == Rotated(s[..i], n, cores)
      invariant forall k :: 0 <= k < i ==> rotated[k] == (s[k] + n) % cores < cores
    {
      assert s[..i + 1][..i] == s[..i];
      rotated[i] := (s[i] + n) % TWO_32 % cores;
      assert (s[i] + n) % TWO_32 == s[i] + n;
      assert rotated[..i + 1] == rotated[..i] + [rotated[i]];
    }
    assert s[..|s|] == s && rotated[..|s|] == rotated[..];
    r := rotated[..];
  }

  // ----------------------------------------------------------------------------- the assignments

  /** The loop that spreads the cores over the validators. */
  method SpreadCores(cores: nat, k: nat) returns (r: seq<nat>)
    requires cores > 0 && k > 0 && cores * (cores * k) <= TWO_32
    ensures r == Blocks(cores, k) && |r| == cores * k
    ensures forall i :: 0 <= i < |r| ==> r[i] == i / k
  {
    assert |Blocks(cores, k)| == cores * k;
    hide Blocks;
    var validators := cores * k;
    var indices := new nat[validators];
    for i := 0 to validators
      invariant forall j :: 0 <= j < i ==> indices[j] == Blocks(cores, k)[j] == j / k
    {
      NoWrap(cores, i, validators);
      SpreadIsFloor(cores, k, i);
      BlockAt(cores, k, i);
      indices[i] := cores * i % TWO_32 / validators;
    }
    assert indices[..] == Blocks(cores, k);
    r := indices[..];
  }

  /** Every core gets exactly `k` validators, whatever the entropy and the time. */
  method PermuteAssignments(H: seq<byte> -> seq<byte>, entropy: seq<byte>, slot: nat, cores: nat, k: nat)
    returns (r: seq<nat>)
    requires Digests(H) && 0 < cores < TWO_16 && k > 0 && cores * (cores * k) <= TWO_32 && cores * k <= TWO_32
    ensures r == Rotated(Shuffle(Blocks(cores, k), Numbers(H, entropy, cores * k)),
                         Phase(slot) / ROTATION_PERIOD, cores)
    ensures |r| == cores * k
    ensures var shuffled := Shuffle(Blocks(cores, k), Numbers(H, entropy, cores * k));
            forall i :: 0 <= i < |r| ==> r[i] == (shuffled[i] + slot % 600 / 10) % cores < cores
    ensures forall c :: 0 <= c < cores ==> multiset(r)[c] == k
  {
    hide Blocks, Drawn, Rotated, Shuffle;
    var indices := SpreadCores(cores, k);
    var shuffled := DeterministicShuffle(H, entropy, indices);
    BoundedShuffle(cores, k, shuffled);
    var amount := Phase(slot) / ROTATION_PERIOD;
    r := RotateSequence(shuffled, amount, cores);
    forall c | 0 <= c < cores ensures multiset(r)[c] == k {
      RotationMovesCounts(shuffled, amount, cores, c);
      BlocksAreFair(cores, k, Origin(c, amount, cores));
    }
  }

  lemma NoWrap(cores: nat, i: nat, validators: nat)
    requires i < validators && cores * validators <= TWO_32 && cores > 0
    ensures cores * i % TWO_32 == cores * i
  {
    assert cores * i < cores * validators;
  }

  lemma BoundedShuffle(cores: nat, k: nat, s: seq<nat>)
    requires multiset(s) == multiset(Blocks(cores, k)) && k > 0
    ensures forall i :: 0 <= i < |s| ==> s[i] < cores
  {
    hide Blocks;
    forall i | 0 <= i < |s| ensures s[i] < cores {
      assert s[i] in multiset(s);
      BlocksAreFair(cores, k, s[i]);
    }
  }
}
