/** Octets, shifts and masks of unsigned words, little-endian numbers and the byte-string
    order that `bytes.Compare` uses. Every other module builds on these. */
module Bytes {

  type byte = b: int | 0 <= b < 256

  datatype Option<+T> = None | Some(value: T)

  const TWO_16 := 0x1_0000
  const TWO_32 := 0x1_0000_0000
  const TWO_64 := 0x1_0000_0000_0000_0000

  function Min(a: int, b: int): int {
    if a <= b then a else b
  }

  function Max(a: int, b: int): int {
    if a >= b then a else b
  }

  function Pow2(n: nat): (p: nat)
    ensures p >= 1
  {
    if n == 0 then 1 else 2 * Pow2(n - 1)
  }

  /** One unfolding of `Pow2`, for proofs that hide its body. */
  lemma Pow2Step(k: nat)
    ensures Pow2(k) > 0
    ensures k == 0 ==> Pow2(k) == 1
    ensures k > 0 ==> Pow2(k) == 2 * Pow2(k - 1) && Pow2(k - 1) > 0
  {
  }

  lemma {:induction false} Pow2Monotone(a: nat, b: nat)
    requires a <= b
    ensures Pow2(a) <= Pow2(b)
  {
    if a < b { Pow2Monotone(a, b - 1); }
  }

  // ---------------------------------------------------------- shifts and masks

  /** `x >> k`, before any truncation to a word. */
  function Shr(x: nat, k: nat): nat
    decreases k
  {
    if k == 0 then x else Shr(x / 2, k - 1)
  }

  /** `x << k`, before any truncation to a word. */
  function Shl(x: nat, k: nat): nat {
    if k == 0 then x else 2 * Shl(x, k - 1)
  }

  /** `x & (2^k - 1)`: the `k` low bits, which is also truncation to a word of `k` bits. */
  function Low(x: nat, k: nat): nat
    decreases k
  {
    if k == 0 then 0 else x % 2 + 2 * Low(x / 2, k - 1)
  }

  /** Go's `|` on unsigned words, one bit at a time. */
  function BitOr(a: nat, b: nat): (r: nat)
    decreases a + b
  {
    if a == 0 && b == 0 then 0
    else (if a % 2 == 1 || b % 2 == 1 then 1 else 0) + 2 * BitOr(a / 2, b / 2)
  }

  /** A word is its low bits below its shifted-down high bits. */
  lemma {:induction false} SplitBits(x: nat, k: nat)
    ensures x == Low(x, k) + Shl(Shr(x, k), k)
    ensures Low(x, k) < Pow2(k)
    decreases k
  {
    if k != 0 { SplitBits(x / 2, k - 1); }
  }

  lemma {:induction false} JoinBits(lo: nat, hi: nat, k: nat)
    requires lo < Pow2(k)
    ensures Low(lo + Shl(hi, k), k) == lo && Shr(lo + Shl(hi, k), k) == hi
    decreases k
  {
    if k != 0 {
      JoinBits(lo / 2, hi, k - 1);
      assert (lo + Shl(hi, k)) / 2 == lo / 2 + Shl(hi, k - 1);
    }
  }

  lemma {:induction false} LowSmall(x: nat, k: nat)
    requires x < Pow2(k)
    ensures Low(x, k) == x
  {
    if k != 0 { LowSmall(x / 2, k - 1); }
  }

  lemma {:induction false} LowAtMost(x: nat, k: nat)
    ensures Low(x, k) <= x
    decreases k
  {
    if k != 0 { LowAtMost(x / 2, k - 1); }
  }

  lemma {:induction false} ShlZero(k: nat)
    ensures Shl(0, k) == 0
  {
    if k != 0 { ShlZero(k - 1); }
  }

  lemma {:induction false} ShrBound(x: nat, k: nat, m: nat)
    requires x < Pow2(k + m)
    ensures Shr(x, k) < Pow2(m)
    decreases k
  {
    if k != 0 { ShrBound(x / 2, k - 1, m); }
  }

  lemma {:induction false} JoinBound(lo: nat, hi: nat, k: nat, m: nat)
    requires lo < Pow2(k) && hi < Pow2(m)
    ensures lo + Shl(hi, k) < Pow2(k + m)
    decreases k
  {
    if k != 0 { JoinBound(lo / 2, hi, k - 1, m); }
  }

  lemma {:induction false} ShrShr(x: nat, a: nat, b: nat)
    ensures Shr(Shr(x, a), b) == Shr(x, a + b)
    decreases a
  {
    if a != 0 { ShrShr(x / 2, a - 1, b); }
  }

  lemma {:induction false} ShlShl(x: nat, a: nat, b: nat)
    ensures Shl(Shl(x, a), b) == Shl(x, a + b)
    decreases b
  {
    if b != 0 { ShlShl(x, a, b - 1); }
  }

  lemma {:induction false} ShlAdd(x: nat, y: nat, k: nat)
    ensures Shl(x + y, k) == Shl(x, k) + Shl(y, k)
  {
    if k != 0 { ShlAdd(x, y, k - 1); }
  }

  lemma {:induction false} ShlPow2(a: nat, k: nat)
    ensures Shl(Pow2(a), k) == Pow2(a + k)
  {
    if k != 0 { ShlPow2(a, k - 1); }
  }

  lemma {:induction false} ShlMonotone(x: nat, y: nat, k: nat)
    requires x <= y
    ensures Shl(x, k) <= Shl(y, k)
  {
    if k != 0 { ShlMonotone(x, y, k - 1); }
  }

  /** Shifting by four moves half an octet. */
  lemma Nibble(x: nat, k: nat)
    ensures Shl(x, k + 4) == 16 * Shl(x, k)
    ensures Pow2(k + 4) == 16 * Pow2(k)
    ensures Shr(x, k + 4) == Shr(x / 16, k)
  {
    assert Shl(x, k + 4) == 2 * Shl(x, k + 3) == 4 * Shl(x, k + 2) == 8 * Shl(x, k + 1);
    assert Pow2(k + 4) == 2 * Pow2(k + 3) == 4 * Pow2(k + 2) == 8 * Pow2(k + 1);
    assert x / 2 / 2 / 2 / 2 == x / 16;
    assert Shr(x, k + 4) == Shr(x / 2, k + 3) == Shr(x / 2 / 2, k + 2) == Shr(x / 2 / 2 / 2, k + 1);
  }

  lemma LowNibble(x: nat, k: nat)
    ensures Low(x, k + 4) == x % 16 + 16 * Low(x / 16, k)
  {
    var x1 := x / 2;
    var x2 := x1 / 2;
    var x3 := x2 / 2;
    assert Low(x, k + 4) == x % 2 + 2 * Low(x1, k + 3);
    assert Low(x1, k + 3) == x1 % 2 + 2 * Low(x2, k + 2);
    assert Low(x2, k + 2) == x2 % 2 + 2 * Low(x3, k + 1);
    assert Low(x3, k + 1) == x3 % 2 + 2 * Low(x3 / 2, k);
    assert x3 / 2 == x / 16;
  }

  /** Shifting by eight moves a whole octet. */
  lemma Octet(x: nat, k: nat)
    ensures Shl(x, k + 8) == 256 * Shl(x, k)
    ensures Pow2(k + 8) == 256 * Pow2(k)
    ensures Shr(x, k + 8) == Shr(x / 256, k)
    ensures Low(x, k + 8) == x % 256 + 256 * Low(x / 256, k)
  {
    hide *;
    Nibble(x, k + 4);
    Nibble(x, k);
    Nibble(x / 16, k);
    LowNibble(x, k + 4);
    LowNibble(x / 16, k);
    assert x / 16 / 16 == x / 256;
  }

  lemma WordSizes()
    ensures Pow2(8) == 256 && Pow2(16) == TWO_16 && Pow2(32) == TWO_32 && Pow2(64) == TWO_64
  {
    assert Pow2(0) == 1;
    hide *;
    Octet(0, 0); Octet(0, 8); Octet(0, 16); Octet(0, 24);
    Octet(0, 32); Octet(0, 40); Octet(0, 48); Octet(0, 56);
  }

  lemma {:induction false} BitOrZero(a: nat)
    ensures BitOr(0, a) == a && BitOr(a, 0) == a
  {
    if a != 0 { BitOrZero(a / 2); }
  }

  /** Or-ing a word into the bits above another one adds the two. */
  lemma {:induction false} BitOrDisjoint(lo: nat, hi: nat, k: nat)
    requires lo < Pow2(k)
    ensures BitOr(lo, Shl(hi, k)) == lo + Shl(hi, k)
    decreases k
  {
    if k == 0 {
      BitOrZero(hi);
    } else {
      BitOrDisjoint(lo / 2, hi, k - 1);
      assert Shl(hi, k) / 2 == Shl(hi, k - 1);
    }
  }

  // ------------------------------------------------------------ little endian

  /** The `l` low octets of `x`, least significant first. */
  function LittleEndian(x: nat, l: nat): (s: seq<byte>)
    ensures |s| == l
    decreases l
  {
    if l == 0 then [] else [x % 256] + LittleEndian(x / 256, l - 1)
  }

  function FromLittleEndian(s: seq<byte>): nat {
    if s == [] then 0 else s[0] + 256 * FromLittleEndian(s[1..])
  }

  lemma {:induction false} FromLittleEndianBound(s: seq<byte>)
    ensures FromLittleEndian(s) < Pow2(8 * |s|)
  {
    if s != [] {
      hide Pow2;
      FromLittleEndianBound(s[1..]);
      Octet(0, 8 * (|s| - 1));
    }
  }

  lemma {:induction false} FromLittleEndianAppend(s: seq<byte>, t: seq<byte>)
    ensures FromLittleEndian(s + t) == FromLittleEndian(s) + Shl(FromLittleEndian(t), 8 * |s|)
  {
    if s == [] {
      assert s + t == t;
    } else {
      assert (s + t)[1..] == s[1..] + t;
      FromLittleEndianAppend(s[1..], t);
      Octet(FromLittleEndian(t), 8 * (|s| - 1));
    }
  }

  lemma {:induction false} LittleEndianRoundTrip(x: nat, l: nat)
    ensures FromLittleEndian(LittleEndian(x, l)) == Low(x, 8 * l)
    decreases l
  {
    if l != 0 {
      LittleEndianRoundTrip(x / 256, l - 1);
      Octet(x, 8 * (l - 1));
    }
  }

  lemma {:induction false} LittleEndianOfBytes(s: seq<byte>)
    ensures LittleEndian(FromLittleEndian(s), |s|) == s
  {
    if s != [] {
      var x, t := FromLittleEndian(s), FromLittleEndian(s[1..]);
      LittleEndianOfBytes(s[1..]);
      assert x % 256 == s[0] && x / 256 == t;
      assert s == [s[0]] + s[1..];
    }
  }

  lemma {:induction false} ZerosAreZero(n: nat)
    ensures FromLittleEndian(seq(n, _ => 0 as byte)) == 0
  {
    if n != 0 {
      assert seq(n, _ => 0 as byte)[1..] == seq(n - 1, _ => 0 as byte);
      ZerosAreZero(n - 1);
    }
  }

  /** Octet `i` of a little-endian encoding is what a shift and a mask select. */
  lemma {:induction false} LittleEndianAt(x: nat, l: nat, i: nat)
    requires i < l
    ensures LittleEndian(x, l)[i] == Shr(x, 8 * i) % 256
    decreases i
  {
    if i != 0 {
      LittleEndianAt(x / 256, l - 1, i - 1);
      Octet(x, 8 * (i - 1));
    }
  }

  // ------------------------------------------------------- lexicographic order

  /** `bytes.Compare(a, b) < 0`. */
  predicate Less(a: seq<byte>, b: seq<byte>) {
    if b == [] then false
    else if a == [] then true
    else if a[0] != b[0] then a[0] < b[0]
    else Less(a[1..], b[1..])
  }

  lemma {:induction false} LessIrreflexive(a: seq<byte>)
    ensures !Less(a, a)
  {
    if a != [] { LessIrreflexive(a[1..]); }
  }

  lemma {:induction false} LessTransitive(a: seq<byte>, b: seq<byte>, c: seq<byte>)
    requires Less(a, b) && Less(b, c)
    ensures Less(a, c)
  {
    if a != [] && a[0] == b[0] && b[0] == c[0] { LessTransitive(a[1..], b[1..], c[1..]); }
  }

  lemma {:induction false} LessTotal(a: seq<byte>, b: seq<byte>)
    ensures a == b || Less(a, b) || Less(b, a)
  {
    if a != [] && b != [] && a[0] == b[0] {
      LessTotal(a[1..], b[1..]);
      assert a == [a[0]] + a[1..] && b == [b[0]] + b[1..];
    }
  }
}
