/** The instruction formats of the virtual machine, written down the other way round: how each
    instruction is laid out in octets, with immediates of any length the formats have. Decoding
    undoes it, at every place in every program whose marks say where the instruction ends. */
module Assembly {
  import opened Bytes
  import opened Division
  import opened Instructions
  import opened Programs

  /** How long the immediates are, and whether a register is set with all eight octets. */
  datatype Form = Form(lx: nat, ly: nat, wide: bool)

  predicate Possible(f: Form) {
    f.lx <= 4 && f.ly <= 4
  }

  /** Words that are the sign extension of their low `l` octets. */
  predicate Short(x: nat, l: nat) {
    if l == 0 then x == 0
    else x < Pow2(8 * l - 1) || (x < TWO_64 && TWO_64 - Pow2(8 * l - 1) <= x)
  }

  /** The distance from `n` to `target` on 64-bit words. */
  function Distance(n: nat, target: nat): nat {
    if target >= n then target - n else if n < TWO_64 then target - n + TWO_64 else 0
  }

  predicate Reaches(n: nat, target: nat, l: nat) {
    n < TWO_64 && target < TWO_64 && Short(Distance(n, target), l)
  }

  function Nibbles(low: nat, high: nat): byte
    requires low < 16 && high < 16
  {
    low + 16 * high
  }

  function SizeIndex(size: nat): nat {
    if size == 1 then 0 else if size == 2 then 1 else if size == 4 then 2 else 3
  }

  function LoadIndex(size: nat, signed: bool): nat {
    2 * SizeIndex(size) + if signed then 1 else 0
  }

  predicate Width(size: nat) {
    size == 1 || size == 2 || size == 4 || size == 8
  }

  /** Registers exist, immediates and distances fit their lengths, opcodes are of the right kind. */
  predicate Encodable(n: nat, i: Instruction, f: Form) {
    && Possible(f) && Named(i)
    && match i
       case Trap => true
       case Fallthrough => true
       case Ecalli(x) => Short(x, f.lx)
       case Set(_, v) => if f.wide then v < TWO_64 else Short(v, f.lx)
       case Load(_, base, x, size, signed) =>
         Short(x, f.lx) && Width(size) && !(size == 8 && signed) && (base.Register? || base == Value(0))
       case Store(base, x, source, size) =>
         && Short(x, f.lx) && Width(size) && (base.Register? || base == Value(0))
         && (source.Value? ==> Short(source.value, f.ly))
       case Branch(op, _, right, target) =>
         if right.Value? then 81 <= op <= 90 && Short(right.value, f.lx) && Reaches(n, target, f.ly)
         else 170 <= op <= 175 && Reaches(n, target, f.lx)
       case Jump(target) => Reaches(n, target, f.lx)
       case SetAndJump(_, v, target) => Short(v, f.lx) && Reaches(n, target, f.ly)
       case JumpIndirect(_, x) => Short(x, f.lx)
       case SetAndJumpIndirect(_, _, v, x) => v < Pow2(8 * f.lx) && Short(x, f.ly)
       case Move(_, _) => true
       case Sbrk(_, _) => true
       case Arith(op, d, a, b, imm) =>
         || (102 <= op <= 111 && a == b && imm == 0)
         || (131 <= op <= 161 && b == d && Short(imm, f.lx))
         || (190 <= op <= 230 && imm == 0)
       case Bad(_) => false
  }

  function AssembledStore(base: Operand, x: nat, source: Operand, size: nat, f: Form): seq<byte>
    requires NamedOperand(base) && NamedOperand(source) && Possible(f)
  {
    var k := SizeIndex(size);
    match (base, source)
    case (Value(_), Value(y)) => Two([30 + k, f.lx], f, x, y)
    case (Value(_), Register(a)) => One([59 + k, Nibbles(a, 0)], f, x)
    case (Register(b), Value(y)) => Two([70 + k, Nibbles(b, f.lx)], f, x, y)
    case (Register(b), Register(a)) => One([120 + k, Nibbles(a, b)], f, x)
  }

  /** A head, then one immediate. */
  function One(head: seq<byte>, f: Form, x: nat): (r: seq<byte>)
    ensures |r| == |head| + f.lx
  {
    head + LittleEndian(x, f.lx)
  }

  /** A head, then two immediates. */
  function Two(head: seq<byte>, f: Form, x: nat, y: nat): (r: seq<byte>)
    ensures |r| == |head| + f.lx + f.ly
  {
    head + LittleEndian(x, f.lx) + LittleEndian(y, f.ly)
  }

  function Assembled(n: nat, i: Instruction, f: Form): seq<byte>
    requires Encodable(n, i, f)
  {
    match i
    case Trap => [0]
    case Fallthrough => [1]
    case Ecalli(x) => One([10], f, x)
    case Set(d, v) =>
      if f.wide then [20, Nibbles(d, 0)] + LittleEndian(v, 8) else One([51, Nibbles(d, 0)], f, v)
    case Load(d, base, x, size, signed) =>
      (match base
       case Value(_) => One([52 + LoadIndex(size, signed), Nibbles(d, 0)], f, x)
       case Register(b) => One([124 + LoadIndex(size, signed), Nibbles(d, b)], f, x))
    case Store(base, x, source, size) => AssembledStore(base, x, source, size, f)
    case Branch(op, a, right, target) =>
      (match right
       case Value(x) => Two([op, Nibbles(a, f.lx)], f, x, Distance(n, target))
       case Register(b) => One([op, Nibbles(a, b)], f, Distance(n, target)))
    case Jump(target) => One([40], f, Distance(n, target))
    case SetAndJump(d, v, target) => Two([80, Nibbles(d, f.lx)], f, v, Distance(n, target))
    case JumpIndirect(a, x) => One([50, Nibbles(a, 0)], f, x)
    case SetAndJumpIndirect(d, b, v, x) => Two([180, Nibbles(d, b), f.lx], f, v, x)
    case Move(d, a) => [100, Nibbles(d, a)]
    case Sbrk(d, a) => [101, Nibbles(d, a)]
    case Arith(op, d, a, b, imm) =>
      if op <= 111 then [op, Nibbles(d, a)]
      else if op <= 161 then One([op, Nibbles(d, a)], f, imm)
      else [op, Nibbles(a, b), d]
  }

  // --------------------------------------------------------------------------------------- pieces

  /** The octets stand in the code at `n`. */
  predicate Placed(code: seq<byte>, n: nat, body: seq<byte>) {
    n + |body| <= |code| && code[n..n + |body|] == body
  }

  lemma NibblesBack(low: nat, high: nat)
    requires low < 16 && high < 16
    ensures low < REGISTERS ==> LowRegister(Nibbles(low, high)) == low
    ensures high < REGISTERS ==> HighRegister(Nibbles(low, high)) == high
    ensures high <= 4 ==> HighLength(Nibbles(low, high)) == high
  {
  }

  lemma PlacedAt(code: seq<byte>, n: nat, body: seq<byte>, k: nat)
    requires Placed(code, n, body) && k < |body|
    ensures n + |body| <= |code| && code[n + k] == body[k]
  {
    assert code[n..n + |body|][k] == code[n + k];
  }

  lemma PlacedSlice(code: seq<byte>, n: nat, body: seq<byte>, lo: nat, hi: nat)
    requires Placed(code, n, body) && lo <= hi <= |body|
    ensures n + |body| <= |code| && code[n + lo..n + hi] == body[lo..hi]
  {
    forall k | lo <= k < hi ensures code[n + k] == body[k] { PlacedAt(code, n, body, k); }
    assert n + |body| <= |code|;
    hide Placed;
    var x, y := code[n + lo..n + hi], body[lo..hi];
    forall j | 0 <= j < hi - lo ensures x[j] == y[j] { assert x[j] == code[n + (lo + j)]; }
  }

  lemma {:induction false} Pow2Product(a: nat, b: nat)
    ensures Pow2(a + b) == Pow2(a) * Pow2(b)
    decreases b
  {
    if b > 0 {
      Pow2Product(a, b - 1);
      assert Pow2(a) * (2 * Pow2(b - 1)) == 2 * (Pow2(a) * Pow2(b - 1));
    }
  }

  /** The low bits are the remainder. */
  lemma {:induction false} LowIsRemainder(x: nat, k: nat)
    ensures Low(x, k) == x % Pow2(k)
    decreases k
  {
    if k > 0 {
      LowIsRemainder(x / 2, k - 1);
      Pow2Step(k - 1); Pow2Step(k);
      var half, size := x / 2, Pow2(k - 1);
      assert Pow2(k) == 2 * size && Low(x, k) == x % 2 + 2 * Low(half, k - 1);
      hide Pow2, Low;
      Doubled(x, size);
    }
  }

  lemma Doubled(x: nat, size: nat)
    requires size > 0
    ensures x % (2 * size) == x % 2 + 2 * (x / 2 % size)
  {
    var q, r := x / 2 / size, x / 2 % size;
    Divided(x / 2, size);
    assert x == 2 * (size * q + r) + x % 2;
    assert 2 * (size * q) == (2 * size) * q;
    DivisionIs(x, 2 * size, q, 2 * r + x % 2);
  }

  /** A word near 2^64, which `size` divides, and its remainder. */
  lemma HighRemainder(x: nat, size: nat, rest: nat)
    requires 0 < size && size * rest == TWO_64 && TWO_64 - size <= x < TWO_64 && rest > 0
    ensures x % size == x - (TWO_64 - size)
  {
    assert size * (rest - 1) == size * rest - size;
    DivisionIs(x, size, rest - 1, x - (TWO_64 - size));
  }

  lemma OctetsDivideWord(l: nat)
    requires l <= 8
    ensures Pow2(8 * l) * Pow2(64 - 8 * l) == TWO_64 && Pow2(8 * l) > 0 && Pow2(64 - 8 * l) > 0
    ensures l > 0 ==> Pow2(8 * l) == 2 * Pow2(8 * l - 1)
  {
    Pow2Product(8 * l, 64 - 8 * l);
    WordSizes();
    Pow2Step(8 * l); Pow2Step(64 - 8 * l);
    hide Pow2;
  }

  /** The low octets of a short word. */
  lemma ShortLow(x: nat, l: nat)
    requires 0 < l <= 8 && Short(x, l)
    ensures Low(x, 8 * l) == if x < Pow2(8 * l - 1) then x else x - (TWO_64 - Pow2(8 * l))
    ensures x >= Pow2(8 * l - 1) ==> Pow2(8 * l - 1) <= x - (TWO_64 - Pow2(8 * l)) < Pow2(8 * l)
  {
    hide Pow2, Low;
    OctetsDivideWord(l);
    LowIsRemainder(x, 8 * l);
    if x < Pow2(8 * l - 1) {
      SmallRemainder(x, Pow2(8 * l));
    } else {
      HighRemainder(x, Pow2(8 * l), Pow2(64 - 8 * l));
    }
  }

  lemma SmallRemainder(v: nat, size: nat)
    requires v < size
    ensures v % size == v
  {
  }

  lemma ShortBack(x: nat, l: nat)
    requires l <= 8 && Short(x, l)
    ensures SignExtend(Low(x, 8 * l), l) == x
  {
    if l > 0 {
      ShortLow(x, l);
      SplitBits(x, 8 * l);
      Pow2Step(8 * l);
      hide Pow2, Low;
      SmallRemainder(Low(x, 8 * l), Pow2(8 * l));
    }
  }

  /** An immediate of `l` octets at offset `k` of the instruction. */
  lemma ImmediateBack(code: seq<byte>, n: nat, body: seq<byte>, k: nat, l: nat, x: nat)
    requires Placed(code, n, body) && k + l <= |body| && body[k..k + l] == LittleEndian(x, l) && l <= 8
    ensures n + k + l <= |code|
    ensures x < Pow2(8 * l) ==> Immediate(code, n + k, l) == x
    ensures Short(x, l) ==> Signed(code, n + k, l) == x
  {
    PlacedSlice(code, n, body, k, k + l);
    LittleEndianRoundTrip(x, l);
    hide LittleEndian, FromLittleEndian, SignExtend, Placed, Low, Pow2, Short;
    if x < Pow2(8 * l) { LowSmall(x, 8 * l); }
    if Short(x, l) { ShortBack(x, l); }
  }

  lemma TargetBack(n: nat, target: nat, l: nat)
    requires Reaches(n, target, l)
    ensures Relative(n, Distance(n, target)) == target
  {
    hide Pow2;
  }

  /** The first part of what stands in the code stands there too. */
  lemma PlacedHead(code: seq<byte>, n: nat, head: seq<byte>, body: seq<byte>)
    requires Placed(code, n, body) && head <= body
    ensures Placed(code, n, head)
  {
    PlacedSlice(code, n, body, 0, |head|);
    assert body[0..|head|] == head;
  }

  /** A head and one immediate in the code. */
  lemma OneBack(code: seq<byte>, n: nat, head: seq<byte>, f: Form, x: nat)
    requires Placed(code, n, One(head, f, x)) && Possible(f)
    ensures n + |head| + f.lx <= |code| && Placed(code, n, head)
    ensures Short(x, f.lx) ==> Signed(code, n + |head|, f.lx) == x
  {
    hide Signed, LittleEndian, Placed, Short, Pow2;
    PlacedHead(code, n, head, One(head, f, x));
    ImmediateBack(code, n, One(head, f, x), |head|, f.lx, x);
  }

  /** A head and two immediates in the code. */
  lemma TwoBack(code: seq<byte>, n: nat, head: seq<byte>, f: Form, x: nat, y: nat)
    requires Placed(code, n, Two(head, f, x, y)) && Possible(f)
    ensures n + |head| + f.lx + f.ly <= |code| && Placed(code, n, head)
    ensures Short(x, f.lx) ==> Signed(code, n + |head|, f.lx) == x
    ensures x < Pow2(8 * f.lx) ==> Immediate(code, n + |head|, f.lx) == x
    ensures Short(y, f.ly) ==> Signed(code, n + |head| + f.lx, f.ly) == y
  {
    hide Signed, Immediate, LittleEndian, Placed, Short, Pow2;
    var body := Two(head, f, x, y);
    PlacedHead(code, n, head, body);
    assert body[|head|..|head| + f.lx] == LittleEndian(x, f.lx);
    assert body[|head| + f.lx..|head| + f.lx + f.ly] == LittleEndian(y, f.ly);
    ImmediateBack(code, n, body, |head|, f.lx, x);
    ImmediateBack(code, n, body, |head| + f.lx, f.ly, y);
  }

  lemma SizesBack(size: nat, signed: bool)
    requires Width(size) && !(size == 8 && signed)
    ensures LoadIndex(size, signed) <= 6
    ensures SizeOf(LoadIndex(size, signed) / 2) == size && (LoadIndex(size, signed) % 2 == 1) == signed
  {
  }

  lemma StoreSizesBack(size: nat)
    requires Width(size)
    ensures SizeIndex(size) <= 3 && SizeOf(SizeIndex(size)) == size
  {
  }

  // ---------------------------------------------------------------------------- format by format

  lemma PlainBack(code: seq<byte>, n: nat, op: byte)
    requires Placed(code, n, [op]) && op <= 1
    ensures n < |code| && Decode(code, n, 0) == if op == 0 then Trap else Fallthrough
  {
    PlacedAt(code, n, [op], 0);
  }

  /** One octet, then one immediate. */
  lemma OffsetBack(code: seq<byte>, n: nat, op: byte, f: Form, x: nat)
    requires Possible(f) && Placed(code, n, One([op], f, x)) && Short(x, f.lx) && (op == 10 || op == 40)
    ensures n < |code| && Decode(code, n, f.lx) == if op == 10 then Ecalli(x) else Jump(Relative(n, x))
  {
    hide Signed, One, Placed, Short, Relative;
    OneBack(code, n, [op], f, x);
    PlacedAt(code, n, [op], 0);
  }

  lemma LittleEndianLength(v: nat, l: nat)
    ensures |LittleEndian(v, l)| == l
  {
  }

  lemma WideBack(code: seq<byte>, n: nat, d: nat, v: nat)
    requires d < REGISTERS && v < TWO_64 && Placed(code, n, [20, Nibbles(d, 0)] + LittleEndian(v, 8))
    ensures n < |code| && Decode(code, n, 9) == Set(d, v)
  {
    hide LittleEndian, Immediate, Placed, Nibbles, LowRegister, Pow2;
    var body := [20, Nibbles(d, 0)] + LittleEndian(v, 8);
    LittleEndianLength(v, 8);
    WordSizes();
    PlacedAt(code, n, body, 0); PlacedAt(code, n, body, 1);
    NibblesBack(d, 0);
    ImmediateBack(code, n, body, 2, 8, v);
  }

  /** One register and an immediate. */
  lemma RegImmBack(code: seq<byte>, n: nat, op: byte, a: nat, f: Form, x: nat)
    requires a < REGISTERS && Possible(f) && Short(x, f.lx) && 50 <= op <= 62
    requires Placed(code, n, One([op, Nibbles(a, 0)], f, x))
    ensures n < |code| && Decode(code, n, 1 + f.lx) ==
            if op == 50 then JumpIndirect(a, x)
            else if op == 51 then Set(a, x)
            else if op <= 58 then LoadOf(a, Value(0), x, op - 52)
            else Store(Value(0), x, Register(a), SizeOf(op - 59))
  {
    hide Signed, One, Placed, Nibbles, LowRegister, SizeOf, LoadOf, Short;
    OneBack(code, n, [op, Nibbles(a, 0)], f, x);
    NibblesBack(a, 0);
    PlacedAt(code, n, [op, Nibbles(a, 0)], 0); PlacedAt(code, n, [op, Nibbles(a, 0)], 1);
  }

  /** Two registers and an immediate. */
  lemma Reg2ImmBack(code: seq<byte>, n: nat, op: byte, a: nat, b: nat, f: Form, x: nat)
    requires a < REGISTERS && b < REGISTERS && Possible(f) && Short(x, f.lx)
    requires (120 <= op <= 161 || 170 <= op <= 175) && Placed(code, n, One([op, Nibbles(a, b)], f, x))
    ensures n < |code| && Decode(code, n, 1 + f.lx) ==
            if op <= 123 then Store(Register(b), x, Register(a), SizeOf(op - 120))
            else if op <= 130 then LoadOf(a, Register(b), x, op - 124)
            else if op <= 161 then Arith(op, a, b, a, x)
            else Branch(op, a, Register(b), Relative(n, x))
  {
    hide Signed, One, Placed, Nibbles, LowRegister, HighRegister, SizeOf, LoadOf, Short, Relative;
    OneBack(code, n, [op, Nibbles(a, b)], f, x);
    NibblesBack(a, b);
    PlacedAt(code, n, [op, Nibbles(a, b)], 0); PlacedAt(code, n, [op, Nibbles(a, b)], 1);
  }

  /** One register and two immediates. */
  lemma RegTwoBack(code: seq<byte>, n: nat, op: byte, a: nat, f: Form, x: nat, y: nat)
    requires a < REGISTERS && Possible(f) && Short(x, f.lx) && Short(y, f.ly) && (70 <= op <= 73 || 80 <= op <= 90)
    requires Placed(code, n, Two([op, Nibbles(a, f.lx)], f, x, y))
    ensures n < |code| && Decode(code, n, 1 + f.lx + f.ly) ==
            if op <= 73 then Store(Register(a), x, Value(y), SizeOf(op - 70))
            else if op == 80 then SetAndJump(a, x, Relative(n, y))
            else Branch(op, a, Value(x), Relative(n, y))
  {
    hide Signed, Two, Placed, Nibbles, LowRegister, HighLength, SizeOf, Short, Relative;
    TwoBack(code, n, [op, Nibbles(a, f.lx)], f, x, y);
    NibblesBack(a, f.lx);
    PlacedAt(code, n, [op, Nibbles(a, f.lx)], 0); PlacedAt(code, n, [op, Nibbles(a, f.lx)], 1);
  }

  /** Two immediates. */
  lemma Imm2Back(code: seq<byte>, n: nat, op: byte, f: Form, x: nat, y: nat)
    requires Possible(f) && Short(x, f.lx) && Short(y, f.ly) && 30 <= op <= 33 && Placed(code, n, Two([op, f.lx],
        f, x, y))
    ensures n < |code| && Decode(code, n, 1 + f.lx + f.ly) == Store(Value(0), x, Value(y), SizeOf(op - 30))
  {
    hide Signed, Two, Placed, SizeOf, Short;
    TwoBack(code, n, [op, f.lx], f, x, y);
    PlacedAt(code, n, [op, f.lx], 0); PlacedAt(code, n, [op, f.lx], 1);
  }

  /** Two registers and two immediates. */
  lemma Reg2Imm2Back(code: seq<byte>, n: nat, d: nat, b: nat, f: Form, v: nat, x: nat)
    requires d < REGISTERS && b < REGISTERS && Possible(f) && v < Pow2(8 * f.lx) && Short(x, f.ly)
    requires Placed(code, n, Two([180, Nibbles(d, b), f.lx], f, v, x))
    ensures n < |code| && Decode(code, n, 2 + f.lx + f.ly) == SetAndJumpIndirect(d, b, v, x)
  {
    hide Signed, Immediate, Two, Placed, Nibbles, LowRegister, HighRegister, Short, Pow2;
    TwoBack(code, n, [180, Nibbles(d, b), f.lx], f, v, x);
    NibblesBack(d, b);
    var head := [180, Nibbles(d, b), f.lx];
    PlacedAt(code, n, head, 0); PlacedAt(code, n, head, 1); PlacedAt(code, n, head, 2);
  }

  /** Registers only. */
  lemma RegRegBack(code: seq<byte>, n: nat, op: byte, d: nat, a: nat)
    requires d < REGISTERS && a < REGISTERS && 100 <= op <= 111 && Placed(code, n, [op, Nibbles(d, a)])
    ensures n < |code| && Decode(code, n, 1) ==
            if op == 100 then Move(d, a) else if op == 101 then Sbrk(d, a) else Arith(op, d, a, a, 0)
  {
    hide Placed, Nibbles, LowRegister, HighRegister;
    var body := [op, Nibbles(d, a)];
    PlacedAt(code, n, body, 0); PlacedAt(code, n, body, 1);
    NibblesBack(d, a);
  }

  lemma Reg3Back(code: seq<byte>, n: nat, op: byte, d: nat, a: nat, b: nat)
    requires d < REGISTERS && a < REGISTERS && b < REGISTERS && 190 <= op <= 230
    requires Placed(code, n, [op, Nibbles(a, b), d])
    ensures n < |code| && Decode(code, n, 2) == Arith(op, d, a, b, 0)
  {
    hide Placed, Nibbles, LowRegister, HighRegister;
    var body := [op, Nibbles(a, b), d];
    PlacedAt(code, n, body, 0); PlacedAt(code, n, body, 1); PlacedAt(code, n, body, 2);
    NibblesBack(a, b);
  }

  // ------------------------------------------------------------------------------------ together

  ghost predicate Back(code: seq<byte>, n: nat, i: Instruction, f: Form)
    requires Encodable(n, i, f)
  {
    n < |code| && 0 < |Assembled(n, i, f)| <= 11 && Decode(code, n, |Assembled(n, i, f)| - 1) == i
  }

  lemma LoadBack(code: seq<byte>, n: nat, i: Instruction, f: Form)
    requires Encodable(n, i, f) && Placed(code, n, Assembled(n, i, f)) && i.Load?
    ensures Back(code, n, i, f)
  {
    hide Decode, Placed, LittleEndian, Nibbles, SizeOf, SizeIndex, Short;
    var k := LoadIndex(i.size, i.signed);
    SizesBack(i.size, i.signed);
    match i.base
    case Value(_) => RegImmBack(code, n, 52 + k, i.dst, f, i.offset);
    case Register(b) => Reg2ImmBack(code, n, 124 + k, i.dst, b, f, i.offset);
  }

  lemma StoreBack(code: seq<byte>, n: nat, i: Instruction, f: Form)
    requires Encodable(n, i, f) && Placed(code, n, Assembled(n, i, f)) && i.Store?
    ensures Back(code, n, i, f)
  {
    hide Decode, Placed, LittleEndian, Nibbles, SizeOf, SizeIndex, Short;
    var k := SizeIndex(i.size);
    StoreSizesBack(i.size);
    match (i.base, i.source)
    case (Value(_), Value(y)) => Imm2Back(code, n, 30 + k, f, i.offset, y);
    case (Value(_), Register(a)) => RegImmBack(code, n, 59 + k, a, f, i.offset);
    case (Register(b), Value(y)) => RegTwoBack(code, n, 70 + k, b, f, i.offset, y);
    case (Register(b), Register(a)) => Reg2ImmBack(code, n, 120 + k, a, b, f, i.offset);
  }

  lemma JumpBack(code: seq<byte>, n: nat, i: Instruction, f: Form)
    requires Encodable(n, i, f) && Placed(code, n, Assembled(n, i, f)) && (i.Jump? || i.SetAndJump?)
    ensures Back(code, n, i, f)
  {
    TargetBack(n, i.target, if i.Jump? then f.lx else f.ly);
    hide Decode, Placed, LittleEndian, Nibbles, Short, Distance, Relative;
    match i
    case Jump(target) => OffsetBack(code, n, 40, f, Distance(n, target));
    case SetAndJump(dst, v, target) => RegTwoBack(code, n, 80, dst, f, v, Distance(n, target));
  }

  lemma BranchBack(code: seq<byte>, n: nat, i: Instruction, f: Form)
    requires Encodable(n, i, f) && Placed(code, n, Assembled(n, i, f)) && i.Branch?
    ensures Back(code, n, i, f)
  {
    TargetBack(n, i.target, if i.right.Register? then f.lx else f.ly);
    hide Decode, Placed, LittleEndian, Nibbles, Short, Distance, Relative;
    match i.right
    case Value(x) => RegTwoBack(code, n, i.op, i.left, f, x, Distance(n, i.target));
    case Register(b) => Reg2ImmBack(code, n, i.op, i.left, b, f, Distance(n, i.target));
  }

  lemma ArithBack(code: seq<byte>, n: nat, i: Instruction, f: Form)
    requires Encodable(n, i, f) && Placed(code, n, Assembled(n, i, f)) && i.Arith?
    ensures Back(code, n, i, f)
  {
    hide Decode, Placed, LittleEndian, Nibbles, Short;
    if i.op <= 111 {
      RegRegBack(code, n, i.op, i.dst, i.a);
    } else if i.op <= 161 {
      Reg2ImmBack(code, n, i.op, i.dst, i.a, f, i.imm);
    } else {
      Reg3Back(code, n, i.op, i.dst, i.a, i.b);
    }
  }

  lemma SetBack(code: seq<byte>, n: nat, i: Instruction, f: Form)
    requires Encodable(n, i, f) && Placed(code, n, Assembled(n, i, f)) && (i.Set? || i.SetAndJumpIndirect?)
    ensures Back(code, n, i, f)
  {
    hide Decode, Placed, LittleEndian, Nibbles, Short, Pow2;
    LittleEndianLength(i.value, 8);
    match i
    case Set(d, v) => if f.wide { WideBack(code, n, d, v); } else { RegImmBack(code, n, 51, d, f, v); }
    case SetAndJumpIndirect(d, b, v, x) => Reg2Imm2Back(code, n, d, b, f, v, x);
  }

  lemma OtherBack(code: seq<byte>, n: nat, i: Instruction, f: Form)
    requires Encodable(n, i, f) && Placed(code, n, Assembled(n, i, f))
    requires i.Trap? || i.Fallthrough? || i.Ecalli? || i.JumpIndirect? || i.Move? || i.Sbrk?
    ensures Back(code, n, i, f)
  {
    hide Decode, Placed, LittleEndian, Nibbles, Short;
    match i
    case Trap => PlainBack(code, n, 0);
    case Fallthrough => PlainBack(code, n, 1);
    case Ecalli(x) => OffsetBack(code, n, 10, f, x);
    case JumpIndirect(a, x) => RegImmBack(code, n, 50, a, f, x);
    case Move(d, a) => RegRegBack(code, n, 100, d, a);
    case Sbrk(d, a) => RegRegBack(code, n, 101, d, a);
  }

  lemma NoneIsBad(n: nat, i: Instruction, f: Form)
    requires Encodable(n, i, f)
    ensures !i.Bad?
  {
    hide Short;
  }

  /** Decoding undoes assembling: every instruction laid out in its format, with immediates of any
      length, anywhere in any code, is read back with every register and immediate in its place. */
  lemma DecodeUndoesAssemble(code: seq<byte>, n: nat, i: Instruction, f: Form)
    requires Encodable(n, i, f) && Placed(code, n, Assembled(n, i, f))
    ensures n < |code| && 0 < |Assembled(n, i, f)| <= 11 && Decode(code, n, |Assembled(n, i, f)| - 1) == i
  {
    hide Decode, Placed, Assembled, Encodable;
    NoneIsBad(n, i, f);
    if i.Load? {
      LoadBack(code, n, i, f);
    } else if i.Store? {
      StoreBack(code, n, i, f);
    } else if i.Branch? {
      BranchBack(code, n, i, f);
    } else if i.Jump? || i.SetAndJump? {
      JumpBack(code, n, i, f);
    } else if i.Arith? {
      ArithBack(code, n, i, f);
    } else if i.Set? || i.SetAndJumpIndirect? {
      SetBack(code, n, i, f);
    } else {
      OtherBack(code, n, i, f);
    }
  }

  /** In a program whose marks say that the next instruction begins where this one ends, the machine
      reads exactly this one. */
  lemma ProgramReadsBack(p: Program, n: nat, i: Instruction, f: Form)
    requires p.Valid() && Encodable(n, i, f) && Placed(p.code, n, Assembled(n, i, f))
    requires NextMark(n, p.bitmask, n + |Assembled(n, i, f)|)
    ensures n < |p.code| && Decode(p.code, n, SkipLength(n, p.bitmask)) == i
  {
    DecodeUndoesAssemble(p.code, n, i, f);
    hide Decode, Placed, Assembled, Encodable;
    SkipIs(n, p.bitmask);
  }
}
