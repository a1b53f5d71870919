/** Instructions of the virtual machine, and how the interpreter decodes them. */
module Instructions {
  import opened Bytes
  import Mem = Memory

  const REGISTERS := 13

  datatype Kind =
    | NoOperands | Imm | RegImmExt | Imm2 | Offset | RegImm | RegImm2 | RegImmOffset | RegReg | Reg2Imm | Reg2Offset
    | Reg2Imm2 | Reg3

  /** Opcodes in no table have the first kind, and no cost. */
  function KindOf(op: nat): Kind {
    if op == 10 then Imm
    else if op == 20 then RegImmExt
    else if 30 <= op <= 33 then Imm2
    else if op == 40 then Offset
    else if 50 <= op <= 62 then RegImm
    else if 70 <= op <= 73 then RegImm2
    else if 80 <= op <= 90 then RegImmOffset
    else if 100 <= op <= 111 then RegReg
    else if 120 <= op <= 161 then Reg2Imm
    else if 170 <= op <= 175 then Reg2Offset
    else if op == 180 then Reg2Imm2
    else if 190 <= op <= 230 then Reg3
    else NoOperands
  }

  function Cost(op: nat): nat {
    if op <= 1 || KindOf(op) != NoOperands then 1 else 0
  }

  datatype Exit = Panic | OutOfGas | Halt | HostCall(index: nat) | BadAccess(failure: Mem.Failure) | Crash

  datatype Operand = Value(value: nat) | Register(register: nat)

  datatype Instruction =
    | Trap
    | Fallthrough
    | Ecalli(index: nat)
    | Set(dst: nat, value: nat)
    | Load(dst: nat, base: Operand, offset: nat, size: nat, signed: bool)
    | Store(base: Operand, offset: nat, source: Operand, size: nat)
    | Branch(op: nat, left: nat, right: Operand, target: nat)
    | Jump(target: nat)
    | SetAndJump(dst: nat, value: nat, target: nat)
    | JumpIndirect(baseRegister: nat, offset: nat)
    | SetAndJumpIndirect(dst: nat, baseRegister: nat, value: nat, offset: nat)
    | Move(dst: nat, src: nat)
    | Sbrk(dst: nat, src: nat)
    | Arith(op: nat, dst: nat, a: nat, b: nat, imm: nat)
    | Bad(exit: Exit)

  function LowRegister(b: byte): (r: nat)
    ensures r < REGISTERS
  {
    Min(12, b % 16)
  }

  function HighRegister(b: byte): (r: nat)
    ensures r < REGISTERS
  {
    Min(12, b / 16)
  }

  /** Sign extension of a little-endian value of `l` octets to 64 bits. */
  function SignExtend(v: nat, l: nat): (r: nat)
    requires l <= 8
  {
    if l == 0 then 0
    else
      var low := v % Pow2(8 * l);
      Pow2Monotone(8 * l, 64); WordSizes();
      if low < Pow2(8 * l - 1) then low else low + TWO_64 - Pow2(8 * l)
  }

  function Immediate(code: seq<byte>, at: nat, l: nat): nat
    requires at + l <= |code|
  {
    FromLittleEndian(code[at..at + l])
  }

  /** `Immediate`, sign-extended. */
  function Signed(code: seq<byte>, at: nat, l: nat): nat
    requires at + l <= |code| && l <= 8
  {
    SignExtend(Immediate(code, at, l), l)
  }

  /** The position `x` away from `n`, on 64-bit words. */
  function Relative(n: nat, x: nat): nat {
    (n + x) % TWO_64
  }

  function SizeOf(k: nat): (r: nat)
    ensures r <= 8
  {
    if k == 0 then 1 else if k == 1 then 2 else if k == 2 then 4 else 8
  }

  /** U8, I8, U16, I16, U32, I32, U64. */
  function LoadOf(dst: nat, base: Operand, offset: nat, k: nat): Instruction {
    Load(dst, base, offset, SizeOf(k / 2), k % 2 == 1)
  }

  /** The length of an immediate as an octet gives it, in its low bits or in its high half. */
  function LowLength(b: byte): (l: nat)
    ensures l <= 4
  {
    Min(4, b % 8)
  }

  function HighLength(b: byte): (l: nat)
    ensures l <= 4
  {
    Min(4, b / 16 % 8)
  }

  /** Length of the second immediate, after `used` octets. */
  function Rest(skip: nat, used: nat): nat {
    if skip > used then Min(4, skip - used) else 0
  }

  function DecodeImm2(code: seq<byte>, n: nat, skip: nat): Instruction
    requires n < |code| && 30 <= code[n] <= 33
  {
    if |code| < n + 2 then Bad(Panic)
    else
      var lx := LowLength(code[n + 1]);
      var ly := Rest(skip, lx + 1);
      if |code| < n + 2 + lx + ly then Bad(Panic)
      else Store(Value(0), Signed(code, n + 2, lx), Value(Signed(code, n + 2 + lx, ly)), SizeOf(code[n] - 30))
  }

  function DecodeRegImm(code: seq<byte>, n: nat, skip: nat): Instruction
    requires n < |code| && 50 <= code[n] <= 62
  {
    var lx := Rest(skip, 1);
    if |code| < n + 2 + lx then Bad(Panic)
    else
      var a := LowRegister(code[n + 1]);
      var x := Signed(code, n + 2, lx);
      var op := code[n];
      if op == 50 then JumpIndirect(a, x)
      else if op == 51 then Set(a, x)
      else if op <= 58 then LoadOf(a, Value(0), x, op - 52)
      else Store(Value(0), x, Register(a), SizeOf(op - 59))
  }

  function DecodeRegTwo(code: seq<byte>, n: nat, skip: nat): Instruction
    requires n < |code| && (70 <= code[n] <= 73 || 80 <= code[n] <= 90)
  {
    if |code| < n + 2 then Bad(Panic)
    else
      var a := LowRegister(code[n + 1]);
      var lx := HighLength(code[n + 1]);
      var ly := Rest(skip, lx + 1);
      if |code| < n + 2 + lx + ly then Bad(Panic)
      else
        var x, y := Signed(code, n + 2, lx), Signed(code, n + 2 + lx, ly);
        var op := code[n];
        if op <= 73 then Store(Register(a), x, Value(y), SizeOf(op - 70))
        else if op == 80 then SetAndJump(a, x, Relative(n, y))
        else Branch(op, a, Value(x), Relative(n, y))
  }

  function DecodeRegReg(code: seq<byte>, n: nat): Instruction
    requires n < |code|
  {
    if n + 1 >= |code| then Bad(Crash)
    else
      var d, a := LowRegister(code[n + 1]), HighRegister(code[n + 1]);
      if code[n] == 100 then Move(d, a) else if code[n] == 101 then Sbrk(d, a) else Arith(code[n], d, a, a, 0)
  }

  function DecodeReg2Imm(code: seq<byte>, n: nat, skip: nat): Instruction
    requires n < |code| && (120 <= code[n] <= 161 || 170 <= code[n] <= 175)
  {
    var lx := Rest(skip, 1);
    if |code| < n + 2 + lx then Bad(Panic)
    else
      var a, b := LowRegister(code[n + 1]), HighRegister(code[n + 1]);
      var x := Signed(code, n + 2, lx);
      var op := code[n];
      if op <= 123 then Store(Register(b), x, Register(a), SizeOf(op - 120))
      else if op <= 130 then LoadOf(a, Register(b), x, op - 124)
      else if op <= 161 then Arith(op, a, b, a, x)
      else Branch(op, a, Register(b), Relative(n, x))
  }

  function DecodeReg2Imm2(code: seq<byte>, n: nat, skip: nat): Instruction
    requires n < |code|
  {
    if |code| < n + 3 then Bad(Panic)
    else
      var lx := LowLength(code[n + 2]);
      var ly := Rest(skip, lx + 2);
      if |code| < n + 3 + lx + ly then Bad(Panic)
      else SetAndJumpIndirect(LowRegister(code[n + 1]), HighRegister(code[n + 1]),
                              Immediate(code, n + 3, lx), Signed(code, n + 3 + lx, ly))
  }

  function DecodeReg3(code: seq<byte>, n: nat): Instruction
    requires n < |code|
  {
    if |code| < n + 2 then Bad(Panic)
    else if |code| == n + 2 then Bad(Crash)
    else Arith(code[n], Min(12, code[n + 2]), LowRegister(code[n + 1]), HighRegister(code[n + 1]), 0)
  }

  /** The instruction at `n`, whose operands reach `skip` octets further. */
  function Decode(code: seq<byte>, n: nat, skip: nat): Instruction
    requires n < |code|
  {
    match KindOf(code[n])
    case NoOperands => if code[n] == 0 then Trap else if code[n] == 1 then Fallthrough else Bad(Panic)
    case Imm =>
      var lx := Min(4, skip);
      if |code| < n + 1 + lx then Bad(Panic) else Ecalli(Signed(code, n + 1, lx))
    case RegImmExt =>
      if |code| < n + 10 then Bad(Panic) else Set(LowRegister(code[n + 1]), Immediate(code, n + 2, 8))
    case Imm2 => DecodeImm2(code, n, skip)
    case Offset =>
      var lx := Min(4, skip);
      if |code| < n + 1 + lx then Bad(Panic) else Jump(Relative(n, Signed(code, n + 1, lx)))
    case RegImm => DecodeRegImm(code, n, skip)
    case RegImm2 => DecodeRegTwo(code, n, skip)
    case RegImmOffset => DecodeRegTwo(code, n, skip)
    case RegReg => DecodeRegReg(code, n)
    case Reg2Imm => DecodeReg2Imm(code, n, skip)
    case Reg2Offset => DecodeReg2Imm(code, n, skip)
    case Reg2Imm2 => DecodeReg2Imm2(code, n, skip)
    case Reg3 => DecodeReg3(code, n)
  }

  predicate Sized(i: Instruction) {
    i.Load? ==> i.size <= 8
  }

  lemma DecodedIsSized(code: seq<byte>, n: nat, skip: nat)
    requires n < |code|
    ensures Sized(Decode(code, n, skip))
  {
    hide Signed, Immediate, Min, LowRegister, HighRegister, Rest;
  }

  /** The instruction names existing registers only. */
  predicate Named(i: Instruction) {
    match i
    case Set(dst, _) => dst < REGISTERS
    case Load(dst, base, _, _, _) => dst < REGISTERS && NamedOperand(base)
    case Store(base, _, source, _) => NamedOperand(base) && NamedOperand(source)
    case Branch(_, left, right, _) => left < REGISTERS && NamedOperand(right)
    case SetAndJump(dst, _, _) => dst < REGISTERS
    case JumpIndirect(base, _) => base < REGISTERS
    case SetAndJumpIndirect(dst, base, _, _) => dst < REGISTERS && base < REGISTERS
    case Move(dst, src) => dst < REGISTERS && src < REGISTERS
    case Sbrk(dst, src) => dst < REGISTERS && src < REGISTERS
    case Arith(_, dst, a, b, _) => dst < REGISTERS && a < REGISTERS && b < REGISTERS
    case _ => true
  }

  predicate NamedOperand(o: Operand) {
    o.Register? ==> o.register < REGISTERS
  }

  lemma DecodedIsNamed(code: seq<byte>, n: nat, skip: nat)
    requires n < |code|
    ensures Named(Decode(code, n, skip))
  {
    hide Signed, Immediate, Rest, SizeOf;
  }

  function ToSigned(v: nat): int {
    if v < TWO_64 / 2 then v else v - TWO_64
  }

  // ------------------------------------------------------------------------------- sign extension

  lemma WrapDown(low: nat, size: nat)
    requires low < size
    ensures (low - size) % size == low && low % size == low
  {
    var q, r := (low - size) / size, (low - size) % size;
    assert low - size == size * q + r;
    Multiples(size, q, -2);
    Multiples(size, 0, q);
  }

  lemma Multiples(d: nat, p: int, q: int)
    ensures p <= q ==> d * p <= d * q
  {
    assert d * q == d * p + d * (q - p);
  }

  /** Read as a signed word, the extension lies in the range of `l` octets and agrees with the value
      on those octets. */
  lemma SignExtendMeans(v: nat, l: nat)
    requires 0 < l <= 8
    ensures var s := ToSigned(SignExtend(v, l));
            && -(Pow2(8 * l - 1) as int) <= s < Pow2(8 * l - 1)
            && s % Pow2(8 * l) == v % Pow2(8 * l)
  {
    Pow2Step(8 * l);
    Pow2Monotone(8 * l, 64);
    Pow2Monotone(8 * l - 1, 63);
    WordSizes(); Pow2Step(64);
    hide Pow2;
    var size := Pow2(8 * l);
    WrapDown(v % size, size);
  }
}
