/** What one step of the machine does, instruction by instruction: which comparison decides a branch, what
    a load leaves in its register and a store in memory, where a jump goes. Each lemma spells out the machine
    after the step. */
module Semantics {
  import opened Bytes
  import opened Instructions
  import opened Programs
  import opened Interpreter
  import Mem = Memory

  /** A machine that can pay for a step. */
  ghost predicate CanStep(p: Program, m: Machine) {
    Ready(p, m) && m.gas >= 1
  }

  /** Where the code goes on after the instruction at hand. */
  function NextOf(p: Program, m: Machine): nat
    requires m.counter < |p.bitmask|
  {
    m.counter + 1 + SkipLength(m.counter, p.bitmask)
  }

  /** A step that does not find a bad instruction costs one gas and executes it. */
  lemma StepExecutes(p: Program, alu: Alu, m: Machine)
    requires CanStep(p, m) && !Current(p, m).Bad?
    ensures Sized(Current(p, m)) && Named(Current(p, m))
    ensures Stepped(p, alu, m) == Execute(p, alu, m.(gas := m.gas - 1), Current(p, m))
  {
    hide Decode, Execute, SkipLength, Cost, Named, Sized;
    var skip := SkipLength(m.counter, p.bitmask);
    DecodedIsSized(p.code, m.counter, skip);
    DecodedIsNamed(p.code, m.counter, skip);
    CostIs(p.code[m.counter]);
    if Cost(p.code[m.counter]) == 0 { FreeNeverContinues(p.code, m.counter, skip); }
  }

  // ------------------------------------------------------------------------------------- branches

  /** The branch to `target` is taken exactly if the condition holds; if it is, and no block starts there, the
      machine stops where it is. Registers and memory stay. */
  ghost predicate GoesTo(p: Program, m: Machine, o: Outcome, target: nat, condition: bool)
    requires m.counter < |p.bitmask|
  {
    && o.machine == Machine(o.machine.counter, m.gas - 1, m.regs, m.memory)
    && (!condition ==> o.exit == None && o.machine.counter == NextOf(p, m))
    && (condition && target in p.blocks ==> o.exit == None && o.machine.counter == target)
    && (condition && target !in p.blocks ==>
          o.exit == Some(if target < |p.code| then Panic else Crash) && o.machine.counter == m.counter)
  }

  /** A word read as a signed number. */
  function AsSigned(x: nat): int {
    if x < 0x8000_0000_0000_0000 then x else x - 0x1_0000_0000_0000_0000
  }

  /** Branches compare the register with the immediate, or with the other register: for equality, and in order
      as unsigned or as signed words. */
  lemma BranchStep(p: Program, alu: Alu, m: Machine)
    requires CanStep(p, m) && Current(p, m).Branch?
    ensures var i, o := Current(p, m), Stepped(p, alu, m);
            var a, b := ValueIn(m, i.left), OperandOf(m, i.right);
            && i.op == p.code[m.counter] && (81 <= i.op <= 90 || 170 <= i.op <= 175)
            && (i.op == 81 || i.op == 170 ==> GoesTo(p, m, o, i.target, a == b))
            && (i.op == 82 || i.op == 171 ==> GoesTo(p, m, o, i.target, a != b))
            && (i.op == 83 || i.op == 172 ==> GoesTo(p, m, o, i.target, a < b))
            && (i.op == 84 ==> GoesTo(p, m, o, i.target, a <= b))
            && (i.op == 85 || i.op == 174 ==> GoesTo(p, m, o, i.target, a >= b))
            && (i.op == 86 ==> GoesTo(p, m, o, i.target, a > b))
            && (i.op == 87 || i.op == 173 ==> GoesTo(p, m, o, i.target, AsSigned(a) < AsSigned(b)))
            && (i.op == 88 ==> GoesTo(p, m, o, i.target, AsSigned(a) <= AsSigned(b)))
            && (i.op == 89 || i.op == 175 ==> GoesTo(p, m, o, i.target, AsSigned(a) >= AsSigned(b)))
            && (i.op == 90 ==> GoesTo(p, m, o, i.target, AsSigned(a) > AsSigned(b)))
  {
    hide Decode, Stepped, SkipLength;
    DecodedBranch(p.code, m.counter, SkipLength(m.counter, p.bitmask));
    StepExecutes(p, alu, m);
  }

  lemma DecodedBranch(code: seq<byte>, n: nat, skip: nat)
    requires n < |code| && Decode(code, n, skip).Branch?
    ensures Decode(code, n, skip).op == code[n] && (81 <= code[n] <= 90 || 170 <= code[n] <= 175)
  {
    hide Signed, Immediate, Rest, LowRegister, HighRegister, SizeOf, Relative;
  }

  /** Of a comparison and its opposite exactly one branches. */
  lemma OppositeBranches(op: nat, opposite: nat, a: nat, b: nat)
    requires (op, opposite) in {(81, 82), (83, 85), (84, 86), (87, 89), (88, 90), (170, 171), (172, 174), (173, 175)}
    ensures Taken(op, a, b) <==> !Taken(opposite, a, b)
  {
  }

  // ---------------------------------------------------------------------------------------- jumps

  lemma JumpStep(p: Program, alu: Alu, m: Machine)
    requires CanStep(p, m) && Current(p, m).Jump?
    ensures GoesTo(p, m, Stepped(p, alu, m), Current(p, m).target, true)
  {
    hide Decode, Stepped, SkipLength;
    StepExecutes(p, alu, m);
  }

  /** The register is set whether or not the jump succeeds. */
  lemma SetAndJumpStep(p: Program, alu: Alu, m: Machine)
    requires CanStep(p, m) && Current(p, m).SetAndJump?
    ensures var i, o := Current(p, m), Stepped(p, alu, m);
            && i.dst < REGISTERS
            && o.machine == Machine(o.machine.counter, m.gas - 1, m.regs[i.dst := i.value], m.memory)
            && (i.target in p.blocks ==> o.exit == None && o.machine.counter == i.target)
            && (i.target !in p.blocks ==>
                  o.exit == Some(if i.target < |p.code| then Panic else Crash) && o.machine.counter == NextOf(p, m))
  {
    hide Decode, Stepped, SkipLength;
    StepExecutes(p, alu, m);
  }

  /** A jump through the table: to the host at one address, otherwise an even address `a` to entry a/2 - 1, if
      there is one and a block starts there. */
  ghost predicate JumpsThroughTable(p: Program, m: Machine, o: Outcome, regs: seq<nat>, address: nat) {
    var a := address % TWO_32;
    && o.machine == Machine(o.machine.counter, m.gas - 1, regs, m.memory)
    && (a == 0xFFFF_0000 ==> o.exit == Some(Halt) && o.machine.counter == m.counter)
    && (a != 0xFFFF_0000 && 0 < a <= 2 * |p.jumpTable| && a % 2 == 0 && p.jumpTable[a / 2 - 1] in p.blocks ==>
          o.exit == None && o.machine.counter == p.jumpTable[a / 2 - 1])
    && (a != 0xFFFF_0000 && !(0 < a <= 2 * |p.jumpTable| && a % 2 == 0 && p.jumpTable[a / 2 - 1] in p.blocks) ==>
          o.exit == Some(Panic) && o.machine.counter == m.counter)
  }

  lemma JumpedThroughTable(p: Program, m: Machine, charged: Machine, regs: seq<nat>, address: nat)
    requires charged == Machine(m.counter, m.gas - 1, regs, m.memory)
    ensures JumpsThroughTable(p, m, Jumped(p, charged, address), regs, address)
  {
  }

  lemma JumpIndirectStep(p: Program, alu: Alu, m: Machine)
    requires CanStep(p, m) && Current(p, m).JumpIndirect?
    ensures var i := Current(p, m);
            JumpsThroughTable(p, m, Stepped(p, alu, m), m.regs, (ValueIn(m, i.baseRegister) + i.offset) % TWO_64)
  {
    hide Decode, Stepped, SkipLength, Jumped, JumpsThroughTable;
    StepExecutes(p, alu, m);
    var i := Current(p, m);
    JumpedThroughTable(p, m, m.(gas := m.gas - 1), m.regs, (ValueIn(m, i.baseRegister) + i.offset) % TWO_64);
  }

  /** The address comes from the base register as it was before the other is set. */
  lemma SetAndJumpIndirectStep(p: Program, alu: Alu, m: Machine)
    requires CanStep(p, m) && Current(p, m).SetAndJumpIndirect?
    ensures var i := Current(p, m);
            && i.dst < REGISTERS && i.baseRegister < REGISTERS
            && JumpsThroughTable(p, m, Stepped(p, alu, m), m.regs[i.dst := i.value],
                                 (m.regs[i.baseRegister] + i.offset) % TWO_64)
  {
    hide Decode, Stepped, SkipLength, Jumped, JumpsThroughTable;
    StepExecutes(p, alu, m);
    var i := Current(p, m);
    JumpedThroughTable(p, m, Machine(m.counter, m.gas - 1, m.regs[i.dst := i.value], m.memory),
                       m.regs[i.dst := i.value], (m.regs[i.baseRegister] + i.offset) % TWO_64);
  }

  // -------------------------------------------------------------------------------- registers

  /** One register is set and the machine goes on. */
  ghost predicate Sets(p: Program, m: Machine, o: Outcome, dst: nat, value: nat)
    requires m.counter < |p.bitmask|
  {
    dst < |m.regs| && o == Outcome(Machine(NextOf(p, m), m.gas - 1, m.regs[dst := value], m.memory), None)
  }

  lemma MoveStep(p: Program, alu: Alu, m: Machine)
    requires CanStep(p, m) && Current(p, m).Move?
    ensures var i := Current(p, m);
            i.src < REGISTERS && Sets(p, m, Stepped(p, alu, m), i.dst, m.regs[i.src])
  {
    hide Decode, Stepped, SkipLength;
    StepExecutes(p, alu, m);
  }

  lemma SetStep(p: Program, alu: Alu, m: Machine)
    requires CanStep(p, m) && Current(p, m).Set?
    ensures Sets(p, m, Stepped(p, alu, m), Current(p, m).dst, Current(p, m).value)
  {
    hide Decode, Stepped, SkipLength;
    StepExecutes(p, alu, m);
  }

  lemma ArithStep(p: Program, alu: Alu, m: Machine)
    requires CanStep(p, m) && Current(p, m).Arith?
    ensures var i := Current(p, m);
            && i.dst < REGISTERS && i.a < REGISTERS && i.b < REGISTERS
            && Sets(p, m, Stepped(p, alu, m), i.dst, alu(i.op, i.imm, m.regs[i.a], m.regs[i.b], m.regs[i.dst]))
  {
    hide Decode, Stepped, SkipLength;
    StepExecutes(p, alu, m);
  }

  /** Asked for nothing, or for so much that the sum wraps, the heap stays. It has no room if it would reach the
      stack. Otherwise it is replaced by zeros, on as many whole pages as its new end. */
  lemma SbrkMeans(m: Mem.Image, size: nat)
    ensures var end := m.rw.address + |m.rw.data|;
            var top := (end + size) % TWO_64;
            && (size == 0 ==> Mem.Sbrk(m, size) == Mem.Grown(m, end))
            && (size > 0 && top >= m.stack.address ==> Mem.Sbrk(m, size) == Mem.NoRoom(top))
            && (size > 0 && top < m.stack.address && top <= end ==> Mem.Sbrk(m, size) == Mem.Grown(m, end))
            && (size > 0 && top < m.stack.address && top > end ==>
                  var pages := (top + 4095) / 4096;
                  && Mem.Sbrk(m, size).Grown? && Mem.Sbrk(m, size).top == m.rw.address + 4096 * pages
                  && Mem.Sbrk(m, size).image == m.(rw := m.rw.(data := seq(4096 * pages, _ => 0))))
  {
    var top := (m.rw.address + |m.rw.data| + size) % TWO_64;
    PagesOf(top);
    hide Mem.AlignToPage;
    assert Mem.Sized([], 4096 * ((top + 4095) / 4096)) == seq(4096 * ((top + 4095) / 4096), _ => 0);
  }

  lemma PagesOf(v: nat)
    ensures Mem.AlignToPage(v) == 4096 * ((v + 4095) / 4096)
  {
  }

  /** The heap is asked to grow by the number in one register, and the other gets its end. */
  lemma SbrkStep(p: Program, alu: Alu, m: Machine)
    requires CanStep(p, m) && Current(p, m).Sbrk?
    ensures var i, o := Current(p, m), Stepped(p, alu, m);
            && i.src < REGISTERS && i.dst < REGISTERS
            && match Mem.Sbrk(m.memory, m.regs[i.src])
               case NoRoom(address) => o == Outcome(m.(gas := m.gas - 1), Some(BadAccess(Mem.Fault(address))))
               case Grown(image, top) =>
                 o == Outcome(Machine(NextOf(p, m), m.gas - 1, m.regs[i.dst := top], image), None)
  {
    hide Decode, Stepped, SkipLength, Mem.Sbrk;
    StepExecutes(p, alu, m);
  }

  // --------------------------------------------------------------------------- loads and stores

  /** The address of a load or a store: the base and the offset, on 64-bit words. */
  function AddressOf(m: Machine, base: Operand, offset: nat): nat {
    (OperandOf(m, base) + offset) % TWO_64
  }

  /** The low octets of the word are those of flat memory from `a` on, and above them it has zeros, or copies of
      its sign. */
  ghost predicate HoldsMemory(value: nat, m: Mem.Image, a: nat, size: nat, signed: bool) {
    && (forall i :: 0 <= i < size ==> Mem.OctetAt(m, a + i) == Some(LittleEndian(value, size)[i]))
    && value < TWO_64
    && (!signed ==> value < Pow2(8 * size))
    && (signed ==> size > 0 && -(Pow2(8 * size - 1) as int) <= AsSigned(value) < Pow2(8 * size - 1))
  }

  /** A load succeeds exactly if every octet of its range is readable; then its register holds them. Otherwise
      nothing changes. */
  ghost predicate Loads(p: Program, m: Machine, o: Outcome, dst: nat, a: nat, size: nat, signed: bool)
    requires m.counter < |p.bitmask|
  {
    && (o.exit == None <==> forall x :: a <= x < a + size ==> Mem.Readable(m.memory, x))
    && (o.exit == None ==>
          && Sets(p, m, o, dst, ValueIn(o.machine, dst))
          && HoldsMemory(ValueIn(o.machine, dst), m.memory, a, size, signed))
    && (o.exit.Some? ==> o.machine == m.(gas := m.gas - 1) && o.exit.value.BadAccess?)
  }

  lemma LoadMeans(p: Program, m: Machine, dst: nat, a: nat, size: nat, signed: bool)
    requires m.counter < |p.bitmask| && Mem.Laid(m.memory) && 0 < size <= 8 && a + 8 < TWO_64 && dst < |m.regs|
    ensures Loads(p, m, ExecuteLoad(p, m.(gas := m.gas - 1), dst, a, size, signed), dst, a, size, signed)
  {
    Mem.AccessExactlyWhen(m.memory, a, size, false);
    if Mem.Check(m.memory, a, size, false).None? { LoadedHolds(m.memory, a, size, signed); }
    hide SkipLength, Mem.Check, Mem.Laid, Mem.Loaded, HoldsMemory, LoadedValue, Mem.Readable;
    assert forall x: nat :: Mem.Within(x, a, size) <==> a <= x < a + size;
    assert forall x: nat :: Mem.Permits(m.memory, x, false) <==> Mem.Readable(m.memory, x);
  }

  lemma LoadStep(p: Program, alu: Alu, m: Machine)
    requires CanStep(p, m) && Current(p, m).Load? && Mem.Laid(m.memory)
    requires AddressOf(m, Current(p, m).base, Current(p, m).offset) + 8 < TWO_64
    ensures var i := Current(p, m);
            && 0 < i.size <= 8 && i.dst < REGISTERS
            && Loads(p, m, Stepped(p, alu, m), i.dst, AddressOf(m, i.base, i.offset), i.size, i.signed)
  {
    hide Decode, Stepped, SkipLength, Execute, ExecuteLoad, Loads, Mem.Laid;
    DecodedLoad(p.code, m.counter, SkipLength(m.counter, p.bitmask));
    StepExecutes(p, alu, m);
    var i := Current(p, m);
    assert AddressOf(m.(gas := m.gas - 1), i.base, i.offset) == AddressOf(m, i.base, i.offset);
    LoadMeans(p, m, i.dst, AddressOf(m, i.base, i.offset), i.size, i.signed);
    ExecutesLoad(p, alu, m.(gas := m.gas - 1), i);
  }

  lemma ExecutesLoad(p: Program, alu: Alu, m: Machine, i: Instruction)
    requires i.Load? && i.size <= 8
    ensures Execute(p, alu, m, i) == ExecuteLoad(p, m, i.dst, AddressOf(m, i.base, i.offset), i.size, i.signed)
  {
    hide ExecuteLoad;
  }

  lemma LoadedHolds(m: Mem.Image, a: nat, size: nat, signed: bool)
    requires Mem.Laid(m) && 0 < size <= 8 && Mem.Check(m, a, size, false).None?
    ensures HoldsMemory(LoadedValue(Mem.Loaded(m, a, size), signed), m, a, size, signed)
  {
    var data := Mem.Loaded(m, a, size);
    var value := LoadedValue(data, signed);
    LoadedOctets(data, signed);
    hide Mem.Laid, Mem.Check, Mem.Loaded, LoadedValue;
    forall i | 0 <= i < size ensures Mem.OctetAt(m, a + i) == Some(LittleEndian(value, size)[i]) {
      Mem.LoadedIsFlat(m, a, size, i);
    }
  }

  /** A value made of octets gives them back, extended or not. */
  lemma LoadedOctets(data: seq<byte>, signed: bool)
    requires 0 < |data| <= 8
    ensures var value := LoadedValue(data, signed);
            && LittleEndian(value, |data|) == data && value < TWO_64
            && (!signed ==> value < Pow2(8 * |data|))
            && (signed ==> -(Pow2(8 * |data| - 1) as int) <= AsSigned(value) < Pow2(8 * |data| - 1))
  {
    var v, size := FromLittleEndian(data), Pow2(8 * |data|);
    FromLittleEndianBound(data);
    LittleEndianOfBytes(data);
    Pow2Monotone(8 * |data|, 64);
    WordSizes();
    if signed {
      SignExtendMeans(v, |data|);
      ExtensionKeepsOctets(v, |data|);
    }
    hide Pow2, SignExtend, LittleEndian, FromLittleEndian;
  }

  lemma ExtensionKeepsOctets(v: nat, l: nat)
    requires 0 < l <= 8 && v < Pow2(8 * l)
    ensures LittleEndian(SignExtend(v, l), l) == LittleEndian(v, l) && SignExtend(v, l) < TWO_64
  {
    var x := SignExtend(v, l);
    Pow2Monotone(8 * l, 64);
    WordSizes();
    SmallModulus(v, Pow2(8 * l));
    if x != v {
      assert x == v + (TWO_64 - Pow2(8 * l));
      HighMultiple(l);
      var k :| TWO_64 - Pow2(8 * l) == Shl(k, 8 * l);
      LowOctetsOnly(v, k, l);
    }
  }

  lemma SmallModulus(v: nat, size: nat)
    requires v < size
    ensures v % size == v
  {
  }

  /** 2^64 less a smaller power of two is a multiple of it. */
  lemma HighMultiple(l: nat)
    requires l <= 8
    ensures exists k: nat :: TWO_64 - Pow2(8 * l) == Shl(k, 8 * l)
  {
    Pow2Monotone(8 * l, 64);
    WordSizes();
    var k := Pow2(64 - 8 * l) - 1;
    ShlPow2(64 - 8 * l, 8 * l);
    ShlPow2(0, 8 * l);
    ShlAdd(k, 1, 8 * l);
  }

  lemma {:induction false} LowOctetsOnly(v: nat, k: nat, l: nat)
    ensures LittleEndian(v + Shl(k, 8 * l), l) == LittleEndian(v, l)
    decreases l
  {
    if l > 0 {
      Bytes.Octet(k, 8 * (l - 1));
      var high := Shl(k, 8 * (l - 1));
      assert Shl(k, 8 * l) == 256 * high;
      assert (v + 256 * high) % 256 == v % 256 && (v + 256 * high) / 256 == v / 256 + high;
      LowOctetsOnly(v / 256, k, l - 1);
    }
  }

  /** A store succeeds exactly if every octet of its range is writable; then the range holds the low octets of the
      value, and nothing else changes. Otherwise nothing changes at all. */
  ghost predicate Stores(p: Program, m: Machine, o: Outcome, a: nat, value: nat, size: nat)
    requires m.counter < |p.bitmask|
  {
    && (o.exit == None <==> forall x :: a <= x < a + size ==> Mem.Writable(m.memory, x))
    && (o.exit == None ==>
          && o.machine == Machine(NextOf(p, m), m.gas - 1, m.regs, o.machine.memory)
          && forall x: nat :: StoredAt(m.memory, o.machine.memory, a, LittleEndian(value, size), x))
    && (o.exit.Some? ==> o.machine == m.(gas := m.gas - 1) && o.exit.value.BadAccess?)
  }

  /** At `x` memory holds its octet of the data, or what it held. */
  ghost predicate StoredAt(before: Mem.Image, after: Mem.Image, a: nat, data: seq<byte>, x: nat) {
    && Mem.OctetAt(after, x) == (if a <= x < a + |data| then Some(data[x - a]) else Mem.OctetAt(before, x))
    && Mem.AccessOf(after, x) == Mem.AccessOf(before, x)
  }

  lemma StoreMeans(p: Program, m: Machine, a: nat, value: nat, size: nat)
    requires m.counter < |p.bitmask| && Mem.Laid(m.memory) && 0 < size <= 8 && a + 8 < TWO_64
    ensures Stores(p, m, ExecuteStore(p, m.(gas := m.gas - 1), a, value, size), a, value, size)
  {
    var data := LittleEndian(value, size);
    Mem.AccessExactlyWhen(m.memory, a, size, true);
    if Mem.Check(m.memory, a, size, true).None? {
      forall x: nat ensures StoredAt(m.memory, Mem.Stored(m.memory, a, data), a, data, x) {
        Mem.StoredIsFlat(m.memory, a, data, x);
      }
    }
    hide SkipLength, Mem.Check, Mem.Laid, Mem.Stored, Mem.Writable, StoredAt;
    assert forall x: nat :: Mem.Within(x, a, size) <==> a <= x < a + size;
    assert forall x: nat :: Mem.Permits(m.memory, x, true) <==> Mem.Writable(m.memory, x);
  }

  lemma StoreStep(p: Program, alu: Alu, m: Machine)
    requires CanStep(p, m) && Current(p, m).Store? && Mem.Laid(m.memory)
    requires AddressOf(m, Current(p, m).base, Current(p, m).offset) + 8 < TWO_64
    ensures var i := Current(p, m);
            && 0 < i.size <= 8
            && Stores(p, m, Stepped(p, alu, m), AddressOf(m, i.base, i.offset), OperandOf(m, i.source), i.size)
  {
    hide Decode, Stepped, SkipLength, Execute, ExecuteStore, Stores, Mem.Laid;
    DecodedStore(p.code, m.counter, SkipLength(m.counter, p.bitmask));
    StepExecutes(p, alu, m);
    var i := Current(p, m);
    var charged := m.(gas := m.gas - 1);
    assert AddressOf(charged, i.base, i.offset) == AddressOf(m, i.base, i.offset);
    assert OperandOf(charged, i.source) == OperandOf(m, i.source);
    StoreMeans(p, m, AddressOf(m, i.base, i.offset), OperandOf(m, i.source), i.size);
    ExecutesStore(p, alu, charged, i);
  }

  lemma ExecutesStore(p: Program, alu: Alu, m: Machine, i: Instruction)
    requires i.Store?
    ensures Execute(p, alu, m, i) == ExecuteStore(p, m, AddressOf(m, i.base, i.offset), OperandOf(m, i.source), i.size)
  {
    hide ExecuteStore;
  }

  /** Which opcodes load, how much, and which of them extend the sign. */
  lemma DecodedLoad(code: seq<byte>, n: nat, skip: nat)
    requires n < |code| && Decode(code, n, skip).Load?
    ensures var i, op := Decode(code, n, skip), code[n];
            && (52 <= op <= 58 || 124 <= op <= 130)
            && (i.signed <==> op in {53, 55, 57, 125, 127, 129})
            && (i.size == 1 <==> op in {52, 53, 124, 125}) && (i.size == 2 <==> op in {54, 55, 126, 127})
            && (i.size == 4 <==> op in {56, 57, 128, 129}) && (i.size == 8 <==> op in {58, 130})
            && 0 < i.size <= 8
  {
    hide Signed, Immediate, Rest, LowRegister, HighRegister, Relative;
  }

  /** Which opcodes store, and how much. */
  lemma DecodedStore(code: seq<byte>, n: nat, skip: nat)
    requires n < |code| && Decode(code, n, skip).Store?
    ensures var i, op := Decode(code, n, skip), code[n];
            && (30 <= op <= 33 || 59 <= op <= 62 || 70 <= op <= 73 || 120 <= op <= 123)
            && (i.size == 1 <==> op in {30, 59, 70, 120}) && (i.size == 2 <==> op in {31, 60, 71, 121})
            && (i.size == 4 <==> op in {32, 61, 72, 122}) && (i.size == 8 <==> op in {33, 62, 73, 123})
            && 0 < i.size <= 8
  {
    hide Signed, Immediate, Rest, LowRegister, HighRegister, Relative;
  }

  // ----------------------------------------------------------------------------------- exits

  lemma ExitStep(p: Program, alu: Alu, m: Machine)
    requires CanStep(p, m)
    ensures Current(p, m).Trap? ==> Stepped(p, alu, m) == Outcome(m.(gas := m.gas - 1), Some(Panic))
    ensures Current(p, m).Ecalli? ==>
              Stepped(p, alu, m) == Outcome(m.(gas := m.gas - 1), Some(HostCall(Current(p, m).index)))
    ensures Current(p, m).Fallthrough? ==>
              Stepped(p, alu, m) == Outcome(Machine(NextOf(p, m), m.gas - 1, m.regs, m.memory), None)
  {
    hide Decode, Stepped, SkipLength;
    if !Current(p, m).Bad? { StepExecutes(p, alu, m); }
  }

  /** Every opcode of the tables costs one gas, and any other nothing. */
  lemma CostMeans(op: nat)
    ensures Cost(op) == 1 <==>
            || op == 0 || op == 1 || op == 10 || op == 20 || 30 <= op <= 33 || op == 40 || 50 <= op <= 62
            || 70 <= op <= 73 || 80 <= op <= 90 || 100 <= op <= 111 || 120 <= op <= 161 || 170 <= op <= 175
            || op == 180 || 190 <= op <= 230
    ensures Cost(op) == 0 || Cost(op) == 1
  {
  }

  /** Without gas nothing happens. An opcode of no table panics for free, and operands that run past the code stop the
      machine, for the price of the instruction. */
  lemma BadStep(p: Program, alu: Alu, m: Machine)
    requires Ready(p, m)
    ensures m.gas < Cost(p.code[m.counter]) ==> Stepped(p, alu, m) == Outcome(m, Some(OutOfGas))
    ensures Cost(p.code[m.counter]) == 0 ==> Stepped(p, alu, m) == Outcome(m, Some(Panic))
    ensures CanStep(p, m) && Current(p, m).Bad? ==>
              Stepped(p, alu, m) ==
                Outcome(m.(gas := m.gas - Cost(p.code[m.counter])), Some(Current(p, m).exit))
  {
    hide Decode, SkipLength, Cost;
    var skip := SkipLength(m.counter, p.bitmask);
    DecodedIsSized(p.code, m.counter, skip);
    CostIs(p.code[m.counter]);
    if Cost(p.code[m.counter]) == 0 { FreeNeverContinues(p.code, m.counter, skip); }
  }

  // ----------------------------------------------------------------------------- basic blocks

  /** The instructions that end a basic block are exactly those that stop the machine or can move the counter
      elsewhere than to the next one, and the one that does nothing. */
  lemma BlocksEndAtJumps(code: seq<byte>, n: nat, skip: nat)
    requires n < |code| && !Decode(code, n, skip).Bad?
    ensures var i := Decode(code, n, skip);
            Terminates(code[n]) <==>
            || i.Trap? || i.Fallthrough? || i.Branch?
            || i.Jump? || i.SetAndJump? || i.JumpIndirect? || i.SetAndJumpIndirect?
  {
    hide Signed, Immediate, Rest, LowRegister, HighRegister, Relative, LowLength, HighLength;
  }

  // --------------------------------------------------------------------------- formats by example

  /** Registers are the halves of an octet, at most 12. Lengths of immediates are three bits of an octet, or what the
      skip leaves, at most 4. */
  lemma OperandFields(b: byte, skip: nat, used: nat)
    ensures LowRegister(b) == (if b % 16 < 12 then b % 16 else 12)
    ensures HighRegister(b) == (if b / 16 < 12 then b / 16 else 12)
    ensures LowLength(b) == (if b % 8 < 4 then b % 8 else 4)
    ensures HighLength(b) == (if b / 16 % 8 < 4 then b / 16 % 8 else 4)
    ensures Rest(skip, used) == (if skip <= used then 0 else if skip - used < 4 then skip - used else 4)
  {
  }

  /** A host call and a jump have one immediate, as long as the skip but at most 4 octets. */
  lemma LoneImmediate(code: seq<byte>, n: nat, skip: nat)
    requires n < |code|
    ensures var l := if skip < 4 then skip else 4;
            && (code[n] == 10 && |code| < n + 1 + l ==> Decode(code, n, skip) == Bad(Panic))
            && (code[n] == 10 && |code| >= n + 1 + l ==> Decode(code, n, skip) == Ecalli(Signed(code, n + 1, l)))
            && (code[n] == 40 && |code| < n + 1 + l ==> Decode(code, n, skip) == Bad(Panic))
            && (code[n] == 40 && |code| >= n + 1 + l ==>
                  Decode(code, n, skip) == Jump((n + Signed(code, n + 1, l)) % TWO_64))
  {
    hide Signed;
  }

  /** An immediate of one octet below 128 stands for itself. */
  lemma OneOctet(code: seq<byte>, at: nat)
    requires at < |code| && code[at] < 128
    ensures Signed(code, at, 1) == Immediate(code, at, 1) == code[at]
  {
    assert Pow2(8) == 256 && Pow2(7) == 128;
    assert code[at..at + 1] == [code[at]];
    assert FromLittleEndian([code[at]]) == code[at] + 256 * FromLittleEndian([]);
  }

  lemma OneImmediateExamples(code: seq<byte>)
    requires |code| == 2
    ensures code == [10, 9] ==> Decode(code, 0, 1) == Ecalli(9)
    ensures code == [40, 9] ==> Decode(code, 0, 1) == Jump(9)
    ensures code == [100, 0x21] ==> Decode(code, 0, 1) == Move(1, 2)
    ensures code == [101, 0x21] ==> Decode(code, 0, 1) == Sbrk(1, 2)
  {
    if code[1] < 128 { OneOctet(code, 1); }
    hide Signed, Immediate, DecodeImm2, DecodeRegTwo, DecodeReg2Imm2, DecodeReg3, DecodeReg2Imm, DecodeRegImm;
  }

  lemma OneRegisterExamples(code: seq<byte>)
    requires |code| == 3
    ensures code == [50, 2, 5] ==> Decode(code, 0, 2) == JumpIndirect(2, 5)
    ensures code == [51, 2, 5] ==> Decode(code, 0, 2) == Set(2, 5)
    ensures code == [52, 2, 5] ==> Decode(code, 0, 2) == Load(2, Value(0), 5, 1, false)
    ensures code == [59, 2, 5] ==> Decode(code, 0, 2) == Store(Value(0), 5, Register(2), 1)
    ensures code == [190, 0x21, 3] ==> Decode(code, 0, 2) == Arith(190, 3, 1, 2, 0)
  {
    if code[2] < 128 { OneOctet(code, 2); }
    hide Signed, Immediate, DecodeImm2, DecodeRegTwo, DecodeReg2Imm2, DecodeRegReg, DecodeReg2Imm;
  }

  lemma TwoRegisterExamples(code: seq<byte>)
    requires |code| == 3
    ensures code == [120, 0x21, 4] ==> Decode(code, 0, 2) == Store(Register(2), 4, Register(1), 1)
    ensures code == [124, 0x21, 4] ==> Decode(code, 0, 2) == Load(1, Register(2), 4, 1, false)
    ensures code == [131, 0x21, 4] ==> Decode(code, 0, 2) == Arith(131, 1, 2, 1, 4)
    ensures code == [170, 0x21, 9] ==> Decode(code, 0, 2) == Branch(170, 1, Register(2), 9)
  {
    if code[2] < 128 { OneOctet(code, 2); }
    hide Signed, Immediate, DecodeImm2, DecodeRegTwo, DecodeReg2Imm2, DecodeRegReg, DecodeReg3, DecodeRegImm;
  }

  lemma HalvesOf19()
    ensures LowRegister(0x13) == 3 && HighLength(0x13) == 1 && LowLength(1) == 1 && Rest(3, 2) == 1
    ensures Relative(0, 9) == 9
  {
  }

  lemma TwoImmediateExamples(code: seq<byte>)
    requires |code| == 4
    ensures code == [30, 1, 8, 9] ==> Decode(code, 0, 3) == Store(Value(0), 8, Value(9), 1)
    ensures code == [70, 0x13, 8, 9] ==> Decode(code, 0, 3) == Store(Register(3), 8, Value(9), 1)
    ensures code == [80, 0x13, 8, 9] ==> Decode(code, 0, 3) == SetAndJump(3, 8, 9)
    ensures code == [81, 0x13, 8, 9] ==> Decode(code, 0, 3) == Branch(81, 3, Value(8), 9)
  {
    HalvesOf19();
    if code[2] < 128 && code[3] < 128 { OneOctet(code, 2); OneOctet(code, 3); }
    hide Signed, Immediate, DecodeReg2Imm, DecodeReg2Imm2, DecodeRegReg, DecodeReg3, DecodeRegImm;
    hide LowRegister, HighLength, LowLength, Rest, Relative;
  }

  lemma IndirectExample(code: seq<byte>)
    requires code == [180, 0x21, 1, 8, 9]
    ensures Decode(code, 0, 4) == SetAndJumpIndirect(1, 2, 8, 9)
  {
    OneOctet(code, 3);
    OneOctet(code, 4);
    hide Signed, Immediate, DecodeReg2Imm, DecodeImm2, DecodeRegTwo, DecodeRegReg, DecodeReg3, DecodeRegImm;
  }
}
