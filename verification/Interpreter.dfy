/** The stepping machine: fetch, charge gas, decode, execute, until something exits. What the
    arithmetic instructions compute is a parameter; where the counter goes, what gas is left, how the
    heap grows and which registers and memory change are not. An index past the end of a
    slice, which the original leaves to the runtime, is the exit `Crash`. */
module Interpreter {
  import opened Bytes
  import opened Instructions
  import opened Programs
  import Mem = Memory

  const RETURN_TO_HOST := TWO_32 - TWO_16

  // ----------------------------------------------------------------------------------- execution

  datatype Machine = Machine(counter: nat, gas: int, regs: seq<nat>, memory: Mem.Image)

  datatype Outcome = Outcome(machine: Machine, exit: Option<Exit>)

  /** `alu(op, imm, a, b, d)` is what an arithmetic instruction leaves in its destination, which
      held `d`. */
  type Alu = (nat, nat, nat, nat, nat) -> nat

  function ValueIn(m: Machine, r: nat): nat {
    if r < |m.regs| then m.regs[r] else 0
  }

  function OperandOf(m: Machine, o: Operand): nat {
    match o case Value(v) => v case Register(r) => ValueIn(m, r)
  }

  function SetRegister(m: Machine, r: nat, v: nat): Machine {
    if r < |m.regs| then m.(regs := m.regs[r := v]) else m
  }

  function Advanced(p: Program, m: Machine): Machine {
    if m.counter < |p.bitmask| then m.(counter := m.counter + 1 + SkipLength(m.counter, p.bitmask)) else m
  }

  function Branched(p: Program, m: Machine, condition: bool, target: nat): Outcome {
    if !condition then Outcome(Advanced(p, m), None)
    else if target in p.blocks then Outcome(m.(counter := target), None)
    else Outcome(m, Some(if target < |p.code| then Panic else Crash))
  }

  function Jumped(p: Program, m: Machine, address0: nat): Outcome {
    var address := address0 % TWO_32;
    if address == RETURN_TO_HOST then Outcome(m, Some(Halt))
    else if address == 0 || address > |p.jumpTable| * 2 || address % 2 != 0 then Outcome(m, Some(Panic))
    else
      var target := p.jumpTable[address / 2 - 1];
      if target in p.blocks then Outcome(m.(counter := target), None) else Outcome(m, Some(Panic))
  }

  function Taken(op: nat, a: nat, b: nat): bool {
    match op
    case 81 => a == b
    case 82 => a != b
    case 83 => a < b
    case 84 => a <= b
    case 85 => a >= b
    case 86 => a > b
    case 87 => ToSigned(a) < ToSigned(b)
    case 88 => ToSigned(a) <= ToSigned(b)
    case 89 => ToSigned(a) >= ToSigned(b)
    case 90 => ToSigned(a) > ToSigned(b)
    case 170 => a == b
    case 171 => a != b
    case 172 => a < b
    case 173 => ToSigned(a) < ToSigned(b)
    case 174 => a >= b
    case 175 => ToSigned(a) >= ToSigned(b)
    case _ => false
  }

  function LoadedValue(data: seq<byte>, signed: bool): nat
    requires |data| <= 8
  {
    if signed then SignExtend(FromLittleEndian(data), |data|) else FromLittleEndian(data)
  }

  function ExecuteLoad(p: Program, m: Machine, dst: nat, address: nat, size: nat, signed: bool): Outcome
    requires size <= 8
  {
    match Mem.Check(m.memory, address, size, false)
    case Some(f) => Outcome(m, Some(BadAccess(f)))
    case None =>
      Outcome(Advanced(p, SetRegister(m, dst, LoadedValue(Mem.Loaded(m.memory, address, size), signed))), None)
  }

  function ExecuteStore(p: Program, m: Machine, address: nat, value: nat, size: nat): Outcome {
    match Mem.Check(m.memory, address, size, true)
    case Some(f) => Outcome(m, Some(BadAccess(f)))
    case None => Outcome(Advanced(p, m.(memory := Mem.Stored(m.memory, address, LittleEndian(value, size)))), None)
  }

  function Execute(p: Program, alu: Alu, m: Machine, i: Instruction): Outcome
    requires Sized(i)
  {
    match i
    case Trap => Outcome(m, Some(Panic))
    case Fallthrough => Outcome(Advanced(p, m), None)
    case Ecalli(index) => Outcome(m, Some(HostCall(index)))
    case Set(dst, value) => Outcome(Advanced(p, SetRegister(m, dst, value)), None)
    case Load(dst, base, offset, size, signed) =>
      ExecuteLoad(p, m, dst, (OperandOf(m, base) + offset) % TWO_64, size, signed)
    case Store(base, offset, source, size) =>
      ExecuteStore(p, m, (OperandOf(m, base) + offset) % TWO_64, OperandOf(m, source), size)
    case Branch(op, left, right, target) => Branched(p, m, Taken(op, ValueIn(m, left), OperandOf(m, right)), target)
    case Jump(target) => Branched(p, m, true, target)
    case SetAndJump(dst, value, target) => Branched(p, Advanced(p, SetRegister(m, dst, value)), true, target)
    case JumpIndirect(base, offset) => Jumped(p, m, (ValueIn(m, base) + offset) % TWO_64)
    case SetAndJumpIndirect(dst, base, value, offset) =>
      Jumped(p, SetRegister(m, dst, value), (ValueIn(m, base) + offset) % TWO_64)
    case Move(dst, src) => Outcome(Advanced(p, SetRegister(m, dst, ValueIn(m, src))), None)
    case Sbrk(dst, src) =>
      (match Mem.Sbrk(m.memory, ValueIn(m, src))
       case NoRoom(address) => Outcome(m, Some(BadAccess(Mem.Fault(address))))
       case Grown(image, top) => Outcome(Advanced(p, SetRegister(m.(memory := image), dst, top)), None))
    case Arith(op, dst, a, b, imm) =>
      Outcome(Advanced(p, SetRegister(m, dst, alu(op, imm, ValueIn(m, a), ValueIn(m, b), ValueIn(m, dst)))), None)
    case Bad(exit) => Outcome(m, Some(exit))
  }

  ghost function Stepped(p: Program, alu: Alu, m: Machine): Outcome
    requires |p.code| == |p.bitmask| && m.counter < |p.code|
  {
    var op := p.code[m.counter];
    if m.gas < Cost(op) then Outcome(m, Some(OutOfGas))
    else
      var i := Decode(p.code, m.counter, SkipLength(m.counter, p.bitmask));
      DecodedIsSized(p.code, m.counter, SkipLength(m.counter, p.bitmask));
      Execute(p, alu, m.(gas := m.gas - Cost(op)), i)
  }

  // ------------------------------------------------------------------------- bounded, inside the code

  /** Where a machine may be: inside the code or at its sentinel, with gas that is not negative. */
  predicate Ready(p: Program, m: Machine) {
    p.Valid() && m.counter <= p.Sentinel() && m.gas >= 0 && |m.regs| == REGISTERS
  }

  lemma AdvancedStays(p: Program, m: Machine)
    requires p.Valid() && m.counter < p.Sentinel()
    ensures m.counter < Advanced(p, m).counter <= p.Sentinel()
    ensures Advanced(p, m) == m.(counter := Advanced(p, m).counter)
  {
    SkipFromBound(m.counter, p.bitmask, 0);
  }

  /** What any outcome keeps, from a machine that is not at the sentinel. */
  predicate Stays(p: Program, m: Machine, o: Outcome) {
    && o.machine.gas == m.gas && |o.machine.regs| == |m.regs| && o.machine.counter <= p.Sentinel()
    && (o.exit.None? ==> o.machine.counter == Advanced(p, m).counter || o.machine.counter in p.blocks)
  }

  lemma BranchedStays(p: Program, m: Machine, condition: bool, target: nat)
    requires p.Valid() && m.counter < p.Sentinel()
    ensures Stays(p, m, Branched(p, m, condition, target))
  {
    AdvancedStays(p, m);
    hide Advanced;
  }

  lemma JumpedStays(p: Program, m: Machine, address: nat)
    requires p.Valid() && m.counter <= p.Sentinel()
    ensures Stays(p, m, Jumped(p, m, address))
  {
  }

  lemma LoadStays(p: Program, m: Machine, dst: nat, address: nat, size: nat, signed: bool)
    requires p.Valid() && m.counter < p.Sentinel() && size <= 8
    ensures Stays(p, m, ExecuteLoad(p, m, dst, address, size, signed))
  {
    hide Mem.Check, Mem.Loaded, LoadedValue;
    SetStays(p, m);
    hide Advanced;
  }

  /** Setting registers or memory does not change where the machine goes next. */
  lemma SetStays(p: Program, m: Machine)
    requires p.Valid() && m.counter < p.Sentinel()
    ensures forall n: Machine :: n.counter == m.counter ==>
              Advanced(p, n) == n.(counter := Advanced(p, m).counter)
    ensures Advanced(p, m).counter <= p.Sentinel()
  {
    AdvancedStays(p, m);
  }

  lemma StoreStays(p: Program, m: Machine, address: nat, value: nat, size: nat)
    requires p.Valid() && m.counter < p.Sentinel()
    ensures Stays(p, m, ExecuteStore(p, m, address, value, size))
  {
    hide Mem.Check, Mem.Stored;
    SetStays(p, m);
    hide Advanced;
  }

  /** Whatever happened to registers and memory before advancing. */
  lemma AdvanceStays(p: Program, m: Machine, n: Machine)
    requires p.Valid() && m.counter < p.Sentinel()
    requires n.counter == m.counter && n.gas == m.gas && |n.regs| == |m.regs|
    ensures Stays(p, m, Outcome(Advanced(p, n), None))
  {
    SetStays(p, m);
    hide Advanced;
  }

  lemma ExecuteStays(p: Program, alu: Alu, m: Machine, i: Instruction)
    requires p.Valid() && m.counter < p.Sentinel() && Sized(i)
    ensures Stays(p, m, Execute(p, alu, m, i))
  {
    if i.Fallthrough? || i.Set? || i.Move? || i.Sbrk? || i.Arith? {
      AdvancingStays(p, alu, m, i);
    } else {
      JumpingStays(p, alu, m, i);
    }
  }

  lemma AdvancingStays(p: Program, alu: Alu, m: Machine, i: Instruction)
    requires p.Valid() && m.counter < p.Sentinel() && Sized(i)
    requires i.Fallthrough? || i.Set? || i.Move? || i.Sbrk? || i.Arith?
    ensures Stays(p, m, Execute(p, alu, m, i))
  {
    hide Advanced, Stays;
    match i
    case Fallthrough => AdvanceStays(p, m, m);
    case Set(dst, value) => AdvanceStays(p, m, SetRegister(m, dst, value));
    case Move(dst, src) => AdvanceStays(p, m, SetRegister(m, dst, ValueIn(m, src)));
    case Sbrk(dst, src) =>
      var growth := Mem.Sbrk(m.memory, ValueIn(m, src));
      if growth.NoRoom? {
        ExitStays(p, m, BadAccess(Mem.Fault(growth.address)));
      } else {
        AdvanceStays(p, m, SetRegister(m.(memory := growth.image), dst, growth.top));
      }
    case Arith(op, dst, a, b, imm) =>
      AdvanceStays(p, m, SetRegister(m, dst, alu(op, imm, ValueIn(m, a), ValueIn(m, b), ValueIn(m, dst))));
  }

  lemma ExitStays(p: Program, m: Machine, e: Exit)
    requires m.counter <= p.Sentinel()
    ensures Stays(p, m, Outcome(m, Some(e)))
  {
  }

  lemma JumpingStays(p: Program, alu: Alu, m: Machine, i: Instruction)
    requires p.Valid() && m.counter < p.Sentinel() && Sized(i)
    requires !(i.Fallthrough? || i.Set? || i.Move? || i.Sbrk? || i.Arith?)
    ensures Stays(p, m, Execute(p, alu, m, i))
  {
    hide Advanced, Branched, Jumped, ExecuteLoad, ExecuteStore, Taken;
    match i
    case Load(dst, base, offset, size, signed) => LoadStays(p, m, dst, (OperandOf(m, base) + offset) % TWO_64,
        size, signed);
    case Store(base, offset, source, size) =>
        StoreStays(p, m, (OperandOf(m, base) + offset) % TWO_64, OperandOf(m, source), size);
    case Branch(op, left, right, target) =>
        BranchedStays(p, m, Taken(op, ValueIn(m, left), OperandOf(m, right)), target);
    case Jump(target) => BranchedStays(p, m, true, target);
    case SetAndJump(dst, value, target) => SetAndJumpStays(p, m, dst, value, target);
    case JumpIndirect(base, offset) => JumpedStays(p, m, (ValueIn(m, base) + offset) % TWO_64);
    case SetAndJumpIndirect(dst, base, value, offset) =>
      SetStays(p, m);
      JumpedStays(p, SetRegister(m, dst, value), (ValueIn(m, base) + offset) % TWO_64);
    case _ =>
  }

  lemma SetAndJumpStays(p: Program, m: Machine, dst: nat, value: nat, target: nat)
    requires p.Valid() && m.counter < p.Sentinel()
    ensures Stays(p, m, Branched(p, Advanced(p, SetRegister(m, dst, value)), true, target))
  {
    SetStays(p, m);
    hide Advanced;
  }

  /** An opcode without a cost never continues. */
  lemma FreeNeverContinues(code: seq<byte>, n: nat, skip: nat)
    requires n < |code| && Cost(code[n]) == 0
    ensures Decode(code, n, skip) == Bad(Panic)
  {
  }

  lemma SentinelTraps(p: Program, m: Machine, skip: nat)
    requires p.Valid() && m.counter == p.Sentinel()
    ensures Decode(p.code, m.counter, skip) == Trap
  {
  }

  /** A step that continues costs exactly one gas and leaves the counter inside the code, on the
      next instruction or the start of a basic block. A step that exits costs at most one. */
  lemma StepBounds(p: Program, alu: Alu, m: Machine)
    requires Ready(p, m)
    ensures var o := Stepped(p, alu, m);
            && |o.machine.regs| == REGISTERS && 0 <= o.machine.gas && o.machine.counter <= p.Sentinel()
            && (o.exit.None? ==>
                  Ready(p, o.machine) && o.machine.gas == m.gas - 1
                  && (o.machine.counter == Advanced(p, m).counter || o.machine.counter in p.blocks))
            && (o.exit.Some? ==> m.gas - 1 <= o.machine.gas <= m.gas)
  {
    hide Decode, Execute, SkipLength, Cost;
    var op := p.code[m.counter];
    CostIs(op);
    if m.gas >= Cost(op) {
      var skip := SkipLength(m.counter, p.bitmask);
      var i := Decode(p.code, m.counter, skip);
      var charged := m.(gas := m.gas - Cost(op));
      DecodedIsSized(p.code, m.counter, skip);
      if m.counter == p.Sentinel() {
        SentinelTraps(p, m, skip);
        ExecuteExits(p, alu, charged, i);
      } else {
        ExecuteStays(p, alu, charged, i);
        SameNext(p, m, charged);
        if Cost(op) == 0 {
          FreeNeverContinues(p.code, m.counter, skip);
          ExecuteExits(p, alu, charged, i);
        }
      }
    }
  }

  lemma CostIs(op: nat)
    ensures Cost(op) == 0 || Cost(op) == 1
  {
  }

  lemma SameNext(p: Program, m: Machine, n: Machine)
    requires m.counter == n.counter
    ensures Advanced(p, m).counter == Advanced(p, n).counter
  {
  }

  lemma ExecuteExits(p: Program, alu: Alu, m: Machine, i: Instruction)
    requires i == Trap || i == Bad(Panic)
    ensures Execute(p, alu, m, i) == Outcome(m, Some(Panic))
  {
  }

  // ------------------------------------------------------------------------------------ whole runs

  /** How a run ends, and after how many steps. */
  datatype Run = Run(outcome: Outcome, steps: nat)

  /** Stepping until something exits, and how many steps that takes: at most one more than there
      is gas. */
  ghost function Invoked(p: Program, alu: Alu, m: Machine): (r: Run)
    requires Ready(p, m)
    ensures r.outcome.exit.Some? && r.steps <= m.gas + 1
    ensures 0 <= r.outcome.machine.gas <= m.gas
    ensures m.gas - r.steps <= r.outcome.machine.gas <= m.gas - r.steps + 1
    ensures r.outcome.machine.counter <= p.Sentinel()
    decreases m.gas
  {
    StepBounds(p, alu, m);
    var o := Stepped(p, alu, m);
    if o.exit.Some? then Run(o, 1) else var r := Invoked(p, alu, o.machine); Run(r.outcome, r.steps + 1)
  }

  lemma InvokedStep(p: Program, alu: Alu, m: Machine)
    requires Ready(p, m)
    ensures var o := Stepped(p, alu, m);
            if o.exit.Some? then Invoked(p, alu, m) == Run(o, 1)
            else (
              && Ready(p, o.machine) && o.machine.gas < m.gas
              && Invoked(p, alu, m) == Run(Invoked(p, alu, o.machine).outcome, Invoked(p, alu, o.machine).steps + 1))
  {
    StepBounds(p, alu, m);
    hide Stepped;
  }

  /** The instruction the machine is at. */
  ghost function Current(p: Program, m: Machine): Instruction
    requires |p.code| == |p.bitmask| && m.counter < |p.code|
  {
    Decode(p.code, m.counter, SkipLength(m.counter, p.bitmask))
  }

  /** If this step makes the heap grow, it leaves room below the stack. */
  ghost predicate StepLeavesRoom(p: Program, m: Machine)
    requires |p.code| == |p.bitmask| && m.counter < |p.code|
  {
    var i := Current(p, m);
    i.Sbrk? && Mem.Grows(m.memory, ValueIn(m, i.src)) ==> Mem.Laid(Mem.Sbrk(m.memory, ValueIn(m, i.src)).image)
  }

  /** In this run, whenever the heap grows it leaves room below the stack. Asking for nothing, or for
      more than there is, is always fine. */
  ghost predicate RunLeavesRoom(p: Program, alu: Alu, m: Machine)
    requires Ready(p, m)
    decreases m.gas
  {
    StepBounds(p, alu, m);
    var o := Stepped(p, alu, m);
    StepLeavesRoom(p, m) && (o.exit.None? ==> RunLeavesRoom(p, alu, o.machine))
  }

  /** Memory as a run needs it and keeps it. */
  ghost predicate MemoryReady(m: Mem.Image) {
    Mem.Laid(m) && m.rw.access == Mem.ReadWrite
  }

  lemma StepKeepsReadOnly(p: Program, alu: Alu, m: Machine)
    requires Ready(p, m) && MemoryReady(m.memory) && StepLeavesRoom(p, m)
    ensures MemoryReady(Stepped(p, alu, m).machine.memory)
    ensures Mem.ReadOnlyKept(m.memory, Stepped(p, alu, m).machine.memory)
  {
    hide Decode, SkipLength, Mem.Check, Mem.Stored, Mem.Loaded, Mem.Laid, Mem.ReadOnlyKept, LoadedValue, Taken,
        Mem.Sbrk;
    Unchanged(m.memory);
    var skip := SkipLength(m.counter, p.bitmask);
    var i := Decode(p.code, m.counter, skip);
    DecodedIsSized(p.code, m.counter, skip);
    if i.Store? {
      StoreKeepsReadOnly(m.memory, (OperandOf(m, i.base) + i.offset) % TWO_64, OperandOf(m, i.source), i.size);
    } else if i.Sbrk? {
      SbrkKeepsReadOnly(m.memory, ValueIn(m, i.src));
    }
  }

  lemma StoreKeepsReadOnly(m: Mem.Image, address: nat, value: nat, size: nat)
    requires MemoryReady(m)
    ensures Mem.Check(m, address, size, true).None? ==>
              var after := Mem.Stored(m, address, LittleEndian(value, size));
              MemoryReady(after) && Mem.ReadOnlyKept(m, after)
  {
    if Mem.Check(m, address, size, true).None? {
      Mem.StoredKeepsReadOnly(m, address, LittleEndian(value, size));
    }
  }

  lemma SbrkKeepsReadOnly(m: Mem.Image, size: nat)
    requires MemoryReady(m) && (Mem.Grows(m, size) ==> Mem.Laid(Mem.Sbrk(m, size).image))
    ensures Mem.Sbrk(m, size).Grown? ==>
              MemoryReady(Mem.Sbrk(m, size).image) && Mem.ReadOnlyKept(m, Mem.Sbrk(m, size).image)
  {
    if Mem.Sbrk(m, size).Grown? {
      assert !Mem.Grows(m, size) ==> Mem.Sbrk(m, size).image == m;
      Mem.GrowthKeepsReadOnly(m, size);
    }
  }

  lemma Unchanged(m: Mem.Image)
    ensures Mem.ReadOnlyKept(m, m)
  {
  }

  /** Over a whole run that leaves room below the stack whenever it makes the heap grow, whatever is
      not writable at the end is as it was at the start, and read-only memory stays read-only. */
  lemma {:induction false} RunsKeepReadOnly(p: Program, alu: Alu, m: Machine)
    requires Ready(p, m) && MemoryReady(m.memory) && RunLeavesRoom(p, alu, m)
    ensures Mem.ReadOnlyKept(m.memory, Invoked(p, alu, m).outcome.machine.memory)
    decreases m.gas
  {
    StepKeepsReadOnly(p, alu, m);
    InvokedStep(p, alu, m);
    hide Stepped, Mem.ReadOnlyKept, MemoryReady, StepLeavesRoom;
    var o := Stepped(p, alu, m);
    if o.exit.None? {
      RunsKeepReadOnly(p, alu, o.machine);
      Mem.ReadOnlyKeptTransitive(m.memory, o.machine.memory, Invoked(p, alu, m).outcome.machine.memory);
    }
  }

  // ------------------------------------------------------------------------- on instruction marks

  lemma StepStaysMarked(p: Program, alu: Alu, m: Machine)
    requires Ready(p, m) && WellMarked(p) && Marked(p, m.counter)
    ensures Stepped(p, alu, m).exit.None? ==> Marked(p, Stepped(p, alu, m).machine.counter)
  {
    StepBounds(p, alu, m);
    if m.counter == p.Sentinel() {
      AtSentinelExits(p, alu, m);
    } else {
      LandsOnMarkExactlyWhen(p, m.counter);
    }
    hide Stepped, SkipLength, Near;
  }

  lemma AtSentinelExits(p: Program, alu: Alu, m: Machine)
    requires Ready(p, m) && m.counter == p.Sentinel()
    ensures Stepped(p, alu, m).exit.Some?
  {
    hide SkipLength;
    SentinelTraps(p, m, SkipLength(m.counter, p.bitmask));
  }

  /** The machine after `k` steps that all continue. */
  ghost function After(p: Program, alu: Alu, m: Machine, k: nat): (r: Option<Machine>)
    requires Ready(p, m)
    ensures r.Some? ==> Ready(p, r.value) && r.value.gas == m.gas - k
  {
    if k == 0 then Some(m)
    else
      var before := After(p, alu, m, k - 1);
      if before.None? then None
      else
        StepBounds(p, alu, before.value);
        var o := Stepped(p, alu, before.value);
        if o.exit.None? then Some(o.machine) else None
  }

  /** No step is the machine itself, and one more step is a step of the machine after the others. */
  lemma AfterIs(p: Program, alu: Alu, m: Machine, k: nat)
    requires Ready(p, m)
    ensures After(p, alu, m, 0) == Some(m)
    ensures After(p, alu, m, k).None? ==> After(p, alu, m, k + 1) == None
    ensures After(p, alu, m, k).Some? ==>
              var o := Stepped(p, alu, After(p, alu, m, k).value);
              After(p, alu, m, k + 1) == if o.exit.None? then Some(o.machine) else None
  {
    hide Stepped;
  }

  /** In a well-marked program no run ever executes an octet that is not the start of an
      instruction. */
  lemma {:induction false} RunsStayOnMarks(p: Program, alu: Alu, m: Machine, k: nat)
    requires Ready(p, m) && WellMarked(p) && Marked(p, m.counter)
    ensures After(p, alu, m, k).Some? ==> Marked(p, After(p, alu, m, k).value.counter)
  {
    hide Stepped, WellMarked, Marked;
    if k > 0 && After(p, alu, m, k - 1).Some? {
      RunsStayOnMarks(p, alu, m, k - 1);
      StepStaysMarked(p, alu, After(p, alu, m, k - 1).value);
    }
  }

  // ------------------------------------------------------------------------------------ the instance

  class Instance {
    const program: Program
    const alu: Alu
    var counter: nat
    var gas: int
    var regs: seq<nat>
    var memory: Mem.Image

    function State(): Machine
      reads this
    {
      Machine(counter, gas, regs, memory)
    }

    ghost predicate Valid()
      reads this
    {
      program.Valid() && counter <= program.Sentinel() && |regs| == REGISTERS
    }

    constructor (program: Program, alu: Alu, offset: nat, gasLimit: int, regs: seq<nat>, memory: Mem.Image)
      ensures this.program == program && this.alu == alu && State() == Machine(offset, gasLimit, regs, memory)
    {
      this.program, this.alu, this.counter, this.gas, this.regs, this.memory :=
        program, alu, offset, gasLimit, regs, memory;
    }

    method Advance()
      requires program.Valid() && counter <= program.Sentinel()
      modifies this
      ensures State() == Advanced(program, old(State()))
    {
      var skip := Skip(counter, program.bitmask);
      counter := counter + 1 + skip;
    }

    method DeductGas(cost: nat) returns (ok: bool)
      modifies this
      ensures ok == (old(gas) >= cost)
      ensures State() == if ok then old(State()).(gas := old(gas) - cost) else old(State())
    {
      if gas < cost { return false; }
      gas := gas - cost;
      ok := true;
    }

    method SetAndSkip(dst: nat, value: nat)
      requires Valid() && dst < REGISTERS
      modifies this
      ensures State() == Advanced(program, SetRegister(old(State()), dst, value))
    {
      regs := regs[dst := value];
      Advance();
    }

    method BranchTo(condition: bool, target: nat) returns (exit: Option<Exit>)
      requires program.Valid() && (condition || counter <= program.Sentinel())
      modifies this
      ensures Outcome(State(), exit) == Branched(program, old(State()), condition, target)
      ensures condition && exit.None? ==> counter == target && counter in program.blocks
      ensures condition && exit.Some? ==> target !in program.blocks && State() == old(State())
      ensures regs == old(regs) && gas == old(gas) && memory == old(memory)
    {
      if condition {
        if target !in program.blocks {
          if target >= |program.code| { return Some(Crash); }
          return Some(Panic);
        }
        counter := target;
      } else {
        Advance();
      }
      exit := None;
    }

    method Djump(address0: nat) returns (exit: Option<Exit>)
      modifies this
      ensures Outcome(State(), exit) == Jumped(program, old(State()), address0)
      ensures exit.None? ==> counter in program.blocks && counter in program.jumpTable
      ensures exit.Some? ==> counter == old(counter) && exit.value in {Halt, Panic}
      ensures exit == Some(Halt) <==> address0 % TWO_32 == RETURN_TO_HOST
      ensures regs == old(regs) && gas == old(gas) && memory == old(memory)
    {
      var address := address0 % TWO_32;
      if address == RETURN_TO_HOST { return Some(Halt); }
      if address == 0 || address > |program.jumpTable| * 2 || address % 2 != 0 { return Some(Panic); }
      var target := program.jumpTable[address / 2 - 1];
      if target !in program.blocks { return Some(Panic); }
      counter := target;
      exit := None;
    }

    method LoadInto(dst: nat, address: nat, size: nat, signed: bool) returns (exit: Option<Exit>)
      requires Valid() && dst < REGISTERS && size <= 8
      modifies this
      ensures Outcome(State(), exit) == ExecuteLoad(program, old(State()), dst, address, size, signed)
      ensures exit.Some? ==> State() == old(State())
      ensures memory == old(memory) && gas == old(gas)
      ensures forall r :: 0 <= r < REGISTERS && r != dst ==> regs[r] == old(regs)[r]
    {
      hide Mem.Check, Mem.Loaded;
      var failure := Mem.Check(memory, address, size, false);
      if failure.Some? { return Some(BadAccess(failure.value)); }
      SetAndSkip(dst, LoadedValue(Mem.Loaded(memory, address, size), signed));
      exit := None;
    }

    method StoreAt(address: nat, value: nat, size: nat) returns (exit: Option<Exit>)
      requires Valid()
      modifies this
      ensures Outcome(State(), exit) == ExecuteStore(program, old(State()), address, value, size)
      ensures exit.Some? ==> State() == old(State())
      ensures regs == old(regs) && gas == old(gas)
    {
      hide Mem.Check, Mem.Stored;
      var failure := Mem.Check(memory, address, size, true);
      if failure.Some? { return Some(BadAccess(failure.value)); }
      memory := Mem.Stored(memory, address, LittleEndian(value, size));
      Advance();
      exit := None;
    }

    method Dispatch(i: Instruction) returns (exit: Option<Exit>)
      requires Valid() && Sized(i) && Named(i)
      modifies this
      ensures Outcome(State(), exit) == Execute(program, alu, old(State()), i)
    {
      hide Advanced, Branched, Jumped, ExecuteLoad, ExecuteStore, Taken;
      exit := None;
      match i
      case Trap => exit := Some(Panic);
      case Fallthrough => Advance();
      case Ecalli(index) => exit := Some(HostCall(index));
      case Set(dst, value) => SetAndSkip(dst, value);
      case Load(dst, base, offset, size, signed) =>
        exit := LoadInto(dst, (OperandOf(State(), base) + offset) % TWO_64, size, signed);
      case Store(base, offset, source, size) =>
        exit := StoreAt((OperandOf(State(), base) + offset) % TWO_64, OperandOf(State(), source), size);
      case Branch(op, left, right, target) =>
        exit := BranchTo(Taken(op, ValueIn(State(), left), OperandOf(State(), right)), target);
      case Jump(target) => exit := BranchTo(true, target);
      case SetAndJump(dst, value, target) =>
        SetAndSkip(dst, value);
        exit := BranchTo(true, target);
      case JumpIndirect(base, offset) => exit := Djump((regs[base] + offset) % TWO_64);
      case SetAndJumpIndirect(dst, base, value, offset) =>
        var target := (regs[base] + offset) % TWO_64;
        regs := regs[dst := value];
        exit := Djump(target);
      case Move(dst, src) => SetAndSkip(dst, regs[src]);
      case Sbrk(dst, src) =>
        var growth := Mem.Sbrk(memory, regs[src]);
        if growth.NoRoom? { return Some(BadAccess(Mem.Fault(growth.address))); }
        memory := growth.image;
        SetAndSkip(dst, growth.top);
      case Arith(op, dst, a, b, imm) => SetAndSkip(dst, alu(op, imm, regs[a], regs[b], regs[dst]));
      case Bad(e) => exit := Some(e);
    }

    method Step() returns (exit: Option<Exit>)
      requires Valid()
      modifies this
      ensures Outcome(State(), exit) == Stepped(program, alu, old(State()))
    {
      hide Decode, Execute, SkipLength, Cost;
      var skip := Skip(counter, program.bitmask);
      var op := program.code[counter];
      var ok := DeductGas(Cost(op));
      if !ok { return Some(OutOfGas); }
      var i := Decode(program.code, counter, skip);
      DecodedIsSized(program.code, counter, skip);
      DecodedIsNamed(program.code, counter, skip);
      exit := Dispatch(i);
    }

    method Invoke() returns (exit: Exit, ghost steps: nat)
      requires Valid() && gas >= 0
      modifies this
      ensures Run(Outcome(State(), Some(exit)), steps) == Invoked(program, alu, old(State()))
      ensures steps <= old(gas) + 1 && 0 <= gas <= old(gas) && counter <= program.Sentinel()
    {
      hide Stepped;
      steps := 0;
      ghost var start := Invoked(program, alu, State());
      while true
        invariant Ready(program, State())
        invariant start.outcome == Invoked(program, alu, State()).outcome
        invariant start.steps == steps + Invoked(program, alu, State()).steps
        decreases gas
      {
        InvokedStep(program, alu, State());
        var e := Step();
        steps := steps + 1;
        if e.Some? { return e.value, steps; }
      }
    }
  }
}
