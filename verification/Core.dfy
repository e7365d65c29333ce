/** The Verilog core (hw/verilog/tenyr.v) on one block RAM (hw/verilog/ram.v), clock edge
    by clock edge. */
module Core {
  import opened Words
  import opened Isa

  const RESET_VECTOR: Word := 0x1000

  /** Registers A to O; P is not stored. */
  type Store = r: seq<Word> | |r| == 15 witness [0, 0, 0, 0, 0, 0, 0, 0, 0, 0, 0, 0, 0, 0, 0]
  type Stage = n: nat | n < 7

  /** The pipeline registers of Exec. */
  datatype Pipe = Pipe(
    op: Opcode, a: Word, b: Word, c: Word, y: Word, z: Word, result: Word,
    staged: bool, act: bool, add: bool, done: bool)

  datatype Ram = Ram(mem: Memory, dout: Word, ack: bool)

  datatype Circuit = Circuit(
    stage: Stage, adr: Word, insn: Word, irhs: Word, data: Word, nextP: Word,
    store: Store, pipe: Pipe, ram: Ram)

  /** Inputs during one cycle; `junk` is what RAM drives for an address it does not have. */
  datatype Inputs = Inputs(reset: bool, halt: bool, junk: Word)

  // ----- Combinational logic -----

  datatype Decoded = Decoded(kind: nat, dd: Deref, z: RegNo, x: RegNo, y: RegNo, op: Opcode, i: Word)

  function HwDecode(w: Word): Decoded {
    var low := w % 0x10_0000;
    var kind := w / 0x10_0000 / 16 / 16 / 4;
    var dd := w / 0x10_0000 / 16 / 16 % 4;
    var z := w / 0x10_0000 / 16 % 16;
    var x := w / 0x10_0000 % 16;
    if kind == 3 then
      Decoded(kind, dd, z, x, 0, 0, if low < 0x8_0000 then low else low + 0xfff0_0000)
    else
      var imm := low % 0x1000;
      Decoded(kind, dd, z, x, low / 0x1000 / 16, low / 0x1000 % 16,
              if imm < 0x800 then imm else imm + 0xffff_f000)
  }

  predicate Storing(d: Decoded) { d.dd == 1 || d.dd == 2 }
  predicate Loading(d: Decoded) { d.dd == 3 }
  predicate UsesMemory(d: Decoded) { Loading(d) || Storing(d) }
  predicate DerefRhs(d: Decoded) { d.dd % 2 == 1 }
  predicate Branching(d: Decoded) { d.z == 15 && !Storing(d) }

  function Read(c: Circuit, n: RegNo): Word {
    if n == 15 then c.nextP else c.store[n]
  }

  /** Shuf: valA, valB, valC. */
  function Shuffle(kind: nat, x: Word, y: Word, i: Word): (Word, Word, Word) {
    match kind
    case 0 => (x, y, i)
    case 1 => (x, i, y)
    case 2 => (i, x, y)
    case _ => (0, x, i)
  }

  /** Exec's case statement; shift counts are whole unsigned words. */
  function HwAlu(rop: Opcode, a: Word, b: Word): Word {
    match rop
    case 0x0 => Or(a, b)
    case 0x8 => Or(a, Not(b))
    case 0x1 => And(a, b)
    case 0x9 => And(a, Not(b))
    case 0x2 => Xor(a, b)
    case 0xa => Plus(a * 0x1000, b % 0x1000)
    case 0x3 => Sar(a, if b < 32 then b else 32)
    case 0xb => if b < 32 then Shr(a, b) else 0
    case 0x4 => Plus(a, b)
    case 0xc => Minus(a, b)
    case 0x5 => Times(a, b)
    case 0xd => if b < 32 then Shl(a, b) else 0
    case 0x6 => Minus(0, if a == b then 1 else 0)
    case 0xe => Minus(0, if b < 32 && And(a, OneBit(b)) != 0 then 1 else 0)
    case 0x7 => Minus(0, if Signed(a) < Signed(b) then 1 else 0)
    case 0xf => Minus(0, if Signed(a) >= Signed(b) then 1 else 0)
  }

  function NextZ(c: Circuit, d: Decoded): Word {
    if DerefRhs(d) then c.data else c.irhs
  }

  function NextI(c: Circuit, d: Decoded): Word {
    if Branching(d) then NextZ(c, d) else c.nextP
  }

  function DataAddress(c: Circuit, d: Decoded): Word {
    if DerefRhs(d) then c.irhs else Read(c, d.z)
  }

  function DataOut(c: Circuit, d: Decoded): Word {
    if DerefRhs(d) then Read(c, d.z) else c.irhs
  }

  predicate Strobe(c: Circuit, d: Decoded) {
    c.stage == 5 || (c.stage == 3 && UsesMemory(d))
  }

  // ----- Clock edges -----

  function PipeEdge(p: Pipe, en: bool, op: Opcode, abc: (Word, Word, Word)): Pipe {
    Pipe(op, abc.0, abc.1, abc.2,
         if p.staged then HwAlu(p.op, p.a, p.b) else p.y,
         if p.act then Plus(p.y, p.c) else p.z,
         p.z, en, p.staged, p.act, p.add)
  }

  function RamEdge(r: Ram, ena: bool, wea: bool, addr: Word, din: Word, junk: Word): Ram {
    Ram(if wea && ena && addr in r.mem then r.mem[addr := din] else r.mem,
        if addr in r.mem then r.mem[addr] else junk,
        ena)
  }

  function StoreEdge(c: Circuit, d: Decoded): Store {
    if c.stage == 4 && !Storing(d) && d.z != 0 && d.z != 15 then c.store[d.z := NextZ(c, d)] else c.store
  }

  /** Core's own registers: the state machine. */
  function ControlEdge(c: Circuit, d: Decoded, e: Inputs): Circuit {
    if e.reset then c.(stage := 5, adr := RESET_VECTOR)
    else match c.stage
      case 0 => c.(stage := if !e.halt then 1 else 0)
      case 1 => c.(stage := if c.pipe.done then 2 else 1, irhs := c.pipe.result)
      case 2 => c.(stage := if UsesMemory(d) then 3 else 4, adr := DataAddress(c, d))
      case 3 => c.(stage := if c.ram.ack then 4 else 3, data := c.ram.dout)
      case 4 => c.(stage := 5, adr := NextI(c, d))
      case 5 => c.(stage := if c.ram.ack then 6 else 5, nextP := Plus(c.adr, 1))
      case 6 => c.(stage := 0, insn := c.ram.dout)
  }

  function Edge(c: Circuit, e: Inputs): Circuit {
    var d := HwDecode(c.insn);
    var abc := Shuffle(d.kind, Read(c, d.x), Read(c, d.y), d.i);
    ControlEdge(c, d, e).(
      store := StoreEdge(c, d),
      pipe := PipeEdge(c.pipe, c.stage == 0, d.op, abc),
      ram := RamEdge(c.ram, Strobe(c, d), c.stage == 3 && Storing(d), c.adr, DataOut(c, d), e.junk))
  }

  function Edges(c: Circuit, es: seq<Inputs>): Circuit {
    if es == [] then c else Edge(Edges(c, es[..|es| - 1]), es[|es| - 1])
  }

  // ----- Agreement of the combinational parts -----

  lemma DecodeAgrees(w: Word)
    ensures var d := HwDecode(w);
            var i := Decode(w);
            && d.dd == i.dd && d.z == i.z && d.x == i.x && OpOf(d.op) == OpField(i)
            && (if i.Small? then d.kind == i.p && d.y == i.y && d.i == SignExtend12(i.imm)
                else d.kind == 3 && d.i == SignExtend20(i.imm))
  {
  }

  /** The operands of the hardware are those of the instruction set. */
  lemma OperandsAgree(c: Circuit, r: Regs)
    requires r[..15] == c.store && r[15] == c.nextP
    ensures var d := HwDecode(c.insn);
            Shuffle(d.kind, Read(c, d.x), Read(c, d.y), d.i) == Operands(Decode(c.insn), r)
  {
    hide HwDecode, Decode;
    DecodeAgrees(c.insn);
    var d := HwDecode(c.insn);
    assert forall n: RegNo | n < 15 :: r[n] == r[..15][n];
    assert Read(c, d.x) == r[d.x] && Read(c, d.y) == r[d.y];
  }

  /** For each four-bit code, hardware and instruction set differ on a right-hand side exactly
      when it is a left shift of 32 or more with a nonzero addend. */
  lemma AluAgrees(code: Opcode, a: Word, b: Word, c: Word)
    requires Defined(OpOf(code), b)
    ensures Plus(HwAlu(code, a, b), c) == Rhs(OpOf(code), a, b, c) <==> (code == 0xd && b >= 32 ==> c == 0)
  {
    hide HwAlu, Rhs;
    OpCodes(OpOf(code), code);
    OpAgrees(OpOf(code), a, b, c);
  }

  lemma OpAgrees(op: Op, a: Word, b: Word, c: Word)
    requires Defined(op, b)
    ensures Plus(HwAlu(CodeOf(op), a, b), c) == Rhs(op, a, b, c) <==> (op.OpShl? && b >= 32 ==> c == 0)
  {
    hide Or, And, Xor, Shl, Shr, Sar, Bit, OneBit, Plus, Minus, Times, Signed, Mask;
    if op.OpPack? { PackAgrees(a, b); }
    if op.OpTest? { MaskedBit(a, b); }
    NegatedBit(true);
    NegatedBit(false);
    ZeroPlus(c);
  }

  /** Minus one is all ones. */
  lemma NegatedBit(p: bool)
    ensures Minus(0, if p then 1 else 0) == Mask(p)
  {
  }

  lemma ZeroPlus(c: Word)
    ensures Plus(0, c) == c
  {
  }

  /** Where C leaves the instruction set undefined, the hardware shifts everything out: right
      shifts are floors for every count, and no bit beyond the word is set. */
  lemma FarShifts(a: Word, b: Word)
    ensures HwAlu(0xb, a, b) == a / Pow2(b)
    ensures Signed(HwAlu(0x3, a, b)) == Signed(a) / Pow2(b)
    ensures HwAlu(0xe, a, b) == if a / Pow2(b) % 2 == 1 then 0xffff_ffff else 0
  {
    hide Shr, Sar, And, Bit, OneBit, Pow2, Signed;
    ShrValue(a, b);
    SarValue(a, if b < 32 then b else 32);
    if b < 32 {
      BitValue(a, b);
      MaskedBit(a, b);
    } else {
      FarQuotient(a, b);
      SignedRange(a);
      FarQuotient(Signed(a), b);
      FarQuotient(Signed(a), 32);
    }
  }

  lemma SignedRange(a: Word)
    ensures -0x8000_0000 <= Signed(a) < 0x8000_0000
  {
  }

  // ----- What the circuit means -----

  /** The registers while an instruction runs: P already points to the next one. */
  function Running(s: State): Regs {
    s.regs[P := Plus(s.regs[P], 1)]
  }

  /** The instruction set can take a step that the hardware computes alike. */
  ghost predicate Good(s: State) {
    s.regs[0] == 0 && Step(s).Next? && RhsAgrees(Decode(s.mem[s.regs[P]]), Running(s))
  }

  /** The right-hand side of the instruction at P. */
  function Target(s: State): Word
    requires Good(s)
  {
    var i := Decode(s.mem[s.regs[P]]);
    var (a, b, c) := Operands(i, Running(s));
    Rhs(OpField(i), a, b, c)
  }

  ghost predicate Fetched(c: Circuit, s: State)
    requires Good(s)
  {
    c.insn == s.mem[s.regs[P]] && c.nextP == Plus(s.regs[P], 1) && c.store == s.regs[..15]
  }

  /** Every pulse on its way through Exec carries this instruction's operands or results. */
  ghost predicate PipeOk(p: Pipe, s: State)
    requires Good(s)
  {
    var i := Decode(s.mem[s.regs[P]]);
    var (a, b, c) := Operands(i, Running(s));
    && (p.staged ==> OpOf(p.op) == OpField(i) && p.a == a && p.b == b)
    && (p.act ==> p.y == HwAlu(CodeOf(OpField(i)), a, b))
    && (p.staged || p.act ==> p.c == c)
    && (p.add ==> p.z == Target(s))
    && (p.done ==> p.result == Target(s))
  }

  ghost predicate Accessing(c: Circuit, s: State)
    requires Good(s)
  {
    var d := HwDecode(c.insn);
    && UsesMemory(d) && c.adr == DataAddress(c, d) && c.adr in s.mem
    && (!c.ram.ack ==> c.ram.mem == s.mem)
    && (c.ram.ack ==>
          if Storing(d) then c.ram.mem == s.mem[c.adr := DataOut(c, d)]
          else c.ram.mem == s.mem && c.ram.dout == s.mem[c.adr])
  }

  ghost predicate Writing(c: Circuit, s: State)
    requires Good(s)
  {
    var d := HwDecode(c.insn);
    var t := Step(s).state;
    StoreEdge(c, d) == t.regs[..15] && NextI(c, d) == t.regs[P] && c.ram.mem == t.mem
  }

  /** The circuit is part-way through the instruction that starts in state `s`. */
  ghost predicate Inv(c: Circuit, s: State)
    requires Good(s)
  {
    match c.stage
    case 5 =>
      && c.store == s.regs[..15] && c.adr == s.regs[P] && c.ram.mem == s.mem
      && (c.ram.ack ==> c.ram.dout == s.mem[c.adr])
      && !c.pipe.staged && !c.pipe.act && !c.pipe.add
    case 6 =>
      && c.store == s.regs[..15] && c.nextP == Plus(s.regs[P], 1) && c.ram.mem == s.mem
      && c.ram.dout == s.mem[s.regs[P]]
      && !c.pipe.staged && !c.pipe.act && !c.pipe.add && !c.pipe.done
    case 0 => Fetched(c, s) && c.ram.mem == s.mem && !c.ram.ack && PipeOk(c.pipe, s)
    case 1 => Fetched(c, s) && c.ram.mem == s.mem && !c.ram.ack && PipeOk(c.pipe, s)
    case 2 => Fetched(c, s) && c.ram.mem == s.mem && !c.ram.ack && !c.pipe.staged && c.irhs == Target(s)
    case 3 => Fetched(c, s) && Accessing(c, s) && !c.pipe.staged && c.irhs == Target(s)
    case 4 => Writing(c, s) && !c.pipe.staged && !c.pipe.act
  }

  // ----- One edge in each stage -----

  lemma EdgeFetch(c: Circuit, s: State, e: Inputs)
    requires Good(s) && Inv(c, s) && !e.reset && c.stage in {5, 6}
    ensures Inv(Edge(c, e), s)
  {
    hide HwDecode, Decode, HwAlu, Rhs, Operands, RhsAgrees, Transfer;
  }

  /** Exec's three stages, and a fresh pulse in stage 0. */
  lemma PipeKeeps(c: Circuit, s: State)
    requires Good(s) && Fetched(c, s) && PipeOk(c.pipe, s)
    ensures var d := HwDecode(c.insn);
            PipeOk(PipeEdge(c.pipe, c.stage == 0, d.op, Shuffle(d.kind, Read(c, d.x), Read(c, d.y), d.i)), s)
  {
    hide HwDecode, Decode, HwAlu, Rhs, Operands, Shuffle, RhsAgrees;
    var r := Running(s);
    DecodeAgrees(c.insn);
    OperandsAgree(c, r);
    var i := Decode(c.insn);
    OpCodes(OpField(i), c.pipe.op);
    var (a, b, k) := Operands(i, r);
    TargetValue(s);
  }

  lemma TargetValue(s: State)
    requires Good(s)
    ensures var i := Decode(s.mem[s.regs[P]]);
            var (a, b, c) := Operands(i, Running(s));
            Target(s) == Plus(HwAlu(CodeOf(OpField(i)), a, b), c)
  {
    hide HwAlu, Combine, Decode, Operands;
    var i := Decode(s.mem[s.regs[P]]);
    var (a, b, c) := Operands(i, Running(s));
    OpCodes(OpField(i), 0);
    AluAgrees(CodeOf(OpField(i)), a, b, c);
  }

  lemma EdgeExec(c: Circuit, s: State, e: Inputs)
    requires Good(s) && Inv(c, s) && !e.reset && c.stage in {0, 1}
    ensures Inv(Edge(c, e), s)
  {
    hide HwDecode, Decode, HwAlu, Rhs, Operands, RhsAgrees, Transfer;
    PipeKeeps(c, s);
  }

  /** What is left of the instruction once its right-hand side is known. */
  lemma StepIsTransfer(s: State)
    requires Good(s)
    ensures var i := Decode(s.mem[s.regs[P]]);
            Step(s) == Transfer(Running(s), s.mem, i.dd, i.z, Target(s))
  {
    hide Decode, Operands, Rhs, RhsAgrees, Transfer;
  }

  lemma RunningRegs(c: Circuit, s: State, n: RegNo)
    requires Good(s) && Fetched(c, s)
    ensures Read(c, n) == Running(s)[n]
  {
    hide Step, RhsAgrees, Decode;
    assert n < 15 ==> s.regs[n] == s.regs[..15][n];
  }

  /** A result written back through SetReg is what the register file and the next
      address make of it. */
  lemma WriteBack(c: Circuit, s: State)
    requires Good(s) && Fetched(c, s) && c.stage == 4 && !Storing(HwDecode(c.insn))
    ensures var d := HwDecode(c.insn);
            StoreEdge(c, d) + [NextI(c, d)] == SetReg(Running(s), d.z, NextZ(c, d))
  {
    hide Step, RhsAgrees, Decode, HwDecode;
  }

  lemma EdgeAddress(c: Circuit, s: State, e: Inputs)
    requires Good(s) && Inv(c, s) && !e.reset && c.stage == 2
    ensures Inv(Edge(c, e), s)
  {
    hide HwDecode, Decode, HwAlu, Rhs, Operands, RhsAgrees, Step, Target;
    DecodeAgrees(c.insn);
    StepIsTransfer(s);
    var d := HwDecode(c.insn);
    RunningRegs(c, s, d.z);
    var c' := Edge(c, e);
    if !UsesMemory(d) {
      WriteBack(c', s);
      Split15(SetReg(Running(s), d.z, Target(s)), StoreEdge(c', d), NextI(c', d));
    }
  }

  lemma Split15(r: Regs, store: Store, pc: Word)
    requires store + [pc] == r
    ensures store == r[..15] && pc == r[15]
  {
  }

  lemma EdgeAccess(c: Circuit, s: State, e: Inputs)
    requires Good(s) && Inv(c, s) && !e.reset && c.stage == 3
    ensures Inv(Edge(c, e), s)
  {
    hide HwDecode, Decode, HwAlu, Rhs, Operands, RhsAgrees, Step, Target;
    DecodeAgrees(c.insn);
    StepIsTransfer(s);
    var d := HwDecode(c.insn);
    RunningRegs(c, s, d.z);
    var c' := Edge(c, e);
    if c.ram.ack {
      if Loading(d) {
        WriteBack(c', s);
        Split15(SetReg(Running(s), d.z, s.mem[Target(s)]), StoreEdge(c', d), NextI(c', d));
      }
    }
  }

  lemma EdgeRetire(c: Circuit, s: State, e: Inputs)
    requires Good(s) && Inv(c, s) && !e.reset && c.stage == 4 && Good(Step(s).state)
    ensures Inv(Edge(c, e), Step(s).state)
  {
    hide HwDecode, Decode, HwAlu, Rhs, Operands, RhsAgrees, Step, Target;
  }

  /** One clock edge, whatever `halt` does: stage 4 completes the instruction, every other
      stage stays within it. */
  lemma EdgeKeeps(c: Circuit, s: State, e: Inputs)
    requires Good(s) && Inv(c, s) && !e.reset
    requires c.stage == 4 ==> Good(Step(s).state)
    ensures Inv(Edge(c, e), if c.stage == 4 then Step(s).state else s)
  {
    hide Edge, Inv, Step, RhsAgrees;
    if c.stage == 4 { EdgeRetire(c, s, e); }
    else if c.stage == 3 { EdgeAccess(c, s, e); }
    else if c.stage == 2 { EdgeAddress(c, s, e); }
    else if c.stage < 2 { EdgeExec(c, s, e); }
    else { EdgeFetch(c, s, e); }
  }

  // ----- Whole runs -----

  /** How often the run passed through stage 4. */
  function Retired(c: Circuit, es: seq<Inputs>): nat {
    if es == [] then 0
    else
      var last := es[..|es| - 1];
      Retired(c, last) + (if Edges(c, last).stage == 4 then 1 else 0)
  }

  /** The core refines the instruction set: after any clock edges the machine state is that
      of as many instructions as were retired. */
  lemma {:induction false} CoreRefines(c: Circuit, s: State, es: seq<Inputs>)
    requires Good(s) && Inv(c, s) && forall e <- es :: !e.reset
    requires forall n: nat | n <= Retired(c, es) :: Good(StepN(s, n))
    ensures Inv(Edges(c, es), StepN(s, Retired(c, es)))
  {
    hide Edge, Inv, Step, RhsAgrees;
    if es != [] {
      var last := es[..|es| - 1];
      CoreRefines(c, s, last);
      var n := Retired(c, last);
      assert Good(StepN(s, n)) && (Edges(c, last).stage == 4 ==> Good(StepN(s, n + 1)));
      EdgeKeeps(Edges(c, last), StepN(s, n), es[|es| - 1]);
    }
  }

  /** Back in stage 5, registers, memory and next address are the instruction set's. */
  lemma VisibleState(c: Circuit, s: State)
    requires Good(s) && Inv(c, s) && c.stage == 5
    ensures State(c.store + [c.adr], c.ram.mem) == s
  {
    hide Step, RhsAgrees;
    assert s.regs == s.regs[..15] + [s.regs[15]];
  }

  // ----- Reset -----

  /** Four edges under reset clear whatever was in flight, from any state of the circuit. */
  lemma ResetClears(c: Circuit, e: seq<Inputs>, s: State)
    requires |e| == 4 && forall k <- e :: k.reset
    requires RESET_VECTOR in c.ram.mem
    ensures var r := Edge(Edge(Edge(Edge(c, e[0]), e[1]), e[2]), e[3]);
            s == State(r.store + [RESET_VECTOR], r.ram.mem) && Good(s) ==> Inv(r, s)
  {
    hide HwDecode, Decode, HwAlu, Step, RhsAgrees, Shuffle, Read, NextZ, DataOut;
    var c1 := Edge(c, e[0]);
    var c2 := Edge(c1, e[1]);
    var c3 := Edge(c2, e[2]);
    UnderReset(c, e[0]);
    UnderReset(c1, e[1]);
    UnderReset(c2, e[2]);
    UnderReset(c3, e[3]);
  }

  /** One edge under reset: no new pulse once in stage 5, and the RAM answers for the vector. */
  lemma UnderReset(c: Circuit, e: Inputs)
    requires e.reset && RESET_VECTOR in c.ram.mem
    ensures var r := Edge(c, e);
            && r.stage == 5 && r.adr == RESET_VECTOR && RESET_VECTOR in r.ram.mem
            && r.pipe.act == c.pipe.staged && r.pipe.add == c.pipe.act
            && (c.stage == 5 ==> !r.pipe.staged && r.ram.mem == c.ram.mem)
            && (c.stage == 5 && c.adr == RESET_VECTOR ==> r.ram.dout == r.ram.mem[RESET_VECTOR])
  {
    hide HwDecode, HwAlu, Shuffle, Read, NextZ, DataOut;
  }

  // ----- Timing -----

  /** The bits that decide where the state machine goes. */
  datatype Ctl = Ctl(stage: Stage, ack: bool, staged: bool, act: bool, add: bool, done: bool)

  function CtlOf(c: Circuit): Ctl {
    Ctl(c.stage, c.ram.ack, c.pipe.staged, c.pipe.act, c.pipe.add, c.pipe.done)
  }

  function CtlEdge(k: Ctl, memory: bool, halt: bool): Ctl {
    var stage: Stage :=
      match k.stage
      case 0 => if halt then 0 else 1
      case 1 => if k.done then 2 else 1
      case 2 => if memory then 3 else 4
      case 3 => if k.ack then 4 else 3
      case 4 => 5
      case 5 => if k.ack then 6 else 5
      case 6 => 0;
    Ctl(stage, k.stage == 5 || (k.stage == 3 && memory), k.stage == 0, k.staged, k.act, k.add)
  }

  lemma CtlCommutes(c: Circuit, e: Inputs, memory: bool)
    requires !e.reset
    requires c.stage in {2, 3} ==> UsesMemory(HwDecode(c.insn)) == memory
    ensures CtlOf(Edge(c, e)) == CtlEdge(CtlOf(c), memory, e.halt)
  {
    hide HwDecode, HwAlu, Shuffle, Read, NextZ, DataOut;
  }

  /** A result is on its way when the core waits for one, and none is left over afterwards. */
  predicate Live(k: Ctl) {
    match k.stage
    case 0 => true
    case 1 => k.staged || k.act || k.add || k.done
    case 2 => !k.staged
    case 3 => !k.staged
    case 4 => !k.staged && !k.act
    case _ => !k.staged && !k.act && !k.add
  }

  /** Edges until the first result on its way is out. */
  function Wait(k: Ctl): nat {
    if k.done then 0 else if k.add then 1 else if k.act then 2 else if k.staged then 3 else 4
  }

  /** Edges from here to the next instruction's start, when nothing holds the core up. */
  function Left(k: Ctl, memory: bool): nat {
    var tail := if memory then 4 else 2;
    match k.stage
    case 0 => 2 + Wait(k.(done := k.add, add := k.act, act := k.staged, staged := true)) + tail
    case 1 => 1 + Wait(k) + tail
    case 2 => tail
    case 3 => if k.ack then 2 else 3
    case 4 => 1
    case 5 => (if k.ack then 7 else 8) + tail
    case 6 => 6 + tail
  }

  lemma LeftFalls(k: Ctl, memory: bool, halt: bool)
    requires Live(k) && (k.stage == 3 ==> memory)
    ensures var n := CtlEdge(k, memory, halt);
            && Live(n) && (n.stage == 3 ==> memory)
            && (k.stage == 4 <==> Left(k, memory) == 1)
            && (k.stage == 4 ==> n.stage == 5 && !n.ack)
            && (k.stage != 4 && (k.stage == 0 ==> !halt) ==> Left(n, memory) == Left(k, memory) - 1)
  {
  }

  lemma {:induction false} EdgesFront(c: Circuit, es: seq<Inputs>)
    requires es != []
    ensures Edges(c, es) == Edges(Edge(c, es[0]), es[1..])
    ensures Retired(c, es) == (if c.stage == 4 then 1 else 0) + Retired(Edge(c, es[0]), es[1..])
  {
    hide Edge;
    var last := es[..|es| - 1];
    if last == [] {
      assert es == [es[0]] && Edges(c, []) == c;
    } else {
      EdgesFront(c, last);
      assert last[1..] == es[1..][..|es| - 2];
    }
  }

  /** From anywhere in an instruction it completes in exactly the edges that are left, and the
      core is then ready for the next one. `halt` matters only until the instruction starts. */
  lemma {:induction false} Completes(c: Circuit, s: State, es: seq<Inputs>, memory: bool)
    requires Good(s) && Inv(c, s) && Live(CtlOf(c)) && Good(Step(s).state)
    requires memory == UsesMemory(HwDecode(s.mem[s.regs[P]])) && |es| == Left(CtlOf(c), memory)
    requires forall e <- es :: !e.reset
    requires c.stage == 0 ==> !es[0].halt
    requires c.stage in {5, 6} ==> forall e <- es :: !e.halt
    ensures Retired(c, es) == 1
    ensures var r := Edges(c, es);
            r.stage == 5 && !r.ram.ack && Live(CtlOf(r)) && Inv(r, Step(s).state)
    decreases |es|
  {
    hide Edge, Step, RhsAgrees, CtlEdge, HwDecode, Decode, Target, Live, Left, Edges, Retired;
    var e := es[0] by { LeftPositive(CtlOf(c), memory); }
    var n := Edge(c, e);
    StageMemory(c, s);
    LeftFalls(CtlOf(c), memory, e.halt);
    LeftPositive(CtlOf(c), memory);
    CtlCommutes(c, e, memory);
    EdgeKeeps(c, s, e);
    EdgesFront(c, es);
    if c.stage == 4 {
      NoEdges(n, es[1..]);
    } else {
      NextStage(CtlOf(c), memory, e.halt);
      Completes(n, s, es[1..], memory);
    }
  }

  lemma LeftPositive(k: Ctl, memory: bool)
    ensures Left(k, memory) > 0
  {
  }

  lemma NoEdges(c: Circuit, es: seq<Inputs>)
    requires es == []
    ensures Edges(c, es) == c && Retired(c, es) == 0
  {
  }

  /** Where memory is used, the circuit holds the instruction that says so. */
  lemma StageMemory(c: Circuit, s: State)
    requires Good(s) && Inv(c, s)
    ensures c.stage in {2, 3} ==> UsesMemory(HwDecode(c.insn)) == UsesMemory(HwDecode(s.mem[s.regs[P]]))
    ensures c.stage == 3 ==> UsesMemory(HwDecode(c.insn))
  {
    hide HwDecode, Decode, Step, RhsAgrees, Operands, Target, StoreEdge, DataAddress, DataOut;
  }

  lemma NextStage(k: Ctl, memory: bool, halt: bool)
    ensures CtlEdge(k, memory, halt).stage == 0 ==> k.stage == 6 || (k.stage == 0 && halt)
    ensures CtlEdge(k, memory, halt).stage in {5, 6} ==> k.stage in {4, 5}
  {
  }

  function Latency(memory: bool): nat {
    if memory then 12 else 10
  }

  /** With `halt` low an instruction takes exactly 10 clock edges, or 12 when it touches
      memory, and the core is then ready for the next one. */
  lemma InstructionTime(c: Circuit, s: State, es: seq<Inputs>, memory: bool)
    requires Good(s) && Inv(c, s) && c.stage == 5 && !c.ram.ack && Good(Step(s).state)
    requires memory == UsesMemory(HwDecode(s.mem[s.regs[P]])) && |es| == Latency(memory)
    requires forall e <- es :: !e.reset && !e.halt
    ensures Retired(c, es) == 1
    ensures var r := Edges(c, es);
            r.stage == 5 && !r.ram.ack && Inv(r, Step(s).state)
  {
    hide Edge, Step, RhsAgrees, HwDecode, Decode, Target, Edges, Retired;
    Completes(c, s, es, memory);
  }

  // ----- Halt -----

  predicate Halted(es: seq<Inputs>) {
    forall e <- es :: e.halt && !e.reset
  }

  /** Held before an instruction, nothing that the program can see changes and none retires. */
  lemma {:induction false} Held(c: Circuit, es: seq<Inputs>)
    requires c.stage == 0 && Halted(es)
    ensures Retired(c, es) == 0
    ensures var r := Edges(c, es);
            && r.stage == 0 && r.store == c.store && r.adr == c.adr && r.insn == c.insn && r.nextP == c.nextP
            && r.ram.mem == c.ram.mem
  {
    hide HwDecode, HwAlu, Shuffle, Read, NextZ, DataOut, PipeEdge;
    if es != [] { Held(c, es[..|es| - 1]); }
  }

  /** Edges from the last instruction's end until the next one is held. */
  function ToHold(k: Ctl): nat {
    match k.stage
    case 5 => if k.ack then 2 else 3
    case 6 => 1
    case _ => 0
  }

  /** Between instructions a halted core fetches the next one at most, and is then held. */
  lemma {:induction false} Drains(c: Circuit, es: seq<Inputs>)
    requires c.stage in {0, 5, 6} && Halted(es)
    ensures Retired(c, es) == 0 && Edges(c, es).stage in {0, 5, 6}
    ensures |es| >= ToHold(CtlOf(c)) ==> Edges(c, es).stage == 0
    decreases |es|
  {
    hide Edge, CtlEdge, Edges, Retired, ToHold;
    if es == [] {
      NoEdges(c, es);
      HoldStep(CtlOf(c));
    } else {
      EdgesFront(c, es);
      CtlCommutes(c, es[0], false);
      HoldStep(CtlOf(c));
      Drains(Edge(c, es[0]), es[1..]);
    }
  }

  lemma HoldStep(k: Ctl)
    requires k.stage in {0, 5, 6}
    ensures var n := CtlEdge(k, false, true);
            n.stage in {0, 5, 6} && (ToHold(k) == 0 <==> k.stage == 0) && (k.stage != 0 ==> ToHold(n) == ToHold(k) - 1)
    ensures k.stage == 0 ==> CtlEdge(k, false, true).stage == 0 && ToHold(CtlEdge(k, false, true)) == 0
  {
  }

  /** While `halt` stays high at most one instruction retires, from any circuit whatever. */
  lemma {:induction false} AtMostOne(c: Circuit, es: seq<Inputs>)
    requires Halted(es)
    ensures Retired(c, es) <= 1
    decreases |es|
  {
    hide Edge, Edges;
    if c.stage in {0, 5, 6} {
      Drains(c, es);
    } else if es != [] {
      EdgesFront(c, es);
      if c.stage == 4 {
        CtlCommutes(c, es[0], false);
        Drains(Edge(c, es[0]), es[1..]);
      } else {
        AtMostOne(Edge(c, es[0]), es[1..]);
      }
    }
  }

  /** A halted core completes the instruction it is in, if any, in exactly the edges that are left
      of it, and is held three edges later with the next one fetched. */
  lemma {:induction false} HaltStops(c: Circuit, s: State, es: seq<Inputs>, memory: bool)
    requires Good(s) && Inv(c, s) && Live(CtlOf(c)) && Good(Step(s).state) && Halted(es)
    requires memory == UsesMemory(HwDecode(s.mem[s.regs[P]]))
    ensures var left := if c.stage in {0, 5, 6} then ToHold(CtlOf(c)) else Left(CtlOf(c), memory) + 3;
            && (|es| >= left ==> Edges(c, es).stage == 0)
            && Retired(c, es) == if c.stage !in {0, 5, 6} && |es| >= Left(CtlOf(c), memory) then 1 else 0
    ensures Inv(Edges(c, es), if Retired(c, es) == 0 then s else Step(s).state)
  {
    hide Edge, Inv, Step, RhsAgrees, HwDecode, Decode, Target, Live, Left, Edges, Retired;
    AtMostOne(c, es);
    OneStep(s);
    CoreRefines(c, s, es);
    if c.stage in {0, 5, 6} {
      Drains(c, es);
    } else {
      var n := Left(CtlOf(c), memory);
      if |es| >= n {
        var a, b := es[..n], es[n..];
        assert es == a + b;
        Completes(c, s, a, memory);
        EdgesAppend(c, a, b);
        Drains(Edges(c, a), b);
      } else {
        NotYet(c, s, es, memory);
      }
    }
  }

  lemma OneStep(s: State)
    requires Good(s)
    ensures StepN(s, 0) == s && StepN(s, 1) == Step(s).state
  {
    hide Step, RhsAgrees;
  }

  lemma {:induction false} EdgesAppend(c: Circuit, a: seq<Inputs>, b: seq<Inputs>)
    ensures Edges(c, a + b) == Edges(Edges(c, a), b)
    ensures Retired(c, a + b) == Retired(c, a) + Retired(Edges(c, a), b)
    decreases |b|
  {
    hide Edge;
    if b == [] {
      assert a + b == a;
    } else {
      assert (a + b)[..|a + b| - 1] == a + b[..|b| - 1];
      EdgesAppend(c, a, b[..|b| - 1]);
    }
  }

  /** Before its edges are over an instruction has not retired. */
  lemma {:induction false} NotYet(c: Circuit, s: State, es: seq<Inputs>, memory: bool)
    requires Good(s) && Inv(c, s) && Live(CtlOf(c)) && c.stage in {1, 2, 3, 4}
    requires memory == UsesMemory(HwDecode(s.mem[s.regs[P]])) && |es| < Left(CtlOf(c), memory)
    requires forall e <- es :: !e.reset
    ensures Retired(c, es) == 0
    decreases |es|
  {
    hide Edge, Inv, Step, RhsAgrees, CtlEdge, HwDecode, Decode, Target, Live, Left, Edges, Retired;
    if es == [] {
      NoEdges(c, es);
    } else {
      EdgesFront(c, es);
      StageMemory(c, s);
      LeftFalls(CtlOf(c), memory, es[0].halt);
      CtlCommutes(c, es[0], memory);
      NextStage(CtlOf(c), memory, es[0].halt);
      EdgeKeeps(c, s, es[0]);
      NotYet(Edge(c, es[0]), s, es[1..], memory);
    }
  }

  /** However long a core was held, once `halt` drops the held instruction completes, within nine
      edges, and nothing before or besides it. */
  lemma Released(c: Circuit, s: State, hold: seq<Inputs>, es: seq<Inputs>, memory: bool)
    requires Good(s) && Inv(c, s) && c.stage == 0 && Good(Step(s).state) && Halted(hold)
    requires memory == UsesMemory(HwDecode(s.mem[s.regs[P]])) && |es| == Left(CtlOf(Edges(c, hold)), memory)
    requires es != [] && !es[0].halt && forall e <- es :: !e.reset
    ensures |es| <= (if memory then 9 else 7) && Retired(c, hold) == 0 && Retired(c, hold + es) == 1
    ensures var r := Edges(c, hold + es);
            r.stage == 5 && Inv(r, Step(s).state)
  {
    Held(c, hold);
    assert |es| <= if memory then 9 else 7;
    hide Edge, Inv, Step, RhsAgrees, HwDecode, Decode, Target, Edges, Retired;
    OneStep(s);
    CoreRefines(c, s, hold);
    Completes(Edges(c, hold), s, es, memory);
    EdgesAppend(c, hold, es);
  }

  // ----- The clocked registers -----

  /** Core, Exec, Reg and BlockRAM: every register takes its next value at the same edge. */
  class Board {
    var stage: Stage
    var adr: Word
    var insn: Word
    var irhs: Word
    var data: Word
    var nextP: Word
    var store: Store
    var pipe: Pipe
    var ram: Ram

    function Now(): Circuit
      reads this
    {
      Circuit(stage, adr, insn, irhs, data, nextP, store, pipe, ram)
    }

    method Clock(e: Inputs)
      modifies this
      ensures Now() == Edge(old(Now()), e)
    {
      hide HwDecode, HwAlu, Shuffle;
      var d := HwDecode(insn);
      var abc := Shuffle(d.kind, Read(Now(), d.x), Read(Now(), d.y), d.i);
      var ready, edone, dout, rhs := ram.ack, pipe.done, ram.dout, pipe.result;
      var nextZ, nextI, adrD := NextZ(Now(), d), NextI(Now(), d), DataAddress(Now(), d);

      store, pipe, ram :=
        StoreEdge(Now(), d),
        PipeEdge(pipe, stage == 0, d.op, abc),
        RamEdge(ram, Strobe(Now(), d), stage == 3 && Storing(d), adr, DataOut(Now(), d), e.junk);

      if e.reset {
        stage, adr := 5, RESET_VECTOR;
      } else if stage == 0 {
        stage := if !e.halt then 1 else 0;
      } else if stage == 1 {
        stage, irhs := if edone then 2 else 1, rhs;
      } else if stage == 2 {
        stage, adr := if UsesMemory(d) then 3 else 4, adrD;
      } else if stage == 3 {
        stage, data := if ready then 4 else 3, dout;
      } else if stage == 4 {
        stage, adr := 5, nextI;
      } else if stage == 5 {
        stage, nextP := if ready then 6 else 5, Plus(adr, 1);
      } else {
        stage, insn := 0, dout;
      }
    }

    /** Any number of edges from a circuit in step with the instruction set. */
    method Run(es: seq<Inputs>, ghost s: State)
      requires Good(s) && Inv(Now(), s) && forall e <- es :: !e.reset
      requires forall n: nat | n <= Retired(Now(), es) :: Good(StepN(s, n))
      modifies this
      ensures Now() == Edges(old(Now()), es)
      ensures Good(StepN(s, Retired(old(Now()), es))) && Inv(Now(), StepN(s, Retired(old(Now()), es)))
      ensures stage == 5 ==> State(store + [adr], ram.mem) == StepN(s, Retired(old(Now()), es))
    {
      hide Edge, Inv, Step, RhsAgrees, StepN;
      ghost var c := Now();
      for i := 0 to |es|
        invariant Now() == Edges(c, es[..i])
      {
        assert es[..i + 1][..i] == es[..i];
        Clock(es[i]);
      }
      assert es[..|es|] == es;
      CoreRefines(c, s, es);
      if stage == 5 { VisibleState(Now(), StepN(s, Retired(c, es))); }
    }
  }
}
