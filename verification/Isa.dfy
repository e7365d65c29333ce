/** The tenyr instruction set: encoding (src/ops.h) and the one-step meaning that
    the interpreter, the JIT and the hardware core have to share. */
module Isa {
  import opened Words

  datatype Op =
    | OpOr | OpAnd | OpXor | OpSra | OpAdd | OpMul | OpEq | OpLt
    | OpOrn | OpAndn | OpPack | OpSrl | OpSub | OpShl | OpTest | OpGe

  type Opcode = n: nat | n < 16
  type RegNo = n: nat | n < 16
  type Deref = n: nat | n < 4

  const P: RegNo := 15
  const END_ADDRESS: Word := 0xffff_ffff

  function OpOf(n: Opcode): Op {
    match n
    case 0 => OpOr case 1 => OpAnd case 2 => OpXor case 3 => OpSra
    case 4 => OpAdd case 5 => OpMul case 6 => OpEq case 7 => OpLt
    case 8 => OpOrn case 9 => OpAndn case 10 => OpPack case 11 => OpSrl
    case 12 => OpSub case 13 => OpShl case 14 => OpTest case 15 => OpGe
  }

  function CodeOf(op: Op): Opcode {
    match op
    case OpOr => 0 case OpAnd => 1 case OpXor => 2 case OpSra => 3
    case OpAdd => 4 case OpMul => 5 case OpEq => 6 case OpLt => 7
    case OpOrn => 8 case OpAndn => 9 case OpPack => 10 case OpSrl => 11
    case OpSub => 12 case OpShl => 13 case OpTest => 14 case OpGe => 15
  }

  /** A decoded instruction: `p` places the 12-bit immediate, type 3 has a 20-bit one. */
  datatype Insn =
    | Small(p: nat, dd: Deref, z: RegNo, x: RegNo, y: RegNo, op: Op, imm: nat)
    | Medium(dd: Deref, z: RegNo, x: RegNo, imm: nat)
  {
    predicate WellFormed() {
      if Small? then p < 3 && imm < 0x1000 else imm < 0x10_0000
    }
  }

  function Decode(w: Word): (i: Insn)
    ensures i.WellFormed()
  {
    var xField := w / 0x10_0000;
    var zField := xField / 16;
    var ddField := zField / 16;
    if ddField / 4 == 3 then Medium(ddField % 4, zField % 16, xField % 16, w % 0x10_0000)
    else
      var low := w % 0x10_0000;
      var opField := low / 0x1000;
      Small(ddField / 4, ddField % 4, zField % 16, xField % 16, opField / 16, OpOf(opField % 16), low % 0x1000)
  }

  function Encode(i: Insn): (w: Word)
    requires i.WellFormed()
  {
    match i
    case Small(p, dd, z, x, y, op, imm) =>
      Layout(p, dd, z, x, (y * 16 + CodeOf(op)) * 0x1000 + imm)
    case Medium(dd, z, x, imm) =>
      Layout(3, dd, z, x, imm)
  }

  function Layout(p: nat, dd: Deref, z: RegNo, x: RegNo, low: nat): Word
    requires p < 4 && low < 0x10_0000
  {
    (((p * 4 + dd) * 16 + z) * 16 + x) * 0x10_0000 + low
  }

  lemma OpCodes(op: Op, n: Opcode)
    ensures OpOf(CodeOf(op)) == op && CodeOf(OpOf(n)) == n
  {
  }

  /** The bit-field layout loses nothing in either direction. */
  lemma EncodeDecode(w: Word)
    ensures Encode(Decode(w)) == w
  {
    OpCodes(OpOr, w / 0x1000 % 16);
  }

  lemma Digit16(q: nat, r: nat)
    requires r < 16
    ensures (q * 16 + r) / 16 == q && (q * 16 + r) % 16 == r
  {
  }

  lemma LayoutFields(p: nat, dd: Deref, z: RegNo, x: RegNo, low: nat)
    requires p < 4 && low < 0x10_0000
    ensures var w := Layout(p, dd, z, x, low);
            && w % 0x10_0000 == low
            && w / 0x10_0000 % 16 == x
            && w / 0x10_0000 / 16 % 16 == z
            && w / 0x10_0000 / 16 / 16 % 4 == dd
            && w / 0x10_0000 / 16 / 16 / 4 == p
  {
    var h := p * 4 + dd;
    assert Layout(p, dd, z, x, low) / 0x10_0000 == (h * 16 + z) * 16 + x;
    Digit16(h * 16 + z, x);
    Digit16(h, z);
  }

  lemma DecodeEncode(i: Insn)
    requires i.WellFormed()
    ensures Decode(Encode(i)) == i
  {
    hide Layout;
    if i.Small? {
      OpCodes(i.op, 0);
      var low := (i.y * 16 + CodeOf(i.op)) * 0x1000 + i.imm;
      LayoutFields(i.p, i.dd, i.z, i.x, low);
      assert low / 0x1000 == i.y * 16 + CodeOf(i.op) && low % 0x1000 == i.imm;
      Digit16(i.y, CodeOf(i.op));
    } else {
      LayoutFields(3, i.dd, i.z, i.x, i.imm);
    }
  }

  /** SEXTEND32: sign extension of the low bits, for the two immediate widths. */
  function SignExtend12(imm: nat): Word
    requires imm < 0x1000
  {
    if imm < 0x800 then imm else imm + 0xffff_f000
  }

  function SignExtend20(imm: nat): Word
    requires imm < 0x10_0000
  {
    if imm < 0x8_0000 then imm else imm + 0xfff0_0000
  }

  // ----- Operations -----

  /** C gives these operations no meaning beyond a 31-bit distance; `<<` has its own rule. */
  predicate Defined(op: Op, b: Word) {
    (op.OpSra? || op.OpSrl? || op.OpTest?) ==> b < 32
  }

  /** `a op b`, before the addend. */
  function Combine(op: Op, a: Word, b: Word): Word
    requires Defined(op, b) && (op.OpShl? ==> b < 32)
  {
    match op
    case OpOr => Or(a, b)
    case OpAnd => And(a, b)
    case OpXor => Xor(a, b)
    case OpSra => Sar(a, b)
    case OpAdd => Plus(a, b)
    case OpMul => Times(a, b)
    case OpEq => Mask(a == b)
    case OpLt => Mask(Signed(a) < Signed(b))
    case OpOrn => Or(a, Not(b))
    case OpAndn => And(a, Not(b))
    case OpPack => Or(Shl(a, 12), And(b, 0xfff))
    case OpSrl => Shr(a, b)
    case OpSub => Minus(a, b)
    case OpShl => Shl(a, b)
    case OpTest => Mask(Bit(a, b))
    case OpGe => Mask(Signed(a) >= Signed(b))
  }

  /** `a op b + c`; a left shift of 32 or more is zero and drops the addend. */
  function Rhs(op: Op, a: Word, b: Word, c: Word): Word
    requires Defined(op, b)
  {
    if op.OpShl? && b >= 32 then 0 else Plus(Combine(op, a, b), c)
  }

  // ----- Machine steps -----

  type Regs = r: seq<Word> | |r| == 16 witness [0, 0, 0, 0, 0, 0, 0, 0, 0, 0, 0, 0, 0, 0, 0, 0]
  /** Addresses outside the map belong to no device. */
  type Memory = map<Word, Word>

  datatype State = State(regs: Regs, mem: Memory)
  datatype Outcome = Next(state: State) | Fault | Undefined | Halted

  function SetReg(r: Regs, z: RegNo, v: Word): Regs {
    if z == 0 then r else r[z := v]
  }

  /** The operands a, b, c of `a op b + c`, by immediate position. */
  function Operands(i: Insn, r: Regs): (Word, Word, Word)
    requires i.WellFormed()
  {
    match i
    case Medium(_, _, x, imm) => (0, r[x], SignExtend20(imm))
    case Small(p, _, _, x, y, _, imm) =>
      var k := SignExtend12(imm);
      if p == 0 then (r[x], r[y], k)
      else if p == 1 then (r[x], k, r[y])
      else (k, r[x], r[y])
  }

  function OpField(i: Insn): Op {
    if i.Small? then i.op else OpOr
  }

  /** The interpreter drops the addend of a left shift by 32 or more; the JIT and the
      hardware keep it. They can only agree when there is none to drop. */
  predicate RhsAgrees(i: Insn, r: Regs)
    requires i.WellFormed()
  {
    var (_, b, c) := Operands(i, r);
    OpField(i).OpShl? && b >= 32 ==> c == 0
  }

  function Execute(s: State, i: Insn): Outcome
    requires i.WellFormed()
  {
    var r := s.regs[P := Plus(s.regs[P], 1)];
    var (a, b, c) := Operands(i, r);
    if !Defined(OpField(i), b) then Undefined
    else Transfer(r, s.mem, i.dd, i.z, Rhs(OpField(i), a, b, c))
  }

  /** Z <- rhs, Z -> [rhs], [Z] <- rhs, Z <- [rhs]. */
  function Transfer(r: Regs, mem: Memory, dd: Deref, z: RegNo, rhs: Word): Outcome {
    match dd
    case 0 => Next(State(SetReg(r, z, rhs), mem))
    case 1 => if rhs in mem then Next(State(r, mem[rhs := r[z]])) else Fault
    case 2 => if r[z] in mem then Next(State(r, mem[r[z] := rhs])) else Fault
    case 3 => if rhs in mem then Next(State(SetReg(r, z, mem[rhs]), mem)) else Fault
  }

  function Step(s: State): Outcome {
    if s.regs[P] == END_ADDRESS then Halted
    else if s.regs[P] !in s.mem then Fault
    else Execute(s, Decode(s.mem[s.regs[P]]))
  }

  /** The state after n instructions; a machine that cannot go on stays put. */
  ghost function StepN(s: State, n: nat): State {
    if n == 0 then s
    else
      var t := StepN(s, n - 1);
      if Step(t).Next? then Step(t).state else t
  }

  lemma {:induction false} StepNAdd(s: State, m: nat, n: nat)
    ensures StepN(StepN(s, m), n) == StepN(s, m + n)
  {
    hide Step;
    if n > 0 { StepNAdd(s, m, n - 1); }
  }

  /** Register A reads as zero for ever, and no step changes which addresses exist. */
  lemma {:induction false} RegisterAStaysZero(s: State, n: nat)
    requires s.regs[0] == 0
    ensures StepN(s, n).regs[0] == 0 && StepN(s, n).mem.Keys == s.mem.Keys
  {
    hide Step;
    if n > 0 {
      RegisterAStaysZero(s, n - 1);
      if Step(StepN(s, n - 1)).Next? { StepKeepsZero(StepN(s, n - 1)); }
    }
  }

  lemma StepKeepsZero(s: State)
    requires s.regs[0] == 0 && Step(s).Next?
    ensures Step(s).state.regs[0] == 0 && Step(s).state.mem.Keys == s.mem.Keys
  {
    hide Rhs, Operands, Decode;
  }

  // ----- The interpreter (src/sim.c) -----

  /** struct sim_state, as far as run_instruction and interp_run_sim use it. */
  class Simulator {
    var regs: Regs
    var mem: Memory
    var insnsExecuted: nat

    constructor (s: State)
      ensures regs == s.regs && mem == s.mem && insnsExecuted == 0
    {
      regs, mem, insnsExecuted := s.regs, s.mem, 0;
    }

    ghost function Machine(): State
      reads this
    {
      State(regs, mem)
    }

    /** The first switch of do_op: the immediate's position among p[2] op p[1] + p[0]. */
    static method PlaceOperands(kind: nat, x: Word, y: Word, imm: nat) returns (p: seq<Word>)
      requires kind < 4 && imm < (if kind == 3 then 0x10_0000 else 0x1000)
      ensures kind == 0 ==> p == [SignExtend12(imm), y, x]
      ensures kind == 1 ==> p == [y, SignExtend12(imm), x]
      ensures kind == 2 ==> p == [y, x, SignExtend12(imm)]
      ensures kind == 3 ==> p == [SignExtend20(imm), x, 0]
    {
      p := [0, 0, 0];
      if kind < 3 {
        p := p[kind := SignExtend12(imm)];
        p := p[(if kind > 1 then 1 else 2) := x];
        p := p[(if kind > 0 then 0 else 1) := y];
      } else {
        p := [SignExtend20(imm), x, 0];
      }
    }

    /** The second switch of do_op. */
    static method DoOp(op: Op, p: seq<Word>) returns (rhs: Word)
      requires |p| == 3 && Defined(op, p[1])
      ensures rhs == Rhs(op, p[2], p[1], p[0])
    {
      match op
      case OpAdd => rhs := Plus(Plus(p[2], p[1]), p[0]);
      case OpSub => rhs := Plus(Minus(p[2], p[1]), p[0]);
      case OpMul => rhs := Plus(Times(p[2], p[1]), p[0]);
      case OpSrl => rhs := Plus(Shr(p[2], p[1]), p[0]);
      case OpSra => rhs := Plus(Sar(p[2], p[1]), p[0]);
      case OpShl => if p[1] >= 32 { rhs := 0; } else { rhs := Plus(Shl(p[2], p[1]), p[0]); }
      case OpLt => rhs := Minus(p[0], if Signed(p[2]) < Signed(p[1]) then 1 else 0);
      case OpEq => rhs := Minus(p[0], if Signed(p[2]) == Signed(p[1]) then 1 else 0);
      case OpGe => rhs := Minus(p[0], if Signed(p[2]) >= Signed(p[1]) then 1 else 0);
      case OpAnd => rhs := Plus(And(p[2], p[1]), p[0]);
      case OpAndn => rhs := Plus(And(p[2], Not(p[1])), p[0]);
      case OpOr => rhs := Plus(Or(p[2], p[1]), p[0]);
      case OpOrn => rhs := Plus(Or(p[2], Not(p[1])), p[0]);
      case OpXor => rhs := Plus(Xor(p[2], p[1]), p[0]);
      case OpPack => rhs := Plus(Or(Shl(p[2], 12), And(p[1], 0xfff)), p[0]);
      case OpTest =>
        // a & (1 << b), a one-bit mask
        MaskedBit(p[2], p[1]);
        rhs := Minus(p[0], if And(p[2], OneBit(p[1])) != 0 then 1 else 0);
    }

    /** run_instruction with do_common inlined: true means a failed memory access. */
    method RunInstruction(i: Insn) returns (fault: bool)
      requires i.WellFormed()
      requires Execute(Machine(), i) != Undefined
      modifies this`regs, this`mem
      ensures fault == (old(Execute(Machine(), i)) == Fault)
      ensures !fault ==> old(Execute(Machine(), i)) == Next(Machine())
      ensures fault ==> Machine() == State(old(regs)[P := Plus(old(regs)[P], 1)], old(mem))
    {
      hide Rhs;
      regs := regs[P := Plus(regs[P], 1)];
      var y: Word := if i.Small? then regs[i.y] else 0;
      var kind := if i.Small? then i.p else 3;
      var op := if i.Small? then i.op else OpOr;
      var p := PlaceOperands(kind, regs[i.x], y, i.imm);
      var rhs := DoOp(op, p);

      var loading, storing, arrowRight := i.dd == 3, i.dd == 1 || i.dd == 2, i.dd == 1;
      // the source and destination cells are Z and rhs, crossed over by the arrow
      var source := if arrowRight then regs[i.z] else rhs;
      var dest := if arrowRight then rhs else regs[i.z];
      var value := source;
      if loading {
        if source !in mem { return true; }
        value := mem[source];
      }
      if storing {
        if dest !in mem { return true; }
        mem := mem[dest := value];
      } else if i.z != 0 {
        regs := regs[i.z := value];
      }
      fault := false;
    }

    /** One pass of the interp_run_sim loop: -1 to stop, 1 for a fault, 0 to go round again. */
    method InterpStep() returns (rc: int)
      requires Step(Machine()) != Undefined
      modifies this
      ensures rc == 0 <==> old(Step(Machine())).Next?
      ensures rc == 0 ==> Next(Machine()) == old(Step(Machine())) && insnsExecuted == old(insnsExecuted) + 1
      ensures rc == -1 <==> old(regs[P] == END_ADDRESS || regs[P] !in mem)
      ensures rc != 0 ==> insnsExecuted == old(insnsExecuted)
      ensures rc == 1 <==> old(regs[P] != END_ADDRESS && regs[P] in mem && Step(Machine()) == Fault)
      ensures rc == 1 ==> Machine() == State(old(regs)[P := Plus(old(regs)[P], 1)], old(mem))
      ensures rc == -1 ==> Machine() == old(Machine())
      ensures rc == -1 || rc == 0 || rc == 1
    {
      if regs[P] == END_ADDRESS { return -1; }
      if regs[P] !in mem { return -1; }
      var fault := RunInstruction(Decode(mem[regs[P]]));
      if fault { return 1; }
      insnsExecuted := insnsExecuted + 1;
      rc := 0;
    }

    /** interp_run_sim for at most `budget` instructions, with tsim's counting hook. */
    method InterpRunSim(budget: nat) returns (rc: int)
      requires forall n: nat :: Step(StepN(Machine(), n)) != Undefined
      modifies this
      ensures old(insnsExecuted) <= insnsExecuted <= old(insnsExecuted) + budget && rc in {-1, 0, 1}
      ensures rc == 0 <==> insnsExecuted == old(insnsExecuted) + budget
      ensures var n: nat := insnsExecuted - old(insnsExecuted);
              var t := StepN(old(Machine()), n);
              && (rc == -1 <==> n < budget && (t.regs[P] == END_ADDRESS || t.regs[P] !in t.mem))
              && (rc == 1 <==> n < budget && t.regs[P] != END_ADDRESS && t.regs[P] in t.mem && Step(t) == Fault)
              && Machine() == (if rc == 1 then State(t.regs[P := Plus(t.regs[P], 1)], t.mem) else t)
              && forall i: nat | i < n :: Step(StepN(old(Machine()), i)).Next?
    {
      hide Step;
      ghost var start := Machine();
      rc := 0;
      for done := 0 to budget
        invariant insnsExecuted == old(insnsExecuted) + done && rc == 0
        invariant Machine() == StepN(start, done)
        invariant forall i: nat | i < done :: Step(StepN(start, i)).Next?
      {
        assert Step(StepN(start, done)) != Undefined;
        rc := InterpStep();
        if rc != 0 { return; }
      }
    }
  }
}
