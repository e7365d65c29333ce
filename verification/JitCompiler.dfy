/** The code generator of src/jit.cc, and its agreement with the interpreter. */
module JitCompiler {
  import opened Words
  import opened Isa
  import opened X86

  /** buildOp, with T the scratch register. */
  function BuildOp(op: Op, a: Var, b: Var): seq<Instr> {
    match op
    case OpAdd => [Arith(Add, a, V(b))]
    case OpSub => [Arith(Sub, a, V(b))]
    case OpAndn => [NotVar(b), Arith(And, a, V(b))]
    case OpAnd => [Arith(And, a, V(b))]
    case OpOrn => [NotVar(b), Arith(Or, a, V(b))]
    case OpOr => [Arith(Or, a, V(b))]
    case OpXor => [Arith(Xor, a, V(b))]
    case OpMul => [Arith(Imul, a, V(b))]
    case OpSrl => [Shift(Shr, a, V(b)), Arith(And, b, K(0xffff_ffe0)), Mov(T, K(0)), Cmov(NotZero, a, V(T))]
    case OpShl => [Shift(Sal, a, V(b)), Arith(And, b, K(0xffff_ffe0)), Mov(T, K(0)), Cmov(NotZero, a, V(T))]
    case OpSra =>
      [Mov(T, V(b)), Arith(And, T, K(0xffff_ffe0))] + [Mov(T, K(31)), Cmov(NotZero, b, V(T)), Shift(Sar, a, V(b))]
    case OpPack => [Shift(Sal, a, K(12)), Arith(And, b, K(0xfff)), Arith(Or, a, V(b))]
    case OpTest => [Bt(a, V(b)), Mov(a, K(0)), Sbb(a, V(a))]
    case OpLt => [Mov(T, K(0xffff_ffff)), Cmp(a, V(b)), Mov(a, K(0)), Cmov(Less, a, V(T))]
    case OpEq => [Mov(T, K(0xffff_ffff)), Cmp(a, V(b)), Mov(a, K(0)), Cmov(Equal, a, V(T))]
    case OpGe => [Mov(T, K(0xffff_ffff)), Cmp(a, V(b)), Mov(a, K(0)), Cmov(GreaterEqual, a, V(T))]
  }

  /** What the emitted code computes, for every operand. */
  function Compiled(op: Op, a: Word, b: Word): Word {
    match op
    case OpShl => if b < 32 then Words.Shl(a, b) else 0
    case OpSrl => if b < 32 then Words.Shr(a, b) else 0
    case OpSra => Words.Sar(a, if b < 32 then b else 31)
    case OpTest => Mask(Bit(a, b % 32))
    case _ => Combine(op, a, b)
  }

  /** SF, OF and ZF after a subtraction order its operands as signed numbers. */
  lemma SignedFlags(a: Word, b: Word)
    ensures Holds(Less, SubFlags(a, b)) <==> Signed(a) < Signed(b)
    ensures Holds(GreaterEqual, SubFlags(a, b)) <==> Signed(a) >= Signed(b)
    ensures Holds(Equal, SubFlags(a, b)) <==> a == b
  {
  }

  ghost predicate ComputesOp(op: Op, a: Var, b: Var, c: Var, h: Host, r: Host) {
    && r.v[a] == Compiled(op, h.v[a], h.v[b])
    && r.v[c] == h.v[c]
    && r.regs == h.regs && r.mem == h.mem
  }

  ghost predicate Distinct(a: Var, b: Var, c: Var) {
    a != b && a != c && b != c && T !in {a, b, c}
  }

  /** buildOp leaves `a op b` in a and spares the addend c. */
  lemma BuildOpCorrect(op: Op, a: Var, b: Var, c: Var, h: Host, u: Flags)
    requires Distinct(a, b, c)
    ensures ComputesOp(op, a, b, c, h, Run(BuildOp(op, a, b), h, u))
  {
    hide Words.And, Words.Or, Words.Xor, Words.Shl, Words.Shr, Words.Sar, Words.Bit, Run;
    if op.OpSrl? || op.OpShl? {
      ShiftCorrect(op, a, b, c, h, u);
    } else if op.OpSra? {
      SarCorrect(a, b, c, h, u);
    } else if op.OpLt? {
      CompareCorrect(op, Less, a, b, c, h, u);
    } else if op.OpEq? {
      CompareCorrect(op, Equal, a, b, c, h, u);
    } else if op.OpGe? {
      CompareCorrect(op, GreaterEqual, a, b, c, h, u);
    } else if op.OpPack? || op.OpTest? {
      ThreeCorrect(op, a, b, c, h, u);
    } else if op.OpAndn? || op.OpOrn? {
      Run2(NotVar(b), if op.OpAndn? then Arith(And, a, V(b)) else Arith(Or, a, V(b)), h, u);
    } else {
      Run1(BuildOp(op, a, b)[0], h, u);
    }
  }

  lemma ThreeCorrect(op: Op, a: Var, b: Var, c: Var, h: Host, u: Flags)
    requires Distinct(a, b, c) && (op.OpPack? || op.OpTest?)
    ensures ComputesOp(op, a, b, c, h, Run(BuildOp(op, a, b), h, u))
  {
    hide Words.And, Words.Or, Words.Xor, Words.Shl, Words.Shr, Words.Sar, Words.Bit, Run;
    if op.OpPack? {
      Run3(Shift(Sal, a, K(12)), Arith(And, b, K(0xfff)), Arith(Or, a, V(b)), h, u);
    } else {
      hide Signed;
      Run3(Bt(a, V(b)), Mov(a, K(0)), Sbb(a, V(a)), h, u);
    }
  }

  lemma ShiftCorrect(op: Op, a: Var, b: Var, c: Var, h: Host, u: Flags)
    requires Distinct(a, b, c) && (op.OpSrl? || op.OpShl?)
    ensures ComputesOp(op, a, b, c, h, Run(BuildOp(op, a, b), h, u))
  {
    hide Words.And, Words.Or, Words.Xor, Words.Shl, Words.Shr, Words.Sar, Words.Bit, Run;
    var shift := if op.OpSrl? then Shift(Shr, a, V(b)) else Shift(Sal, a, V(b));
    var h1 := Exec(shift, h, u);
    var h2 := Exec(Arith(And, b, K(0xffff_ffe0)), h1, u);
    assert h2.flags.zf <==> h.v[b] < 32 by { AndNot31(h.v[b]); }
    assert h2.v[a] == h1.v[a] && h2.v[c] == h.v[c] && h2.regs == h.regs && h2.mem == h.mem;
    var h4 := Exec(Cmov(NotZero, a, V(T)), Exec(Mov(T, K(0)), h2, u), u);
    assert ComputesOp(op, a, b, c, h, h4);
    Run4(shift, Arith(And, b, K(0xffff_ffe0)), Mov(T, K(0)), Cmov(NotZero, a, V(T)), h, u);
  }

  lemma SarCorrect(a: Var, b: Var, c: Var, h: Host, u: Flags)
    requires Distinct(a, b, c)
    ensures ComputesOp(OpSra, a, b, c, h, Run(BuildOp(OpSra, a, b), h, u))
  {
    hide Words.And, Words.Or, Words.Xor, Words.Shl, Words.Shr, Words.Sar, Words.Bit, Run;
    var h2 := Exec(Arith(And, T, K(0xffff_ffe0)), Exec(Mov(T, V(b)), h, u), u);
    assert h2.flags.zf <==> h.v[b] < 32 by { AndNot31(h.v[b]); }
    assert h2 == h.(v := h.v[T := h2.v[T]], flags := h2.flags);
    var h4 := Exec(Cmov(NotZero, b, V(T)), Exec(Mov(T, K(31)), h2, u), u);
    assert h4.v[b] == (if h.v[b] < 32 then h.v[b] else 31) && h4.v[a] == h.v[a];
    assert ComputesOp(OpSra, a, b, c, h, Exec(Shift(Sar, a, V(b)), h4, u));
    SarRuns(a, b, h, u);
  }

  lemma SarRuns(a: Var, b: Var, h: Host, u: Flags)
    ensures Run(BuildOp(OpSra, a, b), h, u)
         == Exec(Shift(Sar, a, V(b)), Exec(Cmov(NotZero, b, V(T)), Exec(Mov(T, K(31)),
              Exec(Arith(And, T, K(0xffff_ffe0)), Exec(Mov(T, V(b)), h, u), u), u), u), u)
  {
    var first := [Mov(T, V(b)), Arith(And, T, K(0xffff_ffe0))];
    RunAppend(first, [Mov(T, K(31)), Cmov(NotZero, b, V(T)), Shift(Sar, a, V(b))], h, u);
    Run2(first[0], first[1], h, u);
    Run3(Mov(T, K(31)), Cmov(NotZero, b, V(T)), Shift(Sar, a, V(b)), Run(first, h, u), u);
  }

  lemma CompareCorrect(op: Op, k: Cond, a: Var, b: Var, c: Var, h: Host, u: Flags)
    requires Distinct(a, b, c)
    requires (op, k) in {(OpLt, Less), (OpEq, Equal), (OpGe, GreaterEqual)}
    ensures ComputesOp(op, a, b, c, h, Run(BuildOp(op, a, b), h, u))
  {
    Run4(Mov(T, K(0xffff_ffff)), Cmp(a, V(b)), Mov(a, K(0)), Cmov(k, a, V(T)), h, u);
    SignedFlags(h.v[a], h.v[b]);
  }

  // ----- buildInstruction -----

  /** Reg(n) into d; register A is zero, and P lags behind by the distance into the block. */
  function LoadOperand(d: Var, n: RegNo, offset: nat): seq<Instr> {
    if n == 0 then [Arith(Xor, d, V(d))]
    else if n == P then [LoadReg(d, n), Arith(Add, d, K(Wrap(offset + 1)))]
    else [LoadReg(d, n)]
  }

  /** Which variables play a, b and c. */
  function Roles(p: nat): (Var, Var, Var) {
    if p == 0 then (X, Y, I) else if p == 1 then (X, I, Y) else (I, X, Y)
  }

  function ResultVar(i: Insn): Var {
    if i.Medium? then X else Roles(i.p).0
  }

  function BuildRhs(i: Insn, offset: nat): seq<Instr>
    requires i.WellFormed()
  {
    match i
    case Medium(_, _, x, imm) => LoadOperand(X, x, offset) + [Arith(Add, X, K(SignExtend20(imm)))]
    case Small(p, _, _, x, y, op, imm) =>
      var (a, b, c) := Roles(p);
      LoadOperand(X, x, offset) + (LoadOperand(Y, y, offset) + ([Mov(I, K(SignExtend12(imm)))]
        + (BuildOp(op, a, b) + [Arith(Add, a, V(c))])))
  }

  function BuildTransfer(dd: Deref, z: RegNo, a: Var): seq<Instr> {
    match dd
    case 0 => if z != 0 then [StoreReg(z, a)] else []
    case 1 => [LoadReg(T, z), CallStore(a, T)]
    case 2 => [LoadReg(T, z), CallStore(T, a)]
    case 3 => if z != 0 then [CallFetch(a, T), StoreReg(z, T)] else [CallFetch(a, T)]
  }

  function BuildInstruction(i: Insn, offset: nat): seq<Instr>
    requires i.WellFormed()
  {
    BuildRhs(i, offset) + BuildTransfer(i.dd, i.z, ResultVar(i))
  }

  // ----- One instruction -----

  /** The registers as instruction number `offset` of the block should see them. */
  function Seen(regs: Regs, offset: nat): Regs {
    regs[P := Plus(regs[P], offset + 1)]
  }

  lemma LoadOperandCorrect(d: Var, n: RegNo, offset: nat, h: Host, u: Flags)
    requires h.regs[0] == 0
    ensures var r := Run(LoadOperand(d, n, offset), h, u);
            r == h.(v := h.v[d := Seen(h.regs, offset)[n]], flags := r.flags)
  {
    hide Words.And, Words.Or, Words.Xor, Words.Shl, Words.Shr, Words.Sar, Words.Bit;
    if n == 0 {
      Run1(Arith(Xor, d, V(d)), h, u);
      assert Words.Xor(h.v[d], h.v[d]) == 0 by { XorWithSelf(h.v[d]); }
    } else if n == P {
      Run2(LoadReg(d, n), Arith(Add, d, K(Wrap(offset + 1))), h, u);
      assert Plus(h.regs[P], Wrap(offset + 1)) == Plus(h.regs[P], offset + 1);
    } else {
      Run1(LoadReg(d, n), h, u);
    }
  }

  lemma XorWithSelf(a: Word)
    ensures Words.Xor(a, a) == 0
  {
    XorSelf(a, 32);
  }

  /** What the emitted code computes for the right-hand side. */
  function CompiledRhs(i: Insn, r: Regs): Word
    requires i.WellFormed()
  {
    var (a, b, c) := Operands(i, r);
    if i.Medium? then Plus(b, c) else Plus(Compiled(i.op, a, b), c)
  }

  lemma BuildRhsCorrect(i: Insn, offset: nat, h: Host, u: Flags)
    requires i.WellFormed() && h.regs[0] == 0
    ensures var r := Run(BuildRhs(i, offset), h, u);
            && r.v[ResultVar(i)] == CompiledRhs(i, Seen(h.regs, offset))
            && r.regs == h.regs && r.mem == h.mem
  {
    hide Words.And, Words.Or, Words.Xor, Words.Shl, Words.Shr, Words.Sar, Words.Bit, Run, BuildOp, Compiled;
    LoadOperandCorrect(X, i.x, offset, h, u);
    var h1 := Run(LoadOperand(X, i.x, offset), h, u);
    if i.Medium? {
      RunAppend(LoadOperand(X, i.x, offset), [Arith(Add, X, K(SignExtend20(i.imm)))], h, u);
      Run1(Arith(Add, X, K(SignExtend20(i.imm))), h1, u);
    } else {
      var (a, b, c) := Roles(i.p);
      LoadOperandCorrect(Y, i.y, offset, h1, u);
      var h2 := Run(LoadOperand(Y, i.y, offset), h1, u);
      var k := Mov(I, K(SignExtend12(i.imm)));
      Run1(k, h2, u);
      var h3 := Run([k], h2, u);
      BuildOpCorrect(i.op, a, b, c, h3, u);
      var h4 := Run(BuildOp(i.op, a, b), h3, u);
      Run1(Arith(Add, a, V(c)), h4, u);
      RunAppend(BuildOp(i.op, a, b), [Arith(Add, a, V(c))], h3, u);
      RunAppend([k], BuildOp(i.op, a, b) + [Arith(Add, a, V(c))], h2, u);
      RunAppend(LoadOperand(Y, i.y, offset), [k] + (BuildOp(i.op, a, b) + [Arith(Add, a, V(c))]), h1, u);
      RunAppend(LoadOperand(X, i.x, offset),
        LoadOperand(Y, i.y, offset) + ([k] + (BuildOp(i.op, a, b) + [Arith(Add, a, V(c))])), h, u);
    }
  }

  /** RhsAgrees is exactly where compiled code and interpreter give the same right-hand side. */
  lemma RhsAgreement(i: Insn, r: Regs)
    requires i.WellFormed() && Defined(OpField(i), Operands(i, r).1)
    ensures var (a, b, c) := Operands(i, r);
            CompiledRhs(i, r) == Rhs(OpField(i), a, b, c) <==> RhsAgrees(i, r)
  {
    hide Words.And, Words.Or, Words.Xor, Words.Shl, Words.Shr, Words.Sar, Words.Bit;
    OrWithZero(Operands(i, r).1);
  }

  lemma BuildTransferCorrect(dd: Deref, z: RegNo, a: Var, h: Host, u: Flags)
    requires h.regs[0] == 0 && a != T
    ensures var r := Run(BuildTransfer(dd, z, a), h, u);
            var o := Transfer(h.regs, h.mem, dd, z, h.v[a]);
            o.Next? ==> o == Next(State(r.regs, r.mem))
  {
    var p := BuildTransfer(dd, z, a);
    if |p| == 1 { Run1(p[0], h, u); }
    if |p| == 2 { Run2(p[0], p[1], h, u); }
  }

  predicate WritesP(i: Insn) {
    i.z == P && (i.dd == 0 || i.dd == 3)
  }

  /** The register named Z is P, used as a store's value or address. */
  predicate StoresThroughP(i: Insn) {
    i.z == P && (i.dd == 1 || i.dd == 2)
  }

  /** Inside a block the compiled code lets P lag behind by the instructions done. */
  ghost predicate Tracks(h: Host, s: State, done: nat) {
    h.mem == s.mem && s.regs == h.regs[P := Plus(h.regs[P], done)] && h.regs[0] == 0
  }

  lemma InsnCorrect(i: Insn, offset: nat, h: Host, s: State, u: Flags)
    requires i.WellFormed() && Tracks(h, s, offset)
    requires Execute(s, i).Next? && !StoresThroughP(i) && RhsAgrees(i, Seen(h.regs, offset))
    ensures var r := Run(BuildInstruction(i, offset), h, u);
            var t := Execute(s, i).state;
            if WritesP(i) then t == State(r.regs, r.mem) else Tracks(r, t, offset + 1)
  {
    hide Words.And, Words.Or, Words.Xor, Words.Shl, Words.Shr, Words.Sar, Words.Bit, Run;
    hide BuildRhs, BuildTransfer, CompiledRhs, Rhs, Operands;
    var seen := Seen(h.regs, offset);
    assert s.regs[P := Plus(s.regs[P], 1)] == seen;
    RhsAgreement(i, seen);
    BuildRhsCorrect(i, offset, h, u);
    var h1 := Run(BuildRhs(i, offset), h, u);
    RunAppend(BuildRhs(i, offset), BuildTransfer(i.dd, i.z, ResultVar(i)), h, u);
    BuildTransferCorrect(i.dd, i.z, ResultVar(i), h1, u);
    var rhs := CompiledRhs(i, seen);
    assert Execute(s, i) == Transfer(seen, s.mem, i.dd, i.z, rhs);
    TransferTracks(i, offset, h.regs, h.mem, rhs);
  }

  /** The transfer commutes with bringing P up to date. */
  lemma TransferTracks(i: Insn, offset: nat, regs: Regs, mem: Memory, rhs: Word)
    requires !StoresThroughP(i) && regs[0] == 0
    ensures var late := Transfer(Seen(regs, offset), mem, i.dd, i.z, rhs);
            var lag := Transfer(regs, mem, i.dd, i.z, rhs);
            && late.Next? == lag.Next?
            && (late.Next? ==>
                  && late.state.mem == lag.state.mem
                  && lag.state.regs[0] == 0
                  && (if WritesP(i) then late.state == lag.state
                      else late.state.regs == Seen(lag.state.regs, offset)))
  {
  }

  // ----- Blocks -----

  /** jit_gen_block's instruction stream for the first `n` instructions. */
  function GenCode(code: seq<Insn>, n: nat): seq<Instr>
    requires n <= |code| && forall i <- code :: i.WellFormed()
  {
    if n == 0 then [] else GenCode(code, n - 1) + BuildInstruction(code[n - 1], n - 1)
  }

  /** Straight-line code: only the last instruction writes P. */
  ghost predicate StraightLine(code: seq<Insn>) {
    && |code| > 0
    && (forall i <- code :: i.WellFormed())
    && WritesP(code[|code| - 1])
    && forall k | 0 <= k < |code| - 1 :: !WritesP(code[k])
  }

  /** The interpreter can take a step from `s`, and compiled code agrees with it. */
  ghost predicate Agreeable(s: State, i: Insn)
    requires i.WellFormed()
  {
    && s.regs[P] != END_ADDRESS && s.regs[P] in s.mem && Decode(s.mem[s.regs[P]]) == i
    && Execute(s, i).Next?
    && !StoresThroughP(i)
    && RhsAgrees(i, s.regs[P := Plus(s.regs[P], 1)])
  }

  lemma {:induction false} PrefixCorrect(code: seq<Insn>, n: nat, s: State, h: Host, u: Flags)
    requires StraightLine(code) && n <= |code| - 1
    requires s == State(h.regs, h.mem) && h.regs[0] == 0
    requires forall k | 0 <= k < n :: Agreeable(StepN(s, k), code[k])
    ensures Tracks(Run(GenCode(code, n), h, u), StepN(s, n), n)
  {
    hide BuildInstruction, Execute, Run, Decode, RhsAgrees;
    if n == 0 {
      assert h.regs == h.regs[P := Plus(h.regs[P], 0)];
      RunNothing(h, u);
    } else {
      PrefixCorrect(code, n - 1, s, h, u);
      StepCorrect(code, n - 1, s, h, u);
    }
  }

  lemma RunNothing(h: Host, u: Flags)
    ensures Run([], h, u) == h
  {
  }

  /** Extends a correct prefix by one instruction. */
  lemma StepCorrect(code: seq<Insn>, n: nat, s: State, h: Host, u: Flags)
    requires StraightLine(code) && n < |code|
    requires Agreeable(StepN(s, n), code[n])
    requires Tracks(Run(GenCode(code, n), h, u), StepN(s, n), n)
    ensures var r := Run(GenCode(code, n + 1), h, u);
            if WritesP(code[n]) then StepN(s, n + 1) == State(r.regs, r.mem)
            else Tracks(r, StepN(s, n + 1), n + 1)
  {
    hide BuildInstruction, Run, Decode, Execute, RhsAgrees, StoresThroughP;
    var h1 := Run(GenCode(code, n), h, u);
    var s1 := StepN(s, n);
    assert s1.regs[P := Plus(s1.regs[P], 1)] == Seen(h1.regs, n);
    InsnCorrect(code[n], n, h1, s1, u);
    RunAppend(GenCode(code, n), BuildInstruction(code[n], n), h, u);
    assert Step(s1) == Execute(s1, code[n]);
  }

  /** Compiled-block correctness: from P = base the emitted code ends in the state the
      interpreter reaches after the whole block. */
  lemma BlockCorrect(code: seq<Insn>, s: State, h: Host, u: Flags)
    requires StraightLine(code) && s == State(h.regs, h.mem) && s.regs[0] == 0
    requires forall k | 0 <= k < |code| :: Agreeable(StepN(s, k), code[k])
    ensures var r := Run(GenCode(code, |code|), h, u);
            State(r.regs, r.mem) == StepN(s, |code|)
  {
    hide StepN, Run, GenCode, Agreeable, Tracks, Decode, Execute, RhsAgrees;
    var last := |code| - 1;
    PrefixCorrect(code, last, s, h, u);
    StepCorrect(code, last, s, h, u);
  }

  /** Storing one value at either of two addresses comes to the same only if it was there. */
  lemma TwoCells(mem: Memory, late: Word, lag: Word, w: Word)
    requires late in mem && late != lag
    ensures mem[late := w] == (if lag in mem then mem[lag := w] else mem)
       <==> mem[late] == w && (lag in mem ==> mem[lag] == w)
  {
    var other := if lag in mem then mem[lag := w] else mem;
    assert other[late] == mem[late];
    if mem[late := w] == other {
      assert other[late] == w;
      assert lag in mem ==> mem[late := w][lag] == w;
    }
  }

  /** A store through P (`lag` in the register file, `late` as it should be seen) agrees only
      by coincidence: never as the stored value, and as the address only when the cells
      already hold what is being stored. */
  lemma StoreThroughPAgreement(i: Insn, offset: nat, h: Host, s: State, u: Flags, rhs: Word, lag: Word, late: Word)
    requires i.WellFormed() && Tracks(h, s, offset) && StoresThroughP(i)
    requires offset + 1 < 0x1_0000_0000
    requires Execute(s, i).Next? && RhsAgrees(i, Seen(h.regs, offset))
    requires lag == h.regs[P] && late == Plus(lag, offset + 1) && rhs == CompiledRhs(i, Seen(h.regs, offset))
    ensures Run(BuildInstruction(i, offset), h, u).mem == Execute(s, i).state.mem
       <==> i.dd == 2 && late in h.mem && h.mem[late] == rhs && (lag in h.mem ==> h.mem[lag] == rhs)
  {
    hide Words.And, Words.Or, Words.Xor, Words.Shl, Words.Shr, Words.Sar, Words.Bit, Run;
    hide BuildRhs, CompiledRhs, Rhs, Operands;
    var seen := Seen(h.regs, offset);
    assert s.regs[P := Plus(s.regs[P], 1)] == seen;
    RhsAgreement(i, seen);
    BuildRhsCorrect(i, offset, h, u);
    var h1 := Run(BuildRhs(i, offset), h, u);
    var tail := BuildTransfer(i.dd, i.z, ResultVar(i));
    RunAppend(BuildRhs(i, offset), tail, h, u);
    Run2(tail[0], tail[1], h1, u);
    var r := Run(BuildInstruction(i, offset), h, u);
    assert Execute(s, i) == Transfer(seen, s.mem, i.dd, i.z, rhs);
    assert late != lag;
    if i.dd == 1 {
      assert r.mem[rhs] == lag && Execute(s, i).state.mem[rhs] == late;
    } else {
      assert Execute(s, i).state.mem == h.mem[late := rhs];
      assert r.mem == if lag in h.mem then h.mem[lag := rhs] else h.mem;
      TwoCells(h.mem, late, lag, rhs);
    }
  }
}
