/** Right-hand sides of the assembly language, what they mean, and the instructions the
    parser makes of them (src/parser.y). Expressions are taken after evaluation. */
module Syntax {
  import opened Options
  import opened Words
  import opened Isa

  /** A binary operator as written; `>` and `<=` exist only in the assembler. */
  datatype Binop = Native(op: Op) | Greater | LessEqual

  datatype Unop = Complement | Negate

  /** A constant expression's value, and whether it was written as a bit string. */
  datatype Const = Const(v: Word, bits: bool)

  /** The productions of rhs_plain. */
  datatype Rhs =
    | RegRegConst(x: RegNo, op: Binop, y: RegNo, minus: bool, k: Const)
    | RegReg(x: RegNo, op: Binop, y: RegNo)
    | Reg(x: RegNo)
    | RegConstReg(x: RegNo, op: Binop, k: Const, y: RegNo)
    | RegConst(x: RegNo, op: Binop, k: Const)
    | ConstRegReg(k: Const, op: Binop, x: RegNo, y: RegNo)
    | ConstReg(k: Const, op: Binop, x: RegNo)
    | JustConst(k: Const)
    | UnaryConst(uop: Unop, x: RegNo, minus: bool, k: Const)
    | UnaryReg(uop: Unop, x: RegNo, y: RegNo)
    | Unary(uop: Unop, x: RegNo)

  // ----- Meaning -----

  predicate DefinedAs(op: Binop, b: Word) {
    op.Native? ==> Defined(op.op, b)
  }

  /** `a op b + c` with the operators of the language. */
  function Meant(op: Binop, a: Word, b: Word, c: Word): Word
    requires DefinedAs(op, b)
  {
    match op
    case Native(o) => Isa.Rhs(o, a, b, c)
    case Greater => Plus(Mask(Signed(a) > Signed(b)), c)
    case LessEqual => Plus(Mask(Signed(a) <= Signed(b)), c)
  }

  function MeantUnary(op: Unop, a: Word): Word {
    if op.Complement? then Not(a) else Minus(0, a)
  }

  function Signum(minus: bool, v: Word): Word {
    if minus then Minus(0, v) else v
  }

  /** The right operand of the binary operator, as far as shifts are concerned. */
  predicate HasMeaning(e: Rhs, r: Regs) {
    match e
    case RegRegConst(_, op, y, _, _) => DefinedAs(op, r[y])
    case RegReg(_, op, y) => DefinedAs(op, r[y])
    case RegConstReg(_, op, k, _) => DefinedAs(op, k.v)
    case RegConst(_, op, k) => DefinedAs(op, k.v)
    case ConstRegReg(_, op, x, _) => DefinedAs(op, r[x])
    case ConstReg(_, op, x) => DefinedAs(op, r[x])
    case _ => true
  }

  function Meaning(e: Rhs, r: Regs): Word
    requires HasMeaning(e, r)
  {
    match e
    case RegRegConst(x, op, y, minus, k) => Meant(op, r[x], r[y], Signum(minus, k.v))
    case RegReg(x, op, y) => Meant(op, r[x], r[y], 0)
    case Reg(x) => r[x]
    case RegConstReg(x, op, k, y) => Meant(op, r[x], k.v, r[y])
    case RegConst(x, op, k) => Meant(op, r[x], k.v, 0)
    case ConstRegReg(k, op, x, y) => Meant(op, k.v, r[x], r[y])
    case ConstReg(k, op, x) => Meant(op, k.v, r[x], 0)
    case JustConst(k) => k.v
    case UnaryConst(op, x, minus, k) => Plus(MeantUnary(op, r[x]), Signum(minus, k.v))
    case UnaryReg(op, x, y) => Plus(MeantUnary(op, r[x]), r[y])
    case Unary(op, x) => MeantUnary(op, r[x])
  }

  // ----- The parser's choices -----

  /** struct expr: `kind` is the instruction type, `k` the constant before its multiplier. */
  datatype Chosen = Chosen(kind: nat, x: RegNo, op: Op, y: RegNo, minus: bool, k: Option<Word>)

  /** make_rhs: swapped operators change the order of operands or the type. */
  function MakeRhs(kind: nat, x: RegNo, op: Binop, y: RegNo, minus: bool, k: Option<Word>): Chosen {
    match op
    case Native(o) => Chosen(kind, x, o, y, minus, k)
    case _ =>
      var o := if op.Greater? then OpLt else OpGe;
      if kind == 0 then Chosen(0, y, o, x, minus, k)
      else if kind == 1 then Chosen(2, x, o, y, minus, k)
      else Chosen(1, x, o, y, minus, k)
  }

  function MakeUnary(op: Unop, x: RegNo, y: RegNo, minus: bool, k: Option<Word>): Chosen {
    var o := if op.Complement? then OpOrn else OpSub;
    if k.Some? then MakeRhs(0, 0, Native(o), x, minus, k) else MakeRhs(2, x, Native(o), y, minus, k)
  }

  predicate Fits12(v: Word) { v < 0x800 || v >= 0xffff_f800 }
  predicate Fits20(v: Word) { v < 0x8_0000 || v >= 0xfff8_0000 }

  /** is_type3: wide constants and bit strings want the 20-bit form. */
  predicate IsType3(k: Const) { k.bits || !Fits12(k.v) }

  function Choose(e: Rhs): Chosen {
    match e
    case RegRegConst(x, op, y, minus, k) => MakeRhs(0, x, op, y, minus, Some(k.v))
    case RegReg(x, op, y) => MakeRhs(0, x, op, y, false, None)
    case Reg(x) => MakeRhs(0, x, Native(OpOr), 0, false, None)
    case RegConstReg(x, op, k, y) => MakeRhs(1, x, op, y, false, Some(k.v))
    case RegConst(x, op, k) =>
      var sum := op == Native(OpAdd) || op == Native(OpSub);
      var minus := op == Native(OpSub);
      MakeRhs(if sum && IsType3(k) then 3 else 1, x, if minus then Native(OpAdd) else op, 0, minus, Some(k.v))
    case ConstRegReg(k, op, x, y) => MakeRhs(2, x, op, y, false, Some(k.v))
    case ConstReg(k, op, x) => MakeRhs(2, x, op, 0, false, Some(k.v))
    case JustConst(k) => MakeRhs(if IsType3(k) then 3 else 0, 0, Native(OpOr), 0, false, Some(k.v))
    case UnaryConst(op, x, minus, k) => MakeUnary(op, x, 0, minus, Some(k.v))
    case UnaryReg(op, x, y) => MakeUnary(op, x, y, false, None)
    case Unary(op, x) => MakeUnary(op, x, 0, false, None)
  }

  /** The multiplied constant that goes into the immediate field. */
  function FieldOf(c: Chosen): Word {
    if c.k.None? then 0 else Signum(c.minus, c.k.value)
  }

  predicate FieldFits(c: Chosen) {
    if c.kind == 3 then Fits20(FieldOf(c)) else Fits12(FieldOf(c))
  }

  /** A constant next to `^^` is never reported as too wide. */
  predicate Accepted(c: Chosen) {
    FieldFits(c) || c.op.OpPack?
  }

  function ToInsn(dd: Deref, z: RegNo, c: Chosen): (i: Insn)
    requires c.kind < 4
    ensures i.WellFormed()
  {
    if c.kind == 3 then Medium(dd, z, c.x, FieldOf(c) % 0x10_0000)
    else Small(c.kind, dd, z, c.x, c.y, c.op, FieldOf(c) % 0x1000)
  }

  // ----- Encoding keeps the meaning -----

  /** The value the processor computes for an encoded right-hand side. */
  function Computed(i: Insn, r: Regs): Word
    requires i.WellFormed() && Defined(OpField(i), Operands(i, r).1)
  {
    var (a, b, c) := Operands(i, r);
    Isa.Rhs(OpField(i), a, b, c)
  }

  /** Exactly the constants that survive being cut to their field. `^^` with its constant on
      the right uses 12 bits anyway, and on the left 20; as an addend it has to fit. */
  predicate Survives(c: Chosen) {
    || FieldFits(c)
    || (c.op.OpPack? && c.kind == 1)
    || (c.op.OpPack? && c.kind == 2 && SignExtend12(FieldOf(c) % 0x1000) % 0x10_0000 == FieldOf(c) % 0x10_0000)
  }

  lemma Extend12(v: Word)
    ensures SignExtend12(v % 0x1000) == v <==> Fits12(v)
    ensures SignExtend12(v % 0x1000) % 0x1000 == v % 0x1000
  {
  }

  lemma Extend20(v: Word)
    ensures SignExtend20(v % 0x10_0000) == v <==> Fits20(v)
  {
  }

  lemma ChosenKind(e: Rhs)
    ensures Choose(e).kind < 4
  {
  }

  /** The instruction keeps the meaning exactly when its constant survives. */
  ghost predicate Faithful(e: Rhs, r: Regs, dd: Deref, z: RegNo)
    requires Choose(e).kind < 4 && HasMeaning(e, r)
  {
    var c := Choose(e);
    var i := ToInsn(dd, z, c);
    && Defined(OpField(i), Operands(i, r).1)
    && (Computed(i, r) == Meaning(e, r) <==> Survives(c))
  }

  /** `x + k` or `x - k`. */
  predicate IsSum(e: Rhs) {
    e.RegConst? && (e.op == Native(OpAdd) || e.op == Native(OpSub))
  }

  /** The constant is added last, and not to a shift that discards it. */
  predicate AddendShows(e: Rhs, r: Regs) {
    (Choose(e).kind in {0, 3} || IsSum(e)) && !(e.RegRegConst? && e.op == Native(OpShl) && r[e.y] >= 32)
  }

  /** Desugaring preserves meaning, for every right-hand side the assembler accepts and
      every register contents in which A is zero; with the constant as addend, also for those
      that it would refuse. */
  lemma DesugarExact(e: Rhs, r: Regs, dd: Deref, z: RegNo)
    requires HasMeaning(e, r) && r[0] == 0 && (Accepted(Choose(e)) || AddendShows(e, r))
    ensures Choose(e).kind < 4 && Faithful(e, r, dd, z)
  {
    hide Combine, Survives, FieldFits, Or, And, Shl, Not;
    match e
    case RegRegConst(x, op, y, minus, k) => FirstForm(e, r, dd, z);
    case RegReg(x, op, y) => FirstForm(e, r, dd, z);
    case Reg(x) => PlainForm(e, r, dd, z);
    case RegConstReg(x, op, k, y) => SecondForm(e, r, dd, z);
    case RegConst(x, op, k) => if op.Native? && (op.op.OpAdd? || op.op.OpSub?) { SumForm(e, r, dd, z); } else { SecondForm(e, r, dd, z); }
    case ConstRegReg(k, op, x, y) => SecondForm(e, r, dd, z);
    case ConstReg(k, op, x) => SecondForm(e, r, dd, z);
    case JustConst(k) => PlainForm(e, r, dd, z);
    case UnaryConst(op, x, minus, k) => UnaryForm(e, r, dd, z);
    case UnaryReg(op, x, y) => UnaryForm(e, r, dd, z);
    case Unary(op, x) => UnaryForm(e, r, dd, z);
  }

  /** Constant, if any, as the addend. */
  lemma FirstForm(e: Rhs, r: Regs, dd: Deref, z: RegNo)
    requires e.RegRegConst? || e.RegReg?
    requires HasMeaning(e, r) && r[0] == 0 && (Accepted(Choose(e)) || AddendShows(e, r))
    ensures Choose(e).kind < 4 && Faithful(e, r, dd, z)
  {
    hide Signed, Or, And, Shl, Sar, Shr, Xor, Bit, SignExtend12;
    var f := FieldOf(Choose(e));
    Extend12(f);
    Extend12(0);
    if e.op.Native? {
      if !(e.op.op.OpShl? && r[e.y] >= 32) {
        AddRight(SignExtend12(f % 0x1000), f, Combine(e.op.op, r[e.x], r[e.y]));
      }
    } else {
      hide Plus, Mask;
      AddRight(SignExtend12(f % 0x1000), f, Mask(Signed(r[e.x]) > Signed(r[e.y])));
      AddRight(SignExtend12(f % 0x1000), f, Mask(Signed(r[e.x]) <= Signed(r[e.y])));
    }
  }

  /** Constant as an operand, on either side. */
  lemma SecondForm(e: Rhs, r: Regs, dd: Deref, z: RegNo)
    requires e.RegConstReg? || e.RegConst? || e.ConstRegReg? || e.ConstReg?
    requires e.RegConst? ==> e.op != Native(OpAdd) && e.op != Native(OpSub)
    requires HasMeaning(e, r) && Accepted(Choose(e)) && r[0] == 0
    ensures Choose(e).kind < 4 && Faithful(e, r, dd, z)
  {
    hide Signed, Or, And, Shl, Sar, Shr, Xor, Bit;
    var f := FieldOf(Choose(e));
    Extend12(f);
    if e.op == Native(OpPack) {
      PackForm(e, r, dd, z);
    }
  }

  lemma PackForm(e: Rhs, r: Regs, dd: Deref, z: RegNo)
    requires e.RegConstReg? || e.RegConst? || e.ConstRegReg? || e.ConstReg?
    requires e.op == Native(OpPack) && r[0] == 0
    ensures Choose(e).kind < 4 && Faithful(e, r, dd, z)
  {
    hide Or, And, Shl, SignExtend12;
    var f, ext := e.k.v, SignExtend12(e.k.v % 0x1000);
    Extend12(f);
    if e.RegConstReg? || e.RegConst? {
      AndFff(f);
      AndFff(ext);
    } else {
      var low := And(r[e.x], 0xfff);
      PackSame(ext, f, r[e.x]);
      AddRight(Or(Shl(ext, 12), low), Or(Shl(f, 12), low), if e.ConstReg? then 0 else r[e.y]);
    }
  }

  /** `x + k` and `x - k`: always an addition, of the short or the long kind. */
  lemma SumForm(e: Rhs, r: Regs, dd: Deref, z: RegNo)
    requires IsSum(e) && r[0] == 0
    ensures Choose(e).kind < 4 && Faithful(e, r, dd, z)
  {
    hide Or, SignExtend12, SignExtend20, Plus, Minus;
    var f := FieldOf(Choose(e));
    Extend12(f);
    Extend20(f);
    OrWithZero(r[e.x]);
    AddNegative(r[e.x], e.k.v);
    AddRight(SignExtend20(f % 0x10_0000), f, r[e.x]);
    AddRight(SignExtend12(f % 0x1000), f, r[e.x]);
    AddZero(Plus(r[e.x], SignExtend12(f % 0x1000)));
  }

  lemma AddZero(x: Word)
    ensures Plus(x, 0) == x
  {
  }

  lemma AddNegative(x: Word, v: Word)
    ensures Plus(x, Minus(0, v)) == Minus(x, v)
    ensures Plus(Plus(x, v), 0) == Plus(x, v) && Plus(Minus(x, v), 0) == Minus(x, v)
  {
    hide Wrap;
    WrapPlus(x, 0 - v);
    WrapPlus(x + v, 0);
    WrapPlus(x - v, 0);
  }

  /** A lone register or constant is or-ed with register A. */
  lemma PlainForm(e: Rhs, r: Regs, dd: Deref, z: RegNo)
    requires e.Reg? || e.JustConst?
    requires r[0] == 0
    ensures Choose(e).kind < 4 && Faithful(e, r, dd, z)
  {
    hide Or, SignExtend12, SignExtend20;
    if e.JustConst? {
      Extend12(e.k.v);
      Extend20(e.k.v);
    } else {
      assert SignExtend12(0) == 0 by { Extend12(0); }
      OrWithZero(r[e.x]);
    }
    OrWithZero(0);
  }

  /** `~` and `-` as `A |~ x` and `A - x`, or with a zero constant on the left. */
  lemma UnaryForm(e: Rhs, r: Regs, dd: Deref, z: RegNo)
    requires e.UnaryConst? || e.UnaryReg? || e.Unary?
    requires r[0] == 0
    ensures Choose(e).kind < 4 && Faithful(e, r, dd, z)
  {
    hide Or, SignExtend12, Plus, Minus, Not;
    var f, v := FieldOf(Choose(e)), MeantUnary(e.uop, r[e.x]);
    Extend12(f);
    Extend12(0);
    OrWithZero(Not(r[e.x]));
    AddRight(SignExtend12(f % 0x1000), f, v);
    AddZero(v);
  }

  /** Next to `^^` a constant too wide for its field is cut without a word. The instruction is
      then wrong in every state when the constant is the addend, wrong in every state when it is
      the left operand and the 20 bits kept of it change, and always right when it is the right. */
  lemma WidePack(e: Rhs, r: Regs, dd: Deref, z: RegNo)
    requires HasMeaning(e, r) && r[0] == 0 && Choose(e).op.OpPack? && Choose(e).kind < 3
    ensures var c := Choose(e);
            var f := FieldOf(c);
            && Accepted(c) && Defined(OpField(ToInsn(dd, z, c)), Operands(ToInsn(dd, z, c), r).1)
            && (Computed(ToInsn(dd, z, c), r) != Meaning(e, r)
                <==> !Fits12(f) && (c.kind == 0 || (c.kind == 2 && SignExtend12(f % 0x1000) % 0x10_0000 != f % 0x10_0000)))
  {
    hide Combine, SignExtend12, Choose, Operands, Computed, Meaning;
    DesugarExact(e, r, dd, z);
  }

  // ----- Whole instructions -----

  /** `Z <- rhs`, `Z -> [rhs]`, `[Z] <- rhs` and `Z <- [rhs]`. */
  datatype Stmt = Stmt(z: RegNo, lhsDeref: bool, right: bool, rhsDeref: bool, rhs: Rhs)

  /** The grammar's two complaints about arrows. */
  predicate ArrowOk(t: Stmt) {
    !(t.lhsDeref && t.rhsDeref) && (t.right ==> t.rhsDeref)
  }

  /** make_insn_general: the two bits of dd. */
  function DerefBits(t: Stmt): Deref {
    (if t.lhsDeref || (!t.right && t.rhsDeref) then 2 else 0) + (if t.rhsDeref then 1 else 0)
  }

  function AssembleStmt(t: Stmt): Option<Insn> {
    ChosenKind(t.rhs);
    if ArrowOk(t) && Accepted(Choose(t.rhs)) then Some(ToInsn(DerefBits(t), t.z, Choose(t.rhs))) else None
  }

  /** What a statement does, in the language's own terms. */
  function Effect(t: Stmt, s: State): Outcome
    requires HasMeaning(t.rhs, s.regs[P := Plus(s.regs[P], 1)])
  {
    var r := s.regs[P := Plus(s.regs[P], 1)];
    var v := Meaning(t.rhs, r);
    if t.right then
      (if v in s.mem then Next(State(r, s.mem[v := r[t.z]])) else Fault)
    else if t.lhsDeref then
      (if r[t.z] in s.mem then Next(State(r, s.mem[r[t.z] := v])) else Fault)
    else if t.rhsDeref then
      (if v in s.mem then Next(State(SetReg(r, t.z, s.mem[v]), s.mem)) else Fault)
    else Next(State(SetReg(r, t.z, v), s.mem))
  }

  /** Running the encoded word does what the statement says. */
  lemma StatementMeaning(t: Stmt, s: State)
    requires AssembleStmt(t).Some? && s.regs[0] == 0
    requires HasMeaning(t.rhs, s.regs[P := Plus(s.regs[P], 1)]) && Survives(Choose(t.rhs))
    ensures Execute(s, Decode(Encode(AssembleStmt(t).value))) == Effect(t, s)
  {
    hide Computed, Meaning, Choose, ToInsn, Encode, Decode, Operands, Survives, Accepted;
    var i := AssembleStmt(t).value;
    DecodeEncode(i);
    var r := s.regs[P := Plus(s.regs[P], 1)];
    DesugarExact(t.rhs, r, DerefBits(t), t.z);
    ExecuteIs(s, i);
    InsnFields(t);
  }

  lemma ExecuteIs(s: State, i: Insn)
    requires i.WellFormed()
    ensures var r := s.regs[P := Plus(s.regs[P], 1)];
            Defined(OpField(i), Operands(i, r).1) ==>
              Execute(s, i) == Transfer(r, s.mem, i.dd, i.z, Computed(i, r))
  {
    hide Isa.Rhs, Operands, Transfer;
  }

  lemma InsnFields(t: Stmt)
    requires AssembleStmt(t).Some?
    ensures AssembleStmt(t).value.dd == DerefBits(t) && AssembleStmt(t).value.z == t.z
  {
    hide Choose;
  }
}
