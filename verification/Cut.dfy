/** Which right-hand sides stay right, in every state, when their constant is cut to its field. */
module Cut {
  import opened Words
  import opened Isa
  import opened Syntax

  const NO_REGS: Regs := [0, 0, 0, 0, 0, 0, 0, 0, 0, 0, 0, 0, 0, 0, 0, 0]

  predicate HasConst(e: Rhs) {
    !e.RegReg? && !e.Reg? && !e.UnaryReg? && !e.Unary?
  }

  /** The constant is an operand and not an addend. */
  predicate OperandConst(e: Rhs) {
    (e.RegConstReg? || e.RegConst? || e.ConstRegReg? || e.ConstReg?) && !IsSum(e)
  }

  predicate OnLeft(e: Rhs) {
    e.ConstRegReg? || e.ConstReg?
  }

  /** The register added, A where none is written. */
  function Addend(e: Rhs): RegNo
    requires OperandConst(e)
  {
    if e.RegConstReg? || e.ConstRegReg? then e.y else 0
  }

  /** What the processor makes of a constant in a 12-bit field. */
  function CutTo12(v: Word): Word {
    SignExtend12(v % 0x1000)
  }

  function CutConst(e: Rhs): (f: Rhs)
    requires OperandConst(e)
    ensures OperandConst(f) && f.k.v == CutTo12(e.k.v)
  {
    var k := Const(CutTo12(e.k.v), e.k.bits);
    match e
    case RegConstReg(x, op, _, y) => RegConstReg(x, op, k, y)
    case RegConst(x, op, _) => RegConst(x, op, k)
    case ConstRegReg(_, op, x, y) => ConstRegReg(k, op, x, y)
    case ConstReg(_, op, x) => ConstReg(k, op, x)
  }

  // ----- The operation on a constant and a register -----

  predicate Can(op: Binop, left: bool, k: Word, a: Word) {
    DefinedAs(op, if left then a else k)
  }

  function Applied(op: Binop, left: bool, k: Word, a: Word, c: Word): Word
    requires Can(op, left, k, a)
  {
    if left then Meant(op, k, a, c) else Meant(op, a, k, c)
  }

  /** A shift by a constant, the one operation that can lose its addend. */
  predicate ConstShift(op: Binop, left: bool) {
    op == Native(OpShl) && !left
  }

  /** An operation that has no meaning for a constant of 32 or more. */
  predicate Distance(op: Binop, left: bool) {
    op.Native? && op.op in {OpSra, OpSrl, OpTest} && !left
  }

  lemma OperandMeaning(e: Rhs, r: Regs)
    requires OperandConst(e) && r[0] == 0
    ensures HasMeaning(e, r) <==> Can(e.op, OnLeft(e), e.k.v, r[e.x])
    ensures HasMeaning(e, r) ==> Meaning(e, r) == Applied(e.op, OnLeft(e), e.k.v, r[e.x], r[Addend(e)])
  {
    hide Meant;
  }

  lemma CutIs(v: Word)
    ensures Fits12(CutTo12(v)) && CutTo12(v) % 0x1000 == v % 0x1000
    ensures CutTo12(v) == v <==> Fits12(v)
  {
    Extend12(v);
  }

  ghost predicate RightIn(e: Rhs, r: Regs, dd: Deref, z: RegNo)
    requires HasMeaning(e, r)
  {
    var c := Choose(e);
    && c.kind < 4
    && var i := ToInsn(dd, z, c); Defined(OpField(i), Operands(i, r).1) && Computed(i, r) == Meaning(e, r)
  }

  /** The instruction computes the meaning in every state in which there is one. */
  ghost predicate RightEverywhere(e: Rhs, dd: Deref, z: RegNo) {
    forall r: Regs | r[0] == 0 && HasMeaning(e, r) :: RightIn(e, r, dd, z)
  }

  /** The instruction computes what would be meant with the cut constant. */
  lemma CutComputes(e: Rhs, r: Regs, dd: Deref, z: RegNo)
    requires OperandConst(e) && r[0] == 0 && HasMeaning(e, r)
    ensures HasMeaning(CutConst(e), r)
    ensures RightIn(e, r, dd, z) <==> Meaning(CutConst(e), r) == Meaning(e, r)
  {
    hide Computed, Meaning, Operands, CutTo12;
    var f := CutConst(e);
    CutIs(e.k.v);
    CutIs(f.k.v);
    assert ToInsn(dd, z, Choose(e)) == ToInsn(dd, z, Choose(f));
    assert FieldFits(Choose(f));
    hide Choose;
    DesugarExact(f, r, dd, z);
  }

  // ----- Bits -----

  lemma ArithmeticNeutral(a: Word)
    ensures Plus(0, a) == a == Plus(a, 0) && Minus(a, 0) == a && Times(1, a) == a == Times(a, 1)
    ensures Times(0, a) == 0 == Times(a, 0)
  {
  }

  lemma ShiftNeutral(a: Word)
    ensures Shl(a, 0) == Shr(a, 0) == Sar(a, 0) == a
  {
  }

  lemma MinusInjective(a: Word, b: Word)
    ensures Minus(0, a) == Minus(0, b) <==> a == b
  {
  }

  /** Two different words differ in a bit. */
  lemma DifferentBit(a: Word, b: Word) returns (i: Word)
    requires a != b
    ensures i < 32 && Bit(a, i) != Bit(b, i)
  {
    Pow2Of32();
    if forall j :: 0 <= j < 32 ==> Bit(a, j) == Bit(b, j) {
      BitsDetermine(a, b, 32);
    }
    i :| 0 <= i < 32 && Bit(a, i) != Bit(b, i);
  }

  // ----- Where a cut constant shows -----

  /** Comparison as the operation makes it. */
  predicate Holds(op: Binop, a: Word, b: Word) {
    match op
    case Greater => Signed(a) > Signed(b)
    case LessEqual => Signed(a) <= Signed(b)
    case Native(OpLt) => Signed(a) < Signed(b)
    case Native(OpGe) => Signed(a) >= Signed(b)
    case Native(_) => a == b
  }

  predicate Compares(op: Binop) {
    op.Native? ==> op.op in {OpLt, OpEq, OpGe}
  }

  /** With register A, which is zero, the operations that look at nothing of the constant that
      is lost, and comparisons that come out the same. */
  predicate ZeroHides(op: Binop, left: bool, v: Word, t: Word) {
    if Compares(op) then
      (if left then Holds(op, v, 0) == Holds(op, t, 0) else Holds(op, 0, v) == Holds(op, 0, t))
    else match op.op
      case OpAnd => true
      case OpMul => true
      case OpAndn => !left
      case OpOrn => left
      case OpTest => left
      case _ => false
  }

  lemma ComparisonIs(op: Binop, left: bool, k: Word, a: Word)
    requires Compares(op)
    ensures Can(op, left, k, a)
    ensures Applied(op, left, k, a, 0) == Mask(if left then Holds(op, k, a) else Holds(op, a, k))
  {
    var b := if left then Holds(op, k, a) else Holds(op, a, k);
    ArithmeticNeutral(Mask(b));
    hide Plus, Signed;
  }

  /** The addend decides nothing. */
  lemma AddendCancels(op: Binop, left: bool, v: Word, t: Word, a: Word, c: Word)
    requires Can(op, left, v, a) && Can(op, left, t, a)
    requires op == Native(OpShl) ==> left
    ensures Applied(op, left, v, a, c) == Applied(op, left, t, a, c) <==> Applied(op, left, v, a, 0) == Applied(op, left, t, a, 0)
  {
    hide Combine, Plus, Signed, Mask;
    var p, q := if left then v else a, if left then t else a;
    var m, n := if left then a else v, if left then a else t;
    if op.Native? {
      if !(op.op.OpShl? && a >= 32) {
        SameSum(Combine(op.op, p, m), Combine(op.op, q, n), c);
      }
    } else {
      SameSum(Mask(Signed(p) > Signed(m)), Mask(Signed(q) > Signed(n)), c);
      SameSum(Mask(Signed(p) <= Signed(m)), Mask(Signed(q) <= Signed(n)), c);
    }
  }

  lemma SameSum(x: Word, y: Word, c: Word)
    ensures Plus(x, c) == Plus(y, c) <==> Plus(x, 0) == Plus(y, 0)
  {
    AddRight(x, y, c);
    AddRight(x, y, 0);
  }

  /** Register A. */
  lemma ZeroShows(op: Binop, left: bool, v: Word, t: Word)
    requires v != t && v % 2 == t % 2 && !ConstShift(op, left) && !Distance(op, left) && op != Native(OpPack)
    ensures Applied(op, left, v, 0, 0) == Applied(op, left, t, 0, 0) <==> ZeroHides(op, left, v, t)
  {
    if Compares(op) {
      ComparisonIs(op, left, v, 0);
      ComparisonIs(op, left, t, 0);
    } else {
      ZeroGives(op.op, left, v);
      ZeroGives(op.op, left, t);
      MinusInjective(v, t);
      hide Applied;
    }
  }

  /** `k op 0` or `0 op k`, other than comparisons. */
  function WithZero(op: Op, left: bool, k: Word): Word {
    match op
    case OpAnd => 0
    case OpMul => 0
    case OpAndn => if left then k else 0
    case OpOrn => if left then ALL_ONES else Not(k)
    case OpTest => Mask(left && k % 2 == 1)
    case OpSub => if left then k else Minus(0, k)
    case OpSra => if left then k else 0
    case OpSrl => if left then k else 0
    case _ => k
  }

  lemma ZeroGives(op: Op, left: bool, k: Word)
    requires op !in {OpLt, OpEq, OpGe, OpPack} && !ConstShift(Native(op), left)
    requires !Distance(Native(op), left)
    ensures Applied(Native(op), left, k, 0, 0) == WithZero(op, left, k)
  {
    Neutral(k);
    Neutral(Not(k));
    ArithmeticNeutral(k);
    ArithmeticNeutral(WithZero(op, left, k));
    ShiftNeutral(k);
    hide And, Or, Xor, Plus, Minus, Times, Shl, Shr, Sar;
  }

  /** The register value that brings the difference out. */
  function Telling(op: Binop, left: bool, v: Word, t: Word): Word {
    var low, high := if Signed(v) < Signed(t) then v else t, if Signed(v) < Signed(t) then t else v;
    match op
    case Greater => if left then low else high
    case LessEqual => if left then low else high
    case Native(OpLt) => if left then high else low
    case Native(OpGe) => if left then high else low
    case Native(OpEq) => v
    case Native(OpMul) => 1
    case Native(OpAnd) => ALL_ONES
    case Native(OpAndn) => if left then 0 else ALL_ONES
    case Native(OpOrn) => if left then ALL_ONES else 0
    case _ => 0
  }

  /** Any other register. */
  lemma FreeShows(op: Binop, left: bool, v: Word, t: Word) returns (a: Word)
    requires v != t && !ConstShift(op, left) && !Distance(op, left) && op != Native(OpPack)
    ensures Can(op, left, v, a) && Can(op, left, t, a)
    ensures Applied(op, left, v, a, 0) != Applied(op, left, t, a, 0)
  {
    if op == Native(OpTest) {
      a := DifferentBit(v, t);
      ArithmeticNeutral(Mask(Bit(v, a)));
      ArithmeticNeutral(Mask(Bit(t, a)));
      hide Bit, Plus;
    } else {
      a := Telling(op, left, v, t);
      if Compares(op) {
        ComparisonIs(op, left, v, a);
        ComparisonIs(op, left, t, a);
        hide Applied;
      } else {
        TellingGives(op.op, left, v, a);
        TellingGives(op.op, left, t, a);
        MinusInjective(v, t);
        hide Applied;
      }
    }
  }

  /** An operand that lets the constant through. */
  lemma TellingGives(op: Op, left: bool, k: Word, a: Word)
    requires op !in {OpLt, OpEq, OpGe, OpPack, OpTest} && !ConstShift(Native(op), left) && !Distance(Native(op), left)
    requires a == Telling(Native(op), left, 0, 0)
    ensures Can(Native(op), left, k, a)
    ensures Applied(Native(op), left, k, a, 0)
         == if !left && (op.OpAndn? || op.OpOrn?) then Not(k)
            else if op.OpSub? && !left then Minus(0, k) else k
  {
    Neutral(k);
    Neutral(Not(k));
    ArithmeticNeutral(k);
    ArithmeticNeutral(Not(k));
    ArithmeticNeutral(Minus(0, k));
    ShiftNeutral(k);
    hide And, Or, Xor, Plus, Minus, Times, Shl, Shr, Sar;
  }

  /** A left shift by a constant too wide for its field: zero, without the addend. */
  lemma ShiftShows(x: RegNo, y: RegNo, t: Word) returns (r: Regs)
    requires t < 32 && (x != 0 || y != 0)
    ensures r[0] == 0 && Plus(Shl(r[x], t), r[y]) != 0
  {
    hide Shl, Wrap;
    ShiftedBit(t);
    r := if x == 0 then NO_REGS[y := 1] else NO_REGS[x := 1];
    SmallSum(Shl(r[x], t), r[y]);
  }

  lemma ShiftedBit(t: nat)
    requires t < 32
    ensures 0 < Shl(1, t) <= 0x8000_0000 && Shl(0, t) == 0
  {
    hide Shl, Wrap;
    ShlValue(1, t);
    ShlValue(0, t);
    Pow2Monotone(t, 31);
    Pow2Of32();
    assert Pow2(32) == 2 * Pow2(31) && 0 * Pow2(t) == 0;
    WrapSmall(Pow2(t));
    WrapSmall(0);
  }

  lemma SmallSum(a: Word, b: Word)
    requires a + b < 0x1_0000_0000
    ensures Plus(a, b) == a + b
  {
  }

  // ----- The exact conditions -----

  /** Not right because nothing of the constant was lost, but because what was lost is not
      looked at: the closed list for register A, and shifts that are zero either way. */
  predicate Hidden(e: Rhs)
    requires OperandConst(e)
  {
    var v, t := e.k.v, CutTo12(e.k.v);
    if e.op == Native(OpPack) then false
    else if ConstShift(e.op, OnLeft(e)) then t >= 32 || (e.x == 0 && Addend(e) == 0)
    else e.x == 0 && ZeroHides(e.op, OnLeft(e), v, t)
  }

  /** No state gives the form a meaning. */
  predicate Meaningless(e: Rhs)
    requires OperandConst(e)
  {
    Distance(e.op, OnLeft(e)) && e.k.v >= 32
  }

  lemma ConstShiftExact(e: Rhs, dd: Deref, z: RegNo)
    requires OperandConst(e) && ConstShift(e.op, OnLeft(e)) && !Fits12(e.k.v)
    ensures RightEverywhere(e, dd, z) <==> Hidden(e)
  {
    hide Meaning, Choose, RightIn, CutTo12, Shl;
    var t := CutTo12(e.k.v);
    forall r: Regs | r[0] == 0
      ensures HasMeaning(e, r)
      ensures RightIn(e, r, dd, z) <==> t >= 32 || Plus(Shl(r[e.x], t), r[Addend(e)]) == 0
    {
      OperandMeaning(e, r);
      OperandMeaning(CutConst(e), r);
      CutComputes(e, r, dd, z);
    }
    if Hidden(e) {
      forall r: Regs | r[0] == 0
        ensures RightIn(e, r, dd, z)
      {
        if t < 32 { ShlValue(0, t); assert 0 * Pow2(t) == 0; }
      }
    } else {
      var r := ShiftShows(e.x, Addend(e), t);
      assert HasMeaning(e, r) && !RightIn(e, r, dd, z);
    }
  }

  lemma OperandExact(e: Rhs, dd: Deref, z: RegNo)
    requires OperandConst(e) && !ConstShift(e.op, OnLeft(e)) && !Distance(e.op, OnLeft(e)) && e.op != Native(OpPack)
    requires !Fits12(e.k.v)
    ensures RightEverywhere(e, dd, z) <==> Hidden(e)
  {
    hide Meaning, Choose, RightIn, CutTo12, Applied, ZeroHides;
    var left, v, t := OnLeft(e), e.k.v, CutTo12(e.k.v);
    CutIs(v);
    SameParity(v, t);
    forall r: Regs | r[0] == 0 && HasMeaning(e, r)
      ensures Can(e.op, left, v, r[e.x]) && Can(e.op, left, t, r[e.x])
      ensures RightIn(e, r, dd, z) <==> Applied(e.op, left, v, r[e.x], 0) == Applied(e.op, left, t, r[e.x], 0)
    {
      OperandMeaning(e, r);
      OperandMeaning(CutConst(e), r);
      CutComputes(e, r, dd, z);
      AddendCancels(e.op, left, v, t, r[e.x], r[Addend(e)]);
    }
    ZeroShows(e.op, left, v, t);
    var r: Regs := NO_REGS;
    if e.x != 0 {
      var a := FreeShows(e.op, left, v, t);
      r := NO_REGS[e.x := a];
    }
    OperandMeaning(e, r);
  }

  lemma SameParity(v: Word, t: Word)
    requires v % 0x1000 == t % 0x1000
    ensures v % 2 == t % 2
  {
    ModOfMod(v, 0x800, 2);
    ModOfMod(t, 0x800, 2);
  }

  /** For every form with a constant: the instruction is right in every state if and only if the
      constant survives its field, or the form is on the closed list. */
  lemma EverywhereExact(e: Rhs, dd: Deref, z: RegNo)
    requires HasConst(e)
    ensures RightEverywhere(e, dd, z)
       <==> Survives(Choose(e)) || (OperandConst(e) && (Hidden(e) || Meaningless(e)))
  {
    hide Meaning, Computed, Operands, CutTo12, ToInsn;
    if Survives(Choose(e)) {
      forall r: Regs | r[0] == 0 && HasMeaning(e, r)
        ensures RightIn(e, r, dd, z)
      {
        DesugarExact(e, r, dd, z);
      }
    } else if !OperandConst(e) || e.op == Native(OpPack) {
      assert HasMeaning(e, NO_REGS);
      DesugarExact(e, NO_REGS, dd, z);
      assert !RightIn(e, NO_REGS, dd, z);
    } else {
      assert !Fits12(e.k.v);
      hide Choose, RightIn, Survives;
      if ConstShift(e.op, OnLeft(e)) {
        ConstShiftExact(e, dd, z);
      } else if Distance(e.op, OnLeft(e)) {
        assert e.k.v >= 32;
      } else {
        OperandExact(e, dd, z);
      }
    }
  }

  // ----- Whole statements -----

  /** A value that goes nowhere: the destination is register A itself. */
  predicate Discarded(t: Stmt) {
    !t.lhsDeref && !t.rhsDeref && t.z == 0
  }

  /** In this state the word does what the statement says, if that says anything. */
  ghost predicate DoesIn(w: Word, t: Stmt, s: State) {
    HasMeaning(t.rhs, s.regs[P := Plus(s.regs[P], 1)]) ==> Execute(s, Decode(w)) == Effect(t, s)
  }

  ghost predicate DoesEverywhere(w: Word, t: Stmt) {
    forall s: State | s.regs[0] == 0 :: DoesIn(w, t, s)
  }

  function StmtWord(t: Stmt): Word
    requires Choose(t.rhs).kind < 4
  {
    Encode(ToInsn(DerefBits(t), t.z, Choose(t.rhs)))
  }

  lemma AlwaysDefined(e: Rhs, r: Regs, dd: Deref, z: RegNo)
    requires HasConst(e) && HasMeaning(e, r) && Choose(e).kind < 4
    ensures Defined(OpField(ToInsn(dd, z, Choose(e))), Operands(ToInsn(dd, z, Choose(e)), r).1)
  {
  }

  /** A statement transfers its value the way its two bits say. */
  lemma EffectIs(t: Stmt, s: State)
    requires ArrowOk(t)
    requires HasMeaning(t.rhs, s.regs[P := Plus(s.regs[P], 1)])
    ensures var r := s.regs[P := Plus(s.regs[P], 1)];
            Effect(t, s) == Transfer(r, s.mem, DerefBits(t), t.z, Meaning(t.rhs, r))
  {
    hide Meaning;
  }

  lemma WordTransfers(t: Stmt, s: State)
    requires HasConst(t.rhs) && Choose(t.rhs).kind < 4
    requires HasMeaning(t.rhs, s.regs[P := Plus(s.regs[P], 1)])
    ensures var r, i := s.regs[P := Plus(s.regs[P], 1)], ToInsn(DerefBits(t), t.z, Choose(t.rhs));
            && Defined(OpField(i), Operands(i, r).1)
            && Execute(s, Decode(StmtWord(t))) == Transfer(r, s.mem, DerefBits(t), t.z, Computed(i, r))
  {
    hide Choose, Encode, Decode, Execute, Operands, Computed, Transfer, HasMeaning;
    var r, i := s.regs[P := Plus(s.regs[P], 1)], ToInsn(DerefBits(t), t.z, Choose(t.rhs));
    AlwaysDefined(t.rhs, r, DerefBits(t), t.z);
    DecodeEncode(i);
    ExecuteIs(s, i);
  }

  /** The state in which the statement sees these registers and one cell. */
  function Seeing(r: Regs, a: Word): State {
    State(r[P := Minus(r[P], 1)], map[a := 0])
  }

  lemma SeesAll(r: Regs, a: Word)
    requires r[0] == 0
    ensures Seeing(r, a).regs[0] == 0
    ensures Seeing(r, a).regs[P := Plus(Seeing(r, a).regs[P], 1)] == r
  {
  }

  /** In some memory a wrong value shows, unless it goes nowhere. */
  lemma TransferShows(r: Regs, t: Stmt, right: Word, wrong: Word)
    requires ArrowOk(t) && !Discarded(t) && right != wrong
    ensures var mem := map[if t.lhsDeref then r[t.z] else right := 0];
            Transfer(r, mem, DerefBits(t), t.z, right) != Transfer(r, mem, DerefBits(t), t.z, wrong)
  {
    if !t.lhsDeref && !t.rhsDeref {
      assert SetReg(r, t.z, right)[t.z] == right && SetReg(r, t.z, wrong)[t.z] == wrong;
    } else if t.lhsDeref {
      var mem: Memory := map[r[t.z] := 0];
      assert mem[r[t.z] := right][r[t.z]] == right && mem[r[t.z] := wrong][r[t.z]] == wrong;
    }
  }

  /** A statement's word does what it says in every state if and only if its value is right in
      every state or goes nowhere. */
  lemma StatementExact(t: Stmt)
    requires ArrowOk(t) && HasConst(t.rhs) && Choose(t.rhs).kind < 4
    ensures DoesEverywhere(StmtWord(t), t) <==> Discarded(t) || RightEverywhere(t.rhs, DerefBits(t), t.z)
  {
    hide Choose, Meaning, Computed, Operands, Execute, Effect, Transfer, ToInsn, HasMeaning, StmtWord, Decode;
    var i := ToInsn(DerefBits(t), t.z, Choose(t.rhs));
    if Discarded(t) || RightEverywhere(t.rhs, DerefBits(t), t.z) {
      forall s: State | s.regs[0] == 0
        ensures DoesIn(StmtWord(t), t, s)
      {
        var r := s.regs[P := Plus(s.regs[P], 1)];
        if HasMeaning(t.rhs, r) {
          EffectIs(t, s);
          WordTransfers(t, s);
          if Discarded(t) {
            GoesNowhere(r, s.mem, Meaning(t.rhs, r), Computed(i, r));
          } else {
            assert RightIn(t.rhs, r, DerefBits(t), t.z);
          }
        }
      }
    } else {
      var r: Regs :| r[0] == 0 && HasMeaning(t.rhs, r) && !RightIn(t.rhs, r, DerefBits(t), t.z);
      var s := Seeing(r, if t.lhsDeref then r[t.z] else Meaning(t.rhs, r));
      SeesAll(r, if t.lhsDeref then r[t.z] else Meaning(t.rhs, r));
      EffectIs(t, s);
      WordTransfers(t, s);
      TransferShows(r, t, Meaning(t.rhs, r), Computed(i, r));
      assert !DoesIn(StmtWord(t), t, s);
    }
  }

  lemma GoesNowhere(r: Regs, mem: Memory, v: Word, w: Word)
    ensures Transfer(r, mem, 0, 0, v) == Transfer(r, mem, 0, 0, w)
  {
  }
}
