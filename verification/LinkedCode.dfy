/** Statements with symbolic constants, from the parser through the linker to the processor. */
module LinkedCode {
  import opened Options
  import opened Words
  import opened Isa
  import opened Syntax
  import opened Cut
  import opened Reloc
  import opened Assembler
  import opened Linker
  import opened Linking

  /** An expression that mentions an address: its evaluation is put off, and it is written in
      the long form where there is one. */
  predicate Symbolic(e: Expr) {
    match e
    case Imm(_) => false
    case Here => true
    case Sym(_) => true
    case Un(_, a) => Symbolic(a)
    case Bin(_, l, r) => Symbolic(l) || Symbolic(r)
  }

  /** The right-hand side with its symbolic constant worth `v`. */
  function WithConst(e: Rhs, v: Word): Rhs
    requires HasConst(e)
  {
    e.(k := Const(v, true))
  }

  function Valued(t: Stmt, v: Word): Stmt
    requires HasConst(t.rhs)
  {
    t.(rhs := WithConst(t.rhs, v))
  }

  /** make_rhs leaves this in the field until the expression is evaluated. */
  const PLACEHOLDER: Word := 0xffff_fbad

  function FieldWidth(c: Chosen): nat {
    if c.kind == 3 then 20 else 12
  }

  /** The assembler's width test on such a field is the parser's notion of fitting. */
  lemma SameWidthTest(c: Chosen, v: Word)
    ensures v == SignExtend(FieldWidth(c), v) <==> if c.kind == 3 then Fits20(v) else Fits12(v)
  {
    FieldRange(v, FieldWidth(c));
    Pow2Of12();
    assert Pow2(12) == 2 * Pow2(11);
    assert Pow2(19) == 0x8_0000 by { Pow2Split(12, 19); assert Pow2(7) == 128; }
    hide Pow2, SignExtend;
  }

  /** The instruction with `v` in its immediate field. */
  function Filled(dd: Deref, z: RegNo, c: Chosen, v: Word): (i: Insn)
    requires c.kind < 4
    ensures i.WellFormed()
  {
    if c.kind == 3 then Medium(dd, z, c.x, v % 0x10_0000)
    else Small(c.kind, dd, z, c.x, c.y, c.op, v % 0x1000)
  }

  /** make_insn_general for a statement whose constant is `ce`. */
  function StmtElement(labels: seq<string>, t: Stmt, ce: Expr): Element
    requires HasConst(t.rhs)
  {
    var c := Choose(WithConst(t.rhs, 0));
    ChosenKind(WithConst(t.rhs, 0));
    Cell(labels, Encode(Filled(DerefBits(t), t.z, c, PLACEHOLDER)),
         Some(Deferred(ce, FieldWidth(c), c.minus, c.op.OpPack?)))
  }

  /** The value of the constant decides nothing but the field. */
  lemma ChoiceIsFixed(e: Rhs, v: Word)
    requires HasConst(e)
    ensures Choose(WithConst(e, v)) == Choose(WithConst(e, 0)).(k := Some(v))
  {
  }

  lemma FieldReplaced(h: nat, p: nat, v: nat, n: nat)
    requires n > 0
    ensures (h * n + p % n) - (h * n + p % n) % n + v % n == h * n + v % n
  {
    ModUnique(h * n + p % n, n, h, p % n);
  }

  /** Patching the field of an encoded instruction changes its immediate and nothing else. */
  lemma FilledPatched(dd: Deref, z: RegNo, c: Chosen, p: Word, v: Word)
    requires c.kind < 4
    ensures WithLow(Encode(Filled(dd, z, c, p)), FieldWidth(c), v) == Encode(Filled(dd, z, c, v))
  {
    Pow2Of12();
    assert Pow2(20) == 0x10_0000 by { Pow2Split(12, 20); assert Pow2(8) == 256; }
    hide Pow2;
    var top := ((c.kind * 4 + dd) * 16 + z) * 16 + c.x;
    if c.kind == 3 {
      FieldReplaced(top, p, v, 0x10_0000);
    } else {
      FieldReplaced(top * 0x100 + (c.y * 16 + CodeOf(c.op)), p, v, 0x1000);
    }
  }

  lemma FilledIs(t: Stmt, v: Word)
    requires HasConst(t.rhs)
    ensures Choose(Valued(t, v).rhs).kind < 4
    ensures var c := Choose(WithConst(t.rhs, 0));
            && c.kind < 4 && DerefBits(Valued(t, v)) == DerefBits(t)
            && Filled(DerefBits(t), t.z, c, Signum(c.minus, v)) == ToInsn(DerefBits(t), t.z, Choose(Valued(t, v).rhs))
  {
    hide Choose;
    ChoiceIsFixed(t.rhs, v);
    ChosenKind(WithConst(t.rhs, 0));
  }

  /** What the linker leaves of a statement is the statement assembled with the constant at its
      final value, cut to its field. */
  lemma LinkedStatement(
      us: seq<Unit>, objs: seq<Obj>, output: seq<Obj>, k: nat, j: nat, labels: seq<string>, t: Stmt, ce: Expr)
    requires Built(us, objs, output) && k < |us| && j < |us[k].elements|
    requires HasConst(t.rhs) && Symbolic(ce) && us[k].elements[j] == StmtElement(labels, t, ce)
    requires LinearField(us, k, j)
    requires FieldError(us, objs, k, j) % Pow2(us[k].elements[j].deferred.value.width) == 0
    ensures var final := FinalValue(us, objs, k, j);
            && final.Some? && |output| == |us| && |output[k].records| == 1
            && Address(us[k].elements, j) < |output[k].records[0].data|
            && var u := Valued(t, final.value);
               && Choose(u.rhs).kind < 4
               && output[k].records[0].data[Address(us[k].elements, j)]
                  == Encode(ToInsn(DerefBits(u), u.z, Choose(u.rhs)))
  {
    hide BuiltUnit, Patched, NoDuplicateDefns, UnitLabels, Choose, Address, FieldError, LinearField, WithLow, Encode;
    hide StmtElement, ToInsn, DerefBits, FinalValue, FieldValue, Valued, Pow2;
    StatementWord(labels, t, ce, 0);
    FieldExactly(us, objs, output, k, j);
    StatementWord(labels, t, ce, FinalValue(us, objs, k, j).value);
  }

  lemma StatementWord(labels: seq<string>, t: Stmt, ce: Expr, v: Word)
    requires HasConst(t.rhs)
    ensures var e, u := StmtElement(labels, t, ce), Valued(t, v);
            && e.Cell? && e.deferred.Some? && e.deferred.value.expr == ce && e.deferred.value.width <= 32
            && Choose(u.rhs).kind < 4
            && WithLow(e.word, e.deferred.value.width, FieldValue(e.deferred.value, v))
               == Encode(ToInsn(DerefBits(u), u.z, Choose(u.rhs)))
  {
    hide Choose, WithLow, Encode, Filled, ToInsn, DerefBits;
    var c := Choose(WithConst(t.rhs, 0));
    FilledIs(t, v);
    FilledPatched(DerefBits(t), t.z, c, PLACEHOLDER, Signum(c.minus, v));
  }

  /** The linker does not ask whether the final value fits. Executing the linked word does what
      the statement says with the constant at its final value if that value survives its field;
      and where the addend shows, it computes the right value only then. */
  lemma LinkedExecutes(
      us: seq<Unit>, objs: seq<Obj>, output: seq<Obj>, k: nat, j: nat, labels: seq<string>, t: Stmt, ce: Expr, s: State)
    requires Built(us, objs, output) && k < |us| && j < |us[k].elements|
    requires HasConst(t.rhs) && Symbolic(ce) && us[k].elements[j] == StmtElement(labels, t, ce)
    requires LinearField(us, k, j) && ArrowOk(t) && s.regs[0] == 0
    requires FieldError(us, objs, k, j) % Pow2(us[k].elements[j].deferred.value.width) == 0
    ensures var final := FinalValue(us, objs, k, j);
            && final.Some? && |output| == |us| && |output[k].records| == 1
            && Address(us[k].elements, j) < |output[k].records[0].data|
            && Executes(output[k].records[0].data[Address(us[k].elements, j)], Valued(t, final.value), s)
  {
    hide BuiltUnit, Patched, NoDuplicateDefns, UnitLabels, Choose, Address, FieldError, LinearField;
    assert forall v: Word :: ArrowOk(Valued(t, v));
    hide StmtElement, ToInsn, DerefBits, Executes, FinalValue, Valued, ArrowOk;
    StatementWord(labels, t, ce, 0);
    LinkedStatement(us, objs, output, k, j, labels, t, ce);
    EncodedExecutes(Valued(t, FinalValue(us, objs, k, j).value), s);
  }

  /** The linker does not ask whether the final value fits, so this is the whole condition: in
      every state the linked word does what the statement says with the constant at its final
      value if and only if that value survives its field, or nothing that was lost is looked at,
      or the result goes nowhere. */
  lemma LinkedExactly(
      us: seq<Unit>, objs: seq<Obj>, output: seq<Obj>, k: nat, j: nat, labels: seq<string>, t: Stmt, ce: Expr)
    requires Built(us, objs, output) && k < |us| && j < |us[k].elements|
    requires HasConst(t.rhs) && Symbolic(ce) && us[k].elements[j] == StmtElement(labels, t, ce)
    requires LinearField(us, k, j) && ArrowOk(t)
    requires FieldError(us, objs, k, j) % Pow2(us[k].elements[j].deferred.value.width) == 0
    ensures var final := FinalValue(us, objs, k, j);
            && final.Some? && |output| == |us| && |output[k].records| == 1
            && Address(us[k].elements, j) < |output[k].records[0].data|
            && (DoesEverywhere(output[k].records[0].data[Address(us[k].elements, j)], Valued(t, final.value))
                <==> RightWhenCut(Valued(t, final.value)))
  {
    hide BuiltUnit, Patched, NoDuplicateDefns, UnitLabels, Choose, Address, FieldError, LinearField;
    assert forall v: Word :: ArrowOk(Valued(t, v)) && HasConst(Valued(t, v).rhs);
    hide StmtElement, ToInsn, DerefBits, DoesEverywhere, RightWhenCut, FinalValue, Valued, ArrowOk, HasConst;
    StatementWord(labels, t, ce, 0);
    LinkedStatement(us, objs, output, k, j, labels, t, ce);
    CutStatement(Valued(t, FinalValue(us, objs, k, j).value));
  }

  /** The condition, which can be read off the statement and the final value. */
  predicate RightWhenCut(t: Stmt)
  {
    || Discarded(t) || Survives(Choose(t.rhs))
    || (OperandConst(t.rhs) && (Hidden(t.rhs) || Meaningless(t.rhs)))
  }

  lemma CutStatement(t: Stmt)
    requires ArrowOk(t) && HasConst(t.rhs) && Choose(t.rhs).kind < 4
    ensures DoesEverywhere(Encode(ToInsn(DerefBits(t), t.z, Choose(t.rhs))), t) <==> RightWhenCut(t)
  {
    hide DoesEverywhere, RightEverywhere, Hidden, Meaningless, Choose, ToInsn, Encode, DerefBits, Survives, OperandConst;
    StatementExact(t);
    EverywhereExact(t.rhs, DerefBits(t), t.z);
  }

  /** A word that stands for a statement. */
  ghost predicate Executes(w: Word, t: Stmt, s: State) {
    var r := s.regs[P := Plus(s.regs[P], 1)];
    HasMeaning(t.rhs, r) ==>
      && (Survives(Choose(t.rhs)) ==> Execute(s, Decode(w)) == Effect(t, s))
      && (AddendShows(t.rhs, r) && !t.lhsDeref && !t.rhsDeref && t.z != 0 && Execute(s, Decode(w)) == Effect(t, s)
          ==> Survives(Choose(t.rhs)))
  }

  lemma EncodedExecutes(t: Stmt, s: State)
    requires ArrowOk(t) && s.regs[0] == 0
    requires Choose(t.rhs).kind < 4
    ensures Executes(Encode(ToInsn(DerefBits(t), t.z, Choose(t.rhs))), t, s)
  {
    hide Computed, Meaning, Choose, ToInsn, Encode, Decode, Operands, Accepted, Execute, Effect, AddendShows;
    var r := s.regs[P := Plus(s.regs[P], 1)];
    if HasMeaning(t.rhs, r) {
      if Survives(Choose(t.rhs)) {
        SurvivorAccepted(Choose(t.rhs));
        hide Survives;
        StatementMeaning(t, s);
      } else if AddendShows(t.rhs, r) && !t.lhsDeref && !t.rhsDeref && t.z != 0 {
        hide Survives;
        WrongValueShows(t, s);
      }
    }
  }

  lemma SurvivorAccepted(c: Chosen)
    requires Survives(c)
    ensures Accepted(c)
  {
  }

  lemma WrongValueShows(t: Stmt, s: State)
    requires ArrowOk(t) && s.regs[0] == 0 && !t.lhsDeref && !t.rhsDeref && t.z != 0
    requires var r := s.regs[P := Plus(s.regs[P], 1)];
             HasMeaning(t.rhs, r) && AddendShows(t.rhs, r) && !Survives(Choose(t.rhs))
    ensures Choose(t.rhs).kind < 4
    ensures Execute(s, Decode(Encode(ToInsn(DerefBits(t), t.z, Choose(t.rhs))))) != Effect(t, s)
  {
    hide Computed, Meaning, Choose, Encode, Decode, Operands, Survives, AddendShows, Execute;
    var r := s.regs[P := Plus(s.regs[P], 1)];
    DesugarExact(t.rhs, r, DerefBits(t), t.z);
    var i := ToInsn(DerefBits(t), t.z, Choose(t.rhs));
    DecodeEncode(i);
    ExecuteIs(s, i);
    assert i.dd == 0 && i.z == t.z;
    hide ToInsn;
    var right := SetReg(r, t.z, Meaning(t.rhs, r));
    var wrong := SetReg(r, t.z, Computed(i, r));
    assert right[t.z] == Meaning(t.rhs, r) && wrong[t.z] == Computed(i, r);
  }
}
