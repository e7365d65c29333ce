/** Separate assembly followed by linking preserves the meaning of every expression. */
module Linking {
  import opened Options
  import opened Words
  import opened Reloc
  import opened Assembler
  import opened Linker

  // ----- The relocations that hit one word -----

  function At(rs: seq<Relocation>, a: Word): seq<Relocation> {
    if rs == [] then []
    else (if rs[0].addr == a then [rs[0]] else []) + At(rs[1..], a)
  }

  lemma {:induction false} AtAppend(p: seq<Relocation>, q: seq<Relocation>, a: Word)
    ensures At(p + q, a) == At(p, a) + At(q, a)
  {
    if p == [] {
      assert p + q == q;
    } else {
      assert (p + q)[0] == p[0] && (p + q)[1..] == p[1..] + q;
      AtAppend(p[1..], q, a);
      var own := if p[0].addr == a then [p[0]] else [];
      assert own + (At(p[1..], a) + At(q, a)) == (own + At(p[1..], a)) + At(q, a);
    }
  }

  lemma {:induction false} AtUniform(rs: seq<Relocation>, a: Word, b: Word)
    requires forall r <- rs :: r.addr == b
    ensures At(rs, a) == if a == b then rs else []
  {
    if rs != [] {
      AtUniform(rs[1..], a, b);
      assert rs == [rs[0]] + rs[1..];
    }
  }

  /** After all relocations a word has its low bits moved by the total of those that hit it. */
  lemma {:induction false} ApplyAt(
      data: seq<Word>, rs: seq<Relocation>, a: Word, width: nat, offset: Word, exports: Env)
    requires a < |data| && width <= 32
    requires forall r <- rs :: r.addr == a ==> r.width == width
    ensures ApplyAll(data, rs, 0, offset, exports)[a]
         == WithLow(data[a], width, data[a] + Total(At(rs, a), offset, exports))
    decreases |rs|
  {
    hide WithLow, Adjustment;
    if rs == [] {
      WithLowSame(data[a], width);
    } else {
      var one := ApplyOne(data, rs[0], 0, offset, exports);
      ApplyAt(one, rs[1..], a, width, offset, exports);
      if rs[0].addr == a {
        var t := Total(At(rs[1..], a), offset, exports);
        WithLowTwice(data[a], width, data[a] + Adjustment(rs[0], offset, exports), t);
        assert At(rs, a)[0] == rs[0] && At(rs, a)[1..] == At(rs[1..], a);
      } else {
        assert At(rs, a) == At(rs[1..], a);
      }
    }
  }

  lemma WithLowSame(w: Word, width: nat)
    requires width <= 32
    ensures WithLow(w, width, w + 0) == w
  {
  }

  lemma {:induction false} RelocListAddr(e: Expr, labels: Labels, addr: Word, width: nat, negate: bool)
    ensures forall r <- RelocList(e, labels, addr, width, negate) :: r.addr == addr && r.width == width
  {
    match e
    case Un(_, a) => RelocListAddr(a, labels, addr, width, negate);
    case Bin(op, l, r) =>
      RelocListAddr(l, labels, addr, width, negate);
      RelocListAddr(r, labels, addr, width, if op.Sub? then !negate else negate);
    case _ =>
  }

  // ----- The relocations of one element -----

  const MAX_RECORD: nat := 0x7fff_ffff

  lemma {:induction false} AddressesDiffer(es: seq<Element>, i: nat, j: nat)
    requires i < |es| && j < |es| && i != j && es[i].Cell? && es[j].Cell?
    requires Address(es, |es|) <= MAX_RECORD
    ensures Wrap(Address(es, i)) != Wrap(Address(es, j))
  {
    hide Wrap;
    AddressMonotone(es, i, |es|);
    AddressMonotone(es, j, |es|);
    if i < j { AddressMonotone(es, i, j); } else { AddressMonotone(es, j, i); }
    WrapSmall(Address(es, i));
    WrapSmall(Address(es, j));
  }

  /** Among the relocations of elements from i on, those at element j's word are element j's. */
  lemma {:induction false} RelocsAtCell(es: seq<Element>, labels: Labels, i: nat, j: nat)
    requires i <= |es| && j < |es| && es[j].Cell? && Address(es, |es|) <= MAX_RECORD
    ensures At(RelocsFrom(es, labels, i), Wrap(Address(es, j)))
         == if i <= j then RelocsOf(es[j], Wrap(Address(es, j)), labels) else []
    decreases |es| - i
  {
    hide Wrap, RelocList, At, RelocsOf, RelocsFrom, Address;
    RelocsFromNext(es, labels, i);
    if i < |es| {
      var a := Wrap(Address(es, j));
      RelocsAtCell(es, labels, i + 1, j);
      var own := RelocsOf(es[i], Wrap(Address(es, i)), labels);
      AtAppend(own, RelocsFrom(es, labels, i + 1), a);
      OwnAtCell(es, labels, i, j);
      if i == j { assert own + [] == own; } else { NothingBefore(At(RelocsFrom(es, labels, i + 1), a)); }
    } else {
      NothingAt(Wrap(Address(es, j)));
    }
  }

  lemma RelocsFromNext(es: seq<Element>, labels: Labels, i: nat)
    requires i <= |es|
    ensures RelocsFrom(es, labels, i)
         == if i < |es| then RelocsOf(es[i], Wrap(Address(es, i)), labels) + RelocsFrom(es, labels, i + 1) else []
  {
    hide Wrap, RelocsOf, Address;
  }

  lemma NothingBefore(rs: seq<Relocation>)
    ensures [] + rs == rs
  {
  }

  lemma NothingAt(a: Word)
    ensures At([], a) == []
  {
  }

  lemma OwnAtCell(es: seq<Element>, labels: Labels, i: nat, j: nat)
    requires i < |es| && j < |es| && es[j].Cell? && Address(es, |es|) <= MAX_RECORD
    ensures var own := RelocsOf(es[i], Wrap(Address(es, i)), labels);
            At(own, Wrap(Address(es, j))) == if i == j then own else []
  {
    hide Wrap, RelocList;
    if es[i].Cell? && es[i].deferred.Some? {
      var d := es[i].deferred.value;
      RelocListAddr(d.expr, labels, Wrap(Address(es, i)), d.width, false);
      if i != j { AddressesDiffer(es, i, j); }
      hide Address;
      AtUniform(RelocsOf(es[i], Wrap(Address(es, i)), labels), Wrap(Address(es, j)), Wrap(Address(es, i)));
    }
  }

  /** All relocations at element j's word have the width of its field. */
  lemma {:induction false} WidthAtCell(es: seq<Element>, labels: Labels, i: nat, j: nat, width: nat)
    requires i <= |es| && j < |es| && es[j].Cell? && Address(es, |es|) <= MAX_RECORD
    requires es[j].deferred.Some? ==> es[j].deferred.value.width == width
    ensures forall r <- RelocsFrom(es, labels, i) :: r.addr == Wrap(Address(es, j)) ==> r.width == width
    decreases |es| - i
  {
    hide Wrap, RelocList;
    if i < |es| {
      WidthAtCell(es, labels, i + 1, j, width);
      if es[i].Cell? && es[i].deferred.Some? {
        var d := es[i].deferred.value;
        RelocListAddr(d.expr, labels, Wrap(Address(es, i)), d.width, false);
        if i != j { AddressesDiffer(es, i, j); }
      }
    }
  }

  // ----- Offsets are emission addresses -----

  /** Words in records beyond an object's first, which the linker places but does not count. */
  function Uncounted(objs: seq<Obj>, k: nat): int
    requires k <= |objs|
  {
    if k == 0 then 0
    else Uncounted(objs, k - 1) + RecordWords(objs[k - 1].records) - LinkSize(objs[k - 1])
  }

  lemma {:induction false} AddressesApart(objs: seq<Obj>, k: nat)
    requires k <= |objs|
    ensures EmitAddress(objs, k) == Packed(objs, k) + Uncounted(objs, k)
  {
    if k > 0 { AddressesApart(objs, k - 1); }
  }

  /** An object's relocation offset is the address its record goes to exactly when no words
      before it were left uncounted. */
  lemma OffsetIsEmitAddress(objs: seq<Obj>, k: nat)
    requires k <= |objs|
    ensures Wrap(EmitAddress(objs, k)) == Offset(objs, k) <==> Wrap(Uncounted(objs, k)) == 0
  {
    AddressesApart(objs, k);
    var u := Uncounted(objs, k);
    if Wrap(u) == 0 {
      WrapMultiple(Packed(objs, k), u / 0x1_0000_0000);
    }
    if Wrap(EmitAddress(objs, k)) == Offset(objs, k) {
      var q := Congruent(EmitAddress(objs, k), Packed(objs, k));
      WrapMultiple(0, q);
    }
  }

  lemma {:induction false} SingleRecords(objs: seq<Obj>, k: nat)
    requires k <= |objs| && forall o <- objs :: |o.records| <= 1
    ensures Uncounted(objs, k) == 0
  {
    if k > 0 {
      SingleRecords(objs, k - 1);
      var rs := objs[k - 1].records;
      assert objs[k - 1] in objs;
      if |rs| == 1 { assert rs[..0] == [] && RecordWords([]) == 0; }
    }
  }

  /** Patching changes no sizes. */
  lemma {:induction false} PatchedSizes(input: seq<Obj>, output: seq<Obj>, k: nat)
    requires Patched(input, output, |input|) && k <= |input|
    ensures Packed(output, k) == Packed(input, k)
    ensures (forall o <- input :: |o.records| <= 1) ==> forall o <- output :: |o.records| <= 1
  {
    hide ApplyAll, Linkable;
    if k > 0 {
      PatchedSizes(input, output, k - 1);
      assert PatchedAt(input, output, k - 1);
    }
    forall i | 0 <= i < |output|
      ensures |output[i].records| == |input[i].records|
    {
      assert PatchedAt(input, output, i);
    }
  }

  /** With one record in every object, record k of the image is object k's. */
  lemma {:induction false} ImageRecord(objs: seq<Obj>, n: nat, k: nat)
    requires k < n <= |objs| && forall o <- objs :: |o.records| == 1
    ensures |Image(objs, n)| == n
    ensures Image(objs, n)[k] == Record(Wrap(EmitAddress(objs, k)), objs[k].records[0].data)
    decreases n
  {
    hide Wrap;
    var rs := objs[n - 1].records;
    assert rs[..0] == [];
    RelocatedSingle(rs, EmitAddress(objs, n - 1));
    if k < n - 1 {
      ImageRecord(objs, n - 1, k);
    } else if n > 1 {
      ImageRecord(objs, n - 1, 0);
    }
  }

  lemma RelocatedSingle(rs: seq<Record>, addr: nat)
    requires |rs| == 1
    ensures Relocated(rs, addr, 1) == [Record(Wrap(addr), rs[0].data)]
  {
    assert Relocated(rs, addr, 0) == [];
    assert rs[..0] == [] && RecordWords([]) == 0;
  }

  // ----- The theorem -----

  /** A whole build: every unit was assembled, then all objects were linked. */
  ghost predicate Built(us: seq<Unit>, objs: seq<Obj>, output: seq<Obj>) {
    && |us| == |objs|
    && (forall k | 0 <= k < |us| :: BuiltUnit(us, objs, k))
    && NoDuplicateDefns(objs, |objs|) && Patched(objs, output, |objs|)
  }

  ghost predicate BuiltUnit(us: seq<Unit>, objs: seq<Obj>, k: nat)
    requires k < |us| == |objs|
  {
    WidthsOk(us[k]) && Assembled(us[k], objs[k]) && UnitSize(us[k]) <= MAX_RECORD
  }

  /** Expressions whose relocations the linker applies as they were meant: the multiplier
      reaches the value but not the relocations, so a negated field has to be fixed. */
  predicate Relocatable(d: Deferred, labels: Labels) {
    WellDegreed(d.expr, labels, false) && (d.negative ==> Fixed(d.expr, labels))
  }

  /** The value of a field's expression where everything finally is. */
  function FinalValue(us: seq<Unit>, objs: seq<Obj>, k: nat, j: nat): Option<Word>
    requires k < |us| == |objs| && j < |us[k].elements|
    requires us[k].elements[j].Cell? && us[k].elements[j].deferred.Some?
  {
    var off := Offset(objs, k);
    Value(us[k].elements[j].deferred.value.expr,
          Plus(Wrap(Address(us[k].elements, j)), off),
          FinalEnv(UnitLabels(us[k]), off, Exports(objs)))
  }

  /** The word linked at element j of unit k is the assembled one moved by its relocations. */
  lemma LinkedWord(us: seq<Unit>, objs: seq<Obj>, output: seq<Obj>, k: nat, j: nat, width: nat)
    requires Built(us, objs, output) && k < |us| && j < |us[k].elements| && us[k].elements[j].Cell?
    requires width <= 32
    requires us[k].elements[j].deferred.Some? ==> us[k].elements[j].deferred.value.width == width
    ensures BuiltUnit(us, objs, k) && OkAt(us[k], UnitLabels(us[k]), j) && |output| == |us|
    ensures var es, labels := us[k].elements, UnitLabels(us[k]);
            var word := CellWord(es[j], Wrap(Address(es, j)), labels);
            var total := Total(RelocsOf(es[j], Wrap(Address(es, j)), labels), Offset(objs, k), Exports(objs));
            && |output[k].records| == 1 && Address(es, j) < |output[k].records[0].data|
            && output[k].records[0].data[Address(es, j)] == WithLow(word, width, word + total)
  {
    hide WithLow, CellWord, ElementOk, UnitLabels, Total, RelocsFrom, RelocsOf, ApplyAll, NoDuplicates, AllOk, Wrap;
    hide At, Exports, Offset, NoDuplicateDefns, Linkable;
    assert BuiltUnit(us, objs, k) && PatchedAt(objs, output, k);
    var u, es, labels := us[k], us[k].elements, UnitLabels(us[k]);
    var a := Address(es, j);
    assert EmittedAt(u, objs[k].records[0].data, j);
    WrapSmall(a) by { AddressMonotone(es, j, |es|); }
    RelocsAtCell(es, labels, 0, j);
    WidthAtCell(es, labels, 0, j, width);
    ApplyAt(objs[k].records[0].data, objs[k].relocs, a, width, Offset(objs, k), Exports(objs));
  }

  /** How far linking misses a field: the error of its expression, which enters once, or minus
      once under the multiplier of a negated field. */
  ghost function FieldError(us: seq<Unit>, objs: seq<Obj>, k: nat, j: nat): int
    requires k < |us| == |objs| && j < |us[k].elements|
    requires us[k].elements[j].Cell? && us[k].elements[j].deferred.Some?
  {
    var d := us[k].elements[j].deferred.value;
    Error(d.expr, Wrap(Address(us[k].elements, j)), UnitLabels(us[k]), false, Sign(d.negative),
          Offset(objs, k), Exports(objs))
  }

  /** Linking moves the expression of this field by a known amount. */
  predicate LinearField(us: seq<Unit>, k: nat, j: nat)
    requires k < |us| && j < |us[k].elements|
  {
    var e := us[k].elements[j];
    e.Cell? && e.deferred.Some?
    && Linear(e.deferred.value.expr, Wrap(Address(us[k].elements, j)), UnitLabels(us[k]))
  }

  /** The exact condition on a linked field: its word carries the value at final addresses, and
      keeps every other bit of the instruction, if and only if the field's error vanishes in
      the field's width. */
  lemma FieldExactly(us: seq<Unit>, objs: seq<Obj>, output: seq<Obj>, k: nat, j: nat)
    requires Built(us, objs, output) && k < |us| && j < |us[k].elements| && us[k].elements[j].Cell?
    requires LinearField(us, k, j) && us[k].elements[j].deferred.value.width <= 32
    ensures var e := us[k].elements[j];
            var d := e.deferred.value;
            var final := FinalValue(us, objs, k, j);
            && final.Some? && |output| == |us| && |output[k].records| == 1
            && Address(us[k].elements, j) < |output[k].records[0].data|
            && (output[k].records[0].data[Address(us[k].elements, j)]
                == WithLow(e.word, d.width, FieldValue(d, final.value))
                <==> FieldError(us, objs, k, j) % Pow2(d.width) == 0)
    ensures Additive(us[k].elements[j].deferred.value.expr) ==>
              FieldError(us, objs, k, j)
              == 2 * Wrong(us[k].elements[j].deferred.value.expr, UnitLabels(us[k]), false,
                           us[k].elements[j].deferred.value.negative, Offset(objs, k), Exports(objs))
  {
    hide WithLow, UnitLabels, Total, RelocList, Linear, Delta, Error, Value, FinalEnv, LocalEnv, Exports, Offset;
    hide Plus, Wrap, Pow2, Patched, Assembled, Wrong, Additive;
    var es, labels := us[k].elements, UnitLabels(us[k]);
    var e, d, a := es[j], es[j].deferred.value, Wrap(Address(es, j));
    var off, exports := Offset(objs, k), Exports(objs);
    LinkedWord(us, objs, output, k, j, d.width);
    Moves(d.expr, a, labels, off, exports);
    TotalIs(d.expr, a, labels, a, d.width, false, Sign(d.negative), off, exports);
    MovedField(e.word, d, LocalValue(d, a, labels).value, Delta(d.expr, a, labels, off, exports),
               FieldError(us, objs, k, j));
    if Additive(d.expr) { ErrorInSum(d.expr, a, labels, false, d.negative, off, exports); }
  }

  lemma MovedField(word: Word, d: Deferred, local: Word, delta: int, error: int)
    requires d.width <= 32
    ensures var w := WithLow(word, d.width, FieldValue(d, local));
            var total := Sign(d.negative) * delta + error;
            WithLow(w, d.width, w + total) == WithLow(word, d.width, FieldValue(d, Wrap(local + delta)))
            <==> error % Pow2(d.width) == 0
  {
    hide Pow2, WithLow, Wrap;
    var total := Sign(d.negative) * delta + error;
    var a: int, b: int := FieldValue(d, local), FieldValue(d, Wrap(local + delta));
    WithLowTwice(word, d.width, a, total);
    var k := FieldMoves(d, local, delta);
    SameModulo(a + total, b, error, k, d.width);
    SameField(word, d.width, a + total, b);
  }

  lemma FieldMoves(d: Deferred, local: Word, delta: int) returns (k: int)
    ensures FieldValue(d, local) + Sign(d.negative) * delta - FieldValue(d, Wrap(local + delta)) == k * 0x1_0000_0000
  {
    var q := WrapIs(local + delta);
    if d.negative {
      var r := WrapIs(0 - local);
      var s := WrapIs(0 - Wrap(local + delta));
      k := s - r - q;
    } else {
      k := q;
    }
  }

  /** Separate assembly then linking preserves meaning: the low bits of the linked word are
      the expression's value at final addresses, and all other bits are the instruction's. */
  lemma LinkedMeaning(us: seq<Unit>, objs: seq<Obj>, output: seq<Obj>, k: nat, j: nat)
    requires Built(us, objs, output) && k < |us| && j < |us[k].elements| && us[k].elements[j].Cell?
    requires us[k].elements[j].deferred.Some? && Relocatable(us[k].elements[j].deferred.value, UnitLabels(us[k]))
    requires us[k].elements[j].deferred.value.width <= 32
    ensures var e := us[k].elements[j];
            var final := FinalValue(us, objs, k, j);
            && final.Some? && |output| == |us| && |output[k].records| == 1
            && Address(us[k].elements, j) < |output[k].records[0].data|
            && output[k].records[0].data[Address(us[k].elements, j)]
               == WithLow(e.word, e.deferred.value.width, FieldValue(e.deferred.value, final.value))
  {
    hide UnitLabels, Patched, Assembled, Address, Error, Exports, Offset, Pow2, WithLow, Wrap, Linear, WellDegreed;
    hide TrueDegree;
    var d, labels, a := us[k].elements[j].deferred.value, UnitLabels(us[k]), Wrap(Address(us[k].elements, j));
    WellDegreedIsRight(d.expr, a, labels, false, Offset(objs, k), Exports(objs));
    if d.negative { FixedIsRight(d.expr, a, labels, false, -1, Offset(objs, k), Exports(objs)); }
    FieldExactly(us, objs, output, k, j);
  }

  /** A negated field moves the wrong way by twice what its relocations come to: it is linked
      right only if that vanishes in the field. */
  lemma NegatedField(us: seq<Unit>, objs: seq<Obj>, output: seq<Obj>, k: nat, j: nat)
    requires Built(us, objs, output) && k < |us| && j < |us[k].elements| && us[k].elements[j].Cell?
    requires us[k].elements[j].deferred.Some? && us[k].elements[j].deferred.value.negative
    requires WellDegreed(us[k].elements[j].deferred.value.expr, UnitLabels(us[k]), false)
    requires us[k].elements[j].deferred.value.width <= 32
    ensures var e := us[k].elements[j];
            var d := e.deferred.value;
            var total := Total(RelocsOf(e, Wrap(Address(us[k].elements, j)), UnitLabels(us[k])),
                               Offset(objs, k), Exports(objs));
            var final := FinalValue(us, objs, k, j);
            && final.Some? && |output| == |us| && |output[k].records| == 1
            && Address(us[k].elements, j) < |output[k].records[0].data|
            && (output[k].records[0].data[Address(us[k].elements, j)]
                == WithLow(e.word, d.width, FieldValue(d, final.value))
                <==> 2 * total % Pow2(d.width) == 0)
  {
    hide UnitLabels, Address, Error, Exports, Offset, Pow2, WithLow, Wrap, Linear, WellDegreed, Total, RelocList, Delta;
    hide Patched, Assembled;
    var d, labels := us[k].elements[j].deferred.value, UnitLabels(us[k]);
    var off, exports := Offset(objs, k), Exports(objs);
    var a := Wrap(Address(us[k].elements, j));
    WellDegreedIsRight(d.expr, a, labels, false, off, exports);
    TotalIs(d.expr, a, labels, a, d.width, false, 1, off, exports);
    TotalIs(d.expr, a, labels, a, d.width, false, -1, off, exports);
    FieldExactly(us, objs, output, k, j);
  }

  /** A product in a field: `k * e` is linked right if and only if the constant less one times the
      movement of e, and e's own error, make up for each other in the field's width. */
  lemma ProductField(us: seq<Unit>, objs: seq<Obj>, output: seq<Obj>, k: nat, j: nat, c: Word, r: Expr)
    requires Built(us, objs, output) && k < |us| && j < |us[k].elements| && us[k].elements[j].Cell?
    requires LinearField(us, k, j) && us[k].elements[j].deferred.value.width <= 32
    requires us[k].elements[j].deferred.value.expr == Bin(Mul, Imm(c), r) && !us[k].elements[j].deferred.value.negative
    ensures var e := us[k].elements[j];
            var d, a, labels := e.deferred.value, Wrap(Address(us[k].elements, j)), UnitLabels(us[k]);
            var final := FinalValue(us, objs, k, j);
            && final.Some? && |output| == |us| && |output[k].records| == 1
            && Address(us[k].elements, j) < |output[k].records[0].data|
            && (output[k].records[0].data[Address(us[k].elements, j)] == WithLow(e.word, d.width, final.value)
                <==> ((1 - c) * Delta(r, a, labels, Offset(objs, k), Exports(objs))
                      + Error(r, a, labels, false, 1, Offset(objs, k), Exports(objs))) % Pow2(d.width) == 0)
  {
    hide UnitLabels, Address, Exports, Offset, Pow2, WithLow, Wrap, Patched, Assembled, FinalValue, Error, Delta;
    FieldExactly(us, objs, output, k, j);
    ProductError(c, r, UnitLabels(us[k]), Wrap(Address(us[k].elements, j)), Offset(objs, k), Exports(objs));
  }

  lemma SameModulo(a: int, b: int, d: int, k: int, width: nat)
    requires width <= 32 && a - b == d + k * 0x1_0000_0000
    ensures a % Pow2(width) == b % Pow2(width) <==> d % Pow2(width) == 0
  {
    var p, q := Pow2(width), Pow2(32 - width);
    Pow2Of32();
    Pow2Split(width, 32);
    hide Pow2;
    ModDifference(a, b, p);
    ShiftedAway(d, k, q, p, 0x1_0000_0000);
  }

  lemma ShiftedAway(d: int, k: int, q: nat, p: nat, n: nat)
    requires p > 0 && n == q * p
    ensures (d + k * n) % p == d % p
  {
    assert k * (q * p) == (k * q) * p;
    ModShift(d, k * q, p);
  }

  lemma SameField(word: Word, width: nat, a: int, b: int)
    requires width <= 32
    ensures WithLow(word, width, a) == WithLow(word, width, b) <==> a % Pow2(width) == b % Pow2(width)
  {
  }

  /** A word without an expression is linked as it was written. */
  lemma LinkedPlain(us: seq<Unit>, objs: seq<Obj>, output: seq<Obj>, k: nat, j: nat)
    requires Built(us, objs, output) && k < |us| && j < |us[k].elements| && us[k].elements[j].Cell?
    requires us[k].elements[j].deferred.None?
    ensures |output| == |us| && |output[k].records| == 1 && Address(us[k].elements, j) < |output[k].records[0].data|
    ensures output[k].records[0].data[Address(us[k].elements, j)] == us[k].elements[j].word
  {
    hide WithLow, UnitLabels;
    LinkedWord(us, objs, output, k, j, 32);
    EmptyTotal(Offset(objs, k), Exports(objs));
    WithLowSame(us[k].elements[j].word, 32);
  }

  /** The image holds unit k's patched record at the unit's offset. */
  lemma LinkedImage(us: seq<Unit>, objs: seq<Obj>, output: seq<Obj>, k: nat)
    requires Built(us, objs, output) && k < |us|
    ensures |output| == |us| && |output[k].records| == 1 && |Image(output, |output|)| == |us|
    ensures Image(output, |output|)[k] == Record(Offset(objs, k), output[k].records[0].data)
  {
    hide Wrap, Assembled, ApplyAll, Linkable;
    forall i | 0 <= i < |output|
      ensures |output[i].records| == 1 && |objs[i].records| == 1
    {
      assert BuiltUnit(us, objs, i) && PatchedAt(objs, output, i);
      OneRecord(us[i], objs[i]);
    }
    PatchedSizes(objs, output, k);
    SingleRecords(output, k);
    ImageRecord(output, |output|, k);
    OffsetIsEmitAddress(output, k);
    WrapSmall(0);
  }

  lemma OneRecord(u: Unit, o: Obj)
    requires WidthsOk(u) && Assembled(u, o)
    ensures |o.records| == 1
  {
  }

  /** A label exported by unit m is found at its address within m plus m's offset. */
  lemma {:induction false} ExportAddress(us: seq<Unit>, objs: seq<Obj>, output: seq<Obj>, m: nat, n: nat, name: string)
    requires Built(us, objs, output) && m < n <= |objs|
    requires name in UnitLabels(us[m]) && name in us[m].globals
    ensures name in Defns(objs, n) && Defns(objs, n)[name] == Defn(m, UnitLabels(us[m])[name])
    decreases n
  {
    hide UnitLabels, Patched, Assembled;
    assert BuiltUnit(us, objs, m);
    if m < n - 1 {
      ExportAddress(us, objs, output, m, n - 1, name);
      assert NewNames(objs, n - 1);
    } else {
      SymbolsOf(us[m], objs[m]);
    }
  }

  lemma SymbolsOf(u: Unit, o: Obj)
    requires WidthsOk(u) && Assembled(u, o)
    ensures |o.records| == 1 && o.symbols == map n | n in UnitLabels(u) && n in u.globals :: UnitLabels(u)[n]
  {
    hide UnitLabels;
  }

  lemma {:induction false} RelocWidths(u: Unit, labels: Labels, i: nat)
    requires WidthsOk(u) && i <= |u.elements|
    ensures forall r <- RelocsFrom(u.elements, labels, i) :: 0 < r.width <= 32
    decreases |u.elements| - i
  {
    hide Wrap, RelocList;
    if i < |u.elements| {
      RelocWidths(u, labels, i + 1);
      var e := u.elements[i];
      if e.Cell? && e.deferred.Some? {
        RelocListAddr(e.deferred.value.expr, labels, Wrap(Address(u.elements, i)), e.deferred.value.width, false);
      }
    }
  }

  // ----- When a build succeeds -----

  /** The names of other units that an expression refers to. */
  function Externals(e: Expr, labels: Labels): set<string> {
    match e
    case Imm(_) => {}
    case Here => {}
    case Sym(n) => if n in labels then {} else {n}
    case Un(_, a) => Externals(a, labels)
    case Bin(_, l, r) => Externals(l, labels) + Externals(r, labels)
  }

  function Names(rs: seq<Relocation>): set<string> {
    set r | r in rs && r.name.Some? :: r.name.value
  }

  lemma NamesAppend(p: seq<Relocation>, q: seq<Relocation>)
    ensures Names(p + q) == Names(p) + Names(q)
  {
  }

  lemma {:induction false} NamesOfList(e: Expr, labels: Labels, addr: Word, width: nat, negate: bool)
    ensures Names(RelocList(e, labels, addr, width, negate)) == Externals(e, labels)
  {
    match e
    case Un(_, a) => NamesOfList(a, labels, addr, width, negate);
    case Bin(op, l, r) =>
      var rneg := if op.Sub? then !negate else negate;
      NamesOfList(l, labels, addr, width, negate);
      NamesOfList(r, labels, addr, width, rneg);
      NamesAppend(RelocList(r, labels, addr, width, rneg), RelocList(l, labels, addr, width, negate));
    case _ =>
  }

  function Imported(e: Element, labels: Labels): set<string> {
    if e.Cell? && e.deferred.Some? then Externals(e.deferred.value.expr, labels) else {}
  }

  /** What the elements of a unit from i on refer to in other units. */
  function ImportsFrom(u: Unit, i: nat): set<string>
    requires i <= |u.elements|
    decreases |u.elements| - i
  {
    if i == |u.elements| then {} else Imported(u.elements[i], UnitLabels(u)) + ImportsFrom(u, i + 1)
  }

  function Exported(u: Unit): set<string> {
    set n | n in UnitLabels(u) && n in u.globals
  }

  /** A unit's relocations lie within its record and name what it imports. */
  lemma {:induction false} RelocsWithin(u: Unit, i: nat)
    requires i <= |u.elements| && UnitSize(u) <= MAX_RECORD
    ensures Names(RelocsFrom(u.elements, UnitLabels(u), i)) == ImportsFrom(u, i)
    ensures forall r <- RelocsFrom(u.elements, UnitLabels(u), i) :: r.addr < UnitSize(u)
    decreases |u.elements| - i
  {
    hide Wrap, RelocList, UnitLabels, Names;
    if i < |u.elements| {
      RelocsWithin(u, i + 1);
      OwnWithin(u, i);
      NamesAppend(RelocsOf(u.elements[i], Wrap(Address(u.elements, i)), UnitLabels(u)),
                  RelocsFrom(u.elements, UnitLabels(u), i + 1));
    } else {
      NoNames();
    }
  }

  lemma NoNames()
    ensures Names([]) == {}
  {
  }

  lemma OwnWithin(u: Unit, i: nat)
    requires i < |u.elements| && UnitSize(u) <= MAX_RECORD
    ensures var own := RelocsOf(u.elements[i], Wrap(Address(u.elements, i)), UnitLabels(u));
            Names(own) == Imported(u.elements[i], UnitLabels(u)) && forall r <- own :: r.addr < UnitSize(u)
  {
    hide Wrap, RelocList, UnitLabels, Names;
    NoNames();
    var e, a := u.elements[i], Address(u.elements, i);
    if e.Cell? && e.deferred.Some? {
      var d := e.deferred.value;
      RelocListAddr(d.expr, UnitLabels(u), Wrap(a), d.width, false);
      NamesOfList(d.expr, UnitLabels(u), Wrap(a), d.width, false);
      AddressMonotone(u.elements, i, |u.elements|);
      WrapSmall(a);
    }
  }

  /** Every unit assembles. */
  ghost predicate Assemblable(u: Unit)
    requires WidthsOk(u)
  {
    NoDuplicates(u.elements, |u.elements|) && AllOk(u, UnitLabels(u), 0)
  }

  ghost predicate SomeExports(us: seq<Unit>, n: string) {
    exists m | 0 <= m < |us| :: n in Exported(us[m])
  }

  /** What the units ask of each other: one owner a name, and an owner for every name asked for. */
  ghost predicate Agree(us: seq<Unit>) {
    && (forall k | 0 <= k < |us| :: forall m | 0 <= m < k :: Exported(us[m]) !! Exported(us[k]))
    && (forall u <- us :: forall n <- ImportsFrom(u, 0) :: SomeExports(us, n))
  }

  ghost predicate AllBuilt(us: seq<Unit>, objs: seq<Obj>) {
    |us| == |objs| && forall k | 0 <= k < |us| :: BuiltUnit(us, objs, k)
  }

  lemma {:induction false} DefnsAreExported(us: seq<Unit>, objs: seq<Obj>, k: nat)
    requires AllBuilt(us, objs) && k <= |us|
    ensures Defns(objs, k).Keys == set m, n | 0 <= m < k && n in Exported(us[m]) :: n
  {
    hide UnitLabels, Address, NoDuplicates, AllOk, EmittedAt, RelocsFrom;
    if k > 0 {
      DefnsAreExported(us, objs, k - 1);
      assert BuiltUnit(us, objs, k - 1);
      assert DefnsOf(objs[k - 1].symbols, k - 1).Keys == Exported(us[k - 1]);
    }
  }

  /** The linker takes the objects exactly when the units agree. */
  lemma LinksWhenAgreed(us: seq<Unit>, objs: seq<Obj>)
    requires AllBuilt(us, objs)
    ensures Links(objs) <==> Agree(us)
  {
    hide UnitLabels, Address, NoDuplicates, AllOk, EmittedAt, RelocsFrom, Defns, ImportsFrom, Exported;
    forall k | 0 <= k < |us|
      ensures NewNames(objs, k) <==> forall m | 0 <= m < k :: Exported(us[m]) !! Exported(us[k])
      ensures Linkable(objs, k) <==> forall n <- ImportsFrom(us[k], 0) :: SomeExports(us, n)
    {
      NewWhenApart(us, objs, k);
      LinkableWhenExported(us, objs, k);
    }
  }

  lemma NewWhenApart(us: seq<Unit>, objs: seq<Obj>, k: nat)
    requires AllBuilt(us, objs) && k < |us|
    ensures NewNames(objs, k) <==> forall m | 0 <= m < k :: Exported(us[m]) !! Exported(us[k])
  {
    hide UnitLabels, Address, NoDuplicates, AllOk, EmittedAt, RelocsFrom, Defns;
    DefnsAreExported(us, objs, k);
    assert BuiltUnit(us, objs, k);
    assert ExportsOf(objs, k).Keys == Exported(us[k]);
    hide Exported, ExportsOf;
    assert NewNames(objs, k) <==> Exported(us[k]) !! Defns(objs, k).Keys;
  }

  lemma LinkableWhenExported(us: seq<Unit>, objs: seq<Obj>, k: nat)
    requires AllBuilt(us, objs) && k < |us|
    ensures Linkable(objs, k) <==> forall n <- ImportsFrom(us[k], 0) :: SomeExports(us, n)
  {
    hide UnitLabels, Address, NoDuplicates, AllOk, EmittedAt, RelocsFrom, Defns, ImportsFrom, Exported;
    DefnsAreExported(us, objs, |us|);
    assert BuiltUnit(us, objs, k);
    RelocsWithin(us[k], 0);
    var rs := objs[k].relocs;
    assert forall n <- Names(rs) :: exists r <- rs :: r.name == Some(n);
    assert Linkable(objs, k) <==> forall n <- Names(rs) :: n in AllDefns(objs);
  }

  /** tas on every unit, then tld on the objects: it succeeds exactly when every unit assembles,
      no name has two owners and none is missing. */
  method Build(us: seq<Unit>) returns (r: Result<seq<Record>>, objs: seq<Obj>, output: seq<Obj>)
    requires forall u <- us :: WidthsOk(u) && UnitSize(u) <= MAX_RECORD
    ensures r.Ok? <==> (forall u <- us :: Assemblable(u)) && Agree(us)
    ensures r.Ok? ==> Built(us, objs, output) && r.value == Image(output, |output|)
  {
    hide Assembled, Assemblable, Patched, UnitLabels, Agree, Links;
    objs, output := [], [];
    for k := 0 to |us|
      invariant |objs| == k
      invariant forall i | 0 <= i < k :: Assemblable(us[i]) && Assembled(us[i], objs[i])
      invariant forall o <- objs :: forall r <- o.relocs :: 0 < r.width <= 32
    {
      var o := AssembleUnit(us[k]);
      if o.Fatal? {
        assert us[k] in us;
        return Fatal, objs, output;
      }
      objs := objs + [o.value];
    }
    forall k | 0 <= k < |us|
      ensures BuiltUnit(us, objs, k)
    {
      assert us[k] in us;
    }
    LinksWhenAgreed(us, objs);
    var ls := new LinkState(objs);
    r := ls.Link();
    output := ls.objs;
    LinksUnique(objs);
  }

  lemma LinksUnique(objs: seq<Obj>)
    ensures Links(objs) ==> NoDuplicateDefns(objs, |objs|)
  {
  }

  method AssembleUnit(u: Unit) returns (r: Result<Obj>)
    requires WidthsOk(u)
    ensures r.Ok? <==> Assemblable(u)
    ensures r.Ok? ==> Assembled(u, r.value) && forall rl <- r.value.relocs :: 0 < rl.width <= 32
  {
    hide NoDuplicates, AllOk, UnitLabels, Assembled;
    r := Assemble(u);
    if r.Ok? { AssembledRelocs(u, r.value); }
  }

  lemma AssembledRelocs(u: Unit, o: Obj)
    requires WidthsOk(u) && Assembled(u, o)
    ensures forall r <- o.relocs :: 0 < r.width <= 32
  {
    RelocWidths(u, UnitLabels(u), 0);
  }
}
