/** The assembler after parsing: addresses first, then deferred expressions, then the
    object (src/asmif.c, obj_out in src/asm.c). */
module Assembler {
  import opened Options
  import opened Words
  import opened Reloc

  /** An expression waiting for addresses, and the field it goes into. */
  datatype Deferred = Deferred(expr: Expr, width: nat, negative: bool, ignoreWidth: bool)

  datatype Element =
    | Cell(labels: seq<string>, word: Word, deferred: Option<Deferred>)
    | Zeros(labels: seq<string>, count: nat)

  datatype Unit = Unit(elements: seq<Element>, globals: set<string>)

  datatype Record = Record(addr: Word, data: seq<Word>)
  datatype Obj = Obj(records: seq<Record>, symbols: map<string, Word>, relocs: seq<Relocation>)

  datatype Result<+T> = Ok(value: T) | Fatal

  /** The field widths the parser asks for: 12, 20 and 32 bits. */
  predicate WidthsOk(u: Unit) {
    forall e <- u.elements :: e.Cell? && e.deferred.Some? ==> 0 < e.deferred.value.width <= 32
  }

  // ----- Addresses -----

  function Size(e: Element): nat {
    if e.Cell? then 1 else e.count
  }

  function Address(es: seq<Element>, j: nat): nat
    requires j <= |es|
  {
    if j == 0 then 0 else Address(es, j - 1) + Size(es[j - 1])
  }

  function UnitSize(u: Unit): nat {
    Address(u.elements, |u.elements|)
  }

  lemma {:induction false} AddressMonotone(es: seq<Element>, i: nat, j: nat)
    requires i < j <= |es|
    ensures Address(es, i) + Size(es[i]) <= Address(es, j)
  {
    if i + 1 < j { AddressMonotone(es, i, j - 1); }
  }

  /** Put every label of `ls` at address `a`. */
  function Place(labels: Labels, ls: seq<string>, a: Word): (r: Labels)
    ensures r.Keys == labels.Keys + (set l | l in ls)
    ensures forall l <- ls :: r[l] == a
    ensures forall l <- labels :: l !in ls ==> r[l] == labels[l]
  {
    if ls == [] then labels
    else
      var n := |ls| - 1;
      assert ls == ls[..n] + [ls[n]];
      Place(labels, ls[..n], a)[ls[n] := a]
  }

  /** Labels on the first j elements. */
  function LabelsTo(es: seq<Element>, j: nat): Labels
    requires j <= |es|
  {
    if j == 0 then map[]
    else Place(LabelsTo(es, j - 1), es[j - 1].labels, Wrap(Address(es, j - 1)))
  }

  function UnitLabels(u: Unit): Labels {
    LabelsTo(u.elements, |u.elements|)
  }

  /** No label of `ls` is repeated or already taken. */
  ghost predicate Fresh(labels: Labels, ls: seq<string>) {
    && (forall a, b | 0 <= a < b < |ls| :: ls[a] != ls[b])
    && forall l <- ls :: l !in labels
  }

  ghost predicate NoDuplicates(es: seq<Element>, j: nat)
    requires j <= |es|
  {
    forall i | 0 <= i < j :: FreshAt(es, i)
  }

  ghost predicate FreshAt(es: seq<Element>, i: nat)
    requires i < |es|
  {
    Fresh(LabelsTo(es, i), es[i].labels)
  }

  /** One more label keeps a list fresh exactly when it is not among those placed. */
  lemma FreshNext(before: Labels, ls: seq<string>, k: nat, reladdr: Word)
    requires k < |ls| && Fresh(before, ls[..k])
    ensures Fresh(before, ls[..k + 1]) <==> ls[k] !in Place(before, ls[..k], reladdr)
    ensures Fresh(before, ls) ==> Fresh(before, ls[..k + 1])
    ensures Place(before, ls[..k + 1], reladdr) == Place(before, ls[..k], reladdr)[ls[k] := reladdr]
  {
    if ls[k] in ls[..k] {
      var i :| 0 <= i < k && ls[..k][i] == ls[k];
      assert ls[..k + 1][i] == ls[..k + 1][k];
    }
    assert ls[..k + 1] == ls[..k] + [ls[k]] && ls[..k + 1][..k] == ls[..k];
  }

  lemma FreshEnds(before: Labels, ls: seq<string>, reladdr: Word)
    ensures Fresh(before, ls[..0]) && Place(before, ls[..0], reladdr) == before && ls[..|ls|] == ls
  {
  }

  method AddLabels(before: Labels, ls: seq<string>, reladdr: Word) returns (labels: Labels, duplicate: bool)
    ensures !duplicate <==> Fresh(before, ls)
    ensures !duplicate ==> labels == Place(before, ls, reladdr)
  {
    hide Fresh, Place;
    labels, duplicate := before, false;
    FreshEnds(before, ls, reladdr);
    for k := 0 to |ls|
      invariant labels == Place(before, ls[..k], reladdr) && !duplicate && Fresh(before, ls[..k])
    {
      FreshNext(before, ls, k, reladdr);
      if ls[k] in labels {
        duplicate := true;
        return;
      }
      labels := labels[ls[k] := reladdr];
    }
  }

  lemma WrapZero()
    ensures Wrap(0) == 0
  {
  }

  /** The first pass, refusing a label given twice. */
  method FixupInsns(es: seq<Element>) returns (reladdrs: seq<Word>, labels: Labels, duplicate: bool)
    ensures !duplicate <==> NoDuplicates(es, |es|)
    ensures !duplicate ==> labels == LabelsTo(es, |es|)
    ensures !duplicate ==> |reladdrs| == |es| && forall j | 0 <= j < |es| :: reladdrs[j] == Wrap(Address(es, j))
  {
    hide Fresh, Place, Wrap, Plus;
    var reladdr: Word := 0;
    reladdrs, labels, duplicate := [], map[], false;
    WrapZero();
    for j := 0 to |es|
      invariant reladdr == Wrap(Address(es, j)) && labels == LabelsTo(es, j) && NoDuplicates(es, j) && !duplicate
      invariant |reladdrs| == j && forall k | 0 <= k < j :: reladdrs[k] == Wrap(Address(es, k))
    {
      labels, duplicate := AddLabels(labels, es[j].labels, reladdr);
      assert duplicate == !FreshAt(es, j);
      if duplicate { return; }
      reladdrs := reladdrs + [reladdr];
      WrapPlus(Address(es, j), Size(es[j]));
      reladdr := Plus(reladdr, Size(es[j]));
    }
  }

  /** An instruction or datum takes one word and a block as many as it says. */
  lemma AddressNext(es: seq<Element>, j: nat)
    requires j < |es|
    ensures Address(es, 0) == 0
    ensures Address(es, j + 1) - Address(es, j) == if es[j].Zeros? then es[j].count else 1
  {
  }

  /** Where a label ends up is the address of its element. */
  lemma {:induction false} LabelIs(es: seq<Element>, j: nat, i: nat, l: string)
    requires i < j <= |es| && l in es[i].labels && NoDuplicates(es, j)
    ensures l in LabelsTo(es, j) && LabelsTo(es, j)[l] == Address(es, i) % 0x1_0000_0000
  {
    hide Address;
    if i < j - 1 {
      LabelIs(es, j - 1, i, l);
      assert FreshAt(es, j - 1);
    }
  }

  /** All the labels on the first j elements, in order. */
  function AllLabels(es: seq<Element>, j: nat): seq<string>
    requires j <= |es|
  {
    if j == 0 then [] else AllLabels(es, j - 1) + es[j - 1].labels
  }

  ghost predicate Distinct(ls: seq<string>) {
    forall a, b | 0 <= a < b < |ls| :: ls[a] != ls[b]
  }

  lemma {:induction false} LabelsAre(es: seq<Element>, j: nat)
    requires j <= |es|
    ensures LabelsTo(es, j).Keys == set l | l in AllLabels(es, j)
  {
    hide Address;
    if j > 0 { LabelsAre(es, j - 1); }
  }

  /** Labels are unique exactly when no name is written twice in the unit. */
  lemma {:induction false} DuplicatesExactly(es: seq<Element>, j: nat)
    requires j <= |es|
    ensures NoDuplicates(es, j) <==> Distinct(AllLabels(es, j))
  {
    if j > 0 {
      DuplicatesExactly(es, j - 1);
      LabelsAre(es, j - 1);
      assert NoDuplicates(es, j) <==> NoDuplicates(es, j - 1) && FreshAt(es, j - 1);
      DistinctSum(AllLabels(es, j - 1), es[j - 1].labels);
    }
  }

  lemma DistinctSum(p: seq<string>, q: seq<string>)
    ensures Distinct(p + q) <==> Distinct(p) && Distinct(q) && forall l <- q :: l !in p
  {
    var s := p + q;
    if Distinct(s) {
      forall a, b | 0 <= a < b < |p| ensures p[a] != p[b] {
        assert s[a] == p[a] && s[b] == p[b];
      }
      forall a, b | 0 <= a < b < |q| ensures q[a] != q[b] {
        assert s[|p| + a] == q[a] && s[|p| + b] == q[b];
      }
      forall l <- q ensures l !in p {
        var b :| 0 <= b < |q| && q[b] == l;
        forall a | 0 <= a < |p| ensures p[a] != l {
          assert s[a] == p[a] && s[|p| + b] == l;
        }
      }
    }
    if Distinct(p) && Distinct(q) && forall l <- q :: l !in p {
      forall a, b | 0 <= a < b < |s| ensures s[a] != s[b] {
        if b >= |p| { assert q[b - |p|] in q; }
      }
    }
  }

  // ----- Deferred expressions -----

  /** SEXTEND32 at any width. */
  function SignExtend(width: nat, w: Word): Word
    requires 0 < width <= 32
  {
    if width == 32 then w
    else
      var low := w % Pow2(width);
      if low < Pow2(width - 1) then low else Wrap(low - Pow2(width))
  }

  /** The value that goes into the field: the parser may have asked for its negative. */
  function FieldValue(d: Deferred, v: Word): Word {
    if d.negative then Minus(0, v) else v
  }

  function LocalValue(d: Deferred, addr: Word, labels: Labels): Option<Word> {
    Value(d.expr, addr, LocalEnv(labels))
  }

  predicate Assembles(d: Deferred, addr: Word, labels: Labels)
    requires 0 < d.width <= 32
  {
    var v := LocalValue(d, addr, labels);
    v.Some? && (d.ignoreWidth || FieldValue(d, v.value) == SignExtend(d.width, FieldValue(d, v.value)))
  }

  predicate ElementOk(e: Element, addr: Word, labels: Labels)
    requires e.Cell? && e.deferred.Some? ==> 0 < e.deferred.value.width <= 32
  {
    e.Cell? && e.deferred.Some? ==> Assembles(e.deferred.value, addr, labels)
  }

  /** A value is accepted in a field exactly when, as a signed number, it lies in the field's range. */
  lemma FieldRange(w: Word, width: nat)
    requires 0 < width <= 32
    ensures w == SignExtend(width, w) <==> 0 - Pow2(width - 1) <= Signed(w) < Pow2(width - 1)
  {
    Pow2Of32();
    assert Pow2(width) == 2 * Pow2(width - 1);
    Pow2Monotone(width, 32);
    Pow2Split(width, 32);
    var p, h := Pow2(width), Pow2(width - 1);
    hide Pow2;
    if 0 - h <= Signed(w) < 0 {
      ModFromTop(w, p, Pow2(32 - width));
    } else if 0 <= Signed(w) < h {
      SmallRemainder(w, p);
    }
  }

  lemma ModFromTop(w: Word, p: nat, q: nat)
    requires p > 0 && q * p == 0x1_0000_0000 && 0x1_0000_0000 - p <= w
    ensures w % p == w - (0x1_0000_0000 - p)
  {
    assert (q - 1) * p == q * p - p;
    ModUnique(w, p, q - 1, w - (q - 1) * p);
  }

  /** So assembling a field fails exactly without a value, or with one out of range that is not to
      be cut. */
  lemma AssemblesExactly(d: Deferred, addr: Word, labels: Labels)
    requires 0 < d.width <= 32
    ensures Assembles(d, addr, labels)
       <==> && LocalValue(d, addr, labels).Some?
            && (d.ignoreWidth
                || 0 - Pow2(d.width - 1) <= Signed(FieldValue(d, LocalValue(d, addr, labels).value)) < Pow2(d.width - 1))
  {
    if LocalValue(d, addr, labels).Some? {
      FieldRange(FieldValue(d, LocalValue(d, addr, labels).value), d.width);
    }
    hide Pow2, SignExtend, FieldValue, LocalValue;
  }

  /** The word an element is assembled to. */
  function CellWord(e: Element, addr: Word, labels: Labels): Word
    requires e.Cell? && e.deferred.Some? ==> 0 < e.deferred.value.width <= 32
    requires ElementOk(e, addr, labels)
  {
    if e.Zeros? then 0
    else if e.deferred.None? then e.word
    else
      var d := e.deferred.value;
      WithLow(e.word, d.width, FieldValue(d, LocalValue(d, addr, labels).value))
  }

  function RelocsOf(e: Element, addr: Word, labels: Labels): seq<Relocation> {
    if e.Cell? && e.deferred.Some? then
      RelocList(e.deferred.value.expr, labels, addr, e.deferred.value.width, false)
    else []
  }

  /** The relocations of the elements from j on. */
  function RelocsFrom(es: seq<Element>, labels: Labels, j: nat): seq<Relocation>
    requires j <= |es|
    decreases |es| - j
  {
    if j == |es| then [] else RelocsOf(es[j], Wrap(Address(es, j)), labels) + RelocsFrom(es, labels, j + 1)
  }

  /** One round of fixup_deferred_exprs. */
  method FixupOne(pd: ParseData, e: Element, addr: Word) returns (word: Word, ok: bool)
    requires e.Cell? && e.deferred.Some? ==> 0 < e.deferred.value.width <= 32
    modifies pd
    ensures ok == ElementOk(e, addr, pd.labels)
    ensures ok ==> word == CellWord(e, addr, pd.labels) && pd.relocs == RelocsOf(e, addr, pd.labels) + old(pd.relocs)
  {
    hide RelocList, Value, And, Or, SignExtend, WithLow;
    if e.Zeros? { return 0, true; }
    if e.deferred.None? { return e.word, true; }
    var d := e.deferred.value;
    var result := pd.CeEval(d.expr, addr, d.width, false);
    if result.None? { return 0, false; }
    var value := FieldValue(d, result.value);
    ok := d.ignoreWidth || value == SignExtend(d.width, value);
    var mask := LowMask(d.width);
    MaskedUpdate(e.word, d.width, value);
    word := Or(And(e.word, Not(mask)), And(value, mask));
  }

  ghost predicate AllOk(u: Unit, labels: Labels, from: nat)
    requires WidthsOk(u)
  {
    forall j | from <= j < |u.elements| :: OkAt(u, labels, j)
  }

  ghost predicate OkAt(u: Unit, labels: Labels, j: nat)
    requires WidthsOk(u) && j < |u.elements|
  {
    ElementOk(u.elements[j], Wrap(Address(u.elements, j)), labels)
  }

  ghost predicate WordAt(u: Unit, labels: Labels, words: seq<Word>, j: nat)
    requires WidthsOk(u) && j < |u.elements|
  {
    OkAt(u, labels, j) && j < |words|
    && words[j] == CellWord(u.elements[j], Wrap(Address(u.elements, j)), labels)
  }

  /** The second pass; the list of deferred expressions was built back to front. */
  method FixupDeferred(u: Unit, reladdrs: seq<Word>, labels: Labels)
    returns (words: seq<Word>, relocs: seq<Relocation>, ok: bool)
    requires WidthsOk(u) && |reladdrs| == |u.elements|
    requires forall j | 0 <= j < |u.elements| :: reladdrs[j] == Wrap(Address(u.elements, j))
    ensures ok == AllOk(u, labels, 0)
    ensures ok ==> |words| == |u.elements| && forall j | 0 <= j < |words| :: WordAt(u, labels, words, j)
    ensures ok ==> relocs == RelocsFrom(u.elements, labels, 0)
  {
    hide ElementOk, CellWord, RelocsOf, Wrap;
    var es := u.elements;
    var pd := new ParseData(labels);
    words, relocs, ok := seq(|es|, _ => 0), [], true;
    for j := |es| downto 0
      invariant |words| == |es| && ok && AllOk(u, labels, j)
      invariant forall k | j <= k < |es| :: WordAt(u, labels, words, k)
      invariant pd.relocs == RelocsFrom(es, labels, j) && fresh(pd)
    {
      var word;
      word, ok := FixupOne(pd, es[j], reladdrs[j]);
      assert ok == OkAt(u, labels, j);
      if !ok { return; }
      ghost var before := words;
      words := words[j := word];
      forall k | j <= k < |es|
        ensures WordAt(u, labels, words, k)
      {
        assert k > j ==> WordAt(u, labels, before, k);
      }
    }
    relocs := pd.relocs;
  }

  // ----- The object -----

  /** What the linker may rely on in an assembled object. */
  ghost predicate Assembled(u: Unit, o: Obj)
    requires WidthsOk(u)
  {
    var labels := UnitLabels(u);
    && NoDuplicates(u.elements, |u.elements|) && AllOk(u, labels, 0)
    && |o.records| == 1 && o.records[0].addr == 0 && |o.records[0].data| == UnitSize(u)
    && (forall j | 0 <= j < |u.elements| :: EmittedAt(u, o.records[0].data, j))
    && o.symbols == (map n | n in labels && n in u.globals :: labels[n])
    && o.relocs == RelocsFrom(u.elements, labels, 0)
  }

  ghost predicate EmittedAt(u: Unit, data: seq<Word>, j: nat)
    requires WidthsOk(u) && j < |u.elements|
  {
    Size(u.elements[j]) > 0 ==>
      && OkAt(u, UnitLabels(u), j)
      && Address(u.elements, j) < |data|
      && data[Address(u.elements, j)]
         == CellWord(u.elements[j], Wrap(Address(u.elements, j)), UnitLabels(u))
  }

  /** What lies where in an assembled object: the word of every instruction or datum at the count of
      words before it, its field holding the value of its expression and its other bits as they
      were, and a zero at the start of every block. */
  lemma ObjectHolds(u: Unit, o: Obj, j: nat)
    requires WidthsOk(u) && Assembled(u, o) && j < |u.elements|
    ensures var e, data := u.elements[j], o.records[0].data;
            var a := Address(u.elements, j);
            && (e.Zeros? && e.count > 0 ==> a < |data| && data[a] == 0)
            && (e.Cell? ==> a < |data|)
            && (e.Cell? && e.deferred.None? ==> data[a] == e.word)
            && (e.Cell? && e.deferred.Some? ==>
                  var d := e.deferred.value;
                  var v := LocalValue(d, Wrap(a), UnitLabels(u));
                  && v.Some?
                  && data[a] / Pow2(d.width) == e.word / Pow2(d.width)
                  && data[a] % Pow2(d.width) == FieldValue(d, v.value) % Pow2(d.width))
  {
    hide UnitLabels, Wrap, NoDuplicates, LocalValue, FieldValue, SignExtend, Pow2, RelocsFrom, WithLow;
    assert EmittedAt(u, o.records[0].data, j) && OkAt(u, UnitLabels(u), j);
    var e := u.elements[j];
    if e.Cell? && e.deferred.Some? {
      var d := e.deferred.value;
      FieldsOfWithLow(e.word, d.width, FieldValue(d, LocalValue(d, Wrap(Address(u.elements, j)), UnitLabels(u)).value));
    }
  }

  lemma FieldsOfWithLow(w: Word, width: nat, v: int)
    requires width <= 32
    ensures WithLow(w, width, v) / Pow2(width) == w / Pow2(width)
    ensures WithLow(w, width, v) % Pow2(width) == v % Pow2(width)
  {
    var p := Pow2(width);
    assert WithLow(w, width, v) == w - w % p + v % p;
    hide Pow2, WithLow;
    assert w - w % p == w / p * p;
    ModUnique(w / p * p + v % p, p, w / p, v % p);
  }

  /** When it all succeeds: no name written twice, and for every deferred expression a value that
      is in range or may be cut. */
  lemma AssemblesWhen(u: Unit)
    requires WidthsOk(u)
    ensures NoDuplicates(u.elements, |u.elements|) <==> Distinct(AllLabels(u.elements, |u.elements|))
    ensures AllOk(u, UnitLabels(u), 0)
       <==> forall j | 0 <= j < |u.elements| && u.elements[j].Cell? && u.elements[j].deferred.Some? ::
              Assembles(u.elements[j].deferred.value, Wrap(Address(u.elements, j)), UnitLabels(u))
  {
    DuplicatesExactly(u.elements, |u.elements|);
    hide Assembles, Wrap, UnitLabels, NoDuplicates, Distinct;
    forall j | 0 <= j < |u.elements|
      ensures OkAt(u, UnitLabels(u), j)
         <==> (u.elements[j].Cell? && u.elements[j].deferred.Some? ==>
                 Assembles(u.elements[j].deferred.value, Wrap(Address(u.elements, j)), UnitLabels(u)))
    {
    }
  }

  /** obj_out over the elements. The words of a block after its first one are left open:
      the source clears them by bytes, not by words. */
  method EmitData(u: Unit, words: seq<Word>) returns (data: seq<Word>)
    requires WidthsOk(u) && |words| == |u.elements|
    requires forall j | 0 <= j < |words| :: WordAt(u, UnitLabels(u), words, j)
    ensures |data| == UnitSize(u)
    ensures forall j | 0 <= j < |u.elements| :: EmittedAt(u, data, j)
  {
    hide CellWord, ElementOk, UnitLabels, LabelsTo, Wrap;
    var es := u.elements;
    data := [];
    for j := 0 to |es|
      invariant |data| == Address(es, j)
      invariant forall k | 0 <= k < j :: EmittedAt(u, data, k)
    {
      ghost var before := data;
      assert WordAt(u, UnitLabels(u), words, j);
      var n := Size(es[j]);
      if n > 0 {
        assert |seq(n - 1, _ => 0)| == n - 1;
        var rest: seq<Word> :| |rest| == n - 1;
        data := data + ([words[j]] + rest);
      }
      forall k | 0 <= k < j + 1
        ensures EmittedAt(u, data, k)
      {
        assert k < j ==> EmittedAt(u, before, k);
      }
    }
  }

  /** do_assembly after parsing. */
  method Assemble(u: Unit) returns (r: Result<Obj>)
    requires WidthsOk(u)
    ensures r.Ok? ==> Assembled(u, r.value)
    ensures r.Ok? <==> NoDuplicates(u.elements, |u.elements|) && AllOk(u, UnitLabels(u), 0)
  {
    hide NoDuplicates, AllOk, EmittedAt, WordAt, RelocsFrom;
    var reladdrs, labels, duplicate := FixupInsns(u.elements);
    if duplicate { return Fatal; }
    var words, relocs, ok := FixupDeferred(u, reladdrs, labels);
    if !ok { return Fatal; }
    var data := EmitData(u, words);
    var symbols := map n | n in labels && n in u.globals :: labels[n];
    r := Ok(Obj([Record(0, data)], symbols, relocs));
  }
}
