/** The linker (src/tld.c): packs objects one after another and patches their records. */
module Linker {
  import opened Options
  import opened Words
  import opened Reloc
  import opened Assembler

  // ----- Where objects and symbols go -----

  function LinkSize(o: Obj): nat {
    if o.records == [] then 0 else |o.records[0].data|
  }

  /** The running offset of do_link_build_state, before it is cut to 32 bits. */
  function Packed(objs: seq<Obj>, k: nat): nat
    requires k <= |objs|
  {
    if k == 0 then 0 else Packed(objs, k - 1) + LinkSize(objs[k - 1])
  }

  function Offset(objs: seq<Obj>, k: nat): Word
    requires k <= |objs|
  {
    Wrap(Packed(objs, k))
  }

  datatype Defn = Defn(owner: nat, reladdr: Word)

  function ExportsOf(objs: seq<Obj>, k: nat): map<string, Word>
    requires k < |objs|
  {
    if objs[k].records == [] then map[] else objs[k].symbols
  }

  /** Symbols of the first k objects. */
  function Defns(objs: seq<Obj>, k: nat): (m: map<string, Defn>)
    requires k <= |objs|
    ensures forall n <- m :: m[n].owner < k
  {
    if k == 0 then map[]
    else Defns(objs, k - 1) + DefnsOf(ExportsOf(objs, k - 1), k - 1)
  }

  function DefnsOf(symbols: map<string, Word>, owner: nat): map<string, Defn> {
    map n | n in symbols :: Defn(owner, symbols[n])
  }

  ghost predicate NewNames(objs: seq<Obj>, k: nat)
    requires k < |objs|
  {
    forall n <- ExportsOf(objs, k) :: n !in Defns(objs, k)
  }

  ghost predicate NoDuplicateDefns(objs: seq<Obj>, k: nat)
    requires k <= |objs|
  {
    forall j | 0 <= j < k :: NewNames(objs, j)
  }

  function AllDefns(objs: seq<Obj>): map<string, Defn> {
    Defns(objs, |objs|)
  }

  /** Final addresses of exported names. */
  function Exports(objs: seq<Obj>): Env {
    n => if n in AllDefns(objs) then
           Plus(AllDefns(objs)[n].reladdr, Offset(objs, AllDefns(objs)[n].owner))
         else 0
  }

  method BuildState(objs: seq<Obj>) returns (offsets: seq<Word>, defns: map<string, Defn>, ok: bool)
    ensures ok == NoDuplicateDefns(objs, |objs|)
    ensures ok ==> defns == AllDefns(objs)
    ensures ok ==> |offsets| == |objs| && forall k | 0 <= k < |objs| :: objs[k].records != [] ==> offsets[k] == Offset(objs, k)
  {
    hide Wrap, Plus, Defns, ExportsOf;
    var running: Word := 0;
    offsets, defns, ok := [], map[], true;
    DefnsStart(objs);
    for k := 0 to |objs|
      invariant running == Offset(objs, k) && defns == Defns(objs, k) && ok && NoDuplicateDefns(objs, k)
      invariant |offsets| == k
      invariant forall j | 0 <= j < k :: objs[j].records != [] ==> offsets[j] == Offset(objs, j)
    {
      DefnsStep(objs, k);
      WrapPlus(Packed(objs, k), LinkSize(objs[k]));
      offsets := offsets + [running];
      if objs[k].records != [] {
        var symbols := objs[k].symbols;
        var clash := symbols.Keys * defns.Keys != {};
        if clash {
          ghost var n :| n in symbols.Keys * defns.Keys;
          assert n in ExportsOf(objs, k) && !NewNames(objs, k);
          ok := false;
          return;
        }
        assert forall n <- symbols :: n in defns ==> n in symbols.Keys * defns.Keys;
        defns := defns + DefnsOf(symbols, k);
        running := Plus(running, |objs[k].records[0].data|);
      }
    }
  }

  lemma DefnsStart(objs: seq<Obj>)
    ensures Defns(objs, 0) == map[] && Offset(objs, 0) == 0
  {
  }

  lemma DefnsStep(objs: seq<Obj>, k: nat)
    requires k < |objs|
    ensures objs[k].records == [] ==> Defns(objs, k + 1) == Defns(objs, k) && NewNames(objs, k)
    ensures objs[k].records == [] ==> Offset(objs, k + 1) == Offset(objs, k)
    ensures objs[k].records != [] ==>
              && ExportsOf(objs, k) == objs[k].symbols
              && Defns(objs, k + 1) == Defns(objs, k) + DefnsOf(objs[k].symbols, k)
  {
  }

  // ----- Patching -----

  /** One relocation applied to a record's data. */
  function ApplyOne(data: seq<Word>, r: Relocation, base: Word, offset: Word, exports: Env): (d: seq<Word>)
    ensures |d| == |data|
  {
    var i := r.addr - base;
    if 0 <= i < |data| && r.width <= 32 then
      data[i := WithLow(data[i], r.width, data[i] + Adjustment(r, offset, exports))]
    else data
  }

  function ApplyAll(data: seq<Word>, rs: seq<Relocation>, base: Word, offset: Word, exports: Env): (d: seq<Word>)
    ensures |d| == |data|
    decreases |rs|
  {
    if rs == [] then data else ApplyAll(ApplyOne(data, rs[0], base, offset, exports), rs[1..], base, offset, exports)
  }

  /** Patching changes the one word the relocation is for, counted from the record's address, and of
      that the low bits, which become their sum with the adjustment. */
  lemma PatchesThere(data: seq<Word>, r: Relocation, base: Word, offset: Word, exports: Env, j: nat)
    requires j < |data| && r.width <= 32
    ensures var d := ApplyOne(data, r, base, offset, exports)[j];
            if r.addr == base + j then
              && d / Pow2(r.width) == data[j] / Pow2(r.width)
              && d % Pow2(r.width)
                 == (data[j] + (match r.name case Some(n) => exports(n) case None => if r.negate then 0 - offset else offset))
                    % Pow2(r.width)
            else d == data[j]
  {
    hide Pow2, WithLow;
    FieldsOfWithLow(data[j], r.width, data[j] + Adjustment(r, offset, exports));
  }

  predicate Resolved(r: Relocation, defns: map<string, Defn>) {
    r.name.Some? ==> r.name.value in defns
  }

  /** The linker gets past a relocation: it is outside the record by more than one word, or inside
      it and its name is known. One just past the end would write outside the record. */
  predicate Passable(r: Relocation, base: Word, size: nat, defns: map<string, Defn>) {
    if r.addr < base || r.addr - base > size then true
    else r.addr - base < size && Resolved(r, defns)
  }

  /** do_link_relocate_obj_reloc on an object's only record. A relocation beyond the record
      is reported and skipped. */
  method RelocateOne(data: seq<Word>, base: Word, rlc: Relocation, offset: Word, defns: map<string, Defn>,
                     offsets: seq<Word>, ghost exports: Env)
    returns (patched: seq<Word>, ok: bool)
    requires 0 < rlc.width <= 32
    requires forall n <- defns :: defns[n].owner < |offsets| && exports(n) == Plus(defns[n].reladdr, offsets[defns[n].owner])
    ensures ok ==> patched == ApplyOne(data, rlc, base, offset, exports)
    ensures ok == Passable(rlc, base, |data|, defns)
  {
    hide And, Or, WithLow, Pow2, Adjustment, Wrap, Minus, LowMask;
    AdjustmentWord(rlc, offset, exports);
    if rlc.addr < base || rlc.addr - base > |data| {
      return data, true;
    }
    if rlc.addr - base == |data| {
      return data, false;
    }
    var reladdr: Word := 0;
    if rlc.name.Some? {
      if rlc.name.value !in defns { return data, false; }
      var def := defns[rlc.name.value];
      reladdr := Plus(def.reladdr, offsets[def.owner]);
    } else {
      reladdr := if rlc.negate then Minus(0, offset) else offset;
    }
    var i := rlc.addr - base;
    var dest := data[i];
    var mask := LowMask(rlc.width);
    var updated := And(Plus(dest, reladdr), mask);
    patched, ok := data[i := Or(And(dest, Not(mask)), updated)], true;
    MaskedUpdate(dest, rlc.width, Plus(dest, reladdr));
    SameLowBits(dest, rlc.width, reladdr, Adjustment(rlc, offset, exports));
  }

  lemma AdjustmentWord(r: Relocation, offset: Word, exports: Env)
    ensures Wrap(Adjustment(r, offset, exports))
         == if r.name.Some? then exports(r.name.value) else if r.negate then Minus(0, offset) else offset
  {
  }

  lemma SameLowBits(dest: Word, width: nat, reladdr: Word, adjustment: int)
    requires width <= 32 && Wrap(adjustment) == reladdr
    ensures WithLow(dest, width, Plus(dest, reladdr)) == WithLow(dest, width, dest + adjustment)
  {
    WrapPlus(dest, adjustment);
    LowOfWrap(dest + adjustment, width);
  }

  /** Object k with its only record patched. */
  function PatchedObj(objs: seq<Obj>, k: nat): Obj
    requires k < |objs|
  {
    var o := objs[k];
    if |o.records| != 1 then o
    else
      var r := o.records[0];
      o.(records := [Record(r.addr, ApplyAll(r.data, o.relocs, r.addr, Offset(objs, k), Exports(objs)))])
  }

  /** Every relocation of object k can be passed, and there are none on several records. */
  ghost predicate Linkable(objs: seq<Obj>, k: nat)
    requires k < |objs|
  {
    var o := objs[k];
    && (|o.records| > 1 ==> o.relocs == [])
    && (|o.records| == 1 ==>
          forall r <- o.relocs :: Passable(r, o.records[0].addr, |o.records[0].data|, AllDefns(objs)))
  }

  /** The cases: without records, and without relocations, there is nothing to fail; several
      records allow none; in one record each has to be inside with its name known, or further
      outside than one word. */
  lemma LinkableCases(objs: seq<Obj>, k: nat)
    requires k < |objs|
    ensures objs[k].records == [] || objs[k].relocs == [] ==> Linkable(objs, k)
    ensures |objs[k].records| >= 2 ==> (Linkable(objs, k) <==> objs[k].relocs == [])
    ensures |objs[k].records| == 1 ==>
              var first, end := objs[k].records[0].addr, objs[k].records[0].addr + |objs[k].records[0].data|;
              Linkable(objs, k)
              <==> forall r <- objs[k].relocs ::
                     r.addr != end && (first <= r.addr < end && r.name.Some? ==> r.name.value in AllDefns(objs))
  {
  }

  /** When a link succeeds: no name is defined twice and every object is linkable. */
  ghost predicate Links(objs: seq<Obj>) {
    NoDuplicateDefns(objs, |objs|) && forall k | 0 <= k < |objs| :: Linkable(objs, k)
  }

  /** Output addresses run over every record there is. */
  function EmitAddress(objs: seq<Obj>, k: nat): nat
    requires k <= |objs|
  {
    if k == 0 then 0 else EmitAddress(objs, k - 1) + RecordWords(objs[k - 1].records)
  }

  function RecordWords(rs: seq<Record>): nat {
    if rs == [] then 0 else RecordWords(rs[..|rs| - 1]) + |rs[|rs| - 1].data|
  }

  function Relocated(rs: seq<Record>, addr: nat, n: nat): seq<Record>
    requires n <= |rs|
  {
    if n == 0 then []
    else Relocated(rs, addr, n - 1) + [Record(Wrap(addr + RecordWords(rs[..n - 1])), rs[n - 1].data)]
  }

  lemma RelocatedNext(rs: seq<Record>, front: seq<Record>, addr: nat, n: nat)
    requires n < |rs|
    ensures RecordWords(rs[..n + 1]) == RecordWords(rs[..n]) + |rs[n].data|
    ensures front + Relocated(rs, addr, n + 1)
         == (front + Relocated(rs, addr, n)) + [Record(Wrap(addr + RecordWords(rs[..n])), rs[n].data)]
  {
    hide Wrap;
    assert rs[..n + 1][..n] == rs[..n];
  }

  lemma NothingRelocated(rs: seq<Record>, front: seq<Record>, addr: nat)
    ensures front + Relocated(rs, addr, 0) == front && RecordWords(rs[..0]) == 0
  {
  }

  function Image(objs: seq<Obj>, k: nat): seq<Record>
    requires k <= |objs|
  {
    if k == 0 then []
    else
      var rs := objs[k - 1].records;
      Image(objs, k - 1) + Relocated(rs, EmitAddress(objs, k - 1), |rs|)
  }

  ghost predicate LinkWidthsOk(objs: seq<Obj>) {
    forall o <- objs :: forall r <- o.relocs :: 0 < r.width <= 32
  }

  /** struct link_state: the objects are patched where they are. */
  class LinkState {
    var objs: seq<Obj>

    constructor (objs: seq<Obj>)
      ensures this.objs == objs
    {
      this.objs := objs;
    }

    /** The relocations of an object applied to its record, in list order. */
    static method PatchRecord(k: nat, o: Obj, ghost input: seq<Obj>, offsets: seq<Word>, defns: map<string, Defn>)
      returns (data: seq<Word>, ok: bool)
      requires k < |input| && o == input[k] && |o.records| == 1 && LinkWidthsOk(input)
      requires defns == AllDefns(input) && |offsets| == |input|
      requires forall j | 0 <= j < |input| :: input[j].records != [] ==> offsets[j] == Offset(input, j)
      ensures ok ==> PatchedObj(input, k) == o.(records := [Record(o.records[0].addr, data)])
      ensures ok == Linkable(input, k)
    {
      hide Offset, Defns, WithLow, ExportsOf, Passable;
      DefnsHaveRecords(input);
      var base := o.records[0].addr;
      data, ok := o.records[0].data, true;
      for i := 0 to |o.relocs|
        invariant |data| == |o.records[0].data| && ok
        invariant ApplyAll(data, o.relocs[i..], base, Offset(input, k), Exports(input))
               == ApplyAll(o.records[0].data, o.relocs, base, Offset(input, k), Exports(input))
        invariant forall r <- o.relocs[..i] :: Passable(r, base, |data|, defns)
      {
        var rlc := o.relocs[i];
        assert o.relocs[i..][1..] == o.relocs[i + 1..] && o.relocs[..i + 1] == o.relocs[..i] + [rlc];
        data, ok := RelocateOne(data, base, rlc, offsets[k], defns, offsets, Exports(input));
        if !ok {
          assert rlc in o.relocs;
          return;
        }
      }
      assert o.relocs[..|o.relocs|] == o.relocs;
    }

    /** do_link_relocate_obj. */
    method RelocateObj(k: nat, ghost input: seq<Obj>, offsets: seq<Word>, defns: map<string, Defn>)
      returns (ok: bool)
      requires k < |objs| == |input| && objs[k] == input[k] && LinkWidthsOk(input)
      requires defns == AllDefns(input) && |offsets| == |input|
      requires forall j | 0 <= j < |input| :: input[j].records != [] ==> offsets[j] == Offset(input, j)
      modifies this
      ensures ok == Linkable(input, k)
      ensures ok ==> objs == old(objs)[k := PatchedObj(input, k)]
    {
      hide Offset, Defns, ApplyAll, ExportsOf;
      var o := objs[k];
      if o.records == [] { assert objs == objs[k := o]; return true; }
      if |o.records| > 1 { assert objs == objs[k := o]; return o.relocs == []; }
      var data;
      data, ok := PatchRecord(k, o, input, offsets, defns);
      if ok { objs := objs[k := o.(records := [Record(o.records[0].addr, data)])]; }
    }

    /** do_link_relocate. */
    method Relocate(offsets: seq<Word>, defns: map<string, Defn>) returns (ok: bool)
      requires LinkWidthsOk(objs) && defns == AllDefns(objs) && |offsets| == |objs|
      requires forall j | 0 <= j < |objs| :: objs[j].records != [] ==> offsets[j] == Offset(objs, j)
      modifies this
      ensures ok == forall k | 0 <= k < |old(objs)| :: Linkable(old(objs), k)
      ensures ok ==> Patched(old(objs), objs, |old(objs)|)
    {
      hide Offset, Defns, PatchedObj, Linkable;
      ghost var input := objs;
      ok := true;
      for k := 0 to |objs|
        invariant |objs| == |input| && ok && Patched(input, objs, k)
        invariant forall j | k <= j < |objs| :: objs[j] == input[j]
      {
        ghost var before := objs;
        ok := RelocateObj(k, input, offsets, defns);
        if !ok { return; }
        assert Linkable(input, k);
        forall j | 0 <= j < k + 1
          ensures PatchedAt(input, objs, j)
        {
          assert j < k ==> PatchedAt(input, before, j);
        }
      }
      forall j | 0 <= j < |input|
        ensures Linkable(input, j)
      {
        assert PatchedAt(input, objs, j);
      }
    }

    /** do_link_emit: copy the records out, one after another. */
    method Emit() returns (image: seq<Record>)
      ensures image == Image(objs, |objs|)
    {
      hide Wrap, Relocated, RecordWords;
      image := [];
      var addr := 0;
      for k := 0 to |objs|
        invariant image == Image(objs, k) && addr == EmitAddress(objs, k)
      {
        var rs := objs[k].records;
        ghost var front, start := image, addr;
        NothingRelocated(rs, front, start);
        for n := 0 to |rs|
          invariant image == front + Relocated(rs, start, n) && addr == start + RecordWords(rs[..n])
        {
          RelocatedNext(rs, front, start, n);
          image := image + [Record(Wrap(addr), rs[n].data)];
          addr := addr + |rs[n].data|;
        }
        assert rs[..|rs|] == rs;
      }
    }

    /** do_link. */
    method Link() returns (r: Result<seq<Record>>)
      requires LinkWidthsOk(objs)
      modifies this
      ensures r.Ok? <==> Links(old(objs))
      ensures r.Ok? ==> Patched(old(objs), objs, |old(objs)|) && r.value == Image(objs, |objs|)
    {
      hide Linkable, NewNames;
      var offsets, defns, ok := BuildState(objs);
      if !ok { return Fatal; }
      ok := Relocate(offsets, defns);
      if !ok { return Fatal; }
      var image := Emit();
      r := Ok(image);
    }
  }

  ghost predicate Patched(input: seq<Obj>, output: seq<Obj>, n: nat) {
    && |output| == |input| && n <= |input|
    && forall k | 0 <= k < n :: PatchedAt(input, output, k)
  }

  ghost predicate PatchedAt(input: seq<Obj>, output: seq<Obj>, k: nat)
    requires k < |input| == |output|
  {
    output[k] == PatchedObj(input, k) && Linkable(input, k)
  }

  lemma {:induction false} DefnsRecords(objs: seq<Obj>, k: nat)
    requires k <= |objs|
    ensures forall n <- Defns(objs, k) :: Defns(objs, k)[n].owner < |objs| && objs[Defns(objs, k)[n].owner].records != []
  {
    if k > 0 { DefnsRecords(objs, k - 1); }
  }

  lemma DefnsHaveRecords(objs: seq<Obj>)
    ensures forall n <- AllDefns(objs) :: AllDefns(objs)[n].owner < |objs| && objs[AllDefns(objs)[n].owner].records != []
    ensures forall n <- AllDefns(objs) ::
              Exports(objs)(n) == Plus(AllDefns(objs)[n].reladdr, Offset(objs, AllDefns(objs)[n].owner))
  {
    DefnsRecords(objs, |objs|);
  }
}
