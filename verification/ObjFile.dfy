/** Assembled objects as files: what the assembler writes (obj_sym and obj_reloc in src/asm.c)
    and the linker reads back (src/tld.c). */
module ObjFile {
  import opened Options
  import opened Words
  import R = Reloc
  import A = Assembler
  import F = ObjFormat

  const RLC_NEGATE: Word := 1

  /** Names that fit their field with a terminating zero. */
  predicate Spelled(s: string) {
    0 < |s| < F.SYMBOL_LEN && forall c <- s :: 0 < c as int < 256
  }

  function Char(s: string, i: nat): F.Byte {
    if i < |s| && s[i] as int < 256 then s[i] as int else 0
  }

  /** The name, ended and filled with zeros. */
  function NameOf(s: string): F.Name {
    seq(F.SYMBOL_LEN, i requires 0 <= i => Char(s, i))
  }

  function StringOf(n: seq<F.Byte>): string {
    if n == [] || n[0] == 0 then "" else [n[0] as char] + StringOf(n[1..])
  }

  lemma {:induction false} StringBack(s: string, n: seq<F.Byte>)
    requires |s| < |n| && (forall c <- s :: 0 < c as int < 256)
    requires forall i: nat | i < |n| :: n[i] == Char(s, i)
    ensures StringOf(n) == s
  {
    assert n[|s|] == Char(s, |s|) == 0;
    if s != "" {
      assert s[0] in s && n[0] == Char(s, 0);
      assert forall c <- s[1..] :: c in s;
      forall i: nat | i < |n[1..]|
        ensures n[1..][i] == Char(s[1..], i)
      {
        assert n[i + 1] == Char(s, i + 1);
      }
      StringBack(s[1..], n[1..]);
      assert n[0] as char == s[0] && s == [s[0]] + s[1..];
    }
  }

  lemma NameBack(s: string)
    requires s == "" || Spelled(s)
    ensures StringOf(NameOf(s)) == s
  {
    StringBack(s, NameOf(s));
  }

  // ----- Relocations -----

  /** A null relocation has no name. */
  function RelocEntry(r: R.Relocation): F.Named
    requires r.width < 0x1_0000_0000
  {
    F.Named(if r.negate then RLC_NEGATE else 0, NameOf(if r.name.Some? then r.name.value else ""), r.addr, r.width)
  }

  function RelocOf(e: F.Named): R.Relocation {
    var s := StringOf(e.name);
    R.Relocation(if s == "" then None else Some(s), e.at, e.extent, e.flags % 2 == RLC_NEGATE)
  }

  predicate RelocOk(r: R.Relocation) {
    r.width < 0x1_0000_0000 && (r.name.Some? ==> Spelled(r.name.value))
  }

  lemma RelocBack(r: R.Relocation)
    requires RelocOk(r)
    ensures RelocOf(RelocEntry(r)) == r
  {
    NameBack(if r.name.Some? then r.name.value else "");
    hide NameOf, StringOf;
  }

  /** What the linker makes of any relocation in a file: bit 0 of the flags negates, and an empty
      name is a null relocation. */
  lemma RelocRead(e: F.Named)
    ensures RelocOf(e).negate <==> Bit(e.flags, 0)
    ensures RelocOf(e).name.None? <==> e.name[0] == 0
    ensures RelocOf(e).addr == e.at && RelocOf(e).width == e.extent
  {
  }

  // ----- Symbols -----

  /** The exported symbols, in the order they stand in the source. */
  function SymbolEntries(symbols: map<string, Word>, order: seq<string>): seq<F.Named>
    requires forall n <- order :: n in symbols
  {
    seq(|order|, i requires 0 <= i < |order| => F.Named(0, NameOf(order[i]), symbols[order[i]], 0))
  }

  /** None of them carries a flag or a size, so the linker takes them all as relative. */
  lemma PlainSymbols(symbols: map<string, Word>, order: seq<string>, i: nat)
    requires (forall n <- order :: n in symbols) && i < |order|
    ensures var e := SymbolEntries(symbols, order)[i];
            e.flags == 0 && e.extent == 0 && e.at == symbols[order[i]] && e.name == NameOf(order[i])
  {
  }

  function SymbolsOf(es: seq<F.Named>): map<string, Word> {
    if es == [] then map[]
    else SymbolsOf(es[..|es| - 1])[StringOf(es[|es| - 1].name) := es[|es| - 1].at]
  }

  lemma {:induction false} SymbolsBack(symbols: map<string, Word>, order: seq<string>)
    requires forall n <- order :: n in symbols && Spelled(n)
    ensures SymbolsOf(SymbolEntries(symbols, order)) == map n | n in order :: symbols[n]
  {
    hide NameOf, StringOf;
    if order != [] {
      var last := |order| - 1;
      var front := order[..last];
      SymbolsBack(symbols, front);
      NameBack(order[last]);
      assert SymbolEntries(symbols, order)[..last] == SymbolEntries(symbols, front);
      assert forall n <- order :: n in front || n == order[last];
    }
  }

  // ----- Objects -----

  function RecordEntry(r: A.Record): F.Record
    requires |r.data| < 0x1_0000_0000
  {
    F.Record(r.addr, |r.data|, r.data)
  }

  /** The file holds the object: names and lists fit, and the order lists its symbols. */
  ghost predicate Storable(o: A.Obj, order: seq<string>) {
    && |o.records| <= F.MAX_COUNT && |order| <= F.MAX_COUNT && |o.relocs| <= F.MAX_COUNT
    && (forall r <- o.records :: |r.data| <= F.MAX_REC_SIZE)
    && (forall r <- o.relocs :: RelocOk(r))
    && (forall n <- order :: Spelled(n)) && (set n | n in order) == o.symbols.Keys
  }

  ghost function ToFile(o: A.Obj, order: seq<string>): F.Obj
    requires Storable(o, order)
  {
    assert forall n <- order :: n in (set m | m in order);
    F.Obj(
      0, 0,
      |o.records|, seq(|o.records|, i requires 0 <= i < |o.records| => assert o.records[i] in o.records; RecordEntry(o.records[i])),
      |order|, SymbolEntries(o.symbols, order),
      |o.relocs|, seq(|o.relocs|, i requires 0 <= i < |o.relocs| => assert RelocOk(o.relocs[i]); RelocEntry(o.relocs[i])))
  }

  function FromFile(f: F.Obj): A.Obj {
    A.Obj(
      seq(|f.records|, i requires 0 <= i < |f.records| => A.Record(f.records[i].addr, f.records[i].data)),
      SymbolsOf(f.symbols),
      seq(|f.relocs|, i requires 0 <= i < |f.relocs| => RelocOf(f.relocs[i])))
  }

  lemma FileHolds(o: A.Obj, order: seq<string>)
    requires Storable(o, order)
    ensures FromFile(ToFile(o, order)) == o
  {
    hide SymbolsOf, SymbolEntries, RelocOf, RelocEntry, RelocOk, Spelled;
    var f := ToFile(o, order);
    SymbolsBack(o.symbols, order);
    assert o.symbols == map n | n in order :: o.symbols[n];
    forall i | 0 <= i < |o.relocs|
      ensures RelocOf(f.relocs[i]) == o.relocs[i]
    {
      RelocBack(o.relocs[i]);
    }
    assert FromFile(f).records == o.records && FromFile(f).relocs == o.relocs;
  }

  lemma FileOk(o: A.Obj, order: seq<string>)
    requires Storable(o, order)
    ensures F.ObjOk(ToFile(o, order))
  {
    hide NameOf, RelocEntry, RelocOk, Spelled;
    forall r <- ToFile(o, order).records
      ensures F.RecordOk(r)
    {
      var i :| 0 <= i < |o.records| && r == RecordEntry(o.records[i]);
      assert o.records[i] in o.records;
    }
    AllRecordsOk(ToFile(o, order).records);
  }

  lemma {:induction false} AllRecordsOk(rs: seq<F.Record>)
    requires forall r <- rs :: F.RecordOk(r)
    ensures F.RecordsOk(rs)
  {
    if rs != [] { AllRecordsOk(rs[1..]); }
  }

  /** An object written to a file below 2^32 bytes and read back is the object. */
  lemma ObjectBack(o: A.Obj, order: seq<string>)
    requires Storable(o, order) && |F.PutObj(ToFile(o, order), [])| < 0x1_0000_0000
    ensures var b := F.PutObj(ToFile(o, order), []);
            F.GetObj(b, |b|).Got? && FromFile(F.GetObj(b, |b|).value) == o
  {
    hide F.PutObj, F.GetObj, F.ObjOk, FromFile, ToFile, Storable;
    FileOk(o, order);
    FileHolds(o, order);
    F.SmallRoundTrip(ToFile(o, order), []);
  }

  /** The object was written to a file and read from it. */
  ghost predicate Filed(o: A.Obj, order: seq<string>, read: A.Obj) {
    && Storable(o, order) && |F.PutObj(ToFile(o, order), [])| < 0x1_0000_0000
    && var b := F.PutObj(ToFile(o, order), []);
       F.GetObj(b, |b|).Got? && read == FromFile(F.GetObj(b, |b|).value)
  }

  /** The linker is given the very objects that were assembled. */
  lemma FiledIsSame(objs: seq<A.Obj>, orders: seq<seq<string>>, read: seq<A.Obj>)
    requires |orders| == |objs| == |read| && forall i | 0 <= i < |objs| :: Filed(objs[i], orders[i], read[i])
    ensures read == objs
  {
    forall i | 0 <= i < |objs|
      ensures read[i] == objs[i]
    {
      assert Filed(objs[i], orders[i], read[i]);
      ObjectBack(objs[i], orders[i]);
    }
  }
}
