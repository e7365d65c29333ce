/** The version 0 object format (src/obj.c): a writer and a reader of byte streams that
    undo each other, the same on little-endian and big-endian hosts. */
module ObjFormat {
  import opened Words

  type Byte = b: int | 0 <= b < 256

  // ----- Words as bytes -----

  datatype Host = LittleEndian | BigEndian

  function ByteOf(w: Word, k: nat): Byte
    requires k < 4
  {
    if k == 0 then w % 0x100 else if k == 1 then w / 0x100 % 0x100
    else if k == 2 then w / 0x1_0000 % 0x100 else w / 0x100_0000
  }

  /** The four bytes of a word in the host's memory. */
  function Image(h: Host, w: Word): (r: seq<Byte>)
    ensures |r| == 4
  {
    var little := [ByteOf(w, 0), ByteOf(w, 1), ByteOf(w, 2), ByteOf(w, 3)];
    if h.LittleEndian? then little else [little[3], little[2], little[1], little[0]]
  }

  function FromImage(h: Host, b: seq<Byte>): Word
    requires |b| == 4
  {
    if h.LittleEndian? then Joined(b[0], b[1], b[2], b[3]) else Joined(b[3], b[2], b[1], b[0])
  }

  function Joined(b0: Byte, b1: Byte, b2: Byte, b3: Byte): Word {
    b0 + b1 * 0x100 + b2 * 0x1_0000 + b3 * 0x100_0000
  }

  /** swapword */
  function Swap(w: Word): Word {
    Or(Or(Or(Shl(And(Shr(w, 24), 0xff), 0), Shl(And(Shr(w, 16), 0xff), 8)),
          Shl(And(Shr(w, 8), 0xff), 16)),
       Shl(And(Shr(w, 0), 0xff), 24))
  }

  lemma BytePowers()
    ensures Pow2(0) == 1 && Pow2(8) == 0x100 && Pow2(16) == 0x1_0000 && Pow2(24) == 0x100_0000
  {
    Pow2Of32();
    assert Pow2(8) == 0x100;
    assert Pow2(16) == 0x1_0000;
  }

  lemma SwapByte(w: Word, from: nat, to: nat)
    requires from < 4 && to < 4
    ensures Shl(And(Shr(w, 8 * from), 0xff), 8 * to) == ByteOf(w, from) * Pow2(8 * to)
  {
    ByteAt(w, from);
    hide Pow2, Shl, Shr, And, ByteOf;
    ShlByte(ByteOf(w, from), to);
  }

  lemma ByteAt(w: Word, k: nat)
    requires k < 4
    ensures And(Shr(w, 8 * k), 0xff) == ByteOf(w, k)
  {
    BytePowers();
    Pow2Of32();
    hide Pow2, Shr, BitOp;
    AndLowMask(Shr(w, 8 * k), 8, 32);
    ShrBytes(w);
  }

  lemma ShrBytes(w: Word)
    ensures Shr(w, 0) == w && Shr(w, 8) == w / 0x100 && Shr(w, 16) == w / 0x1_0000
    ensures Shr(w, 24) == w / 0x100_0000 < 0x100
  {
    BytePowers();
    hide Pow2, Shr;
    ShrValue(w, 0);
    ShrValue(w, 8);
    ShrValue(w, 16);
    ShrValue(w, 24);
  }

  lemma ShlByte(b: Byte, to: nat)
    requires to < 4
    ensures Shl(b, 8 * to) == b * Pow2(8 * to)
  {
    BytePowers();
    hide Pow2;
    ShlValue(b, 8 * to);
    hide Shl;
    if to == 0 { WrapSmall(b * 1); } else if to == 1 { WrapSmall(b * 0x100); }
    else if to == 2 { WrapSmall(b * 0x1_0000); } else { WrapSmall(b * 0x100_0000); }
  }

  lemma OrByte(low: Word, b: Byte, k: nat)
    requires k in {8, 16, 24} && low < Pow2(k)
    ensures b * Pow2(k) < 0x1_0000_0000 && Or(low, b * Pow2(k)) == low + b * Pow2(k)
  {
    BytePowers();
    Pow2Of32();
    hide Pow2;
    OrDisjoint(b, low, k, 32);
    OrCommutes(low, b * Pow2(k), 32);
  }

  lemma SwapReverses(w: Word)
    ensures Swap(w) == Joined(ByteOf(w, 3), ByteOf(w, 2), ByteOf(w, 1), ByteOf(w, 0))
  {
    BytePowers();
    hide Pow2, Shl, Shr, BitOp, And, Or, ByteOf;
    SwapByte(w, 3, 0);
    SwapByte(w, 2, 1);
    SwapByte(w, 1, 2);
    SwapByte(w, 0, 3);
    var b3: int, b2: int, b1: int := ByteOf(w, 3), ByteOf(w, 2), ByteOf(w, 1);
    OrByte(b3, b2, 8);
    OrByte(b3 + b2 * 0x100, b1, 16);
    OrByte(b3 + b2 * 0x100 + b1 * 0x1_0000, ByteOf(w, 0), 24);
  }

  lemma JoinedBytes(b0: Byte, b1: Byte, b2: Byte, b3: Byte)
    ensures var w := Joined(b0, b1, b2, b3);
            ByteOf(w, 0) == b0 && ByteOf(w, 1) == b1 && ByteOf(w, 2) == b2 && ByteOf(w, 3) == b3
  {
    var w := Joined(b0, b1, b2, b3);
    var q2 := b2 + b3 * 0x100;
    var q1 := b1 + q2 * 0x100;
    TakeByte(q1, b0);
    TakeByte(q2, b1);
    TakeByte(b3, b2);
    assert w / 0x1_0000 == w / 0x100 / 0x100 && w / 0x100_0000 == w / 0x1_0000 / 0x100;
  }

  lemma TakeByte(q: nat, b: Byte)
    ensures (b + q * 0x100) / 0x100 == q && (b + q * 0x100) % 0x100 == b
  {
  }

  lemma BytesJoined(w: Word)
    ensures Joined(ByteOf(w, 0), ByteOf(w, 1), ByteOf(w, 2), ByteOf(w, 3)) == w
  {
    var q1, q2, q3 := w / 0x100, w / 0x1_0000, w / 0x100_0000;
    NextByte(w, 0x100);
    NextByte(w, 0x1_0000);
    assert w == q1 * 0x100 + w % 0x100;
  }

  lemma NextByte(w: int, p: nat)
    requires p == 0x100 || p == 0x1_0000
    ensures w / p == w / (p * 0x100) * 0x100 + w / p % 0x100
  {
    var q := w / p / 0x100;
    if p == 0x100 { assert w / 0x1_0000 == q; } else { assert w / 0x100_0000 == q; }
  }

  /** The stream carries words least significant byte first, whatever the host. */
  lemma SwappedImage(w: Word)
    ensures Image(BigEndian, Swap(w)) == Image(LittleEndian, w)
  {
    SwapReverses(w);
    JoinedBytes(ByteOf(w, 3), ByteOf(w, 2), ByteOf(w, 1), ByteOf(w, 0));
    hide Swap, ByteOf, Joined;
  }

  lemma SwappedBack(b: seq<Byte>)
    requires |b| == 4
    ensures Swap(FromImage(BigEndian, b)) == FromImage(LittleEndian, b)
  {
    SwapReverses(FromImage(BigEndian, b));
    JoinedBytes(b[3], b[2], b[1], b[0]);
    hide Swap, ByteOf, Joined;
  }

  lemma ImageBack(w: Word)
    ensures FromImage(LittleEndian, Image(LittleEndian, w)) == w
  {
    BytesJoined(w);
    hide ByteOf, Joined;
  }

  // ----- Objects -----

  const SYMBOL_LEN: nat := 32
  const MAX_COUNT: nat := 0xffff
  const MAX_REC_SIZE: nat := 0x7fff_ffff
  const MAGIC: seq<Byte> := [84, 79, 86]

  type Name = s: seq<Byte> | |s| == SYMBOL_LEN witness seq(32, _ => 0)

  datatype Record = Record(addr: Word, size: Word, data: seq<Word>)
  /** A symbol (flags, name, value, size) or a relocation (flags, name, address, width). */
  datatype Named = Named(flags: Word, name: Name, at: Word, extent: Word)
  datatype Obj = Obj(
    version: Byte, flags: Word,
    recCount: Word, records: seq<Record>,
    symCount: Word, symbols: seq<Named>,
    rlcCount: Word, relocs: seq<Named>)

  /** What a read ends in: a value, the EFBIG return, or the fatal error of a bad stream. */
  datatype Parsed<+T> = Got(value: T, rest: seq<Byte>) | TooBig | Broken
  {
    predicate IsFailure() {
      !Got?
    }

    function PropagateFailure<U>(): Parsed<U>
      requires IsFailure()
    {
      if TooBig? then TooBig else Broken
    }

    function Extract(): (T, seq<Byte>)
      requires !IsFailure()
    {
      (value, rest)
    }
  }

  // ----- The stream an object is written as, in front of what follows it -----

  function PutW(w: Word, rest: seq<Byte>): seq<Byte> {
    Image(LittleEndian, w) + rest
  }

  function PutWs(ws: seq<Word>, rest: seq<Byte>): seq<Byte> {
    if ws == [] then rest else PutW(ws[0], PutWs(ws[1..], rest))
  }

  function PutRecord(r: Record, rest: seq<Byte>): seq<Byte> {
    PutW(r.addr, PutW(r.size, PutWs(r.data, rest)))
  }

  function PutRecords(rs: seq<Record>, rest: seq<Byte>): seq<Byte> {
    if rs == [] then rest else PutRecord(rs[0], PutRecords(rs[1..], rest))
  }

  function PutNamed(e: Named, rest: seq<Byte>): seq<Byte> {
    PutW(e.flags, e.name + PutW(e.at, PutW(e.extent, rest)))
  }

  function PutNameds(es: seq<Named>, rest: seq<Byte>): seq<Byte> {
    if es == [] then rest else PutNamed(es[0], PutNameds(es[1..], rest))
  }

  /** A list is written when its count is not zero, and then in full. */
  function PutObj(o: Obj, rest: seq<Byte>): seq<Byte> {
    MAGIC + ([o.version] + PutW(o.flags,
      PutW(o.recCount, PutRecords(if o.recCount > 0 then o.records else [],
        PutW(o.symCount, PutNameds(if o.symCount > 0 then o.symbols else [],
          PutW(o.rlcCount, PutNameds(if o.rlcCount > 0 then o.relocs else [], rest))))))))
  }

  // ----- Reading it -----

  function GetBytes(b: seq<Byte>, n: nat): Parsed<seq<Byte>> {
    if |b| < n then Broken else Got(b[..n], b[n..])
  }

  function GetW(b: seq<Byte>): Parsed<Word> {
    if |b| < 4 then Broken else Got(FromImage(LittleEndian, b[..4]), b[4..])
  }

  function GetWs(b: seq<Byte>, n: nat): Parsed<seq<Word>>
    decreases n
  {
    if n == 0 then Got([], b)
    else
      var (w, rest) :- GetW(b);
      Prepend([w], GetWs(rest, n - 1))
  }

  function Prepend<T>(front: seq<T>, p: Parsed<seq<T>>): Parsed<seq<T>> {
    if p.Got? then Got(front + p.value, p.rest) else p
  }

  /** One record. Its claimed size is checked against the length of the whole file, which the
      comparison cuts to 32 bits. */
  function GetRecord(b: seq<Byte>, size: nat): Parsed<Record> {
    var (addr, rest1) :- GetW(b);
    var (count, rest2) :- GetW(rest1);
    if count > MAX_REC_SIZE || count + (size - |rest2|) > Wrap(size) then TooBig
    else
      var (data, rest3) :- GetWs(rest2, count);
      Got(Record(addr, count, data), rest3)
  }

  function GetRecords(b: seq<Byte>, n: nat, size: nat): Parsed<seq<Record>>
    decreases n
  {
    if n == 0 then Got([], b)
    else
      var (r, rest) :- GetRecord(b, size);
      Prepend([r], GetRecords(rest, n - 1, size))
  }

  function GetNamed(b: seq<Byte>): Parsed<Named> {
    var (flags, rest1) :- GetW(b);
    var (name, rest2) :- GetBytes(rest1, SYMBOL_LEN);
    var (at, rest3) :- GetW(rest2);
    var (extent, rest4) :- GetW(rest3);
    Got(Named(flags, name, at, extent), rest4)
  }

  function GetNameds(b: seq<Byte>, n: nat): Parsed<seq<Named>>
    decreases n
  {
    if n == 0 then Got([], b)
    else
      var (e, rest) :- GetNamed(b);
      Prepend([e], GetNameds(rest, n - 1))
  }

  /** obj_v0_read, after the magic and the version. */
  function GetBody(b: seq<Byte>, size: nat): Parsed<Obj> {
    var (flags, rest1) :- GetW(b);
    var (recCount, rest2) :- GetW(rest1);
    if recCount > MAX_COUNT then TooBig
    else
      var (records, rest3) :- GetRecords(rest2, recCount, size);
      var (symCount, rest4) :- GetW(rest3);
      if symCount > MAX_COUNT then TooBig
      else
        var (symbols, rest5) :- GetNameds(rest4, symCount);
        var (rlcCount, rest6) :- GetW(rest5);
        if rlcCount > MAX_COUNT then TooBig
        else
          var (relocs, rest7) :- GetNameds(rest6, rlcCount);
          Got(Obj(0, flags, recCount, records, symCount, symbols, rlcCount, relocs), rest7)
  }

  /** obj_read */
  function GetObj(b: seq<Byte>, size: nat): Parsed<Obj> {
    var (magic, rest1) :- GetBytes(b, 3);
    if magic != MAGIC then Broken
    else
      var (version, rest2) :- GetBytes(rest1, 1);
      if version[0] != 0 then Broken else GetBody(rest2, size)
  }

  // ----- Round trip -----

  lemma GetPutW(w: Word, rest: seq<Byte>)
    ensures GetW(PutW(w, rest)) == Got(w, rest) && |PutW(w, rest)| == 4 + |rest|
  {
    ImageBack(w);
    hide ByteOf, Joined;
    assert PutW(w, rest)[..4] == Image(LittleEndian, w);
  }

  lemma GetPutBytes(front: seq<Byte>, rest: seq<Byte>)
    ensures GetBytes(front + rest, |front|) == Got(front, rest)
  {
    assert (front + rest)[..|front|] == front;
  }

  lemma {:induction false} GetPutWs(ws: seq<Word>, rest: seq<Byte>)
    ensures GetWs(PutWs(ws, rest), |ws|) == Got(ws, rest) && |PutWs(ws, rest)| == 4 * |ws| + |rest|
  {
    hide PutW, GetW;
    if ws != [] {
      GetPutW(ws[0], PutWs(ws[1..], rest));
      GetPutWs(ws[1..], rest);
      assert [ws[0]] + ws[1..] == ws;
    }
  }

  predicate RecordOk(r: Record) {
    r.size == |r.data|
  }

  predicate RecordsOk(rs: seq<Record>) {
    rs == [] || (RecordOk(rs[0]) && RecordsOk(rs[1..]))
  }

  /** Whether a record's size passes the length check when it starts at `here` in the file. */
  predicate RecordFits(r: Record, here: int, size: nat) {
    r.size <= 0x7fff_ffff && r.size + here + 8 <= Wrap(size)
  }

  predicate RecordsFit(rs: seq<Record>, here: int, size: nat) {
    rs == [] || (RecordFits(rs[0], here, size) && RecordsFit(rs[1..], here + 8 + 4 * |rs[0].data|, size))
  }

  lemma GetPutRecord(r: Record, rest: seq<Byte>, size: nat)
    requires RecordOk(r)
    ensures var b := PutRecord(r, rest);
            |b| == 8 + 4 * |r.data| + |rest|
            && GetRecord(b, size) == if RecordFits(r, size - |b|, size) then Got(r, rest) else TooBig
  {
    hide PutW, GetW, Wrap, PutWs, GetWs;
    GetPutWs(r.data, rest);
    GetPutW(r.size, PutWs(r.data, rest));
    GetPutW(r.addr, PutW(r.size, PutWs(r.data, rest)));
  }

  /** Reading |rs| records succeeds with those, or fails for a size too big. */
  ghost predicate ReadsRecords(b: seq<Byte>, rs: seq<Record>, rest: seq<Byte>, size: nat, ok: bool) {
    GetRecords(b, |rs|, size) == if ok then Got(rs, rest) else TooBig
  }

  lemma {:induction false} GetPutRecords(rs: seq<Record>, rest: seq<Byte>, size: nat, b: seq<Byte>, ok: bool)
    requires RecordsOk(rs) && b == PutRecords(rs, rest) && ok == RecordsFit(rs, size - |b|, size)
    ensures ReadsRecords(b, rs, rest, size, ok)
    decreases rs
  {
    if rs != [] {
      hide PutRecord, RecordFits, RecordOk, ReadsRecords;
      var r, tail := rs[0], PutRecords(rs[1..], rest);
      var here, next := size - |b|, size - |tail|;
      PutRecordLength(r, tail);
      RecordsFitNext(rs, here, next, size);
      var others := RecordsFit(rs[1..], next, size);
      GetPutRecords(rs[1..], rest, size, tail, others);
      GetPutFirst(r, rs[1..], b, tail, rest, size, others);
      assert [r] + rs[1..] == rs;
    }
  }

  lemma PutRecordLength(r: Record, rest: seq<Byte>)
    ensures |PutRecord(r, rest)| == 8 + 4 * |r.data| + |rest|
  {
    hide ByteOf;
    GetPutWs(r.data, rest);
  }

  lemma GetPutFirst(r: Record, rs: seq<Record>, b: seq<Byte>, tail: seq<Byte>, rest: seq<Byte>, size: nat, others: bool)
    requires RecordOk(r) && b == PutRecord(r, tail) && ReadsRecords(tail, rs, rest, size, others)
    ensures ReadsRecords(b, [r] + rs, rest, size, RecordFits(r, size - |b|, size) && others)
  {
    hide PutRecord, GetRecord, RecordFits, RecordOk, ReadsRecords;
    GetPutRecord(r, tail, size);
    GetRecordsCons(r, rs, b, tail, rest, size, RecordFits(r, size - |b|, size), others);
  }

  lemma GetRecordsCons(r: Record, rs: seq<Record>, b: seq<Byte>, tail: seq<Byte>, rest: seq<Byte>, size: nat,
                       first: bool, others: bool)
    requires GetRecord(b, size) == if first then Got(r, tail) else TooBig
    requires ReadsRecords(tail, rs, rest, size, others)
    ensures ReadsRecords(b, [r] + rs, rest, size, first && others)
  {
    hide GetRecord;
  }

  lemma RecordsFitNext(rs: seq<Record>, here: int, next: int, size: nat)
    requires rs != [] && next == here + 8 + 4 * |rs[0].data|
    ensures RecordsFit(rs, here, size) <==> RecordFits(rs[0], here, size) && RecordsFit(rs[1..], next, size)
  {
  }

  lemma GetPutNamed(e: Named, rest: seq<Byte>)
    ensures GetNamed(PutNamed(e, rest)) == Got(e, rest)
  {
    hide PutW, GetW, GetBytes;
    GetPutW(e.extent, rest);
    GetPutW(e.at, PutW(e.extent, rest));
    GetPutBytes(e.name, PutW(e.at, PutW(e.extent, rest)));
    GetPutW(e.flags, e.name + PutW(e.at, PutW(e.extent, rest)));
  }

  lemma {:induction false} GetPutNameds(es: seq<Named>, rest: seq<Byte>)
    ensures GetNameds(PutNameds(es, rest), |es|) == Got(es, rest)
  {
    hide PutNamed, GetNamed;
    if es != [] {
      GetPutNamed(es[0], PutNameds(es[1..], rest));
      GetPutNameds(es[1..], rest);
      assert [es[0]] + es[1..] == es;
    }
  }

  /** With counts and sizes that match the lists. */
  predicate Consistent(o: Obj) {
    && o.version == 0 && o.recCount == |o.records| && RecordsOk(o.records)
    && o.symCount == |o.symbols| && o.rlcCount == |o.relocs|
  }

  /** And at most 65535 of each. */
  predicate ObjOk(o: Obj) {
    Consistent(o) && |o.records| <= 65535 && |o.symbols| <= 65535 && |o.relocs| <= 65535
  }

  const HEADER: nat := 12

  /** Reading back what was written gives the object, exactly when no list has more than 65535
      entries and the records pass the size and length checks; the latter can fail for files from
      2^32 bytes on, where the cut length gets in the way. */
  lemma RoundTrip(o: Obj, rest: seq<Byte>)
    requires Consistent(o)
    ensures var b := PutObj(o, rest);
            GetObj(b, |b|) == if ObjOk(o) && RecordsFit(o.records, HEADER, |b|) then Got(o, rest) else TooBig
  {
    var b := PutObj(o, rest);
    hide PutW, GetW, GetBytes, RecordsFit, PutRecords, GetRecords, PutNameds, GetNameds, PutObj;
    var b7 := rest;
    var b6 := PutNameds(o.relocs, b7);
    var b5 := PutW(o.rlcCount, b6);
    var b4 := PutNameds(o.symbols, b5);
    var b3 := PutW(o.symCount, b4);
    var b2 := PutRecords(o.records, b3);
    var b1 := PutW(o.recCount, b2);
    var b0 := PutW(o.flags, b1);
    PutObjParts(o, rest);
    GetPutBytes(MAGIC, [o.version] + b0);
    GetPutBytes([o.version], b0);
    GetPutW(o.flags, b1);
    GetPutW(o.recCount, b2);
    GetPutRecords(o.records, b3, |b|, b2, RecordsFit(o.records, HEADER, |b|));
    GetPutW(o.symCount, b4);
    GetPutNameds(o.symbols, b5);
    GetPutW(o.rlcCount, b6);
    GetPutNameds(o.relocs, b7);
  }

  lemma PutObjParts(o: Obj, rest: seq<Byte>)
    requires Consistent(o)
    ensures PutObj(o, rest) ==
            MAGIC + ([o.version] + PutW(o.flags, PutW(o.recCount, PutRecords(o.records,
              PutW(o.symCount, PutNameds(o.symbols, PutW(o.rlcCount, PutNameds(o.relocs, rest))))))))
  {
    hide PutW, PutRecords, PutNameds;
  }

  lemma FirstFits(r: Record, tail: seq<Byte>, size: nat)
    requires RecordOk(r) && |PutRecord(r, tail)| <= size < 0x1_0000_0000
    ensures |PutRecord(r, tail)| == 8 + 4 * |r.data| + |tail|
    ensures RecordFits(r, size - |PutRecord(r, tail)|, size)
  {
    hide PutRecord, GetRecord;
    GetPutRecord(r, tail, size);
    WrapSmall(size);
  }

  /** Below 2^32 bytes nothing gets in the way. */
  lemma {:induction false} SmallFileFits(rs: seq<Record>, rest: seq<Byte>, size: nat)
    requires RecordsOk(rs)
    requires |PutRecords(rs, rest)| <= size < 0x1_0000_0000
    ensures RecordsFit(rs, size - |PutRecords(rs, rest)|, size)
  {
    if rs != [] {
      hide PutRecord, GetRecord;
      hide RecordOk, RecordFits;
      var r, tail := rs[0], PutRecords(rs[1..], rest);
      var b := PutRecords(rs, rest);
      assert b == PutRecord(r, tail);
      FirstFits(r, tail, size);
      hide PutRecords, RecordsFit;
      SmallFileFits(rs[1..], rest, size);
      RecordsFitNext(rs, size - |b|, size - |tail|, size);
    }
  }

  lemma SmallRoundTrip(o: Obj, rest: seq<Byte>)
    requires ObjOk(o) && |PutObj(o, rest)| < 0x1_0000_0000
    ensures GetObj(PutObj(o, rest), |PutObj(o, rest)|) == Got(o, rest)
  {
    var tail := PutW(o.symCount, PutNameds(o.symbols, PutW(o.rlcCount, PutNameds(o.relocs, rest))));
    var size := |PutObj(o, rest)|;
    PutObjParts(o, rest);
    hide PutRecords, PutNameds, PutObj, RecordsFit, GetObj, Image;
    assert size == HEADER + |PutRecords(o.records, tail)|;
    SmallFileFits(o.records, tail, size);
    RoundTrip(o, rest);
  }

  /** An object of one record without symbols and relocations. */
  function OneRecord(ws: seq<Word>): Obj
    requires |ws| < 0x1_0000_0000
  {
    Obj(0, 0, 1, [Record(0, |ws|, ws)], 0, [], 0, [])
  }

  /** It comes back exactly when its length in words, and the bytes before it, are within the
      length of the file cut to 32 bits. */
  lemma OneRecordExact(ws: seq<Word>)
    requires |ws| <= MAX_REC_SIZE
    ensures var b := PutObj(OneRecord(ws), []);
            && ObjOk(OneRecord(ws)) && |b| == 28 + 4 * |ws|
            && GetObj(b, |b|) == if |ws| + 20 <= Wrap(|b|) then Got(OneRecord(ws), []) else TooBig
  {
    var o := OneRecord(ws);
    var r := o.records[0];
    assert o.records[1..] == [] && RecordsOk(o.records[1..]);
    OneRecordLength(r);
    RoundTrip(o, []);
    RecordsFitNext(o.records, HEADER, HEADER + 8 + 4 * |ws|, |PutObj(o, [])|);
  }

  lemma OneRecordLength(r: Record)
    requires RecordOk(r)
    ensures |PutObj(Obj(0, 0, 1, [r], 0, [], 0, []), [])| == 28 + 4 * |r.data|
  {
    hide PutW, PutRecord;
    var b4 := PutW(0, []);
    var b3 := PutW(0, b4);
    var b2 := PutRecord(r, b3);
    assert [r][1..] == [] && PutRecords([r], b3) == b2;
    GetPutW(0, []);
    GetPutW(0, b4);
    PutRecordLength(r, b3);
    GetPutW(1, b2);
    GetPutW(0, PutW(1, b2));
    assert PutObj(Obj(0, 0, 1, [r], 0, [], 0, []), []) == MAGIC + ([0] + PutW(0, PutW(1, b2)));
  }

  /** The writer's own output refused: 2^30 words make a file of 2^32 + 28 bytes, and its length
      is taken for 28. */
  lemma HugeRefused(ws: seq<Word>)
    requires |ws| == 0x4000_0000
    ensures var b := PutObj(OneRecord(ws), []);
            ObjOk(OneRecord(ws)) && |b| == 0x1_0000_001c && GetObj(b, |b|) == TooBig
  {
    hide PutObj, GetObj, ObjOk, OneRecord;
    OneRecordExact(ws);
  }
}
