/** obj_write and obj_read as they run: streams consumed and produced piece by piece, on
    hosts of either byte order. */
module ObjStream {
  import opened Words
  import opened ObjFormat

  /** An array of words in the host's memory. */
  function MemoryOf(h: Host, ws: seq<Word>): seq<Byte> {
    if ws == [] then [] else Image(h, ws[0]) + MemoryOf(h, ws[1..])
  }

  lemma {:induction false} MemoryIsStream(ws: seq<Word>)
    ensures MemoryOf(LittleEndian, ws) == PutWs(ws, [])
  {
    hide Image;
    if ws != [] { MemoryIsStream(ws[1..]); }
  }

  lemma {:induction false} PutWsFront(ws: seq<Word>, rest: seq<Byte>)
    ensures PutWs(ws, rest) == PutWs(ws, []) + rest
  {
    if ws == [] {
      assert [] + rest == rest;
    } else {
      hide Image;
      PutWsFront(ws[1..], rest);
      var a, b := Image(LittleEndian, ws[0]), PutWs(ws[1..], []);
      assert a + (b + rest) == (a + b) + rest;
    }
  }

  lemma PutWFront(w: Word, rest: seq<Byte>)
    ensures PutW(w, rest) == PutWs([w], []) + rest
  {
    assert PutWs([w], []) == Image(LittleEndian, w) + PutWs([], []);
    hide Image;
    assert Image(LittleEndian, w) + [] == Image(LittleEndian, w);
  }

  lemma PutRecordFront(r: Record, rest: seq<Byte>)
    ensures ObjFormat.PutRecord(r, rest) == ObjFormat.PutRecord(r, []) + rest
  {
    hide PutWs;
    PutWsFront(r.data, rest);
    var d := PutWs(r.data, []);
    PutWFront(r.size, d + rest);
    PutWFront(r.size, d);
    PutWFront(r.addr, PutW(r.size, d + rest));
    PutWFront(r.addr, PutW(r.size, d));
    hide PutW;
    var a, b := PutWs([r.addr], []), PutWs([r.size], []);
    assert a + (b + (d + rest)) == (a + (b + d)) + rest;
  }

  lemma PutNamedFront(e: Named, rest: seq<Byte>)
    ensures ObjFormat.PutNamed(e, rest) == ObjFormat.PutNamed(e, []) + rest
  {
    hide PutWs;
    PutWFront(e.extent, rest);
    PutWFront(e.extent, []);
    PutWFront(e.at, PutW(e.extent, rest));
    PutWFront(e.at, PutW(e.extent, []));
    PutWFront(e.flags, e.name + PutW(e.at, PutW(e.extent, rest)));
    PutWFront(e.flags, e.name + PutW(e.at, PutW(e.extent, [])));
    hide PutW;
    var a, n, b, c := PutWs([e.flags], []), e.name, PutWs([e.at], []), PutWs([e.extent], []);
    assert c + [] == c;
    assert a + (n + (b + (c + rest))) == (a + (n + (b + c))) + rest;
  }

  lemma {:induction false} PutRecordsFront(rs: seq<Record>, rest: seq<Byte>)
    ensures PutRecords(rs, rest) == PutRecords(rs, []) + rest
  {
    if rs == [] {
      assert [] + rest == rest;
    } else {
      hide PutRecord;
      PutRecordsFront(rs[1..], rest);
      var a, b := ObjFormat.PutRecord(rs[0], []), PutRecords(rs[1..], []);
      PutRecordFront(rs[0], b + rest);
      PutRecordFront(rs[0], b);
      assert a + (b + rest) == (a + b) + rest;
    }
  }

  lemma {:induction false} PutNamedsFront(es: seq<Named>, rest: seq<Byte>)
    ensures PutNameds(es, rest) == PutNameds(es, []) + rest
  {
    if es == [] {
      assert [] + rest == rest;
    } else {
      hide PutNamed;
      PutNamedsFront(es[1..], rest);
      var a, b := ObjFormat.PutNamed(es[0], []), PutNameds(es[1..], []);
      PutNamedFront(es[0], b + rest);
      PutNamedFront(es[0], b);
      assert a + (b + rest) == (a + b) + rest;
    }
  }

  predicate Sized(r: Record) {
    r.size == |r.data|
  }

  class Writer {
    const host: Host
    var out: seq<Byte>

    constructor (host: Host)
      ensures this.host == host && out == []
    {
      this.host, out := host, [];
    }

    /** put_sized_le */
    method PutRaw(data: seq<Byte>)
      modifies this
      ensures out == old(out) + data
    {
      out := out + data;
    }

    /** put_sized for words. A big-endian host swaps them one at a time. */
    method PutWords(src: seq<Word>)
      modifies this
      ensures out == old(out) + PutWs(src, [])
    {
      hide Image, Swap;
      if host.LittleEndian? {
        MemoryIsStream(src);
        PutRaw(MemoryOf(host, src));
      } else {
        ghost var all := old(out) + PutWs(src, []);
        for i := 0 to |src|
          invariant out + PutWs(src[i..], []) == all
        {
          var temp := Swap(src[i]);
          SwappedImage(src[i]);
          assert PutWs(src[i..], []) == Image(LittleEndian, src[i]) + PutWs(src[i..][1..], []);
          assert src[i..][1..] == src[i + 1..];
          ghost var before := out;
          PutRaw(Image(host, temp));
          assert before + (Image(LittleEndian, src[i]) + PutWs(src[i + 1..], []))
              == (before + Image(LittleEndian, src[i])) + PutWs(src[i + 1..], []);
        }
        assert src[|src|..] == [];
        assert out + [] == out;
      }
    }

    method PutRecord(r: Record)
      requires Sized(r)
      modifies this
      ensures out == old(out) + ObjFormat.PutRecord(r, [])
    {
      hide PutWs;
      PutWords([r.addr]);
      PutWords([r.size]);
      PutWords(r.data);
      PutWFront(r.size, PutWs(r.data, []));
      PutWFront(r.addr, PutW(r.size, PutWs(r.data, [])));
      hide PutW;
      var a, b, c := PutWs([r.addr], []), PutWs([r.size], []), PutWs(r.data, []);
      assert old(out) + (a + (b + c)) == ((old(out) + a) + b) + c;
    }

    method PutNamed(e: Named)
      modifies this
      ensures out == old(out) + ObjFormat.PutNamed(e, [])
    {
      hide PutWs;
      PutWords([e.flags]);
      PutRaw(e.name);
      PutWords([e.at]);
      PutWords([e.extent]);
      PutWFront(e.extent, []);
      PutWFront(e.at, PutW(e.extent, []));
      PutWFront(e.flags, e.name + PutW(e.at, PutW(e.extent, [])));
      hide PutW;
      var a, n, b, c := PutWs([e.flags], []), e.name, PutWs([e.at], []), PutWs([e.extent], []);
      assert c + [] == c;
      assert old(out) + (a + (n + (b + c))) == (((old(out) + a) + n) + b) + c;
    }

    method PutRecords(rs: seq<Record>)
      requires forall r <- rs :: Sized(r)
      modifies this
      ensures out == old(out) + ObjFormat.PutRecords(rs, [])
    {
      hide ObjFormat.PutRecord;
      ghost var all := old(out) + ObjFormat.PutRecords(rs, []);
      for i := 0 to |rs|
        invariant out + ObjFormat.PutRecords(rs[i..], []) == all
      {
        assert rs[i..][1..] == rs[i + 1..];
        ghost var before, a, b := out, ObjFormat.PutRecord(rs[i], []), ObjFormat.PutRecords(rs[i + 1..], []);
        PutRecordFront(rs[i], b);
        assert before + (a + b) == (before + a) + b;
        PutRecord(rs[i]);
      }
      assert rs[|rs|..] == [] && out + [] == out;
    }

    method PutNameds(es: seq<Named>)
      modifies this
      ensures out == old(out) + ObjFormat.PutNameds(es, [])
    {
      hide ObjFormat.PutNamed;
      ghost var all := old(out) + ObjFormat.PutNameds(es, []);
      for i := 0 to |es|
        invariant out + ObjFormat.PutNameds(es[i..], []) == all
      {
        assert es[i..][1..] == es[i + 1..];
        ghost var before, a, b := out, ObjFormat.PutNamed(es[i], []), ObjFormat.PutNameds(es[i + 1..], []);
        PutNamedFront(es[i], b);
        assert before + (a + b) == (before + a) + b;
        PutNamed(es[i]);
      }
      assert es[|es|..] == [] && out + [] == out;
    }

    /** obj_write: only version 0 is written, and on either host as the same bytes. */
    method Write(o: Obj) returns (ok: bool)
      requires forall r <- o.records :: Sized(r)
      modifies this
      ensures ok == (o.version == 0)
      ensures out == if ok then old(out) + PutObj(o, []) else old(out)
    {
      if o.version != 0 { return false; }
      ghost var rs := if o.recCount > 0 then o.records else [];
      ghost var ss := if o.symCount > 0 then o.symbols else [];
      ghost var ls := if o.rlcCount > 0 then o.relocs else [];
      // what is still to be written, from each list on
      ghost var r6 := ObjFormat.PutNameds(ls, []);
      ghost var r5 := PutW(o.rlcCount, r6);
      ghost var r4 := ObjFormat.PutNameds(ss, r5);
      ghost var r3 := PutW(o.symCount, r4);
      ghost var r2 := ObjFormat.PutRecords(rs, r3);
      ghost var r1 := PutW(o.recCount, r2);
      ghost var r0 := PutW(o.flags, r1);
      ghost var all := old(out) + PutObj(o, []);
      hide PutWs, PutW, ObjFormat.PutRecords, ObjFormat.PutNameds;
      assert PutObj(o, []) == MAGIC + ([o.version] + r0);
      hide PutObj;

      PutRaw(MAGIC);
      Regroup(old(out), MAGIC, [o.version] + r0);
      ghost var so := out;
      PutRaw([o.version]);
      Regroup(so, [o.version], r0);
      so := out;
      PutWords([o.flags]);
      PutWFront(o.flags, r1);
      Regroup(so, PutWs([o.flags], []), r1);
      so := out;
      PutWords([o.recCount]);
      PutWFront(o.recCount, r2);
      Regroup(so, PutWs([o.recCount], []), r2);
      assert out + r2 == all;

      if o.recCount > 0 { PutRecords(o.records); } else { NothingPut(out); }
      PutRecordsFront(rs, r3);
      Regroup(so + PutWs([o.recCount], []), ObjFormat.PutRecords(rs, []), r3);
      so := out;
      PutWords([o.symCount]);
      PutWFront(o.symCount, r4);
      Regroup(so, PutWs([o.symCount], []), r4);
      assert out + r4 == all;

      if o.symCount > 0 { PutNameds(o.symbols); } else { NothingPut(out); }
      PutNamedsFront(ss, r5);
      Regroup(so + PutWs([o.symCount], []), ObjFormat.PutNameds(ss, []), r5);
      so := out;
      PutWords([o.rlcCount]);
      PutWFront(o.rlcCount, r6);
      Regroup(so, PutWs([o.rlcCount], []), r6);
      if o.rlcCount > 0 { PutNameds(o.relocs); } else { NothingPut(out); }
      ok := true;
    }
  }

  lemma Regroup(a: seq<Byte>, b: seq<Byte>, c: seq<Byte>)
    ensures a + (b + c) == (a + b) + c
  {
  }

  lemma NothingPut(out: seq<Byte>)
    ensures out + ObjFormat.PutRecords([], []) == out && out + ObjFormat.PutNameds([], []) == out
  {
  }

  // ----- Reading -----

  function WordsOf(h: Host, b: seq<Byte>): (ws: seq<Word>)
    requires |b| % 4 == 0
    ensures |ws| == |b| / 4
  {
    if b == [] then [] else [FromImage(h, b[..4])] + WordsOf(h, b[4..])
  }

  lemma {:induction false} WordsAt(h: Host, b: seq<Byte>, i: nat)
    requires |b| % 4 == 0 && i < |b| / 4
    ensures WordsOf(h, b)[i] == FromImage(h, b[4 * i..4 * i + 4])
  {
    hide FromImage;
    if i > 0 {
      WordsAt(h, b[4..], i - 1);
      assert b[4..][4 * (i - 1)..4 * (i - 1) + 4] == b[4 * i..4 * i + 4];
    }
  }

  lemma {:induction false} GetWsAll(b: seq<Byte>, n: nat)
    ensures |b| >= 4 * n ==> GetWs(b, n) == Got(WordsOf(LittleEndian, b[..4 * n]), b[4 * n..])
    ensures |b| < 4 * n ==> GetWs(b, n).Broken?
  {
    hide FromImage;
    if n > 0 && |b| >= 4 {
      GetWsAll(b[4..], n - 1);
      if |b| >= 4 * n {
        assert b[4..][4 * (n - 1)..] == b[4 * n..];
        assert b[..4 * n][4..] == b[4..][..4 * (n - 1)] && b[..4 * n][..4] == b[..4];
      }
    }
  }

  class Reader {
    const host: Host
    const size: nat
    var rest: seq<Byte>

    constructor (host: Host, file: seq<Byte>)
      ensures this.host == host && size == |file| && rest == file
    {
      this.host, size, rest := host, |file|, file;
    }

    /** get_sized_le: a short read is fatal. */
    method GetRaw(n: nat) returns (p: Parsed<seq<Byte>>)
      modifies this
      ensures p == GetBytes(old(rest), n) && !p.TooBig? && (p.Got? ==> rest == p.rest)
    {
      if |rest| < n { return Broken; }
      var data := rest[..n];
      rest := rest[n..];
      p := Got(data, rest);
    }

    /** get_sized for words. A big-endian host swaps them in place. */
    method GetWords(n: nat) returns (p: Parsed<seq<Word>>)
      modifies this
      ensures p == GetWs(old(rest), n) && !p.TooBig? && (p.Got? ==> rest == p.rest)
    {
      hide FromImage, Swap, WordsOf, GetWs;
      GetWsAll(rest, n);
      var raw := GetRaw(4 * n);
      if !raw.Got? { return Broken; }
      var words := WordsOf(host, raw.value);
      if host.BigEndian? {
        var dest := new Word[n](i requires 0 <= i < n => words[i]);
        for i := 0 to n
          invariant rest == raw.rest
          invariant forall k | 0 <= k < i :: dest[k] == WordsOf(LittleEndian, raw.value)[k]
          invariant forall k | i <= k < n :: dest[k] == words[k]
        {
          WordsAt(host, raw.value, i);
          WordsAt(LittleEndian, raw.value, i);
          SwappedBack(raw.value[4 * i..4 * i + 4]);
          dest[i] := Swap(dest[i]);
        }
        words := dest[..];
        assert words == WordsOf(LittleEndian, raw.value);
      } else {
        assert host == LittleEndian;
      }
      p := Got(words, rest);
    }

    method GetWord() returns (p: Parsed<Word>)
      modifies this
      ensures p == GetW(old(rest)) && !p.TooBig? && (p.Got? ==> rest == p.rest)
    {
      OneWord(rest);
      hide GetWs, GetW;
      var ws := GetWords(1);
      if !ws.Got? { return Broken; }
      p := Got(ws.value[0], rest);
    }

    method ReadRecord() returns (p: Parsed<Record>)
      modifies this
      ensures p == GetRecord(old(rest), size) && (p.Got? ==> rest == p.rest)
    {
      hide GetW, GetWs, Wrap;
      var addr := GetWord();
      if !addr.Got? { return Broken; }
      var count := GetWord();
      if !count.Got? { return Broken; }
      if count.value > MAX_REC_SIZE { return TooBig; }
      var here := size - |rest|;
      if count.value + here > Wrap(size) { return TooBig; }
      var data := GetWords(count.value);
      if !data.Got? { return Broken; }
      p := Got(Record(addr.value, count.value, data.value), rest);
    }

    method ReadRecords(n: nat) returns (p: Parsed<seq<Record>>)
      modifies this
      ensures p == GetRecords(old(rest), n, size) && (p.Got? ==> rest == p.rest)
    {
      hide GetRecord;
      var records: seq<Record> := [];
      PrependNothing(GetRecords(rest, n, size));
      for i := 0 to n
        invariant Prepend(records, GetRecords(rest, n - i, size)) == GetRecords(old(rest), n, size)
      {
        NextRecord(records, rest, n - i, size);
        var r := ReadRecord();
        if !r.Got? { return r.PropagateFailure(); }
        records := records + [r.value];
      }
      assert records + [] == records;
      p := Got(records, rest);
    }

    method ReadNamed() returns (p: Parsed<Named>)
      modifies this
      ensures p == GetNamed(old(rest)) && (p.Got? ==> rest == p.rest)
    {
      hide GetW, GetBytes;
      var flags := GetWord();
      if !flags.Got? { return Broken; }
      var name := GetRaw(SYMBOL_LEN);
      NameLength(flags.rest);
      if !name.Got? { return Broken; }
      var at := GetWord();
      if !at.Got? { return Broken; }
      var extent := GetWord();
      if !extent.Got? { return Broken; }
      p := Got(Named(flags.value, name.value, at.value, extent.value), rest);
    }

    method ReadNameds(n: nat) returns (p: Parsed<seq<Named>>)
      modifies this
      ensures p == GetNameds(old(rest), n) && (p.Got? ==> rest == p.rest)
    {
      hide GetNamed;
      var list: seq<Named> := [];
      PrependNothing(GetNameds(rest, n));
      for i := 0 to n
        invariant Prepend(list, GetNameds(rest, n - i)) == GetNameds(old(rest), n)
      {
        NextNamed(list, rest, n - i);
        var e := ReadNamed();
        if !e.Got? { return e.PropagateFailure(); }
        list := list + [e.value];
      }
      assert list + [] == list;
      p := Got(list, rest);
    }

    /** obj_read and obj_v0_read */
    method Read() returns (p: Parsed<Obj>)
      modifies this
      ensures p == GetObj(old(rest), size) && (p.Got? ==> rest == p.rest)
    {
      hide GetW, GetBytes, GetRecords, GetNameds;
      var magic := GetRaw(3);
      if !magic.Got? { return Broken; }
      if magic.value != MAGIC { return Broken; }
      var version := GetRaw(1);
      if !version.Got? { return Broken; }
      OneByte(magic.rest);
      if version.value[0] != 0 { return Broken; }
      p := ReadBody();
    }

    method ReadBody() returns (p: Parsed<Obj>)
      modifies this
      ensures p == GetBody(old(rest), size) && (p.Got? ==> rest == p.rest)
    {
      hide GetW, GetRecords, GetNameds;
      var flags := GetWord();
      if !flags.Got? { return Broken; }
      var recCount := GetWord();
      if !recCount.Got? { return Broken; }
      if recCount.value > MAX_COUNT { return TooBig; }
      var records := ReadRecords(recCount.value);
      if !records.Got? { return records.PropagateFailure(); }
      var symCount := GetWord();
      if !symCount.Got? { return Broken; }
      if symCount.value > MAX_COUNT { return TooBig; }
      var symbols := ReadNameds(symCount.value);
      if !symbols.Got? { return symbols.PropagateFailure(); }
      var rlcCount := GetWord();
      if !rlcCount.Got? { return Broken; }
      if rlcCount.value > MAX_COUNT { return TooBig; }
      var relocs := ReadNameds(rlcCount.value);
      if !relocs.Got? { return relocs.PropagateFailure(); }
      p := Got(Obj(0, flags.value, recCount.value, records.value, symCount.value, symbols.value,
                   rlcCount.value, relocs.value), rest);
    }
  }

  lemma PrependNothing<T>(p: Parsed<seq<T>>)
    ensures Prepend([], p) == p
  {
    if p.Got? { assert [] + p.value == p.value; }
  }

  lemma NameLength(b: seq<Byte>)
    ensures GetBytes(b, SYMBOL_LEN).Got? ==> |GetBytes(b, SYMBOL_LEN).value| == SYMBOL_LEN
  {
  }

  lemma OneByte(b: seq<Byte>)
    ensures GetBytes(b, 1).Got? ==> |GetBytes(b, 1).value| == 1
  {
  }

  lemma NextRecord(front: seq<Record>, b: seq<Byte>, n: nat, size: nat)
    requires n > 0
    ensures var r := GetRecord(b, size);
            Prepend(front, GetRecords(b, n, size))
            == if r.Got? then Prepend(front + [r.value], GetRecords(r.rest, n - 1, size)) else r.PropagateFailure()
  {
    hide GetRecord;
    var r := GetRecord(b, size);
    if r.Got? && GetRecords(r.rest, n - 1, size).Got? {
      var tail := GetRecords(r.rest, n - 1, size).value;
      assert front + ([r.value] + tail) == (front + [r.value]) + tail;
    }
  }

  lemma NextNamed(front: seq<Named>, b: seq<Byte>, n: nat)
    requires n > 0
    ensures var e := GetNamed(b);
            Prepend(front, GetNameds(b, n))
            == if e.Got? then Prepend(front + [e.value], GetNameds(e.rest, n - 1)) else e.PropagateFailure()
  {
    hide GetNamed;
    var e := GetNamed(b);
    if e.Got? && GetNameds(e.rest, n - 1).Got? {
      var tail := GetNameds(e.rest, n - 1).value;
      assert front + ([e.value] + tail) == (front + [e.value]) + tail;
    }
  }

  lemma OneWord(b: seq<Byte>)
    ensures GetW(b).Got? <==> GetWs(b, 1).Got?
    ensures !GetW(b).Got? ==> GetW(b).Broken?
    ensures GetW(b).Got? ==> GetWs(b, 1).value == [GetW(b).value] && GetWs(b, 1).rest == GetW(b).rest
  {
    hide FromImage;
    if GetW(b).Got? { assert GetWs(GetW(b).rest, 0) == Got([], GetW(b).rest); }
  }
}
