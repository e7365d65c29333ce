/** The sparse memh text format (src/asm.c): addresses are written only where the words do
    not follow on, zero words need not be written, and reading fills the gaps. */
module Memh {
  import opened Words

  /** `@address` and a word, both as eight hexadecimal digits. */
  datatype Token = At(address: Word) | Value(word: Word)

  /** An instruction or datum at its address. */
  datatype Element = Element(reladdr: int, word: Word)

  /** What the assembler lays out: a word, or a block of zeros of any size. */
  datatype Item = Item(word: Word, size: nat)
  {
    predicate Sound() {
      size != 1 ==> word == 0
    }
  }

  ghost predicate AllSound(items: seq<Item>) {
    forall i <- items :: i.Sound()
  }

  /** No empty blocks. */
  ghost predicate NoneEmpty(items: seq<Item>) {
    forall i <- items :: i.size > 0
  }

  /** The words the items stand for. */
  function AllWords(items: seq<Item>): seq<Word> {
    if items == [] then []
    else (if items[0].size == 0 then [] else [items[0].word] + Zeros(items[0].size - 1)) + AllWords(items[1..])
  }

  // ----- Writing -----

  /** What memh_out prints for one element; `done` says that something was printed before. */
  function Printed(addr: int, word: Word, written: int, done: bool, explicit: bool): seq<Token> {
    if word == 0 && !explicit then []
    else if Signed(Wrap(addr - written)) > 1 || !done then [At(Wrap(addr)), Value(word)]
    else [Value(word)]
  }

  /** Consecutive items, the first at `addr`. Of a block only one word is printed, if any. */
  function Emitted(items: seq<Item>, addr: int, written: int, done: bool, explicit: bool): seq<Token>
    decreases items
  {
    if items == [] then []
    else if items[0].word == 0 && !explicit then Emitted(items[1..], addr + items[0].size, written, done, explicit)
    else
      Printed(addr, items[0].word, written, done, explicit)
      + Emitted(items[1..], addr + items[0].size, addr, true, explicit)
  }

  // ----- Reading -----

  /** What a loop over memh_in gets, stopping at its first error or the end. */
  function Loaded(tokens: seq<Token>, written: int, marked: int): seq<Element>
    decreases |tokens|, marked - written
  {
    if marked > written then [Element(written, 0)] + Loaded(tokens, written + 1, marked)
    else if marked < written || tokens == [] then []
    else
      match tokens[0]
      case At(a) => Loaded(tokens[1..], written, Signed(a))
      case Value(w) => [Element(written, w)] + Loaded(tokens[1..], written + 1, written + 1)
  }

  // ----- Round trip -----

  function Zeros(n: nat): (r: seq<Word>)
    ensures |r| == n
  {
    seq(n, _ => 0)
  }

  function Placed(addr: int, words: seq<Word>): seq<Element>
    decreases words
  {
    if words == [] then [] else [Element(addr, words[0])] + Placed(addr + 1, words[1..])
  }

  /** Words after a gap; no words, no gap. */
  function Filled(gap: nat, words: seq<Word>): seq<Word> {
    if words == [] then [] else Zeros(gap) + words
  }

  /** The words that come back: up to the last one printed. */
  function Kept(items: seq<Item>, explicit: bool): seq<Word> {
    if items == [] then []
    else
      var rest := Kept(items[1..], explicit);
      if items[0].size == 0 || (items[0].word == 0 && !explicit && rest == []) then rest
      else [items[0].word] + Filled(items[0].size - 1, rest)
  }

  ghost predicate OnlyZerosLost(kept: seq<Word>, words: seq<Word>) {
    kept <= words && forall i | |kept| <= i < |words| :: words[i] == 0
  }

  /** Of the words only trailing zeros are lost: all of them, or, when zeros are written out, those
      after the first of a block at the end. */
  lemma {:induction false} KeptWords(items: seq<Item>, explicit: bool)
    requires AllSound(items) && (explicit ==> NoneEmpty(items))
    ensures var k, w := Kept(items, explicit), AllWords(items);
            && OnlyZerosLost(k, w)
            && (k != [] && !explicit ==> k[|k| - 1] != 0)
            && (explicit && items != [] ==> |k| == |w| - (items[|items| - 1].size - 1) && k != [])
  {
    hide AllWords, Kept, Filled, Zeros, OnlyZerosLost, AllSound, NoneEmpty;
    if items != [] {
      SoundRest(items);
      KeptWords(items[1..], explicit);
      var i, rest, after := items[0], Kept(items[1..], explicit), AllWords(items[1..]);
      assert items[1..] != [] ==> items[1..][|items[1..]| - 1] == items[|items| - 1];
      UnfoldKept(items, explicit);
      if i.size > 0 {
        KeptItem(i.word, i.size - 1, rest, after);
        if items[1..] == [] { NothingKept(0, explicit); }
      }
    } else {
      NothingKept(0, explicit);
    }
  }

  lemma SoundRest(items: seq<Item>)
    requires items != []
    ensures AllSound(items) ==> items[0].Sound() && AllSound(items[1..])
    ensures NoneEmpty(items) ==> items[0].size > 0 && NoneEmpty(items[1..])
  {
    assert items[0] in items;
  }

  lemma UnfoldKept(items: seq<Item>, explicit: bool)
    requires items != []
    ensures var i, rest, after := items[0], Kept(items[1..], explicit), AllWords(items[1..]);
            && Kept(items, explicit)
               == (if i.size == 0 || (i.word == 0 && !explicit && rest == []) then rest
                   else [i.word] + Filled(i.size - 1, rest))
            && AllWords(items) == if i.size == 0 then after else [i.word] + Zeros(i.size - 1) + after
  {
    hide Filled, Zeros;
    if items[0].size == 0 { assert [] + AllWords(items[1..]) == AllWords(items[1..]); }
  }

  lemma KeptItem(word: Word, gap: nat, rest: seq<Word>, after: seq<Word>)
    requires OnlyZerosLost(rest, after)
    ensures var k, w := [word] + Filled(gap, rest), [word] + Zeros(gap) + after;
            && OnlyZerosLost(k, w) && (word == 0 && rest == [] ==> OnlyZerosLost([], w))
            && |k| == (if rest == [] then 1 else 1 + gap + |rest|) && |w| == 1 + gap + |after|
            && k[|k| - 1] == (if rest == [] then word else rest[|rest| - 1])
  {
    if rest != [] { assert [word] + Filled(gap, rest) == ([word] + Zeros(gap)) + rest; }
  }

  lemma NothingKept(gap: nat, explicit: bool)
    ensures Kept([], explicit) == [] == AllWords([]) && Filled(gap, []) == [] && OnlyZerosLost([], [])
  {
  }

  lemma {:induction false} LoadedGap(tokens: seq<Token>, written: int, marked: int)
    requires written <= marked
    ensures Loaded(tokens, written, marked)
            == Placed(written, Zeros(marked - written)) + Loaded(tokens, marked, marked)
    decreases marked - written
  {
    if written < marked {
      LoadedGap(tokens, written + 1, marked);
      PlacedZeros(written, marked - written);
      hide Zeros, Placed;
      Regroup([Element(written, 0)], Placed(written + 1, Zeros(marked - written - 1)), Loaded(tokens, marked, marked));
    } else {
      assert Zeros(0) == [];
    }
  }

  lemma PlacedZeros(addr: int, n: nat)
    requires n > 0
    ensures Placed(addr, Zeros(n)) == [Element(addr, 0)] + Placed(addr + 1, Zeros(n - 1))
  {
    assert Zeros(n)[1..] == Zeros(n - 1);
  }

  lemma Regroup<T>(a: seq<T>, b: seq<T>, c: seq<T>)
    ensures a + (b + c) == (a + b) + c
  {
  }

  lemma {:induction false} PlacedSum(addr: int, a: seq<Word>, b: seq<Word>)
    ensures Placed(addr, a + b) == Placed(addr, a) + Placed(addr + |a|, b)
    decreases a
  {
    if a == [] {
      assert a + b == b;
    } else {
      PlacedSum(addr + 1, a[1..], b);
      assert (a + b)[1..] == a[1..] + b;
    }
  }

  lemma FilledMore(gap: nat, more: nat, rest: seq<Word>)
    requires rest != [] && more > 0
    ensures Filled(gap + more, rest) == Filled(gap, [0] + Filled(more - 1, rest))
  {
    assert Zeros(gap + more) == Zeros(gap) + ([0] + Zeros(more - 1));
  }

  /** Reading one printed element, after its gap. */
  lemma LoadedPrinted(word: Word, tail: seq<Token>, addr: int, p: int, marked: bool)
    requires p <= addr && -0x8000_0000 <= addr < 0x8000_0000
    requires marked || p == addr
    ensures Loaded((if marked then [At(Wrap(addr)), Value(word)] else [Value(word)]) + tail, p, p)
            == Placed(p, Zeros(addr - p)) + ([Element(addr, word)] + Loaded(tail, addr + 1, addr + 1))
  {
    SignedWrap(addr);
    var value := [Value(word)] + tail;
    assert value[1..] == tail;
    LoadedGap(value, p, addr);
    assert Loaded(value, addr, addr) == [Element(addr, word)] + Loaded(tail, addr + 1, addr + 1);
    if marked {
      var tokens := [At(Wrap(addr)), Value(word)] + tail;
      assert tokens[1..] == value;
      assert Loaded(tokens, p, p) == Loaded(value, p, addr);
    }
  }

  lemma PlacedNext(addr: int, word: Word, rest: seq<Word>)
    ensures Placed(addr, [word] + rest) == [Element(addr, word)] + Placed(addr + 1, rest)
    ensures Placed(addr, []) == []
  {
    assert ([word] + rest)[1..] == rest;
  }

  lemma LoadsPrinted(word: Word, rest: seq<Word>, tail: seq<Token>, addr: int, p: int, marked: bool)
    requires p <= addr && -0x8000_0000 <= addr < 0x8000_0000
    requires marked || p == addr
    requires Loaded(tail, addr + 1, addr + 1) == Placed(addr + 1, rest)
    ensures Loaded((if marked then [At(Wrap(addr)), Value(word)] else [Value(word)]) + tail, p, p)
            == Placed(p, Zeros(addr - p) + ([word] + rest))
  {
    LoadedPrinted(word, tail, addr, p, marked);
    PlacedSum(p, Zeros(addr - p), [word] + rest);
    PlacedNext(addr, word, rest);
  }

  /** The reader stands at `p`: just after the last word written, or at the offset. */
  lemma {:induction false} EmittedLoads(items: seq<Item>, addr: int, written: int, done: bool, explicit: bool, p: int)
    requires AllSound(items) && (explicit ==> NoneEmpty(items))
    requires p == (if done then written + 1 else written) <= addr
    requires -0x8000_0000 <= written && addr + |AllWords(items)| <= 0x8000_0000 && addr + |AllWords(items)| - written <= 0x8000_0000
    ensures Loaded(Emitted(items, addr, written, done, explicit), p, p)
            == Placed(p, Filled(addr - p, Kept(items, explicit)))
    decreases items
  {
    hide *;
    if items != [] {
      var size := items[0].size;
      SoundRest(items);
      WordsNext(items);
      if items[0].word == 0 && !explicit {
        EmittedLoads(items[1..], addr + size, written, done, explicit, p);
        SkippedLoads(items, addr, written, done, p);
      } else {
        EmittedLoads(items[1..], addr + size, addr, true, explicit, addr + 1);
        WrittenLoads(items, addr, written, done, explicit, p);
      }
    } else {
      NothingLoads(addr, written, done, explicit, p);
    }
  }

  lemma NothingLoads(addr: int, written: int, done: bool, explicit: bool, p: int)
    requires p <= addr
    ensures Loaded(Emitted([], addr, written, done, explicit), p, p) == Placed(p, Filled(addr - p, Kept([], explicit)))
  {
    NothingKept(0, explicit);
  }

  lemma SkippedLoads(items: seq<Item>, addr: int, written: int, done: bool, p: int)
    requires items != [] && items[0].word == 0 && p <= addr
    requires Loaded(Emitted(items[1..], addr + items[0].size, written, done, false), p, p)
          == Placed(p, Filled(addr + items[0].size - p, Kept(items[1..], false)))
    ensures Loaded(Emitted(items, addr, written, done, false), p, p) == Placed(p, Filled(addr - p, Kept(items, false)))
  {
    hide Wrap, Signed, Zeros, Loaded, Filled, Placed, Kept, Emitted;
    EmittedNext(items, addr, written, done, false);
    var tail := Emitted(items[1..], addr + items[0].size, written, done, false);
    assert Printed(addr, 0, written, done, false) == [] && [] + tail == tail;
    KeptSkipped(items, addr - p);
  }

  lemma WrittenLoads(items: seq<Item>, addr: int, written: int, done: bool, explicit: bool, p: int)
    requires items != [] && items[0].size > 0 && (items[0].word != 0 || explicit)
    requires p == (if done then written + 1 else written) <= addr < 0x8000_0000
    requires -0x8000_0000 <= written && addr - written < 0x8000_0000
    requires Loaded(Emitted(items[1..], addr + items[0].size, addr, true, explicit), addr + 1, addr + 1)
          == Placed(addr + 1, Filled(items[0].size - 1, Kept(items[1..], explicit)))
    ensures Loaded(Emitted(items, addr, written, done, explicit), p, p)
         == Placed(p, Filled(addr - p, Kept(items, explicit)))
  {
    hide Wrap, Signed, Zeros, Loaded, Filled, Placed, Kept, Emitted, Printed;
    EmittedNext(items, addr, written, done, explicit);
    PrintedIs(addr, items[0].word, written, done, explicit);
    KeptPrinted(items, explicit, addr - p);
    var rest := Filled(items[0].size - 1, Kept(items[1..], explicit));
    var tail := Emitted(items[1..], addr + items[0].size, addr, true, explicit);
    LoadsPrinted(items[0].word, rest, tail, addr, p, addr - written > 1 || !done);
  }

  lemma WordsNext(items: seq<Item>)
    requires items != []
    ensures |AllWords(items)| == items[0].size + |AllWords(items[1..])|
  {
  }

  lemma PrintedIs(addr: int, word: Word, written: int, done: bool, explicit: bool)
    requires word != 0 || explicit ==> written <= addr < written + 0x8000_0000
    ensures Printed(addr, word, written, done, explicit)
         == if word == 0 && !explicit then []
            else if addr - written > 1 || !done then [At(Wrap(addr)), Value(word)] else [Value(word)]
  {
    if word != 0 || explicit { SignedWrap(addr - written); }
    hide Wrap, Signed;
  }

  /** An item that prints nothing only widens the gap. */
  lemma KeptSkipped(items: seq<Item>, gap: nat)
    requires items != [] && items[0].word == 0
    ensures Filled(gap, Kept(items, false)) == Filled(gap + items[0].size, Kept(items[1..], false))
  {
    var rest := Kept(items[1..], false);
    hide Zeros;
    if rest != [] && items[0].size > 0 { FilledMore(gap, items[0].size, rest); }
  }

  /** One that prints a word keeps it, and leaves the rest of a block as a gap. */
  lemma KeptPrinted(items: seq<Item>, explicit: bool, gap: nat)
    requires items != [] && items[0].size > 0 && (items[0].word != 0 || explicit)
    ensures Filled(gap, Kept(items, explicit))
         == Zeros(gap) + ([items[0].word] + Filled(items[0].size - 1, Kept(items[1..], explicit)))
  {
    hide Zeros;
  }

  /** Consecutive items from relative address `first`, written and read back with one `offset`:
      their words at the offset addresses as far as they are kept, after zeros from the offset up
      to the first. */
  lemma RoundTrip(items: seq<Item>, first: nat, offset: int, explicit: bool)
    requires AllSound(items) && (explicit ==> NoneEmpty(items))
    requires -0x8000_0000 <= offset && offset + first + |AllWords(items)| <= 0x8000_0000
    requires first + |AllWords(items)| <= 0x8000_0000
    ensures Loaded(Emitted(items, first + offset, offset, false, explicit), offset, offset)
            == Placed(offset, Filled(first, Kept(items, explicit)))
  {
    EmittedLoads(items, first + offset, offset, false, explicit, offset);
  }

  /** When zeros are written out an empty block prints a word nevertheless, and what follows it
      is read one address too far on. */
  lemma EmptyBlockShifts(word: Word)
    ensures var items := [Item(0, 0), Item(word, 1)];
            && AllSound(items) && AllWords(items) == [word]
            && Loaded(Emitted(items, 0, 0, false, true), 0, 0) == [Element(0, 0), Element(1, word)]
  {
    var items := [Item(0, 0), Item(word, 1)];
    assert items[1..] == [Item(word, 1)] && items[1..][1..] == [];
    assert AllWords(items[1..]) == [word] + Zeros(0) + [];
    PrintedIs(0, 0, 0, false, true);
    PrintedIs(0, word, 0, true, true);
    WrapSmall(0);
    assert Emitted([], 1, 0, true, true) == [];
    assert Emitted(items[1..], 0, 0, true, true) == [Value(word)] + [];
    var tokens := Emitted(items, 0, 0, false, true);
    assert tokens == [At(0), Value(0)] + [Value(word)];
    assert tokens[1..] == [Value(0), Value(word)] && tokens[1..][1..] == [Value(word)];
    assert [Value(word)][1..] == [];
    assert Loaded([Value(word)], 1, 1) == [Element(1, word)] + Loaded([], 2, 2);
  }

  lemma NothingEmitted(out: seq<Token>, items: seq<Item>, addr: int, written: int, done: bool, explicit: bool)
    requires items == []
    ensures out + Emitted(items, addr, written, done, explicit) == out
  {
  }

  lemma EmittedNext(items: seq<Item>, addr: int, written: int, done: bool, explicit: bool)
    requires items != []
    ensures var skipped := items[0].word == 0 && !explicit;
            Emitted(items, addr, written, done, explicit)
            == Printed(addr, items[0].word, written, done, explicit)
               + Emitted(items[1..], addr + items[0].size, if skipped then written else addr, !skipped || done, explicit)
  {
    hide Wrap, Signed;
  }

  // ----- memh_state -----

  class State {
    var written: int
    var marked: int
    const offset: int
    var firstDone: bool
    const emitZeros: bool

    /** memh_init, with the two parameters it looks up. */
    constructor (offset: int, explicit: bool)
      ensures this.offset == written == marked == offset && emitZeros == explicit && !firstDone
    {
      this.offset, written, marked, emitZeros, firstDone := offset, offset, offset, explicit, false;
    }

    /** memh_out, appending to the stream. */
    method Out(e: Element, stream: seq<Token>) returns (out: seq<Token>)
      modifies this`written, this`firstDone
      ensures out == stream + Printed(e.reladdr + offset, e.word, old(written), old(firstDone), emitZeros)
      ensures if e.word == 0 && !emitZeros then written == old(written) && firstDone == old(firstDone)
              else written == e.reladdr + offset && firstDone
    {
      var addr := e.reladdr + offset;
      var diff := Signed(Wrap(addr - written));
      out := stream;
      if e.word == 0 && !emitZeros { return; }
      written := addr;
      if diff > 1 || !firstDone { out := out + [At(Wrap(addr))]; }
      firstDone := true;
      out := out + [Value(e.word)];
    }

    /** The output loop of the assembler, over consecutive items. */
    method OutAll(items: seq<Item>, first: nat) returns (out: seq<Token>)
      modifies this`written, this`firstDone
      ensures out == Emitted(items, first + offset, old(written), old(firstDone), emitZeros)
    {
      hide Emitted, Printed;
      ghost var all := Emitted(items, first + offset, written, firstDone, emitZeros);
      var reladdr := first;
      out := [];
      assert items[0..] == items && [] + all == all;
      for i := 0 to |items|
        invariant out + Emitted(items[i..], reladdr + offset, written, firstDone, emitZeros) == all
      {
        assert items[i..][0] == items[i] && items[i..][1..] == items[i + 1..];
        EmittedNext(items[i..], reladdr + offset, written, firstDone, emitZeros);
        ghost var before, one := out, Printed(reladdr + offset, items[i].word, written, firstDone, emitZeros);
        out := Out(Element(reladdr, items[i].word), out);
        reladdr := reladdr + items[i].size;
        Regroup(before, one, Emitted(items[i + 1..], reladdr + offset, written, firstDone, emitZeros));
      }
      NothingEmitted(out, items[|items|..], reladdr + offset, written, firstDone, emitZeros);
    }

    /** memh_in: 1 with an element, 0 after an address, -1 at the end or when addresses move
        backward. */
    method In(stream: seq<Token>) returns (rc: int, e: Element, rest: seq<Token>)
      modifies this`written, this`marked
      ensures rc == 1 || rc == 0 || rc == -1
      ensures rc == 1 ==> Loaded(stream, old(written), old(marked)) == [e] + Loaded(rest, written, marked)
      ensures rc == 0 ==> Loaded(stream, old(written), old(marked)) == Loaded(rest, written, marked)
      ensures rc == -1 ==> Loaded(stream, old(written), old(marked)) == []
      ensures rc != -1 ==> |rest| < |stream| || (rest == stream && marked == old(marked) && written == old(written) + 1 <= marked)
    {
      rest := stream;
      e := Element(0, 0);
      if marked > written {
        e := Element(written, 0);
        written := written + 1;
        rc := 1;
      } else if marked == written {
        if stream == [] { return -1, e, rest; }
        rest := stream[1..];
        match stream[0]
        case At(a) =>
          marked := Signed(a);
          rc := 0;
        case Value(w) =>
          e := Element(written, w);
          written := written + 1;
          marked := written;
          rc := 1;
      } else {
        rc := -1;
      }
    }

    /** The input loop of the disassembler. */
    method InAll(stream: seq<Token>) returns (elements: seq<Element>)
      modifies this`written, this`marked
      ensures elements == Loaded(stream, old(written), old(marked))
    {
      elements := [];
      var rest := stream;
      assert [] + Loaded(rest, written, marked) == Loaded(rest, written, marked);
      hide Loaded;
      while true
        invariant elements + Loaded(rest, written, marked) == Loaded(stream, old(written), old(marked))
        decreases |rest|, marked - written
      {
        ghost var before := elements;
        var rc, e, next := In(rest);
        if rc < 0 {
          assert elements + [] == elements;
          break;
        }
        if rc > 0 {
          Regroup(before, [e], Loaded(next, written, marked));
          elements := elements + [e];
        }
        rest := next;
      }
    }
  }
}
