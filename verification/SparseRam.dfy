/** Paged memory (src/devices/sparseram.c) behind the address dispatcher (src/simif.c). */
module SparseRam {
  import opened Words

  const RAM_END: Word := 0x3fff
  const PAGESIZE: nat := 4096
  const WORDMASK: Word := 0x3ff
  const OP_INSN_READ := 0
  const OP_DATA_READ := 1
  const OP_WRITE := 2

  /** The page address goes through a signed 24-bit field. */
  function PageKey(addr: Word): int {
    var low := And(addr, Not(WORDMASK)) % 0x100_0000;
    if low < 0x80_0000 then low else low - 0x100_0000
  }

  function Offset(addr: Word): (r: nat)
    ensures r < 0x400
  {
    WordInPage(addr);
    And(addr, WORDMASK)
  }

  lemma WordInPage(addr: Word)
    ensures And(addr, WORDMASK) == addr % 0x400
    ensures And(addr, Not(WORDMASK)) == addr - addr % 0x400
  {
    Pow2Of32();
    assert Pow2(10) == 0x400;
    AndLowMask(addr, 10, 32);
    AndComplement(addr, WORDMASK, 32);
  }

  /** Two addresses share a cell exactly when they agree in their low 24 bits. */
  predicate SameCell(a: Word, b: Word) {
    a % 0x100_0000 == b % 0x100_0000
  }

  lemma SameCellExact(a: Word, b: Word)
    ensures PageKey(a) == PageKey(b) && Offset(a) == Offset(b) <==> SameCell(a, b)
  {
    WordInPage(a);
    WordInPage(b);
    hide And;
    PageOf(a);
    PageOf(b);
  }

  lemma PageOf(a: Word)
    ensures (a - a % 0x400) % 0x100_0000 == a % 0x100_0000 - a % 0x400
    ensures a % 0x100_0000 % 0x400 == a % 0x400
  {
  }

  class Ram {
    /** The search tree of pages, by key. */
    var pages: map<int, array<Word>>

    ghost predicate Valid()
      reads this, pages.Values
    {
      && (forall k <- pages :: pages[k].Length == PAGESIZE)
      && (forall j <- pages, k <- pages :: pages[j] == pages[k] ==> j == k)
    }

    /** What a read of the address would return. */
    ghost function Cell(a: Word): Word
      requires Valid()
      reads this, pages.Values
    {
      if PageKey(a) in pages then pages[PageKey(a)][Offset(a)] else ALL_ONES
    }

    constructor ()
      ensures Valid() && pages == map[]
      ensures forall a :: Cell(a) == ALL_ONES
    {
      pages := map[];
    }

    /** sparseram_op */
    method Op(op: int, addr: Word, data: Word) returns (rc: int, value: Word)
      requires Valid()
      modifies this, pages.Values
      ensures Valid() && fresh(pages.Values - old(pages.Values))
      ensures rc == if op in {OP_INSN_READ, OP_DATA_READ, OP_WRITE} then 0 else 1
      ensures value == if op in {OP_INSN_READ, OP_DATA_READ} then old(Cell(addr)) else data
      ensures forall b :: Cell(b) == if op == OP_WRITE && SameCell(b, addr) then data else old(Cell(b))
    {
      hide And;
      var key := PageKey(addr);
      if key !in pages {
        var node := new Word[PAGESIZE](_ => ALL_ONES);
        pages := pages[key := node];
      }
      var page := pages[key];
      assert Valid();
      label Looked:
      assert forall b :: Cell(b) == old(Cell(b));
      value := data;
      if op == OP_WRITE {
        page[Offset(addr)] := data;
        rc := 0;
        forall b: Word ensures Cell(b) == if SameCell(b, addr) then data else old@Looked(Cell(b)) {
          SameCellExact(b, addr);
        }
      } else if op == OP_INSN_READ || op == OP_DATA_READ {
        value := page[Offset(addr)];
        rc := 0;
      } else {
        rc := 1;
      }
    }
  }

  // ----- Traces -----

  datatype Access = Read(addr: Word) | Write(addr: Word, data: Word)

  /** A flat array of 2^32 words, all ones at first: what an address holds after some accesses. */
  function Flat(history: seq<Access>, addr: Word): Word {
    if history == [] then ALL_ONES
    else
      var last := history[|history| - 1];
      if last.Write? && last.addr == addr then last.data else Flat(history[..|history| - 1], addr)
  }

  /** The same with only 2^24 cells. */
  function Aliased(history: seq<Access>, addr: Word): Word {
    if history == [] then ALL_ONES
    else
      var last := history[|history| - 1];
      if last.Write? && SameCell(addr, last.addr) then last.data else Aliased(history[..|history| - 1], addr)
  }

  /** Every read of a trace returns what the 2^24-cell array would. */
  method Replay(trace: seq<Access>) returns (values: seq<Word>)
    ensures |values| == |trace|
    ensures forall i | 0 <= i < |trace| :: trace[i].Read? ==> values[i] == Aliased(trace[..i], trace[i].addr)
  {
    hide SameCell;
    var ram := new Ram();
    values := [];
    for i := 0 to |trace|
      invariant ram.Valid() && fresh(ram) && fresh(ram.pages.Values)
      invariant forall a :: ram.Cell(a) == Aliased(trace[..i], a)
      invariant |values| == i
      invariant forall j | 0 <= j < i :: trace[j].Read? ==> values[j] == Aliased(trace[..j], trace[j].addr)
    {
      assert trace[..i + 1][..i] == trace[..i] && trace[..i + 1][i] == trace[i];
      var rc, value;
      match trace[i] {
        case Read(a) => rc, value := ram.Op(OP_DATA_READ, a, 0);
        case Write(a, d) => rc, value := ram.Op(OP_WRITE, a, d);
      }
      values := values + [value];
    }
  }

  /** No two different addresses of the trace share their low 24 bits. */
  predicate Unaliased(history: seq<Access>, addr: Word) {
    forall x <- history :: SameCell(addr, x.addr) ==> addr == x.addr
  }

  lemma {:induction false} AliasedIsFlat(history: seq<Access>, addr: Word)
    requires Unaliased(history, addr)
    ensures Aliased(history, addr) == Flat(history, addr)
  {
    if history != [] {
      assert history[|history| - 1] in history;
      AliasedIsFlat(history[..|history| - 1], addr);
    }
  }

  /** The simulator gives this memory addresses from 2^12 to 2^14 - 1 only, so it is flat. */
  lemma InRangeIsFlat(history: seq<Access>, addr: Word)
    requires addr <= RAM_END && forall x <- history :: x.addr <= RAM_END
    ensures Aliased(history, addr) == Flat(history, addr)
  {
    AliasedIsFlat(history, addr);
  }

  predicate Within(history: seq<Access>, addresses: set<Word>) {
    forall x <- history :: x.addr in addresses
  }

  /** Exactly the sets of addresses on which the memory is flat, whatever is done at them: no
      two of them share their low 24 bits. */
  lemma FlatExactly(addresses: set<Word>)
    ensures (forall h, a :: a in addresses && Within(h, addresses) ==> Aliased(h, a) == Flat(h, a))
       <==> (forall a, b :: a in addresses && b in addresses && SameCell(a, b) ==> a == b)
  {
    if forall a, b :: a in addresses && b in addresses && SameCell(a, b) ==> a == b {
      forall h, a | a in addresses && Within(h, addresses) ensures Aliased(h, a) == Flat(h, a) {
        AliasedIsFlat(h, a);
      }
    } else {
      var a, b :| a in addresses && b in addresses && SameCell(a, b) && a != b;
      AliasShows(b, a, 0);
      assert Within([Write(b, 0)], addresses);
    }
  }

  /** A write shows at every other address with the same low 24 bits, and at no others. */
  lemma AliasShows(a: Word, b: Word, data: Word)
    requires a != b && data != ALL_ONES
    ensures Aliased([Write(a, data)], b) == Flat([Write(a, data)], b) <==> !SameCell(b, a)
  {
    var h := [Write(a, data)];
    assert h[..0] == [] && h[|h| - 1] == Write(a, data);
  }

  // ----- The dispatcher -----

  /** A device's inclusive address range. */
  datatype Device = Device(base: Word, end: Word)

  predicate Covers(d: Device, addr: Word) {
    d.base <= addr <= d.end
  }

  /** find_device_by_addr */
  function CompareAddress(addr: Word, d: Device): int {
    if addr <= d.end then if addr >= d.base then 0 else -1 else 1
  }

  /** bsearch in devices[lo..hi] */
  function Search(devices: seq<Device>, addr: Word, lo: nat, hi: nat): (found: int)
    requires lo <= hi <= |devices|
    ensures found == -1 || (lo <= found < hi && Covers(devices[found], addr))
    decreases hi - lo
  {
    if lo == hi then -1
    else
      var mid := (lo + hi) / 2;
      var c := CompareAddress(addr, devices[mid]);
      if c == 0 then mid
      else if c < 0 then Search(devices, addr, lo, mid)
      else Search(devices, addr, mid + 1, hi)
  }

  /** The lookup of dispatch_op: a device's index, or -1 when no device is found. */
  method FindDevice(devices: seq<Device>, addr: Word) returns (found: int)
    ensures found == Search(devices, addr, 0, |devices|)
  {
    var lo, hi := 0, |devices|;
    while lo < hi
      invariant 0 <= lo <= hi <= |devices|
      invariant Search(devices, addr, lo, hi) == Search(devices, addr, 0, |devices|)
    {
      var mid := (lo + hi) / 2;
      var c := CompareAddress(addr, devices[mid]);
      if c == 0 { return mid; }
      if c < 0 { hi := mid; } else { lo := mid + 1; }
    }
    found := -1;
  }

  /** In address order, without overlap. */
  predicate Ordered(devices: seq<Device>) {
    && (forall i | 0 <= i < |devices| :: devices[i].base <= devices[i].end)
    && (forall i, j | 0 <= i < j < |devices| :: devices[i].end < devices[j].base)
  }

  /** A device is found exactly when one covers the address, and then it is that one. */
  lemma {:induction false} SearchFinds(devices: seq<Device>, addr: Word, lo: nat, hi: nat)
    requires lo <= hi <= |devices| && Ordered(devices)
    ensures forall k | lo <= k < hi :: Covers(devices[k], addr) <==> Search(devices, addr, lo, hi) == k
    decreases hi - lo
  {
    if lo < hi {
      var mid := (lo + hi) / 2;
      SearchFinds(devices, addr, lo, mid);
      SearchFinds(devices, addr, mid + 1, hi);
    }
  }

  /** Every device is found at every address it covers. */
  ghost predicate AllFound(devices: seq<Device>, lo: nat, hi: nat)
    requires lo <= hi <= |devices|
  {
    forall k, a: Word | lo <= k < hi && Covers(devices[k], a) :: Search(devices, a, lo, hi) == k
  }

  /** The whole condition on dispatch: disjoint devices are all found exactly when they are in
      address order. */
  lemma FoundExactly(devices: seq<Device>)
    requires Apart(devices)
    ensures AllFound(devices, 0, |devices|) <==> Ordered(devices)
  {
    if AllFound(devices, 0, |devices|) {
      FoundIsOrdered(devices, 0, |devices|);
    } else {
      forall k, a: Word | 0 <= k < |devices| && Ordered(devices) && Covers(devices[k], a)
        ensures Search(devices, a, 0, |devices|) == k
      {
        SearchFinds(devices, a, 0, |devices|);
      }
    }
  }

  lemma {:induction false} FoundIsOrdered(devices: seq<Device>, lo: nat, hi: nat)
    requires lo <= hi <= |devices| && Apart(devices) && AllFound(devices, lo, hi)
    ensures forall i, j | lo <= i < j < hi :: devices[i].end < devices[j].base
    decreases hi - lo
  {
    if lo < hi {
      var mid := (lo + hi) / 2;
      FoundInHalves(devices, lo, hi);
      FoundIsOrdered(devices, lo, mid);
      FoundIsOrdered(devices, mid + 1, hi);
    }
  }

  /** A device beside the middle one is looked for, and found, on its side. */
  lemma FoundBeside(devices: seq<Device>, lo: nat, hi: nat, k: nat, a: Word)
    requires lo < hi <= |devices| && Apart(devices) && lo <= k < hi && k != (lo + hi) / 2
    requires Covers(devices[k], a) && Search(devices, a, lo, hi) == k
    ensures var mid := (lo + hi) / 2;
            if k < mid then a < devices[mid].base && Search(devices, a, lo, mid) == k
            else devices[mid].end < a && Search(devices, a, mid + 1, hi) == k
  {
    assert devices[(lo + hi) / 2].base <= devices[(lo + hi) / 2].end;
  }

  lemma FoundInHalves(devices: seq<Device>, lo: nat, hi: nat)
    requires lo < hi <= |devices| && Apart(devices) && AllFound(devices, lo, hi)
    ensures var mid := (lo + hi) / 2;
            && AllFound(devices, lo, mid) && AllFound(devices, mid + 1, hi)
            && (forall k | lo <= k < mid :: devices[k].end < devices[mid].base)
            && (forall k | mid < k < hi :: devices[mid].end < devices[k].base)
  {
    hide Search;
    var mid := (lo + hi) / 2;
    forall k, a: Word | lo <= k < mid && Covers(devices[k], a)
      ensures Search(devices, a, lo, mid) == k
    {
      FoundBeside(devices, lo, hi, k, a);
    }
    forall k, a: Word | mid + 1 <= k < hi && Covers(devices[k], a)
      ensures Search(devices, a, mid + 1, hi) == k
    {
      FoundBeside(devices, lo, hi, k, a);
    }
    forall k | lo <= k < hi && k != mid
      ensures if k < mid then devices[k].end < devices[mid].base else devices[mid].end < devices[k].base
    {
      FoundBeside(devices, lo, hi, k, devices[k].end);
      FoundBeside(devices, lo, hi, k, devices[k].base);
    }
  }

  /** compare_devices_by_base: an unsigned difference read as a signed one. */
  function CompareBases(a: Device, b: Device): int {
    Signed(Minus(a.base, b.base))
  }

  /** The comparison is the order of the bases, both ways round, exactly below a distance of 2^31. */
  lemma CompareBasesExact(a: Device, b: Device)
    requires a.base < b.base
    ensures CompareBases(a, b) < 0 < CompareBases(b, a) <==> b.base - a.base < 0x8000_0000
  {
    WrapMultiple(a.base - b.base, 1);
    WrapSmall(a.base - b.base + 0x1_0000_0000);
    WrapSmall(b.base - a.base);
    hide Wrap;
  }

  /** What qsort leaves: no pair in the wrong order for its comparison. */
  predicate Arranged(devices: seq<Device>) {
    forall i, j | 0 <= i < j < |devices| :: CompareBases(devices[i], devices[j]) <= 0
  }

  predicate Apart(devices: seq<Device>) {
    && (forall i | 0 <= i < |devices| :: devices[i].base <= devices[i].end)
    && (forall i, j | 0 <= i < j < |devices| ::
          devices[i].end < devices[j].base || devices[j].end < devices[i].base)
  }

  predicate Near(devices: seq<Device>) {
    forall i, j | 0 <= i < j < |devices| ::
      -0x8000_0000 < devices[i].base - devices[j].base < 0x8000_0000
  }

  /** Devices that do not overlap, sorted by devices_finalise, are in address order when their
      bases are less than 2^31 apart. */
  lemma SortedIsOrdered(devices: seq<Device>)
    requires Apart(devices) && Near(devices) && Arranged(devices)
    ensures Ordered(devices)
  {
    SortedExactly(devices);
  }

  /** No device comes before one that is 2^31 or more below it. */
  predicate NoneFarAbove(devices: seq<Device>) {
    forall i, j | 0 <= i < j < |devices| :: devices[i].base - devices[j].base < 0x8000_0000
  }

  /** That is exactly when the sort leaves address order, and when all devices are found. */
  lemma SortedExactly(devices: seq<Device>)
    requires Apart(devices) && Arranged(devices)
    ensures Ordered(devices) <==> NoneFarAbove(devices)
    ensures AllFound(devices, 0, |devices|) <==> NoneFarAbove(devices)
  {
    FoundExactly(devices);
    if NoneFarAbove(devices) {
      forall i, j | 0 <= i < j < |devices| ensures devices[i].end < devices[j].base {
        if devices[j].base < devices[i].base {
          CompareBasesExact(devices[j], devices[i]);
        }
      }
    }
  }

  /** With no two bases exactly 2^31 apart, that is when all are less than 2^31 apart. */
  lemma SortedNear(devices: seq<Device>)
    requires Apart(devices) && Arranged(devices)
    requires forall i, j | 0 <= i < j < |devices| :: devices[i].base - devices[j].base != 0x8000_0000
                                                && devices[j].base - devices[i].base != 0x8000_0000
    ensures Ordered(devices) <==> Near(devices)
  {
    SortedExactly(devices);
    if NoneFarAbove(devices) {
      forall i, j | 0 <= i < j < |devices|
        ensures -0x8000_0000 < devices[i].base - devices[j].base
      {
        if devices[i].base < devices[j].base && devices[j].base - devices[i].base > 0x8000_0000 {
          FarCompares(devices[i], devices[j]);
        }
      }
    }
  }

  lemma FarCompares(a: Device, b: Device)
    requires a.base < b.base && b.base - a.base > 0x8000_0000
    ensures CompareBases(a, b) > 0
  {
    WrapMultiple(a.base - b.base, 1);
    WrapSmall(a.base - b.base + 0x1_0000_0000);
    hide Wrap;
  }

  /** The witness: two devices sorted the wrong way round, and one of them lost. */
  lemma FarDeviceLost()
    ensures var ds := [Device(0x8000_0001, 0x8000_0001), Device(0, 0)];
            Apart(ds) && Arranged(ds) && Covers(ds[0], 0x8000_0001) && Search(ds, 0x8000_0001, 0, 2) == -1
  {
    var ds := [Device(0x8000_0001, 0x8000_0001), Device(0, 0)];
    assert CompareBases(ds[0], ds[1]) < 0;
    assert CompareAddress(0x8000_0001, ds[1]) == 1;
    assert Search(ds, 0x8000_0001, 2, 2) == -1;
  }
}
