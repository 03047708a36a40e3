/**
  The DSi's new shared WRAM.  Each bank consists of parts that software maps to slots of a processor;
  parts may overlap.  Reads go through a page table, writes search the mapping registers, and the
  two must agree.
 */
module NwramBanks {
  import opened Arithmetic

  type byte = x: nat | x < 256

  /** Bank A has four parts of 64 KB, banks B and C eight parts of 32 KB and a third user, the DSP. */
  datatype Kind = KindA | KindBC

  function Parts(k: Kind): nat {
    if k == KindA then 4 else 8
  }

  function PageSize(k: Kind): nat {
    if k == KindA then 0x1_0000 else 0x8000
  }

  const DSP: nat := 2

  /** The bits of a mapping register that can be set. */
  function Clean(k: Kind, v: byte): byte {
    if k == KindA then v / 128 * 128 + v / 4 % 4 * 4 + v % 2 else v / 128 * 128 + v % 32
  }

  predicate Enabled(v: byte) {
    v >= 128
  }

  /** Who a setting maps to: processor 0 or 1, or the DSP. */
  function User(k: Kind, v: byte): (u: nat)
    ensures u < 3
  {
    if k == KindBC && v / 2 % 2 == 1 then DSP else v % 2
  }

  function SlotOf(k: Kind, v: byte): (s: nat)
    ensures s < Parts(k)
  {
    if k == KindA then v / 4 % 4 else v / 4 % 8
  }

  predicate MapsTo(k: Kind, v: byte, user: nat, slot: nat) {
    Enabled(v) && User(k, v) == user && SlotOf(k, v) == slot
  }

  /** The setting that the write path looks for. */
  function Wanted(cpu: nat, slot: nat): byte
    requires cpu < 2 && slot < 8
  {
    128 + 4 * slot + cpu
  }

  /** Comparing whole settings is the same as asking who is mapped there. */
  lemma WantedIff(k: Kind, v: byte, cpu: nat, slot: nat)
    requires cpu < 2 && slot < Parts(k) && v == Clean(k, v)
    ensures v == Wanted(cpu, slot) <==> MapsTo(k, v, cpu, slot)
  {
  }

  /** A setting, field by field: bit 7 enables the part, bits 2 and 3 (to 4 for the larger banks) are its slot,
      bit 0 (with bit 1) its user; the other bits cannot be set. */
  lemma SettingFields(k: Kind, on: bool, skipped: nat, slot: nat, user: nat)
    requires skipped < 4 && slot < 8 && user < 4
    ensures
      var raw := (if on then 128 else 0) + 32 * skipped + 4 * slot + user;
      var v := Clean(k, raw);
      && v == (if on then 128 else 0) + (if k == KindA then 4 * (slot % 4) + user % 2 else 4 * slot + user)
      && (Enabled(v) <==> on) && SlotOf(k, v) == (if k == KindA then slot % 4 else slot)
      && User(k, v) == if k == KindBC && user >= 2 then 2 else user % 2
  {
    var h := if on then 1 else 0;
    RawFields(h, skipped, slot, user);
    if k == KindA { CleanFields(h, slot % 4, user % 2); } else { CleanFields(h, slot, user); }
  }

  lemma RawFields(h: nat, skipped: nat, slot: nat, user: nat)
    requires h < 2 && skipped < 4 && slot < 8 && user < 4
    ensures
      var raw := 128 * h + 32 * skipped + 4 * slot + user;
      raw / 128 == h && raw % 32 == 4 * slot + user && raw / 4 % 4 == slot % 4 && raw % 2 == user % 2
  {
    var raw := 128 * h + 32 * skipped + 4 * slot + user;
    ModUnique(raw, 128, h, 32 * skipped + 4 * slot + user);
    ModUnique(raw, 32, 4 * h + skipped, 4 * slot + user);
    ModUnique(raw, 4, 32 * h + 8 * skipped + slot, user);
    ModUnique(32 * h + 8 * skipped + slot, 4, 8 * h + 2 * skipped + slot / 4, slot % 4);
    ModUnique(raw, 2, 64 * h + 16 * skipped + 2 * slot + user / 2, user % 2);
  }

  lemma CleanFields(h: nat, slot: nat, user: nat)
    requires h < 2 && slot < 8 && user < 4
    ensures
      var v := 128 * h + 4 * slot + user;
      v / 4 % 8 == slot && (slot < 4 ==> v / 4 % 4 == slot) && v / 2 % 2 == user / 2 && v % 2 == user % 2
  {
    var v := 128 * h + 4 * slot + user;
    ModUnique(v, 4, 32 * h + slot, user);
    ModUnique(32 * h + slot, 8, 4 * h, slot);
    if slot < 4 { ModUnique(32 * h + slot, 4, 8 * h, slot); }
    ModUnique(v, 2, 64 * h + 2 * slot + user / 2, user % 2);
    ModUnique(64 * h + 2 * slot + user / 2, 2, 32 * h + slot, user / 2);
  }

  lemma CleanTwice(k: Kind, v: byte)
    ensures Clean(k, Clean(k, v)) == Clean(k, v)
  {
    if k == KindA { CleanA(v / 128, v / 4 % 4, v % 2); } else { CleanBC(v / 128, v % 32); }
  }

  lemma CleanA(h: nat, m: nat, l: nat)
    requires h < 2 && m < 4 && l < 2
    ensures Clean(KindA, 128 * h + 4 * m + l) == 128 * h + 4 * m + l
  {
  }

  lemma CleanBC(h: nat, l: nat)
    requires h < 2 && l < 32
    ensures Clean(KindBC, 128 * h + l) == 128 * h + l
  {
  }

  lemma NothingMapped(k: Kind, settings: seq<byte>)
    requires forall p :: 0 <= p < |settings| ==> settings[p] == 0
    ensures Clean(k, 0) == 0
    ensures forall u, s :: Winner(k, settings, u, s, 0) == -1
  {
    forall u, s ensures Winner(k, settings, u, s, 0) == -1 {
      var w := Winner(k, settings, u, s, 0);
    }
  }

  /** The lowest-numbered part from p on that maps there, or -1. */
  function Winner(k: Kind, settings: seq<byte>, user: nat, slot: nat, p: nat): (w: int)
    requires p <= |settings|
    ensures -1 <= w < |settings|
    ensures w >= 0 ==> p <= w && MapsTo(k, settings[w], user, slot)
    ensures w >= 0 ==> forall q :: p <= q < w ==> !MapsTo(k, settings[q], user, slot)
    ensures w < 0 ==> forall q :: p <= q < |settings| ==> !MapsTo(k, settings[q], user, slot)
    decreases |settings| - p
  {
    if p == |settings| then -1
    else if MapsTo(k, settings[p], user, slot) then p
    else Winner(k, settings, user, slot, p + 1)
  }

  /** The window of one processor on a bank. */
  datatype Window = Window(start: nat, end: nat, slots: nat)

  predicate Sized(k: Kind, w: Window) {
    w.slots == 1 || w.slots == 2 || w.slots == 4 || (w.slots == 8 && k == KindBC)
  }

  /** Windows start and end on page boundaries. */
  predicate OnPages(k: Kind, w: Window) {
    w.start % PageSize(k) == 0 && w.end % PageSize(k) == 0
  }

  /** The slot that an address falls into: the window's slots repeat. */
  function Select(k: Kind, w: Window, addr: nat): (s: nat)
    requires Sized(k, w)
    ensures s < Parts(k) && s < w.slots
  {
    var page := if k == KindA then addr / 0x1_0000 else addr / 0x8000;
    match w.slots
    case 1 => 0
    case 2 => page % 2
    case 4 => page % 4
    case _ => page % 8
  }

  function Offset(k: Kind, addr: nat): (o: nat)
    ensures o < PageSize(k)
  {
    if k == KindA then addr % 0x1_0000 else addr % 0x8000
  }

  /** The address without its low bits. */
  function Rounded(addr: nat, n: nat): (a: nat)
    requires n in {1, 2, 4}
    ensures a <= addr
    ensures n == 1 ==> a == addr
  {
    match n case 1 => addr case 2 => addr - addr % 2 case _ => addr - addr % 4
  }

  /** The bytes of an aligned unit lie side by side in one slot. */
  lemma InUnit(kind: Kind, w: Window, addr: nat, n: nat, k: nat)
    requires Sized(kind, w) && n in {1, 2, 4} && k < n
    ensures
      var a := Rounded(addr, n);
      && Select(kind, w, a + k) == Select(kind, w, a) && Offset(kind, a + k) == Offset(kind, a) + k
  {
    hide Rounded;
    RoundedDivides(addr, n);
    PageDivides(n);
    InPage(Rounded(addr, n) / n, n, k, PageSize(kind) / n, PageSize(kind));
  }

  lemma RoundedDivides(addr: nat, n: nat)
    requires n in {1, 2, 4}
    ensures n * (Rounded(addr, n) / n) == Rounded(addr, n)
  {
    match n case 1 => case 2 => case _ =>
  }

  lemma PageDivides(n: nat)
    requires n in {1, 2, 4}
    ensures forall kind :: n * (PageSize(kind) / n) == PageSize(kind)
  {
    match n case 1 => case 2 => case _ =>
  }

  lemma InPage(q: nat, n: nat, k: nat, m: nat, page: nat)
    requires m > 0 && k < n && n * m == page
    ensures (n * q + k) / page == n * q / page && (n * q + k) % page == n * q % page + k
  {
    RestDivides(q, n, m, page);
    ModUnique(n * q + k, page, n * q / page, n * q % page + k);
  }

  /** A multiple of n leaves a multiple of n, which is n short of the page at most. */
  lemma RestDivides(q: nat, n: nat, m: nat, page: nat)
    requires m > 0 && n > 0 && n * m == page
    ensures n * q % page + n <= page
  {
    Multiples(n, m, q);
    ModUnique(n * q, page, q / m, n * (q % m));
  }

  lemma Multiples(n: nat, m: nat, q: nat)
    requires m > 0
    ensures n * q == n * m * (q / m) + n * (q % m)
    ensures n * (q % m) + n <= n * m
  {
    assert q == m * (q / m) + q % m;
    assert n * (q % m + 1) <= n * m;
  }

  /** Decodes a windowing register of bank A: its writable bits, then start, end and size. */
  function WindowA(val: nat): Window {
    Window(0x300_0000 + val / 0x10 % 0x100 * 0x1_0000, 0x300_0000 + val / 0x10_0000 % 0x200 * 0x1_0000,
           match val / 0x1000 % 4 case 0 => 1 case 1 => 1 case 2 => 2 case _ => 4)
  }

  function WindowBC(val: nat): Window {
    Window(0x300_0000 + val / 8 % 0x200 * 0x8000, 0x300_0000 + val / 0x8_0000 % 0x400 * 0x8000,
           match val / 0x1000 % 4 case 0 => 1 case 1 => 2 case 2 => 4 case _ => 8)
  }

  lemma Field(val: nat, unit: nat, below: nat, size: nat, field: nat, above: nat)
    requires val == unit * (size * above + field) + below && below < unit && field < size
    ensures val / unit % size == field
  {
    ModUnique(val, unit, size * above + field, below);
    ModUnique(size * above + field, size, above, field);
  }

  /** The register of bank A, field by field: bits 4-11 count 64 KB pages from 0x03000000 to the start, bits
      20-28 to the end, and bits 12-13 give the size; the other bits do not matter. */
  lemma WindowAFields(low: nat, start: nat, size: nat, gap: nat, end: nat, high: nat)
    requires low < 0x10 && start < 0x100 && size < 4 && gap < 0x40 && end < 0x200 && high < 8
    ensures
      var val := low + 0x10 * start + 0x1000 * size + 0x4000 * gap + 0x10_0000 * end + 0x2000_0000 * high;
      WindowA(val) == Window(0x300_0000 + 0x1_0000 * start, 0x300_0000 + 0x1_0000 * end, [1, 1, 2, 4][size])
  {
    var val := low + 0x10 * start + 0x1000 * size + 0x4000 * gap + 0x10_0000 * end + 0x2000_0000 * high;
    Field(val, 0x10, low, 0x100, start, size + 4 * gap + 0x100 * end + 0x2_0000 * high);
    Field(val, 0x1000, low + 0x10 * start, 4, size, gap + 0x40 * end + 0x8000 * high);
    Field(val, 0x10_0000, low + 0x10 * start + 0x1000 * size + 0x4000 * gap, 0x200, end, high);
  }

  /** The register of banks B and C: bits 3-11 and 19-28 count pages of 32 KB. */
  lemma WindowBCFields(low: nat, start: nat, size: nat, gap: nat, end: nat, high: nat)
    requires low < 8 && start < 0x200 && size < 4 && gap < 0x20 && end < 0x400 && high < 8
    ensures
      var val := low + 8 * start + 0x1000 * size + 0x4000 * gap + 0x8_0000 * end + 0x2000_0000 * high;
      WindowBC(val) == Window(0x300_0000 + 0x8000 * start, 0x300_0000 + 0x8000 * end, [1, 2, 4, 8][size])
  {
    var val := low + 8 * start + 0x1000 * size + 0x4000 * gap + 0x8_0000 * end + 0x2000_0000 * high;
    Field(val, 8, low, 0x200, start, size + 4 * gap + 0x80 * end + 0x2_0000 * high);
    Field(val, 0x1000, low + 8 * start, 4, size, gap + 0x20 * end + 0x8000 * high);
    Field(val, 0x8_0000, low + 8 * start + 0x1000 * size + 0x4000 * gap, 0x400, end, high);
  }

  /** Two pages show the same slot exactly when they are a multiple of the window's slots apart. */
  lemma SlotsRepeat(k: Kind, w: Window, page: nat, j: nat, o: nat)
    requires Sized(k, w) && o < if k == KindA then 0x1_0000 else 0x8000
    ensures
      var size := if k == KindA then 0x1_0000 else 0x8000;
      && Select(k, w, size * page + o) == page % w.slots
      && (Select(k, w, size * (page + j) + o) == Select(k, w, size * page + o) <==> j % w.slots == 0)
  {
    if k == KindA {
      assert (0x1_0000 * page + o) / 0x1_0000 == page && (0x1_0000 * (page + j) + o) / 0x1_0000 == page + j;
    } else {
      assert (0x8000 * page + o) / 0x8000 == page && (0x8000 * (page + j) + o) / 0x8000 == page + j;
    }
    SameRest(page, j, w.slots);
  }

  lemma SameRest(p: nat, j: nat, n: nat)
    requires n in {1, 2, 4, 8}
    ensures (p + j) % n == p % n <==> j % n == 0
  {
    match n case 1 => case 2 => case 4 => case _ =>
  }

  class NwramBank {
    const kind: Kind
    const mem: array2<byte>            // by part and offset
    const settings: array<byte>        // MBK[0]: one byte a part
    const mirror: array<byte>          // MBK[1]
    var protect: seq<bool>             // MBK8
    const table: array2<int>           // by user and slot: a part, or -1 for none
    var window: seq<Window>            // by processor

    ghost predicate Shape()
      reads this
    {
      && mem.Length0 == Parts(kind) && mem.Length1 == PageSize(kind)
      && settings.Length == mirror.Length == Parts(kind) == |protect| && settings != mirror
      && table.Length0 == 3 && table.Length1 == Parts(kind)
      && |window| == 2 && forall i :: 0 <= i < 2 ==> Sized(kind, window[i]) && OnPages(kind, window[i])
    }

    /** The page table is a function of the mapping registers alone, with the lowest-numbered enabled
        part in every slot; both processors see the same registers. */
    ghost predicate Valid()
      reads this, settings, mirror, table
    {
      && Shape() && mirror[..] == settings[..]
      && (forall p :: 0 <= p < Parts(kind) ==> settings[p] == Clean(kind, settings[p]))
      && (forall u: nat, s: nat :: u < 3 && s < Parts(kind) ==> table[u, s] == Winner(kind, settings[..], u, s, 0))
    }

    constructor (kind: Kind)
      ensures Valid() && this.kind == kind && fresh(mem) && fresh(settings) && fresh(mirror) && fresh(table)
      ensures forall p :: 0 <= p < Parts(kind) ==> settings[p] == 0
    {
      this.kind := kind;
      mem := new byte[Parts(kind), PageSize(kind)];
      settings := new byte[Parts(kind)](_ => 0);
      mirror := new byte[Parts(kind)](_ => 0);
      table := new int[3, Parts(kind)]((_, _) => -1);
      protect, window := seq(Parts(kind), _ => false), [Window(0, 0, 1), Window(0, 0, 1)];
      new;
      hide Clean, Winner;
      NothingMapped(kind, settings[..]);
    }

    /** What a processor sees at an address of its window. */
    function Seen(cpu: nat, addr: nat): byte
      reads this, table, mem
      requires Shape() && cpu < 2
    {
      var p := table[cpu, Select(kind, window[cpu], addr)];
      if 0 <= p < Parts(kind) then mem[p, Offset(kind, addr)] else 0
    }

    /** Rebuilds the table, from the highest part down. */
    method Rebuild()
      requires Shape()
      modifies table
      ensures forall u: nat, s: nat :: u < 3 && s < Parts(kind) ==> table[u, s] == Winner(kind, settings[..], u, s, 0)
    {
      hide MapsTo;
      forall u: nat, s: nat | u < 3 && s < Parts(kind) { table[u, s] := -1; }
      var part := Parts(kind);
      while part > 0
        invariant 0 <= part <= Parts(kind)
        invariant forall u: nat, s: nat :: u < 3 && s < Parts(kind) ==>
          table[u, s] == Winner(kind, settings[..], u, s, part)
      {
        part := part - 1;
        var v := settings[part];
        MapsToOne(kind, v);
        if Enabled(v) { table[User(kind, v), SlotOf(kind, v)] := part; }
      }
    }

    /** A write to a mapping register. */
    method Map(num: nat, val: byte)
      requires Valid() && num < Parts(kind)
      modifies settings, mirror, table
      ensures Valid()
      ensures settings[..] == if protect[num] then old(settings[..]) else old(settings[..])[num := Clean(kind, val)]
    {
      hide Clean, Winner, MapsTo;
      var v := Clean(kind, val);
      CleanTwice(kind, val);
      if protect[num] { return; }
      if settings[num] == v { return; }
      settings[num] := v;
      mirror[num] := settings[num];
      Rebuild();
    }

    /** A write to a windowing register. */
    method MapRange(cpu: nat, val: nat)
      requires Valid() && cpu < 2
      modifies `window
      ensures Valid() && window == old(window)[cpu := if kind == KindA then WindowA(val) else WindowBC(val)]
    {
      hide Winner, Clean;
      window := window[cpu := if kind == KindA then WindowA(val) else WindowBC(val)];
    }

    /** A read of one, two or four bytes at the address rounded down. */
    method Read(cpu: nat, addr: nat, n: nat) returns (val: seq<byte>)
      requires Valid() && cpu < 2 && n in {1, 2, 4}
      ensures |val| == n && forall k :: 0 <= k < n ==> val[k] == Seen(cpu, Rounded(addr, n) + k)
    {
      hide Select, Offset, Winner, Clean, Rounded;
      var a := Rounded(addr, n);
      var p := table[cpu, Select(kind, window[cpu], a)];
      val := [];
      for k := 0 to n
        invariant |val| == k && forall i :: 0 <= i < k ==> val[i] == Seen(cpu, a + i)
      {
        InUnit(kind, window[cpu], addr, n, k);
        val := val + [if p < 0 then 0 else mem[p, Offset(kind, a) + k]];
      }
    }

    /** A write goes to every part that is mapped to the processor's slot, and to no other. */
    method Write(cpu: nat, addr: nat, val: seq<byte>)
      requires Valid() && cpu < 2 && |val| in {1, 2, 4}
      modifies mem
      ensures
        var a := Rounded(addr, |val|);
        var slot, off := Select(kind, window[cpu], a), Offset(kind, a);
        forall p, o :: 0 <= p < Parts(kind) && 0 <= o < PageSize(kind) ==>
          mem[p, o] ==
            if MapsTo(kind, settings[p], cpu, slot) && off <= o < off + |val| then val[o - off] else old(mem[p, o])
    {
      hide Winner, Clean, MapsTo, Wanted, Select, Offset, Rounded;
      var a := Rounded(addr, |val|);
      var slot, off := Select(kind, window[cpu], a), Offset(kind, a);
      InUnit(kind, window[cpu], addr, |val|, |val| - 1);
      var dest := Wanted(cpu, slot);
      var page := 0;
      while page < Parts(kind)
        invariant 0 <= page <= Parts(kind)
        invariant forall p, o :: 0 <= p < Parts(kind) && 0 <= o < PageSize(kind) ==>
          mem[p, o] == if p < page && MapsTo(kind, settings[p], cpu, slot) && off <= o < off + |val| then val[o - off]
                       else old(mem[p, o])
      {
        var info := if cpu == 0 then settings[page] else mirror[page];
        assert mirror[..][page] == settings[..][page];
        WantedIff(kind, settings[page], cpu, slot);
        if info == dest {
          forall o | off <= o < off + |val| { mem[page, o] := val[o - off]; }
        }
        page := page + 1;
      }
    }

    /** After a write, the same processor reads the new byte wherever its window shows the same slot and
        one of the written offsets, if anything is mapped there; every other read of either processor is
        as before. */
    method WriteAndLook(cpu: nat, addr: nat, val: seq<byte>, cpu': nat, addr': nat)
      returns (before: seq<byte>, after: seq<byte>)
      requires Valid() && cpu < 2 && cpu' < 2 && |val| in {1, 2, 4}
      modifies mem
      ensures before == [old(Seen(cpu', addr'))] && after == [Seen(cpu', addr')]
      ensures
        var a := Rounded(addr, |val|);
        var slot, k := Select(kind, window[cpu], a), Offset(kind, addr') - Offset(kind, a);
        var same := cpu' == cpu && Select(kind, window[cpu'], addr') == slot && 0 <= k < |val|;
        var mapped := exists p :: 0 <= p < Parts(kind) && MapsTo(kind, settings[p], cpu, slot);
        after == if same && mapped then [val[k]] else before
    {
      hide Select, Offset, Clean, MapsTo;
      before := Read(cpu', addr', 1);
      Write(cpu, addr, val);
      after := Read(cpu', addr', 1);
      OneSlot(kind);
    }
  }

  /** A setting maps to its own user and slot, and nowhere else. */
  lemma MapsToOne(k: Kind, v: byte)
    ensures Enabled(v) ==> forall u, s :: MapsTo(k, v, u, s) <==> u == User(k, v) && s == SlotOf(k, v)
    ensures !Enabled(v) ==> forall u, s :: !MapsTo(k, v, u, s)
  {
  }

  lemma OneSlot(k: Kind)
    ensures forall v: byte, u, s, u', s' :: MapsTo(k, v, u, s) && MapsTo(k, v, u', s') ==> u == u' && s == s'
  {
  }
}
