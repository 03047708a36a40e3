/**
  Code addresses in the JIT.  The dispatcher caches one mirror of a region as a window and computes
  table slots from the distance to its start; the compiler computes the slot from the address itself.
  Both must find the same slot.
 */
module MirrorLocations {
  import Arithmetic
  import opened NwramBanks
  import opened Wrappers

  datatype Region = Other | Itcm | Dtcm | Bios9 | MainRam | SharedWram | Io9 | Vram | Bios7 | Wram7 | Io7 | Wifi | Vwram
    | Bios9Dsi | Bios7Dsi | NwramA | NwramB | NwramC

  /** A 32-bit address. */
  type Address = a: nat | a < 0x1_0000_0000

  /** The shared WRAM as one processor sees it: where it starts in the 32 KB, and how much it is. */
  datatype Share = Share(offset: nat, size: nat)

  /** One new-WRAM bank as one processor sees it: its window and the part in every slot, -1 for none. */
  datatype BankView = BankView(window: Window, part: seq<int>)

  /** The mapping state of a console. */
  datatype Setup = Setup(
    dsi: bool,
    itcmSize: nat,
    dtcmStart: nat,
    dtcmSize: nat,               // 0 when it is disabled
    ramSize: nat,
    swram9: Option<Share>,
    swram7: Option<Share>,
    dsiBios9: bool,              // SCFG_BIOS bit 1 clear
    upper9Hidden: bool,          // bit 0
    dsiBios7: bool,              // bit 9 clear
    upper7Hidden: bool,          // bit 8
    banks9: seq<BankView>,
    banks7: seq<BankView>
  )

  predicate SoundShare(s: Option<Share>) {
    s.None? || (s.value.size == 0x8000 && s.value.offset == 0)
    || (s.value.size == 0x4000 && (s.value.offset == 0 || s.value.offset == 0x4000))
  }

  function KindOf(bank: nat): Kind {
    if bank == 0 then KindA else KindBC
  }

  predicate SoundBank(k: Kind, b: BankView) {
    && Sized(k, b.window) && OnPages(k, b.window) && |b.part| == Parts(k)
    && forall i :: 0 <= i < Parts(k) ==> -1 <= b.part[i] < Parts(k)
  }

  predicate Sound(s: Setup) {
    && (s.ramSize == 0x40_0000 || s.ramSize == 0x100_0000) && SoundShare(s.swram9) && SoundShare(s.swram7)
    && |s.banks9| == 3 && |s.banks7| == 3
    && forall i :: 0 <= i < 3 ==> SoundBank(KindOf(i), s.banks9[i]) && SoundBank(KindOf(i), s.banks7[i])
  }

  // ----- Which region an address belongs to -----

  predicate InBank(b: BankView, addr: Address) {
    b.window.start <= addr < b.window.end
  }

  function ClassifyNwram(banks: seq<BankView>, addr: Address): (r: Option<Region>)
    requires |banks| == 3
    ensures r.Some? ==> r.value.NwramA? || r.value.NwramB? || r.value.NwramC?
  {
    if InBank(banks[0], addr) then Some(NwramA)
    else if InBank(banks[1], addr) then Some(NwramB)
    else if InBank(banks[2], addr) then Some(NwramC)
    else None
  }

  function ClassifyAddress9(s: Setup, addr: Address): Region
    requires Sound(s)
  {
    if addr < s.itcmSize then Itcm
    else if s.dtcmStart <= addr < s.dtcmStart + s.dtcmSize then Dtcm
    else ClassifyBus9(s, addr)
  }

  /** What ARM9 finds outside its tightly coupled memories. */
  function ClassifyBus9(s: Setup, addr: Address): Region
    requires Sound(s)
  {
    if s.dsi && addr >= 0xFFFF_0000 && s.dsiBios9 then
      if addr >= 0xFFFF_8000 && s.upper9Hidden then Other else Bios9Dsi
    else if 0xFFFF_0000 <= addr < 0xFFFF_1000 then Bios9
    else
      match addr / 0x100_0000
      case 0x02 => MainRam
      case 0x03 =>
        var n := ClassifyNwram(s.banks9, addr);
        if s.dsi && n.Some? then n.value else if s.swram9.Some? then SharedWram else Other
      case 0x04 => Io9
      case 0x06 => Vram
      case 0x0C => if s.dsi then MainRam else Other
      case _ => Other
  }

  function ClassifyAddress7(s: Setup, addr: Address): Region
    requires Sound(s)
  {
    if s.dsi && addr < 0x1_0000 && s.dsiBios7 then
      if addr >= 0x8000 && s.upper7Hidden then Other else Bios7Dsi
    else if addr < 0x4000 then Bios7
    else
      match addr / 0x80_0000
      case 0x04 => MainRam
      case 0x05 => MainRam
      case 0x06 =>
        var n := ClassifyNwram(s.banks7, addr);
        if s.dsi && n.Some? then n.value else if s.swram7.Some? then SharedWram else Wram7
      case 0x07 => Wram7
      case 0x08 => Io7
      case 0x09 => Wifi
      case 0x0C => Vwram
      case 0x0D => Vwram
      case 0x18 => if s.dsi then MainRam else Other
      case 0x19 => if s.dsi then MainRam else Other
      case _ => Other
  }

  function Classify(s: Setup, num: nat, addr: Address): Region
    requires Sound(s)
  {
    if num == 0 then ClassifyAddress9(s, addr) else ClassifyAddress7(s, addr)
  }

  /** An address range, without its end. */
  predicate Between(addr: Address, start: nat, end: nat) {
    start <= addr < end
  }

  /** ARM9's address map.  The TCMs come first, then the DSi's BIOS, then the DS's; the new WRAM banks, in order,
      lie in front of shared WRAM. */
  lemma Map9(s: Setup, addr: Address)
    requires Sound(s)
    ensures
      var r := Classify(s, 0, addr);
      var tcm := addr < s.itcmSize || Between(addr, s.dtcmStart, s.dtcmStart + s.dtcmSize);
      var wram := !tcm && Between(addr, 0x0300_0000, 0x0400_0000);
      var a := s.dsi && Between(addr, s.banks9[0].window.start, s.banks9[0].window.end);
      var b := s.dsi && Between(addr, s.banks9[1].window.start, s.banks9[1].window.end);
      var c := s.dsi && Between(addr, s.banks9[2].window.start, s.banks9[2].window.end);
      var dsiBios := s.dsi && s.dsiBios9;
      && (r == Itcm <==> addr < s.itcmSize)
      && (r == Dtcm <==> addr >= s.itcmSize && Between(addr, s.dtcmStart, s.dtcmStart + s.dtcmSize))
      && (r == MainRam <==> !tcm && (Between(addr, 0x0200_0000, 0x0300_0000)
                                     || (s.dsi && Between(addr, 0x0C00_0000, 0x0D00_0000))))
      && (r == NwramA <==> wram && a) && (r == NwramB <==> wram && !a && b) && (r == NwramC <==> wram && !a && !b && c)
      && (r == SharedWram <==> wram && !a && !b && !c && s.swram9.Some?)
      && (r == Io9 <==> !tcm && Between(addr, 0x0400_0000, 0x0500_0000))
      && (r == Vram <==> !tcm && Between(addr, 0x0600_0000, 0x0700_0000))
      && (r == Bios9 <==> !tcm && !dsiBios && Between(addr, 0xFFFF_0000, 0xFFFF_1000))
      && (r == Bios9Dsi <==> !tcm && dsiBios && addr >= 0xFFFF_0000 && (s.upper9Hidden ==> addr < 0xFFFF_8000))
      && r !in {Bios7, Wram7, Io7, Wifi, Vwram, Bios7Dsi}
  {
  }

  /** ARM7's. */
  lemma Map7(s: Setup, addr: Address)
    requires Sound(s)
    ensures
      var r := Classify(s, 1, addr);
      var low := Between(addr, 0x0300_0000, 0x0380_0000);
      var a := s.dsi && Between(addr, s.banks7[0].window.start, s.banks7[0].window.end);
      var b := s.dsi && Between(addr, s.banks7[1].window.start, s.banks7[1].window.end);
      var c := s.dsi && Between(addr, s.banks7[2].window.start, s.banks7[2].window.end);
      var dsiBios := s.dsi && s.dsiBios7;
      && (r == Bios7 <==> !(dsiBios && addr < 0x1_0000) && addr < 0x4000)
      && (r == Bios7Dsi <==> dsiBios && addr < 0x1_0000 && (s.upper7Hidden ==> addr < 0x8000))
      && (r == MainRam <==> Between(addr, 0x0200_0000, 0x0300_0000)
                            || (s.dsi && Between(addr, 0x0C00_0000, 0x0D00_0000)))
      && (r == NwramA <==> low && a) && (r == NwramB <==> low && !a && b) && (r == NwramC <==> low && !a && !b && c)
      && (r == SharedWram <==> low && !a && !b && !c && s.swram7.Some?)
      && (r == Wram7 <==> (low && !a && !b && !c && s.swram7.None?) || Between(addr, 0x0380_0000, 0x0400_0000))
      && (r == Io7 <==> Between(addr, 0x0400_0000, 0x0480_0000))
      && (r == Wifi <==> Between(addr, 0x0480_0000, 0x0500_0000))
      && (r == Vwram <==> Between(addr, 0x0600_0000, 0x0700_0000))
      && r !in {Itcm, Dtcm, Bios9, Io9, Vram, Bios9Dsi}
  {
  }

  /** The regions with a fast lookup table, and the memory each table covers. */
  function TableSize(r: Region): nat {
    match r
    case Itcm => 0x8000
    case Bios9 => 0x1000
    case MainRam => 0x100_0000
    case SharedWram => 0x8000
    case Vram => 0x10_0000
    case Bios7 => 0x4000
    case Wram7 => 0x1_0000
    case Vwram => 0x4_0000
    case Bios9Dsi => 0x1_0000
    case Bios7Dsi => 0x1_0000
    case NwramA => 0x4_0000
    case NwramB => 0x4_0000
    case NwramC => 0x4_0000
    case _ => 0
  }

  // ----- Windows and local addresses -----

  datatype Mirror = Mirror(start: nat, size: nat, offset: nat)

  datatype Local = Local(region: Region, offset: nat)

  /** A power of two that occurs as a mirror size. */
  predicate IsMirrorSize(size: nat) {
    size in {0x1000, 0x4000, 0x8000, 0x1_0000, 0x4_0000, 0x10_0000, 0x40_0000, 0x100_0000}
  }

  /** addr & (size - 1) */
  function Low(addr: nat, size: nat): (r: nat)
    requires IsMirrorSize(size)
    ensures r < size && r <= addr
  {
    match size
    case 0x1000 => addr % 0x1000
    case 0x4000 => addr % 0x4000
    case 0x8000 => addr % 0x8000
    case 0x1_0000 => addr % 0x1_0000
    case 0x4_0000 => addr % 0x4_0000
    case 0x10_0000 => addr % 0x10_0000
    case 0x40_0000 => addr % 0x40_0000
    case _ => addr % 0x100_0000
  }

  function AlignedMirror(addr: Address, size: nat, offset: nat): Mirror
    requires IsMirrorSize(size)
  {
    Mirror(addr - Low(addr, size), size, offset)
  }

  function ShareOf(s: Setup, num: nat): Option<Share> {
    if num == 0 then s.swram9 else s.swram7
  }

  function BanksOf(s: Setup, num: nat): seq<BankView> {
    if num == 0 then s.banks9 else s.banks7
  }

  /** Where in the bank's memory the part starts that an address selects. */
  function PartStart(s: Setup, num: nat, bank: nat, addr: Address): Option<nat>
    requires Sound(s) && bank < 3
  {
    var k, b := KindOf(bank), BanksOf(s, num)[bank];
    var p := b.part[Select(k, b.window, addr)];
    if p < 0 then None else Some(if k == KindA then p * 0x1_0000 else p * 0x8000)
  }

  function GetMirrorLocation(s: Setup, r: Region, num: nat, addr: Address): Option<Mirror>
    requires Sound(s)
  {
    match r
    case Itcm => if num == 0 then Some(AlignedMirror(addr, 0x8000, 0)) else None
    case Dtcm => if num == 0 then Some(AlignedMirror(addr, 0x4000, 0)) else None
    case MainRam => Some(AlignedMirror(addr, s.ramSize, 0))
    case Bios9 => if num == 0 then Some(AlignedMirror(addr, 0x1000, 0)) else None
    case Bios7 => if num == 1 then Some(Mirror(0, 0x4000, 0)) else None
    case SharedWram =>
      var share := ShareOf(s, num);
      if share.Some? then Some(AlignedMirror(addr, share.value.size, share.value.offset)) else None
    case Wram7 => if num == 1 then Some(AlignedMirror(addr, 0x1_0000, 0)) else None
    case Vram => if num == 0 then Some(AlignedMirror(addr, 0x10_0000, 0)) else None
    case Vwram => if num == 1 then Some(AlignedMirror(addr, 0x4_0000, 0)) else None
    case NwramA =>
      var p := PartStart(s, num, 0, addr);
      if p.Some? then Some(AlignedMirror(addr, 0x1_0000, p.value)) else None
    case NwramB =>
      var p := PartStart(s, num, 1, addr);
      if p.Some? then Some(AlignedMirror(addr, 0x8000, p.value)) else None
    case NwramC =>
      var p := PartStart(s, num, 2, addr);
      if p.Some? then Some(AlignedMirror(addr, 0x8000, p.value)) else None
    case Bios9Dsi =>
      var size := if s.upper9Hidden then 0x8000 else 0x1_0000;
      if num == 0 then Some(Mirror(addr - Low(addr, 0x1_0000), size, 0)) else None
    case Bios7Dsi =>
      var size := if s.upper7Hidden then 0x8000 else 0x1_0000;
      if num == 1 then Some(Mirror(addr - Low(addr, 0x1_0000), size, 0)) else None
    case _ => None
  }

  function LocaliseNwram(s: Setup, r: Region, num: nat, bank: nat, addr: Address): Local
    requires Sound(s) && bank < 3
  {
    var p := PartStart(s, num, bank, addr);
    if p.Some? then Local(r, p.value + Low(addr, if bank == 0 then 0x1_0000 else 0x8000)) else Local(Other, 0)
  }

  function LocaliseAddress(s: Setup, r: Region, num: nat, addr: Address): Local
    requires Sound(s)
  {
    match r
    case Itcm => Local(r, Low(addr, 0x8000))
    case MainRam => Local(r, Low(addr, s.ramSize))
    case Bios9 => Local(r, Low(addr, 0x1000))
    case Bios7 => Local(r, Low(addr, 0x4000))
    case SharedWram =>
      var share := ShareOf(s, num);
      if share.Some? then Local(r, Low(addr, share.value.size) + share.value.offset) else Local(Other, 0)
    case Wram7 => Local(r, Low(addr, 0x1_0000))
    case Vram => Local(r, Low(addr, 0x10_0000))
    case Vwram => Local(r, Low(addr, 0x4_0000))
    case NwramA => LocaliseNwram(s, r, num, 0, addr)
    case NwramB => LocaliseNwram(s, r, num, 1, addr)
    case NwramC => LocaliseNwram(s, r, num, 2, addr)
    case Bios9Dsi => Local(r, Low(addr, 0x1_0000))
    case Bios7Dsi => Local(r, Low(addr, 0x1_0000))
    case _ => Local(Other, 0)
  }

  lemma NwramByte(s: Setup, r: Region, num: nat, bank: nat, addr: Address)
    requires Sound(s) && num < 2 && bank < 3
    ensures
      var l, view := LocaliseNwram(s, r, num, bank, addr), (if num == 0 then s.banks9 else s.banks7)[bank];
      var page := if bank == 0 then 0x1_0000 else 0x8000;
      var p := view.part[addr / page % view.window.slots];
      if p < 0 then l.region == Other else l == Local(r, page * p + addr % page)
  {
  }

  /** The byte of its memory that an address of a region means. */
  lemma ByteOf(s: Setup, r: Region, num: nat, addr: Address)
    requires Sound(s) && num < 2
    ensures
      var l := LocaliseAddress(s, r, num, addr);
      match r
      case Itcm => l == Local(r, addr % 0x8000)
      case MainRam => l == Local(r, addr % s.ramSize)
      case Bios9 => l == Local(r, addr % 0x1000)
      case Bios7 => l == Local(r, addr % 0x4000)
      case Wram7 => l == Local(r, addr % 0x1_0000)
      case Vram => l == Local(r, addr % 0x10_0000)
      case Vwram => l == Local(r, addr % 0x4_0000)
      case Bios9Dsi => l == Local(r, addr % 0x1_0000)
      case Bios7Dsi => l == Local(r, addr % 0x1_0000)
      case SharedWram =>
        var share := if num == 0 then s.swram9 else s.swram7;
        if share.None? then l.region == Other else l == Local(r, share.value.offset + addr % share.value.size)
      case NwramA =>
        var view := (if num == 0 then s.banks9 else s.banks7)[0];
        var p := view.part[addr / 0x1_0000 % view.window.slots];
        if p < 0 then l.region == Other else l == Local(r, 0x1_0000 * p + addr % 0x1_0000)
      case NwramB =>
        var view := (if num == 0 then s.banks9 else s.banks7)[1];
        var p := view.part[addr / 0x8000 % view.window.slots];
        if p < 0 then l.region == Other else l == Local(r, 0x8000 * p + addr % 0x8000)
      case NwramC =>
        var view := (if num == 0 then s.banks9 else s.banks7)[2];
        var p := view.part[addr / 0x8000 % view.window.slots];
        if p < 0 then l.region == Other else l == Local(r, 0x8000 * p + addr % 0x8000)
      case _ => l.region == Other
  {
    hide LocaliseNwram;
    if r.NwramA? { NwramByte(s, r, num, 0, addr); }
    if r.NwramB? { NwramByte(s, r, num, 1, addr); }
    if r.NwramC? { NwramByte(s, r, num, 2, addr); }
  }

  /** A console with everything of its kind mapped; a bank's one part fills the whole window. */
  function Mapped(dsi: bool, r: Region, part: int): Setup {
    Setup(dsi, 0x8000, 0, 0, 0x100_0000, Some(Share(0, 0x8000)), Some(Share(0, 0x8000)), true, false, true, false,
          [View(KindA, r == NwramA, part), View(KindBC, r == NwramB, part), View(KindBC, r == NwramC, part)],
          [View(KindA, false, -1), View(KindBC, false, -1), View(KindBC, false, -1)])
  }

  function View(k: Kind, on: bool, part: int): BankView {
    BankView(Window(0x300_0000, if on then 0x400_0000 else 0x300_0000, 1), seq(Parts(k), _ => if on then part else -1))
  }

  function PartOf(r: Region, o: nat): nat {
    match r case NwramA => o / 0x1_0000 case NwramB => o / 0x8000 case NwramC => o / 0x8000 case _ => 0
  }

  /** Where byte o of a region's table is seen, and by whom. */
  function SeenAt(r: Region, o: nat): Address
    requires o < 0x100_0000
  {
    match r
    case MainRam => 0x0200_0000 + o
    case SharedWram => 0x0300_0000 + o
    case Wram7 => 0x0380_0000 + o % 0x1_0000
    case Vram => 0x0600_0000 + o
    case Vwram => 0x0600_0000 + o
    case Bios9 => 0xFFFF_0000 + o % 0x1000
    case Bios9Dsi => 0xFFFF_0000 + o % 0x1_0000
    case NwramA => 0x0300_0000 + o % 0x1_0000
    case NwramB => 0x0300_0000 + o % 0x8000
    case NwramC => 0x0300_0000 + o % 0x8000
    case _ => o
  }

  lemma MappedSound(dsi: bool, r: Region, part: nat)
    requires part < if r == NwramA then 4 else 8
    ensures Sound(Mapped(dsi, r, part))
  {
  }

  predicate DsiOnly(r: Region) {
    r.Bios9Dsi? || r.Bios7Dsi? || r.NwramA? || r.NwramB? || r.NwramC?
  }

  /** The processor that has the region. */
  function Owner(r: Region): nat {
    if r.Bios7? || r.Bios7Dsi? || r.Wram7? || r.Vwram? then 1 else 0
  }

  function Shown(r: Region, o: nat): Setup {
    Mapped(DsiOnly(r), r, PartOf(r, o))
  }

  lemma SeenThere(r: Region, o: nat)
    requires o < TableSize(r) && Sound(Shown(r, o))
    ensures Classify(Shown(r, o), Owner(r), SeenAt(r, o)) == r
  {
    hide Classify, Sound, Shown;
    if Owner(r) == 0 { SeenBy9(r, o); } else { SeenBy7(r, o); }
  }

  lemma SeenBy9(r: Region, o: nat)
    requires o < TableSize(r) && Sound(Shown(r, o)) && Owner(r) == 0
    ensures Classify(Shown(r, o), 0, SeenAt(r, o)) == r
  {
    hide Sound, ClassifyAddress7;
  }

  lemma SeenBy7(r: Region, o: nat)
    requires o < TableSize(r) && Sound(Shown(r, o)) && Owner(r) == 1
    ensures Classify(Shown(r, o), 1, SeenAt(r, o)) == r
  {
    hide Sound, ClassifyAddress9, ClassifyNwram;
  }

  lemma SeenByte(r: Region, o: nat)
    requires o < TableSize(r) && Sound(Shown(r, o))
    ensures LocaliseAddress(Shown(r, o), r, Owner(r), SeenAt(r, o)) == Local(r, o)
  {
    hide Sound, LocaliseAddress;
    if r.NwramA? || r.NwramB? || r.NwramC? { SeenInBank(r, o); } else { SeenPlainly(r, o); }
  }

  lemma SeenPlainly(r: Region, o: nat)
    requires o < TableSize(r) && Sound(Shown(r, o)) && !r.NwramA? && !r.NwramB? && !r.NwramC?
    ensures LocaliseAddress(Shown(r, o), r, Owner(r), SeenAt(r, o)) == Local(r, o)
  {
    hide Sound, LocaliseAddress;
    ByteOf(Shown(r, o), r, Owner(r), SeenAt(r, o));
    var size := TableSize(r);
    Arithmetic.ModUnique(o, size, 0, o);
    match r
    case MainRam => Arithmetic.ModUnique(SeenAt(r, o), size, 2, o);
    case SharedWram => Arithmetic.ModUnique(SeenAt(r, o), size, 0x300_0000 / 0x8000, o);
    case Wram7 => Arithmetic.ModUnique(SeenAt(r, o), size, 0x380, o);
    case Vram => Arithmetic.ModUnique(SeenAt(r, o), size, 0x60, o);
    case Vwram => Arithmetic.ModUnique(SeenAt(r, o), size, 0x180, o);
    case Bios9 => Arithmetic.ModUnique(SeenAt(r, o), size, 0xF_FFF0, o);
    case Bios9Dsi => Arithmetic.ModUnique(SeenAt(r, o), size, 0xFFFF, o);
    case _ =>
  }

  lemma SeenInBank(r: Region, o: nat)
    requires o < TableSize(r) && Sound(Shown(r, o)) && (r.NwramA? || r.NwramB? || r.NwramC?)
    ensures LocaliseAddress(Shown(r, o), r, Owner(r), SeenAt(r, o)) == Local(r, o)
  {
    hide Sound, LocaliseAddress;
    ByteOf(Shown(r, o), r, Owner(r), SeenAt(r, o));
    var page := if r.NwramA? then 0x1_0000 else 0x8000;
    Arithmetic.ModUnique(SeenAt(r, o), page, if r.NwramA? then 0x300 else 0x600, o % page);
    assert page * (o / page) + o % page == o;
  }

  /** The lookup tables are no larger than what they cover: some console shows every byte of every table. */
  lemma TablesCovered(r: Region, o: nat)
    requires o < TableSize(r)
    ensures
      var s := Shown(r, o);
      && Sound(s) && Classify(s, Owner(r), SeenAt(r, o)) == r
      && LocaliseAddress(s, r, Owner(r), SeenAt(r, o)) == Local(r, o)
  {
    hide Classify, LocaliseAddress, Sound, SeenAt, Mapped;
    MappedSound(DsiOnly(r), r, PartOf(r, o));
    SeenThere(r, o);
    SeenByte(r, o);
  }

  // ----- They agree -----

  /** Within one aligned stretch the low bits count up from its start. */
  lemma LowInWindow(addr: nat, size: nat, a: nat)
    requires IsMirrorSize(size) && addr - Low(addr, size) <= a < addr - Low(addr, size) + size
    ensures Low(a, size) == a - (addr - Low(addr, size))
  {
    match size
    case 0x1000 => assert a / 0x1000 == addr / 0x1000;
    case 0x4000 => assert a / 0x4000 == addr / 0x4000;
    case 0x8000 => assert a / 0x8000 == addr / 0x8000;
    case 0x1_0000 => assert a / 0x1_0000 == addr / 0x1_0000;
    case 0x4_0000 => assert a / 0x4_0000 == addr / 0x4_0000;
    case 0x10_0000 => assert a / 0x10_0000 == addr / 0x10_0000;
    case 0x40_0000 => assert a / 0x40_0000 == addr / 0x40_0000;
    case _ => assert a / 0x100_0000 == addr / 0x100_0000;
  }

  /** Within one page the same slot of a bank is selected. */
  lemma SelectInWindow(k: Kind, w: Window, addr: nat, a: nat)
    requires Sized(k, w)
    requires
      var page := if k == KindA then 0x1_0000 else 0x8000;
      addr - Low(addr, page) <= a < addr - Low(addr, page) + page
    ensures Select(k, w, a) == Select(k, w, addr)
  {
    if k == KindA { assert a / 0x1_0000 == addr / 0x1_0000; } else { assert a / 0x8000 == addr / 0x8000; }
  }

  /** An address of a region that can hold code lies in its mirror window, the window's addresses
      localise to consecutive bytes of the same region, and these lie inside the lookup table. */
  lemma MirrorAgrees(s: Setup, num: nat, addr: Address, a: Address)
    requires Sound(s) && num < 2 && TableSize(Classify(s, num, addr)) > 0
    requires GetMirrorLocation(s, Classify(s, num, addr), num, addr).Some?
    ensures
      var r := Classify(s, num, addr);
      var m := GetMirrorLocation(s, r, num, addr).value;
      && m.start <= addr < m.start + m.size
      && m.offset % 2 == 0 && m.offset + m.size <= TableSize(r)
      && (m.start <= a < m.start + m.size ==> LocaliseAddress(s, r, num, a) == Local(r, m.offset + (a - m.start)))
  {
    hide Low, Select, ClassifyNwram;
    var r := Classify(s, num, addr);
    WindowHolds(s, num, addr);
    var m := GetMirrorLocation(s, r, num, addr).value;
    if m.start <= a < m.start + m.size { WindowLocalises(s, r, num, addr, a); }
  }

  /** The region is one of that processor's, and mapped. */
  predicate Belongs(s: Setup, r: Region, num: nat) {
    && (num == 0 ==> !r.Bios7? && !r.Wram7? && !r.Vwram? && !r.Bios7Dsi?)
    && (num == 1 ==> !r.Itcm? && !r.Bios9? && !r.Vram? && !r.Bios9Dsi?)
    && (r.SharedWram? ==> ShareOf(s, num).Some?)
  }

  lemma ClassifiedBelongs(s: Setup, num: nat, addr: Address)
    requires Sound(s) && num < 2
    ensures Belongs(s, Classify(s, num, addr), num)
  {
  }

  /** Every address with a lookup table has a window, in the new WRAM when a part is mapped there. */
  lemma WindowExistsIff(s: Setup, num: nat, addr: Address)
    requires Sound(s) && num < 2 && TableSize(Classify(s, num, addr)) > 0
    ensures
      var r := Classify(s, num, addr);
      var views := if num == 0 then s.banks9 else s.banks7;
      GetMirrorLocation(s, r, num, addr).Some? <==>
        match r
        case NwramA => views[0].part[addr / 0x1_0000 % views[0].window.slots] >= 0
        case NwramB => views[1].part[addr / 0x8000 % views[1].window.slots] >= 0
        case NwramC => views[2].part[addr / 0x8000 % views[2].window.slots] >= 0
        case _ => true
  {
    hide Classify;
    ClassifiedBelongs(s, num, addr);
  }

  lemma WindowHolds(s: Setup, num: nat, addr: Address)
    requires Sound(s) && num < 2 && TableSize(Classify(s, num, addr)) > 0
    requires GetMirrorLocation(s, Classify(s, num, addr), num, addr).Some?
    ensures
      var r := Classify(s, num, addr);
      var m := GetMirrorLocation(s, r, num, addr).value;
      m.start <= addr < m.start + m.size && m.offset % 2 == 0 && m.offset + m.size <= TableSize(r)
  {
    hide Classify, GetMirrorLocation;
    BiosPlaces(s, num, addr);
    WindowShape(s, Classify(s, num, addr), num, addr);
  }

  /** Where the BIOS regions are, as far as their windows depend on it. */
  ghost predicate InBios(s: Setup, r: Region, addr: Address) {
    match r
    case Bios7 => addr < 0x4000
    case Bios9Dsi => 0xFFFF_0000 <= addr && (s.upper9Hidden ==> addr < 0xFFFF_8000)
    case Bios7Dsi => addr < 0x1_0000 && (s.upper7Hidden ==> addr < 0x8000)
    case _ => true
  }

  lemma BiosPlaces(s: Setup, num: nat, addr: Address)
    requires Sound(s) && num < 2
    ensures InBios(s, Classify(s, num, addr), addr)
  {
    hide ClassifyNwram;
  }

  lemma WindowShape(s: Setup, r: Region, num: nat, addr: Address)
    requires Sound(s) && num < 2 && TableSize(r) > 0 && InBios(s, r, addr)
    requires GetMirrorLocation(s, r, num, addr).Some?
    ensures
      var m := GetMirrorLocation(s, r, num, addr).value;
      m.start <= addr < m.start + m.size && m.offset % 2 == 0 && m.offset + m.size <= TableSize(r)
  {
    hide Select, Low;
    HighestPage(addr);
  }

  lemma HighestPage(addr: Address)
    ensures addr >= 0xFFFF_0000 ==> Low(addr, 0x1_0000) == addr - 0xFFFF_0000
    ensures addr < 0x1_0000 ==> Low(addr, 0x1_0000) == addr
  {
    if addr >= 0xFFFF_0000 { assert addr / 0x1_0000 == 0xFFFF; }
  }

  lemma WindowLocalises(s: Setup, r: Region, num: nat, addr: Address, a: Address)
    requires Sound(s) && num < 2 && TableSize(r) > 0 && GetMirrorLocation(s, r, num, addr).Some?
    requires
      var m := GetMirrorLocation(s, r, num, addr).value;
      m.start <= a < m.start + m.size
    ensures
      var m := GetMirrorLocation(s, r, num, addr).value;
      LocaliseAddress(s, r, num, a) == Local(r, m.offset + (a - m.start))
  {
    hide Select;
    match r
    case SharedWram => LowInWindow(addr, ShareOf(s, num).value.size, a);
    case NwramA => LowInWindow(addr, 0x1_0000, a); SelectInWindow(KindA, BanksOf(s, num)[0].window, addr, a);
    case NwramB => LowInWindow(addr, 0x8000, a); SelectInWindow(KindBC, BanksOf(s, num)[1].window, addr, a);
    case NwramC => LowInWindow(addr, 0x8000, a); SelectInWindow(KindBC, BanksOf(s, num)[2].window, addr, a);
    case MainRam => LowInWindow(addr, s.ramSize, a);
    case Itcm => LowInWindow(addr, 0x8000, a);
    case Bios9 => LowInWindow(addr, 0x1000, a);
    case Wram7 => LowInWindow(addr, 0x1_0000, a);
    case Vram => LowInWindow(addr, 0x10_0000, a);
    case Vwram => LowInWindow(addr, 0x4_0000, a);
    case Bios9Dsi => LowInWindow(addr, 0x1_0000, a);
    case Bios7Dsi => LowInWindow(addr, 0x1_0000, a);
    case Bios7 =>
    case _ =>
  }

  /** A place in a lookup table: one for every halfword. */
  datatype Slot = Slot(region: Region, index: nat)

  /** The slot that the dispatcher reads for an address in a cached window. */
  function DispatchSlot(r: Region, m: Mirror, a: Address): Slot
    requires m.start <= a
  {
    Slot(r, m.offset / 2 + (a - m.start) / 2)
  }

  /** The compiler classifies the block's own address. */
  function LocaliseCodeAddress(s: Setup, num: nat, a: Address): Local
    requires Sound(s)
  {
    if TableSize(Classify(s, num, a)) > 0 then LocaliseAddress(s, Classify(s, num, a), num, a) else Local(Other, 0)
  }

  /** The slot that the compiler fills. */
  function CompilerSlot(s: Setup, num: nat, a: Address): Slot
    requires Sound(s)
  {
    var l := LocaliseCodeAddress(s, num, a);
    Slot(l.region, l.offset / 2)
  }

  /** The window that is cached after a jump to `addr`. */
  function WindowOf(s: Setup, num: nat, addr: Address): Option<Mirror>
    requires Sound(s)
  {
    var r := Classify(s, num, addr);
    if TableSize(r) > 0 then GetMirrorLocation(s, r, num, addr) else None
  }

  predicate Inside(m: Mirror, a: nat) {
    m.start <= a < m.start + m.size
  }

  /** For an address inside a cached window, dispatcher and compiler mean the same slot exactly when the
      address itself belongs to the window's region; the slot read is inside the table in any case. */
  lemma SameSlotIff(s: Setup, num: nat, addr: Address, a: Address)
    requires Sound(s) && num < 2 && WindowOf(s, num, addr).Some? && Inside(WindowOf(s, num, addr).value, a)
    ensures
      var read := DispatchSlot(Classify(s, num, addr), WindowOf(s, num, addr).value, a);
      && (CompilerSlot(s, num, a) == read <==> Classify(s, num, a) == Classify(s, num, addr))
      && read.index < (TableSize(read.region) + 1) / 2
  {
    MirrorAgrees(s, num, addr, a);
    hide Low, GetMirrorLocation, Classify, LocaliseAddress;
    var m := WindowOf(s, num, addr).value;
    HalvesAdd(m.offset, a - m.start);
    LocalisedRegion(s, Classify(s, num, a), num, a);
  }

  lemma LocalisedRegion(s: Setup, r: Region, num: nat, a: Address)
    requires Sound(s)
    ensures LocaliseAddress(s, r, num, a).region in {r, Other}
  {
    hide Low, PartStart;
  }

  lemma HalvesAdd(x: nat, y: nat)
    requires x % 2 == 0
    ensures (x + y) / 2 == x / 2 + y / 2
  {
  }

  // ----- Windows that reach beyond their region -----

  /** Every address of the window belongs to its region, so that every block in it is found again. */
  ghost predicate Whole(s: Setup, num: nat, addr: Address)
    requires Sound(s) && WindowOf(s, num, addr).Some?
  {
    forall a: Address :: Inside(WindowOf(s, num, addr).value, a) ==> Classify(s, num, a) == Classify(s, num, addr)
  }

  predicate Apart(start: nat, end: nat, m: Mirror) {
    end <= start || end <= m.start || m.start + m.size <= start
  }

  /** For ARM9: instruction TCM must cover its window; every other window must be clear of both TCMs. */
  predicate Clear9(s: Setup, r: Region, m: Mirror) {
    if r == Itcm then m.start + m.size <= s.itcmSize
    else s.itcmSize <= m.start && Apart(s.dtcmStart, s.dtcmStart + s.dtcmSize, m)
  }

  /** For ARM7: only the 64 KB windows of its own work RAM below 0x03800000 can be broken, by the windows
      of banks B and C, which are placed in steps of 32 KB. */
  predicate Clear7(s: Setup, r: Region, m: Mirror)
    requires Sound(s)
  {
    r == Wram7 && s.dsi && m.start < 0x380_0000 ==>
      forall i :: 1 <= i < 3 ==> Apart(s.banks7[i].window.start, s.banks7[i].window.end, m)
  }

  /** A bank's window holds all of a page or nothing of it. */
  lemma PageInBank(k: Kind, b: BankView, addr: Address, a: Address)
    requires SoundBank(k, b) && a / PageSize(k) == addr / PageSize(k)
    ensures InBank(b, a) <==> InBank(b, addr)
  {
  }

  /** 32 KB pages lie inside one page of bank A, too. */
  lemma PageInBanks(banks: seq<BankView>, addr: Address, a: Address)
    requires |banks| == 3 && (forall i :: 0 <= i < 3 ==> SoundBank(KindOf(i), banks[i]))
    requires a / 0x8000 == addr / 0x8000
    ensures ClassifyNwram(banks, a) == ClassifyNwram(banks, addr)
  {
    hide SoundBank;
    assert a / 0x1_0000 == a / 0x8000 / 2 && addr / 0x1_0000 == addr / 0x8000 / 2;
    PageInBank(KindA, banks[0], addr, a);
    PageInBank(KindBC, banks[1], addr, a);
    PageInBank(KindBC, banks[2], addr, a);
  }

  /** The 64 KB pages of bank A, against which the windows of the other banks do not count. */
  lemma PageOfBankA(banks: seq<BankView>, addr: Address, a: Address)
    requires |banks| == 3 && (forall i :: 0 <= i < 3 ==> SoundBank(KindOf(i), banks[i]))
    requires a / 0x1_0000 == addr / 0x1_0000 && ClassifyNwram(banks, addr) == Some(NwramA)
    ensures ClassifyNwram(banks, a) == Some(NwramA)
  {
    PageInBank(KindA, banks[0], addr, a);
  }

  /** All of an aligned window lies in the same aligned stretch of any larger size. */
  lemma InsideAligned(addr: Address, size: nat, offset: nat, a: Address)
    requires IsMirrorSize(size) && Inside(AlignedMirror(addr, size, offset), a)
    ensures size <= 0x1000 ==> a / 0x1000 == addr / 0x1000
    ensures size <= 0x8000 ==> a / 0x8000 == addr / 0x8000
    ensures size <= 0x1_0000 ==> a / 0x1_0000 == addr / 0x1_0000
    ensures size <= 0x10_0000 ==> a / 0x80_0000 == addr / 0x80_0000
    ensures a / 0x100_0000 == addr / 0x100_0000
  {
    SameStretch(addr, size, a);
    Quotients(a);
    Quotients(addr);
  }

  lemma SameStretch(addr: nat, size: nat, a: nat)
    requires IsMirrorSize(size) && addr - Low(addr, size) <= a < addr - Low(addr, size) + size
    ensures a / size == addr / size
  {
    LowInWindow(addr, size, a);
  }

  lemma Quotients(x: nat)
    ensures x / 0x8000 == x / 0x1000 / 8 == x / 0x4000 / 2
    ensures x / 0x1_0000 == x / 0x8000 / 2
    ensures x / 0x4_0000 == x / 0x1_0000 / 4
    ensures x / 0x10_0000 == x / 0x4_0000 / 4
    ensures x / 0x80_0000 == x / 0x10_0000 / 8
    ensures x / 0x100_0000 == x / 0x80_0000 / 2 == x / 0x40_0000 / 4
  {
  }

  /** Behind the TCMs, every window of ARM9 is whole. */
  lemma BusWindow9(s: Setup, addr: Address, a: Address)
    requires Sound(s) && TableSize(ClassifyBus9(s, addr)) > 0
    requires GetMirrorLocation(s, ClassifyBus9(s, addr), 0, addr).Some?
    requires Inside(GetMirrorLocation(s, ClassifyBus9(s, addr), 0, addr).value, a)
    ensures ClassifyBus9(s, a) == ClassifyBus9(s, addr)
  {
    hide Low, ClassifyNwram, Select, AlignedMirror;
    var r := ClassifyBus9(s, addr);
    match r
    case SharedWram =>
      InsideAligned(addr, s.swram9.value.size, s.swram9.value.offset, a);
      PageInBanks(s.banks9, addr, a);
    case NwramA => InsideAligned(addr, 0x1_0000, PartStart(s, 0, 0, addr).value, a);
      PageOfBankA(s.banks9, addr, a);
    case NwramB => InsideAligned(addr, 0x8000, PartStart(s, 0, 1, addr).value, a); PageInBanks(s.banks9, addr, a);
    case NwramC => InsideAligned(addr, 0x8000, PartStart(s, 0, 2, addr).value, a); PageInBanks(s.banks9, addr, a);
    case MainRam => InsideAligned(addr, s.ramSize, 0, a);
    case Vram => InsideAligned(addr, 0x10_0000, 0, a);
    case Bios9 => InsideAligned(addr, 0x1000, 0, a);
    case _ => HighestPage(addr);
  }

  /** The windows of ARM7 are whole, but for its own work RAM below 0x03800000. */
  lemma BusWindow7(s: Setup, addr: Address, a: Address)
    requires Sound(s) && WindowOf(s, 1, addr).Some? && Inside(WindowOf(s, 1, addr).value, a)
    requires Classify(s, 1, addr).Wram7? ==> addr >= 0x380_0000
    ensures Classify(s, 1, a) == Classify(s, 1, addr)
  {
    hide Low, ClassifyNwram, Select, AlignedMirror;
    var r := ClassifyAddress7(s, addr);
    match r
    case SharedWram =>
      InsideAligned(addr, s.swram7.value.size, s.swram7.value.offset, a);
      PageInBanks(s.banks7, addr, a);
    case NwramA =>
      InsideAligned(addr, 0x1_0000, PartStart(s, 1, 0, addr).value, a);
      PageOfBankA(s.banks7, addr, a);
    case NwramB => InsideAligned(addr, 0x8000, PartStart(s, 1, 1, addr).value, a); PageInBanks(s.banks7, addr, a);
    case NwramC => InsideAligned(addr, 0x8000, PartStart(s, 1, 2, addr).value, a); PageInBanks(s.banks7, addr, a);
    case MainRam => InsideAligned(addr, s.ramSize, 0, a);
    case Wram7 => InsideAligned(addr, 0x1_0000, 0, a);
    case Vwram => InsideAligned(addr, 0x4_0000, 0, a);
    case _ => HighestPage(addr);
  }

  /** Which windows are whole can be read off the setup. */
  lemma WholeIff(s: Setup, num: nat, addr: Address)
    requires Sound(s) && num < 2 && WindowOf(s, num, addr).Some?
    ensures
      var r, m := Classify(s, num, addr), WindowOf(s, num, addr).value;
      Whole(s, num, addr) <==> if num == 0 then Clear9(s, r, m) else Clear7(s, r, m)
  {
    if num == 0 { WholeIff9(s, addr); } else { WholeIff7(s, addr); }
  }

  lemma WholeIff9(s: Setup, addr: Address)
    requires Sound(s) && WindowOf(s, 0, addr).Some?
    ensures Whole(s, 0, addr) <==> Clear9(s, Classify(s, 0, addr), WindowOf(s, 0, addr).value)
  {
    hide ClassifyBus9, GetMirrorLocation, Low;
    var r, m := Classify(s, 0, addr), WindowOf(s, 0, addr).value;
    WindowInSpace(s, 0, addr);
    MirrorAgrees(s, 0, addr, addr);
    if r == Itcm {
      ItcmWindowIff(s, addr);
    } else if Clear9(s, r, m) {
      forall a: Address | Inside(m, a) ensures Classify(s, 0, a) == r { BusWindow9(s, addr, a); }
    } else if m.start < s.itcmSize {
      assert Inside(m, m.start) && Classify(s, 0, m.start) == Itcm;
    } else {
      var a := if m.start < s.dtcmStart then s.dtcmStart else m.start;
      assert Inside(m, a) && Classify(s, 0, a) == Dtcm;
    }
  }

  lemma WholeIff7(s: Setup, addr: Address)
    requires Sound(s) && WindowOf(s, 1, addr).Some?
    ensures Whole(s, 1, addr) <==> Clear7(s, Classify(s, 1, addr), WindowOf(s, 1, addr).value)
  {
    var r, m := Classify(s, 1, addr), WindowOf(s, 1, addr).value;
    if r == Wram7 && addr < 0x380_0000 {
      LowWram(s, addr);
    } else {
      forall a: Address | Inside(m, a) ensures Classify(s, 1, a) == r { BusWindow7(s, addr, a); }
    }
  }

  lemma LowWram(s: Setup, addr: Address)
    requires Sound(s) && Classify(s, 1, addr) == Wram7 && addr < 0x380_0000
    ensures WindowOf(s, 1, addr).Some?
    ensures Whole(s, 1, addr) <==> Clear7(s, Wram7, WindowOf(s, 1, addr).value)
  {
    hide Low, AlignedMirror, PartStart;
    var m := AlignedMirror(addr, 0x1_0000, 0);
    LowWramStart(addr);
    forall a: Address | Inside(m, a)
      ensures Classify(s, 1, a) == Wram7 <==> !s.dsi || !(InBank(s.banks7[1], a) || InBank(s.banks7[2], a))
    {
      InsideAligned(addr, 0x1_0000, 0, a);
      PageInBank(KindA, s.banks7[0], addr, a);
    }
    if s.dsi && !Clear7(s, Wram7, m) {
      var i :| 1 <= i < 3 && !Apart(s.banks7[i].window.start, s.banks7[i].window.end, m);
      var a := if m.start < s.banks7[i].window.start then s.banks7[i].window.start else m.start;
      assert Inside(m, a) && InBank(s.banks7[i], a);
    }
  }

  lemma LowWramStart(addr: Address)
    requires addr < 0x380_0000
    ensures AlignedMirror(addr, 0x1_0000, 0).start < 0x380_0000
    ensures AlignedMirror(addr, 0x1_0000, 0).start + 0x1_0000 <= 0x1_0000_0000
    ensures AlignedMirror(addr, 0x1_0000, 0).size == 0x1_0000
  {
  }

  lemma WindowInSpace(s: Setup, num: nat, addr: Address)
    requires Sound(s) && num < 2 && WindowOf(s, num, addr).Some?
    ensures WindowOf(s, num, addr).value.start + WindowOf(s, num, addr).value.size <= 0x1_0000_0000
  {
    hide Low, ClassifyAddress9, ClassifyAddress7, PartStart;
    forall size | IsMirrorSize(size) ensures addr - Low(addr, size) + size <= 0x1_0000_0000 {
      AlignedInSpace(addr, size);
    }
  }

  /** Instruction TCM fills its window exactly when the configured size covers it. */
  lemma ItcmWindowIff(s: Setup, addr: Address)
    requires Sound(s) && ClassifyAddress9(s, addr) == Itcm
    ensures WindowOf(s, 0, addr) == Some(AlignedMirror(addr, 0x8000, 0))
    ensures
      var m := AlignedMirror(addr, 0x8000, 0);
      Whole(s, 0, addr) <==> m.start + m.size <= s.itcmSize
  {
    hide Low, ClassifyNwram;
    var m := AlignedMirror(addr, 0x8000, 0);
    var last := m.start + m.size - 1;
    AlignedInSpace(addr, 0x8000);
    if last >= s.itcmSize { assert Inside(m, last) && Classify(s, 0, last) != Itcm; }
  }

  lemma AlignedInSpace(addr: Address, size: nat)
    requires IsMirrorSize(size)
    ensures addr - Low(addr, size) + size <= 0x1_0000_0000
  {
    match size
    case 0x1000 => assert addr / 0x1000 < 0x10_0000;
    case 0x4000 => assert addr / 0x4000 < 0x4_0000;
    case 0x8000 => assert addr / 0x8000 < 0x2_0000;
    case 0x1_0000 => assert addr / 0x1_0000 < 0x1_0000;
    case 0x4_0000 => assert addr / 0x4_0000 < 0x4000;
    case 0x10_0000 => assert addr / 0x10_0000 < 0x1000;
    case 0x40_0000 => assert addr / 0x40_0000 < 0x400;
    case _ => assert addr / 0x100_0000 < 0x100;
  }

  /** Bank B over the upper half of the first 64 KB of ARM7's work RAM, with no shared WRAM there. */
  function HalfCovered(): Setup {
    var none := BankView(Window(0, 0, 1), [-1, -1, -1, -1]);
    var half := BankView(Window(0x300_8000, 0x301_0000, 1), [0, -1, -1, -1, -1, -1, -1, -1]);
    var off := BankView(Window(0, 0, 1), [-1, -1, -1, -1, -1, -1, -1, -1]);
    Setup(true, 0x8000, 0x80_0000, 0x4000, 0x100_0000, None, None, false, false, false, false,
          [none, off, off], [none, half, off])
  }

  /** There, code at 0x03008000 is compiled into bank B's table, but after a jump to 0x03000000 it is looked
      for in the work RAM's table, and compiling it again does not help. */
  lemma LookedUpElsewhere()
    ensures
      var s := HalfCovered();
      && Sound(s)
      && WindowOf(s, 1, 0x300_0000) == Some(Mirror(0x300_0000, 0x1_0000, 0))
      && DispatchSlot(Wram7, Mirror(0x300_0000, 0x1_0000, 0), 0x300_8000) == Slot(Wram7, 0x4000)
      && CompilerSlot(s, 1, 0x300_8000) == Slot(NwramB, 0)
  {
    assert Sound(HalfCovered());
    LookedUpIn(HalfCovered());
  }

  lemma LookedUpIn(s: Setup)
    requires Sound(s) && s.dsi && s.swram7 == None && s.banks7[0].window.end == 0 && s.banks7[2].window.end == 0
    requires s.banks7[1].window == Window(0x300_8000, 0x301_0000, 1) && s.banks7[1].part[0] == 0
    ensures WindowOf(s, 1, 0x300_0000) == Some(Mirror(0x300_0000, 0x1_0000, 0))
    ensures CompilerSlot(s, 1, 0x300_8000) == Slot(NwramB, 0)
  {
    hide SoundBank;
    assert Classify(s, 1, 0x300_0000) == Wram7;
    assert Classify(s, 1, 0x300_8000) == NwramB;
  }
}
