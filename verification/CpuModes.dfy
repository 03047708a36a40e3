/**
  Processor modes of the emulated ARM7.  Banked registers live in one register array plus one parking
  array per bank, and a mode change swaps cells.  Seen through the architecture's banked register
  file (section A2.4 of DDI 0100), a mode change changes nothing, and an exception followed by its
  return instruction restores the interrupted program (section A2.6).
 */
module CpuModes {

  type Word = w: nat | w < 0x1_0000_0000

  /** 32-bit wrap-around of a sum or difference. */
  function Wrap(v: int): Word
    requires -0x1_0000_0000 <= v < 0x2_0000_0000
  {
    if v < 0 then v + 0x1_0000_0000 else if v >= 0x1_0000_0000 then v - 0x1_0000_0000 else v
  }

  /** A program status register, bit group by bit group. */
  datatype Psr = Psr(
    high: nat,           // bits 8-31, one byte each below
    mid: nat,
    low: nat,
    irqOff: bool,        // bit 7
    fiqOff: bool,        // bit 6
    thumb: bool,         // bit 5
    mode: nat            // bits 0-4
  )

  datatype Bank = User | Fiq | Irq | Svc | Abt | Und

  /** The bank that UpdateMode swaps for a mode. */
  function BankOf(mode: nat): Bank {
    match mode
    case 0x11 => Fiq
    case 0x12 => Irq
    case 0x13 => Svc
    case 0x17 => Abt
    case 0x1B => Und
    case _ => User
  }

  /** The saved status register of a mode; modes next to abort and undefined share theirs. */
  function SpsrBank(mode: nat): Bank {
    if mode == 0x11 then Fiq else if mode == 0x12 then Irq else if mode == 0x13 then Svc
    else if 0x14 <= mode <= 0x17 then Abt else if 0x18 <= mode <= 0x1B then Und else User
  }

  /** The registers as they are stored: R, the parking arrays, and the status registers. */
  datatype State = State(
    r: seq<Word>,
    fiq: seq<Word>, irq: seq<Word>, svc: seq<Word>, abt: seq<Word>, und: seq<Word>,
    cpsr: Psr,
    spsr: Spsrs
  )

  datatype Spsrs = Spsrs(fiq: Psr, irq: Psr, svc: Psr, abt: Psr, und: Psr)

  predicate Sized(s: State) {
    |s.r| == 16 && |s.fiq| == 7 && |s.irq| == |s.svc| == |s.abt| == |s.und| == 2
  }

  type Stored = s: State | Sized(s)
    witness State(seq(16, _ => 0), seq(7, _ => 0), [0, 0], [0, 0], [0, 0], [0, 0], RESET_PSR, RESET_SPSRS)

  const RESET_PSR := Psr(0, 0, 0, false, false, false, 0x10)
  const RESET_SPSRS := Spsrs(RESET_PSR, RESET_PSR, RESET_PSR, RESET_PSR, RESET_PSR)

  // ----- The architecture's view -----

  /** The first register a bank replaces; it replaces all from there to r14. */
  function First(b: Bank): (i: nat)
    ensures i <= 15
  {
    match b
    case User => 15
    case Fiq => 8
    case _ => 13
  }

  function Parked(s: Stored, b: Bank): (p: seq<Word>)
    ensures |p| == 15 - First(b)
  {
    match b
    case User => []
    case Fiq => s.fiq
    case Irq => s.irq
    case Svc => s.svc
    case Abt => s.abt
    case Und => s.und
  }

  /** The bank that register i of a mode with bank b belongs to. */
  function Owner(b: Bank, i: nat): Bank {
    if i >= First(b) then b else User
  }

  /** What register i of bank b holds, while the bank cur is swapped in. */
  function Reading(s: Stored, cur: Bank, b: Bank, i: nat): Word
    requires i < 15
  {
    var o, c := Owner(b, i), Owner(cur, i);
    if o == c then s.r[i]
    else if o != User then Parked(s, o)[i - First(o)]
    else Parked(s, c)[i - First(c)]
  }

  /** The same banked register file, with bank a swapped in in s and bank b in t. */
  ghost predicate SameFile(s: Stored, a: Bank, t: Stored, b: Bank) {
    forall x: Bank, i: nat :: i < 15 ==> Reading(s, a, x, i) == Reading(t, b, x, i)
  }

  // ----- Swapping -----

  function Swap(s: Stored, b: Bank): Stored {
    var now := s.r[First(b)..15];
    var s' := s.(r := s.r[..First(b)] + Parked(s, b) + s.r[15..]);
    match b
    case User => s
    case Fiq => s'.(fiq := now)
    case Irq => s'.(irq := now)
    case Svc => s'.(svc := now)
    case Abt => s'.(abt := now)
    case Und => s'.(und := now)
  }

  function Switch(s: Stored, oldMode: nat, newMode: nat): Stored {
    if oldMode == newMode then s else Swap(Swap(s, BankOf(oldMode)), BankOf(newMode))
  }

  lemma SwapTwice(s: Stored, b: Bank)
    ensures Swap(Swap(s, b), b) == s
  {
    var t := Swap(s, b);
    assert t.r[First(b)..15] == Parked(s, b) && t.r[..First(b)] == s.r[..First(b)] && t.r[15..] == s.r[15..];
    assert s.r[..First(b)] + s.r[First(b)..15] + s.r[15..] == s.r;
  }

  lemma SwapReadsOut(s: Stored, b: Bank)
    ensures SameFile(s, b, Swap(s, b), User)
  {
  }

  lemma SwapReadsIn(s: Stored, b: Bank)
    ensures SameFile(s, User, Swap(s, b), b)
  {
    SwapReadsOut(Swap(s, b), b);
    SwapTwice(s, b);
  }

  /** A mode change preserves the banked register file. */
  lemma SwitchKeepsFile(s: Stored, a: nat, b: nat)
    ensures SameFile(s, BankOf(a), Switch(s, a, b), BankOf(b))
    ensures Switch(s, a, b).r[15] == s.r[15]
  {
    hide Swap, Reading;
    SwapReadsOut(s, BankOf(a));
    SwapReadsIn(Swap(s, BankOf(a)), BankOf(b));
    SwapKeepsPc(s, BankOf(a));
    SwapKeepsPc(Swap(s, BankOf(a)), BankOf(b));
  }

  lemma SwapKeepsPc(s: Stored, b: Bank)
    ensures Swap(s, b).r[15] == s.r[15]
  {
  }

  /** Mode changes compose. */
  lemma SwitchComposes(s: Stored, a: nat, b: nat, c: nat)
    ensures Switch(Switch(s, a, b), b, c) == Switch(s, a, c)
  {
    hide Swap, BankOf;
    SwapTwice(s, BankOf(a));
    SwapTwice(Swap(s, BankOf(a)), BankOf(b));
  }

  /** A mode change is undone by the opposite one. */
  lemma SwitchUndoes(s: Stored, a: nat, b: nat)
    ensures Switch(Switch(s, a, b), b, a) == s
  {
    SwitchComposes(s, a, b, a);
  }

  // ----- Exceptions and returns -----

  function SavedPsr(sp: Spsrs, b: Bank): Psr
    requires b != User
  {
    match b
    case Fiq => sp.fiq
    case Irq => sp.irq
    case Svc => sp.svc
    case Abt => sp.abt
    case Und => sp.und
  }

  function WithSavedPsr(sp: Spsrs, b: Bank, p: Psr): Spsrs
    requires b != User
  {
    match b
    case Fiq => sp.(fiq := p)
    case Irq => sp.(irq := p)
    case Svc => sp.(svc := p)
    case Abt => sp.(abt := p)
    case Und => sp.(und := p)
  }

  datatype Exception = Interrupt | SoftwareCall | Undefined

  function HandlerMode(e: Exception): nat {
    match e
    case Interrupt => 0x12
    case SoftwareCall => 0x13
    case Undefined => 0x1B
  }

  /** The link register that an exception leaves, from the program counter as the code sees it. */
  function LinkOf(e: Exception, pc: Word, thumb: bool): Word {
    if e == Interrupt then Wrap(pc as int + if thumb then 2 else 0) else Wrap(pc as int - if thumb then 2 else 4)
  }

  function HandlerPsr(e: Exception, p: Psr): Psr {
    p.(irqOff := true, fiqOff := p.fiqOff || e == Interrupt, thumb := false, mode := HandlerMode(e))
  }

  function Jump(s: Stored, addr: Word): Stored {
    if addr % 2 == 1 then s.(r := s.r[15 := Wrap((addr as int) + 1)], cpsr := s.cpsr.(thumb := true))
    else s.(r := s.r[15 := Wrap((addr as int) / 4 * 4 + 4)], cpsr := s.cpsr.(thumb := false))
  }

  function Entered(s: Stored, e: Exception, base: Word): Stored {
    var vector := match e case Interrupt => 0x18 case SoftwareCall => 0x08 case Undefined => 0x04;
    var t := Switch(s.(cpsr := HandlerPsr(e, s.cpsr)), s.cpsr.mode, HandlerMode(e));
    var u := t.(spsr := WithSavedPsr(t.spsr, BankOf(HandlerMode(e)), s.cpsr),
                r := t.r[14 := LinkOf(e, t.r[15], s.cpsr.thumb)]);
    Jump(u, Wrap(base as int + vector))
  }

  /** RestoreCPSR: outside the exception modes only bit 4 is forced. */
  function Restored(s: Stored): Stored {
    var b := SpsrBank(s.cpsr.mode);
    var p := if b == User then s.cpsr else SavedPsr(s.spsr, b);
    var q := p.(mode := ForceBit4(p.mode));
    Switch(s.(cpsr := q), s.cpsr.mode, q.mode)
  }

  function ForceBit4(mode: nat): nat {
    if mode < 16 then mode + 16 else mode
  }

  /** JumpTo with restorecpsr: the restored state decides the instruction set. */
  function JumpRestored(s: Stored, addr: Word): Stored {
    var t := Restored(s);
    Jump(t, if t.cpsr.thumb then addr / 2 * 2 + 1 else addr / 2 * 2)
  }

  /** SUBS PC, LR, #4 for interrupts and MOVS PC, LR for the others.  Both set flags first. */
  function ReturnFrom(s: Stored, e: Exception, flags: nat): Stored {
    JumpRestored(s.(cpsr := s.cpsr.(high := flags)), if e == Interrupt then Wrap(s.r[14] as int - 4) else s.r[14])
  }

  /** The program counter is aligned for the instruction set in use. */
  predicate Aligned(s: Stored) {
    if s.cpsr.thumb then s.r[15] % 2 == 0 else s.r[15] % 4 == 0
  }

  /** What a handler must leave for its return: its mode, its saved status and its link register. */
  predicate Returnable(u: Stored, t: Stored, e: Exception) {
    && u.cpsr.mode == t.cpsr.mode == HandlerMode(e) && t.r[14] == u.r[14]
    && SavedPsr(t.spsr, BankOf(HandlerMode(e))) == SavedPsr(u.spsr, BankOf(HandlerMode(e)))
  }

  /** Where an exception goes, in which mode, and which saved status register it writes: interrupts to the
      vector at 0x18, software calls to 0x08 and undefined instructions to 0x04.  The program counter runs one
      instruction ahead. */
  lemma EntryGoes(s: Stored, e: Exception, base: Word)
    requires base % 4 == 0
    ensures
      var u := Entered(s, e, base);
      match e
      case Interrupt =>
        && u.r[15] == (base + 0x1C) % 0x1_0000_0000 && u.cpsr.mode == 0x12 && u.spsr == s.spsr.(irq := s.cpsr)
        && u.r[14] == (s.r[15] as int + if s.cpsr.thumb then 2 else 0) % 0x1_0000_0000 && u.cpsr.fiqOff
      case SoftwareCall =>
        && u.r[15] == (base + 0x0C) % 0x1_0000_0000 && u.cpsr.mode == 0x13 && u.spsr == s.spsr.(svc := s.cpsr)
        && u.r[14] == (s.r[15] as int - if s.cpsr.thumb then 2 else 4) % 0x1_0000_0000 && u.cpsr.fiqOff == s.cpsr.fiqOff
      case Undefined =>
        && u.r[15] == (base + 0x08) % 0x1_0000_0000 && u.cpsr.mode == 0x1B && u.spsr == s.spsr.(und := s.cpsr)
        && u.r[14] == (s.r[15] as int - if s.cpsr.thumb then 2 else 4) % 0x1_0000_0000 && u.cpsr.fiqOff == s.cpsr.fiqOff
    ensures
      var u := Entered(s, e, base).cpsr;
      u.irqOff && !u.thumb && u.high == s.cpsr.high && u.mid == s.cpsr.mid && u.low == s.cpsr.low
  {
    hide Switch;
    var s0 := s.(cpsr := HandlerPsr(e, s.cpsr));
    SwitchKeepsPsrs(s0, s.cpsr.mode, HandlerMode(e));
    SwitchKeepsPc(s0, s.cpsr.mode, HandlerMode(e));
    VectorIs(base, match e case Interrupt => 0x18 case SoftwareCall => 0x08 case Undefined => 0x04);
    WrapIs(s.r[15] as int + 2);
    WrapIs(s.r[15] as int - 2);
    WrapIs(s.r[15] as int - 4);
  }

  lemma WrapIs(v: int)
    requires -0x1_0000_0000 <= v < 0x2_0000_0000
    ensures Wrap(v) == v % 0x1_0000_0000
    ensures v >= 0x1_0000_0000 ==> v % 0x1_0000_0000 == v - 0x1_0000_0000
  {
  }

  lemma VectorIs(base: Word, vector: nat)
    requires base % 4 == 0 && vector % 4 == 0 && vector < 0x100
    ensures
      var to := Wrap(base as int + vector);
      to % 2 == 0 && Wrap(to as int / 4 * 4 + 4) == (base + vector + 4) % 0x1_0000_0000
  {
    var to: int := base as int + vector;
    WholeWord(if to >= 0x1_0000_0000 then to - 0x1_0000_0000 else to);
    WrapIs(to);
    WrapIs(to + 4);
    if to >= 0x1_0000_0000 { WrapIs(to - 0x1_0000_0000 + 4); }
  }

  lemma WholeWord(a: nat)
    requires a % 4 == 0
    ensures a % 2 == 0 && a / 4 * 4 == a
  {
    var k := a / 4;
    var even := 2 * k;
    assert a == 4 * k == 2 * even;
    assert (2 * even) % 2 == 0;
  }

  lemma SwitchKeepsPc(s: Stored, a: nat, b: nat)
    ensures Switch(s, a, b).r[15] == s.r[15]
  {
    hide Swap;
    SwapKeepsPc(s, BankOf(a));
    SwapKeepsPc(Swap(s, BankOf(a)), BankOf(b));
  }

  /** Which registers a mode has of its own: r8-r14 in 0x11, r13 and r14 in 0x12, 0x13, 0x17 and 0x1B. */
  lemma BanksAre(s: Stored, mode: nat)
    requires mode != 0x1F
    ensures
      var t := Switch(s, 0x1F, mode);
      if mode == 0x11 then t == s.(r := s.r[..8] + s.fiq + s.r[15..], fiq := s.r[8..15])
      else if mode == 0x12 then t == s.(r := s.r[..13] + s.irq + s.r[15..], irq := s.r[13..15])
      else if mode == 0x13 then t == s.(r := s.r[..13] + s.svc + s.r[15..], svc := s.r[13..15])
      else if mode == 0x17 then t == s.(r := s.r[..13] + s.abt + s.r[15..], abt := s.r[13..15])
      else if mode == 0x1B then t == s.(r := s.r[..13] + s.und + s.r[15..], und := s.r[13..15])
      else t == s
  {
  }

  /** Which saved status register a return restores; user and system mode have none.  Bit 4 is forced. */
  lemma RestoredStatus(s: Stored)
    ensures
      var m := s.cpsr.mode;
      var p := if m == 0x11 then s.spsr.fiq else if m == 0x12 then s.spsr.irq else if m == 0x13 then s.spsr.svc
        else if m in {0x14, 0x15, 0x16, 0x17} then s.spsr.abt
        else if m in {0x18, 0x19, 0x1A, 0x1B} then s.spsr.und else s.cpsr;
      Restored(s).cpsr == p.(mode := if p.mode < 16 then p.mode + 16 else p.mode)
  {
    hide Switch;
    var b := SpsrBank(s.cpsr.mode);
    var p := if b == User then s.cpsr else SavedPsr(s.spsr, b);
    var q := p.(mode := ForceBit4(p.mode));
    SwitchKeepsPsrs(s.(cpsr := q), s.cpsr.mode, q.mode);
  }

  /** Entering keeps the register file except the handler's link register, and the saved status
      registers except the handler's. */
  lemma EntryKeeps(s: Stored, e: Exception, base: Word)
    requires base % 4 == 0
    ensures
      var u, h := Entered(s, e, base), BankOf(HandlerMode(e));
      && u.cpsr.mode == HandlerMode(e) && u.cpsr.irqOff && !u.cpsr.thumb
      && (forall x: Bank, i: nat :: i < 15 && !(x == h && i == 14) ==>
        Reading(u, h, x, i) == Reading(s, BankOf(s.cpsr.mode), x, i))
      && u.r[14] == LinkOf(e, s.r[15], s.cpsr.thumb)
      && u.spsr == WithSavedPsr(s.spsr, h, s.cpsr)
  {
    hide Swap, Switch, LinkOf;
    var h := BankOf(HandlerMode(e));
    var s0 := s.(cpsr := HandlerPsr(e, s.cpsr));
    var t := Switch(s0, s.cpsr.mode, HandlerMode(e));
    SwitchKeepsFile(s0, s.cpsr.mode, HandlerMode(e));
    SwitchKeepsPsrs(s0, s.cpsr.mode, HandlerMode(e));
    PsrsDoNotRead(s, s0, BankOf(s.cpsr.mode));
    var u := Entered(s, e, base);
    LinkReads(t, u, h);
  }

  lemma SwitchKeepsPsrs(s: Stored, a: nat, b: nat)
    ensures Switch(s, a, b).cpsr == s.cpsr && Switch(s, a, b).spsr == s.spsr
  {
  }

  lemma PsrsDoNotRead(s: Stored, t: Stored, b: Bank)
    requires t == s.(cpsr := t.cpsr, spsr := t.spsr)
    ensures SameFile(s, b, t, b)
  {
  }

  /** Changing R14 and R15 changes nothing of the file but r14 of the swapped-in bank. */
  lemma LinkReads(t: Stored, u: Stored, h: Bank)
    requires u == t.(r := u.r, cpsr := u.cpsr, spsr := u.spsr) && u.r[..14] == t.r[..14] && h != User
    ensures forall x: Bank, i: nat :: i < 15 && !(x == h && i == 14) ==> Reading(u, h, x, i) == Reading(t, h, x, i)
  {
    forall x: Bank, i: nat | i < 15 && !(x == h && i == 14) ensures Reading(u, h, x, i) == Reading(t, h, x, i) {
      if i < 14 { assert u.r[i] == u.r[..14][i] == t.r[..14][i] == t.r[i]; }
    }
  }

  /** Restoring from a handler whose saved status is p. */
  lemma RestoreKeepsFile(t: Stored, e: Exception, p: Psr)
    requires t.cpsr.mode == HandlerMode(e) && SavedPsr(t.spsr, BankOf(HandlerMode(e))) == p && p.mode >= 16
    ensures
      var w := Restored(t);
      && w.cpsr == p && w.spsr == t.spsr && w.r[15] == t.r[15]
      && SameFile(t, BankOf(HandlerMode(e)), w, BankOf(p.mode))
  {
    hide Swap, Switch, Reading;
    var t1 := t.(cpsr := p);
    PsrsDoNotRead(t, t1, BankOf(HandlerMode(e)));
    SwitchKeepsFile(t1, HandlerMode(e), p.mode);
    SwitchKeepsPsrs(t1, HandlerMode(e), p.mode);
  }

  lemma JumpBack(w: Stored, e: Exception, pc: Word)
    requires if w.cpsr.thumb then pc % 2 == 0 else pc % 4 == 0
    ensures
      var lr := LinkOf(e, pc, w.cpsr.thumb);
      var to: Word := if e == Interrupt then Wrap(lr as int - 4) else lr;
      var v := Jump(w, if w.cpsr.thumb then to / 2 * 2 + 1 else to / 2 * 2);
      v == w.(r := w.r[15 := pc])
  {
    hide LinkOf, Wrap, Jump;
    var k := LinkReturns(e, pc, w.cpsr.thumb);
    if w.cpsr.thumb {
      assert 2 * k / 2 == k;
      JumpsToThumb(w, k);
    } else {
      assert 4 * k / 2 == 2 * k;
      JumpsToArm(w, k);
    }
  }

  lemma JumpsToThumb(w: Stored, k: nat)
    requires w.cpsr.thumb && 2 * k < 0x1_0000_0000
    ensures Jump(w, 2 * k + 1) == w.(r := w.r[15 := Wrap(2 * k + 2)])
  {
    hide Wrap;
    assert (2 * k + 1) % 2 == 1;
  }

  lemma JumpsToArm(w: Stored, k: nat)
    requires !w.cpsr.thumb && 4 * k < 0x1_0000_0000
    ensures Jump(w, 4 * k) == w.(r := w.r[15 := Wrap(4 * k + 4)])
  {
    hide Wrap;
    var even := 2 * k;
    assert 4 * k == 2 * even;
    assert (2 * even) % 2 == 0;
    assert 4 * k / 4 == k;
  }

  /** However the handler changed the register file, its return resumes the interrupted program:
      status, program counter and mode are those of before, and the file is the handler's. */
  lemma ReturnResumes(s: Stored, e: Exception, base: Word, t: Stored, flags: nat)
    requires Aligned(s) && s.cpsr.mode >= 16 && base % 4 == 0 && Returnable(Entered(s, e, base), t, e)
    ensures
      var v := ReturnFrom(t, e, flags);
      && v.cpsr == s.cpsr && v.r[15] == s.r[15] && v.spsr == t.spsr
      && SameFile(t, BankOf(HandlerMode(e)), v, BankOf(s.cpsr.mode))
  {
    hide Swap, Switch, Reading, LinkOf, Entered, Jump, Restored;
    EntryKeeps(s, e, base);
    var t0 := t.(cpsr := t.cpsr.(high := flags));
    PsrsDoNotRead(t, t0, BankOf(HandlerMode(e)));
    RestoreKeepsFile(t0, e, s.cpsr);
    var w := Restored(t0);
    JumpBack(w, e, s.r[15]);
    PcDoesNotRead(w, w.(r := w.r[15 := s.r[15]]), BankOf(s.cpsr.mode));
  }

  lemma PcDoesNotRead(s: Stored, t: Stored, b: Bank)
    requires t == s.(r := s.r[15 := t.r[15]], cpsr := t.cpsr)
    ensures SameFile(s, b, t, b)
  {
  }

  /** The return address arithmetic, around the end of the address space too. */
  lemma LinkReturns(e: Exception, pc: Word, thumb: bool) returns (k: nat)
    requires if thumb then pc % 2 == 0 else pc % 4 == 0
    ensures
      var lr := LinkOf(e, pc, thumb);
      var to: Word := if e == Interrupt then Wrap(lr as int - 4) else lr;
      if thumb then to == 2 * k && Wrap(2 * k + 2) == pc else to == 4 * k && Wrap(4 * k + 4) == pc
  {
    if thumb {
      k := if pc == 0 then 0x7FFF_FFFF else pc / 2 - 1;
    } else {
      k := if pc == 0 then 0x3FFF_FFFF else pc / 4 - 1;
    }
  }

  /** An exception whose handler returns at once leaves everything but the handler's own link
      register and saved status as it was. */
  lemma EntryThenReturn(s: Stored, e: Exception, base: Word, flags: nat)
    requires Aligned(s) && s.cpsr.mode >= 16 && base % 4 == 0
    ensures
      var v, h, b := ReturnFrom(Entered(s, e, base), e, flags), BankOf(HandlerMode(e)), BankOf(s.cpsr.mode);
      && v.cpsr == s.cpsr && v.r[15] == s.r[15] && v.spsr == WithSavedPsr(s.spsr, h, s.cpsr)
      && forall x: Bank, i: nat :: i < 15 && !(x == h && i == 14) ==> Reading(v, b, x, i) == Reading(s, b, x, i)
  {
    hide Entered, ReturnFrom, Reading, LinkOf;
    EntryKeeps(s, e, base);
    ReturnResumes(s, e, base, Entered(s, e, base), flags);
  }

  // ----- Writes to the status registers -----

  /** The four field bits of MSR. */
  datatype Fields = Fields(control: bool, extension: bool, status: bool, flags: bool)

  /** MSR to a status register.  User mode cannot touch the control byte, and the T bit of CPSR stays. */
  function Merged(was: Psr, val: Psr, f: Fields, isCpsr: bool, user: bool): Psr {
    var c := f.control && !user;
    Psr(
      if f.flags then val.high else was.high,
      if f.status then val.mid else was.mid,
      if f.extension then val.low else was.low,
      if c then val.irqOff else was.irqOff,
      if c then val.fiqOff else was.fiqOff,
      if c && !isCpsr then val.thumb else was.thumb,
      if c then ForceBit4(val.mode) else was.mode)
  }

  function WroteCpsr(s: Stored, val: Psr, f: Fields): Stored {
    var p := Merged(s.cpsr, val, f, true, s.cpsr.mode == 0x10);
    Switch(s.(cpsr := p), s.cpsr.mode, p.mode)
  }

  function WroteSpsr(s: Stored, val: Psr, f: Fields): Stored {
    var b := SpsrBank(s.cpsr.mode);
    if b == User then s
    else s.(spsr := WithSavedPsr(s.spsr, b, Merged(SavedPsr(s.spsr, b), val, f, false, s.cpsr.mode == 0x10)))
  }

  /** Which bits of the current status each field bit of MSR writes.  User mode writes the flag, status and
      extension bytes only; the T bit stays and bit 4 is forced. */
  lemma CpsrWritten(s: Stored, val: Psr, f: Fields)
    ensures
      var p, q, c := s.cpsr, WroteCpsr(s, val, f).cpsr, f.control && s.cpsr.mode != 0x10;
      && (f.flags ==> q.high == val.high) && (!f.flags ==> q.high == p.high)
      && (f.status ==> q.mid == val.mid) && (!f.status ==> q.mid == p.mid)
      && (f.extension ==> q.low == val.low) && (!f.extension ==> q.low == p.low)
      && (c ==> q.irqOff == val.irqOff && q.fiqOff == val.fiqOff && q.mode % 16 == val.mode % 16 && q.mode >= 16)
      && (c && val.mode < 32 ==> q.mode < 32)
      && (!c ==> q.irqOff == p.irqOff && q.fiqOff == p.fiqOff && q.mode == p.mode)
      && q.thumb == p.thumb && WroteCpsr(s, val, f).spsr == s.spsr
  {
    hide Switch;
    var p := Merged(s.cpsr, val, f, true, s.cpsr.mode == 0x10);
    SwitchKeepsPsrs(s.(cpsr := p), s.cpsr.mode, p.mode);
  }

  /** The same for the saved status register of an exception mode, whose T bit is written too. */
  lemma SpsrWritten(s: Stored, val: Psr, f: Fields)
    ensures
      var b, t := SpsrBank(s.cpsr.mode), WroteSpsr(s, val, f);
      if b == User then t == s
      else
        var p, q := SavedPsr(s.spsr, b), SavedPsr(t.spsr, b);
        && t == s.(spsr := WithSavedPsr(s.spsr, b, q))
        && (f.flags ==> q.high == val.high) && (!f.flags ==> q.high == p.high)
        && (f.status ==> q.mid == val.mid) && (!f.status ==> q.mid == p.mid)
        && (f.extension ==> q.low == val.low) && (!f.extension ==> q.low == p.low)
        && (f.control ==> q.irqOff == val.irqOff && q.fiqOff == val.fiqOff && q.thumb == val.thumb
                          && q.mode % 16 == val.mode % 16 && q.mode >= 16)
        && (!f.control ==> q.irqOff == p.irqOff && q.fiqOff == p.fiqOff && q.thumb == p.thumb && q.mode == p.mode)
  {
  }

  /** Bit 4 is set in the current and every saved status register. */
  predicate ModeBits(s: Stored) {
    && s.cpsr.mode >= 16 && s.spsr.fiq.mode >= 16 && s.spsr.irq.mode >= 16 && s.spsr.svc.mode >= 16
    && s.spsr.abt.mode >= 16 && s.spsr.und.mode >= 16
  }

  /** No status write clears bit 4 anywhere. */
  lemma WritesKeepModeBits(s: Stored, val: Psr, f: Fields)
    requires ModeBits(s)
    ensures ModeBits(WroteCpsr(s, val, f)) && ModeBits(WroteSpsr(s, val, f))
  {
    hide Switch;
    var p := Merged(s.cpsr, val, f, true, s.cpsr.mode == 0x10);
    SwitchKeepsPsrs(s.(cpsr := p), s.cpsr.mode, p.mode);
  }

  /** Neither does an exception entry. */
  lemma EntryKeepsModeBits(s: Stored, e: Exception, base: Word)
    requires ModeBits(s)
    ensures ModeBits(Entered(s, e, base))
  {
    hide Switch;
    SwitchKeepsPsrs(s.(cpsr := HandlerPsr(e, s.cpsr)), s.cpsr.mode, HandlerMode(e));
  }

  /** Neither does a return. */
  lemma ReturnKeepsModeBits(s: Stored, addr: Word)
    requires ModeBits(s)
    ensures ModeBits(JumpRestored(s, addr))
  {
    hide Switch;
    var b := SpsrBank(s.cpsr.mode);
    var p := if b == User then s.cpsr else SavedPsr(s.spsr, b);
    SwitchKeepsPsrs(s.(cpsr := p), s.cpsr.mode, p.mode);
  }

  /** A status write changes the mode at most: the register file stays. */
  lemma CpsrWriteKeepsFile(s: Stored, val: Psr, f: Fields)
    ensures SameFile(s, BankOf(s.cpsr.mode), WroteCpsr(s, val, f), BankOf(WroteCpsr(s, val, f).cpsr.mode))
    ensures s.cpsr.mode == 0x10 ==> WroteCpsr(s, val, f).cpsr.mode == 0x10
  {
    hide Swap, Switch, Reading;
    var p := Merged(s.cpsr, val, f, true, s.cpsr.mode == 0x10);
    PsrsDoNotRead(s, s.(cpsr := p), BankOf(s.cpsr.mode));
    SwitchKeepsFile(s.(cpsr := p), s.cpsr.mode, p.mode);
    SwitchKeepsPsrs(s.(cpsr := p), s.cpsr.mode, p.mode);
  }

  // ----- The processor -----

  class Arm {
    const r: array<Word>
    const rFiq: array<Word>      // without the saved status register in the last cell
    const rIrq: array<Word>
    const rSvc: array<Word>
    const rAbt: array<Word>
    const rUnd: array<Word>
    var cpsr: Psr
    var spsr: Spsrs              // the last cells of the bank arrays
    const exceptionBase: Word

    ghost predicate Valid() {
      && r.Length == 16 && rFiq.Length == 7 && rIrq.Length == rSvc.Length == rAbt.Length == rUnd.Length == 2
      && r != rIrq && r != rSvc && r != rAbt && r != rUnd && r != rFiq
      && rIrq != rSvc && rIrq != rAbt && rIrq != rUnd && rSvc != rAbt && rSvc != rUnd && rAbt != rUnd
    }

    ghost function Now(): Stored
      reads this, r, rFiq, rIrq, rSvc, rAbt, rUnd
      requires Valid()
    {
      State(r[..], rFiq[..], rIrq[..], rSvc[..], rAbt[..], rUnd[..], cpsr, spsr)
    }

    constructor (base: Word)
      ensures Valid() && fresh(r) && ModeBits(Now()) && exceptionBase == base
    {
      r, rFiq := new Word[16], new Word[7];
      rIrq, rSvc, rAbt, rUnd := new Word[2], new Word[2], new Word[2], new Word[2];
      cpsr, spsr, exceptionBase := RESET_PSR, RESET_SPSRS, base;
    }

    /** Swaps r[first..15] with a parking array, cell by cell. */
    method SwapCells(bank: array<Word>, first: nat)
      requires r.Length == 16 && first <= 15 && bank.Length == 15 - first && bank != r
      modifies r, bank
      ensures r[..] == old(r[..first]) + old(bank[..]) + old(r[15..])
      ensures bank[..] == old(r[first..15])
    {
      var k := 0;
      while k < bank.Length
        invariant 0 <= k <= bank.Length
        invariant forall i :: 0 <= i < k ==> r[first + i] == old(bank[i]) && bank[i] == old(r[first + i])
        invariant forall i :: k <= i < bank.Length ==> bank[i] == old(bank[i])
        invariant forall i :: 0 <= i < 16 && !(first <= i < first + k) ==> r[i] == old(r[i])
      {
        r[first + k], bank[k] := bank[k], r[first + k];
        k := k + 1;
      }
    }

    method SwapBank(b: Bank)
      requires Valid()
      modifies r, rFiq, rIrq, rSvc, rAbt, rUnd
      ensures Now() == Swap(old(Now()), b)
    {
      match b {
        case User =>
        case Fiq => SwapCells(rFiq, 8);
        case Irq => SwapCells(rIrq, 13);
        case Svc => SwapCells(rSvc, 13);
        case Abt => SwapCells(rAbt, 13);
        case Und => SwapCells(rUnd, 13);
      }
    }

    method UpdateMode(oldMode: nat, newMode: nat)
      requires Valid()
      modifies r, rFiq, rIrq, rSvc, rAbt, rUnd
      ensures Now() == Switch(old(Now()), oldMode, newMode)
    {
      hide Swap;
      if oldMode == newMode { return; }
      SwapBank(BankOf(oldMode));
      SwapBank(BankOf(newMode));
    }

    method RestoreCPSR()
      requires Valid()
      modifies `cpsr, r, rFiq, rIrq, rSvc, rAbt, rUnd
      ensures Now() == Restored(old(Now()))
    {
      hide Switch;
      ghost var s := Now();
      var oldMode := cpsr.mode;
      var b := SpsrBank(oldMode);
      if b != User { cpsr := SavedPsr(spsr, b); }
      cpsr := cpsr.(mode := ForceBit4(cpsr.mode));
      assert Now() == s.(cpsr := cpsr);
      UpdateMode(oldMode, cpsr.mode);
    }

    method JumpTo(addr: Word, restore: bool)
      requires Valid()
      modifies `cpsr, r, rFiq, rIrq, rSvc, rAbt, rUnd
      ensures Now() == if restore then JumpRestored(old(Now()), addr) else Jump(old(Now()), addr)
    {
      hide Restored;
      var to := addr;
      if restore {
        RestoreCPSR();
        to := if cpsr.thumb then addr / 2 * 2 + 1 else addr / 2 * 2;
      }
      ghost var t := Now();
      if to % 2 == 1 {
        r[15] := Wrap((to as int) + 1);
        cpsr := cpsr.(thumb := true);
      } else {
        r[15] := Wrap((to as int) / 4 * 4 + 4);
        cpsr := cpsr.(thumb := false);
      }
      assert Now() == Jump(t, to);
    }

    /** The common part of TriggerIRQ, A_SVC, T_SVC, A_UNK and T_UNK. */
    method Enter(e: Exception)
      requires Valid()
      modifies `cpsr, `spsr, r, rFiq, rIrq, rSvc, rAbt, rUnd
      ensures Now() == Entered(old(Now()), e, exceptionBase)
    {
      hide Switch, Jump;
      ghost var s := Now();
      var was := cpsr;
      cpsr := HandlerPsr(e, cpsr);
      assert Now() == s.(cpsr := cpsr);
      UpdateMode(was.mode, cpsr.mode);
      ghost var t := Now();
      spsr := WithSavedPsr(spsr, BankOf(HandlerMode(e)), was);
      r[14] := LinkOf(e, r[15], was.thumb);
      assert r[..] == t.r[14 := LinkOf(e, t.r[15], was.thumb)];
      var vector := match e case Interrupt => 0x18 case SoftwareCall => 0x08 case Undefined => 0x04;
      JumpTo(Wrap(exceptionBase as int + vector), false);
    }

    /** An interrupt is taken only when it is not masked. */
    method TriggerIRQ()
      requires Valid()
      modifies `cpsr, `spsr, r, rFiq, rIrq, rSvc, rAbt, rUnd
      ensures Now() == if old(cpsr).irqOff then old(Now()) else Entered(old(Now()), Interrupt, exceptionBase)
    {
      hide Entered;
      if cpsr.irqOff { return; }
      Enter(Interrupt);
    }

    method WriteStatus(toSpsr: bool, val: Psr, f: Fields)
      requires Valid()
      modifies `cpsr, `spsr, r, rFiq, rIrq, rSvc, rAbt, rUnd
      ensures Now() == if toSpsr then WroteSpsr(old(Now()), val, f) else WroteCpsr(old(Now()), val, f)
    {
      hide Switch;
      ghost var s := Now();
      var user := cpsr.mode == 0x10;
      if toSpsr {
        var b := SpsrBank(cpsr.mode);
        if b != User { spsr := WithSavedPsr(spsr, b, Merged(SavedPsr(spsr, b), val, f, false, user)); }
      } else {
        var oldMode := cpsr.mode;
        cpsr := Merged(cpsr, val, f, true, user);
        assert Now() == s.(cpsr := cpsr);
        UpdateMode(oldMode, cpsr.mode);
      }
    }
  }
}
