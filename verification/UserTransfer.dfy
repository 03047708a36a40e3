/**
  Block loads and stores with the S bit (section A4.1 of DDI 0100): an exception handler saves and
  reloads the registers that user mode sees.  The code switches to the user bank, runs the transfer loop
  and switches back.
 */
module UserTransfers {

  import opened CpuModes
  import opened BlockTransfers

  /** The register file of user mode, while the bank cur is swapped in. */
  function UserFile(s: Stored, cur: Bank): (f: seq<Word>)
    ensures |f| == 16
  {
    seq(16, (i: nat) requires i < 16 => if i < 15 then Reading(s, cur, User, i) else s.r[15])
  }

  /** Switching to user mode brings exactly these registers in. */
  lemma UserFileIsIn(s: Stored, mode: nat)
    ensures Switch(s, mode, 0x10).r == UserFile(s, BankOf(mode))
  {
    hide Switch, Parked;
    var t, f := Switch(s, mode, 0x10), UserFile(s, BankOf(mode));
    SwitchKeepsFile(s, mode, 0x10);
    forall i | 0 <= i < 16 ensures t.r[i] == f[i] {
      if i < 15 { assert Reading(t, User, User, i) == t.r[i]; }
    }
  }

  /** The code's test for a base register that user mode does not see. */
  predicate HasOwn(mode: nat, baseid: nat) {
    if mode == 0x11 then 8 <= baseid < 15 else mode != 0x10 && mode != 0x1F && 13 <= baseid < 15
  }

  /** The test misses no banked register, and in the seven defined modes it is right. */
  lemma OwnBase(mode: nat, baseid: nat)
    requires baseid < 15
    ensures Owner(BankOf(mode), baseid) != User ==> HasOwn(mode, baseid)
    ensures BankOf(mode) != User || mode == 0x10 || mode == 0x1F ==>
      (HasOwn(mode, baseid) <==> Owner(BankOf(mode), baseid) != User)
  {
  }

  /** A write to the base changes no other register of the file, and one that user mode has too is in place. */
  lemma BaseOnly(s: Stored, s1: Stored, baseid: nat)
    requires baseid < 15 && s1 == s.(r := s.r[baseid := s1.r[baseid]])
    ensures
      var b := BankOf(s.cpsr.mode);
      && (forall i :: 0 <= i < 16 && i != baseid ==> UserFile(s1, b)[i] == UserFile(s, b)[i])
      && (!HasOwn(s.cpsr.mode, baseid) ==> UserFile(s, b)[baseid] == s.r[baseid])
  {
  }

  /** What the store loop finds in the registers: a downward store has written back before the switch, and
      a base register that user mode has too goes by its old value. */
  function Offered(s: Stored, baseid: nat, low: Word): (f: seq<Word>)
    requires baseid < 15
    ensures |f| == 16
  {
    UserFile(if HasOwn(s.cpsr.mode, baseid) then s.(r := s.r[baseid := low]) else s, BankOf(s.cpsr.mode))
  }

  /** Writing back to a register of the mode's own bank leaves the user's registers alone. */
  lemma OfferedIsUserFile(s: Stored, baseid: nat, low: Word)
    requires baseid < 15 && (BankOf(s.cpsr.mode) != User || s.cpsr.mode == 0x10 || s.cpsr.mode == 0x1F)
    ensures Offered(s, baseid, low) == UserFile(s, BankOf(s.cpsr.mode))
  {
    OwnBase(s.cpsr.mode, baseid);
    if HasOwn(s.cpsr.mode, baseid) {
      var t := s.(r := s.r[baseid := low]);
      forall i: nat | i < 15
        ensures Reading(t, BankOf(s.cpsr.mode), User, i) == Reading(s, BankOf(s.cpsr.mode), User, i)
      {
        assert Owner(BankOf(s.cpsr.mode), i) == User ==> i != baseid;
      }
    }
  }

  function Loaded(mem: Word -> Word, a: Word): Word {
    mem(a)
  }

  /** The registers after a load of the list with the base moved to back. */
  function LoadedFile(regs: seq<Word>, list: set<nat>, baseid: nat, writeBack: bool, back: Word,
                      start: Word, mem: Word -> Word): (f: seq<Word>)
    requires |regs| == 16
    ensures |f| == 16
  {
    seq(16, (i: nat) requires i < 16 =>
      if i < 15 && i in list then Loaded(mem, Slot(start, Rank(list, i)))
      else if i == baseid && writeBack then back
      else regs[i])
  }

  lemma LoadedKeepsPc(regs: seq<Word>, list: set<nat>, baseid: nat, writeBack: bool, back: Word, start: Word,
                      mem: Word -> Word)
    requires |regs| == 16 && baseid < 15
    ensures LoadedFile(regs, list, baseid, writeBack, back, start, mem)[15] == regs[15]
  {
  }

  /** From s to t user mode's registers became regs; what the other modes see in place of them is as it
      was, and so are the current bank and all status registers. */
  ghost predicate UserLoaded(s: Stored, t: Stored, regs: seq<Word>)
    requires |regs| == 16
  {
    var b := BankOf(s.cpsr.mode);
    && UserFile(t, b) == regs && t.cpsr == s.cpsr && t.spsr == s.spsr
    && forall x: Bank, i: nat :: i < 15 && Owner(x, i) != User ==> Reading(t, b, x, i) == Reading(s, b, x, i)
  }

  lemma LoadsUser(s: Stored, regs: seq<Word>)
    requires |regs| == 16 && regs[15] == s.r[15]
    ensures
      var mode := s.cpsr.mode;
      UserLoaded(s, Switch(Switch(s, mode, 0x10).(r := regs), 0x10, mode), regs)
  {
    hide Switch, Parked;
    var mode := s.cpsr.mode;
    var b, t := BankOf(mode), Switch(s, mode, 0x10);
    var t' := t.(r := regs);
    var w := Switch(t', 0x10, mode);
    SwitchKeepsFile(s, mode, 0x10);
    SwitchKeepsFile(t', 0x10, mode);
    SwitchKeepsPsrs(s, mode, 0x10);
    SwitchKeepsPsrs(t', 0x10, mode);
    forall i: nat | i < 15 ensures Reading(w, b, User, i) == regs[i] {
      assert Reading(t', User, User, i) == regs[i];
    }
    assert UserFile(w, b) == regs;
    OthersKept(t, regs);
  }

  /** With the user bank in, the parked registers do not depend on the array. */
  lemma OthersKept(t: Stored, regs: seq<Word>)
    requires |regs| == 16
    ensures forall x: Bank, i: nat :: i < 15 && Owner(x, i) != User ==>
      Reading(t.(r := regs), User, x, i) == Reading(t, User, x, i)
  {
  }

  /** The stored registers are determined by the file and the status registers. */
  lemma FileDetermines(s: Stored, t: Stored, b: Bank)
    requires SameFile(s, b, t, b) && s.r[15] == t.r[15] && s.cpsr == t.cpsr && s.spsr == t.spsr
    ensures s == t
  {
    forall i | 0 <= i < 15 ensures s.r[i] == t.r[i] {
      assert Reading(s, b, b, i) == Reading(t, b, b, i);
    }
    assert s.r == t.r;
    forall x: Bank ensures Parked(s, x) == Parked(t, x) {
      forall k | 0 <= k < 15 - First(x) ensures Parked(s, x)[k] == Parked(t, x)[k] {
        var y := if Owner(b, First(x) + k) == x then User else x;
        assert Reading(s, b, y, First(x) + k) == Reading(t, b, y, First(x) + k);
      }
    }
    assert Parked(s, Fiq) == Parked(t, Fiq) && Parked(s, Irq) == Parked(t, Irq) && Parked(s, Svc) == Parked(t, Svc);
    assert Parked(s, Abt) == Parked(t, Abt) && Parked(s, Und) == Parked(t, Und);
  }

  /** Loading the user's old registers over any others gives the old state. */
  lemma ReloadsUser(s: Stored, t: Stored, w: Stored, regs: seq<Word>)
    requires |regs| == 16 && UserLoaded(s, t, regs) && UserLoaded(t, w, UserFile(s, BankOf(s.cpsr.mode)))
    ensures w == s
  {
    hide Parked, BankOf;
    var b := BankOf(s.cpsr.mode);
    forall x: Bank, i: nat | i < 15 ensures Reading(s, b, x, i) == Reading(w, b, x, i) {
      if Owner(x, i) == User {
        assert Reading(s, b, x, i) == UserFile(s, b)[i] && Reading(w, b, x, i) == UserFile(w, b)[i];
      }
    }
    assert UserFile(w, b)[15] == UserFile(s, b)[15];
    FileDetermines(s, w, b);
  }

  /** A base register of the mode's own bank, or one that was not loaded, is as before. */
  lemma BaseKept(s: Stored, t: Stored, regs: seq<Word>, baseid: nat)
    requires |regs| == 16 && UserLoaded(s, t, regs) && baseid < 15
    requires Owner(BankOf(s.cpsr.mode), baseid) != User || regs[baseid] == UserFile(s, BankOf(s.cpsr.mode))[baseid]
    ensures t.r[baseid] == s.r[baseid] && t.cpsr == s.cpsr && UserFile(t, BankOf(s.cpsr.mode)) == regs
  {
    hide Parked, BankOf;
    var b := BankOf(s.cpsr.mode);
    if Owner(b, baseid) != User {
      assert Reading(s, b, b, baseid) == Reading(t, b, b, baseid);
    } else {
      assert Reading(s, b, User, baseid) == Reading(t, b, User, baseid);
    }
  }

  /** The processor with its transfer loops, which share the register array. */
  class Processor {
    const cpu: Arm
    const bus: Arm7

    constructor (cpu: Arm, bus: Arm7)
      requires cpu.Valid() && bus.r == cpu.r
      ensures Valid() && this.cpu == cpu && this.bus == bus
    {
      this.cpu, this.bus := cpu, bus;
    }

    ghost predicate Valid() {
      cpu.Valid() && bus.r == cpu.r
    }

    /** STM with the S bit stores the user's registers and leaves everything but the base as it was. */
    method A_STM(list: set<nat>, p: bool, u: bool, writeBack: bool, baseid: nat)
      requires Valid() && baseid < 15 && forall i :: i in list ==> i < 16
      modifies bus`mem, cpu.r, cpu.rFiq, cpu.rIrq, cpu.rSvc, cpu.rAbt, cpu.rUnd
      ensures
        var s, n := old(cpu.Now()), Total(list);
        var base := s.r[baseid];
        var back := WrittenBack(base, u, n);
        && cpu.Now() == s.(r := if writeBack then s.r[baseid := back] else s.r)
        && StoredBelow(list, 16, StartAddress(base, p, u, n),
                       Offered(s, baseid, if writeBack && !u then back else base),
                       if HasOwn(s.cpsr.mode, baseid) then 16 else baseid, old(bus.mem), bus.mem)
    {
      hide Switch, BankOf, Reading, StoredBelow, Add, Align, Slot, Rank, Total, StartAddress, WrittenBack, UserFile;
      ghost var s, n := cpu.Now(), Total(list);
      var base := cpu.r[baseid];
      var oldBase := base;
      ghost var start := StartAddress(base, p, u, n);
      var preInc := p;
      AddZero(base);
      if !u {
        base := bus.Lowered(list, base);
        if writeBack { cpu.r[baseid] := base; }
        preInc := !preInc;
      }
      LowStart(oldBase, p, u, n, base);
      ghost var s1 := cpu.Now();
      assert s1 == s.(r := s.r[baseid := if writeBack && !u then base else oldBase]);
      var mode := cpu.cpsr.mode;
      var isBanked := HasOwn(mode, baseid);
      cpu.UpdateMode(mode, 0x10);
      UserFileIsIn(s1, mode);
      ghost var regs := Offered(s, baseid, if writeBack && !u then base else oldBase);
      BaseOnly(s, s1, baseid);
      base := bus.StoreList(list, base, preInc, oldBase, if isBanked then 16 else baseid, start, regs);
      cpu.UpdateMode(0x10, mode);
      SwitchUndoes(s1, mode, 0x10);
      if u && writeBack { cpu.r[baseid] := base; }
    }

    /** The load loop and the write-back, on the registers that are in. */
    method LoadInto(list: set<nat>, low: Word, preInc: bool, u: bool, writeBack: bool, baseid: nat, ghost start: Word,
                    ghost back: Word)
      returns (pc: Word)
      requires Valid() && baseid < 15 && start == if preInc then Add(low, 4) else low
      requires back == if u then Add(low, 4 * Total(list)) else low
      modifies cpu.r
      ensures cpu.r[..] == LoadedFile(old(cpu.r[..]), list, baseid, writeBack, back, start, bus.mem)
      ensures 15 in list ==> pc == bus.mem(Slot(start, PcRank(list)))
    {
      hide Add, Slot, Rank, Total, PcRank;
      var base;
      base, pc := bus.LoadList(list, low, preInc, start);
      if writeBack && baseid !in list { cpu.r[baseid] := if u then base else low; }
    }

    /** LDM with the S bit.  Without the program counter it loads the user's registers, the written-back
        base among them; with it, it loads the mode's own registers and returns from the exception. */
    method A_LDM(list: set<nat>, p: bool, u: bool, writeBack: bool, baseid: nat)
      requires Valid() && baseid < 15 && forall i :: i in list ==> i < 16
      modifies cpu`cpsr, cpu.r, cpu.rFiq, cpu.rIrq, cpu.rSvc, cpu.rAbt, cpu.rUnd
      ensures
        var s, n := old(cpu.Now()), Total(list);
        var start, back := StartAddress(s.r[baseid], p, u, n), WrittenBack(s.r[baseid], u, n);
        15 !in list ==> UserLoaded(s, cpu.Now(),
          LoadedFile(UserFile(s, BankOf(s.cpsr.mode)), list, baseid, writeBack, back, start, bus.mem))
      ensures
        var s, n := old(cpu.Now()), Total(list);
        var start, back := StartAddress(s.r[baseid], p, u, n), WrittenBack(s.r[baseid], u, n);
        15 in list ==> cpu.Now() == JumpRestored(
          s.(r := LoadedFile(s.r, list, baseid, writeBack, back, start, bus.mem)),
          bus.mem(Slot(start, PcRank(list))) / 2 * 2)
    {
      hide Switch, BankOf, Reading, Add, Slot, Rank, Total, PcRank, StartAddress, WrittenBack, UserFile;
      hide JumpRestored, UserLoaded, LoadedFile;
      ghost var s, n := cpu.Now(), Total(list);
      var base := cpu.r[baseid];
      ghost var start, back := StartAddress(base, p, u, n), WrittenBack(base, u, n);
      var preInc := p;
      ghost var oldBase := base;
      AddZero(base);
      if !u {
        base := bus.Lowered(list, base);
        preInc := !preInc;
      }
      LowStart(oldBase, p, u, n, base);
      var mode := cpu.cpsr.mode;
      if 15 !in list {
        cpu.UpdateMode(mode, 0x10);
        UserFileIsIn(s, mode);
      }
      ghost var t := cpu.Now();
      var pc := LoadInto(list, base, preInc, u, writeBack, baseid, start, back);
      ghost var regs := LoadedFile(t.r, list, baseid, writeBack, back, start, bus.mem);
      assert cpu.Now() == t.(r := regs);
      if 15 !in list {
        cpu.UpdateMode(0x10, mode);
        SwitchKeepsFile(s, mode, 0x10);
        LoadedKeepsPc(t.r, list, baseid, writeBack, back, start, bus.mem);
        LoadsUser(s, regs);
      } else {
        cpu.JumpTo(pc / 2 * 2, true);
      }
    }

    /** A handler saves user registers, the user's program changes them, and the handler reloads them:
        every register of every bank is back.  The base is not among those that the program changes. */
    method SaveAndReload(list: set<nat>, p: bool, u: bool, baseid: nat, clobbered: seq<Word>)
      requires Valid() && baseid < 15 && |clobbered| == 16 && forall i :: i in list ==> i < 15
      requires baseid in list ==> Owner(BankOf(cpu.cpsr.mode), baseid) != User
      modifies bus`mem, cpu`cpsr, cpu.r, cpu.rFiq, cpu.rIrq, cpu.rSvc, cpu.rAbt, cpu.rUnd
      ensures cpu.Now() == old(cpu.Now())
    {
      hide Switch, BankOf, Reading, StoredBelow, Add, Align, Slot, Rank, Total, StartAddress, WrittenBack, UserFile;
      hide UserLoaded, HasOwn, Owner;
      ghost var s := cpu.Now();
      var mode := cpu.cpsr.mode;
      A_STM(list, p, u, false, baseid);
      OwnBase(mode, baseid);
      assert s == s.(r := s.r[baseid := s.r[baseid]]);
      cpu.UpdateMode(mode, 0x10);
      ghost var t := cpu.Now();
      UserFileIsIn(s, mode);
      forall i | 0 <= i < 16 && i in list { cpu.r[i] := clobbered[i]; }
      ghost var regs := cpu.r[..];
      assert cpu.Now() == t.(r := regs);
      cpu.UpdateMode(0x10, mode);
      SwitchKeepsFile(s, mode, 0x10);
      LoadsUser(s, regs);
      ghost var s' := cpu.Now();
      BaseKept(s, s', regs, baseid);
      A_LDM(list, p, u, false, baseid);
      ghost var n := Total(list);
      ghost var start, back := StartAddress(s.r[baseid], p, u, n), WrittenBack(s.r[baseid], u, n);
      StoredAll(list, start, UserFile(s, BankOf(mode)), if HasOwn(mode, baseid) then 16 else baseid, old(bus.mem),
                bus.mem);
      assert LoadedFile(regs, list, baseid, false, back, start, bus.mem) == UserFile(s, BankOf(mode));
      ReloadsUser(s, s', cpu.Now(), regs);
    }
  }
}
