/**
  Multiple-register loads and stores of the emulated ARM7 (section A5.4 of DDI 0100): whatever the
  addressing mode, the k-th lowest register of the list meets the k-th word upward from the start
  address, and a store is undone by the load with both mode bits inverted.
 */
module BlockTransfers {

  import CpuModes

  type Word = CpuModes.Word

  /** A 32-bit sum with a small displacement. */
  function Add(a: Word, d: int): Word
    requires -0x100 <= d <= 0x100
  {
    var s := a as int + d;
    if s < 0 then s + 0x1_0000_0000 else if s >= 0x1_0000_0000 then s - 0x1_0000_0000 else s
  }

  lemma AddAdd(a: Word, x: int, y: int)
    requires -0x100 <= x <= 0x100 && -0x100 <= y <= 0x100 && -0x100 <= x + y <= 0x100
    ensures Add(Add(a, x), y) == Add(a, x + y)
  {
  }

  /** Words are accessed at multiples of four. */
  function Align(a: Word): Word {
    a / 4 * 4
  }

  // ----- Register lists -----

  /** How many registers of the list are below i. */
  function Rank(list: set<nat>, i: nat): (n: nat)
    ensures n <= i
  {
    if i == 0 then 0 else Rank(list, i - 1) + if i - 1 in list then 1 else 0
  }

  /** The length of the list, and the ranks of LR and PC. */
  function Total(list: set<nat>): (n: nat)
    ensures n <= 16
  {
    Rank(list, 16)
  }

  function LinkRank(list: set<nat>): (n: nat)
    ensures n <= 14
  {
    Rank(list, 14)
  }

  function PcRank(list: set<nat>): (n: nat)
    ensures n <= 15
  {
    Rank(list, 15)
  }

  lemma Ranks(list: set<nat>, i: nat)
    ensures i == 16 ==> Rank(list, i) == Total(list)
    ensures i == 15 ==> Rank(list, i) == PcRank(list)
    ensures i == 14 ==> Rank(list, i) == LinkRank(list)
    ensures Total(list) == PcRank(list) + if 15 in list then 1 else 0
  {
  }

  lemma {:induction false} RankGrows(list: set<nat>, j: nat, i: nat)
    requires j < i && j in list
    ensures Rank(list, j) < Rank(list, i)
    decreases i
  {
    if j < i - 1 { RankGrows(list, j, i - 1); }
  }

  // ----- The architecture's addressing modes -----

  /** Where the lowest register goes; p is "before", u is "upward", n the length of the list. */
  function StartAddress(base: Word, p: bool, u: bool, n: nat): Word
    requires n <= 16
  {
    if u then (if p then Add(base, 4) else base)
    else if p then Add(base, -4 * n) else Add(base, 4 - 4 * n)
  }

  function WrittenBack(base: Word, u: bool, n: nat): Word
    requires n <= 16
  {
    if u then Add(base, 4 * n) else Add(base, -4 * n)
  }

  /** The word of the k-th lowest register. */
  function Slot(start: Word, k: nat): Word
    requires k <= 16
  {
    Align(Add(start, 4 * k))
  }

  /** The word that holds the k-th register, around the end of the address space. */
  lemma SlotIs(start: Word, k: nat)
    requires k <= 16
    ensures
      var a := (start + 4 * k) % 0x1_0000_0000;
      Slot(start, k) == a - a % 4
  {
    AddIs(start, 4 * k);
    var a := (start + 4 * k) % 0x1_0000_0000;
    assert a / 4 * 4 == a - a % 4;
  }

  lemma SlotsDiffer(start: Word, j: nat, k: nat)
    requires j <= 16 && k <= 16 && j != k
    ensures Slot(start, j) != Slot(start, k)
  {
    var a, b := Add(start, 4 * j), Add(start, 4 * k);
    assert a != b;
    if j < k { SlotGap(start, j, k); } else { SlotGap(start, k, j); }
  }

  lemma SlotGap(start: Word, j: nat, k: nat)
    requires j < k <= 16
    ensures Slot(start, j) != Slot(start, k)
  {
    var d := k - j;
    AddAdd(start, 4 * j, 4 * d);
    var a := Add(start, 4 * j);
    assert Add(a, 4 * d) == a + 4 * d || Add(a, 4 * d) == a + 4 * d - 0x1_0000_0000;
  }

  /** Inverting both bits walks back over the same words. */
  lemma InverseMode(base: Word, p: bool, u: bool, n: nat)
    requires n <= 16
    ensures StartAddress(WrittenBack(base, u, n), !p, !u, n) == StartAddress(base, p, u, n)
    ensures WrittenBack(WrittenBack(base, u, n), !u, n) == base
  {
    if u {
      AddAdd(base, 4 * n, -4 * n);
      AddAdd(base, 4 * n, 4 - 4 * n);
    } else {
      AddAdd(base, -4 * n, 4 * n);
      AddAdd(base, -4 * n, 4);
    }
  }

  /** What STM stores for register i.  A base register that is not the lowest of the list is stored
      as the address of its own word. */
  function StmValue(regs: seq<Word>, list: set<nat>, baseid: nat, start: Word, i: nat): Word
    requires |regs| == 16 && i < 16
  {
    if i == baseid && Rank(list, i) > 0 then Add(start, 4 * Rank(list, i)) else regs[i]
  }

  /** What is stored for the base register, mode by mode: its old value when it is the lowest of the list, and
      else the address its own word has in that mode. */
  lemma StoredBase(regs: seq<Word>, list: set<nat>, baseid: nat, p: bool, u: bool)
    requires |regs| == 16 && baseid < 16
    ensures
      var base, n, k := regs[baseid] as int, Total(list), Rank(list, baseid);
      var v := StmValue(regs, list, baseid, StartAddress(regs[baseid], p, u, n), baseid) as int;
      && (k == 0 ==> v == base)
      && (k > 0 && p && u ==> v == (base + 4 * k + 4) % 0x1_0000_0000)
      && (k > 0 && !p && u ==> v == (base + 4 * k) % 0x1_0000_0000)
      && (k > 0 && p && !u ==> v == (base - 4 * n + 4 * k) % 0x1_0000_0000)
      && (k > 0 && !p && !u ==> v == (base - 4 * n + 4 * k + 4) % 0x1_0000_0000)
  {
    hide Rank, Total, Add;
    var base, n: int, k: int := regs[baseid], Total(list), Rank(list, baseid);
    AddAdd(base, 4, 4 * k);
    AddAdd(base, -4 * n, 4 * k);
    AddAdd(base, 4 - 4 * n, 4 * k);
    AddIs(base, 4 + 4 * k);
    AddIs(base, 4 * k);
    AddIs(base, 4 * k - 4 * n);
    AddIs(base, 4 + 4 * k - 4 * n);
  }

  lemma AddIs(a: Word, d: int)
    requires -0x100 <= d <= 0x100
    ensures Add(a, d) == (a as int + d) % 0x1_0000_0000
  {
  }

  /** For a base register that is in the list but not lowest in it, the stored word is the base that
      the instruction writes back only in the upward-before mode, as the last of the list. */
  lemma StoredBaseIffLast(base: Word, p: bool, u: bool, n: nat, k: nat)
    requires 0 < k < n <= 16
    ensures Add(StartAddress(base, p, u, n), 4 * k) == WrittenBack(base, u, n) <==> p && u && k == n - 1
  {
    AddAdd(base, 4, 4 * k);
    AddAdd(base, -4 * n, 4 * k);
    AddAdd(base, 4 - 4 * n, 4 * k);
  }

  /** The registers below i of the list are in their words, and no other word has changed. */
  ghost predicate StoredBelow(list: set<nat>, i: nat, start: Word, regs: seq<Word>, baseid: nat, was: Word -> Word,
                              mem: Word -> Word)
    requires |regs| == 16 && i <= 16
  {
    && (forall j: nat :: j < i && j in list ==>
      mem(Slot(start, Rank(list, j))) == StmValue(regs, list, baseid, start, j))
    && (forall a: Word :: mem(a) == was(a) || exists j: nat :: j < i && j in list && a == Slot(start, Rank(list, j)))
  }

  function Write(mem: Word -> Word, a: Word, v: Word): Word -> Word {
    (x: Word) => if x == a then v else mem(x)
  }

  lemma StoreNext(list: set<nat>, i: nat, start: Word, regs: seq<Word>, baseid: nat, was: Word -> Word,
                  mem: Word -> Word)
    requires |regs| == 16 && i < 16 && StoredBelow(list, i, start, regs, baseid, was, mem)
    ensures i !in list ==> StoredBelow(list, i + 1, start, regs, baseid, was, mem)
    ensures i in list ==> StoredBelow(list, i + 1, start, regs, baseid, was,
                                      Write(mem, Slot(start, Rank(list, i)), StmValue(regs, list, baseid, start, i)))
  {
    hide Slot, StmValue;
    if i in list {
      var s := Slot(start, Rank(list, i));
      var mem' := Write(mem, s, StmValue(regs, list, baseid, start, i));
      forall j: nat | j < i && j in list ensures Slot(start, Rank(list, j)) != s {
        RankGrows(list, j, i);
        SlotsDiffer(start, Rank(list, j), Rank(list, i));
      }
    }
  }

  class Arm7 {
    const r: array<Word>
    var mem: Word -> Word

    constructor (mem: Word -> Word)
      ensures r.Length == 16 && fresh(r) && this.mem == mem
    {
      r := new Word[16];
      this.mem := mem;
    }

    /** STM without the S bit. */
    method A_STM(list: set<nat>, p: bool, u: bool, writeBack: bool, baseid: nat)
      requires r.Length == 16 && baseid < 15 && forall i :: i in list ==> i < 16
      modifies r, `mem
      ensures
        var n := Total(list);
        && StoredBelow(list, 16, StartAddress(old(r[baseid]), p, u, n), old(r[..]), baseid, old(mem), mem)
        && r[..] == if writeBack then old(r[..])[baseid := WrittenBack(old(r[baseid]), u, n)] else old(r[..])
    {
      hide Add, Align, StoredBelow, Total, Rank;
      ghost var n := Total(list);
      var base := r[baseid];
      var oldBase := base;
      ghost var start := StartAddress(base, p, u, n);
      var preInc := p;
      AddZero(base);
      if !u {
        base := Lowered(list, base);
        if writeBack { r[baseid] := base; }
        preInc := !preInc;
      }
      LowStart(oldBase, p, u, n, base);
      base := StoreList(list, base, preInc, oldBase, baseid, start, old(r[..]));
      if u && writeBack { r[baseid] := base; }
    }

    /** The store loop, upward from one word to the next.  The base register goes by its old value. */
    method StoreList(list: set<nat>, low: Word, preInc: bool, oldBase: Word, baseid: nat, ghost start: Word,
                     ghost regs: seq<Word>)
      returns (base: Word)
      requires r.Length == |regs| == 16 && start == if preInc then Add(low, 4) else low
      requires forall i :: 0 <= i < 16 ==> regs[i] == if i == baseid then oldBase else r[i]
      modifies `mem
      ensures base == Add(low, 4 * Total(list)) && StoredBelow(list, 16, start, regs, baseid, old(mem), mem)
    {
      hide Add, Align, StoredBelow, Total;
      base := low;
      AddZero(low);
      NothingStored(list, start, regs, baseid, mem);
      var i := 0;
      while i < 16
        invariant 0 <= i <= 16 && base == Add(low, 4 * Rank(list, i))
        invariant StoredBelow(list, i, start, regs, baseid, old(mem), mem)
      {
        StoreNext(list, i, start, regs, baseid, old(mem), mem);
        if i in list {
          AddAdd(low, 4 * Rank(list, i), 4);
          SlotFrom(low, start, preInc, Rank(list, i));
          if preInc { base := Add(base, 4); }
          var value := if i != baseid then r[i] else if Rank(list, i) == 0 then oldBase else base;
          mem := Write(mem, Align(base), value);
          if !preInc { base := Add(base, 4); }
        }
        i := i + 1;
      }
      Ranks(list, i);
    }

    /** The load loop: the registers of the list below count, from one word to the next. */
    method LoadBelow(list: set<nat>, count: nat, low: Word, preInc: bool, ghost start: Word) returns (base: Word)
      requires r.Length == 16 && count <= 15 && start == if preInc then Add(low, 4) else low
      modifies r
      ensures base == Add(low, 4 * Rank(list, count))
      ensures forall j :: 0 <= j < count && j in list ==> r[j] == mem(Slot(start, Rank(list, j)))
      ensures forall j :: 0 <= j < 16 && !(j < count && j in list) ==> r[j] == old(r[j])
    {
      hide Add, Align, Slot;
      base := low;
      AddZero(low);
      var i := 0;
      while i < count
        invariant 0 <= i <= count && base == Add(low, 4 * Rank(list, i))
        invariant forall j :: 0 <= j < i && j in list ==> r[j] == mem(Slot(start, Rank(list, j)))
        invariant forall j :: 0 <= j < 16 && !(j < i && j in list) ==> r[j] == old(r[j])
      {
        if i in list {
          AddAdd(low, 4 * Rank(list, i), 4);
          SlotFrom(low, start, preInc, Rank(list, i));
          if preInc { base := Add(base, 4); }
          r[i] := mem(Align(base));
          if !preInc { base := Add(base, 4); }
        }
        i := i + 1;
      }
    }

    /** The whole load loop.  The program counter is given out instead of being loaded. */
    method LoadList(list: set<nat>, low: Word, preInc: bool, ghost start: Word) returns (base: Word, pc: Word)
      requires r.Length == 16 && start == if preInc then Add(low, 4) else low
      modifies r
      ensures base == Add(low, 4 * Total(list))
      ensures 15 in list ==> pc == mem(Slot(start, PcRank(list)))
      ensures forall j :: 0 <= j < 15 && j in list ==> r[j] == mem(Slot(start, Rank(list, j)))
      ensures forall j :: 0 <= j < 16 && !(j < 15 && j in list) ==> r[j] == old(r[j])
    {
      hide Add, Align, Slot, Rank, Total, PcRank;
      base := LoadBelow(list, 15, low, preInc, start);
      Ranks(list, 15);
      pc := 0;
      if 15 in list {
        AddAdd(low, 4 * PcRank(list), 4);
        SlotFrom(low, start, preInc, PcRank(list));
        if preInc { base := Add(base, 4); }
        pc := mem(Align(base));
        if !preInc { base := Add(base, 4); }
      }
    }

    /** LDM without the S bit.  A base in the list keeps the loaded value; a loaded PC jumps. */
    method A_LDM(list: set<nat>, p: bool, u: bool, writeBack: bool, baseid: nat)
      requires r.Length == 16 && baseid < 15 && forall i :: i in list ==> i < 16
      modifies r
      ensures
        var n := Total(list);
        var start := StartAddress(old(r[baseid]), p, u, n);
        && (forall i :: 0 <= i < 15 && i in list ==> r[i] == mem(Slot(start, Rank(list, i))))
        && (forall i :: 0 <= i < 15 && i !in list && i != baseid ==> r[i] == old(r[i]))
        && (baseid !in list ==> r[baseid] == if writeBack then WrittenBack(old(r[baseid]), u, n) else old(r[baseid]))
        && r[15] == if 15 in list then Add(Align(mem(Slot(start, PcRank(list)))), 4) else old(r[15])
    {
      hide Add, Align, Slot, Rank, Total, PcRank, StartAddress, WrittenBack;
      ghost var n := Total(list);
      var base := r[baseid];
      ghost var oldBase := base;
      ghost var start := StartAddress(base, p, u, n);
      var wbBase, preInc := base, p;
      AddZero(base);
      if !u {
        base := Lowered(list, base);
        wbBase := base;
        preInc := !preInc;
      }
      LowStart(oldBase, p, u, n, base);
      var pc: Word;
      base, pc := LoadList(list, base, preInc, start);
      if writeBack {
        if u { wbBase := base; }
        if baseid !in list { r[baseid] := wbBase; }
      }
      if 15 in list { JumpTo(pc); }
    }

    /** JumpTo on a loaded PC, whose lowest bit the ARM7 ignores. */
    method JumpTo(pc: Word)
      requires r.Length == 16
      modifies r
      ensures r[..] == old(r[..])[15 := Add(Align(pc), 4)]
    {
      r[15] := Add(Align(pc), 4);
    }

    /** Downward modes start at the bottom. */
    method Lowered(list: set<nat>, base: Word) returns (low: Word)
      ensures low == Add(base, -4 * Total(list))
    {
      hide Add, Total;
      low := base;
      var i := 0;
      AddZero(base);
      while i < 16
        invariant 0 <= i <= 16 && low == Add(base, -4 * Rank(list, i))
      {
        if i in list {
          AddAdd(base, -4 * Rank(list, i), -4);
          low := Add(low, -4);
        }
        i := i + 1;
      }
      Ranks(list, i);
    }

    /** A store with write-back, then any change to the listed registers, then the load with both mode
        bits inverted: registers and base are back, and only the stored words have changed. */
    method SaveAndRestore(list: set<nat>, p: bool, u: bool, baseid: nat, clobbered: seq<Word>)
      requires r.Length == 16 && baseid < 15 && |clobbered| == 16
      requires forall i :: i in list ==> i < 15 && i != baseid
      modifies r, `mem
      ensures r[..] == old(r[..])
      ensures StoredBelow(list, 16, StartAddress(old(r[baseid]), p, u, Total(list)), old(r[..]), baseid, old(mem), mem)
    {
      hide Add, Slot, StartAddress, WrittenBack, Total, Rank;
      var n := Total(list);
      A_STM(list, p, u, true, baseid);
      ghost var saved := r[..];
      forall i | 0 <= i < 16 && i in list { r[i] := clobbered[i]; }
      InverseMode(old(r[baseid]), p, u, n);
      A_LDM(list, !p, !u, true, baseid);
      assert forall i :: 0 <= i < 16 ==> r[i] == old(r[i]);
    }

    /** The store loop of the Thumb instructions, upward from a start address. */
    method StoreLow(list: set<nat>, start: Word, ghost all: set<nat>, ghost regs: seq<Word>, ghost baseid: nat)
      returns (base: Word)
      requires r.Length == |regs| == 16 && baseid >= 8
      requires forall i :: 0 <= i < 8 ==> (i in list <==> i in all) && (i in list ==> r[i] == regs[i])
      modifies `mem
      ensures base == Add(start, 4 * Rank(all, 8)) && StoredBelow(all, 8, start, regs, baseid, old(mem), mem)
    {
      hide Add, Align, StoredBelow;
      base := start;
      AddZero(start);
      NothingStored(all, start, regs, baseid, mem);
      var i := 0;
      while i < 8
        invariant 0 <= i <= 8 && base == Add(start, 4 * Rank(all, i))
        invariant StoredBelow(all, i, start, regs, baseid, old(mem), mem)
      {
        StoreNext(all, i, start, regs, baseid, old(mem), mem);
        if i in list {
          AddAdd(start, 4 * Rank(all, i), 4);
          mem := Write(mem, Align(base), r[i]);
          base := Add(base, 4);
        }
        i := i + 1;
      }
    }

    /** PUSH of r0-r7 and possibly LR. */
    method T_PUSH(list: set<nat>, lr: bool)
      requires r.Length == 16 && forall i :: i in list ==> i < 8
      modifies r, `mem
      ensures
        var all := if lr then list + {14} else list;
        var base := Add(old(r[13]), -4 * Total(all));
        && r[..] == old(r[..])[13 := base]
        && StoredBelow(all, 16, base, old(r[..]), 13, old(mem), mem)
    {
      hide Add, Align, StoredBelow, Total, LinkRank;
      ghost var all := if lr then list + {14} else list;
      ThumbRanks(list, lr);
      var count := 0;
      var i := 0;
      while i < 8
        invariant 0 <= i <= 8 && count == Rank(all, i)
      {
        if i in list { count := count + 1; }
        i := i + 1;
      }
      if lr { count := count + 1; }
      var base := Add(r[13], -4 * count);
      ghost var start := base;
      r[13] := base;
      base := StoreLow(list, base, all, old(r[..]), 13);
      Ranks(all, 14);
      SkipTo(all, 8, 14, start, old(r[..]), 13, old(mem), mem);
      StoreNext(all, 14, start, old(r[..]), 13, old(mem), mem);
      if lr { mem := Write(mem, Align(base), r[14]); }
      SkipTo(all, 15, 16, start, old(r[..]), 13, old(mem), mem);
    }

    /** POP of r0-r7 and possibly PC, which stays in Thumb state. */
    method T_POP(list: set<nat>, pc: bool)
      requires r.Length == 16 && forall i :: i in list ==> i < 8
      modifies r
      ensures
        var all := if pc then list + {14} else list;
        var base := old(r[13]);
        && (forall i :: 0 <= i < 15 && i in list ==> r[i] == mem(Slot(base, Rank(all, i))))
        && (forall i :: 0 <= i < 15 && i !in list && i != 13 ==> r[i] == old(r[i]))
        && r[13] == Add(base, 4 * Total(all))
        && r[15] == if pc then Add(mem(Slot(base, LinkRank(all))) / 2 * 2, 2) else old(r[15])
    {
      hide Add, Align, Slot, Rank, Total, LinkRank;
      ghost var all := if pc then list + {14} else list;
      ThumbRanks(list, pc);
      var base := r[13];
      ghost var start := base;
      AddZero(base);
      base := LoadBelow(list, 8, base, false, start);
      forall i: nat | i <= 8 ensures Rank(all, i) == Rank(list, i) { SameRank(all, list, i); }
      SlotFrom(start, start, false, LinkRank(all));
      if pc {
        var to := mem(Align(base));
        r[15] := Add(to / 2 * 2, 2);
        AddAdd(start, 4 * LinkRank(all), 4);
        base := Add(base, 4);
      }
      r[13] := base;
    }

    /** STMIA of r0-r7.  A base register in the list is stored with its old value. */
    method T_STMIA(list: set<nat>, baseid: nat)
      requires r.Length == 16 && baseid < 8 && forall i :: i in list ==> i < 8
      modifies r, `mem
      ensures r[..] == old(r[..])[baseid := Add(old(r[baseid]), 4 * Total(list))]
      ensures StoredBelow(list, 16, old(r[baseid]), old(r[..]), 16, old(mem), mem)
    {
      hide Add, StoredBelow, Total, LinkRank;
      ThumbRanks(list, false);
      ghost var start := r[baseid];
      var base := StoreLow(list, r[baseid], list, r[..], 16);
      SkipTo(list, 8, 16, start, old(r[..]), 16, old(mem), mem);
      r[baseid] := base;
    }

    /** LDMIA of r0-r7.  A base register in the list keeps its loaded value. */
    method T_LDMIA(list: set<nat>, baseid: nat)
      requires r.Length == 16 && baseid < 8 && forall i :: i in list ==> i < 8
      modifies r
      ensures
        var start := old(r[baseid]);
        && (forall i :: 0 <= i < 16 && i in list ==> r[i] == mem(Slot(start, Rank(list, i))))
        && (forall i :: 0 <= i < 16 && i !in list && i != baseid ==> r[i] == old(r[i]))
        && (baseid !in list ==> r[baseid] == Add(start, 4 * Total(list)))
    {
      hide Add, Slot, Total, LinkRank, Rank;
      ThumbRanks(list, false);
      var base := LoadBelow(list, 8, r[baseid], false, r[baseid]);
      if baseid !in list { r[baseid] := base; }
    }

    /** Storing a list upward and loading it again from the same base gives back every register. */
    method StoreAndReload(list: set<nat>, baseid: nat, clobbered: seq<Word>)
      requires r.Length == 16 && baseid < 8 && |clobbered| == 16 && forall i :: i in list ==> i < 8
      modifies r, `mem
      ensures forall i :: 0 <= i < 16 && i != baseid ==> r[i] == old(r[i])
      ensures r[baseid] == if baseid in list then old(r[baseid]) else Add(old(r[baseid]), 4 * Total(list))
    {
      hide Add, Slot, StoredBelow, Total, Rank;
      ghost var start := r[baseid];
      var base := r[baseid];
      T_STMIA(list, baseid);
      StoredAll(list, start, old(r[..]), 16, old(mem), mem);
      forall i | 0 <= i < 8 && i in list { r[i] := clobbered[i]; }
      r[baseid] := base;
      T_LDMIA(list, baseid);
    }

    /** A function's PUSH {list, LR} and its POP {list, PC}: registers and stack pointer are back and
        the program goes on at LR. */
    method CallFrame(list: set<nat>, link: bool, clobbered: seq<Word>)
      requires r.Length == 16 && |clobbered| == 16 && forall i :: i in list ==> i < 8
      modifies r, `mem
      ensures r[..15] == old(r[..15])
      ensures r[15] == if link then Add(old(r[14]) / 2 * 2, 2) else old(r[15])
    {
      hide Add, Slot, StoredBelow, Total, Rank, LinkRank;
      ghost var all := if link then list + {14} else list;
      T_PUSH(list, link);
      ghost var base := r[13];
      forall i | 0 <= i < 8 && i in list { r[i] := clobbered[i]; }
      AddZero(old(r[13]));
      AddAdd(old(r[13]), -4 * Total(all), 4 * Total(all));
      StoredAll(all, base, old(r[..]), 13, old(mem), mem);
      Ranks(all, 14);
      T_POP(list, link);
      assert forall i :: 0 <= i < 15 ==> r[i] == old(r[i]);
    }
  }

  lemma AddZero(a: Word)
    ensures Add(a, 0) == a
  {
  }

  /** The address the loop starts from, before or after its first increment. */
  lemma LowStart(base: Word, p: bool, u: bool, n: nat, low: Word)
    requires n <= 16 && low == if u then base else Add(base, -4 * n)
    ensures StartAddress(base, p, u, n) == if p == u then Add(low, 4) else low
    ensures Add(low, 4 * n) == if u then WrittenBack(base, u, n) else base
    ensures !u ==> low == WrittenBack(base, u, n)
  {
    AddAdd(base, -4 * n, 4);
    AddAdd(base, -4 * n, 4 * n);
    AddZero(base);
  }

  lemma SlotFrom(low: Word, start: Word, preInc: bool, k: nat)
    requires k <= 16 && start == if preInc then Add(low, 4) else low
    ensures Slot(start, k) == Align(Add(low, 4 * k + if preInc then 4 else 0))
    ensures Add(start, 4 * k) == Add(low, 4 * k + if preInc then 4 else 0)
  {
    if preInc { AddAdd(low, 4, 4 * k); }
  }

  lemma NothingStored(list: set<nat>, start: Word, regs: seq<Word>, baseid: nat, mem: Word -> Word)
    requires |regs| == 16
    ensures StoredBelow(list, 0, start, regs, baseid, mem, mem)
  {
  }

  lemma SkipTo(list: set<nat>, i: nat, k: nat, start: Word, regs: seq<Word>, baseid: nat, was: Word -> Word,
               mem: Word -> Word)
    requires |regs| == 16 && i <= k <= 16 && StoredBelow(list, i, start, regs, baseid, was, mem)
    requires forall j :: i <= j < k ==> j !in list
    ensures StoredBelow(list, k, start, regs, baseid, was, mem)
  {
  }

  lemma StoredAll(list: set<nat>, start: Word, regs: seq<Word>, baseid: nat, was: Word -> Word, mem: Word -> Word)
    requires |regs| == 16 && StoredBelow(list, 16, start, regs, baseid, was, mem) && baseid !in list
    ensures forall j: nat :: j < 16 && j in list ==> mem(Slot(start, Rank(list, j))) == regs[j]
  {
  }

  lemma {:induction false} SameRank(a: set<nat>, b: set<nat>, i: nat)
    requires forall j :: 0 <= j < i ==> (j in a <==> j in b)
    ensures Rank(a, i) == Rank(b, i)
  {
    if i > 0 { SameRank(a, b, i - 1); }
  }

  /** r8-r13 and PC are not in a Thumb list. */
  lemma ThumbRanks(list: set<nat>, link: bool)
    requires forall i :: i in list ==> i < 8
    ensures
      var all := if link then list + {14} else list;
      LinkRank(all) == Rank(all, 8) && Total(all) == Rank(all, 8) + (if link then 1 else 0)
  {
    var all := if link then list + {14} else list;
    assert Rank(all, 9) == Rank(all, 8) && Rank(all, 10) == Rank(all, 9) && Rank(all, 11) == Rank(all, 10);
    assert Rank(all, 12) == Rank(all, 11) && Rank(all, 13) == Rank(all, 12) && Rank(all, 14) == Rank(all, 13);
    assert Rank(all, 15) == Rank(all, 14) + (if link then 1 else 0) && Rank(all, 16) == Rank(all, 15);
  }
}
