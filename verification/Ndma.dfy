/**
  The DSi's new DMA controller.  In counted-repeat mode every trigger moves a block, and over all
  triggers exactly TotalLength words are moved before the channel disables itself.
 */
module Ndmas {
  import opened BlockCopies
  import opened Dmas
  import Outcomes = TransferOutcomes

  /** The fields of NDMACNT. */
  datatype NdmaControl = NdmaControl(
    enable: bool,        // bit 31
    irq: bool,           // bit 30
    forever: bool,       // bit 29
    mode: nat,           // bits 24-28
    srcReload: bool,     // bit 15
    srcMode: nat,        // bits 13-14, 3 is a fill
    dstReload: bool,     // bit 12
    dstMode: nat         // bits 10-11
  )

  const WORD: Width := 4
  const LARGEST: nat := 0x100_0000
  const NDMA_GXFIFO: nat := 0x0A
  const IMMEDIATE: nat := 0x10

  function NdmaStartMode(cpu: nat, c: NdmaControl): nat {
    (if c.mode > IMMEDIATE then IMMEDIATE else c.mode) + (if cpu == 1 then 0x20 else 0)
  }

  predicate Immediate(startMode: nat) {
    startMode % 0x20 == IMMEDIATE
  }

  function NdmaSrcInc(mode: nat): int {
    if mode == 0 then 1 else if mode == 1 then -1 else 0
  }

  function BlockCount(blockLength: nat): (n: nat)
    ensures n > 0
  {
    if blockLength == 0 then LARGEST else blockLength
  }

  function NdmaBatch(startMode: nat, rem: nat): (n: nat)
    ensures n <= rem && (rem > 0 ==> n > 0)
  {
    if startMode == NDMA_GXFIFO && rem > BATCH then BATCH else rem
  }

  /** The bytes of a fill word, lowest first. */
  function WordBytes(v: nat): nat -> nat {
    (k: nat) => if k == 0 then v % 0x100 else if k == 1 then v / 0x100 % 0x100
                else if k == 2 then v / 0x1_0000 % 0x100 else v / 0x100_0000 % 0x100
  }

  /** The loop that a transfer with these parameters stands for. */
  function NdmaJob(src: nat, dst: nat, srcInc: int, dstInc: int, fill: bool, fillData: nat): Job {
    Job(if fill then Fill(WordBytes(fillData)) else Walk(src, Stride(srcInc, WORD)), dst, Stride(dstInc, WORD), WORD)
  }

  /** What the address modes ask for; source mode 3 is a fill. */
  function ModeJob(src: nat, dst: nat, srcMode: nat, dstMode: nat, fillData: nat): Job {
    if srcMode == 3 then Outcomes.FillJob(WordBytes(fillData), dst, dstMode)
    else Outcomes.WalkJob(src, srcMode, dst, dstMode, true)
  }

  lemma JobActs(src: nat, dst: nat, srcMode: nat, dstMode: nat, fillData: nat)
    requires srcMode < 4 && dstMode < 4
    ensures NdmaJob(src, dst, NdmaSrcInc(srcMode), AddrInc(dstMode), srcMode == 3, fillData) ==
      ModeJob(src, dst, srcMode, dstMode, fillData)
  {
  }

  /** What n words leave behind. */
  ghost predicate NdmaOutcome(m: Memory, m': Memory, src: nat, dst: nat, c: NdmaControl, data: nat, n: nat) {
    if c.srcMode == 3 then Outcomes.FillOutcome(m, m', data, dst, c.dstMode, n)
    else Outcomes.Outcome(m, m', src, c.srcMode, dst, c.dstMode, true, n)
  }

  lemma Acts(src: nat, dst: nat, c: NdmaControl, data: nat, m: Memory, n: nat)
    requires c.srcMode < 4 && c.dstMode < 4
    ensures
      var j := NdmaJob(src, dst, NdmaSrcInc(c.srcMode), AddrInc(c.dstMode), c.srcMode == 3, data);
      NdmaOutcome(m, Copied(j, m, n), src, dst, c, data, n)
  {
    hide Outcomes.Outcome, Outcomes.FillOutcome, NdmaJob, Copied, NdmaSrcInc, AddrInc;
    JobActs(src, dst, c.srcMode, c.dstMode, data);
    if c.srcMode == 3 {
      Outcomes.FillsWord(WordBytes(data), data, dst, c.dstMode, m, n);
    } else {
      Outcomes.WalkOutcome(src, c.srcMode, dst, c.dstMode, true, m, n);
    }
  }

  /** Start modes from 0x10 on are immediate, 0x0A of the ARM9 waits for the geometry FIFO, and a block length
      of zero is the largest. */
  lemma NdmaConstants(cpu: nat, c: NdmaControl, blockLength: nat, n: nat)
    requires cpu < 2 && c.mode < 32
    ensures Immediate(NdmaStartMode(cpu, c)) <==> c.mode >= 16
    ensures NdmaStartMode(cpu, c) == (if c.mode < 16 then c.mode else 16) + 32 * cpu
    ensures BlockCount(blockLength) == if blockLength == 0 then 0x100_0000 else blockLength
    ensures NdmaBatch(NdmaStartMode(cpu, c), n) == if cpu == 0 && c.mode == 10 && n > 112 then 112 else n
  {
  }

  /** Memory and addresses are those of the loop after past.moved units. */
  ghost predicate Tracks(past: Past, srcInc: int, dstInc: int, fill: bool, data: nat, mem: Memory, src: nat, dst: nat) {
    && mem == Copied(NdmaJob(past.src, past.dst, srcInc, dstInc, fill, data), past.origin, past.moved)
    && src == At(past.src, Stride(srcInc, WORD), past.moved)
    && dst == At(past.dst, Stride(dstInc, WORD), past.moved)
  }

  /** What one pass of the loop body does to memory. */
  function StoreOne(mem: Memory, src: nat, dst: nat, fill: bool, data: nat): Memory {
    Move(Job(if fill then Fill(WordBytes(data)) else Walk(src, 0), dst, 0, WORD), mem, 0)
  }

  /** The loop run by starts that each plan a batch: rem words are left of the block under way, total in
      all. */
  function Starts(j: Job, srcBack: bool, dstBack: bool, startMode: nat, block: nat, m: Memory, rem: nat, total: nat):
    Memory
    requires block > 0
    decreases total
  {
    if total == 0 then m
    else
      var left := if rem == 0 then block else rem;
      var batch := NdmaBatch(startMode, left);
      var n := if batch > total then total else batch;
      Starts(Rewound(j, srcBack, dstBack, n), srcBack, dstBack, startMode, block, Copied(j, m, n), left - n, total - n)
  }

  /** Since the enabling write: whether the transfer is counted (enabled while idle and without endless
      repeat), its length, and the words moved. */
  datatype Budget = Budget(counted: bool, total: nat, spent: nat)

  class Ndma {
    const cpu: nat

    var srcAddr: nat
    var dstAddr: nat
    var totalLength: nat
    var blockLength: nat
    var fillData: nat
    var cnt: NdmaControl

    var startMode: nat
    var curSrc: nat
    var curDst: nat
    var remCount: nat
    var iterCount: nat
    var totalRemCount: nat
    var srcInc: int
    var dstInc: int
    var running: nat
    var inProgress: bool

    var mem: Memory
    var cpuStopped: bool

    ghost var past: Past

    ghost var budget: Budget

    predicate Fills()
      reads this
    {
      cnt.srcMode == 3
    }

    /** The loop since the last start, or the last write to NDMACNT. */
    ghost function Loop(): Job
      reads this
    {
      NdmaJob(past.src, past.dst, srcInc, dstInc, Fills(), fillData)
    }

    /** What a start makes of the current place. */
    ghost function Restarted(src: nat, dst: nat): Past
      reads this
    {
      Past(mem, if cnt.srcReload then srcAddr else src, if cnt.dstReload then dstAddr else dst, 0)
    }

    /** The units that a start plans: what the block has left, and how much of it now. */
    function Planned(rem: nat): (nat, nat)
      reads this
    {
      var left := if rem == 0 then BlockCount(blockLength) else rem;
      var iter := NdmaBatch(startMode, left);
      if Capped() && iter > totalRemCount then (totalRemCount, totalRemCount) else (left, iter)
    }

    /** The channel stops at its total count. */
    predicate Capped()
      reads this
    {
      !Immediate(startMode) && !cnt.forever
    }

    ghost predicate OnTrack()
      reads this
    {
      && Tracks(past, srcInc, dstInc, Fills(), fillData, mem, curSrc, curDst)
      && iterCount <= remCount && totalRemCount < SPACE
      && (budget.counted ==> Capped() && budget.spent + totalRemCount == budget.total && iterCount <= totalRemCount)
    }

    ghost predicate Valid()
      reads this
    {
      && OnTrack()
      && (running > 0 ==> inProgress && (iterCount > 0 || remCount == 0))
      && (running > 0 && iterCount == 0 && budget.counted ==> totalRemCount == 0)
      && (running == 0 ==> iterCount == 0)
      && (cpuStopped <==> running > 0)
      && (inProgress && running == 0 ==> remCount > 0)
      && (!inProgress ==> remCount == 0)
    }

    constructor (cpu: nat, mem: Memory)
      ensures Valid() && !inProgress && !cnt.enable && this.mem == mem
    {
      this.cpu, this.mem := cpu, mem;
      srcAddr, dstAddr, totalLength, blockLength, fillData := 0, 0, 0, 0, 0;
      cnt := NdmaControl(false, false, false, 0, false, 0, false, 0);
      startMode, curSrc, curDst, remCount, iterCount, totalRemCount := 0, 0, 0, 0, 0, 0;
      srcInc, dstInc, running, inProgress, cpuStopped := 0, 0, 0, false, false;
      past, budget := Past(mem, 0, 0, 0), Budget(false, 0, 0);
    }

    /** The counts of a start.  A capped channel never plans more than is left in total. */
    method LoadCounts()
      requires Valid() && running == 0
      modifies `remCount, `iterCount
      ensures OnTrack() && (iterCount > 0 || remCount == 0)
      ensures (remCount, iterCount) == Planned(old(remCount))
    {
      hide Tracks, NdmaBatch, Immediate;
      if !inProgress { remCount := BlockCount(blockLength); }
      iterCount := NdmaBatch(startMode, remCount);
      if Capped() && iterCount > totalRemCount {
        iterCount := totalRemCount;
        remCount := iterCount;
      }
    }

    method ReloadAddresses()
      requires OnTrack()
      modifies `curSrc, `curDst, `past
      ensures OnTrack() && past == Restarted(old(curSrc), old(curDst))
    {
      hide Tracks;
      if cnt.dstReload { curDst := dstAddr; }
      if cnt.srcReload { curSrc := srcAddr; }
      past := Past(mem, curSrc, curDst, 0);
      TracksNothing(past, srcInc, dstInc, Fills(), fillData);
    }

    method Start(others: bool)
      requires Valid()
      modifies `remCount, `iterCount, `curSrc, `curDst, `running, `inProgress, `cpuStopped, `past
      ensures Valid() && running > 0 && inProgress
      ensures old(running) > 0 ==> remCount == old(remCount) && iterCount == old(iterCount) && past == old(past)
      ensures old(running) == 0 ==>
        (remCount, iterCount) == Planned(old(remCount)) && past == Restarted(old(curSrc), old(curDst))
    {
      hide Tracks, BlockCount, NdmaBatch, Immediate;
      if running > 0 { return; }
      LoadCounts();
      ReloadAddresses();
      running := if others then 1 else 2;
      inProgress := true;
      cpuStopped := true;
    }

    /** A device's trigger. */
    method StartIfNeeded(mode: nat, others: bool)
      requires Valid()
      modifies `remCount, `iterCount, `curSrc, `curDst, `running, `inProgress, `cpuStopped, `past
      ensures Valid()
      ensures if mode == startMode && cnt.enable then running > 0 else
        running == old(running) && remCount == old(remCount) && iterCount == old(iterCount)
        && inProgress == old(inProgress) && past == old(past)
      ensures old(inProgress) ==> inProgress && remCount <= old(remCount) && (Capped() || remCount == old(remCount))
      ensures old(running) > 0 ==> past == old(past) && remCount == old(remCount) && iterCount == old(iterCount)
      ensures old(running) == 0 && running > 0 ==>
        (remCount, iterCount) == Planned(old(remCount)) && past == Restarted(old(curSrc), old(curDst))
    {
      hide Tracks, BlockCount, NdmaBatch, Immediate;
      if mode == startMode && cnt.enable { Start(others); }
    }

    method LatchRegisters()
      modifies `curSrc, `curDst, `srcInc, `dstInc, `startMode, `totalRemCount
      ensures curSrc == srcAddr && curDst == dstAddr && totalRemCount == totalLength
      ensures srcInc == NdmaSrcInc(cnt.srcMode) && dstInc == AddrInc(cnt.dstMode)
        && startMode == NdmaStartMode(cpu, cnt)
    {
      curSrc, curDst, totalRemCount := srcAddr, dstAddr, totalLength;
      dstInc, srcInc := AddrInc(cnt.dstMode), NdmaSrcInc(cnt.srcMode);
      startMode := NdmaStartMode(cpu, cnt);
    }

    /** The latching part of a write to NDMACNT. */
    method Latch(val: NdmaControl)
      requires Valid() && totalLength < SPACE
      modifies `cnt, `curSrc, `curDst, `srcInc, `dstInc, `startMode, `totalRemCount, `past, `budget
      ensures Valid() && cnt == val
      ensures past.origin == mem && past.moved == 0
      ensures val.enable && !old(cnt).enable ==>
        && past.src == curSrc == srcAddr && past.dst == curDst == dstAddr
        && srcInc == NdmaSrcInc(val.srcMode) && dstInc == AddrInc(val.dstMode) && startMode == NdmaStartMode(cpu, val)
        && totalRemCount == budget.total == totalLength && budget.spent == 0
        && (budget.counted <==> running == 0 && Capped())
      ensures !(val.enable && !old(cnt).enable) ==> startMode == old(startMode) && totalRemCount == old(totalRemCount)
      ensures !(val.enable && !old(cnt).enable) ==>
        budget.spent == old(budget).spent && (budget.counted <==> old(budget).counted && !val.forever)
    {
      hide Tracks, Immediate, NdmaStartMode, AddrInc, NdmaSrcInc;
      var rises := val.enable && !cnt.enable;
      cnt := val;
      if rises { LatchRegisters(); }
      budget := if rises then Budget(running == 0 && Capped(), totalLength, 0)
                else budget.(counted := budget.counted && !val.forever);
      past := Past(mem, curSrc, curDst, 0);
      TracksNothing(past, srcInc, dstInc, Fills(), fillData);
    }

    /** A write to NDMACNT. */
    method WriteCnt(val: NdmaControl, fifoReady: bool, others: bool)
      requires Valid() && totalLength < SPACE
      modifies `cnt, `srcInc, `dstInc, `startMode, `totalRemCount, `budget,
               `remCount, `iterCount, `curSrc, `curDst, `running, `inProgress, `cpuStopped, `past
      ensures Valid() && cnt == val && past.origin == mem && past.moved == 0
      ensures val.enable && !old(cnt).enable ==> past == Past(mem, srcAddr, dstAddr, 0)
      ensures val.enable && !old(cnt).enable && old(running) == 0 && running > 0 ==>
        (remCount, iterCount) == Planned(old(remCount))
      ensures val.enable && !old(cnt).enable && running == 0 ==>
        remCount == old(remCount) && iterCount == old(iterCount) && inProgress == old(inProgress)
      ensures val.enable && !old(cnt).enable ==>
        && srcInc == NdmaSrcInc(val.srcMode) && dstInc == AddrInc(val.dstMode) && startMode == NdmaStartMode(cpu, val)
        && (val.srcMode < 4 && val.dstMode < 4 ==>
          Loop() == ModeJob(srcAddr, dstAddr, val.srcMode, val.dstMode, fillData))
        && totalRemCount == budget.total == totalLength && budget.spent == 0
        && (budget.counted <==> old(running) == 0 && Capped())
      ensures val.enable && !old(cnt).enable && Immediate(startMode) ==> running > 0
      ensures val.enable && !old(cnt).enable && !old(inProgress) && Immediate(startMode) ==>
        remCount == BlockCount(blockLength)
      ensures !(val.enable && !old(cnt).enable) ==> running == old(running) && remCount == old(remCount)
    {
      hide Tracks, NdmaStartMode, AddrInc, NdmaSrcInc, BlockCount, NdmaBatch, NdmaJob, WordBytes, ModeJob;
      if val.srcMode < 4 && val.dstMode < 4 { JobActs(srcAddr, dstAddr, val.srcMode, val.dstMode, fillData); }
      var rises := val.enable && !cnt.enable;
      Latch(val);
      if rises {
        if Immediate(startMode) {
          Start(others);
        } else if startMode == NDMA_GXFIFO && fifoReady {
          StartIfNeeded(NDMA_GXFIFO, others);
        }
      }
    }

    /** One pass of the transfer loop.  The total count wraps below zero. */
    method MoveUnit()
      requires OnTrack() && iterCount > 0
      modifies `mem, `curSrc, `curDst, `iterCount, `remCount, `totalRemCount, `past, `budget
      ensures OnTrack() && iterCount == old(iterCount) - 1 && remCount == old(remCount) - 1
      ensures past == old(past).(moved := old(past).moved + 1) && budget == old(budget).(spent := old(budget).spent + 1)
    {
      hide Tracks, Step, StoreOne, Stride, Immediate;
      TracksNext(past, srcInc, dstInc, Fills(), fillData, mem, curSrc, curDst);
      mem := StoreOne(mem, curSrc, curDst, Fills(), fillData);
      curSrc := Step(curSrc, Stride(srcInc, WORD));
      curDst := Step(curDst, Stride(dstInc, WORD));
      iterCount := iterCount - 1;
      remCount := remCount - 1;
      totalRemCount := if totalRemCount == 0 then SPACE - 1 else totalRemCount - 1;
      past := past.(moved := past.moved + 1);
      budget := budget.(spent := budget.spent + 1);
    }

    /** The transfer loop of Run9 and Run7.  A cleared block count moves nothing. */
    method MoveUnits(s: Slice) returns (n: nat)
      requires OnTrack() && s.now < s.target
      modifies `mem, `curSrc, `curDst, `iterCount, `remCount, `totalRemCount, `past, `budget
      ensures OnTrack() && (if old(iterCount) > 0 then n > 0 && Moves(s, old(iterCount), n) else n == 0)
      ensures iterCount == old(iterCount) - n && remCount == old(remCount) - n
      ensures past == old(past).(moved := old(past).moved + n) && budget == old(budget).(spent := old(budget).spent + n)
      ensures n == 0 ==> totalRemCount == old(totalRemCount)
    {
      hide OnTrack;
      var time, stall := s.now, false;
      n := 0;
      while iterCount > 0 && !stall
        invariant OnTrack() && n <= old(iterCount) && time == Elapsed(s, n)
        invariant iterCount == old(iterCount) - n && remCount == old(remCount) - n
        invariant past == old(past).(moved := old(past).moved + n)
          && budget == old(budget).(spent := old(budget).spent + n)
        invariant n == 0 ==> totalRemCount == old(totalRemCount)
        invariant forall k: nat :: 0 < k < n ==> GoesOn(s, k)
        invariant n > 0 ==> time < s.target && (stall <==> !GoesOn(s, n))
        invariant n == 0 ==> !stall
        decreases iterCount
      {
        time := time + s.cost(n);
        MoveUnit();
        stall := s.stalls(n);
        n := n + 1;
        if time >= s.target { break; }
      }
    }

    /** At the end of a block an immediate channel disables itself, and so does one whose total is used up; the
        interrupt comes then, or with every block of an endless repeat. */
    predicate Ended(was: NdmaControl, irq: bool)
      reads this
    {
      var last := Immediate(startMode) || (!was.forever && totalRemCount == 0);
      && cnt == (if last then was.(enable := false) else was)
      && (irq <==> cnt.irq && (last || cnt.forever))
    }

    /** The end of a block: the channel disables itself unless it repeats. */
    method Finish() returns (irq: bool)
      requires OnTrack() && remCount == 0
      modifies `cnt, `running, `inProgress, `cpuStopped
      ensures Valid() && !inProgress && running == 0
      ensures Ended(old(cnt), irq)
    {
      hide Tracks;
      irq := false;
      if Immediate(startMode) {
        cnt := cnt.(enable := false);
        irq := cnt.irq;
      } else if cnt.forever {
        irq := cnt.irq;
      } else if totalRemCount == 0 {
        cnt := cnt.(enable := false);
        irq := cnt.irq;
      }
      running := 0;
      inProgress := false;
      cpuStopped := false;
    }

    /** A batch is used up; the geometry FIFO may ask for the next at once. */
    method Pause(fifoReady: bool, others: bool)
      requires OnTrack() && remCount > 0 && iterCount == 0 && inProgress
      modifies `remCount, `iterCount, `curSrc, `curDst, `running, `inProgress, `cpuStopped, `past
      ensures Valid() && inProgress && remCount <= old(remCount)
      ensures running > 0 <==> fifoReady && startMode == NDMA_GXFIFO && cnt.enable
      ensures (remCount, iterCount) == if running > 0 then Planned(old(remCount)) else (old(remCount), 0)
      ensures past == if running > 0 then Restarted(old(curSrc), old(curDst)) else old(past)
    {
      hide Tracks, BlockCount, NdmaBatch, Immediate, Planned;
      running := 0;
      cpuStopped := false;
      if startMode == NDMA_GXFIFO && fifoReady { StartIfNeeded(NDMA_GXFIFO, others); }
    }

    /** What follows the transfer loop of a slice: the end of the block, of the batch, or neither. */
    method Settle(fifoReady: bool, others: bool) returns (irq: bool)
      requires OnTrack() && inProgress && running > 0 && cpuStopped
      modifies `cnt, `remCount, `iterCount, `curSrc, `curDst, `running, `inProgress, `cpuStopped, `past
      ensures Valid() && remCount <= old(remCount)
      ensures inProgress <==> old(remCount) > 0
      ensures inProgress ==> cnt == old(cnt) && !irq
      ensures !inProgress ==> Ended(old(cnt), irq)
      ensures inProgress && old(iterCount) == 0 ==>
        (running > 0 <==> fifoReady && startMode == NDMA_GXFIFO && cnt.enable)
      ensures inProgress && old(iterCount) > 0 ==> running > 0
      ensures
        var again := inProgress && running > 0 && old(iterCount) == 0;
        && (remCount, iterCount) == (if again then Planned(old(remCount)) else (old(remCount), old(iterCount)))
        && past == if again then Restarted(old(curSrc), old(curDst)) else old(past)
    {
      hide Tracks, NdmaBatch, Immediate, NdmaJob, BlockCount, Planned;
      irq := false;
      if remCount == 0 {
        irq := Finish();
      } else if iterCount == 0 {
        Pause(fifoReady, others);
      }
    }

    /** Run9 and Run7: one slice. */
    method Run(s: Slice, fifoReady: bool, others: bool) returns (irq: bool)
      requires Valid()
      modifies `mem, `cnt, `remCount, `iterCount, `totalRemCount, `curSrc, `curDst, `running, `inProgress, `cpuStopped,
               `past, `budget
      ensures Valid() && budget == old(budget).(spent := budget.spent) && budget.spent >= old(budget).spent
      ensures old(running) == 0 || s.now >= s.target ==>
        budget.spent == old(budget).spent && mem == old(mem) && running == old(running)
      ensures old(running) > 0 && s.now < s.target && old(iterCount) > 0 ==>
        budget.spent > old(budget).spent && Moves(s, old(iterCount), budget.spent - old(budget).spent)
      ensures mem == Copied(old(Loop()), old(past).origin, old(past).moved + (budget.spent - old(budget).spent))
      ensures
        var n := budget.spent - old(budget).spent;
        var again := old(running) > 0 && s.now < s.target && n == old(iterCount) && inProgress && running > 0;
        var p := Reached(old(past), n);
        && n <= old(iterCount) && n <= old(remCount)
        && (remCount, iterCount) ==
          (if again then Planned(old(remCount) - n) else (old(remCount) - n, old(iterCount) - n))
        && past == if again
          then Restarted(At(p.src, Stride(srcInc, WORD), p.moved), At(p.dst, Stride(dstInc, WORD), p.moved))
          else p
      ensures inProgress || !old(inProgress) ==> cnt == old(cnt) && !irq
      ensures old(inProgress) && !inProgress ==> Ended(old(cnt), irq)
      ensures old(running) > 0 && s.now < s.target ==>
        (inProgress <==> budget.spent - old(budget).spent < old(remCount))
      ensures old(running) > 0 && s.now < s.target && old(iterCount) == 0 ==>
        !inProgress && totalRemCount == old(totalRemCount)
      ensures
        var n := budget.spent - old(budget).spent;
        old(running) > 0 && s.now < s.target && n == old(iterCount) && inProgress ==>
          (running > 0 <==> fifoReady && startMode == NDMA_GXFIFO && cnt.enable)
      ensures remCount + (budget.spent - old(budget).spent) <= old(remCount)
    {
      hide Tracks, Moves, NdmaBatch, Immediate, NdmaJob, Copied, BlockCount, Planned, Stride, Ended, At, Restarted;
      TracksCopied(past, srcInc, dstInc, Fills(), fillData, mem, curSrc, curDst);
      irq := false;
      if running == 0 { return; }
      if s.now >= s.target { return; }
      running := 1;
      var n := MoveUnits(s);
      TracksCopied(past, srcInc, dstInc, Fills(), fillData, mem, curSrc, curDst);
      irq := Settle(fifoReady, others);
    }

    /** What a transfer that was just enabled moves in all: one block at once, or the total length
        over as many triggers as it takes. */
    function Length(): nat
      reads this
    {
      if Immediate(startMode) then BlockCount(blockLength) else totalLength
    }

    /** The units under way, then what the next starts will plan, leave memory as `goal`. */
    ghost predicate Heading(goal: Memory)
      reads this
    {
      var n := past.moved + iterCount;
      && iterCount <= remCount && iterCount <= totalRemCount
      && (cnt.srcReload ==> past.src == srcAddr) && (cnt.dstReload ==> past.dst == dstAddr)
      && goal == Starts(Rewound(Loop(), cnt.srcReload, cnt.dstReload, n), cnt.srcReload, cnt.dstReload, startMode,
                        BlockCount(blockLength), Copied(Loop(), past.origin, n), remCount - iterCount,
                        totalRemCount - iterCount)
    }

    /** Right after the enabling write, all of the transfer is ahead. */
    lemma Headed(goal: Memory)
      requires Valid() && past == Past(mem, srcAddr, dstAddr, 0) && Capped() && totalRemCount == totalLength
      requires goal ==
        Starts(Loop(), cnt.srcReload, cnt.dstReload, startMode, BlockCount(blockLength), mem, 0, totalLength)
      requires if running > 0 then (remCount, iterCount) == Planned(0) else !inProgress
      ensures Heading(goal)
    {
      hide Tracks, Starts, BlockCount, NdmaBatch, NdmaJob;
      NotMoved(Loop(), cnt.srcReload, cnt.dstReload, mem);
      if running > 0 {
        NextStart(past, past, srcInc, dstInc, Fills(), fillData, cnt.srcReload, cnt.dstReload, startMode,
                  BlockCount(blockLength), 0, totalLength, remCount, iterCount);
      }
    }

    /** A slice of a counted transfer. */
    method Proceed(s: Slice, fifoReady: bool, others: bool, ghost goal: Memory)
      requires Valid() && budget.counted && cnt.enable && running > 0 && s.now < s.target && Heading(goal)
      modifies `mem, `cnt, `remCount, `iterCount, `totalRemCount, `curSrc, `curDst, `running, `inProgress, `cpuStopped,
               `past, `budget
      ensures Valid() && budget == old(budget).(spent := budget.spent) && Heading(goal)
      ensures cnt == old(cnt).(enable := cnt.enable) && (!cnt.enable ==> !inProgress && totalRemCount == 0)
      ensures totalRemCount < old(totalRemCount) || (totalRemCount == old(totalRemCount) && !cnt.enable)
    {
      hide Tracks, Copied, NdmaJob, Stride, At, BlockCount, Starts, Moves, Rewound, NdmaBatch, Immediate;
      ghost var p, rem, total := Reached(past, iterCount), remCount - iterCount, totalRemCount - iterCount;
      var irq := Run(s, fifoReady, others);
      if inProgress && running > 0 && budget.spent - old(budget).spent == old(iterCount) {
        NextStart(p, past, srcInc, dstInc, Fills(), fillData, cnt.srcReload, cnt.dstReload, startMode,
                  BlockCount(blockLength), rem, total, remCount, iterCount);
      }
    }

    /** The trigger that a counted transfer waits for. */
    method Trigger(others: bool, ghost goal: Memory)
      requires Valid() && budget.counted && cnt.enable && running == 0 && Heading(goal)
      modifies `remCount, `iterCount, `curSrc, `curDst, `running, `inProgress, `cpuStopped, `past
      ensures Valid() && Heading(goal) && running > 0
    {
      hide Tracks, Copied, NdmaJob, Stride, At, BlockCount, Starts, Rewound, NdmaBatch;
      TracksCopied(past, srcInc, dstInc, Fills(), fillData, mem, curSrc, curDst);
      ghost var p, rem, total := past, remCount, totalRemCount;
      StartIfNeeded(startMode, others);
      NextStart(p, past, srcInc, dstInc, Fills(), fillData, cnt.srcReload, cnt.dstReload, startMode,
                BlockCount(blockLength), rem, total, remCount, iterCount);
    }

    /** Runs a counted transfer until the channel disables itself. */
    method Complete(slices: nat -> Slice, ready: nat -> bool, others: nat -> bool, ghost goal: Memory)
      requires Valid() && budget.counted && cnt.enable && Heading(goal)
      requires forall i :: slices(i).now < slices(i).target
      modifies `mem, `cnt, `remCount, `iterCount, `totalRemCount, `curSrc, `curDst, `running, `inProgress, `cpuStopped,
               `past, `budget
      ensures Valid() && !inProgress && cnt == old(cnt).(enable := false) && mem == goal
      ensures budget.spent == budget.total == old(budget).total
    {
      hide Tracks, Copied, NdmaJob, BlockCount, NdmaBatch, Immediate, Starts, Rewound;
      var i: nat := 0;
      while cnt.enable
        invariant Valid() && Heading(goal) && budget == old(budget).(spent := budget.spent)
        invariant cnt == old(cnt).(enable := cnt.enable) && (!cnt.enable ==> !inProgress && totalRemCount == 0)
        decreases cnt.enable, totalRemCount, if running > 0 then 0 else 1
      {
        if running > 0 {
          Proceed(slices(i), ready(i), others(i), goal);
          i := i + 1;
        } else {
          Trigger(others(i), goal);
        }
      }
      TracksCopied(past, srcInc, dstInc, Fills(), fillData, mem, curSrc, curDst);
      NothingLeft(Rewound(Loop(), cnt.srcReload, cnt.dstReload, past.moved), cnt.srcReload, cnt.dstReload, startMode,
                  BlockCount(blockLength), mem, remCount);
    }

    /** Enables a counted channel and runs it until it disables itself. */
    method RunCounted(val: NdmaControl, slices: nat -> Slice, ready: nat -> bool, others: nat -> bool)
      requires Valid() && totalLength < SPACE && !inProgress && running == 0
      requires val.enable && !cnt.enable && !val.forever && !Immediate(NdmaStartMode(cpu, val))
      requires forall i :: slices(i).now < slices(i).target
      modifies `cnt, `srcInc, `dstInc, `startMode, `totalRemCount, `budget, `mem,
               `remCount, `iterCount, `curSrc, `curDst, `running, `inProgress, `cpuStopped, `past
      ensures Valid() && !inProgress && !cpuStopped && cnt == val.(enable := false) && budget.spent == totalLength
      ensures startMode == NdmaStartMode(cpu, val)
      ensures mem == Starts(JobFor(val), val.srcReload, val.dstReload, startMode, BlockCount(blockLength), old(mem), 0,
                            totalLength)
    {
      hide Tracks, Copied, NdmaStartMode, AddrInc, NdmaSrcInc, NdmaJob, BlockCount, NdmaBatch, Immediate, Starts;
      ghost var goal := Starts(JobFor(val), val.srcReload, val.dstReload, NdmaStartMode(cpu, val),
                               BlockCount(blockLength), mem, 0, totalLength);
      WriteCnt(val, ready(0), others(0));
      Headed(goal);
      Complete(slices, ready, others, goal);
    }

    /** Runs the one block of an immediate channel. */
    method RunBlock(slices: nat -> Slice, ready: nat -> bool, others: nat -> bool)
      requires Valid() && cnt.enable && Immediate(startMode) && running > 0 && iterCount == remCount > 0
      requires forall i :: slices(i).now < slices(i).target
      modifies `mem, `cnt, `remCount, `iterCount, `totalRemCount, `curSrc, `curDst, `running, `inProgress, `cpuStopped,
               `past, `budget
      ensures Valid() && !inProgress && cnt == old(cnt).(enable := false)
      ensures budget.spent == old(budget).spent + old(remCount)
      ensures mem == Copied(old(Loop()), old(past).origin, old(past).moved + old(remCount))
    {
      hide Tracks, Copied, NdmaJob, BlockCount, Moves, At, Stride, Restarted, Planned, Immediate;
      var i: nat := 0;
      ghost var p, spent, size := past, budget.spent, remCount;
      while cnt.enable
        invariant Valid() && past == Reached(p, size - remCount) && remCount <= size
        invariant cnt == old(cnt).(enable := cnt.enable) && budget.spent == spent + size - remCount
        invariant cnt.enable ==> running > 0 && iterCount == remCount > 0
        invariant !cnt.enable ==> !inProgress
        decreases remCount
      {
        var irq := Run(slices(i), ready(i), others(i));
        i := i + 1;
      }
      TracksCopied(past, srcInc, dstInc, Fills(), fillData, mem, curSrc, curDst);
    }

    /** Enables an immediate channel and runs its one block. */
    method RunImmediate(val: NdmaControl, slices: nat -> Slice, ready: nat -> bool, others: nat -> bool)
      requires Valid() && totalLength < SPACE && !inProgress && running == 0
      requires val.enable && !cnt.enable && !val.forever && Immediate(NdmaStartMode(cpu, val))
      requires forall i :: slices(i).now < slices(i).target
      modifies `cnt, `srcInc, `dstInc, `startMode, `totalRemCount, `budget, `mem,
               `remCount, `iterCount, `curSrc, `curDst, `running, `inProgress, `cpuStopped, `past
      ensures Valid() && !inProgress && cnt == val.(enable := false) && budget.spent == BlockCount(blockLength)
      ensures startMode == NdmaStartMode(cpu, val)
      ensures mem == Copied(JobFor(val), old(mem), BlockCount(blockLength))
    {
      hide Tracks, Copied, NdmaStartMode, AddrInc, NdmaSrcInc, NdmaJob, BlockCount;
      WriteCnt(val, ready(0), others(0));
      RunBlock(slices, ready, others);
    }

    /** A whole transfer, from the write that enables it until the channel disables itself, in any
        slices, with any triggers: exactly its length is moved.  Memory is that of the simple loop; sides
        in reload mode start over with every batch. */
    method Transfer(val: NdmaControl, slices: nat -> Slice, ready: nat -> bool, others: nat -> bool)
      requires Valid() && totalLength < SPACE && !inProgress && running == 0
      requires val.enable && !cnt.enable && !val.forever
      requires forall i :: slices(i).now < slices(i).target
      modifies this
      ensures Valid() && !inProgress && !cpuStopped && cnt == val.(enable := false) && budget.spent == Length()
      ensures startMode == NdmaStartMode(cpu, val)
      ensures mem ==
        if Immediate(startMode) then Copied(JobFor(val), old(mem), Length())
        else Starts(JobFor(val), val.srcReload, val.dstReload, startMode, BlockCount(blockLength), old(mem), 0,
                    Length())
      ensures !val.srcReload && !val.dstReload ==> mem == Copied(JobFor(val), old(mem), Length())
      ensures cpu < 2 && val.mode < 32 ==>
        budget.spent == if val.mode < 16 then totalLength else if blockLength == 0 then 0x100_0000 else blockLength
      ensures cpu < 2 && val.mode < 32 && val.srcMode < 4 && val.dstMode < 4 ==>
        val.mode >= 16 || (!val.srcReload && !val.dstReload) ==>
          NdmaOutcome(old(mem), mem, srcAddr, dstAddr, val, fillData, budget.spent)
    {
      if cpu < 2 && val.mode < 32 { NdmaConstants(cpu, val, blockLength, 0); }
      hide Tracks, Copied, NdmaStartMode, AddrInc, NdmaSrcInc, NdmaJob, BlockCount, NdmaBatch, Immediate, Starts;
      hide NdmaOutcome;
      if Immediate(NdmaStartMode(cpu, val)) {
        RunImmediate(val, slices, ready, others);
      } else {
        RunCounted(val, slices, ready, others);
        if !val.srcReload && !val.dstReload {
          StartsPlain(JobFor(val), startMode, BlockCount(blockLength), old(mem), 0, Length());
        }
      }
      if val.srcMode < 4 && val.dstMode < 4 { Acts(srcAddr, dstAddr, val, fillData, old(mem), Length()); }
    }

    /** The loop that the registers ask for. */
    function JobFor(val: NdmaControl): Job
      reads this
    {
      NdmaJob(srcAddr, dstAddr, NdmaSrcInc(val.srcMode), AddrInc(val.dstMode), val.srcMode == 3, fillData)
    }
  }

  /** A start in the middle of a counted transfer plans the next batch. */
  lemma NextStart(p: Past, q: Past, srcInc: int, dstInc: int, fill: bool, data: nat, srcBack: bool, dstBack: bool,
                  startMode: nat, block: nat, rem: nat, total: nat, rem': nat, iter: nat)
    requires block > 0 && q.moved == 0
    requires
      var j := NdmaJob(p.src, p.dst, srcInc, dstInc, fill, data);
      && q.origin == Copied(j, p.origin, p.moved)
      && q.src == (if srcBack then p.src else At(p.src, Stride(srcInc, WORD), p.moved))
      && q.dst == if dstBack then p.dst else At(p.dst, Stride(dstInc, WORD), p.moved)
    requires
      var left := if rem == 0 then block else rem;
      var batch := NdmaBatch(startMode, left);
      if batch > total then rem' == iter == total else rem' == left && iter == batch
    ensures
      var j, k := NdmaJob(p.src, p.dst, srcInc, dstInc, fill, data), NdmaJob(q.src, q.dst, srcInc, dstInc, fill, data);
      Starts(Rewound(j, srcBack, dstBack, p.moved), srcBack, dstBack, startMode, block, Copied(j, p.origin, p.moved),
             rem, total) ==
      Starts(Rewound(k, srcBack, dstBack, iter), srcBack, dstBack, startMode, block, Copied(k, q.origin, iter),
             rem' - iter, total - iter)
  {
    hide Stride, NdmaBatch, At;
    var j, k := NdmaJob(p.src, p.dst, srcInc, dstInc, fill, data), NdmaJob(q.src, q.dst, srcInc, dstInc, fill, data);
    assert k == Rewound(j, srcBack, dstBack, p.moved);
    assert Copied(k, q.origin, 0) == q.origin;
  }

  /** Without reloading, it does not matter how the words are planned. */
  lemma {:induction false} StartsPlain(j: Job, startMode: nat, block: nat, m: Memory, rem: nat, total: nat)
    requires block > 0
    ensures Starts(j, false, false, startMode, block, m, rem, total) == Copied(j, m, total)
    decreases total
  {
    hide Copied, NdmaBatch;
    if total == 0 {
      NotMoved(j, false, false, m);
    } else {
      var left := if rem == 0 then block else rem;
      var n := if NdmaBatch(startMode, left) > total then total else NdmaBatch(startMode, left);
      StartsPlain(Rewound(j, false, false, n), startMode, block, Copied(j, m, n), left - n, total - n);
      CopiedAdds(j, m, n, total - n);
    }
  }

  lemma NotMoved(j: Job, srcBack: bool, dstBack: bool, m: Memory)
    ensures Rewound(j, srcBack, dstBack, 0) == j && Copied(j, m, 0) == m
  {
  }

  lemma NothingLeft(j: Job, srcBack: bool, dstBack: bool, startMode: nat, block: nat, m: Memory, rem: nat)
    requires block > 0
    ensures Starts(j, srcBack, dstBack, startMode, block, m, rem, 0) == m
  {
  }

  /** The next unit of the loop, from the current addresses alone. */
  lemma TracksNext(past: Past, srcInc: int, dstInc: int, fill: bool, data: nat, m: Memory, src: nat, dst: nat)
    requires Tracks(past, srcInc, dstInc, fill, data, m, src, dst)
    ensures Tracks(past.(moved := past.moved + 1), srcInc, dstInc, fill, data, StoreOne(m, src, dst, fill, data),
                  Step(src, Stride(srcInc, WORD)), Step(dst, Stride(dstInc, WORD)))
  {
    hide Align, WordBytes;
  }

  lemma TracksNothing(past: Past, srcInc: int, dstInc: int, fill: bool, data: nat)
    requires past.moved == 0
    ensures Tracks(past, srcInc, dstInc, fill, data, past.origin, past.src, past.dst)
  {
  }

  lemma TracksCopied(past: Past, srcInc: int, dstInc: int, fill: bool, data: nat, m: Memory, src: nat, dst: nat)
    requires Tracks(past, srcInc, dstInc, fill, data, m, src, dst)
    ensures m == Copied(NdmaJob(past.src, past.dst, srcInc, dstInc, fill, data), past.origin, past.moved)
    ensures src == At(past.src, Stride(srcInc, WORD), past.moved)
    ensures dst == At(past.dst, Stride(dstInc, WORD), past.moved)
  {
  }
}
