/**
  The DMA controller.  A transfer is cut into slices by time targets, by stalls and, for the
  geometry FIFO, into batches of 112 units; the memory it leaves is that of one simple loop.
 */
module Dmas {
  import opened BlockCopies
  import Outcomes = TransferOutcomes

  /** The fields of DMACNT. */
  datatype Control = Control(
    enable: bool,        // bit 31
    irq: bool,           // bit 30
    timing: nat,         // bits 27-29
    wide: bool,          // bit 26
    repeat: bool,        // bit 25
    srcMode: nat,        // bits 23-24
    dstMode: nat,        // bits 21-22
    count: nat           // bits 0-20
  )

  /** One call of Run: the clock, its target, what unit k costs, and whether its accesses stall. */
  datatype Slice = Slice(now: nat, target: nat, cost: nat -> nat, stalls: nat -> bool)

  function Elapsed(s: Slice, k: nat): nat {
    if k == 0 then s.now else Elapsed(s, k - 1) + s.cost(k - 1)
  }

  /** A slice that could move at most iter units moves exactly n. */
  ghost predicate Moves(s: Slice, iter: nat, n: nat) {
    && 0 < n <= iter
    && (forall k: nat :: 0 < k < n ==> GoesOn(s, k))
    && (n == iter || !GoesOn(s, n))
  }

  /** After k units the slice is neither stalled nor at its target. */
  predicate GoesOn(s: Slice, k: nat)
    requires k > 0
  {
    !s.stalls(k - 1) && Elapsed(s, k) < s.target
  }

  function AddrInc(mode: nat): int {
    if mode == 1 then -1 else if mode == 2 then 0 else 1
  }

  function Stride(inc: int, width: Width): int {
    if inc == 1 then width else if inc == -1 then -(width as int) else 0
  }

  function StartModeOf(cpu: nat, c: Control): nat {
    if cpu == 0 then c.timing % 8 else c.timing / 2 % 4 + 0x10
  }

  /** Zero counts as the largest count. */
  function CountOf(cpu: nat, num: nat, c: Control): (n: nat)
    ensures n > 0
  {
    var size := if cpu == 0 then 0x20_0000 else if num == 3 then 0x1_0000 else 0x4000;
    if c.count % size == 0 then size else c.count % size
  }

  const GXFIFO: nat := 7
  const BATCH: nat := 112

  function Batch(startMode: nat, rem: nat): (n: nat)
    ensures n <= rem && (rem > 0 ==> n > 0)
  {
    if startMode == GXFIFO && rem > BATCH then BATCH else rem
  }

  function Unit(wide: bool): Width {
    if wide then 4 else 2
  }

  /** The loop that a transfer with these parameters stands for. */
  function JobOf(src: nat, dst: nat, srcInc: int, dstInc: int, wide: bool): (j: Job)
    ensures j.source.Walk? && j.source.at == src && j.dst == dst
  {
    Job(Walk(src, Stride(srcInc, Unit(wide))), dst, Stride(dstInc, Unit(wide)), Unit(wide))
  }

  /** The steps and the unit of the address modes. */
  lemma JobWalks(src: nat, dst: nat, srcMode: nat, dstMode: nat, wide: bool)
    requires srcMode < 4 && dstMode < 4
    ensures JobOf(src, dst, AddrInc(srcMode), AddrInc(dstMode), wide) ==
      Outcomes.WalkJob(src, srcMode, dst, dstMode, wide)
  {
  }

  /** The count field has 21 bits on the ARM9 and 14 on the ARM7, 16 for its last channel; zero means one more
      than the largest. */
  predicate IsCount(cpu: nat, num: nat, field: nat, n: nat) {
    var size := if cpu == 0 then 0x20_0000 else if num == 3 then 0x1_0000 else 0x4000;
    0 < n <= size && n % size == field % size
  }

  lemma CountIs(cpu: nat, num: nat, c: Control)
    requires c.timing < 8
    ensures IsCount(cpu, num, c.count, CountOf(cpu, num, c))
    ensures forall n: nat :: BatchSize(StartModeOf(cpu, c), n) == if cpu == 0 && c.timing == 7 then 112 else n
  {
  }

  /** Since the last start, or the last write to DMACNT: memory and addresses then, and the units moved. */
  datatype Past = Past(origin: Memory, src: nat, dst: nat, moved: nat)

  /** n units further on. */
  function Reached(p: Past, n: nat): Past {
    p.(moved := p.moved + n)
  }

  /** The block under way: its size and how much of it has been moved. */
  datatype Block = Block(size: nat, done: nat)

  /** Memory and addresses are those of the loop after n units. */
  ghost predicate Follows(j: Job, origin: Memory, n: nat, mem: Memory, src: nat, dst: nat) {
    j.source.Walk? && mem == Copied(j, origin, n) && src == At(j.source.at, j.source.inc, n)
      && dst == At(j.dst, j.dstInc, n)
  }

  /** The loop run in batches of `size`, each with its own start. */
  function InBatches(j: Job, srcBack: bool, dstBack: bool, size: nat, m: Memory, n: nat): Memory
    requires size > 0
    decreases n
  {
    if n <= size then Copied(j, m, n)
    else InBatches(Rewound(j, srcBack, dstBack, size), srcBack, dstBack, size, Copied(j, m, size), n - size)
  }

  /** The batch size of a transfer of n units. */
  function BatchSize(startMode: nat, n: nat): nat {
    if startMode == GXFIFO then BATCH else n
  }

  /** What one pass of the loop body does to memory. */
  function MoveOne(mem: Memory, src: nat, dst: nat, width: Width): Memory {
    Move(Job(Walk(src, 0), dst, 0, width), mem, 0)
  }

  class Dma {
    const cpu: nat
    const num: nat

    var srcAddr: nat
    var dstAddr: nat
    var cnt: Control

    var startMode: nat
    var curSrc: nat
    var curDst: nat
    var remCount: nat
    var iterCount: nat
    var srcInc: int
    var dstInc: int
    var running: nat
    var inProgress: bool

    var mem: Memory
    var cpuStopped: bool

    ghost var past: Past
    ghost var block: Block

    constructor (cpu: nat, num: nat, mem: Memory)
      ensures Valid() && !inProgress && !cnt.enable && this.mem == mem
    {
      this.cpu, this.num, this.mem := cpu, num, mem;
      srcAddr, dstAddr, cnt := 0, 0, Control(false, false, 0, false, false, 0, 0, 0);
      startMode, curSrc, curDst, remCount, iterCount := 0, 0, 0, 0, 0;
      srcInc, dstInc, running, inProgress, cpuStopped := 0, 0, 0, false, false;
      past, block := Past(mem, 0, 0, 0), Block(0, 0);
    }

    ghost function Loop(): Job
      reads this
    {
      JobOf(past.src, past.dst, srcInc, dstInc, cnt.wide)
    }

    /** After the batch p, the next start. */
    ghost function Restarted(p: Past): Past
      reads this
    {
      var j := JobOf(p.src, p.dst, srcInc, dstInc, cnt.wide);
      Past(mem, if SrcBack() then srcAddr else At(p.src, j.source.inc, p.moved),
           if DstBack() then dstAddr else At(p.dst, j.dstInc, p.moved), 0)
    }

    /** Memory and addresses are those of the simple loop after as many units; no unit of the block
        is lost or moved twice. */
    ghost predicate OnTrack()
      reads this
    {
      && Follows(Loop(), past.origin, past.moved, mem, curSrc, curDst)
      && block.done + remCount == block.size && iterCount <= remCount
    }

    ghost predicate Valid()
      reads this
    {
      && OnTrack()
      && (inProgress <==> remCount > 0)
      && (running > 0 <==> iterCount > 0)
      && (cpuStopped <==> running > 0)
    }

    predicate SrcBack()
      reads this
    {
      cnt.srcMode == 3
    }

    predicate DstBack()
      reads this
    {
      cnt.dstMode == 3
    }

    /** The counts of a start: a new block, unless one is under way. */
    method LoadCounts()
      requires OnTrack() && (inProgress <==> remCount > 0)
      modifies `remCount, `iterCount, `block
      ensures OnTrack() && remCount > 0 && iterCount == Batch(startMode, remCount)
      ensures remCount == if inProgress then old(remCount) else CountOf(cpu, num, cnt)
      ensures block == if inProgress then old(block) else Block(CountOf(cpu, num, cnt), 0)
    {
      hide Follows, CountOf, Batch;
      if !inProgress {
        remCount := CountOf(cpu, num, cnt);
        block := Block(remCount, 0);
      }
      iterCount := Batch(startMode, remCount);
    }

    /** The addresses of a start: those in reload mode go back to their registers. */
    method ReloadAddresses()
      requires OnTrack()
      modifies `curSrc, `curDst, `past
      ensures OnTrack()
      ensures past ==
        Past(mem, if SrcBack() then srcAddr else old(curSrc), if DstBack() then dstAddr else old(curDst), 0)
    {
      hide Follows, Stride, Unit;
      if cnt.srcMode == 3 { curSrc := srcAddr; }
      if cnt.dstMode == 3 { curDst := dstAddr; }
      past := Past(mem, curSrc, curDst, 0);
      StartsEmpty(Loop(), mem);
    }

    method Start()
      requires Valid()
      modifies `remCount, `iterCount, `curSrc, `curDst, `running, `inProgress, `cpuStopped, `past, `block
      ensures Valid() && running > 0 && inProgress
      ensures remCount == if old(inProgress) then old(remCount) else CountOf(cpu, num, cnt)
      ensures iterCount == if old(running) > 0 then old(iterCount) else Batch(startMode, remCount)
      ensures block == if old(inProgress) then old(block) else Block(CountOf(cpu, num, cnt), 0)
      ensures past == if old(running) > 0 then old(past) else
        Past(mem, if SrcBack() then srcAddr else old(curSrc), if DstBack() then dstAddr else old(curDst), 0)
    {
      hide Follows, CountOf, JobOf;
      if running > 0 { return; }
      LoadCounts();
      ReloadAddresses();
      running := 2;
      inProgress := true;
      cpuStopped := true;
    }

    /** The trigger for start mode 7, which the geometry engine raises while its FIFO is not full. */
    method CheckFifoDma(fifoReady: bool)
      requires Valid()
      modifies `remCount, `iterCount, `curSrc, `curDst, `running, `inProgress, `cpuStopped, `past, `block
      ensures Valid()
      ensures if fifoReady && startMode == GXFIFO && cnt.enable then running > 0 else
        running == old(running) && remCount == old(remCount) && iterCount == old(iterCount) && past == old(past)
          && inProgress == old(inProgress)
      ensures old(inProgress) ==> inProgress && remCount == old(remCount) && block == old(block)
      ensures !old(inProgress) && inProgress ==> remCount == CountOf(cpu, num, cnt)
      ensures old(running) == 0 && running > 0 ==>
        && iterCount == Batch(startMode, remCount)
        && past == Past(mem, if SrcBack() then srcAddr else old(curSrc), if DstBack() then dstAddr else old(curDst), 0)
      ensures old(running) > 0 ==> past == old(past)
    {
      hide Follows, CountOf, Batch, JobOf;
      if fifoReady && startMode == GXFIFO && cnt.enable { Start(); }
    }

    /** The latching part of a write to DMACNT. */
    method Latch(val: Control)
      requires OnTrack()
      modifies `cnt, `curSrc, `curDst, `srcInc, `dstInc, `startMode, `past
      ensures OnTrack() && cnt == val && past.origin == mem && past.moved == 0
      ensures val.enable && !old(cnt).enable ==>
        && Loop() == JobOf(srcAddr, dstAddr, AddrInc(val.srcMode), AddrInc(val.dstMode), val.wide)
        && past.src == curSrc == srcAddr && past.dst == curDst == dstAddr
      ensures startMode == if val.enable && !old(cnt).enable then StartModeOf(cpu, val) else old(startMode)
    {
      hide Follows, Stride, Unit, StartModeOf, AddrInc;
      if val.enable && !cnt.enable {
        curSrc, curDst := srcAddr, dstAddr;
        dstInc, srcInc := AddrInc(val.dstMode), AddrInc(val.srcMode);
        startMode := StartModeOf(cpu, val);
      }
      cnt := val;
      past := Past(mem, curSrc, curDst, 0);
      StartsEmpty(Loop(), mem);
    }

    /** A write to DMACNT.  The rising enable bit latches the addresses and, in immediate mode, starts. */
    method WriteCnt(val: Control, fifoReady: bool)
      requires Valid() && val.timing < 8 && val.srcMode < 4 && val.dstMode < 4
      modifies `cnt, `srcInc, `dstInc, `startMode,
               `remCount, `iterCount, `curSrc, `curDst, `running, `inProgress, `cpuStopped, `past, `block
      ensures Valid() && cnt == val
      ensures past.origin == mem && past.moved == 0
      ensures val.enable && !old(cnt).enable ==>
        Loop() == JobOf(srcAddr, dstAddr, AddrInc(val.srcMode), AddrInc(val.dstMode), val.wide)
          == Outcomes.WalkJob(srcAddr, val.srcMode, dstAddr, val.dstMode, val.wide)
      ensures val.enable && !old(cnt).enable ==> past.src == srcAddr && past.dst == dstAddr
      ensures old(running) == 0 && running > 0 ==> iterCount == Batch(startMode, remCount)
      ensures startMode == if val.enable && !old(cnt).enable then StartModeOf(cpu, val) else old(startMode)
      ensures val.enable && !old(cnt).enable && (if cpu == 0 then val.timing == 0 else val.timing < 2) ==> running > 0
      ensures val.enable && !old(cnt).enable && cpu == 0 && val.timing == 7 ==>
        (running > 0 <==> old(running) > 0 || fifoReady)
      ensures val.enable && !old(cnt).enable && (if cpu == 0 then 0 < val.timing < 7 else val.timing >= 2) ==>
        (running > 0 <==> old(running) > 0)
      ensures !(val.enable && !old(cnt).enable) ==> running == old(running) && remCount == old(remCount)
      ensures !old(inProgress) && inProgress ==> remCount == CountOf(cpu, num, val) && running > 0
    {
      hide Follows, CountOf, JobOf, AddrInc, Batch;
      JobWalks(srcAddr, dstAddr, val.srcMode, val.dstMode, val.wide);
      var rises := val.enable && !cnt.enable;
      Latch(val);
      if rises {
        if startMode % 8 == 0 {
          Start();
        } else if startMode == GXFIFO {
          CheckFifoDma(fifoReady);
        }
      }
    }

    /** One pass of the transfer loop. */
    method MoveUnit()
      requires OnTrack() && iterCount > 0
      modifies `mem, `curSrc, `curDst, `iterCount, `remCount, `past, `block
      ensures OnTrack() && iterCount == old(iterCount) - 1 && remCount == old(remCount) - 1
      ensures past == old(past).(moved := old(past).moved + 1) && block == old(block).(done := old(block).done + 1)
    {
      hide Follows, Stride, Unit, Step, MoveOne;
      NextUnit(Loop(), past.origin, past.moved, mem, curSrc, curDst);
      mem := MoveOne(mem, curSrc, curDst, Unit(cnt.wide));
      curSrc := Step(curSrc, Stride(srcInc, Unit(cnt.wide)));
      curDst := Step(curDst, Stride(dstInc, Unit(cnt.wide)));
      iterCount := iterCount - 1;
      remCount := remCount - 1;
      past, block := past.(moved := past.moved + 1), block.(done := block.done + 1);
    }

    /** The transfer loop of Run9 and Run7. */
    method MoveUnits(s: Slice) returns (n: nat)
      requires OnTrack() && iterCount > 0 && s.now < s.target
      modifies `mem, `curSrc, `curDst, `iterCount, `remCount, `past, `block
      ensures OnTrack() && Moves(s, old(iterCount), n)
      ensures iterCount == old(iterCount) - n && remCount == old(remCount) - n
      ensures past == old(past).(moved := old(past).moved + n) && block == old(block).(done := old(block).done + n)
    {
      hide OnTrack;
      var time, stall := s.now, false;
      n := 0;
      while iterCount > 0 && !stall
        invariant OnTrack() && n <= old(iterCount) && time == Elapsed(s, n)
        invariant iterCount == old(iterCount) - n && remCount == old(remCount) - n
        invariant past == old(past).(moved := old(past).moved + n) && block == old(block).(done := old(block).done + n)
        invariant forall k: nat :: 0 < k < n ==> GoesOn(s, k)
        invariant n > 0 ==> time < s.target && (stall <==> !GoesOn(s, n))
        invariant n == 0 ==> !stall
        decreases iterCount
      {
        time := time + s.cost(n);
        MoveUnit();
        stall := s.stalls(n);
        n := n + 1;
        if time >= s.target { break; }
      }
    }

    /** The end of a block. */
    method Finish() returns (irq: bool)
      requires OnTrack() && remCount == 0
      modifies `cnt, `running, `inProgress, `cpuStopped
      ensures Valid() && !inProgress && running == 0
      ensures cnt == if old(cnt).repeat then old(cnt) else old(cnt).(enable := false)
      ensures irq <==> cnt.irq
    {
      hide Follows, Stride, Unit;
      if !cnt.repeat { cnt := cnt.(enable := false); }
      irq := cnt.irq;
      running := 0;
      inProgress := false;
      cpuStopped := false;
    }

    /** The processor resumes when a batch is used up; the geometry FIFO may ask for the next at once. */
    method Pause(fifoReady: bool)
      requires OnTrack() && remCount > 0 && iterCount == 0 && inProgress
      modifies `remCount, `iterCount, `curSrc, `curDst, `running, `inProgress, `cpuStopped, `past, `block
      ensures Valid() && remCount == old(remCount) && block == old(block)
      ensures running > 0 <==> fifoReady && startMode == GXFIFO && cnt.enable
      ensures running > 0 ==> iterCount == Batch(startMode, remCount)
      ensures past == if running == 0 then old(past) else
        Past(mem, if SrcBack() then srcAddr else old(curSrc), if DstBack() then dstAddr else old(curDst), 0)
    {
      hide Follows, JobOf;
      running := 0;
      cpuStopped := false;
      if startMode == GXFIFO { CheckFifoDma(fifoReady); }
    }

    /** Run9 and Run7: one slice.  A slice that is not out of time moves at least one unit. */
    method Run(s: Slice, fifoReady: bool) returns (irq: bool)
      requires Valid()
      modifies `mem, `cnt, `remCount, `iterCount, `curSrc, `curDst, `running, `inProgress, `cpuStopped, `past, `block
      ensures Valid() && remCount <= old(remCount)
      ensures old(running) == 0 || s.now >= s.target ==>
        mem == old(mem) && remCount == old(remCount) && past == old(past)
      ensures old(running) > 0 && s.now < s.target ==> Moves(s, old(iterCount), old(remCount) - remCount)
      ensures block == Block(old(block).size, old(block).done + old(remCount) - remCount)
      ensures mem == Copied(old(Loop()), old(past).origin, Reached(old(past), old(remCount) - remCount).moved)
      ensures
        var n := old(remCount) - remCount;
        var again := old(running) > 0 && s.now < s.target && n == old(iterCount) && running > 0;
        && iterCount == (if again then Batch(startMode, remCount) else old(iterCount) - n)
        && past == if !again then Reached(old(past), n) else Restarted(Reached(old(past), n))
      ensures cnt == if old(inProgress) && remCount == 0 && !old(cnt).repeat then old(cnt).(enable := false)
        else old(cnt)
      ensures irq <==> old(inProgress) && remCount == 0 && cnt.irq
      ensures old(running) > 0 && s.now < s.target && old(remCount) - remCount == old(iterCount) && remCount > 0 ==>
        (running > 0 <==> fifoReady && startMode == GXFIFO && cnt.enable)
    {
      hide Follows, JobOf, Moves, Copied, Batch;
      IsCopied(Loop(), past.origin, past.moved, mem, curSrc, curDst);
      irq := false;
      if running == 0 { return; }
      if s.now >= s.target { return; }
      running := 1;
      var n := MoveUnits(s);
      IsCopied(Loop(), past.origin, past.moved, mem, curSrc, curDst);
      if remCount == 0 {
        irq := Finish();
      } else if iterCount == 0 {
        Pause(fifoReady);
      }
    }

    /** A transfer of n units is under way that will leave memory as `goal`: past is the current batch. */
    ghost predicate Heading(goal: Memory, n: nat)
      reads this
    {
      var size, left := BatchSize(startMode, n), past.moved + remCount;
      && 0 < size && left <= n && past.moved <= size
      && InBatches(Loop(), SrcBack(), DstBack(), size, past.origin, left) == goal
      && (SrcBack() ==> past.src == srcAddr) && (DstBack() ==> past.dst == dstAddr)
      && (running > 0 ==> past.moved + iterCount == if left > size then size else left)
      && (inProgress && running == 0 ==> past.moved == size)
    }

    /** A slice, or the trigger that the next batch waits for. */
    method Advance(s: Slice, fifoReady: bool, ghost goal: Memory, ghost n: nat)
      requires Valid() && inProgress && s.now < s.target && Heading(goal, n)
      modifies `mem, `cnt, `remCount, `iterCount, `curSrc, `curDst, `running, `inProgress, `cpuStopped, `past, `block
      ensures Valid() && Heading(goal, n)
      ensures remCount < old(remCount) || (remCount == old(remCount) && old(running) == 0 && running > 0)
      ensures cnt == if inProgress || old(cnt).repeat then old(cnt) else old(cnt).(enable := false)
    {
      hide Follows, Copied, JobOf, Batch, InBatches, BatchSize;
      ghost var size, left := BatchSize(startMode, n), past.moved + remCount;
      ghost var p := past;
      IsCopied(Loop(), past.origin, past.moved, mem, curSrc, curDst);
      if running > 0 {
        var irq := Run(s, fifoReady);
        p := p.(moved := left - remCount);
      } else {
        Start();
      }
      BatchIs(startMode, n, remCount);
      if past != p { NextBatch(p, past, srcInc, dstInc, cnt.wide, SrcBack(), DstBack(), size, left); }
    }

    /** The write that enables a transfer and the trigger it waits for. */
    method Begin(val: Control, fifoReady: bool, ghost goal: Memory)
      requires Valid() && val.timing < 8 && val.srcMode < 4 && val.dstMode < 4
      requires val.enable && !cnt.enable && !inProgress
      requires
        var j := JobOf(srcAddr, dstAddr, AddrInc(val.srcMode), AddrInc(val.dstMode), val.wide);
        var n := CountOf(cpu, num, val);
        var size := BatchSize(StartModeOf(cpu, val), n);
        size > 0 && goal == InBatches(j, val.srcMode == 3, val.dstMode == 3, size, mem, n)
      modifies `cnt, `srcInc, `dstInc, `startMode,
               `remCount, `iterCount, `curSrc, `curDst, `running, `inProgress, `cpuStopped, `past, `block
      ensures Valid() && inProgress && Heading(goal, CountOf(cpu, num, val))
      ensures cnt == val && startMode == StartModeOf(cpu, val)
    {
      hide Follows, Copied, CountOf, StartModeOf, JobOf, AddrInc, Batch, InBatches, BatchSize;
      WriteCnt(val, fifoReady);
      IsCopied(Loop(), past.origin, past.moved, mem, curSrc, curDst);
      if !inProgress { Start(); }
      BatchIs(startMode, remCount, remCount);
    }

    /** A whole transfer, from the write that enables it, in any slices and with any number of
        re-triggers: it moves the programmed count of units and leaves the memory of the simple loop; a
        side in reload mode starts over with every batch that the geometry FIFO asks for. */
    method Transfer(val: Control, slices: nat -> Slice, ready: nat -> bool)
      requires Valid() && val.timing < 8 && val.srcMode < 4 && val.dstMode < 4
      requires val.enable && !cnt.enable && !inProgress
      requires forall i :: slices(i).now < slices(i).target
      modifies this
      ensures Valid() && !inProgress && !cpuStopped
      ensures
        var j := JobOf(srcAddr, dstAddr, AddrInc(val.srcMode), AddrInc(val.dstMode), val.wide);
        var n := CountOf(cpu, num, val);
        var size := BatchSize(StartModeOf(cpu, val), n);
        && size > 0 && mem == InBatches(j, val.srcMode == 3, val.dstMode == 3, size, old(mem), n)
        && (val.srcMode < 3 && val.dstMode < 3 ==> mem == Copied(j, old(mem), n))
      ensures
        var n := CountOf(cpu, num, val);
        && IsCount(cpu, num, val.count, n)
        && BatchSize(StartModeOf(cpu, val), n) == (if cpu == 0 && val.timing == 7 then 112 else n)
        && ((val.srcMode < 3 && val.dstMode < 3) || !(cpu == 0 && val.timing == 7 && n > 112) ==>
          Outcomes.Outcome(old(mem), mem, srcAddr, val.srcMode, dstAddr, val.dstMode, val.wide, n))
      ensures cnt == if val.repeat then val else val.(enable := false)
    {
      hide Follows, Copied, CountOf, StartModeOf, JobOf, AddrInc, Batch, InBatches, BatchSize, IsCount;
      hide Outcomes.Outcome;
      ghost var j := JobOf(srcAddr, dstAddr, AddrInc(val.srcMode), AddrInc(val.dstMode), val.wide);
      ghost var n := CountOf(cpu, num, val);
      ghost var size := BatchSize(StartModeOf(cpu, val), n);
      BatchIs(StartModeOf(cpu, val), n, n);
      ghost var goal := InBatches(j, val.srcMode == 3, val.dstMode == 3, size, mem, n);
      Begin(val, ready(0), goal);
      var i: nat := 0;
      while inProgress
        invariant Valid() && Heading(goal, n)
        invariant srcAddr == old(srcAddr) && dstAddr == old(dstAddr) && startMode == StartModeOf(cpu, val)
        invariant cnt == if inProgress || val.repeat then val else val.(enable := false)
        decreases remCount, if running > 0 then 0 else 1
      {
        Advance(slices(i), ready(i), goal, n);
        i := i + 1;
      }
      LastBatch(Loop(), SrcBack(), DstBack(), size, past.origin, past.moved);
      IsCopied(Loop(), past.origin, past.moved, mem, curSrc, curDst);
      if val.srcMode < 3 && val.dstMode < 3 { BatchesPlain(j, size, old(mem), n); }
      CountIs(cpu, num, val);
      Ends(cpu, num, val, srcAddr, dstAddr, old(mem));
    }
  }

  /** What the whole transfer leaves behind when its batches do not matter. */
  lemma Ends(cpu: nat, num: nat, val: Control, src: nat, dst: nat, m: Memory)
    requires val.timing < 8 && val.srcMode < 4 && val.dstMode < 4
    ensures
      var n := CountOf(cpu, num, val);
      var size := BatchSize(StartModeOf(cpu, val), n);
      var j := JobOf(src, dst, AddrInc(val.srcMode), AddrInc(val.dstMode), val.wide);
      size > 0 && ((val.srcMode < 3 && val.dstMode < 3) || !(cpu == 0 && val.timing == 7 && n > 112) ==>
        Outcomes.Outcome(m, InBatches(j, val.srcMode == 3, val.dstMode == 3, size, m, n), src, val.srcMode, dst,
                         val.dstMode, val.wide, n))
  {
    hide Outcomes.Outcome, JobOf, Copied, AddrInc, CountOf;
    var n := CountOf(cpu, num, val);
    var size := BatchSize(StartModeOf(cpu, val), n);
    var j := JobOf(src, dst, AddrInc(val.srcMode), AddrInc(val.dstMode), val.wide);
    JobWalks(src, dst, val.srcMode, val.dstMode, val.wide);
    Outcomes.WalkOutcome(src, val.srcMode, dst, val.dstMode, val.wide, m, n);
    if n <= size {
      LastBatch(j, val.srcMode == 3, val.dstMode == 3, size, m, n);
    } else if val.srcMode < 3 && val.dstMode < 3 {
      BatchesPlain(j, size, m, n);
    }
  }

  lemma BatchIs(startMode: nat, n: nat, rem: nat)
    requires rem <= n
    ensures n > 0 ==> BatchSize(startMode, n) > 0
    ensures Batch(startMode, rem) == if rem > BatchSize(startMode, n) then BatchSize(startMode, n) else rem
  {
  }

  /** A start in the middle of a transfer begins the next batch. */
  lemma NextBatch(p: Past, q: Past, srcInc: int, dstInc: int, wide: bool, srcBack: bool, dstBack: bool, size: nat,
                  left: nat)
    requires 0 < size < left && p.moved == size && q.moved == 0
    requires
      var j := JobOf(p.src, p.dst, srcInc, dstInc, wide);
      && q.origin == Copied(j, p.origin, size)
      && q.src == (if srcBack then p.src else At(j.source.at, j.source.inc, size))
      && q.dst == if dstBack then p.dst else At(j.dst, j.dstInc, size)
    ensures
      InBatches(JobOf(p.src, p.dst, srcInc, dstInc, wide), srcBack, dstBack, size, p.origin, left) ==
      InBatches(JobOf(q.src, q.dst, srcInc, dstInc, wide), srcBack, dstBack, size, q.origin, left - size)
  {
    hide Copied;
  }

  lemma LastBatch(j: Job, srcBack: bool, dstBack: bool, size: nat, m: Memory, n: nat)
    requires 0 < size && n <= size
    ensures InBatches(j, srcBack, dstBack, size, m, n) == Copied(j, m, n)
  {
  }

  lemma StartsEmpty(j: Job, m: Memory)
    requires j.source.Walk?
    ensures Follows(j, m, 0, m, j.source.at, j.dst)
  {
  }

  /** The next unit of the loop, from the current addresses alone. */
  lemma NextUnit(j: Job, origin: Memory, n: nat, m: Memory, src: nat, dst: nat)
    requires Follows(j, origin, n, m, src, dst)
    ensures Follows(j, origin, n + 1, MoveOne(m, src, dst, j.width), Step(src, j.source.inc), Step(dst, j.dstInc))
  {
    hide Align;
  }

  lemma IsCopied(j: Job, origin: Memory, n: nat, m: Memory, src: nat, dst: nat)
    requires Follows(j, origin, n, m, src, dst)
    ensures j.source.Walk? && m == Copied(j, origin, n)
    ensures src == At(j.source.at, j.source.inc, n) && dst == At(j.dst, j.dstInc, n)
  {
  }

  /** Without reloading, batches make no difference. */
  lemma {:induction false} BatchesPlain(j: Job, size: nat, m: Memory, n: nat)
    requires size > 0
    ensures InBatches(j, false, false, size, m, n) == Copied(j, m, n)
    decreases n
  {
    hide Copied;
    if n > size {
      BatchesPlain(Rewound(j, false, false, size), size, Copied(j, m, size), n - size);
      CopiedAdds(j, m, size, n - size);
    }
  }
}
