/**
  The Action Replay interpreter.  A cheat is a list of word pairs with conditions, one loop level and
  copies; on every well-formed cheat the interpreter ends, and its FOR..NEXT loops mean repetition.
 */
module CheatEngines {

  type Word = w: nat | w < 0x1_0000_0000

  type Memory = nat -> nat

  const SPACE: nat := 0x1_0000_0000

  function Add(a: Word, b: Word): Word {
    if a + b < SPACE then (a as int) + b else (a as int) + b - SPACE
  }

  // ----- The bus -----

  function Byte(w: Word, k: nat): Word {
    match k
    case 0 => w % 0x100
    case 1 => w / 0x100 % 0x100
    case 2 => w / 0x1_0000 % 0x100
    case _ => w / 0x100_0000 % 0x100
  }

  function Write8(m: Memory, a: Word, v: Word): Memory {
    (x: nat) => if x == a then v % 0x100 else m(x)
  }

  function Write16(m: Memory, a: Word, v: Word): Memory {
    (x: nat) => if a / 2 * 2 <= x < a / 2 * 2 + 2 then Byte(v, x - a / 2 * 2) else m(x)
  }

  function Write32(m: Memory, a: Word, v: Word): Memory {
    (x: nat) => if a / 4 * 4 <= x < a / 4 * 4 + 4 then Byte(v, x - a / 4 * 4) else m(x)
  }

  function Read8(m: Memory, a: Word): Word {
    m(a) % 0x100
  }

  function Read16(m: Memory, a: Word): (v: Word)
    ensures v < 0x1_0000
  {
    var b := a / 2 * 2;
    m(b) % 0x100 + m(b + 1) % 0x100 * 0x100
  }

  function Read32(m: Memory, a: Word): Word {
    var b := a / 4 * 4;
    m(b) % 0x100 + m(b + 1) % 0x100 * 0x100 + m(b + 2) % 0x100 * 0x1_0000 + m(b + 3) % 0x100 * 0x100_0000
  }

  // ----- The parameters of an E opcode -----

  /** The words that follow an E opcode: its bytes, in pairs of words. */
  function Payload(b: Word): nat {
    (b + 7) / 8 * 2
  }

  /** The largest byte count whose parameters can be skipped with a 32-bit counter. */
  const SKIPPABLE: nat := 0xFFFF_FFF8

  /** Skipping counts up in steps of eight, modulo 2^32; it ends exactly up to SKIPPABLE. */
  lemma SkipEndsIff(b: Word)
    ensures (exists k: nat :: Counter(k) >= b) <==> b <= SKIPPABLE
  {
    if b <= SKIPPABLE {
      var k := (b + 7) / 8;
      assert Counter(k) >= b;
    } else {
      forall k: nat ensures Counter(k) < b {
        CounterEights(k);
      }
    }
  }

  function Counter(k: nat): nat {
    8 * k % SPACE
  }

  lemma CounterEights(k: nat)
    ensures Counter(k) <= SKIPPABLE
  {
    var q, r := k / 0x2000_0000, k % 0x2000_0000;
    assert 8 * k == SPACE * q + 8 * r;
    assert Counter(k) == 8 * r by { EightsModulo(q, 8 * r); }
  }

  lemma EightsModulo(q: nat, r: nat)
    requires r < SPACE
    ensures (SPACE * q + r) % SPACE == r
  {
  }

  function WriteBytes(m: Memory, a: Word, w: Word, from: nat, n: nat): Memory {
    if n == 0 then m else Write8(WriteBytes(m, a, w, from, n - 1), Add(a, (n - 1) % 4), Byte(w, from + n - 1))
  }

  /** What executing an E opcode writes. */
  function Copied(code: seq<Word>, p: nat, dst: Word, b: Word, m: Memory): Memory
    requires p + Payload(b) <= |code|
    decreases b
  {
    if b >= 8 then
      Copied(code, p + 2, Add(Add(dst, 4), 4), b - 8, Write32(Write32(m, dst, code[p]), Add(dst, 4), code[p + 1]))
    else if b >= 4 then WriteBytes(Write32(m, dst, code[p]), Add(dst, 4), code[p + 1], 0, b - 4)
    else if b > 0 then WriteBytes(m, dst, code[p], 0, b)
    else m
  }

  /** Skipping the parameters under a false condition. */
  method SkipParameters(p: nat, b: Word) returns (q: nat)
    requires b <= SKIPPABLE
    ensures q == p + Payload(b)
  {
    q := p;
    var i := 0;
    while i < b
      invariant 0 <= i <= b + 7 && i % 8 == 0 && q == p + i / 4
    {
      q := q + 2;
      i := i + 8;
    }
  }

  /** Executing an E opcode: it ends where skipping ends. */
  method CopyParameters(code: seq<Word>, p: nat, dst: Word, b: Word, m: Memory) returns (q: nat, mem: Memory)
    requires p + Payload(b) <= |code|
    ensures q == p + Payload(b) && mem == Copied(code, p, dst, b, m)
  {
    hide Write32, Write8, Byte, Add;
    q, mem := p, m;
    var to: Word, left: Word := dst, b;
    while left >= 8
      invariant left <= b && q + Payload(left) == p + Payload(b)
        && Copied(code, q, to, left, mem) == Copied(code, p, dst, b, m)
    {
      mem := Write32(mem, to, code[q]);
      to := Add(to, 4);
      mem := Write32(mem, to, code[q + 1]);
      to := Add(to, 4);
      q, left := q + 2, left - 8;
    }
    if left > 0 {
      var at := q;
      q := q + 2;
      if left >= 4 {
        mem := Write32(mem, to, code[at]);
        to := Add(to, 4);
        at := at + 1;
        left := left - 4;
      }
      ghost var before := mem;
      var k := 0;
      while k < left
        invariant 0 <= k <= left <= 4 && mem == WriteBytes(before, to, code[at], 0, k)
      {
        mem := Write8(mem, Add(to, k), Byte(code[at], k));
        k := k + 1;
      }
    }
  }

  // ----- One instruction -----

  datatype State = State(
    pos: nat,
    mem: Memory,
    offset: Word,
    datareg: Word,
    cond: bool,
    condStack: Word,
    loopStart: nat,
    loopCount: Word,
    loopCond: bool,
    loopCondStack: Word,
    c5Count: Word
  )

  function Initial(m: Memory): State {
    State(0, m, 0, 0, true, 0, 0, 0, true, 0, 0)
  }

  datatype Outcome = Go(state: State) | Stop(state: State)

  function OpOf(a: Word): nat {
    a / 0x100_0000
  }

  predicate IsCopy(op: nat) {
    op / 0x10 == 0xE
  }

  /** Where the instruction at p ends, parameters included. */
  function After(code: seq<Word>, p: nat): (q: nat)
    requires p + 2 <= |code|
    ensures q >= p + 2
  {
    p + 2 + if IsCopy(OpOf(code[p])) then Payload(code[p + 1]) else 0
  }

  /** From p on the cheat is a sequence of whole instructions with skippable parameters. */
  predicate OkFrom(code: seq<Word>, p: nat)
    decreases |code| - p
  {
    p == |code| || (
      && p + 2 <= |code|
      && (IsCopy(OpOf(code[p])) ==> code[p + 1] <= SKIPPABLE)
      && After(code, p) <= |code| && OkFrom(code, After(code, p)))
  }

  /** These run whatever the condition: the C5 counter, ENDIF and the two NEXTs. */
  predicate Unconditional(op: nat) {
    op == 0xC5 || (0xD0 <= op <= 0xD2)
  }

  function Push(stack: Word, cond: bool): Word {
    (stack * 2 + if cond then 1 else 0) % SPACE
  }

  /** The eight comparisons; an address of zero stands for the offset. */
  function Test(kind: nat, a: Word, b: Word, offset: Word, m: Memory): bool {
    var addr: Word := if a % 0x1000_0000 == 0 then offset else a % 0x1000_0000;
    if kind < 7 then
      var chk := Read32(m, addr);
      match kind case 3 => b > chk case 4 => b < chk case 5 => b == chk case _ => b != chk
    else
      var chk := AndNot(Read16(m, addr), b / 0x1_0000, 16);
      var low := b % 0x1_0000;
      match kind case 7 => low > chk case 8 => low < chk case 9 => low == chk case _ => low != chk
  }

  /** The n low bits of v that are clear in mask. */
  function AndNot(v: nat, mask: nat, n: nat): nat {
    if n == 0 then 0 else 2 * AndNot(v / 2, mask / 2, n - 1) + if v % 2 == 1 && mask % 2 == 0 then 1 else 0
  }

  function And(v: nat, mask: nat, n: nat): nat {
    if n == 0 then 0 else 2 * And(v / 2, mask / 2, n - 1) + if v % 2 == 1 && mask % 2 == 1 then 1 else 0
  }

  function CopyBytes(src: Word, dst: Word, b: Word, m: Memory): Memory
    decreases b
  {
    if b >= 4 then CopyBytes(Add(src, 4), Add(dst, 4), b - 4, Write32(m, dst, Read32(m, src)))
    else if b > 0 then CopyBytes(Add(src, 1), Add(dst, 1), b - 1, Write8(m, dst, Read8(m, src)))
    else m
  }

  /** Executing an F opcode. */
  method CopyMemory(src: Word, dst: Word, b: Word, m: Memory) returns (mem: Memory)
    ensures mem == CopyBytes(src, dst, b, m)
  {
    hide Read32, Read8, Write32, Write8, Add;
    mem := m;
    var from: Word, to: Word, left: Word := src, dst, b;
    while left >= 4
      invariant left <= b && CopyBytes(from, to, left, mem) == CopyBytes(src, dst, b, m)
    {
      mem := Write32(mem, to, Read32(mem, from));
      from, to, left := Add(from, 4), Add(to, 4), left - 4;
    }
    while left > 0
      invariant left < 4 && CopyBytes(from, to, left, mem) == CopyBytes(src, dst, b, m)
    {
      mem := Write8(mem, to, Read8(mem, from));
      from, to, left := Add(from, 1), Add(to, 1), left - 1;
    }
  }

  /** Instructions below C0: writes, conditions and the pointer load. */
  function LowOp(kind: nat, a: Word, b: Word, s: State): State {
    var at: Word := a % 0x1000_0000;
    if kind == 0 then s.(mem := Write32(s.mem, Add(at, s.offset), b))
    else if kind == 1 then s.(mem := Write16(s.mem, Add(at, s.offset), b))
    else if kind == 2 then s.(mem := Write8(s.mem, Add(at, s.offset), b))
    else if kind == 0xB then s.(offset := Read32(s.mem, Add(at, s.offset)))
    else s.(condStack := Push(s.condStack, s.cond), cond := Test(kind, a, b, s.offset, s.mem))
  }

  /** The C5 counter: it counts always and tests only under a true condition. */
  function CountOp(b: Word, s: State): State {
    var n := Add(s.c5Count, 1);
    if !s.cond then s.(c5Count := n)
    else s.(c5Count := n, condStack := Push(s.condStack, s.cond), cond := And(n, b % 0x1_0000, 16) == b / 0x1_0000)
  }

  /** D3 to DC. */
  function DataOp(op: nat, b: Word, s: State): State {
    match op
    case 0xD3 => s.(offset := b)
    case 0xD4 => s.(datareg := Add(s.datareg, b))
    case 0xD5 => s.(datareg := b)
    case 0xD6 => s.(mem := Write32(s.mem, Add(b, s.offset), s.datareg), offset := Add(s.offset, 4))
    case 0xD7 => s.(mem := Write16(s.mem, Add(b, s.offset), s.datareg), offset := Add(s.offset, 2))
    case 0xD8 => s.(mem := Write8(s.mem, Add(b, s.offset), s.datareg), offset := Add(s.offset, 1))
    case 0xD9 => s.(datareg := Read32(s.mem, Add(b, s.offset)))
    case 0xDA => s.(datareg := Read16(s.mem, Add(b, s.offset)))
    case 0xDB => s.(datareg := Read8(s.mem, Add(b, s.offset)))
    case _ => s.(offset := Add(s.offset, b))
  }

  /** The end of a loop whose count is used up: D1 restores the conditions, D2 clears everything. */
  function Leave(op: nat, s: State): State {
    if op == 0xD1 then s.(cond := s.loopCond, condStack := s.loopCondStack)
    else s.(offset := 0, datareg := 0, condStack := 0, cond := true)
  }

  function Step(code: seq<Word>, s: State): Outcome
    requires OkFrom(code, s.pos) && s.pos < |code|
  {
    var a, b := code[s.pos], code[s.pos + 1];
    var op := OpOf(a);
    var t := s.(pos := After(code, s.pos));
    if !s.cond && !Unconditional(op) then Go(t)
    else if op < 0xC0 then Go(LowOp(op / 0x10, a, b, t))
    else if op == 0xC0 then Go(t.(loopStart := t.pos, loopCount := b, loopCond := s.cond, loopCondStack := s.condStack))
    else if op == 0xC5 then Go(CountOp(b, t))
    else if op == 0xC6 then Go(t.(mem := Write32(s.mem, b, s.offset)))
    else if op == 0xD0 then Go(t.(cond := s.condStack % 2 == 1, condStack := s.condStack / 2))
    else if op == 0xD1 || op == 0xD2 then
      if s.loopCount > 0 then Go(t.(loopCount := s.loopCount - 1, pos := s.loopStart)) else Go(Leave(op, t))
    else if 0xD3 <= op <= 0xDC then Go(DataOp(op, b, t))
    else if IsCopy(op) then Go(t.(mem := Copied(code, s.pos + 2, Add(a % 0x1000_0000, s.offset), b, s.mem)))
    else if op >= 0xF0 then Go(t.(mem := CopyBytes(s.offset, a % 0x1000_0000, b, s.mem)))
    else Stop(t)
  }

  // ----- Whole runs -----

  /** What holds before every instruction. */
  predicate Ready(code: seq<Word>, s: State) {
    s.loopStart <= s.pos <= |code| && OkFrom(code, s.pos) && OkFrom(code, s.loopStart)
  }

  /** Words after the loop start, then loop count, then words left, lexicographically. */
  predicate Smaller(code: seq<Word>, t: State, s: State) {
    || t.loopStart > s.loopStart
    || (t.loopStart == s.loopStart && t.loopCount < s.loopCount)
    || (t.loopStart == s.loopStart && t.loopCount == s.loopCount && t.pos > s.pos)
  }

  lemma StepReady(code: seq<Word>, s: State)
    requires Ready(code, s) && s.pos < |code|
    ensures Step(code, s).Go? ==> Ready(code, Step(code, s).state) && Smaller(code, Step(code, s).state, s)
  {
    hide Test, CopyBytes, Copied, Push, And;
  }

  /** Runs a cheat to its end. */
  function Run(code: seq<Word>, s: State): State
    requires Ready(code, s)
    decreases |code| - s.loopStart, s.loopCount, |code| - s.pos
  {
    if s.pos == |code| then s
    else
      StepReady(code, s);
      match Step(code, s)
      case Stop(t) => t
      case Go(t) => Run(code, t)
  }

  lemma RunStep(code: seq<Word>, s: State)
    requires Ready(code, s) && s.pos < |code| && Step(code, s).Go?
    ensures Ready(code, Step(code, s).state) && Run(code, s) == Run(code, Step(code, s).state)
  {
    hide Step;
    StepReady(code, s);
  }

  // ----- Loops -----

  /** An instruction that neither loops nor ends the cheat. */
  predicate IsPlain(op: nat) {
    op < 0xC0 || op == 0xC5 || op == 0xC6 || op == 0xD0 || 0xD3 <= op <= 0xDC || 0xE0 <= op < 0x100
  }

  /** From p to end there are only plain instructions. */
  predicate Straight(code: seq<Word>, p: nat, end: nat)
    decreases |code| - p
  {
    p == end || (p + 2 <= |code| && IsPlain(OpOf(code[p])) && After(code, p) <= end
      && Straight(code, After(code, p), end))
  }

  lemma PlainStep(code: seq<Word>, s: State, count: Word)
    requires OkFrom(code, s.pos) && s.pos < |code| && IsPlain(OpOf(code[s.pos]))
    ensures Step(code, s).Go? && Step(code, s).state.pos == After(code, s.pos) <= |code|
      && OkFrom(code, After(code, s.pos))
    ensures Step(code, s).state.loopStart == s.loopStart && Step(code, s).state.loopCount == s.loopCount
    ensures Step(code, s.(loopCount := count)) == Go(Step(code, s).state.(loopCount := count))
    ensures Step(code, s).state.loopCond == s.loopCond && Step(code, s).state.loopCondStack == s.loopCondStack
  {
    hide Test, CopyBytes, Copied, Push, And;
  }

  /** The state at end, one instruction after the other. */
  function Exec(code: seq<Word>, s: State, end: nat): (t: State)
    requires OkFrom(code, s.pos) && Straight(code, s.pos, end) && end <= |code|
    ensures t.pos == end && t.loopStart == s.loopStart && t.loopCount == s.loopCount
    ensures t.loopCond == s.loopCond && t.loopCondStack == s.loopCondStack
    decreases |code| - s.pos
  {
    if s.pos == end then s
    else
      PlainStep(code, s, s.loopCount);
      Exec(code, Step(code, s).state, end)
  }

  lemma {:induction false} ExecRuns(code: seq<Word>, s: State, end: nat)
    requires Ready(code, s) && Straight(code, s.pos, end) && end <= |code|
    ensures Ready(code, Exec(code, s, end)) && Run(code, s) == Run(code, Exec(code, s, end))
    decreases |code| - s.pos
  {
    hide Step, Run;
    if s.pos != end {
      PlainStep(code, s, s.loopCount);
      RunStep(code, s);
      ExecRuns(code, Step(code, s).state, end);
    }
  }

  /** Straight code does not look at the loop count. */
  lemma {:induction false} ExecIgnoresCount(code: seq<Word>, s: State, end: nat, count: Word)
    requires OkFrom(code, s.pos) && Straight(code, s.pos, end) && end <= |code|
    ensures Exec(code, s.(loopCount := count), end) == Exec(code, s, end).(loopCount := count)
    decreases |code| - s.pos
  {
    hide Step;
    if s.pos != end {
      PlainStep(code, s, count);
      ExecIgnoresCount(code, Step(code, s).state, end, count);
    }
  }

  /** The loop body n times over. */
  function Repeated(code: seq<Word>, s: State, end: nat, n: nat): (t: State)
    requires n > 0 && OkFrom(code, s.pos) && Straight(code, s.pos, end) && end <= |code|
    ensures t.pos == end && t.loopStart == s.loopStart && t.loopCount == s.loopCount
    decreases n
  {
    var t := Exec(code, s, end);
    if n == 1 then t else Repeated(code, t.(pos := s.pos), end, n - 1)
  }

  lemma {:induction false} RepeatedIgnoresCount(code: seq<Word>, s: State, end: nat, n: nat, count: Word)
    requires n > 0 && OkFrom(code, s.pos) && Straight(code, s.pos, end) && end <= |code|
    ensures Repeated(code, s.(loopCount := count), end, n) == Repeated(code, s, end, n).(loopCount := count)
    decreases n
  {
    hide Exec;
    ExecIgnoresCount(code, s, end, count);
    if n > 1 { RepeatedIgnoresCount(code, Exec(code, s, end).(pos := s.pos), end, n - 1, count); }
  }

  /** A NEXT, whatever the condition. */
  lemma NextStep(code: seq<Word>, s: State)
    requires Ready(code, s) && s.pos < |code| && OpOf(code[s.pos]) in {0xD1, 0xD2}
    ensures s.loopCount > 0 ==> Step(code, s) == Go(s.(loopCount := s.loopCount - 1, pos := s.loopStart))
    ensures s.loopCount == 0 ==> Step(code, s) == Go(Leave(OpOf(code[s.pos]), s.(pos := s.pos + 2)))
  {
  }

  /** From the start of a loop with straight body, the run is that of the body repeated once more than
      the count, then left. */
  lemma {:induction false} LoopRepeats(code: seq<Word>, s: State, end: nat)
    requires Ready(code, s) && s.pos == s.loopStart && Straight(code, s.pos, end) && end < |code|
    requires OpOf(code[end]) in {0xD1, 0xD2}
    ensures
      var t := Leave(OpOf(code[end]), Repeated(code, s, end, s.loopCount + 1).(pos := end + 2, loopCount := 0));
      Ready(code, t) && Run(code, s) == Run(code, t)
    decreases s.loopCount
  {
    hide Step, Run, Exec;
    var u := Exec(code, s, end);
    ExecRuns(code, s, end);
    NextStep(code, u);
    RunStep(code, u);
    if s.loopCount > 0 {
      var v := u.(loopCount := s.loopCount - 1, pos := s.loopStart);
      LoopRepeats(code, v, end);
      RepeatedIgnoresCount(code, u.(pos := s.pos), end, s.loopCount, s.loopCount - 1);
    }
  }

  /** FOR b .. NEXT under a true condition runs its body b + 1 times. */
  lemma ForNext(code: seq<Word>, s: State, end: nat)
    requires Ready(code, s) && s.pos + 2 <= |code| && s.cond && OpOf(code[s.pos]) == 0xC0
    requires s.pos + 2 <= end < |code| && Straight(code, s.pos + 2, end) && OpOf(code[end]) in {0xD1, 0xD2}
    ensures
      var b: nat := code[s.pos + 1];
      var first := s.(pos := s.pos + 2, loopStart := s.pos + 2, loopCount := b, loopCond := true,
                      loopCondStack := s.condStack);
      OkFrom(code, s.pos + 2) &&
      var t := Leave(OpOf(code[end]), Repeated(code, first, end, b + 1).(pos := end + 2, loopCount := 0));
      Ready(code, t) && Run(code, s) == Run(code, t)
  {
    hide Run, Repeated, Leave, Straight;
    RunStep(code, s);
    var b: nat := code[s.pos + 1];
    var first := s.(pos := s.pos + 2, loopStart := s.pos + 2, loopCount := b, loopCond := true,
                    loopCondStack := s.condStack);
    assert Step(code, s) == Go(first);
    LoopRepeats(code, first, end);
  }

  // ----- The engine -----

  class AREngine {
    var mem: Memory

    constructor (mem: Memory)
      ensures this.mem == mem
    {
      this.mem := mem;
    }

    /** Executes one instruction. */
    method Execute(code: seq<Word>, s: State) returns (o: Outcome)
      requires OkFrom(code, s.pos) && s.pos < |code|
      ensures o == Step(code, s)
    {
      hide Copied, CopyBytes, Test, LowOp, DataOp, CountOp, Add;
      var a, b := code[s.pos], code[s.pos + 1];
      var op := OpOf(a);
      var q := s.pos + 2;
      if !s.cond && !Unconditional(op) {
        if IsCopy(op) { q := SkipParameters(q, b); }
        return Go(s.(pos := q));
      }
      var mem;
      if IsCopy(op) {
        q, mem := CopyParameters(code, q, Add(a % 0x1000_0000, s.offset), b, s.mem);
      } else if op >= 0xF0 {
        mem := CopyMemory(s.offset, a % 0x1000_0000, b, s.mem);
      } else {
        return Step(code, s);
      }
      return Go(s.(pos := q, mem := mem));
    }

    /** Runs a well-formed cheat; it always ends. */
    method RunCheat(code: seq<Word>)
      requires OkFrom(code, 0)
      modifies this
      ensures mem == Run(code, Initial(old(mem))).mem
      ensures mem == Run(code, State(0, old(mem), 0, 0, true, 0, 0, 0, true, 0, 0)).mem
    {
      hide Step;
      var s := Initial(mem);
      while s.pos < |code|
        invariant Ready(code, s) && Run(code, s) == Run(code, Initial(old(mem)))
        decreases |code| - s.loopStart, s.loopCount, |code| - s.pos
      {
        StepReady(code, s);
        var o := Execute(code, s);
        match o {
          case Stop(t) =>
            mem := t.mem;
            return;
          case Go(t) =>
            s := t;
        }
      }
      mem := s.mem;
    }
  }
}
