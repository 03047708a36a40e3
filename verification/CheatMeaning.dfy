/**
  What the Action Replay opcodes mean, from the memory before and after: writes, conditions, the data
  register and copies.  A condition that fails skips to the next ENDIF, whichever IF that belongs to.
 */
module CheatMeanings {
  import opened CheatEngines

  // ----- Bytes -----

  /** The word or halfword at the aligned address is v, lowest byte first, and no other byte has changed. */
  ghost predicate Wrote32(m: Memory, m': Memory, a: Word, v: Word) {
    var u := a - a % 4;
    && m'(u) == v % 0x100 && m'(u + 1) == v / 0x100 % 0x100
    && m'(u + 2) == v / 0x1_0000 % 0x100 && m'(u + 3) == v / 0x100_0000 % 0x100
    && forall x: nat :: !(u <= x < u + 4) ==> m'(x) == m(x)
  }

  ghost predicate Wrote16(m: Memory, m': Memory, a: Word, v: Word) {
    var u := a - a % 2;
    && m'(u) == v % 0x100 && m'(u + 1) == v / 0x100 % 0x100
    && forall x: nat :: !(u <= x < u + 2) ==> m'(x) == m(x)
  }

  ghost predicate Wrote8(m: Memory, m': Memory, a: Word, v: Word) {
    m'(a) == v % 0x100 && forall x: nat :: x != a ==> m'(x) == m(x)
  }

  /** The value of the n bytes from u on, lowest first. */
  function ValueAt(m: Memory, u: nat, n: nat): nat
    decreases n
  {
    if n == 0 then 0 else m(u) % 0x100 + 0x100 * ValueAt(m, u + 1, n - 1)
  }

  /** Word and halfword reads align the address. */
  function WordAt(m: Memory, a: Word): nat {
    ValueAt(m, a - a % 4, 4)
  }

  function HalfAt(m: Memory, a: Word): nat {
    ValueAt(m, a - a % 2, 2)
  }

  function Sum(a: nat, b: nat): Word {
    (a + b) % 0x1_0000_0000
  }

  lemma AddIsSum(a: Word, b: Word)
    ensures Add(a, b) == Sum(a, b)
  {
  }

  lemma Writes(m: Memory, a: Word, v: Word)
    ensures Wrote32(m, Write32(m, a, v), a, v) && Wrote16(m, Write16(m, a, v), a, v) && Wrote8(m, Write8(m, a, v), a, v)
  {
    Down(a);
    var u, w := a - a % 4, a - a % 2;
    assert a / 4 * 4 == u && a / 2 * 2 == w;
    var m4, m2 := Write32(m, a, v), Write16(m, a, v);
    assert m4(u) == Byte(v, 0) && m4(u + 1) == Byte(v, 1) && m4(u + 2) == Byte(v, 2) && m4(u + 3) == Byte(v, 3);
    assert m2(w) == Byte(v, 0) && m2(w + 1) == Byte(v, 1);
  }

  lemma Down(a: nat)
    ensures a / 4 * 4 == a - a % 4 && a / 2 * 2 == a - a % 2
  {
  }

  lemma ValueStep(m: Memory, u: nat, n: nat)
    ensures ValueAt(m, u, n) == if n == 0 then 0 else m(u) % 0x100 + 0x100 * ValueAt(m, u + 1, n - 1)
  {
  }

  lemma Reads(m: Memory, a: Word)
    ensures Read32(m, a) == WordAt(m, a) && Read16(m, a) == HalfAt(m, a)
  {
    hide Read32, Read16, ValueAt;
    FourBytesAt(m, a - a % 4);
    TwoBytesAt(m, a - a % 2);
    Read32Is(m, a);
    Read16Is(m, a);
  }

  lemma FourBytesAt(m: Memory, u: nat)
    ensures ValueAt(m, u, 4) == m(u) % 0x100 + m(u + 1) % 0x100 * 0x100 + m(u + 2) % 0x100 * 0x1_0000
      + m(u + 3) % 0x100 * 0x100_0000
  {
    hide ValueAt;
    ValueStep(m, u, 4);
    ValueStep(m, u + 1, 3);
    ValueStep(m, u + 2, 2);
    ValueStep(m, u + 3, 1);
    ValueStep(m, u + 4, 0);
  }

  lemma TwoBytesAt(m: Memory, u: nat)
    ensures ValueAt(m, u, 2) == m(u) % 0x100 + m(u + 1) % 0x100 * 0x100
  {
    hide ValueAt;
    ValueStep(m, u, 2);
    ValueStep(m, u + 1, 1);
    ValueStep(m, u + 2, 0);
  }

  lemma Read32Is(m: Memory, a: Word)
    ensures
      var v := a - a % 4;
      Read32(m, a) == m(v) % 0x100 + m(v + 1) % 0x100 * 0x100 + m(v + 2) % 0x100 * 0x1_0000
        + m(v + 3) % 0x100 * 0x100_0000
  {
    Down(a);
  }

  lemma Read16Is(m: Memory, a: Word)
    ensures Read16(m, a) == m(a - a % 2) % 0x100 + m(a - a % 2 + 1) % 0x100 * 0x100
  {
    Down(a);
  }

  // ----- Bit masks -----

  /** Bit i of a number. */
  predicate Bit(v: nat, i: nat) {
    if i == 0 then v % 2 == 1 else Bit(v / 2, i - 1)
  }

  lemma {:induction false} MaskBits(v: nat, mask: nat, n: nat, i: nat)
    requires i < n
    ensures Bit(AndNot(v, mask, n), i) <==> Bit(v, i) && !Bit(mask, i)
    ensures Bit(And(v, mask, n), i) <==> Bit(v, i) && Bit(mask, i)
    decreases n
  {
    Halved(AndNot(v / 2, mask / 2, n - 1), if v % 2 == 1 && mask % 2 == 0 then 1 else 0);
    Halved(And(v / 2, mask / 2, n - 1), if v % 2 == 1 && mask % 2 == 1 then 1 else 0);
    if i > 0 { MaskBits(v / 2, mask / 2, n - 1, i - 1); }
  }

  lemma Halved(x: nat, b: nat)
    requires b < 2
    ensures (2 * x + b) / 2 == x && (2 * x + b) % 2 == b
  {
  }

  lemma {:induction false} MaskBelow(v: nat, mask: nat, n: nat)
    ensures AndNot(v, mask, n) <= v && And(v, mask, n) <= v
    decreases n
  {
    if n > 0 { MaskBelow(v / 2, mask / 2, n - 1); }
  }

  // ----- Writes, offset and data register -----

  /** The instruction at the position runs. */
  predicate Runs(code: seq<Word>, s: State) {
    s.pos < |code| && OkFrom(code, s.pos) && s.cond
  }

  /** The high four bits of the first word; the other 28 are an address. */
  function Kind(a: Word): nat {
    a / 0x1000_0000
  }

  /** 0, 1 and 2 write b to the address plus offset; C6 writes the offset to b. */
  lemma WriteMeans(code: seq<Word>, s: State)
    requires Runs(code, s) && (Kind(code[s.pos]) < 3 || OpOf(code[s.pos]) == 0xC6)
    ensures
      var a, b, o := code[s.pos], code[s.pos + 1], Step(code, s);
      var at := Sum(a % 0x1000_0000, s.offset);
      && o == Go(s.(pos := s.pos + 2, mem := o.state.mem))
      && (Kind(a) == 0 ==> Wrote32(s.mem, o.state.mem, at, b))
      && (Kind(a) == 1 ==> Wrote16(s.mem, o.state.mem, at, b))
      && (Kind(a) == 2 ==> Wrote8(s.mem, o.state.mem, at, b))
      && (OpOf(a) == 0xC6 ==> Wrote32(s.mem, o.state.mem, b, s.offset))
  {
    hide Write32, Write16, Write8, Wrote32, Wrote16, Wrote8;
    var a, b := code[s.pos], code[s.pos + 1];
    var at: Word := a % 0x1000_0000;
    AddIsSum(at, s.offset);
    KindOf(a);
    Writes(s.mem, Add(at, s.offset), b);
    Writes(s.mem, b, s.offset);
  }

  lemma KindOf(a: Word)
    ensures OpOf(a) / 0x10 == Kind(a)
  {
  }

  /** B, D3 to D5 and D9 to DC set offset or data register. */
  lemma RegisterMeans(code: seq<Word>, s: State)
    requires Runs(code, s)
    requires Kind(code[s.pos]) == 0xB || OpOf(code[s.pos]) in {0xD3, 0xD4, 0xD5, 0xD9, 0xDA, 0xDB, 0xDC}
    ensures
      var a, b, o, op := code[s.pos], code[s.pos + 1], Step(code, s), OpOf(code[s.pos]);
      && o == Go(s.(pos := s.pos + 2, offset := o.state.offset, datareg := o.state.datareg))
      && (Kind(a) == 0xB || op in {0xD3, 0xDC} ==> o.state.datareg == s.datareg)
      && (op in {0xD4, 0xD5, 0xD9, 0xDA, 0xDB} ==> o.state.offset == s.offset)
      && (Kind(a) == 0xB ==> o.state.offset == WordAt(s.mem, Sum(a % 0x1000_0000, s.offset)))
      && (op == 0xD3 ==> o.state.offset == b)
      && (op == 0xDC ==> o.state.offset == Sum(s.offset, b))
      && (op == 0xD4 ==> o.state.datareg == Sum(s.datareg, b))
      && (op == 0xD5 ==> o.state.datareg == b)
      && (op == 0xD9 ==> o.state.datareg == WordAt(s.mem, Sum(b, s.offset)))
      && (op == 0xDA ==> o.state.datareg == HalfAt(s.mem, Sum(b, s.offset)))
      && (op == 0xDB ==> o.state.datareg == s.mem(Sum(b, s.offset)) % 0x100)
  {
    hide Read32, Read16, WordAt, HalfAt;
    var a, b := code[s.pos], code[s.pos + 1];
    var at: Word := a % 0x1000_0000;
    KindOf(a);
    AddIsSum(at, s.offset);
    AddIsSum(s.offset, b);
    AddIsSum(s.datareg, b);
    AddIsSum(b, s.offset);
    Reads(s.mem, Add(at, s.offset));
    Reads(s.mem, Add(b, s.offset));
  }

  /** D6, D7 and D8 write the data register and move the offset past what they wrote. */
  lemma StoreMeans(code: seq<Word>, s: State)
    requires Runs(code, s) && OpOf(code[s.pos]) in {0xD6, 0xD7, 0xD8}
    ensures
      var b, o, op := code[s.pos + 1], Step(code, s), OpOf(code[s.pos]);
      var at := Sum(b, s.offset);
      && o == Go(s.(pos := s.pos + 2, mem := o.state.mem, offset := o.state.offset))
      && (op == 0xD6 ==> Wrote32(s.mem, o.state.mem, at, s.datareg) && o.state.offset == Sum(s.offset, 4))
      && (op == 0xD7 ==> Wrote16(s.mem, o.state.mem, at, s.datareg) && o.state.offset == Sum(s.offset, 2))
      && (op == 0xD8 ==> Wrote8(s.mem, o.state.mem, at, s.datareg) && o.state.offset == Sum(s.offset, 1))
  {
    hide Write32, Write16, Write8, Wrote32, Wrote16, Wrote8;
    var b := code[s.pos + 1];
    AddIsSum(b, s.offset);
    AddIsSum(s.offset, 4);
    AddIsSum(s.offset, 2);
    AddIsSum(s.offset, 1);
    Writes(s.mem, Add(b, s.offset), s.datareg);
  }

  /** Under a false condition only C5, ENDIF and the NEXTs act; a skipped E takes its parameters along. */
  lemma SkipMeans(code: seq<Word>, s: State)
    requires s.pos < |code| && OkFrom(code, s.pos) && !s.cond
    requires OpOf(code[s.pos]) !in {0xC5, 0xD0, 0xD1, 0xD2}
    ensures Step(code, s) ==
      Go(s.(pos := s.pos + 2 + if Kind(code[s.pos]) == 0xE then (code[s.pos + 1] + 7) / 8 * 2 else 0))
  {
    KindOf(code[s.pos]);
  }

  predicate IsBad(op: nat) {
    op in {0xC1, 0xC2, 0xC3, 0xC4, 0xC7, 0xC8, 0xC9, 0xCA, 0xCB, 0xCC, 0xCD, 0xCE, 0xCF, 0xDD, 0xDE, 0xDF}
  }

  /** The opcodes that end a cheat. */
  lemma BadMeans(code: seq<Word>, s: State)
    requires s.pos < |code| && OkFrom(code, s.pos)
    ensures Step(code, s).Stop? <==> s.cond && IsBad(OpOf(code[s.pos]))
    ensures Step(code, s).Stop? ==> Step(code, s).state.mem == s.mem
  {
    hide Test, Copied, CopyBytes, Write32, Write16, Write8, Push, And, LowOp, DataOp, CountOp, Leave;
  }

  // ----- Conditions -----

  /** The comparison of an IF: of b with the word at the address (the offset when it is zero), or of the low half
      of b with the bits of the halfword that the high half of b leaves clear. */
  predicate Compares(a: Word, b: Word, offset: Word, m: Memory)
    requires 3 <= Kind(a) <= 10
  {
    var at: Word := if a % 0x1000_0000 == 0 then offset else a % 0x1000_0000;
    var low := b % 0x1_0000;
    match Kind(a)
    case 3 => b > WordAt(m, at)
    case 4 => b < WordAt(m, at)
    case 5 => b == WordAt(m, at)
    case 6 => b != WordAt(m, at)
    case 7 => low > AndNot(HalfAt(m, at), b / 0x1_0000, 16)
    case 8 => low < AndNot(HalfAt(m, at), b / 0x1_0000, 16)
    case 9 => low == AndNot(HalfAt(m, at), b / 0x1_0000, 16)
    case _ => low != AndNot(HalfAt(m, at), b / 0x1_0000, 16)
  }

  lemma TestCompares(a: Word, b: Word, offset: Word, m: Memory)
    requires 3 <= Kind(a) <= 10
    ensures Test(Kind(a), a, b, offset, m) <==> Compares(a, b, offset, m)
  {
    hide Read32, Read16, WordAt, HalfAt, AndNot;
    Reads(m, if a % 0x1000_0000 == 0 then offset else a % 0x1000_0000);
  }

  /** An IF under a true condition remembers it and takes over the comparison. */
  lemma IfMeans(code: seq<Word>, s: State)
    requires Runs(code, s) && 3 <= Kind(code[s.pos]) <= 10
    ensures
      var a, b := code[s.pos], code[s.pos + 1];
      Step(code, s) == Go(s.(pos := s.pos + 2, cond := Compares(a, b, s.offset, s.mem),
                             condStack := Sum(s.condStack * 2, 1)))
  {
    hide Test, Compares;
    KindOf(code[s.pos]);
    TestCompares(code[s.pos], code[s.pos + 1], s.offset, s.mem);
  }

  /** C5 counts always and tests only under a true condition. */
  lemma CountMeans(code: seq<Word>, s: State)
    requires s.pos < |code| && OkFrom(code, s.pos) && OpOf(code[s.pos]) == 0xC5
    ensures
      var b, n := code[s.pos + 1], Sum(s.c5Count, 1);
      Step(code, s) == Go(
        if s.cond then s.(pos := s.pos + 2, c5Count := n, condStack := Sum(s.condStack * 2, 1),
                          cond := And(n, b % 0x1_0000, 16) == b / 0x1_0000)
        else s.(pos := s.pos + 2, c5Count := n))
  {
    AddIsSum(s.c5Count, 1);
  }

  /** ENDIF gives back the condition remembered last. */
  lemma EndifMeans(code: seq<Word>, s: State)
    requires s.pos < |code| && OkFrom(code, s.pos) && OpOf(code[s.pos]) == 0xD0
    ensures Step(code, s) == Go(s.(pos := s.pos + 2, cond := s.condStack % 2 == 1, condStack := s.condStack / 2))
  {
  }

  /** The last NEXT of a loop gives back the conditions from before the FOR, or clears everything for D2. */
  lemma NextMeans(code: seq<Word>, s: State)
    requires Ready(code, s) && s.pos < |code| && OpOf(code[s.pos]) in {0xD1, 0xD2}
    ensures Step(code, s) == Go(
      if s.loopCount > 0 then s.(pos := s.loopStart, loopCount := s.loopCount - 1)
      else if OpOf(code[s.pos]) == 0xD1 then s.(pos := s.pos + 2, cond := s.loopCond, condStack := s.loopCondStack)
      else s.(pos := s.pos + 2, offset := 0, datareg := 0, cond := true, condStack := 0))
  {
  }

  /** Instructions that touch no condition. */
  predicate IsFlat(op: nat) {
    op < 0x30 || 0xB0 <= op < 0xC0 || op == 0xC6 || 0xD3 <= op <= 0xDC || 0xE0 <= op < 0x100
  }

  predicate Flat(code: seq<Word>, p: nat, end: nat)
    decreases |code| - p
  {
    p == end || (p + 2 <= |code| && IsFlat(OpOf(code[p])) && After(code, p) <= end && Flat(code, After(code, p), end))
  }

  lemma {:induction false} FlatIsStraight(code: seq<Word>, p: nat, end: nat)
    requires Flat(code, p, end) && end <= |code|
    ensures Straight(code, p, end)
    decreases |code| - p
  {
    if p != end { FlatIsStraight(code, After(code, p), end); }
  }

  lemma FlatStep(code: seq<Word>, s: State)
    requires s.pos < |code| && OkFrom(code, s.pos) && IsFlat(OpOf(code[s.pos]))
    ensures Step(code, s).Go? && Step(code, s).state.cond == s.cond && Step(code, s).state.condStack == s.condStack
    ensures Step(code, s).state.pos == After(code, s.pos)
    ensures !s.cond ==> Step(code, s).state == s.(pos := After(code, s.pos))
  {
    hide Copied, CopyBytes, Write32, Write16, Write8, Read32, Read16, Test, Add;
    KindOf(code[s.pos]);
  }

  lemma {:induction false} FlatKeeps(code: seq<Word>, s: State, end: nat)
    requires OkFrom(code, s.pos) && Flat(code, s.pos, end) && end <= |code|
    ensures Straight(code, s.pos, end)
    ensures Exec(code, s, end).cond == s.cond && Exec(code, s, end).condStack == s.condStack
    ensures !s.cond ==> Exec(code, s, end) == s.(pos := end)
    decreases |code| - s.pos
  {
    hide Step;
    FlatIsStraight(code, s.pos, end);
    if s.pos != end {
      PlainStep(code, s, s.loopCount);
      FlatStep(code, s);
      FlatKeeps(code, Step(code, s).state, end);
    }
  }

  /** IF; body; ENDIF with a body that touches no condition: the body runs exactly when the comparison holds, and
      the condition is as before. */
  lemma IfEndif(code: seq<Word>, s: State, end: nat)
    requires Ready(code, s) && Runs(code, s) && 3 <= Kind(code[s.pos]) <= 10
    requires s.pos + 2 <= end < |code| && Flat(code, s.pos + 2, end) && OpOf(code[end]) == 0xD0
    ensures OkFrom(code, s.pos + 2) && Straight(code, s.pos + 2, end)
    ensures
      var inner := s.(pos := s.pos + 2, condStack := Sum(s.condStack * 2, 1));
      var left := if Compares(code[s.pos], code[s.pos + 1], s.offset, s.mem) then Exec(code, inner, end) else s;
      var t := left.(pos := end + 2, cond := true, condStack := s.condStack % 0x8000_0000);
      Ready(code, t) && Run(code, s) == Run(code, t)
  {
    hide Step, Run, Compares, Exec;
    IfMeans(code, s);
    RunStep(code, s);
    var u := Step(code, s).state;
    FlatKeeps(code, u, end);
    ExecRuns(code, u, end);
    var v := Exec(code, u, end);
    EndifMeans(code, v);
    RunStep(code, v);
    PushedPops(s.condStack);
  }

  lemma PushedPops(stack: Word)
    ensures Sum(stack * 2, 1) % 2 == 1 && Sum(stack * 2, 1) / 2 == stack % 0x8000_0000
  {
  }

  /** The same for C5. */
  lemma CountEndif(code: seq<Word>, s: State, end: nat)
    requires Ready(code, s) && Runs(code, s) && OpOf(code[s.pos]) == 0xC5
    requires s.pos + 2 <= end < |code| && Flat(code, s.pos + 2, end) && OpOf(code[end]) == 0xD0
    ensures OkFrom(code, s.pos + 2) && Straight(code, s.pos + 2, end)
    ensures
      var b, n := code[s.pos + 1], Sum(s.c5Count, 1);
      var inner := s.(pos := s.pos + 2, c5Count := n, condStack := Sum(s.condStack * 2, 1));
      var left := if And(n, b % 0x1_0000, 16) == b / 0x1_0000 then Exec(code, inner, end) else s.(c5Count := n);
      var t := left.(pos := end + 2, cond := true, condStack := s.condStack % 0x8000_0000);
      Ready(code, t) && Run(code, s) == Run(code, t)
  {
    hide Step, Run, And, Exec;
    CountMeans(code, s);
    RunStep(code, s);
    var u := Step(code, s).state;
    FlatKeeps(code, u, end);
    ExecRuns(code, u, end);
    var v := Exec(code, u, end);
    EndifMeans(code, v);
    RunStep(code, v);
    PushedPops(s.condStack);
  }

  // ----- Nested conditions -----

  /** The first ENDIF at or after p, with nothing but plain instructions before it. */
  predicate NextEndif(code: seq<Word>, p: nat, end: nat)
    decreases |code| - p
  {
    p + 2 <= |code| && p <= end && if p == end then OpOf(code[p]) == 0xD0
      else OpOf(code[p]) !in {0xC5, 0xD0, 0xD1, 0xD2} && NextEndif(code, After(code, p), end)
  }

  lemma {:induction false} NextEndifIs(code: seq<Word>, p: nat, end: nat)
    requires NextEndif(code, p, end)
    ensures end + 2 <= |code| && OpOf(code[end]) == 0xD0
    decreases |code| - p
  {
    if p != end { NextEndifIs(code, After(code, p), end); }
  }

  lemma {:induction false} SkipsTo(code: seq<Word>, s: State, end: nat)
    requires Ready(code, s) && NextEndif(code, s.pos, end) && !s.cond
    ensures Ready(code, s.(pos := end)) && Run(code, s) == Run(code, s.(pos := end))
    decreases |code| - s.pos
  {
    hide Step, Run;
    if s.pos != end {
      SkipMeans(code, s);
      RunStep(code, s);
      KindOf(code[s.pos]);
      SkipsTo(code, Step(code, s).state, end);
    }
  }

  /** An IF whose comparison fails goes on behind the next ENDIF under the condition from before, whichever IF
      that ENDIF belongs to: IFs that are skipped are not counted. */
  lemma FailedIf(code: seq<Word>, s: State, end: nat)
    requires Ready(code, s) && Runs(code, s) && 3 <= Kind(code[s.pos]) <= 10
    requires !Compares(code[s.pos], code[s.pos + 1], s.offset, s.mem) && NextEndif(code, s.pos + 2, end)
    ensures
      var t := s.(pos := end + 2, condStack := s.condStack % 0x8000_0000);
      Ready(code, t) && Run(code, s) == Run(code, t)
  {
    hide Step, Run, Compares;
    IfMeans(code, s);
    RunStep(code, s);
    var u := Step(code, s).state;
    SkipsTo(code, u, end);
    NextEndifIs(code, u.pos, end);
    var v := u.(pos := end);
    EndifMeans(code, v);
    RunStep(code, v);
    PushedPops(s.condStack);
  }

  /** A write behind a nested IF happens although the outer comparison fails. */
  const NestedIf: seq<Word> := [
    0x5200_0000, 1,             // IF u32[0x02000000] == 1
    0x5200_0000, 1,             //   IF u32[0x02000000] == 1
    0xD000_0000, 0,             //   ENDIF
    0x2200_0010, 7,             //   u8[0x02000010] = 7
    0xD000_0000, 0              // ENDIF
  ]

  lemma NestedIfLeaks(m: Memory)
    requires m(0x200_0000) % 0x100 == 0
    ensures !Compares(0x5200_0000, 1, 0, m)
    ensures OkFrom(NestedIf, 0) && Run(NestedIf, Initial(m)).mem(0x200_0010) == 7
  {
    hide Step, Run, Compares;
    var code, s := NestedIf, Initial(m);
    NestedOk();
    assert !Compares(0x5200_0000, 1, 0, m) by { NotOne(m); }
    FailedIf(code, s, 4);
    var t := s.(pos := 6);
    WriteMeans(code, t);
    RunStep(code, t);
    var u := Step(code, t).state;
    EndifMeans(code, u);
    RunStep(code, u);
    assert Run(code, Step(code, u).state).mem == u.mem by { RunEnds(code, Step(code, u).state); }
  }

  lemma NotOne(m: Memory)
    requires m(0x200_0000) % 0x100 == 0
    ensures !Compares(0x5200_0000, 1, 0, m)
  {
  }

  lemma RunEnds(code: seq<Word>, s: State)
    requires Ready(code, s) && s.pos == |code|
    ensures Run(code, s) == s
  {
  }

  lemma NestedOk()
    ensures OkFrom(NestedIf, 10) && OkFrom(NestedIf, 8) && OkFrom(NestedIf, 6) && OkFrom(NestedIf, 4)
    ensures OkFrom(NestedIf, 2) && OkFrom(NestedIf, 0) && NextEndif(NestedIf, 2, 4)
  {
    assert NextEndif(NestedIf, 4, 4);
  }

  // ----- Copies -----

  /** Byte i of the parameters at p, four to a word and lowest first. */
  function PayloadByte(code: seq<Word>, p: nat, i: nat): nat
    requires p + i / 4 < |code|
  {
    var w := code[p + i / 4];
    match i % 4
    case 0 => w % 0x100
    case 1 => w / 0x100 % 0x100
    case 2 => w / 0x1_0000 % 0x100
    case _ => w / 0x100_0000 % 0x100
  }

  /** E writes its parameters to the address plus offset. */
  lemma PayloadMeans(code: seq<Word>, s: State)
    requires Runs(code, s) && Kind(code[s.pos]) == 0xE
    ensures
      var a, b := code[s.pos], code[s.pos + 1];
      && s.pos + 2 + (b + 7) / 8 * 2 <= |code|
      && Step(code, s) == Go(s.(pos := s.pos + 2 + (b + 7) / 8 * 2,
                                mem := Copied(code, s.pos + 2, Sum(a % 0x1000_0000, s.offset), b, s.mem)))
  {
    hide Copied;
    KindOf(code[s.pos]);
    AddIsSum(code[s.pos] % 0x1000_0000, s.offset);
  }

  /** F copies from the offset to the address. */
  lemma CopyMeans(code: seq<Word>, s: State)
    requires Runs(code, s) && Kind(code[s.pos]) == 0xF
    ensures
      var a, b := code[s.pos], code[s.pos + 1];
      Step(code, s) == Go(s.(pos := s.pos + 2, mem := CopyBytes(s.offset, a % 0x1000_0000, b, s.mem)))
  {
    hide CopyBytes;
    KindOf(code[s.pos]);
  }

  /** Exactly the b bytes are at the destination. */
  ghost predicate Delivered(code: seq<Word>, p: nat, dst: Word, b: Word, m: Memory, m': Memory)
    requires p + Payload(b) <= |code|
  {
    forall x: nat :: m'(x) == if dst <= x < dst + b then PayloadByte(code, p, x - dst) else m(x)
  }

  /** Where the parameters go: whole words to the aligned address, the rest behind the unaligned one. */
  function Placed(code: seq<Word>, p: nat, dst: Word, b: Word, m: Memory, x: nat): nat
    requires p + Payload(b) <= |code|
  {
    var low, whole := dst - dst % 4, b / 4 * 4;
    if low <= x < low + whole then PayloadByte(code, p, x - low)
    else if dst + whole <= x < dst + b then PayloadByte(code, p, x - dst)
    else m(x)
  }

  lemma CopiedUnfolds(code: seq<Word>, p: nat, dst: Word, b: Word, m: Memory)
    requires p + Payload(b) <= |code|
    ensures b >= 8 ==> Copied(code, p, dst, b, m) == Copied(code, p + 2, Add(Add(dst, 4), 4), b - 8,
                                                            Write32(Write32(m, dst, code[p]), Add(dst, 4), code[p + 1]))
    ensures 4 <= b < 8 ==>
      Copied(code, p, dst, b, m) == WriteBytes(Write32(m, dst, code[p]), Add(dst, 4), code[p + 1], 0, b - 4)
    ensures 0 < b < 4 ==> Copied(code, p, dst, b, m) == WriteBytes(m, dst, code[p], 0, b)
    ensures b == 0 ==> Copied(code, p, dst, b, m) == m
  {
    hide Write32, Add, WriteBytes;
  }

  lemma {:induction false} CopiedIs(code: seq<Word>, p: nat, dst: Word, b: Word, m: Memory, x: nat)
    requires p + Payload(b) <= |code| && dst + b + 8 < 0x1_0000_0000
    ensures Copied(code, p, dst, b, m)(x) == Placed(code, p, dst, b, m, x)
    decreases b
  {
    hide Write32, Write8, PayloadByte, Byte, WriteBytes, Add, Copied, Placed;
    AddIsSum(dst, 4);
    CopiedUnfolds(code, p, dst, b, m);
    if b >= 8 {
      AddIsSum(dst + 4, 4);
      var m1 := Write32(m, dst, code[p]);
      var m2 := Write32(m1, dst + 4, code[p + 1]);
      CopiedIs(code, p + 2, dst + 8, b - 8, m2, x);
      PlacedPair(code, p, m, dst, x);
      Shifted(code, p, dst, b, m, m2, x);
    } else {
      CopiedTail(code, p, dst, b, m, x);
    }
  }

  /** Two words. */
  lemma PlacedPair(code: seq<Word>, p: nat, m: Memory, dst: Word, x: nat)
    requires p + 1 < |code| && dst + 8 < 0x1_0000_0000
    ensures
      var u := dst - dst % 4;
      Write32(Write32(m, dst, code[p]), dst + 4, code[p + 1])(x) ==
        if u <= x < u + 8 then PayloadByte(code, p, x - u) else m(x)
  {
    hide Write32, PayloadByte;
    PlacedWord(code, p, 0, m, dst, x);
    PlacedWord(code, p, 1, Write32(m, dst, code[p]), dst + 4, x);
  }

  /** Fewer than eight bytes. */
  lemma CopiedTail(code: seq<Word>, p: nat, dst: Word, b: Word, m: Memory, x: nat)
    requires p + Payload(b) <= |code| && dst + b + 8 < 0x1_0000_0000 && b < 8
    ensures Copied(code, p, dst, b, m)(x) == Placed(code, p, dst, b, m, x)
  {
    hide Write32, PayloadByte, WriteBytes, Add, Copied;
    AddIsSum(dst, 4);
    CopiedUnfolds(code, p, dst, b, m);
    if b >= 4 {
      PlacedWord(code, p, 0, m, dst, x);
      PlacedBytes(code, p, 1, Write32(m, dst, code[p]), dst + 4, b - 4, x);
    } else if b > 0 {
      PlacedBytes(code, p, 0, m, dst, b, x);
    }
  }

  /** The k-th word of the parameters, written to a. */
  lemma PlacedWord(code: seq<Word>, p: nat, k: nat, m: Memory, a: Word, x: nat)
    requires p + k < |code|
    ensures
      var u := a - a % 4;
      Write32(m, a, code[p + k])(x) == if u <= x < u + 4 then PayloadByte(code, p, 4 * k + (x - u)) else m(x)
  {
    hide Write32;
    Writes(m, a, code[p + k]);
    var u := a - a % 4;
    if u <= x < u + 4 { Fourth(k, x - u); }
  }

  lemma Fourth(k: nat, o: nat)
    requires o < 4
    ensures (4 * k + o) / 4 == k && (4 * k + o) % 4 == o
  {
  }

  lemma {:induction false} PlacedBytes(code: seq<Word>, p: nat, k: nat, m: Memory, a: Word, n: nat, x: nat)
    requires p + k < |code| && n < 4 && a + 4 < 0x1_0000_0000
    ensures WriteBytes(m, a, code[p + k], 0, n)(x) ==
      if a <= x < a + n then PayloadByte(code, p, 4 * k + (x - a)) else m(x)
    decreases n
  {
    hide Add;
    if n > 0 {
      PlacedBytes(code, p, k, m, a, n - 1, x);
      AddIsSum(a, n - 1);
      Fourth(k, n - 1);
    }
  }

  /** Eight bytes further on. */
  lemma Shifted(code: seq<Word>, p: nat, dst: Word, b: Word, m: Memory, m2: Memory, x: nat)
    requires b >= 8 && p + Payload(b) <= |code| && dst + b + 8 < 0x1_0000_0000
    requires
      var u := dst - dst % 4;
      m2(x) == if u <= x < u + 8 then PayloadByte(code, p, x - u) else m(x)
    ensures Placed(code, p + 2, dst + 8, b - 8, m2, x) == Placed(code, p, dst, b, m, x)
  {
    hide PayloadByte;
    assert (dst + 8) % 4 == dst % 4 && (b - 8) / 4 * 4 == b / 4 * 4 - 8;
    var low, whole := dst - dst % 4, b / 4 * 4;
    if low + 8 <= x < low + whole { Ahead(code, p, x - low - 8); }
    else if dst + whole <= x < dst + b { Ahead(code, p, x - dst - 8); }
  }

  lemma Ahead(code: seq<Word>, p: nat, i: nat)
    requires p + 2 + i / 4 < |code|
    ensures PayloadByte(code, p + 2, i) == PayloadByte(code, p, i + 8)
  {
    assert (i + 8) / 4 == i / 4 + 2 && (i + 8) % 4 == i % 4;
  }

  /** Short of the end of the address space, E delivers exactly its b bytes whatever they are when the
      destination is a multiple of four or there are fewer than four, and never otherwise. */
  lemma DeliversIff(dst: Word, b: Word)
    requires dst + b + 8 < 0x1_0000_0000
    ensures
      (forall code: seq<Word>, p: nat, m: Memory :: p + Payload(b) <= |code| ==>
        Delivered(code, p, dst, b, m, Copied(code, p, dst, b, m)))
      <==> dst % 4 == 0 || b < 4
  {
    hide Copied, PayloadByte, Delivered;
    if dst % 4 == 0 || b < 4 {
      forall code: seq<Word>, p: nat, m: Memory | p + Payload(b) <= |code|
        ensures Delivered(code, p, dst, b, m, Copied(code, p, dst, b, m))
      {
        Delivers(code, p, dst, b, m);
      }
    } else {
      var code: seq<Word> := seq(Payload(b), _ => 0xFFFF_FFFF);
      var m: Memory := (x: nat) => 0;
      Misses(code, dst, b, m);
      assert !Delivered(code, 0, dst, b, m, Copied(code, 0, dst, b, m));
    }
  }

  lemma Delivers(code: seq<Word>, p: nat, dst: Word, b: Word, m: Memory)
    requires p + Payload(b) <= |code| && dst + b + 8 < 0x1_0000_0000 && (dst % 4 == 0 || b < 4)
    ensures Delivered(code, p, dst, b, m, Copied(code, p, dst, b, m))
  {
    hide Copied, PayloadByte;
    forall x: nat
      ensures Copied(code, p, dst, b, m)(x) == if dst <= x < dst + b then PayloadByte(code, p, x - dst) else m(x)
    {
      CopiedIs(code, p, dst, b, m, x);
    }
  }

  /** The byte before the last words' unaligned end is written by neither loop. */
  lemma Misses(code: seq<Word>, dst: Word, b: Word, m: Memory)
    requires |code| == Payload(b) && dst + b + 8 < 0x1_0000_0000 && dst % 4 != 0 && b >= 4
    requires forall k :: 0 <= k < |code| ==> code[k] == 0xFFFF_FFFF
    requires forall x: nat :: m(x) == 0
    ensures !Delivered(code, 0, dst, b, m, Copied(code, 0, dst, b, m))
  {
    hide Copied;
    var x: nat := dst + b / 4 * 4 - 1;
    CopiedIs(code, 0, dst, b, m, x);
    assert Copied(code, 0, dst, b, m)(x) == 0 && dst <= x < dst + b;
    assert (x - dst) / 4 < |code|;
    assert PayloadByte(code, 0, x - dst) == 0xFF;
  }

  /** Exactly the b bytes of the source are at the destination. */
  ghost predicate Moved(src: Word, dst: Word, b: Word, m: Memory, m': Memory) {
    && (forall x: nat :: dst <= x < dst + b ==> m'(x) % 0x100 == m(src + (x - dst)) % 0x100)
    && (forall x: nat :: x < dst || x >= dst + b ==> m'(x) == m(x))
  }

  /** Source and destination are multiples of four, or there is no whole word. */
  predicate Fitting(src: Word, dst: Word, b: Word) {
    b < 4 || (src % 4 == 0 && dst % 4 == 0)
  }

  /** m1 is m but for the word at u, which holds what the word at v held. */
  ghost predicate WordMoved(m: Memory, m1: Memory, u: nat, v: nat) {
    && (forall x: nat :: u <= x < u + 4 ==> m1(x) == m(v + (x - u)) % 0x100)
    && (forall x: nat :: x < u || x >= u + 4 ==> m1(x) == m(x))
  }

  /** The first word of a copy. */
  lemma FirstWord(src: Word, dst: Word, b: Word, m: Memory) returns (m1: Memory, u: nat, v: nat)
    requires b >= 4 && src + b < 0x1_0000_0000 && dst + b < 0x1_0000_0000
    ensures CopyBytes(src, dst, b, m) == CopyBytes(src + 4, dst + 4, b - 4, m1)
    ensures u == dst - dst % 4 && v == src - src % 4 && WordMoved(m, m1, u, v)
  {
    hide Write32, Read32, CopyBytes, Byte, Add, WordMoved;
    m1, u, v := Write32(m, dst, Read32(m, src)), dst - dst % 4, src - src % 4;
    AddIsSum(src, 4);
    AddIsSum(dst, 4);
    WordMoves(src, dst, m, m1);
    CopyUnfolds(src, dst, b, m);
  }

  lemma CopyUnfolds(src: Word, dst: Word, b: Word, m: Memory)
    ensures b >= 4 ==>
      CopyBytes(src, dst, b, m) == CopyBytes(Add(src, 4), Add(dst, 4), b - 4, Write32(m, dst, Read32(m, src)))
    ensures 0 < b < 4 ==>
      CopyBytes(src, dst, b, m) == CopyBytes(Add(src, 1), Add(dst, 1), b - 1, Write8(m, dst, Read8(m, src)))
    ensures b == 0 ==> CopyBytes(src, dst, b, m) == m
  {
    hide Write32, Read32, Add, Write8, Read8;
  }

  lemma WordMoves(src: Word, dst: Word, m: Memory, m1: Memory)
    requires m1 == Write32(m, dst, Read32(m, src))
    ensures WordMoved(m, m1, dst - dst % 4, src - src % 4)
  {
    hide Write32, Read32, Wrote16, Wrote8, Wrote32, WordMoved;
    var v: nat, w := src - src % 4, Read32(m, src);
    Writes(m, dst, w);
    BytesOfWord(m, src, v, w);
    WroteWord(m, m1, dst, v, w);
  }

  lemma WroteWord(m: Memory, m1: Memory, a: Word, v: nat, w: Word)
    requires Wrote32(m, m1, a, w)
    requires w % 0x100 == m(v) % 0x100 && w / 0x100 % 0x100 == m(v + 1) % 0x100
    requires w / 0x1_0000 % 0x100 == m(v + 2) % 0x100 && w / 0x100_0000 % 0x100 == m(v + 3) % 0x100
    ensures WordMoved(m, m1, a - a % 4, v)
  {
    hide WordMoved;
    FourMoved(m, m1, a - a % 4, v);
  }

  lemma FourMoved(m: Memory, m1: Memory, u: nat, v: nat)
    requires m1(u) == m(v) % 0x100 && m1(u + 1) == m(v + 1) % 0x100
    requires m1(u + 2) == m(v + 2) % 0x100 && m1(u + 3) == m(v + 3) % 0x100
    requires forall x: nat :: !(u <= x < u + 4) ==> m1(x) == m(x)
    ensures WordMoved(m, m1, u, v)
  {
    forall x: nat | u <= x < u + 4 ensures m1(x) == m(v + (x - u)) % 0x100 {
      assert x == u || x == u + 1 || x == u + 2 || x == u + 3;
    }
  }

  lemma BytesOfWord(m: Memory, a: Word, v: nat, w: Word)
    requires v == a - a % 4 && w == Read32(m, a)
    ensures w % 0x100 == m(v) % 0x100 && w / 0x100 % 0x100 == m(v + 1) % 0x100
    ensures w / 0x1_0000 % 0x100 == m(v + 2) % 0x100 && w / 0x100_0000 % 0x100 == m(v + 3) % 0x100
  {
    hide Read32;
    Read32Is(m, a);
    FourBytes(m(v) % 0x100, m(v + 1) % 0x100, m(v + 2) % 0x100, m(v + 3) % 0x100);
  }

  lemma FourBytes(p: nat, q: nat, r: nat, s: nat)
    requires p < 0x100 && q < 0x100 && r < 0x100 && s < 0x100
    ensures
      var v := p + q * 0x100 + r * 0x1_0000 + s * 0x100_0000;
      v % 0x100 == p && v / 0x100 % 0x100 == q && v / 0x1_0000 % 0x100 == r && v / 0x100_0000 % 0x100 == s
  {
    var v := p + q * 0x100 + r * 0x1_0000 + s * 0x100_0000;
    assert v / 0x100 == q + r * 0x100 + s * 0x1_0000;
    assert v / 0x1_0000 == r + s * 0x100;
    assert v / 0x100_0000 == s;
  }

  lemma FirstByte(src: Word, dst: Word, b: Word, m: Memory) returns (m1: Memory)
    requires 0 < b < 4 && src + b < 0x1_0000_0000 && dst + b < 0x1_0000_0000
    ensures CopyBytes(src, dst, b, m) == CopyBytes(src + 1, dst + 1, b - 1, m1)
    ensures forall x: nat :: m1(x) == if x == dst then m(src) % 0x100 else m(x)
  {
    hide CopyBytes, Add;
    m1 := Write8(m, dst, Read8(m, src));
    AddIsSum(src, 1);
    AddIsSum(dst, 1);
    CopyUnfolds(src, dst, b, m);
  }

  lemma SameRest(a: nat)
    ensures (a + 4) % 4 == a % 4
  {
  }

  /** Bytes outside the words and bytes of the destination stay. */
  lemma {:induction false} CopyKeeps(src: Word, dst: Word, b: Word, m: Memory, x: nat)
    requires src + b < 0x1_0000_0000 && dst + b < 0x1_0000_0000
    requires x >= dst + b || (if b < 4 then x < dst else x < dst - dst % 4)
    ensures CopyBytes(src, dst, b, m)(x) == m(x)
    decreases b
  {
    hide CopyBytes;
    if b >= 4 {
      var m1, u, v := FirstWord(src, dst, b, m);
      SameRest(dst);
      CopyKeeps(src + 4, dst + 4, b - 4, m1, x);
    } else if b > 0 {
      var m1 := FirstByte(src, dst, b, m);
      CopyKeeps(src + 1, dst + 1, b - 1, m1, x);
    } else {
      CopyUnfolds(src, dst, b, m);
    }
  }

  /** A source byte that is read before the copy reaches it arrives. */
  lemma {:induction false} CopyMoves(src: Word, dst: Word, b: Word, m: Memory, o: nat)
    requires src + b < 0x1_0000_0000 && dst + b < 0x1_0000_0000 && Fitting(src, dst, b)
    requires o < b && (dst <= src || src + o < dst)
    ensures CopyBytes(src, dst, b, m)(dst + o) % 0x100 == m(src + o) % 0x100
    decreases b
  {
    hide CopyBytes;
    if b >= 4 {
      var m1, u, v := FirstWord(src, dst, b, m);
      SameRest(dst);
      SameRest(src);
      if o < 4 {
        CopyKeeps(src + 4, dst + 4, b - 4, m1, dst + o);
      } else {
        assert m1(src + o) == m(src + o);
        CopyMoves(src + 4, dst + 4, b - 4, m1, o - 4);
      }
    } else {
      var m1 := FirstByte(src, dst, b, m);
      if o == 0 {
        CopyKeeps(src + 1, dst + 1, b - 1, m1, dst);
      } else {
        CopyMoves(src + 1, dst + 1, b - 1, m1, o - 1);
      }
    }
  }

  /** F moves exactly its b bytes, whatever memory holds, when whole words are aligned on both sides and the
      destination does not start inside the source. */
  lemma MovesIf(src: Word, dst: Word, b: Word, m: Memory)
    requires src + b < 0x1_0000_0000 && dst + b < 0x1_0000_0000
    requires Fitting(src, dst, b) && !(src < dst < src + b)
    ensures Moved(src, dst, b, m, CopyBytes(src, dst, b, m))
  {
    hide CopyBytes;
    var m' := CopyBytes(src, dst, b, m);
    forall x: nat | dst <= x < dst + b ensures m'(x) % 0x100 == m(src + (x - dst)) % 0x100 {
      CopyMoves(src, dst, b, m, x - dst);
    }
    forall x: nat | x < dst || x >= dst + b ensures m'(x) == m(x) { CopyKeeps(src, dst, b, m, x); }
  }

  /** Any two bytes can be told apart by a memory. */
  function OneAt(a: nat): Memory {
    (x: nat) => if x == a then 1 else 0
  }

  /** For different addresses that is the exact condition. */
  lemma MovesIff(src: Word, dst: Word, b: Word)
    requires src + b < 0x1_0000_0000 && dst + b < 0x1_0000_0000 && src != dst
    ensures (forall m: Memory :: Moved(src, dst, b, m, CopyBytes(src, dst, b, m))) <==>
      Fitting(src, dst, b) && !(src < dst < src + b)
  {
    hide CopyBytes, Moved;
    if !Fitting(src, dst, b) {
      if dst % 4 != 0 { LostEnd(src, dst, b); } else { WrongStart(src, dst, b); }
    } else if src < dst < src + b {
      Rereads(src, dst, b);
    } else {
      forall m: Memory ensures Moved(src, dst, b, m, CopyBytes(src, dst, b, m)) { MovesIf(src, dst, b, m); }
    }
  }

  /** Behind the aligned words and before the unaligned rest nothing is written. */
  lemma {:induction false} GapKeeps(src: Word, dst: Word, b: Word, m: Memory)
    requires b >= 4 && src + b < 0x1_0000_0000 && dst + b < 0x1_0000_0000 && dst % 4 != 0
    ensures CopyBytes(src, dst, b, m)(dst + b / 4 * 4 - 1) == m(dst + b / 4 * 4 - 1)
    decreases b
  {
    hide CopyBytes;
    var m1, u, v := FirstWord(src, dst, b, m);
    SameRest(dst);
    var x: nat := dst + b / 4 * 4 - 1;
    assert m1(x) == m(x);
    if b >= 8 {
      assert (b - 4) / 4 * 4 == b / 4 * 4 - 4;
      GapKeeps(src + 4, dst + 4, b - 4, m1);
    } else {
      CopyKeeps(src + 4, dst + 4, b - 4, m1, x);
    }
  }

  lemma LostEnd(src: Word, dst: Word, b: Word)
    requires b >= 4 && src + b < 0x1_0000_0000 && dst + b < 0x1_0000_0000 && dst % 4 != 0 && src != dst
    ensures exists m: Memory :: !Moved(src, dst, b, m, CopyBytes(src, dst, b, m))
  {
    hide CopyBytes;
    var o: nat := b / 4 * 4 - 1;
    var m := OneAt(src + o);
    GapKeeps(src, dst, b, m);
    assert CopyBytes(src, dst, b, m)(dst + o) == 0 && m(src + ((dst + o) - dst)) == 1;
    assert !Moved(src, dst, b, m, CopyBytes(src, dst, b, m));
  }

  /** The first word is read from the aligned address. */
  lemma WrongStart(src: Word, dst: Word, b: Word)
    requires b >= 4 && src + b < 0x1_0000_0000 && dst + b < 0x1_0000_0000 && dst % 4 == 0 && src % 4 != 0
    ensures exists m: Memory :: !Moved(src, dst, b, m, CopyBytes(src, dst, b, m))
  {
    hide CopyBytes, Moved;
    var m := OneAt(src);
    StartsBelow(src, dst, b, m);
    NotMoved(src, dst, b, m, CopyBytes(src, dst, b, m), dst);
  }

  lemma StartsBelow(src: Word, dst: Word, b: Word, m: Memory)
    requires b >= 4 && src + b < 0x1_0000_0000 && dst + b < 0x1_0000_0000 && dst % 4 == 0 && src % 4 != 0
    requires forall x: nat :: x < src ==> m(x) == 0
    ensures CopyBytes(src, dst, b, m)(dst) == 0
  {
    hide CopyBytes;
    var m1, u, v := FirstWord(src, dst, b, m);
    SameRest(dst);
    assert v < src && m1(dst) == m(v) % 0x100 == 0;
    CopyKeeps(src + 4, dst + 4, b - 4, m1, dst);
  }

  lemma NotMoved(src: Word, dst: Word, b: Word, m: Memory, m': Memory, x: nat)
    requires dst <= x < dst + b && m'(x) % 0x100 != m(src + (x - dst)) % 0x100
    ensures !Moved(src, dst, b, m, m')
  {
  }

  /** What was read first is read again where the copy has passed. */
  lemma Passed(src: Word, dst: Word, b: Word, m: Memory)
    requires src + b < 0x1_0000_0000 && dst + b < 0x1_0000_0000 && Fitting(src, dst, b) && src < dst < src + b
    ensures CopyBytes(src, dst, b, m)(dst + (dst - src)) % 0x100 == m(src) % 0x100
  {
    hide CopyBytes;
    var gap := dst - src;
    if b >= 4 {
      var m1, u, v := FirstWord(src, dst, b, m);
      SameRest(dst);
      SameRest(src);
      GapOfFour(src, dst);
      assert m1(dst) == m(src) % 0x100;
      CopyMoves(src + 4, dst + 4, b - 4, m1, gap - 4);
    } else {
      var m1 := FirstByte(src, dst, b, m);
      assert m1(dst) == m(src) % 0x100;
      CopyMoves(src + 1, dst + 1, b - 1, m1, gap - 1);
    }
  }

  lemma GapOfFour(src: nat, dst: nat)
    requires src % 4 == 0 && dst % 4 == 0 && src < dst
    ensures dst - src >= 4
  {
  }

  lemma Rereads(src: Word, dst: Word, b: Word)
    requires src + b < 0x1_0000_0000 && dst + b < 0x1_0000_0000 && Fitting(src, dst, b) && src < dst < src + b
    ensures exists m: Memory :: !Moved(src, dst, b, m, CopyBytes(src, dst, b, m))
  {
    hide CopyBytes;
    var m := OneAt(src);
    var gap := dst - src;
    Passed(src, dst, b, m);
    assert CopyBytes(src, dst, b, m)(dst + gap) % 0x100 == 1 && m(src + ((dst + gap) - dst)) == 0;
    assert !Moved(src, dst, b, m, CopyBytes(src, dst, b, m));
  }
}
