/**
  The JIT drops updates of condition flags that nobody reads.  While a block is decoded, every
  instruction that reads flags floods its demand backwards over the instructions before it; an
  instruction that is sure to write a demanded flag stops the flood for that flag.
 */
module FlagLiveness {

  datatype Flag = N | Z | C | V

  const AllFlags: set<Flag> := {N, Z, C, V}

  lemma EveryFlag(s: set<Flag>)
    ensures s <= AllFlags
  {
    forall f | f in s ensures f in AllFlags {
      match f case N => case Z => case C => case V =>
    }
  }

  type World = int
  type Flags = Flag -> bool

  /** An abstract guest instruction: what it reads and writes among the flags, how it is run, and
      an arbitrary meaning that respects those sets. */
  datatype Instr = Instr(
    readFlags: set<Flag>,        // Info.ReadFlags
    definite: set<Flag>,       // low half of Info.WriteFlags
    maybe: set<Flag>,          // high half of Info.WriteFlags
    compiled: bool,            // JITCompiler.CanCompile
    follows: bool,             // BranchFlags has branch_FollowCondTaken or branch_FollowCondNotTaken
    writes: (World, map<Flag, bool>, Flag) -> bool,
    value: (World, map<Flag, bool>, Flag) -> bool,
    world: (World, map<Flag, bool>) -> World
  )

  // ----- The dataflow that the floods compute -----

  /** The flags that must be right before the instruction runs. */
  function Demand(ins: Instr): set<Flag> {
    if !ins.compiled || ins.follows then AllFlags else ins.readFlags
  }

  function Written(ins: Instr): set<Flag> {
    ins.definite + ins.maybe
  }

  /** Flags whose value before instruction i can still be observed, when `out` is observed at the end. */
  function Live(block: seq<Instr>, i: nat, out: set<Flag>): set<Flag>
    requires i <= |block|
    decreases |block| - i
  {
    if i == |block| then out
    else Demand(block[i]) + (Live(block, i + 1, out) - block[i].definite)
  }

  /** A flag is live exactly when someone later demands it and no one in between is sure to write it. */
  ghost predicate Observed(block: seq<Instr>, i: nat, out: set<Flag>, f: Flag)
    requires i <= |block|
  {
    exists k :: i <= k <= |block|
      && f in (if k == |block| then out else Demand(block[k]))
      && Kept(block, i, k, f)
  }

  ghost predicate Kept(block: seq<Instr>, i: nat, k: nat, f: Flag)
    requires i <= k <= |block|
  {
    forall j :: i <= j < k ==> f !in block[j].definite
  }

  lemma {:induction false} LiveIsObserved(block: seq<Instr>, i: nat, out: set<Flag>, f: Flag)
    requires i <= |block|
    ensures f in Live(block, i, out) <==> Observed(block, i, out, f)
    decreases |block| - i
  {
    if i == |block| {
      if f in out { assert Kept(block, i, i, f); }
    } else {
      LiveIsObserved(block, i + 1, out, f);
      if f in Demand(block[i]) { assert Kept(block, i, i, f); }
      if f in Live(block, i + 1, out) - block[i].definite {
        var k :| i + 1 <= k <= |block| && f in (if k == |block| then out else Demand(block[k]))
          && Kept(block, i + 1, k, f);
        assert Kept(block, i, k, f);
      }
      if Observed(block, i, out, f) {
        var k :| i <= k <= |block| && f in (if k == |block| then out else Demand(block[k])) && Kept(block, i, k, f);
        if k > i { assert Kept(block, i + 1, k, f); }
      }
    }
  }

  // ----- FloodFillSetFlags and its callers -----

  /** The part of `flags` that still has to be provided by instruction j when the flood has come
      down from instruction start. */
  function Reaching(block: seq<Instr>, j: int, start: int, flags: set<Flag>): (reaching: set<Flag>)
    requires -1 <= j <= start < |block|
    ensures reaching <= flags
    decreases start - j
  {
    if j == start then flags else Reaching(block, j + 1, start, flags) - block[j + 1].definite
  }

  lemma {:induction false} ReachingNone(block: seq<Instr>, j: int, i: int, start: int, flags: set<Flag>)
    requires -1 <= i <= j <= start < |block| && Reaching(block, j, start, flags) == {}
    ensures Reaching(block, i, start, flags) == {}
    decreases j - i
  {
    if i < j { ReachingNone(block, j, i + 1, start, flags); }
  }

  /** The set gains the demanded flags that the instruction writes. */
  function Gained(was: set<Flag>, ins: Instr, demanded: set<Flag>): set<Flag> {
    was + Written(ins) * demanded
  }

  /** What one flood does: instruction j gains the demanded flags it writes that no later
      instruction up to start is sure to write. */
  ghost predicate Flooded(block: seq<Instr>, was: seq<set<Flag>>, now: seq<set<Flag>>, start: int, flags: set<Flag>)
    requires -1 <= start < |block| <= |was|
  {
    && |now| == |was|
    && (forall j :: 0 <= j <= start ==> now[j] == Gained(was[j], block[j], Reaching(block, j, start, flags)))
    && (forall j :: start < j < |was| ==> now[j] == was[j])
  }

  /** The loop body of FloodFillSetFlags, for one instruction. */
  method FloodStep(ins: Instr, was: set<Flag>, rest: set<Flag>) returns (now: set<Flag>, left: set<Flag>, matched: bool)
    ensures now == Gained(was, ins, rest) && left == rest - ins.definite && (matched <==> ins.definite * rest != {})
  {
    now, left := was, rest;
    var match_ := ins.definite * rest;
    var matchMaybe := ins.maybe * rest;
    FloodOne(was, ins, rest);
    matched := match_ != {};
    if !matched { Disjoint(rest, ins.definite); }
    if matchMaybe != {} { now := now + matchMaybe; }
    if matched {
      now := now + match_;
      left := left - match_;
    }
  }

  lemma NothingGained(was: set<Flag>, ins: Instr)
    ensures Gained(was, ins, {}) == was
  {
  }

  lemma ReachingStep(block: seq<Instr>, j: int, start: int, flags: set<Flag>)
    requires 0 <= j <= start < |block|
    ensures Reaching(block, j - 1, start, flags) == Reaching(block, j, start, flags) - block[j].definite
  {
  }

  /** The flood has reached down to instruction j, which is still to be done. */
  ghost predicate FloodedTo(block: seq<Instr>, was: seq<set<Flag>>, now: seq<set<Flag>>, start: int, flags: set<Flag>,
                            j: int)
    requires -1 <= j <= start < |block| <= |was|
  {
    && |now| == |was|
    && (forall k :: j < k <= start ==> now[k] == Gained(was[k], block[k], Reaching(block, k, start, flags)))
    && (forall k :: 0 <= k < |was| && (k <= j || k > start) ==> now[k] == was[k])
  }

  lemma FloodNext(block: seq<Instr>, was: seq<set<Flag>>, now: seq<set<Flag>>, start: int, flags: set<Flag>, j: int)
    requires 0 <= j <= start < |block| <= |was| && FloodedTo(block, was, now, start, flags, j)
    ensures |now| == |was| && now[j] == was[j]
    ensures
      var gained := Gained(now[j], block[j], Reaching(block, j, start, flags));
      FloodedTo(block, was, now[j := gained], start, flags, j - 1)
  {
    hide Gained, Reaching;
  }

  /** Once nothing is left to provide, the rest of the flood would change nothing. */
  lemma FloodEnds(block: seq<Instr>, was: seq<set<Flag>>, now: seq<set<Flag>>, start: int, flags: set<Flag>, j: int)
    requires -1 <= j <= start < |block| <= |was| && FloodedTo(block, was, now, start, flags, j)
    requires j == -1 || Reaching(block, j, start, flags) == {}
    ensures Flooded(block, was, now, start, flags)
  {
    forall k | 0 <= k <= j ensures now[k] == Gained(was[k], block[k], Reaching(block, k, start, flags)) {
      ReachingNone(block, j, k, start, flags);
      NothingGained(was[k], block[k]);
    }
  }

  method FloodFillSetFlags(block: seq<Instr>, setFlags: array<set<Flag>>, start: int, flags: set<Flag>)
    requires setFlags.Length >= |block| && -1 <= start < |block|
    modifies setFlags
    ensures Flooded(block, old(setFlags[..]), setFlags[..], start, flags)
  {
    ghost var was := setFlags[..];
    var j, rest := start, flags;
    while j >= 0
      invariant -1 <= j <= start && rest == Reaching(block, j, start, flags)
      invariant FloodedTo(block, was, setFlags[..], start, flags, j)
    {
      hide Reaching, Gained, FloodedTo, Flooded;
      FloodNext(block, was, setFlags[..], start, flags, j);
      ReachingStep(block, j, start, flags);
      ghost var before := setFlags[..];
      var matched;
      setFlags[j], rest, matched := FloodStep(block[j], setFlags[j], rest);
      assert setFlags[..] == before[j := setFlags[j]];
      j := j - 1;
      if matched && rest == {} {
        FloodEnds(block, was, setFlags[..], start, flags, j);
        return;
      }
    }
    FloodEnds(block, was, setFlags[..], start, flags, j);
  }

  lemma Disjoint(rest: set<Flag>, d: set<Flag>)
    requires d * rest == {}
    ensures rest - d == rest
  {
    forall f | f in rest && f in d ensures f in d * rest { }
  }

  lemma FloodOne(s: set<Flag>, ins: Instr, rest: set<Flag>)
    ensures s + ins.maybe * rest + ins.definite * rest == s + Written(ins) * rest
    ensures ins.maybe * rest == {} ==> s + ins.definite * rest == s + Written(ins) * rest
    ensures ins.definite * rest == {} ==> s + ins.maybe * rest == s + Written(ins) * rest
    ensures rest - ins.definite * rest == rest - ins.definite
    ensures Written(ins) * {} == {}
  {
  }

  /** Extending the block by one instruction adds exactly its flood. */
  lemma {:induction false} LiveGrows(block: seq<Instr>, i: nat, out: set<Flag>)
    requires i <= |block|
    ensures Live(block, i, out) == Live(block, i, {}) + Reaching(block, i - 1, |block| - 1, out)
    decreases |block| - i
  {
    if i < |block| { LiveGrows(block, i + 1, out); }
  }

  lemma {:induction false} LiveSnoc(block: seq<Instr>, ins: Instr, i: nat)
    requires i <= |block|
    ensures Live(block + [ins], i, {}) == Live(block, i, Demand(ins))
    decreases |block| - i
  {
    if i < |block| {
      LiveSnoc(block, ins, i + 1);
      assert (block + [ins])[i] == block[i];
    } else {
      assert (block + [ins])[i] == ins;
      assert Live(block + [ins], i + 1, {}) == {};
    }
  }

  ghost predicate Exact(block: seq<Instr>, setFlags: seq<set<Flag>>, out: set<Flag>) {
    && |block| <= |setFlags|
    && forall j :: 0 <= j < |block| ==> setFlags[j] == Written(block[j]) * Live(block, j + 1, out)
  }

  lemma FloodForReader(block: seq<Instr>, ins: Instr, was: seq<set<Flag>>, now: seq<set<Flag>>)
    requires Exact(block, was, {}) && |block| < |was| && was[|block|] == {}
    requires Flooded(block, was, now, |block| - 1, Demand(ins))
    ensures Exact(block + [ins], now, {})
  {
    FloodForEnd(block, was, now, Demand(ins));
    assert now[|block|] == {};
    ExactSnoc(block, ins, now);
  }

  lemma ExactSnoc(block: seq<Instr>, ins: Instr, setFlags: seq<set<Flag>>)
    requires Exact(block, setFlags, Demand(ins)) && |block| < |setFlags| && setFlags[|block|] == {}
    ensures Exact(block + [ins], setFlags, {})
  {
    var next := block + [ins];
    forall j | 0 <= j < |next| ensures setFlags[j] == Written(next[j]) * Live(next, j + 1, {}) {
      if j < |block| { LiveSnoc(block, ins, j + 1); }
    }
  }

  lemma FloodForEnd(block: seq<Instr>, was: seq<set<Flag>>, now: seq<set<Flag>>, out: set<Flag>)
    requires Exact(block, was, {}) && Flooded(block, was, now, |block| - 1, out)
    ensures Exact(block, now, out)
  {
    forall j | 0 <= j < |block| ensures now[j] == Written(block[j]) * Live(block, j + 1, out) {
      LiveGrows(block, j + 1, out);
    }
  }

  lemma NoFlood(block: seq<Instr>, was: seq<set<Flag>>)
    requires |block| <= |was|
    ensures Flooded(block, was, was, |block| - 1, {})
  {
    forall j | 0 <= j < |block|
      ensures was[j] == was[j] + Written(block[j]) * Reaching(block, j, |block| - 1, {})
    {
      ReachingEmpty(block, j, |block| - 1);
    }
  }

  /** All floods of CompileBlock: one per reader while decoding, a last one for the block's end.
      The result is exactly the written flags that are live afterwards: sound, and nothing more. */
  method ComputeSetFlags(block: seq<Instr>) returns (setFlags: seq<set<Flag>>)
    ensures |setFlags| == |block| && Exact(block, setFlags, AllFlags)
  {
    hide Exact, Flooded;
    var a := new set<Flag>[|block|](_ => {});
    NothingYet(a[..]);
    assert block[..0] == [] && block[..|block|] == block;
    for i := 0 to |block|
      invariant forall k :: i <= k < |block| ==> a[k] == {}
      invariant Exact(block[..i], a[..], {})
    {
      ghost var was := a[..];
      assert block[..i + 1] == block[..i] + [block[i]];
      var secondary := !block[i].compiled || block[i].follows;
      if block[i].readFlags != {} || secondary {
        FloodFillSetFlags(block[..i], a, i - 1, if secondary then AllFlags else block[i].readFlags);
        FloodedAbove(block[..i], was, a[..], i - 1, Demand(block[i]));
      } else {
        NoFlood(block[..i], was);
      }
      FloodForReader(block[..i], block[i], was, a[..]);
    }
    ghost var was := a[..];
    FloodFillSetFlags(block, a, |block| - 1, AllFlags);
    FloodForEnd(block, was, a[..], AllFlags);
    setFlags := a[..];
  }

  lemma FloodedAbove(block: seq<Instr>, was: seq<set<Flag>>, now: seq<set<Flag>>, start: int, flags: set<Flag>)
    requires -1 <= start < |block| <= |was| && Flooded(block, was, now, start, flags)
    ensures |now| == |was| && forall j :: start < j < |was| ==> now[j] == was[j]
  {
  }

  lemma NothingYet(setFlags: seq<set<Flag>>)
    ensures Exact([], setFlags, {})
  {
  }

  lemma {:induction false} ReachingEmpty(block: seq<Instr>, j: int, start: int)
    requires -1 <= j <= start < |block|
    ensures Reaching(block, j, start, {}) == {}
  {
  }

  // ----- What dropping the other updates means -----

  function Restrict(on: set<Flag>, flags: Flags): map<Flag, bool> {
    map f: Flag | f in on :: flags(f)
  }

  /** Compiled code looks only at the flags the instruction reads, the interpreter at all of them. */
  function Seen(ins: Instr, flags: Flags): map<Flag, bool> {
    Restrict(if ins.compiled then ins.readFlags else AllFlags, flags)
  }

  function StepFlags(ins: Instr, w: World, flags: Flags, update: set<Flag>): Flags {
    var seen := Seen(ins, flags);
    f => if f in update && (f in ins.definite || (f in ins.maybe && ins.writes(w, seen, f)))
         then ins.value(w, seen, f) else flags(f)
  }

  datatype State = State(world: World, flags: Flags)

  function Step(ins: Instr, s: State, update: set<Flag>): State {
    State(ins.world(s.world, Seen(ins, s.flags)), StepFlags(ins, s.world, s.flags, update))
  }

  /** The first n instructions, every flag update done. */
  function FullRun(block: seq<Instr>, n: nat, s: State): State
    requires n <= |block|
  {
    if n == 0 then s else Step(block[n - 1], FullRun(block, n - 1, s), AllFlags)
  }

  /** The first n instructions; compiled instruction j updates only the flags in setFlags[j], an
      interpreted one updates everything it writes. */
  function LazyRun(block: seq<Instr>, setFlags: seq<set<Flag>>, n: nat, s: State): State
    requires n <= |block| <= |setFlags|
  {
    if n == 0 then s
    else Step(block[n - 1], LazyRun(block, setFlags, n - 1, s),
              if block[n - 1].compiled then setFlags[n - 1] else AllFlags)
  }

  ghost predicate Agree(a: Flags, b: Flags, on: set<Flag>) {
    forall f :: f in on ==> a(f) == b(f)
  }

  lemma RestrictAgrees(a: Flags, b: Flags, on: set<Flag>)
    requires Agree(a, b, on)
    ensures Restrict(on, a) == Restrict(on, b)
  {
  }

  lemma StepAgrees(ins: Instr, update: set<Flag>, a: State, b: State, out: set<Flag>)
    requires a.world == b.world && Agree(a.flags, b.flags, Demand(ins) + (out - ins.definite))
    requires Written(ins) * out <= update
    ensures Seen(ins, a.flags) == Seen(ins, b.flags)
    ensures Step(ins, a, AllFlags).world == Step(ins, b, update).world
    ensures Agree(Step(ins, a, AllFlags).flags, Step(ins, b, update).flags, out)
  {
    var sight := if ins.compiled then ins.readFlags else AllFlags;
    EveryFlag(sight + out);
    assert Agree(a.flags, b.flags, sight);
    RestrictAgrees(a.flags, b.flags, sight);
    forall f | f in out
      ensures StepFlags(ins, a.world, a.flags, AllFlags)(f) == StepFlags(ins, b.world, b.flags, update)(f)
    {
      assert f in sight + out;
      assert f in Written(ins) ==> f in Written(ins) * out;
    }
  }

  /** Before instruction n the lazy run has the full run's world, and its flags wherever it matters. */
  lemma {:induction false} LazyAgrees(block: seq<Instr>, setFlags: seq<set<Flag>>, n: nat, s: State)
    requires n <= |block| && Exact(block, setFlags, AllFlags)
    ensures FullRun(block, n, s).world == LazyRun(block, setFlags, n, s).world
    ensures Agree(FullRun(block, n, s).flags, LazyRun(block, setFlags, n, s).flags, Live(block, n, AllFlags))
  {
    hide Step, Agree;
    if n == 0 {
      Reflexive(s.flags, Live(block, 0, AllFlags));
    } else {
      LazyAgrees(block, setFlags, n - 1, s);
      var ins, out := block[n - 1], Live(block, n, AllFlags);
      EveryFlag(Written(ins) * out);
      StepAgrees(ins, if ins.compiled then setFlags[n - 1] else AllFlags,
                 FullRun(block, n - 1, s), LazyRun(block, setFlags, n - 1, s), out);
    }
  }

  lemma Reflexive(a: Flags, on: set<Flag>)
    ensures Agree(a, a, on)
  {
  }

  /** What instruction n sees, and all the flags if it is interpreted or a followed branch. */
  ghost predicate SameView(block: seq<Instr>, setFlags: seq<set<Flag>>, n: nat, s: State)
    requires n < |block| == |setFlags|
  {
    var full, fast := FullRun(block, n, s), LazyRun(block, setFlags, n, s);
    && full.world == fast.world
    && Seen(block[n], full.flags) == Seen(block[n], fast.flags)
    && (!block[n].compiled || block[n].follows ==> Agree(full.flags, fast.flags, AllFlags))
  }

  /** The main result, for every block, initial state and mix of definite and maybe writers: with
      the computed SetFlags every instruction sees the flags and the world it would see under full
      execution; all four flags are right before every interpreted instruction, at every followed
      conditional branch and at the end of the block. */
  lemma DroppedUpdatesAreUnobservable(block: seq<Instr>, setFlags: seq<set<Flag>>, s: State)
    requires |setFlags| == |block| && Exact(block, setFlags, AllFlags)
    ensures forall n :: 0 <= n < |block| ==> SameView(block, setFlags, n, s)
    ensures FullRun(block, |block|, s).world == LazyRun(block, setFlags, |block|, s).world
    ensures Agree(FullRun(block, |block|, s).flags, LazyRun(block, setFlags, |block|, s).flags, AllFlags)
  {
    forall n | 0 <= n < |block| ensures SameView(block, setFlags, n, s) {
      LazyAgrees(block, setFlags, n, s);
      var full, fast, out := FullRun(block, n, s), LazyRun(block, setFlags, n, s), Live(block, n + 1, AllFlags);
      EveryFlag(Written(block[n]) * out);
      StepAgrees(block[n], AllFlags, full, fast, out);
    }
    LazyAgrees(block, setFlags, |block|, s);
  }

  // ----- Conditional instructions -----

  function ConditionTable(code: nat): bv16
    requires code < 16
  {
    [0xF0F0, 0x0F0F, 0xCCCC, 0x3333, 0xFF00, 0x00FF, 0xAAAA, 0x5555,
     0x0C0C, 0xF3F3, 0xAA55, 0x55AA, 0x0A05, 0xF5FA, 0xFFFF, 0x0000][code]
  }

  /** The four flags as the top nibble of CPSR. */
  function Nibble(flags: Flags): (n: bv4) {
    (if flags(N) then 8 else 0) | (if flags(Z) then 4 else 0)
    | (if flags(C) then 2 else 0) | (if flags(V) then 1 else 0)
  }

  function CheckCondition(code: nat, flags: Flags): bool
    requires code < 16
  {
    code == 0xE || ConditionTable(code) & (1 << Nibble(flags)) != 0
  }

  const FlagsReadPerCond: seq<set<Flag>> := [{Z}, {C}, {N}, {V}, {C, Z}, {N, V}, {Z, N, V}]

  /** What the architecture says a condition code means. */
  predicate Holds(code: nat, flags: Flags)
    requires code < 16
  {
    match code
    case 0 => flags(Z)
    case 1 => !flags(Z)
    case 2 => flags(C)
    case 3 => !flags(C)
    case 4 => flags(N)
    case 5 => !flags(N)
    case 6 => flags(V)
    case 7 => !flags(V)
    case 8 => flags(C) && !flags(Z)
    case 9 => !flags(C) || flags(Z)
    case 10 => flags(N) == flags(V)
    case 11 => flags(N) != flags(V)
    case 12 => !flags(Z) && flags(N) == flags(V)
    case 13 => flags(Z) || flags(N) != flags(V)
    case 14 => true
    case _ => false
  }

  lemma ConditionTableIsRight(code: nat, flags: Flags)
    requires code < 16
    ensures CheckCondition(code, flags) == Holds(code, flags)
  {
    var n, z, c, v := flags(N), flags(Z), flags(C), flags(V);
    if n {
      if z {
        if c { if v {} else {} } else { if v {} else {} }
      } else {
        if c { if v {} else {} } else { if v {} else {} }
      }
    }
  }

  /** A condition looks only at the flags listed for it. */
  lemma ConditionReads(code: nat, a: Flags, b: Flags)
    requires code < 14 && Agree(a, b, FlagsReadPerCond[code / 2])
    ensures Holds(code, a) == Holds(code, b)
  {
  }

  function Sight(ins: Instr): set<Flag> {
    if ins.compiled then ins.readFlags else AllFlags
  }

  function Look(seen: map<Flag, bool>): Flags {
    f => f in seen && seen[f]
  }

  /** Decode's last step for an instruction with a real condition: every flag it was sure to write
      becomes one it may write, and it reads the flags of its condition as well. */
  function MakeConditional(ins: Instr, code: nat): Instr
    requires code < 14
  {
    var sight := Sight(ins);
    ins.(readFlags := ins.readFlags + FlagsReadPerCond[code / 2],
         definite := {},
         maybe := ins.maybe + ins.definite,
         writes := (w, seen, f) =>
           Holds(code, Look(seen)) && (f in ins.definite || ins.writes(w, Restrict(sight, Look(seen)), f)),
         value := (w, seen, f) => ins.value(w, Restrict(sight, Look(seen)), f))
  }

  /** The sets that MakeConditional declares are right: the conditional instruction does what the
      plain one does when the condition table says so, and leaves the flags alone otherwise. */
  lemma ConditionalMeaning(ins: Instr, code: nat, w: World, flags: Flags, f: Flag)
    requires code < 14
    ensures StepFlags(MakeConditional(ins, code), w, flags, AllFlags)(f)
         == if CheckCondition(code, flags) then StepFlags(ins, w, flags, AllFlags)(f) else flags(f)
  {
    hide CheckCondition;
    var cond := MakeConditional(ins, code);
    var seen := Seen(cond, flags);
    ConditionTableIsRight(code, flags);
    EveryFlag({f} + Sight(ins) + FlagsReadPerCond[code / 2]);
    assert Agree(Look(seen), flags, Sight(ins) + FlagsReadPerCond[code / 2]);
    ConditionReads(code, Look(seen), flags);
    assert Restrict(Sight(ins), Look(seen)) == Seen(ins, flags);
    assert f in {f} + Sight(ins) + FlagsReadPerCond[code / 2];
  }
}
