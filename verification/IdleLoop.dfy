/**
  The JIT's search for idle loops: a loop body is idle when no iteration depends on the one before.
  The test looks at the register sets of the instructions and at one mark for stores.  What an iteration
  can depend on is more than that: condition flags, registers that a predicated instruction may leave
  alone, and memory behind an instruction that loads and stores.
 */
module IdleLoops {
  import Liveness = FlagLiveness

  const PC: nat := 15

  /** What the decoder says about an instruction. */
  datatype Info = Info(
    src: set<nat>,
    dst: set<nat>,
    readFlags: set<Liveness.Flag>,
    definite: set<Liveness.Flag>,    // low half of WriteFlags
    maybe: set<Liveness.Flag>,       // high half of WriteFlags
    predicated: bool,                // an ARM condition below 0xE
    loads: bool,                     // A_LoadMem or T_LoadMem
    stores: bool,                    // A_WriteMem or T_WriteMem
    reacts: bool,                    // a load of a device register that changes by being read
    system: bool                     // one of the kinds from ak_MSR_IMM to ak_MRC
  )

  /** SpecialKind is special_WriteMem: the decoder marks a store, and then a load over it. */
  predicate MarkedStore(info: Info) {
    info.stores && !info.loads
  }

  /** The instruction can leave memory different. */
  predicate Changes(info: Info) {
    info.stores || (info.loads && info.reacts)
  }

  predicate Branches(info: Info) {
    PC in info.dst
  }

  // ----- The test -----

  /** Registers the first n instructions write. */
  function Written(body: seq<Info>, n: nat): set<nat>
    requires n <= |body|
  {
    if n == 0 then {} else Written(body, n - 1) + (body[n - 1].dst - {PC})
  }

  /** Registers that one of the first n instructions reads and none before it names as written. */
  function Incoming(body: seq<Info>, n: nat): set<nat>
    requires n <= |body|
  {
    if n == 0 then {} else Incoming(body, n - 1) + ((body[n - 1].src - {PC}) - Written(body, n - 1))
  }

  ghost predicate Harmless(body: seq<Info>, n: nat)
    requires n <= |body|
  {
    forall i :: 0 <= i < n ==>
      !MarkedStore(body[i]) && !body[i].system && (i < |body| - 1 ==> !Branches(body[i]))
  }

  ghost predicate Accepted(body: seq<Info>) {
    Harmless(body, |body|) && Incoming(body, |body|) !! Written(body, |body|)
  }

  /** The loop is accepted exactly when no instruction is marked as a store or touches a status or
      coprocessor register, only the last one branches, and no register is both read with its value
      from before the iteration and written. */
  method IsIdleLoop(body: seq<Info>) returns (idle: bool)
    ensures idle <==> Accepted(body)
  {
    var regsWrittenTo, regsDisallowedToWrite := {}, {};
    for i := 0 to |body|
      invariant regsWrittenTo == Written(body, i) && regsDisallowedToWrite == Incoming(body, i)
      invariant Harmless(body, i) && regsDisallowedToWrite !! regsWrittenTo
    {
      if MarkedStore(body[i]) || body[i].system || (i < |body| - 1 && Branches(body[i])) {
        return false;
      }
      var srcRegs, dstRegs := body[i].src - {PC}, body[i].dst - {PC};
      regsDisallowedToWrite := regsDisallowedToWrite + (srcRegs - regsWrittenTo);
      if dstRegs * regsDisallowedToWrite != {} {
        Grows(body, i + 1, |body|);
        return false;
      }
      regsWrittenTo := regsWrittenTo + dstRegs;
    }
    return true;
  }

  lemma {:induction false} Grows(body: seq<Info>, i: nat, n: nat)
    requires i <= n <= |body|
    ensures Written(body, i) <= Written(body, n) && Incoming(body, i) <= Incoming(body, n)
  {
    if i < n { Grows(body, i, n - 1); }
  }

  // ----- What a loop does -----

  /** The places that carry values from one instruction to another. */
  datatype Place = Reg(index: nat) | Flag(flag: Liveness.Flag) | Mem

  /** What a place holds: a register or flag a number, memory a number for every address. */
  datatype Value = Word(word: int) | Cells(at: int -> int)

  type State = Place -> Value
  type View = map<Place, Value>

  /** An arbitrary meaning: from the places it reads, an instruction decides which of the places it may
      write it does write, and what. */
  datatype Meaning = Meaning(writes: (View, Place) -> bool, value: (View, Place) -> Value)

  predicate Reads(info: Info, p: Place) {
    match p
    case Reg(r) => r in info.src && r != PC
    case Flag(f) => f in info.readFlags
    case Mem => info.loads
  }

  /** No instruction is sure to replace all of memory. */
  predicate SureOf(info: Info, p: Place) {
    match p
    case Reg(r) => r in info.dst && r != PC && !info.predicated
    case Flag(f) => f in info.definite
    case Mem => false
  }

  predicate MayWrite(info: Info, p: Place) {
    match p
    case Reg(r) => r in info.dst && r != PC
    case Flag(f) => f in info.definite + info.maybe
    case Mem => Changes(info)
  }

  function Sees(info: Info, s: State): View {
    map p | p in (set r | r in info.src :: Reg(r)) + (set f | f in info.readFlags :: Flag(f)) + {Mem} && Reads(info, p)
      :: s(p)
  }

  predicate Stores(info: Info, m: Meaning, view: View, p: Place) {
    SureOf(info, p) || (MayWrite(info, p) && m.writes(view, p))
  }

  /** One instruction, while nobody else touches memory. */
  function Step(info: Info, m: Meaning, s: State): State {
    var view := Sees(info, s);
    (p: Place) => if Stores(info, m, view, p) then m.value(view, p) else s(p)
  }

  /** The first n instructions. */
  function Run(body: seq<Info>, ms: seq<Meaning>, s: State, n: nat): State
    requires n <= |body| == |ms|
  {
    if n == 0 then s else Step(body[n - 1], ms[n - 1], Run(body, ms, s, n - 1))
  }

  function Iterate(body: seq<Info>, ms: seq<Meaning>, s: State, n: nat): State
    requires |body| == |ms|
  {
    if n == 0 then s else Run(body, ms, Iterate(body, ms, s, n - 1), |body|)
  }

  ghost predicate Same(a: State, b: State) {
    forall p :: a(p) == b(p)
  }

  /** What the instructions see in an iteration that starts in s. */
  function Trace(body: seq<Info>, ms: seq<Meaning>, s: State): seq<View>
    requires |body| == |ms|
  {
    seq(|body|, i requires 0 <= i < |body| => Sees(body[i], Run(body, ms, s, i)))
  }

  /** Whatever the instructions mean, within their declared places, and whatever the first iteration starts
      with, all iterations see the same and leave the same. */
  ghost predicate AlwaysIdle(body: seq<Info>) {
    forall ms: seq<Meaning>, s: State, n: nat :: |ms| == |body| ==> Idle(body, ms, s, n)
  }

  ghost predicate Idle(body: seq<Info>, ms: seq<Meaning>, s: State, n: nat)
    requires |body| == |ms|
  {
    && Trace(body, ms, Iterate(body, ms, s, n)) == Trace(body, ms, s)
    && Same(Iterate(body, ms, s, n + 1), Iterate(body, ms, s, 1))
  }

  // ----- Exactly when it is idle -----

  predicate SureBefore(body: seq<Info>, i: nat, p: Place)
    requires i <= |body|
  {
    exists k :: 0 <= k < i && SureOf(body[k], p)
  }

  predicate WrittenFrom(body: seq<Info>, i: nat, p: Place)
    requires i <= |body|
  {
    exists k :: i <= k < |body| && MayWrite(body[k], p)
  }

  /** Instruction i reads a value that an earlier iteration may have left: nothing before it is sure to
      write the place, and it or something after it may. */
  predicate Carried(body: seq<Info>, i: nat, p: Place)
    requires i < |body|
  {
    Reads(body[i], p) && !SureBefore(body, i, p) && WrittenFrom(body, i, p)
  }

  ghost predicate Independent(body: seq<Info>) {
    forall i, p :: 0 <= i < |body| ==> !Carried(body, i, p)
  }

  /** A loop body is idle under every meaning exactly when nothing is carried over. */
  lemma IdleIff(body: seq<Info>)
    ensures AlwaysIdle(body) <==> Independent(body)
  {
    if Independent(body) {
      forall ms: seq<Meaning>, s: State, n: nat | |ms| == |body| ensures Idle(body, ms, s, n) {
        IdleLoopIsIdle(body, ms, s, n);
      }
    } else {
      var i, p :| 0 <= i < |body| && Carried(body, i, p);
      CarriedIsSeen(body, i, p);
    }
  }

  lemma {:induction false} Unwritten(body: seq<Info>, ms: seq<Meaning>, s: State, i: nat, j: nat, p: Place)
    requires i <= j <= |body| == |ms| && (forall k :: i <= k < j ==> !MayWrite(body[k], p))
    ensures Run(body, ms, s, j)(p) == Run(body, ms, s, i)(p)
  {
    if i < j { Unwritten(body, ms, s, i, j - 1, p); }
  }

  /** Two iterations, from s and from t, agree after n instructions, but for places that neither has
      written. */
  ghost predicate Converged(body: seq<Info>, n: nat, s: State, t: State, a: State, b: State)
    requires n <= |body|
  {
    forall p :: a(p) == b(p) || (!SureBefore(body, n, p) && a(p) == s(p) && b(p) == t(p))
  }

  /** Started where an iteration ends, the next one sees the same and converges to it. */
  lemma {:induction false} Converge(body: seq<Info>, ms: seq<Meaning>, s: State, n: nat)
    requires n <= |body| == |ms| && Independent(body)
    ensures
      var t := Run(body, ms, s, |body|);
      && Converged(body, n, s, t, Run(body, ms, s, n), Run(body, ms, t, n))
      && forall i :: 0 <= i < n ==> Sees(body[i], Run(body, ms, s, i)) == Sees(body[i], Run(body, ms, t, i))
  {
    hide Sees, Step, Run, Independent, Converged;
    var t := Run(body, ms, s, |body|);
    if n == 0 {
      NoneConverged(body, ms, s, t);
    } else {
      Converge(body, ms, s, n - 1);
      SeesSame(body, ms, s, n - 1);
      RunStep(body, ms, s, n);
      RunStep(body, ms, t, n);
      ConvergedStep(body, ms, n - 1, s, t, Run(body, ms, s, n - 1), Run(body, ms, t, n - 1));
    }
  }

  lemma NoneConverged(body: seq<Info>, ms: seq<Meaning>, s: State, t: State)
    requires |body| == |ms|
    ensures Converged(body, 0, s, t, Run(body, ms, s, 0), Run(body, ms, t, 0))
  {
  }

  lemma RunStep(body: seq<Info>, ms: seq<Meaning>, s: State, n: nat)
    requires 1 <= n <= |body| == |ms|
    ensures Run(body, ms, s, n) == Step(body[n - 1], ms[n - 1], Run(body, ms, s, n - 1))
  {
  }

  /** What instruction n reads is either written already or still what the iteration before left. */
  lemma SeesSame(body: seq<Info>, ms: seq<Meaning>, s: State, n: nat)
    requires n < |body| == |ms| && Independent(body)
    requires
      var t := Run(body, ms, s, |body|);
      Converged(body, n, s, t, Run(body, ms, s, n), Run(body, ms, t, n))
    ensures
      Sees(body[n], Run(body, ms, s, n)) == Sees(body[n], Run(body, ms, Run(body, ms, s, |body|), n))
  {
    var t := Run(body, ms, s, |body|);
    var a, b := Run(body, ms, s, n), Run(body, ms, t, n);
    forall p | Reads(body[n], p) ensures a(p) == b(p) {
      assert !Carried(body, n, p);
      if !WrittenFrom(body, n, p) { Unwritten(body, ms, s, n, |body|, p); }
    }
    assert Sees(body[n], a) == Sees(body[n], b);
  }

  lemma ConvergedStep(body: seq<Info>, ms: seq<Meaning>, n: nat, s: State, t: State, a: State, b: State)
    requires n < |body| == |ms| && Converged(body, n, s, t, a, b) && Sees(body[n], a) == Sees(body[n], b)
    ensures Converged(body, n + 1, s, t, Step(body[n], ms[n], a), Step(body[n], ms[n], b))
  {
    hide Sees;
    var a', b' := Step(body[n], ms[n], a), Step(body[n], ms[n], b);
    forall p ensures a'(p) == b'(p) || (!SureBefore(body, n + 1, p) && a'(p) == s(p) && b'(p) == t(p)) {
      assert a(p) == b(p) || (!SureBefore(body, n, p) && a(p) == s(p) && b(p) == t(p));
    }
  }

  lemma {:induction false} RunSame(body: seq<Info>, ms: seq<Meaning>, a: State, b: State, n: nat)
    requires n <= |body| == |ms| && Same(a, b)
    ensures Same(Run(body, ms, a, n), Run(body, ms, b, n))
  {
    if n > 0 {
      RunSame(body, ms, a, b, n - 1);
      StepSame(body[n - 1], ms[n - 1], Run(body, ms, a, n - 1), Run(body, ms, b, n - 1));
    }
  }

  lemma StepSame(info: Info, m: Meaning, a: State, b: State)
    requires Same(a, b)
    ensures Sees(info, a) == Sees(info, b) && Same(Step(info, m, a), Step(info, m, b))
  {
    assert Sees(info, a) == Sees(info, b);
  }

  lemma TraceSame(body: seq<Info>, ms: seq<Meaning>, a: State, b: State)
    requires |body| == |ms| && Same(a, b)
    ensures Trace(body, ms, a) == Trace(body, ms, b)
  {
    hide Sees;
    forall i | 0 <= i < |body|
      ensures Sees(body[i], Run(body, ms, a, i)) == Sees(body[i], Run(body, ms, b, i))
    {
      RunSame(body, ms, a, b, i);
      StepSame(body[i], ms[i], Run(body, ms, a, i), Run(body, ms, b, i));
    }
  }

  /** With nothing carried over and memory left alone by everyone else, any number of iterations leaves registers and
      flags as one does, and every iteration sees what the first saw: it branches alike, too. */
  lemma {:induction false} IdleLoopIsIdle(body: seq<Info>, ms: seq<Meaning>, s: State, n: nat)
    requires |body| == |ms| && Independent(body)
    ensures Idle(body, ms, s, n)
  {
    hide Sees, Run, Independent;
    if n > 0 {
      IdleLoopIsIdle(body, ms, s, n - 1);
      var one, t := Run(body, ms, s, |body|), Iterate(body, ms, s, n);
      SecondIteration(body, ms, s);
      FirstIteration(body, ms, s);
      RunSame(body, ms, t, one, |body|);
      TraceSame(body, ms, t, one);
    }
  }

  lemma SecondIteration(body: seq<Info>, ms: seq<Meaning>, s: State)
    requires |body| == |ms| && Independent(body)
    ensures
      var t := Run(body, ms, s, |body|);
      Trace(body, ms, t) == Trace(body, ms, s) && Same(Run(body, ms, t, |body|), t)
  {
    hide Sees, Run, Independent;
    var t := Run(body, ms, s, |body|);
    Converge(body, ms, s, |body|);
    var b := Run(body, ms, t, |body|);
    forall p ensures b(p) == t(p) {
      assert t(p) == b(p) || (t(p) == s(p) && b(p) == t(p));
    }
  }

  // ----- What is carried over can be seen -----

  /** A value that p can hold, of words w. */
  function Of(p: Place, w: int): Value {
    if p == Mem then Cells((a: int) => w) else Word(w)
  }

  lemma OfDiffers(p: Place)
    ensures Of(p, 0) != Of(p, 1)
  {
    if p == Mem { assert Of(p, 0).at(0) != Of(p, 1).at(0); }
  }

  /** The last instruction that may write p does, with 1; everything else stores zeroes or nothing. */
  function Telling(n: nat, j: nat, p: Place): (ms: seq<Meaning>)
    ensures |ms| == n
  {
    seq(n, k => Meaning((v: View, q: Place) => k == j && q == p,
                        (v: View, q: Place) => if k == j && q == p then Of(q, 1) else Of(q, 0)))
  }

  lemma CarriedIsSeen(body: seq<Info>, i: nat, p: Place)
    requires i < |body| && Carried(body, i, p)
    ensures !AlwaysIdle(body)
  {
    hide Idle, Telling, MayWrite, SureBefore, WrittenFrom;
    var j := LastWriter(body, i, p);
    var ms, s: State := Telling(|body|, j, p), (q: Place) => Of(q, 0);
    SeenNext(body, ms, s, i, j, p);
    assert !Idle(body, ms, s, 1);
  }

  lemma SeenNext(body: seq<Info>, ms: seq<Meaning>, s: State, i: nat, j: nat, p: Place)
    requires i <= j < |body| && ms == Telling(|body|, j, p) && Carried(body, i, p) && s(p) == Of(p, 0)
    requires MayWrite(body[j], p) && forall k :: j < k < |body| ==> !MayWrite(body[k], p)
    ensures !Idle(body, ms, s, 1)
  {
    hide Run, Sees, Iterate, Telling, Of;
    OfDiffers(p);
    var t := Run(body, ms, s, |body|);
    Silent(body, ms, s, i, j, p);
    Silent(body, ms, t, i, j, p);
    TellsOne(body, ms, s, j, p);
    SeesAre(body[i], Run(body, ms, t, i), p);
    SeesAre(body[i], Run(body, ms, s, i), p);
    FirstIteration(body, ms, s);
    assert Trace(body, ms, t)[i] != Trace(body, ms, s)[i];
  }

  lemma SeesAre(info: Info, s: State, p: Place)
    requires Reads(info, p)
    ensures p in Sees(info, s) && Sees(info, s)[p] == s(p)
  {
  }

  lemma FirstIteration(body: seq<Info>, ms: seq<Meaning>, s: State)
    requires |body| == |ms|
    ensures Iterate(body, ms, s, 1) == Run(body, ms, s, |body|)
  {
    assert Iterate(body, ms, s, 0) == s;
  }

  lemma TellsOne(body: seq<Info>, ms: seq<Meaning>, s: State, j: nat, p: Place)
    requires j < |body| && ms == Telling(|body|, j, p) && MayWrite(body[j], p)
    requires forall k :: j < k < |body| ==> !MayWrite(body[k], p)
    ensures Run(body, ms, s, |body|)(p) == Of(p, 1)
  {
    hide Run, Of;
    Unwritten(body, ms, s, j + 1, |body|, p);
    RunStep(body, ms, s, j + 1);
    Tells(|body|, j, p, body[j], Run(body, ms, s, j));
  }

  /** Instruction j writes one into p. */
  lemma Tells(n: nat, j: nat, p: Place, info: Info, s: State)
    requires j < n && MayWrite(info, p)
    ensures Step(info, Telling(n, j, p)[j], s)(p) == Of(p, 1)
  {
    hide Sees, Of;
    var m := Telling(n, j, p)[j];
    assert m.writes(Sees(info, s), p) && m.value(Sees(info, s), p) == Of(p, 1);
  }

  lemma {:induction false} LastWriter(body: seq<Info>, i: nat, p: Place) returns (j: nat)
    requires i <= |body| && WrittenFrom(body, i, p)
    ensures i <= j < |body| && MayWrite(body[j], p) && forall k :: j < k < |body| ==> !MayWrite(body[k], p)
    decreases |body| - i
  {
    if WrittenFrom(body, i + 1, p) { j := LastWriter(body, i + 1, p); } else { j := i; }
  }

  /** Before instruction j, nothing writes p unless it is sure to. */
  lemma {:induction false} Silent(body: seq<Info>, ms: seq<Meaning>, s: State, i: nat, j: nat, p: Place)
    requires i <= j < |body| && !SureBefore(body, i, p) && ms == Telling(|body|, j, p)
    ensures Run(body, ms, s, i)(p) == s(p)
  {
    if i > 0 {
      assert SureBefore(body, i - 1, p) ==> SureBefore(body, i, p);
      Silent(body, ms, s, i - 1, j, p);
    }
  }

  // ----- What the test misses -----

  lemma {:induction false} WrittenIs(body: seq<Info>, n: nat, r: nat)
    requires n <= |body|
    ensures r in Written(body, n) <==> exists k :: 0 <= k < n && MayWrite(body[k], Reg(r))
  {
    if n > 0 { WrittenIs(body, n - 1, r); }
  }

  lemma {:induction false} IncomingIs(body: seq<Info>, n: nat, r: nat)
    requires n <= |body|
    ensures r in Incoming(body, n) <==> exists k :: 0 <= k < n && Reads(body[k], Reg(r)) && r !in Written(body, k)
  {
    if n > 0 { IncomingIs(body, n - 1, r); }
  }

  /** What is carried over is a flag, or a register that some instruction before is named as writing, if
      only under a condition. */
  ghost predicate Unnoticed(body: seq<Info>, i: nat, p: Place)
    requires i < |body|
  {
    Carried(body, i, p) && p != Mem && (p.Reg? ==> p.index in Written(body, i))
  }

  /** Some instruction both loads and leaves memory different: a swap, which the decoder marks as a load,
      or a load of a device register that reacts. */
  ghost predicate Trades(body: seq<Info>) {
    exists k :: 0 <= k < |body| && body[k].loads && Changes(body[k])
  }

  /** An accepted body is idle under every meaning exactly when nothing in it trades with memory, no flag is
      carried over, and no register past a predicated write: for all other registers and for marked stores
      the test is right. */
  lemma AcceptedIdleIff(body: seq<Info>)
    requires Accepted(body)
    ensures AlwaysIdle(body) <==> !Trades(body) && forall i, p :: 0 <= i < |body| ==> !Unnoticed(body, i, p)
  {
    hide AlwaysIdle, Carried, Harmless, Trades;
    IdleIff(body);
    forall i, p | 0 <= i < |body| && Carried(body, i, p) ensures Unnoticed(body, i, p) || Trades(body) {
      if p == Mem {
        CarriedMemory(body, i);
      } else if p.Reg? && p.index !in Written(body, i) {
        CarriedRegister(body, i, p.index);
      }
    }
    if Trades(body) { var k := TradedAt(body); }
  }

  lemma CarriedMemory(body: seq<Info>, i: nat)
    requires Harmless(body, |body|) && i < |body| && Carried(body, i, Mem)
    ensures Trades(body)
  {
    var k :| i <= k < |body| && MayWrite(body[k], Mem);
    assert body[k].loads && Changes(body[k]);
  }

  lemma TradedAt(body: seq<Info>) returns (k: nat)
    requires Trades(body)
    ensures k < |body| && Carried(body, k, Mem)
  {
    k :| 0 <= k < |body| && body[k].loads && Changes(body[k]);
    assert MayWrite(body[k], Mem);
  }

  lemma CarriedRegister(body: seq<Info>, i: nat, r: nat)
    requires i < |body| && Carried(body, i, Reg(r)) && r !in Written(body, i)
    ensures r in Incoming(body, |body|) * Written(body, |body|)
  {
    IncomingIs(body, |body|, r);
    WrittenIs(body, |body|, r);
  }

  /** The test's register rule turns no body down that is idle under every meaning. */
  lemma RejectedMayDepend(body: seq<Info>)
    requires !(Incoming(body, |body|) !! Written(body, |body|))
    ensures !AlwaysIdle(body)
  {
    var r :| r in Incoming(body, |body|) && r in Written(body, |body|);
    IncomingIs(body, |body|, r);
    WrittenIs(body, |body|, r);
    var i :| 0 <= i < |body| && Reads(body[i], Reg(r)) && r !in Written(body, i);
    WrittenIs(body, i, r);
    assert Carried(body, i, Reg(r));
    CarriedIsSeen(body, i, Reg(r));
  }

  /** Where only the closing branch is predicated and nothing trades with memory, as in Thumb code away
      from device registers, flags are all that can be missed. */
  lemma UnpredicatedIdleIff(body: seq<Info>)
    requires Accepted(body) && forall k :: 0 <= k < |body| - 1 ==> !body[k].predicated
    ensures AlwaysIdle(body) <==> !Trades(body) && forall i, f :: 0 <= i < |body| ==> !Carried(body, i, Flag(f))
  {
    hide AlwaysIdle, Harmless, Trades;
    AcceptedIdleIff(body);
    forall i, p | 0 <= i < |body| && Unnoticed(body, i, p) ensures p.Flag? && Carried(body, i, Flag(p.flag)) {
      if p.Reg? {
        WrittenIs(body, i, p.index);
        assert false;
      }
    }
    forall i, f | 0 <= i < |body| && Carried(body, i, Flag(f)) ensures Unnoticed(body, i, Flag(f)) {
    }
  }

  // ----- Three loops that are accepted and are not idle -----

  function Get(v: View, p: Place): int {
    if p in v && v[p].Word? then v[p].word else 0
  }

  function WordOf(s: State, p: Place): int {
    if s(p).Word? then s(p).word else 0
  }

  lemma GetIs(info: Info, s: State, p: Place)
    requires Reads(info, p)
    ensures Get(Sees(info, s), p) == WordOf(s, p)
  {
    SeesAre(info, s, p);
  }

  /** An instruction that leaves memory alone. */
  function Plain(src: set<nat>, dst: set<nat>, read: set<Liveness.Flag>, written: set<Liveness.Flag>, predicated: bool):
    Info
  {
    Info(src, dst, read, written, {}, predicated, false, false, false, false)
  }

  function Nothing(v: View, p: Place): Value {
    Word(0)
  }

  predicate Always(v: View, p: Place) {
    true
  }

  predicate Never(v: View, p: Place) {
    false
  }

  /** A branch back while Z is what it should be; it writes nothing that is modelled. */
  const BackBranch := Plain({15}, {15}, {Liveness.Z}, {}, true)
  const Branching := Meaning(Never, Nothing)

  /** ADCS r0, r1, r1: it adds the carry flag, too. */
  const Doubling := Plain({1}, {0}, {Liveness.C}, Liveness.AllFlags, false)

  function Doubled(v: View, p: Place): Value {
    var sum := Get(v, Reg(1)) + Get(v, Reg(1)) + Get(v, Flag(Liveness.C));
    if p == Reg(0) then Word(sum % 0x1_0000_0000)
    else if p == Flag(Liveness.C) then Word(sum / 0x1_0000_0000)
    else if p == Flag(Liveness.Z) && sum % 0x1_0000_0000 == 0 then Word(1)
    else Word(0)
  }

  const CarryLoop: seq<Info> := [Doubling, BackBranch]
  const CarryMeaning: seq<Meaning> := [Meaning(Always, Doubled), Branching]

  /** With the top bit of r1 set and carry clear, the first iteration ends with zero and branches back;
      it leaves the carry set, so that the second one ends with 1 and falls out of the loop. */
  lemma FlagsAreNotTracked(s: State)
    requires s(Reg(1)) == Word(0x8000_0000) && s(Flag(Liveness.C)) == Word(0)
    ensures Accepted(CarryLoop) && Carried(CarryLoop, 0, Flag(Liveness.C))
    ensures
      var one := Iterate(CarryLoop, CarryMeaning, s, 1);
      var two := Iterate(CarryLoop, CarryMeaning, s, 2);
      && one(Reg(0)) == Word(0) && one(Flag(Liveness.Z)) == Word(1)
      && two(Reg(0)) == Word(1) && two(Flag(Liveness.Z)) == Word(0)
  {
    hide Run, Accepted, Carried;
    CarryAccepted();
    var one := Iterate(CarryLoop, CarryMeaning, s, 1);
    FirstIteration(CarryLoop, CarryMeaning, s);
    CarryOnce(s);
    CarryOnce(one);
  }

  lemma CarryAccepted()
    ensures Accepted(CarryLoop) && Carried(CarryLoop, 0, Flag(Liveness.C))
  {
    var body := CarryLoop;
    WrittenOne(body, 0);
    WrittenOne(body, 1);
    assert MayWrite(body[0], Flag(Liveness.C));
  }

  lemma WrittenOne(body: seq<Info>, n: nat)
    requires n < |body|
    ensures Written(body, 0) == {} && Written(body, n + 1) == Written(body, n) + (body[n].dst - {PC})
    ensures Incoming(body, 0) == {}
    ensures Incoming(body, n + 1) == Incoming(body, n) + ((body[n].src - {PC}) - Written(body, n))
  {
  }

  lemma CarryOnce(s: State)
    ensures
      var sum := WordOf(s, Reg(1)) + WordOf(s, Reg(1)) + WordOf(s, Flag(Liveness.C));
      var t := Run(CarryLoop, CarryMeaning, s, 2);
      && t(Reg(0)) == Word(sum % 0x1_0000_0000) && t(Reg(1)) == s(Reg(1))
      && t(Flag(Liveness.C)) == Word(sum / 0x1_0000_0000)
      && t(Flag(Liveness.Z)) == Word(if sum % 0x1_0000_0000 == 0 then 1 else 0)
  {
    hide Run, Get, WordOf;
    CarryStep(s);
    GetIs(Doubling, s, Reg(1));
    GetIs(Doubling, s, Flag(Liveness.C));
  }

  lemma CarryStep(s: State)
    ensures
      var t, view := Run(CarryLoop, CarryMeaning, s, 2), Sees(Doubling, s);
      forall p :: t(p) == if SureOf(Doubling, p) then Doubled(view, p) else s(p)
  {
    hide Doubled, Sees;
    TwoSteps(CarryLoop, CarryMeaning, s);
    var one, two := Run(CarryLoop, CarryMeaning, s, 1), Run(CarryLoop, CarryMeaning, s, 2);
    var view := Sees(Doubling, s);
    forall p ensures two(p) == if SureOf(Doubling, p) then Doubled(view, p) else s(p) {
      assert CarryMeaning[0].value(view, p) == Doubled(view, p);
      assert two(p) == one(p) by { assert !MayWrite(BackBranch, p); }
    }
  }

  lemma TwoSteps(body: seq<Info>, ms: seq<Meaning>, s: State)
    requires |body| == |ms| >= 2
    ensures Run(body, ms, s, 1) == Step(body[0], ms[0], s)
    ensures Run(body, ms, s, 2) == Step(body[1], ms[1], Run(body, ms, s, 1))
  {
    hide Step;
    RunNone(body, ms, s);
    RunStep(body, ms, s, 1);
    RunStep(body, ms, s, 2);
  }

  /** CMP r1, #0 */
  const Compare := Plain({1}, {}, {}, Liveness.AllFlags, false)

  function Compared(v: View, p: Place): Value {
    if p == Flag(Liveness.Z) && Get(v, Reg(1)) == 0 then Word(1) else Word(0)
  }

  /** MOVEQ r0, #0 */
  const ClearIfZero := Plain({}, {0}, {Liveness.Z}, {}, true)

  predicate ClearsIf(v: View, p: Place) {
    Get(v, Flag(Liveness.Z)) == 1
  }

  /** ADD r0, r0, #1 */
  const Increment := Plain({0}, {0}, {}, {}, false)

  function Incremented(v: View, p: Place): Value {
    Word(Get(v, Reg(0)) + 1)
  }

  const CountLoop: seq<Info> := [Compare, ClearIfZero, Increment, BackBranch]
  const CountMeaning: seq<Meaning> := [
    Meaning(Always, Compared), Meaning(ClearsIf, Nothing), Meaning(Always, Incremented), Branching
  ]

  /** While r1 is not zero the move is not made, and r0 counts the iterations; the test takes the move
      for a write that cuts r0 off from the iteration before. */
  lemma {:induction false} PredicatesAreNotTracked(s: State, n: nat)
    requires s(Reg(1)).Word? && s(Reg(1)) != Word(0) && s(Reg(0)).Word?
    ensures Accepted(CountLoop) && Carried(CountLoop, 2, Reg(0))
    ensures
      var t := Iterate(CountLoop, CountMeaning, s, n);
      && t(Reg(0)) == Word(s(Reg(0)).word + n) && t(Reg(1)) == s(Reg(1))
      && (n > 0 ==> t(Flag(Liveness.Z)) == Word(0))
  {
    hide Run, Accepted, Carried;
    if n == 0 {
      CountAccepted();
    } else {
      PredicatesAreNotTracked(s, n - 1);
      CountOnce(Iterate(CountLoop, CountMeaning, s, n - 1));
    }
  }

  lemma CountAccepted()
    ensures Accepted(CountLoop) && Carried(CountLoop, 2, Reg(0))
  {
    var body := CountLoop;
    WrittenOne(body, 0);
    WrittenOne(body, 1);
    WrittenOne(body, 2);
    WrittenOne(body, 3);
    assert MayWrite(body[2], Reg(0));
  }

  lemma CountOnce(s: State)
    requires WordOf(s, Reg(1)) != 0
    ensures
      var t := Run(CountLoop, CountMeaning, s, 4);
      t(Reg(0)) == Word(WordOf(s, Reg(0)) + 1) && t(Reg(1)) == s(Reg(1)) && t(Flag(Liveness.Z)) == Word(0)
  {
    hide Run, Sees, Get;
    var body, ms := CountLoop, CountMeaning;
    var s1, s2 := Run(body, ms, s, 1), Run(body, ms, s, 2);
    TwoSteps(body, ms, s);
    GetIs(Compare, s, Reg(1));
    assert ms[0].value(Sees(Compare, s), Flag(Liveness.Z)) == Word(0);
    assert s1(Flag(Liveness.Z)) == Word(0) && s1(Reg(0)) == s(Reg(0)) && s1(Reg(1)) == s(Reg(1));
    GetIs(ClearIfZero, s1, Flag(Liveness.Z));
    assert s2(Flag(Liveness.Z)) == Word(0) && s2(Reg(0)) == s(Reg(0)) && s2(Reg(1)) == s(Reg(1));
    RunStep(body, ms, s, 3);
    GetIs(Increment, s2, Reg(0));
    var s3, t := Run(body, ms, s, 3), Run(body, ms, s, 4);
    assert ms[2].value(Sees(Increment, s2), Reg(0)) == Word(WordOf(s, Reg(0)) + 1);
    assert s3(Reg(0)) == Word(WordOf(s, Reg(0)) + 1) && s3(Reg(1)) == s(Reg(1)) && s3(Flag(Liveness.Z)) == Word(0);
    RunStep(body, ms, s, 4);
    forall p ensures t(p) == s3(p) { assert !MayWrite(BackBranch, p); }
  }

  lemma RunNone(body: seq<Info>, ms: seq<Meaning>, s: State)
    requires |body| == |ms|
    ensures Run(body, ms, s, 0) == s
  {
  }

  /** SWP r1, r0, [r2] */
  const Swap := Info({0, 2}, {1}, {}, {}, {}, false, true, true, false, false)

  /** The word at r2 and r0 change places with r1 and that word. */
  function Swapped(v: View, p: Place): Value {
    var cells: int -> int := if Mem in v && v[Mem].Cells? then v[Mem].at else (a: int) => 0;
    if p == Mem then Cells((a: int) => if a == Get(v, Reg(2)) then Get(v, Reg(0)) else cells(a))
    else Word(cells(Get(v, Reg(2))))
  }

  const SwapLoop: seq<Info> := [Swap, BackBranch]
  const SwapMeaning: seq<Meaning> := [Meaning(Always, Swapped), Branching]

  /** The first iteration loads what was there before, every later one what the loop itself has stored. */
  lemma SwapsAreNotTracked(s: State)
    requires s(Mem).Cells? && s(Reg(0)).Word? && s(Reg(2)).Word?
    ensures Accepted(SwapLoop) && Trades(SwapLoop)
    ensures
      var one, two := Iterate(SwapLoop, SwapMeaning, s, 1), Iterate(SwapLoop, SwapMeaning, s, 2);
      one(Reg(1)) == Word(s(Mem).at(s(Reg(2)).word)) && two(Reg(1)) == s(Reg(0))
  {
    hide Run, Accepted, Trades;
    SwapAccepted();
    var one := Iterate(SwapLoop, SwapMeaning, s, 1);
    FirstIteration(SwapLoop, SwapMeaning, s);
    SwapOnce(s);
    SwapOnce(one);
  }

  lemma SwapAccepted()
    ensures Accepted(SwapLoop) && Trades(SwapLoop)
  {
    var body := SwapLoop;
    WrittenOne(body, 0);
    WrittenOne(body, 1);
    assert body[0].loads && Changes(body[0]);
  }

  lemma SwapOnce(s: State)
    requires s(Mem).Cells? && s(Reg(0)).Word? && s(Reg(2)).Word?
    ensures
      var t, a := Run(SwapLoop, SwapMeaning, s, 2), s(Reg(2)).word;
      && t(Reg(0)) == s(Reg(0)) && t(Reg(1)) == Word(s(Mem).at(a)) && t(Reg(2)) == s(Reg(2))
      && t(Mem).Cells? && t(Mem).at(a) == s(Reg(0)).word
  {
    hide Run, Sees;
    TwoSteps(SwapLoop, SwapMeaning, s);
    var one, two := Run(SwapLoop, SwapMeaning, s, 1), Run(SwapLoop, SwapMeaning, s, 2);
    var view := Sees(Swap, s);
    SeesAre(Swap, s, Reg(0));
    SeesAre(Swap, s, Reg(2));
    SeesAre(Swap, s, Mem);
    forall p ensures two(p) == one(p) { assert !MayWrite(BackBranch, p); }
    assert SwapMeaning[0].value(view, Reg(1)) == Swapped(view, Reg(1));
    assert SwapMeaning[0].value(view, Mem) == Swapped(view, Mem);
  }
}
