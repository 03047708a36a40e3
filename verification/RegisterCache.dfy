/**
  The JIT's register allocator: guest registers r0-r14 are cached in native registers
  while a block is compiled.  Compiling emits code; running the emitted code must leave the
  guest register file exactly as running the guest instructions one by one would.

  Sixteen-bit masks of the source are sets of bit positions here.
 */
module RegisterCaching {

  /** The value of a register. */
  type Val = int

  /** Everything an instruction can see or change besides r0-r14 (flags, memory, counters). */
  type World = int

  import opened Wrappers

  /** An abstract guest instruction: its register sets plus an arbitrary meaning that respects them. */
  datatype Instr = Instr(
    src: set<nat>,
    dst: set<nat>,
    addr: nat,
    thumb: bool,
    conditional: bool,                // a condition below 0xE, in Thumb a conditional branch
    follows: bool,                    // a followed conditional branch
    optional: set<nat>,               // Info.NotStrictlyNeeded
    always: bool,                     // thumb || Cond() >= 0xE
    canCompile: bool,                 // false: the interpreter is called instead
    literal: Option<(nat, Val)>,      // the compiler announces rd := constant through PutLiteral
    runs: World -> bool,              // the condition
    value: (World, map<nat, Val>, nat) -> Val,   // new value of a destination, from the sources, r15 among them
    world: (World, map<nat, Val>) -> World
  )

  const PC: nat := 15

  ghost predicate WellFormed(ins: Instr) {
    && (forall r :: r in ins.src + ins.dst ==> r < 16)
    && ins.optional <= ins.src + ins.dst
    && (ins.always && ins.dst - {PC} != {} ==> forall w :: ins.runs(w))
    && (ins.literal.Some? ==>
          && ins.always && ins.literal.value.0 in ins.dst && ins.literal.value.0 != PC
          && forall w, vals :: ins.value(w, vals, ins.literal.value.0) == ins.literal.value.1)
  }

  // ----- Direct execution on the guest register file -----

  type File = nat -> Val

  function Read(rs: set<nat>, file: File): map<nat, Val> {
    map r | r in rs && r < 16 :: file(r)
  }

  /** What an instruction reads as r15: its own address plus two instructions. */
  function PcOf(ins: Instr): Val {
    if ins.thumb then (ins.addr + 4) % 0x1_0000_0000 else (ins.addr + 8) % 0x1_0000_0000
  }

  /** The register file that an instruction starts from. */
  function Arrived(ins: Instr, file: File): File {
    (r: nat) => if r == PC then PcOf(ins) else file(r)
  }

  function StepFile(ins: Instr, w: World, file: File): File {
    var vals := Read(ins.src, file);
    (r: nat) => if ins.runs(w) && r in ins.dst then ins.value(w, vals, r) else file(r)
  }

  function StepWorld(ins: Instr, w: World, file: File): World {
    ins.world(w, Read(ins.src, file))
  }

  /** Runs the guest instructions one after the other.  In the end r15 is the target of a branch, or what the
      last instruction read as r15. */
  function Direct(instrs: seq<Instr>, w: World, file: File): (World, File)
    decreases |instrs|
  {
    if instrs == [] then (w, file)
    else
      var n := |instrs| - 1;
      var (w', file') := Direct(instrs[..n], w, file);
      var start := Arrived(instrs[n], file');
      (StepWorld(instrs[n], w', start), StepFile(instrs[n], w', start))
  }

  // ----- The machine that runs emitted code -----

  datatype Machine = Machine(mem: File, native: File, world: World)

  datatype Op =
    | Save(reg: nat, native: nat)                    // R[reg] := native
    | Load(reg: nat, native: nat, pc: Val)           // native := R[reg], an immediate for r15
    | SetPc(pc: Val)                                 // R[15] := an immediate
    | Native(ins: Instr, mapping: map<nat, nat>, pc: Val)   // compiled instruction
    | Interpret(ins: Instr)                          // call into the interpreter

  /** Where a compiled instruction finds guest register r: its native register if mapped, else memory; r15 is
      an immediate then. */
  function Seen(m: Machine, mapping: map<nat, nat>, pc: Val): File {
    (r: nat) => if r in mapping then m.native(mapping[r]) else if r == PC then pc else m.mem(r)
  }

  ghost predicate Owned(mapping: map<nat, nat>, dst: set<nat>, n: nat) {
    exists r :: r in mapping && r in dst && mapping[r] == n
  }

  ghost function Owner(mapping: map<nat, nat>, dst: set<nat>, n: nat): (r: nat)
    requires Owned(mapping, dst, n)
    ensures r in mapping && r in dst && mapping[r] == n
  {
    var r :| r in mapping && r in dst && mapping[r] == n; r
  }

  ghost function RunOp(op: Op, m: Machine): Machine {
    match op
    case Save(reg, n) => m.(mem := (r: nat) => if r == reg then m.native(n) else m.mem(r))
    case Load(reg, n, pc) =>
      m.(native := (k: nat) => if k == n then (if reg == PC then pc else m.mem(reg)) else m.native(k))
    case SetPc(pc) => m.(mem := (r: nat) => if r == PC then pc else m.mem(r))
    case Native(ins, mapping, pc) =>
      var vals := Read(ins.src, Seen(m, mapping, pc));
      Machine(
        (r: nat) => if ins.runs(m.world) && r in ins.dst && (r !in mapping || r == PC) then ins.value(m.world, vals, r)
          else m.mem(r),
        (n: nat) => if ins.runs(m.world) && Owned(mapping, ins.dst, n)
             then ins.value(m.world, vals, Owner(mapping, ins.dst, n)) else m.native(n),
        ins.world(m.world, vals))
    case Interpret(ins) =>
      Machine(StepFile(ins, m.world, m.mem), m.native, StepWorld(ins, m.world, m.mem))
  }

  ghost function Run(code: seq<Op>, m: Machine): Machine
    decreases |code|
  {
    if code == [] then m else RunOp(code[|code| - 1], Run(code[..|code| - 1], m))
  }

  lemma {:induction false} RunConcat(a: seq<Op>, b: seq<Op>, m: Machine)
    ensures Run(a + b, m) == Run(b, Run(a, m))
    decreases |b|
  {
    if b == [] {
      assert a + b == a;
    } else {
      var n := |b| - 1;
      assert (a + b)[..|a + b| - 1] == a + b[..n];
      RunConcat(a, b[..n], m);
    }
  }

  // ----- Coherence between the cache, the machine and the guest file -----

  /** What the allocator believes: where registers live, which are newer than memory, which
      native registers hold no value yet, which guest registers hold known constants, and what a
      mapped r15 stands for. */
  datatype View = View(mapping: map<nat, nat>, dirty: set<nat>, pending: set<nat>, literals: map<nat, Val>,
                       pc: Option<Val>)

  ghost predicate Injective(m: map<nat, nat>) {
    forall r, s :: r in m && s in m && m[r] == m[s] ==> r == s
  }

  ghost predicate Sound(v: View) {
    && Injective(v.mapping)
    && (forall r :: r in v.mapping ==> r < 16)
    && v.dirty <= v.mapping.Keys - {PC}
  }

  ghost predicate Coherent(v: View, m: Machine, file: File) {
    && (forall r: nat :: r < PC && r !in v.dirty ==> m.mem(r) == file(r))
    && (forall r :: r < PC && r in v.mapping && r !in v.pending ==> m.native(v.mapping[r]) == file(r))
    && (forall r :: r < PC && r in v.literals ==> file(r) == v.literals[r])
    && (v.pc.Some? && PC in v.mapping && PC !in v.pending ==> m.native(v.mapping[PC]) == v.pc.value)
  }

  /** Running `code` turns every machine coherent with v into one coherent with v', for the same
      guest register file, and touches nothing else: neither the world nor r15 in memory. */
  ghost predicate Refines(v: View, code: seq<Op>, v': View) {
    forall m, file :: Coherent(v, m, file) ==>
      Coherent(v', Run(code, m), file) && SameWorld(Run(code, m), m)
  }

  ghost predicate SameWorld(m': Machine, m: Machine) {
    m'.world == m.world && m'.mem(PC) == m.mem(PC)
  }

  lemma RefinesThen(v0: View, a: seq<Op>, v1: View, b: seq<Op>, v2: View)
    requires Refines(v0, a, v1) && Refines(v1, b, v2)
    ensures Refines(v0, a + b, v2)
  {
    forall m, file | Coherent(v0, m, file)
      ensures Coherent(v2, Run(a + b, m), file) && SameWorld(Run(a + b, m), m)
    {
      RunConcat(a, b, m);
      assert Coherent(v1, Run(a, m), file);
    }
  }

  function UnloadView(v: View, reg: nat): View {
    v.(mapping := v.mapping - {reg}, dirty := v.dirty - {reg})
  }

  function UnloadCode(v: View, reg: nat): seq<Op>
    requires reg in v.mapping
  {
    if reg in v.dirty then [Save(reg, v.mapping[reg])] else []
  }

  lemma UnloadRefines(v: View, reg: nat)
    requires Sound(v) && reg in v.mapping && v.pending == {}
    ensures Refines(v, UnloadCode(v, reg), UnloadView(v, reg))
  {
    var code := UnloadCode(v, reg);
    var v' := UnloadView(v, reg);
    forall m, file | Coherent(v, m, file)
      ensures Coherent(v', Run(code, m), file) && SameWorld(Run(code, m), m)
    {
      if reg in v.dirty {
        assert Run(code, m) == RunOp(code[0], m) by { assert code[..0] == []; }
      }
    }
  }

  lemma SaveRefines(v: View, reg: nat)
    requires Sound(v) && reg in v.dirty && v.pending == {}
    ensures Refines(v, [Save(reg, v.mapping[reg])], v.(dirty := v.dirty - {reg}))
  {
    var code := [Save(reg, v.mapping[reg])];
    forall m, file | Coherent(v, m, file)
      ensures Coherent(v.(dirty := v.dirty - {reg}), Run(code, m), file) && SameWorld(Run(code, m), m)
    {
      assert Run(code, m) == RunOp(code[0], m) by { assert code[..0] == []; }
    }
  }

  function LoadView(v: View, reg: nat, n: nat, value: bool): View {
    v.(mapping := v.mapping[reg := n], pending := if value then v.pending else v.pending + {reg})
  }

  function LoadCode(reg: nat, n: nat, value: bool, pc: Val): seq<Op> {
    if value then [Load(reg, n, pc)] else []
  }

  lemma LoadRefines(v: View, reg: nat, n: nat, value: bool, pc: Val)
    requires Sound(v) && reg !in v.mapping && reg < 16 && (forall r :: r in v.mapping ==> v.mapping[r] != n)
    requires reg == PC ==> v.pc == Some(pc)
    ensures Refines(v, LoadCode(reg, n, value, pc), LoadView(v, reg, n, value))
  {
    var code := LoadCode(reg, n, value, pc);
    var v' := LoadView(v, reg, n, value);
    forall m, file | Coherent(v, m, file)
      ensures Coherent(v', Run(code, m), file) && SameWorld(Run(code, m), m)
    {
      if value {
        assert Run(code, m) == RunOp(code[0], m) by { assert code[..0] == []; }
      }
    }
  }

  /** A compiled instruction: every register it must read is available, a mapped r15 is its own, every
      register it was given without a value it is sure to write, and every mapped destination counts as
      dirty. */
  ghost predicate Ready(v: View, ins: Instr) {
    && Sound(v) && v.pc == Some(PcOf(ins))
    && v.pending <= ins.dst - ins.src
    && (v.pending - {PC} != {} ==> ins.always)
    && (v.mapping.Keys * ins.dst) - {PC} <= v.dirty
    && (forall r :: r in v.literals ==> r !in ins.dst)
  }

  function AfterLiteral(ls: map<nat, Val>, ins: Instr): map<nat, Val> {
    if ins.literal.Some? then ls[ins.literal.value.0 := ins.literal.value.1] else ls
  }

  function AfterNative(v: View, ins: Instr): View {
    v.(pending := {}, literals := AfterLiteral(v.literals, ins), pc := None)
  }

  /** A prepared instruction finds in its places what direct execution reads. */
  lemma ReadsSame(v: View, ins: Instr, m: Machine, file: File)
    requires Ready(v, ins) && Coherent(v, m, file)
    ensures Read(ins.src, Seen(m, v.mapping, PcOf(ins))) == Read(ins.src, Arrived(ins, file))
  {
    hide PcOf;
  }

  lemma NativeStep(v: View, ins: Instr, m: Machine, file: File)
    requires WellFormed(ins) && Ready(v, ins) && Coherent(v, m, file)
    ensures
      var m' := RunOp(Native(ins, v.mapping, PcOf(ins)), m);
      var start := Arrived(ins, file);
      && Coherent(AfterNative(v, ins), m', StepFile(ins, m.world, start))
      && m'.world == StepWorld(ins, m.world, start)
      && m'.mem(PC) == if ins.runs(m.world) && PC in ins.dst then StepFile(ins, m.world, start)(PC) else m.mem(PC)
  {
    hide PcOf, Read, Seen;
    ReadsSame(v, ins, m, file);
    var m' := RunOp(Native(ins, v.mapping, PcOf(ins)), m);
    var file' := StepFile(ins, m.world, Arrived(ins, file));
    forall r | r < PC && r in v.mapping
      ensures m'.native(v.mapping[r]) == file'(r)
    {
      var n := v.mapping[r];
      if r in ins.dst {
        assert Owned(v.mapping, ins.dst, n);
        assert Owner(v.mapping, ins.dst, n) == r;
        if r in v.pending { assert r in ins.dst - {PC}; }
      }
    }
    if ins.literal.Some? { assert ins.literal.value.0 in ins.dst - {PC}; }
  }

  // ----- The allocator -----

  function Need(ins: Instr): set<nat> {
    (ins.src - {PC}) + ins.dst
  }

  /** Registers some instruction from i on reads or writes. */
  function FutureNeed(instrs: seq<Instr>, i: nat): (need: set<nat>)
    requires i <= |instrs|
    decreases |instrs| - i
  {
    if i == |instrs| then {} else Need(instrs[i]) + FutureNeed(instrs, i + 1)
  }

  /** How many instructions from i on strictly need register r. */
  function Rank(instrs: seq<Instr>, i: nat, r: nat): (rank: nat)
    requires i <= |instrs|
    ensures rank <= |instrs| - i
    decreases |instrs| - i
  {
    if i == |instrs| then 0
    else (if r in Need(instrs[i]) - instrs[i].optional then 1 else 0) + Rank(instrs, i + 1, r)
  }

  /** Instruction j writes r or reads it as another register than r15. */
  predicate NeededAt(instrs: seq<Instr>, j: nat, r: nat)
    requires j < |instrs|
  {
    r in instrs[j].dst || (r in instrs[j].src && r != 15)
  }

  /** What the two tables say: whether an instruction from i on needs r, and how many strictly need it. */
  lemma {:induction false} TablesAre(instrs: seq<Instr>, i: nat, r: nat)
    requires i <= |instrs|
    ensures r in FutureNeed(instrs, i) <==> exists j :: i <= j < |instrs| && NeededAt(instrs, j, r)
    ensures Rank(instrs, i, r) ==
      |set j | i <= j < |instrs| && NeededAt(instrs, j, r) && r !in instrs[j].optional|
    decreases |instrs| - i
  {
    if i < |instrs| {
      TablesAre(instrs, i + 1, r);
      var rest := set j | i + 1 <= j < |instrs| && NeededAt(instrs, j, r) && r !in instrs[j].optional;
      var all := set j | i <= j < |instrs| && NeededAt(instrs, j, r) && r !in instrs[j].optional;
      if NeededAt(instrs, i, r) && r !in instrs[i].optional {
        assert all == rest + {i};
      } else {
        assert all == rest;
      }
    }
  }

  predicate Distinct(order: seq<nat>) {
    forall i, j :: 0 <= i < j < |order| ==> order[i] != order[j]
  }

  function Natives(order: seq<nat>): set<nat> {
    set n | n in order
  }

  lemma {:induction false} DistinctCard(order: seq<nat>)
    requires Distinct(order)
    ensures |Natives(order)| == |order|
  {
    if order != [] {
      var k := |order| - 1;
      DistinctCard(order[..k]);
      assert Natives(order) == Natives(order[..k]) + {order[k]};
    }
  }

  lemma SubsetCard<T>(a: set<T>, b: set<T>)
    requires a <= b
    ensures |a| <= |b|
  {
    assert b == a + (b - a);
  }

  lemma ValuesRemove(m: map<nat, nat>, r: nat)
    requires r in m && Injective(m)
    ensures (m - {r}).Values == m.Values - {m[r]}
  {
    var m' := m - {r};
    forall n | n in m.Values - {m[r]} ensures n in m'.Values {
      var s :| s in m && m[s] == n;
      assert m'[s] == n;
    }
  }

  lemma {:induction false} InjectiveCard(m: map<nat, nat>)
    requires Injective(m)
    ensures |m.Keys| == |m.Values|
    decreases m.Keys
  {
    if m.Keys == {} {
      assert m.Values == {};
    } else {
      var r :| r in m;
      var rest := m - {r};
      assert rest.Keys == m.Keys - {r};
      InjectiveCard(rest);
      ValuesRemove(m, r);
    }
  }

  /** The allocator's own invariant: the four representations of "which registers are cached
      where" agree and no native register is used twice. */
  ghost predicate Consistent(natives: set<nat>, used: set<nat>, loaded: set<nat>, v: View) {
    && v.mapping.Keys == loaded
    && (forall r :: r in v.mapping ==> v.mapping[r] in used)
    && |used| == |loaded|
    && used <= natives
    && Sound(v)
  }

  /** NativeRegsUsed is exactly the image of the mapping. */
  lemma UsedIsImage(natives: set<nat>, used: set<nat>, loaded: set<nat>, v: View)
    requires Consistent(natives, used, loaded, v)
    ensures used == v.mapping.Values
  {
    InjectiveCard(v.mapping);
    var image := v.mapping.Values;
    assert image <= used;
    assert used == image + (used - image);
  }

  lemma LoadConsistent(natives: set<nat>, used: set<nat>, loaded: set<nat>, v: View, reg: nat, n: nat)
    requires Consistent(natives, used, loaded, v) && reg !in loaded && reg < 16 && n in natives && n !in used
    ensures Consistent(natives, used + {n}, loaded + {reg}, LoadView(v, reg, n, true))
    ensures reg !in v.mapping && forall r :: r in v.mapping ==> v.mapping[r] != n
  {
  }

  lemma RoomLeft(natives: set<nat>, used: set<nat>, n: nat)
    requires used <= natives && n in natives && n !in used
    ensures |used| < |natives|
  {
    SubsetCard(used + {n}, natives);
  }

  /** Registers instruction `ins` cannot do without. */
  function Necessary(ins: Instr, pcAllocatable: bool): set<nat> {
    (ins.src - (if pcAllocatable then {} else {PC}) + ins.dst) - ins.optional
  }

  lemma Weaken(v: View, v': View)
    requires v'.mapping == v.mapping && v.dirty <= v'.dirty && v.pending <= v'.pending
    requires forall r :: r in v'.literals ==> r in v.literals && v'.literals[r] == v.literals[r]
    requires v'.pc == v.pc || v'.pc == None || PC !in v.mapping
    ensures Refines(v, [], v')
  {
  }

  /** Compiled so far: on every machine, running `code` leaves the machine coherent with the guest
      file that direct execution of `done` produces, and with the same world. */
  ghost predicate Tracks(v: View, code: seq<Op>, done: seq<Instr>) {
    forall m :: TracksOn(v, code, done, m)
  }

  ghost predicate TracksOn(v: View, code: seq<Op>, done: seq<Instr>, m: Machine) {
    && Coherent(v, Run(code, m), Direct(done, m.world, m.mem).1)
    && Run(code, m).world == Direct(done, m.world, m.mem).0
  }

  /** Prepare leaves the cache ready for the instruction. */
  lemma PreparedIsReady(v: View, ins: Instr)
    requires WellFormed(ins) && Sound(v) && v.pending <= ins.src + ins.dst && v.pc == Some(PcOf(ins))
    requires if ins.always then v.pending !! ins.src else v.pending == {}
    requires (v.mapping.Keys * ins.dst) - {PC} <= v.dirty && v.literals.Keys !! ins.dst
    ensures Ready(v, ins)
  {
  }

  lemma NeedBounds(ins: Instr, pcAllocatable: bool)
    requires WellFormed(ins)
    ensures Necessary(ins, pcAllocatable) + ins.optional <= ins.src + ins.dst
    ensures forall r :: r in Necessary(ins, pcAllocatable) + ins.optional ==> r < 16
    ensures forall r :: r in ins.dst || (r in ins.src && (r != 15 || pcAllocatable)) ==>
      r in ins.optional || r in Necessary(ins, pcAllocatable)
  {
  }

  /** Nothing is cached. */
  const EMPTY: View := View(map[], {}, {}, map[], None)

  /** The start of a block: nothing compiled. */
  lemma TracksStart()
    ensures Tracks(EMPTY, [], [])
  {
    forall m ensures TracksOn(EMPTY, [], [], m) {
    }
  }

  lemma TracksRefines(v: View, code: seq<Op>, done: seq<Instr>, ops: seq<Op>, v': View)
    requires Tracks(v, code, done) && Refines(v, ops, v')
    ensures Tracks(v', code + ops, done)
    ensures forall m :: Run(code + ops, m).mem(PC) == Run(code, m).mem(PC)
  {
    forall m ensures TracksOn(v', code + ops, done, m) && Run(code + ops, m).mem(PC) == Run(code, m).mem(PC) {
      RunConcat(code, ops, m);
      assert TracksOn(v, code, done, m);
    }
  }

  lemma TracksSetPc(v: View, code: seq<Op>, done: seq<Instr>, pc: Val)
    requires Tracks(v, code, done)
    ensures Tracks(v, code + [SetPc(pc)], done) && forall m :: Run(code + [SetPc(pc)], m).mem(PC) == pc
  {
    forall m ensures TracksOn(v, code + [SetPc(pc)], done, m) && Run(code + [SetPc(pc)], m).mem(PC) == pc {
      assert TracksOn(v, code, done, m);
      assert (code + [SetPc(pc)])[..|code|] == code;
    }
  }

  lemma TracksNative(v: View, code: seq<Op>, done: seq<Instr>, ins: Instr, stored: bool)
    requires Tracks(v, code, done) && WellFormed(ins) && Ready(v, ins)
    requires stored ==> forall m :: Run(code, m).mem(PC) == PcOf(ins)
    ensures
      var code' := code + [Native(ins, v.mapping, PcOf(ins))];
      Tracks(AfterNative(v, ins), code', done + [ins]) && PcExact(code', done + [ins], stored)
  {
    var v' := AfterNative(v, ins);
    var op := Native(ins, v.mapping, PcOf(ins));
    forall m
      ensures TracksOn(v', code + [op], done + [ins], m)
      ensures stored || Jumps(done + [ins], m) ==>
        Run(code + [op], m).mem(PC) == Direct(done + [ins], m.world, m.mem).1(PC)
    {
      assert TracksOn(v, code, done, m);
      NativeStep(v, ins, Run(code, m), Direct(done, m.world, m.mem).1);
      assert (code + [op])[..|code|] == code && (done + [ins])[..|done|] == done;
    }
  }

  lemma TracksInterpret(code: seq<Op>, done: seq<Instr>, ins: Instr)
    requires Tracks(EMPTY, code, done) && forall m :: Run(code, m).mem(PC) == PcOf(ins)
    ensures Tracks(EMPTY, code + [Interpret(ins)], done + [ins]) && PcExact(code + [Interpret(ins)], done + [ins], true)
  {
    var op := Interpret(ins);
    forall m
      ensures TracksOn(EMPTY, code + [op], done + [ins], m)
      ensures Run(code + [op], m).mem(PC) == Direct(done + [ins], m.world, m.mem).1(PC)
    {
      assert TracksOn(EMPTY, code, done, m);
      assert (code + [op])[..|code|] == code && (done + [ins])[..|done|] == done;
      assert Read(ins.src, Run(code, m).mem) == Read(ins.src, Arrived(ins, Direct(done, m.world, m.mem).1));
    }
  }

  class RegisterCache {
    const order: seq<nat>          // NativeRegAllocOrder; its length is NativeRegsAvailable
    const instrs: seq<Instr>
    const pcAllocatable: bool
    var mapping: map<nat, nat>     // Mapping, without its -1 entries
    var used: set<nat>             // NativeRegsUsed
    var loaded: set<nat>           // LoadedRegs
    var dirty: set<nat>            // DirtyRegs
    var literals: map<nat, Val>    // LiteralsLoaded with LiteralValues
    var code: seq<Op>              // what the compiler has emitted
    ghost var r15: Option<Val>     // what a mapped r15 stands for

    ghost predicate Valid()
      reads this
    {
      |Natives(order)| == |order| && Consistent(Natives(order), used, loaded, Now())
    }

    ghost function Now(): View
      reads this
    {
      View(mapping, dirty, {}, literals, r15)
    }

    constructor (order: seq<nat>, instrs: seq<Instr>, pcAllocatable: bool)
      requires Distinct(order)
      ensures Valid() && Now() == EMPTY && code == []
      ensures this.order == order && this.instrs == instrs && this.pcAllocatable == pcAllocatable
    {
      DistinctCard(order);
      this.order, this.instrs, this.pcAllocatable := order, instrs, pcAllocatable;
      mapping, used, loaded, dirty, literals, code, r15 := map[], {}, {}, {}, map[], [], None;
    }

    lemma ValidSound()
      requires Valid()
      ensures Sound(Now()) && mapping.Keys == loaded
    {
    }

    method UnloadRegister(reg: nat)
      requires Valid() && reg in loaded
      modifies `mapping, `used, `loaded, `dirty, `code
      ensures Valid() && loaded == old(loaded) - {reg}
      ensures Now() == UnloadView(old(Now()), reg)
      ensures code == old(code) + UnloadCode(old(Now()), reg)
    {
      if reg in dirty { code := code + [Save(reg, mapping[reg])]; }
      dirty := dirty - {reg};
      loaded := loaded - {reg};
      used := used - {mapping[reg]};
      mapping := mapping - {reg};
    }

    /** The first entry of the allocation order that is not in use. */
    method FirstFree() returns (i: nat)
      requires Valid()
      ensures i <= |order| && forall j :: 0 <= j < i ==> order[j] in used
      ensures i < |order| ==> order[i] !in used
      ensures if i == |order| then |loaded| == |order| else |loaded| < |order|
    {
      i := 0;
      while i < |order| && order[i] in used
        invariant i <= |order|
        invariant forall j :: 0 <= j < i ==> order[j] in used
      {
        i := i + 1;
      }
      if i == |order| {
        assert used == Natives(order);
      } else {
        RoomLeft(Natives(order), used, order[i]);
      }
    }

    /** Fails (the source aborts) exactly when every native register is taken. */
    method LoadRegister(reg: nat, loadValue: bool, pc: Val) returns (ok: bool, ghost n: nat)
      requires Valid() && reg !in loaded && reg < 16
      modifies `mapping, `used, `loaded, `code
      ensures ok <==> |old(loaded)| < |order|
      ensures !ok ==> unchanged(this)
      ensures ok ==> Valid() && loaded == old(loaded) + {reg}
      ensures ok ==> (forall r :: r in old(mapping) ==> old(mapping)[r] != n) && mapping == old(mapping)[reg := n]
      ensures ok ==> code == old(code) + LoadCode(reg, n, loadValue, pc)
    {
      hide Consistent;
      var i := FirstFree();
      if i == |order| { return false, 0; }
      n := order[i];
      LoadConsistent(Natives(order), used, loaded, Now(), reg, n);
      mapping := mapping[reg := order[i]];
      used := used + {order[i]};
      loaded := loaded + {reg};
      if loadValue { code := code + [Load(reg, order[i], pc)]; }
      ok := true;
    }

    method Emit(op: Op)
      requires Valid()
      modifies `code
      ensures Valid() && code == old(code) + [op]
    {
      code := code + [op];
    }

    /** The compiler's own code for the instruction, which may announce a constant. */
    method EmitNative(ins: Instr, pc: Val)
      requires Valid()
      modifies `code, `literals, `r15
      ensures Valid() && code == old(code) + [Native(ins, mapping, pc)]
      ensures Now() == AfterNative(old(Now()), ins)
    {
      code := code + [Native(ins, mapping, pc)];
      if ins.literal.Some? { literals := literals[ins.literal.value.0 := ins.literal.value.1]; }
      r15 := None;
    }

    /** The code emitted after c0 refines the step from view v0 to the present one. */
    ghost predicate Since(v0: View, c0: seq<Op>, pending: set<nat>)
      reads this
    {
      c0 <= code && Refines(v0, code[|c0|..], Now().(pending := pending))
    }

    lemma SinceNow(pending: set<nat>)
      ensures Since(Now().(pending := pending), code, pending)
    {
      Weaken(Now().(pending := pending), Now().(pending := pending));
      assert code[|code|..] == [];
    }

    method Drop(reg: nat, ghost v0: View, ghost c0: seq<Op>)
      requires Valid() && reg in loaded && Since(v0, c0, {})
      modifies `mapping, `used, `loaded, `dirty, `code
      ensures Valid() && loaded == old(loaded) - {reg}
      ensures Since(v0, c0, {})
    {
      ghost var v, c := Now(), code;
      UnloadRegister(reg);
      UnloadRefines(v, reg);
      RefinesThen(v0, c[|c0|..], v, UnloadCode(v, reg), Now());
      assert code[|c0|..] == c[|c0|..] + UnloadCode(v, reg);
    }

    method Take(reg: nat, loadValue: bool, pc: Val, ghost v0: View, ghost c0: seq<Op>, ghost pending: set<nat>)
      requires Valid() && reg !in loaded && reg < 16 && |loaded| < |order| && Since(v0, c0, pending)
      requires r15 == Some(pc)
      modifies `mapping, `used, `loaded, `code
      ensures Valid() && loaded == old(loaded) + {reg}
      ensures Since(v0, c0, if loadValue then pending else pending + {reg})
    {
      ghost var v, c := Now().(pending := pending), code;
      var ok, native := LoadRegister(reg, loadValue, pc);
      LoadRefines(v, reg, native, loadValue, pc);
      RefinesThen(v0, c[|c0|..], v, LoadCode(reg, native, loadValue, pc), LoadView(v, reg, native, loadValue));
      assert code[|c0|..] == c[|c0|..] + LoadCode(reg, native, loadValue, pc);
    }

    /** Unloads the registers of rs in ascending order. */
    method UnloadSet(rs: set<nat>, ghost v0: View, ghost c0: seq<Op>)
      requires Valid() && rs <= loaded && Since(v0, c0, {})
      modifies `mapping, `used, `loaded, `dirty, `code
      ensures Valid() && loaded == old(loaded) - rs
      ensures Since(v0, c0, {})
    {
      for reg := 0 to 16
        invariant Valid()
        invariant forall r :: r in loaded <==> r in old(loaded) && !(r in rs && r < reg)
        invariant Since(v0, c0, {})
      {
        if reg in rs { Drop(reg, v0, c0); }
      }
    }

    method Flush()
      requires Valid()
      modifies this
      ensures Valid() && Now() == EMPTY
      ensures Since(old(Now()), old(code), {})
    {
      SinceNow({});
      UnloadSet(loaded, Now(), code);
      ghost var v, c := Now(), code[|old(code)|..];
      literals, r15 := map[], None;
      Weaken(v, Now());
      RefinesThen(old(Now()), c, v, [], Now());
      assert c + [] == c;
    }

    /** Emits the saves of a side exit; the cache itself stays as it is for the other path. */
    method PrepareExit() returns (exit: seq<Op>)
      requires Valid()
      ensures Refines(Now(), exit, Now().(dirty := {}))
    {
      exit := [];
      Weaken(Now(), Now());
      ghost var left := dirty;
      for reg := 0 to 16
        invariant left == set r | r in dirty && r >= reg
        invariant Refines(Now(), exit, Now().(dirty := left))
      {
        if reg in dirty {
          ghost var v := Now().(dirty := left);
          SaveRefines(v, reg);
          RefinesThen(Now(), exit, v, [Save(reg, mapping[reg])], v.(dirty := left - {reg}));
          exit := exit + [Save(reg, mapping[reg])];
          left := left - {reg};
        }
      }
    }

    /** The two look-ahead tables of Prepare. */
    method LookAhead(i: nat) returns (futureNeeded: set<nat>, ranking: seq<nat>)
      requires i < |instrs|
      ensures futureNeeded == FutureNeed(instrs, i)
      ensures |ranking| == 16 && forall r :: 0 <= r < 16 ==> ranking[r] == Rank(instrs, i, r)
    {
      futureNeeded := {};
      ranking := seq(16, _ => 0);
      for j := i to |instrs|
        invariant futureNeeded + FutureNeed(instrs, j) == FutureNeed(instrs, i)
        invariant |ranking| == 16
        invariant forall r :: 0 <= r < 16 ==> ranking[r] + Rank(instrs, j, r) == Rank(instrs, i, r)
      {
        futureNeeded := futureNeeded + Need(instrs[j]);
        var needed := Need(instrs[j]) - instrs[j].optional;
        ranking := seq(16, r requires 0 <= r < 16 => if r in needed then ranking[r] + 1 else ranking[r]);
      }
    }

    /** The loaded register outside `necessary` that the fewest coming instructions need. */
    method LeastNeeded(necessary: set<nat>, ranking: seq<nat>) returns (leastReg: nat)
      requires Valid() && |ranking| == 16 && !(loaded <= necessary)
      requires forall r :: 0 <= r < 16 ==> ranking[r] < 1000
      ensures leastReg in loaded && leastReg !in necessary
      ensures forall r :: r in loaded && r !in necessary ==> ranking[leastReg] <= ranking[r]
    {
      leastReg := 16;
      var rank := 1000;
      for reg := 0 to 16
        invariant leastReg == 16 ==> rank == 1000 && forall r :: r in loaded && r !in necessary ==> r >= reg
        invariant leastReg != 16 ==> leastReg in loaded && leastReg !in necessary && rank == ranking[leastReg]
        invariant leastReg != 16 ==> forall r :: r in loaded && r !in necessary && r < reg ==> rank <= ranking[r]
      {
        if reg in loaded && reg !in necessary && ranking[reg] < rank {
          leastReg := reg;
          rank := ranking[reg];
        }
      }
    }

    /** Makes room for the necessary registers that are not cached yet. */
    method Evict(necessary: set<nat>, ranking: seq<nat>, ghost v0: View, ghost c0: seq<Op>)
      requires Valid() && |ranking| == 16 && |necessary| <= |order| && Since(v0, c0, {})
      requires forall r :: 0 <= r < 16 ==> ranking[r] < 1000
      modifies `mapping, `used, `loaded, `dirty, `code
      ensures Valid() && loaded <= old(loaded) && necessary - loaded == necessary - old(loaded)
      ensures |loaded| + |necessary - loaded| <= |order|
      ensures Since(v0, c0, {})
    {
      var neededCount := |necessary - loaded|;
      while |loaded| + neededCount > |order|
        invariant Valid() && loaded <= old(loaded)
        invariant necessary - loaded == necessary - old(loaded)
        invariant Since(v0, c0, {})
        decreases |loaded|
      {
        assert loaded <= necessary ==> necessary == loaded + (necessary - loaded);
        var leastReg := LeastNeeded(necessary, ranking);
        Drop(leastReg, v0, c0);
      }
    }

    /** Loads registers of rs in ascending order until `left` have been loaded; a register
        outside withValue gets a native register that holds no value yet. */
    method LoadSet(rs: set<nat>, withValue: set<nat>, left: nat, pc: Val, ghost v0: View, ghost c0: seq<Op>,
                   ghost pending: set<nat>) returns (ghost pending': set<nat>)
      requires Valid() && rs !! loaded && (forall r :: r in rs ==> r < 16)
      requires |loaded| + left <= |order| && Since(v0, c0, pending) && r15 == Some(pc)
      modifies `mapping, `used, `loaded, `code
      ensures Valid() && old(loaded) <= loaded <= old(loaded) + rs
      ensures left >= |rs| ==> rs <= loaded
      ensures pending' == pending + (loaded - old(loaded) - withValue)
      ensures Since(v0, c0, pending')
    {
      hide Refines, Consistent, Since, Valid, Now;
      pending' := pending;
      var rest, reg := left, 0;
      while reg < 16 && !(reg in rs && rest == 0)
        invariant reg <= 16 && Valid()
        invariant old(loaded) <= loaded <= old(loaded) + rs
        invariant forall r :: r in rs ==> (r in loaded <==> r < reg)
        invariant |loaded| + rest == |old(loaded)| + left
        invariant pending' == pending + (loaded - old(loaded) - withValue)
        invariant Since(v0, c0, pending')
      {
        if reg in rs {
          rest := rest - 1;
          Take(reg, reg in withValue, pc, v0, c0, pending');
          if reg !in withValue { pending' := pending' + {reg}; }
        }
        reg := reg + 1;
      }
      if reg < 16 { SubsetCard(loaded + {reg}, old(loaded) + rs); }
    }

    /** First part of Prepare: r15 and every register no later instruction uses leave the cache, and
        constants the instruction overwrites are forgotten. */
    method Retire(dst: set<nat>, futureNeeded: set<nat>, ghost pc: Val)
      requires Valid()
      modifies this
      ensures Valid() && loaded == old(loaded) * futureNeeded - {PC} && literals == old(literals) - dst
      ensures r15 == Some(pc)
      ensures Since(old(Now()), old(code), {})
    {
      hide Refines, Consistent;
      SinceNow({});
      if PC in loaded { Drop(PC, old(Now()), old(code)); }
      Arrive(pc, old(Now()), old(code));
      Forget(dst, old(Now()), old(code));
      UnloadSet(loaded - futureNeeded, old(Now()), old(code));
    }

    /** From here on r15 is that of another instruction. */
    ghost method Arrive(pc: Val, v0: View, c0: seq<Op>)
      requires Valid() && PC !in loaded && Since(v0, c0, {})
      modifies `r15
      ensures Valid() && r15 == Some(pc) && Since(v0, c0, {})
    {
      hide Refines;
      var v, c := Now(), code[|c0|..];
      r15 := Some(pc);
      Weaken(v, Now());
      RefinesThen(v0, c, v, [], Now());
      assert c + [] == c;
    }

    method Forget(dst: set<nat>, ghost v0: View, ghost c0: seq<Op>)
      requires Valid() && Since(v0, c0, {})
      modifies `literals
      ensures Valid() && literals == old(literals) - dst && Since(v0, c0, {})
    {
      hide Refines;
      ghost var v, c := Now(), code[|c0|..];
      literals := literals - dst;
      Weaken(v, Now());
      RefinesThen(v0, c, v, [], Now());
      assert c + [] == c;
    }

    /** Second part: every necessary register is cached, with its value unless the instruction is
        sure to overwrite it. */
    method LoadNecessary(necessary: set<nat>, withValue: set<nat>, ranking: seq<nat>, pc: Val,
                         ghost v0: View, ghost c0: seq<Op>) returns (ghost pending: set<nat>)
      requires Valid() && |ranking| == 16 && |necessary| <= |order| && Since(v0, c0, {}) && r15 == Some(pc)
      requires forall r :: 0 <= r < 16 ==> ranking[r] < 1000
      requires forall r :: r in necessary ==> r < 16
      modifies `mapping, `used, `loaded, `dirty, `code
      ensures Valid() && necessary <= loaded <= old(loaded) + necessary
      ensures pending <= necessary - withValue && Since(v0, c0, pending)
    {
      hide Refines, Consistent;
      pending := {};
      var needToBeLoaded := necessary - loaded;
      assert necessary <= loaded + needToBeLoaded;
      if needToBeLoaded != {} {
        Evict(necessary, ranking, v0, c0);
        assert necessary <= loaded + needToBeLoaded;
        pending := LoadSet(needToBeLoaded, withValue, |needToBeLoaded|, pc, v0, c0, pending);
      }
    }

    /** Third part: registers the instruction could also leave in memory, while there is room. */
    method LoadOptional(optional: set<nat>, withValue: set<nat>, pc: Val, ghost v0: View, ghost c0: seq<Op>,
                        ghost pending: set<nat>) returns (ghost pending': set<nat>)
      requires Valid() && (forall r :: r in optional ==> r < 16) && Since(v0, c0, pending) && r15 == Some(pc)
      modifies `mapping, `used, `loaded, `code
      ensures Valid() && old(loaded) <= loaded <= old(loaded) + optional
      ensures pending' <= pending + (optional - withValue) && Since(v0, c0, pending')
    {
      hide Refines, Consistent;
      pending' := pending;
      var loadRegs := optional - loaded;
      if loadRegs != {} && |loaded| < |order| {
        pending' := LoadSet(loadRegs, withValue, |order| - |loaded|, pc, v0, c0, pending);
      }
    }

    /** Last part: mapped destinations are newer than memory from now on. */
    method MarkDirty(dst: set<nat>, ghost v0: View, ghost c0: seq<Op>, ghost pending: set<nat>)
      requires Valid() && Since(v0, c0, pending)
      modifies `dirty
      ensures Valid() && dirty == old(dirty) + (loaded * dst - {PC})
      ensures Since(v0, c0, pending)
    {
      hide Refines;
      ghost var v, c := Now().(pending := pending), code[|c0|..];
      dirty := dirty + (loaded * dst - {PC});
      Weaken(v, Now().(pending := pending));
      RefinesThen(v0, c, v, [], Now().(pending := pending));
      assert c + [] == c;
    }

    /** Second and third part together. */
    method Allocate(necessary: set<nat>, optional: set<nat>, always: bool, src: set<nat>, ranking: seq<nat>, pc: Val,
                    ghost v0: View, ghost c0: seq<Op>) returns (ghost pending: set<nat>)
      requires Valid() && |ranking| == 16 && |necessary| <= |order| && Since(v0, c0, {}) && r15 == Some(pc)
      requires forall r :: 0 <= r < 16 ==> ranking[r] < 1000
      requires (forall r :: r in necessary ==> r < 16) && (forall r :: r in optional ==> r < 16)
      modifies `mapping, `used, `loaded, `dirty, `code
      ensures Valid() && necessary <= loaded <= old(loaded) + necessary + optional
      ensures pending <= necessary + optional && (if always then pending !! src else pending == {})
      ensures Since(v0, c0, pending)
    {
      hide Refines, Consistent;
      // a value that is always going to be overwritten need not be loaded
      pending := LoadNecessary(necessary, if always then src else necessary, ranking, pc, v0, c0);
      pending := LoadOptional(optional, if always then src else optional, pc, v0, c0, pending);
    }

    method Prepare(i: nat, pc: Val) returns (ghost pending: set<nat>)
      requires Valid() && i < |instrs| <= 32 && WellFormed(instrs[i])
      requires |Necessary(instrs[i], pcAllocatable)| <= |order| && pc == PcOf(instrs[i])
      modifies this
      ensures Valid() && Ready(Now().(pending := pending), instrs[i])
      ensures Necessary(instrs[i], pcAllocatable) <= loaded
      ensures forall r :: NeededAt(instrs, i, r) || (pcAllocatable && 15 in instrs[i].src && r == 15) ==>
        r in instrs[i].optional || r in loaded
      ensures loaded <= FutureNeed(instrs, i) + Necessary(instrs[i], pcAllocatable)
      ensures Since(old(Now()), old(code), pending)
    {
      hide Refines, Consistent, Ready, Necessary, FutureNeed, Since;
      var instr := instrs[i];
      var futureNeeded, ranking := LookAhead(i);
      Retire(instr.dst, futureNeeded, pc);
      var necessary, optional := Necessary(instr, pcAllocatable), instr.optional * futureNeeded;
      NeedBounds(instr, pcAllocatable);
      pending := Allocate(necessary, optional, instr.always, instr.src, ranking, pc, old(Now()), old(code));
      MarkDirty(instr.dst, old(Now()), old(code), pending);
      ValidSound();
      PreparedIsReady(Now().(pending := pending), instr);
    }
  }

  /** The emitted code leaves r0-r14 as direct execution does. */
  ghost predicate MemoryExact(code: seq<Op>, done: seq<Instr>) {
    forall m, r :: 0 <= r < PC ==> Run(code, m).mem(r) == Direct(done, m.world, m.mem).1(r)
  }

  /** The last instruction runs and branches. */
  ghost predicate Jumps(done: seq<Instr>, m: Machine)
    requires done != []
  {
    var n := |done| - 1;
    PC in done[n].dst && done[n].runs(Direct(done[..n], m.world, m.mem).0)
  }

  /** So it does r15, after a branch and wherever the block has stored r15 beforehand. */
  ghost predicate PcExact(code: seq<Op>, done: seq<Instr>, stored: bool)
    requires done != []
  {
    forall m :: stored || Jumps(done, m) ==> Run(code, m).mem(PC) == Direct(done, m.world, m.mem).1(PC)
  }

  /** Where the compiler stores r15 before the instruction: interpreted ones, followed branches, and a last
      one that need not branch. */
  predicate StoresPc(instrs: seq<Instr>, i: nat)
    requires i < |instrs|
  {
    var ins := instrs[i];
    !ins.canCompile || ins.follows || (i == |instrs| - 1 && (PC !in ins.dst || ins.conditional))
  }

  lemma TracksExact(v: View, code: seq<Op>, done: seq<Instr>)
    requires Tracks(v, code, done) && v.dirty == {}
    ensures MemoryExact(code, done)
    ensures forall m :: Run(code, m).world == Direct(done, m.world, m.mem).0
  {
    forall m
      ensures Run(code, m).world == Direct(done, m.world, m.mem).0
      ensures forall r :: 0 <= r < PC ==> Run(code, m).mem(r) == Direct(done, m.world, m.mem).1(r)
    {
      assert TracksOn(v, code, done, m);
    }
  }

  lemma PcKept(code: seq<Op>, code': seq<Op>, done: seq<Instr>, stored: bool)
    requires done != [] && PcExact(code, done, stored)
    requires forall m :: Run(code', m).mem(PC) == Run(code, m).mem(PC)
    ensures PcExact(code', done, stored)
  {
  }

  /** The code of one instruction, with what surrounds it. */
  method EmitInstr(cache: RegisterCache, i: nat, r15: Val, ghost stored: bool)
    requires cache.Valid() && i < |cache.instrs| <= 32 && WellFormed(cache.instrs[i])
    requires |Necessary(cache.instrs[i], cache.pcAllocatable)| <= |cache.order| && r15 == PcOf(cache.instrs[i])
    requires Tracks(cache.Now(), cache.code, cache.instrs[..i])
    requires !cache.instrs[i].canCompile ==> stored
    requires stored ==> forall m :: Run(cache.code, m).mem(PC) == r15
    modifies cache
    ensures cache.Valid() && Tracks(cache.Now(), cache.code, cache.instrs[..i] + [cache.instrs[i]])
    ensures PcExact(cache.code, cache.instrs[..i] + [cache.instrs[i]], stored)
  {
    hide Refines, Consistent, Tracks, PcExact, PcOf, WellFormed, Ready, Necessary, FutureNeed, Run;
    var ins := cache.instrs[i];
    ghost var done := cache.instrs[..i];
    ghost var v, c := cache.Now(), cache.code;
    if ins.canCompile {
      ghost var pending := cache.Prepare(i, r15);
      ghost var w := cache.Now().(pending := pending);
      TracksRefines(v, c, done, cache.code[|c|..], w);
      assert c + cache.code[|c|..] == cache.code;
      TracksNative(w, cache.code, done, ins, stored);
      cache.EmitNative(ins, r15);
    } else {
      cache.Flush();
      TracksRefines(v, c, done, cache.code[|c|..], cache.Now());
      assert c + cache.code[|c|..] == cache.code;
      TracksInterpret(cache.code, done, ins);
      cache.Emit(Interpret(ins));
    }
  }

  /** One round of the compile loop. */
  method CompileInstr(cache: RegisterCache, i: nat, thumb: bool) returns (exit: seq<Op>)
    requires cache.Valid() && i < |cache.instrs| <= 32 && WellFormed(cache.instrs[i])
    requires |Necessary(cache.instrs[i], cache.pcAllocatable)| <= |cache.order| && cache.instrs[i].thumb == thumb
    requires Tracks(cache.Now(), cache.code, cache.instrs[..i])
    modifies cache
    ensures cache.Valid() && Tracks(cache.Now(), cache.code, cache.instrs[..i + 1])
    ensures MemoryExact(exit, cache.instrs[..i + 1])
    ensures PcExact(exit, cache.instrs[..i + 1], StoresPc(cache.instrs, i))
    ensures PcExact(cache.code, cache.instrs[..i + 1], StoresPc(cache.instrs, i))
  {
    hide Refines, Consistent, Tracks, MemoryExact, PcExact, WellFormed, Necessary, Run;
    var ins := cache.instrs[i];
    var r15 := (ins.addr + if thumb then 4 else 8) % 0x1_0000_0000;
    ghost var done := cache.instrs[..i];
    assert cache.instrs[..i + 1] == done + [ins];
    if !ins.canCompile || ins.follows || (i == |cache.instrs| - 1 && (PC !in ins.dst || ins.conditional)) {
      TracksSetPc(cache.Now(), cache.code, done, r15);
      cache.Emit(SetPc(r15));
    }
    EmitInstr(cache, i, r15, StoresPc(cache.instrs, i));
    exit := cache.PrepareExit();
    TracksRefines(cache.Now(), cache.code, done + [ins], exit, cache.Now().(dirty := {}));
    exit := cache.code + exit;
    TracksExact(cache.Now().(dirty := {}), exit, done + [ins]);
    PcKept(cache.code, exit, done + [ins], StoresPc(cache.instrs, i));
  }

  /** Compiles a block: Prepare and native code where the instruction has a compiler, a flush and
      an interpreter call where it has none, a flush at the end.  exits[i] is the code of the path
      that leaves the block after instruction i. */
  method CompileBlock(order: seq<nat>, instrs: seq<Instr>, pcAllocatable: bool, thumb: bool)
      returns (code: seq<Op>, exits: seq<seq<Op>>)
    requires Distinct(order) && |instrs| <= 32
    requires forall i :: 0 <= i < |instrs| ==> WellFormed(instrs[i]) && instrs[i].thumb == thumb
    requires forall i :: 0 <= i < |instrs| ==> |Necessary(instrs[i], pcAllocatable)| <= |order|
    ensures MemoryExact(code, instrs)
    ensures instrs != [] ==> PcExact(code, instrs, StoresPc(instrs, |instrs| - 1))
    ensures forall m :: Run(code, m).world == Direct(instrs, m.world, m.mem).0
    ensures |exits| == |instrs|
    ensures forall i :: 0 <= i < |instrs| ==> MemoryExact(exits[i], instrs[..i + 1])
    ensures forall i :: 0 <= i < |instrs| ==> PcExact(exits[i], instrs[..i + 1], StoresPc(instrs, i))
  {
    hide Refines, Consistent, MemoryExact, PcExact, Tracks, StoresPc, WellFormed, Necessary, Run, Direct;
    var cache := new RegisterCache(order, instrs, pcAllocatable);
    exits := [];
    TracksStart();
    assert instrs[..0] == [];
    for i := 0 to |instrs|
      invariant cache.Valid() && cache.order == order && cache.instrs == instrs && cache.pcAllocatable == pcAllocatable
      invariant Tracks(cache.Now(), cache.code, instrs[..i])
      invariant |exits| == i
      invariant i > 0 ==> PcExact(cache.code, instrs[..i], StoresPc(instrs, i - 1))
      invariant forall k :: 0 <= k < i ==> MemoryExact(exits[k], instrs[..k + 1])
      invariant forall k :: 0 <= k < i ==> PcExact(exits[k], instrs[..k + 1], StoresPc(instrs, k))
    {
      var exit := CompileInstr(cache, i, thumb);
      exits := exits + [exit];
    }
    ghost var v, c := cache.Now(), cache.code;
    cache.Flush();
    assert instrs[..|instrs|] == instrs;
    TracksRefines(v, c, instrs, cache.code[|c|..], cache.Now());
    assert c + cache.code[|c|..] == cache.code;
    TracksExact(cache.Now(), cache.code, instrs);
    if instrs != [] { PcKept(c, cache.code, instrs, StoresPc(instrs, |instrs| - 1)); }
    code := cache.code;
  }
}
