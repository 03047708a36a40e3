/**
  What a DMA transfer amounts to when nothing interrupts it: one loop that copies unit after unit.
  The controllers of the modules Dmas and Ndmas are proved against it.
 */
module BlockCopies {
  import Arithmetic

  /** Plain memory, by byte address. */
  type Memory = nat -> nat

  const SPACE: nat := 0x1_0000_0000

  /** Adds a signed step to a 32-bit address. */
  function Step(a: nat, inc: int): (r: nat)
    ensures r < SPACE
  {
    (a + inc) % SPACE
  }

  /** The address of unit n of a walk from a. */
  function At(a: nat, inc: int, n: nat): nat {
    if n == 0 then a else Step(At(a, inc, n - 1), inc)
  }

  /** A unit is a halfword or a word. */
  type Width = w: nat | w == 2 || w == 4 witness 2

  /** The size of n units. */
  function Size(n: nat, width: Width): nat {
    if width == 2 then 2 * n else 4 * n
  }

  /** Bus reads and writes ignore the low address bits. */
  function Align(a: nat, width: Width): (r: nat)
    ensures r <= a < r + width && Aligned(r, width)
    ensures Aligned(a, width) ==> r == a
  {
    if width == 2 then a - a % 2 else a - a % 4
  }

  /** The place of byte o within its unit. */
  function Phase(o: nat, width: Width): nat {
    o - Align(o, width)
  }

  predicate Aligned(a: nat, width: Width) {
    if width == 2 then a % 2 == 0 else a % 4 == 0
  }

  datatype Source = Fill(bytes: nat -> nat) | Walk(at: nat, inc: int)

  datatype Job = Job(source: Source, dst: nat, dstInc: int, width: Width)

  /** width bytes from s to d. */
  function CopyUnit(m: Memory, s: nat, d: nat, width: Width): Memory {
    (a: nat) => if d <= a < d + width then m(s + (a - d)) else m(a)
  }

  function FillUnit(m: Memory, bytes: nat -> nat, d: nat, width: Width): Memory {
    (a: nat) => if d <= a < d + width then bytes(a - d) else m(a)
  }

  /** One unit, from the source to the destination. */
  function Move(j: Job, m: Memory, i: nat): Memory {
    var d := Align(At(j.dst, j.dstInc, i), j.width);
    match j.source
    case Fill(bytes) => FillUnit(m, bytes, d, j.width)
    case Walk(at, inc) => CopyUnit(m, Align(At(at, inc, i), j.width), d, j.width)
  }

  /** The first n units, one after the other. */
  function Copied(j: Job, m: Memory, n: nat): Memory {
    if n == 0 then m else Move(j, Copied(j, m, n - 1), n - 1)
  }

  /** The loop after n units, but a side that goes back starts where it did. */
  function Rewound(j: Job, srcBack: bool, dstBack: bool, n: nat): Job {
    var source := match j.source
      case Fill(bytes) => Fill(bytes)
      case Walk(at, inc) => Walk(if srcBack then at else At(at, inc, n), inc);
    Job(source, if dstBack then j.dst else At(j.dst, j.dstInc, n), j.dstInc, j.width)
  }

  lemma {:induction false} AtAdds(a: nat, inc: int, n: nat, k: nat)
    ensures At(At(a, inc, n), inc, k) == At(a, inc, n + k)
  {
    if k > 0 { AtAdds(a, inc, n, k - 1); }
  }

  /** n units, and then k from there, are n + k. */
  lemma {:induction false} CopiedAdds(j: Job, m: Memory, n: nat, k: nat)
    ensures Copied(Rewound(j, false, false, n), Copied(j, m, n), k) == Copied(j, m, n + k)
  {
    hide Align, CopyUnit, FillUnit;
    if k > 0 {
      CopiedAdds(j, m, n, k - 1);
      if j.source.Walk? { AtAdds(j.source.at, j.source.inc, n, k - 1); }
      AtAdds(j.dst, j.dstInc, n, k - 1);
    }
  }

  // ----- What the loop does to memory -----

  /** Walking up inside the address space. */
  lemma {:induction false} WalkUp(a: nat, width: Width, n: nat)
    requires a + Size(n, width) < SPACE
    ensures At(a, width, n) == a + Size(n, width)
  {
    if n > 0 { WalkUp(a, width, n - 1); }
  }

  function Rest(o: nat, gap: nat): nat
    requires gap > 0
  {
    o % gap
  }

  /** The source byte that ends up at offset o of the destination.  When the destination starts
      inside the source, the loop rereads what it has written, and the gap between the two repeats. */
  function Origin(src: nat, dst: nat, size: nat, o: nat): nat {
    if src < dst < src + size then src + Rest(o, dst - src) else src + o
  }

  predicate Placed(src: nat, dst: nat, width: Width, n: nat) {
    && Aligned(src, width) && Aligned(dst, width)
    && src + Size(n, width) < SPACE && dst + Size(n, width) < SPACE
  }

  function UpJob(src: nat, dst: nat, width: Width): Job {
    Job(Walk(src, width), dst, width, width)
  }

  predicate InLast(dst: nat, width: Width, n: nat, a: nat)
    requires n > 0
  {
    dst + Size(n - 1, width) <= a < dst + Size(n, width)
  }

  /** Where the byte at a was before the last of n units was copied. */
  function Before(src: nat, dst: nat, width: Width, n: nat, a: nat): nat
    requires n > 0
  {
    if InLast(dst, width, n, a) then src + (a - dst) else a
  }

  /** The last of n units, by itself. */
  lemma LastUnit(src: nat, dst: nat, width: Width, m: Memory, n: nat, a: nat)
    requires Placed(src, dst, width, n) && n > 0
    ensures
      var j := UpJob(src, dst, width);
      Placed(src, dst, width, n - 1) && Copied(j, m, n)(a) == Copied(j, m, n - 1)(Before(src, dst, width, n, a))
  {
    hide Copied, Align, At, Aligned, Move, Size, InLast;
    PlacedBefore(src, dst, width, n);
    var j, o := UpJob(src, dst, width), Size(n - 1, width);
    WalkUp(src, width, n - 1);
    WalkUp(dst, width, n - 1);
    CopiedStep(j, m, n);
    MoveUp(src, dst, width, Copied(j, m, n - 1), n - 1, o, a);
    InLastIs(dst, width, n, a);
  }

  lemma InLastIs(dst: nat, width: Width, n: nat, a: nat)
    requires n > 0
    ensures
      var o := dst + Size(n - 1, width);
      InLast(dst, width, n, a) <==> o <= a < o + width
  {
  }

  /** One unit of an upward copy whose addresses are known. */
  lemma MoveUp(src: nat, dst: nat, width: Width, before: Memory, i: nat, o: nat, a: nat)
    requires At(src, width, i) == src + o && At(dst, width, i) == dst + o
    requires Aligned(src + o, width) && Aligned(dst + o, width)
    ensures Move(UpJob(src, dst, width), before, i)(a) == if dst + o <= a < dst + o + width
      then before(src + (a - dst)) else before(a)
  {
    hide At, Aligned, Align, CopyUnit;
    CopyUnitAt(before, src + o, dst + o, width, a);
  }

  lemma CopyUnitAt(m: Memory, s: nat, d: nat, width: Width, a: nat)
    ensures CopyUnit(m, s, d, width)(a) == if d <= a < d + width then m(s + (a - d)) else m(a)
  {
  }

  lemma PlacedBefore(src: nat, dst: nat, width: Width, n: nat)
    requires Placed(src, dst, width, n) && n > 0
    ensures
      var o := Size(n - 1, width);
      Placed(src, dst, width, n - 1) && src + o < SPACE && dst + o < SPACE && Aligned(src + o, width)
        && Aligned(dst + o, width)
  {
  }

  lemma CopiedStep(j: Job, m: Memory, n: nat)
    requires n > 0
    ensures Copied(j, m, n) == Move(j, Copied(j, m, n - 1), n - 1)
  {
    hide Move;
  }

  /** The byte at a after size bytes were copied upward. */
  function Landed(src: nat, dst: nat, size: nat, m: Memory, a: nat): nat {
    if dst <= a < dst + size then m(Origin(src, dst, size, a - dst)) else m(a)
  }

  /** An upward copy of n aligned units, for any placement of the two regions. */
  lemma {:induction false} CopyIs(src: nat, dst: nat, width: Width, m: Memory, n: nat, a: nat)
    requires Placed(src, dst, width, n)
    ensures Copied(UpJob(src, dst, width), m, n)(a) == Landed(src, dst, Size(n, width), m, a)
    decreases n
  {
    hide Copied, Origin, UpJob, Landed, Size, Aligned;
    if n == 0 {
      NoUnits(src, dst, width, m, a);
    } else {
      LastUnit(src, dst, width, m, n, a);
      var b := Before(src, dst, width, n, a);
      CopyIs(src, dst, width, m, n - 1, b);
      Lands(src, dst, width, m, n, a);
    }
  }

  lemma NoUnits(src: nat, dst: nat, width: Width, m: Memory, a: nat)
    ensures Copied(UpJob(src, dst, width), m, 0)(a) == Landed(src, dst, Size(0, width), m, a)
  {
  }

  lemma Lands(src: nat, dst: nat, width: Width, m: Memory, n: nat, a: nat)
    requires Placed(src, dst, width, n) && n > 0
    ensures Landed(src, dst, Size(n - 1, width), m, Before(src, dst, width, n, a)) ==
      Landed(src, dst, Size(n, width), m, a)
  {
    hide Origin;
    if dst + Size(n - 1, width) <= a < dst + Size(n, width) {
      Reread(src, dst, width, n, a - dst);
    } else if dst <= a < dst + Size(n - 1, width) {
      Keeps(src, dst, width, n, a - dst);
    }
  }

  /** An offset of the last unit is read where it was written a gap earlier, if it was written. */
  lemma Reread(src: nat, dst: nat, width: Width, n: nat, o: nat)
    requires Placed(src, dst, width, n) && n > 0 && Size(n - 1, width) <= o < Size(n, width)
    ensures
      var read := src + o;
      Origin(src, dst, Size(n, width), o) == if dst <= read < dst + Size(n - 1, width)
        then Origin(src, dst, Size(n - 1, width), read - dst) else read
  {
    hide Rest;
    if src < dst < src + Size(n, width) {
      var gap := dst - src;
      GapOfUnits(src, dst, width, n);
      ModDown(o, gap);
      if gap == Size(n - 1, width) { ModSmall(o - gap, gap); }
    }
  }

  /** The gap is a whole number of units. */
  lemma GapOfUnits(src: nat, dst: nat, width: Width, n: nat)
    requires Placed(src, dst, width, n) && n > 0 && src < dst < src + Size(n, width)
    ensures width <= dst - src <= Size(n - 1, width)
  {
  }

  lemma Keeps(src: nat, dst: nat, width: Width, n: nat, o: nat)
    requires Placed(src, dst, width, n) && n > 0 && o < Size(n - 1, width)
    ensures Origin(src, dst, Size(n, width), o) == Origin(src, dst, Size(n - 1, width), o)
  {
    hide Rest;
    if src + Size(n - 1, width) <= dst < src + Size(n, width) { ModSmall(o, dst - src); }
  }

  lemma ModSmall(o: nat, gap: nat)
    requires o < gap
    ensures Rest(o, gap) == o
  {
  }

  lemma ModDown(o: nat, gap: nat)
    requires 0 < gap <= o
    ensures Rest(o - gap, gap) == Rest(o, gap)
  {
    var q, r := o / gap, o % gap;
    assert o == gap * q + r;
    assert o - gap == gap * (q - 1) + r;
    Arithmetic.ModUnique(o - gap, gap, q - 1, r);
  }

  /** The loop is a faithful move exactly when the destination does not start inside the source. */
  lemma FaithfulIff(src: nat, dst: nat, width: Width, n: nat)
    requires Placed(src, dst, width, n)
    ensures (forall m: Memory :: Faithful(src, dst, width, n, m)) <==> !(src < dst < src + Size(n, width))
  {
    hide Copied, Size, UpJob;
    var j := UpJob(src, dst, width);
    if src < dst < src + Size(n, width) {
      var m: Memory := (a: nat) => if a == src then 1 else 0;
      var a := dst + (dst - src);
      CopyIs(src, dst, width, m, n, a);
      assert (dst - src) % (dst - src) == 0;
      assert Copied(j, m, n)(a) != m(src + (a - dst));
      assert !Faithful(src, dst, width, n, m);
    } else {
      forall m: Memory ensures Faithful(src, dst, width, n, m) {
        forall a: nat | dst <= a < dst + Size(n, width) ensures Copied(j, m, n)(a) == m(src + (a - dst)) {
          CopyIs(src, dst, width, m, n, a);
        }
      }
    }
  }

  ghost predicate Faithful(src: nat, dst: nat, width: Width, n: nat, m: Memory) {
    forall a: nat :: dst <= a < dst + Size(n, width) ==>
      Copied(UpJob(src, dst, width), m, n)(a) == m(src + (a - dst))
  }

  lemma PhaseOfLast(n: nat, width: Width, o: nat)
    requires o < width
    ensures Phase(Size(n, width) + o, width) == o
  {
  }

  /** The byte at a after size bytes were filled. */
  function Filled(bytes: nat -> nat, dst: nat, width: Width, size: nat, m: Memory, a: nat): nat {
    if dst <= a < dst + size then bytes(Phase(a - dst, width)) else m(a)
  }

  lemma NoFill(bytes: nat -> nat, dst: nat, width: Width, m: Memory, a: nat)
    ensures Copied(Job(Fill(bytes), dst, width, width), m, 0)(a) == Filled(bytes, dst, width, 0, m, a)
  {
  }

  lemma LastFill(bytes: nat -> nat, dst: nat, width: Width, m: Memory, n: nat, a: nat)
    requires Aligned(dst, width) && dst + Size(n, width) < SPACE && n > 0
    ensures
      var j := Job(Fill(bytes), dst, width, width);
      Copied(j, m, n)(a) == if InLast(dst, width, n, a) then bytes(Phase(a - dst, width)) else Copied(j, m, n - 1)(a)
  {
    hide Copied, Align, At, Phase;
    var j := Job(Fill(bytes), dst, width, width);
    WalkUp(dst, width, n - 1);
    CopiedStep(j, m, n);
    var d := dst + Size(n - 1, width);
    assert Aligned(d, width);
    if d <= a < d + width { PhaseOfLast(n - 1, width, a - d); }
  }

  /** A fill writes the pattern to every unit and nothing else. */
  lemma {:induction false} FillIs(bytes: nat -> nat, dst: nat, width: Width, m: Memory, n: nat, a: nat)
    requires Aligned(dst, width) && dst + Size(n, width) < SPACE
    ensures Copied(Job(Fill(bytes), dst, width, width), m, n)(a) == Filled(bytes, dst, width, Size(n, width), m, a)
    decreases n
  {
    hide Copied, Phase, Aligned;
    if n == 0 {
      NoFill(bytes, dst, width, m, a);
    } else {
      LastFill(bytes, dst, width, m, n, a);
      FillIs(bytes, dst, width, m, n - 1, a);
    }
  }
}
