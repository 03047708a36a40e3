/**
  What a DMA transfer leaves in memory, byte by byte, in every address mode: 0 walks up, 1 walks down, 2 stays,
  and 3 walks up where it is allowed.
 */
module TransferOutcomes {
  import opened BlockCopies

  /** The address of unit k of a side, around the end of the address space. */
  function Place(start: nat, mode: nat, wide: bool, k: nat): nat {
    match mode
    case 1 => if wide then (start - 4 * k) % 0x1_0000_0000 else (start - 2 * k) % 0x1_0000_0000
    case 2 => start
    case _ => if wide then (start + 4 * k) % 0x1_0000_0000 else (start + 2 * k) % 0x1_0000_0000
  }

  predicate InUnit(a: nat, unit: nat, wide: bool) {
    unit <= a < unit + if wide then 4 else 2
  }

  /** A side whose addresses are whole units. */
  predicate Proper(start: nat, wide: bool) {
    start < 0x1_0000_0000 && start % (if wide then 4 else 2) == 0
  }

  /** No unit is both read and written. */
  ghost predicate Apart(src: nat, srcMode: nat, dst: nat, dstMode: nat, wide: bool, n: nat) {
    forall j: nat, k: nat :: j < n && k < n ==> Place(src, srcMode, wide, j) != Place(dst, dstMode, wide, k)
  }

  /** The unit at d holds what the unit at s held. */
  predicate Holds(m': Memory, d: nat, m: Memory, s: nat, wide: bool) {
    && m'(d) == m(s) && m'(d + 1) == m(s + 1)
    && (wide ==> m'(d + 2) == m(s + 2) && m'(d + 3) == m(s + 3))
  }

  /** Every unit is where it belongs, a fixed destination holds the last one, and no other byte has changed. */
  ghost predicate Arrives(m: Memory, m': Memory, src: nat, srcMode: nat, dst: nat, dstMode: nat, wide: bool, n: nat) {
    && (forall k: nat :: k < n && (dstMode == 2 ==> k == n - 1) ==>
      Holds(m', Place(dst, dstMode, wide, k), m, Place(src, srcMode, wide, k), wide))
    && OthersKept(m, m', dst, dstMode, wide, n)
  }

  ghost predicate OthersKept(m: Memory, m': Memory, dst: nat, dstMode: nat, wide: bool, n: nat) {
    forall a: nat :: (forall k: nat :: k < n ==> !InUnit(a, Place(dst, dstMode, wide, k), wide)) ==> m'(a) == m(a)
  }

  /** The unit that a fixed destination holds in the end: the last one, or the one before when the last was
      read from the destination itself. */
  function LastRead(src: nat, srcMode: nat, dst: nat, wide: bool, n: nat): nat
    requires n > 0
  {
    if n > 1 && Place(src, srcMode, wide, n - 1) == dst then n - 2 else n - 1
  }

  /** What n units leave behind.  The regions may overlap where both sides walk up, where the source stays
      and where the destination stays. */
  ghost predicate Outcome(m: Memory, m': Memory, src: nat, srcMode: nat, dst: nat, dstMode: nat, wide: bool, n: nat) {
    Proper(src, wide) && Proper(dst, wide) && 4 * n <= 0x1_0000_0000 ==>
      && OthersKept(m, m', dst, dstMode, wide, n)
      && (srcMode == 2 || Apart(src, srcMode, dst, dstMode, wide, n) ==>
        Arrives(m, m', src, srcMode, dst, dstMode, wide, n))
      && (dstMode == 2 && srcMode != 2 && n > 0 ==>
        Holds(m', dst, m, Place(src, srcMode, wide, LastRead(src, srcMode, dst, wide, n)), wide))
      && (srcMode in {0, 3} && dstMode in {0, 3} ==> UpOnly(m, m', src, dst, if wide then 4 * n else 2 * n))
  }

  ghost predicate UpOnly(m: Memory, m': Memory, src: nat, dst: nat, size: nat) {
    src + size < 0x1_0000_0000 && dst + size < 0x1_0000_0000 ==> forall a: nat :: m'(a) == Landed(src, dst, size, m, a)
  }

  /** The units of a fill all hold the word, lowest byte first. */
  ghost predicate FillOutcome(m: Memory, m': Memory, data: nat, dst: nat, dstMode: nat, n: nat) {
    Proper(dst, true) && 4 * n <= 0x1_0000_0000 ==>
      && OthersKept(m, m', dst, dstMode, true, n)
      && forall k: nat :: k < n ==> HoldsWord(m', Place(dst, dstMode, true, k), data)
  }

  predicate HoldsWord(m: Memory, d: nat, data: nat) {
    && m(d) == data % 0x100 && m(d + 1) == data / 0x100 % 0x100
    && m(d + 2) == data / 0x1_0000 % 0x100 && m(d + 3) == data / 0x100_0000 % 0x100
  }

  // ----- The loop takes these addresses -----

  /** The loop's step for a mode. */
  function IncOf(mode: nat, wide: bool): int {
    match mode
    case 1 => if wide then -4 else -2
    case 2 => 0
    case _ => if wide then 4 else 2
  }

  function WidthOf(wide: bool): Width {
    if wide then 4 else 2
  }

  function WalkJob(src: nat, srcMode: nat, dst: nat, dstMode: nat, wide: bool): Job {
    Job(Walk(src, IncOf(srcMode, wide)), dst, IncOf(dstMode, wide), WidthOf(wide))
  }

  lemma PlaceSteps(start: nat, mode: nat, wide: bool, k: nat)
    requires Proper(start, wide)
    ensures Place(start, mode, wide, 0) == start
    ensures Place(start, mode, wide, k + 1) == Step(Place(start, mode, wide, k), IncOf(mode, wide))
  {
    var inc := IncOf(mode, wide);
    var x: int := if mode == 1 then (if wide then start - 4 * k else start - 2 * k)
      else if mode == 2 then start else if wide then start + 4 * k else start + 2 * k;
    ModStep(x, inc);
  }

  lemma ModStep(x: int, inc: int)
    ensures (x % 0x1_0000_0000 + inc) % 0x1_0000_0000 == (x + inc) % 0x1_0000_0000
  {
  }

  lemma {:induction false} AtIsPlace(start: nat, mode: nat, wide: bool, k: nat)
    requires Proper(start, wide)
    ensures At(start, IncOf(mode, wide), k) == Place(start, mode, wide, k) && Proper(Place(start, mode, wide, k), wide)
  {
    hide Place, IncOf;
    PlaceSteps(start, mode, wide, k);
    if k > 0 {
      AtIsPlace(start, mode, wide, k - 1);
      PlaceSteps(start, mode, wide, k - 1);
      StepProper(Place(start, mode, wide, k - 1), mode, wide);
    }
  }

  lemma StepProper(a: nat, mode: nat, wide: bool)
    requires Proper(a, wide)
    ensures Proper(Step(a, IncOf(mode, wide)), wide)
  {
  }

  /** A walking side does not come back to a unit. */
  lemma PlacesDiffer(start: nat, mode: nat, wide: bool, j: nat, k: nat)
    requires Proper(start, wide) && mode != 2 && j < k && 4 * k < 0x1_0000_0000
    ensures Place(start, mode, wide, j) != Place(start, mode, wide, k)
  {
    if mode == 1 {
      if wide { ModDiffer(start - 4 * k, start - 4 * j); } else { ModDiffer(start - 2 * k, start - 2 * j); }
    } else {
      if wide { ModDiffer(start + 4 * j, start + 4 * k); } else { ModDiffer(start + 2 * j, start + 2 * k); }
    }
  }

  lemma ModDiffer(x: int, y: int)
    requires 0 < y - x < 0x1_0000_0000
    ensures x % 0x1_0000_0000 != y % 0x1_0000_0000
  {
  }

  lemma CopiedNone(j: Job, m: Memory)
    ensures Copied(j, m, 0) == m
  {
  }

  lemma LastMove(src: nat, srcMode: nat, dst: nat, dstMode: nat, wide: bool, m: Memory, n: nat, a: nat)
    requires Proper(src, wide) && Proper(dst, wide) && n > 0
    ensures
      var j := WalkJob(src, srcMode, dst, dstMode, wide);
      var s, d := Place(src, srcMode, wide, n - 1), Place(dst, dstMode, wide, n - 1);
      Copied(j, m, n)(a) ==
        if InUnit(a, d, wide) then Copied(j, m, n - 1)(s + (a - d)) else Copied(j, m, n - 1)(a)
  {
    hide Copied, At, Place, IncOf;
    var j := WalkJob(src, srcMode, dst, dstMode, wide);
    CopiedStep(j, m, n);
    AtIsPlace(src, srcMode, wide, n - 1);
    AtIsPlace(dst, dstMode, wide, n - 1);
  }

  lemma {:induction false} Untouched(src: nat, srcMode: nat, dst: nat, dstMode: nat, wide: bool, m: Memory, n: nat,
                                     a: nat)
    requires Proper(src, wide) && Proper(dst, wide)
    requires forall k: nat :: k < n ==> !InUnit(a, Place(dst, dstMode, wide, k), wide)
    ensures Copied(WalkJob(src, srcMode, dst, dstMode, wide), m, n)(a) == m(a)
  {
    hide Place, InUnit, WalkJob, Copied, Proper;
    if n == 0 {
      CopiedNone(WalkJob(src, srcMode, dst, dstMode, wide), m);
    } else {
      LastMove(src, srcMode, dst, dstMode, wide, m, n, a);
      Untouched(src, srcMode, dst, dstMode, wide, m, n - 1, a);
    }
  }

  /** Whole units overlap only when they are the same. */
  lemma UnitsDisjoint(u: nat, v: nat, wide: bool, o: nat)
    requires Proper(u, wide) && Proper(v, wide) && u != v && o < if wide then 4 else 2
    ensures !InUnit(u + o, v, wide)
  {
  }

  /** A source that stays is copied onto itself at most. */
  lemma {:induction false} StayingSource(src: nat, dst: nat, dstMode: nat, wide: bool, m: Memory, n: nat, o: nat)
    requires Proper(src, wide) && Proper(dst, wide) && o < if wide then 4 else 2
    ensures Copied(WalkJob(src, 2, dst, dstMode, wide), m, n)(src + o) == m(src + o)
  {
    hide WalkJob;
    if n > 0 {
      LastMove(src, 2, dst, dstMode, wide, m, n, src + o);
      var d := Place(dst, dstMode, wide, n - 1);
      AtIsPlace(dst, dstMode, wide, n - 1);
      if d != src { UnitsDisjoint(src, d, wide, o); }
      StayingSource(src, dst, dstMode, wide, m, n - 1, o);
    }
  }

  lemma {:induction false} UnitLands(src: nat, srcMode: nat, dst: nat, dstMode: nat, wide: bool, m: Memory, n: nat,
                                     k: nat, o: nat)
    requires Proper(src, wide) && Proper(dst, wide) && 4 * n <= 0x1_0000_0000
    requires srcMode == 2 || Apart(src, srcMode, dst, dstMode, wide, n)
    requires k < n && (dstMode == 2 ==> k == n - 1) && o < if wide then 4 else 2
    ensures Copied(WalkJob(src, srcMode, dst, dstMode, wide), m, n)(Place(dst, dstMode, wide, k) + o) ==
      m(Place(src, srcMode, wide, k) + o)
    decreases n
  {
    hide WalkJob, Place, Proper, Copied;
    var s, d := Place(src, srcMode, wide, n - 1), Place(dst, dstMode, wide, n - 1);
    AtIsPlace(src, srcMode, wide, n - 1);
    AtIsPlace(dst, dstMode, wide, n - 1);
    if k == n - 1 {
      LastMove(src, srcMode, dst, dstMode, wide, m, n, d + o);
      if srcMode == 2 {
        StaysAt(src, wide, n - 1);
        StayingSource(src, dst, dstMode, wide, m, n - 1, o);
      } else {
        forall i: nat | i < n - 1 ensures !InUnit(s + o, Place(dst, dstMode, wide, i), wide) {
          AtIsPlace(dst, dstMode, wide, i);
          UnitsDisjoint(s, Place(dst, dstMode, wide, i), wide, o);
        }
        Untouched(src, srcMode, dst, dstMode, wide, m, n - 1, s + o);
      }
    } else {
      var e := Place(dst, dstMode, wide, k);
      AtIsPlace(dst, dstMode, wide, k);
      PlacesDiffer(dst, dstMode, wide, k, n - 1);
      UnitsDisjoint(e, d, wide, o);
      LastMove(src, srcMode, dst, dstMode, wide, m, n, e + o);
      UnitLands(src, srcMode, dst, dstMode, wide, m, n - 1, k, o);
    }
  }

  lemma StaysAt(start: nat, wide: bool, k: nat)
    ensures Place(start, 2, wide, k) == start
  {
  }

  lemma LastRemains(src: nat, srcMode: nat, dst: nat, wide: bool, m: Memory, n: nat, o: nat)
    requires Proper(src, wide) && Proper(dst, wide) && 4 * n <= 0x1_0000_0000
    requires n > 0 && srcMode != 2 && o < if wide then 4 else 2
    ensures Copied(WalkJob(src, srcMode, dst, 2, wide), m, n)(dst + o) ==
      m(Place(src, srcMode, wide, LastRead(src, srcMode, dst, wide, n)) + o)
    decreases n
  {
    hide WalkJob, Place, Proper, Copied;
    var s := Place(src, srcMode, wide, n - 1);
    AtIsPlace(src, srcMode, wide, n - 1);
    StaysAt(dst, wide, n - 1);
    LastMove(src, srcMode, dst, 2, wide, m, n, dst + o);
    if s == dst {
      if n > 1 {
        PlacesDiffer(src, srcMode, wide, n - 2, n - 1);
        LastRemains(src, srcMode, dst, wide, m, n - 1, o);
      } else {
        CopiedNone(WalkJob(src, srcMode, dst, 2, wide), m);
      }
    } else {
      forall i: nat | i < n - 1 ensures !InUnit(s + o, Place(dst, 2, wide, i), wide) {
        StaysAt(dst, wide, i);
        UnitsDisjoint(s, dst, wide, o);
      }
      Untouched(src, srcMode, dst, 2, wide, m, n - 1, s + o);
    }
  }

  /** The loop has the outcome. */
  lemma WalkOutcome(src: nat, srcMode: nat, dst: nat, dstMode: nat, wide: bool, m: Memory, n: nat)
    ensures Outcome(m, Copied(WalkJob(src, srcMode, dst, dstMode, wide), m, n), src, srcMode, dst, dstMode, wide, n)
  {
    hide Copied, Place, UpOnly, LastRead, InUnit, OthersKept, WalkJob;
    if Proper(src, wide) && Proper(dst, wide) && 4 * n <= 0x1_0000_0000 {
      var m' := Copied(WalkJob(src, srcMode, dst, dstMode, wide), m, n);
      Keeps(src, srcMode, dst, dstMode, wide, m, n);
      if srcMode == 2 || Apart(src, srcMode, dst, dstMode, wide, n) {
        forall k: nat | k < n && (dstMode == 2 ==> k == n - 1)
          ensures Holds(m', Place(dst, dstMode, wide, k), m, Place(src, srcMode, wide, k), wide)
        {
          UnitLands(src, srcMode, dst, dstMode, wide, m, n, k, 0);
          UnitLands(src, srcMode, dst, dstMode, wide, m, n, k, 1);
          if wide {
            UnitLands(src, srcMode, dst, dstMode, wide, m, n, k, 2);
            UnitLands(src, srcMode, dst, dstMode, wide, m, n, k, 3);
          }
        }
      }
      if dstMode == 2 && srcMode != 2 && n > 0 {
        LastRemains(src, srcMode, dst, wide, m, n, 0);
        LastRemains(src, srcMode, dst, wide, m, n, 1);
        if wide {
          LastRemains(src, srcMode, dst, wide, m, n, 2);
          LastRemains(src, srcMode, dst, wide, m, n, 3);
        }
      }
      if srcMode in {0, 3} && dstMode in {0, 3} { UpOutcome(src, srcMode, dst, dstMode, wide, m, n); }
    }
  }

  lemma Keeps(src: nat, srcMode: nat, dst: nat, dstMode: nat, wide: bool, m: Memory, n: nat)
    requires Proper(src, wide) && Proper(dst, wide)
    ensures OthersKept(m, Copied(WalkJob(src, srcMode, dst, dstMode, wide), m, n), dst, dstMode, wide, n)
  {
    hide Copied, Place, InUnit;
    forall a: nat | forall k: nat :: k < n ==> !InUnit(a, Place(dst, dstMode, wide, k), wide)
      ensures Copied(WalkJob(src, srcMode, dst, dstMode, wide), m, n)(a) == m(a)
    {
      Untouched(src, srcMode, dst, dstMode, wide, m, n, a);
    }
  }

  lemma UpOutcome(src: nat, srcMode: nat, dst: nat, dstMode: nat, wide: bool, m: Memory, n: nat)
    requires Proper(src, wide) && Proper(dst, wide) && srcMode in {0, 3} && dstMode in {0, 3}
    ensures UpOnly(m, Copied(WalkJob(src, srcMode, dst, dstMode, wide), m, n), src, dst, if wide then 4 * n else 2 * n)
  {
    hide Copied, Landed;
    var w := WidthOf(wide);
    assert WalkJob(src, srcMode, dst, dstMode, wide) == UpJob(src, dst, w);
    if src + Size(n, w) < SPACE && dst + Size(n, w) < SPACE {
      forall a: nat ensures Copied(UpJob(src, dst, w), m, n)(a) == Landed(src, dst, Size(n, w), m, a) {
        CopyIs(src, dst, w, m, n, a);
      }
    }
  }

  // ----- Fills -----

  function FillJob(bytes: nat -> nat, dst: nat, dstMode: nat): Job {
    Job(Fill(bytes), dst, IncOf(dstMode, true), 4)
  }

  lemma LastFilled(bytes: nat -> nat, dst: nat, dstMode: nat, m: Memory, n: nat, a: nat)
    requires Proper(dst, true) && n > 0
    ensures
      var d := Place(dst, dstMode, true, n - 1);
      Copied(FillJob(bytes, dst, dstMode), m, n)(a) ==
        if InUnit(a, d, true) then bytes(a - d) else Copied(FillJob(bytes, dst, dstMode), m, n - 1)(a)
  {
    hide Copied, At, Place, IncOf;
    CopiedStep(FillJob(bytes, dst, dstMode), m, n);
    AtIsPlace(dst, dstMode, true, n - 1);
  }

  lemma {:induction false} FillLands(bytes: nat -> nat, dst: nat, dstMode: nat, m: Memory, n: nat, k: nat, o: nat)
    requires Proper(dst, true) && 4 * n <= 0x1_0000_0000 && k < n && o < 4
    ensures Copied(FillJob(bytes, dst, dstMode), m, n)(Place(dst, dstMode, true, k) + o) == bytes(o)
    decreases n
  {
    hide FillJob, Place, Proper, Copied;
    var e := Place(dst, dstMode, true, k);
    LastFilled(bytes, dst, dstMode, m, n, e + o);
    var d := Place(dst, dstMode, true, n - 1);
    if e != d {
      AtIsPlace(dst, dstMode, true, k);
      AtIsPlace(dst, dstMode, true, n - 1);
      UnitsDisjoint(e, d, true, o);
      FillLands(bytes, dst, dstMode, m, n - 1, k, o);
    }
  }

  lemma {:induction false} FillKeeps(bytes: nat -> nat, dst: nat, dstMode: nat, m: Memory, n: nat, a: nat)
    requires Proper(dst, true) && forall k: nat :: k < n ==> !InUnit(a, Place(dst, dstMode, true, k), true)
    ensures Copied(FillJob(bytes, dst, dstMode), m, n)(a) == m(a)
  {
    hide FillJob, Place, InUnit, Copied, Proper;
    if n == 0 {
      CopiedNone(FillJob(bytes, dst, dstMode), m);
    } else {
      LastFilled(bytes, dst, dstMode, m, n, a);
      FillKeeps(bytes, dst, dstMode, m, n - 1, a);
    }
  }

  lemma FillsWord(bytes: nat -> nat, data: nat, dst: nat, dstMode: nat, m: Memory, n: nat)
    requires bytes(0) == data % 0x100 && bytes(1) == data / 0x100 % 0x100
    requires bytes(2) == data / 0x1_0000 % 0x100 && bytes(3) == data / 0x100_0000 % 0x100
    ensures FillOutcome(m, Copied(FillJob(bytes, dst, dstMode), m, n), data, dst, dstMode, n)
  {
    hide Copied, Place, InUnit, FillJob;
    if Proper(dst, true) && 4 * n <= 0x1_0000_0000 {
      var m' := Copied(FillJob(bytes, dst, dstMode), m, n);
      forall a: nat | forall k: nat :: k < n ==> !InUnit(a, Place(dst, dstMode, true, k), true) ensures m'(a) == m(a) {
        FillKeeps(bytes, dst, dstMode, m, n, a);
      }
      forall k: nat | k < n ensures HoldsWord(m', Place(dst, dstMode, true, k), data) {
        FillLands(bytes, dst, dstMode, m, n, k, 0);
        FillLands(bytes, dst, dstMode, m, n, k, 1);
        FillLands(bytes, dst, dstMode, m, n, k, 2);
        FillLands(bytes, dst, dstMode, m, n, k, 3);
      }
    }
  }
}
