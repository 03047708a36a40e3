/**
  The list of free placeholders of the fast-memory area on Windows: an interval allocator that
  splits a placeholder when a view is mapped into it and coalesces neighbours when one is unmapped.
 */
module Placeholders {

  datatype Range = Range(start: nat, size: nat)

  predicate Within(r: Range, x: int) {
    r.start <= x < r.start + r.size
  }

  /** Two ranges with at least one byte between them. */
  predicate Apart(a: Range, b: Range) {
    a.start + a.size < b.start || b.start + b.size < a.start
  }

  predicate Disjoint(a: Range, b: Range) {
    a.start + a.size <= b.start || b.start + b.size <= a.start
  }

  /** No two free placeholders overlap or touch. */
  ghost predicate Normal(free: seq<Range>) {
    && (forall i :: 0 <= i < |free| ==> free[i].size > 0)
    && (forall i, j :: 0 <= i < j < |free| ==> Apart(free[i], free[j]))
  }

  ghost predicate IsFree(free: seq<Range>, x: int) {
    exists i :: 0 <= i < |free| && Within(free[i], x)
  }

  ghost predicate IsMapped(mapped: set<Range>, x: int) {
    exists r :: r in mapped && Within(r, x)
  }

  /** Mapped ranges are disjoint, and they and the free placeholders partition the area. */
  ghost predicate Partition(area: Range, free: seq<Range>, mapped: set<Range>) {
    && Normal(free)
    && (forall r :: r in mapped ==> r.size > 0)
    && (forall a, b :: a in mapped && b in mapped && a != b ==> Disjoint(a, b))
    && (forall x :: Within(area, x) ==> (IsFree(free, x) <==> !IsMapped(mapped, x)))
    && (forall x :: IsFree(free, x) || IsMapped(mapped, x) ==> Within(area, x))
  }

  ghost predicate AllFree(free: seq<Range>, r: Range) {
    forall x :: Within(r, x) ==> IsFree(free, x)
  }

  predicate Holds(free: seq<Range>, i: nat, r: Range)
    requires i < |free|
  {
    r.start >= free[i].start && r.start + r.size <= free[i].start + free[i].size
  }

  /** A range that is free throughout lies inside one placeholder. */
  lemma WholeFree(free: seq<Range>, r: Range) returns (i: nat)
    requires Normal(free) && r.size > 0 && AllFree(free, r)
    ensures i < |free| && Holds(free, i, r)
  {
    assert Within(r, r.start);
    i :| 0 <= i < |free| && Within(free[i], r.start);
    var end := free[i].start + free[i].size;
    assert Within(r, end) ==> IsFree(free, end);
  }

  function Without(free: seq<Range>, i: nat): (s: seq<Range>)
    requires i < |free|
    ensures |s| == |free| - 1
    ensures forall j :: 0 <= j < i ==> s[j] == free[j]
    ensures forall j :: i <= j < |s| ==> s[j] == free[j + 1]
  {
    free[..i] + free[i + 1..]
  }

  lemma WithoutFree(free: seq<Range>, i: nat, x: int)
    requires i < |free|
    ensures IsFree(free, x) <==> IsFree(Without(free, i), x) || Within(free[i], x)
  {
    var s := Without(free, i);
    if IsFree(free, x) {
      var j :| 0 <= j < |free| && Within(free[j], x);
      if j < i { assert Within(s[j], x); } else if j > i { assert Within(s[j - 1], x); }
    }
    if IsFree(s, x) {
      var j :| 0 <= j < |s| && Within(s[j], x);
      if j < i { assert Within(free[j], x); } else { assert Within(free[j + 1], x); }
    }
  }

  /** What mapping makes of the list: the placeholder goes, its remains are appended. */
  function Split(free: seq<Range>, i: nat, r: Range): seq<Range>
    requires i < |free| && Holds(free, i, r)
  {
    Without(free, i) + Remains(free[i], r)
  }

  /** What is left of a placeholder on both sides of a range in it. */
  function Remains(h: Range, r: Range): seq<Range>
    requires r.start >= h.start && r.start + r.size <= h.start + h.size
  {
    (if r.start > h.start then [Range(h.start, r.start - h.start)] else [])
    + if r.start + r.size < h.start + h.size then [Range(r.start + r.size, h.start + h.size - (r.start + r.size))]
      else []
  }

  lemma RemainsFree(h: Range, r: Range, x: int)
    requires r.start >= h.start && r.start + r.size <= h.start + h.size
    ensures IsFree(Remains(h, r), x) <==> Within(h, x) && !Within(r, x)
  {
    var s := Remains(h, r);
    if Within(h, x) && !Within(r, x) { assert if x < r.start then Within(s[0], x) else Within(s[|s| - 1], x); }
  }

  lemma AppendFree(a: seq<Range>, b: seq<Range>, x: int)
    ensures IsFree(a + b, x) <==> IsFree(a, x) || IsFree(b, x)
  {
    var s := a + b;
    if IsFree(a, x) {
      var j :| 0 <= j < |a| && Within(a[j], x);
      assert s[j] == a[j];
    }
    if IsFree(b, x) {
      var j :| 0 <= j < |b| && Within(b[j], x);
      assert s[|a| + j] == b[j];
    }
  }

  lemma WithoutNormal(free: seq<Range>, i: nat)
    requires i < |free| && Normal(free)
    ensures Normal(Without(free, i))
    ensures forall j :: 0 <= j < |free| - 1 ==> Apart(Without(free, i)[j], free[i])
  {
    forall j | 0 <= j < |free| - 1 ensures Apart(Without(free, i)[j], free[i]) {
      assert j < i ==> Apart(free[j], free[i]);
      assert j >= i ==> Apart(free[i], free[j + 1]);
    }
  }

  lemma SplitNormal(free: seq<Range>, i: nat, r: Range)
    requires i < |free| && Holds(free, i, r) && Normal(free) && r.size > 0
    ensures Normal(Split(free, i, r))
  {
    hide Without;
    WithoutNormal(free, i);
  }

  lemma SplitFree(free: seq<Range>, i: nat, r: Range, x: int)
    requires i < |free| && Holds(free, i, r) && Normal(free) && r.size > 0
    ensures IsFree(Split(free, i, r), x) <==> IsFree(free, x) && !Within(r, x)
  {
    var rest := Without(free, i);
    AppendFree(rest, Remains(free[i], r), x);
    RemainsFree(free[i], r, x);
    WithoutFree(free, i, x);
    WithoutNormal(free, i);
    assert !(IsFree(rest, x) && Within(free[i], x));
  }

  /** Two lists without overlap or contact that free the same bytes hold the same placeholders. */
  lemma Canonical(a: seq<Range>, b: seq<Range>, h: Range)
    requires Normal(a) && Normal(b) && (forall x :: IsFree(a, x) <==> IsFree(b, x)) && h in a
    ensures h in b
  {
    var k :| 0 <= k < |a| && a[k] == h;
    assert forall x :: Within(h, x) ==> Within(a[k], x);
    assert AllFree(b, h);
    var i := WholeFree(b, h);
    var g := b[i];
    assert forall x :: Within(g, x) ==> Within(b[i], x);
    assert AllFree(a, g);
    var j := WholeFree(a, g);
    assert j == k;
  }

  // ----- Coalescing -----

  /** During an unmap: those at i and beyond may still touch the range; nothing else touches what has
      been coalesced, and the same bytes are free as at the end. */
  ghost predicate Coalescing(was: seq<Range>, r: Range, free: seq<Range>, i: nat, c: Range) {
    && Normal(free) && i <= |free|
    && c.start <= r.start && r.start + r.size <= c.start + c.size
    && (forall j :: 0 <= j < |free| ==> Apart(free[j], c) || (j >= i && Touches(free[j], r, c)))
    && (forall x :: IsFree(free, x) || Within(c, x) <==> IsFree(was, x) || Within(r, x))
  }

  predicate Touches(h: Range, r: Range, c: Range) {
    || (h.start + h.size == r.start == c.start)
    || (h.start == r.start + r.size == c.start + c.size)
  }

  /** A placeholder that touches the range is absorbed. */
  lemma Absorbed(was: seq<Range>, r: Range, free: seq<Range>, i: nat, c: Range, c': Range)
    requires Coalescing(was, r, free, i, c) && r.size > 0 && i < |free|
    requires free[i].start + free[i].size == r.start || free[i].start == r.start + r.size
    requires c' ==
      Range(if free[i].start + free[i].size == r.start then free[i].start else c.start, c.size + free[i].size)
    ensures Coalescing(was, r, Without(free, i), i, c')
  {
    hide IsFree;
    var h, s := free[i], Without(free, i);
    assert !Apart(h, c) && Touches(h, r, c);
    forall x ensures IsFree(s, x) || Within(c', x) <==> IsFree(was, x) || Within(r, x) {
      WithoutFree(free, i, x);
    }
    forall j | 0 <= j < |s| ensures Apart(s[j], c') || (j >= i && Touches(s[j], r, c')) {
      assert j < i ==> Apart(free[j], free[i]);
      assert j >= i ==> Apart(free[i], free[j + 1]);
    }
  }

  lemma Passed(was: seq<Range>, r: Range, free: seq<Range>, i: nat, c: Range)
    requires Coalescing(was, r, free, i, c) && r.size > 0 && i < |free|
    requires !(free[i].start + free[i].size == r.start || free[i].start == r.start + r.size)
    ensures Coalescing(was, r, free, i + 1, c)
  {
    hide IsFree;
    assert Apart(free[i], c);
  }

  lemma Appended(was: seq<Range>, r: Range, free: seq<Range>, c: Range)
    requires Coalescing(was, r, free, |free|, c) && r.size > 0
    ensures Normal(free + [c])
    ensures forall x :: IsFree(free + [c], x) <==> IsFree(was, x) || Within(r, x)
  {
    forall x ensures IsFree(free + [c], x) <==> IsFree(free, x) || Within(c, x) {
      assert (free + [c])[|free|] == c;
      if IsFree(free, x) {
        var j :| 0 <= j < |free| && Within(free[j], x);
        assert (free + [c])[j] == free[j];
      }
    }
  }

  lemma StartsCoalescing(area: Range, free: seq<Range>, mapped: set<Range>, r: Range)
    requires Partition(area, free, mapped) && r in mapped
    ensures Coalescing(free, r, free, 0, r)
  {
    forall j | 0 <= j < |free| ensures Disjoint(free[j], r) {
      var h := free[j];
      if !Disjoint(h, r) {
        var x := if h.start >= r.start then h.start else r.start;
        assert Within(free[j], x) && Within(r, x);
        assert IsFree(free, x) && IsMapped(mapped, x);
      }
    }
  }

  // ----- The allocator -----

  class FastMemory {
    const area: Range
    var free: seq<Range>             // VirtmemPlaceholders
    ghost var mapped: set<Range>     // the views that are mapped

    ghost predicate Valid()
      reads this
    {
      Partition(area, free, mapped)
    }

    constructor (area: Range)
      requires area.size > 0
      ensures Valid() && this.area == area && mapped == {}
    {
      this.area := area;
      free, mapped := [area], {};
      new;
      assert forall x :: Within(area, x) ==> Within(free[0], x);
    }

    /** Maps a view.  It finds a placeholder exactly when the whole range is free. */
    method MapIntoRange(r: Range) returns (ok: bool)
      requires Valid() && r.size > 0
      modifies this
      ensures Valid()
      ensures ok <==> AllFree(old(free), r)
      ensures ok ==> mapped == old(mapped) + {r}
      ensures ok ==> forall x :: IsFree(free, x) <==> IsFree(old(free), x) && !Within(r, x)
      ensures !ok ==> free == old(free) && mapped == old(mapped)
    {
      hide IsFree, Split;
      var i := 0;
      while i < |free|
        invariant 0 <= i <= |free|
        invariant forall j :: 0 <= j < i ==> !Holds(free, j, r)
      {
        if Holds(free, i, r) {
          MapsInto(area, free, mapped, i, r);
          free, mapped := Split(free, i, r), mapped + {r};
          return true;
        }
        i := i + 1;
      }
      if AllFree(free, r) { var j := WholeFree(free, r); }
      return false;
    }

    /** Unmaps a view: its range is free again, merged with its neighbours. */
    method UnmapFromRange(r: Range)
      requires Valid() && r in mapped
      modifies this
      ensures Valid() && mapped == old(mapped) - {r}
      ensures forall x :: IsFree(free, x) <==> IsFree(old(free), x) || Within(r, x)
    {
      hide Partition, Coalescing;
      ghost var was := free;
      StartsCoalescing(area, free, mapped, r);
      SizeOfMapped(area, free, mapped, r);
      var c := r;
      var i := 0;
      while i < |free|
        invariant 0 <= i <= |free| && Coalescing(was, r, free, i, c) && mapped == old(mapped)
        decreases |free| - i
      {
        var h := free[i];
        if h.start + h.size == r.start {
          Absorbed(was, r, free, i, c, Range(h.start, c.size + h.size));
          c := Range(h.start, c.size + h.size);
          free := Without(free, i);
        } else if h.start == r.start + r.size {
          Absorbed(was, r, free, i, c, Range(c.start, c.size + h.size));
          c := c.(size := c.size + h.size);
          free := Without(free, i);
        } else {
          Passed(was, r, free, i, c);
          i := i + 1;
        }
      }
      Appended(was, r, free, c);
      UnmapsFrom(area, was, mapped, r, free + [c]);
      free, mapped := free + [c], mapped - {r};
    }

    /** Unmapping what was just mapped leaves the placeholders of before, in some order. */
    method MapAndUnmap(r: Range)
      requires Valid() && r.size > 0 && AllFree(free, r)
      modifies this
      ensures Valid() && mapped == old(mapped)
      ensures forall h :: h in free <==> h in old(free)
    {
      hide IsFree;
      ghost var was := free;
      NotMapped(area, free, mapped, r);
      var ok := MapIntoRange(r);
      UnmapFromRange(r);
      assert forall x :: Within(r, x) ==> IsFree(was, x);
      forall h ensures h in free <==> h in was {
        if h in free { Canonical(free, was, h); }
        if h in was { Canonical(was, free, h); }
      }
    }
  }

  lemma SizeOfMapped(area: Range, free: seq<Range>, mapped: set<Range>, r: Range)
    requires Partition(area, free, mapped) && r in mapped
    ensures r.size > 0
  {
  }

  lemma NotMapped(area: Range, free: seq<Range>, mapped: set<Range>, r: Range)
    requires Partition(area, free, mapped) && r.size > 0 && AllFree(free, r)
    ensures r !in mapped
  {
    assert Within(r, r.start);
  }

  lemma MapsInto(area: Range, free: seq<Range>, mapped: set<Range>, i: nat, r: Range)
    requires Partition(area, free, mapped) && i < |free| && Holds(free, i, r) && r.size > 0
    ensures AllFree(free, r) && Partition(area, Split(free, i, r), mapped + {r})
    ensures forall x :: IsFree(Split(free, i, r), x) <==> IsFree(free, x) && !Within(r, x)
  {
    hide Split;
    SplitNormal(free, i, r);
    forall x ensures IsFree(Split(free, i, r), x) <==> IsFree(free, x) && !Within(r, x) {
      SplitFree(free, i, r, x);
    }
    assert forall x :: Within(r, x) ==> Within(free[i], x);
    assert AllFree(free, r);
    AlsoMapped(area, free, mapped, r);
    forall x ensures IsMapped(mapped + {r}, x) <==> IsMapped(mapped, x) || Within(r, x) {
      assert r in mapped + {r};
    }
  }

  lemma AlsoMapped(area: Range, free: seq<Range>, mapped: set<Range>, r: Range)
    requires Partition(area, free, mapped) && AllFree(free, r) && r.size > 0
    ensures forall a :: a in mapped ==> Disjoint(a, r)
  {
    forall a | a in mapped ensures Disjoint(a, r) {
      if !Disjoint(a, r) {
        var x := if a.start >= r.start then a.start else r.start;
        assert Within(a, x) && Within(r, x);
        assert IsFree(free, x) && IsMapped(mapped, x);
      }
    }
  }

  lemma UnmapsFrom(area: Range, free: seq<Range>, mapped: set<Range>, r: Range, free': seq<Range>)
    requires Partition(area, free, mapped) && r in mapped && Normal(free')
    requires forall x :: IsFree(free', x) <==> IsFree(free, x) || Within(r, x)
    ensures Partition(area, free', mapped - {r})
  {
    hide IsFree;
    var left := mapped - {r};
    forall x ensures IsMapped(left, x) <==> IsMapped(mapped, x) && !Within(r, x) {
      if IsMapped(left, x) {
        var a :| a in left && Within(a, x);
        assert Disjoint(a, r);
      }
    }
  }
}
