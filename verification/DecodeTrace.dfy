/**
  Decoding a block, seen from memory.  Words enter the pipeline some instructions before they are decoded,
  literals are read when their load is decoded, and because decoding also executes the instructions, the
  block may store in between.  What it was decoded from need not be there any more when it is entered.
 */
module DecodeTraces {
  import opened Wrappers

  type Memory = nat -> nat

  /** What a block is made of: a word, or a literal folded in, with the value it had when it was read. */
  datatype Use = Fetch(local: nat, value: nat) | Literal(local: nat, value: nat)

  /** A word enters the pipeline; a word or literal is decoded; a store is executed.  A word store changes
      several places where code is read by halfwords; `noted` says that the decoder remembers the store. */
  datatype Event =
    | Prefetched(local: nat, value: nat)
    | Met(use: Use)
    | Stored(local: nat, put: map<nat, nat>, noted: bool)

  /** A store changes places of its own 16-byte granule only. */
  ghost predicate Small(e: Event) {
    e.Stored? ==> forall a :: a in e.put ==> a / 16 == e.local / 16
  }

  function PutInto(m: Memory, put: map<nat, nat>): Memory {
    (a: nat) => if a in put then put[a] else m(a)
  }

  /** Memory after the first n events. */
  function After(m: Memory, trace: seq<Event>, n: nat): Memory
    requires n <= |trace|
  {
    if n == 0 then m
    else
      var before := After(m, trace, n - 1);
      match trace[n - 1]
      case Stored(_, put, _) => PutInto(before, put)
      case _ => before
  }

  /** The event reads the value of this use. */
  predicate IsReadOf(e: Event, u: Use) {
    match e
    case Prefetched(local, value) => u == Fetch(local, value)
    case Met(w) => w == u && u.Literal?
    case Stored(_, _, _) => false
  }

  /** Every read sees memory as it is then, and only prefetched words are decoded. */
  ghost predicate Timely(trace: seq<Event>, m: Memory) {
    && (forall i, u :: 0 <= i < |trace| && IsReadOf(trace[i], u) ==> After(m, trace, i)(u.local) == u.value)
    && (forall i :: 0 <= i < |trace| && trace[i].Met? && trace[i].use.Fetch? ==> EnteredBefore(trace, i, trace[i].use))
  }

  ghost predicate EnteredBefore(trace: seq<Event>, i: nat, u: Use)
    requires i <= |trace|
  {
    exists j :: 0 <= j < i && IsReadOf(trace[j], u)
  }

  /** What the last store to a among events i to n left there. */
  function LastPut(trace: seq<Event>, i: nat, n: nat, a: nat): Option<nat>
    requires i <= n <= |trace|
  {
    if n == i then None
    else if trace[n - 1].Stored? && a in trace[n - 1].put then Some(trace[n - 1].put[a])
    else LastPut(trace, i, n - 1, a)
  }

  lemma {:induction false} AfterIs(m: Memory, trace: seq<Event>, i: nat, n: nat, a: nat)
    requires i <= n <= |trace|
    ensures After(m, trace, n)(a) ==
      match LastPut(trace, i, n, a) case None => After(m, trace, i)(a) case Some(v) => v
  {
    if i < n { AfterIs(m, trace, i, n - 1, a); }
  }

  /** Event i reads the use, and the last store to its place from then on leaves another value. */
  predicate Overtaken(trace: seq<Event>, i: nat, u: Use)
    requires i < |trace|
  {
    && IsReadOf(trace[i], u)
    && LastPut(trace, i, |trace|, u.local).Some? && LastPut(trace, i, |trace|, u.local).value != u.value
  }

  /** No read of a use was overtaken. */
  ghost predicate Intact(trace: seq<Event>, uses: seq<Use>) {
    forall i, u :: 0 <= i < |trace| && u in uses ==> !Overtaken(trace, i, u)
  }

  /** In the end memory holds every use exactly when none was overtaken by a store. */
  lemma UsesHoldIff(m: Memory, trace: seq<Event>, uses: seq<Use>)
    requires Timely(trace, m) && forall u :: u in uses ==> Met(u) in trace
    ensures Holds(After(m, trace, |trace|), uses) <==> Intact(trace, uses)
  {
    hide After, LastPut;
    var last := After(m, trace, |trace|);
    forall i, u | 0 <= i < |trace| && u in uses && IsReadOf(trace[i], u)
      ensures Overtaken(trace, i, u) <==> last(u.local) != u.value
    {
      AfterIs(m, trace, i, |trace|, u.local);
    }
    forall u | u in uses ensures exists i :: 0 <= i < |trace| && IsReadOf(trace[i], u) {
      var i := ReadOf(m, trace, u);
    }
  }

  ghost predicate Holds(m: Memory, uses: seq<Use>) {
    forall u :: u in uses ==> m(u.local) == u.value
  }

  lemma ReadOf(m: Memory, trace: seq<Event>, u: Use) returns (i: nat)
    requires Timely(trace, m) && Met(u) in trace
    ensures i < |trace| && IsReadOf(trace[i], u)
  {
    hide After;
    i :| 0 <= i < |trace| && trace[i] == Met(u);
    if u.Fetch? {
      assert EnteredBefore(trace, i, u);
      i :| 0 <= i < |trace| && IsReadOf(trace[i], u);
    }
  }

  /** In particular when the block stores to no place that it was read from. */
  lemma NoStoreNoHarm(m: Memory, trace: seq<Event>, uses: seq<Use>)
    requires Timely(trace, m) && forall u :: u in uses ==> Met(u) in trace
    requires forall i, u :: 0 <= i < |trace| && trace[i].Stored? && u in uses ==> u.local !in trace[i].put
    ensures Intact(trace, uses) && Holds(After(m, trace, |trace|), uses)
  {
    hide After;
    forall i, u | 0 <= i < |trace| && u in uses ensures !Overtaken(trace, i, u) {
      NothingPut(trace, i, |trace|, u.local);
    }
    UsesHoldIff(m, trace, uses);
  }

  lemma {:induction false} NothingPut(trace: seq<Event>, i: nat, n: nat, a: nat)
    requires i <= n <= |trace| && forall k :: i <= k < n && trace[k].Stored? ==> a !in trace[k].put
    ensures LastPut(trace, i, n, a) == None
  {
    if i < n { NothingPut(trace, i, n - 1, a); }
  }

  // ----- Which literals are folded in -----

  /** What the block is made of when invalid[i] are the invalidated literals at event i. */
  function FoldedUses(trace: seq<Event>, invalid: seq<set<nat>>): (uses: seq<Use>)
    requires |invalid| >= |trace|
    ensures forall u :: u in uses ==> Met(u) in trace
  {
    if trace == [] then []
    else
      var k := |trace| - 1;
      FoldedUses(trace[..k], invalid) + if FoldsIn(trace[k], invalid[k]) then [trace[k].use] else []
  }

  predicate FoldsIn(e: Event, invalid: set<nat>) {
    e.Met? && (e.use.Literal? ==> e.use.local !in invalid)
  }

  /** The places that the decoder remembers as written. */
  function Noted(trace: seq<Event>): set<nat> {
    if trace == [] then {}
    else
      var k := |trace| - 1;
      Noted(trace[..k]) + if trace[k].Stored? && trace[k].noted then {trace[k].local} else {}
  }

  // ----- A block that stores into itself -----

  /** The first word stores over the second, which is in the pipeline already. */
  const SelfStore: seq<Event> := [
    Prefetched(0, 1), Prefetched(4, 7), Met(Fetch(0, 1)), Stored(4, map[4 := 8], true), Met(Fetch(4, 7))
  ]

  function TwoWords(a: nat): nat {
    if a == 0 then 1 else if a == 4 then 7 else 0
  }

  /** It is decoded from a word that memory does not hold any more when decoding is done. */
  lemma SelfStoreIsOvertaken()
    ensures Timely(SelfStore, TwoWords) && forall e :: e in SelfStore ==> Small(e)
    ensures Overtaken(SelfStore, 1, Fetch(4, 7)) && After(TwoWords, SelfStore, |SelfStore|)(4) == 8
  {
  }
}
