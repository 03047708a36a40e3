/**
  The JIT's code cache for one CPU with a fixed address map.  Four indexes describe the same set of
  compiled blocks: the block map, the fast lookup table, the per-512-byte lists with their code
  bits, and the candidates for restoring.  They must agree, or code compiled from memory that has
  since changed is dispatched.

  Hashes are collision free here: a block is filed under the words it was compiled from.  A code
  address is a region number and an offset in one number, as LocaliseAddress makes it.
 */
module BlockCaching {

  import opened DecodeTraces
  import opened Wrappers

  /** What decoding a block yields: where it starts, the words it read and where, the literals it
      folded in, and the 16-byte granules it depends on, grouped by 512-byte range. */
  datatype Decoded = Decoded(
    startAddr: nat,
    startLocal: nat,
    words: seq<nat>,               // hashed to InstrHash
    addrs: seq<nat>,
    literalValues: seq<nat>,       // hashed to LiteralHash
    literals: seq<nat>,
    ranges: seq<nat>,              // AddressRanges
    masks: map<nat, set<nat>>      // AddressMasks, by range
  )

  /** id tells heap objects apart, entry is the address of the compiled code. */
  datatype JitBlock = JitBlock(id: nat, entry: nat, d: Decoded)

  function RangeOf(local: nat): nat { local / 512 }

  function BitOf(local: nat): nat { (local % 512) / 16 }

  /** Ranges are 512 bytes and a code bit stands for 16 of them. */
  lemma GranulesAre(a: nat, b: nat)
    ensures RangeOf(a) == RangeOf(b) <==> a / 512 == b / 512
    ensures RangeOf(a) == RangeOf(b) && BitOf(a) == BitOf(b) <==> a / 16 == b / 16
    ensures BitOf(a) < 32 && 512 * RangeOf(a) + 16 * BitOf(a) <= a < 512 * RangeOf(a) + 16 * BitOf(a) + 16
  {
    GranuleOf(a);
    GranuleOf(b);
  }

  lemma GranuleOf(a: nat)
    ensures a / 16 == 32 * RangeOf(a) + BitOf(a)
  {
    var r, o := a / 512, a % 512;
    assert a == 16 * (32 * r) + o;
    assert a / 16 == 32 * r + o / 16;
  }

  ghost predicate Distinct<T>(s: seq<T>) {
    forall i, j :: 0 <= i < j < |s| ==> s[i] != s[j]
  }

  ghost predicate Covers(d: Decoded, local: nat) {
    RangeOf(local) in d.masks && BitOf(local) in d.masks[RangeOf(local)]
  }

  ghost predicate WellFormed(d: Decoded) {
    && Distinct(d.ranges) && (forall k :: k in d.ranges <==> k in d.masks)
    && (forall k :: k in d.masks ==> d.masks[k] != {})
    && |d.addrs| == |d.words| && |d.literals| == |d.literalValues|
    && (forall i :: 0 <= i < |d.addrs| ==> Covers(d, d.addrs[i]))
    && (forall i :: 0 <= i < |d.literals| ==> Covers(d, d.literals[i]))
  }

  /** Memory still holds what the block was compiled from. */
  ghost predicate Current(d: Decoded, mem: Memory)
    requires |d.addrs| == |d.words| && |d.literals| == |d.literalValues|
  {
    && (forall i :: 0 <= i < |d.addrs| ==> mem(d.addrs[i]) == d.words[i])
    && (forall i :: 0 <= i < |d.literals| ==> mem(d.literals[i]) == d.literalValues[i])
  }

  // ----- The indexes as one value -----

  datatype Index = Index(
    blocks: map<nat, JitBlock>,                // JitBlocks9 or JitBlocks7, by start address
    fast: map<nat, (nat, nat)>,                // FastBlockLookup: (address, entry) by local address / 2
    lists: map<nat, seq<JitBlock>>,            // AddressRange.Blocks by range
    codes: map<nat, set<nat>>,                 // AddressRange.Code by range
    candidates: map<seq<nat>, JitBlock>,       // RestoreCandidates
    freed: set<nat>,                           // ids of deleted blocks
    nextId: nat,
    nextEntry: nat
  )

  function ListOf(lists: map<nat, seq<JitBlock>>, k: nat): seq<JitBlock> {
    if k in lists then lists[k] else []
  }

  function CodeOf(codes: map<nat, set<nat>>, k: nat): set<nat> {
    if k in codes then codes[k] else {}
  }

  ghost predicate Live(x: Index, b: JitBlock) {
    b.d.startAddr in x.blocks && x.blocks[b.d.startAddr] == b
  }

  ghost predicate Retired(x: Index, b: JitBlock) {
    b.d.words in x.candidates && x.candidates[b.d.words] == b
  }

  /** Every live block is listed once in each range it depends on, and nothing else is listed. */
  ghost predicate Listing(x: Index) {
    && (forall k :: Distinct(ListOf(x.lists, k)))
    && (forall k, b :: b in ListOf(x.lists, k) ==> Live(x, b) && k in b.d.masks)
    && (forall b, k :: Live(x, b) && k in b.d.masks ==> b in ListOf(x.lists, k))
  }

  /** The code bits of a range cover its listed blocks and are zero exactly when none is listed;
      range `open` is being rebuilt and exempt. */
  ghost predicate Bits(x: Index, open: Option<nat>) {
    forall k: nat :: open != Some(k) ==>
      && (forall b :: b in ListOf(x.lists, k) && k in b.d.masks ==> b.d.masks[k] <= CodeOf(x.codes, k))
      && (ListOf(x.lists, k) == [] <==> CodeOf(x.codes, k) == {})
  }

  /** A fast lookup entry names a live block and sits in that block's slot. */
  ghost predicate Table(x: Index) {
    forall s :: s in x.fast ==>
      && x.fast[s].0 in x.blocks
      && x.blocks[x.fast[s].0].entry == x.fast[s].1
      && x.blocks[x.fast[s].0].d.startLocal / 2 == s
  }

  ghost predicate Known(x: Index, b: JitBlock) {
    Live(x, b) || Retired(x, b)
  }

  /** Blocks are filed under their own keys and are never both live and retired. */
  ghost predicate Keyed(x: Index) {
    && (forall a :: a in x.blocks ==> x.blocks[a].d.startAddr == a)
    && (forall h :: h in x.candidates ==> x.candidates[h].d.words == h)
    && (forall b :: !(Live(x, b) && Retired(x, b)))
  }

  /** No index holds a deleted block. */
  ghost predicate Alive(x: Index) {
    && (forall b :: Known(x, b) ==> WellFormed(b.d) && b.id !in x.freed && b.id < x.nextId && b.entry < x.nextEntry)
    && (forall i :: i in x.freed ==> i < x.nextId)
  }

  /** Blocks are told apart by id and by entry point. */
  ghost predicate Apart(x: Index) {
    forall b, c :: Known(x, b) && Known(x, c) && (b.id == c.id || b.entry == c.entry) ==> b == c
  }

  ghost predicate Filing(x: Index) {
    Keyed(x) && Alive(x) && Apart(x)
  }

  ghost predicate Consistent(x: Index, open: Option<nat>) {
    Listing(x) && Bits(x, open) && Table(x) && Filing(x)
  }

  // ----- Taking one block out -----

  /** TinyVector.Remove: the last element takes the place of the removed one. */
  function SwapRemove<T>(s: seq<T>, i: nat): (r: seq<T>)
    requires i < |s|
  {
    var n := |s| - 1;
    s[i := s[n]][..n]
  }

  lemma SwapRemoves<T>(s: seq<T>, i: nat)
    requires i < |s| && Distinct(s)
    ensures Distinct(SwapRemove(s, i))
    ensures forall b :: b in SwapRemove(s, i) <==> b in s && b != s[i]
  {
    var r := SwapRemove(s, i);
    forall b | b in s && b != s[i] ensures b in r {
      var j :| 0 <= j < |s| && s[j] == b;
      assert r[if j == |s| - 1 then i else j] == b;
    }
  }

  /** y is x with block b gone from every index; the code bits of a list that became empty are cleared. */
  ghost predicate Dropped(x: Index, y: Index, b: JitBlock, open: nat) {
    && y.blocks == x.blocks - {b.d.startAddr}
    && y.fast == x.fast - {b.d.startLocal / 2}
    && (forall k :: Distinct(ListOf(y.lists, k)))
    && (forall k, c :: c in ListOf(y.lists, k) <==> c in ListOf(x.lists, k) && c != b)
    && (forall k :: k != open ==>
          CodeOf(y.codes, k) == if k in b.d.masks && ListOf(y.lists, k) == [] then {} else CodeOf(x.codes, k))
  }

  lemma DroppedListing(x: Index, y: Index, b: JitBlock, open: nat)
    requires Listing(x) && Keyed(x) && Live(x, b) && Dropped(x, y, b, open)
    ensures Listing(y)
  {
    forall k, c | c in ListOf(y.lists, k) ensures Live(y, c) && k in c.d.masks {
      assert c in ListOf(x.lists, k);
    }
    forall c, k | Live(y, c) && k in c.d.masks ensures c in ListOf(y.lists, k) {
      assert Live(x, c);
    }
  }

  lemma DroppedBits(x: Index, y: Index, b: JitBlock, open: nat)
    requires Listing(x) && Bits(x, Some(open)) && Live(x, b) && Dropped(x, y, b, open)
    ensures Bits(y, Some(open))
  {
    forall k: nat | Some(open) != Some(k)
      ensures forall c :: c in ListOf(y.lists, k) && k in c.d.masks ==> c.d.masks[k] <= CodeOf(y.codes, k)
      ensures ListOf(y.lists, k) == [] <==> CodeOf(y.codes, k) == {}
    {
      var was, now := ListOf(x.lists, k), ListOf(y.lists, k);
      var first := if was == [] then b else was[0];
      if now != [] {
        assert now[0] in was;
      } else if k !in b.d.masks {
        assert b !in was;
        assert first in was ==> first in now;
      }
    }
  }

  lemma DroppedTable(x: Index, y: Index, b: JitBlock, open: nat)
    requires Table(x) && Keyed(x) && Live(x, b) && Dropped(x, y, b, open)
    ensures Table(y)
  {
  }

  /** The dropped block becomes a candidate for restoring; an older one with its hash is deleted. */
  function Retire(x: Index, b: JitBlock): Index {
    x.(candidates := x.candidates[b.d.words := b],
       freed := if b.d.words in x.candidates then x.freed + {x.candidates[b.d.words].id} else x.freed)
  }

  function Delete(x: Index, b: JitBlock): Index {
    x.(freed := x.freed + {b.id})
  }

  ghost predicate Shelved(x: Index, y: Index, b: JitBlock, retire: bool) {
    var z := if retire then Retire(x, b) else Delete(x, b);
    && y.blocks == x.blocks - {b.d.startAddr} && y.nextId == x.nextId && y.nextEntry == x.nextEntry
    && y.candidates == z.candidates && y.freed == z.freed
  }

  lemma ShelvedKnown(x: Index, y: Index, b: JitBlock, retire: bool, c: JitBlock)
    requires Keyed(x) && Live(x, b) && Shelved(x, y, b, retire) && Known(y, c)
    ensures Known(x, c)
    ensures Live(y, c) ==> Live(x, c) && c != b
    ensures Retired(y, c) ==> (retire && c == b) || (Retired(x, c) && (retire ==> c.d.words != b.d.words))
  {
  }

  lemma DroppedFiling(x: Index, y: Index, b: JitBlock, retire: bool)
    requires Filing(x) && Live(x, b) && Shelved(x, y, b, retire)
    ensures Filing(y)
  {
    hide Apart;
    forall c | Known(y, c) ensures Known(x, c) && c.id !in y.freed {
      ShelvedKnown(x, y, b, retire, c);
      if b.d.words in x.candidates {
        assert Retired(x, x.candidates[b.d.words]);
        ApartIds(x, c, x.candidates[b.d.words]);
      }
      ApartIds(x, c, b);
    }
    forall c ensures !(Live(y, c) && Retired(y, c)) {
      if Known(y, c) { ShelvedKnown(x, y, b, retire, c); }
    }
    ApartShrinks(x, y);
  }

  lemma ApartIds(x: Index, b: JitBlock, c: JitBlock)
    requires Apart(x) && Known(x, b) && Known(x, c)
    ensures b.id == c.id || b.entry == c.entry ==> b == c
  {
  }

  lemma ApartShrinks(x: Index, y: Index)
    requires Apart(x) && forall c :: Known(y, c) ==> Known(x, c)
    ensures Apart(y)
  {
  }

  // ----- Adding one block -----

  /** y is x with block b entered in every index. */
  ghost predicate Entered(x: Index, y: Index, b: JitBlock) {
    && y.blocks == x.blocks[b.d.startAddr := b]
    && y.fast == x.fast[b.d.startLocal / 2 := (b.d.startAddr, b.entry)]
    && (forall k :: ListOf(y.lists, k) == ListOf(x.lists, k) + (if k in b.d.masks then [b] else []))
    && (forall k :: CodeOf(y.codes, k) == CodeOf(x.codes, k) + (if k in b.d.masks then b.d.masks[k] else {}))
    && y.candidates == x.candidates && y.freed == x.freed && y.nextId == x.nextId && y.nextEntry == x.nextEntry
  }

  /** Block b is nowhere in x but may be entered. */
  ghost predicate Enterable(x: Index, b: JitBlock) {
    && b.d.startAddr !in x.blocks && !Retired(x, b) && WellFormed(b.d)
    && b.id !in x.freed && b.id < x.nextId && b.entry < x.nextEntry
    && forall c :: Known(x, c) ==> c.id != b.id && c.entry != b.entry
  }

  lemma EnteredListing(x: Index, y: Index, b: JitBlock)
    requires Listing(x) && Keyed(x) && Enterable(x, b) && Entered(x, y, b)
    ensures Listing(y)
  {
    forall k, c | c in ListOf(y.lists, k) ensures Live(y, c) && k in c.d.masks {
      if c in ListOf(x.lists, k) { assert Live(x, c); }
    }
    forall c, k | Live(y, c) && k in c.d.masks ensures c in ListOf(y.lists, k) {
      if c != b { assert Live(x, c); }
    }
    forall k ensures Distinct(ListOf(y.lists, k)) {
      assert Distinct(ListOf(x.lists, k));
      assert !Live(x, b);
    }
  }

  lemma EnteredBits(x: Index, y: Index, b: JitBlock)
    requires Bits(x, None) && Enterable(x, b) && Entered(x, y, b)
    ensures Bits(y, None)
  {
    forall k: nat
      ensures forall c :: c in ListOf(y.lists, k) && k in c.d.masks ==> c.d.masks[k] <= CodeOf(y.codes, k)
      ensures ListOf(y.lists, k) == [] <==> CodeOf(y.codes, k) == {}
    {
      assert ListOf(x.lists, k) == [] <==> CodeOf(x.codes, k) == {};
      assert ListOf(y.lists, k) == ListOf(x.lists, k) + (if k in b.d.masks then [b] else []);
    }
  }

  lemma EnteredTable(x: Index, y: Index, b: JitBlock)
    requires Table(x) && Enterable(x, b) && Entered(x, y, b)
    ensures Table(y)
  {
  }

  lemma EnteredKnown(x: Index, y: Index, b: JitBlock, c: JitBlock)
    requires Enterable(x, b) && Entered(x, y, b)
    ensures Live(y, c) <==> c == b || Live(x, c)
    ensures Retired(y, c) <==> Retired(x, c)
    ensures c == b ==> !Known(x, c)
  {
  }

  lemma EnteredFiling(x: Index, y: Index, b: JitBlock)
    requires Filing(x) && Enterable(x, b) && Entered(x, y, b)
    ensures Filing(y)
  {
    hide Entered, Live, Retired, Enterable;
    EnterableFields(x, b);
    forall c ensures Live(y, c) <==> c == b || Live(x, c) { EnteredKnown(x, y, b, c); }
    forall c ensures Retired(y, c) <==> Retired(x, c) { EnteredKnown(x, y, b, c); }
    forall c ensures c == b ==> !Known(x, c) { EnteredKnown(x, y, b, c); }
    EnteredFields(x, y, b);
  }

  lemma EnterableFields(x: Index, b: JitBlock)
    requires Enterable(x, b)
    ensures b.d.startAddr !in x.blocks && WellFormed(b.d)
    ensures b.id !in x.freed && b.id < x.nextId && b.entry < x.nextEntry
    ensures forall c :: Known(x, c) ==> c.id != b.id && c.entry != b.entry
  {
  }

  lemma EnteredFields(x: Index, y: Index, b: JitBlock)
    requires Entered(x, y, b)
    ensures y.blocks == x.blocks[b.d.startAddr := b] && y.candidates == x.candidates
    ensures y.freed == x.freed && y.nextId == x.nextId && y.nextEntry == x.nextEntry
  {
  }

  // ----- What the indexes are for -----

  /** Every live block was compiled from what memory holds now. */
  ghost predicate UpToDate(x: Index, mem: Memory) {
    forall a :: a in x.blocks && WellFormed(x.blocks[a].d) ==> Current(x.blocks[a].d, mem)
  }

  /** A write may change anything in its granule and nothing else. */
  ghost predicate WritesGranule(before: Memory, after: Memory, local: nat) {
    forall a: nat :: a / 16 != local / 16 ==> after(a) == before(a)
  }

  lemma GranuleBit(a: nat, b: nat)
    requires a / 16 == b / 16
    ensures RangeOf(a) == RangeOf(b) && BitOf(a) == BitOf(b)
  {
  }

  /** A block that does not depend on the written granule stays up to date. */
  lemma StaysCurrent(d: Decoded, before: Memory, after: Memory, local: nat)
    requires WellFormed(d) && Current(d, before) && WritesGranule(before, after, local) && !Covers(d, local)
    ensures Current(d, after)
  {
    forall i | 0 <= i < |d.addrs| ensures after(d.addrs[i]) == before(d.addrs[i]) {
      assert Covers(d, d.addrs[i]);
      if d.addrs[i] / 16 == local / 16 { GranuleBit(d.addrs[i], local); }
    }
    forall i | 0 <= i < |d.literals| ensures after(d.literals[i]) == before(d.literals[i]) {
      assert Covers(d, d.literals[i]);
      if d.literals[i] / 16 == local / 16 { GranuleBit(d.literals[i], local); }
    }
  }

  // ----- Unlisting, range by range -----

  ghost predicate RemovedFrom(was: map<nat, seq<JitBlock>>, now: map<nat, seq<JitBlock>>, k: nat, b: JitBlock) {
    && Distinct(ListOf(now, k)) && |ListOf(now, k)| < |ListOf(was, k)|
    && (forall c :: c in ListOf(now, k) <==> c in ListOf(was, k) && c != b)
    && (forall m :: m != k ==> ListOf(now, m) == ListOf(was, m))
  }

  ghost predicate Unlisted(was: map<nat, seq<JitBlock>>, now: map<nat, seq<JitBlock>>, b: JitBlock, done: set<nat>) {
    && (forall k :: Distinct(ListOf(now, k)))
    && (forall k, c :: c in ListOf(now, k) <==> c in ListOf(was, k) && !(c == b && k in done))
  }

  ghost predicate Cleared(was: map<nat, set<nat>>, now: map<nat, set<nat>>, lists: map<nat, seq<JitBlock>>,
                          open: nat, done: set<nat>) {
    forall k :: k != open ==>
      CodeOf(now, k) == if k in done && ListOf(lists, k) == [] then {} else CodeOf(was, k)
  }

  lemma UnlistStart(lists: map<nat, seq<JitBlock>>, codes: map<nat, set<nat>>, b: JitBlock, open: nat)
    ensures Cleared(codes, codes, lists, open, {})
  {
  }

  lemma UnlistedHas(was: map<nat, seq<JitBlock>>, now: map<nat, seq<JitBlock>>, b: JitBlock, done: set<nat>, k: nat)
    requires Unlisted(was, now, b, done) && b in ListOf(was, k) && k !in done
    ensures b in ListOf(now, k) && Distinct(ListOf(now, k))
  {
  }

  lemma UnlistStep(was: map<nat, seq<JitBlock>>, mid: map<nat, seq<JitBlock>>, now: map<nat, seq<JitBlock>>,
                   b: JitBlock, done: set<nat>, k: nat)
    requires Unlisted(was, mid, b, done) && RemovedFrom(mid, now, k, b)
    ensures Unlisted(was, now, b, done + {k})
  {
    forall m ensures Distinct(ListOf(now, m)) {
      assert Distinct(ListOf(mid, m));
    }
  }

  lemma ClearStep(was: map<nat, set<nat>>, codes: map<nat, set<nat>>, mid: map<nat, seq<JitBlock>>,
                  now: map<nat, seq<JitBlock>>, open: nat, done: set<nat>, k: nat, b: JitBlock)
    requires Cleared(was, codes, mid, open, done) && RemovedFrom(mid, now, k, b) && (k == open || k !in done)
    ensures Cleared(was, if k != open && ListOf(now, k) == [] then codes[k := {}] else codes, now, open, done + {k})
  {
  }

  // ----- The cache itself -----

  /** Every block the cache knows is filed under the address map. */
  /** The literal, if a live block has folded it in. */
  ghost function Folding(x: Index, local: nat): set<nat> {
    if exists b :: Live(x, b) && local in b.d.literals then {local} else {}
  }

  /** A block is listed wherever it has a literal, and a clear code bit means that none has. */
  lemma FoldingIsStruck(x: Index, local: nat)
    requires Consistent(x, None)
    ensures Struck(ListOf(x.lists, RangeOf(local)), local) == Folding(x, local)
    ensures BitOf(local) !in CodeOf(x.codes, RangeOf(local)) ==> Folding(x, local) == {}
  {
    hide Table, Bits, Listing, Filing;
    forall b | Live(x, b) && local in b.d.literals
      ensures b in ListOf(x.lists, RangeOf(local)) && Covers(b.d, local)
    {
      LiveFacts(x, b);
    }
    forall b | b in ListOf(x.lists, RangeOf(local)) ensures Live(x, b) { ListedIsLive(x, RangeOf(local), b); }
    if BitOf(local) !in CodeOf(x.codes, RangeOf(local)) { ClearBitUncovers(x, local); }
  }

  /** The literal, if one of the blocks has folded it in. */
  function Struck(listed: seq<JitBlock>, local: nat): set<nat> {
    if exists b :: b in listed && local in b.d.literals then {local} else {}
  }

  ghost predicate Mapped(x: Index, localise: nat -> nat) {
    forall b :: Known(x, b) ==> b.d.startLocal == localise(b.d.startAddr)
  }

  class BlockCache {
    ghost const localise: nat -> nat      // LocaliseCodeAddress
    ghost var mem: Memory
    var blocks: map<nat, JitBlock>
    var fast: map<nat, (nat, nat)>
    var lists: map<nat, seq<JitBlock>>
    var codes: map<nat, set<nat>>
    var candidates: map<seq<nat>, JitBlock>
    var invalidLiterals: set<nat>
    var nextId: nat
    var nextEntry: nat
    ghost var freed: set<nat>

    ghost function Now(): Index
      reads this
    {
      Index(blocks, fast, lists, codes, candidates, freed, nextId, nextEntry)
    }

    ghost predicate Valid()
      reads this
    {
      Consistent(Now(), None) && Mapped(Now(), localise)
    }

    /** The cache after the first reset: nothing compiled, nothing to look up. */
    constructor (ghost localise: nat -> nat, ghost mem: Memory)
      ensures Valid() && UpToDate(Now(), mem) && this.mem == mem && this.localise == localise
      ensures blocks == map[] && candidates == map[]
    {
      this.localise, this.mem := localise, mem;
      blocks, fast, lists, codes, candidates := map[], map[], map[], map[], map[];
      invalidLiterals, nextId, nextEntry, freed := {}, 0, 0, {};
    }

    /** Takes block b, listed in range k, out of that range's list. */
    method RemoveByValue(k: nat, b: JitBlock)
      requires b in ListOf(lists, k) && Distinct(ListOf(lists, k))
      modifies `lists
      ensures RemovedFrom(old(lists), lists, k, b)
    {
      var s := lists[k];
      var i := 0;
      while s[i] != b
        invariant i < |s| && b in s[i..]
        decreases |s| - i
      {
        i := i + 1;
      }
      SwapRemoves(s, i);
      lists := lists[k := SwapRemove(s, i)];
    }

    /** Takes block b out of the list of one more range. */
    method UnlistRange(b: JitBlock, k: nat, open: nat, ghost was: map<nat, seq<JitBlock>>,
                       ghost wasCodes: map<nat, set<nat>>, ghost done: set<nat>)
      requires Unlisted(was, lists, b, done) && Cleared(wasCodes, codes, lists, open, done)
      requires k !in done && b in ListOf(was, k)
      modifies `lists, `codes
      ensures Unlisted(was, lists, b, done + {k}) && Cleared(wasCodes, codes, lists, open, done + {k})
      ensures k != open ==> ListOf(lists, open) == ListOf(old(lists), open)
      ensures |ListOf(lists, k)| < |ListOf(old(lists), k)| && CodeOf(codes, open) == CodeOf(old(codes), open)
    {
      hide Unlisted, Cleared;
      UnlistedHas(was, lists, b, done, k);
      RemoveByValue(k, b);
      UnlistStep(was, old(lists), lists, b, done, k);
      ClearStep(wasCodes, codes, old(lists), lists, open, done, k, b);
      if k != open && ListOf(lists, k) == [] { codes := codes[k := {}]; }
    }

    /** Takes block b out of every list it is in; a list that becomes empty loses its code bits. */
    method Unlist(b: JitBlock, open: nat)
      requires WellFormed(b.d) && open in b.d.masks && Unlisted(lists, lists, b, {})
      requires forall k :: k in b.d.masks ==> b in ListOf(lists, k)
      modifies `lists, `codes
      ensures Unlisted(old(lists), lists, b, b.d.masks.Keys)
      ensures Cleared(old(codes), codes, lists, open, b.d.masks.Keys)
      ensures |ListOf(lists, open)| < |ListOf(old(lists), open)| && CodeOf(codes, open) == CodeOf(old(codes), open)
    {
      hide Unlisted, Cleared;
      UnlistStart(lists, codes, b, open);
      UnlistRange(b, open, open, old(lists), old(codes), {});
      ghost var done := {open};
      assert {} + {open} == done;
      for j := 0 to |b.d.ranges|
        invariant Unlisted(old(lists), lists, b, done) && Cleared(old(codes), codes, lists, open, done)
        invariant forall k :: k in done <==> k == open || k in b.d.ranges[..j]
        invariant |ListOf(lists, open)| < |ListOf(old(lists), open)| && CodeOf(codes, open) == CodeOf(old(codes), open)
      {
        var k := b.d.ranges[j];
        assert b.d.ranges[..j + 1] == b.d.ranges[..j] + [k];
        if k != open {
          UnlistRange(b, k, open, old(lists), old(codes), done);
          done := done + {k};
        }
      }
      assert b.d.ranges[..|b.d.ranges|] == b.d.ranges;
      assert done == b.d.masks.Keys;
    }

    method RetireJitBlock(b: JitBlock)
      modifies `candidates, `freed
      ensures candidates == Retire(old(Now()), b).candidates && freed == Retire(old(Now()), b).freed
      ensures Retired(Now(), b) && Restores(candidates, b.d)
      ensures forall c :: Retired(old(Now()), c) && c.d.words != b.d.words ==> Retired(Now(), c)
      ensures forall c :: Retired(old(Now()), c) && c.d.words == b.d.words ==> c.id in freed
    {
      if b.d.words in candidates { freed := freed + {candidates[b.d.words].id}; }
      candidates := candidates[b.d.words := b];
    }

    /** One round of the loop in InvalidateByAddr. */
    method Drop(b: JitBlock, local: nat)
      requires Consistent(Now(), Some(RangeOf(local))) && Live(Now(), b) && RangeOf(local) in b.d.masks
      modifies `blocks, `fast, `lists, `codes, `candidates, `freed, `invalidLiterals
      ensures Consistent(Now(), Some(RangeOf(local)))
      ensures Shrunk(old(Now()), Now()) && CodeOf(codes, RangeOf(local)) == CodeOf(old(codes), RangeOf(local))
      ensures |ListOf(lists, RangeOf(local))| < |ListOf(old(lists), RangeOf(local))|
      ensures forall c :: c in ListOf(lists, RangeOf(local)) <==> c in ListOf(old(lists), RangeOf(local)) && c != b
      ensures invalidLiterals == old(invalidLiterals) + if local in b.d.literals then {local} else {}
    {
      hide Listing, Bits, Table, Filing, Dropped, Shelved, Unlisted, Cleared;
      ghost var x := Now();
      var open := RangeOf(local);
      LiveFacts(x, b);
      Unlist(b, open);
      // a literal that was written is never folded in again
      var literalInvalidation := local in b.d.literals;
      if literalInvalidation { invalidLiterals := invalidLiterals + {local}; }
      fast := fast - {b.d.startLocal / 2};
      blocks := blocks - {b.d.startAddr};
      if literalInvalidation {
        freed := freed + {b.id};
      } else {
        RetireJitBlock(b);
      }
      AssembleDropped(x, Now(), b, open, !literalInvalidation);
      DroppedConsistent(x, Now(), b, open, !literalInvalidation);
      ShrunkDrop(x, Now(), b, !literalInvalidation);
      DroppedKeeps(x, Now(), b, open);
    }

    /** Drops every block listed in the 512-byte range of the address.  The mask the source tests a
        block against is the block's own (the inner declaration hides the one for the written
        granule), so no listed block survives. */
    method InvalidateByAddr(local: nat)
      requires Consistent(Now(), None)
      modifies `blocks, `fast, `lists, `codes, `candidates, `freed, `invalidLiterals
      ensures Consistent(Now(), None)
      ensures Shrunk(old(Now()), Now()) && ListOf(lists, RangeOf(local)) == []
      ensures invalidLiterals == old(invalidLiterals) + Struck(ListOf(old(lists), RangeOf(local)), local)
    {
      hide Listing, Bits, Table, Filing, Shrunk;
      var k := RangeOf(local);
      OpenRange(Now(), k);
      codes := codes[k := {}];
      ShrunkCodes(old(Now()), Now());
      while ListOf(lists, k) != []
        invariant Consistent(Now(), Some(k)) && CodeOf(codes, k) == {}
        invariant Shrunk(old(Now()), Now())
        invariant old(invalidLiterals) <= invalidLiterals
          <= old(invalidLiterals) + Struck(ListOf(old(lists), k), local)
        invariant forall c :: c in ListOf(old(lists), k) && local in c.d.literals ==>
          c in ListOf(lists, k) || local in invalidLiterals
        invariant forall c :: c in ListOf(lists, k) ==> c in ListOf(old(lists), k)
        decreases |ListOf(lists, k)|
      {
        var b := lists[k][0];
        ghost var x := Now();
        ListedIsLive(x, k, b);
        Drop(b, local);
        ShrunkTrans(old(Now()), x, Now());
      }
      CloseRange(Now(), k);
    }

    /** A store by the guest: memory changes, and if the granule's code bit is set the range is
        invalidated.  No block that depends on the granule stays live, and live blocks stay current. */
    method CheckAndInvalidate(local: nat, ghost after: Memory)
      requires Valid() && WritesGranule(mem, after, local)
      modifies this
      ensures Valid() && mem == after && Shrunk(old(Now()), Now())
      ensures forall b :: Live(Now(), b) ==> !Covers(b.d, local)
      ensures UpToDate(old(Now()), old(mem)) ==> UpToDate(Now(), mem)
      ensures invalidLiterals == old(invalidLiterals) + Folding(old(Now()), local)
    {
      hide Listing, Bits, Table, Filing, Shrunk, UpToDate, Mapped, Struck, Folding;
      ghost var x := Now();
      FoldingIsStruck(x, local);
      if BitOf(local) in CodeOf(codes, RangeOf(local)) {
        InvalidateByAddr(local);
        EmptyRangeUncovers(Now(), local);
      } else {
        ShrunkCodes(x, Now());
        ClearBitUncovers(Now(), local);
      }
      MappedShrinks(x, Now(), localise);
      mem := after;
      WriteKeepsCurrent(x, Now(), old(mem), after, local);
    }

    /** Dispatch: the entry found is that of the live block that starts at the address, which memory
        still agrees with. */
    method LookUpBlock(addr: nat, local: nat) returns (entry: Option<nat>)
      requires Valid()
      ensures entry.Some? <==> local / 2 in fast && fast[local / 2].0 == addr
      ensures entry.Some? ==> addr in blocks && entry.value == blocks[addr].entry
      ensures entry.Some? ==> blocks[addr].d.startAddr == addr && blocks[addr].d.startLocal / 2 == local / 2
      ensures entry.Some? && UpToDate(Now(), mem) ==> WellFormed(blocks[addr].d) && Current(blocks[addr].d, mem)
    {
      entry := None;
      if local / 2 in fast && fast[local / 2].0 == addr {
        entry := Some(fast[local / 2].1);
        assert Known(Now(), blocks[addr]);
      }
    }

    /** Clears the list of every range some live block depends on. */
    method ClearLists()
      requires Consistent(Now(), None)
      modifies `lists, `codes
      ensures OnlyLists(old(Now()), lists, codes, {})
    {
      hide Listing, Bits, Table, Filing, OnlyLists;
      ghost var x := Now();
      var rest := blocks.Keys;
      OnlyListsStart(x);
      while rest != {}
        invariant rest <= blocks.Keys && OnlyLists(x, lists, codes, rest)
        decreases rest
      {
        var a :| a in rest;
        var b := blocks[a];
        for j := 0 to |b.d.ranges|
          invariant OnlyLists(x, lists, codes, rest)
          invariant forall k :: k in b.d.ranges[..j] ==> ListOf(lists, k) == []
        {
          ClearRange(x, lists, codes, rest, b.d.ranges[j]);
          lists := lists[b.d.ranges[j] := []];
          codes := codes[b.d.ranges[j] := {}];
          assert b.d.ranges[..j + 1] == b.d.ranges[..j] + [b.d.ranges[j]];
        }
        assert b.d.ranges[..|b.d.ranges|] == b.d.ranges;
        BlockCleared(x, lists, codes, rest, a);
        rest := rest - {a};
      }
    }

    /** Deletes every block and clears every index. */
    method ResetBlockCache()
      requires Consistent(Now(), None)
      modifies `lists, `codes, `blocks, `fast, `candidates, `freed, `invalidLiterals, `nextEntry
      ensures Consistent(Now(), None)
      ensures blocks == map[] && fast == map[] && candidates == map[] && invalidLiterals == {}
      ensures forall k :: ListOf(lists, k) == [] && CodeOf(codes, k) == {}
      ensures freed == old(freed) + KnownIds(old(Now()))
    {
      hide Listing, Bits, Table, Filing, OnlyLists, KnownIds;
      ghost var x := Now();
      ClearLists();
      invalidLiterals := {};
      fast := map[];
      freed := freed + KnownIds(x);
      candidates := map[];
      blocks := map[];
      nextEntry := 0;
      ResetConsistent(x, Now());
    }

    /** Adds a block to the list and the code bits of every range it depends on. */
    method EnterLists(b: JitBlock)
      requires WellFormed(b.d)
      modifies `lists, `codes
      ensures ListsEntered(old(lists), lists, b, b.d.ranges) && CodesEntered(old(codes), codes, b, b.d.ranges)
    {
      hide ListsEntered, CodesEntered;
      EnterStart(Now(), b);
      for j := 0 to |b.d.ranges|
        invariant ListsEntered(old(lists), lists, b, b.d.ranges[..j])
        invariant CodesEntered(old(codes), codes, b, b.d.ranges[..j])
      {
        var k := b.d.ranges[j];
        assert b.d.ranges[..j + 1] == b.d.ranges[..j] + [k];
        EnterCode(old(codes), codes, b, b.d.ranges[..j], k);
        EnterList(old(lists), lists, b, b.d.ranges[..j], k);
        codes := codes[k := CodeOf(codes, k) + b.d.masks[k]];
        lists := lists[k := ListOf(lists, k) + [b]];
      }
      assert b.d.ranges[..|b.d.ranges|] == b.d.ranges;
    }

    /** Enters a block in every index, as the end of CompileBlock does. */
    method Enter(b: JitBlock)
      requires Consistent(Now(), None) && Enterable(Now(), b)
      modifies `lists, `codes, `blocks, `fast
      ensures Consistent(Now(), None) && Entered(old(Now()), Now(), b)
    {
      hide Listing, Bits, Table, Filing, Entered, ListsEntered, CodesEntered;
      EnterLists(b);
      blocks := blocks[b.d.startAddr := b];
      fast := fast[b.d.startLocal / 2 := (b.d.startAddr, b.entry)];
      AssembleEntered(old(Now()), Now(), b);
      EnteredConsistent(old(Now()), Now(), b);
    }

    /** A newly compiled block; a candidate with the same hash is deleted.  codeFull says that the code
        memory runs out, which resets the cache. */
    method NewBlock(d: Decoded, codeFull: bool) returns (b: JitBlock)
      requires Valid() && WellFormed(d) && d.startLocal == localise(d.startAddr) && d.startAddr !in blocks
      modifies `lists, `codes, `blocks, `fast, `candidates, `freed, `invalidLiterals, `nextEntry, `nextId
      ensures Valid() && Enterable(Now(), b) && b.d == d
      ensures blocks == old(blocks) || blocks == map[]
      ensures invalidLiterals == if codeFull then {} else old(invalidLiterals)
    {
      hide Listing, Bits, Table, Filing, Enterable, Mapped, Unused, KnownIds, WellFormed;
      ghost var x := Now();
      if d.words in candidates {
        freed := freed + {candidates[d.words].id};
        candidates := candidates - {d.words};
      }
      ghost var y := Now();
      DiscardConsistent(x, y, d, localise);
      var id := nextId;
      nextId := nextId + 1;
      BumpConsistent(y, Now(), localise);
      if codeFull {
        ghost var z := Now();
        ResetBlockCache();
        ResetMapped(z, Now(), id, localise);
      }
      b := JitBlock(id, nextEntry, d);
      ghost var w := Now();
      nextEntry := nextEntry + 1;
      NewEnterable(w, Now(), b, localise);
    }

    /** The block for what decoding found: the candidate with the same hash if it passes the restore
        test, else a new one. */
    method Obtain(d: Decoded, codeFull: bool) returns (b: JitBlock)
      requires Valid() && WellFormed(d) && d.startLocal == localise(d.startAddr) && d.startAddr !in blocks
      modifies `lists, `codes, `blocks, `fast, `candidates, `freed, `invalidLiterals, `nextEntry, `nextId
      ensures Valid() && Enterable(Now(), b) && b.d.startAddr == d.startAddr && b.d.startLocal == d.startLocal
      ensures if Restores(old(candidates), d) then b == old(candidates)[d.words] else b.d == d
      ensures blocks == old(blocks) || blocks == map[]
      ensures invalidLiterals == if codeFull && !Restores(old(candidates), d) then {} else old(invalidLiterals)
    {
      hide Listing, Bits, Table, Filing, Enterable, Mapped, WellFormed, MayRestore;
      if Restores(candidates, d) {
        ghost var x := Now();
        b := candidates[d.words];
        candidates := candidates - {d.words};
        RestoreEnterable(x, Now(), d, localise);
      } else {
        b := NewBlock(d, codeFull);
      }
    }

    /** Enters the block for what decoding found.  The cache stays up to date exactly when memory, after
        decoding has also executed the block's instructions, holds what the block was compiled from:
        the words decoding read, or those of the restored candidate. */
    method CompileNew(d: Decoded, selfWritten: set<nat>, codeFull: bool) returns (b: JitBlock)
      requires Valid() && WellFormed(d) && d.startLocal == localise(d.startAddr) && d.startAddr !in blocks
      modifies this
      ensures Valid() && mem == old(mem)
      ensures Live(Now(), b) && b.d.startAddr == d.startAddr
      ensures d.startLocal / 2 in fast && fast[d.startLocal / 2] == (d.startAddr, b.entry)
      ensures if Restores(old(candidates), d) then b == old(candidates)[d.words] else b.d == d
      ensures WellFormed(b.d)
      ensures UpToDate(old(Now()), mem) ==> (UpToDate(Now(), mem) <==> Current(b.d, mem))
      ensures invalidLiterals == if codeFull && !Restores(old(candidates), d) then {}
        else old(invalidLiterals) + (set l | l in selfWritten && l in d.literals)
    {
      hide Listing, Bits, Table, Filing, Entered, Enterable, Mapped, UpToDate, WellFormed;
      ghost var x := Now();
      invalidLiterals := invalidLiterals + (selfWritten * (set l | l in d.literals));
      b := Obtain(d, codeFull);
      ghost var y := Now();
      EnterableFields(y, b);
      Enter(b);
      EnteredMapped(y, Now(), b, localise);
      EnteredCurrent(x, y, Now(), b, mem);
      EnteredHas(y, Now(), b);
    }

    /** Decoding executes the block.  Its stores invalidate what they hit; a literal is folded in unless a
        store has invalidated it before then.  selfWritten are the stores that the decoder remembers. */
    method DecodeBlock(trace: seq<Event>) returns (uses: seq<Use>, selfWritten: set<nat>, ghost invalid: seq<set<nat>>)
      requires Valid() && forall e :: e in trace ==> Small(e)
      modifies this
      ensures Valid() && mem == After(old(mem), trace, |trace|) && Shrunk(old(Now()), Now())
      ensures UpToDate(old(Now()), old(mem)) ==> UpToDate(Now(), mem)
      ensures |invalid| == |trace| + 1 && invalid[0] == old(invalidLiterals) && invalid[|trace|] == invalidLiterals
      ensures forall i :: 0 <= i < |trace| ==> InvalidatesAtMost(trace[i], invalid[i], invalid[i + 1])
      ensures uses == FoldedUses(trace, invalid) && selfWritten == Noted(trace)
    {
      hide Listing, Bits, Table, Filing, Mapped, Shrunk, UpToDate, After, Folding, FoldedUses, Noted;
      uses, selfWritten, invalid := [], {}, [invalidLiterals];
      ShrunkSame(Now());
      NothingDecoded(mem, invalid);
      for i := 0 to |trace|
        invariant Valid() && mem == After(old(mem), trace[..i], i) && Shrunk(old(Now()), Now())
        invariant UpToDate(old(Now()), old(mem)) ==> UpToDate(Now(), mem)
        invariant |invalid| == i + 1 && invalid[0] == old(invalidLiterals) && invalid[i] == invalidLiterals
        invariant forall k :: 0 <= k < i ==> InvalidatesAtMost(trace[k], invalid[k], invalid[k + 1])
        invariant uses == FoldedUses(trace[..i], invalid) && selfWritten == Noted(trace[..i])
      {
        ghost var x := Now();
        var e := trace[i];
        assert Small(e);
        DecodedOne(old(mem), trace, i, invalid, invalidLiterals);
        match e {
          case Prefetched(_, _) =>
          case Met(use) =>
            if use.Fetch? || use.local !in invalidLiterals { uses := uses + [use]; }
          case Stored(local, put, noted) =>
            CheckAndInvalidate(local, PutInto(mem, put));
            FoldingSmall(x, local);
            ShrunkTrans(old(Now()), x, Now());
            if noted { selfWritten := selfWritten + {local}; }
            DecodedOne(old(mem), trace, i, invalid, invalidLiterals);
        }
        assert InvalidatesAtMost(e, invalid[i], invalidLiterals);
        invalid := invalid + [invalidLiterals];
      }
      assert trace[..|trace|] == trace;
    }

    /** Compiles, restores or re-enters the block at startAddr; b is the block that ends up live.  The trace
        is what decoding reads and stores, d what it makes of that, and shelf the candidates it then finds.
        The cache stays up to date exactly when the block was there already or memory holds what b was
        compiled from; for a block compiled anew that is when none of its reads was overtaken by one of
        its own stores. */
    method CompileBlock(startAddr: nat, startLocal: nat, trace: seq<Event>, codeFull: bool)
      returns (b: JitBlock, ghost d: Decoded, ghost uses: seq<Use>, ghost shelf: map<seq<nat>, JitBlock>)
      requires Valid() && startLocal == localise(startAddr) && forall e :: e in trace ==> Small(e)
      requires startAddr !in blocks ==> Timely(trace, mem)
      modifies this
      ensures Valid() && mem == if startAddr in old(blocks) then old(mem) else After(old(mem), trace, |trace|)
      ensures Live(Now(), b) && b.d.startAddr == startAddr && WellFormed(b.d)
      ensures startLocal / 2 in fast && fast[startLocal / 2] == (startAddr, b.entry)
      ensures startAddr in old(blocks) ==> blocks == old(blocks)
      ensures startAddr !in old(blocks) ==>
        && Describes(d, startAddr, startLocal, uses) && MadeOf(trace, uses, old(invalidLiterals))
        && (if Restores(shelf, d) then b == shelf[d.words] else b.d == d)
        && (b.d == d ==> (Current(b.d, mem) <==> Intact(trace, uses)))
        && forall h :: h in shelf ==> Known(old(Now()), shelf[h])
      ensures UpToDate(old(Now()), old(mem)) ==>
        (UpToDate(Now(), mem) <==> startAddr in old(blocks) || Current(b.d, mem))
    {
      hide Listing, Bits, Table, Filing, Mapped, UpToDate, WellFormed, Describes, Shrunk, After, Intact, Current, Known;
      ghost var x := Now();
      if startAddr in blocks {
        // another mirror of the same memory: only the fast lookup entry changes hands
        b := blocks[startAddr];
        fast := fast[startLocal / 2 := (startAddr, b.entry)];
        Switched(x, Now(), b, startAddr, startLocal, localise);
        SameBlocksCurrent(x, Now(), mem);
        LiveFacts(x, b);
        d, uses, shelf := b.d, [], map[];
      } else {
        var met, selfWritten;
        ghost var invalid;
        met, selfWritten, invalid := DecodeBlock(trace);
        NothingAdded(x, Now());
        assert MadeOf(trace, met, old(invalidLiterals));
        var found := Describe(startAddr, startLocal, met);
        d, uses, shelf := found, met, candidates;
        DescribedWellFormed(d, startAddr, startLocal, uses);
        DescribedCurrent(d, startAddr, startLocal, uses, mem);
        UsesHoldIff(old(mem), trace, uses);
        b := CompileNew(found, selfWritten, codeFull);
      }
    }
  }

  /** A block whose first word stores over its second is entered as it was read: an empty cache is out of
      date after compiling it. */
  method CompileSelfStore() returns (c: BlockCache)
    ensures c.Valid() && c.mem(4) == 8 && !UpToDate(c.Now(), c.mem)
  {
    hide Listing, Bits, Table, Filing, Mapped, UpToDate, WellFormed, Describes, Current, MadeOf, After, Restores;
    c := new BlockCache(Same, TwoWords);
    SelfStoreIsOvertaken();
    NoneKnown(c.Now());
    ghost var at := c.invalidLiterals;
    var b;
    ghost var d, uses, shelf;
    b, d, uses, shelf := c.CompileBlock(0, 0, SelfStore, false);
    NotOnShelf(shelf, d);
    SelfStoreUses(uses, at);
    assert Overtaken(SelfStore, 1, Fetch(4, 7));
  }

  lemma NoneKnown(x: Index)
    requires x.blocks == map[] && x.candidates == map[]
    ensures forall b :: !Known(x, b)
  {
  }

  lemma NotOnShelf(shelf: map<seq<nat>, JitBlock>, d: Decoded)
    requires forall h :: h !in shelf
    ensures !Restores(shelf, d)
  {
  }

  lemma SelfStoreUses(uses: seq<Use>, at: set<nat>)
    requires MadeOf(SelfStore, uses, at)
    ensures Fetch(4, 7) in uses
  {
    var invalid: seq<set<nat>> :| |invalid| == |SelfStore| + 1 && uses == FoldedUses(SelfStore, invalid);
    LastFolded(SelfStore, invalid);
  }

  lemma LastFolded(trace: seq<Event>, invalid: seq<set<nat>>)
    requires |invalid| >= |trace| > 0 && FoldsIn(trace[|trace| - 1], invalid[|trace| - 1])
    ensures trace[|trace| - 1].use in FoldedUses(trace, invalid)
  {
  }

  /** uses are the words met, and the literals that were not invalidated when they were met: at first those in
      `at`, and after a store perhaps its place, too. */
  ghost predicate MadeOf(trace: seq<Event>, uses: seq<Use>, at: set<nat>) {
    exists invalid: seq<set<nat>> ::
      && |invalid| == |trace| + 1 && invalid[0] == at
      && (forall i :: 0 <= i < |trace| ==> InvalidatesAtMost(trace[i], invalid[i], invalid[i + 1]))
      && uses == FoldedUses(trace, invalid)
  }

  ghost predicate InvalidatesAtMost(e: Event, was: set<nat>, now: set<nat>) {
    was <= now <= was + if e.Stored? then {e.local} else {}
  }

  lemma NothingDecoded(m: Memory, invalid: seq<set<nat>>)
    ensures After(m, [], 0) == m && FoldedUses([], invalid) == [] && Noted([]) == {}
  {
  }

  /** What one more event does to memory, uses and remembered stores. */
  lemma DecodedOne(m: Memory, trace: seq<Event>, i: nat, invalid: seq<set<nat>>, last: set<nat>)
    requires i < |trace| && |invalid| == i + 1
    ensures
      var before, e := trace[..i], trace[i];
      && After(m, trace[..i + 1], i + 1) ==
          (if e.Stored? then PutInto(After(m, before, i), e.put) else After(m, before, i))
      && FoldedUses(trace[..i + 1], invalid + [last]) ==
          FoldedUses(before, invalid) + (if FoldsIn(e, invalid[i]) then [e.use] else [])
      && Noted(trace[..i + 1]) == Noted(before) + if e.Stored? && e.noted then {e.local} else {}
  {
    assert trace[..i + 1][..i] == trace[..i];
    SameAfter(m, trace[..i + 1], trace[..i], i);
    SameFolded(trace[..i], invalid + [last], invalid);
  }

  lemma {:induction false} SameAfter(m: Memory, s: seq<Event>, t: seq<Event>, n: nat)
    requires n <= |s| && n <= |t| && s[..n] == t[..n]
    ensures After(m, s, n) == After(m, t, n)
  {
    if n > 0 {
      assert s[..n][..n - 1] == s[..n - 1] && t[..n][..n - 1] == t[..n - 1];
      assert s[n - 1] == s[..n][n - 1] == t[..n][n - 1] == t[n - 1];
      SameAfter(m, s, t, n - 1);
    }
  }

  lemma {:induction false} SameFolded(trace: seq<Event>, a: seq<set<nat>>, b: seq<set<nat>>)
    requires |a| >= |trace| && |b| >= |trace| && a[..|trace|] == b[..|trace|]
    ensures FoldedUses(trace, a) == FoldedUses(trace, b)
  {
    if trace != [] {
      var k := |trace| - 1;
      assert a[k] == a[..|trace|][k] == b[..|trace|][k] == b[k];
      assert a[..k] == a[..|trace|][..k] && b[..k] == b[..|trace|][..k];
      SameFolded(trace[..k], a, b);
    }
  }

  lemma ShrunkSame(x: Index)
    ensures Shrunk(x, x)
  {
  }

  lemma NothingAdded(x: Index, y: Index)
    requires Shrunk(x, y) && Consistent(y, None)
    ensures y.blocks.Keys <= x.blocks.Keys
    ensures forall h :: h in y.candidates ==> Known(x, y.candidates[h])
  {
    hide Listing, Bits, Table;
    forall a | a in y.blocks ensures a in x.blocks { assert Known(y, y.blocks[a]) && Live(y, y.blocks[a]); }
    forall h | h in y.candidates ensures Known(x, y.candidates[h]) { assert Retired(y, y.candidates[h]); }
  }

  lemma FoldingSmall(x: Index, local: nat)
    ensures Folding(x, local) <= {local}
  {
  }

  ghost function KnownIds(x: Index): set<nat> {
    (set h | h in x.candidates :: x.candidates[h].id) + (set a | a in x.blocks :: x.blocks[a].id)
  }

  lemma KnownIdsExact(x: Index, i: nat)
    requires Keyed(x)
    ensures i in KnownIds(x) <==> exists b :: Known(x, b) && b.id == i
  {
    if i in KnownIds(x) {
      if h :| h in x.candidates && x.candidates[h].id == i { assert Known(x, x.candidates[h]); }
      else if a :| a in x.blocks && x.blocks[a].id == i { assert Known(x, x.blocks[a]); }
    }
  }

  /** While the cache is being reset: only blocks starting at an address in `rest` are still listed. */
  ghost predicate OnlyLists(x: Index, lists: map<nat, seq<JitBlock>>, codes: map<nat, set<nat>>, rest: set<nat>) {
    forall k: nat ::
      && (forall b :: b in ListOf(lists, k) ==> Live(x, b) && k in b.d.masks && b.d.startAddr in rest)
      && (ListOf(lists, k) == [] <==> CodeOf(codes, k) == {})
  }

  lemma OnlyListsStart(x: Index)
    requires Listing(x) && Bits(x, None)
    ensures OnlyLists(x, x.lists, x.codes, x.blocks.Keys)
  {
    forall k: nat ensures ListOf(x.lists, k) == [] <==> CodeOf(x.codes, k) == {} { assert None != Some(k); }
  }

  lemma ClearRange(x: Index, lists: map<nat, seq<JitBlock>>, codes: map<nat, set<nat>>, rest: set<nat>, k: nat)
    requires OnlyLists(x, lists, codes, rest)
    ensures OnlyLists(x, lists[k := []], codes[k := {}], rest)
  {
    var lists', codes' := lists[k := []], codes[k := {}];
    forall m: nat
      ensures forall b :: b in ListOf(lists', m) ==> Live(x, b) && m in b.d.masks && b.d.startAddr in rest
      ensures ListOf(lists', m) == [] <==> CodeOf(codes', m) == {}
    {
      if m != k { assert ListOf(lists', m) == ListOf(lists, m) && CodeOf(codes', m) == CodeOf(codes, m); }
    }
  }

  lemma BlockCleared(x: Index, lists: map<nat, seq<JitBlock>>, codes: map<nat, set<nat>>, rest: set<nat>, a: nat)
    requires OnlyLists(x, lists, codes, rest) && Filing(x) && a in x.blocks
    requires forall k :: k in x.blocks[a].d.ranges ==> ListOf(lists, k) == []
    ensures OnlyLists(x, lists, codes, rest - {a})
  {
    assert Live(x, x.blocks[a]);
    forall k: nat, b | b in ListOf(lists, k) ensures k in b.d.ranges {
      assert Known(x, b);
    }
  }

  lemma ResetConsistent(x: Index, y: Index)
    requires Filing(x) && OnlyLists(x, y.lists, y.codes, {})
    requires y.blocks == map[] && y.fast == map[] && y.candidates == map[] && y.nextId == x.nextId
    requires y.freed == x.freed + KnownIds(x)
    ensures Consistent(y, None)
    ensures forall k :: ListOf(y.lists, k) == [] && CodeOf(y.codes, k) == {}
  {
    forall i | i in KnownIds(x) ensures i < y.nextId {
      KnownIdsExact(x, i);
    }
    forall k: nat ensures ListOf(y.lists, k) == [] {
      NoMembers(ListOf(y.lists, k));
    }
  }

  lemma NoMembers<T>(s: seq<T>)
    ensures s == [] || s[0] in s
  {
  }

  // ----- Steps of CompileBlock -----

  /** The restore test: start address, literal values and dependencies must be the same. */
  predicate MayRestore(p: Decoded, d: Decoded) {
    p.startAddr == d.startAddr && p.literalValues == d.literalValues && p.ranges == d.ranges && p.masks == d.masks
  }

  predicate Restores(candidates: map<seq<nat>, JitBlock>, d: Decoded) {
    d.words in candidates && MayRestore(candidates[d.words].d, d)
  }

  ghost predicate ListsEntered(was: map<nat, seq<JitBlock>>, now: map<nat, seq<JitBlock>>, b: JitBlock,
                               done: seq<nat>) {
    forall k :: ListOf(now, k) == ListOf(was, k) + (if k in done then [b] else [])
  }

  ghost predicate CodesEntered(was: map<nat, set<nat>>, now: map<nat, set<nat>>, b: JitBlock, done: seq<nat>)
    requires forall k :: k in done ==> k in b.d.masks
  {
    forall k :: CodeOf(now, k) == CodeOf(was, k) + (if k in done then b.d.masks[k] else {})
  }

  lemma EnterStart(x: Index, b: JitBlock)
    ensures ListsEntered(x.lists, x.lists, b, []) && CodesEntered(x.codes, x.codes, b, [])
  {
  }

  lemma EnterList(was: map<nat, seq<JitBlock>>, now: map<nat, seq<JitBlock>>, b: JitBlock, done: seq<nat>, k: nat)
    requires k !in done && ListsEntered(was, now, b, done)
    ensures ListsEntered(was, now[k := ListOf(now, k) + [b]], b, done + [k])
  {
    var now' := now[k := ListOf(now, k) + [b]];
    forall m ensures ListOf(now', m) == ListOf(was, m) + (if m in done + [k] then [b] else []) {
      assert ListOf(now, m) == ListOf(was, m) + (if m in done then [b] else []);
    }
  }

  lemma EnterCode(was: map<nat, set<nat>>, now: map<nat, set<nat>>, b: JitBlock, done: seq<nat>, k: nat)
    requires k !in done && k in b.d.masks && (forall m :: m in done ==> m in b.d.masks)
      && CodesEntered(was, now, b, done)
    ensures CodesEntered(was, now[k := CodeOf(now, k) + b.d.masks[k]], b, done + [k])
  {
    var now' := now[k := CodeOf(now, k) + b.d.masks[k]];
    forall m ensures CodeOf(now', m) == CodeOf(was, m) + (if m in done + [k] then b.d.masks[m] else {}) {
      assert CodeOf(now, m) == CodeOf(was, m) + (if m in done then b.d.masks[m] else {});
    }
  }

  lemma AssembleEntered(x: Index, y: Index, b: JitBlock)
    requires WellFormed(b.d) && ListsEntered(x.lists, y.lists, b, b.d.ranges)
      && CodesEntered(x.codes, y.codes, b, b.d.ranges)
    requires y == x.(lists := y.lists, codes := y.codes, blocks := x.blocks[b.d.startAddr := b],
                     fast := x.fast[b.d.startLocal / 2 := (b.d.startAddr, b.entry)])
    ensures Entered(x, y, b)
  {
  }

  lemma EnteredConsistent(x: Index, y: Index, b: JitBlock)
    requires Consistent(x, None) && Enterable(x, b) && Entered(x, y, b)
    ensures Consistent(y, None)
  {
    hide Listing, Bits, Table, Keyed, Alive, Apart, Entered, Enterable;
    EnteredListing(x, y, b);
    EnteredBits(x, y, b);
    EnteredTable(x, y, b);
    EnteredFiling(x, y, b);
  }

  lemma EnteredHas(x: Index, y: Index, b: JitBlock)
    requires Entered(x, y, b)
    ensures Live(y, b) && b.d.startLocal / 2 in y.fast && y.fast[b.d.startLocal / 2] == (b.d.startAddr, b.entry)
  {
  }

  lemma EnteredMapped(x: Index, y: Index, b: JitBlock, localise: nat -> nat)
    requires Mapped(x, localise) && Entered(x, y, b)
    requires b.d.startLocal == localise(b.d.startAddr)
    ensures Mapped(y, localise)
  {
    forall c | Known(y, c) ensures c == b || Known(x, c) { }
  }

  lemma EnteredCurrent(x: Index, y: Index, z: Index, b: JitBlock, mem: Memory)
    requires Entered(y, z, b) && Enterable(y, b) && (y.blocks == x.blocks || y.blocks == map[])
    ensures UpToDate(x, mem) ==> (UpToDate(z, mem) <==> Current(b.d, mem))
  {
    assert z.blocks[b.d.startAddr] == b;
    forall a | a in z.blocks && a != b.d.startAddr ensures a in x.blocks && x.blocks[a] == z.blocks[a] { }
  }

  lemma ListsFrame(x: Index, y: Index, open: Option<nat>)
    requires Listing(x) && Bits(x, open) && y.lists == x.lists && y.codes == x.codes && y.blocks == x.blocks
    ensures Listing(y) && Bits(y, open)
  {
    forall c ensures Live(y, c) == Live(x, c) { }
  }

  /** The shelf may lose blocks, deleted or not; ids and entries may be used up. */
  lemma FilingFrame(x: Index, y: Index)
    requires Filing(x) && y.blocks == x.blocks && y.candidates.Keys <= x.candidates.Keys
    requires forall h :: h in y.candidates ==> y.candidates[h] == x.candidates[h]
    requires x.nextId <= y.nextId && x.nextEntry <= y.nextEntry
    requires forall i :: i in y.freed ==> i < y.nextId
    requires forall c :: Known(y, c) ==> c.id !in y.freed
    ensures Filing(y) && (forall c :: Known(y, c) ==> Known(x, c))
  {
    hide Apart;
    forall c | Known(y, c) ensures Known(x, c) && (Live(y, c) ==> Live(x, c)) && (Retired(y, c) ==> Retired(x, c)) { }
    ApartShrinks(x, y);
  }

  lemma MappedFrame(x: Index, y: Index, localise: nat -> nat)
    requires Mapped(x, localise) && forall c :: Known(y, c) ==> Known(x, c)
    ensures Mapped(y, localise)
  {
  }

  /** Only the fast lookup entry moved to another live block of the same slot. */
  lemma Switched(x: Index, y: Index, b: JitBlock, startAddr: nat, startLocal: nat, localise: nat -> nat)
    requires Consistent(x, None) && Mapped(x, localise)
    requires startAddr in x.blocks && b == x.blocks[startAddr] && startLocal == localise(startAddr)
    requires y == x.(fast := x.fast[startLocal / 2 := (startAddr, b.entry)])
    ensures Consistent(y, None) && Mapped(y, localise) && Live(y, b) && b.d.startAddr == startAddr
  {
    hide Listing, Bits, Apart, Alive, Table;
    AliveIds(x);
    assert Live(x, b) && Known(x, b);
    forall c ensures Known(y, c) == Known(x, c) { }
    ListsFrame(x, y, None);
    FilingFrame(x, y);
    MappedFrame(x, y, localise);
    SwitchedTable(x, y, b);
  }

  lemma SwitchedTable(x: Index, y: Index, b: JitBlock)
    requires Table(x) && Live(x, b)
    requires y.blocks == x.blocks && y.fast == x.fast[b.d.startLocal / 2 := (b.d.startAddr, b.entry)]
    ensures Table(y)
  {
  }

  lemma AliveIds(x: Index)
    requires Alive(x)
    ensures forall c :: Known(x, c) ==> c.id !in x.freed && c.id < x.nextId && c.entry < x.nextEntry && WellFormed(c.d)
    ensures forall i :: i in x.freed ==> i < x.nextId
  {
  }

  lemma SameBlocksCurrent(x: Index, y: Index, mem: Memory)
    requires y.blocks == x.blocks
    ensures UpToDate(x, mem) == UpToDate(y, mem)
  {
  }

  /** A candidate that leaves the shelf for the live blocks. */
  lemma RestoreEnterable(x: Index, y: Index, d: Decoded, localise: nat -> nat)
    requires Consistent(x, None) && Mapped(x, localise)
    requires d.startAddr !in x.blocks && d.words in x.candidates && MayRestore(x.candidates[d.words].d, d)
    requires y == x.(candidates := x.candidates - {d.words})
    ensures
      var b := x.candidates[d.words];
      && Consistent(y, None) && Mapped(y, localise) && Enterable(y, b) && WellFormed(b.d)
      && b.d.startLocal == localise(b.d.startAddr) && b.d.startAddr == d.startAddr
      && b.d.words == d.words && b.d.literalValues == d.literalValues
  {
    hide Listing, Bits, Apart, Alive, Table;
    var b := x.candidates[d.words];
    assert Retired(x, b) && Known(x, b);
    AliveIds(x);
    forall c | Known(y, c) ensures Known(x, c) && c != b { }
    ListsFrame(x, y, None);
    TableFrame(x, y);
    FilingFrame(x, y);
    MappedFrame(x, y, localise);
    forall c | Known(y, c) ensures c.id != b.id && c.entry != b.entry { ApartIds(x, b, c); }
  }

  lemma TableFrame(x: Index, y: Index)
    requires Table(x) && y.blocks == x.blocks && y.fast == x.fast
    ensures Table(y)
  {
  }

  lemma DiscardConsistent(x: Index, y: Index, d: Decoded, localise: nat -> nat)
    requires Consistent(x, None) && Mapped(x, localise)
    requires if d.words in x.candidates
             then y == x.(candidates := x.candidates - {d.words}, freed := x.freed + {x.candidates[d.words].id})
             else y == x
    ensures Consistent(y, None) && Mapped(y, localise)
  {
    hide Listing, Bits, Apart, Alive, Table;
    AliveIds(x);
    if d.words in x.candidates {
      var p := x.candidates[d.words];
      assert Retired(x, p) && Known(x, p);
      forall c | Known(y, c) ensures Known(x, c) && c.id != p.id {
        assert Known(x, c) && c != p;
        ApartIds(x, c, p);
      }
    }
    ListsFrame(x, y, None);
    TableFrame(x, y);
    FilingFrame(x, y);
    MappedFrame(x, y, localise);
  }

  ghost predicate Unused(x: Index, id: nat) {
    id < x.nextId && id !in x.freed && forall c :: Known(x, c) ==> c.id != id
  }

  lemma BumpConsistent(x: Index, y: Index, localise: nat -> nat)
    requires Consistent(x, None) && Mapped(x, localise) && y == x.(nextId := x.nextId + 1)
    ensures Consistent(y, None) && Mapped(y, localise) && Unused(y, x.nextId)
  {
    hide Listing, Bits, Apart, Alive, Table;
    AliveIds(x);
    forall c ensures Known(y, c) == Known(x, c) { }
    ListsFrame(x, y, None);
    TableFrame(x, y);
    FilingFrame(x, y);
    MappedFrame(x, y, localise);
  }

  lemma ResetMapped(x: Index, y: Index, id: nat, localise: nat -> nat)
    requires Filing(x) && Unused(x, id) && y.nextId == x.nextId && y.freed == x.freed + KnownIds(x)
    requires y.blocks == map[] && y.candidates == map[]
    ensures Mapped(y, localise) && Unused(y, id)
  {
    KnownIdsExact(x, id);
  }

  lemma NewEnterable(x: Index, y: Index, b: JitBlock, localise: nat -> nat)
    requires Consistent(x, None) && Mapped(x, localise) && Unused(x, b.id) && b.entry == x.nextEntry
    requires WellFormed(b.d) && b.d.startAddr !in x.blocks && y == x.(nextEntry := x.nextEntry + 1)
    ensures Consistent(y, None) && Mapped(y, localise) && Enterable(y, b)
  {
    hide Listing, Bits, Apart, Alive, Table;
    AliveIds(x);
    forall c ensures Known(y, c) == Known(x, c) { }
    ListsFrame(x, y, None);
    TableFrame(x, y);
    FilingFrame(x, y);
    MappedFrame(x, y, localise);
  }

  lemma EmptyRangeUncovers(x: Index, local: nat)
    requires Listing(x) && ListOf(x.lists, RangeOf(local)) == []
    ensures forall b :: Live(x, b) ==> !Covers(b.d, local)
  {
    forall b | Live(x, b) ensures RangeOf(local) !in b.d.masks {
      assert b !in ListOf(x.lists, RangeOf(local));
    }
  }

  lemma ClearBitUncovers(x: Index, local: nat)
    requires Listing(x) && Bits(x, None) && BitOf(local) !in CodeOf(x.codes, RangeOf(local))
    ensures forall b :: Live(x, b) ==> !Covers(b.d, local)
  {
    forall b | Live(x, b) && RangeOf(local) in b.d.masks
      ensures b.d.masks[RangeOf(local)] <= CodeOf(x.codes, RangeOf(local))
    {
      assert b in ListOf(x.lists, RangeOf(local));
    }
  }

  lemma MappedShrinks(x: Index, y: Index, localise: nat -> nat)
    requires Mapped(x, localise) && Shrunk(x, y)
    ensures Mapped(y, localise)
  {
    forall b | Known(y, b) ensures Known(x, b) { }
  }

  lemma WriteKeepsCurrent(x: Index, y: Index, before: Memory, after: Memory, local: nat)
    requires Shrunk(x, y) && Filing(x) && WritesGranule(before, after, local)
    requires forall b :: Live(y, b) ==> !Covers(b.d, local)
    requires Filing(y)
    ensures UpToDate(x, before) ==> UpToDate(y, after)
  {
    if UpToDate(x, before) {
      forall a | a in y.blocks && WellFormed(y.blocks[a].d) ensures Current(y.blocks[a].d, after) {
        var b := y.blocks[a];
        assert Live(y, b);
        assert Live(x, b);
        StaysCurrent(b.d, before, after, local);
      }
    }
  }

  /** y knows no block that x did not know, and lists no block that x did not list. */
  ghost predicate Shrunk(x: Index, y: Index) {
    && y.nextId == x.nextId && y.nextEntry == x.nextEntry
    && (forall b :: Live(y, b) ==> Live(x, b))
    && (forall b :: Retired(y, b) ==> Known(x, b))
  }

  lemma ShrunkCodes(x: Index, y: Index)
    requires y == x.(codes := y.codes)
    ensures Shrunk(x, y)
  {
  }

  lemma ShrunkDrop(x: Index, y: Index, b: JitBlock, retire: bool)
    requires Filing(x) && Live(x, b) && Shelved(x, y, b, retire)
    ensures Shrunk(x, y)
  {
    forall c | Known(y, c) ensures Known(x, c) && (Live(y, c) ==> Live(x, c)) {
      ShelvedKnown(x, y, b, retire, c);
    }
  }

  lemma ShrunkTrans(x: Index, y: Index, z: Index)
    requires Shrunk(x, y) && Shrunk(y, z)
    ensures Shrunk(x, z)
  {
    forall c | Known(z, c) ensures Known(y, c) { }
  }

  lemma OpenRange(x: Index, k: nat)
    requires Consistent(x, None)
    ensures Consistent(x.(codes := x.codes[k := {}]), Some(k))
  {
    var y := x.(codes := x.codes[k := {}]);
    forall b ensures Live(y, b) == Live(x, b) && Retired(y, b) == Retired(x, b) { }
  }

  lemma CloseRange(x: Index, k: nat)
    requires Consistent(x, Some(k)) && ListOf(x.lists, k) == [] && CodeOf(x.codes, k) == {}
    ensures Consistent(x, None)
  {
  }

  lemma ListedIsLive(x: Index, k: nat, b: JitBlock)
    requires Listing(x) && b in ListOf(x.lists, k)
    ensures Live(x, b) && k in b.d.masks
  {
  }

  lemma AssembleDropped(x: Index, y: Index, b: JitBlock, open: nat, retire: bool)
    requires y.blocks == x.blocks - {b.d.startAddr} && y.fast == x.fast - {b.d.startLocal / 2}
    requires Unlisted(x.lists, y.lists, b, b.d.masks.Keys) && Cleared(x.codes, y.codes, y.lists, open, b.d.masks.Keys)
    requires forall k :: b in ListOf(x.lists, k) <==> k in b.d.masks
    requires y.nextId == x.nextId && y.nextEntry == x.nextEntry
    requires if retire then y.candidates == Retire(x, b).candidates && y.freed == Retire(x, b).freed
             else y.candidates == x.candidates && y.freed == x.freed + {b.id}
    ensures Dropped(x, y, b, open) && Shelved(x, y, b, retire)
  {
    forall k, c ensures c in ListOf(y.lists, k) <==> c in ListOf(x.lists, k) && c != b { }
  }

  lemma DroppedKeeps(x: Index, y: Index, b: JitBlock, open: nat)
    requires Dropped(x, y, b, open)
    ensures forall k, c :: c in ListOf(y.lists, k) <==> c in ListOf(x.lists, k) && c != b
  {
  }

  lemma LiveFacts(x: Index, b: JitBlock)
    requires Listing(x) && Filing(x) && Live(x, b)
    ensures WellFormed(b.d) && Known(x, b)
    ensures Unlisted(x.lists, x.lists, b, {})
    ensures forall k :: b in ListOf(x.lists, k) <==> k in b.d.masks
  {
  }

  lemma DroppedConsistent(x: Index, y: Index, b: JitBlock, open: nat, retire: bool)
    requires Consistent(x, Some(open)) && Live(x, b) && Dropped(x, y, b, open) && Shelved(x, y, b, retire)
    ensures Consistent(y, Some(open))
  {
    hide Listing, Bits, Table, Keyed, Alive, Apart, Dropped, Shelved;
    DroppedListing(x, y, b, open);
    DroppedBits(x, y, b, open);
    DroppedTable(x, y, b, open);
    DroppedFiling(x, y, b, retire);
  }

  // ----- When the restore test is right -----

  /** The address and value pairs that a block was compiled from. */
  ghost predicate Reads(d: Decoded, a: nat, v: nat)
    requires |d.addrs| == |d.words| && |d.literals| == |d.literalValues|
  {
    || (exists i :: 0 <= i < |d.addrs| && d.addrs[i] == a && d.words[i] == v)
    || (exists i :: 0 <= i < |d.literals| && d.literals[i] == a && d.literalValues[i] == v)
  }

  /** Everything p was compiled from is among what d was. */
  ghost predicate Within(p: Decoded, d: Decoded)
    requires WellFormed(p) && WellFormed(d)
  {
    forall a, v :: Reads(p, a, v) ==> Reads(d, a, v)
  }

  lemma CurrentIsReads(d: Decoded, mem: Memory)
    requires WellFormed(d)
    ensures Current(d, mem) <==> forall a, v :: Reads(d, a, v) ==> mem(a) == v
  {
    if forall a, v :: Reads(d, a, v) ==> mem(a) == v {
      forall i | 0 <= i < |d.addrs| ensures mem(d.addrs[i]) == d.words[i] {
        assert Reads(d, d.addrs[i], d.words[i]);
      }
      forall i | 0 <= i < |d.literals| ensures mem(d.literals[i]) == d.literalValues[i] {
        assert Reads(d, d.literals[i], d.literalValues[i]);
      }
    }
  }

  /** Restoring p for d is right in every memory that holds what d was decoded from exactly when each
      pair p was compiled from is one of d's.  `seen` is the memory that d was decoded from. */
  lemma RestoreSafeIff(p: Decoded, d: Decoded, seen: Memory)
    requires WellFormed(p) && WellFormed(d) && Current(d, seen)
    ensures (forall mem: Memory :: Current(d, mem) ==> Current(p, mem)) <==> Within(p, d)
  {
    hide Current, Reads;
    if Within(p, d) {
      forall mem: Memory | Current(d, mem) ensures Current(p, mem) {
        CurrentIsReads(p, mem);
        CurrentIsReads(d, mem);
      }
    } else {
      var a: nat, v: nat :| Reads(p, a, v) && !Reads(d, a, v);
      CurrentIsReads(d, seen);
      var other: Memory := (x: nat) => if x == a && seen(a) == v then v + 1 else seen(x);
      CurrentIsReads(d, other);
      assert forall b, u :: Reads(d, b, u) ==> seen(b) == u && other(b) == u;
      CurrentIsReads(p, other);
      assert Current(d, other) && !Current(p, other);
    }
  }

  // ----- How decoding walks -----

  /** Where a branch leads: to an address that its word fixes, and a call leaves a link address, which its
      place fixes, too; to the link address that an earlier call left; or somewhere the decoder cannot know. */
  datatype Target = Static(at: nat -> nat, link: Option<nat -> nat>) | ToLink | Unknown

  /** What a word is once the words before it are known: its size, whether it overwrites the link
      register, whether and how it branches, and the literal it loads. */
  datatype Kind = Kind(size: nat, overwritesLink: bool, turn: Turn, literal: Option<nat -> nat>)

  datatype Turn = Never | Always(target: Target) | Conditionally(target: Target)

  type Decode = seq<nat> -> Kind

  datatype Place = Place(addr: nat, link: Option<nat>)

  /** The place of the next word.  A branch whose target is unknown ends the block. */
  function Advance(k: Kind, p: Place, turned: bool): Place {
    var link := if k.overwritesLink then None else p.link;
    if !turned || k.turn.Never? then Place(p.addr + k.size, link)
    else
      match k.turn.target
      case Static(at, call) => Place(at(p.addr), if call.Some? then Some(call.value(p.addr)) else link)
      case ToLink => if link.Some? then Place(link.value, link) else Place(p.addr, link)
      case Unknown => Place(p.addr, link)
  }

  /** The place of word i when decoding took the given turns. */
  function PlaceAt(decode: Decode, start: nat, words: seq<nat>, turns: seq<bool>, i: nat): Place
    requires i <= |words| == |turns|
  {
    if i == 0 then Place(start, None)
    else Advance(decode(words[..i]), PlaceAt(decode, start, words, turns, i - 1), turns[i - 1])
  }

  /** The localised addresses of the literals among the first n words. */
  function LiteralsAt(decode: Decode, localise: nat -> nat, start: nat, words: seq<nat>, turns: seq<bool>,
                      n: nat): seq<nat>
    requires n <= |words| == |turns|
  {
    if n == 0 then []
    else
      var before := LiteralsAt(decode, localise, start, words, turns, n - 1);
      match decode(words[..n]).literal
      case None => before
      case Some(at) => before + [localise(at(PlaceAt(decode, start, words, turns, n - 1).addr))]
  }

  /** Literal k is folded in unless it is among invalid(k), the literals invalidated when it is met. */
  function Folded(literals: seq<nat>, invalid: nat -> set<nat>): (s: seq<nat>)
    ensures |s| <= |literals|
  {
    if literals == [] then []
    else
      var k := |literals| - 1;
      Folded(literals[..k], invalid) + if literals[k] in invalid(k) then [] else [literals[k]]
  }

  /** d is what decoding from its start yields with these turns.  A word that cannot branch never
      turns, and one that branches unconditionally always does. */
  ghost predicate Walked(d: Decoded, decode: Decode, localise: nat -> nat, turns: seq<bool>,
                         invalid: nat -> set<nat>) {
    && |turns| == |d.words| == |d.addrs|
    && (forall i :: 0 <= i < |turns| ==>
          match decode(d.words[..i + 1]).turn
          case Never => !turns[i]
          case Always(_) => turns[i]
          case Conditionally(_) => true)
    && (forall i :: 0 <= i < |turns| ==> d.addrs[i] == localise(PlaceAt(decode, d.startAddr, d.words, turns, i).addr))
    && d.literals == Folded(LiteralsAt(decode, localise, d.startAddr, d.words, turns, |turns|), invalid)
  }

  /** Two walks over the same words took the same turn at every conditional branch but a last one. */
  ghost predicate SameTurns(decode: Decode, words: seq<nat>, s: seq<bool>, t: seq<bool>)
    requires |s| == |t| == |words|
  {
    forall i :: 0 <= i < |words| - 1 && Chooses(decode, words, i) ==> s[i] == t[i]
  }

  /** Word i branches on a condition. */
  ghost predicate Chooses(decode: Decode, words: seq<nat>, i: nat)
    requires i < |words|
  {
    decode(words[..i + 1]).turn.Conditionally?
  }

  lemma {:induction false} SamePlace(decode: Decode, start: nat, words: seq<nat>, s: seq<bool>, t: seq<bool>, i: nat)
    requires i <= |words| == |s| == |t| && forall k :: 0 <= k < i ==> s[k] == t[k]
    ensures PlaceAt(decode, start, words, s, i) == PlaceAt(decode, start, words, t, i)
  {
    if i > 0 { SamePlace(decode, start, words, s, t, i - 1); }
  }

  lemma {:induction false} SameLiterals(decode: Decode, localise: nat -> nat, start: nat, words: seq<nat>,
                                        s: seq<bool>, t: seq<bool>, n: nat)
    requires n <= |words| == |s| == |t| && forall k :: 0 <= k < n - 1 ==> s[k] == t[k]
    ensures LiteralsAt(decode, localise, start, words, s, n) == LiteralsAt(decode, localise, start, words, t, n)
  {
    hide PlaceAt;
    if n > 0 {
      SameLiterals(decode, localise, start, words, s, t, n - 1);
      SamePlace(decode, start, words, s, t, n - 1);
    }
  }

  /** Literals are only ever invalidated, so as many of them as before are the same ones. */
  lemma {:induction false} FoldedShrinks(literals: seq<nat>, before: nat -> set<nat>, now: nat -> set<nat>)
    requires forall k: nat :: k < |literals| ==> before(k) <= now(k)
    ensures |Folded(literals, now)| <= |Folded(literals, before)|
    ensures |Folded(literals, now)| == |Folded(literals, before)| ==> Folded(literals, now) == Folded(literals, before)
  {
    if literals != [] { FoldedShrinks(literals[..|literals| - 1], before, now); }
  }

  /** A candidate whose decoding took the same turns at its conditional branches comes from the same
      addresses, so restoring it is right: the cache stays up to date exactly when memory still holds
      the words just decoded. */
  lemma SameTurnsRestoreSafely(p: Decoded, d: Decoded, decode: Decode, localise: nat -> nat,
                               s: seq<bool>, t: seq<bool>, before: nat -> set<nat>, now: nat -> set<nat>,
                               mem: Memory)
    requires WellFormed(p) && WellFormed(d) && MayRestore(p, d) && p.words == d.words
    requires forall k: nat :: before(k) <= now(k)
    requires Walked(p, decode, localise, s, before) && Walked(d, decode, localise, t, now)
    requires SameTurns(decode, d.words, s, t)
    ensures p.addrs == d.addrs && p.literals == d.literals
    ensures Within(p, d) && (Current(p, mem) <==> Current(d, mem))
  {
    hide PlaceAt, LiteralsAt, Folded, Reads;
    forall k | 0 <= k < |s| - 1 ensures s[k] == t[k] {
      var turn := decode(d.words[..k + 1]).turn;
      assert turn.Never? || turn.Always? || turn.Conditionally?;
    }
    forall i | 0 <= i < |p.addrs| ensures p.addrs[i] == d.addrs[i] {
      SamePlace(decode, d.startAddr, d.words, s, t, i);
    }
    assert p.addrs == d.addrs;
    SameLiterals(decode, localise, d.startAddr, d.words, s, t, |s|);
    FoldedShrinks(LiteralsAt(decode, localise, d.startAddr, d.words, t, |t|), before, now);
    SameReads(p, d);
  }

  lemma SameReads(p: Decoded, d: Decoded)
    requires WellFormed(p) && WellFormed(d)
    requires p.words == d.words && p.addrs == d.addrs && p.literals == d.literals && p.literalValues == d.literalValues
    ensures Within(p, d)
  {
  }

  /** In particular when no word but the last branches conditionally. */
  lemma NoConditionNoChoice(decode: Decode, words: seq<nat>, s: seq<bool>, t: seq<bool>)
    requires |s| == |t| == |words| && forall i :: 0 <= i < |words| - 1 ==> !Chooses(decode, words, i)
    ensures SameTurns(decode, words, s, t)
  {
  }

  /** With different turns the test can be wrong: a conditional branch over three words was followed
      when p was decoded and not when d is, and the word at its target, then at the next place, is the
      same.  Both are walks of one decoder, p passes the test, and memory has changed at the target. */
  lemma RestoreTestIgnoresTurns() returns (p: Decoded, d: Decoded, mem: Memory)
    ensures WellFormed(p) && WellFormed(d) && MayRestore(p, d) && p.words == d.words
    ensures Walked(p, BranchFirst, Same, [true, false], NoneInvalid)
    ensures Walked(d, BranchFirst, Same, [false, false], NoneInvalid)
    ensures Current(d, mem) && !Current(p, mem)
  {
    hide Walked;
    p := Decoded(0, 0, [1, 7], [0, 12], [], [], [0], map[0 := {0}]);
    d := p.(addrs := [0, 4]);
    mem := (a: nat) => if a == 0 then 1 else if a == 4 then 7 else 0;
    assert Covers(p, 0) && Covers(p, 12) && Covers(d, 4);
    WalksTwoWords(p, true);
    WalksTwoWords(d, false);
    assert mem(p.addrs[1]) != p.words[1];
  }

  function NoneInvalid(k: nat): set<nat> {
    {}
  }

  function Same(a: nat): nat {
    a
  }

  function ThreeOn(a: nat): nat {
    a + 12
  }

  /** A decoder for which the first word is a conditional branch over three words. */
  function BranchFirst(words: seq<nat>): Kind {
    Kind(4, false, if |words| == 1 then Conditionally(Static(ThreeOn, None)) else Never, None)
  }

  lemma WalksTwoWords(d: Decoded, turned: bool)
    requires |d.words| == 2 && d.startAddr == 0 && d.literals == [] && d.addrs == [0, if turned then 12 else 4]
    ensures Walked(d, BranchFirst, Same, [turned, false], NoneInvalid)
  {
    var turns := [turned, false];
    assert PlaceAt(BranchFirst, 0, d.words, turns, 0) == Place(0, None);
    assert PlaceAt(BranchFirst, 0, d.words, turns, 1) == Place(if turned then 12 else 4, None);
    assert LiteralsAt(BranchFirst, Same, 0, d.words, turns, 0) == [];
    assert LiteralsAt(BranchFirst, Same, 0, d.words, turns, 1) == [];
    assert LiteralsAt(BranchFirst, Same, 0, d.words, turns, 2) == [];
  }

  // ----- Collecting the ranges a block depends on -----

  ghost predicate Gathered(ranges: seq<nat>, masks: seq<set<nat>>, uses: seq<Use>) {
    && |masks| == |ranges| && Distinct(ranges)
    && (forall j :: 0 <= j < |masks| ==> masks[j] != {})
    && (forall i :: 0 <= i < |uses| ==> Has(ranges, masks, RangeOf(uses[i].local), BitOf(uses[i].local)))
    && (forall j, bit :: 0 <= j < |masks| && bit in masks[j] ==> Used(uses, ranges[j], bit))
  }

  ghost predicate Has(ranges: seq<nat>, masks: seq<set<nat>>, k: nat, bit: nat)
    requires |masks| == |ranges|
  {
    exists j :: 0 <= j < |ranges| && ranges[j] == k && bit in masks[j]
  }

  ghost predicate Used(uses: seq<Use>, k: nat, bit: nat) {
    exists i :: 0 <= i < |uses| && RangeOf(uses[i].local) == k && BitOf(uses[i].local) == bit
  }

  method Find(ranges: seq<nat>, k: nat) returns (j: nat)
    ensures j <= |ranges| && k !in ranges[..j] && (j < |ranges| ==> ranges[j] == k)
  {
    j := 0;
    while j < |ranges| && ranges[j] != k
      invariant j <= |ranges| && k !in ranges[..j]
    {
      j := j + 1;
    }
  }

  function Swapped<T>(s: seq<T>, i: nat, j: nat): (r: seq<T>)
    requires i < |s| && j < |s|
    ensures |r| == |s| && r[i] == s[j] && r[j] == s[i]
    ensures forall m :: 0 <= m < |s| && m != i && m != j ==> r[m] == s[m]
  {
    s[i := s[j]][j := s[i]]
  }

  lemma SwapDistinct<T>(s: seq<T>, i: nat, j: nat)
    requires i < |s| && j < |s| && Distinct(s)
    ensures Distinct(Swapped(s, i, j))
  {
  }

  lemma SwapHas(ranges: seq<nat>, masks: seq<set<nat>>, i: nat, j: nat, k: nat, bit: nat)
    requires |masks| == |ranges| && i < |ranges| && j < |ranges| && Has(ranges, masks, k, bit)
    ensures Has(Swapped(ranges, i, j), Swapped(masks, i, j), k, bit)
  {
    var m :| 0 <= m < |ranges| && ranges[m] == k && bit in masks[m];
    var m' := if m == i then j else if m == j then i else m;
    assert Swapped(ranges, i, j)[m'] == ranges[m] && Swapped(masks, i, j)[m'] == masks[m];
  }

  /** Swapping two entries of both arrays changes nothing that matters. */
  lemma GatheredSwap(ranges: seq<nat>, masks: seq<set<nat>>, uses: seq<Use>, i: nat, j: nat)
    requires Gathered(ranges, masks, uses) && i < |ranges| && j < |ranges|
    ensures Gathered(Swapped(ranges, i, j), Swapped(masks, i, j), uses)
  {
    hide Swapped, Has, Distinct, Used;
    SwapDistinct(ranges, i, j);
    var ranges', masks' := Swapped(ranges, i, j), Swapped(masks, i, j);
    forall n | 0 <= n < |uses| ensures Has(ranges', masks', RangeOf(uses[n].local), BitOf(uses[n].local)) {
      SwapHas(ranges, masks, i, j, RangeOf(uses[n].local), BitOf(uses[n].local));
    }
    forall m, bit | 0 <= m < |masks'| && bit in masks'[m] ensures Used(uses, ranges'[m], bit) {
      var m' := if m == i then j else if m == j then i else m;
      assert masks'[m] == masks[m'] && ranges'[m] == ranges[m'];
    }
  }

  lemma GatheredMark(ranges: seq<nat>, masks: seq<set<nat>>, uses: seq<Use>, use: Use, j: nat)
    requires Gathered(ranges, masks, uses) && j < |ranges| && ranges[j] == RangeOf(use.local)
    ensures Gathered(ranges, masks[j := masks[j] + {BitOf(use.local)}], uses + [use])
  {
    var masks', uses' := masks[j := masks[j] + {BitOf(use.local)}], uses + [use];
    forall n | 0 <= n < |uses'| ensures Has(ranges, masks', RangeOf(uses'[n].local), BitOf(uses'[n].local)) {
      if n < |uses| {
        assert Has(ranges, masks, RangeOf(uses[n].local), BitOf(uses[n].local));
        var m :| 0 <= m < |ranges| && ranges[m] == RangeOf(uses[n].local) && BitOf(uses[n].local) in masks[m];
        assert BitOf(uses[n].local) in masks'[m];
      } else {
        assert BitOf(use.local) in masks'[j];
      }
    }
    forall m, bit | 0 <= m < |masks'| && bit in masks'[m] ensures Used(uses', ranges[m], bit) {
      if bit in masks[m] {
        var n :| 0 <= n < |uses| && RangeOf(uses[n].local) == ranges[m] && BitOf(uses[n].local) == bit;
        assert uses'[n] == uses[n];
      } else {
        assert uses'[|uses|] == use;
      }
    }
  }

  lemma GatheredNew(ranges: seq<nat>, masks: seq<set<nat>>, uses: seq<Use>, use: Use)
    requires Gathered(ranges, masks, uses) && RangeOf(use.local) !in ranges
    ensures Gathered(ranges + [RangeOf(use.local)], masks + [{BitOf(use.local)}], uses + [use])
  {
    var ranges', masks', uses' := ranges + [RangeOf(use.local)], masks + [{BitOf(use.local)}], uses + [use];
    forall n | 0 <= n < |uses'| ensures Has(ranges', masks', RangeOf(uses'[n].local), BitOf(uses'[n].local)) {
      if n < |uses| {
        assert Has(ranges, masks, RangeOf(uses[n].local), BitOf(uses[n].local));
        var m :| 0 <= m < |ranges| && ranges[m] == RangeOf(uses[n].local) && BitOf(uses[n].local) in masks[m];
        assert ranges'[m] == ranges[m] && masks'[m] == masks[m];
      } else {
        assert ranges'[|ranges|] == RangeOf(use.local);
      }
    }
    forall m, bit | 0 <= m < |masks'| && bit in masks'[m] ensures Used(uses', ranges'[m], bit) {
      if m < |masks| {
        var n :| 0 <= n < |uses| && RangeOf(uses[n].local) == ranges[m] && BitOf(uses[n].local) == bit;
        assert uses'[n] == uses[n];
      } else {
        assert uses'[|uses|] == use;
      }
    }
  }

  /** The range bookkeeping of the decode loop.  The range of the latest instruction is kept at the
      end of the arrays; literals leave the order alone.  Every use is covered, and nothing else. */
  method GatherRanges(uses: seq<Use>) returns (ranges: seq<nat>, masks: seq<set<nat>>)
    ensures Gathered(ranges, masks, uses)
  {
    hide Gathered;
    ranges, masks := [], [];
    GatheredNone();
    assert uses[..0] == [] && uses[..|uses|] == uses;
    for i := 0 to |uses|
      invariant |masks| == |ranges| && Gathered(ranges, masks, uses[..i])
    {
      var rounded, bit := RangeOf(uses[i].local), BitOf(uses[i].local);
      assert uses[..i + 1] == uses[..i] + [uses[i]];
      var j := Find(ranges, rounded);
      if j == |ranges| {
        assert ranges[..j] == ranges;
        GatheredNew(ranges, masks, uses[..i], uses[i]);
        ranges, masks := ranges + [rounded], masks + [{bit}];
      } else {
        if uses[i].Fetch? && rounded != ranges[|ranges| - 1] {
          var last := |ranges| - 1;
          GatheredSwap(ranges, masks, uses[..i], j, last);
          ranges, masks := Swapped(ranges, j, last), Swapped(masks, j, last);
          j := last;
        }
        GatheredMark(ranges, masks, uses[..i], uses[i], j);
        masks := masks[j := masks[j] + {bit}];
      }
    }
  }

  lemma GatheredNone()
    ensures Gathered([], [], [])
  {
  }

  // ----- What decoding makes of its uses -----

  function Only(uses: seq<Use>, fetch: bool): (r: seq<Use>)
    ensures forall u :: u in r <==> u in uses && u.Fetch? == fetch
  {
    if uses == [] then [] else (if uses[0].Fetch? == fetch then [uses[0]] else []) + Only(uses[1..], fetch)
  }

  function Locals(uses: seq<Use>): seq<nat> {
    seq(|uses|, i requires 0 <= i < |uses| => uses[i].local)
  }

  function Values(uses: seq<Use>): seq<nat> {
    seq(|uses|, i requires 0 <= i < |uses| => uses[i].value)
  }

  /** d holds the words and literals of the uses in their order, and its masks are exactly the granules
      that these touch. */
  ghost predicate Describes(d: Decoded, startAddr: nat, startLocal: nat, uses: seq<Use>) {
    && d.startAddr == startAddr && d.startLocal == startLocal
    && d.addrs == Locals(Only(uses, true)) && d.words == Values(Only(uses, true))
    && d.literals == Locals(Only(uses, false)) && d.literalValues == Values(Only(uses, false))
    && Distinct(d.ranges) && (forall k :: k in d.ranges <==> k in d.masks)
    && (forall k :: k in d.masks ==> d.masks[k] != {})
    && (forall k, bit :: k in d.masks && bit in d.masks[k] <==> Used(uses, k, bit))
  }

  /** A described block is what the cache asks of it: the masks cover every word and every literal. */
  lemma DescribedWellFormed(d: Decoded, startAddr: nat, startLocal: nat, uses: seq<Use>)
    requires Describes(d, startAddr, startLocal, uses)
    ensures WellFormed(d) && d.startAddr == startAddr && d.startLocal == startLocal
  {
    forall u | u in uses ensures Covers(d, u.local) {
      assert Used(uses, RangeOf(u.local), BitOf(u.local));
    }
    forall i | 0 <= i < |d.addrs| ensures Covers(d, d.addrs[i]) { assert Only(uses, true)[i] in uses; }
    forall i | 0 <= i < |d.literals| ensures Covers(d, d.literals[i]) { assert Only(uses, false)[i] in uses; }
  }

  lemma DescribedCurrent(d: Decoded, startAddr: nat, startLocal: nat, uses: seq<Use>, mem: Memory)
    requires Describes(d, startAddr, startLocal, uses)
    ensures WellFormed(d) && (Current(d, mem) <==> Holds(mem, uses))
  {
    DescribedWellFormed(d, startAddr, startLocal, uses);
    var code, literals := Only(uses, true), Only(uses, false);
    if Current(d, mem) {
      forall u | u in uses ensures mem(u.local) == u.value {
        assert u in (if u.Fetch? then code else literals);
        if u.Fetch? {
          var i :| 0 <= i < |code| && code[i] == u;
          assert mem(d.addrs[i]) == d.words[i];
        } else {
          var i :| 0 <= i < |literals| && literals[i] == u;
          assert mem(d.literals[i]) == d.literalValues[i];
        }
      }
    }
    if Holds(mem, uses) {
      forall i | 0 <= i < |d.addrs| ensures mem(d.addrs[i]) == d.words[i] { assert code[i] in uses; }
      forall i | 0 <= i < |d.literals| ensures mem(d.literals[i]) == d.literalValues[i] {
        assert literals[i] in uses;
      }
    }
  }

  method Describe(startAddr: nat, startLocal: nat, uses: seq<Use>) returns (d: Decoded)
    ensures Describes(d, startAddr, startLocal, uses)
  {
    var ranges, masks := GatherRanges(uses);
    var code, literals := Only(uses, true), Only(uses, false);
    d := Decoded(startAddr, startLocal, Values(code), Locals(code), Values(literals), Locals(literals), ranges,
                 map k | k in ranges :: MaskOf(ranges, masks, k));
    GatheredExactly(ranges, masks, uses);
  }

  function MaskOf(ranges: seq<nat>, masks: seq<set<nat>>, k: nat): set<nat>
    requires |masks| == |ranges| && k in ranges
  {
    if ranges[0] == k then masks[0] else MaskOf(ranges[1..], masks[1..], k)
  }

  lemma {:induction false} MaskAt(ranges: seq<nat>, masks: seq<set<nat>>, j: nat)
    requires |masks| == |ranges| && Distinct(ranges) && j < |ranges|
    ensures MaskOf(ranges, masks, ranges[j]) == masks[j]
  {
    if j > 0 {
      forall m, n | 0 <= m < n < |ranges| - 1 ensures ranges[1..][m] != ranges[1..][n] { }
      assert ranges[0] != ranges[j];
      MaskAt(ranges[1..], masks[1..], j - 1);
    }
  }

  lemma GatheredExactly(ranges: seq<nat>, masks: seq<set<nat>>, uses: seq<Use>)
    requires Gathered(ranges, masks, uses)
    ensures forall k :: k in ranges ==> MaskOf(ranges, masks, k) != {}
    ensures forall k, bit :: k in ranges && bit in MaskOf(ranges, masks, k) <==> Used(uses, k, bit)
  {
    forall j | 0 <= j < |ranges| ensures MaskOf(ranges, masks, ranges[j]) == masks[j] { MaskAt(ranges, masks, j); }
    forall k, bit | Used(uses, k, bit) ensures k in ranges && bit in MaskOf(ranges, masks, k) {
      var i :| 0 <= i < |uses| && RangeOf(uses[i].local) == k && BitOf(uses[i].local) == bit;
      assert Has(ranges, masks, RangeOf(uses[i].local), BitOf(uses[i].local));
    }
  }
}
