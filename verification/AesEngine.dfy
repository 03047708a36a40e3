/**
  The DSi AES engine: a CCM and CTR unit between two 16-word FIFOs.  Software writes words into the
  one and reads words from the other in any order; blocks are processed as soon as four words are
  there and four fit.  Whatever the interleaving, the words that come out are those of the
  mode's definition on the words that went in (NIST SP 800-38C section 6, SP 800-38A section 6.5).
 */
module AesEngines {
  import opened Arithmetic
  import opened Crypto
  import opened Fifos

  /** A 32-bit word as the four bytes it occupies in memory. */
  type Word = w: seq<byte> | |w| == 4 witness [0, 0, 0, 0]

  // ----- What a transfer computes -----

  /** A started transfer.  Mode 0 decrypts with CCM, mode 1 encrypts with CCM, 2 and 3 are CTR; the control
      register can change the mode while the transfer runs. */
  datatype Transfer = Transfer(
    mode: nat,               // the mode now, and in the end the one it was finalised in
    modeAt: nat -> nat,      // the mode in which each payload block is processed, if it stays as it is now
    cipher: Cipher,
    iv: Block,               // the first counter block
    base: Block,             // the CBC-MAC that it starts from
    extra: nat,              // blocks of associated data
    blocks: nat,             // blocks of payload
    before: seq<Word>        // words of earlier transfers still in the output FIFO
  )

  function Bytes(w: seq<Word>): (b: Block)
    requires |w| == 4
    ensures b[0..4] == w[0] && b[4..8] == w[1] && b[8..12] == w[2] && b[12..16] == w[3]
  {
    var w0: seq<byte>, w1: seq<byte>, w2: seq<byte>, w3: seq<byte> := w[0], w[1], w[2], w[3];
    w0 + w1 + w2 + w3
  }

  function Join(w: seq<Word>): Block
    requires |w| == 4
  {
    Reverse(Bytes(w))
  }

  function Split(b: Block): (w: seq<Word>)
    ensures |w| == 4 && Join(w) == b
  {
    var r := Reverse(b);
    ReverseTwice(b);
    var w: seq<Word> := [r[0..4], r[4..8], r[8..12], r[12..16]];
    assert Bytes(w) == r;
    w
  }

  /** The byte order of the queues: the first byte of a block is the last of the fourth word. */
  lemma JoinIs(w: seq<Word>, i: nat)
    requires |w| == 4 && i < 16
    ensures Join(w)[i] == w[3 - i / 4][3 - i % 4]
  {
    var b := Bytes(w);
    var k := 15 - i;
    assert Join(w)[i] == b[k];
    if k < 4 { assert b[k] == b[0..4][k]; }
    else if k < 8 { assert b[k] == b[4..8][k - 4]; }
    else if k < 12 { assert b[k] == b[8..12][k - 8]; }
    else { assert b[k] == b[12..16][k - 12]; }
  }

  /** Block k of what was written in. */
  function In(fed: seq<Word>, k: nat): Block
    requires 4 * k + 4 <= |fed|
  {
    Join(fed[4 * k..4 * k + 4])
  }

  function CounterAt(t: Transfer, j: nat): Block {
    BumpTimes(t.iv, j)
  }

  /** Payload block j as it comes out. */
  function Out(t: Transfer, fed: seq<Word>, j: nat): Block
    requires 4 * (t.extra + j) + 4 <= |fed|
  {
    XorBlock(In(fed, t.extra + j), t.cipher(CounterAt(t, j)))
  }

  /** The MAC covers the associated data and every payload block that is processed in a CCM mode. */
  predicate Covered(t: Transfer, k: nat) {
    k < t.extra || t.modeAt(k - t.extra) < 2
  }

  /** Block k of what the MAC covers: the associated data, then the plain payload. */
  function MacInput(t: Transfer, fed: seq<Word>, k: nat): Block
    requires 4 * k + 4 <= |fed|
  {
    if k < t.extra || t.modeAt(k - t.extra) == 1 then In(fed, k) else Out(t, fed, k - t.extra)
  }

  function Chain(t: Transfer, fed: seq<Word>, n: nat): Block
    requires 4 * n <= |fed|
  {
    if n == 0 then t.base
    else if !Covered(t, n - 1) then Chain(t, fed, n - 1)
    else t.cipher(XorBlock(Chain(t, fed, n - 1), MacInput(t, fed, n - 1)))
  }

  function OutWords(t: Transfer, fed: seq<Word>, n: nat): (w: seq<Word>)
    requires 4 * (t.extra + n) <= |fed| || n == 0
    ensures |w| == 4 * n
  {
    if n == 0 then [] else OutWords(t, fed, n - 1) + Split(Out(t, fed, n - 1))
  }

  /** The counter block for the tag: the one reached, with its low 24 bits at zero. */
  function ZeroCounter(iv: Block): Block {
    iv[..13] + [0, 0, 0]
  }

  function Tag(t: Transfer, fed: seq<Word>): Block
    requires 4 * (t.extra + t.blocks) <= |fed|
  {
    XorBlock(Chain(t, fed, t.extra + t.blocks), t.cipher(ZeroCounter(CounterAt(t, t.blocks))))
  }

  // ----- CCM decryption undoes CCM encryption -----

  lemma {:induction false} OutWordsAt(t: Transfer, fed: seq<Word>, n: nat, j: nat)
    requires 4 * (t.extra + n) <= |fed| && j < n
    ensures OutWords(t, fed, n)[4 * j..4 * j + 4] == Split(Out(t, fed, j))
    decreases n
  {
    hide Split, Out;
    var w := OutWords(t, fed, n - 1);
    if j < n - 1 {
      OutWordsAt(t, fed, n - 1, j);
      assert OutWords(t, fed, n)[4 * j..4 * j + 4] == w[4 * j..4 * j + 4];
    }
  }

  /** A CCM encryption and a CCM decryption that start alike and keep their modes. */
  ghost predicate Matching(e: Transfer, d: Transfer) {
    && e.mode == 1 && d == e.(mode := 0, modeAt := d.modeAt, before := d.before)
    && forall j :: 0 <= j < e.blocks ==> e.modeAt(j) == 1 && d.modeAt(j) == 0
  }

  /** The words a decryption is fed: the associated data as before, then what encryption gave out. */
  ghost predicate FedBack(e: Transfer, d: Transfer, plain: seq<Word>, sealed: seq<Word>) {
    && Matching(e, d)
    && |plain| == 4 * (e.extra + e.blocks)
    && sealed == plain[..4 * e.extra] + OutWords(e, plain, e.blocks)
  }

  lemma FedBackBlock(e: Transfer, d: Transfer, plain: seq<Word>, sealed: seq<Word>, k: nat)
    requires FedBack(e, d, plain, sealed) && k < e.extra + e.blocks
    ensures k < e.extra ==> In(sealed, k) == In(plain, k)
    ensures k >= e.extra ==> Out(d, sealed, k - e.extra) == In(plain, k)
  {
    hide Split, Join, XorBlock, OutWords;
    if k < e.extra {
      assert sealed[4 * k..4 * k + 4] == plain[4 * k..4 * k + 4];
    } else {
      var j := k - e.extra;
      var w := OutWords(e, plain, e.blocks);
      OutWordsAt(e, plain, e.blocks, j);
      assert sealed[4 * k..4 * k + 4] == w[4 * j..4 * j + 4];
      XorBlockCancels(In(plain, k), e.cipher(CounterAt(e, j)));
    }
  }

  lemma FedBackMacInput(e: Transfer, d: Transfer, plain: seq<Word>, sealed: seq<Word>, k: nat)
    requires FedBack(e, d, plain, sealed) && k < e.extra + e.blocks
    ensures |sealed| == |plain| && MacInput(d, sealed, k) == MacInput(e, plain, k)
  {
    FedBackBlock(e, d, plain, sealed, k);
  }

  lemma {:induction false} FedBackChain(e: Transfer, d: Transfer, plain: seq<Word>, sealed: seq<Word>, n: nat)
    requires FedBack(e, d, plain, sealed) && n <= e.extra + e.blocks
    ensures |sealed| == |plain| && Chain(d, sealed, n) == Chain(e, plain, n)
  {
    hide MacInput, OutWords;
    if n > 0 {
      FedBackChain(e, d, plain, sealed, n - 1);
      FedBackMacInput(e, d, plain, sealed, n - 1);
    }
  }

  lemma {:induction false} FedBackWords(e: Transfer, d: Transfer, plain: seq<Word>, sealed: seq<Word>, n: nat)
    requires FedBack(e, d, plain, sealed) && n <= e.blocks
    ensures OutWords(d, sealed, n) == plain[4 * e.extra..4 * (e.extra + n)]
  {
    hide Split, Join, XorBlock;
    if n > 0 {
      FedBackWords(e, d, plain, sealed, n - 1);
      FedBackBlock(e, d, plain, sealed, e.extra + n - 1);
      var k := e.extra + n - 1;
      SplitJoin(plain[4 * k..4 * k + 4]);
      assert plain[4 * e.extra..4 * (e.extra + n)] == plain[4 * e.extra..4 * k] + plain[4 * k..4 * k + 4];
    }
  }

  lemma SplitJoin(w: seq<Word>)
    requires |w| == 4
    ensures Split(Join(w)) == w
  {
    ReverseTwice(Bytes(w));
  }

  /** For every key, nonce, associated data and payload: decryption gives out the payload and
      computes the tag that encryption emitted. */
  lemma CcmRoundTrip(e: Transfer, d: Transfer, plain: seq<Word>, sealed: seq<Word>)
    requires FedBack(e, d, plain, sealed)
    ensures OutWords(d, sealed, d.blocks) == plain[4 * e.extra..]
    ensures Tag(d, sealed) == Tag(e, plain)
  {
    hide Chain, OutWords;
    FedBackWords(e, d, plain, sealed, e.blocks);
    assert plain[4 * e.extra..4 * (e.extra + e.blocks)] == plain[4 * e.extra..];
    FedBackChain(e, d, plain, sealed, e.extra + e.blocks);
  }

  // ----- What holds between any two register accesses -----

  /** The engine's working state: its queues, what is left to do, the running MAC and counter, and
      how far the transfer is.  `sealed` says that the transfer has been finalised. */
  datatype Core = Core(
    inQ: seq<Word>,
    outQ: seq<Word>,
    remExtra: nat,
    remBlocks: nat,
    curMac: Block,
    ctx: Ctx,
    running: bool,
    sealed: bool,
    due: bool,
    outputMac: Block
  )

  function Finished(t: Transfer, c: Core): nat
    requires c.remExtra <= t.extra && c.remBlocks <= t.blocks
  {
    (t.extra - c.remExtra) + (t.blocks - c.remBlocks)
  }

  /** The counts fit together: associated data comes first, and every finished block was fed. */
  ghost predicate Counts(t: Transfer, fed: seq<Word>, c: Core) {
    && c.remExtra <= t.extra && c.remBlocks <= t.blocks && (c.remExtra > 0 ==> c.remBlocks == t.blocks)
    && 4 * Finished(t, c) <= |fed| && c.inQ == fed[4 * Finished(t, c)..]
    && !(c.running && c.sealed)
    && (c.sealed ==> c.remExtra == 0 && c.remBlocks == 0)
    && (c.due ==> c.sealed && t.mode == 1)
  }

  /** The MAC and the counter are those of the finished blocks. */
  ghost predicate Working(t: Transfer, fed: seq<Word>, c: Core)
    requires Counts(t, fed, c)
  {
    && (c.running ==> c.ctx == Ctx(t.cipher, CounterAt(t, t.blocks - c.remBlocks)))
    && (c.running ==> c.curMac == Chain(t, fed, Finished(t, c)))
    && (c.due ==> Split(Tag(t, fed)) == Halves(c.outputMac))
  }

  /** The four words of OutputMAC as they lie in memory. */
  function Halves(b: Block): (w: seq<Word>)
    ensures |w| == 4
  {
    [b[0..4], b[4..8], b[8..12], b[12..16]]
  }

  /** Every word that has come out of the engine for this transfer, the MAC last. */
  ghost function Produced(t: Transfer, fed: seq<Word>, c: Core): seq<Word>
    requires Counts(t, fed, c)
  {
    t.before + OutWords(t, fed, t.blocks - c.remBlocks)
    + if c.sealed && t.mode == 1 && !c.due then Split(Tag(t, fed)) else []
  }

  /** What was read plus what is still queued is exactly what was produced: nothing is dropped,
      repeated or out of order. */
  ghost predicate Follows(t: Transfer, fed: seq<Word>, taken: seq<Word>, c: Core) {
    Counts(t, fed, c) && Working(t, fed, c) && Produced(t, fed, c) == taken + c.outQ
  }

  // ----- Feeding more words changes no block that is already determined -----

  lemma SameBlock(fed: seq<Word>, more: seq<Word>, k: nat)
    requires 4 * k + 4 <= |fed|
    ensures In(fed + more, k) == In(fed, k)
  {
    assert (fed + more)[4 * k..4 * k + 4] == fed[4 * k..4 * k + 4];
  }

  lemma SameMacInput(t: Transfer, fed: seq<Word>, more: seq<Word>, k: nat)
    requires 4 * k + 4 <= |fed|
    ensures MacInput(t, fed + more, k) == MacInput(t, fed, k)
  {
    hide In;
    SameBlock(fed, more, k);
  }

  lemma {:induction false} SameChain(t: Transfer, fed: seq<Word>, more: seq<Word>, n: nat)
    requires 4 * n <= |fed|
    ensures Chain(t, fed + more, n) == Chain(t, fed, n)
  {
    hide MacInput, XorBlock;
    if n > 0 {
      SameChain(t, fed, more, n - 1);
      SameMacInput(t, fed, more, n - 1);
    }
  }

  lemma {:induction false} SameWords(t: Transfer, fed: seq<Word>, more: seq<Word>, n: nat)
    requires 4 * (t.extra + n) <= |fed| || n == 0
    ensures OutWords(t, fed + more, n) == OutWords(t, fed, n)
  {
    if n > 0 {
      SameWords(t, fed, more, n - 1);
      SameBlock(fed, more, t.extra + n - 1);
    }
  }

  lemma FeedFollows(t: Transfer, fed: seq<Word>, taken: seq<Word>, c: Core, w: Word)
    requires Follows(t, fed, taken, c)
    ensures Follows(t, fed + [w], taken, c.(inQ := c.inQ + [w]))
  {
    hide Chain, OutWords, Split, Halves;
    SameChain(t, fed, [w], Finished(t, c));
    SameWords(t, fed, [w], t.blocks - c.remBlocks);
  }

  lemma TakeFollows(t: Transfer, fed: seq<Word>, taken: seq<Word>, c: Core)
    requires Follows(t, fed, taken, c) && c.outQ != []
    ensures Follows(t, fed, taken + [c.outQ[0]], c.(outQ := c.outQ[1..]))
  {
    hide Chain, OutWords, Split, Halves;
    assert taken + c.outQ == taken + [c.outQ[0]] + c.outQ[1..];
  }

  /** One block of associated data. */
  lemma ExtraFollows(t: Transfer, fed: seq<Word>, taken: seq<Word>, c: Core, mac: Block)
    requires Follows(t, fed, taken, c) && c.running && c.remExtra > 0 && |c.inQ| >= 4
    requires mac == t.cipher(XorBlock(c.curMac, Join(c.inQ[..4])))
    ensures Follows(t, fed, taken, c.(inQ := c.inQ[4..], remExtra := c.remExtra - 1, curMac := mac))
  {
    hide OutWords, Split, Halves, Join, XorBlock;
    var k := Finished(t, c);
    assert c.inQ[..4] == fed[4 * k..4 * k + 4];
    assert c.inQ[4..] == fed[4 * (k + 1)..];
  }

  function NextMac(mode: nat, cipher: Cipher, mac: Block, data: Block, out: Block): Block {
    if mode == 0 then cipher(XorBlock(mac, out)) else if mode == 1 then cipher(XorBlock(mac, data)) else mac
  }

  /** One block of payload, in any mode. */
  lemma BlockFollows(t: Transfer, fed: seq<Word>, taken: seq<Word>, c: Core, out: Block, mac: Block)
    requires Follows(t, fed, taken, c) && c.running && c.remExtra == 0 && c.remBlocks > 0 && |c.inQ| >= 4
    requires out == XorBlock(Join(c.inQ[..4]), c.ctx.cipher(c.ctx.iv))
    requires t.modeAt(t.blocks - c.remBlocks) == t.mode
    requires mac == NextMac(t.mode, c.ctx.cipher, c.curMac, Join(c.inQ[..4]), out)
    ensures Follows(t, fed, taken, c.(inQ := c.inQ[4..], outQ := c.outQ + Split(out), remBlocks := c.remBlocks - 1,
                                      curMac := mac, ctx := Next(c.ctx)))
  {
    hide Split, Halves, Join, XorBlock;
    var k, j := Finished(t, c), t.blocks - c.remBlocks;
    assert c.inQ[..4] == fed[4 * k..4 * k + 4];
    assert c.inQ[4..] == fed[4 * (k + 1)..];
    assert out == Out(t, fed, j);
    var c' := c.(inQ := c.inQ[4..], outQ := c.outQ + Split(out), remBlocks := c.remBlocks - 1,
                 curMac := mac, ctx := Next(c.ctx));
    assert Produced(t, fed, c') == Produced(t, fed, c) + Split(out);
    assert taken + c.outQ + Split(out) == taken + (c.outQ + Split(out));
  }

  /** The end of a transfer.  In mode 1 the MAC is queued at once if it fits and is due otherwise. */
  lemma SealFollows(t: Transfer, fed: seq<Word>, taken: seq<Word>, c: Core, c': Core, tag: Block)
    requires Follows(t, fed, taken, c) && c.running && c.remExtra == 0 && c.remBlocks == 0
    requires 4 * (t.extra + t.blocks) <= |fed| && (t.mode < 2 ==> tag == Tag(t, fed))
    requires c'.due ==> t.mode == 1 && Halves(c'.outputMac) == Split(tag)
    requires c' == c.(running := false, sealed := true, due := c'.due, curMac := c'.curMac, ctx := c'.ctx,
      outputMac := c'.outputMac, outQ := if t.mode == 1 && !c'.due then c.outQ + Split(tag) else c.outQ)
    ensures Follows(t, fed, taken, c')
  {
    hide Chain, OutWords, Tag, Split, Halves;
    assert t.mode == 1 && !c'.due ==> taken + c.outQ + Split(tag) == taken + (c.outQ + Split(tag));
  }

  lemma DueFollows(t: Transfer, fed: seq<Word>, taken: seq<Word>, c: Core)
    requires Follows(t, fed, taken, c) && c.due
    ensures Follows(t, fed, taken, c.(due := false, outQ := c.outQ + Halves(c.outputMac)))
  {
    hide Chain, OutWords, Tag, Split, Halves;
    assert taken + c.outQ + Halves(c.outputMac) == taken + (c.outQ + Halves(c.outputMac));
  }

  // ----- The engine -----

  /** The fields of AES_CNT that matter here. */
  datatype Control = Control(
    start: bool,         // bit 31
    mode: nat,           // bits 28-29
    loadKey: bool,       // bit 24
    slot: nat,           // bits 26-27
    macLen: nat          // bits 16-18
  )

  /** The nonce as the engine puts it into its counter block: the first twelve bytes of the IV
      register, reversed, behind a flags byte of 2 and with the counter at 1. */
  function CcmCounter(ivReg: Block): Block {
    [2] + Reverse(ivReg)[4..16] + [0, 0, 1]
  }

  /** The first block of the CBC-MAC: flags, nonce and payload length. */
  function CcmSeed(ivReg: Block, macLen: nat, hasExtra: bool, blocks: nat): Block
    requires macLen < 8
  {
    var len := if macLen < 1 then 1 else macLen;
    [2 + 8 * len + (if hasExtra then 0x40 else 0)] + Reverse(ivReg)[4..16]
      + [blocks / 0x1000 % 0x100, blocks / 0x10 % 0x100, blocks * 0x10 % 0x100]
  }

  /** The first block of the CBC-MAC as SP 800-38C, A.2, formats it: a flags byte with bit 6 for associated
      data, the encoded MAC length in bits 3 to 5 and the length of the length less one below; the nonce,
      of which the register holds the last byte first; and the payload length in bytes. */
  ghost predicate FirstMacBlock(b0: Block, ivReg: Block, macLen: nat, blkCnt: nat) {
    && b0[0] == (if blkCnt % 0x1_0000 > 0 then 64 else 0) + 8 * (if macLen == 0 then 1 else macLen) + 2
    && (forall i :: 1 <= i <= 12 ==> b0[i] == ivReg[12 - i])
    && Value(b0[13..16]) == 16 * (blkCnt / 0x1_0000)
  }

  /** The counter block of the first payload block (A.3): flags 2, the nonce, and a counter of one. */
  ghost predicate FirstCounterBlock(c: Block, ivReg: Block) {
    c[0] == 2 && (forall i :: 1 <= i <= 12 ==> c[i] == ivReg[12 - i]) && c[13] == 0 && c[14] == 0 && c[15] == 1
  }

  /** What the registers mean to a new transfer. */
  ghost predicate Describes(t: Transfer, aes: Block -> Cipher, key: Block, ivReg: Block, cnt: Control, blkCnt: nat) {
    && t.mode == cnt.mode && t.blocks == blkCnt / 0x1_0000
    && t.extra == (if cnt.mode == 0 || cnt.mode == 1 then blkCnt % 0x1_0000 else 0)
    && (exists k: Block :: t.cipher == aes(k) && forall i :: 0 <= i < 16 ==> k[i] == key[15 - i])
    && (if cnt.mode == 0 || cnt.mode == 1 then
          && FirstCounterBlock(t.iv, ivReg)
          && exists b0: Block :: t.base == t.cipher(b0) && FirstMacBlock(b0, ivReg, cnt.macLen, blkCnt)
        else forall i :: 0 <= i < 16 ==> t.iv[i] == ivReg[15 - i])
  }

  lemma SeedIsFirst(ivReg: Block, macLen: nat, blkCnt: nat)
    requires macLen < 8 && blkCnt < 0x1_0000_0000
    ensures FirstMacBlock(CcmSeed(ivReg, macLen, blkCnt % 0x1_0000 != 0, blkCnt / 0x1_0000), ivReg, macLen, blkCnt)
  {
    var n := blkCnt / 0x1_0000;
    var b0 := CcmSeed(ivReg, macLen, blkCnt % 0x1_0000 != 0, n);
    var x: byte, y: byte, z: byte := n / 0x1000 % 0x100, n / 0x10 % 0x100, n * 0x10 % 0x100;
    assert b0[13..16] == [] + [x] + [y] + [z];
    ValueSnoc([], x);
    ValueSnoc([] + [x], y);
    ValueSnoc([] + [x] + [y], z);
    LengthBytes(n);
  }

  lemma LengthBytes(n: nat)
    requires n < 0x1_0000
    ensures n / 0x1000 % 0x100 * 0x1_0000 + n / 0x10 % 0x100 * 0x100 + n * 0x10 % 0x100 == 16 * n
  {
    var a, r := n / 0x1000, n % 0x1000;
    var b, c := r / 0x10, r % 0x10;
    assert n == 0x1000 * a + 0x10 * b + c;
    assert n / 0x10 == 0x100 * a + b;
    assert n * 0x10 == 0x100 * (0x100 * a + b) + 0x10 * c;
    ModUnique(n / 0x10, 0x100, a, b);
    ModUnique(n * 0x10, 0x100, 0x100 * a + b, 0x10 * c);
  }

  /** Different nonces or lengths, MAC lengths or kinds of message have different first blocks. */
  lemma FirstBlocksDiffer(b0: Block, b0': Block, ivReg: Block, ivReg': Block, macLen: nat, macLen': nat, blkCnt: nat,
                          blkCnt': nat)
    requires macLen < 8 && macLen' < 8 && blkCnt < 0x1_0000_0000 && blkCnt' < 0x1_0000_0000
    requires FirstMacBlock(b0, ivReg, macLen, blkCnt) && FirstMacBlock(b0', ivReg', macLen', blkCnt')
    ensures b0 == b0' <==>
      && ivReg[..12] == ivReg'[..12] && blkCnt / 0x1_0000 == blkCnt' / 0x1_0000
      && (blkCnt % 0x1_0000 > 0 <==> blkCnt' % 0x1_0000 > 0)
      && (macLen == macLen' || macLen + macLen' == 1)
  {
    if b0 == b0' {
      forall j | 0 <= j < 12 ensures ivReg[j] == ivReg'[j] {
        assert b0[12 - j] == ivReg[12 - (12 - j)] && b0'[12 - j] == ivReg'[12 - (12 - j)];
      }
    } else if ivReg[..12] == ivReg'[..12] && blkCnt / 0x1_0000 == blkCnt' / 0x1_0000 {
      ValueInjective(b0[13..16], b0'[13..16]);
      forall i | 1 <= i < 16 ensures b0[i] == b0'[i] {
        if i <= 12 { assert ivReg[12 - i] == ivReg[..12][12 - i] && ivReg'[12 - i] == ivReg'[..12][12 - i]; }
        else { assert b0[i] == b0[13..16][i - 13] && b0'[i] == b0'[13..16][i - 13]; }
      }
      assert b0[0] != b0'[0];
    }
  }

  /** The transfer that a start with these register values begins; mac is what is left in the running MAC,
      which CTR leaves alone. */
  function Started(aes: Block -> Cipher, key: Block, ivReg: Block, cnt: Control, blkCnt: nat, mac: Block,
                   before: seq<Word>): Transfer
    requires cnt.macLen < 8
  {
    var cipher, blocks := aes(Reverse(key)), blkCnt / 0x1_0000;
    if cnt.mode < 2 then
      var extra := blkCnt % 0x1_0000;
      Transfer(cnt.mode, Throughout(cnt.mode), cipher, CcmCounter(ivReg),
               cipher(CcmSeed(ivReg, cnt.macLen, extra != 0, blocks)), extra, blocks, before)
    else
      Transfer(cnt.mode, Throughout(cnt.mode), cipher, Reverse(ivReg), mac, 0, blocks, before)
  }

  function Throughout(mode: nat): nat -> nat {
    (j: nat) => mode
  }

  /** The payload blocks from k on are processed in the mode that is set now. */
  ghost predicate Steady(t: Transfer, k: int) {
    forall j: nat :: j >= k ==> t.modeAt(j) == t.mode
  }

  lemma SteadyAt(t: Transfer, k: nat)
    requires Steady(t, k)
    ensures t.modeAt(k) == t.mode && Steady(t, k + 1)
  {
  }

  /** From payload block k on, the mode is another. */
  function Turned(t: Transfer, k: nat, mode: nat): Transfer {
    t.(mode := mode, modeAt := FromThen(t.modeAt, k, mode))
  }

  function FromThen(modeAt: nat -> nat, k: nat, mode: nat): nat -> nat {
    (j: nat) => if j < k then modeAt(j) else mode
  }

  class AesEngine {
    const aes: Block -> Cipher
    const input: Fifo<Word>
    const output: Fifo<Word>
    var keyNormal: seq<Block>
    var curKey: Block
    var ivReg: Block
    var macReg: Block
    var blkCnt: nat
    var busy: bool              // bit 31 of Cnt
    var macOk: bool             // bit 21 of Cnt
    var mode: nat
    var remExtra: nat
    var remBlocks: nat
    var curMac: Block
    var ctx: Ctx
    var outputMac: Block
    var outputMacDue: bool

    ghost var transfer: Transfer        // the transfer started last
    ghost var fed: seq<Word>            // words accepted since it was started, and those queued then
    ghost var taken: seq<Word>          // words read out since it was started
    ghost var sealed: bool              // it has been finalised
    ghost var finals: nat               // how often

    ghost function Repr(): set<object>
      reads this
    {
      {this, input, output, input.entries, output.entries}
    }

    ghost predicate Shape()
      reads Repr()
    {
      && input != output && input.entries != output.entries
      && input.Valid() && output.Valid() && input.entries.Length == output.entries.Length == 16
      && |keyNormal| == 4 && blkCnt < 0x1_0000_0000
    }

    ghost function Now(): Core
      requires Shape()
      reads Repr()
    {
      Core(input.Contents(), output.Contents(), remExtra, remBlocks, curMac, ctx, busy, sealed, outputMacDue, outputMac)
    }

    ghost predicate Valid()
      reads Repr()
    {
      && Shape()
      && (busy ==> mode == transfer.mode && Steady(transfer, transfer.blocks - remBlocks))
      && Follows(transfer, fed, taken, Now())
      && finals == if sealed then 1 else 0
    }

    constructor (aes: Block -> Cipher)
      ensures Valid() && fresh(Repr()) && !busy
    {
      hide Follows, Window;
      this.aes := aes;
      input := new Fifo(16);
      output := new Fifo(16);
      var zero: Block := seq(16, _ => 0);
      keyNormal, curKey, ivReg, macReg := seq(4, _ => zero), zero, zero, zero;
      blkCnt, busy, macOk, mode, remExtra, remBlocks := 0, false, false, 2, 0, 0;
      curMac, ctx, outputMac, outputMacDue := zero, Ctx(aes(zero), zero), zero, false;
      transfer := Transfer(2, Throughout(2), aes(zero), zero, zero, 0, 0, []);
      fed, taken, sealed, finals := [], [], false, 0;
      new;
      NothingFollows(transfer, Now());
    }

    method ProcessBlockCcmExtra()
      requires Valid() && busy && remExtra > 0 && |input.Contents()| >= 4
      modifies this`curMac, this`remExtra, input
      ensures Valid() && remExtra == old(remExtra) - 1
    {
      hide Window, Wrap, Follows, Join;
      ghost var c := Now();
      var w := ReadBlock(input);
      RunningCipher(transfer, fed, taken, c);
      curMac := ctx.cipher(XorBlock(curMac, Join(w)));
      remExtra := remExtra - 1;
      ExtraFollows(transfer, fed, taken, c, curMac);
    }

    /** The running MAC after a block, which the three modes differ in. */
    method Chained(data: Block, out: Block)
      modifies `curMac
      ensures curMac == NextMac(mode, ctx.cipher, old(curMac), data, out)
    {
      match mode {
        case 0 => curMac := ctx.cipher(XorBlock(curMac, out));
        case 1 => curMac := ctx.cipher(XorBlock(curMac, data));
        case _ =>
      }
    }

    /** ProcessBlock_CCM_Decrypt, ProcessBlock_CCM_Encrypt and ProcessBlock_CTR. */
    method ProcessBlock()
      requires Valid() && busy && remExtra == 0 && remBlocks > 0
      requires |input.Contents()| >= 4 && |output.Contents()| <= 12
      modifies this`curMac, this`remBlocks, this`ctx, input, output, output.entries
      ensures Valid() && remBlocks == old(remBlocks) - 1
    {
      hide Window, Wrap, Follows, Join, Split, Xcrypt, Steady, NextMac;
      ghost var c := Now();
      RunningCipher(transfer, fed, taken, c);
      SteadyAt(transfer, transfer.blocks - remBlocks);
      var w := ReadBlock(input);
      var data := Join(w);
      var out := Xcrypt(ctx, data);
      XcryptIs(ctx, data);
      Chained(data, out);
      ctx := Next(ctx);
      WriteBlock(output, Split(out));
      remBlocks := remBlocks - 1;
      BlockFollows(transfer, fed, taken, c, out, curMac);
    }

    /** The MAC of a finished CCM transfer. */
    method FinalMac()
      requires Valid() && busy && remExtra == 0 && remBlocks == 0 && mode < 2
      modifies `curMac, `ctx
      ensures 4 * (transfer.extra + transfer.blocks) <= |fed| && curMac == Tag(transfer, fed)
    {
      hide Window, Wrap, Follows, Tag;
      TagIsFinalMac(transfer, fed, taken, Now());
      ctx := ctx.(iv := ZeroCounter(ctx.iv));
      curMac := Xcrypt(ctx, curMac);
      ctx := Next(ctx);
    }

    /** Queues the MAC, at once or once there is room. */
    method EmitMac()
      requires Shape() && !outputMacDue
      modifies this`outputMac, this`outputMacDue, output, output.entries
      ensures Shape() && input.Contents() == old(input.Contents()) && outputMac == Reverse(curMac)
      ensures Halves(outputMac) == Split(curMac)
      ensures output.Contents() == if outputMacDue then old(output.Contents())
        else old(output.Contents()) + Split(curMac)
    {
      hide Window, Wrap, Split, Halves;
      outputMac := Reverse(curMac);
      HalvesOfReverse(curMac);
      if output.Level() <= 12 {
        WriteBlock(output, Halves(outputMac));
      } else {
        outputMacDue := true;
      }
    }

    /** Mode by mode: compare the MAC, emit it, or neither. */
    method SettleMac()
      requires Valid() && busy && remExtra == 0 && remBlocks == 0 && !outputMacDue
      modifies this`curMac, this`ctx, this`macOk, this`outputMac, this`outputMacDue, output, output.entries
      ensures Shape() && Settled(transfer, fed, old(Now()), Now())
      ensures macOk <==> mode == 0 && Reverse(curMac) == macReg
    {
      hide Window, Wrap, Follows, Split, Halves, Tag, Chain, OutWords;
      if mode < 2 { FinalMac(); }
      macOk := false;
      if mode == 0 {
        macOk := Reverse(curMac) == macReg;
      } else if mode == 1 {
        EmitMac();
      }
    }

    /** The end of Update, when nothing is left to process. */
    method Finalise()
      requires Valid() && busy && remExtra == 0 && remBlocks == 0
      modifies this`curMac, this`ctx, this`macOk, this`outputMac, this`outputMacDue, this`busy, this`sealed,
               this`finals, output, output.entries
      ensures Valid() && !busy && sealed && finals == old(finals) + 1
      ensures 4 * (transfer.extra + transfer.blocks) <= |fed|
      ensures macOk <==> transfer.mode == 0 && Tag(transfer, fed) == Reverse(macReg)
    {
      hide Window, Wrap, Follows, Settled, Tag;
      ghost var c := Now();
      FollowsFed(transfer, fed, taken, c);
      SettleMac();
      ghost var c' := Now();
      busy := false;
      sealed := true;
      finals := finals + 1;
      SettledFollows(transfer, fed, taken, c, c');
      ReverseTwice(curMac);
      ReverseTwice(macReg);
    }

    /** Processes what can be processed; finalises the transfer when nothing is left.  Afterwards a
        running transfer waits for input or for room in the output. */
    method Update()
      requires Valid() && busy
      modifies this`curMac, this`ctx, this`macOk, this`outputMac, this`outputMacDue, this`busy, this`sealed,
               this`finals, this`remExtra, this`remBlocks, input, output, output.entries
      ensures Valid()
      ensures busy ==> macOk == old(macOk) && (remExtra > 0 || remBlocks > 0)
      ensures busy ==> |input.Contents()| < 4 || (remExtra == 0 && |output.Contents()| > 12)
      ensures !busy ==> CompletedNow()
    {
      hide Window, Wrap, Follows, Steady, Tag;
      if remExtra > 0 {
        while input.Level() >= 4 && remExtra > 0
          invariant Valid() && busy && macOk == old(macOk)
          decreases remExtra
        {
          ProcessBlockCcmExtra();
        }
      }
      if remExtra == 0 {
        while input.Level() >= 4 && output.Level() <= 12 && remBlocks > 0
          invariant Valid() && busy && remExtra == 0 && macOk == old(macOk)
          decreases remBlocks
        {
          ProcessBlock();
        }
      }
      if remBlocks == 0 && remExtra == 0 { Finalise(); }
    }

    /** The transfer has ended: all its words were fed, it was finalised once, and the MAC bit says
        whether the MAC register holds the tag of the decrypted payload. */
    ghost predicate CompletedNow()
      reads this
    {
      && sealed && finals == 1
      && 4 * (transfer.extra + transfer.blocks) <= |fed|
      && (macOk <==> transfer.mode == 0 && Tag(transfer, fed) == Reverse(macReg))
    }

    method WriteInputFIFO(val: Word)
      requires Valid()
      modifies this`curMac, this`ctx, this`macOk, this`outputMac, this`outputMacDue, this`busy, this`sealed,
               this`finals, this`remExtra, this`remBlocks, this`fed, input, input.entries, output, output.entries
      ensures Valid()
      ensures fed == if |old(input.Contents())| < 16 then old(fed) + [val] else old(fed)
      ensures old(busy) && !busy ==> CompletedNow()
      ensures busy ==> old(busy) && (|input.Contents()| < 4 || (remExtra == 0 && |output.Contents()| > 12))
    {
      hide Window, Wrap, Follows, Steady, Tag;
      ghost var c := Now();
      if |input.Contents()| < 16 { FeedFollows(transfer, fed, taken, c, val); fed := fed + [val]; }
      input.Write(val);
      if !busy { return; }
      Update();
    }

    /** Reading makes room, which lets a running transfer go on and a pending MAC come out. */
    method ReadOutputFIFO() returns (val: Word)
      requires Valid()
      modifies this`curMac, this`ctx, this`macOk, this`outputMac, this`outputMacDue, this`busy, this`sealed,
               this`finals, this`remExtra, this`remBlocks, this`taken, input, output, output.entries
      ensures Valid()
      ensures old(output.Contents()) != [] ==> val == old(output.Contents())[0] && taken == old(taken) + [val]
      ensures old(output.Contents()) == [] ==> taken == old(taken)
      ensures old(busy) && !busy ==> CompletedNow()
      ensures !old(busy) && outputMacDue ==> |output.Contents()| > 12
    {
      hide Window, Wrap, Follows, Steady, Tag, Halves;
      ghost var c := Now();
      if output.Contents() != [] {
        TakeFollows(transfer, fed, taken, c);
        taken := taken + [output.Contents()[0]];
      }
      val := output.Read();
      if busy {
        // CheckInputDMA
        if remBlocks == 0 && remExtra == 0 { return; }
        Update();
      } else if outputMacDue && output.Level() <= 12 {
        ghost var d := Now();
        DueFollows(transfer, fed, taken, d);
        WriteBlock(output, Halves(outputMac));
        outputMacDue := false;
      }
    }

    method WriteBlkCnt(val: nat)
      requires Valid() && val < 0x1_0000_0000
      modifies `blkCnt
      ensures Valid() && blkCnt == val
    {
      blkCnt := val;
    }

    /** Counts, key schedule, first counter and first MAC block of a new transfer. */
    method LoadTransfer(t: Transfer)
      modifies `busy, `remExtra, `remBlocks, `outputMacDue, `ctx, `curMac
      ensures remExtra == t.extra && remBlocks == t.blocks && !outputMacDue
      ensures busy <==> t.extra + t.blocks > 0
      ensures busy ==> ctx == Ctx(t.cipher, t.iv) && (t.mode < 2 ==> curMac == t.base)
      ensures !busy || t.mode >= 2 ==> curMac == old(curMac)
    {
      remExtra, remBlocks, outputMacDue := t.extra, t.blocks, false;
      busy := remBlocks > 0 || remExtra > 0;
      if busy {
        ctx := Ctx(t.cipher, t.iv);
        if t.mode < 2 { curMac := t.base; }
      }
    }

    /** The rising start bit. */
    method Start(cnt: Control)
      requires Shape() && cnt.macLen < 8 && mode == cnt.mode
      modifies `busy, `remExtra, `remBlocks, `outputMacDue, `ctx, `curMac, `transfer, `fed, `taken, `sealed, `finals
      ensures Valid() && transfer == Started(aes, curKey, ivReg, cnt, blkCnt, old(curMac), output.Contents())
      ensures Describes(transfer, aes, curKey, ivReg, cnt, blkCnt) && transfer.before == output.Contents()
      ensures fed == input.Contents() && taken == [] && !sealed && !outputMacDue
      ensures busy <==> transfer.extra + transfer.blocks > 0
    {
      hide Window, Wrap, Tag, Follows, Started, Describes;
      var t := Started(aes, curKey, ivReg, cnt, blkCnt, curMac, []);
      ghost var mac := curMac;
      LoadTransfer(t);
      transfer := Started(aes, curKey, ivReg, cnt, blkCnt, mac, output.Contents());
      fed, taken, sealed, finals := input.Contents(), [], false, 0;
      StartedDescribes(aes, curKey, ivReg, cnt, blkCnt, mac, output.Contents());
      StartFollows(aes, curKey, ivReg, cnt, blkCnt, mac, t, Now());
    }

    /** The ghost side of a mode change. */
    ghost method Turn()
      requires Shape() && busy && Follows(transfer, fed, taken, Now()) && finals == if sealed then 1 else 0
      modifies `transfer
      ensures Valid() && remBlocks <= old(transfer).blocks
      ensures transfer == Turned(old(transfer), old(transfer).blocks - remBlocks, mode)
    {
      hide Window, Wrap, Tag, Follows;
      TurnFollows(transfer, fed, taken, Now(), mode);
      transfer := Turned(transfer, transfer.blocks - remBlocks, mode);
    }

    /** The ghost side of any other write: the transfer goes on, perhaps in another mode, or is aborted. */
    ghost method Redirect(c: Core, was: nat)
      requires Shape() && Follows(transfer, fed, taken, c) && Now() == c.(running := busy) && (busy ==> c.running)
      requires finals == if sealed then 1 else 0
      requires busy ==> transfer.mode == was && Steady(transfer, transfer.blocks - remBlocks)
      modifies `transfer
      ensures Valid()
      ensures transfer == if busy && mode != was
        then Turned(old(transfer), old(transfer).blocks - remBlocks, mode) else old(transfer)
    {
      hide Window, Wrap, Tag, Follows, Turned, Steady;
      AbortFollows(transfer, fed, taken, c, busy);
      if busy && mode != was { Turn(); }
    }

    /** Writing the control register starts a transfer when its start bit rises, and while one runs it aborts
        it when the bit is cleared and otherwise sets the mode of all blocks to come.  A transfer with nothing
        to do ends at once, without a MAC. */
    method WriteCnt(cnt: Control)
      requires Valid() && cnt.macLen < 8 && cnt.slot < 4 && cnt.mode < 4
      modifies `busy, `macOk, `mode, `curKey, `remExtra, `remBlocks, `outputMacDue, `ctx, `curMac,
               `transfer, `fed, `taken, `sealed, `finals
      ensures Valid()
      ensures curKey == if cnt.loadKey then keyNormal[cnt.slot] else old(curKey)
      ensures cnt.start && !old(busy) ==>
        && transfer == Started(aes, curKey, ivReg, cnt, blkCnt, old(curMac), output.Contents())
        && fed == input.Contents() && taken == [] && !sealed && !outputMacDue
        && (busy <==> transfer.extra + transfer.blocks > 0)
      ensures cnt.start && !old(busy) ==> Describes(transfer, aes, curKey, ivReg, cnt, blkCnt)
      ensures !(cnt.start && !old(busy)) ==>
        && transfer == (if cnt.start && cnt.mode != old(mode)
                        then Turned(old(transfer), old(transfer.blocks - remBlocks), cnt.mode) else old(transfer))
        && fed == old(fed) && taken == old(taken) && sealed == old(sealed) && (busy <==> old(busy) && cnt.start)
    {
      hide Window, Wrap, Tag, Follows, Started, Turned, Steady, Describes;
      ghost var c := Now();
      var wasBusy, was := busy, mode;
      busy, macOk, mode := cnt.start, false, cnt.mode;
      if cnt.loadKey { curKey := keyNormal[cnt.slot]; }
      if !wasBusy && cnt.start {
        Start(cnt);
      } else {
        Redirect(c, was);
      }
    }
  }

  /** c' is c with the MAC of the transfer computed and, in mode 1, queued or due. */
  ghost predicate Settled(t: Transfer, fed: seq<Word>, c: Core, c': Core) {
    && c' == c.(curMac := c'.curMac, ctx := c'.ctx, due := c'.due, outputMac := c'.outputMac,
                outQ := if t.mode == 1 && !c'.due then c.outQ + Split(c'.curMac) else c.outQ)
    && (t.mode < 2 ==> 4 * (t.extra + t.blocks) <= |fed| && c'.curMac == Tag(t, fed))
    && (c'.due ==> t.mode == 1 && Halves(c'.outputMac) == Split(c'.curMac))
  }

  lemma SettledFollows(t: Transfer, fed: seq<Word>, taken: seq<Word>, c: Core, c': Core)
    requires Follows(t, fed, taken, c) && c.running && c.remExtra == 0 && c.remBlocks == 0
    requires Settled(t, fed, c, c') && 4 * (t.extra + t.blocks) <= |fed|
    ensures Follows(t, fed, taken, c'.(running := false, sealed := true))
    ensures t.mode < 2 ==> c'.curMac == Tag(t, fed)
  {
    hide Follows, Tag, Split, Halves;
    SealFollows(t, fed, taken, c, c'.(running := false, sealed := true), c'.curMac);
  }

  lemma StartFollows(aes: Block -> Cipher, key: Block, ivReg: Block, cnt: Control, blkCnt: nat, mac: Block,
                     s: Transfer, c: Core)
    requires cnt.macLen < 8 && s == Started(aes, key, ivReg, cnt, blkCnt, mac, [])
    requires c.remExtra == s.extra && c.remBlocks == s.blocks && !c.sealed && !c.due
    requires c.running ==> c.ctx == Ctx(s.cipher, s.iv) && c.curMac == if s.mode < 2 then s.base else mac
    ensures
      var t := Started(aes, key, ivReg, cnt, blkCnt, mac, c.outQ);
      Follows(t, c.inQ, [], c) && t.mode == cnt.mode && Steady(t, 0) && t.extra == s.extra && t.blocks == s.blocks
  {
    hide Follows, Started;
    StartedFields(aes, key, ivReg, cnt, blkCnt, mac, c.outQ);
    NewFollows(s.(before := c.outQ), c);
  }

  lemma StartedDescribes(aes: Block -> Cipher, key: Block, ivReg: Block, cnt: Control, blkCnt: nat, mac: Block,
                         before: seq<Word>)
    requires cnt.macLen < 8 && blkCnt < 0x1_0000_0000
    ensures Describes(Started(aes, key, ivReg, cnt, blkCnt, mac, before), aes, key, ivReg, cnt, blkCnt)
    ensures Started(aes, key, ivReg, cnt, blkCnt, mac, before).before == before
    ensures cnt.mode >= 2 ==> Started(aes, key, ivReg, cnt, blkCnt, mac, before).base == mac
  {
    hide CcmSeed, FirstMacBlock;
    var t := Started(aes, key, ivReg, cnt, blkCnt, mac, before);
    assert t.cipher == aes(Reverse(key));
    if cnt.mode < 2 {
      var b0 := CcmSeed(ivReg, cnt.macLen, blkCnt % 0x1_0000 != 0, blkCnt / 0x1_0000);
      SeedIsFirst(ivReg, cnt.macLen, blkCnt);
      assert t.base == t.cipher(b0);
    }
  }

  lemma StartedFields(aes: Block -> Cipher, key: Block, ivReg: Block, cnt: Control, blkCnt: nat, mac: Block,
                      before: seq<Word>)
    requires cnt.macLen < 8
    ensures
      var s := Started(aes, key, ivReg, cnt, blkCnt, mac, []);
      && Started(aes, key, ivReg, cnt, blkCnt, mac, before) == s.(before := before)
      && s.mode == cnt.mode && s.modeAt == Throughout(cnt.mode) && (s.mode >= 2 ==> s.base == mac)
  {
    hide CcmSeed;
  }

  /** At the start nothing is finished and what is queued for output is what was there before. */
  lemma NewFollows(t: Transfer, c: Core)
    requires c.remExtra == t.extra && c.remBlocks == t.blocks && !c.sealed && !c.due && t.before == c.outQ
    requires c.running ==> c.ctx == Ctx(t.cipher, t.iv) && c.curMac == t.base
    ensures Follows(t, c.inQ, [], c)
  {
  }

  lemma AbortFollows(t: Transfer, fed: seq<Word>, taken: seq<Word>, c: Core, running: bool)
    requires Follows(t, fed, taken, c) && (running ==> c.running)
    ensures Follows(t, fed, taken, c.(running := running))
  {
    hide Chain, OutWords, Tag, Split, Halves;
  }

  lemma NothingFollows(t: Transfer, c: Core)
    requires t.mode == 2 && t.extra == 0 && t.blocks == 0 && t.before == []
    requires c.inQ == [] && c.outQ == [] && c.remExtra == 0 && c.remBlocks == 0 && !c.running && !c.sealed && !c.due
    ensures Follows(t, [], [], c)
  {
  }

  lemma RunningCipher(t: Transfer, fed: seq<Word>, taken: seq<Word>, c: Core)
    requires Follows(t, fed, taken, c) && c.running
    ensures c.ctx.cipher == t.cipher && c.remBlocks <= t.blocks
  {
  }

  lemma FollowsFed(t: Transfer, fed: seq<Word>, taken: seq<Word>, c: Core)
    requires Follows(t, fed, taken, c)
    ensures c.remExtra == 0 && c.remBlocks == 0 ==> 4 * (t.extra + t.blocks) <= |fed|
    ensures c.due ==> c.sealed && t.mode == 1
    ensures !(c.running && c.sealed)
  {
  }

  lemma XcryptIs(ctx: Ctx, b: Block)
    ensures Xcrypt(ctx, b) == XorBlock(b, ctx.cipher(ctx.iv))
  {
  }

  lemma HalvesOfReverse(b: Block)
    ensures Halves(Reverse(b)) == Split(b)
  {
  }

  lemma {:induction false} CounterSteps(iv: Block, n: nat)
    requires iv == Counter(iv, 1) && n < 0x1_0000
    ensures BumpTimes(iv, n) == Counter(iv, 1 + n)
  {
    if n > 0 {
      CounterSteps(iv, n - 1);
      CounterBump(iv, n);
    }
  }

  lemma TagIsFinalMac(t: Transfer, fed: seq<Word>, taken: seq<Word>, c: Core)
    requires Follows(t, fed, taken, c) && c.running && c.remExtra == 0 && c.remBlocks == 0
    ensures 4 * (t.extra + t.blocks) <= |fed|
    ensures Xcrypt(c.ctx.(iv := ZeroCounter(c.ctx.iv)), c.curMac) == Tag(t, fed)
  {
    hide Chain, OutWords, XorBlock;
  }

  /** A CCM transfer counts at most 2^16 - 1 blocks, so its 24-bit counter does not overflow, and the tag's
      counter block is the one before the first. */
  lemma CcmTagCounter(aes: Block -> Cipher, key: Block, ivReg: Block, cnt: Control, blkCnt: nat, mac: Block)
    requires cnt.macLen < 8 && cnt.mode < 2 && blkCnt < 0x1_0000_0000
    ensures
      var t := Started(aes, key, ivReg, cnt, blkCnt, mac, []);
      && t.iv == Counter(t.iv, 1) && ZeroCounter(CounterAt(t, t.blocks)) == Counter(t.iv, 0)
      && Counter(t.iv, 0)[0] == 2 && Counter(t.iv, 0)[13..] == [0, 0, 0]
      && forall i :: 1 <= i <= 12 ==> Counter(t.iv, 0)[i] == ivReg[12 - i]
  {
    var t := Started(aes, key, ivReg, cnt, blkCnt, mac, []);
    CounterSteps(t.iv, t.blocks);
  }

  /** A new mode for the blocks to come changes nothing about those behind. */
  lemma TurnFollows(t: Transfer, fed: seq<Word>, taken: seq<Word>, c: Core, mode: nat)
    requires Follows(t, fed, taken, c) && c.running
    ensures c.remBlocks <= t.blocks
    ensures Follows(Turned(t, t.blocks - c.remBlocks, mode), fed, taken, c)
  {
    hide Chain, OutWords, Split, Tag, Halves;
    var u := Turned(t, t.blocks - c.remBlocks, mode);
    TurnedChain(t, fed, t.blocks - c.remBlocks, mode, Finished(t, c));
    TurnedWords(t, fed, t.blocks - c.remBlocks, mode, t.blocks - c.remBlocks);
  }

  lemma {:induction false} TurnedChain(t: Transfer, fed: seq<Word>, k: nat, mode: nat, n: nat)
    requires 4 * n <= |fed| && n <= t.extra + k
    ensures Chain(Turned(t, k, mode), fed, n) == Chain(t, fed, n)
  {
    hide In, XorBlock;
    if n > 0 { TurnedChain(t, fed, k, mode, n - 1); }
  }

  lemma {:induction false} TurnedWords(t: Transfer, fed: seq<Word>, k: nat, mode: nat, n: nat)
    requires 4 * (t.extra + n) <= |fed| || n == 0
    ensures OutWords(Turned(t, k, mode), fed, n) == OutWords(t, fed, n)
  {
    hide In, XorBlock, Split;
    if n > 0 { TurnedWords(t, fed, k, mode, n - 1); }
  }

  /** Four reads of a FIFO. */
  method ReadBlock(fifo: Fifo<Word>) returns (w: seq<Word>)
    requires fifo.Valid() && |fifo.Contents()| >= 4
    modifies fifo
    ensures fifo.Valid() && |w| == 4 && w == old(fifo.Contents())[..4]
    ensures fifo.Contents() == old(fifo.Contents())[4..]
  {
    hide Window, Wrap;
    var a := fifo.Read();
    var b := fifo.Read();
    var c := fifo.Read();
    var d := fifo.Read();
    w := [a, b, c, d];
  }

  /** Four writes to a FIFO that has room for them. */
  method WriteBlock(fifo: Fifo<Word>, w: seq<Word>)
    requires fifo.Valid() && |w| == 4 && |fifo.Contents()| + 4 <= fifo.entries.Length
    modifies fifo, fifo.entries
    ensures fifo.Valid() && fifo.Contents() == old(fifo.Contents()) + w
  {
    hide Window, Wrap;
    AppendFour(fifo.Contents(), w);
    fifo.Write(w[0]);
    fifo.Write(w[1]);
    fifo.Write(w[2]);
    fifo.Write(w[3]);
  }

  lemma AppendFour<T>(s: seq<T>, w: seq<T>)
    requires |w| == 4
    ensures s + [w[0]] + [w[1]] + [w[2]] + [w[3]] == s + w
  {
  }

  // ----- From one transfer to the next -----

  /** The same registers with mode 1 and with mode 0 start matching transfers. */
  lemma MatchingStarts(aes: Block -> Cipher, key: Block, ivReg: Block, cnt: Control, blkCnt: nat,
                       mac: Block, mac': Block, before: seq<Word>, before': seq<Word>)
    requires cnt.macLen < 8 && cnt.mode == 1
    ensures Matching(Started(aes, key, ivReg, cnt, blkCnt, mac, before),
                     Started(aes, key, ivReg, cnt.(mode := 0), blkCnt, mac', before'))
  {
    hide CcmSeed;
  }

  /** A sealed encryption has given out or queued its words, then its MAC, unless the MAC is still due. */
  lemma SealedGives(e: Transfer, fed: seq<Word>, taken: seq<Word>, c: Core)
    requires e.mode == 1 && Follows(e, fed, taken, c) && c.sealed
    ensures 4 * (e.extra + e.blocks) <= |fed|
    ensures
      var words, mac := e.before + OutWords(e, fed, e.blocks), Split(Tag(e, fed));
      && (c.due ==> taken + c.outQ == words && Halves(c.outputMac) == mac)
      && (!c.due ==> taken + c.outQ == words + mac)
  {
    hide Chain, OutWords, Tag, Split, Halves;
  }

  /** What was read out and is still queued is the whole sealed message exactly when the MAC is not due
      any more.  A start drops a due MAC, so a message is cut short exactly when that comes first. */
  lemma MacOutIff(enc: AesEngine)
    requires enc.Valid() && enc.sealed && enc.transfer.mode == 1
    ensures 4 * (enc.transfer.extra + enc.transfer.blocks) <= |enc.fed|
    ensures
      var t, given := enc.transfer, enc.taken + enc.output.Contents();
      given == t.before + OutWords(t, enc.fed, t.blocks) + Split(Tag(t, enc.fed)) <==> !enc.outputMacDue
  {
    hide Follows, OutWords, Tag, Split, Halves;
    SealedGives(enc.transfer, enc.fed, enc.taken, enc.Now());
  }

  lemma EncryptionGives(e: Transfer, fed: seq<Word>, taken: seq<Word>, c: Core)
    requires e.mode == 1
    requires Follows(e, fed, taken, c) && c.sealed && !c.due && c.outQ == []
    ensures 4 * (e.extra + e.blocks) <= |fed| && |taken| == |e.before| + 4 * e.blocks + 4
    ensures
      var plain, out := fed[..4 * (e.extra + e.blocks)], taken[|e.before|..];
      out[..4 * e.blocks] == OutWords(e, plain, e.blocks) && out[4 * e.blocks..] == Split(Tag(e, plain))
  {
    hide Chain, OutWords, Tag, Split, Halves, Follows;
    SealedGives(e, fed, taken, c);
    CutFed(e, fed);
    assert taken + c.outQ == taken;
  }

  lemma DecryptionGives(d: Transfer, fed: seq<Word>, taken: seq<Word>, c: Core)
    requires d.mode == 0
    requires Follows(d, fed, taken, c) && c.sealed
    ensures 4 * (d.extra + d.blocks) <= |fed|
    ensures taken + c.outQ == d.before + OutWords(d, fed[..4 * (d.extra + d.blocks)], d.blocks)
  {
    hide Chain, OutWords, Tag, Split, Halves, Working;
    CutFed(d, fed);
  }

  /** Words beyond the counted ones do not matter. */
  lemma CutFed(t: Transfer, fed: seq<Word>)
    requires 4 * (t.extra + t.blocks) <= |fed|
    ensures
      var used := fed[..4 * (t.extra + t.blocks)];
      OutWords(t, fed, t.blocks) == OutWords(t, used, t.blocks) && Tag(t, fed) == Tag(t, used)
  {
    hide Chain, OutWords;
    var used := fed[..4 * (t.extra + t.blocks)];
    assert fed == used + fed[4 * (t.extra + t.blocks)..];
    SameWords(t, used, fed[4 * (t.extra + t.blocks)..], t.blocks);
    SameChain(t, used, fed[4 * (t.extra + t.blocks)..], t.extra + t.blocks);
  }

  /** The tag's words as software writes them into the MAC register. */
  lemma SplitBytes(tag: Block)
    ensures Reverse(Bytes(Split(tag))) == tag
  {
    hide Split, Bytes, Reverse;
    assert Join(Split(tag)) == tag;
  }

  /** Two engines, each under its own interleaving of reads and writes.  One encrypted with CCM and all
      its words, the MAC too, were read; the other decrypted, in a matching transfer, the words that came
      out, with the emitted MAC in its MAC register.  The second gives out what the first was fed and its
      MAC bit is set. */
  lemma DecryptsWhatWasEncrypted(enc: AesEngine, dec: AesEngine)
    requires enc.Valid() && enc.sealed && !enc.outputMacDue && enc.output.Contents() == []
    requires dec.Valid() && dec.CompletedNow()
    requires Matching(enc.transfer, dec.transfer)
    requires
      var t, out := enc.transfer, enc.taken[|enc.transfer.before|..];
      && |out| == 4 * t.blocks + 4 && 4 * t.extra <= |enc.fed|
      && dec.fed[..4 * (t.extra + t.blocks)] == enc.fed[..4 * t.extra] + out[..4 * t.blocks]
      && dec.macReg == Bytes(out[4 * t.blocks..])
    ensures dec.macOk
    ensures
      var t := enc.transfer;
      && 4 * (t.extra + t.blocks) <= |enc.fed|
      && dec.taken + dec.output.Contents() == dec.transfer.before + enc.fed[4 * t.extra..4 * (t.extra + t.blocks)]
  {
    hide Chain, Tag, Split, Working, Follows, OutWords, Bytes, Reverse, Produced, Counts;
    var e, d := enc.transfer, dec.transfer;
    var n := 4 * (e.extra + e.blocks);
    EncryptionGives(e, enc.fed, enc.taken, enc.Now());
    DecryptionGives(d, dec.fed, dec.taken, dec.Now());
    var plain, sealed := enc.fed[..n], dec.fed[..n];
    CutFed(d, dec.fed);
    assert plain[..4 * e.extra] == enc.fed[..4 * e.extra];
    CcmRoundTrip(e, d, plain, sealed);
    SplitBytes(Tag(e, plain));
  }
}
