/**
  The ES block format of DSi NAND files: a payload of any length below 2^24, encrypted in CTR mode,
  followed by a 32-byte footer with the CBC-MAC of the payload, a nonce, and the length.
  The construction is CCM (NIST SP 800-38C, section 6) with its own formatting of the first block.
 */
module EsFormat {
  import opened Arithmetic
  import opened Crypto

  // ----- What the format is -----

  /** The counter block built from the nonce in the footer; its counter is 1. */
  function BaseIv(data: seq<byte>, len: nat): Block
    requires |data| >= len + 0x20
  {
    [2] + seq(12, i requires 0 <= i < 12 => data[len + 0x1C - i]) + [0, 0, 1]
  }

  function FooterIv(data: seq<byte>, len: nat): Block
    requires |data| >= len + 0x20
  {
    [0, 0, 0] + seq(12, i requires 0 <= i < 12 => data[len + 0x1C - i]) + [0]
  }

  function BlockCount(len: nat): nat {
    (len + 15) / 16
  }

  function MacSeed(iv: Block, len: nat): Block {
    var blklen := BlockCount(len) * 16;
    [0x3A] + iv[1..13] + [blklen / 0x1_0000 % 0x100, blklen / 0x100 % 0x100, blklen % 0x100]
  }

  /** The three blocks around a payload.  The nonce is read from the footer backwards; the counter block and
      the first MAC block carry it behind their flags, the latter with the length rounded up to whole blocks. */
  lemma BlocksAre(data: seq<byte>, len: nat)
    requires |data| >= len + 0x20 && len < 0x100_0000
    ensures
      var iv, seed, f := BaseIv(data, len), MacSeed(BaseIv(data, len), len), FooterIv(data, len);
      && iv[0] == 0x02 && seed[0] == 0x3A && f[0] == f[1] == f[2] == f[15] == 0
      && iv[13] == 0 && iv[14] == 0 && iv[15] == 1
      && Value(seed[13..16]) == (len + 15) / 16 * 16 % 0x100_0000
    ensures
      var iv, seed, f := BaseIv(data, len), MacSeed(BaseIv(data, len), len), FooterIv(data, len);
      && (forall i :: 1 <= i < 13 ==> iv[i] == seed[i] == data[len + 0x1D - i])
      && (forall i :: 3 <= i < 15 ==> f[i] == data[len + 0x1F - i])
  {
    var iv := BaseIv(data, len);
    var seed := MacSeed(iv, len);
    var n := BlockCount(len) * 16;
    var x: byte, y: byte, z: byte := n / 0x1_0000 % 0x100, n / 0x100 % 0x100, n % 0x100;
    assert seed[13..16] == [] + [x] + [y] + [z];
    ValueSnoc([], x);
    ValueSnoc([] + [x], y);
    ValueSnoc([] + [x] + [y], z);
    LowThree(n);
    forall i | 1 <= i < 13 ensures seed[i] == iv[i] { assert seed[i] == iv[1..13][i - 1]; }
  }

  lemma LowThree(n: nat)
    ensures 0x1_0000 * (n / 0x1_0000 % 0x100) + 0x100 * (n / 0x100 % 0x100) + n % 0x100 == n % 0x100_0000
  {
    var a, b := n / 0x100, n / 0x1_0000;
    assert a / 0x100 == b && b / 0x100 == n / 0x100_0000;
    assert n == 0x100 * a + n % 0x100 && a == 0x100 * b + a % 0x100 && b == 0x100 * (b / 0x100) + b % 0x100;
  }

  /** Block k of the payload, byte-reversed, with zeros behind the end. */
  function PlainBlock(data: seq<byte>, len: nat, k: nat): Block
    requires len <= |data|
  {
    seq(16, j requires 0 <= j < 16 => var p := 16 * k + 15 - j; if p < len then data[p] else 0)
  }

  function MacChain(cipher: Cipher, seed: Block, data: seq<byte>, len: nat, n: nat): Block
    requires len <= |data|
  {
    if n == 0 then cipher(seed)
    else cipher(XorBlock(MacChain(cipher, seed, data, len, n - 1), PlainBlock(data, len, n - 1)))
  }

  /** The keystream byte for position p. */
  function Stream(cipher: Cipher, iv: Block, p: nat): byte
    requires p < 0x100_0000
  {
    cipher(Counter(iv, 1 + p / 16))[15 - p % 16]
  }

  function Tag(cipher: Cipher, data: seq<byte>, len: nat): Block
    requires |data| >= len + 0x20
  {
    var iv := BaseIv(data, len);
    XorBlock(MacChain(cipher, MacSeed(iv, len), data, len, BlockCount(len)), cipher(Counter(iv, 0)))
  }

  /** The payload run through the keystream, in either direction. */
  predicate PayloadCrypted(cipher: Cipher, iv: Block, from: seq<byte>, to: seq<byte>, len: nat)
    requires len <= |from| && len <= |to| && len < 0x100_0000
  {
    forall p :: 0 <= p < len ==> to[p] == Xor(from[p], Stream(cipher, iv, p))
  }

  /** The four encrypted bytes of the footer. */
  predicate FooterCrypted(cipher: Cipher, from: seq<byte>, b15: byte, b2: byte, b1: byte, b0: byte,
                          to: seq<byte>, len: nat)
    requires |from| >= len + 0x20 && |to| == |from|
  {
    var f := cipher(FooterIv(from, len));
    && to[len + 0x10] == Xor(b15, f[15])
    && to[len + 0x1D] == Xor(b2, f[2])
    && to[len + 0x1E] == Xor(b1, f[1])
    && to[len + 0x1F] == Xor(b0, f[0])
  }

  predicate SameNonce(from: seq<byte>, to: seq<byte>, len: nat)
    requires |from| >= len + 0x20 && |to| == |from|
  {
    && (forall p :: len + 0x11 <= p < len + 0x1D ==> to[p] == from[p])
    && (forall p :: len + 0x20 <= p < |from| ==> to[p] == from[p])
  }

  function StoredLength(data: seq<byte>, len: nat): nat
    requires |data| >= len + 0x20
  {
    var b0: nat, b1: nat, b2: nat := data[len + 0x1F], data[len + 0x1E], data[len + 0x1D];
    b0 + 0x100 * b1 + 0x1_0000 * b2
  }

  ghost predicate Encrypted(cipher: Cipher, from: seq<byte>, to: seq<byte>, len: nat)
    requires |from| >= len + 0x20 && |to| == |from| && len < 0x100_0000
  {
    && PayloadCrypted(cipher, BaseIv(from, len), from, to, len)
    && to[len..len + 16] == Reverse(Tag(cipher, from, len))
    && FooterCrypted(cipher, from, 0x3A, len / 0x1_0000, len / 0x100 % 0x100, len % 0x100, to, len)
    && SameNonce(from, to, len)
  }

  ghost predicate Decrypted(cipher: Cipher, from: seq<byte>, to: seq<byte>, len: nat, ok: bool)
    requires |from| >= len + 0x20 && |to| == |from| && len < 0x100_0000
  {
    && PayloadCrypted(cipher, BaseIv(from, len), from, to, len)
    && to[len..len + 16] == from[len..len + 16]
    && FooterCrypted(cipher, from, from[len + 0x10], from[len + 0x1D], from[len + 0x1E], from[len + 0x1F], to, len)
    && SameNonce(from, to, len)
    && ok == (StoredLength(to, len) == len && to[len..len + 16] == Reverse(Tag(cipher, to, len)))
  }

  // ----- The round trip -----

  lemma NonceKeepsIv(from: seq<byte>, to: seq<byte>, len: nat)
    requires |from| >= len + 0x20 && |to| == |from| && SameNonce(from, to, len)
    ensures BaseIv(to, len) == BaseIv(from, len) && FooterIv(to, len) == FooterIv(from, len)
  {
  }

  lemma {:induction false} SamePayloadSameMac(cipher: Cipher, seed: Block, a: seq<byte>, b: seq<byte>, len: nat, n: nat)
    requires len <= |a| && len <= |b| && a[..len] == b[..len]
    ensures MacChain(cipher, seed, a, len, n) == MacChain(cipher, seed, b, len, n)
  {
    if n > 0 {
      SamePayloadSameMac(cipher, seed, a, b, len, n - 1);
      forall p | 0 <= p < len ensures a[p] == b[p] { assert a[..len][p] == b[..len][p]; }
      assert PlainBlock(a, len, n - 1) == PlainBlock(b, len, n - 1);
    }
  }

  lemma CryptTwice(cipher: Cipher, iv: Block, a: seq<byte>, b: seq<byte>, c: seq<byte>, len: nat)
    requires len <= |a| && len <= |b| && len <= |c| && len < 0x100_0000
    requires PayloadCrypted(cipher, iv, a, b, len) && PayloadCrypted(cipher, iv, b, c, len)
    ensures a[..len] == c[..len]
  {
    forall p | 0 <= p < len ensures a[p] == c[p] {
      XorCancels(a[p], Stream(cipher, iv, p));
    }
  }

  /** The three length bytes go through the same footer block twice. */
  lemma LengthSurvives(cipher: Cipher, plain: seq<byte>, sealed: seq<byte>, opened_: seq<byte>, len: nat, ok: bool)
    requires |plain| >= len + 0x20 && |sealed| == |plain| == |opened_| && len < 0x100_0000
    requires Encrypted(cipher, plain, sealed, len) && Decrypted(cipher, sealed, opened_, len, ok)
    ensures StoredLength(opened_, len) == len
  {
    hide StoredLength;
    FooterSurvives(cipher, plain, sealed, opened_, len, ok);
    LengthBytes(len, opened_);
  }

  lemma FooterSurvives(cipher: Cipher, plain: seq<byte>, sealed: seq<byte>, opened_: seq<byte>, len: nat, ok: bool)
    requires |plain| >= len + 0x20 && |sealed| == |plain| == |opened_| && len < 0x100_0000
    requires Encrypted(cipher, plain, sealed, len) && Decrypted(cipher, sealed, opened_, len, ok)
    ensures opened_[len + 0x1D] == len / 0x1_0000 && opened_[len + 0x1E] == len / 0x100 % 0x100
      && opened_[len + 0x1F] == len % 0x100
  {
    NonceKeepsIv(plain, sealed, len);
    hide Xor, PayloadCrypted, Tag, Reverse, BaseIv, SameNonce, FooterIv, StoredLength;
    var f := cipher(FooterIv(plain, len));
    XorCancels(len / 0x1_0000, f[2]);
    XorCancels(len / 0x100 % 0x100, f[1]);
    XorCancels(len % 0x100, f[0]);
  }

  lemma LengthBytes(len: nat, data: seq<byte>)
    requires |data| >= len + 0x20 && len < 0x100_0000
    requires data[len + 0x1D] == len / 0x1_0000 && data[len + 0x1E] == len / 0x100 % 0x100
      && data[len + 0x1F] == len % 0x100
    ensures StoredLength(data, len) == len
  {
    var q := len / 0x100;
    assert len == q * 0x100 + len % 0x100 && q == q / 0x100 * 0x100 + q % 0x100 && len / 0x1_0000 == q / 0x100;
  }

  lemma TagOfSamePayload(cipher: Cipher, a: seq<byte>, b: seq<byte>, len: nat)
    requires |a| >= len + 0x20 && |b| == |a| && a[..len] == b[..len] && BaseIv(a, len) == BaseIv(b, len)
    ensures Tag(cipher, a, len) == Tag(cipher, b, len)
  {
    hide BaseIv, MacSeed, MacChain, XorBlock;
    SamePayloadSameMac(cipher, MacSeed(BaseIv(a, len), len), a, b, len, BlockCount(len));
  }

  /** Decrypting what was encrypted succeeds and gives back every payload byte. */
  lemma EncryptThenDecrypt(cipher: Cipher, plain: seq<byte>, sealed: seq<byte>, opened_: seq<byte>, len: nat, ok: bool)
    requires |plain| >= len + 0x20 && |sealed| == |plain| == |opened_| && len < 0x100_0000
    requires Encrypted(cipher, plain, sealed, len) && Decrypted(cipher, sealed, opened_, len, ok)
    ensures ok && opened_[..len] == plain[..len]
  {
    LengthSurvives(cipher, plain, sealed, opened_, len, ok);
    NonceKeepsIv(plain, sealed, len);
    NonceKeepsIv(sealed, opened_, len);
    hide Xor, Tag, PayloadCrypted, FooterCrypted, SameNonce, Reverse, BaseIv, FooterIv, StoredLength;
    CryptTwice(cipher, BaseIv(plain, len), plain, sealed, opened_, len);
    TagOfSamePayload(cipher, plain, opened_, len);
  }

  /** Decryption accepts a footer with the right length exactly when the tag stored in it is the tag
      of the payload it gives out. */
  lemma AcceptedMeansTagged(cipher: Cipher, sealed: seq<byte>, opened_: seq<byte>, len: nat, ok: bool)
    requires |sealed| >= len + 0x20 && |opened_| == |sealed| && len < 0x100_0000
    requires Decrypted(cipher, sealed, opened_, len, ok)
    requires StoredLength(opened_, len) == len
    ensures ok <==> Reverse(sealed[len..len + 16]) == Tag(cipher, opened_, len)
  {
    ReverseTwice(Tag(cipher, opened_, len));
    ReverseTwice(sealed[len..len + 16]);
  }

  // ----- The code, in place on a buffer -----

  /** Bytes before `to` have gone through the keystream, the others are as they were. */
  ghost predicate CryptedUpTo(cipher: Cipher, iv: Block, was: seq<byte>, now: seq<byte>, to: nat)
    requires |now| == |was| && to <= |was| && to < 0x100_0000
  {
    && (forall p :: 0 <= p < to ==> now[p] == Xor(was[p], Stream(cipher, iv, p)))
    && (forall p :: to <= p < |was| ==> now[p] == was[p])
  }

  /** The n bytes from position `at` now hold the last n bytes of b, reversed; the rest is as before. */
  ghost predicate Placed(was: seq<byte>, now: seq<byte>, at: nat, n: nat, b: Block)
    requires |now| == |was| && n <= 16
  {
    forall p :: 0 <= p < |was| ==> now[p] == if at <= p < at + n then b[15 - (p - at)] else was[p]
  }

  /** rem[15 - i] = data[at + i] for n bytes, `fill` in front of them; Bswap128 when n is 16. */
  function Get(data: seq<byte>, at: nat, n: nat, fill: Block): Block
    requires n <= 16 && at + n <= |data|
  {
    seq(16, j requires 0 <= j < 16 => if 15 - j < n then data[at + (15 - j)] else fill[j])
  }

  method Put(data: array<byte>, at: nat, n: nat, b: Block)
    requires n <= 16 && at + n <= data.Length
    modifies data
    ensures Placed(old(data[..]), data[..], at, n, b)
  {
    forall j | 0 <= j < n { data[at + j] := b[15 - j]; }
  }

  const ZeroBlock: Block := seq(16, _ => 0)

  /** How many payload bytes block k holds. */
  function BlockLength(len: nat, k: nat): nat
    requires k < BlockCount(len)
  {
    if 16 * k + 16 <= len then 16 else len - 16 * k
  }

  lemma GetIsPlainBlock(data: seq<byte>, len: nat, k: nat)
    requires k < BlockCount(len) && len <= |data|
    ensures BlockLength(len, k) <= 16 && 16 * k + BlockLength(len, k) <= len
    ensures Get(data, 16 * k, BlockLength(len, k), ZeroBlock) == PlainBlock(data, len, k)
  {
    var n := BlockLength(len, k);
    forall j | 0 <= j < 16
      ensures Get(data, 16 * k, n, ZeroBlock)[j] == PlainBlock(data, len, k)[j]
    {
    }
  }

  lemma StreamAt(cipher: Cipher, iv: Block, k: nat, j: nat)
    requires j < 16 && 16 * k + j < 0x100_0000
    ensures Stream(cipher, iv, 16 * k + j) == cipher(Counter(iv, 1 + k))[15 - j]
  {
    assert (16 * k + j) / 16 == k && (16 * k + j) % 16 == j;
  }

  /** One block through the keystream, written back where it came from. */
  lemma BlockCrypted(cipher: Cipher, iv: Block, was: seq<byte>, mid: seq<byte>, now: seq<byte>, k: nat, n: nat,
                     fill: Block, b: Block)
    requires |was| == |mid| == |now| && n <= 16 && 16 * k + n <= |was| && 16 * k + n < 0x100_0000
    requires CryptedUpTo(cipher, iv, was, mid, 16 * k)
    requires b == XorBlock(Get(mid, 16 * k, n, fill), cipher(Counter(iv, 1 + k)))
    requires Placed(mid, now, 16 * k, n, b)
    ensures CryptedUpTo(cipher, iv, was, now, 16 * k + n)
  {
    forall p | 16 * k <= p < 16 * k + n ensures now[p] == Xor(was[p], Stream(cipher, iv, p)) {
      var j := p - 16 * k;
      StreamAt(cipher, iv, k, j);
      assert Get(mid, 16 * k, n, fill)[15 - j] == was[p];
    }
  }

  lemma NothingCrypted(cipher: Cipher, iv: Block, was: seq<byte>)
    ensures CryptedUpTo(cipher, iv, was, was, 0)
  {
  }

  lemma GetUntouched(cipher: Cipher, iv: Block, was: seq<byte>, now: seq<byte>, k: nat, n: nat, fill: Block)
    requires |now| == |was| && 16 * k + n <= |was| && 16 * k < 0x100_0000 && n <= 16
    requires CryptedUpTo(cipher, iv, was, now, 16 * k)
    ensures Get(now, 16 * k, n, fill) == Get(was, 16 * k, n, fill)
  {
    forall j | 0 <= j < 16 ensures Get(now, 16 * k, n, fill)[j] == Get(was, 16 * k, n, fill)[j] {
    }
  }

  /** What one round of either loop keeps: k blocks done, the MAC over the blocks so far, the counter. */
  ghost predicate Progress(cipher: Cipher, iv: Block, seed: Block, plain: seq<byte>, len: nat, k: nat, mac: Block,
                           ctx: Ctx)
    requires len <= |plain| && k < 0xFF_FFFF
  {
    mac == MacChain(cipher, seed, plain, len, k) && ctx == Ctx(cipher, Counter(iv, 1 + k))
  }

  lemma Advance(cipher: Cipher, iv: Block, seed: Block, plain: seq<byte>, len: nat, k: nat, mac: Block, ctx: Ctx)
    requires len <= |plain| && k + 1 < 0xFF_FFFF && Progress(cipher, iv, seed, plain, len, k, mac, ctx)
    ensures Progress(cipher, iv, seed, plain, len, k + 1, cipher(XorBlock(mac, PlainBlock(plain, len, k))), Next(ctx))
  {
    CounterBump(iv, 1 + k);
  }

  /** Block k of ESEncrypt: MAC over the plain bytes, then the keystream. */
  method EncryptBlock(data: array<byte>, k: nat, n: nat, mac: Block, ctx: Ctx) returns (mac': Block, ctx': Ctx)
    requires n <= 16 && 16 * k + n <= data.Length
    modifies data
    ensures Placed(old(data[..]), data[..], 16 * k, n, Xcrypt(ctx, Get(old(data[..]), 16 * k, n, ZeroBlock)))
    ensures mac' == ctx.cipher(XorBlock(mac, Get(old(data[..]), 16 * k, n, ZeroBlock))) && ctx' == Next(ctx)
  {
    var tmp := Get(data[..], 16 * k, n, ZeroBlock);
    mac' := ctx.cipher(XorBlock(mac, tmp));
    Put(data, 16 * k, n, Xcrypt(ctx, tmp));
    ctx' := Next(ctx);
  }

  /** The payload part of ESEncrypt. */
  method EncryptPayload(cipher: Cipher, data: array<byte>, len: nat, iv: Block, seed: Block)
    returns (mac: Block, ctx: Ctx)
    requires len <= data.Length && len < 0x100_0000 && iv == Counter(iv, 1)
    modifies data
    ensures CryptedUpTo(cipher, iv, old(data[..]), data[..], len)
    ensures Progress(cipher, iv, seed, old(data[..]), len, BlockCount(len), mac, ctx)
  {
    hide CryptedUpTo, Placed, Get, PlainBlock, Counter;
    ghost var was := data[..];
    var coarselen := len / 16 * 16;
    mac := cipher(seed);
    ctx := Ctx(cipher, iv);
    NothingCrypted(cipher, iv, was);
    var i := 0;
    while i < coarselen
      invariant i % 16 == 0 && i <= coarselen && CryptedUpTo(cipher, iv, was, data[..], i)
      invariant Progress(cipher, iv, seed, was, len, i / 16, mac, ctx)
    {
      mac, ctx := EncryptNext(cipher, data, len, i / 16, 16, iv, seed, mac, ctx, was);
      i := i + 16;
    }
    var remlen := len - coarselen;
    if remlen != 0 {
      mac, ctx := EncryptNext(cipher, data, len, coarselen / 16, remlen, iv, seed, mac, ctx, was);
    }
  }

  /** One round: the loop's with n == 16, the remainder's with fewer. */
  method EncryptNext(cipher: Cipher, data: array<byte>, len: nat, k: nat, n: nat, iv: Block, seed: Block,
                     mac: Block, ctx: Ctx, ghost was: seq<byte>) returns (mac': Block, ctx': Ctx)
    requires len <= data.Length == |was| && len < 0x100_0000
    requires k < BlockCount(len) && n == BlockLength(len, k)
    requires CryptedUpTo(cipher, iv, was, data[..], 16 * k) && Progress(cipher, iv, seed, was, len, k, mac, ctx)
    modifies data
    ensures 16 * k + n <= len && CryptedUpTo(cipher, iv, was, data[..], 16 * k + n)
    ensures Progress(cipher, iv, seed, was, len, k + 1, mac', ctx')
  {
    hide CryptedUpTo, Placed, Get, PlainBlock, Counter;
    ghost var mid := data[..];
    GetUntouched(cipher, iv, was, mid, k, n, ZeroBlock);
    GetIsPlainBlock(was, len, k);
    Advance(cipher, iv, seed, was, len, k, mac, ctx);
    mac', ctx' := EncryptBlock(data, k, n, mac, ctx);
    BlockCrypted(cipher, iv, was, mid, data[..], k, n, ZeroBlock, Xcrypt(ctx, Get(mid, 16 * k, n, ZeroBlock)));
  }

  // ----- Decryption -----

  /** The payload after decryption. */
  ghost function Plain(cipher: Cipher, iv: Block, was: seq<byte>, len: nat): (plain: seq<byte>)
    requires len <= |was| && len < 0x100_0000
    ensures |plain| == |was|
  {
    seq(|was|, p requires 0 <= p < |was| => if p < len then Xor(was[p], Stream(cipher, iv, p)) else was[p])
  }

  lemma PlainIsCrypted(cipher: Cipher, iv: Block, was: seq<byte>, now: seq<byte>, len: nat)
    requires len <= |was| == |now| && len < 0x100_0000 && CryptedUpTo(cipher, iv, was, now, len)
    ensures now == Plain(cipher, iv, was, len)
  {
  }

  /** A whole block: out of the keystream comes the plain block. */
  lemma WholeBlockPlain(cipher: Cipher, iv: Block, was: seq<byte>, len: nat, k: nat, fill: Block)
    requires 16 * k + 16 <= len <= |was| && len < 0x100_0000
    ensures XorBlock(Get(was, 16 * k, 16, fill), cipher(Counter(iv, 1 + k)))
         == PlainBlock(Plain(cipher, iv, was, len), len, k)
  {
    var b := XorBlock(Get(was, 16 * k, 16, fill), cipher(Counter(iv, 1 + k)));
    forall j | 0 <= j < 16 ensures b[j] == PlainBlock(Plain(cipher, iv, was, len), len, k)[j] {
      StreamAt(cipher, iv, k, 15 - j);
    }
  }

  /** The partial block: where no ciphertext was put, the keystream cancels itself and leaves zeros. */
  lemma PartialBlockPlain(cipher: Cipher, iv: Block, was: seq<byte>, len: nat, k: nat, n: nat)
    requires 16 * k + n == len <= |was| && n < 16 && len < 0x100_0000
    ensures
      var stream := cipher(Counter(iv, 1 + k));
      XorBlock(Get(was, 16 * k, n, XorBlock(ZeroBlock, stream)), stream)
        == PlainBlock(Plain(cipher, iv, was, len), len, k)
  {
    var stream := cipher(Counter(iv, 1 + k));
    var b := XorBlock(Get(was, 16 * k, n, XorBlock(ZeroBlock, stream)), stream);
    forall j | 0 <= j < 16 ensures b[j] == PlainBlock(Plain(cipher, iv, was, len), len, k)[j] {
      if 15 - j < n {
        StreamAt(cipher, iv, k, 15 - j);
      } else {
        XorCancels(0, stream[j]);
      }
    }
  }

  method DecryptPayload(cipher: Cipher, data: array<byte>, len: nat, iv: Block, seed: Block)
    returns (mac: Block, ctx: Ctx)
    requires len <= data.Length && len < 0x100_0000 && iv == Counter(iv, 1)
    modifies data
    ensures data[..] == Plain(cipher, iv, old(data[..]), len)
    ensures Progress(cipher, iv, seed, data[..], len, BlockCount(len), mac, ctx)
  {
    hide CryptedUpTo, Plain;
    ghost var was := data[..];
    var coarselen := len / 16 * 16;
    mac := cipher(seed);
    ctx := Ctx(cipher, iv);
    NothingCrypted(cipher, iv, was);
    var i := 0;
    while i < coarselen
      invariant i % 16 == 0 && i <= coarselen && CryptedUpTo(cipher, iv, was, data[..], i)
      invariant Progress(cipher, iv, seed, Plain(cipher, iv, was, len), len, i / 16, mac, ctx)
    {
      mac, ctx := DecryptWhole(cipher, data, len, i / 16, iv, seed, mac, ctx, was);
      i := i + 16;
    }
    var remlen := len - coarselen;
    if remlen != 0 {
      mac, ctx := DecryptPartial(cipher, data, len, coarselen / 16, remlen, iv, seed, mac, ctx, was);
    }
    PlainIsCrypted(cipher, iv, was, data[..], len);
  }

  method DecryptWhole(cipher: Cipher, data: array<byte>, len: nat, k: nat, iv: Block, seed: Block,
                      mac: Block, ctx: Ctx, ghost was: seq<byte>) returns (mac': Block, ctx': Ctx)
    requires len <= data.Length == |was| && len < 0x100_0000 && 16 * k + 16 <= len
    requires CryptedUpTo(cipher, iv, was, data[..], 16 * k)
    requires Progress(cipher, iv, seed, Plain(cipher, iv, was, len), len, k, mac, ctx)
    modifies data
    ensures CryptedUpTo(cipher, iv, was, data[..], 16 * k + 16)
    ensures Progress(cipher, iv, seed, Plain(cipher, iv, was, len), len, k + 1, mac', ctx')
  {
    hide CryptedUpTo, Placed, Get, PlainBlock, Counter, Plain;
    ghost var mid := data[..];
    GetUntouched(cipher, iv, was, mid, k, 16, ZeroBlock);
    WholeBlockPlain(cipher, iv, was, len, k, ZeroBlock);
    Advance(cipher, iv, seed, Plain(cipher, iv, was, len), len, k, mac, ctx);
    var tmp := Xcrypt(ctx, Get(data[..], 16 * k, 16, ZeroBlock));
    ctx' := Next(ctx);
    mac' := cipher(XorBlock(mac, tmp));
    Put(data, 16 * k, 16, tmp);
    BlockCrypted(cipher, iv, was, mid, data[..], k, 16, ZeroBlock, tmp);
  }

  /** The last block has its own counter, computed from the length, and the keystream is applied twice. */
  method DecryptPartial(cipher: Cipher, data: array<byte>, len: nat, k: nat, remlen: nat, iv: Block, seed: Block,
                        mac: Block, ctx: Ctx, ghost was: seq<byte>) returns (mac': Block, ctx': Ctx)
    requires len <= data.Length == |was| && len < 0x100_0000 && 16 * k + remlen == len && 0 < remlen < 16
    requires CryptedUpTo(cipher, iv, was, data[..], 16 * k)
    requires Progress(cipher, iv, seed, Plain(cipher, iv, was, len), len, k, mac, ctx)
    modifies data
    ensures CryptedUpTo(cipher, iv, was, data[..], len)
    ensures Progress(cipher, iv, seed, Plain(cipher, iv, was, len), len, k + 1, mac', ctx')
  {
    hide CryptedUpTo, Placed, Get, PlainBlock, Counter, Plain;
    ghost var mid := data[..];
    var ivnum := k + 1;
    var start := Ctx(cipher, Counter(iv, ivnum));
    var rem := Xcrypt(start, ZeroBlock);
    ghost var fill := rem;
    GetUntouched(cipher, iv, was, mid, k, remlen, fill);
    PartialBlockPlain(cipher, iv, was, len, k, remlen);
    Advance(cipher, iv, seed, Plain(cipher, iv, was, len), len, k, mac, ctx);
    rem := Xcrypt(start, Get(data[..], 16 * k, remlen, rem));
    ctx' := Next(start);
    mac' := cipher(XorBlock(mac, rem));
    Put(data, 16 * k, remlen, rem);
    BlockCrypted(cipher, iv, was, mid, data[..], k, remlen, fill, rem);
  }

  // ----- The whole format -----

  lemma BaseIvCounts(data: seq<byte>, len: nat)
    requires |data| >= len + 0x20
    ensures BaseIv(data, len) == Counter(BaseIv(data, len), 1)
  {
  }

  /** ctx.Iv[13] = ctx.Iv[14] = ctx.Iv[15] = 0. */
  function ResetCounter(iv: Block): Block {
    iv[..13] + [0, 0, 0]
  }

  lemma ResetIsZero(iv: Block, k: nat)
    requires k < 0x100_0000
    ensures ResetCounter(Counter(iv, k)) == Counter(iv, 0)
  {
  }

  /** junk is whatever the uninitialised middle of the footer buffer holds. */
  method EsEncrypt(cipher: Cipher, data: array<byte>, len: nat, junk: Block)
    requires data.Length >= len + 0x20 && len < 0x100_0000
    modifies data
    ensures Encrypted(cipher, old(data[..]), data[..], len)
  {
    ghost var was := data[..];
    var iv := BaseIv(data[..], len);
    BaseIvCounts(data[..], len);
    var mac, ctx := EncryptPayload(cipher, data, len, iv, MacSeed(iv, len));
    ghost var afterPayload := data[..];
    ResetIsZero(iv, 1 + BlockCount(len));
    mac := Xcrypt(ctx.(iv := ResetCounter(ctx.iv)), mac);
    Put(data, len, 16, mac);
    ghost var afterTag := data[..];

    var footer := junk[15 := 0x3A][2 := len / 0x1_0000][1 := len / 0x100 % 0x100][0 := len % 0x100];
    var footerIv := FooterIv(data[..], len);
    footer := Xcrypt(Ctx(cipher, footerIv), footer);
    WriteFooter(data, len, footer);
    AssembleEncrypted(cipher, was, afterPayload, afterTag, data[..], len, mac, junk, footer);
  }

  method WriteFooter(data: array<byte>, len: nat, footer: Block)
    requires data.Length >= len + 0x20
    modifies data
    ensures data[..] ==
      old(data[..])[len + 0x10 := footer[15]][len + 0x1D := footer[2]][len + 0x1E := footer[1]][len + 0x1F := footer[0]]
  {
    data[len + 0x10] := footer[15];
    data[len + 0x1D] := footer[2];
    data[len + 0x1E] := footer[1];
    data[len + 0x1F] := footer[0];
  }

  lemma AssembleEncrypted(cipher: Cipher, was: seq<byte>, afterPayload: seq<byte>, afterTag: seq<byte>, now: seq<byte>,
                          len: nat, mac: Block, junk: Block, footer: Block)
    requires |was| >= len + 0x20 && |was| == |afterPayload| == |afterTag| == |now| && len < 0x100_0000
    requires CryptedUpTo(cipher, BaseIv(was, len), was, afterPayload, len)
    requires mac == Tag(cipher, was, len) && Placed(afterPayload, afterTag, len, 16, mac)
    requires footer == XorBlock(junk[15 := 0x3A][2 := len / 0x1_0000][1 := len / 0x100 % 0x100][0 := len % 0x100],
                                cipher(FooterIv(afterTag, len)))
    requires now ==
      afterTag[len + 0x10 := footer[15]][len + 0x1D := footer[2]][len + 0x1E := footer[1]][len + 0x1F := footer[0]]
    ensures Encrypted(cipher, was, now, len)
  {
    hide Tag;
    forall p | len + 0x10 <= p < |was| ensures afterTag[p] == was[p] { }
    NonceKeepsIv(was, afterTag, len);
    assert now[len..len + 16] == Reverse(mac);
  }

  method EsDecrypt(cipher: Cipher, data: array<byte>, len: nat) returns (ok: bool)
    requires data.Length >= len + 0x20 && len < 0x100_0000
    modifies data
    ensures Decrypted(cipher, old(data[..]), data[..], len, ok)
  {
    ghost var was := data[..];
    var iv := BaseIv(data[..], len);
    BaseIvCounts(data[..], len);
    var mac, ctx := DecryptPayload(cipher, data, len, iv, MacSeed(iv, len));
    ghost var mid := data[..];
    ResetIsZero(iv, 1 + BlockCount(len));
    mac := Xcrypt(ctx.(iv := ResetCounter(ctx.iv)), mac);

    var footerIv := FooterIv(data[..], len);
    var footer := Get(data[..], len + 0x10, 16, ZeroBlock);
    footer := Xcrypt(Ctx(cipher, footerIv), footer);
    WriteFooter(data, len, footer);
    AssembleDecrypted(cipher, was, mid, data[..], len, mac, footer);

    var b0: nat, b1: nat, b2: nat := footer[0], footer[1], footer[2];
    if b0 + 0x100 * b1 + 0x1_0000 * b2 != len { return false; }
    ok := data[len..len + 16] == Reverse(mac);
  }

  lemma AssembleDecrypted(cipher: Cipher, was: seq<byte>, mid: seq<byte>, now: seq<byte>, len: nat, mac: Block,
                          footer: Block)
    requires |was| >= len + 0x20 && |was| == |mid| == |now| && len < 0x100_0000
    requires mid == Plain(cipher, BaseIv(was, len), was, len)
    requires mac == XorBlock(MacChain(cipher, MacSeed(BaseIv(was, len), len), mid, len, BlockCount(len)),
                             cipher(Counter(BaseIv(was, len), 0)))
    requires footer == XorBlock(Get(mid, len + 0x10, 16, ZeroBlock), cipher(FooterIv(mid, len)))
    requires now ==
      mid[len + 0x10 := footer[15]][len + 0x1D := footer[2]][len + 0x1E := footer[1]][len + 0x1F := footer[0]]
    ensures mac == Tag(cipher, now, len)
    ensures StoredLength(now, len) == (footer[0] as nat) + 0x100 * (footer[1] as nat) + 0x1_0000 * (footer[2] as nat)
    ensures Decrypted(cipher, was, now, len, StoredLength(now, len) == len && now[len..len + 16] == Reverse(mac))
  {
    hide MacChain, StoredLength, Tag, FooterCrypted;
    FooterOnly(cipher, was, mid, now, len, footer);
    SameTag(cipher, was, mid, now, len, mac);
    FooterOpened(cipher, was, mid, now, len, footer);
    assert now[len..len + 16] == was[len..len + 16];
  }

  /** Writing the footer back leaves the payload and the nonce alone. */
  lemma FooterOnly(cipher: Cipher, was: seq<byte>, mid: seq<byte>, now: seq<byte>, len: nat, footer: Block)
    requires |was| >= len + 0x20 && |was| == |mid| == |now| && len < 0x100_0000
    requires mid == Plain(cipher, BaseIv(was, len), was, len)
    requires now ==
      mid[len + 0x10 := footer[15]][len + 0x1D := footer[2]][len + 0x1E := footer[1]][len + 0x1F := footer[0]]
    ensures SameNonce(was, mid, len) && SameNonce(was, now, len) && now[..len] == mid[..len]
    ensures PayloadCrypted(cipher, BaseIv(was, len), was, now, len)
    ensures forall p :: len <= p < |was| ==> mid[p] == was[p]
  {
  }

  lemma SameTag(cipher: Cipher, was: seq<byte>, mid: seq<byte>, now: seq<byte>, len: nat, mac: Block)
    requires |was| >= len + 0x20 && |was| == |mid| == |now| && len < 0x100_0000
    requires SameNonce(was, now, len) && now[..len] == mid[..len]
    requires mac == XorBlock(MacChain(cipher, MacSeed(BaseIv(was, len), len), mid, len, BlockCount(len)),
                             cipher(Counter(BaseIv(was, len), 0)))
    ensures mac == Tag(cipher, now, len)
  {
    hide MacChain;
    NonceKeepsIv(was, now, len);
    SamePayloadSameMac(cipher, MacSeed(BaseIv(was, len), len), mid, now, len, BlockCount(len));
  }

  lemma FooterOpened(cipher: Cipher, was: seq<byte>, mid: seq<byte>, now: seq<byte>, len: nat, footer: Block)
    requires |was| >= len + 0x20 && |was| == |mid| == |now|
    requires SameNonce(was, mid, len) && (forall p :: len <= p < |was| ==> mid[p] == was[p])
    requires footer == XorBlock(Get(mid, len + 0x10, 16, ZeroBlock), cipher(FooterIv(mid, len)))
    requires now ==
      mid[len + 0x10 := footer[15]][len + 0x1D := footer[2]][len + 0x1E := footer[1]][len + 0x1F := footer[0]]
    ensures FooterCrypted(cipher, was, was[len + 0x10], was[len + 0x1D], was[len + 0x1E], was[len + 0x1F], now, len)
    ensures StoredLength(now, len) == (footer[0] as nat) + 0x100 * (footer[1] as nat) + 0x1_0000 * (footer[2] as nat)
  {
    NonceKeepsIv(was, mid, len);
  }

  /** Sealing a buffer and opening it again, in place. */
  method SealAndOpen(cipher: Cipher, data: array<byte>, len: nat, junk: Block) returns (ok: bool)
    requires data.Length >= len + 0x20 && len < 0x100_0000
    modifies data
    ensures ok && data[..len] == old(data[..len])
  {
    ghost var plain := data[..];
    EsEncrypt(cipher, data, len, junk);
    ghost var sealed := data[..];
    ok := EsDecrypt(cipher, data, len);
    EncryptThenDecrypt(cipher, plain, sealed, data[..], len, ok);
    assert data[..len] == data[..][..len] && old(data[..len]) == plain[..len];
  }
}
