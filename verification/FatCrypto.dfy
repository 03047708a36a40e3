/**
  The encrypted FAT partition of the DSi NAND.  The keystream depends on the position alone: the
  counter for byte p is the image's initial counter plus p / 16 (NIST SP 800-38A, section 6.5).
  Every call rebuilds the counter from the address, so all ways of cutting an access into calls agree.
 */
module FatCrypto {
  import opened Arithmetic
  import opened Crypto

  // ----- SetupFATCrypto -----

  lemma {:induction false} ValueCons(b: byte, s: seq<byte>)
    ensures Value([b] + s) == b * Size(|s|) + Value(s)
    decreases |s|
  {
    if s == [] {
      assert [b] + s == [b] && [b][..0] == [];
    } else {
      var n := |s| - 1;
      ValueCons(b, s[..n]);
      assert ([b] + s)[..|s|] == [b] + s[..n];
      assert b * Size(|s|) == 256 * (b * Size(n));
    }
  }

  /** The counter number as sixteen big-endian bytes, as SetupFATCrypto lays it out. */
  function CounterBytes(ctr: nat): Block
    requires ctr < 0x1_0000_0000
  {
    seq(12, _ => 0) + [ctr / 0x100_0000, ctr / 0x1_0000 % 0x100, ctr / 0x100 % 0x100, ctr % 0x100]
  }

  lemma {:induction false} ValueZeros(n: nat)
    ensures Value(seq(n, _ => 0)) == 0
  {
    if n > 0 {
      ValueZeros(n - 1);
      var zeros: seq<byte> := seq(n, _ => 0);
      assert zeros[..n - 1] == seq(n - 1, _ => 0);
    }
  }

  lemma CounterBytesValue(ctr: nat)
    requires ctr < 0x1_0000_0000
    ensures Value(CounterBytes(ctr)) == ctr
  {
    hide Value;
    var z: seq<byte> := seq(12, _ => 0);
    var a, b, c, d := ctr / 0x100_0000, ctr / 0x1_0000 % 0x100, ctr / 0x100 % 0x100, ctr % 0x100;
    assert CounterBytes(ctr) == z + [a] + [b] + [c] + [d];
    ValueZeros(12);
    ValueSnoc(z, a);
    ValueSnoc(z + [a], b);
    ValueSnoc(z + [a] + [b], c);
    ValueSnoc(z + [a] + [b] + [c], d);
    BytesOf(ctr);
  }

  lemma BytesOf(n: nat)
    ensures n == 256 * (256 * (256 * (n / 0x100_0000) + n / 0x1_0000 % 0x100) + n / 0x100 % 0x100) + n % 0x100
  {
    assert n / 0x100 / 0x100 == n / 0x1_0000 && n / 0x1_0000 / 0x100 == n / 0x100_0000;
  }

  /** The schoolbook addition of SetupFATCrypto, carry and all, is the initial counter stepped ctr times. */
  method SetupFATCrypto(fatIv: Block, ctr: nat) returns (iv: Block)
    requires ctr < 0x1_0000_0000
    ensures iv == BumpTimes(fatIv, ctr)
  {
    hide Size, Value;
    var ctrValue := CounterBytes(ctr);
    iv := fatIv;
    var carry: nat, i := 0, 0;
    assert iv[16..] == [] && fatIv[16..] == [] && ctrValue[16..] == [];
    AddStart();
    while i < 16
      invariant i <= 16 && carry <= 1
      invariant iv[..16 - i] == fatIv[..16 - i]
      invariant Added(iv[16 - i..], carry, fatIv[16 - i..], ctrValue[16 - i..])
    {
      var j := 15 - i;
      var p: nat, q: nat := iv[j], ctrValue[j];
      assert iv[j] == fatIv[..16 - i][j];
      var x := p + q + carry;
      AddStep(iv[j + 1..], carry, fatIv[j + 1..], ctrValue[j + 1..], p, q);
      assert fatIv[j..] == [p] + fatIv[j + 1..] && ctrValue[j..] == [q] + ctrValue[j + 1..];
      carry := if x >= 0x100 then 1 else 0;
      ghost var rest := iv[j + 1..];
      iv := iv[j := x % 0x100];
      assert iv[j..] == [x % 0x100] + rest;
      i := i + 1;
    }
    assert iv[0..] == iv && fatIv[0..] == fatIv && ctrValue[0..] == ctrValue;
    SumIsSteps(iv, carry, fatIv, ctr);
  }

  ghost predicate Added(sum: seq<byte>, carry: nat, a: seq<byte>, b: seq<byte>) {
    && |sum| == |a| == |b|
    && Value(sum) + carry * Size(|sum|) == Value(a) + Value(b)
  }

  lemma AddStart()
    ensures Added([], 0, [], [])
  {
  }

  lemma AddStep(sum: seq<byte>, carry: nat, a: seq<byte>, b: seq<byte>, p: byte, q: byte)
    requires Added(sum, carry, a, b) && carry <= 1
    ensures
      var x: nat := (p as nat) + q + carry;
      Added([x % 0x100] + sum, if x >= 0x100 then 1 else 0, [p] + a, [q] + b)
  {
    hide Size, Value;
    var u: nat, v: nat := p, q;
    var x: nat := u + v + carry;
    var m, c := Size(|sum|), if x >= 0x100 then 1 else 0;
    var low: byte := x % 0x100;
    ValueCons(p, a);
    ValueCons(q, b);
    ValueCons(low, sum);
    var l: nat := low;
    assert x == l + 0x100 * c;
    SizeStep(|sum|);
    CarryArithmetic(u, v, carry, l, c, m, Value(sum), Value(a), Value(b));
  }

  lemma SizeStep(n: nat)
    ensures Size(n + 1) == 0x100 * Size(n)
  {
  }

  lemma CarryArithmetic(p: nat, q: nat, carry: nat, low: nat, c: nat, m: nat, s: nat, a: nat, b: nat)
    requires p + q + carry == low + 0x100 * c && s + carry * m == a + b
    ensures low * m + s + c * (0x100 * m) == p * m + a + (q * m + b)
  {
    assert (p + q + carry) * m == p * m + q * m + carry * m;
    assert (low + 0x100 * c) * m == low * m + c * (0x100 * m);
  }

  lemma SumIsSteps(iv: Block, carry: nat, fatIv: Block, ctr: nat)
    requires ctr < 0x1_0000_0000 && Added(iv, carry, fatIv, CounterBytes(ctr))
    ensures iv == BumpTimes(fatIv, ctr)
  {
    hide Size;
    CounterBytesValue(ctr);
    BumpTimesAdds(fatIv, ctr);
    ValueBound(iv);
    ModUnique(Value(fatIv) + ctr, Size(16), carry, Value(iv));
    ValueInjective(iv, BumpTimes(fatIv, ctr));
  }

  /** The number of the first counter is cut to 32 bits, so the rebuilt counter is the one for the
      address exactly when the address is below 2^36. */
  lemma RightCounterIffSmallAddress(fatIv: Block, addr: nat)
    requires addr < 0x1_0000_0000_0000_0000
    ensures BumpTimes(fatIv, addr / 16 % 0x1_0000_0000) == BumpTimes(fatIv, addr / 16) <==> addr < 0x10_0000_0000
  {
    var n := addr / 16;
    var r := n % 0x1_0000_0000;
    if addr >= 0x10_0000_0000 {
      BumpTimesAdds(fatIv, n);
      BumpTimesAdds(fatIv, r);
      BigSize();
      DifferentResidues(Value(fatIv) + r, n - r, Size(16));
    }
  }

  lemma BigSize()
    ensures Size(16) > 0x1_0000_0000_0000_0000
  {
    assert Size(4) == 0x1_0000_0000;
    SizeProduct(4, 4);
    SizeProduct(8, 8);
  }

  lemma {:induction false} SizeProduct(m: nat, n: nat)
    ensures Size(m + n) == Size(m) * Size(n)
    decreases n
  {
    if n > 0 { SizeProduct(m, n - 1); }
  }

  lemma DifferentResidues(a: nat, d: nat, m: nat)
    requires 0 < d < m
    ensures (a + d) % m != a % m
  {
    var k := (a + d) / m - a / m;
    assert (a + d) % m == a % m ==> k * m == d;
    if k * m == d { SmallMultiple(k, m); }
  }

  // ----- Sectors -----

  /** The keystream byte of position p. */
  function Stream(cipher: Cipher, fatIv: Block, p: nat): byte {
    cipher(BumpTimes(fatIv, p / 16))[15 - p % 16]
  }

  function Max(a: nat, b: nat): nat { if a < b then b else a }

  /** The file after bytes are written at a position; a gap reads as zeros. */
  function Patch(file: seq<byte>, at: nat, bytes: seq<byte>): (r: seq<byte>)
    ensures |r| == Max(|file|, if bytes == [] then 0 else at + |bytes|)
  {
    seq(Max(|file|, if bytes == [] then 0 else at + |bytes|), p requires 0 <= p =>
      if at <= p < at + |bytes| then bytes[p - at] else if p < |file| then file[p] else 0)
  }

  predicate OnBlock(a: nat) {
    a % 16 == 0
  }

  /** The counter block for the position a. */
  function IvAt(fatIv: Block, a: nat): Block {
    BumpTimes(fatIv, a / 16)
  }

  lemma FirstChunk(fatIv: Block, addr: nat)
    requires addr % 16 == 0 && addr < 0x10_0000_0000
    ensures OnBlock(addr) && IvAt(fatIv, addr) == BumpTimes(fatIv, addr / 16 % 0x1_0000_0000)
  {
    hide BumpTimes;
  }

  class NandImage {
    const cipher: Cipher      // AES under FATKey
    const fatIv: Block
    var file: seq<byte>

    constructor (cipher: Cipher, fatIv: Block, file: seq<byte>)
      ensures this.cipher == cipher && this.fatIv == fatIv && this.file == file
    {
      this.cipher, this.fatIv, this.file := cipher, fatIv, file;
    }

    /** What the guest sees at position p of the partition's device. */
    ghost function Plain(p: nat): byte
      reads this
      requires p < |file|
    {
      Xor(file[p], Stream(cipher, fatIv, p))
    }

    /** Reads 0 when the file is too short; otherwise the plain bytes of the range. */
    method ReadFATBlock(addr: nat, len: nat, buf: array<byte>) returns (n: nat)
      requires addr % 16 == 0 && len % 16 == 0 && addr < 0x10_0000_0000 && buf.Length >= len
      modifies buf
      ensures n == if addr + len <= |file| then len else 0
      ensures n == len ==> forall k :: 0 <= k < len ==> buf[k] == Plain(addr + k)
    {
      var iv := SetupFATCrypto(fatIv, addr / 16 % 0x1_0000_0000);
      var ctx := Ctx(cipher, iv);
      if addr + len > |file| { return 0; }
      forall k | 0 <= k < len { buf[k] := file[addr + k]; }
      FirstChunk(fatIv, addr);
      XcryptBuffer(ctx, fatIv, addr, len, buf);
      CryptedAt(cipher, fatIv, addr, file[addr..addr + len], buf[..len]);
      n := len;
    }

    /** The loop body of WriteFATBlock: one chunk is encrypted and written. */
    method WriteChunk(ctx: Ctx, addr: nat, s: nat, buf: seq<byte>, ghost was: seq<byte>, ghost sealed: seq<byte>)
      returns (ctx': Ctx, ghost sealed': seq<byte>)
      requires s + 0x200 <= |buf| && OnBlock(addr + s) && ctx == Ctx(cipher, IvAt(fatIv, addr + s))
      requires Crypted(cipher, fatIv, addr, buf[..s], sealed) && file == Patch(was, addr, sealed)
      modifies this
      ensures OnBlock(addr + (s + 0x200)) && ctx' == Ctx(cipher, IvAt(fatIv, addr + (s + 0x200)))
      ensures Crypted(cipher, fatIv, addr, buf[..s + 0x200], sealed') && file == Patch(was, addr, sealed')
    {
      hide Crypted, Patch, Bump, Next, Xor, Stream, BumpTimes, OnBlock, IvAt;
      var chunk;
      chunk, ctx' := SealChunk(ctx, fatIv, addr + s, buf[s..s + 0x200]);
      ChunkDone(cipher, fatIv, addr, s, buf, was, sealed, chunk);
      assert addr + s + 0x200 == addr + (s + 0x200);
      file := Patch(file, addr + s, chunk);
      sealed' := sealed + chunk;
    }

    /** Encrypts and writes 0x200-byte chunks, carrying the counter from one to the next. */
    method WriteFATBlock(addr: nat, len: nat, buf: seq<byte>) returns (n: nat)
      requires addr % 16 == 0 && len % 0x200 == 0 && addr < 0x10_0000_0000 && |buf| == len
      modifies this
      ensures n == len && |file| == Max(|old(file)|, if len == 0 then 0 else addr + len)
      ensures forall k :: 0 <= k < len ==> Plain(addr + k) == buf[k]
      ensures forall p :: 0 <= p < |old(file)| && !(addr <= p < addr + len) ==>
        file[p] == old(file)[p] && Plain(p) == old(Plain(p))
    {
      FirstChunk(fatIv, addr);
      ghost var i, chunks := 0, len / 0x200;
      assert len == 0x200 * chunks;
      var iv := SetupFATCrypto(fatIv, addr / 16 % 0x1_0000_0000);
      hide Crypted, Patch, Bump, Next, Xor, Stream, BumpTimes, OnBlock, IvAt;
      var ctx := Ctx(cipher, iv);
      ghost var sealed: seq<byte> := [];
      CryptedNone(cipher, fatIv, addr);
      PatchNothing(file, addr);
      var s := 0;
      while s < len
        invariant s == 0x200 * i && i <= chunks && OnBlock(addr + s) && ctx == Ctx(cipher, IvAt(fatIv, addr + s))
        invariant Crypted(cipher, fatIv, addr, buf[..s], sealed) && file == Patch(old(file), addr, sealed)
      {
        ctx, sealed := WriteChunk(ctx, addr, s, buf, old(file), sealed);
        s, i := s + 0x200, i + 1;
      }
      n := len;
      assert buf[..len] == buf;
      PatchAt(old(file), addr, sealed);
      PatchedPlain(cipher, fatIv, old(file), addr, buf, sealed);
    }
  }

  /** One more chunk of the buffer is sealed and in the file. */
  lemma ChunkDone(cipher: Cipher, fatIv: Block, addr: nat, s: nat, buf: seq<byte>, was: seq<byte>, sealed: seq<byte>,
                  chunk: seq<byte>)
    requires s + 0x200 <= |buf| && Crypted(cipher, fatIv, addr, buf[..s], sealed)
    requires Crypted(cipher, fatIv, addr + s, buf[s..s + 0x200], chunk)
    ensures Crypted(cipher, fatIv, addr, buf[..s + 0x200], sealed + chunk)
    ensures Patch(Patch(was, addr, sealed), addr + s, chunk) == Patch(was, addr, sealed + chunk)
  {
    CryptedAt(cipher, fatIv, addr, buf[..s], sealed);
    CryptedAt(cipher, fatIv, addr + s, buf[s..s + 0x200], chunk);
    hide Crypted, Patch, Xor, Stream;
    PatchMore(was, addr, sealed, chunk);
    CryptedAppend(cipher, fatIv, addr, buf[..s], sealed, buf[s..s + 0x200], chunk);
    assert buf[..s + 0x200] == buf[..s] + buf[s..s + 0x200];
  }

  /** Patched-in bytes read back in the clear. */
  lemma PatchedPlain(cipher: Cipher, fatIv: Block, file: seq<byte>, addr: nat, buf: seq<byte>, sealed: seq<byte>)
    requires Crypted(cipher, fatIv, addr, buf, sealed)
    ensures |sealed| == |buf| && |Patch(file, addr, sealed)| >= if buf == [] then 0 else addr + |buf|
    ensures forall k :: 0 <= k < |buf| ==>
      Xor(Patch(file, addr, sealed)[addr + k], Stream(cipher, fatIv, addr + k)) == buf[k]
  {
    hide Xor, Stream, Patch;
    CryptedAt(cipher, fatIv, addr, buf, sealed);
    PatchAt(file, addr, sealed);
    forall k | 0 <= k < |buf|
      ensures Xor(Patch(file, addr, sealed)[addr + k], Stream(cipher, fatIv, addr + k)) == buf[k]
    {
      XorCancels(buf[k], Stream(cipher, fatIv, addr + k));
    }
  }

  lemma PatchAt(file: seq<byte>, at: nat, bytes: seq<byte>)
    ensures forall k :: 0 <= k < |bytes| ==>
      at + k < |Patch(file, at, bytes)| && Patch(file, at, bytes)[at + k] == bytes[k]
    ensures forall p :: 0 <= p < |file| && !(at <= p < at + |bytes|) ==> Patch(file, at, bytes)[p] == file[p]
  {
    var patched := Patch(file, at, bytes);
    forall k | 0 <= k < |bytes| ensures at + k < |patched| && patched[at + k] == bytes[k] {
      assert at + k < |patched|;
    }
  }

  method PutSixteen(buf: array<byte>, at: nat, b: Block)
    requires at + 16 <= buf.Length
    modifies buf
    ensures forall p :: 0 <= p < buf.Length ==> buf[p] == if at <= p < at + 16 then b[p - at] else old(buf[p])
  {
    forall j | 0 <= j < 16 { buf[at + j] := b[j]; }
  }

  /** The bytes went through the keystream of the positions from base on. */
  ghost predicate Crypted(cipher: Cipher, fatIv: Block, base: nat, from: seq<byte>, to: seq<byte>) {
    && |to| == |from|
    && forall k :: 0 <= k < |from| ==> to[k] == Xor(from[k], Stream(cipher, fatIv, base + k))
  }

  lemma CryptedNone(cipher: Cipher, fatIv: Block, base: nat)
    ensures Crypted(cipher, fatIv, base, [], [])
  {
  }

  lemma CryptedAt(cipher: Cipher, fatIv: Block, base: nat, from: seq<byte>, to: seq<byte>)
    requires Crypted(cipher, fatIv, base, from, to)
    ensures |to| == |from| && forall k :: 0 <= k < |from| ==> to[k] == Xor(from[k], Stream(cipher, fatIv, base + k))
  {
  }

  lemma CryptedAppend(cipher: Cipher, fatIv: Block, base: nat, a: seq<byte>, a': seq<byte>, b: seq<byte>, b': seq<byte>)
    requires Crypted(cipher, fatIv, base, a, a') && Crypted(cipher, fatIv, base + |a|, b, b')
    ensures Crypted(cipher, fatIv, base, a + b, a' + b')
  {
    hide Stream;
    forall k | 0 <= k < |a + b| ensures (a' + b')[k] == Xor((a + b)[k], Stream(cipher, fatIv, base + k)) {
      if k >= |a| {
        var j := k - |a|;
        assert b'[j] == Xor(b[j], Stream(cipher, fatIv, base + |a| + j));
      }
    }
  }

  /** Bswap128, one keystream block, Bswap128. */
  function CryptSixteen(ctx: Ctx, b: Block): Block {
    Reverse(Xcrypt(ctx, Reverse(b)))
  }

  lemma SixteenOf(ctx: Ctx, fatIv: Block, base: nat, b: Block)
    requires OnBlock(base) && ctx.iv == IvAt(fatIv, base)
    ensures Crypted(ctx.cipher, fatIv, base, b, CryptSixteen(ctx, b))
  {
    forall j | 0 <= j < 16 ensures CryptSixteen(ctx, b)[j] == Xor(b[j], Stream(ctx.cipher, fatIv, base + j)) {
      assert (base + j) / 16 == base / 16 && (base + j) % 16 == j;
    }
  }

  /** The loop of ReadFATBlock over a buffer. */
  method XcryptBuffer(ctx: Ctx, ghost fatIv: Block, ghost base: nat, len: nat, buf: array<byte>)
    requires len % 16 == 0 && len <= buf.Length && OnBlock(base) && ctx.iv == IvAt(fatIv, base)
    modifies buf
    ensures Crypted(ctx.cipher, fatIv, base, old(buf[..len]), buf[..len])
  {
    hide Crypted, CryptSixteen, Bump, BumpTimes, Next, OnBlock, IvAt;
    ghost var raw := buf[..len];
    var ctx' := ctx;
    CryptedNone(ctx.cipher, fatIv, base);
    var i := 0;
    while i < len
      invariant i % 16 == 0 && i <= len
      invariant ctx'.cipher == ctx.cipher && OnBlock(base + i) && ctx'.iv == IvAt(fatIv, base + i)
      invariant Crypted(ctx.cipher, fatIv, base, raw[..i], buf[..i])
      invariant forall k :: i <= k < len ==> buf[k] == raw[k]
    {
      ghost var done := buf[..i];
      var b := buf[i..i + 16];
      assert b == raw[i..i + 16];
      var tmp := CryptSixteen(ctx', b);
      SixteenOf(ctx', fatIv, base + i, b);
      CryptedAppend(ctx.cipher, fatIv, base, raw[..i], done, b, tmp);
      NextCounter(ctx', fatIv, base + i);
      ctx' := Next(ctx');
      PutSixteen(buf, i, tmp);
      assert buf[..i + 16] == done + tmp && raw[..i + 16] == raw[..i] + b;
      i := i + 16;
    }
    assert raw[..len] == raw;
  }

  method SealChunk(ctx: Ctx, ghost fatIv: Block, ghost base: nat, buf: seq<byte>) returns (chunk: seq<byte>, ctx': Ctx)
    requires |buf| == 0x200 && OnBlock(base) && ctx.iv == IvAt(fatIv, base)
    ensures |chunk| == 0x200 && OnBlock(base + 0x200) && ctx' == Ctx(ctx.cipher, IvAt(fatIv, base + 0x200))
    ensures Crypted(ctx.cipher, fatIv, base, buf, chunk)
  {
    hide Crypted, CryptSixteen, Bump, BumpTimes, Next, OnBlock, IvAt;
    chunk, ctx' := [], ctx;
    CryptedNone(ctx.cipher, fatIv, base);
    var i := 0;
    while i < 0x200
      invariant i % 16 == 0 && i <= 0x200 && |chunk| == i
      invariant ctx'.cipher == ctx.cipher && OnBlock(base + i) && ctx'.iv == IvAt(fatIv, base + i)
      invariant Crypted(ctx.cipher, fatIv, base, buf[..i], chunk)
    {
      SixteenOf(ctx', fatIv, base + i, buf[i..i + 16]);
      CryptedAppend(ctx.cipher, fatIv, base, buf[..i], chunk, buf[i..i + 16], CryptSixteen(ctx', buf[i..i + 16]));
      assert buf[..i + 16] == buf[..i] + buf[i..i + 16];
      NextCounter(ctx', fatIv, base + i);
      chunk := chunk + CryptSixteen(ctx', buf[i..i + 16]);
      ctx' := Next(ctx');
      i := i + 16;
    }
    assert buf[..0x200] == buf;
  }

  lemma NextCounter(ctx: Ctx, fatIv: Block, base: nat)
    requires OnBlock(base) && ctx.iv == IvAt(fatIv, base)
    ensures OnBlock(base + 16) && Next(ctx) == Ctx(ctx.cipher, IvAt(fatIv, base + 16))
  {
    CounterOf(fatIv, base);
  }

  lemma PatchNothing(file: seq<byte>, at: nat)
    ensures Patch(file, at, []) == file
  {
  }

  lemma PatchMore(file: seq<byte>, at: nat, a: seq<byte>, b: seq<byte>)
    requires b != []
    ensures Patch(Patch(file, at, a), at + |a|, b) == Patch(file, at, a + b)
  {
  }

  lemma CounterOf(fatIv: Block, base: nat)
    requires base % 16 == 0
    ensures BumpTimes(fatIv, (base + 16) / 16) == BumpBlock(BumpTimes(fatIv, base / 16))
  {
  }
}
