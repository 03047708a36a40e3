/**
  Bytes, blocks and counters shared by the AES engine and the NAND code.  AES itself is an
  uninterpreted function on blocks; everything around it is spelled out.
 */
module Crypto {
  import opened Arithmetic

  type byte = x: nat | x < 256

  type Block = b: seq<byte> | |b| == 16 witness seq(16, _ => 0)

  /** AES under some key. */
  type Cipher = Block -> Block

  // ----- Exclusive or -----

  function XorNat(a: nat, b: nat): nat
    decreases a + b
  {
    if a == 0 then b else if b == 0 then a
    else (if a % 2 != b % 2 then 1 else 0) + 2 * XorNat(a / 2, b / 2)
  }

  lemma {:induction false} XorNatBound(a: nat, b: nat, n: nat)
    requires a < Pow2(n) && b < Pow2(n)
    ensures XorNat(a, b) < Pow2(n)
    decreases n
  {
    if n > 0 { XorNatBound(a / 2, b / 2, n - 1); }
  }

  lemma {:induction false} XorNatSelf(a: nat)
    ensures XorNat(a, a) == 0
  {
    if a > 0 { XorNatSelf(a / 2); }
  }

  lemma {:induction false} XorNatCancels(a: nat, b: nat)
    ensures XorNat(XorNat(a, b), b) == a
    decreases a + b
  {
    if a == 0 {
      XorNatSelf(b);
    } else if b != 0 {
      var x := XorNat(a / 2, b / 2);
      XorNatCancels(a / 2, b / 2);
      var y := XorNat(a, b);
      assert y / 2 == x && y % 2 == if a % 2 != b % 2 then 1 else 0;
      if y == 0 {
        assert x == 0;
        XorNatZeroMeansEqual(a / 2, b / 2);
      }
    }
  }

  lemma {:induction false} XorNatZeroMeansEqual(a: nat, b: nat)
    requires XorNat(a, b) == 0
    ensures a == b
    decreases a + b
  {
    if a != 0 && b != 0 { XorNatZeroMeansEqual(a / 2, b / 2); }
  }

  /** Bit i of a number. */
  function Bit(a: nat, i: nat): bool {
    if i == 0 then a % 2 == 1 else Bit(a / 2, i - 1)
  }

  lemma {:induction false} ZeroBits(i: nat)
    ensures !Bit(0, i)
  {
    if i > 0 { ZeroBits(i - 1); }
  }

  /** Exclusive or, bit by bit. */
  lemma {:induction false} XorNatBits(a: nat, b: nat, i: nat)
    ensures Bit(XorNat(a, b), i) <==> Bit(a, i) != Bit(b, i)
    decreases i
  {
    ZeroBits(i);
    if a != 0 && b != 0 {
      var x := XorNat(a, b);
      assert x % 2 == (if a % 2 != b % 2 then 1 else 0) && x / 2 == XorNat(a / 2, b / 2);
      if i > 0 { XorNatBits(a / 2, b / 2, i - 1); }
    }
  }

  function Xor(a: byte, b: byte): byte {
    XorByteBound(a, b);
    XorNat(a, b)
  }

  lemma XorByteBound(a: byte, b: byte)
    ensures XorNat(a, b) < 256
  {
    assert Pow2(8) == 256 by { assert Pow2(4) == 16; }
    XorNatBound(a, b, 8);
  }

  lemma XorCancels(a: byte, b: byte)
    ensures Xor(Xor(a, b), b) == a
    ensures Xor(a, 0) == a && Xor(0, a) == a
  {
    XorNatCancels(a, b);
  }

  function XorBlock(a: Block, b: Block): Block {
    seq(16, i requires 0 <= i < 16 => Xor(a[i], b[i]))
  }

  lemma XorBlockCancels(a: Block, b: Block)
    ensures XorBlock(XorBlock(a, b), b) == a
  {
    forall i | 0 <= i < 16 ensures XorBlock(XorBlock(a, b), b)[i] == a[i] {
      XorCancels(a[i], b[i]);
    }
  }

  /** Bswap128. */
  function Reverse(b: Block): Block {
    seq(16, i requires 0 <= i < 16 => b[15 - i])
  }

  lemma ReverseTwice(b: Block)
    ensures Reverse(Reverse(b)) == b
  {
  }

  // ----- Counters -----

  /** The big-endian value of a byte string. */
  function Value(s: seq<byte>): nat {
    if s == [] then 0 else Value(s[..|s| - 1]) * 256 + s[|s| - 1]
  }

  lemma {:induction false} ValueBound(s: seq<byte>)
    ensures Value(s) < Size(|s|)
    decreases |s|
  {
    if s != [] { ValueBound(s[..|s| - 1]); }
  }

  lemma ValueLast(s: seq<byte>)
    requires s != []
    ensures Value(s) % 256 == s[|s| - 1] && Value(s) / 256 == Value(s[..|s| - 1])
  {
    ModUnique(Value(s), 256, Value(s[..|s| - 1]), s[|s| - 1]);
  }

  lemma {:induction false} ValueInjective(s: seq<byte>, t: seq<byte>)
    requires |s| == |t| && Value(s) == Value(t)
    ensures s == t
    decreases |s|
  {
    if s != [] {
      var n := |s| - 1;
      ValueLast(s);
      ValueLast(t);
      ValueInjective(s[..n], t[..n]);
      assert s == s[..n] + [s[n]] && t == t[..n] + [t[n]];
    }
  }

  /** One step of the counter in CTR mode: the last byte that is not 255 grows, all bytes after it
      become zero. */
  function Bump(s: seq<byte>): (t: seq<byte>)
    ensures |t| == |s|
    decreases |s|
  {
    if s == [] then []
    else
      var n := |s| - 1;
      if s[n] == 255 then Bump(s[..n]) + [0] else s[..n] + [s[n] + 1]
  }

  lemma ValueSnoc(s: seq<byte>, b: byte)
    ensures Value(s + [b]) == 256 * Value(s) + b
  {
    assert (s + [b])[..|s|] == s;
  }

  /** Bump is addition of one modulo the size of the counter. */
  lemma {:induction false} BumpAddsOne(s: seq<byte>)
    ensures Value(Bump(s)) == (Value(s) + 1) % Size(|s|)
    decreases |s|
  {
    if s != [] {
      var n := |s| - 1;
      var head, b := s[..n], s[n];
      assert s == head + [b];
      ValueSnoc(head, b);
      ValueBound(head);
      if b == 255 {
        BumpAddsOne(head);
        ValueSnoc(Bump(head), 0);
        ModScale(Value(head) + 1, Size(n));
      } else {
        ValueSnoc(head, b + 1);
        assert 256 * Value(head) + b + 1 < 256 * Size(n);
        ModSmall(Value(s) + 1, 256 * Size(n));
      }
    }
  }

  lemma ModScale(a: nat, m: nat)
    requires m > 0
    ensures (256 * a) % (256 * m) == 256 * (a % m)
  {
    var q, r := a / m, a % m;
    assert 256 * a == (256 * m) * q + 256 * r by { assert a == m * q + r; }
    ModUnique(256 * a, 256 * m, q, 256 * r);
  }

  /** The increment loop of AES_CTR_xcrypt_buffer. */
  method Increment(iv: array<byte>)
    requires iv.Length == 16
    modifies iv
    ensures iv[..] == Bump(old(iv[..]))
  {
    ghost var was := iv[..];
    var bi := 15;
    assert was[..16] == was && iv[16..] == [];
    while bi >= 0
      invariant -1 <= bi <= 15
      invariant iv[..bi + 1] == was[..bi + 1]
      invariant Bump(was) == Bump(was[..bi + 1]) + iv[bi + 1..]
    {
      assert was[..bi + 1][..bi] == was[..bi];
      if iv[bi] == 255 {
        iv[bi] := 0;
        assert iv[bi..] == [0] + iv[bi + 1..];
        bi := bi - 1;
      } else {
        ghost var rest := iv[bi + 1..];
        iv[bi] := iv[bi] + 1;
        assert iv[..] == was[..bi] + [iv[bi]] + rest;
        assert Bump(was[..bi + 1]) == was[..bi] + [iv[bi]];
        return;
      }
    }
    assert iv[..] == iv[0..];
  }

  function BumpBlock(iv: Block): Block {
    Bump(iv)
  }

  /** The counter after k steps. */
  function BumpTimes(iv: Block, k: nat): Block {
    if k == 0 then iv else BumpBlock(BumpTimes(iv, k - 1))
  }

  lemma {:induction false} BumpTimesAdds(iv: Block, k: nat)
    ensures Value(BumpTimes(iv, k)) == (Value(iv) + k) % Size(16)
  {
    hide Size;
    ValueBound(iv);
    if k == 0 {
      ModSmall(Value(iv), Size(16));
    } else {
      BumpTimesAdds(iv, k - 1);
      BumpAddsOne(BumpTimes(iv, k - 1));
      ModAdd(Value(iv) + k - 1, 1, Size(16));
    }
  }

  lemma ModSmall(a: nat, m: nat)
    requires a < m
    ensures a % m == a
  {
  }

  lemma ModAdd(a: nat, b: nat, m: nat)
    requires m > 0
    ensures (a % m + b) % m == (a + b) % m
  {
    var q := a / m;
    var r := a % m + b;
    assert a + b == m * q + r;
    assert a + b == m * (q + r / m) + r % m by {
      assert r == m * (r / m) + r % m;
      assert m * (q + r / m) == m * q + m * (r / m);
    }
    ModUnique(a + b, m, q + r / m, r % m);
  }

  lemma {:induction false} BumpTimesCompose(iv: Block, j: nat, k: nat)
    ensures BumpTimes(BumpTimes(iv, j), k) == BumpTimes(iv, j + k)
    decreases k
  {
    if k > 0 { BumpTimesCompose(iv, j, k - 1); }
  }

  // ----- CTR mode -----

  /** Running state of AES_CTR_xcrypt_buffer on whole blocks. */
  datatype Ctx = Ctx(cipher: Cipher, iv: Block)

  function Xcrypt(ctx: Ctx, b: Block): Block {
    XorBlock(b, ctx.cipher(ctx.iv))
  }

  function Next(ctx: Ctx): Ctx {
    ctx.(iv := BumpBlock(ctx.iv))
  }

  /** A counter block with a 24-bit counter in its last three bytes. */
  function Counter(iv: Block, k: nat): Block
    requires k < 0x100_0000
  {
    iv[..13] + [k / 0x1_0000, k / 0x100 % 0x100, k % 0x100]
  }

  lemma CounterBump(iv: Block, k: nat)
    requires k + 1 < 0x100_0000
    ensures BumpBlock(Counter(iv, k)) == Counter(iv, k + 1)
  {
    var a, b, d := k / 0x1_0000, k / 0x100 % 0x100, k % 0x100;
    Digits(k);
    var p := iv[..13];
    assert Counter(iv, k) == p + [a] + [b] + [d];
    if d != 255 {
      BumpSnoc(p + [a] + [b], d);
      assert Counter(iv, k + 1) == p + [a] + [b] + [d + 1];
    } else if b != 255 {
      BumpSnoc(p + [a] + [b], d);
      BumpSnoc(p + [a], b);
      assert Counter(iv, k + 1) == p + [a] + [b + 1] + [0];
    } else {
      BumpSnoc(p + [a] + [b], d);
      BumpSnoc(p + [a], b);
      BumpSnoc(p, a);
      assert Counter(iv, k + 1) == p + [a + 1] + [0] + [0];
    }
  }

  lemma BumpSnoc(s: seq<byte>, b: byte)
    ensures Bump(s + [b]) == if b == 255 then Bump(s) + [0] else s + [b + 1]
  {
    assert (s + [b])[..|s|] == s;
  }

  /** How the three counter bytes change when the counter grows by one. */
  lemma Digits(k: nat)
    requires k + 1 < 0x100_0000
    ensures
      var a, b, d := k / 0x1_0000, k / 0x100 % 0x100, k % 0x100;
      var n := k + 1;
      && a < 0x100
      && (d != 255 ==> n / 0x1_0000 == a && n / 0x100 % 0x100 == b && n % 0x100 == d + 1)
      && (d == 255 && b != 255 ==> n / 0x1_0000 == a && n / 0x100 % 0x100 == b + 1 && n % 0x100 == 0)
      && (d == 255 && b == 255 ==> a + 1 < 0x100 && n / 0x1_0000 == a + 1 && n / 0x100 % 0x100 == 0 && n % 0x100 == 0)
  {
    var a, b, d := k / 0x1_0000, k / 0x100 % 0x100, k % 0x100;
    assert k == 0x1_0000 * a + 0x100 * b + d;
  }
}
