/**
  The DSi AES key scrambler: the byte loops that combine the X and Y keys are one exclusive or, one
  128-bit addition and one 128-bit rotation.
 */
module AesKeys {
  import opened Arithmetic

  /** A byte as its eight bits, lowest first. */
  type Byte = b: seq<bool> | |b| == 8 witness seq(8, _ => false)

  /** The number that bits stand for, lowest first. */
  function Num(b: seq<bool>): nat {
    if b == [] then 0 else (if b[0] then 1 else 0) + 2 * Num(b[1..])
  }

  /** The low n bits of a number. */
  function Bits(v: nat, n: nat): (b: seq<bool>)
    ensures |b| == n
  {
    if n == 0 then [] else [v % 2 == 1] + Bits(v / 2, n - 1)
  }

  /** The bits of a byte string, lowest byte first. */
  function Flat(s: seq<Byte>): (b: seq<bool>)
    ensures |b| == 8 * |s|
  {
    if s == [] then [] else s[0] + Flat(s[1..])
  }

  /** Rotation to the left: towards the higher bits. */
  function Rotate(b: seq<bool>, n: nat): (r: seq<bool>)
    requires n <= |b|
    ensures |r| == |b|
  {
    b[|b| - n..] + b[..|b| - n]
  }

  lemma {:induction false} FlatAt(s: seq<Byte>, i: nat, j: nat)
    requires i < |s| && j < 8
    ensures Flat(s)[8 * i + j] == s[i][j]
  {
    if i > 0 { FlatAt(s[1..], i - 1, j); }
  }

  // ----- Rotation -----

  /** i - n, modulo 16. */
  function Back(i: nat, n: nat): (k: nat)
    requires i < 16 && n < 16
    ensures k < 16
  {
    if i >= n then i - n else i - n + 16
  }

  function Coarse(s: seq<Byte>, n: nat): (t: seq<Byte>)
    requires |s| == 16 && n < 16
    ensures |t| == 16
  {
    seq(16, i requires 0 <= i < 16 => s[Back(i, n)])
  }

  /** Byte i after shifting up by f bits: the top bits of the byte below come in. */
  function Shifted(t: seq<Byte>, i: nat, f: nat): Byte
    requires |t| == 16 && i < 16 && f < 8
  {
    var low: seq<bool>, here: seq<bool> := t[Back(i, 1)], t[i];
    low[8 - f..] + here[..8 - f]
  }

  function Rolled(s: seq<Byte>, n: nat): (t: seq<Byte>)
    requires |s| == 16 && n < 128
    ensures |t| == 16
  {
    seq(16, i requires 0 <= i < 16 => Shifted(Coarse(s, n / 8), i, n % 8))
  }

  /** Bit k of a rotated value is bit k - n of the value, around its end. */
  lemma RotateAt(b: seq<bool>, n: nat, k: nat)
    requires n <= |b| && k < |b|
    ensures Rotate(b, n)[k] == b[if k >= n then k - n else k - n + |b|]
  {
  }

  /** Where bit j of byte i comes from. */
  function Source(c: nat, f: nat, i: nat, j: nat): (k: nat)
    requires c < 16 && f < 8 && i < 16 && j < 8
    ensures k < 128
  {
    if j >= f then 8 * Back(i, c) + (j - f) else 8 * Back(Back(i, 1), c) + (j - f + 8)
  }

  lemma ShiftedAt(s: seq<Byte>, c: nat, f: nat, i: nat, j: nat)
    requires |s| == 16 && c < 16 && f < 8 && i < 16 && j < 8
    ensures Shifted(Coarse(s, c), i, f)[j] == Flat(s)[Source(c, f, i, j)]
  {
    hide Flat, Back;
    var t := Coarse(s, c);
    if j >= f {
      assert Shifted(t, i, f)[j] == t[i][j - f];
      FlatAt(s, Back(i, c), j - f);
    } else {
      assert Shifted(t, i, f)[j] == t[Back(i, 1)][j - f + 8];
      FlatAt(s, Back(Back(i, 1), c), j - f + 8);
    }
  }

  lemma SourceIs(c: nat, f: nat, i: nat, j: nat)
    requires c < 16 && f < 8 && i < 16 && j < 8
    ensures
      var k, n := 8 * i + j, 8 * c + f;
      Source(c, f, i, j) == if k >= n then k - n else k - n + 128
  {
  }

  lemma RolledAt(s: seq<Byte>, n: nat, i: nat, j: nat)
    requires |s| == 16 && n < 128 && i < 16 && j < 8
    ensures
      var k := 8 * i + j;
      Rolled(s, n)[i][j] == Flat(s)[if k >= n then k - n else k - n + 128]
  {
    hide Flat, Source, Shifted, Coarse;
    var c, f := n / 8, n % 8;
    ShiftedAt(s, c, f, i, j);
    SourceIs(c, f, i, j);
  }

  /** The byte-wise rotation is the rotation of all 128 bits, for every distance. */
  lemma RolledIsRotate(s: seq<Byte>, n: nat)
    requires |s| == 16 && n < 128
    ensures Flat(Rolled(s, n)) == Rotate(Flat(s), n)
  {
    hide Flat, Rolled, Rotate;
    var t := Rolled(s, n);
    forall k | 0 <= k < 128 ensures Flat(t)[k] == Rotate(Flat(s), n)[k] {
      var i, j := k / 8, k % 8;
      FlatAt(t, i, j);
      RolledAt(s, n, i, j);
      RotateAt(Flat(s), n, k);
    }
  }

  // ----- Addition -----

  /** The number that bytes stand for, lowest first. */
  function ValueLow(s: seq<nat>): nat {
    if s == [] then 0 else s[0] + 0x100 * ValueLow(s[1..])
  }

  function Nums(s: seq<Byte>): (t: seq<nat>)
    ensures |t| == |s|
  {
    seq(|s|, i requires 0 <= i < |s| => Num(s[i]))
  }

  /** Byte-wise addition with a carry. */
  function Added(s: seq<Byte>, c: seq<nat>, carry: nat): (t: seq<Byte>)
    requires |s| == |c|
    ensures |t| == |s|
  {
    if s == [] then []
    else
      var r := Num(s[0]) + c[0] + carry;
      [Bits(r, 8)] + Added(s[1..], c[1..], r / 0x100)
  }

  lemma {:induction false} NumBound(b: seq<bool>)
    ensures Num(b) < Pow2(|b|)
  {
    if b != [] { NumBound(b[1..]); }
  }

  lemma NumByte(b: Byte)
    ensures Num(b) < 0x100
  {
    NumBound(b);
    assert Pow2(4) == 16;
    assert Pow2(6) == 64;
    assert Pow2(8) == 256;
  }

  lemma {:induction false} NumBits(v: nat, n: nat)
    ensures exists q: nat :: v == Num(Bits(v, n)) + Pow2(n) * q
  {
    if n == 0 {
      assert v == Num(Bits(v, 0)) + Pow2(0) * v;
    } else {
      NumBits(v / 2, n - 1);
      var q: nat :| v / 2 == Num(Bits(v / 2, n - 1)) + Pow2(n - 1) * q;
      assert Bits(v, n)[1..] == Bits(v / 2, n - 1);
      assert Pow2(n) * q == 2 * (Pow2(n - 1) * q);
      assert v == Num(Bits(v, n)) + Pow2(n) * q;
    }
  }

  lemma NumOfLowByte(v: nat)
    ensures Num(Bits(v, 8)) == v % 0x100
  {
    hide Num, Bits;
    NumBits(v, 8);
    NumByte(Bits(v, 8));
    var q: nat :| v == Num(Bits(v, 8)) + Pow2(8) * q;
    assert Pow2(4) == 16;
    assert Pow2(6) == 64;
    assert Pow2(8) == 256;
  }

  /** The bytes and the final carry are the sum. */
  lemma {:induction false} AddedIsSum(s: seq<Byte>, c: seq<nat>, carry: nat)
    requires |s| == |c| && carry <= 1 && forall i :: 0 <= i < |c| ==> c[i] < 0x100
    ensures
      var sum := ValueLow(Nums(s)) + ValueLow(c) + carry;
      var t := ValueLow(Nums(Added(s, c, carry)));
      t < Size(|s|) && (sum == t || sum == t + Size(|s|))
  {
    hide Num, Bits;
    if s != [] {
      var r := Num(s[0]) + c[0] + carry;
      NumByte(s[0]);
      NumOfLowByte(r);
      AddedIsSum(s[1..], c[1..], r / 0x100);
      var t := Added(s, c, carry);
      assert Nums(s)[1..] == Nums(s[1..]) && Nums(t)[1..] == Nums(t[1..]) && t[1..] == Added(s[1..], c[1..], r / 0x100);
    }
  }

  // ----- The normal key -----

  function Xored(x: seq<Byte>, y: seq<Byte>): (t: seq<Byte>)
    requires |x| == |y|
    ensures |t| == |x|
  {
    seq(|x|, i requires 0 <= i < |x| => XorByte(x[i], y[i]))
  }

  function XorByte(a: Byte, b: Byte): Byte {
    seq(8, i requires 0 <= i < 8 => a[i] != b[i])
  }

  /** The constant, as the code lists it: highest byte first. */
  const KEY_CONST: seq<nat> :=
    [0xFF, 0xFE, 0xFB, 0x4E, 0x29, 0x59, 0x02, 0x58, 0x2A, 0x68, 0x0F, 0x5F, 0x1A, 0x4F, 0x3E, 0x79]

  /** Exclusive or, bit by bit of the whole key. */
  lemma XoredBits(x: seq<Byte>, y: seq<Byte>, k: nat)
    requires |x| == |y| && k < 8 * |x|
    ensures Flat(Xored(x, y))[k] == (Flat(x)[k] != Flat(y)[k])
  {
    hide Flat;
    var i, j := k / 8, k % 8;
    assert 8 * i + j == k;
    FlatAt(x, i, j);
    FlatAt(y, i, j);
    FlatAt(Xored(x, y), i, j);
  }

  /** The constant as a number. */
  lemma ConstantIs()
    ensures ValueLow(Reversed(KEY_CONST)) == 0xFFFE_FB4E_2959_0258_2A68_0F5F_1A4F_3E79
    ensures Size(16) == 0x1_0000_0000_0000_0000_0000_0000_0000_0000
  {
    hide ValueLow, Size;
    var c := Reversed(KEY_CONST);
    assert c == [0x79, 0x3E, 0x4F, 0x1A, 0x5F, 0x0F, 0x68, 0x2A, 0x58, 0x02, 0x59, 0x29, 0x4E, 0xFB, 0xFE, 0xFF];
    EightLow(c[8..]);
    EightLow(c);
    assert ValueLow(c[8..][8..]) == 0 by { assert c[8..][8..] == []; NoneLow(); }
    SizeEight(8);
    SizeEight(0);
    SizeZero();
  }

  lemma NoneLow()
    ensures ValueLow([]) == 0
  {
  }

  lemma SizeZero()
    ensures Size(0) == 1
  {
  }

  lemma SizeEight(n: nat)
    ensures Size(n + 8) == 0x1_0000_0000_0000_0000 * Size(n)
  {
    assert Size(n + 4) == 0x1_0000_0000 * Size(n) by {
      assert Size(n + 2) == 0x1_0000 * Size(n);
    }
    assert Size(n + 6) == 0x1_0000 * Size(n + 4);
  }

  lemma EightLow(s: seq<nat>)
    requires |s| >= 8
    ensures ValueLow(s) == s[0] + 0x100 * s[1] + 0x1_0000 * s[2] + 0x100_0000 * s[3] + 0x1_0000_0000 * s[4]
      + 0x100_0000_0000 * s[5] + 0x1_0000_0000_0000 * s[6] + 0x100_0000_0000_0000 * s[7]
      + 0x1_0000_0000_0000_0000 * ValueLow(s[8..])
  {
    hide ValueLow;
    FourLow(s);
    FourLow(s[4..]);
    assert s[4..][4..] == s[8..];
  }

  lemma FourLow(s: seq<nat>)
    requires |s| >= 4
    ensures ValueLow(s) == s[0] + 0x100 * s[1] + 0x1_0000 * s[2] + 0x100_0000 * s[3] + 0x1_0000_0000 * ValueLow(s[4..])
  {
    assert s[1..][1..] == s[2..] && s[2..][1..] == s[3..] && s[3..][1..] == s[4..];
    assert ValueLow(s[3..]) == s[3] + 0x100 * ValueLow(s[4..]);
    assert ValueLow(s[2..]) == s[2] + 0x100 * ValueLow(s[3..]);
    assert ValueLow(s[1..]) == s[1] + 0x100 * ValueLow(s[2..]);
  }

  function Reversed(s: seq<nat>): (t: seq<nat>)
    ensures |t| == |s| && forall i :: 0 <= i < |s| ==> t[i] == s[|s| - 1 - i]
  {
    seq(|s|, i requires 0 <= i < |s| => s[|s| - 1 - i])
  }

  function NormalKey(x: seq<Byte>, y: seq<Byte>): (k: seq<Byte>)
    requires |x| == |y| == 16
    ensures |k| == 16
  {
    Rolled(Added(Xored(x, y), Reversed(KEY_CONST), 0), 42)
  }

  /** The normal key is (X xor Y plus the constant, modulo 2^128) rotated by 42 bits. */
  lemma NormalKeyIs(x: seq<Byte>, y: seq<Byte>) returns (sum: seq<Byte>)
    requires |x| == |y| == 16
    ensures |sum| == 16 && Flat(NormalKey(x, y)) == Rotate(Flat(sum), 42)
    ensures ValueLow(Nums(sum)) ==
      (ValueLow(Nums(Xored(x, y))) + 0xFFFE_FB4E_2959_0258_2A68_0F5F_1A4F_3E79)
      % 0x1_0000_0000_0000_0000_0000_0000_0000_0000
  {
    hide Num, Rolled, Added, ValueLow, Size;
    ConstantIs();
    sum := Added(Xored(x, y), Reversed(KEY_CONST), 0);
    RolledIsRotate(sum, 42);
    AddedIsSum(Xored(x, y), Reversed(KEY_CONST), 0);
    var v, t := ValueLow(Nums(Xored(x, y))) + ValueLow(Reversed(KEY_CONST)), ValueLow(Nums(sum));
    if v == t { Below(t, Size(16)); } else { Wrapped(t, Size(16)); }
  }

  lemma Below(t: nat, m: nat)
    requires t < m
    ensures t % m == t
  {
  }

  lemma Wrapped(t: nat, m: nat)
    requires t < m
    ensures (t + m) % m == t
  {
    ModUnique(t + m, m, 1, t);
  }

  method ROL16(val: array<Byte>, n: nat)
    requires val.Length == 16 && n < 128
    modifies val
    ensures val[..] == Rolled(old(val[..]), n)
  {
    hide Shifted;
    var coarse, fine := n / 8, n % 8;
    var tmp := new Byte[16];
    var i := 0;
    while i < 16
      invariant 0 <= i <= 16 && val[..] == old(val[..]) && forall k :: 0 <= k < i ==>
        tmp[k] == Coarse(val[..], coarse)[k]
    {
      tmp[i] := val[Back(i, coarse)];
      i := i + 1;
    }
    assert tmp[..] == Coarse(val[..], coarse);
    i := 0;
    while i < 16
      invariant 0 <= i <= 16 && tmp[..] == Coarse(old(val[..]), coarse)
      invariant forall k :: 0 <= k < i ==> val[k] == Shifted(tmp[..], k, fine)
    {
      val[i] := Shifted(tmp[..], i, fine);
      i := i + 1;
    }
  }

  lemma AddedStep(s: seq<Byte>, c: seq<nat>, carry: nat)
    requires |s| == |c| && s != []
    ensures
      var r: nat := Num(s[0]) + c[0] + carry;
      Added(s, c, carry) == [Bits(r, 8)] + Added(s[1..], c[1..], r / 0x100)
  {
    hide Num, Bits;
  }

  /** The addition loop; the constant is listed from its highest byte down. */
  method AddConstant(tmp: array<Byte>, high: seq<nat>)
    requires tmp.Length == 16 && |high| == 16
    modifies tmp
    ensures tmp[..] == Added(old(tmp[..]), Reversed(high), 0)
  {
    hide Num, Bits, Added;
    ghost var s, c := tmp[..], Reversed(high);
    var carry: nat := 0;
    var i := 0;
    while i < 16
      invariant 0 <= i <= 16 && tmp[i..] == s[i..]
      invariant tmp[..i] + Added(s[i..], c[i..], carry) == Added(s, c, 0)
    {
      var res: nat := Num(tmp[i]) + high[15 - i] + carry;
      ghost var before := tmp[..i];
      assert s[i..][0] == tmp[i] && c[i..][0] == high[15 - i];
      AddedStep(s[i..], c[i..], carry);
      tmp[i] := Bits(res, 8);
      carry := res / 0x100;
      assert s[i..][1..] == s[i + 1..] && c[i..][1..] == c[i + 1..];
      assert tmp[..i + 1] == before + [Bits(res, 8)];
      i := i + 1;
    }
    assert tmp[..] == tmp[..16];
  }

  method DeriveNormalKey(keyX: array<Byte>, keyY: array<Byte>, normalKey: array<Byte>)
    requires keyX.Length == keyY.Length == normalKey.Length == 16 && keyX != normalKey && keyY != normalKey
    modifies normalKey
    ensures normalKey[..] == NormalKey(keyX[..], keyY[..])
  {
    hide Rolled, Added, Reversed;
    var tmp := new Byte[16];
    var i := 0;
    while i < 16
      invariant 0 <= i <= 16 && forall k :: 0 <= k < i ==> tmp[k] == XorByte(keyX[k], keyY[k])
    {
      tmp[i] := XorByte(keyX[i], keyY[i]);
      i := i + 1;
    }
    ghost var x, y := keyX[..], keyY[..];
    assert tmp[..] == Xored(x, y);
    AddConstant(tmp, KEY_CONST);
    ROL16(tmp, 42);
    forall k | 0 <= k < 16 { normalKey[k] := tmp[k]; }
    assert normalKey[..] == tmp[..] == NormalKey(x, y);
    assert keyX[..] == x && keyY[..] == y;
  }
}
