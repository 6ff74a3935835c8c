/** Bitwise and on numbers, and the masks of address prefixes byte by byte. */
module Masks {
  import opened Arithmetic
  import opened Bytes

  function Pow2(k: nat): nat {
    if k == 0 then 1 else 2 * Pow2(k - 1)
  }

  /** Bitwise and. */
  function And(a: nat, b: nat): nat {
    if a == 0 || b == 0 then 0
    else (if a % 2 == 1 && b % 2 == 1 then 1 else 0) + 2 * And(a / 2, b / 2)
  }

  lemma {:induction false} Pow2Positive(k: nat)
    ensures Pow2(k) >= 1
  {
    if k > 0 {
      Pow2Positive(k - 1);
    }
  }

  lemma SmallPowers()
    ensures Pow2(0) == 1 && Pow2(1) == 2 && Pow2(2) == 4 && Pow2(3) == 8
    ensures Pow2(4) == 16 && Pow2(5) == 32 && Pow2(6) == 64 && Pow2(7) == 128 && Pow2(8) == 256
  {
  }

  /** Byte `i`, counted in network order, of the mask of a prefix of `p` bits. */
  function MaskByte(p: nat, i: nat): (b: byte) {
    SmallPowers();
    if p <= 8 * i then 0
    else if p >= 8 * i + 8 then 255
    else
      var k := 8 * i + 8 - p;
      assert k == 1 || k == 2 || k == 3 || k == 4 || k == 5 || k == 6 || k == 7;
      256 - Pow2(k)
  }

  /** Bit `k` of a byte, the most significant being bit 0. */
  function ByteBit(b: byte, k: nat): nat
    requires k < 8
  {
    Pow2Positive(7 - k);
    b / Pow2(7 - k) % 2
  }

  lemma {:induction false} AndOnes(a: nat, n: nat)
    requires a < Pow2(n)
    ensures And(a, Pow2(n) - 1) == a
  {
    if n > 0 {
      Pow2Positive(n - 1);
      AndOnes(a / 2, n - 1);
      var m := Pow2(n) - 1;
      assert m / 2 == Pow2(n - 1) - 1 && m % 2 == 1;
    }
  }

  /** And with ones above bit `t` cuts the low bits off. */
  lemma {:induction false} AndHigh(a: nat, n: nat, t: nat)
    requires t <= n && a < Pow2(n)
    ensures 1 <= Pow2(t) <= Pow2(n)
    ensures And(a, Pow2(n) - Pow2(t)) == a - a % Pow2(t)
  {
    Pow2Positive(t);
    Pow2Monotone(t, n);
    if t == 0 {
      AndOnes(a, n);
    } else {
      var m, cut := Pow2(n - 1), Pow2(t - 1);
      AndHigh(a / 2, n - 1, t - 1);
      var x := a / 2 % cut;
      AndDoubled(a, m - cut, a / 2 - x);
      assert Pow2(n) - Pow2(t) == 2 * (m - cut);
      HalfModulo(a, cut);
      assert a % Pow2(t) == 2 * x + a % 2;
    }
  }

  lemma AndDoubled(a: nat, m: nat, half: nat)
    requires And(a / 2, m) == half
    ensures And(a, 2 * m) == 2 * half
  {
    AndEven(a, m);
  }

  lemma AndUnfold(a: nat, b: nat)
    ensures And(a, b) == (if a % 2 == 1 && b % 2 == 1 then 1 else 0) + 2 * And(a / 2, b / 2)
  {
  }

  lemma {:induction false} AndBound(a: nat, b: nat)
    ensures And(a, b) <= a
  {
    if a > 0 && b > 0 {
      AndBound(a / 2, b / 2);
    }
  }

  lemma AndStep(x: nat, y: nat, u: nat, v: nat, w: nat)
    requires And(x / 2 + u, y / 2 + v) == And(x / 2, y / 2) + w
    ensures And(x + 2 * u, y + 2 * v) == And(x, y) + 2 * w
  {
    AndUnfold(x + 2 * u, y + 2 * v);
    AndUnfold(x, y);
    DivModUnique(x + 2 * u, 2, x / 2 + u, x % 2);
    DivModUnique(y + 2 * v, 2, y / 2 + v, y % 2);
  }

  /** `a` doubled `n` times. */
  function Shift(n: nat, a: nat): nat {
    if n == 0 then a else 2 * Shift(n - 1, a)
  }

  /** And of two numbers is taken separately on their low `n` bits, `x` and `y`, and on the rest. */
  lemma {:induction false} AndSplit(n: nat, x: nat, y: nat, a: nat, b: nat)
    requires x < Pow2(n) && y < Pow2(n)
    ensures And(x + Shift(n, a), y + Shift(n, b)) == And(x, y) + Shift(n, And(a, b))
  {
    if n > 0 {
      AndSplit(n - 1, x / 2, y / 2, a, b);
      AndStep(x, y, Shift(n - 1, a), Shift(n - 1, b), Shift(n - 1, And(a, b)));
    }
  }

  lemma ShiftByte(a: nat)
    ensures Shift(8, a) == 0x100 * a
  {
    assert Shift(1, a) == 2 * a;
    assert Shift(3, a) == 8 * a;
    assert Shift(5, a) == 32 * a;
    assert Shift(7, a) == 128 * a;
  }

  lemma AndByte(x: byte, y: byte, a: nat, b: nat)
    ensures And(x + 0x100 * a, y + 0x100 * b) == And(x, y) + 0x100 * And(a, b)
  {
    SmallPowers();
    AndSplit(8, x, y, a, b);
    ShiftByte(a);
    ShiftByte(b);
    ShiftByte(And(a, b));
  }

  lemma AndEven(a: nat, m: nat)
    ensures And(a, 2 * m) == 2 * And(a / 2, m)
  {
    assert 2 * m / 2 == m && 2 * m % 2 == 0;
  }

  lemma {:induction false} Pow2Monotone(j: nat, k: nat)
    requires j <= k
    ensures Pow2(j) <= Pow2(k)
  {
    if j < k {
      Pow2Monotone(j, k - 1);
    }
  }

  lemma HalfModulo(a: nat, m: nat)
    requires m > 0
    ensures a % (2 * m) == 2 * (a / 2 % m) + a % 2
  {
    var q, r := a / 2 / m, a / 2 % m;
    assert a / 2 == m * q + r;
    assert a == (2 * m) * q + (2 * r + a % 2);
    DivModUnique(a, 2 * m, q, 2 * r + a % 2);
  }

  /** Halving keeps equality exactly when the bits cut off are equal. */
  lemma EqualByHalves(a: nat, b: nat, m: nat)
    requires m > 0
    ensures a / m == b / m <==> a / (2 * m) == b / (2 * m) && a / m % 2 == b / m % 2
  {
    ShiftOne(a, m);
    ShiftOne(b, m);
  }

  /** Two bytes agree on their first `r` bits exactly when they agree after the rest is shifted out. */
  lemma {:induction false} LeadingBits(a: byte, b: byte, r: nat)
    requires r <= 8
    ensures Pow2(8 - r) > 0
    ensures a / Pow2(8 - r) == b / Pow2(8 - r) <==> forall k: nat :: k < r ==> ByteBit(a, k) == ByteBit(b, k)
  {
    var m := Pow2(8 - r);
    Pow2Positive(8 - r);
    if r == 0 {
      SmallPowers();
      DivModUnique(a, 256, 0, a);
      DivModUnique(b, 256, 0, b);
    } else {
      LeadingBits(a, b, r - 1);
      assert Pow2(8 - (r - 1)) == 2 * m;
      EqualByHalves(a, b, m);
      assert ByteBit(a, r - 1) == a / m % 2 && ByteBit(b, r - 1) == b / m % 2;
    }
  }

  lemma ShiftOne(a: nat, m: nat)
    requires m > 0
    ensures a / m == 2 * (a / (2 * m)) + a / m % 2
  {
    var q, r := a / m, a % m;
    assert a == m * q + r;
    assert a == (2 * m) * (q / 2) + (m * (q % 2) + r);
    DivModUnique(a, 2 * m, q / 2, m * (q % 2) + r);
  }

  /** How many of the first `p` bits of an address lie in byte `i`. */
  function BitsIn(p: nat, i: nat): (r: nat)
    ensures r <= 8
  {
    if p <= 8 * i then 0 else if p >= 8 * i + 8 then 8 else p - 8 * i
  }

  lemma MaskByteIsHigh(p: nat, i: nat)
    ensures MaskByte(p, i) == Pow2(8) - Pow2(8 - BitsIn(p, i)) && Pow2(8) == 256
  {
    SmallPowers();
  }

  /** A byte under a mask byte keeps what is left after the other bits are shifted out. */
  lemma AndMaskByte(a: byte, p: nat, i: nat)
    ensures Pow2(8 - BitsIn(p, i)) > 0
    ensures And(a, MaskByte(p, i)) == a - a % Pow2(8 - BitsIn(p, i))
  {
    MaskByteIsHigh(p, i);
    AndHigh(a, 8, 8 - BitsIn(p, i));
  }

  /** Masked bytes are equal exactly when the bits under the mask are. */
  lemma MaskedByte(a: byte, b: byte, p: nat, i: nat)
    ensures And(a, MaskByte(p, i)) == And(b, MaskByte(p, i)) <==>
              forall k: nat :: k < BitsIn(p, i) ==> ByteBit(a, k) == ByteBit(b, k)
  {
    AndMaskByte(a, p, i);
    AndMaskByte(b, p, i);
    LeadingBits(a, b, BitsIn(p, i));
    CutEqual(a, b, Pow2(8 - BitsIn(p, i)));
  }

  lemma CutEqual(a: nat, b: nat, m: nat)
    requires m > 0
    ensures a - a % m == b - b % m <==> a / m == b / m
  {
    assert a - a % m == m * (a / m) && b - b % m == m * (b / m);
    if a / m < b / m {
      MulGap(m, a / m, b / m);
    } else if b / m < a / m {
      MulGap(m, b / m, a / m);
    }
  }
}
