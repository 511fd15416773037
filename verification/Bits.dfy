/** Bitwise operations of Go on unsigned integers, over natural numbers. */
module Bits {

  const W64: nat := 0x1_0000_0000_0000_0000
  const W32: nat := 0x1_0000_0000
  const PAGE: nat := 4096

  /** x & y */
  function And(x: nat, y: nat): nat {
    if x == 0 || y == 0 then 0
    else 2 * And(x / 2, y / 2) + (if x % 2 == 1 && y % 2 == 1 then 1 else 0)
  }

  lemma {:induction false} AndBounds(x: nat, y: nat)
    ensures And(x, y) <= x && And(x, y) <= y
  {
    if x != 0 && y != 0 {
      AndBounds(x / 2, y / 2);
    }
  }

  /** x &^ y */
  function AndNot(x: nat, y: nat): (z: nat)
    ensures z == x - And(x, y)
  {
    AndBounds(x, y);
    x - And(x, y)
  }

  function Pow2(k: nat): (p: nat)
    ensures p >= 1
  {
    if k == 0 then 1 else 2 * Pow2(k - 1)
  }

  lemma HalfMod(x: nat, p: nat)
    requires p > 0
    ensures x % (2 * p) == 2 * ((x / 2) % p) + x % 2
  {
    var h := x / 2;
    var q, r := h / p, h % p;
    assert x == 2 * (q * p + r) + x % 2;
    assert x == q * (2 * p) + (2 * r + x % 2) by {
      assert 2 * (q * p + r) == q * (2 * p) + 2 * r;
    }
    ModUnique(x, 2 * p, q, 2 * r + x % 2);
  }

  lemma ModUnique(x: nat, m: nat, q: nat, r: nat)
    requires m > 0 && x == q * m + r && r < m
    ensures x % m == r && x / m == q
  {
    var q', r' := x / m, x % m;
    assert x == q' * m + r';
    if q' < q {
      Times(q' + 1, q, m);
    } else if q < q' {
      Times(q + 1, q', m);
    }
  }

  lemma Times(a: nat, b: nat, m: nat)
    requires a <= b
    ensures a * m <= b * m && (a - 1) * m == a * m - m
  {
    assert b * m == a * m + (b - a) * m;
  }

  /** Masking with 2^k - 1 is taking the remainder. */
  lemma {:induction false} AndMask(x: nat, k: nat)
    ensures And(x, Pow2(k) - 1) == x % Pow2(k)
  {
    hide And, Pow2;
    if k == 0 || x == 0 {
      AndMaskBase(x, k);
    } else {
      AndMask(x / 2, k - 1);
      AndMaskStep(x, Pow2(k - 1));
      Pow2Step(k);
    }
  }

  lemma AndMaskBase(x: nat, k: nat)
    requires k == 0 || x == 0
    ensures And(x, Pow2(k) - 1) == x % Pow2(k)
  {
    if x == 0 {
      ModUnique(0, Pow2(k), 0, 0);
    }
  }

  lemma Pow2Step(k: nat)
    requires k > 0
    ensures Pow2(k) == 2 * Pow2(k - 1)
  {
  }

  lemma AndMaskStep(x: nat, p: nat)
    requires x > 0 && p > 0 && And(x / 2, p - 1) == (x / 2) % p
    ensures And(x, 2 * p - 1) == x % (2 * p)
  {
    AndOdd(x, p);
    HalfMod(x, p);
  }

  lemma AndOdd(x: nat, p: nat)
    requires x > 0 && p > 0
    ensures And(x, 2 * p - 1) == 2 * And(x / 2, p - 1) + x % 2
  {
    assert (2 * p - 1) / 2 == p - 1 && (2 * p - 1) % 2 == 1;
  }

  lemma PagePow()
    ensures Pow2(12) == PAGE
  {
    assert Pow2(6) == 64;
    assert Pow2(12) == 64 * Pow2(6);
  }

  lemma AndPage(x: nat)
    ensures AndNot(x, 4095) == x - x % PAGE
  {
    PagePow();
    AndMask(x, 12);
  }

  lemma RoundDown(x: nat)
    ensures (x - x % PAGE) % PAGE == 0 && x - PAGE < x - x % PAGE <= x
    ensures x < PAGE ==> x % PAGE == x
  {
  }

  /** The multiple of m next to v from above. */
  ghost predicate IsRoundUp(v: nat, m: nat, r: nat)
    requires m > 0
  {
    r % m == 0 && v <= r < v + m
  }

  predicate IsMultiple(x: nat, m: nat)
    requires m > 0
  {
    x % m == 0
  }

  ghost predicate IsLeastMultiple(v: nat, m: nat, r: nat)
    requires m > 0
  {
    IsMultiple(r, m) && v <= r && forall s: nat | v <= s && IsMultiple(s, m) :: r <= s
  }

  lemma RoundUpIsLeast(v: nat, m: nat, r: nat)
    requires m > 0 && IsRoundUp(v, m, r)
    ensures IsLeastMultiple(v, m, r)
  {
    forall s: nat | v <= s && IsMultiple(s, m) ensures r <= s {
      WholeTimes(s, m);
      WholeTimes(r, m);
      NextMultiple(s / m, r / m, m);
    }
  }

  lemma WholeTimes(x: nat, m: nat)
    requires m > 0 && x % m == 0
    ensures x == x / m * m
  {
  }

  lemma NextMultiple(a: nat, b: nat, m: nat)
    ensures b * m <= a * m || a * m + m <= b * m
  {
    if a < b {
      Times(a + 1, b, m);
    } else {
      Times(b, a, m);
    }
  }

  // ---------------------------------------------------------------- shifts and exclusive or

  /** x >> k */
  function Shr(x: nat, k: nat): nat
    decreases k
  {
    if k == 0 || x == 0 then x else Shr(x / 2, k - 1)
  }

  /** x ^ y */
  function Xor(x: nat, y: nat): nat {
    if x == 0 then y else if y == 0 then x
    else 2 * Xor(x / 2, y / 2) + (x % 2 + y % 2) % 2
  }

  lemma {:induction false} ShrBounds(x: nat, k: nat)
    ensures Shr(x, k) * Pow2(k) <= x < Shr(x, k) * Pow2(k) + Pow2(k)
    decreases k
  {
    if k > 0 && x > 0 {
      ShrBounds(x / 2, k - 1);
      ShrStep(x, k);
      Doubled(Shr(x / 2, k - 1), k);
      Pow2Step(k);
      hide Shr, Pow2;
    }
  }

  lemma {:induction false} ShrSum(x: nat, j: nat, k: nat)
    ensures Shr(x, j + k) == Shr(Shr(x, j), k)
    decreases j
  {
    if j > 0 && x > 0 {
      ShrSum(x / 2, j - 1, k);
    }
  }

  lemma {:induction false} ShrOfMultiple(c: nat, k: nat)
    ensures Shr(c * Pow2(k), k) == c
    decreases k
  {
    if k > 0 && c > 0 {
      var p := Pow2(k - 1);
      assert c * Pow2(k) == 2 * (c * p);
      assert c * p > 0;
      ShrOfMultiple(c, k - 1);
    }
  }

  lemma AndDouble(x: nat, m: nat)
    ensures And(x, 2 * m) == 2 * And(x / 2, m)
  {
    if x != 0 && m != 0 {
      assert 2 * m / 2 == m && 2 * m % 2 == 0;
    }
  }

  lemma ShrStep(x: nat, k: nat)
    requires k > 0
    ensures Shr(x, k) == Shr(x / 2, k - 1)
  {
  }

  lemma NoPower(c: nat)
    ensures c * Pow2(0) == c
  {
  }

  lemma Doubled(a: nat, k: nat)
    requires k > 0
    ensures a * Pow2(k) == 2 * (a * Pow2(k - 1))
  {
    var p := Pow2(k - 1);
    assert a * (2 * p) == 2 * (a * p);
  }

  lemma ShrNone(x: nat)
    ensures Shr(x, 0) == x
  {
  }

  /** A mask of high bits sees only the high bits. */
  lemma {:induction false} AndHigh(x: nat, c: nat, k: nat)
    ensures And(x, c * Pow2(k)) == And(Shr(x, k), c) * Pow2(k)
    decreases k
  {
    hide And, Shr, Pow2;
    if k == 0 {
      NoPower(c);
      NoPower(And(x, c));
      ShrNone(x);
    } else {
      AndHigh(x / 2, c, k - 1);
      AndDouble(x, c * Pow2(k - 1));
      ShrStep(x, k);
      Doubled(c, k);
      Doubled(And(Shr(x, k), c), k);
    }
  }

  /** A change of low bits leaves the high bits. */
  lemma {:induction false} XorLow(x: nat, s: nat, k: nat)
    requires s < Pow2(k)
    ensures Shr(Xor(x, s), k) == Shr(x, k)
    decreases k
  {
    if k > 0 && x > 0 && s > 0 {
      XorLow(x / 2, s / 2, k - 1);
      assert Xor(x, s) / 2 == Xor(x / 2, s / 2);
    } else if x == 0 {
      SmallShr(s, k);
    }
  }

  lemma {:induction false} XorMod(x: nat, s: nat, k: nat)
    requires s < Pow2(k)
    ensures Xor(x, s) % Pow2(k) == Xor(x % Pow2(k), s)
    decreases k
  {
    hide Xor, Pow2;
    if k == 0 || x == 0 || s == 0 {
      XorModBase(x, s, k);
    } else {
      Pow2Step(k);
      XorMod(x / 2, s / 2, k - 1);
      XorModStep(x, s, Pow2(k - 1));
    }
  }

  lemma XorModBase(x: nat, s: nat, k: nat)
    requires s < Pow2(k) && (k == 0 || x == 0 || s == 0)
    ensures Xor(x, s) % Pow2(k) == Xor(x % Pow2(k), s)
  {
    ModUnique(s, Pow2(k), 0, s);
    ModUnique(0, Pow2(k), 0, 0);
  }

  lemma XorModStep(x: nat, s: nat, p: nat)
    requires x > 0 && s > 0 && p > 0 && Xor(x / 2, s / 2) % p == Xor(x / 2 % p, s / 2)
    ensures Xor(x, s) % (2 * p) == Xor(x % (2 * p), s)
  {
    hide Xor;
    var y, z := x % (2 * p), Xor(x, s) % (2 * p);
    assert y == 2 * (x / 2 % p) + x % 2 by {
      HalfMod(x, p);
    }
    assert z == 2 * Xor(x / 2 % p, s / 2) + (x % 2 + s % 2) % 2 by {
      Halved(x, s);
      HalfMod(Xor(x, s), p);
    }
    XorOfParts(y, s, x / 2 % p, x % 2);
  }

  lemma XorOfParts(x: nat, s: nat, a: nat, b: nat)
    requires x == 2 * a + b && b < 2
    ensures Xor(x, s) == 2 * Xor(a, s / 2) + (b + s % 2) % 2
  {
    HalfOf(a, b);
    if x != 0 && s != 0 {
      Halved(x, s);
    }
  }

  lemma {:induction false} SmallShr(s: nat, k: nat)
    requires s < Pow2(k)
    ensures Shr(s, k) == 0
    decreases k
  {
    if k > 0 && s > 0 {
      SmallShr(s / 2, k - 1);
    }
  }

  lemma {:induction false} AndSelf(x: nat)
    ensures And(x, x) == x
  {
    if x > 0 {
      AndSelf(x / 2);
    }
  }

  lemma {:induction false} PowAdd(j: nat, k: nat)
    ensures Pow2(j + k) == Pow2(j) * Pow2(k)
  {
    if j > 0 {
      PowAdd(j - 1, k);
      Pow2Step(j + k);
      Pow2Step(j);
    }
  }

  lemma Pow32()
    ensures Pow2(32) == 0x1_0000_0000
  {
    assert Pow2(8) == 256;
    PowAdd(8, 8);
    PowAdd(16, 16);
  }

  lemma ShrIs(x: nat, k: nat)
    ensures Shr(x, k) == x / Pow2(k)
  {
    ShrBounds(x, k);
    ModUnique(x, Pow2(k), Shr(x, k), x - Shr(x, k) * Pow2(k));
  }

  /** Masking with 2^k asks for bit k. */
  lemma AndBit(x: nat, k: nat)
    ensures And(x, Pow2(k)) == x / Pow2(k) % 2 * Pow2(k)
    ensures And(x, Pow2(k)) != 0 <==> x / Pow2(k) % 2 == 1
  {
    hide And, Pow2;
    AndHigh(x, 1, k);
    ShrIs(x, k);
    AndOne(Shr(x, k));
  }

  /** Bit k of x. */
  predicate Bit(x: nat, k: nat) {
    x / Pow2(k) % 2 == 1
  }

  lemma BitStep(x: nat, k: nat)
    ensures Bit(x, 0) <==> x % 2 == 1
    ensures Bit(x, k + 1) <==> Bit(x / 2, k)
  {
    ShrIs(x, 0);
    ShrIs(x, k + 1);
    ShrIs(x / 2, k);
    ShrStep(x, k + 1);
  }

  lemma NoBits(k: nat)
    ensures !Bit(0, k)
  {
    ModUnique(0, Pow2(k), 0, 0);
  }

  /** Bit by bit, a conjunction is a conjunction and an exclusive or an exclusive or. */
  lemma {:induction false} BitsOfAndXor(x: nat, y: nat, k: nat)
    ensures Bit(And(x, y), k) <==> Bit(x, k) && Bit(y, k)
    ensures Bit(Xor(x, y), k) <==> Bit(x, k) != Bit(y, k)
    decreases k
  {
    hide Bit;
    NoBits(k);
    if x != 0 && y != 0 {
      Halved(x, y);
      hide And, Xor;
      if k == 0 {
        BitStep(x, 0);
        BitStep(y, 0);
        BitStep(And(x, y), 0);
        BitStep(Xor(x, y), 0);
      } else {
        BitStep(x, k - 1);
        BitStep(y, k - 1);
        BitStep(And(x, y), k - 1);
        BitStep(Xor(x, y), k - 1);
        BitsOfAndXor(x / 2, y / 2, k - 1);
      }
    }
  }

  lemma Halved(x: nat, y: nat)
    requires x != 0 && y != 0
    ensures And(x, y) / 2 == And(x / 2, y / 2) && (And(x, y) % 2 == 1 <==> x % 2 == 1 && y % 2 == 1)
    ensures Xor(x, y) / 2 == Xor(x / 2, y / 2) && Xor(x, y) % 2 == (x % 2 + y % 2) % 2
  {
    HalfOf(And(x / 2, y / 2), if x % 2 == 1 && y % 2 == 1 then 1 else 0);
    HalfOf(Xor(x / 2, y / 2), (x % 2 + y % 2) % 2);
  }

  lemma HalfOf(a: nat, b: nat)
    requires b < 2
    ensures (2 * a + b) / 2 == a && (2 * a + b) % 2 == b
  {
  }

  lemma AndOne(x: nat)
    ensures And(x, 1) == x % 2
  {
    AndMask(x, 1);
    assert Pow2(1) == 2;
  }
}
