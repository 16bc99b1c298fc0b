/**
 Unsigned machine arithmetic on mathematical integers: powers of two, the
 bitwise operators on naturals, and the 32-bit shifts and masks that the
 Verilator runtime builds from them.
 */
module Bits {

  type byte = x: int | 0 <= x < 0x100
  type word = x: int | 0 <= x < 0x1_0000_0000
  type u64 = x: int | 0 <= x < 0x1_0000_0000_0000_0000
  type s64 = x: int | -0x8000_0000_0000_0000 <= x < 0x8000_0000_0000_0000

  const TWO32: nat := 0x1_0000_0000
  const TWO64: nat := 0x1_0000_0000_0000_0000

  function Pow2(n: nat): (p: nat)
    ensures p > 0
  {
    if n == 0 then 1 else 2 * Pow2(n - 1)
  }

  /** Bit k of x, counted from the least significant end. */
  predicate Bit(x: nat, k: nat) {
    if k == 0 then x % 2 == 1 else Bit(x / 2, k - 1)
  }

  function And(a: nat, b: nat): nat {
    if a == 0 || b == 0 then 0
    else 2 * And(a / 2, b / 2) + (if a % 2 == 1 && b % 2 == 1 then 1 else 0)
  }

  function Or(a: nat, b: nat): nat {
    if a == 0 then b else if b == 0 then a
    else 2 * Or(a / 2, b / 2) + (if a % 2 == 1 || b % 2 == 1 then 1 else 0)
  }

  /** `~x` on 32 bits. */
  function Not32(x: word): word {
    0xffff_ffff - x
  }

  /** `x >> n` without a width. */
  function Shr(x: nat, n: nat): (r: nat)
    ensures r <= x
  {
    if n == 0 then x else Shr(x / 2, n - 1)
  }

  /** n one-bit left shifts of a 32-bit word. */
  function ShlBy(x: word, n: nat): word {
    if n == 0 then x else 2 * ShlBy(x, n - 1) as int % 0x1_0000_0000
  }

  /** `x << n` on 32 bits; as on the hardware, only the low five bits of n count. */
  function Shl32(x: word, n: nat): word {
    ShlBy(x, n % 32)
  }

  /** `x >> n` on 32 bits; as on the hardware, only the low five bits of n count. */
  function Shr32(x: word, n: nat): word {
    Shr(x, n % 32)
  }

  /** The low n%32 ones, or all ones when n is a multiple of 32. */
  function Mask32(n: nat): word {
    if n % 32 == 0 then 0xffff_ffff else Pow2Below32(n % 32); Pow2(n % 32) - 1
  }

  // ---------------------------------------------------------------- powers of two

  lemma Pow2Next(n: nat)
    ensures Pow2(n + 1) == 2 * Pow2(n)
  {
  }

  lemma {:induction false} Pow2Add(m: nat, n: nat)
    ensures Pow2(m + n) == Pow2(m) * Pow2(n)
  {
    if m == 0 {
    } else {
      Pow2Add(m - 1, n);
      assert Pow2(m + n) == 2 * Pow2((m - 1) + n);
      assert 2 * (Pow2(m - 1) * Pow2(n)) == (2 * Pow2(m - 1)) * Pow2(n);
    }
  }

  lemma {:induction false} Pow2Mono(m: nat, n: nat)
    requires m <= n
    ensures Pow2(m) <= Pow2(n)
  {
    if m < n {
      Pow2Mono(m, n - 1);
    }
  }

  lemma Pow2At32()
    ensures Pow2(31) == 0x8000_0000 && Pow2(32) == 0x1_0000_0000
  {
    assert Pow2(8) == 0x100;
    Pow2Add(8, 8);
    Pow2Add(16, 16);
  }

  lemma Pow2Below32(n: nat)
    requires n < 32
    ensures Pow2(n) <= 0x8000_0000
  {
    Pow2At32();
    Pow2Mono(n, 31);
  }

  // ---------------------------------------------------------------- division by a positive number

  lemma DivShrinks(x: nat, d: nat)
    requires d > 0
    ensures 0 <= x / d <= x
  {
    MulMono(1, d, x / d);
    assert x == d * (x / d) + x % d;
  }

  lemma MulMono(x: int, y: int, z: nat)
    requires x <= y
    ensures x * z <= y * z && z * x <= z * y
  {
  }

  /** Quotient and remainder are unique. */
  lemma DivModUnique(x: int, d: int, q: int, r: int)
    requires d > 0 && x == q * d + r && 0 <= r < d
    ensures x / d == q && x % d == r
  {
    var q', r' := x / d, x % d;
    assert x == d * q' + r';
    if q' < q {
      MulMono(q', q - 1, d);
    } else if q' > q {
      MulMono(q, q' - 1, d);
    }
    assert q' == q;
  }

  lemma DivDiv(x: nat, a: nat, b: nat)
    requires a > 0 && b > 0
    ensures a * b > 0 && x / (a * b) == x / a / b
    ensures x % (a * b) == x % a + a * (x / a % b)
  {
    var q, r := x / a, x % a;
    var q2, r2 := q / b, q % b;
    assert q == b * q2 + r2;
    Regroup(a, b, q2, r2);
    RestBelow(a, b, r2, r);
    DivModUnique(x, a * b, q2, a * r2 + r);
  }

  lemma RestBelow(a: nat, b: nat, r2: nat, r: nat)
    requires r < a && r2 < b
    ensures 0 <= a * r2 + r < a * b
  {
    MulMono(r2, b - 1, a);
    assert (b - 1) * a == a * b - a;
  }

  lemma Regroup(a: nat, b: nat, q: nat, r: nat)
    ensures a * (b * q + r) == q * (a * b) + a * r
  {
    assert a * (b * q + r) == a * (b * q) + a * r;
    assert a * (b * q) == q * (a * b);
  }

  /** The remainder of a scaled number with a small number added. */
  lemma ModScales(x: nat, a: nat, d: nat, lo: nat)
    requires lo < a && d > 0
    ensures a * d > 0 && (x * a + lo) % (a * d) == x % d * a + lo
  {
    DivModUnique(x * a + lo, a, x, lo);
    DivDiv(x * a + lo, a, d);
  }

  /** Cutting at a multiple first changes nothing. */
  lemma ModTwice(x: int, m: nat, k: nat)
    requires m > 0 && k > 0
    ensures m * k > 0 && x % (m * k) % m == x % m
  {
    assert m * k > 0;
    Euclid(x, m * k);
    var q, y := x / (m * k), x % (m * k);
    Euclid(y, m);
    assert m * k * q == q * k * m;
    DivModUnique(x, m, q * k + y / m, y % m);
  }

  lemma {:induction false} ShrDef(x: nat, n: nat)
    ensures Shr(x, n) == x / Pow2(n)
  {
    if n > 0 {
      ShrDef(x / 2, n - 1);
      DivDiv(x, 2, Pow2(n - 1));
    } else {
      assert x / 1 == x;
    }
  }

  lemma {:induction false} ShlByDef(x: word, n: nat)
    ensures ShlBy(x, n) == x * Pow2(n) % 0x1_0000_0000
  {
    if n > 0 {
      ShlByDef(x, n - 1);
      DoubleMod(x * Pow2(n - 1));
      TwiceProduct(x, Pow2(n - 1));
    } else {
      assert x * 1 == x;
    }
  }

  lemma Shl32Def(x: word, n: nat)
    requires n < 32
    ensures Shl32(x, n) == x * Pow2(n) % 0x1_0000_0000
  {
    ShlByDef(x, n);
  }

  lemma Shr32Def(x: word, n: nat)
    requires n < 32
    ensures Shr32(x, n) == x / Pow2(n)
  {
    hide Shr, Pow2;
    ShrDef(x, n);
  }

  lemma TwiceProduct(x: nat, p: nat)
    ensures x * (2 * p) == 2 * (x * p)
  {
  }

  lemma DoubleMod(y: nat)
    ensures 2 * (y % 0x1_0000_0000) % 0x1_0000_0000 == 2 * y % 0x1_0000_0000
  {
    var q, r := y / 0x1_0000_0000, y % 0x1_0000_0000;
    assert 2 * y == 0x1_0000_0000 * (2 * q) + 2 * r;
    var c := if 2 * r >= 0x1_0000_0000 then 1 else 0;
    DivModUnique(2 * y, 0x1_0000_0000, 2 * q + c, 2 * r - c * 0x1_0000_0000);
    DivModUnique(2 * r, 0x1_0000_0000, c, 2 * r - c * 0x1_0000_0000);
  }

  /** Shifting left and right move bits. */
  lemma {:induction false} BitOfShr(x: nat, n: nat, k: nat)
    ensures Bit(Shr(x, n), k) == Bit(x, n + k)
    decreases n
  {
    if n > 0 {
      BitOfShr(x / 2, n - 1, k);
    }
  }

  lemma {:induction false} BitDef(x: nat, k: nat)
    ensures Bit(x, k) == (Shr(x, k) % 2 == 1)
  {
    BitOfShr(x, k, 0);
  }

  lemma {:induction false} BitOfScaled(x: nat, n: nat, k: nat)
    ensures Bit(x * Pow2(n), k) == (n <= k && Bit(x, k - n))
    decreases n
  {
    if n > 0 {
      assert x * Pow2(n) == 2 * (x * Pow2(n - 1)) by {
        assert x * (2 * Pow2(n - 1)) == 2 * (x * Pow2(n - 1));
      }
      if k > 0 {
        BitOfScaled(x, n - 1, k - 1);
      }
    } else {
      assert x * 1 == x;
    }
  }

  lemma {:induction false} BitOfMod(x: nat, n: nat, k: nat)
    ensures Bit(x % Pow2(n), k) == (k < n && Bit(x, k))
  {
    if n == 0 {
      assert x % 1 == 0;
      BitOfSmall(0, 0, k);
    } else {
      DivDiv(x, 2, Pow2(n - 1));
      var y := x % Pow2(n);
      assert y % 2 == x % 2;
      assert y / 2 == x / 2 % Pow2(n - 1);
      if k > 0 {
        BitOfMod(x / 2, n - 1, k - 1);
      }
    }
  }

  lemma {:induction false} BitOfSmall(x: nat, n: nat, k: nat)
    requires x < Pow2(n) && n <= k
    ensures !Bit(x, k)
  {
    if k > 0 {
      if n > 0 {
        BitOfSmall(x / 2, n - 1, k - 1);
      } else {
        BitOfSmall(x / 2, 0, k - 1);
      }
    }
  }

  /** Bit k of a low part below Pow2(n) plus a multiple of Pow2(n). */
  lemma {:induction false} BitOfSum(lo: nat, hi: nat, n: nat, k: nat)
    requires lo < Pow2(n)
    ensures Bit(lo + hi * Pow2(n), k) == if k < n then Bit(lo, k) else Bit(hi, k - n)
  {
    DivModUnique(lo + hi * Pow2(n), Pow2(n), hi, lo);
    if k < n {
      BitOfMod(lo + hi * Pow2(n), n, k);
    } else {
      ShrDef(lo + hi * Pow2(n), n);
      BitOfShr(lo + hi * Pow2(n), n, k - n);
    }
  }

  /** Two naturals with the same bits are equal. */
  lemma {:induction false} BitsEqual(x: nat, y: nat)
    requires forall k: nat :: Bit(x, k) == Bit(y, k)
    ensures x == y
    decreases x + y
  {
    if x != 0 || y != 0 {
      assert Bit(x, 0) == Bit(y, 0);
      forall k: nat
        ensures Bit(x / 2, k) == Bit(y / 2, k)
      {
        assert Bit(x, k + 1) == Bit(y, k + 1);
      }
      BitsEqual(x / 2, y / 2);
    }
  }

  // ---------------------------------------------------------------- bitwise operators

  lemma {:induction false} BitOfAnd(a: nat, b: nat, k: nat)
    ensures Bit(And(a, b), k) == (Bit(a, k) && Bit(b, k))
  {
    if a == 0 || b == 0 {
      BitOfSmall(0, 0, k);
    } else if k > 0 {
      BitOfAnd(a / 2, b / 2, k - 1);
    }
  }

  lemma {:induction false} BitOfOr(a: nat, b: nat, k: nat)
    ensures Bit(Or(a, b), k) == (Bit(a, k) || Bit(b, k))
  {
    if a == 0 || b == 0 {
      BitOfSmall(0, 0, k);
    } else if k > 0 {
      BitOfOr(a / 2, b / 2, k - 1);
    }
  }

  lemma {:induction false} AndBound(a: nat, b: nat)
    ensures And(a, b) <= a && And(a, b) <= b
  {
    if a != 0 && b != 0 {
      AndBound(a / 2, b / 2);
    }
  }

  lemma {:induction false} OrBound(a: nat, b: nat, n: nat)
    requires a < Pow2(n) && b < Pow2(n)
    ensures Or(a, b) < Pow2(n)
  {
    if a != 0 && b != 0 {
      OrBound(a / 2, b / 2, n - 1);
    }
  }

  /** Or-ing a low part into a multiple of Pow2(n) adds it. */
  lemma {:induction false} OrDisjoint(hi: nat, lo: nat, n: nat)
    requires lo < Pow2(n)
    ensures Or(hi * Pow2(n), lo) == hi * Pow2(n) + lo
  {
    forall k: nat
      ensures Bit(Or(hi * Pow2(n), lo), k) == Bit(lo + hi * Pow2(n), k)
    {
      BitOfOr(hi * Pow2(n), lo, k);
      BitOfScaled(hi, n, k);
      BitOfSum(lo, hi, n, k);
      if n <= k {
        BitOfSmall(lo, n, k);
      }
    }
    BitsEqual(Or(hi * Pow2(n), lo), lo + hi * Pow2(n));
  }

  /** And-ing with the low n ones is the remainder by Pow2(n). */
  lemma {:induction false} AndLowOnes(x: nat, n: nat)
    ensures And(x, Pow2(n) - 1) == x % Pow2(n)
  {
    if n == 0 {
      assert x % 1 == 0;
    } else if x == 0 {
      DivModUnique(0, Pow2(n), 0, 0);
    } else {
      var p := Pow2(n - 1);
      AndLowOnes(x / 2, n - 1);
      AndHalves(x, p, And(x / 2, p - 1));
      DivDiv(x, 2, p);
    }
  }

  lemma AndHalves(x: nat, p: nat, a: nat)
    requires x > 0 && p > 0 && a == And(x / 2, p - 1)
    ensures And(x, 2 * p - 1) == 2 * a + x % 2
  {
    assert (2 * p - 1) / 2 == p - 1 && (2 * p - 1) % 2 == 1;
  }

  lemma {:induction false} AndSymmetric(a: nat, b: nat)
    ensures And(a, b) == And(b, a)
  {
    if a != 0 && b != 0 {
      AndSymmetric(a / 2, b / 2);
    }
  }

  lemma BitOfNot32(x: word, k: nat)
    requires k < 32
    ensures Bit(Not32(x), k) == !Bit(x, k)
  {
    Pow2At32();
    BitOfComplement(x, 32, k);
  }

  lemma {:induction false} BitOfComplement(x: nat, n: nat, k: nat)
    requires x < Pow2(n) && k < n
    ensures Bit(Pow2(n) - 1 - x, k) == !Bit(x, k)
  {
    if k > 0 {
      BitOfComplement(x / 2, n - 1, k - 1);
      assert (Pow2(n) - 1 - x) / 2 == Pow2(n - 1) - 1 - x / 2;
    }
  }

  lemma BitOfShl32(x: word, n: nat, k: nat)
    requires n < 32 && k < 32
    ensures Bit(Shl32(x, n), k) == (n <= k && Bit(x, k - n))
  {
    BitOfShlBy(x, n, k);
  }

  lemma {:induction false} BitOfShlBy(x: word, n: nat, k: nat)
    requires k < 32
    ensures Bit(ShlBy(x, n), k) == (n <= k && Bit(x, k - n))
  {
    if n > 0 {
      var y: nat := ShlBy(x, n - 1);
      Pow2At32();
      BitOfMod(2 * y as int, 32, k);
      if k > 0 {
        BitOfShlBy(x, n - 1, k - 1);
      }
    }
  }

  lemma BitOfShr32(x: word, n: nat, k: nat)
    requires n < 32
    ensures Bit(Shr32(x, n), k) == Bit(x, k + n)
  {
    BitOfShr(x, n, k);
  }

  lemma BitOfMask32(n: nat, k: nat)
    requires k < 32
    ensures Bit(Mask32(n), k) == (n % 32 == 0 || k < n % 32)
  {
    var m := if n % 32 == 0 then 32 else n % 32;
    Pow2At32();
    assert Mask32(n) == Pow2(m) - 1;
    BitOfOnes(m, k);
  }

  lemma {:induction false} BitOfOnes(n: nat, k: nat)
    ensures Bit(Pow2(n) - 1, k) == (k < n)
  {
    if n == 0 {
      BitOfSmall(0, 0, k);
    } else if k > 0 {
      BitOfOnes(n - 1, k - 1);
      assert (Pow2(n) - 1) / 2 == Pow2(n - 1) - 1;
    }
  }

  lemma WordBits(x: word, k: nat)
    requires k >= 32
    ensures !Bit(x, k)
  {
    Pow2At32();
    BitOfSmall(x, 32, k);
  }

  /** `data & (1 << bit)` is non-zero exactly when the bit is set. */
  lemma BitTest(x: word, b: nat)
    requires b < 32
    ensures And(x, Shl32(1, b)) != 0 <==> Bit(x, b)
  {
    hide And, Bit, Pow2, ShlBy;
    ShlOne(b);
    AndOneBit(x, b);
  }

  lemma {:induction false} ShlOne(b: nat)
    requires b < 32
    ensures ShlBy(1, b) == Pow2(b)
  {
    if b > 0 {
      ShlOne(b - 1);
      Pow2Below32(b);
    }
  }

  lemma {:induction false} AndOneBit(x: nat, b: nat)
    ensures And(x, Pow2(b)) != 0 <==> Bit(x, b)
  {
    if x == 0 {
      BitOfSmall(0, 0, b);
    } else if b > 0 {
      AndOneBit(x / 2, b - 1);
    } else {
      assert And(x / 2, 0) == 0;
    }
  }

  lemma {:induction false} TopBit(x: nat, b: nat)
    requires x < Pow2(b + 1)
    ensures Bit(x, b) <==> x >= Pow2(b)
  {
    if b > 0 {
      TopBit(x / 2, b - 1);
    }
  }

  lemma Euclid(x: int, d: nat)
    requires d > 0
    ensures x == d * (x / d) + x % d && 0 <= x % d < d
  {
  }

  lemma QuotientBound(x: nat, a: nat, d: nat)
    requires a > 0 && x < a * d
    ensures 0 <= x / a < d
  {
    assert x == a * (x / a) + x % a;
    if x / a >= d {
      MulMono(d, x / a, a);
    }
    if x / a < 0 {
      MulMono(x / a, -1, a);
    }
  }

  lemma {:induction false} OrSymmetric(a: nat, b: nat)
    ensures Or(a, b) == Or(b, a)
  {
    if a != 0 && b != 0 {
      OrSymmetric(a / 2, b / 2);
    }
  }

  lemma SplitPowers(s: nat)
    requires s <= 32
    ensures Pow2(s) * Pow2(32 - s) == 0x1_0000_0000
  {
    Pow2At32();
    Pow2Add(s, 32 - s);
  }

  lemma OrZero(a: nat)
    ensures Or(a, 0) == a == Or(0, a)
  {
  }
}
