/**
 Signed wide multiplication, division and modulus, and wide exponentiation, on
 top of the unsigned routines (section 11.4.3 of IEEE 1800-2017).
 */
module WideSigned {
  import opened Bits
  import opened Wide
  import opened WideArith
  import opened WideNormalize
  import opened WideDiv

  // ---------------------------------------------------------------- arithmetic modulo m

  lemma ModShift(a: int, k: int, m: nat)
    requires m > 0
    ensures (a + k * m) % m == a % m
  {
    Euclid(a, m);
    assert a + k * m == (a / m + k) * m + a % m;
    DivModUnique(a + k * m, m, a / m + k, a % m);
  }

  lemma ModOfNegation(c: int, x: int, m: nat)
    requires m > 0 && c % m == x % m
    ensures (-c) % m == (-x) % m
  {
    Euclid(c, m);
    Euclid(x, m);
    var k := x / m - c / m;
    assert -c == -x + k * m;
    ModShift(-x, k, m);
  }

  /** The width divides the words that hold it. */
  lemma WidthDividesWords(lbits: nat, words: nat)
    requires lbits <= 32 * words
    ensures PowB(words) == Pow2(lbits) * Pow2(32 * words - lbits)
  {
    PowBIsPow2(words);
    Pow2Add(lbits, 32 * words - lbits);
  }

  /** Negating in words and cleaning is negating modulo the width. */
  lemma NegatedClean(x: nat, lbits: nat, words: nat)
    requires lbits <= 32 * words && x < PowB(words)
    ensures Negated(x, PowB(words)) % Pow2(lbits) == (-(x as int)) % Pow2(lbits)
  {
    hide Pow2, PowB;
    WidthDividesWords(lbits, words);
    if x != 0 {
      var k := Pow2(32 * words - lbits);
      assert Negated(x, PowB(words)) == -(x as int) + k * Pow2(lbits);
      ModShift(-(x as int), k, Pow2(lbits));
    }
  }

  lemma NegativeMod(x: nat, m: nat)
    requires 0 < x <= m
    ensures (-(x as int)) % m == m - x || (x == m && (-(x as int)) % m == 0)
  {
    if x == m {
      DivModUnique(-(x as int), m, -1, 0);
    } else {
      DivModUnique(-(x as int), m, -1, m - x);
    }
  }

  // ---------------------------------------------------------------- magnitudes

  function Abs(x: int): nat {
    if x < 0 then -x else x
  }

  lemma SignedMagnitude(x: nat, lbits: nat)
    requires lbits >= 1 && x < Pow2(lbits)
    ensures Pow2(lbits) == 2 * Pow2(lbits - 1)
    ensures Abs(Signed(x, lbits)) <= Pow2(lbits - 1)
    ensures x >= Pow2(lbits - 1) ==> Abs(Signed(x, lbits)) == (-(x as int)) % Pow2(lbits)
  {
    if x >= Pow2(lbits - 1) {
      NegativeMod(x, Pow2(lbits));
    }
  }

  /**
   The sign test and conditional negate-and-clean at the head of the signed
   routines: the operand itself when it is not negative, else a local copy of its
   magnitude.
   */
  method Magnitude(lbits: nat, xwp: array<word>) returns (uwp: array<word>, neg: bool)
    requires 1 <= lbits && Words(lbits) <= xwp.Length && Words(lbits) <= MULS_MAX_WORDS
    requires Val(xwp[..Words(lbits)]) < Pow2(lbits)
    ensures Words(lbits) <= uwp.Length && (uwp == xwp || fresh(uwp))
    ensures neg <==> Signed(Val(xwp[..Words(lbits)]), lbits) < 0
    ensures Val(uwp[..Words(lbits)]) == Abs(Signed(Val(xwp[..Words(lbits)]), lbits))
  {
    var words := Words(lbits);
    ghost var x := Val(xwp[..words]);
    SignWord(xwp[..words], lbits);
    SignedMagnitude(x, lbits);
    var sign := Shr32(xwp[words - 1], lbits - 1);
    neg := sign != 0;
    uwp := xwp;
    if neg {
      uwp := new word[MULS_MAX_WORDS];
      Negate(words, uwp, xwp);
      CleanInPlace(lbits, uwp);
      NegatedClean(x, lbits, words);
    }
  }

  /** Negate-and-clean of a result. */
  method NegateClean(lbits: nat, owp: array<word>, qwp: array<word>)
    requires 1 <= lbits && Words(lbits) <= owp.Length && Words(lbits) <= qwp.Length && owp != qwp
    modifies owp
    ensures Val(owp[..Words(lbits)]) == (-(Val(qwp[..Words(lbits)]) as int)) % Pow2(lbits)
    ensures owp[Words(lbits)..] == old(owp[Words(lbits)..])
  {
    var words := Words(lbits);
    ghost var q := Val(qwp[..words]);
    Negate(words, owp, qwp);
    CleanInPlace(lbits, owp);
    NegatedClean(q, lbits, words);
  }

  // ---------------------------------------------------------------- signed division

  /** Division rounding toward zero; zero for a zero divisor. */
  function TruncDiv(a: int, b: int): int {
    if b == 0 then 0
    else var q := Abs(a) / Abs(b); if (a < 0) != (b < 0) then -q else q
  }

  /** The remainder that goes with it: it has the sign of the dividend. */
  function TruncMod(a: int, b: int): int {
    if b == 0 then 0
    else var r := Abs(a) % Abs(b); if a < 0 then -r else r
  }

  /** Truncating quotient and remainder characterized without reference to magnitudes. */
  lemma TruncDivMod(a: int, b: int)
    requires b != 0
    ensures a == TruncDiv(a, b) * b + TruncMod(a, b)
    ensures Abs(TruncMod(a, b)) < Abs(b)
    ensures TruncMod(a, b) != 0 ==> (TruncMod(a, b) < 0 <==> a < 0)
  {
    var q, r := Abs(a) / Abs(b), Abs(a) % Abs(b);
    Euclid(Abs(a), Abs(b));
    SignedParts(a, b, q, r);
  }

  lemma SignedParts(a: int, b: int, q: int, r: int)
    requires Abs(a) == Abs(b) * q + r
    ensures a == (if (a < 0) != (b < 0) then -q else q) * b + (if a < 0 then -r else r)
  {
    assert (-q) * b == -(q * b) && q * (-b) == -(q * b);
  }

  lemma SmallIsClean(x: nat, lbits: nat)
    requires x < Pow2(lbits)
    ensures x % Pow2(lbits) == x
  {
    DivModUnique(x, Pow2(lbits), 0, x);
  }

  lemma QuotientBelow(a: nat, b: nat)
    ensures 0 <= DivMod(a, b, false) <= a && 0 <= DivMod(a, b, true) <= a
  {
    if b > 0 {
      Euclid(a, b);
      DivShrinks(a, b);
      assert b * (a / b) >= 0;
    }
  }

  /** `VL_DIVS_WWW` on clean operands: the truncating quotient modulo the width. */
  method DivSigned(lbits: nat, owp: array<word>, lwp: array<word>, rwp: array<word>)
    requires 1 <= lbits && Words(lbits) <= MULS_MAX_WORDS
    requires Words(lbits) <= owp.Length && Words(lbits) <= lwp.Length && Words(lbits) <= rwp.Length
    requires owp != lwp && owp != rwp
    requires Val(lwp[..Words(lbits)]) < Pow2(lbits) && Val(rwp[..Words(lbits)]) < Pow2(lbits)
    modifies owp
    ensures Val(owp[..Words(lbits)])
            == TruncDiv(Signed(Val(lwp[..Words(lbits)]), lbits), Signed(Val(rwp[..Words(lbits)]), lbits))
               % Pow2(lbits)
    ensures owp[Words(lbits)..] == old(owp[Words(lbits)..])
  {
    hide Val, PowB, Pow2;
    ghost var words := Words(lbits);
    ghost var l, r := Signed(Val(lwp[..words]), lbits), Signed(Val(rwp[..words]), lbits);
    SignedMagnitude(Val(lwp[..words]), lbits);
    QuotientBelow(Abs(l), Abs(r));
    var ltup, lsign := Magnitude(lbits, lwp);
    var rtup, rsign := Magnitude(lbits, rwp);
    if lsign != rsign {
      var qNoSign := new word[MULS_MAX_WORDS];
      ModDiv(lbits, qNoSign, ltup, rtup, false);
      NegateClean(lbits, owp, qNoSign);
    } else {
      ModDiv(lbits, owp, ltup, rtup, false);
      SmallIsClean(Val(owp[..words]), lbits);
    }
  }

  /** `VL_MODDIVS_WWW` on clean operands: the truncating remainder modulo the width. */
  method ModDivSigned(lbits: nat, owp: array<word>, lwp: array<word>, rwp: array<word>)
    requires 1 <= lbits && Words(lbits) <= MULS_MAX_WORDS
    requires Words(lbits) <= owp.Length && Words(lbits) <= lwp.Length && Words(lbits) <= rwp.Length
    requires owp != lwp && owp != rwp
    requires Val(lwp[..Words(lbits)]) < Pow2(lbits) && Val(rwp[..Words(lbits)]) < Pow2(lbits)
    modifies owp
    ensures Val(owp[..Words(lbits)])
            == TruncMod(Signed(Val(lwp[..Words(lbits)]), lbits), Signed(Val(rwp[..Words(lbits)]), lbits))
               % Pow2(lbits)
    ensures owp[Words(lbits)..] == old(owp[Words(lbits)..])
  {
    hide Val, PowB, Pow2;
    ghost var words := Words(lbits);
    ghost var l, r := Signed(Val(lwp[..words]), lbits), Signed(Val(rwp[..words]), lbits);
    SignedMagnitude(Val(lwp[..words]), lbits);
    QuotientBelow(Abs(l), Abs(r));
    var ltup, lsign := Magnitude(lbits, lwp);
    var rtup, rsign := Magnitude(lbits, rwp);
    if lsign {
      var qNoSign := new word[MULS_MAX_WORDS];
      ModDiv(lbits, qNoSign, ltup, rtup, true);
      NegateClean(lbits, owp, qNoSign);
    } else {
      ModDiv(lbits, owp, ltup, rtup, true);
      SmallIsClean(Val(owp[..words]), lbits);
    }
  }

  // ---------------------------------------------------------------- signed multiplication

  /** The negation loop at the end of `VL_MULS_WWW`, in place. */
  method NegateInPlace(words: nat, owp: array<word>)
    requires words <= owp.Length
    modifies owp
    ensures Val(old(owp[..words])) < PowB(words)
    ensures Val(owp[..words]) == Negated(Val(old(owp[..words])), PowB(words))
    ensures owp[words..] == old(owp[words..])
  {
    ghost var was, tail := owp[..words], owp[words..];
    var carry: u64 := 0;
    hide Val, PowB, NegatedTo, Negated;
    NegationStarts(was);
    for i := 0 to words
      invariant owp[words..] == tail && carry <= 1 && (i > 0 || carry == 0)
      invariant NegatedTo(owp[..words], was, i, if i == 0 then 1 else carry)
    {
      ghost var now, c := owp[..words], if i == 0 then 1 else carry;
      carry := NegateWord(owp, i, carry);
      assert owp[..words] == now[i := owp[i]];
      NegationStep(now, was, i, c, owp[i], carry);
    }
    NegationEnds(owp[..words], was, if words == 0 then 1 else carry);
  }

  /** The body of the loop, for one word. */
  method NegateWord(owp: array<word>, i: nat, carryIn: u64) returns (carry: u64)
    requires i < owp.Length && carryIn <= 1 && (i > 0 || carryIn == 0)
    modifies owp
    ensures owp[..] == old(owp[..])[i := owp[i]]
    ensures carry <= 1
    ensures owp[i] as int + old(owp[i]) + 0x1_0000_0000 * carry == 0xffff_ffff + if i == 0 then 1 else carryIn
  {
    carry := carryIn + Not32(owp[i]);
    if i == 0 { carry := carry + 1; }
    NegatedSum(owp[i], if i == 0 then 1 else carryIn, carry);
    owp[i] := carry % 0x1_0000_0000;
    carry := carry / 0x1_0000_0000;
  }

  /** The first i words of was are negated in now, with carry c into the next one. */
  ghost predicate NegatedTo(now: seq<word>, was: seq<word>, i: nat, c: int) {
    && i <= |was| == |now| && now[i..] == was[i..]
    && Complements(Val(now[..i]), Val(was[..i]), c, PowB(i))
  }

  lemma NegationStarts(was: seq<word>)
    ensures NegatedTo(was, was, 0, 1)
  {
    NothingNegated(was[..0]);
  }

  lemma NegationStep(now: seq<word>, was: seq<word>, i: nat, c: nat, y: word, c': nat)
    requires i < |was| && NegatedTo(now, was, i, c) && c <= 1
    requires y as int + now[i] + 0x1_0000_0000 * c' == 0xffff_ffff + c
    ensures NegatedTo(now[i := y], was, i + 1, c')
  {
    hide Val, PowB, Complements;
    assert now[i..][0] == was[i..][0];
    PowBNext(i);
    ComplementStep(Val(now[..i]), Val(was[..i]), c, PowB(i), was[i], y, c');
    var next := now[i := y];
    assert next[..i] == now[..i] && next[i + 1..] == now[i..][1..] && was[i + 1..] == was[i..][1..];
    ValTake(next, i);
    ValTake(was, i);
  }

  lemma NegationEnds(now: seq<word>, was: seq<word>, c: nat)
    requires NegatedTo(now, was, |was|, c) && c <= 1
    ensures Val(was) < PowB(|was|) && Val(now) == Negated(Val(was), PowB(|was|))
  {
    hide Val, PowB, Complements;
    assert now[..|was|] == now && was[..|was|] == was;
    ValBound(now);
    ValBound(was);
    ComplementIsNegated(Val(now), Val(was), c, PowB(|was|));
  }

  lemma NegatedSum(x: word, c: nat, total: nat)
    requires c <= 1 && total == Not32(x) + c
    ensures total / 0x1_0000_0000 <= 1
    ensures total % 0x1_0000_0000 + x + 0x1_0000_0000 * (total / 0x1_0000_0000) == 0xffff_ffff + c
  {
  }

  /** `VL_MULS_WWW` on clean operands: congruent to the signed product modulo the width. */
  method MulSigned(lbits: nat, owp: array<word>, lwp: array<word>, rwp: array<word>)
    requires 1 <= lbits && Words(lbits) <= MULS_MAX_WORDS
    requires Words(lbits) <= owp.Length && Words(lbits) <= lwp.Length && Words(lbits) <= rwp.Length
    requires owp != lwp && owp != rwp
    requires Val(lwp[..Words(lbits)]) < Pow2(lbits) && Val(rwp[..Words(lbits)]) < Pow2(lbits)
    modifies owp
    ensures Val(owp[..Words(lbits)]) % Pow2(lbits)
            == Signed(Val(lwp[..Words(lbits)]), lbits) * Signed(Val(rwp[..Words(lbits)]), lbits) % Pow2(lbits)
    ensures owp[Words(lbits)..] == old(owp[Words(lbits)..])
  {
    hide Val, PowB, Pow2;
    var words := Words(lbits);
    ghost var l, r := Signed(Val(lwp[..words]), lbits), Signed(Val(rwp[..words]), lbits);
    var lwusp, lneg := Magnitude(lbits, lwp);
    var rwusp, rneg := Magnitude(lbits, rwp);
    Multiply(words, owp, lwusp, rwusp);
    CleanInPlace(lbits, owp);
    ghost var c := Val(owp[..words]);
    WidthDividesWords(lbits, words);
    ModTwice(Abs(l) * Abs(r), Pow2(lbits), Pow2(32 * words - lbits));
    assert c == Abs(l) * Abs(r) % Pow2(lbits);
    SmallIsClean(c, lbits);
    if lneg != rneg {
      NegateInPlace(words, owp);
      NegatedClean(c, lbits, words);
      ModOfNegation(c, Abs(l) * Abs(r), Pow2(lbits));
    }
    SignedProduct(l, r);
  }

  lemma SignedProduct(l: int, r: int)
    ensures l * r == if (l < 0) != (r < 0) then -(Abs(l) * Abs(r)) else Abs(l) * Abs(r)
  {
  }

  // ---------------------------------------------------------------- exponentiation

  function Exp(b: nat, n: nat): nat {
    if n == 0 then 1 else b * Exp(b, n - 1)
  }

  lemma {:induction false} ExpAdd(b: nat, m: nat, n: nat)
    ensures Exp(b, m + n) == Exp(b, m) * Exp(b, n)
  {
    if m > 0 {
      ExpAdd(b, m - 1, n);
      Regrouped(b, Exp(b, m - 1), Exp(b, n));
    }
  }

  lemma Regrouped(a: nat, b: nat, c: nat)
    ensures a * (b * c) == (a * b) * c
  {
  }

  /** Products may be reduced factor by factor. */
  lemma ModProduct(a: nat, b: nat, m: nat)
    requires m > 0
    ensures (a % m) * (b % m) % m == a * b % m
  {
    Euclid(a, m);
    Euclid(b, m);
    var a', b' := a % m, b % m;
    var k := (a / m) * b + a' * (b / m);
    assert a * b == a' * b' + k * m by {
      assert a * b == (m * (a / m) + a') * b == m * (a / m) * b + a' * (m * (b / m) + b');
    }
    ModShift(a' * b', k, m);
  }

  /** The low n+1 bits of e are the low n bits and bit n. */
  lemma LowBits(e: nat, n: nat)
    ensures e % Pow2(n + 1) == e % Pow2(n) + if Bit(e, n) then Pow2(n) else 0
  {
    DivDiv(e, Pow2(n), 2);
    BitDef(e, n);
    ShrDef(e, n);
    assert Pow2(n) * 2 == Pow2(n + 1);
  }

  /** Square-and-multiply state after `bit` bits of the exponent e, modulo m. */
  ghost predicate Powering(o: nat, p: nat, b: nat, e: nat, bit: nat, m: nat)
    requires m > 0
  {
    && o == Exp(b, e % Pow2(bit)) % m
    && p == Exp(b, if bit == 0 then 1 else Pow2(bit - 1)) % m
  }

  lemma PoweringStep(o: nat, p: nat, b: nat, e: nat, bit: nat, m: nat, p': nat, o': nat)
    requires m > 0 && Powering(o, p, b, e, bit, m)
    requires p' == if bit == 0 then p else p * p % m
    requires o' == if Bit(e, bit) then o * p' % m else o
    ensures Powering(o', p', b, e, bit + 1, m)
  {
    if bit > 0 {
      ExpAdd(b, Pow2(bit - 1), Pow2(bit - 1));
      ModProduct(Exp(b, Pow2(bit - 1)), Exp(b, Pow2(bit - 1)), m);
    }
    LowBits(e, bit);
    if Bit(e, bit) {
      ExpAdd(b, e % Pow2(bit), Pow2(bit));
      ModProduct(Exp(b, e % Pow2(bit)), Exp(b, Pow2(bit)), m);
    }
  }

  /** `VL_POW_WWW`: the power modulo the words, for the low rbits of the exponent. */
  method Power(obits: nat, rbits: nat, owp: array<word>, lwp: array<word>, rwp: array<word>)
    requires 1 <= obits && Words(obits) <= MULS_MAX_WORDS
    requires Words(obits) <= owp.Length && Words(obits) <= lwp.Length && Words(rbits) <= rwp.Length
    requires owp != lwp && owp != rwp
    modifies owp
    ensures Val(owp[..Words(obits)])
            == Exp(Val(lwp[..Words(obits)]), Val(rwp[..Words(rbits)]) % Pow2(rbits)) % PowB(Words(obits))
    ensures owp[Words(obits)..] == old(owp[Words(obits)..])
  {
    hide Val, PowB, Pow2, Exp, And, Shl32, Bit, Powering;
    var words := Words(obits);
    ghost var b, e, m, rs := Val(lwp[..words]), Val(rwp[..Words(rbits)]), PowB(words), rwp[..Words(rbits)];
    ghost var tail := owp[words..];
    owp[0] := 1;
    for i := 1 to words
      invariant owp[0] == 1 && forall k :: 1 <= k < i ==> owp[k] == 0
      invariant owp[words..] == tail
    {
      owp[i] := 0;
    }
    var powstore := new word[MULS_MAX_WORDS];
    var lastpowstore := new word[MULS_MAX_WORDS];
    var lastoutstore := new word[MULS_MAX_WORDS];
    AssignW(words, powstore, lwp);
    PoweringStarts(owp[..words], powstore[..words], e);
    assert lwp[..words] == powstore[..words];
    for bit := 0 to rbits
      invariant owp[words..] == tail && rwp[..Words(rbits)] == rs
      invariant Powering(Val(owp[..words]), Val(powstore[..words]), b, e, bit, m)
    {
      ghost var o, p := Val(owp[..words]), Val(powstore[..words]);
      if bit > 0 {
        AssignW(words, lastpowstore, powstore);
        Multiply(words, powstore, lastpowstore, lastpowstore);
      }
      BitIsSetW(rs, bit);
      assert rwp[bit / 32] == rs[bit / 32];
      if And(rwp[bit / 32], Shl32(1, bit % 32)) != 0 {
        AssignW(words, lastoutstore, owp);
        Multiply(words, owp, lastoutstore, powstore);
      }
      PoweringStep(o, p, b, e, bit, m, Val(powstore[..words]), Val(owp[..words]));
    }
    PoweringEnds(Val(owp[..words]), Val(powstore[..words]), b, e, rbits, m);
  }

  lemma PoweringEnds(o: nat, p: nat, b: nat, e: nat, bit: nat, m: nat)
    requires m > 0 && Powering(o, p, b, e, bit, m)
    ensures o == Exp(b, e % Pow2(bit)) % m
  {
  }

  lemma PoweringStarts(o: seq<word>, p: seq<word>, e: nat)
    requires |o| == |p| >= 1 && o[0] == 1 && forall k :: 1 <= k < |o| ==> o[k] == 0
    ensures Powering(Val(o), Val(p), Val(p), e, 0, PowB(|o|))
  {
    ValTrim(o, 1);
    assert o[..1] == [1];
    Val1(1);
    ValBound(o);
    ValBound(p);
    DivModUnique(Val(o), PowB(|o|), 0, Val(o));
    DivModUnique(Val(p), PowB(|p|), 0, Val(p));
    assert e % 1 == 0;
    assert Exp(Val(p), 1) == Val(p) * Exp(Val(p), 0) == Val(p);
  }
}
