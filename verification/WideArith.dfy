/**
 Wide addition, negation, cleaning and multiplication of the Verilator runtime,
 as carry loops over words, with their meaning on the numbers the words stand for.
 */
module WideArith {
  import opened Bits
  import opened Wide

  lemma Snoc3(a: seq<word>, b: seq<word>, c: seq<word>, i: nat)
    requires i < |a| && i < |b| && i < |c|
    ensures Val(a[..i + 1]) == Val(a[..i]) + PowB(i) * a[i]
    ensures Val(b[..i + 1]) == Val(b[..i]) + PowB(i) * b[i]
    ensures Val(c[..i + 1]) == Val(c[..i]) + PowB(i) * c[i]
  {
    ValTake(a, i);
    ValTake(b, i);
    ValTake(c, i);
  }

  // ---------------------------------------------------------------- addition

  /** The low words o are l + r, less a carry out of weight p. */
  ghost predicate Sums(o: int, l: int, r: int, carry: int, p: int) {
    o + carry * p == l + r
  }

  lemma SumStep(o: nat, l: nat, r: nat, carry: nat, p: nat, x: word, y: word, t: nat)
    requires Sums(o, l, r, carry, p) && carry <= 1 && t == carry + x + y
    ensures t / 0x1_0000_0000 <= 1
    ensures Sums(o + p * (t % 0x1_0000_0000), l + p * x, r + p * y, t / 0x1_0000_0000, 0x1_0000_0000 * p)
  {
    var d, c := t % 0x1_0000_0000, t / 0x1_0000_0000;
    assert t == d + 0x1_0000_0000 * c;
    assert p * (d + 0x1_0000_0000 * c) == p * d + c * (0x1_0000_0000 * p);
    assert p * (carry + x + y) == p * x + p * y + carry * p;
  }

  /** `VL_ADD_W`: the sum modulo the words; the output may not overlap an input. */
  method Add(words: nat, owp: array<word>, lwp: array<word>, rwp: array<word>)
    requires words <= owp.Length && words <= lwp.Length && words <= rwp.Length
    requires owp != lwp && owp != rwp
    modifies owp
    ensures Val(owp[..words]) == (Val(lwp[..words]) + Val(rwp[..words])) % PowB(words)
    ensures owp[words..] == old(owp[words..])
  {
    var carry: u64 := 0;
    for i := 0 to words
      invariant carry <= 1
      invariant Sums(Val(owp[..i]), Val(lwp[..i]), Val(rwp[..i]), carry, PowB(i))
      invariant owp[words..] == old(owp[words..])
    {
      ghost var low := owp[..i];
      SumStep(Val(low), Val(lwp[..i]), Val(rwp[..i]), carry, PowB(i), lwp[i], rwp[i],
              carry as int + lwp[i] as int + rwp[i] as int);
      carry := carry + lwp[i] + rwp[i];
      owp[i] := carry % 0x1_0000_0000;
      carry := carry / 0x1_0000_0000;
      assert owp[..][..i] == low;
      Snoc3(owp[..], lwp[..], rwp[..], i);
      Prefixes(owp, lwp, rwp, i);
    }
    ValBound(owp[..words]);
    DivModUnique(Val(lwp[..words]) + Val(rwp[..words]), PowB(words), carry, Val(owp[..words]));
  }

  lemma Prefixes(a: array<word>, b: array<word>, c: array<word>, i: nat)
    requires i < a.Length && i < b.Length && i < c.Length
    ensures a[..][..i] == a[..i] && b[..][..i] == b[..i] && c[..][..i] == c[..i]
    ensures a[..][..i + 1] == a[..i + 1] && b[..][..i + 1] == b[..i + 1] && c[..][..i + 1] == c[..i + 1]
  {
  }

  // ---------------------------------------------------------------- negation

  /** The two's complement of x modulo p. */
  function Negated(x: nat, p: nat): (r: nat)
    requires x < p
    ensures r < p
  {
    if x == 0 then 0 else p - x
  }

  lemma NegatedCancels(x: nat, p: nat)
    requires x < p
    ensures (Negated(x, p) + x) % p == 0
  {
  }

  /** The low words o are the complement of l plus one, less a carry c out of weight p. */
  ghost predicate Complements(o: int, l: int, c: int, p: int) {
    o + l == p - c * p
  }

  lemma ComplementStep(o: nat, l: nat, c: nat, p: nat, x: word, y: word, c': nat)
    requires Complements(o, l, c, p) && c <= 1
    requires y as int + x as int + 0x1_0000_0000 * c' == 0xffff_ffff + c
    ensures Complements(o + p * y, l + p * x, c', 0x1_0000_0000 * p)
  {
    assert p * (y as int + x as int + 0x1_0000_0000 * c') == p * y + p * x + c' * (0x1_0000_0000 * p);
    assert p * (0xffff_ffff + c) == 0x1_0000_0000 * p - p + c * p;
  }

  lemma ComplementIsNegated(o: nat, l: nat, c: nat, p: nat)
    requires Complements(o, l, c, p) && c <= 1 && o < p && l < p
    ensures o == Negated(l, p)
  {
  }

  /** `VL_NEGATE_W`: the two's complement; the output may not overlap the input. */
  method Negate(words: nat, owp: array<word>, lwp: array<word>)
    requires words <= owp.Length && words <= lwp.Length && owp != lwp
    modifies owp
    ensures Val(lwp[..words]) < PowB(words)
    ensures Val(owp[..words]) == Negated(Val(lwp[..words]), PowB(words))
    ensures (Val(owp[..words]) + Val(lwp[..words])) % PowB(words) == 0
    ensures owp[words..] == old(owp[words..])
  {
    hide Val, PowB, Complements;
    var carry: word := 1;
    NothingNegated(lwp[..0]);
    assert owp[..0] == lwp[..0] == [];
    for i := 0 to words
      invariant carry <= 1
      invariant Complements(Val(owp[..i]), Val(lwp[..i]), carry, PowB(i))
      invariant owp[words..] == old(owp[words..])
    {
      ghost var low, c := owp[..i], carry;
      owp[i] := (Not32(lwp[i]) + carry) as int % 0x1_0000_0000;
      carry := if owp[i] < Not32(lwp[i]) then 1 else 0;
      NegatedWord(lwp[i], c, owp[i], carry);
      PowBNext(i);
      ComplementStep(Val(low), Val(lwp[..i]), c, PowB(i), lwp[i], owp[i], carry);
      assert owp[..][..i] == low;
      Snoc3(owp[..], lwp[..], lwp[..], i);
      Prefixes(owp, lwp, lwp, i);
    }
    ValBound(owp[..words]);
    ValBound(lwp[..words]);
    ComplementIsNegated(Val(owp[..words]), Val(lwp[..words]), carry, PowB(words));
    NegatedCancels(Val(lwp[..words]), PowB(words));
  }

  lemma NothingNegated(s: seq<word>)
    requires s == []
    ensures Complements(Val(s), Val(s), 1, PowB(0))
  {
  }

  lemma NegatedWord(x: word, c: word, y: word, c': word)
    requires c <= 1 && y == (Not32(x) as int + c) % 0x1_0000_0000 && c' == if y < Not32(x) then 1 else 0
    ensures y as int + x as int + 0x1_0000_0000 * c' as int == 0xffff_ffff + c
  {
  }

  // ---------------------------------------------------------------- cleaning and sign

  /** `owp[words - 1] &= VL_MASK_E(obits)`: drops the bits at and above obits. */
  method CleanInPlace(obits: nat, owp: array<word>)
    requires 1 <= obits && Words(obits) <= owp.Length
    modifies owp
    ensures Val(owp[..Words(obits)]) == Val(old(owp[..Words(obits)])) % Pow2(obits)
    ensures owp[Words(obits)..] == old(owp[Words(obits)..])
  {
    var words := Words(obits);
    ghost var was := owp[..words];
    CleanedTop(was, obits);
    AndBound(owp[words - 1], Mask32(obits));
    owp[words - 1] := And(owp[words - 1], Mask32(obits));
    assert owp[..words] == was[words - 1 := owp[words - 1]];
  }

  lemma CleanedTop(s: seq<word>, obits: nat)
    requires obits >= 1 && |s| == Words(obits)
    ensures And(s[|s| - 1], Mask32(obits)) <= s[|s| - 1]
    ensures Val(s[|s| - 1 := And(s[|s| - 1], Mask32(obits))]) == Val(s) % Pow2(obits)
  {
    hide Val, PowB, And, Pow2, Mask32;
    var n := |s| - 1;
    var b := obits - 32 * n;
    var top := s[n];
    MaskOfRest(obits, n);
    AndBound(top, Mask32(obits));
    AndLowOnes(top, b);
    TopReplaced(s, n, And(top, Mask32(obits)));
    PowBIsPow2(n);
    Pow2Add(32 * n, b);
    ValBound(s[..n]);
    CleanedAlgebra(Val(s[..n]), top, PowB(n), Pow2(b));
  }

  lemma TopReplaced(s: seq<word>, n: nat, x: word)
    requires |s| == n + 1
    ensures Val(s) == Val(s[..n]) + PowB(n) * s[n]
    ensures Val(s[n := x]) == Val(s[..n]) + PowB(n) * x
  {
    hide Val, PowB;
    var t := s[n := x];
    assert t[..n] == s[..n];
    ValTake(s, n);
    ValTake(t, n);
    assert s[..n + 1] == s && t[..n + 1] == t;
  }

  lemma CleanedAlgebra(lo: nat, top: nat, p: nat, a: nat)
    requires lo < p && a > 0
    ensures p * a > 0 && (lo + p * top) % (p * a) == lo + p * (top % a)
  {
    var q, r := top / a, top % a;
    assert top == a * q + r;
    MulMono(r, a - 1, p);
    assert p * (a - 1) == p * a - p;
    assert p * (a * q + r) == q * (p * a) + p * r;
    DivModUnique(lo + p * top, p * a, q, lo + p * r);
  }

  /** The two's-complement reading of an n-bit number. */
  function Signed(x: nat, n: nat): int
    requires n >= 1
  {
    if x >= Pow2(n - 1) then x - Pow2(n) else x
  }

  /** `VL_SIGN_E(lbits, top word)`: 1 for a negative clean number, else 0. */
  lemma SignWord(s: seq<word>, lbits: nat)
    requires lbits >= 1 && |s| == Words(lbits) && Val(s) < Pow2(lbits)
    ensures Shr32(s[|s| - 1], lbits - 1) == if Val(s) >= Pow2(lbits - 1) then 1 else 0
  {
    hide Val, PowB, ShlBy, Shr, Pow2, Shr32;
    var n, b := |s| - 1, (lbits - 1) % 32;
    assert lbits - 1 == 32 * n + b && lbits == 32 * n + b + 1;
    SameShift(s[n], lbits - 1);
    TopDigit(s, n, b);
    Shr32Def(s[n], b);
  }

  lemma TopDigit(s: seq<word>, n: nat, b: nat)
    requires |s| == n + 1 && Val(s) < Pow2(32 * n + b + 1)
    ensures s[n] / Pow2(b) == if Val(s) >= Pow2(32 * n + b) then 1 else 0
  {
    hide Val, PowB, Pow2;
    assert s[..n + 1] == s;
    ValTake(s, n);
    ValBound(s[..n]);
    PowBIsPow2(n);
    Pow2Add(32 * n, b);
    Pow2Add(32 * n, b + 1);
    Pow2Next(b);
    SignAlgebra(Val(s[..n]), s[n], PowB(n), Pow2(b));
  }

  lemma SameShift(x: word, n: nat)
    ensures Shr32(x, n) == Shr32(x, n % 32)
  {
  }

  lemma SignAlgebra(lo: nat, top: nat, p: nat, a: nat)
    requires lo < p && a > 0 && lo + p * top < p * (2 * a)
    ensures top / a == if lo + p * top >= p * a then 1 else 0
  {
    if top >= 2 * a {
      MulMono(2 * a, top, p);
    }
    if top >= a {
      MulMono(a, top, p);
      DivModUnique(top, a, 1, top - a);
    } else {
      MulMono(top, a - 1, p);
      assert p * (a - 1) == p * a - p;
      DivModUnique(top, a, 0, top);
    }
  }

  // ---------------------------------------------------------------- multiplication

  lemma ValUpdate(s: seq<word>, q: nat, x: word)
    requires q < |s|
    ensures Val(s[q := x]) == Val(s) + PowB(q) * (x - s[q])
  {
    var t := s[q := x];
    ValSplit(s, q + 1);
    ValSplit(t, q + 1);
    assert t[q + 1..] == s[q + 1..] && t[..q] == s[..q];
    ValTake(s, q);
    ValTake(t, q);
    assert PowB(q) * (x - s[q]) == PowB(q) * x - PowB(q) * s[q];
  }

  /** The output o, with a pending word mul of weight p and what was lost above weight m, is acc. */
  ghost predicate Accumulates(o: nat, mul: nat, p: nat, lost: nat, m: nat, acc: nat) {
    o + mul * p + lost * m == acc
  }

  lemma AccumulateStep(o: nat, mul: nat, p: nat, lost: nat, m: nat, acc: nat, x: word, t: nat, o': nat)
    requires Accumulates(o, mul, p, lost, m, acc) && mul <= 0xffff_fffe_0000_0001
    requires t == mul + x && o' == o + p * (t % 0x1_0000_0000 - x)
    ensures t < 0x1_0000_0000_0000_0000 && t / 0x1_0000_0000 <= 0xffff_ffff
    ensures Accumulates(o', t / 0x1_0000_0000, 0x1_0000_0000 * p, lost, m, acc)
  {
    var d, c := t % 0x1_0000_0000, t / 0x1_0000_0000;
    assert t == d + 0x1_0000_0000 * c;
    assert p * (d + 0x1_0000_0000 * c - x) == p * (d - x) + c * (0x1_0000_0000 * p);
    assert p * (t - x) == mul * p;
  }

  /** The inner carry loop: adds `mul` at word `from`; what passes the top word is lost. */
  method AccumulateProduct(words: nat, owp: array<word>, from: nat, product: u64,
                           ghost lost: nat, ghost acc: nat)
    returns (ghost lost': nat)
    requires words <= owp.Length && product <= 0xffff_fffe_0000_0001
    requires Accumulates(Val(owp[..words]), 0, 0, lost, PowB(words), acc)
    modifies owp
    ensures Accumulates(Val(owp[..words]), 0, 0, lost', PowB(words), acc + product * PowB(from))
    ensures owp[words..] == old(owp[words..])
  {
    ghost var acc' := acc + product * PowB(from);
    if from >= words {
      PowBAdd(words, from - words);
      lost' := lost + product * PowB(from - words);
      ProductBeyondTop(Val(owp[..words]), product, PowB(from - words), lost, PowB(words), acc);
      return;
    }
    var mul: u64 := product;
    ProductStarts(Val(owp[..words]), product, PowB(from), lost, PowB(words), acc);
    for qword := from to words
      invariant mul <= 0xffff_fffe_0000_0001
      invariant Accumulates(Val(owp[..words]), mul, PowB(qword), lost, PowB(words), acc')
      invariant owp[words..] == old(owp[words..])
    {
      ghost var was := owp[..words];
      ghost var digit: word := (mul as int + owp[qword] as int) % 0x1_0000_0000;
      ValUpdate(was, qword, digit);
      AccumulateStep(Val(was), mul, PowB(qword), lost, PowB(words), acc', owp[qword],
                     mul as int + owp[qword] as int, Val(was[qword := digit]));
      mul := mul + owp[qword];
      owp[qword] := mul % 0x1_0000_0000;
      mul := mul / 0x1_0000_0000;
      assert owp[..words] == was[qword := owp[qword]];
    }
    lost' := lost + mul;
    ProductEnds(Val(owp[..words]), mul, lost, PowB(words), acc');
  }

  lemma ProductStarts(o: nat, product: nat, p: nat, lost: nat, m: nat, acc: nat)
    requires Accumulates(o, 0, 0, lost, m, acc)
    ensures Accumulates(o, product, p, lost, m, acc + product * p)
  {
  }

  lemma ProductEnds(o: nat, mul: nat, lost: nat, m: nat, acc: nat)
    requires Accumulates(o, mul, m, lost, m, acc)
    ensures Accumulates(o, 0, 0, lost + mul, m, acc)
  {
  }

  lemma ProductBeyondTop(o: nat, product: nat, p: nat, lost: nat, m: nat, acc: nat)
    requires Accumulates(o, 0, 0, lost, m, acc)
    ensures Accumulates(o, 0, 0, lost + product * p, m, acc + product * (m * p))
  {
    assert (lost + product * p) * m == lost * m + product * (m * p);
  }

  /** The part of l * r formed so far: full rows below lw and rw words of row lw. */
  ghost function Rows(l: seq<word>, r: seq<word>, lw: nat, rw: nat): nat
    requires lw < |l| && rw <= |r|
  {
    Val(l[..lw]) * Val(r) + PowB(lw) * l[lw] * Val(r[..rw])
  }

  lemma RowsStep(l: seq<word>, r: seq<word>, lw: nat, rw: nat)
    requires lw < |l| && rw < |r|
    ensures Rows(l, r, lw, rw + 1) == Rows(l, r, lw, rw) + l[lw] * r[rw] * PowB(lw + rw)
  {
    ValTake(r, rw);
    PowBAdd(lw, rw);
    RowAlgebra(PowB(lw), l[lw], Val(r[..rw]), PowB(rw), r[rw]);
  }

  lemma RowAlgebra(p: nat, x: nat, r: nat, p': nat, y: nat)
    ensures p * x * (r + p' * y) == p * x * r + x * y * (p * p')
  {
    assert p * x * (p' * y) == x * y * (p * p');
  }

  lemma RowDone(l: seq<word>, r: seq<word>, lw: nat)
    requires lw < |l|
    ensures Rows(l, r, lw, |r|) == Val(l[..lw + 1]) * Val(r)
    ensures Rows(l, r, lw, 0) == Val(l[..lw]) * Val(r)
  {
    assert r[..|r|] == r && r[..0] == [];
    assert Val([]) == 0;
    hide Val, PowB;
    ValTake(l, lw);
    RowSum(Val(l[..lw]), PowB(lw), l[lw], Val(r));
    NoProduct(PowB(lw), l[lw]);
  }

  lemma RowSum(a: int, b: int, c: int, d: int)
    ensures (a + b * c) * d == a * d + b * c * d
  {
  }

  lemma NoProduct(a: int, b: int)
    ensures a * b * 0 == 0
  {
  }

  /** `VL_MUL_W`: the product modulo the words; the output may not overlap an input. */
  method Multiply(words: nat, owp: array<word>, lwp: array<word>, rwp: array<word>)
    requires words <= owp.Length && words <= lwp.Length && words <= rwp.Length
    requires owp != lwp && owp != rwp
    modifies owp
    ensures Val(owp[..words]) == Val(lwp[..words]) * Val(rwp[..words]) % PowB(words)
    ensures owp[words..] == old(owp[words..])
  {
    ghost var tail := owp[words..];
    Clear(owp, words);
    ValZeros(owp[..words]);
    ghost var l, r, lost := lwp[..words], rwp[..words], 0;
    assert l[..0] == [];
    for lword := 0 to words
      invariant lwp[..words] == l && rwp[..words] == r && owp[words..] == tail
      invariant Accumulates(Val(owp[..words]), 0, 0, lost, PowB(words), Val(l[..lword]) * Val(r))
    {
      RowDone(l, r, lword);
      for rword := 0 to words
        invariant lwp[..words] == l && rwp[..words] == r && owp[words..] == tail
        invariant Accumulates(Val(owp[..words]), 0, 0, lost, PowB(words), Rows(l, r, lword, rword))
      {
        WordProduct(lwp[lword], rwp[rword]);
        RowsStep(l, r, lword, rword);
        lost := AccumulateProduct(words, owp, lword + rword, lwp[lword] as int * rwp[rword] as int, lost,
                                  Rows(l, r, lword, rword));
      }
    }
    assert l[..words] == l;
    ValBound(owp[..words]);
    DivModUnique(Val(l) * Val(r), PowB(words), lost, Val(owp[..words]));
  }

  lemma WordProduct(x: word, y: word)
    ensures 0 <= x as int * y as int <= 0xffff_fffe_0000_0001
  {
    MulMono(x, 0xffff_ffff, y);
  }
}
