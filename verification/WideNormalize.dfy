/**
 The normalization of wide division in the Verilator runtime: dividend and
 divisor are shifted left until the top bit of the divisor's top word is set, and
 the remainder is shifted back.
 */
module WideNormalize {
  import opened Bits
  import opened Wide

  const MULS_MAX_WORDS: nat := 16

  /** The bits that `x << s` moves out: `x >> (32 - s)` for a non-zero shift. */
  function ShlOut(x: word, s: nat): word
    requires s < 32
  {
    if s != 0 then Shr32(x, 32 - s) else 0
  }

  /** The bits that a right shift by s takes in from the word above. */
  function ShrIn(y: word, s: nat): word
    requires s < 32
  {
    if s != 0 then Shl32(y, 32 - s) else 0
  }

  /** `shift_mask`: keeps a word whole unless the shift amount is 0. */
  function ShiftMask(s: nat): word {
    if s != 0 then 0xffff_ffff else 0
  }

  lemma AndShiftMask(s: nat, x: word)
    ensures And(ShiftMask(s), x) == if s != 0 then x else 0
  {
    Pow2At32();
    AndLowOnes(x, 32);
    AndSymmetric(ShiftMask(s), x);
  }

  /** `(x << s) | (mask & (y >> (32 - s)))`. */
  function ShlJoin(x: word, y: word, s: nat): nat
    requires s < 32
  {
    Or(Shl32(x, s), And(ShiftMask(s), Shr32(y, 32 - s)))
  }

  /** A left shift splits the scaled word into the part kept and the part moved out. */
  lemma ShlSplits(x: word, s: nat)
    requires s < 32
    ensures x * Pow2(s) == 0x1_0000_0000 * ShlOut(x, s) + Shl32(x, s)
    ensures ShlOut(x, s) < Pow2(s)
  {
    Shl32Def(x, s);
    if s != 0 {
      SplitPowers(s);
      Shr32Def(x, 32 - s);
      ShiftCancels(x, Pow2(s), Pow2(32 - s));
    }
  }

  /** A right shift splits a word into the part kept and the part moved out. */
  lemma ShrSplits(x: word, s: nat)
    requires s < 32
    ensures x == Pow2(s) * Shr(x, s) + x % Pow2(s) && 0 <= x % Pow2(s) < Pow2(s)
  {
    ShrDef(x, s);
    Euclid(x, Pow2(s));
  }

  lemma ShrFits(x: word, s: nat)
    requires s < 32
    ensures Shr(x, s) < Pow2(32 - s)
  {
    SplitPowers(s);
    ShrDef(x, s);
    QuotientBound(x, Pow2(s), Pow2(32 - s));
  }

  lemma WordScales(x: nat, a: nat, d: nat)
    requires a > 0 && d > 0 && a * d == 0x1_0000_0000
    ensures x * a % 0x1_0000_0000 == x % d * a
  {
    ModScales(x, a, d, 0);
  }

  /** What the word below takes in is the part moved out, at the top. */
  lemma ShrInMeaning(x: word, s: nat)
    requires s < 32
    ensures ShrIn(x, s) == x % Pow2(s) * Pow2(32 - s)
  {
    if s != 0 {
      SplitPowers(32 - s);
      Shl32Def(x, 32 - s);
      hide Pow2, Shl32, ShlBy;
      WordScales(x, Pow2(32 - s), Pow2(s));
    } else {
      assert x % 1 == 0;
    }
  }

  /** Joining adds the bits that come in from the word below. */
  lemma ShlJoinMeaning(x: word, y: word, s: nat)
    requires s < 32
    ensures ShlJoin(x, y, s) == Shl32(x, s) + ShlOut(y, s) < 0x1_0000_0000
  {
    ShlSplits(y, s);
    AndShiftMask(s, Shr32(y, 32 - s));
    ShlFits(x, s, ShlOut(y, s));
  }

  /** A word shifted left by s has room for s bits, which or-ing adds. */
  lemma ShlFits(x: word, s: nat, lo: nat)
    requires s < 32 && lo < Pow2(s)
    ensures Or(Shl32(x, s), lo) == Shl32(x, s) + lo < 0x1_0000_0000
  {
    Pow2At32();
    Pow2Add(s, 32 - s);
    SplitPowers(s);
    hide Pow2, Shl32, ShlBy, Or;
    WordScales(x, Pow2(s), Pow2(32 - s));
    Shl32Def(x, s);
    var h := x % Pow2(32 - s);
    assert Shl32(x, s) == h * Pow2(s);
    OrDisjoint(h, lo, s);
    DigitsFit(h, Pow2(32 - s), Pow2(s), lo);
  }

  lemma DigitsFit(h: nat, d: nat, a: nat, lo: nat)
    requires h < d && lo < a
    ensures h * a + lo < a * d
  {
    MulMono(h + 1, d, a);
    assert (h + 1) * a == h * a + a;
  }

  /** Shifting left by a and dropping a whole word is shifting right by the rest. */
  lemma ShiftCancels(y: nat, a: nat, d: nat)
    requires a > 0 && d > 0 && a * d == 0x1_0000_0000 && y < 0x1_0000_0000
    ensures y * a / 0x1_0000_0000 == y / d < a
  {
    var q, r := y / d, y % d;
    assert y == d * q + r;
    MulMono(r, d - 1, a);
    assert (d - 1) * a == 0x1_0000_0000 - a;
    assert y * a == q * 0x1_0000_0000 + r * a by {
      assert (d * q) * a == q * (a * d);
    }
    DivModUnique(y * a, 0x1_0000_0000, q, r * a);
    if q >= a {
      MulMono(a, q, d);
    }
  }

  /** Word k of the words ws shifted left by s. */
  function ShlWord(ws: seq<word>, s: nat, k: nat): nat
    requires s < 32 && k < |ws|
  {
    Shl32(ws[k], s) + if k == 0 then 0 else ShlOut(ws[k - 1], s)
  }

  /** out is the words ws shifted left by s; what leaves the top word is not included. */
  ghost predicate ShiftedLeft(out: seq<word>, ws: seq<word>, s: nat)
    requires s < 32
  {
    |out| == |ws| && forall k :: 0 <= k < |ws| ==> out[k] == ShlWord(ws, s, k)
  }

  /** o with the bits hi moved out at weight p is w shifted by the factor a. */
  ghost predicate ScaledUp(o: nat, p: nat, hi: nat, w: nat, a: nat) {
    o + p * hi == w * a
  }

  lemma {:induction false} ShiftedLeftValue(out: seq<word>, ws: seq<word>, s: nat)
    requires s < 32 && |ws| > 0 && ShiftedLeft(out, ws, s)
    ensures ScaledUp(Val(out), PowB(|ws|), ShlOut(ws[|ws| - 1], s), Val(ws), Pow2(s))
    decreases |ws|
  {
    hide Shl32, ShlBy, Pow2, ShlOut;
    var n := |ws| - 1;
    var below := if n == 0 then 0 else ShlOut(ws[n - 1], s);
    assert ws == ws[..n] + [ws[n]] && out == out[..n] + [out[n]];
    ValSnoc(ws[..n], ws[n]);
    ValSnoc(out[..n], out[n]);
    assert out[n] == ShlWord(ws, s, n);
    if n > 0 {
      forall k | 0 <= k < n
        ensures out[..n][k] == ShlWord(ws[..n], s, k)
      {
        assert out[k] == ShlWord(ws, s, k);
      }
      ShiftedLeftValue(out[..n], ws[..n], s);
    } else {
      assert Val(out[..0]) == 0 && Val(ws[..0]) == 0;
    }
    ShlSplits(ws[n], s);
    ShiftedLeftAlgebra(Val(out[..n]), Val(ws[..n]), PowB(n), below, Shl32(ws[n], s), ShlOut(ws[n], s), ws[n], Pow2(s));
  }

  lemma ShiftedLeftAlgebra(o: nat, w: nat, p: nat, below: nat, lo: nat, hi: nat, x: nat, a: nat)
    requires ScaledUp(o, p, below, w, a) && x * a == 0x1_0000_0000 * hi + lo
    ensures ScaledUp(o + p * (lo + below), 0x1_0000_0000 * p, hi, w + p * x, a)
  {
    calc {
      o + p * (lo + below) + 0x1_0000_0000 * p * hi;
      o + p * below + p * (0x1_0000_0000 * hi + lo);
      w * a + p * (x * a);
      (w + p * x) * a;
    }
  }

  /** The copy-and-shift loops: owp[..n] becomes lwp[..n] << s, from the top word down. */
  method ShiftLeftInto(owp: array<word>, lwp: array<word>, n: nat, s: nat)
    requires owp != lwp && 1 <= n <= owp.Length && n <= lwp.Length && s < 32
    modifies owp
    ensures ShiftedLeft(owp[..n], lwp[..n], s)
    ensures owp[n..] == old(owp[n..])
  {
    var i: nat := n - 1;
    while i > 0
      invariant i < n
      invariant forall k :: i < k < n ==> owp[k] == Shl32(lwp[k], s) + ShlOut(lwp[k - 1], s)
      invariant owp[n..] == old(owp[n..])
    {
      ShlJoinMeaning(lwp[i], lwp[i - 1], s);
      owp[i] := ShlJoin(lwp[i], lwp[i - 1], s);
      i := i - 1;
    }
    owp[0] := Shl32(lwp[0], s);
  }

  // ---------------------------------------------------------------- undoing the normalization

  /** Word k of the words ws shifted right by s; the word above ws is zero. */
  function ShrWord(ws: seq<word>, s: nat, k: nat): nat
    requires s < 32 && k < |ws|
  {
    Shr(ws[k], s) + if k + 1 == |ws| then 0 else ShrIn(ws[k + 1], s)
  }

  ghost predicate ShiftedRight(out: seq<word>, ws: seq<word>, s: nat)
    requires s < 32
  {
    |out| == |ws| && forall k :: 0 <= k < |ws| ==> out[k] == ShrWord(ws, s, k)
  }

  /** w is o scaled by the factor a, plus the bits lo shifted out at the bottom. */
  ghost predicate ScaledDown(o: nat, a: nat, lo: nat, w: nat) {
    o * a + lo == w && lo < a
  }

  lemma {:induction false} ShiftedRightValue(out: seq<word>, ws: seq<word>, s: nat)
    requires s < 32 && ShiftedRight(out, ws, s)
    ensures ScaledDown(Val(out), Pow2(s), if |ws| == 0 then 0 else ws[0] % Pow2(s), Val(ws))
    decreases |ws|
  {
    if |ws| > 0 {
      forall k | 0 <= k < |ws| - 1
        ensures out[1..][k] == ShrWord(ws[1..], s, k)
      {
        assert out[k + 1] == ShrWord(ws, s, k + 1);
      }
      ShiftedRightValue(out[1..], ws[1..], s);
      ShrSplits(ws[0], s);
      if |ws| > 1 {
        ShrInMeaning(ws[1], s);
      }
      SplitPowers(s);
      assert out[0] == ShrWord(ws, s, 0);
      var above := if |ws| == 1 then 0 else ws[1] % Pow2(s);
      ShiftedRightAlgebra(Val(out[1..]), Val(ws[1..]), above,
                          ws[0], Shr(ws[0], s), ws[0] % Pow2(s), Pow2(s), Pow2(32 - s));
    }
  }

  lemma ShiftedRightAlgebra(o: nat, w: nat, above: nat, x: nat, hi: nat, lo: nat, a: nat, d: nat)
    requires a * d == 0x1_0000_0000 && x == a * hi + lo && lo < a && ScaledDown(o, a, above, w)
    ensures ScaledDown(hi + above * d + 0x1_0000_0000 * o, a, lo, x + 0x1_0000_0000 * w)
  {
    calc {
      (hi + above * d + 0x1_0000_0000 * o) * a + lo;
      hi * a + above * d * a + 0x1_0000_0000 * o * a + lo;
      { assert above * d * a == above * (a * d); }
      x + above * 0x1_0000_0000 + 0x1_0000_0000 * (o * a);
    }
  }

  /** `(x >> s) | (mask & (y << (32 - s)))`. */
  function ShrJoin(x: word, y: word, s: nat): nat
    requires s < 32
  {
    Or(Shr32(x, s), And(ShiftMask(s), Shl32(y, 32 - s)))
  }

  lemma ShrJoinMeaning(x: word, y: word, s: nat)
    requires s < 32
    ensures ShrJoin(x, y, s) == Shr(x, s) + ShrIn(y, s) < 0x1_0000_0000
  {
    hide Or, And, Shr, ShlBy;
    AndShiftMask(s, Shl32(y, 32 - s));
    if s != 0 {
      ShrFits(x, s);
      ShlFits(y, 32 - s, Shr(x, s));
      OrSymmetric(Shr(x, s), Shl32(y, 32 - s));
    } else {
      OrZero(Shr(x, s));
    }
  }

  /** The copy-out loop of the modulus: owp[..n] becomes un[..n] >> s; un[n] is zero. */
  method ShiftRightInto(owp: array<word>, un: array<word>, n: nat, s: nat)
    requires owp != un && n <= owp.Length && n < un.Length && s < 32 && un[n] == 0
    modifies owp
    ensures ShiftedRight(owp[..n], un[..n], s)
    ensures owp[n..] == old(owp[n..])
  {
    for i := 0 to n
      invariant forall k :: 0 <= k < i ==> owp[k] == Shr(un[k], s) + ShrIn(un[k + 1], s)
      invariant owp[n..] == old(owp[n..])
    {
      ShrJoinMeaning(un[i], un[i + 1], s);
      owp[i] := ShrJoin(un[i], un[i + 1], s);
    }
    ShrInMeaning(0, s);
    assert ShrIn(0, s) == 0;
  }

  /** Normalizing a divisor loses no bits and sets the top bit of its top word. */
  lemma NormalizedDivisor(top: word, s: nat)
    requires s < 32 && Pow2(31 - s) <= top < Pow2(31 - s + 1)
    ensures ShlOut(top, s) == 0 && Shl32(top, s) >= 0x8000_0000
  {
    Pow2At32();
    Pow2Add(31 - s, s);
    SplitPowers(s);
    ShlSplits(top, s);
    DigitsFit(top, Pow2(32 - s), Pow2(s), 0);
    MulMono(Pow2(31 - s), top, Pow2(s));
  }

  /** The divisor words, shifted so that the top bit of the top word is set. */
  method NormalizeDivisor(vn: array<word>, rwp: array<word>, vw: nat, s: nat)
    requires vn != rwp && 1 <= vw <= vn.Length && vw <= rwp.Length && s < 32
    requires Pow2(31 - s) <= rwp[vw - 1] < Pow2(31 - s + 1)
    modifies vn
    ensures Val(vn[..vw]) == Val(rwp[..vw]) * Pow2(s)
    ensures vn[vw - 1] >= 0x8000_0000
    ensures vn[vw..] == old(vn[vw..])
  {
    ShiftLeftInto(vn, rwp, vw, s);
    ghost var vs, ws := vn[..vw], rwp[..vw];
    NormalizedDivisor(rwp[vw - 1], s);
    ShiftedLeftValue(vs, ws, s);
    assert vs[vw - 1] == ShlWord(ws, s, vw - 1);
  }

  /** The dividend words shifted by the same amount, with one more word on top. */
  method NormalizeDividend(un: array<word>, lwp: array<word>, uw: nat, s: nat)
    requires un != lwp && 1 <= uw < un.Length && uw <= lwp.Length && s < 32
    modifies un
    ensures Val(un[..uw + 1]) == Val(lwp[..uw]) * Pow2(s)
    ensures un[uw] < 0x8000_0000
    ensures un[uw + 1..] == old(un[uw + 1..])
  {
    ShlSplits(lwp[uw - 1], s);
    Pow2Below32(s);
    un[uw] := if s != 0 then Shr32(lwp[uw - 1], 32 - s) else 0;
    ghost var mid := un[uw..];
    ShiftLeftInto(un, lwp, uw, s);
    assert un[uw] == un[uw..][0] == mid[0];
    assert un[uw + 1..] == un[uw..][1..] == mid[1..];
    ghost var us, ws := un[..uw], lwp[..uw];
    ShiftedLeftValue(us, ws, s);
    assert un[..uw + 1] == us + [un[uw]];
    ValSnoc(us, un[uw]);
  }

  /** Normalized copies of dividend and divisor in arrays of the fixed maximum size. */
  method Normalize(words: nat, lwp: array<word>, rwp: array<word>, uw: nat, vw: nat, s: nat)
    returns (un: array<word>, vn: array<word>)
    requires words <= MULS_MAX_WORDS && words <= lwp.Length && words <= rwp.Length && s < 32
    requires 1 <= uw <= words && 1 <= vw <= words
    requires Pow2(31 - s) <= rwp[vw - 1] < Pow2(31 - s + 1)
    ensures fresh(un) && fresh(vn) && un != vn
    ensures un.Length == MULS_MAX_WORDS + 1 && vn.Length == MULS_MAX_WORDS + 1
    ensures Val(vn[..vw]) == Val(rwp[..vw]) * Pow2(s) && vn[vw - 1] >= 0x8000_0000
    ensures Val(un[..uw + 1]) == Val(lwp[..uw]) * Pow2(s) && un[uw] < 0x8000_0000
    ensures forall k :: uw < k <= words ==> un[k] == 0
  {
    un := new word[MULS_MAX_WORDS + 1];
    vn := new word[MULS_MAX_WORDS + 1];
    for i := 0 to words + 1
      invariant forall k :: 0 <= k < i ==> un[k] == 0
    {
      un[i], vn[i] := 0, 0;
    }
    NormalizeDivisor(vn, rwp, vw, s);
    ghost var tail := un[uw + 1..];
    NormalizeDividend(un, lwp, uw, s);
    forall k | uw < k <= words
      ensures un[k] == 0
    {
      assert un[k] == un[uw + 1..][k - uw - 1] == tail[k - uw - 1];
    }
  }

  lemma UnscaledRemainder(o: nat, a: nat, lo: nat, r: nat)
    requires ScaledDown(o, a, lo, r * a)
    ensures o == r
  {
    if o < r {
      MulMono(o + 1, r, a);
    } else if o > r {
      MulMono(r, o, a);
      MulMono(r + 1, o, a);
    }
  }

  /** The modulus branch: owp gets the remainder with the normalization undone. */
  method CopyRemainder(words: nat, owp: array<word>, un: array<word>, vw: nat, s: nat, ghost r: nat)
    requires owp != un && 1 <= vw <= words <= owp.Length && vw < un.Length && s < 32 && un[vw] == 0
    requires Val(un[..vw]) == r * Pow2(s)
    modifies owp
    ensures Val(owp[..words]) == r
    ensures owp[words..] == old(owp[words..])
  {
    ghost var was := owp[vw..];
    ShiftRightInto(owp, un, vw, s);
    ShiftedRightValue(owp[..vw], un[..vw], s);
    UnscaledRemainder(Val(owp[..vw]), Pow2(s), un[0] % Pow2(s), r);
    assert owp[words..] == owp[vw..][words - vw..] == was[words - vw..];
    ghost var tail, low := owp[words..], owp[..vw];
    for i := vw to words
      invariant forall k :: vw <= k < i ==> owp[k] == 0
      invariant owp[words..] == tail && owp[..vw] == low
    {
      owp[i] := 0;
    }
    ValTrim(owp[..words], vw);
    assert owp[..words][..vw] == owp[..vw];
  }
}
