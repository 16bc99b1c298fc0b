/**
 Wide unsigned division and modulus of the Verilator runtime: Knuth's
 Algorithm D (TAOCP volume 2, section 4.3.1) on 32-bit words. Every local the
 runtime keeps in 64 bits has type u64 or s64 here, so that the verifier shows
 that no intermediate wraps.
 */
module WideDiv {
  import opened Bits
  import opened Wide
  import opened WideNormalize

  /** The value of the n words of s from position j. */
  function SegVal(s: seq<word>, j: nat, n: nat): nat
    requires j + n <= |s|
  {
    Val(s[j..j + n])
  }

  lemma SegBound(s: seq<word>, j: nat, n: nat)
    requires j + n <= |s|
    ensures SegVal(s, j, n) < PowB(n)
  {
    ValBound(s[j..j + n]);
  }

  // ---------------------------------------------------------------- digit estimation

  /** The estimate is not below the true digit: u lies under (qhat + 1) * v. */
  ghost predicate NotBelow(qhat: int, u: nat, v: nat) {
    u < (qhat + 1) * v
  }

  /** The first estimate, from two dividend words and one divisor word, is not below the digit. */
  lemma FirstEstimate(unw: nat, vt: nat, u: nat, v: nat, p: nat)
    requires p > 0 && vt > 0
    requires u < (unw + 1) * p && v >= vt * p
    ensures NotBelow(unw / vt, u, v)
  {
    var qhat := unw / vt;
    assert unw == vt * qhat + unw % vt;
    assert unw + 1 <= (qhat + 1) * vt;
    MulMono(unw + 1, (qhat + 1) * vt, p);
    MulMono(vt * p, v, qhat + 1);
    assert (qhat + 1) * vt * p == (qhat + 1) * (vt * p);
  }

  /** An estimate that fails the three-word test is above the digit and may be lowered. */
  lemma FailedTestIsAbove(qhat: nat, u3: nat, v2: nat, u: nat, v: nat, p: nat)
    requires p > 0 && qhat * v2 > u3
    requires u < (u3 + 1) * p && v >= v2 * p
    ensures NotBelow(qhat - 1, u, v)
  {
    MulMono(u3 + 1, qhat * v2, p);
    MulMono(v2 * p, v, qhat);
    assert qhat * v2 * p == qhat * (v2 * p);
  }

  /** An estimate that passes the three-word test exceeds the digit by at most one. */
  lemma PassedTestIsClose(qhat: nat, u3: nat, v2: nat, u: nat, v: nat, p: nat)
    requires p > 0 && qhat * v2 <= u3 && qhat < 0x1_0000_0000
    requires u >= u3 * p && v < (v2 + 1) * p
    requires v >= 0x1_0000_0000 * p
    ensures qhat * v < u + v
  {
    MulMono(v, (v2 + 1) * p, qhat);
    MulMono(qhat * v2, u3, p);
    MulMono(qhat, 0x1_0000_0000, p);
    assert qhat * ((v2 + 1) * p) == qhat * v2 * p + qhat * p;
    if qhat > 0 {
      MulMono(v + 1, (v2 + 1) * p, qhat);
    }
  }

  /** A value between digit and digit+1 multiples pins the estimate. */
  lemma EstimatePinned(qhat: nat, u: nat, v: nat)
    requires v > 0 && NotBelow(qhat, u, v) && qhat * v < u + v
    ensures NearDigit(qhat, u, v)
  {
    var q, r := u / v, u % v;
    assert u == v * q + r;
    if qhat < q {
      MulMono(qhat + 1, q, v);
    }
    if qhat > q + 1 {
      MulMono(q + 2, qhat, v);
    }
  }

  /** The words from n up, whose value is hi, bound the whole number from both sides. */
  lemma TopWords(s: seq<word>, n: nat, hi: nat)
    requires n <= |s| && Val(s[n..]) == hi
    ensures hi * PowB(n) <= Val(s) < (hi + 1) * PowB(n)
  {
    ValSplit(s, n);
    ValBound(s[..n]);
    Sandwich(Val(s), Val(s[..n]), hi, PowB(n));
  }

  lemma Sandwich(x: nat, lo: nat, hi: nat, p: nat)
    requires x == lo + p * hi && lo < p
    ensures hi * p <= x < (hi + 1) * p
  {
    assert (hi + 1) * p == p * hi + p;
  }

  lemma Val1(a: word)
    ensures Val([a]) == a
  {
    assert [a][1..] == [];
  }

  lemma Val2(a: word, b: word)
    ensures Val([a, b]) == a + 0x1_0000_0000 * b
  {
    assert [a, b][1..] == [b];
    Val1(b);
  }

  lemma Val3(a: word, b: word, c: word)
    ensures Val([a, b, c]) == a + 0x1_0000_0000 * (b + 0x1_0000_0000 * c)
  {
    assert [a, b, c][1..] == [b, c];
    Val2(b, c);
  }

  /** A dividend segment under v * B has its two top words under vt * B + B. */
  lemma TopDigitBound(us: seq<word>, vs: seq<word>)
    requires |us| == |vs| + 1 && |vs| >= 1
    requires Val(us[1..]) < Val(vs)
    ensures us[|vs|] <= vs[|vs| - 1]
    ensures Val(us) < 0x1_0000_0000 * Val(vs)
  {
    var n := |vs| - 1;
    assert us[1..][n..] == [us[|vs|]] && vs[n..] == [vs[n]];
    Val1(us[|vs|]);
    Val1(vs[n]);
    TopWords(us[1..], n, us[|vs|]);
    TopWords(vs, n, vs[n]);
    if us[|vs|] > vs[n] {
      MulMono(vs[n] + 1, us[|vs|], PowB(n));
    }
  }

  /** One, two or three top words, read as one number, bound the whole number. */
  lemma Top1(s: seq<word>, x: nat)
    requires |s| >= 1 && x == s[|s| - 1]
    ensures x * PowB(|s| - 1) <= Val(s) < (x + 1) * PowB(|s| - 1)
  {
    assert s[|s| - 1..] == [s[|s| - 1]];
    Val1(s[|s| - 1]);
    TopWords(s, |s| - 1, x);
  }

  lemma Top2(s: seq<word>, x: nat)
    requires |s| >= 2 && x == (s[|s| - 1] as int) * 0x1_0000_0000 + s[|s| - 2]
    ensures x * PowB(|s| - 2) <= Val(s) < (x + 1) * PowB(|s| - 2)
  {
    assert s[|s| - 2..] == [s[|s| - 2], s[|s| - 1]];
    Val2(s[|s| - 2], s[|s| - 1]);
    TopWords(s, |s| - 2, x);
  }

  lemma Top3(s: seq<word>, x: nat)
    requires |s| >= 3
    requires x == ((s[|s| - 1] as int) * 0x1_0000_0000 + s[|s| - 2]) * 0x1_0000_0000 + s[|s| - 3]
    ensures x * PowB(|s| - 3) <= Val(s) < (x + 1) * PowB(|s| - 3)
  {
    assert s[|s| - 3..] == [s[|s| - 3], s[|s| - 2], s[|s| - 1]];
    Val3(s[|s| - 3], s[|s| - 2], s[|s| - 1]);
    TopWords(s, |s| - 3, x);
  }

  /** `qhat * vn[vw - 2]` when the left operand is one word: fits 64 bits. */
  function Product(a: u64, b: word): u64
    requires a < 0x1_0000_0000
  {
    MulMono(a, 0xffff_ffff, b);
    a * b
  }

  /** `rhat << 32` when rhat is one word; leaves room to add a word. */
  function Shifted(a: u64): (r: u64)
    requires a < 0x1_0000_0000
    ensures r <= 0xffff_ffff_0000_0000
  {
    a * 0x1_0000_0000
  }

  /** What the estimate may use of a dividend segment us and a normalized divisor vs. */
  lemma TopFacts(us: seq<word>, vs: seq<word>, unw: nat)
    requires |us| == |vs| + 1 && |vs| >= 2 && vs[|vs| - 1] >= 0x8000_0000
    requires unw == (us[|vs|] as int) * 0x1_0000_0000 + us[|vs| - 1]
    ensures var p, u3 := PowB(|vs| - 2), unw * 0x1_0000_0000 + us[|vs| - 2];
            u3 * p <= Val(us) < (u3 + 1) * p
    ensures var p, v2 := PowB(|vs| - 2), (vs[|vs| - 1] as int) * 0x1_0000_0000 + vs[|vs| - 2];
            v2 * p <= Val(vs) < (v2 + 1) * p && 0x1_0000_0000 * p <= Val(vs)
    ensures NotBelow(unw / vs[|vs| - 1], Val(us), Val(vs))
  {
    hide Val, PowB;
    var p := PowB(|vs| - 2);
    Top3(us, unw * 0x1_0000_0000 + us[|vs| - 2]);
    Top2(vs, (vs[|vs| - 1] as int) * 0x1_0000_0000 + vs[|vs| - 2]);
    MulMono(0x1_0000_0000, (vs[|vs| - 1] as int) * 0x1_0000_0000 + vs[|vs| - 2], p);
    Top2(us, unw);
    Top1(vs, vs[|vs| - 1]);
    FirstEstimate(unw, vs[|vs| - 1], Val(us), Val(vs), PowB(|vs| - 1));
  }

  /** The source's test in terms of the three-word and two-word prefixes. */
  lemma TestMeaning(qhat: int, rhat: int, unw: int, u0: int, vt: int, vnext: int)
    requires unw == qhat * vt + rhat
    ensures qhat * vnext > rhat * 0x1_0000_0000 + u0
            <==> qhat * (vt * 0x1_0000_0000 + vnext) > unw * 0x1_0000_0000 + u0
  {
    assert qhat * (vt * 0x1_0000_0000 + vnext) == qhat * vt * 0x1_0000_0000 + qhat * vnext;
  }

  /**
   What holds of an estimate for the dividend words u2:u1:u0 and the divisor
   words vt:vnext; u, v and p are the whole segment, the whole divisor and the
   weight of the words not looked at.
   */
  ghost predicate Prefixes(u3: nat, v2: nat, u: nat, v: nat, p: nat) {
    && p > 0 && u < 0x1_0000_0000 * v && 0x1_0000_0000 * p <= v
    && u3 * p <= u < (u3 + 1) * p
    && v2 * p <= v < (v2 + 1) * p
  }

  ghost predicate Estimates(qhat: int, rhat: int, unw: nat, vt: nat, u: nat, v: nat) {
    unw == qhat * vt + rhat && NotBelow(qhat, u, v)
  }

  lemma EstimateStarts(unw: nat, vt: nat, u: nat, v: nat)
    requires vt > 0 && NotBelow(unw / vt, u, v)
    ensures 0 <= unw / vt <= unw && 0 <= unw - unw / vt * vt < vt
    ensures Estimates(unw / vt, unw - unw / vt * vt, unw, vt, u, v)
  {
    DivShrinks(unw, vt);
    assert unw == vt * (unw / vt) + unw % vt;
  }

  lemma EstimateSteps(qhat: nat, rhat: nat, unw: nat, u0: word, vt: nat, vnext: nat, u: nat, v: nat, p: nat)
    requires Prefixes(unw * 0x1_0000_0000 + u0, vt * 0x1_0000_0000 + vnext, u, v, p)
    requires Estimates(qhat, rhat, unw, vt, u, v)
    requires qhat >= 0x1_0000_0000 || qhat * vnext > rhat * 0x1_0000_0000 + u0
    ensures qhat > 0 && Estimates(qhat - 1, rhat + vt, unw, vt, u, v)
  {
    TestMeaning(qhat, rhat, unw, u0, vt, vnext);
    LowerEstimate(qhat, unw * 0x1_0000_0000 + u0, vt * 0x1_0000_0000 + vnext, u, v, p);
    assert (qhat - 1) * vt == qhat * vt - vt;
  }

  /** On leaving the loop the test would pass: either it did, or rhat is a full word. */
  lemma EstimateEnds(qhat: nat, rhat: nat, u2: nat, u1: word, u0: word, vt: nat, vnext: word,
                     u: nat, v: nat, p: nat)
    requires u2 <= vt
    requires var unw := u2 * 0x1_0000_0000 + u1;
             Prefixes(unw * 0x1_0000_0000 + u0, vt * 0x1_0000_0000 + vnext, u, v, p)
             && Estimates(qhat, rhat, unw, vt, u, v)
    requires rhat >= 0x1_0000_0000
             || (qhat < 0x1_0000_0000 && qhat * vnext <= rhat * 0x1_0000_0000 + u0)
    ensures qhat < 0x1_0000_0000
    ensures NearDigit(qhat, u, v)
  {
    var unw := u2 * 0x1_0000_0000 + u1;
    EstimateFits(qhat, rhat, unw, u2, u1, vt);
    PassesOnLeaving(qhat, rhat, unw, u0, vt, vnext);
    PassedTestIsClose(qhat, unw * 0x1_0000_0000 + u0, vt * 0x1_0000_0000 + vnext, u, v, p);
    EstimatePinned(qhat, u, v);
  }

  lemma PassesOnLeaving(qhat: nat, rhat: nat, unw: nat, u0: word, vt: nat, vnext: word)
    requires unw == qhat * vt + rhat && qhat < 0x1_0000_0000
    requires rhat >= 0x1_0000_0000 || qhat * vnext <= rhat * 0x1_0000_0000 + u0
    ensures qhat * (vt * 0x1_0000_0000 + vnext) <= unw * 0x1_0000_0000 + u0
  {
    TestMeaning(qhat, rhat, unw, u0, vt, vnext);
    MulMono(qhat, 0xffff_ffff, vnext);
  }

  /** The estimation loop, on the words it reads. */
  method CorrectedEstimate(u2: word, u1: word, u0: word, vt: word, vnext: word,
                           ghost u: nat, ghost v: nat, ghost p: nat)
    returns (qhat: u64)
    requires 0 < vt && u2 <= vt
    requires var unw := (u2 as int) * 0x1_0000_0000 + u1;
             Prefixes(unw * 0x1_0000_0000 + u0, (vt as int) * 0x1_0000_0000 + vnext, u, v, p)
             && NotBelow(unw / vt, u, v)
    ensures qhat < 0x1_0000_0000
    ensures NearDigit(qhat, u, v)
  {
    var unw64: u64 := (u2 as int) * 0x1_0000_0000 + u1;
    EstimateStarts(unw64, vt, u, v);
    qhat := unw64 / vt;
    var rhat: u64 := unw64 - qhat * vt;
    while true
      invariant rhat < 0x1_0000_0000
      invariant Estimates(qhat, rhat, unw64, vt, u, v)
      decreases 0x1_0000_0000 - rhat
    {
      if qhat >= 0x1_0000_0000 || Product(qhat, vnext) > Shifted(rhat) + u0 {
        EstimateSteps(qhat, rhat, unw64, u0, vt, vnext, u, v, p);
        qhat := qhat - 1;
        rhat := rhat + vt;
        if rhat < 0x1_0000_0000 { continue; }
      }
      break;
    }
    EstimateEnds(qhat, rhat, u2, u1, u0, vt, vnext, u, v, p);
  }

  method EstimateDigit(un: array<word>, vn: array<word>, j: nat, vw: nat) returns (qhat: u64)
    requires 2 <= vw <= vn.Length && j + vw < un.Length
    requires vn[vw - 1] >= 0x8000_0000
    requires SegVal(un[..], j + 1, vw) < Val(vn[..vw])
    ensures qhat < 0x1_0000_0000
    ensures NearDigit(qhat, SegVal(un[..], j, vw + 1), Val(vn[..vw]))
  {
    hide Val, PowB, NotBelow, NearDigit;
    ghost var us, vs := un[j..j + vw + 1], vn[..vw];
    assert us == un[..][j..j + (vw + 1)] && us[1..] == un[..][j + 1..j + 1 + vw];
    TopDigitBound(us, vs);
    SegmentPrefixes(us, vs, (un[j + vw] as int) * 0x1_0000_0000 + un[j + vw - 1]);
    qhat := CorrectedEstimate(un[j + vw], un[j + vw - 1], un[j + vw - 2], vn[vw - 1], vn[vw - 2],
                              Val(us), Val(vs), PowB(vw - 2));
  }

  lemma SegmentPrefixes(us: seq<word>, vs: seq<word>, unw: nat)
    requires |us| == |vs| + 1 && |vs| >= 2 && vs[|vs| - 1] >= 0x8000_0000
    requires unw == (us[|vs|] as int) * 0x1_0000_0000 + us[|vs| - 1]
    requires Val(us) < 0x1_0000_0000 * Val(vs)
    ensures Prefixes(unw * 0x1_0000_0000 + us[|vs| - 2],
                     (vs[|vs| - 1] as int) * 0x1_0000_0000 + vs[|vs| - 2], Val(us), Val(vs), PowB(|vs| - 2))
    ensures NotBelow(unw / vs[|vs| - 1], Val(us), Val(vs))
  {
    hide Val, PowB, NotBelow;
    TopFacts(us, vs, unw);
  }

  lemma LowerEstimate(qhat: nat, u3: nat, v2: nat, u: nat, v: nat, p: nat)
    requires p > 0 && u < (u3 + 1) * p && v >= v2 * p && u < 0x1_0000_0000 * v
    requires qhat >= 0x1_0000_0000 || qhat * v2 > u3
    ensures qhat > 0 && NotBelow(qhat - 1, u, v)
  {
    if qhat >= 0x1_0000_0000 {
      MulMono(0x1_0000_0000, qhat, v);
    } else {
      FailedTestIsAbove(qhat, u3, v2, u, v, p);
    }
  }

  /** Once the loop stops, the estimate is one word. */
  lemma EstimateFits(qhat: nat, rhat: nat, unw: nat, uhi: nat, ulo: nat, vt: nat)
    requires unw == uhi * 0x1_0000_0000 + ulo && ulo < 0x1_0000_0000 && uhi <= vt
    requires unw == qhat * vt + rhat
    requires qhat < 0x1_0000_0000 || rhat >= 0x1_0000_0000
    ensures qhat < 0x1_0000_0000
  {
    if qhat >= 0x1_0000_0000 {
      MulMono(0x1_0000_0000, qhat, vt);
    }
  }

  // ---------------------------------------------------------------- multiply and subtract

  /** Low words after subtracting qhat * v, with a borrow k still owed at weight p. */
  ghost predicate Borrows(now: nat, u: nat, qhat: nat, v: nat, k: int, p: nat) {
    now == u - qhat * v + k * p
  }

  /** One word of the multiply-and-subtract loop. */
  lemma BorrowStep(now: nat, u: nat, qhat: nat, v: nat, k: nat, p: nat, ui: word, vi: word, t: int)
    requires Borrows(now, u, qhat, v, k, p) && k <= 0xffff_ffff && qhat <= 0xffff_ffff
    requires t == ui - k - qhat * vi % 0x1_0000_0000
    ensures 0 <= qhat * vi <= 0xffff_fffe_0000_0001
    ensures var k' := qhat * vi / 0x1_0000_0000 - t / 0x1_0000_0000;
            0 <= k' <= 0xffff_ffff
            && Borrows(now + p * (t % 0x1_0000_0000), u + p * ui, qhat, v + p * vi, k', 0x1_0000_0000 * p)
  {
    hide Borrows;
    var prod := qhat * vi;
    MulMono(qhat, 0xffff_ffff, vi);
    var k' := prod / 0x1_0000_0000 - t / 0x1_0000_0000;
    BorrowRange(prod, ui, k, t);
    BorrowAlgebra(now, u, qhat, v, k, p, ui, vi, t % 0x1_0000_0000, k');
  }

  lemma BorrowRange(prod: nat, ui: word, k: nat, t: int)
    requires prod <= 0xffff_fffe_0000_0001 && k <= 0xffff_ffff && t == ui - k - prod % 0x1_0000_0000
    ensures var k' := prod / 0x1_0000_0000 - t / 0x1_0000_0000;
      0 <= k' <= 0xffff_ffff && ui - k - prod == t % 0x1_0000_0000 - 0x1_0000_0000 * k'
  {
  }

  lemma BorrowAlgebra(now: nat, u: nat, qhat: nat, v: nat, k: int, p: nat, ui: nat, vi: nat, r: nat, k': int)
    requires Borrows(now, u, qhat, v, k, p)
    requires ui - k - qhat * vi == r - 0x1_0000_0000 * k'
    ensures Borrows(now + p * r, u + p * ui, qhat, v + p * vi, k', 0x1_0000_0000 * p)
  {
    calc {
      now + p * r;
      now + p * (ui - k - qhat * vi + 0x1_0000_0000 * k');
      now + p * ui - p * k - p * (qhat * vi) + p * (0x1_0000_0000 * k');
      { assert p * (qhat * vi) == qhat * (p * vi); assert p * (0x1_0000_0000 * k') == k' * (0x1_0000_0000 * p); }
      now + p * ui - p * k - qhat * (p * vi) + k' * (0x1_0000_0000 * p);
      { assert qhat * (v + p * vi) == qhat * v + qhat * (p * vi); }
      (u + p * ui) - qhat * (v + p * vi) + k' * (0x1_0000_0000 * p);
    }
  }

  /** Words j..j+i of now are those of was less qhat times the low i words of vs, owing k. */
  ghost predicate SubProgress(now: seq<word>, was: seq<word>, vs: seq<word>, j: nat, i: nat, qhat: nat, k: int)
    requires i <= |vs| && j + i <= |was|
  {
    && |now| == |was| && now[..j] == was[..j] && now[j + i..] == was[j + i..]
    && Borrows(SegVal(now, j, i), SegVal(was, j, i), qhat, Val(vs[..i]), k, PowB(i))
  }

  lemma SubProgressStep(now: seq<word>, was: seq<word>, vs: seq<word>, j: nat, i: nat, qhat: nat, k: nat, t: int)
    requires i < |vs| && j + i < |was|
    requires SubProgress(now, was, vs, j, i, qhat, k) && k <= 0xffff_ffff && qhat <= 0xffff_ffff
    requires t == was[j + i] - k - qhat * vs[i] % 0x1_0000_0000
    ensures 0 <= qhat * vs[i] <= 0xffff_fffe_0000_0001
    ensures var k' := qhat * vs[i] / 0x1_0000_0000 - t / 0x1_0000_0000;
            0 <= k' <= 0xffff_ffff
            && SubProgress(now[j + i := t % 0x1_0000_0000], was, vs, j, i + 1, qhat, k')
  {
    var next := now[j + i := t % 0x1_0000_0000];
    BorrowStep(SegVal(now, j, i), SegVal(was, j, i), qhat, Val(vs[..i]), k, PowB(i), was[j + i], vs[i], t);
    ValTake(vs, i);
    SegmentSnoc(was, j, i);
    SegmentSnoc(next, j, i);
    assert next[j..j + i] == now[j..j + i];
  }

  lemma SegmentSnoc(s: seq<word>, j: nat, i: nat)
    requires j + i < |s|
    ensures SegVal(s, j, i + 1) == SegVal(s, j, i) + PowB(i) * s[j + i]
  {
    assert s[j..j + (i + 1)] == s[j..j + i] + [s[j + i]];
    ValSnoc(s[j..j + i], s[j + i]);
  }

  /** Words before j and after j+n are the same. */
  ghost predicate SameOutside(now: seq<word>, was: seq<word>, j: nat, n: nat)
    requires j + n < |was|
  {
    |now| == |was| && now[..j] == was[..j] && now[j + n + 1..] == was[j + n + 1..]
  }

  lemma SameOutsideTwice(now: seq<word>, mid: seq<word>, was: seq<word>, j: nat, n: nat)
    requires j + n < |was| && |mid| == |was| && SameOutside(mid, was, j, n) && SameOutside(now, mid, j, n)
    ensures SameOutside(now, was, j, n)
  {
  }

  /** low with signed top word t at weight p is u - qhat * v. */
  ghost predicate Difference(low: nat, t: int, p: nat, u: nat, qhat: nat, v: nat) {
    low + p * t == u - qhat * v
  }

  /** The result of subtracting qhat * v from the segment at j, with signed top word t. */
  ghost predicate Subtracted(now: seq<word>, was: seq<word>, vs: seq<word>, j: nat, qhat: nat, t: int)
    requires j + |vs| < |was|
  {
    var n := |vs|;
    && SameOutside(now, was, j, n)
    && now[j + n] == (if t < 0 then t + 0x1_0000_0000 else t)
    && Difference(SegVal(now, j, n), t, PowB(n), SegVal(was, j, n + 1), qhat, Val(vs))
  }

  lemma DifferenceEnds(now: nat, u: nat, qhat: nat, v: nat, k: int, p: nat, top: word)
    requires Borrows(now, u, qhat, v, k, p)
    ensures Difference(now, top - k, p, u + p * top, qhat, v)
  {
    assert p * (top - k) == p * top - k * p;
  }

  lemma SubProgressEnds(now: seq<word>, was: seq<word>, vs: seq<word>, j: nat, qhat: nat, k: int)
    requires j + |vs| < |was|
    requires SubProgress(now, was, vs, j, |vs|, qhat, k) && 0 <= k <= 0xffff_ffff
    ensures var t := was[j + |vs|] - k;
            Subtracted(now[j + |vs| := t % 0x1_0000_0000], was, vs, j, qhat, t)
  {
    var n := |vs|;
    var t := was[j + n] - k;
    var next := now[j + n := t % 0x1_0000_0000];
    assert vs[..n] == vs;
    assert next[j..j + n] == now[j..j + n];
    SegmentSnoc(was, j, n);
    DifferenceEnds(SegVal(now, j, n), SegVal(was, j, n), qhat, Val(vs), k, PowB(n), was[j + n]);
  }

  /** Subtracts qhat * v from un[j..j+vw+1]; t is the signed top word. */
  method MulSub(un: array<word>, vn: array<word>, j: nat, vw: nat, qhat: u64) returns (t: s64)
    requires un != vn && vw <= vn.Length && j + vw < un.Length && qhat <= 0xffff_ffff
    modifies un
    ensures Subtracted(un[..], old(un[..]), vn[..vw], j, qhat, t)
  {
    ghost var was, vs := un[..], vn[..vw];
    var k: u64 := 0;
    assert was[j..j] == [] && vs[..0] == [];
    for i := 0 to vw
      invariant k <= 0xffff_ffff
      invariant vn[..vw] == vs
      invariant SubProgress(un[..], was, vs, j, i, qhat, k)
    {
      ghost var now := un[..];
      assert un[i + j] == now[i + j..][0] == was[i + j];
      SubProgressStep(now, was, vs, j, i, qhat, k, un[i + j] - k - qhat * vn[i] % 0x1_0000_0000);
      var p: u64 := qhat * vn[i];
      t := un[i + j] - k - p % 0x1_0000_0000;
      un[i + j] := t % 0x1_0000_0000;
      k := p / 0x1_0000_0000 - t / 0x1_0000_0000;
      assert un[..] == now[j + i := t % 0x1_0000_0000];
    }
    ghost var now := un[..];
    assert un[j + vw] == now[j + vw..][0] == was[j + vw];
    SubProgressEnds(now, was, vs, j, qhat, k);
    t := un[j + vw] - k;
    un[j + vw] := t % 0x1_0000_0000;
    assert un[..] == now[j + vw := t % 0x1_0000_0000];
  }

  // ---------------------------------------------------------------- add back

  ghost predicate Carries(now: nat, u: nat, v: nat, k: int, p: nat) {
    now + k * p == u + v
  }

  lemma CarryStep(now: nat, u: nat, v: nat, k: nat, p: nat, ui: word, vi: word, t: nat)
    requires Carries(now, u, v, k, p) && k <= 1 && t == ui + vi + k
    ensures t / 0x1_0000_0000 <= 1
    ensures Carries(now + p * (t % 0x1_0000_0000), u + p * ui, v + p * vi,
                    t / 0x1_0000_0000, 0x1_0000_0000 * p)
  {
    var r, c := t % 0x1_0000_0000, t / 0x1_0000_0000;
    assert t == r + 0x1_0000_0000 * c;
    assert p * (ui + vi + k) == p * ui + p * vi + k * p;
    assert p * (r + 0x1_0000_0000 * c) == p * r + c * (0x1_0000_0000 * p);
  }

  /** Words j..j+i of now are those of was plus the low i words of vs, less a carry k out of them. */
  ghost predicate AddProgress(now: seq<word>, was: seq<word>, vs: seq<word>, j: nat, i: nat, k: int)
    requires i <= |vs| && j + i <= |was|
  {
    && |now| == |was| && now[..j] == was[..j] && now[j + i..] == was[j + i..]
    && Carries(SegVal(now, j, i), SegVal(was, j, i), Val(vs[..i]), k, PowB(i))
  }

  lemma AddProgressStep(now: seq<word>, was: seq<word>, vs: seq<word>, j: nat, i: nat, k: nat, t: nat)
    requires i < |vs| && j + i < |was|
    requires AddProgress(now, was, vs, j, i, k) && k <= 1
    requires t == was[j + i] as int + vs[i] as int + k
    ensures t / 0x1_0000_0000 <= 1
    ensures AddProgress(now[j + i := t % 0x1_0000_0000], was, vs, j, i + 1, t / 0x1_0000_0000)
  {
    var next := now[j + i := t % 0x1_0000_0000];
    CarryStep(SegVal(now, j, i), SegVal(was, j, i), Val(vs[..i]), k, PowB(i), was[j + i], vs[i], t);
    ValTake(vs, i);
    SegmentSnoc(was, j, i);
    SegmentSnoc(next, j, i);
    assert next[j..j + i] == now[j..j + i];
  }

  /** The result of adding v to the low words of the segment at j and the carry to its top word. */
  ghost predicate AddedBack(now: seq<word>, was: seq<word>, vs: seq<word>, j: nat, k: int)
    requires j + |vs| < |was|
  {
    var n := |vs|;
    && SameOutside(now, was, j, n)
    && 0 <= k <= 1
    && now[j + n] == (if was[j + n] as int + k == 0x1_0000_0000 then 0 else was[j + n] as int + k)
    && Carries(SegVal(now, j, n), SegVal(was, j, n), Val(vs), k, PowB(n))
  }

  method AddBack(un: array<word>, vn: array<word>, j: nat, vw: nat) returns (ghost carry: int)
    requires un != vn && vw <= vn.Length && j + vw < un.Length
    modifies un
    ensures AddedBack(un[..], old(un[..]), vn[..vw], j, carry)
  {
    ghost var was, vs := un[..], vn[..vw];
    var k: u64 := 0;
    var t: s64;
    assert was[j..j] == [] && vs[..0] == [];
    for i := 0 to vw
      invariant k <= 1
      invariant vn[..vw] == vs
      invariant AddProgress(un[..], was, vs, j, i, k)
    {
      ghost var now := un[..];
      assert un[i + j] == now[i + j..][0] == was[i + j];
      AddProgressStep(now, was, vs, j, i, k, un[i + j] as int + vn[i] as int + k);
      t := un[i + j] as int + vn[i] as int + k;
      un[i + j] := t % 0x1_0000_0000;
      k := t / 0x1_0000_0000;
      assert un[..] == now[j + i := t % 0x1_0000_0000];
    }
    ghost var now := un[..];
    assert un[j + vw] == now[j + vw..][0] == was[j + vw];
    assert vs[..vw] == vs;
    un[j + vw] := (un[j + vw] as int + k) % 0x1_0000_0000;
    assert un[..][j..j + vw] == now[j..j + vw];
    carry := k;
  }

  // ---------------------------------------------------------------- one quotient digit

  ghost predicate NearDigit(qhat: nat, u: nat, v: nat) {
    v > 0 && (qhat == u / v || qhat == u / v + 1)
  }

  ghost predicate Remainder(u: nat, digit: int, v: nat, r: nat) {
    u == digit * v + r && r < v
  }

  /** The segment at j, worth u, has been replaced by its remainder and a zero top word. */
  ghost predicate DigitDone(now: seq<word>, was: seq<word>, vs: seq<word>, j: nat, digit: int)
    requires j + |vs| < |was|
  {
    var n, u, v := |vs|, SegVal(was, j, |vs| + 1), Val(vs);
    && SameOutside(now, was, j, n)
    && now[j + n] == 0
    && Remainder(u, digit, v, SegVal(now, j, n))
  }

  /** A non-negative top word after the subtraction: the estimate was the digit. */
  lemma NoBorrow(now: seq<word>, was: seq<word>, vs: seq<word>, j: nat, qhat: nat, t: int)
    requires j + |vs| < |was| && Subtracted(now, was, vs, j, qhat, t) && t >= 0
    requires NearDigit(qhat, SegVal(was, j, |vs| + 1), Val(vs))
    ensures DigitDone(now, was, vs, j, qhat)
  {
    ValBound(vs);
    NoBorrowAlgebra(SegVal(now, j, |vs|), PowB(|vs|), SegVal(was, j, |vs| + 1), Val(vs), qhat, t);
  }

  lemma NoBorrowAlgebra(low: nat, p: nat, u: nat, v: nat, qhat: nat, t: nat)
    requires v < p && Difference(low, t, p, u, qhat, v) && NearDigit(qhat, u, v)
    ensures t == 0 && Remainder(u, qhat, v, low)
  {
    DigitGap(u, v, qhat);
    if t >= 1 {
      MulMono(1, t, p);
    }
  }

  /** u - qhat * v for an estimate that is the digit or one more. */
  lemma DigitGap(u: nat, v: nat, qhat: nat)
    requires NearDigit(qhat, u, v)
    ensures var d := u - qhat * v; if qhat == u / v then 0 <= d < v else -(v as int) <= d < 0
  {
    assert u == v * (u / v) + u % v;
    assert (u / v + 1) * v == u / v * v + v;
  }

  /** A negative top word: the estimate was one too high, and one add-back repairs it. */
  lemma OneAddBack(now: seq<word>, mid: seq<word>, was: seq<word>, vs: seq<word>, j: nat, qhat: nat, t: int, k: int)
    requires j + |vs| < |was| && Subtracted(mid, was, vs, j, qhat, t) && t < 0
    requires AddedBack(now, mid, vs, j, k)
    requires NearDigit(qhat, SegVal(was, j, |vs| + 1), Val(vs))
    ensures qhat > 0 && DigitDone(now, was, vs, j, qhat - 1)
  {
    hide *;
    var n := |vs|;
    SubtractedParts(mid, was, vs, j, qhat, t);
    AddedBackParts(now, mid, vs, j, k);
    SameOutsideTwice(now, mid, was, j, n);
    ValBound(vs);
    SegBound(mid, j, n);
    SegBound(now, j, n);
    OneAddBackAlgebra(SegVal(mid, j, n), SegVal(now, j, n), PowB(n), SegVal(was, j, n + 1), Val(vs), qhat, t, k);
    DigitParts(now, was, vs, j, qhat - 1);
  }

  lemma SubtractedParts(mid: seq<word>, was: seq<word>, vs: seq<word>, j: nat, qhat: nat, t: int)
    requires j + |vs| < |was| && Subtracted(mid, was, vs, j, qhat, t)
    ensures |mid| == |was| && SameOutside(mid, was, j, |vs|)
    ensures mid[j + |vs|] == (if t < 0 then t + 0x1_0000_0000 else t)
    ensures Difference(SegVal(mid, j, |vs|), t, PowB(|vs|), SegVal(was, j, |vs| + 1), qhat, Val(vs))
  {
    hide Val, SegVal, PowB, Difference;
  }

  lemma AddedBackParts(now: seq<word>, mid: seq<word>, vs: seq<word>, j: nat, k: int)
    requires j + |vs| < |mid| && AddedBack(now, mid, vs, j, k)
    ensures |now| == |mid| && SameOutside(now, mid, j, |vs|) && 0 <= k <= 1
    ensures mid[j + |vs|] as int + k == 0x1_0000_0000 ==> now[j + |vs|] == 0
    ensures Carries(SegVal(now, j, |vs|), SegVal(mid, j, |vs|), Val(vs), k, PowB(|vs|))
  {
    hide Val, SegVal, PowB, Carries;
  }

  lemma DigitParts(now: seq<word>, was: seq<word>, vs: seq<word>, j: nat, digit: int)
    requires j + |vs| < |was| == |now| && SameOutside(now, was, j, |vs|) && now[j + |vs|] == 0
    requires Remainder(SegVal(was, j, |vs| + 1), digit, Val(vs), SegVal(now, j, |vs|))
    ensures DigitDone(now, was, vs, j, digit)
  {
    hide Val, SegVal, PowB, Remainder;
  }

  lemma OneAddBackAlgebra(low: nat, low': nat, p: nat, u: nat, v: nat, qhat: nat, t: int, k: nat)
    requires v < p && low < p && low' < p && t < 0 && k <= 1
    requires Difference(low, t, p, u, qhat, v) && Carries(low', low, v, k, p) && NearDigit(qhat, u, v)
    ensures t == -1 && k == 1 && qhat > 0 && Remainder(u, qhat - 1, v, low')
  {
    DigitGap(u, v, qhat);
    MulMono(t, -1, p);
    assert qhat > 0;
    var d := u - qhat * v;
    assert (qhat - 1) * v == qhat * v - v;
    assert low' + (k + t) * p == d + v by {
      assert (k + t) * p == k * p + p * t;
    }
    WholeWordsCancel(low', k + t, p, d + v);
  }

  lemma WholeWordsCancel(x: nat, c: int, p: nat, y: nat)
    requires x < p && y < p && x + c * p == y
    ensures c == 0
  {
    if c < 0 {
      MulMono(c, -1, p);
    } else if c > 0 {
      MulMono(1, c, p);
    }
  }

  /** One pass of the main loop: digit j of the quotient, remainder left in place. */
  method DivideDigit(un: array<word>, vn: array<word>, owp: array<word>, j: nat, vw: nat)
    requires un != vn && un != owp && vn != owp
    requires 2 <= vw <= vn.Length && j + vw < un.Length && j < owp.Length
    requires vn[vw - 1] >= 0x8000_0000
    requires SegVal(un[..], j + 1, vw) < Val(vn[..vw])
    modifies un, owp
    ensures DigitDone(un[..], old(un[..]), vn[..vw], j, owp[j])
    ensures owp[..] == old(owp[..])[j := owp[j]]
  {
    ghost var was, vs := un[..], vn[..vw];
    var qhat := EstimateDigit(un, vn, j, vw);
    var t := MulSub(un, vn, j, vw, qhat);
    assert vn[..vw] == vs;
    owp[j] := qhat;
    if t < 0 {
      ghost var mid := un[..];
      ghost var carry := AddBack(un, vn, j, vw);
      OneAddBack(un[..], mid, was, vs, j, qhat, t, carry);
      owp[j] := owp[j] - 1;
    } else {
      NoBorrow(un[..], was, vs, j, qhat, t);
    }
  }

  // ---------------------------------------------------------------- the main loop

  /** With digits above j done: total == quotient-so-far * v + what is left, and the next segment is below v. */
  ghost predicate Dividing(un: seq<word>, digits: seq<word>, vs: seq<word>, j: nat, total: nat) {
    && |vs| > 0 && j + |vs| <= |un|
    && SegVal(un, j, |vs|) < Val(vs)
    && total == PowB(j) * Val(digits) * Val(vs) + Val(un[..j + |vs|])
  }

  lemma DividingStep(now: seq<word>, was: seq<word>, digits: seq<word>, vs: seq<word>, j: nat, digit: word, total: nat)
    requires Dividing(was, digits, vs, j + 1, total)
    requires DigitDone(now, was, vs, j, digit)
    ensures Dividing(now, [digit] + digits, vs, j, total)
  {
    var n := |vs|;
    var v, rest := Val(vs), SegVal(now, j, n);
    ValSplit(was[..j + n + 1], j);
    assert was[..j + n + 1][..j] == was[..j] && was[..j + n + 1][j..] == was[j..j + n + 1];
    ValSplit(now[..j + n], j);
    assert now[..j + n][..j] == was[..j] && now[..j + n][j..] == now[j..j + n];
    assert ([digit] + digits)[1..] == digits;
    DividingAlgebra(PowB(j), Val(digits), digit, v, rest);
  }

  lemma DividingAlgebra(p: nat, ds: nat, d: nat, v: nat, rest: nat)
    ensures 0x1_0000_0000 * p * ds * v + p * (d * v + rest) == p * (d + 0x1_0000_0000 * ds) * v + p * rest
  {
    assert p * (d * v + rest) == p * d * v + p * rest;
    assert p * (d + 0x1_0000_0000 * ds) == p * d + 0x1_0000_0000 * p * ds;
  }

  // ---------------------------------------------------------------- most significant bit

  /** p is one more than the position of the highest set bit of the words ws, 0 when none is set. */
  ghost predicate BitLength(ws: seq<word>, p: nat) {
    && p <= 32 * |ws|
    && (forall k :: Words(p) <= k < |ws| ==> ws[k] == 0)
    && (p > 0 ==> Pow2((p - 1) % 32) <= ws[Words(p) - 1] < Pow2((p - 1) % 32 + 1))
  }

  lemma BitLengthZero(ws: seq<word>, p: nat)
    requires BitLength(ws, p)
    ensures Val(ws) == Val(ws[..Words(p)])
    ensures p == 0 <==> Val(ws) == 0
  {
    ValTrim(ws, Words(p));
    if p > 0 {
      var n := Words(p) - 1;
      ValTake(ws, n);
      MulMono(1, ws[n], PowB(n));
    }
  }

  lemma BitFound(ws: seq<word>, i: nat, bit: nat)
    requires i < |ws| && bit < 32 && Pow2(bit) <= ws[i] < Pow2(bit + 1)
    requires forall k :: i < k < |ws| ==> ws[k] == 0
    ensures BitLength(ws, i * 32 + bit + 1)
  {
    hide Pow2;
    assert Words(i * 32 + bit + 1) == i + 1 && (i * 32 + bit) % 32 == bit;
  }

  method MostSetBitP1(words: nat, lwp: array<word>) returns (p: nat)
    requires words <= lwp.Length
    ensures BitLength(lwp[..words], p)
  {
    var i: nat := words;
    while i > 0
      invariant i <= words
      invariant forall k :: i <= k < words ==> lwp[k] == 0
    {
      i := i - 1;
      if lwp[i] != 0 {
        Pow2At32();
        var bit := 32;
        while bit > 0
          invariant bit <= 32 && lwp[i] < Pow2(bit)
        {
          hide And, Shl32, Pow2, Bit, BitLength;
          bit := bit - 1;
          BitTest(lwp[i], bit);
          TopBit(lwp[i], bit);
          if And(lwp[i], Shl32(1, bit)) != 0 {
            p := i * 32 + bit + 1;
            BitFound(lwp[..words], i, bit);
            return;
          }
        }
        assert false;
      }
    }
    p := 0;
  }

  // ---------------------------------------------------------------- one-word divisors

  /** The short-division loop: owp[..uw] becomes the quotient, k the remainder. */
  method DivideByWord(owp: array<word>, lwp: array<word>, d: word, uw: nat) returns (k: u64)
    requires owp != lwp && uw <= owp.Length && uw <= lwp.Length && d > 0
    modifies owp
    ensures Remainder(Val(lwp[..uw]), Val(owp[..uw]), d, k)
    ensures owp[uw..] == old(owp[uw..])
  {
    k := 0;
    var j := uw;
    while j > 0
      invariant 0 <= j <= uw
      invariant Remainder(Val(lwp[j..uw]), Val(owp[j..uw]), d, k)
      invariant owp[uw..] == old(owp[uw..])
    {
      j := j - 1;
      ghost var q := owp[j + 1..uw];
      ShortStep(Val(lwp[j + 1..uw]), Val(q), d, k, lwp[j]);
      var unw64: u64 := k * 0x1_0000_0000 + lwp[j];
      owp[j] := unw64 / d;
      k := unw64 - owp[j] * d;
      assert owp[j..uw] == [owp[j]] + q && ([owp[j]] + q)[1..] == q;
      assert lwp[j..uw] == [lwp[j]] + lwp[j + 1..uw];
      assert lwp[j..uw][1..] == lwp[j + 1..uw];
    }
    assert lwp[0..uw] == lwp[..uw] && owp[0..uw] == owp[..uw];
  }

  lemma ShortStep(u: nat, q: nat, d: word, k: nat, x: word)
    requires d > 0 && Remainder(u, q, d, k)
    ensures k * 0x1_0000_0000 + x < 0x1_0000_0000_0000_0000
    ensures var unw, digit := k * 0x1_0000_0000 + x, (k * 0x1_0000_0000 + x) / d;
            0 <= digit < 0x1_0000_0000
            && Remainder(x + 0x1_0000_0000 * u, digit + 0x1_0000_0000 * q, d, unw - digit * d)
  {
    var unw := k * 0x1_0000_0000 + x;
    Euclid(unw, d);
    QuotientBound(unw, d, 0x1_0000_0000);
    assert (unw / d + 0x1_0000_0000 * q) * d == unw / d * d + 0x1_0000_0000 * (q * d);
  }

  // ---------------------------------------------------------------- long division

  lemma SmallerTop(a: seq<word>, b: seq<word>)
    requires |a| == |b| > 0 && a[|a| - 1] < b[|b| - 1]
    ensures Val(a) < Val(b)
  {
    Top1(a, a[|a| - 1]);
    Top1(b, b[|b| - 1]);
    MulMono(a[|a| - 1] + 1, b[|b| - 1], PowB(|a| - 1));
  }

  /** Scaling both operands keeps the quotient and scales the remainder. */
  lemma Unscale(u: nat, v: nat, a: nat, q: nat, r': nat)
    requires a > 0 && Remainder(u * a, q, v * a, r')
    ensures v > 0 && q == u / v && r' == u % v * a
  {
    assert q * (v * a) == (q * v) * a;
    var r := u - q * v;
    assert r' == r * a;
    if r < 0 {
      MulMono(r, -1, a);
    }
    if r >= v {
      MulMono(v, r, a);
    }
    DivModUnique(u, v, q, r);
  }

  lemma DividingStarts(un: seq<word>, vs: seq<word>, uw: nat)
    requires 1 <= |vs| <= uw < |un| && un[uw] < vs[|vs| - 1]
    ensures Dividing(un, [], vs, uw - |vs| + 1, Val(un[..uw + 1]))
  {
    var j := uw - |vs| + 1;
    SmallerTop(un[j..j + |vs|], vs);
    assert un[..j + |vs|] == un[..uw + 1];
    assert PowB(j) * Val([]) * Val(vs) == 0;
  }

  lemma DividingEnds(un: seq<word>, digits: seq<word>, vs: seq<word>, total: nat)
    requires Dividing(un, digits, vs, 0, total)
    ensures Remainder(total, Val(digits), Val(vs), Val(un[..|vs|]))
  {
    assert un[0..0 + |vs|] == un[..0 + |vs|] == un[..|vs|];
  }

  lemma DigitPrepended(o: seq<word>, o': seq<word>, j: nat, m: nat)
    requires j < m <= |o| == |o'| && o' == o[j := o'[j]]
    ensures o'[j..m] == [o'[j]] + o[j + 1..m] && o'[m..] == o[m..]
  {
  }

  /** The main loop: owp gets the quotient digits of un by vn, un[..vw] the remainder. */
  method DivideDigits(un: array<word>, vn: array<word>, owp: array<word>, uw: nat, vw: nat)
    requires un != vn && un != owp && vn != owp
    requires 2 <= vw <= vn.Length && vw <= uw < un.Length && uw - vw < owp.Length
    requires vn[vw - 1] >= 0x8000_0000 && un[uw] < 0x8000_0000
    modifies un, owp
    ensures Remainder(Val(old(un[..uw + 1])), Val(owp[..uw - vw + 1]), Val(vn[..vw]), Val(un[..vw]))
    ensures owp[uw - vw + 1..] == old(owp[uw - vw + 1..])
    ensures un[vw] == 0
  {
    hide Val, SegVal, PowB, Remainder;
    ghost var m, vs, total, tail := uw - vw + 1, vn[..vw], Val(un[..uw + 1]), owp[uw - vw + 1..];
    assert un[..][..uw + 1] == un[..uw + 1];
    DividingStarts(un[..], vs, uw);
    var j := uw - vw + 1;
    assert owp[..][j..m] == [];
    while j > 0
      invariant 0 <= j <= m
      invariant vn[..vw] == vs
      invariant Dividing(un[..], owp[..][j..m], vs, j, total)
      invariant j < m ==> un[j + vw] == 0
      invariant owp[..][m..] == tail
    {
      j := j - 1;
      ghost var was, o := un[..], owp[..];
      assert SegVal(was, j + 1, vw) < Val(vs);
      DivideDigit(un, vn, owp, j, vw);
      assert vn[..vw] == vs;
      DividingStep(un[..], was, o[j + 1..m], vs, j, owp[j], total);
      DigitPrepended(o, owp[..], j, m);
    }
    DividingEnds(un[..], owp[..][0..m], vs, total);
    assert owp[..][0..m] == owp[..m] && un[..][..vw] == un[..vw];
  }

  /** Quotient of the normalized numbers in owp, remainder in place in un. */
  method DivideNormalized(un: array<word>, vn: array<word>, owp: array<word>, words: nat, uw: nat, vw: nat)
    requires un != vn && un != owp && vn != owp
    requires 2 <= vw <= words && 1 <= uw <= words <= owp.Length && words < un.Length && words < vn.Length
    requires vn[vw - 1] >= 0x8000_0000 && un[uw] < 0x8000_0000
    requires forall k :: uw < k <= words ==> un[k] == 0
    requires forall k :: 0 <= k < words ==> owp[k] == 0
    modifies un, owp
    ensures Remainder(Val(old(un[..uw + 1])), Val(owp[..words]), Val(vn[..vw]), Val(un[..vw]))
    ensures un[vw] == 0
    ensures owp[words..] == old(owp[words..])
  {
    if uw >= vw {
      ghost var was := owp[uw - vw + 1..];
      DivideDigits(un, vn, owp, uw, vw);
      var n := uw - vw + 1;
      forall k | n <= k < words
        ensures owp[k] == 0
      {
        assert owp[k] == owp[n..][k - n] == was[k - n];
      }
      ValTrim(owp[..words], n);
      assert owp[..words][..n] == owp[..n];
      assert owp[words..] == owp[n..][words - n..] == was[words - n..];
    } else {
      // The loop makes no pass: the dividend is the smaller number.
      ValZeros(owp[..words]);
      ValTrim(un[..vw], uw + 1);
      assert un[..vw][..uw + 1] == un[..uw + 1];
      SmallerTop(un[..vw], vn[..vw]);
    }
  }

  /** The part of the routine for divisors of two words or more. */
  method DivideLong(words: nat, owp: array<word>, lwp: array<word>, rwp: array<word>,
                    umsbp1: nat, vmsbp1: nat, isModulus: bool)
    requires words <= MULS_MAX_WORDS
    requires words <= owp.Length && words <= lwp.Length && words <= rwp.Length
    requires owp != lwp && owp != rwp
    requires BitLength(lwp[..words], umsbp1) && BitLength(rwp[..words], vmsbp1)
    requires umsbp1 > 0 && Words(vmsbp1) >= 2
    requires forall k :: 0 <= k < words ==> owp[k] == 0
    modifies owp
    ensures owp[words..] == old(owp[words..])
    ensures var u, v := Val(lwp[..words]), Val(rwp[..words]);
            v > 0 && Val(owp[..words]) == if isModulus then u % v else u / v
  {
    var uw, vw := Words(umsbp1), Words(vmsbp1);
    ghost var u, v := Val(lwp[..words]), Val(rwp[..words]);
    BitLengthZero(lwp[..words], umsbp1);
    BitLengthZero(rwp[..words], vmsbp1);
    assert lwp[..words][..uw] == lwp[..uw] && rwp[..words][..vw] == rwp[..vw];
    assert rwp[..words][vw - 1] == rwp[vw - 1];
    var s: nat := 31 - (vmsbp1 - 1) % 32;
    var un, vn := Normalize(words, lwp, rwp, uw, vw, s);
    DivideNormalized(un, vn, owp, words, uw, vw);
    Unscale(u, v, Pow2(s), Val(owp[..words]), Val(un[..vw]));
    if isModulus {
      CopyRemainder(words, owp, un, vw, s, u % v);
    }
  }

  /**
   `_vl_moddiv_w`: unsigned quotient or remainder of two wide numbers of the same
   width. Division by zero yields zero. The output must not share storage with an
   input; words of the output beyond the width are untouched.
   */
  method ModDiv(lbits: nat, owp: array<word>, lwp: array<word>, rwp: array<word>, isModulus: bool)
    requires Words(lbits) <= MULS_MAX_WORDS
    requires Words(lbits) <= owp.Length && Words(lbits) <= lwp.Length && Words(lbits) <= rwp.Length
    requires owp != lwp && owp != rwp
    modifies owp
    ensures owp[Words(lbits)..] == old(owp[Words(lbits)..])
    ensures Val(owp[..Words(lbits)])
            == DivMod(Val(lwp[..Words(lbits)]), Val(rwp[..Words(lbits)]), isModulus)
  {
    var words := Words(lbits);
    Clear(owp, words);
    var umsbp1 := MostSetBitP1(words, lwp);
    var vmsbp1 := MostSetBitP1(words, rwp);
    BitLengthZero(lwp[..words], umsbp1);
    BitLengthZero(rwp[..words], vmsbp1);
    if vmsbp1 == 0 || umsbp1 == 0 {
      ValZeros(owp[..words]);
      return;
    }
    if Words(vmsbp1) == 1 {
      DivideShort(words, owp, lwp, rwp, umsbp1, isModulus);
    } else {
      DivideLong(words, owp, lwp, rwp, umsbp1, vmsbp1, isModulus);
    }
  }

  /** The part of the routine for divisors of one word. */
  method DivideShort(words: nat, owp: array<word>, lwp: array<word>, rwp: array<word>,
                     umsbp1: nat, isModulus: bool)
    requires 1 <= words <= owp.Length && words <= lwp.Length && words <= rwp.Length
    requires owp != lwp && owp != rwp
    requires BitLength(lwp[..words], umsbp1)
    requires rwp[0] != 0 && forall k :: 1 <= k < words ==> rwp[k] == 0
    requires forall k :: 0 <= k < words ==> owp[k] == 0
    modifies owp
    ensures owp[words..] == old(owp[words..])
    ensures Val(owp[..words]) == DivMod(Val(lwp[..words]), Val(rwp[..words]), isModulus)
  {
    var uw := Words(umsbp1);
    ghost var was := owp[uw..];
    BitLengthZero(lwp[..words], umsbp1);
    assert lwp[..words][..uw] == lwp[..uw];
    OneWord(rwp[..words]);
    assert uw <= words;
    hide Val, BitLength, Words, DivMod, Remainder;
    var k := DivideByWord(owp, lwp, rwp[0], uw);
    ShortQuotient(Val(lwp[..words]), rwp[0], Val(owp[..uw]), k);
    assert owp[words..] == owp[uw..][words - uw..] == was[words - uw..];
    assert owp[..words][..uw] == owp[..uw] && owp[..words][uw..] == owp[uw..][..words - uw];
    ZerosAbove(owp[..words], owp[uw..], uw);
    if isModulus { StoreRemainder(words, owp, k); }
  }

  /** One word and zeros above it. */
  method StoreRemainder(words: nat, owp: array<word>, k: word)
    requires 1 <= words <= owp.Length
    modifies owp
    ensures Val(owp[..words]) == k && owp[words..] == old(owp[words..])
  {
    ghost var tail := owp[words..];
    owp[0] := k;
    for i := 1 to words
      invariant owp[0] == k && forall m :: 1 <= m < i ==> owp[m] == 0
      invariant owp[words..] == tail
    {
      owp[i] := 0;
    }
    OneWord(owp[..words]);
  }

  lemma ShortQuotient(u: nat, d: nat, q: nat, k: nat)
    requires d > 0 && Remainder(u, q, d, k)
    ensures k < d && DivMod(u, d, false) == q && DivMod(u, d, true) == k
  {
    DivModUnique(u, d, q, k);
  }

  lemma OneWord(s: seq<word>)
    requires |s| >= 1 && forall k :: 1 <= k < |s| ==> s[k] == 0
    ensures Val(s) == s[0]
  {
    ValTrim(s, 1);
    assert s[..1] == [s[0]];
    Val1(s[0]);
  }

  lemma ZerosAbove(s: seq<word>, above: seq<word>, n: nat)
    requires n <= |s| && |s| - n <= |above| && s[n..] == above[..|s| - n]
    requires forall k :: 0 <= k < |s| - n ==> above[k] == 0
    ensures Val(s) == Val(s[..n])
  {
    forall i | n <= i < |s| ensures s[i] == 0 { assert s[i] == s[n..][i - n]; }
    ValTrim(s, n);
  }

  /** Quotient or remainder on naturals, zero for a zero divisor. */
  function DivMod(u: nat, v: nat, isModulus: bool): int {
    if v == 0 then 0 else if isModulus then u % v else u / v
  }
}
