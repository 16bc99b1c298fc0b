/**
 Wide shifts of the Verilator runtime by a computed amount: left, logical right
 and arithmetic right, as arithmetic on the numbers.
 */
module WideShift {
  import opened Bits
  import opened Wide
  import opened WideArith
  import opened WideBits

  lemma PowSplit(m: nat, n: nat)
    requires n <= m
    ensures Pow2(m) == Pow2(n) * Pow2(m - n)
  {
    Pow2Add(n, m - n);
  }

  // ---------------------------------------------------------------- left

  /** A left shift keeps the low width - rd bits of the operand. */
  ghost predicate LeftBy(o: nat, l: nat, rd: nat, width: nat)
    requires rd <= width
  {
    o == l % Pow2(width - rd) * Pow2(rd)
  }

  lemma LeftByMeaning(o: nat, l: nat, rd: nat, width: nat, obits: nat)
    requires rd <= obits <= width && LeftBy(o, l, rd, width)
    ensures o == l * Pow2(rd) % Pow2(width)
    ensures o % Pow2(obits) == l * Pow2(rd) % Pow2(obits)
  {
    hide Pow2;
    PowSplit(width, rd);
    PowSplit(width, obits);
    LeftByFactors(o, l, Pow2(rd), Pow2(width - rd), Pow2(obits), Pow2(width - obits));
  }

  /** When the result of a whole-word shift is clean, in terms of the operand. */
  lemma AlignedShiftClean(o: nat, l: nat, rd: nat, width: nat, obits: nat)
    requires rd <= obits <= width && LeftBy(o, l, rd, width)
    ensures o < Pow2(obits) <==> l % Pow2(width - rd) < Pow2(obits - rd)
  {
    var x, a, d := l % Pow2(width - rd), Pow2(rd), Pow2(obits - rd);
    PowSplit(obits, rd);
    if x < d {
      MulMono(x + 1, d, a);
      assert (x + 1) * a == x * a + a;
    } else {
      MulMono(d, x, a);
    }
  }

  /** A clean 33-bit operand whose whole-word shift is not clean: 3 << 32. */
  lemma AlignedShiftDirty()
    ensures 3 < Pow2(33) && forall o: nat :: LeftBy(o, 3, 32, 64) ==> o >= Pow2(33)
  {
    Pow2At32();
    assert Pow2(33) == 0x2_0000_0000;
    DivModUnique(3, Pow2(32), 0, 3);
    forall o: nat | LeftBy(o, 3, 32, 64)
      ensures o >= Pow2(33)
    {
      assert o == 3 % Pow2(32) * Pow2(32);
    }
  }

  lemma LeftByFactors(o: nat, l: nat, a: nat, d: nat, m: nat, k: nat)
    requires a > 0 && d > 0 && m > 0 && k > 0 && a * d == m * k && o == l % d * a
    ensures m * k > 0 && o == l * a % (m * k)
    ensures o % m == l * a % m
  {
    ModScales(l, a, d, 0);
    ModTwice(l * a, m, k);
  }

  lemma {:induction false} AlignedLeft(s: seq<word>, l: seq<word>, ws: nat)
    requires ws <= |l| == |s|
    requires forall k :: 0 <= k < ws ==> s[k] == 0
    requires s[ws..] == l[..|l| - ws]
    ensures LeftBy(Val(s), Val(l), 32 * ws, 32 * |l|)
  {
    hide Pow2, Val, PowB;
    var n := |l| - ws;
    ValSplit(s, ws);
    ValZeros(s[..ws]);
    ValSplit(l, n);
    ValBound(l[..n]);
    assert PowB(n) * Val(l[n..]) == Val(l[n..]) * PowB(n);
    DivModUnique(Val(l), PowB(n), Val(l[n..]), Val(l[..n]));
    PowBIsPow2(n);
    PowBIsPow2(ws);
    assert Val(s) == PowB(ws) * Val(l[..n]) == Val(l[..n]) * PowB(ws);
    assert 32 * |l| - 32 * ws == 32 * n;
  }

  lemma UnalignedLeft(s: seq<word>, was: seq<word>, l: seq<word>, src: seq<word>, rd: nat, obits: nat)
    requires |s| == |was| == |l| == Words(obits) && rd < obits
    requires src == l[..Words(obits - rd)] && Inserted(s, was, src, rd, obits)
    requires forall k :: 0 <= k < |was| ==> was[k] == 0
    ensures LeftBy(Val(s), Val(l), rd, obits)
  {
    var x := Val(l) % Pow2(obits - rd) * Pow2(rd);
    hide Val, Bit, Pow2, BitW, Inserted;
    forall k: nat
      ensures Bit(x, k) == (rd <= k < obits && Bit(Val(l), k - rd))
    {
      LeftBit(Val(l), obits, rd, k);
    }
    forall k: nat | k < 32 * |s|
      ensures BitW(s, k) == Bit(x, k)
    {
      InsertedBit(s, was, l, src, rd, obits, k);
    }
    ValueFromBits(s, x);
  }

  lemma LeftBit(v: nat, obits: nat, rd: nat, k: nat)
    requires rd < obits
    ensures Bit(v % Pow2(obits - rd) * Pow2(rd), k) == (rd <= k < obits && Bit(v, k - rd))
  {
    hide Bit, Pow2;
    BitOfScaled(v % Pow2(obits - rd), rd, k);
    if rd <= k { BitOfMod(v, obits - rd, k - rd); }
  }

  lemma InsertedBit(s: seq<word>, was: seq<word>, l: seq<word>, src: seq<word>, rd: nat, obits: nat, k: nat)
    requires |s| == |was| == |l| == Words(obits) && rd < obits && k < 32 * |s|
    requires src == l[..Words(obits - rd)] && Inserted(s, was, src, rd, obits)
    requires forall k :: 0 <= k < |was| ==> was[k] == 0
    ensures BitW(s, k) == (rd <= k < obits && Bit(Val(l), k - rd))
  {
    hide Val, Bit;
    BitOfSmall(0, 0, k % 32);
    assert !BitW(was, k);
    if rd <= k < obits {
      BitOfVal(l, k - rd);
      assert BitW(src, k - rd) == Bit(Val(l), k - rd);
    }
  }

  /**
   `VL_SHIFTL_WWI`: multiplication by 2^rd modulo 2^obits. The result has no bits
   at or above obits except that the branch for whole-word shifts leaves there
   whatever moves out of the low obits bits within the last word.
   */
  method ShiftLeft(obits: nat, owp: array<word>, lwp: array<word>, rd: nat)
    requires 1 <= obits && owp != lwp && Words(obits) <= owp.Length && Words(obits) <= lwp.Length
    modifies owp
    ensures rd < obits ==>
              LeftBy(Val(owp[..Words(obits)]), Val(lwp[..Words(obits)]), rd,
                     if rd % 32 == 0 then 32 * Words(obits) else obits)
    ensures rd >= obits ==> Val(owp[..Words(obits)]) == 0
    ensures owp[Words(obits)..] == old(owp[Words(obits)..])
  {
    hide Val, LeftBy, Inserted;
    var words := Words(obits);
    ghost var l, tail := lwp[..words], owp[words..];
    var word_shift, bit_shift := rd / 32, rd % 32;
    if rd >= obits {
      Clear(owp, words);
      ValZeros(owp[..words]);
    } else if bit_shift == 0 {
      Clear(owp, word_shift);
      for i := word_shift to words
        invariant forall k :: 0 <= k < word_shift ==> owp[k] == 0
        invariant forall k :: word_shift <= k < i ==> owp[k] == l[k - word_shift]
        invariant owp[words..] == tail
      {
        owp[i] := lwp[i - word_shift];
      }
      assert owp[..words][word_shift..] == l[..words - word_shift];
      AlignedLeft(owp[..words], l, word_shift);
    } else {
      Clear(owp, words);
      ghost var was := owp[..];
      Insert(owp, lwp, obits - 1, rd);
      assert lwp[..Words(obits - rd)] == l[..Words(obits - rd)];
      InsertedLeft(owp[..], was, l, rd, obits);
      assert owp[..][..words] == owp[..words] && owp[..][words..] == owp[words..] && was[words..] == tail;
    }
  }

  /** Inserting the operand into zeros shifts it. */
  lemma InsertedLeft(now: seq<word>, was: seq<word>, l: seq<word>, rd: nat, obits: nat)
    requires |l| == Words(obits) <= |was| && rd < obits && Inserted(now, was, l[..Words(obits - rd)], rd, obits)
    requires forall k :: 0 <= k < |l| ==> was[k] == 0
    ensures LeftBy(Val(now[..|l|]), Val(l), rd, obits)
    ensures now[|l|..] == was[|l|..]
  {
    hide Val, LeftBy, Inserted;
    InsertedPrefix(now, was, l[..Words(obits - rd)], rd, obits, |l|);
    InsertedLength(now, was, l[..Words(obits - rd)], rd, obits);
    UnalignedLeft(now[..|l|], was[..|l|], l, l[..Words(obits - rd)], rd, obits);
  }

  lemma InsertedLength(now: seq<word>, was: seq<word>, src: seq<word>, lbit: nat, lim: nat)
    requires Inserted(now, was, src, lbit, lim)
    ensures |now| == |was|
  {
  }

  /** An insertion that stays within the first n words leaves the others alone. */
  lemma InsertedPrefix(now: seq<word>, was: seq<word>, src: seq<word>, lbit: nat, lim: nat, n: nat)
    requires Inserted(now, was, src, lbit, lim) && lim <= 32 * n && n <= |was|
    ensures Inserted(now[..n], was[..n], src, lbit, lim)
    ensures now[n..] == was[n..]
  {
    forall k: nat | k < 32 * n
      ensures BitW(now[..n], k) == if lbit <= k < lim then BitW(src, k - lbit) else BitW(was[..n], k)
    {
      assert BitW(now, k) == if lbit <= k < lim then BitW(src, k - lbit) else BitW(was, k);
    }
    forall w | n <= w < |was|
      ensures now[w] == was[w]
    {
      forall b: nat
        ensures Bit(now[w], b) == Bit(was[w], b)
      {
        if b < 32 {
          BitAt(now, w, b);
          BitAt(was, w, b);
          assert BitW(now, 32 * w + b) == BitW(was, 32 * w + b);
        } else {
          WordBits(now[w], b);
          WordBits(was[w], b);
        }
      }
      BitsEqual(now[w], was[w]);
    }
  }

  // ---------------------------------------------------------------- right

  /**
   Bits of an arithmetic right shift of an obits-bit operand before the last word
   is masked: operand bits while there are any, then the fill bit.
   */
  predicate RightBit(l: seq<word>, rd: nat, obits: nat, fill: bool, k: nat)
    requires obits <= 32 * |l|
  {
    if k + rd < obits then BitW(l, k + rd) else fill
  }

  ghost predicate RightWords(s: seq<word>, l: seq<word>, rd: nat, obits: nat, fill: bool, n: nat)
    requires obits <= 32 * |l|
  {
    n <= |s| && forall k: nat :: k < 32 * n ==> BitW(s, k) == RightBit(l, rd, obits, fill, k)
  }

  /** No operand bit at or above its width. */
  ghost predicate Clean(l: seq<word>, obits: nat) {
    forall k: nat :: obits <= k < 32 * |l| ==> !BitW(l, k)
  }

  lemma CleanValue(l: seq<word>, obits: nat)
    requires Val(l) < Pow2(obits)
    ensures Clean(l, obits)
  {
    forall k: nat | obits <= k < 32 * |l|
      ensures !BitW(l, k)
    {
      BitOfVal(l, k);
      BitOfSmall(Val(l), obits, k);
    }
  }

  lemma RightWordsStep(s: seq<word>, l: seq<word>, rd: nat, obits: nat, fill: bool, n: nat, x: word)
    requires obits <= 32 * |l| && n < |s| && RightWords(s, l, rd, obits, fill, n)
    requires forall b: nat :: b < 32 ==> Bit(x, b) == RightBit(l, rd, obits, fill, 32 * n + b)
    ensures RightWords(s[n := x], l, rd, obits, fill, n + 1)
  {
    var t := s[n := x];
    forall k: nat | k < 32 * (n + 1)
      ensures BitW(t, k) == RightBit(l, rd, obits, fill, k)
    {
      if k < 32 * n {
        assert BitW(s, k) == RightBit(l, rd, obits, fill, k);
      } else {
        assert k == 32 * n + k % 32;
      }
    }
  }

  /** `(lo >> s) | (hi << (32 - s))`, without the second part when there is no word above. */
  function ShrPair(l: seq<word>, w: nat, s: nat): word
    requires w < |l| && s <= 32
  {
    if w + 1 < |l| then OrBelowWord(Shr32(l[w], s), Shl32(l[w + 1], 32 - s));
                        Or(Shr32(l[w], s), Shl32(l[w + 1], 32 - s))
    else Shr32(l[w], s)
  }

  lemma BitOfShrPair(l: seq<word>, w: nat, s: nat, b: nat)
    requires w < |l| && 0 < s < 32 && b < 32
    ensures Bit(ShrPair(l, w, s), b)
            == if 32 * w + b + s < 32 * |l| then BitW(l, 32 * w + b + s) else false
  {
    hide Bit, Or, Shl32, Shr32;
    BitOfShr32(l[w], s, b);
    if w + 1 < |l| {
      BitOfOr(Shr32(l[w], s), Shl32(l[w + 1], 32 - s), b);
      BitOfShl32(l[w + 1], 32 - s, b);
    }
    if b + s < 32 {
      BitAt(l, w, b + s);
    } else {
      WordBits(l[w], b + s);
      if w + 1 < |l| {
        BitAt(l, w + 1, b + s - 32);
      }
    }
  }

  /** A middle word of an unaligned right shift, before any fill. */
  lemma ShrPairIsRight(l: seq<word>, rd: nat, obits: nat, i: nat, b: nat)
    requires |l| == Words(obits) && rd % 32 != 0 && i + rd / 32 < |l| && b < 32 && Clean(l, obits)
    ensures Bit(ShrPair(l, i + rd / 32, rd % 32), b) == RightBit(l, rd, obits, false, 32 * i + b)
  {
    BitOfShrPair(l, i + rd / 32, rd % 32, b);
    assert 32 * (i + rd / 32) + b + rd % 32 == 32 * i + b + rd;
  }

  /** Beyond the operand there is only fill. */
  lemma OnlyFill(l: seq<word>, rd: nat, obits: nat, fill: bool, i: nat, b: nat)
    requires obits <= 32 * |l| && 32 * i + rd >= obits && b < 32
    ensures RightBit(l, rd, obits, fill, 32 * i + b) == fill
    ensures Bit(0, b) == false && Bit(0xffff_ffff, b) == true
  {
    BitOfSmall(0, 0, b);
    Pow2At32();
    BitOfOnes(32, b);
  }

  /** With fill 0, the words stand for the quotient by 2^rd. */
  lemma RightValue(s: seq<word>, l: seq<word>, rd: nat, obits: nat)
    requires |s| == |l| == Words(obits) && Val(l) < Pow2(obits)
    requires RightWords(s, l, rd, obits, false, |s|)
    ensures Val(s) == Val(l) / Pow2(rd)
  {
    hide Shr, Bit, Val, Pow2;
    var x := Shr(Val(l), rd);
    CleanValue(l, obits);
    forall k: nat
      ensures k < 32 * |s| ==> BitW(s, k) == Bit(x, k)
      ensures k >= 32 * |s| ==> !Bit(x, k)
    {
      BitOfShr(Val(l), rd, k);
      if k + rd < 32 * |l| {
        BitOfVal(l, k + rd);
        if k + rd >= obits {
          assert !BitW(l, k + rd);
        }
      } else {
        BitBeyondVal(l, k + rd);
      }
      if k < 32 * |s| {
        assert BitW(s, k) == RightBit(l, rd, obits, false, k);
      }
    }
    ValueFromBits(s, x);
    ShrDef(Val(l), rd);
  }

  /** The loop over the middle words of an unaligned right shift. */
  method ShiftMiddleWords(owp: array<word>, lwp: array<word>, obits: nat, rd: nat)
    requires rd < obits && rd % 32 != 0
    requires owp != lwp && Words(obits) <= owp.Length && Words(obits) <= lwp.Length
    requires Clean(lwp[..Words(obits)], obits)
    modifies owp
    ensures RightWords(owp[..], lwp[..Words(obits)], rd, obits, false, Words(obits - rd))
    ensures owp[Words(obits - rd)..] == old(owp[Words(obits - rd)..])
  {
    hide RightBit, BitW, Clean, ShrPair;
    var word_shift, loffset, words := rd / 32, rd % 32, Words(obits - rd);
    ghost var l, tail := lwp[..Words(obits)], owp[words..];
    for i := 0 to words
      invariant lwp[..Words(obits)] == l && owp[words..] == tail
      invariant RightWords(owp[..], l, rd, obits, false, i)
    {
      ghost var now, x := owp[..], ShrPair(l, i + word_shift, loffset);
      forall b: nat | b < 32
        ensures Bit(x, b) == RightBit(l, rd, obits, false, 32 * i + b)
      {
        ShrPairIsRight(l, rd, obits, i, b);
      }
      RightWordsStep(now, l, rd, obits, false, i, x);
      assert l[i + word_shift] == lwp[i + word_shift];
      owp[i] := Shr32(lwp[i + word_shift], loffset);
      var upperword := i + word_shift + 1;
      if upperword < Words(obits) {
        OrBelowWord(owp[i], Shl32(lwp[upperword], 32 - loffset));
        owp[i] := Or(owp[i], Shl32(lwp[upperword], 32 - loffset));
      }
      ShrPairDef(l, i + word_shift, loffset);
      assert owp[..] == now[i := x];
    }
  }

  lemma ShrPairDef(l: seq<word>, w: nat, s: nat)
    requires w < |l| && s <= 32
    ensures ShrPair(l, w, s) == if w + 1 < |l| then Or(Shr32(l[w], s), Shl32(l[w + 1], 32 - s)) else Shr32(l[w], s)
  {
  }

  /** `VL_SHIFTR_WWI` on a clean operand: division by 2^rd. */
  method ShiftRight(obits: nat, owp: array<word>, lwp: array<word>, rd: nat)
    requires 1 <= obits && owp != lwp && Words(obits) <= owp.Length && Words(obits) <= lwp.Length
    requires Val(lwp[..Words(obits)]) < Pow2(obits)
    modifies owp
    ensures Val(owp[..Words(obits)]) == Val(lwp[..Words(obits)]) / Pow2(rd)
    ensures owp[Words(obits)..] == old(owp[Words(obits)..])
  {
    hide Val, Pow2, BitW, RightBit, RightWords, Clean, Bit;
    var words := Words(obits);
    ghost var l, tail := lwp[..words], owp[words..];
    CleanValue(l, obits);
    var word_shift, bit_shift := rd / 32, rd % 32;
    NoRightWords(owp[..], l, rd, obits, false);
    var done := 0;
    if rd >= obits {
    } else if bit_shift == 0 {
      var copy_words := words - word_shift;
      for i := 0 to copy_words
        invariant lwp[..words] == l && owp[words..] == tail
        invariant RightWords(owp[..], l, rd, obits, false, i)
      {
        ghost var now := owp[..];
        CopiedWord(now, l, rd, obits, i);
        owp[i] := lwp[i + word_shift];
        assert owp[..] == now[i := l[i + word_shift]];
      }
      done := copy_words;
    } else {
      ghost var was := owp[..];
      ShiftMiddleWords(owp, lwp, obits, rd);
      done := Words(obits - rd);
      assert owp[words..] == owp[done..][words - done..] == was[done..][words - done..];
    }
    for i := done to words
      invariant lwp[..words] == l && owp[words..] == tail
      invariant RightWords(owp[..], l, rd, obits, false, i)
    {
      ghost var now := owp[..];
      FillWord(now, l, rd, obits, false, i);
      owp[i] := 0;
      assert owp[..] == now[i := 0];
    }
    RightPrefix(owp[..], l, rd, obits, false, words);
    assert owp[..][..words] == owp[..words];
    RightValue(owp[..words], l, rd, obits);
  }

  lemma NoRightWords(s: seq<word>, l: seq<word>, rd: nat, obits: nat, fill: bool)
    requires obits <= 32 * |l|
    ensures RightWords(s, l, rd, obits, fill, 0)
  {
  }

  lemma RightPrefix(s: seq<word>, l: seq<word>, rd: nat, obits: nat, fill: bool, n: nat)
    requires obits <= 32 * |l| && RightWords(s, l, rd, obits, fill, n)
    ensures n <= |s| && RightWords(s[..n], l, rd, obits, fill, n)
  {
    forall k: nat | k < 32 * n
      ensures BitW(s[..n], k) == RightBit(l, rd, obits, fill, k)
    {
      assert BitW(s, k) == RightBit(l, rd, obits, fill, k);
    }
  }

  /** All ones or all zeros. */
  function Ones(fill: bool): word {
    if fill then 0xffff_ffff else 0
  }

  lemma FillWord(s: seq<word>, l: seq<word>, rd: nat, obits: nat, fill: bool, i: nat)
    requires obits <= 32 * |l| && i < |s| && RightWords(s, l, rd, obits, fill, i) && 32 * i + rd >= obits
    ensures RightWords(s[i := Ones(fill)], l, rd, obits, fill, i + 1)
  {
    var x := Ones(fill);
    forall b: nat | b < 32
      ensures Bit(x, b) == RightBit(l, rd, obits, fill, 32 * i + b)
    {
      OnlyFill(l, rd, obits, fill, i, b);
      assert Bit(x, b) == fill;
    }
    RightWordsStep(s, l, rd, obits, fill, i, x);
  }

  lemma CopiedWord(s: seq<word>, l: seq<word>, rd: nat, obits: nat, i: nat)
    requires |l| == Words(obits) && rd % 32 == 0 && i + rd / 32 < |l| && i < |s| && Clean(l, obits)
    requires RightWords(s, l, rd, obits, false, i)
    ensures RightWords(s[i := l[i + rd / 32]], l, rd, obits, false, i + 1)
  {
    var x := l[i + rd / 32];
    forall b: nat | b < 32
      ensures Bit(x, b) == RightBit(l, rd, obits, false, 32 * i + b)
    {
      BitAt(l, i + rd / 32, b);
      assert 32 * (i + rd / 32) + b == 32 * i + b + rd;
    }
    RightWordsStep(s, l, rd, obits, false, i, x);
  }

  // ---------------------------------------------------------------- arithmetic right

  /** The operand with rd copies of its sign bit on top. */
  function Extended(l: nat, obits: nat, rd: nat, neg: bool): nat {
    MulMono(0, Pow2(rd) - 1, Pow2(obits));
    l + if neg then (Pow2(rd) - 1) * Pow2(obits) else 0
  }

  lemma BitOfExtended(l: nat, obits: nat, rd: nat, neg: bool, k: nat)
    requires l < Pow2(obits)
    ensures Bit(Extended(l, obits, rd, neg), k) == if k < obits then Bit(l, k) else neg && k < obits + rd
  {
    if neg {
      BitOfSum(l, Pow2(rd) - 1, obits, k);
      if k >= obits {
        BitOfOnes(rd, k - obits);
      }
    } else if k >= obits {
      BitOfSmall(l, obits, k);
    }
  }

  /** Shifting the extended operand right is flooring division of the signed value, modulo the width. */
  lemma ExtendedQuotient(l: nat, obits: nat, rd: nat)
    requires obits >= 1 && l < Pow2(obits)
    ensures var neg := l >= Pow2(obits - 1);
            Shr(Extended(l, obits, rd, neg), rd) == Signed(l, obits) / Pow2(rd) % Pow2(obits)
  {
    var m, d := Pow2(obits), Pow2(rd);
    ShrDef(Extended(l, obits, rd, l >= Pow2(obits - 1)), rd);
    if l >= Pow2(obits - 1) {
      FloorWraps(l, m, d);
    } else {
      Euclid(l, d);
      DivShrinks(l, d);
      DivModUnique(l / d, m, 0, l / d);
    }
  }

  lemma FloorWraps(l: nat, m: nat, d: nat)
    requires m > 0 && d > 0 && l < m
    ensures (l + (d - 1) * m) / d == (l - m) / d % m
  {
    var q, r := (l - m) / d, (l - m) % d;
    Euclid(l - m, d);
    assert (l + (d - 1) * m) == (q + m) * d + r;
    DivModUnique(l + (d - 1) * m, d, q + m, r);
    if q < -(m as int) {
      MulMono(q, -(m as int) - 1, d);
      MulMono(1, d, m);
    }
    if q >= 0 {
      MulMono(0, q, d);
    }
    DivModUnique(q, m, -1, q + m);
  }

  /** Masking the last word clears the fill above the width. */
  lemma MaskedRight(s: seq<word>, t: seq<word>, l: seq<word>, rd: nat, obits: nat, fill: bool)
    requires obits >= 1 && |s| == |l| == Words(obits) && RightWords(s, l, rd, obits, fill, |s|)
    requires And(s[|s| - 1], Mask32(obits)) < 0x1_0000_0000
    requires t == s[|s| - 1 := And(s[|s| - 1], Mask32(obits))]
    ensures forall k: nat :: k < 32 * |t| ==> BitW(t, k) == (k < obits && RightBit(l, rd, obits, fill, k))
  {
    hide Bit, And, Mask32, RightBit;
    forall k: nat | k < 32 * |t|
      ensures BitW(t, k) == (k < obits && RightBit(l, rd, obits, fill, k))
    {
      assert BitW(s, k) == RightBit(l, rd, obits, fill, k);
      if k / 32 == |s| - 1 {
        BitOfAnd(s[|s| - 1], Mask32(obits), k % 32);
        BitOfMask32(obits, k % 32);
      }
    }
  }

  lemma SignedRightValue(t: seq<word>, l: seq<word>, rd: nat, obits: nat, neg: bool)
    requires obits >= 1 && |t| == |l| == Words(obits) && Val(l) < Pow2(obits)
    requires neg == (Val(l) >= Pow2(obits - 1))
    requires forall k: nat :: k < 32 * |t| ==> BitW(t, k) == (k < obits && RightBit(l, rd, obits, neg, k))
    ensures Val(t) == Signed(Val(l), obits) / Pow2(rd) % Pow2(obits)
  {
    hide Shr, Bit, Val, Pow2, Extended, Signed;
    var e := Extended(Val(l), obits, rd, neg);
    var x := Shr(e, rd);
    forall k: nat
      ensures k < 32 * |t| ==> BitW(t, k) == Bit(x, k)
      ensures k >= 32 * |t| ==> !Bit(x, k)
    {
      BitOfShr(e, rd, k);
      BitOfExtended(Val(l), obits, rd, neg, rd + k);
      if k + rd < obits {
        BitOfVal(l, k + rd);
      }
    }
    ValueFromBits(t, x);
    ExtendedQuotient(Val(l), obits, rd);
  }

  /** `VL_SIGNONES_E`: all ones for a negative clean operand. */
  function SignOnes(w: word, lbits: nat): word
    requires lbits >= 1
  {
    (0 - Shr32(w, lbits - 1)) % 0x1_0000_0000
  }

  /** `owp[n] |= ~mask & sign`: fills the bits of the last operand word above the operand. */
  lemma FilledWord(s: seq<word>, l: seq<word>, rd: nat, obits: nat, fill: bool, n: nat, x: word, mask: word)
    requires obits <= 32 * |l| && n < |s| && 32 * n + rd < obits <= 32 * (n + 1) + rd
    requires RightWords(s, l, rd, obits, false, n + 1)
    requires mask == Mask32(obits - rd)
    requires x == Or(s[n], And(Ones(fill), Not32(mask)))
    ensures RightWords(s[n := x], l, rd, obits, fill, n + 1)
  {
    var t := s[n := x];
    forall k: nat | k < 32 * (n + 1)
      ensures BitW(t, k) == RightBit(l, rd, obits, fill, k)
    {
      assert BitW(s, k) == RightBit(l, rd, obits, false, k);
      if k >= 32 * n {
        var b := k % 32;
        assert k == 32 * n + b;
        BitOfOr(s[n], And(Ones(fill), Not32(mask)), b);
        BitOfAnd(Ones(fill), Not32(mask), b);
        BitOfNot32(mask, b);
        BitOfMask32(obits - rd, b);
        BitOfOnesWord(fill, b);
      }
    }
  }

  lemma BitOfOnesWord(fill: bool, b: nat)
    requires b < 32
    ensures Bit(Ones(fill), b) == fill
  {
    BitOfSmall(0, 0, b);
    Pow2At32();
    BitOfOnes(32, b);
  }

  lemma FillIsWord(x: word, y: word)
    ensures Or(x, And(y, Not32(0))) < 0x1_0000_0000 && forall m: word :: Or(x, And(y, Not32(m))) < 0x1_0000_0000
  {
    forall m: word
      ensures Or(x, And(y, Not32(m))) < 0x1_0000_0000
    {
      AndBound(y, Not32(m));
      OrBelowWord(x, And(y, Not32(m)));
    }
  }

  lemma SameMask(obits: nat, rd: nat)
    requires rd < obits
    ensures Mask32(obits - rd % 32) == Mask32(obits - rd)
    ensures rd % 32 == 0 ==> Mask32(obits) == Mask32(obits - rd)
  {
    assert obits - rd % 32 == (obits - rd) + 32 * (rd / 32);
    assert (obits - rd % 32) % 32 == (obits - rd) % 32;
  }

  /** The words of an arithmetic right shift that still hold operand bits, sign-filled. */
  method ShiftedAndFilled(obits: nat, owp: array<word>, lwp: array<word>, rd: nat, sign: word, ghost neg: bool)
    returns (done: nat)
    requires rd < obits && owp != lwp && Words(obits) <= owp.Length && Words(obits) <= lwp.Length
    requires Clean(lwp[..Words(obits)], obits) && sign == Ones(neg)
    modifies owp
    ensures 1 <= done <= Words(obits) && 32 * done + rd >= obits
    ensures RightWords(owp[..], lwp[..Words(obits)], rd, obits, neg, done)
    ensures owp[Words(obits)..] == old(owp[Words(obits)..])
  {
    hide Val, Pow2, BitW, RightBit, RightWords, Clean, Bit, Or, And, Mask32, Shr32, Shl32;
    var words, word_shift, bit_shift := Words(obits), rd / 32, rd % 32;
    ghost var l, tail := lwp[..words], owp[words..];
    SameMask(obits, rd);
    if bit_shift == 0 {
      var copy_words := words - word_shift;
      NoRightWords(owp[..], l, rd, obits, false);
      for i := 0 to copy_words
        invariant lwp[..words] == l && owp[words..] == tail
        invariant RightWords(owp[..], l, rd, obits, false, i)
      {
        ghost var now := owp[..];
        CopiedWord(now, l, rd, obits, i);
        owp[i] := lwp[i + word_shift];
        assert owp[..] == now[i := l[i + word_shift]];
      }
      done := copy_words;
    } else {
      ghost var was := owp[..];
      ShiftMiddleWords(owp, lwp, obits, rd);
      done := Words(obits - rd);
      assert owp[words..] == owp[done..][words - done..] == was[done..][words - done..];
    }
    ghost var now := owp[..];
    FillIsWord(owp[done - 1], sign);
    owp[done - 1] := Or(owp[done - 1], And(sign, Not32(Mask32(obits - bit_shift))));
    assert owp[..] == now[done - 1 := owp[done - 1]];
    FilledWord(now, l, rd, obits, neg, done - 1, owp[done - 1], Mask32(obits - rd));
  }

  /**
   `VL_SHIFTRS_WWI` on a clean operand of the same width: flooring division of the
   signed value by 2^rd, as a clean number of that width.
   */
  method ShiftRightSigned(obits: nat, owp: array<word>, lwp: array<word>, rd: nat)
    requires 1 <= obits && owp != lwp && Words(obits) <= owp.Length && Words(obits) <= lwp.Length
    requires Val(lwp[..Words(obits)]) < Pow2(obits)
    modifies owp
    ensures Val(owp[..Words(obits)]) == Signed(Val(lwp[..Words(obits)]), obits) / Pow2(rd) % Pow2(obits)
    ensures owp[Words(obits)..] == old(owp[Words(obits)..])
  {
    hide Val, Pow2, BitW, RightBit, RightWords, Clean, Bit, And, Mask32, Shr32, Signed;
    var words, lmsw := Words(obits), Words(obits) - 1;
    ghost var l, tail := lwp[..words], owp[words..];
    ghost var neg := Val(l) >= Pow2(obits - 1);
    CleanValue(l, obits);
    SignWord(l, obits);
    var sign := SignOnes(lwp[lmsw], obits);
    assert sign == Ones(neg);
    NoRightWords(owp[..], l, rd, obits, neg);
    var done := 0;
    if rd < obits {
      done := ShiftedAndFilled(obits, owp, lwp, rd, sign, neg);
    }
    for i := done to words
      invariant lwp[..words] == l && owp[words..] == tail
      invariant RightWords(owp[..], l, rd, obits, neg, i)
    {
      ghost var now := owp[..];
      FillWord(now, l, rd, obits, neg, i);
      owp[i] := sign;
      assert owp[..] == now[i := Ones(neg)];
    }
    RightPrefix(owp[..], l, rd, obits, neg, words);
    ghost var filled := owp[..words];
    assert owp[..][..words] == filled;
    AndBound(owp[lmsw], Mask32(obits));
    owp[lmsw] := And(owp[lmsw], Mask32(obits));
    assert owp[..words] == filled[lmsw := And(filled[lmsw], Mask32(obits))];
    MaskedRight(filled, owp[..words], l, rd, obits, neg);
    SignedRightValue(owp[..words], l, rd, obits, neg);
  }
}
