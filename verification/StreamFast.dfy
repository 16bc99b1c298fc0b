/**
 The left stream operator by masks, for slices of a power of two, against the slow loop.
 */
module StreamFast {
  import opened Bits
  import opened WideBits
  import opened Stream

  predicate IsSlice(rd: nat) {
    rd == 1 || rd == 2 || rd == 4 || rd == 8 || rd == 16
  }

  // ---------------------------------------------------------------- swapping neighbours

  /** Bit k lies in the lower one of two neighbouring groups of s bits. */
  predicate Lower(k: nat, s: nat)
    requires s > 0
  {
    k % (2 * s) < s
  }

  /** 0x55555555 for s = 1, 0x33333333 for s = 2, and so on. */
  function GroupMask(s: nat): word {
    if s == 1 then 0x55555555 else if s == 2 then 0x33333333 else if s == 4 then 0x0f0f0f0f
      else if s == 8 then 0x00ff00ff
    else 0x0000ffff
  }

  /** n repetitions of s ones followed by s zeros. */
  function Comb(s: nat, n: nat): nat {
    if n == 0 then 0 else (Pow2(s) - 1) + Comb(s, n - 1) * Pow2(2 * s)
  }

  lemma {:induction false} BitOfComb(s: nat, n: nat, k: nat)
    requires s > 0
    ensures Bit(Comb(s, n), k) == (k < 2 * s * n && Lower(k, s))
  {
    if n == 0 {
      BitOfSmall(0, 0, k);
    } else {
      hide Bit, Comb;
      CombStep(s, n);
      Pow2Mono(s, 2 * s);
      BitOfSum(Pow2(s) - 1, Comb(s, n - 1), 2 * s, k);
      BitOfOnes(s, k);
      if k < 2 * s {
        DivModUnique(k, 2 * s, 0, k);
        MulMono(1, n, 2 * s);
      } else {
        BitOfComb(s, n - 1, k - 2 * s);
        LowerAgain(k, s);
        assert 2 * s * n == 2 * s * (n - 1) + 2 * s;
      }
    }
  }

  lemma CombStep(s: nat, n: nat)
    requires n > 0
    ensures Comb(s, n) == (Pow2(s) - 1) + Comb(s, n - 1) * Pow2(2 * s)
  {
  }

  lemma LowerAgain(k: nat, s: nat)
    requires s > 0 && k >= 2 * s
    ensures Lower(k - 2 * s, s) == Lower(k, s)
  {
    Euclid(k, 2 * s);
    var q := k / (2 * s);
    DivModUnique(k - 2 * s, 2 * s, q - 1, k % (2 * s));
  }

  lemma GroupMaskIsComb(s: nat)
    requires IsSlice(s) && s < 16
    ensures GroupMask(s) == Comb(s, 16 / s)
  {
    hide Comb;
    if s == 1 {
      CombOfOnes();
    } else if s == 2 {
      CombOfPairs();
    } else {
      CombOfNibbles();
    }
  }

  lemma CombOfOnes()
    ensures Comb(1, 16) == 0x55555555
  {
    assert Pow2(1) == 2 && Pow2(2) == 4;
    hide Pow2;
    assert Comb(1, 4) == 0x55;
    assert Comb(1, 8) == 0x5555;
    assert Comb(1, 12) == 0x555555;
  }

  lemma CombOfPairs()
    ensures Comb(2, 8) == 0x33333333
  {
    assert Pow2(2) == 4 && Pow2(4) == 16;
    hide Pow2;
    assert Comb(2, 4) == 0x3333;
  }

  lemma CombOfNibbles()
    ensures Comb(4, 4) == 0x0f0f0f0f && Comb(8, 2) == 0x00ff00ff
  {
    assert Pow2(4) == 16;
    Pow2Add(4, 4);
    Pow2Add(8, 8);
    hide Pow2;
  }

  lemma BitOfGroupMask(s: nat, k: nat)
    requires IsSlice(s) && s < 16 && k < 32
    ensures Bit(GroupMask(s), k) == Lower(k, s)
  {
    GroupMaskIsComb(s);
    hide Bit, Comb, GroupMask;
    BitOfComb(s, 16 / s, k);
  }

  /** Where a bit goes when neighbouring groups of s bits change places. */
  function Flip(k: nat, s: nat): int
    requires s > 0
  {
    if Lower(k, s) then k + s else k - s
  }

  /** `((ret >> s) & mask) | ((ret & mask) << s)`; for half words the shifts alone do it. */
  function Swapped(x: word, s: nat): word
    requires IsSlice(s)
  {
    var m := GroupMask(s);
    AndBound(Shr32(x, s), m);
    AndBound(x, m);
    if s < 16 then
      OrBelowWord(And(Shr32(x, s), m), Shl32(And(x, m), s));
      Or(And(Shr32(x, s), m), Shl32(And(x, m), s))
    else
      OrBelowWord(Shr32(x, 16), Shl32(x, 16));
      Or(Shr32(x, 16), Shl32(x, 16))
  }

  lemma SliceDivides(s: nat)
    requires IsSlice(s)
    ensures Multiple(32, 2 * s) && Multiple(32, s)
  {
    assert 32 == 16 / s * (2 * s);
    assert 32 == 32 / s * s;
  }

  lemma FlipInWord(k: nat, s: nat)
    requires IsSlice(s) && k < 32
    ensures 0 <= Flip(k, s) < 32 && (k >= s ==> Lower(k - s, s) == !Lower(k, s)) && (Lower(k, s) || k >= s)
  {
    SliceDivides(s);
    MultipleParts(k, 2 * s);
    FlipGroups(k, s, k % (2 * s));
  }

  lemma FlipGroups(k: nat, s: nat, r: nat)
    requires 0 < s && k < 32 && r == k % (2 * s) && r <= k && r < 2 * s && Multiple(32, 2 * s) && Multiple(k - r, 2 * s)
    ensures 0 <= Flip(k, s) < 32 && (k >= s ==> Lower(k - s, s) == !Lower(k, s)) && (Lower(k, s) || k >= s)
  {
    hide Multiple;
    MultipleMinus(32, k - r, 2 * s);
    if r >= s {
      ModOfMultiple(k - r, 2 * s, r - s);
      assert k - s == k - r + (r - s);
    } else if k >= s {
      MultipleOne(2 * s);
      SliceZero(2 * s);
      MultipleMinus(k - r, 0, 2 * s);
      MultipleMinus(k - r, 2 * s, 2 * s);
      ModOfMultiple(k - r - 2 * s, 2 * s, r + s);
      assert k - s == k - r - 2 * s + (r + s);
    }
  }

  lemma SwapMoves(x: word, s: nat, k: nat)
    requires IsSlice(s) && k < 32
    ensures 0 <= Flip(k, s) && Bit(Swapped(x, s), k) == Bit(x, Flip(k, s))
  {
    FlipInWord(k, s);
    if s < 16 {
      SwapMasked(x, s, k);
    } else {
      SwapHalves(x, k);
    }
  }

  lemma SwapMasked(x: word, s: nat, k: nat)
    requires IsSlice(s) && s < 16 && k < 32
    ensures 0 <= Flip(k, s) && Bit(Swapped(x, s), k) == Bit(x, Flip(k, s))
  {
    FlipInWord(k, s);
    var m := GroupMask(s);
    AndBound(Shr32(x, s), m);
    AndBound(x, m);
    hide Bit, And, Or, Shl32, Shr32, GroupMask, Lower;
    BitOfOr(And(Shr32(x, s), m), Shl32(And(x, m), s), k);
    BitOfAnd(Shr32(x, s), m, k);
    BitOfShr32(x, s, k);
    BitOfGroupMask(s, k);
    BitOfShl32(And(x, m), s, k);
    if s <= k {
      BitOfAnd(x, m, k - s);
      BitOfGroupMask(s, k - s);
    }
  }

  lemma SwapHalves(x: word, k: nat)
    requires k < 32
    ensures 0 <= Flip(k, 16) && Bit(Swapped(x, 16), k) == Bit(x, Flip(k, 16))
  {
    hide Bit, And, Or, Shl32, Shr32, GroupMask;
    BitOfOr(Shr32(x, 16), Shl32(x, 16), k);
    BitOfShr32(x, 16, k);
    BitOfShl32(x, 16, k);
    if k >= 16 {
      WordBits(x, k + 16);
    }
  }

  // ---------------------------------------------------------------- all stages

  /** The position mirrored in slices of s bits. */
  function Mirror(k: nat, s: nat): int
    requires s > 0
  {
    32 - s - k + 2 * (k % s)
  }

  /** The stages of the `switch` from s on. */
  function Stages(x: word, s: nat): word
    requires IsSlice(s)
    decreases 32 - s
  {
    if s == 16 then Swapped(x, 16) else Stages(Swapped(x, s), 2 * s)
  }

  lemma MirrorStep(k: nat, s: nat)
    requires IsSlice(s) && k < 32
    ensures 0 <= Mirror(k, s) < 32
    ensures s < 16 ==> 0 <= Mirror(k, 2 * s) < 32 && Flip(Mirror(k, 2 * s), s) == Mirror(k, s)
    ensures s == 16 ==> Flip(k, s) == Mirror(k, s)
  {
    SliceDivides(s);
    MultipleParts(k, s);
    MultipleParts(k, 2 * s);
    HalfSlice(k, s, k % (2 * s), k % s);
    MirrorGroups(k, s, k % (2 * s), k % s);
  }

  lemma HalfSlice(k: nat, s: nat, r: nat, t: nat)
    requires s > 0 && r == k % (2 * s) && t == k % s && r < 2 * s && Multiple(k - r, 2 * s)
    ensures t == if r < s then r else r - s
  {
    var q: int :| k - r == q * (2 * s);
    assert k - r == (2 * q) * s;
    if r < s {
      ModOfMultiple(k - r, s, r);
    } else {
      SliceNext2(k - r, s, 2 * q);
      ModOfMultiple(k - r + s, s, r - s);
    }
  }

  lemma SliceNext2(j: int, s: nat, q: int)
    requires j == q * s
    ensures Multiple(j, s) && Multiple(j + s, s)
  {
    assert j + s == (q + 1) * s;
  }

  lemma MirrorGroups(k: nat, s: nat, r: nat, t: nat)
    requires 0 < s <= 16 && k < 32 && r == k % (2 * s) && t == k % s && t == (if r < s then r else r - s)
    requires r <= k && r < 2 * s && Multiple(k - r, 2 * s) && Multiple(32, 2 * s)
    ensures 0 <= Mirror(k, s) < 32
    ensures 0 <= Mirror(k, 2 * s) < 32 && Flip(Mirror(k, 2 * s), s) == Mirror(k, s)
    ensures s == 16 ==> Flip(k, s) == Mirror(k, s)
  {
    hide Multiple;
    MultipleMinus(32, k - r, 2 * s);
    MultipleOne(2 * s);
    MultipleMinus(32 - (k - r), 2 * s, 2 * s);
    var j := 32 - (k - r) - 2 * s;
    ModOfMultiple(j, 2 * s, r);
    assert Mirror(k, 2 * s) == j + r;
    if s == 16 {
      SliceZero(32);
      MultipleMinus(k - r, 0, 32);
    }
  }

  /** Together the stages mirror the slices of the word. */
  lemma {:induction false} StagesMirror(x: word, s: nat, k: nat)
    requires IsSlice(s) && k < 32
    ensures 0 <= Mirror(k, s) && Bit(Stages(x, s), k) == Bit(x, Mirror(k, s))
    decreases 32 - s
  {
    MirrorStep(k, s);
    hide Bit, Swapped, Flip, Mirror;
    if s == 16 {
      SwapMoves(x, 16, k);
    } else {
      StagesMirror(Swapped(x, s), 2 * s, k);
      SwapMoves(x, s, Mirror(k, 2 * s));
    }
  }

  // ---------------------------------------------------------------- the most significant slice

  /** The mask of a last slice that is not full; the shift by a full word is the hardware's. */
  function MsbMask(lbits: nat, rd: nat): word
    requires rd > 0
  {
    MultipleParts(lbits, rd);
    Shl32(Mask32(lbits % rd), lbits - lbits % rd)
  }

  /** Moves the bits of a last slice that is not full to the upper end of their slice. */
  function PreShifted(ld: word, lbits: nat, rd: nat): word
    requires rd > 0
  {
    MultipleParts(lbits, rd);
    var m, rem := MsbMask(lbits, rd), lbits % rd;
    AndBound(ld, Not32(m));
    AndBound(ld, m);
    OrBelowWord(And(ld, Not32(m)), Shl32(And(ld, m), rd - rem));
    Or(And(ld, Not32(m)), Shl32(And(ld, m), rd - rem))
  }

  lemma BitOfMsbMask(lbits: nat, rd: nat, k: nat)
    requires rd > 0 && lbits < 32 && k < 32
    ensures lbits % rd <= lbits
    ensures var rem := lbits % rd; Bit(MsbMask(lbits, rd), k) == (k >= lbits - rem && (rem == 0 || k < lbits))
  {
    MultipleParts(lbits, rd);
    hide Bit, Shl32, Mask32;
    MaskShifted(lbits % rd, lbits - lbits % rd, k);
  }

  lemma MaskShifted(rem: nat, floor: nat, k: nat)
    requires rem < 32 && floor < 32 && k < 32
    ensures Bit(Shl32(Mask32(rem), floor), k) == (k >= floor && (rem == 0 || k < floor + rem))
  {
    hide Bit, Shl32, Mask32;
    BitOfShl32(Mask32(rem), floor, k);
    if k >= floor { BitOfMask32(rem, k - floor); }
  }

  /** Below the last slice nothing moves; in it bit k comes from rd - rem below. */
  lemma PreShiftMoves(ld: word, lbits: nat, rd: nat, rem: nat, k: nat)
    requires IsSlice(rd) && rd <= lbits < 32 && ld < Pow2(lbits) && k < 32 && rem == lbits % rd
    ensures rem <= lbits
    ensures var floor := lbits - rem; var from := k - (rd - rem);
      Bit(PreShifted(ld, lbits, rd), k) ==
        if k < floor then Bit(ld, k) else rem > 0 && floor <= from < lbits && Bit(ld, from)
  {
    MultipleParts(lbits, rd);
    hide Bit, And, Or, Shl32, Not32, Mask32, MsbMask, Pow2, IsSlice, Multiple;
    PreShiftBit(ld, lbits, rd, rem, MsbMask(lbits, rd), k);
  }

  lemma PreShiftBit(ld: word, lbits: nat, rd: nat, rem: nat, m: word, k: nat)
    requires 0 < rd <= lbits < 32 && ld < Pow2(lbits) && k < 32 && rem == lbits % rd && rem < rd && rem <= lbits
    requires m == MsbMask(lbits, rd)
    ensures And(ld, Not32(m)) <= ld && And(ld, m) <= ld
    ensures var floor := lbits - rem; var from := k - (rd - rem);
      Bit(Or(And(ld, Not32(m)), Shl32(And(ld, m), rd - rem)), k) ==
        if k < floor then Bit(ld, k) else rem > 0 && floor <= from < lbits && Bit(ld, from)
  {
    hide Bit, And, Or, Shl32, Not32, MsbMask, Pow2;
    BitOfMsbMask(lbits, rd, k);
    BitOfClean(ld, lbits, k);
    if k >= rd - rem {
      BitOfMsbMask(lbits, rd, k - (rd - rem));
      BitOfClean(ld, lbits, k - (rd - rem));
    }
    MovedBit(ld, m, rd - rem, k);
  }

  lemma MovedBit(ld: word, m: word, n: nat, k: nat)
    requires n < 32 && k < 32
    ensures And(ld, Not32(m)) <= ld && And(ld, m) <= ld
    ensures Bit(Or(And(ld, Not32(m)), Shl32(And(ld, m), n)), k) ==
      ((Bit(ld, k) && !Bit(m, k)) || (k >= n && Bit(ld, k - n) && Bit(m, k - n)))
  {
    AndBound(ld, Not32(m));
    AndBound(ld, m);
    hide Bit, And, Or, Shl32, Not32;
    BitOfOr(And(ld, Not32(m)), Shl32(And(ld, m), n), k);
    BitOfAnd(ld, Not32(m), k);
    BitOfNot32(m, k);
    BitOfShl32(And(ld, m), n, k);
    if n <= k { BitOfAnd(ld, m, k - n); }
  }

  // ---------------------------------------------------------------- fast equals slow

  /** The mirrored position of an output bit is where the pre-shifted word has its source. */
  lemma MirrorIsSource(lbits: nat, rd: nat, p: nat, rem: nat)
    requires IsSlice(rd) && rd <= lbits <= 32 && p < lbits && rem == lbits % rd
    ensures var k := Mirror(p + 32 - lbits, rd); var src := StreamSource(lbits, rd, p);
      && 0 <= src < lbits && 0 <= k < 32
      && (p >= rem ==> k == src && k < lbits - rem)
      && (p < rem ==> k == src + (rd - rem) && src >= lbits - rem)
  {
    SliceDivides(rd);
    MultipleParts(lbits, rd);
    StreamIsPermutation(lbits, rd, p);
    SourceAt(lbits, rd, p, rem, (p - rem) % rd);
    MirrorStep(p + 32 - lbits, rd);
    hide *;
    MirrorParts(lbits, rd, p, rem);
  }

  lemma MirrorParts(lbits: nat, rd: nat, p: nat, rem: nat)
    requires 0 < rd && p < lbits <= 32 && rem < rd && rem <= lbits && Multiple(lbits - rem, rd) && Multiple(32, rd)
    ensures p < rem ==> Mirror(p + 32 - lbits, rd) == lbits + p - rem + (rd - rem)
    ensures p >= rem ==> Mirror(p + 32 - lbits, rd) == lbits - rd - p + 2 * ((p - rem) % rd) < lbits - rem
  {
    hide Multiple, Mirror;
    if p < rem {
      MirrorOfRest(lbits, rd, p, rem);
    } else {
      MultipleParts(p - rem, rd);
      MirrorOfFull(lbits, rd, p, rem, (p - rem) % rd);
    }
  }

  /** An output bit from the incomplete slice. */
  lemma MirrorOfRest(lbits: nat, rd: nat, p: nat, rem: nat)
    requires 0 < rd && p < rem <= lbits <= 32 && rem < rd && Multiple(lbits - rem, rd) && Multiple(32, rd)
    ensures Mirror(p + 32 - lbits, rd) == lbits + p - rem + (rd - rem)
  {
    hide Multiple;
    MultipleOne(rd);
    MultipleMinus(32, lbits - rem, rd);
    MultipleMinus(32 - (lbits - rem), rd, rd);
    ModOfMultiple(32 - (lbits - rem) - rd, rd, p + rd - rem);
  }

  /** An output bit from a full slice. */
  lemma MirrorOfFull(lbits: nat, rd: nat, p: nat, rem: nat, off: nat)
    requires 0 < rd && rem <= p < lbits <= 32 && off < rd && off <= p - rem
    requires Multiple(lbits - rem, rd) && Multiple(p - rem - off, rd) && Multiple(32, rd)
    ensures Mirror(p + 32 - lbits, rd) == lbits - rd - p + 2 * off < lbits - rem
  {
    hide Multiple;
    MultipleMinus(lbits - rem, p - rem - off, rd);
    MultipleMinus(32, lbits - rem - (p - rem - off), rd);
    ModOfMultiple(32 - (lbits - rem - (p - rem - off)), rd, off);
  }

  /** A slice of a whole word is allowed too; the `switch` has no stage for it. */
  predicate IsSize(rd: nat) {
    IsSlice(rd) || rd == 32
  }

  /** The fast form, as a function of its operand. */
  function Fast(lbits: nat, ld: word, rd: nat): word
    requires IsSize(rd) && lbits <= 32
  {
    var x := if rd == 1 then ld else PreShifted(ld, lbits, rd);
    Shr32(if rd == 32 then x else Stages(x, rd), 32 - lbits)
  }

  lemma FastBit(lbits: nat, ld: word, rd: nat, p: nat)
    requires IsSlice(rd) && rd <= lbits <= 32 && ld < Pow2(lbits) && p < 32 && (rd == 1 || lbits < 32)
    ensures Bit(Fast(lbits, ld, rd), p) == SourceBitOf(ld, lbits, rd, lbits, p)
  {
    hide Bit, Stages, PreShifted, Pow2, Shr32;
    var x := if rd == 1 then ld else PreShifted(ld, lbits, rd);
    BitOfShr32(Stages(x, rd), 32 - lbits, p);
    if p < lbits {
      StagesMirror(x, rd, p + 32 - lbits);
      var rem := lbits % rd;
      MirrorIsSource(lbits, rd, p, rem);
      if rd > 1 { PreShiftMoves(ld, lbits, rd, rem, Mirror(p + 32 - lbits, rd)); }
    } else {
      WordBits(Stages(x, rd), p + 32 - lbits);
    }
  }

  /** The mask form computes what the slow loop computes, below full width or with one-bit slices. */
  lemma FastStreams(lbits: nat, ld: word, rd: nat)
    requires IsSlice(rd) && rd <= lbits <= 32 && ld < Pow2(lbits) && (rd == 1 || lbits < 32)
    ensures StreamedWord(Fast(lbits, ld, rd), ld, lbits, rd, lbits)
  {
    hide Fast, Bit, SourceBitOf;
    forall p: nat | p < 32 ensures Bit(Fast(lbits, ld, rd), p) == SourceBitOf(ld, lbits, rd, lbits, p) {
      FastBit(lbits, ld, rd, p);
    }
  }

  // ---------------------------------------------------------------- full width

  lemma FullMask(rd: nat)
    requires IsSize(rd)
    ensures 32 % rd == 0 && MsbMask(32, rd) == Mask32(0) == 0xffff_ffff
  {
    if rd == 32 {
      assert 32 == 1 * 32;
    } else {
      SliceDivides(rd);
    }
    ModOfMultiple(32, rd, 0);
  }

  /** At full width the mask selects everything, so the whole operand moves up by a slice. */
  lemma PreShiftFull(ld: word, rd: nat, k: nat)
    requires IsSlice(rd) && k < 32
    ensures Bit(PreShifted(ld, 32, rd), k) == (k >= rd && Bit(ld, k - rd))
  {
    FullMask(rd);
    hide Bit, And, Or, Shl32, Not32, Mask32, MsbMask;
    MovedBit(ld, Mask32(0), rd, k);
    BitOfMask32(0, k);
    if k >= rd { BitOfMask32(0, k - rd); }
  }

  lemma FullBit(ld: word, rd: nat, p: nat)
    requires IsSlice(rd) && rd > 1 && p < 32
    ensures 0 <= StreamSource(32, rd, p) < 32
    ensures var k := StreamSource(32, rd, p); Bit(Fast(32, ld, rd), p) == (k >= rd && Bit(ld, k - rd))
  {
    FullMask(rd);
    var x := PreShifted(ld, 32, rd);
    hide Bit, Stages, PreShifted, Shr32, StreamSource, Mirror, MsbMask, Mask32;
    BitOfShr32(Stages(x, rd), 0, p);
    StagesMirror(x, rd, p);
    MirrorIsSource(32, rd, p, 0);
    PreShiftFull(ld, rd, StreamSource(32, rd, p));
  }

  ghost predicate MovedUp(ld: nat, rd: nat, j: nat) {
    Bit(ld, j) == (j >= rd && Bit(ld, j - rd))
  }

  /** A word equal to itself moved up by a slice has no bits. */
  lemma {:induction false} NoBits(ld: word, rd: nat, k: nat)
    requires rd > 0 && forall j: nat :: j < 32 ==> MovedUp(ld, rd, j)
    ensures !Bit(ld, k)
  {
    hide Bit;
    if k >= 32 {
      WordBits(ld, k);
    } else {
      assert MovedUp(ld, rd, k);
      if k >= rd { NoBits(ld, rd, k - rd); }
    }
  }

  /** At full width with slices of 2 to 16 bits the mask form streams nothing but zero. */
  lemma FullWidthIff(ld: word, rd: nat)
    requires IsSlice(rd) && rd > 1
    ensures StreamedWord(Fast(32, ld, rd), ld, 32, rd, 32) <==> ld == 0
  {
    hide Fast, Bit, StreamSource, StreamPos;
    if StreamedWord(Fast(32, ld, rd), ld, 32, rd, 32) {
      forall k: nat | k < 32 ensures MovedUp(ld, rd, k) {
        StreamIsPermutation(32, rd, k);
        var p := StreamPos(32, rd, k);
        FullBit(ld, rd, p);
        assert Bit(Fast(32, ld, rd), p) == SourceBitOf(ld, 32, rd, 32, p);
      }
      forall k: nat ensures Bit(ld, k) == Bit(0, k) {
        NoBits(ld, rd, k);
        BitOfSmall(0, 0, k);
      }
      BitsEqual(ld, 0);
    } else {
      var p: nat :| p < 32 && Bit(Fast(32, ld, rd), p) != SourceBitOf(ld, 32, rd, 32, p);
      FullBit(ld, rd, p);
      BitOfSmall(0, 0, StreamSource(32, rd, p));
      if StreamSource(32, rd, p) >= rd { BitOfSmall(0, 0, StreamSource(32, rd, p) - rd); }
    }
  }

  /** A slice of the whole word: both shifts are by the word size, and the operand stays. */
  lemma WholeWord(ld: word)
    ensures Fast(32, ld, 32) == ld && StreamedWord(ld, ld, 32, 32, 32)
  {
    NothingMoved(ld);
    hide PreShifted, Stages, Bit, SourceBitOf;
    forall p: nat | p < 32 ensures Bit(ld, p) == SourceBitOf(ld, 32, 32, 32, p) {
      SourceOfWhole(ld, p);
    }
  }

  lemma SourceOfWhole(ld: word, p: nat)
    requires p < 32
    ensures Bit(ld, p) == SourceBitOf(ld, 32, 32, 32, p)
  {
    hide Bit;
    DivModUnique(p, 32, 0, p);
  }

  lemma NothingMoved(ld: word)
    ensures PreShifted(ld, 32, 32) == ld
  {
    FullMask(32);
    Pow2At32();
    hide Pow2, And, Or, MsbMask;
    AndLowOnes(ld, 32);
    NothingAnd(ld);
    OrZero(ld);
  }

  lemma NothingAnd(x: nat)
    ensures And(x, 0) == 0
  {
  }

  /**
   Exactly when the mask form streams a clean operand: below full width, with slices of
   one bit or of the whole word, or when there is nothing to move.
   */
  lemma FastStreamsIff(lbits: nat, ld: word, rd: nat)
    requires IsSize(rd) && rd <= lbits <= 32 && ld < Pow2(lbits)
    ensures StreamedWord(Fast(lbits, ld, rd), ld, lbits, rd, lbits) <==> rd == 1 || rd == 32 || lbits < 32 || ld == 0
  {
    hide Fast, StreamedWord, Pow2;
    if rd == 32 {
      WholeWord(ld);
    } else if rd == 1 || lbits < 32 {
      FastStreams(lbits, ld, rd);
    } else {
      FullWidthIff(ld, rd);
    }
  }

  /** The top bit of a full word in slices of two. */
  lemma FullWidthFails()
    ensures !StreamedWord(Fast(32, 0x8000_0000, 2), 0x8000_0000, 32, 2, 32)
  {
    FullWidthIff(0x8000_0000, 2);
  }

  // ---------------------------------------------------------------- the routine

  /** `VL_STREAML_FAST_III`, with the stages of the `switch` falling through. */
  method StreamFastWord(lbits: nat, ld: word, rdLog2: nat) returns (ret: word)
    requires rdLog2 <= 5 && Pow2(rdLog2) <= lbits <= 32 && ld < Pow2(lbits)
    ensures IsSize(Pow2(rdLog2)) && ret == Fast(lbits, ld, Pow2(rdLog2))
    ensures StreamedWord(ret, ld, lbits, Pow2(rdLog2), lbits) <==> rdLog2 == 0 || rdLog2 == 5 || lbits < 32 || ld == 0
  {
    hide Pow2, StreamedWord, Swapped, PreShifted, Shr32, Stages;
    SizePower(rdLog2);
    var rd := Pow2(rdLog2);
    FastStreamsIff(lbits, ld, rd);
    ret := ld;
    if rdLog2 != 0 { ret := PreShifted(ret, lbits, rd); }
    ghost var x := ret;
    if rdLog2 <= 0 { ret := Swapped(ret, 1); }
    if rdLog2 <= 1 { ret := Swapped(ret, 2); }
    if rdLog2 <= 2 { ret := Swapped(ret, 4); }
    if rdLog2 <= 3 { ret := Swapped(ret, 8); }
    if rdLog2 <= 4 {
      ret := Swapped(ret, 16);
      StagesUnrolled(x, rd);
    }
    ret := Shr32(ret, 32 - lbits);
  }

  lemma SmallPowers()
    ensures Pow2(0) == 1 && Pow2(1) == 2 && Pow2(2) == 4 && Pow2(3) == 8 && Pow2(4) == 16 && Pow2(5) == 32
  {
  }

  lemma SizePower(n: nat)
    requires n <= 5
    ensures Pow2(n) == if n == 0 then 1 else if n == 1 then 2 else if n == 2 then 4 else if n == 3 then 8
      else if n == 4 then 16 else 32
  {
    SmallPowers();
    hide Pow2;
  }

  lemma StagesUnrolled(x: word, rd: nat)
    requires IsSlice(rd)
    ensures Stages(x, 16) == Swapped(x, 16)
    ensures rd == 8 ==> Stages(x, rd) == Swapped(Swapped(x, 8), 16)
    ensures rd == 4 ==> Stages(x, rd) == Swapped(Swapped(Swapped(x, 4), 8), 16)
    ensures rd == 2 ==> Stages(x, rd) == Swapped(Swapped(Swapped(Swapped(x, 2), 4), 8), 16)
    ensures rd == 1 ==> Stages(x, rd) == Swapped(Swapped(Swapped(Swapped(Swapped(x, 1), 2), 4), 8), 16)
  {
    hide Swapped;
  }

  /** On which clean operands the two forms agree. */
  method FastAgreesWithSlow(lbits: nat, ld: word, rdLog2: nat) returns (fast: word, slow: word)
    requires rdLog2 <= 5 && Pow2(rdLog2) <= lbits <= 32 && ld < Pow2(lbits)
    ensures fast == slow <==> rdLog2 == 0 || rdLog2 == 5 || lbits < 32 || ld == 0
  {
    hide Pow2, Fast;
    SizePower(rdLog2);
    fast := StreamFastWord(lbits, ld, rdLog2);
    slow := StreamWord(lbits, ld, Pow2(rdLog2));
    hide StreamedWord;
    if StreamedWord(fast, ld, lbits, Pow2(rdLog2), lbits) {
      StreamedWordUnique(fast, slow, ld, lbits, Pow2(rdLog2), lbits);
    }
  }
}
