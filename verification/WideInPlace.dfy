/**
 Shifting a wide number left in its own words, as the memory reader does digit by digit.
 */
module WideInPlace {
  import opened Bits
  import opened Wide
  import opened WideNormalize
  import opened WideBits
  import WideArith

  /** The bits below rd are free after a left shift, so masking them off changes nothing. */
  lemma LowBitsFree(x: word, rd: nat)
    requires 1 <= rd < 32
    ensures And(Shl32(x, rd), Not32(Mask32(rd))) == Shl32(x, rd)
  {
    Pow2At32();
    var s := Shl32(x, rd);
    forall k: nat ensures Bit(And(s, Not32(Mask32(rd))), k) == Bit(s, k) {
      BitOfAnd(s, Not32(Mask32(rd)), k);
      if k < 32 {
        BitOfNot32(Mask32(rd), k);
        BitOfMask32(rd, k);
        BitOfShl32(x, rd, k);
      } else {
        BitOfSmall(s, 32, k);
      }
    }
    BitsEqual(And(s, Not32(Mask32(rd))), s);
  }

  /** The word the loop stores: the shifted word joined with what comes in from the word below. */
  lemma SelectJoins(x: word, y: word, rd: nat)
    requires 1 <= rd < 32
    ensures Select(Shl32(x, rd), Shr32(y, 32 - rd), Mask32(rd)) == Shl32(x, rd) + ShlOut(y, rd) < 0x1_0000_0000
    ensures And(Shl32(x, rd), Not32(Mask32(rd))) == Shl32(x, rd)
  {
    LowBitsFree(x, rd);
    LowPart(y, rd);
    hide And, Or, Shr, ShlBy, Pow2, Shl32, Shr32, Mask32, Not32;
    ShlFits(x, rd, ShlOut(y, rd));
  }

  lemma LowPart(y: word, rd: nat)
    requires 1 <= rd < 32
    ensures ShlOut(y, rd) == Shr32(y, 32 - rd) < Pow2(rd)
    ensures And(Shr32(y, 32 - rd), Mask32(rd)) == Shr32(y, 32 - rd)
  {
    hide And, Shr, Pow2;
    ShlSplits(y, rd);
    var out := Shr32(y, 32 - rd);
    MaskIs(rd);
    AndLowOnes(out, rd);
    DivModUnique(out, Pow2(rd), 0, out);
  }

  lemma MaskIs(rd: nat)
    requires 1 <= rd < 32
    ensures Mask32(rd) == Pow2(rd) - 1
  {
    hide Pow2;
    assert rd % 32 == rd;
  }

  /** `_VL_SHIFTL_INPLACE_W`: multiplies by 2^rd and keeps obits bits. */
  method ShiftLeftInPlace(obits: nat, iowp: array<word>, rd: nat)
    requires 1 <= obits && Words(obits) <= iowp.Length && 1 <= rd < 32
    modifies iowp
    ensures Val(iowp[..Words(obits)]) == Val(old(iowp[..Words(obits)])) * Pow2(rd) % Pow2(obits)
    ensures iowp[Words(obits)..] == old(iowp[Words(obits)..])
  {
    hide Val, Pow2, Select, Shl32, Shr32, ShlOut, Mask32, Not32, And;
    var words := Words(obits);
    ghost var was := iowp[..words];
    var linsmask := Mask32(rd);
    var i: nat := words - 1;
    while i > 0
      invariant i < words
      invariant forall k :: 0 <= k <= i ==> iowp[k] == was[k]
      invariant forall k :: i < k < words ==> iowp[k] == Shl32(was[k], rd) + ShlOut(was[k - 1], rd)
      invariant iowp[words..] == old(iowp[words..])
    {
      SelectJoins(iowp[i], iowp[i - 1], rd);
      iowp[i] := Select(Shl32(iowp[i], rd), Shr32(iowp[i - 1], 32 - rd), linsmask);
      i := i - 1;
    }
    SelectJoins(iowp[0], 0, rd);
    iowp[0] := And(Shl32(iowp[0], rd), Not32(linsmask));
    ghost var out := iowp[..words];
    assert ShiftedLeft(out, was, rd);
    WideArith.CleanInPlace(obits, iowp);
    KeptBits(out, was, rd, obits);
  }

  lemma KeptBits(out: seq<word>, was: seq<word>, rd: nat, obits: nat)
    requires 1 <= rd < 32 && 1 <= obits && |was| == Words(obits) && ShiftedLeft(out, was, rd)
    ensures Val(out) % Pow2(obits) == Val(was) * Pow2(rd) % Pow2(obits)
  {
    hide Val, Pow2, PowB, ShlOut, ShiftedLeft;
    ShiftedLeftValue(out, was, rd);
    PowBIsPow2(|was|);
    Pow2Add(obits, 32 * |was| - obits);
    DropMultiple(Val(out), ShlOut(was[|was| - 1], rd), Pow2(obits), Pow2(32 * |was| - obits));
  }

  lemma DropMultiple(x: nat, hi: nat, m: nat, k: nat)
    requires m > 0
    ensures (x + m * k * hi) % m == x % m
  {
    Euclid(x, m);
    assert x + m * k * hi == (x / m + k * hi) * m + x % m by {
      assert m * k * hi == k * hi * m;
    }
    DivModUnique(x + m * k * hi, m, x / m + k * hi, x % m);
  }
}
