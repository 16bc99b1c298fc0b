/**
 Wide numbers of the Verilator runtime: little-endian arrays of 32-bit words
 together with the carry-chain operations on them.
 */
module Wide {
  import opened Bits

  /** Words that hold n bits. */
  function Words(n: nat): nat {
    (n + 31) / 32
  }

  /** The number a little-endian word sequence stands for. */
  function Val(s: seq<word>): nat {
    if |s| == 0 then 0 else s[0] + 0x1_0000_0000 * Val(s[1..])
  }

  function PowB(n: nat): (p: nat)
    ensures p > 0
  {
    if n == 0 then 1 else 0x1_0000_0000 * PowB(n - 1)
  }

  lemma PowBNext(n: nat)
    ensures PowB(n + 1) == 0x1_0000_0000 * PowB(n)
  {
  }

  // ---------------------------------------------------------------- values of sequences

  lemma {:induction false} PowBAdd(m: nat, n: nat)
    ensures PowB(m + n) == PowB(m) * PowB(n)
  {
    if m > 0 {
      PowBAdd(m - 1, n);
      assert PowB(m + n) == 0x1_0000_0000 * PowB((m - 1) + n);
      assert 0x1_0000_0000 * (PowB(m - 1) * PowB(n)) == (0x1_0000_0000 * PowB(m - 1)) * PowB(n);
    }
  }

  lemma {:induction false} PowBIsPow2(n: nat)
    ensures PowB(n) == Pow2(32 * n)
  {
    if n > 0 {
      PowBIsPow2(n - 1);
      Pow2At32();
      Pow2Add(32, 32 * (n - 1));
      assert 32 * n == 32 + 32 * (n - 1);
    }
  }

  lemma {:induction false} ValBound(s: seq<word>)
    ensures Val(s) < PowB(|s|)
  {
    if |s| > 0 {
      ValBound(s[1..]);
    }
  }

  lemma {:induction false} ValConcat(a: seq<word>, b: seq<word>)
    ensures Val(a + b) == Val(a) + PowB(|a|) * Val(b)
  {
    if |a| == 0 {
      assert a + b == b;
    } else {
      assert (a + b)[1..] == a[1..] + b;
      ValConcat(a[1..], b);
      assert 0x1_0000_0000 * (PowB(|a| - 1) * Val(b)) == (0x1_0000_0000 * PowB(|a| - 1)) * Val(b);
    }
  }

  lemma ValSplit(s: seq<word>, i: nat)
    requires i <= |s|
    ensures Val(s) == Val(s[..i]) + PowB(i) * Val(s[i..])
  {
    assert s == s[..i] + s[i..];
    ValConcat(s[..i], s[i..]);
  }

  lemma ValSnoc(s: seq<word>, x: word)
    ensures Val(s + [x]) == Val(s) + PowB(|s|) * x
  {
    assert Val([x]) == x by { assert [x][1..] == []; }
    ValConcat(s, [x]);
  }

  /** The first i+1 elements, seen as the first i elements and one more. */
  lemma ValTake(s: seq<word>, i: nat)
    requires i < |s|
    ensures Val(s[..i + 1]) == Val(s[..i]) + PowB(i) * s[i]
  {
    assert s[..i + 1] == s[..i] + [s[i]];
    ValSnoc(s[..i], s[i]);
  }

  lemma {:induction false} ValZeros(s: seq<word>)
    requires forall k :: 0 <= k < |s| ==> s[k] == 0
    ensures Val(s) == 0
  {
    if |s| > 0 {
      ValZeros(s[1..]);
    }
  }

  /** Words above position i that are all zero do not count. */
  lemma ValTrim(s: seq<word>, i: nat)
    requires i <= |s| && forall k :: i <= k < |s| ==> s[k] == 0
    ensures Val(s) == Val(s[..i])
  {
    hide Val, PowB;
    ValSplit(s, i);
    ValZeros(s[i..]);
  }

  /** The representation in a fixed number of words is unique. */
  lemma {:induction false} ValInjective(a: seq<word>, b: seq<word>)
    requires |a| == |b| && Val(a) == Val(b)
    ensures a == b
  {
    if |a| > 0 {
      assert a[0] == Val(a) % 0x1_0000_0000 == b[0];
      ValInjective(a[1..], b[1..]);
      assert a == [a[0]] + a[1..] && b == [b[0]] + b[1..];
    }
  }

  /** Bit k of a wide number is bit k%32 of word k/32. */
  lemma {:induction false} BitOfVal(s: seq<word>, k: nat)
    requires k < 32 * |s|
    ensures Bit(Val(s), k) == Bit(s[k / 32], k % 32)
  {
    Pow2At32();
    BitOfSum(s[0], Val(s[1..]), 32, k);
    if k >= 32 {
      BitOfVal(s[1..], k - 32);
      assert (k - 32) / 32 == k / 32 - 1 && (k - 32) % 32 == k % 32;
    }
  }

  /** No bit of a wide number lies beyond its words. */
  lemma BitBeyondVal(s: seq<word>, k: nat)
    requires k >= 32 * |s|
    ensures !Bit(Val(s), k)
  {
    ValBound(s);
    PowBIsPow2(|s|);
    BitOfSmall(Val(s), 32 * |s|, k);
  }

  /** `VL_BITISSET_W(data, bit)`. */
  lemma BitIsSetW(s: seq<word>, bit: nat)
    requires bit < 32 * |s|
    ensures And(s[bit / 32], Shl32(1, bit % 32)) != 0 <==> Bit(Val(s), bit)
  {
    BitTest(s[bit / 32], bit % 32);
    BitOfVal(s, bit);
  }

  method AssignW(words: nat, owp: array<word>, lwp: array<word>)
    requires words <= owp.Length && words <= lwp.Length && owp != lwp
    modifies owp
    ensures owp[..words] == lwp[..words] && owp[words..] == old(owp[words..])
  {
    for i := 0 to words
      invariant owp[..i] == lwp[..i] && owp[words..] == old(owp[words..])
    {
      owp[i] := lwp[i];
    }
  }

  // ---------------------------------------------------------------- masks and clearing

  /** The mask of the top word of n+1 words that hold obits bits. */
  lemma MaskOfRest(obits: nat, n: nat)
    requires obits >= 1 && n == Words(obits) - 1
    ensures 1 <= obits - 32 * n <= 32 && Mask32(obits) == Pow2(obits - 32 * n) - 1
  {
    Pow2At32();
    hide Pow2;
  }

  /** The loop that sets the first n words to zero. */
  method Clear(owp: array<word>, n: nat)
    requires n <= owp.Length
    modifies owp
    ensures forall k :: 0 <= k < n ==> owp[k] == 0
    ensures owp[n..] == old(owp[n..])
  {
    for i := 0 to n
      invariant forall k :: 0 <= k < i ==> owp[k] == 0
      invariant owp[n..] == old(owp[n..])
    {
      owp[i] := 0;
    }
  }
}
