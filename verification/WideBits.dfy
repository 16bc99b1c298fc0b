/**
 Bit-field insertion and shifts of wide numbers in the Verilator runtime, stated
 bit by bit and, for the shifts, as arithmetic on the numbers.
 */
module WideBits {
  import opened Bits
  import opened Wide

  /** Bit k of a wide number, read from its word. */
  predicate BitW(s: seq<word>, k: nat)
    requires k < 32 * |s|
  {
    Bit(s[k / 32], k % 32)
  }

  /** A number with the bits of the words is the value of the words. */
  lemma ValueFromBits(s: seq<word>, x: nat)
    requires forall k: nat :: k < 32 * |s| ==> BitW(s, k) == Bit(x, k)
    requires forall k: nat :: k >= 32 * |s| ==> !Bit(x, k)
    ensures Val(s) == x
  {
    forall k: nat
      ensures Bit(Val(s), k) == Bit(x, k)
    {
      if k < 32 * |s| {
        BitOfVal(s, k);
        assert BitW(s, k) == Bit(x, k);
      } else {
        BitBeyondVal(s, k);
      }
    }
    BitsEqual(Val(s), x);
  }

  // ---------------------------------------------------------------- insertion into one word

  /** Mask of the bits from lo up: `VL_MASK_E(31 - lo + 1) << lo`. */
  function HighMask(lo: nat): word
    requires lo < 32
  {
    Shl32(Mask32(32 - lo), lo)
  }

  lemma BitOfHighMask(lo: nat, b: nat)
    requires 0 < lo < 32 && b < 32
    ensures Bit(HighMask(lo), b) == (lo <= b)
  {
    BitOfShl32(Mask32(32 - lo), lo, b);
    if lo <= b {
      BitOfMask32(32 - lo, b - lo);
    }
  }

  /** `(x & ~mask) | (y & mask)`: the bits of y where the mask is set, of x elsewhere. */
  function Select(x: word, y: word, mask: word): word {
    AndBound(x, Not32(mask));
    AndBound(y, mask);
    OrBelowWord(And(x, Not32(mask)), And(y, mask));
    Or(And(x, Not32(mask)), And(y, mask))
  }

  lemma OrBelowWord(a: word, b: word)
    ensures Or(a, b) < 0x1_0000_0000
  {
    Pow2At32();
    OrBound(a, b, 32);
  }

  lemma BitOfSelect(x: word, y: word, mask: word, b: nat)
    requires b < 32
    ensures Bit(Select(x, y, mask), b) == if Bit(mask, b) then Bit(y, b) else Bit(x, b)
  {
    BitOfOr(And(x, Not32(mask)), And(y, mask), b);
    BitOfAnd(x, Not32(mask), b);
    BitOfAnd(y, mask, b);
    BitOfNot32(mask, b);
  }

  // ---------------------------------------------------------------- _VL_INSERT_WW

  /** Bits lbit up to but excluding lim of now come from the low end of src, the others from was. */
  ghost predicate Inserted(now: seq<word>, was: seq<word>, src: seq<word>, lbit: nat, lim: nat) {
    && |now| == |was| && lim <= lbit + 32 * |src|
    && forall k: nat :: k < 32 * |was| ==>
         BitW(now, k) == if lbit <= k < lim then BitW(src, k - lbit) else BitW(was, k)
  }

  /** Replacing one word extends the inserted range when the word has the right bits. */
  lemma InsertWord(now: seq<word>, was: seq<word>, src: seq<word>, lbit: nat, lim: nat, lim': nat,
                   w: nat, x: word)
    requires Inserted(now, was, src, lbit, lim) && w < |was|
    requires lim <= lim' <= lbit + 32 * |src|
    requires forall k: nat :: k < 32 * |was| && k / 32 != w ==> !(lim <= k < lim') || !(lbit <= k)
    requires forall b: nat :: b < 32 ==>
               Bit(x, b) == if lbit <= 32 * w + b < lim' then BitW(src, 32 * w + b - lbit) else Bit(was[w], b)
    ensures Inserted(now[w := x], was, src, lbit, lim')
  {
    var next := now[w := x];
    forall k: nat | k < 32 * |was|
      ensures BitW(next, k) == if lbit <= k < lim' then BitW(src, k - lbit) else BitW(was, k)
    {
      assert BitW(now, k) == if lbit <= k < lim then BitW(src, k - lbit) else BitW(was, k);
      if k / 32 == w {
        assert k == 32 * w + k % 32;
        assert Bit(x, k % 32) == if lbit <= 32 * w + k % 32 < lim' then BitW(src, 32 * w + k % 32 - lbit)
          else Bit(was[w], k % 32);
      }
    }
  }

  /** The word-aligned copy: whole words, then a masked last word. */
  lemma AlignedWord(now: seq<word>, was: seq<word>, src: seq<word>, lword: nat, i: nat, n: nat, x: word)
    requires Inserted(now, was, src, 32 * lword, 32 * lword + 32 * i)
    requires i < |src| && lword + i < |was| && 1 <= n <= 32
    requires forall b: nat :: b < 32 ==> Bit(x, b) == if b < n then Bit(src[i], b) else Bit(was[lword + i], b)
    ensures Inserted(now[lword + i := x], was, src, 32 * lword, 32 * lword + 32 * i + n)
  {
    var lbit, lim', w := 32 * lword, 32 * lword + 32 * i + n, lword + i;
    forall b: nat | b < 32
      ensures Bit(x, b) == if lbit <= 32 * w + b < lim' then BitW(src, 32 * w + b - lbit) else Bit(was[w], b)
    {
      assert 32 * w + b - lbit == 32 * i + b;
      assert (32 * i + b) / 32 == i && (32 * i + b) % 32 == b;
    }
    InsertWord(now, was, src, lbit, lbit + 32 * i, lim', w, x);
  }

  lemma BitOfLower(x: word, s: word, lo: nat, b: nat)
    requires 0 < lo < 32 && b < 32
    ensures Bit(Select(x, Shl32(s, lo), HighMask(lo)), b) == if lo <= b then Bit(s, b - lo) else Bit(x, b)
  {
    BitOfSelect(x, Shl32(s, lo), HighMask(lo), b);
    BitOfHighMask(lo, b);
    BitOfShl32(s, lo, b);
  }

  lemma BitOfUpper(x: word, s: word, lo: nat, b: nat)
    requires 0 < lo < 32 && b < 32
    ensures Bit(Select(Shr32(s, 32 - lo), x, HighMask(lo)), b)
            == if lo <= b then Bit(x, b) else Bit(s, b + 32 - lo)
  {
    BitOfSelect(Shr32(s, 32 - lo), x, HighMask(lo), b);
    BitOfHighMask(lo, b);
    BitOfShr32(s, 32 - lo, b);
  }

  /** The last word takes only its low ho+1 bits from y. */
  function TopSelect(x: word, y: word, ho: nat, isTop: bool): word {
    if isTop then Select(x, y, Mask32(ho + 1)) else y
  }

  lemma BitOfTopSelect(x: word, y: word, ho: nat, isTop: bool, b: nat)
    requires ho < 32 && b < 32
    ensures Bit(TopSelect(x, y, ho, isTop), b) == if !isTop || b <= ho then Bit(y, b) else Bit(x, b)
  {
    BitOfSelect(x, y, Mask32(ho + 1), b);
    BitOfMask32(ho + 1, b);
  }

  /** How far the insertion has come after the lower or the upper word. */
  function Limit(hbit: nat, k: nat): nat {
    if k <= hbit then k else hbit + 1
  }

  lemma LimitFacts(hbit: nat, lbit: nat, i: nat)
    requires lbit <= hbit
    ensures Limit(hbit, lbit + 32 * 0) == lbit
    ensures Limit(hbit, lbit + 32 * Words(hbit - lbit + 1)) == hbit + 1
    ensures var k := 32 * (lbit / 32 + i + 1);
            Limit(hbit, k) == if lbit / 32 + i + 1 <= hbit / 32 then k else Limit(hbit, lbit + 32 * (i + 1))
  {
  }

  lemma LowerWord(now: seq<word>, was: seq<word>, src: seq<word>, hbit: nat, lbit: nat, i: nat, x: word)
    requires lbit <= hbit < 32 * |was| && lbit % 32 != 0 && |now| == |was|
    requires i < |src| && lbit / 32 + i <= hbit / 32 && |src| == Words(hbit - lbit + 1)
    requires Inserted(now, was, src, lbit, Limit(hbit, lbit + 32 * i))
    requires var w, lo := lbit / 32 + i, lbit % 32;
             x == TopSelect(now[w], Select(now[w], Shl32(src[i], lo), HighMask(lo)), hbit % 32, w == hbit / 32)
    ensures Inserted(now[lbit / 32 + i := x], was, src, lbit, Limit(hbit, 32 * (lbit / 32 + i + 1)))
  {
    hide Bit, Select, HighMask, Shl32;
    var w, lo, ho := lbit / 32 + i, lbit % 32, hbit % 32;
    var lim, lim' := Limit(hbit, lbit + 32 * i), Limit(hbit, 32 * (w + 1));
    var od := Select(now[w], Shl32(src[i], lo), HighMask(lo));
    forall b: nat | b < 32
      ensures Bit(x, b) == if lbit <= 32 * w + b < lim' then BitW(src, 32 * w + b - lbit) else Bit(was[w], b)
    {
      BitOfLower(now[w], src[i], lo, b);
      BitOfTopSelect(now[w], od, ho, w == hbit / 32, b);
      BitAt(now, w, b);
      BitAt(was, w, b);
      var k := 32 * w + b;
      assert BitW(now, k) == if lbit <= k < lim then BitW(src, k - lbit) else BitW(was, k);
      if lo <= b {
        BitAt(src, i, b - lo);
      }
    }
    InsertWord(now, was, src, lbit, lim, lim', w, x);
  }

  lemma UpperWord(now: seq<word>, was: seq<word>, src: seq<word>, hbit: nat, lbit: nat, i: nat, x: word)
    requires lbit <= hbit < 32 * |was| && lbit % 32 != 0 && |now| == |was|
    requires i < |src| && lbit / 32 + i + 1 <= hbit / 32 && |src| == Words(hbit - lbit + 1)
    requires Inserted(now, was, src, lbit, 32 * (lbit / 32 + i + 1))
    requires var w, lo := lbit / 32 + i + 1, lbit % 32;
             x == TopSelect(now[w], Select(Shr32(src[i], 32 - lo), now[w], HighMask(lo)), hbit % 32, w == hbit / 32)
    ensures Inserted(now[lbit / 32 + i + 1 := x], was, src, lbit, Limit(hbit, lbit + 32 * (i + 1)))
  {
    hide Bit, Select, HighMask, Shr32;
    var w, lo, ho := lbit / 32 + i + 1, lbit % 32, hbit % 32;
    var lim, lim' := 32 * w, Limit(hbit, lbit + 32 * (i + 1));
    var od := Select(Shr32(src[i], 32 - lo), now[w], HighMask(lo));
    forall b: nat | b < 32
      ensures Bit(x, b) == if lbit <= 32 * w + b < lim' then BitW(src, 32 * w + b - lbit) else Bit(was[w], b)
    {
      BitOfUpper(now[w], src[i], lo, b);
      BitOfTopSelect(now[w], od, ho, w == hbit / 32, b);
      BitAt(now, w, b);
      BitAt(was, w, b);
      assert BitW(now, 32 * w + b) == BitW(was, 32 * w + b);
      if b < lo {
        BitAt(src, i, b + 32 - lo);
      }
    }
    InsertWord(now, was, src, lbit, lim, lim', w, x);
  }

  lemma BitAt(s: seq<word>, w: nat, b: nat)
    requires w < |s| && b < 32
    ensures 32 * w + b < 32 * |s| && BitW(s, 32 * w + b) == Bit(s[w], b)
  {
    assert (32 * w + b) / 32 == w && (32 * w + b) % 32 == b;
  }

  /** "Lower word" of the unaligned branch: the part of source word i that stays in its word. */
  method InsertLower(owp: array<word>, lwp: array<word>, hbit: nat, lbit: nat, i: nat, ghost was: seq<word>)
    requires owp != lwp && lbit <= hbit < 32 * owp.Length && Words(hbit - lbit + 1) <= lwp.Length
    requires lbit % 32 != 0 && i < Words(hbit - lbit + 1) && lbit / 32 + i <= hbit / 32 && |was| == owp.Length
    requires Inserted(owp[..], was, lwp[..Words(hbit - lbit + 1)], lbit, Limit(hbit, lbit + 32 * i))
    modifies owp
    ensures Inserted(owp[..], was, lwp[..Words(hbit - lbit + 1)], lbit, Limit(hbit, 32 * (lbit / 32 + i + 1)))
  {
    hide Select, HighMask, Mask32, Shl32, BitW, Inserted, Limit;
    ghost var now, src := owp[..], lwp[..Words(hbit - lbit + 1)];
    var oword, hword, loffset := lbit / 32 + i, hbit / 32, lbit % 32;
    var hinsmask, linsmask := Mask32(hbit % 32 + 1), HighMask(loffset);
    var d := Shl32(lwp[i], loffset);
    var od := Select(owp[oword], d, linsmask);
    owp[oword] := if oword == hword then Select(owp[oword], od, hinsmask) else od;
    assert owp[..] == now[oword := owp[oword]] && src == lwp[..Words(hbit - lbit + 1)];
    LowerWord(now, was, src, hbit, lbit, i, owp[oword]);
  }

  /** "Upper word": the part of source word i that spills into the next word. */
  method InsertUpper(owp: array<word>, lwp: array<word>, hbit: nat, lbit: nat, i: nat, ghost was: seq<word>)
    requires owp != lwp && lbit <= hbit < 32 * owp.Length && Words(hbit - lbit + 1) <= lwp.Length
    requires lbit % 32 != 0 && i < Words(hbit - lbit + 1) && lbit / 32 + i + 1 <= hbit / 32 && |was| == owp.Length
    requires Inserted(owp[..], was, lwp[..Words(hbit - lbit + 1)], lbit, 32 * (lbit / 32 + i + 1))
    modifies owp
    ensures Inserted(owp[..], was, lwp[..Words(hbit - lbit + 1)], lbit, Limit(hbit, lbit + 32 * (i + 1)))
  {
    hide Select, HighMask, Mask32, Shr32, BitW, Inserted, Limit;
    ghost var now, src := owp[..], lwp[..Words(hbit - lbit + 1)];
    var oword, hword, loffset := lbit / 32 + i + 1, hbit / 32, lbit % 32;
    var nbitsonright := 32 - loffset;
    var hinsmask, linsmask := Mask32(hbit % 32 + 1), HighMask(loffset);
    var d := Shr32(lwp[i], nbitsonright);
    var od := Select(d, owp[oword], linsmask);
    owp[oword] := if oword == hword then Select(owp[oword], od, hinsmask) else od;
    assert owp[..] == now[oword := owp[oword]] && src == lwp[..Words(hbit - lbit + 1)];
    UpperWord(now, was, src, hbit, lbit, i, owp[oword]);
  }

  /** The branch for a field that does not start at a word boundary. */
  method InsertUnaligned(owp: array<word>, lwp: array<word>, hbit: nat, lbit: nat)
    requires owp != lwp && lbit <= hbit < 32 * owp.Length && Words(hbit - lbit + 1) <= lwp.Length
    requires lbit % 32 != 0
    modifies owp
    ensures Inserted(owp[..], old(owp[..]), lwp[..Words(hbit - lbit + 1)], lbit, hbit + 1)
  {
    hide BitW, Inserted, Limit;
    var words := Words(hbit - lbit + 1);
    ghost var was := owp[..];
    FieldWords(hbit, lbit);
    NothingInserted(was, lwp[..words], lbit);
    LimitFacts(hbit, lbit, 0);
    for i := 0 to words
      invariant Inserted(owp[..], was, lwp[..words], lbit, Limit(hbit, lbit + 32 * i))
    {
      LimitFacts(hbit, lbit, i);
      InsertLower(owp, lwp, hbit, lbit, i, was);
      if lbit / 32 + i + 1 <= hbit / 32 {
        InsertUpper(owp, lwp, hbit, lbit, i, was);
      }
    }
  }

  /** How many source words a field spans, against the words it touches. */
  lemma FieldWords(hbit: nat, lbit: nat)
    requires lbit <= hbit
    ensures Words(hbit - lbit + 1)
            == hbit / 32 - lbit / 32 + if hbit % 32 >= lbit % 32 then 1 else 0
  {
  }

  /** `_VL_INSERT_WW`: bits lbit..hbit of owp become the low bits of lwp, whatever lwp holds above. */
  method Insert(owp: array<word>, lwp: array<word>, hbit: nat, lbit: nat)
    requires owp != lwp && lbit <= hbit < 32 * owp.Length && Words(hbit - lbit + 1) <= lwp.Length
    modifies owp
    ensures Inserted(owp[..], old(owp[..]), lwp[..Words(hbit - lbit + 1)], lbit, hbit + 1)
  {
    if lbit % 32 == 0 {
      InsertAligned(owp, lwp, hbit, lbit);
    } else {
      InsertUnaligned(owp, lwp, hbit, lbit);
    }
  }

  /** The branch for a field that starts at a word boundary. */
  method InsertAligned(owp: array<word>, lwp: array<word>, hbit: nat, lbit: nat)
    requires owp != lwp && lbit <= hbit < 32 * owp.Length && Words(hbit - lbit + 1) <= lwp.Length && lbit % 32 == 0
    modifies owp
    ensures Inserted(owp[..], old(owp[..]), lwp[..Words(hbit - lbit + 1)], lbit, hbit + 1)
  {
    var hoffset, lword, words := hbit % 32, lbit / 32, Words(hbit - lbit + 1);
    ghost var was, src := owp[..], lwp[..words];
    hide Select, Mask32, BitW, Inserted;
    FieldWords(hbit, lbit);
    NothingInserted(was, src, lbit);
    var whole := if hoffset == 31 then words else words - 1;
    for i := 0 to whole
      invariant lwp[..words] == src
      invariant |owp[..]| == |was| && Inserted(owp[..], was, src, lbit, lbit + 32 * i)
    {
      ghost var now := owp[..];
      WholeWord(now, was, src, lword, i);
      owp[lword + i] := lwp[i];
      assert owp[..] == now[lword + i := src[i]];
    }
    if hoffset != 31 {
      ghost var now, w := owp[..], lword + words - 1;
      LastWord(now, was, src, hbit, lword, words - 1);
      var hinsmask := Mask32(hoffset + 1);
      owp[lword + words - 1] := Select(owp[words + lword - 1], lwp[words - 1], hinsmask);
      assert owp[..] == now[w := Select(now[w], src[words - 1], hinsmask)];
    }
  }

  lemma NothingInserted(was: seq<word>, src: seq<word>, lbit: nat)
    ensures Inserted(was, was, src, lbit, lbit)
  {
  }

  lemma WholeWord(now: seq<word>, was: seq<word>, src: seq<word>, lword: nat, i: nat)
    requires Inserted(now, was, src, 32 * lword, 32 * lword + 32 * i)
    requires i < |src| && lword + i < |was| && |now| == |was|
    ensures Inserted(now[lword + i := src[i]], was, src, 32 * lword, 32 * lword + 32 * (i + 1))
  {
    AlignedWord(now, was, src, lword, i, 32, src[i]);
  }

  lemma LastWord(now: seq<word>, was: seq<word>, src: seq<word>, hbit: nat, lword: nat, i: nat)
    requires Inserted(now, was, src, 32 * lword, 32 * lword + 32 * i)
    requires i < |src| && lword + i == hbit / 32 < |was| && |now| == |was|
    ensures var w, mask := lword + i, Mask32(hbit % 32 + 1);
            Inserted(now[w := Select(now[w], src[i], mask)], was, src, 32 * lword, hbit + 1)
  {
    hide Bit, Select, Mask32;
    var w, n := lword + i, hbit % 32 + 1;
    var x := Select(now[w], src[i], Mask32(n));
    forall b: nat | b < 32
      ensures Bit(x, b) == if b < n then Bit(src[i], b) else Bit(was[w], b)
    {
      BitOfSelect(now[w], src[i], Mask32(n), b);
      BitOfMask32(n, b);
      BitAt(now, w, b);
      BitAt(was, w, b);
      assert BitW(now, 32 * w + b) == BitW(was, 32 * w + b);
    }
    AlignedWord(now, was, src, lword, i, n, x);
  }
}
