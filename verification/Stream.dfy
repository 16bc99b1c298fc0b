/**
 The left stream operator: reversing the slices of a number, bit by bit for wide
 numbers, slice by slice for one word, and by masks when the slice size is a power of two.
 */
module Stream {
  import opened Bits
  import opened Wide
  import opened WideBits

  // ---------------------------------------------------------------- where the bits go

  /** The output position of input bit k. */
  function StreamPos(lbits: nat, rd: nat, k: nat): nat
    requires rd > 0
  {
    var istart := k - k % rd;
    var ostart := lbits - rd - istart;
    (if ostart > 0 then ostart else 0) + k % rd
  }

  /** The input bit that lands at output position p. */
  function StreamSource(lbits: nat, rd: nat, p: nat): int
    requires rd > 0
  {
    var r := lbits % rd;
    if p < r then lbits - r + p else lbits - rd - p + 2 * ((p - r) % rd)
  }

  /** j is a multiple of rd. */
  ghost predicate Multiple(j: int, rd: nat) {
    exists q: int :: j == q * rd
  }

  lemma ModOfMultiple(j: int, rd: nat, off: nat)
    requires rd > 0 && Multiple(j, rd) && off < rd
    ensures (j + off) % rd == off
  {
    var q: int :| j == q * rd;
    DivModUnique(j + off, rd, q, off);
  }

  lemma MultipleParts(k: nat, rd: nat)
    requires rd > 0
    ensures Multiple(k - k % rd, rd) && 0 <= k % rd < rd && k % rd <= k
  {
    Euclid(k, rd);
    assert k - k % rd == k / rd * rd;
    DivShrinks(k, rd);
  }

  lemma MultipleMinus(a: int, b: int, rd: nat)
    requires Multiple(a, rd) && Multiple(b, rd)
    ensures Multiple(a - b, rd)
    ensures 0 < a - b ==> rd <= a - b
    ensures a < b ==> rd <= b - a
  {
    var q: int :| a == q * rd;
    var r: int :| b == r * rd;
    assert a - b == (q - r) * rd;
    if q - r >= 1 { MulMono(1, q - r, rd); }
    if q - r <= -1 { MulMono(q - r, -1, rd); }
  }

  /** Each input bit has its own output position below lbits, and every such position is taken. */
  lemma StreamIsPermutation(lbits: nat, rd: nat, k: nat)
    requires rd > 0 && k < lbits
    ensures StreamPos(lbits, rd, k) < lbits && StreamSource(lbits, rd, StreamPos(lbits, rd, k)) == k
    ensures 0 <= StreamSource(lbits, rd, k) < lbits && StreamPos(lbits, rd, StreamSource(lbits, rd, k)) == k
  {
    MultipleParts(lbits, rd);
    MultipleParts(k, rd);
    ForthAndBack(lbits, rd, k, lbits % rd, k % rd);
    var r := lbits % rd;
    var off := (k - r) % rd;
    SourceAt(lbits, rd, k, r, off);
    if k >= r { MultipleParts(k - r, rd); }
    BackAndForth(lbits, rd, k, r, off);
  }

  lemma ForthAndBack(lbits: nat, rd: nat, k: nat, r: nat, off: nat)
    requires rd > 0 && k < lbits && r == lbits % rd && off == k % rd
    requires Multiple(lbits - r, rd) && Multiple(k - off, rd) && r < rd && off < rd && off <= k
    ensures StreamPos(lbits, rd, k) < lbits && StreamSource(lbits, rd, StreamPos(lbits, rd, k)) == k
  {
    var j := k - off;
    MultipleMinus(lbits - r, j, rd);
    if j + rd <= lbits {
      var p := lbits - rd - j + off;
      MultipleOne(rd);
      MultipleMinus(lbits - r - j, rd, rd);
      ModOfMultiple(lbits - r - j - rd, rd, off);
      assert p - r == lbits - r - j - rd + off;
    }
  }

  lemma MultipleOne(rd: nat)
    ensures Multiple(rd, rd)
  {
    assert rd == 1 * rd;
  }

  /** The position of offset off in the slice at j. */
  lemma PosInSlice(lbits: nat, rd: nat, j: nat, off: nat)
    requires rd > 0 && Multiple(j, rd) && off < rd
    ensures StreamPos(lbits, rd, j + off) == (if lbits - rd - j > 0 then lbits - rd - j else 0) + off
  {
    ModOfMultiple(j, rd, off);
  }

  lemma BackAndForth(lbits: nat, rd: nat, p: nat, r: nat, off: int)
    requires rd > 0 && p < lbits && Multiple(lbits - r, rd) && r < rd && r <= lbits
    requires p >= r ==> 0 <= off < rd && off <= p - r && Multiple(p - r - off, rd)
    requires StreamSource(lbits, rd, p) == if p < r then lbits - r + p else lbits - rd - p + 2 * off
    ensures 0 <= StreamSource(lbits, rd, p) < lbits && StreamPos(lbits, rd, StreamSource(lbits, rd, p)) == p
  {
    hide Multiple, StreamPos, StreamSource;
    if p < r {
      PosInSlice(lbits, rd, lbits - r, p);
    } else {
      InFullSlice(lbits, rd, p, r, off);
    }
  }

  lemma SourceAt(lbits: nat, rd: nat, p: nat, r: nat, off: int)
    requires rd > 0 && r == lbits % rd && off == (p - r) % rd
    ensures StreamSource(lbits, rd, p) == if p < r then lbits - r + p else lbits - rd - p + 2 * off
  {
  }

  lemma InFullSlice(lbits: nat, rd: nat, p: nat, r: nat, off: nat)
    requires rd > 0 && r <= p < lbits && off < rd && off <= p - r
    requires Multiple(lbits - r, rd) && Multiple(p - r - off, rd)
    ensures 0 <= lbits - rd - p + 2 * off < lbits && StreamPos(lbits, rd, lbits - rd - p + 2 * off) == p
  {
    hide Multiple, StreamPos;
    var a, b := lbits - r, p - r - off;
    MultipleMinus(a, b, rd);
    MultipleOne(rd);
    MultipleMinus(a - b, rd, rd);
    var j := lbits - rd - p + off;
    assert a - b - rd == j;
    PosInSlice(lbits, rd, j, off);
  }

  /** Streaming is its own inverse exactly when the slices fill the number or there is only one. */
  lemma InvolutionIff(lbits: nat, rd: nat)
    requires rd > 0 && lbits > 0
    ensures (forall k: nat :: k < lbits ==> StreamPos(lbits, rd, StreamPos(lbits, rd, k)) == k) <==>
      lbits % rd == 0 || rd >= lbits
  {
    MultipleParts(lbits, rd);
    if lbits % rd == 0 || rd >= lbits {
      forall k: nat | k < lbits ensures StreamPos(lbits, rd, StreamPos(lbits, rd, k)) == k {
        TwiceIsOnce(lbits, rd, k);
      }
    } else {
      var r := lbits % rd;
      DivModUnique(0, rd, 0, 0);
      assert StreamPos(lbits, rd, 0) == lbits - rd;
      MultipleOne(rd);
      MultipleMinus(lbits - r, rd, rd);
      ModOfMultiple(lbits - r - rd, rd, r);
      assert lbits - rd == lbits - r - rd + r;
      assert StreamPos(lbits, rd, lbits - rd) == 2 * r;
      assert StreamPos(lbits, rd, StreamPos(lbits, rd, 0)) != 0;
    }
  }

  lemma TwiceIsOnce(lbits: nat, rd: nat, k: nat)
    requires rd > 0 && k < lbits && (lbits % rd == 0 || rd >= lbits)
    ensures StreamPos(lbits, rd, StreamPos(lbits, rd, k)) == k
  {
    MultipleParts(lbits, rd);
    MultipleParts(k, rd);
    var off := k % rd;
    if rd > lbits {
      DivModUnique(k, rd, 0, k);
    } else if rd == lbits {
      DivModUnique(k, rd, 0, k);
    } else {
      MultipleMinus(lbits, k - off, rd);
      MultipleOne(rd);
      MultipleMinus(lbits - (k - off), rd, rd);
      ModOfMultiple(lbits - rd - (k - off), rd, off);
    }
  }

  // ---------------------------------------------------------------- wide numbers

  /** The first n input bits are in place and every other output bit is clear. */
  ghost predicate Streamed(o: seq<word>, l: seq<word>, lbits: nat, rd: nat, n: nat)
    requires rd > 0 && |l| == Words(lbits)
  {
    |o| == Words(lbits) && forall p: nat :: p < 32 * |o| ==> BitW(o, p) == SourceBit(l, lbits, rd, n, p)
  }

  ghost predicate SourceBit(l: seq<word>, lbits: nat, rd: nat, n: nat, p: nat)
    requires rd > 0 && |l| == Words(lbits)
  {
    var k := StreamSource(lbits, rd, p);
    p < lbits && 0 <= k < n && k < lbits && BitW(l, k)
  }

  /** `VL_STREAML_WWI`. */
  method StreamWide(lbits: nat, owp: array<word>, lwp: array<word>, rd: nat)
    requires 1 <= lbits && 1 <= rd && owp != lwp
    requires owp.Length == Words(lbits) && lwp.Length == Words(lbits)
    modifies owp
    ensures Streamed(owp[..], lwp[..], lbits, rd, lbits)
  {
    hide Streamed, StreamPos;
    ghost var l := lwp[..];
    for i := 0 to owp.Length
      invariant forall k :: 0 <= k < i ==> owp[k] == 0
    {
      owp[i] := 0;
    }
    NothingStreamed(owp[..], l, lbits, rd);
    var ssize := if rd < lbits then rd else lbits;
    var istart: nat := 0;
    SliceZero(rd);
    while istart < lbits
      invariant Multiple(istart, rd) && lwp[..] == l
      invariant Streamed(owp[..], l, lbits, rd, if istart < lbits then istart else lbits)
      decreases lbits - istart
    {
      var ostart := if lbits - rd - istart > 0 then lbits - rd - istart else 0;
      var sbit: nat := 0;
      while sbit < ssize && sbit < lbits - istart
        invariant sbit <= ssize && sbit <= lbits - istart && lwp[..] == l
        invariant Streamed(owp[..], l, lbits, rd, istart + sbit)
      {
        SlicePos(lbits, rd, istart, sbit);
        StreamBit(owp, lwp, lbits, rd, istart + sbit, ostart + sbit);
        sbit := sbit + 1;
      }
      SliceNext(istart, rd);
      istart := istart + rd;
    }
  }

  lemma SliceZero(rd: nat)
    ensures Multiple(0, rd)
  {
    assert 0 == 0 * rd;
  }

  lemma SliceNext(j: nat, rd: nat)
    requires Multiple(j, rd)
    ensures Multiple(j + rd, rd)
  {
    var q: int :| j == q * rd;
    assert j + rd == (q + 1) * rd;
  }

  lemma SlicePos(lbits: nat, rd: nat, istart: nat, sbit: nat)
    requires rd > 0 && Multiple(istart, rd) && sbit < rd && istart + sbit < lbits
    ensures StreamPos(lbits, rd, istart + sbit) ==
      (if lbits - rd - istart > 0 then lbits - rd - istart else 0) + sbit < lbits
  {
    ModOfMultiple(istart, rd, sbit);
    StreamIsPermutation(lbits, rd, istart + sbit);
  }

  lemma NothingStreamed(o: seq<word>, l: seq<word>, lbits: nat, rd: nat)
    requires rd > 0 && |l| == |o| == Words(lbits) && forall k :: 0 <= k < |o| ==> o[k] == 0
    ensures Streamed(o, l, lbits, rd, 0)
  {
    forall p: nat | p < 32 * |o| ensures BitW(o, p) == SourceBit(l, lbits, rd, 0, p) {
      BitOfSmall(0, 0, p % 32);
    }
  }

  /** Extracts one bit of lwp and ors it into its place in owp. */
  method StreamBit(owp: array<word>, lwp: array<word>, lbits: nat, rd: nat, k: nat, p: nat)
    requires rd > 0 && owp != lwp && owp.Length == lwp.Length == Words(lbits) && k < lbits
    requires p == StreamPos(lbits, rd, k) < lbits && Streamed(owp[..], lwp[..], lbits, rd, k)
    modifies owp
    ensures Streamed(owp[..], lwp[..], lbits, rd, k + 1)
  {
    hide Streamed, StreamPos, And, Or, Shr32, Shl32;
    ghost var was := owp[..];
    var b := And(Shr32(lwp[k / 32], k % 32), 1);
    LowBit(lwp[k / 32], k % 32);
    var x := Shl32(b, p % 32);
    OrBelowWord(owp[p / 32], x);
    owp[p / 32] := Or(owp[p / 32], x);
    assert owp[..] == was[p / 32 := Or(was[p / 32], x)];
    StreamedMore(was, owp[..], lwp[..], lbits, rd, k, p, b);
  }

  lemma LowBit(x: word, n: nat)
    requires n < 32
    ensures And(Shr32(x, n), 1) == if Bit(x, n) then 1 else 0
  {
    BitOfShr32(x, n, 0);
    AndLowOnes(Shr32(x, n), 1);
  }

  lemma BitPlaced(x: word, b: word, n: nat, c: nat)
    requires n < 32 && c < 32 && b <= 1
    ensures Bit(Or(x, Shl32(b, n)), c) == (Bit(x, c) || (c == n && b == 1))
  {
    BitOfOr(x, Shl32(b, n), c);
    BitOfShl32(b, n, c);
    if n <= c { OneBit(b, c - n); }
  }

  lemma OneBit(b: nat, k: nat)
    requires b <= 1
    ensures Bit(b, k) == (b == 1 && k == 0)
  {
    if k > 0 { BitOfSmall(b, 1, k); }
  }

  lemma StreamedMore(was: seq<word>, now: seq<word>, l: seq<word>, lbits: nat, rd: nat, k: nat, p: nat, b: word)
    requires rd > 0 && |l| == Words(lbits) && k < lbits && p == StreamPos(lbits, rd, k) < lbits
    requires Streamed(was, l, lbits, rd, k) && b == if Bit(l[k / 32], k % 32) then 1 else 0
    requires Or(was[p / 32], Shl32(b, p % 32)) < 0x1_0000_0000
    requires now == was[p / 32 := Or(was[p / 32], Shl32(b, p % 32))]
    ensures Streamed(now, l, lbits, rd, k + 1)
  {
    hide StreamPos, StreamSource, Or, Shl32, Bit;
    StreamIsPermutation(lbits, rd, k);
    forall t: nat | t < 32 * |now| ensures BitW(now, t) == SourceBit(l, lbits, rd, k + 1, t) {
      assert BitW(was, t) == SourceBit(l, lbits, rd, k, t);
      if t / 32 == p / 32 {
        BitPlaced(was[p / 32], b, p % 32, t % 32);
      }
      assert t / 32 == p / 32 && t % 32 == p % 32 ==> t == p;
      if t < lbits && t != p { StreamIsPermutation(lbits, rd, t); }
    }
  }

  /** Streaming what was streamed gives the clean input back when the slices fill it. */
  lemma StreamTwice(l: seq<word>, m: seq<word>, o: seq<word>, lbits: nat, rd: nat)
    requires rd > 0 && |l| == Words(lbits) == |m| && (lbits % rd == 0 || rd >= lbits)
    requires Streamed(m, l, lbits, rd, lbits) && Streamed(o, m, lbits, rd, lbits)
    ensures forall k: nat :: k < 32 * |o| ==> BitW(o, k) == (k < lbits && BitW(l, k))
  {
    forall k: nat | k < 32 * |o| ensures BitW(o, k) == (k < lbits && BitW(l, k)) {
      assert BitW(o, k) == SourceBit(m, lbits, rd, lbits, k);
      if k < lbits {
        StreamIsPermutation(lbits, rd, k);
        var s := StreamSource(lbits, rd, k);
        TwiceIsOnce(lbits, rd, s);
        StreamIsPermutation(lbits, rd, s);
        assert StreamPos(lbits, rd, s) == k && StreamPos(lbits, rd, k) == s;
        assert StreamSource(lbits, rd, s) == k;
        assert BitW(m, s) == SourceBit(l, lbits, rd, lbits, s);
      }
    }
  }

  // ---------------------------------------------------------------- one word, slice by slice

  /** The stream of one clean word, up to input bit n. */
  ghost predicate StreamedWord(o: nat, l: nat, lbits: nat, rd: nat, n: nat)
    requires rd > 0
  {
    forall p: nat :: p < 32 ==> Bit(o, p) == SourceBitOf(l, lbits, rd, n, p)
  }

  ghost predicate SourceBitOf(l: nat, lbits: nat, rd: nat, n: nat, p: nat)
    requires rd > 0
  {
    var k := StreamSource(lbits, rd, p);
    p < lbits && 0 <= k < n && Bit(l, k)
  }

  lemma StreamedWordUnique(a: word, b: word, l: nat, lbits: nat, rd: nat, n: nat)
    requires rd > 0 && StreamedWord(a, l, lbits, rd, n) && StreamedWord(b, l, lbits, rd, n)
    ensures a == b
  {
    forall p: nat ensures Bit(a, p) == Bit(b, p) {
      if p < 32 {
        assert Bit(a, p) == SourceBitOf(l, lbits, rd, n, p);
        assert Bit(b, p) == SourceBitOf(l, lbits, rd, n, p);
      } else {
        WordBits(a, p);
        WordBits(b, p);
      }
    }
    BitsEqual(a, b);
  }

  /** `VL_STREAML_III`, for a clean operand and slices no wider than it. */
  method StreamWord(lbits: nat, ld: word, rd: nat) returns (ret: word)
    requires 1 <= rd <= lbits <= 32 && ld < Pow2(lbits)
    ensures StreamedWord(ret, ld, lbits, rd, lbits)
  {
    hide StreamedWord, And, Or, Shl32, Shr32, Mask32;
    ret := 0;
    EmptyWord(ld, lbits, rd);
    var mask := Mask32(rd);
    var istart: nat := 0;
    SliceZero(rd);
    while istart < lbits
      invariant Multiple(istart, rd) && StreamedWord(ret, ld, lbits, rd, if istart < lbits then istart else lbits)
      decreases lbits - istart
    {
      var ostart: nat := if lbits - rd - istart > 0 then lbits - rd - istart else 0;
      var slice := And(Shr32(ld, istart), mask);
      AndBound(Shr32(ld, istart), mask);
      OrBelowWord(ret, Shl32(slice, ostart));
      SliceStreamed(ret, ld, lbits, rd, istart, ostart);
      ret := Or(ret, Shl32(slice, ostart));
      SliceNext(istart, rd);
      istart := istart + rd;
    }
  }

  lemma EmptyWord(l: nat, lbits: nat, rd: nat)
    requires rd > 0
    ensures StreamedWord(0, l, lbits, rd, 0)
  {
    forall p: nat | p < 32 ensures Bit(0, p) == SourceBitOf(l, lbits, rd, 0, p) {
      BitOfSmall(0, 0, p);
    }
  }

  lemma SliceBit(l: word, istart: nat, ostart: nat, rd: nat, p: nat)
    requires istart < 32 && ostart < 32 && p < 32 && 1 <= rd <= 32
    ensures And(Shr32(l, istart), Mask32(rd)) < 0x1_0000_0000
    ensures Bit(Shl32(And(Shr32(l, istart), Mask32(rd)), ostart), p) ==
      (ostart <= p < ostart + rd && Bit(l, istart + p - ostart))
  {
    var x := Shr32(l, istart);
    AndBound(x, Mask32(rd));
    BitOfShl32(And(x, Mask32(rd)), ostart, p);
    if ostart <= p {
      BitOfAnd(x, Mask32(rd), p - ostart);
      BitOfMask32(rd, p - ostart);
      BitOfShr32(l, istart, p - ostart);
    }
  }

  lemma SliceStreamed(ret: word, l: word, lbits: nat, rd: nat, istart: nat, ostart: nat)
    requires 1 <= rd <= lbits <= 32 && l < Pow2(lbits) && istart < lbits && Multiple(istart, rd)
    requires ostart == if lbits - rd - istart > 0 then lbits - rd - istart else 0
    requires StreamedWord(ret, l, lbits, rd, istart)
    ensures And(Shr32(l, istart), Mask32(rd)) < 0x1_0000_0000
    ensures StreamedWord(Or(ret, Shl32(And(Shr32(l, istart), Mask32(rd)), ostart)), l, lbits, rd,
                         if istart + rd < lbits then istart + rd else lbits)
  {
    AndBound(Shr32(l, istart), Mask32(rd));
    hide And, Or, Shl32, Shr32, Mask32, StreamSource, StreamPos, Pow2, Bit;
    var slice := And(Shr32(l, istart), Mask32(rd));
    var n := if istart + rd < lbits then istart + rd else lbits;
    forall p: nat | p < 32
      ensures Bit(Or(ret, Shl32(slice, ostart)), p) == SourceBitOf(l, lbits, rd, n, p)
    {
      BitOfOr(ret, Shl32(slice, ostart), p);
      SliceBit(l, istart, ostart, rd, p);
      assert Bit(ret, p) == SourceBitOf(l, lbits, rd, istart, p);
      SliceMembers(lbits, rd, istart, ostart, p);
      if ostart <= p { BitOfClean(l, lbits, istart + p - ostart); }
    }
  }

  lemma BitOfClean(l: nat, lbits: nat, k: nat)
    requires l < Pow2(lbits)
    ensures k >= lbits ==> !Bit(l, k)
  {
    if k >= lbits { BitOfSmall(l, lbits, k); }
  }

  /** The positions a slice fills are those whose source lies in it. */
  lemma SliceMembers(lbits: nat, rd: nat, istart: nat, ostart: nat, p: nat)
    requires 1 <= rd <= lbits && istart < lbits && Multiple(istart, rd)
    requires ostart == if lbits - rd - istart > 0 then lbits - rd - istart else 0
    ensures var k := StreamSource(lbits, rd, p);
      var n := if istart + rd < lbits then istart + rd else lbits;
      && (p < lbits && istart <= k < n <==> ostart <= p < ostart + rd && istart + p - ostart < lbits)
      && (ostart <= p < ostart + rd && istart + p - ostart < lbits ==> k == istart + p - ostart)
  {
    hide StreamSource, StreamPos, Multiple;
    if ostart <= p < ostart + rd && istart + p - ostart < lbits {
      SlicePos(lbits, rd, istart, p - ostart);
      StreamIsPermutation(lbits, rd, istart + (p - ostart));
    }
    if p < lbits {
      var k := StreamSource(lbits, rd, p);
      StreamIsPermutation(lbits, rd, p);
      if istart <= k < istart + rd && k < lbits {
        SlicePos(lbits, rd, istart, k - istart);
      }
    }
  }
}
