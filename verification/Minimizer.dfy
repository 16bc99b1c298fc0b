/**
 AFL's test-case minimizer: a fixpoint of block deletion, symbol replacement and
 byte replacement over an oracle that accepts or rejects an input.
 */
module Minimizer {
  import opened Bits

  const TMIN_MAX_FILE: nat := 10 * 1024 * 1024
  const TMIN_SET_MIN_SIZE: nat := 4
  const TMIN_SET_STEPS: nat := 128
  const TRIM_START_STEPS: nat := 16

  /** The character '0', which stands for "does not matter". */
  const ZERO: byte := 0x30

  // ---------------------------------------------------------------- edits

  /** s without the block of n bytes at p, or without its tail when the block reaches past the end. */
  function Cut(s: seq<byte>, p: nat, n: nat): seq<byte>
    requires p <= |s|
  {
    s[..p] + if p + n <= |s| then s[p + n..] else []
  }

  /** t is s with some bytes overwritten by '0'. */
  ghost predicate Zeroed(s: seq<byte>, t: seq<byte>) {
    |t| == |s| && forall i :: 0 <= i < |s| ==> t[i] == s[i] || t[i] == 0x30
  }

  /** b arises from a by deleting bytes and overwriting bytes with '0'. */
  ghost predicate Reduces(a: seq<byte>, b: seq<byte>) {
    if |a| == 0 then |b| == 0
    else (|b| > 0 && (b[0] == a[0] || b[0] == 0x30) && Reduces(a[1..], b[1..])) || Reduces(a[1..], b)
  }

  lemma {:induction false} ReducesTrans(a: seq<byte>, b: seq<byte>, c: seq<byte>)
    requires Reduces(a, b) && Reduces(b, c)
    ensures Reduces(a, c)
    decreases |a|
  {
    if |a| > 0 {
      if Reduces(a[1..], b) {
        ReducesTrans(a[1..], b, c);
      } else if Reduces(b[1..], c) {
        ReducesTrans(a[1..], b[1..], c);
      } else {
        ReducesTrans(a[1..], b[1..], c[1..]);
      }
    }
  }

  lemma {:induction false} ZeroedReduces(s: seq<byte>, t: seq<byte>)
    requires Zeroed(s, t)
    ensures Reduces(s, t)
  {
    if |s| > 0 {
      assert t[0] == s[0] || t[0] == ZERO;
      assert forall i :: 0 <= i < |s| - 1 ==> s[1..][i] == s[i + 1] && t[1..][i] == t[i + 1];
      ZeroedReduces(s[1..], t[1..]);
    }
  }

  lemma {:induction false} CutReduces(s: seq<byte>, p: nat, n: nat)
    requires p <= |s|
    ensures Reduces(s, Cut(s, p, n))
    decreases |s|
  {
    if |s| > 0 {
      if p > 0 {
        assert Cut(s, p, n)[1..] == Cut(s[1..], p - 1, n);
        CutReduces(s[1..], p - 1, n);
      } else if n > 0 {
        assert Cut(s, 0, n) == Cut(s[1..], 0, n - 1);
        CutReduces(s[1..], 0, n - 1);
      } else {
        assert Cut(s, 0, 0)[1..] == Cut(s[1..], 0, 0);
        CutReduces(s[1..], 0, 0);
      }
    }
  }

  /** Bytes that still matter. */
  function NonZero(s: seq<byte>): nat {
    if |s| == 0 then 0 else NonZero(s[1..]) + if s[0] != ZERO then 1 else 0
  }

  /** Overwriting with '0' never adds bytes that matter, and takes one away when it changes anything. */
  lemma {:induction false} ZeroedCounts(s: seq<byte>, t: seq<byte>)
    requires Zeroed(s, t)
    ensures NonZero(t) <= NonZero(s)
    ensures t != s ==> NonZero(t) < NonZero(s)
  {
    if |s| > 0 {
      assert forall i :: 0 <= i < |s| - 1 ==> s[1..][i] == s[i + 1] && t[1..][i] == t[i + 1];
      ZeroedCounts(s[1..], t[1..]);
      assert s == [s[0]] + s[1..] && t == [t[0]] + t[1..];
    }
  }

  lemma {:induction false} CutCounts(s: seq<byte>, p: nat, n: nat)
    requires p <= |s|
    ensures NonZero(Cut(s, p, n)) <= NonZero(s)
    decreases |s|
  {
    if |s| > 0 {
      if p > 0 {
        assert Cut(s, p, n)[1..] == Cut(s[1..], p - 1, n);
        CutCounts(s[1..], p - 1, n);
      } else if n > 0 {
        assert Cut(s, 0, n) == Cut(s[1..], 0, n - 1);
        CutCounts(s[1..], 0, n - 1);
      } else {
        assert Cut(s, 0, 0) == s;
      }
    }
  }

  // ---------------------------------------------------------------- the skipped deletions

  /** Deleting a block equal to the block before it is deleting the block before it. */
  lemma SkippedBlock(s: seq<byte>, p: nat, n: nat)
    requires n <= p && p + n <= |s| && s[p - n..p] == s[p..p + n]
    ensures Cut(s, p, n) == Cut(s, p - n, n)
  {
    assert s[..p] == s[..p - n] + s[p - n..p];
    assert s[p..] == s[p..p + n] + s[p + n..];
    assert Cut(s, p, n) == s[..p - n] + s[p - n..p] + s[p + n..];
    assert Cut(s, p - n, n) == s[..p - n] + (s[p..p + n] + s[p + n..]);
  }

  /** No aligned block of n bytes below `upto` can be deleted. */
  ghost predicate NoBlock(accepts: seq<byte> -> bool, s: seq<byte>, n: nat, upto: nat) {
    forall p: nat :: p < |s| && p < upto && Aligned(p, n) ==> !accepts(Cut(s, p, n))
  }

  predicate Aligned(p: nat, n: nat) {
    n > 0 && p % n == 0
  }

  lemma NoBlockStep(accepts: seq<byte> -> bool, s: seq<byte>, n: nat, upto: nat)
    requires n > 0 && Aligned(upto, n) && upto < |s|
    requires NoBlock(accepts, s, n, upto) && !accepts(Cut(s, upto, n))
    ensures NoBlock(accepts, s, n, upto + n) && Aligned(upto + n, n)
  {
    AlignedGap(upto, n);
    forall p: nat | p < |s| && p < upto + n && Aligned(p, n)
      ensures !accepts(Cut(s, p, n))
    {
      if p > upto {
        AlignedBetween(upto, p, n);
      }
    }
  }

  lemma AlignedGap(p: nat, n: nat)
    requires Aligned(p, n)
    ensures Aligned(p + n, n) && (p >= n ==> Aligned(p - n, n))
  {
    Euclid(p, n);
    var q := p / n;
    assert p + n == (q + 1) * n + 0;
    DivModUnique(p + n, n, q + 1, 0);
    if p >= n {
      assert p - n == (q - 1) * n + 0;
      DivModUnique(p - n, n, q - 1, 0);
    }
  }

  lemma AlignedBetween(p: nat, r: nat, n: nat)
    requires Aligned(p, n) && Aligned(r, n) && p < r
    ensures r >= p + n
  {
    Euclid(p, n);
    Euclid(r, n);
    if r / n <= p / n {
      MulMono(r / n, p / n, n);
    } else {
      MulMono(p / n + 1, r / n, n);
      assert (p / n + 1) * n == p / n * n + n;
    }
  }

  /** Deleting any single byte is rejected. */
  ghost predicate OneMinimal(accepts: seq<byte> -> bool, s: seq<byte>) {
    forall i: nat :: i < |s| ==> !accepts(Cut(s, i, 1))
  }

  // ---------------------------------------------------------------- sweeps, without the shortcut

  /** What is left of s when the blocks of n bytes from p on have been tried one after the other, each time anew. */
  function Sweep(accepts: seq<byte> -> bool, s: seq<byte>, n: nat, p: nat): seq<byte>
    requires n > 0
    decreases |s|, |s| - p
  {
    if p >= |s| then s
    else if accepts(Cut(s, p, n)) then Sweep(accepts, Cut(s, p, n), n, p)
    else Sweep(accepts, s, n, p + n)
  }

  /** Sweeps with halving block lengths. */
  function Sweeps(accepts: seq<byte> -> bool, s: seq<byte>, n: nat): seq<byte>
    requires n > 0
    decreases n
  {
    var t := Sweep(accepts, s, n, 0);
    if n > 1 && |t| >= 1 then Sweeps(accepts, t, n / 2) else t
  }

  /** The first block length: the least power of two that cuts the input into at most 16 blocks. */
  ghost predicate FirstLength(n: nat, len: nat) {
    IsPow2(n) && len / 16 <= n && (n == 1 || n < 2 * (len / 16))
  }

  // ---------------------------------------------------------------- next_p2

  ghost predicate IsPow2(n: nat) {
    exists k: nat :: n == Pow2(k)
  }

  /** `next_p2`: the least power of two that is not below val. */
  method NextP2(val: nat) returns (ret: nat)
    ensures IsPow2(ret) && val <= ret && (ret == 1 || ret < 2 * val)
  {
    ret := 1;
    assert ret == Pow2(0);
    while val > ret
      invariant IsPow2(ret) && ret > 0 && (ret == 1 || ret < 2 * val)
      decreases val - ret
    {
      ghost var k: nat :| ret == Pow2(k);
      assert 2 * ret == Pow2(k + 1);
      ret := 2 * ret;
    }
  }

  // ---------------------------------------------------------------- the minimizer's state

  /** `memcpy` between two buffers. */
  method CopyBytes(dst: array<byte>, dpos: nat, src: array<byte>, spos: nat, n: nat)
    requires dst != src && dpos + n <= dst.Length && spos + n <= src.Length
    modifies dst
    ensures dst[..] == old(dst[..dpos] + src[spos..spos + n] + dst[dpos + n..])
  {
    forall i | 0 <= i < n {
      dst[dpos + i] := src[spos + i];
    }
  }

  class TestCase {
    /** Whether the target behaves as on the first run. */
    const accepts: seq<byte> -> bool
    const inData: array<byte>
    const tmpBuf: array<byte>
    var inLen: nat

    constructor (accepts: seq<byte> -> bool, inData: array<byte>)
      requires inData.Length < TMIN_MAX_FILE && accepts(inData[..])
      ensures this.accepts == accepts && this.inData == inData && fresh(tmpBuf)
      ensures Valid() && Cur() == inData[..]
    {
      this.accepts, this.inData, this.inLen := accepts, inData, inData.Length;
      tmpBuf := new byte[inData.Length];
      assert inData[..inData.Length] == inData[..];
    }

    /** The input held at the moment is one the oracle accepts. */
    ghost predicate Valid()
      reads this, inData
    {
      && inData != tmpBuf && inLen <= inData.Length == tmpBuf.Length < TMIN_MAX_FILE
      && accepts(inData[..inLen])
    }

    ghost function Cur(): seq<byte>
      reads this, inData
      requires inLen <= inData.Length
    {
      inData[..inLen]
    }

    // -------------------------------------------------------------- stage 0

    /** Stage 0: overwrites whole blocks, one block after the other. */
    method BlockNormalize() returns (setLen: nat)
      requires Valid()
      modifies this, inData, tmpBuf
      ensures Valid() && inLen == old(inLen)
      ensures SetLength(setLen, inLen) && BlocksTried(accepts, old(Cur()), Cur(), setLen, inLen)
    {
      hide BlocksTried, Aligned, ZeroedBlock, Zeroed;
      setLen := NextP2(inLen / TMIN_SET_STEPS);
      var setPos := 0;
      if setLen < TMIN_SET_MIN_SIZE { setLen := TMIN_SET_MIN_SIZE; }
      ghost var was := Cur();
      NoBlocksTried(accepts, was, setLen);
      while setPos < inLen
        invariant Valid() && inLen == |was| && setPos >= 0 && Aligned(setPos, setLen)
        invariant BlocksTried(accepts, was, Cur(), setLen, setPos)
        decreases inLen - setPos
      {
        var useLen := if setLen < inLen - setPos then setLen else inLen - setPos;
        var i := 0;
        while i < useLen && inData[setPos + i] == ZERO
          invariant i <= useLen && forall k :: setPos <= k < setPos + i ==> inData[k] == ZERO
        {
          i := i + 1;
        }
        BlockStep(accepts, was, Cur(), setLen, setPos, useLen);
        if i != useLen {
          TryZero(setPos, useLen);
        }
        setPos := setPos + setLen;
      }
      BlocksEnd(accepts, was, Cur(), setLen, setPos);
    }

    /** Runs the input with n bytes overwritten and keeps it when accepted. */
    method TryZero(pos: nat, n: nat)
      requires Valid() && pos + n <= inLen
      modifies inData, tmpBuf
      ensures Valid()
      ensures accepts(ZeroedBlock(old(Cur()), pos, n)) ==> Cur() == ZeroedBlock(old(Cur()), pos, n)
      ensures !accepts(ZeroedBlock(old(Cur()), pos, n)) ==> Cur() == old(Cur())
    {
      ghost var cur := Cur();
      CopyBytes(tmpBuf, 0, inData, 0, inLen);
      assert tmpBuf[..inLen] == cur;
      FillZero(tmpBuf, pos, n);
      assert tmpBuf[..inLen] == ZeroedBlock(cur, pos, n);
      var res := accepts(tmpBuf[..inLen]);
      if res {
        FillZero(inData, pos, n);
        assert inData[..inLen] == ZeroedBlock(cur, pos, n);
      }
    }

    /** `memset(buf + pos, '0', n)`. */
    static method FillZero(buf: array<byte>, pos: nat, n: nat)
      requires pos + n <= buf.Length
      modifies buf
      ensures forall i :: 0 <= i < buf.Length ==> buf[i] == if pos <= i < pos + n then ZERO else old(buf[i])
    {
      forall i | pos <= i < pos + n {
        buf[i] := ZERO;
      }
    }

    // -------------------------------------------------------------- stage 1

    /** Builds the input without the block at delPos in the scratch buffer, runs it and keeps it when accepted. */
    method TryCut(delPos: nat, delLen: nat) returns (res: bool)
      requires Valid() && delPos < inLen
      modifies this, inData, tmpBuf
      ensures Valid()
      ensures res == accepts(Cut(old(Cur()), delPos, delLen))
      ensures Cur() == if res then Cut(old(Cur()), delPos, delLen) else old(Cur())
    {
      var tailLen: nat := if delPos + delLen <= inLen then inLen - delPos - delLen else 0;
      BuildCut(delPos, delLen, tailLen);
      res := accepts(tmpBuf[..delPos + tailLen]);
      if res { Keep(delPos + tailLen); }
    }

    /** Copies head and tail around the block to the scratch buffer. */
    method BuildCut(delPos: nat, delLen: nat, tailLen: nat)
      requires Valid() && delPos < inLen
      requires tailLen == if delPos + delLen <= inLen then inLen - delPos - delLen else 0
      modifies tmpBuf
      ensures tmpBuf[..delPos + tailLen] == Cut(Cur(), delPos, delLen)
    {
      CopyBytes(tmpBuf, 0, inData, 0, delPos);
      assert tmpBuf[..delPos] == Cur()[..delPos];
      if tailLen > 0 {
        CopyBytes(tmpBuf, delPos, inData, delPos + delLen, tailLen);
        assert tmpBuf[delPos..delPos + tailLen] == Cur()[delPos + delLen..];
      }
      assert tmpBuf[..delPos + tailLen] == tmpBuf[..delPos] + tmpBuf[delPos..delPos + tailLen];
    }

    /** Takes the first n bytes of the scratch buffer as the new input. */
    method Keep(n: nat)
      requires Valid() && n <= inLen && accepts(tmpBuf[..n])
      modifies this, inData
      ensures Valid() && Cur() == old(tmpBuf[..n])
    {
      CopyBytes(inData, 0, tmpBuf, 0, n);
      inLen := n;
      assert inData[..inLen] == tmpBuf[..n];
    }

    /** `!memcmp` of the block at delPos and the one before it. */
    predicate SameBlocks(delPos: nat, delLen: nat)
      reads this, inData
      requires delLen <= delPos && delPos + delLen <= inLen <= inData.Length
      ensures SameBlocks(delPos, delLen) ==> Cur()[delPos - delLen..delPos] == Cur()[delPos..delPos + delLen]
    {
      assert Cur()[delPos - delLen..delPos] == inData[delPos - delLen..delPos];
      assert Cur()[delPos..delPos + delLen] == inData[delPos..delPos + delLen];
      inData[delPos - delLen..delPos] == inData[delPos..delPos + delLen]
    }

    /**
     One sweep of block deletion. A block is tried unless it follows a kept block and
     equals it; the comparison never reaches before the buffer because a block has
     been kept by then.
     */
    method DeletionSweep(delLen: nat) returns (changed: bool)
      requires Valid() && delLen >= 1
      modifies this, inData, tmpBuf
      ensures Valid() && Shrunk(old(Cur()), Cur())
      ensures changed ==> inLen < old(inLen)
      ensures !changed ==> Cur() == old(Cur()) && NoBlock(accepts, Cur(), delLen, inLen)
      ensures Cur() == Sweep(accepts, old(Cur()), delLen, 0)
    {
      hide Shrunk, NoBlock, Aligned, Cut, SameBlocks, Sweep;
      changed := false;
      var delPos, prevDel := 0, true;
      ghost var was := Cur();
      SweepStarts(accepts, was, delLen);
      while delPos < inLen
        invariant Valid() && Aligned(delPos, delLen) && (!prevDel ==> delPos >= delLen)
        invariant Shrunk(was, Cur()) && inLen <= old(inLen)
        invariant changed ==> inLen < old(inLen)
        invariant !changed ==> Cur() == was && NoBlock(accepts, was, delLen, delPos)
        invariant Sweep(accepts, Cur(), delLen, delPos) == Sweep(accepts, was, delLen, 0)
        invariant !prevDel ==> BlockRejected(accepts, Cur(), delLen, delPos - delLen)
        decreases inLen, inLen - delPos
      {
        ghost var cur := Cur();
        var tailLen: nat := if delPos + delLen <= inLen then inLen - delPos - delLen else 0;
        AlignedGap(delPos, delLen);
        SweepStep(accepts, cur, delLen, delPos);
        if !prevDel && tailLen > 0 && SameBlocks(delPos, delLen) {
          SameRejected(accepts, cur, delLen, delPos);
          if !changed {
            SkippedIsRejected(accepts, was, delLen, delPos);
          }
          delPos := delPos + delLen;
          continue;
        }
        prevDel := false;
        var res := TryCut(delPos, delLen);
        if res {
          prevDel := true;
          CutShrinks(was, cur, delPos, delLen);
          changed := true;
        } else {
          if !changed {
            NoBlockStep(accepts, was, delLen, delPos);
          }
          delPos := delPos + delLen;
        }
      }
      SweepEnds(accepts, Cur(), delLen, delPos);
      if !changed {
        NoBlockEnds(accepts, was, delLen, delPos);
      }
    }

    /** Stage 1: sweeps with block lengths halving from a power of two down to one byte. */
    method DeletionStage() returns (changed: bool, ghost length: nat)
      requires Valid()
      modifies this, inData, tmpBuf
      ensures Valid() && Shrunk(old(Cur()), Cur())
      ensures FirstLength(length, old(inLen)) && length > 0 && Cur() == Sweeps(accepts, old(Cur()), length)
      ensures changed ==> inLen < old(inLen)
      ensures !changed ==> Cur() == old(Cur()) && BlockMinimal(accepts, Cur())
    {
      hide Shrunk, NoBlock, Pow2, Sweep, Sweeps;
      ghost var was := Cur();
      var delLen := NextP2(inLen / TRIM_START_STEPS);
      length := delLen;
      changed := false;
      ReducesRefl(was);
      assert Shrunk(was, was) by { SweepStarts(accepts, was, 1); }
      ghost var first: nat :| delLen == Pow2(first);
      ghost var e: nat := first;
      while true
        invariant Valid() && Shrunk(was, Cur()) && inLen <= old(inLen)
        invariant delLen == Pow2(e) && e <= first && delLen > 0 && length > 0
        invariant Sweeps(accepts, Cur(), delLen) == Sweeps(accepts, was, length)
        invariant changed ==> inLen < old(inLen)
        invariant !changed ==> Cur() == was && forall k: nat :: e < k <= first ==> NoBlock(accepts, was, Pow2(k), |was|)
        decreases e
      {
        ghost var before := Cur();
        SweepsStep(accepts, before, delLen);
        var deleted := DeletionSweep(delLen);
        ShrunkTrans(was, before, Cur());
        changed := changed || deleted;
        if delLen > 1 && inLen >= 1 {
          HalfExponent(e);
          delLen := delLen / 2;
          e := e - 1;
        } else {
          break;
        }
      }
      if !changed {
        SweptAll(accepts, was, first, e);
      }
    }

    // -------------------------------------------------------------- stage 2

    /** Stage 2: replaces every occurrence of a symbol by '0', one symbol after the other. */
    method AlphabetStage() returns (changed: bool)
      requires Valid()
      modifies this, inData, tmpBuf
      ensures Valid() && SymbolsTried(accepts, old(Cur()), Cur(), 256)
      ensures changed <==> Cur() != old(Cur())
    {
      hide Replaced, SymbolsTried;
      ghost var was := Cur();
      var alphaMap := new nat[256];
      CountSymbols(alphaMap);
      changed := false;
      NothingTried(accepts, was);
      for c := 0 to 256
        invariant Valid()
        invariant forall b: byte :: alphaMap[b] > 0 <==> b in was
        invariant SymbolsTried(accepts, was, Cur(), c) && (changed <==> Cur() != was)
      {
        if c == ZERO || alphaMap[c] == 0 {
          SymbolAbsent(accepts, was, Cur(), c);
          continue;
        }
        SymbolStep(accepts, was, Cur(), c);
        var res := TryReplace(c);
        changed := changed || res;
      }
    }

    /** Runs the input with every c overwritten and keeps it when accepted. */
    method TryReplace(c: byte) returns (res: bool)
      requires Valid()
      modifies this, inData, tmpBuf
      ensures Valid()
      ensures res == accepts(Replaced(old(Cur()), c))
      ensures Cur() == if res then Replaced(old(Cur()), c) else old(Cur())
    {
      ghost var cur := Cur();
      CopyBytes(tmpBuf, 0, inData, 0, inLen);
      assert tmpBuf[..inLen] == cur;
      ReplaceSymbol(tmpBuf, inLen, c);
      res := accepts(tmpBuf[..inLen]);
      if res { Keep(inLen); }
    }

    /** Overwrites every c among the first n bytes. */
    static method ReplaceSymbol(buf: array<byte>, n: nat, c: byte)
      requires n <= buf.Length
      modifies buf
      ensures buf[..n] == Replaced(old(buf[..n]), c)
    {
      for r := 0 to n
        invariant forall p :: r <= p < n ==> buf[p] == old(buf[p])
        invariant forall p :: 0 <= p < r ==> buf[p] == if old(buf[p]) == c then ZERO else old(buf[p])
      {
        if buf[r] == c { buf[r] := ZERO; }
      }
    }

    /** The histogram loop: which symbols occur. */
    method CountSymbols(alphaMap: array<nat>)
      requires Valid() && alphaMap.Length == 256
      modifies alphaMap
      ensures forall b: byte :: alphaMap[b] > 0 <==> b in Cur()
    {
      for i := 0 to 256
        invariant forall k :: 0 <= k < i ==> alphaMap[k] == 0
      {
        alphaMap[i] := 0;
      }
      for i := 0 to inLen
        invariant forall b: byte :: alphaMap[b] > 0 <==> b in inData[..i]
      {
        assert inData[..i + 1] == inData[..i] + [inData[i]];
        alphaMap[inData[i]] := alphaMap[inData[i]] + 1;
      }
    }

    // -------------------------------------------------------------- stage 3

    /** Stage 3: replaces single bytes by '0'. */
    method CharacterStage() returns (changed: bool)
      requires Valid()
      modifies this, inData, tmpBuf
      ensures Valid() && BytesTried(accepts, old(Cur()), Cur(), inLen) && inLen == old(inLen)
      ensures changed <==> Cur() != old(Cur())
    {
      hide BytesTried;
      ghost var was := Cur();
      CopyBytes(tmpBuf, 0, inData, 0, inLen);
      assert tmpBuf[..inLen] == was;
      changed := false;
      NothingTried(accepts, was);
      for i := 0 to inLen
        invariant Valid() && inLen == |was| && tmpBuf[..inLen] == Cur()
        invariant BytesTried(accepts, was, Cur(), i) && (changed <==> Cur() != was)
      {
        ghost var cur := Cur();
        BytesStep(accepts, was, cur, i);
        var res := TryByte(i);
        changed := changed || res;
      }
    }

    /** Runs the input with byte i overwritten and keeps it when accepted; both buffers stay equal. */
    method TryByte(i: nat) returns (res: bool)
      requires Valid() && tmpBuf[..inLen] == Cur() && i < inLen
      modifies inData, tmpBuf
      ensures Valid() && tmpBuf[..inLen] == Cur()
      ensures res == (old(inData[i]) != ZERO && accepts(old(Cur())[i := ZERO]))
      ensures Cur() == if res then old(Cur())[i := ZERO] else old(Cur())
    {
      ghost var cur := Cur();
      var orig := tmpBuf[i];
      assert cur[i] == orig == inData[i];
      if orig == ZERO { return false; }
      tmpBuf[i] := ZERO;
      assert tmpBuf[..inLen] == cur[i := ZERO];
      res := accepts(tmpBuf[..inLen]);
      if res {
        inData[i] := ZERO;
        assert inData[..inLen] == cur[i := ZERO];
      } else {
        tmpBuf[i] := orig;
        assert tmpBuf[..inLen] == cur;
      }
    }

    // -------------------------------------------------------------- minimize

    /**
     `minimize`: passes of the three stages until a pass deletes nothing (after the
     first) or changes nothing. The result is accepted, arises from the input by
     deletions and '0's, and no single byte and no aligned power-of-two block of it
     can be deleted. The trail holds the passes that ran all three stages; symbols and
     bytes of the result that the last of them would have to try again decide whether
     overwriting one is still rejected.
     */
    method Minimize() returns (passes: nat, ghost trail: seq<Pass>)
      requires Valid()
      modifies this, inData, tmpBuf
      ensures Valid() && Reduces(old(Cur()), Cur())
      ensures BlockMinimal(accepts, Cur()) && OneMinimal(accepts, Cur())
      ensures IsTrail(accepts, old(Cur()), trail) && Cur() == trail[|trail| - 1].bytes
      ensures passes == |trail| + 1 || (passes == |trail| && trail[|trail| - 1].start == Cur())
      ensures SymbolMinimal(accepts, Cur()) <==> NoSymbolLeft(accepts, trail[|trail| - 1])
      ensures ByteMinimal(accepts, Cur()) <==> NoByteLeft(accepts, trail[|trail| - 1])
      ensures passes == 1 ==> SymbolMinimal(accepts, Cur()) && ByteMinimal(accepts, Cur())
      ensures 1 <= passes <= Weight(old(Cur())) - Weight(Cur()) + 1
    {
      hide Reduces, NonZero, Zeroed, BlockMinimal, OneMinimal, SymbolMinimal, ByteMinimal, Shrunk, SymbolsTried,
        BytesTried, BlocksTried, IsTrail, IsPass, Normalized, NoSymbolLeft, NoByteLeft, Weight, Sweeps, FirstLength,
        Trimmed;
      ghost var was := Cur();
      var setLen := BlockNormalize();
      BlocksZero(accepts, was, Cur(), setLen);
      ZeroedWeighs(was, Cur());
      ByBlocks(accepts, was, Cur(), setLen);
      passes, trail := 0, [];
      while true
        invariant Valid() && Reduces(was, Cur())
        invariant passes + Weight(Cur()) <= Weight(was)
        invariant passes == |trail| && (passes == 0 ==> Normalized(accepts, was, Cur()))
        invariant passes > 0 ==> IsTrail(accepts, was, trail) && Cur() == trail[passes - 1].bytes
        decreases Weight(Cur())
      {
        ghost var s0 := Cur();
        passes := passes + 1;
        var changedAny, length := DeletionStage();
        ghost var s1 := Cur();
        Deleted(was, s0, s1);
        if passes > 1 && !changedAny { break; }
        var changed2 := AlphabetStage();
        SymbolsAllTried(accepts, s1, Cur());
        Overwritten(was, s1, Cur());
        ghost var s2 := Cur();
        var changed3 := CharacterStage();
        BytesAllTried(accepts, s2, Cur());
        Overwritten(was, s2, Cur());
        ghost var pass := Pass(s0, s1, s2, Cur());
        TrimmedBy(accepts, s0, s1, length);
        PassMade(accepts, pass);
        TrailGrows(accepts, was, trail, pass);
        trail := trail + [pass];
        changedAny := changedAny || changed2 || changed3;
        if !changedAny { break; }
      }
      BlocksAndBytes(accepts, Cur());
      LastPass(accepts, was, trail);
    }
  }

  /** What one or more deletions leave of a: a reduction with no more bytes that matter. */
  ghost predicate Shrunk(a: seq<byte>, b: seq<byte>) {
    Reduces(a, b) && NonZero(b) <= NonZero(a)
  }

  lemma SweepStarts(accepts: seq<byte> -> bool, s: seq<byte>, n: nat)
    requires n > 0
    ensures Shrunk(s, s) && Aligned(0, n) && NoBlock(accepts, s, n, 0)
  {
    ReducesRefl(s);
    DivModUnique(0, n, 0, 0);
  }

  lemma CutShrinks(a: seq<byte>, b: seq<byte>, p: nat, n: nat)
    requires Shrunk(a, b) && p < |b| && n > 0
    ensures Shrunk(a, Cut(b, p, n)) && |Cut(b, p, n)| < |b|
  {
    CutReduces(b, p, n);
    CutCounts(b, p, n);
    ReducesTrans(a, b, Cut(b, p, n));
  }

  /** The block at p, if there is one, cannot be deleted. */
  ghost predicate BlockRejected(accepts: seq<byte> -> bool, s: seq<byte>, n: nat, p: int) {
    0 <= p < |s| ==> !accepts(Cut(s, p, n))
  }

  lemma SweepStep(accepts: seq<byte> -> bool, s: seq<byte>, n: nat, p: nat)
    requires n > 0 && p < |s|
    ensures Sweep(accepts, s, n, p) ==
      if accepts(Cut(s, p, n)) then Sweep(accepts, Cut(s, p, n), n, p) else Sweep(accepts, s, n, p + n)
  {
  }

  lemma SweepEnds(accepts: seq<byte> -> bool, s: seq<byte>, n: nat, p: nat)
    requires n > 0 && p >= |s|
    ensures Sweep(accepts, s, n, p) == s
  {
  }

  lemma SweepsStep(accepts: seq<byte> -> bool, s: seq<byte>, n: nat)
    requires n > 0
    ensures var t := Sweep(accepts, s, n, 0);
      Sweeps(accepts, s, n) == if n > 1 && |t| >= 1 then Sweeps(accepts, t, n / 2) else t
  {
  }

  /** A block equal to a rejected one before it is rejected, so passing it over is trying it. */
  lemma SameRejected(accepts: seq<byte> -> bool, s: seq<byte>, n: nat, p: nat)
    requires n > 0 && n <= p && p + n <= |s| && s[p - n..p] == s[p..p + n] && BlockRejected(accepts, s, n, p - n)
    ensures BlockRejected(accepts, s, n, p) && !accepts(Cut(s, p, n))
  {
    SkippedBlock(s, p, n);
  }

  /** A block that equals the rejected block before it would be rejected as well. */
  lemma SkippedIsRejected(accepts: seq<byte> -> bool, s: seq<byte>, n: nat, p: nat)
    requires n > 0 && n <= p && p + n <= |s| && Aligned(p, n) && NoBlock(accepts, s, n, p)
    requires s[p - n..p] == s[p..p + n]
    ensures NoBlock(accepts, s, n, p + n)
  {
    AlignedGap(p, n);
    SkippedBlock(s, p, n);
    assert !accepts(Cut(s, p - n, n));
    NoBlockStep(accepts, s, n, p);
  }

  lemma ShrunkTrans(a: seq<byte>, b: seq<byte>, c: seq<byte>)
    requires Shrunk(a, b) && Shrunk(b, c)
    ensures Shrunk(a, c)
  {
    ReducesTrans(a, b, c);
  }

  lemma HalfExponent(e: nat)
    requires Pow2(e) > 1
    ensures e > 0 && Pow2(e) / 2 == Pow2(e - 1)
  {
  }

  /** No aligned block whose length is a power of two up to the first sweep's can be deleted. */
  ghost predicate BlockMinimal(accepts: seq<byte> -> bool, s: seq<byte>) {
    forall k: nat :: k == 0 || Pow2(k) < 2 * (|s| / 16) ==> NoBlock(accepts, s, Pow2(k), |s|)
  }

  lemma PositivePow(e: nat)
    ensures e > 0 ==> Pow2(e) > 1
  {
    if e > 0 { Pow2Mono(1, e); }
  }

  lemma SweptAll(accepts: seq<byte> -> bool, s: seq<byte>, first: nat, e: nat)
    requires e <= first && (Pow2(e) == 1 || |s| == 0)
    requires |s| / 16 <= Pow2(first)
    requires forall k: nat :: e <= k <= first ==> NoBlock(accepts, s, Pow2(k), |s|)
    ensures BlockMinimal(accepts, s)
  {
    forall k: nat | k == 0 || Pow2(k) < 2 * (|s| / 16)
      ensures NoBlock(accepts, s, Pow2(k), |s|)
    {
      if |s| > 0 {
        if k > first {
          Pow2Mono(first + 1, k);
        }
        PositivePow(e);
        assert e <= k <= first;
      }
    }
  }

  /** One-byte blocks are single bytes. */
  lemma BlocksAndBytes(accepts: seq<byte> -> bool, s: seq<byte>)
    requires BlockMinimal(accepts, s)
    ensures OneMinimal(accepts, s)
  {
    assert NoBlock(accepts, s, Pow2(0), |s|);
    forall i: nat | i < |s|
      ensures !accepts(Cut(s, i, 1))
    {
      assert Aligned(i, 1);
    }
  }

  /** s with n bytes at pos overwritten. */
  function ZeroedBlock(s: seq<byte>, pos: nat, n: nat): (t: seq<byte>)
    ensures Zeroed(s, t)
  {
    seq(|s|, i requires 0 <= i < |s| => if pos <= i < pos + n then ZERO else s[i])
  }

  /** s with every occurrence of c overwritten. */
  function Replaced(s: seq<byte>, c: byte): (t: seq<byte>)
    ensures Zeroed(s, t)
  {
    seq(|s|, i requires 0 <= i < |s| => if s[i] == c then ZERO else s[i])
  }

  /** Overwriting all occurrences of any symbol is rejected. */
  ghost predicate SymbolMinimal(accepts: seq<byte> -> bool, s: seq<byte>) {
    forall b: byte :: b != ZERO && b in s ==> !accepts(Replaced(s, b))
  }

  /** Overwriting any single byte is rejected. */
  ghost predicate ByteMinimal(accepts: seq<byte> -> bool, s: seq<byte>) {
    forall p :: 0 <= p < |s| && s[p] != ZERO ==> !accepts(s[p := ZERO])
  }

  /**
   The block length of stage 0: at least four, else the first power of two that cuts the input into
   at most 128 blocks.
   */
  ghost predicate SetLength(n: nat, len: nat) {
    var steps := len / 128;
    n >= steps && (n == 4 || (n > 4 && IsPow2(n) && n < 2 * steps))
  }

  /**
   What stage 0 makes of a when it has tried the blocks of n bytes below pos: a block is
   overwritten exactly when the oracle accepts that after the decisions on all earlier blocks.
   */
  ghost predicate BlocksTried(accepts: seq<byte> -> bool, a: seq<byte>, b: seq<byte>, n: nat, pos: nat) {
    && |b| == |a|
    && (forall i :: pos <= i < |a| ==> b[i] == a[i])
    && forall p: nat :: p < pos && p < |a| && Aligned(p, n) ==> BlockTried(accepts, a, b, n, p)
  }

  ghost predicate BlockTried(accepts: seq<byte> -> bool, a: seq<byte>, b: seq<byte>, n: nat, p: nat)
    requires p < |a| == |b|
  {
    forall i :: p <= i < p + n && i < |a| ==>
      b[i] == if accepts(ZeroedBlock(b[..p] + a[p..], p, n)) then ZERO else a[i]
  }

  lemma NoBlocksTried(accepts: seq<byte> -> bool, a: seq<byte>, n: nat)
    requires n > 0
    ensures BlocksTried(accepts, a, a, n, 0) && Aligned(0, n)
  {
    DivModUnique(0, n, 0, 0);
  }

  /** One block: tried, or passed over because it holds nothing but '0's. */
  lemma BlockStep(accepts: seq<byte> -> bool, a: seq<byte>, b: seq<byte>, n: nat, pos: nat, m: nat)
    requires BlocksTried(accepts, a, b, n, pos) && Aligned(pos, n) && pos < |a|
    requires m == if n < |a| - pos then n else |a| - pos
    ensures Aligned(pos + n, n)
    ensures accepts(ZeroedBlock(b, pos, m)) ==> BlocksTried(accepts, a, ZeroedBlock(b, pos, m), n, pos + n)
    ensures !accepts(ZeroedBlock(b, pos, m)) ==> BlocksTried(accepts, a, b, n, pos + n)
    ensures (forall k :: pos <= k < pos + m ==> b[k] == ZERO) ==> BlocksTried(accepts, a, b, n, pos + n)
  {
    AlignedGap(pos, n);
    var z := ZeroedBlock(b, pos, m);
    assert b[..pos] + a[pos..] == b && ZeroedBlock(b, pos, n) == z;
    if forall k :: pos <= k < pos + m ==> b[k] == ZERO { assert z == b; }
    BlockDecided(accepts, a, b, n, pos, if accepts(z) then z else b);
  }

  lemma BlockDecided(accepts: seq<byte> -> bool, a: seq<byte>, b: seq<byte>, n: nat, pos: nat, c: seq<byte>)
    requires BlocksTried(accepts, a, b, n, pos) && Aligned(pos, n) && pos < |a| && |c| == |a|
    requires c == if accepts(ZeroedBlock(b[..pos] + a[pos..], pos, n)) then ZeroedBlock(b[..pos] + a[pos..], pos, n)
      else b
    ensures BlocksTried(accepts, a, c, n, pos + n)
  {
    assert c[..pos] == b[..pos];
    forall p: nat | p < pos + n && p < |a| && Aligned(p, n) ensures BlockTried(accepts, a, c, n, p) {
      if p < pos {
        AlignedBetween(p, pos, n);
        assert BlockTried(accepts, a, b, n, p);
        assert c[..p] == b[..p];
      } else if p > pos {
        AlignedBetween(pos, p, n);
      }
    }
  }

  lemma BlocksEnd(accepts: seq<byte> -> bool, a: seq<byte>, b: seq<byte>, n: nat, pos: nat)
    requires BlocksTried(accepts, a, b, n, pos) && pos >= |a|
    ensures BlocksTried(accepts, a, b, n, |a|)
  {
  }

  /** Stage 0 only overwrites. */
  lemma BlocksZero(accepts: seq<byte> -> bool, a: seq<byte>, b: seq<byte>, n: nat)
    requires BlocksTried(accepts, a, b, n, |a|) && n > 0
    ensures Zeroed(a, b)
  {
    forall i | 0 <= i < |a| ensures b[i] == a[i] || b[i] == ZERO {
      var p := i - i % n;
      Euclid(i, n);
      DivShrinks(i, n);
      DivModUnique(p, n, i / n, 0);
      assert BlockTried(accepts, a, b, n, p);
    }
  }

  /** b with the symbols from c on as they were in a. */
  function Below(a: seq<byte>, b: seq<byte>, c: nat): seq<byte>
    requires |b| == |a|
  {
    seq(|a|, i requires 0 <= i < |a| => if a[i] as nat < c then b[i] else a[i])
  }

  /**
   What stage 2 makes of a when it has tried the symbols below c: a symbol is overwritten
   exactly when the oracle accepts that after the decisions on all smaller symbols.
   */
  ghost predicate SymbolsTried(accepts: seq<byte> -> bool, a: seq<byte>, b: seq<byte>, c: nat) {
    && |b| == |a|
    && (forall p :: 0 <= p < |a| && a[p] as nat >= c ==> b[p] == a[p])
    && forall p :: 0 <= p < |a| && a[p] as nat < c ==>
         b[p] == if a[p] == ZERO || accepts(Replaced(Below(a, b, a[p] as nat), a[p])) then ZERO else a[p]
  }

  lemma NothingTried(accepts: seq<byte> -> bool, a: seq<byte>)
    ensures SymbolsTried(accepts, a, a, 0) && BytesTried(accepts, a, a, 0)
  {
  }

  lemma SymbolAbsent(accepts: seq<byte> -> bool, a: seq<byte>, b: seq<byte>, c: byte)
    requires SymbolsTried(accepts, a, b, c as nat) && (c == ZERO || c !in a)
    ensures SymbolsTried(accepts, a, b, c as nat + 1)
  {
    hide Replaced, Below;
  }

  lemma SymbolStep(accepts: seq<byte> -> bool, a: seq<byte>, b: seq<byte>, c: byte)
    requires SymbolsTried(accepts, a, b, c as nat) && c != ZERO && c in a
    ensures accepts(Replaced(b, c)) ==> SymbolsTried(accepts, a, Replaced(b, c), c as nat + 1)
    ensures accepts(Replaced(b, c)) ==> Replaced(b, c) != a
    ensures !accepts(Replaced(b, c)) ==> SymbolsTried(accepts, a, b, c as nat + 1)
  {
    assert Below(a, b, c as nat) == b;
    if accepts(Replaced(b, c)) {
      var r := Replaced(b, c);
      forall d: nat | d <= c as nat
        ensures Below(a, r, d) == Below(a, b, d)
      {
      }
      var p :| 0 <= p < |a| && a[p] == c;
      assert r[p] != a[p];
    }
  }

  lemma SymbolsAllTried(accepts: seq<byte> -> bool, a: seq<byte>, b: seq<byte>)
    requires SymbolsTried(accepts, a, b, 256)
    ensures Zeroed(a, b)
    ensures b == a ==> SymbolMinimal(accepts, a)
  {
    if b == a {
      forall s: byte | s != ZERO && s in a
        ensures !accepts(Replaced(a, s))
      {
        var p :| 0 <= p < |a| && a[p] == s;
        assert Below(a, a, s as nat) == a;
        assert b[p] == s;
      }
    }
  }

  /**
   What stage 3 makes of a when it has tried the bytes below i: a byte is overwritten
   exactly when the oracle accepts that after the decisions on all earlier bytes.
   */
  ghost predicate BytesTried(accepts: seq<byte> -> bool, a: seq<byte>, b: seq<byte>, i: nat) {
    && |b| == |a|
    && (forall p :: i <= p < |a| ==> b[p] == a[p])
    && forall p :: 0 <= p < i && p < |a| ==>
         b[p] == if a[p] == ZERO || accepts(b[..p] + [ZERO] + a[p + 1..]) then ZERO else a[p]
  }

  lemma BytesStep(accepts: seq<byte> -> bool, a: seq<byte>, b: seq<byte>, i: nat)
    requires BytesTried(accepts, a, b, i) && i < |a|
    ensures |b| == |a|
    ensures b[i] == ZERO ==> BytesTried(accepts, a, b, i + 1)
    ensures b[i] != ZERO && accepts(b[i := ZERO]) ==> BytesTried(accepts, a, b[i := ZERO], i + 1) && b[i := ZERO] != a
    ensures b[i] != ZERO && !accepts(b[i := ZERO]) ==> BytesTried(accepts, a, b, i + 1)
  {
    assert b[i := ZERO] == b[..i] + [ZERO] + a[i + 1..];
    if b[i] != ZERO && accepts(b[i := ZERO]) {
      var t := b[i := ZERO];
      assert t[i] != a[i];
      forall p | 0 <= p < i + 1
        ensures t[p] == if a[p] == ZERO || accepts(t[..p] + [ZERO] + a[p + 1..]) then ZERO else a[p]
      {
        assert t[..p] == b[..p];
      }
    }
  }

  lemma BytesAllTried(accepts: seq<byte> -> bool, a: seq<byte>, b: seq<byte>)
    requires BytesTried(accepts, a, b, |a|)
    ensures Zeroed(a, b)
    ensures b == a ==> ByteMinimal(accepts, a)
  {
    if b == a {
      forall p | 0 <= p < |a| && a[p] != ZERO
        ensures !accepts(a[p := ZERO])
      {
        assert a[p := ZERO] == b[..p] + [ZERO] + a[p + 1..];
      }
    }
  }

  // ---------------------------------------------------------------- the passes of a run

  /** One pass: the input before it and after each of its three stages. */
  datatype Pass = Pass(start: seq<byte>, deleted: seq<byte>, symbols: seq<byte>, bytes: seq<byte>)

  /** b is what the sweeps make of a. */
  ghost predicate Trimmed(accepts: seq<byte> -> bool, a: seq<byte>, b: seq<byte>) {
    exists n: nat :: FirstLength(n, |a|) && n > 0 && b == Sweeps(accepts, a, n)
  }

  ghost predicate IsPass(accepts: seq<byte> -> bool, p: Pass) {
    && accepts(p.deleted) && Shrunk(p.start, p.deleted) && Trimmed(accepts, p.start, p.deleted)
    && (|p.deleted| < |p.start| || (p.deleted == p.start && BlockMinimal(accepts, p.start)))
    && SymbolsTried(accepts, p.deleted, p.symbols, 256)
    && BytesTried(accepts, p.symbols, p.bytes, |p.symbols|)
  }

  /** b is what stage 0 makes of a. */
  ghost predicate Normalized(accepts: seq<byte> -> bool, a: seq<byte>, b: seq<byte>) {
    exists n: nat :: SetLength(n, |a|) && BlocksTried(accepts, a, b, n, |a|)
  }

  /** The passes a run makes after stage 0; every one but the first deletes something. */
  ghost predicate IsTrail(accepts: seq<byte> -> bool, a: seq<byte>, trail: seq<Pass>) {
    && |trail| > 0 && Normalized(accepts, a, trail[0].start)
    && (forall i :: 0 <= i < |trail| ==> IsPass(accepts, trail[i]))
    && forall i :: 0 < i < |trail| ==>
         trail[i].start == trail[i - 1].bytes && |trail[i].deleted| < |trail[i].start|
  }

  lemma ByBlocks(accepts: seq<byte> -> bool, a: seq<byte>, b: seq<byte>, n: nat)
    requires SetLength(n, |a|) && BlocksTried(accepts, a, b, n, |a|)
    ensures Normalized(accepts, a, b)
  {
  }

  lemma TrimmedBy(accepts: seq<byte> -> bool, a: seq<byte>, b: seq<byte>, n: nat)
    requires FirstLength(n, |a|) && n > 0 && b == Sweeps(accepts, a, n)
    ensures Trimmed(accepts, a, b)
  {
  }

  lemma PassMade(accepts: seq<byte> -> bool, p: Pass)
    requires accepts(p.deleted) && Shrunk(p.start, p.deleted) && Trimmed(accepts, p.start, p.deleted)
    requires |p.deleted| < |p.start| || (p.deleted == p.start && BlockMinimal(accepts, p.start))
    requires SymbolsTried(accepts, p.deleted, p.symbols, 256)
    requires BytesTried(accepts, p.symbols, p.bytes, |p.symbols|)
    ensures IsPass(accepts, p)
  {
  }

  lemma TrailGrows(accepts: seq<byte> -> bool, a: seq<byte>, trail: seq<Pass>, p: Pass)
    requires IsPass(accepts, p)
    requires if trail == [] then Normalized(accepts, a, p.start)
      else IsTrail(accepts, a, trail) && p.start == trail[|trail| - 1].bytes && |p.deleted| < |p.start|
    ensures IsTrail(accepts, a, trail + [p])
  {
    hide Normalized, IsPass;
  }

  lemma LastPass(accepts: seq<byte> -> bool, a: seq<byte>, trail: seq<Pass>)
    requires IsTrail(accepts, a, trail)
    ensures |trail| > 0
    ensures var p := trail[|trail| - 1];
      && (SymbolMinimal(accepts, p.bytes) <==> NoSymbolLeft(accepts, p))
      && (ByteMinimal(accepts, p.bytes) <==> NoByteLeft(accepts, p))
  {
    hide IsPass, SymbolMinimal, ByteMinimal, NoSymbolLeft, NoByteLeft, Normalized;
    LastSymbolStage(accepts, trail[|trail| - 1]);
    LastByteStage(accepts, trail[|trail| - 1]);
  }

  /** No symbol of the result can be overwritten among those after whose turn the last pass overwrote something. */
  ghost predicate NoSymbolLeft(accepts: seq<byte> -> bool, p: Pass) {
    |p.symbols| == |p.deleted| &&
    forall b: byte :: b != ZERO && b in p.bytes && Below(p.deleted, p.symbols, b as nat) != p.bytes ==>
      !accepts(Replaced(p.bytes, b))
  }

  /** No byte of the result can be overwritten among those after which the last byte stage overwrote something. */
  ghost predicate NoByteLeft(accepts: seq<byte> -> bool, p: Pass) {
    |p.symbols| == |p.bytes| &&
    forall i :: 0 <= i < |p.bytes| && p.bytes[i] != ZERO && p.bytes[i + 1..] != p.symbols[i + 1..] ==>
      !accepts(p.bytes[i := ZERO])
  }

  /** Whether any symbol can still be overwritten depends on those tried too early. */
  lemma LastSymbolStage(accepts: seq<byte> -> bool, p: Pass)
    requires IsPass(accepts, p)
    ensures SymbolMinimal(accepts, p.bytes) <==> NoSymbolLeft(accepts, p)
  {
    if NoSymbolLeft(accepts, p) {
      forall s: byte | s != ZERO && s in p.bytes ensures !accepts(Replaced(p.bytes, s)) {
        if Below(p.deleted, p.symbols, s as nat) == p.bytes { SymbolTriedLast(accepts, p, s); }
      }
    }
  }

  lemma SymbolTriedLast(accepts: seq<byte> -> bool, p: Pass, s: byte)
    requires IsPass(accepts, p) && s != ZERO && s in p.bytes
    requires |p.symbols| == |p.deleted| && Below(p.deleted, p.symbols, s as nat) == p.bytes
    ensures !accepts(Replaced(p.bytes, s))
  {
    hide Replaced, Shrunk;
    var a, b, c := p.deleted, p.symbols, p.bytes;
    var i :| 0 <= i < |c| && c[i] == s;
    assert b[i] == s;
    assert Below(a, b, s as nat)[i] == s;
  }

  /** Whether any byte can still be overwritten depends on those tried too early. */
  lemma LastByteStage(accepts: seq<byte> -> bool, p: Pass)
    requires IsPass(accepts, p)
    ensures ByteMinimal(accepts, p.bytes) <==> NoByteLeft(accepts, p)
  {
    var b, c := p.symbols, p.bytes;
    forall i | 0 <= i < |c| && c[i] != ZERO && c[i + 1..] == b[i + 1..] ensures !accepts(c[i := ZERO]) {
      assert c[i := ZERO] == c[..i] + [ZERO] + b[i + 1..];
    }
  }

  /** Which outcome a stage has is settled by the oracle. */
  lemma BytesTriedUnique(accepts: seq<byte> -> bool, a: seq<byte>, b: seq<byte>, c: seq<byte>, i: nat)
    requires BytesTried(accepts, a, b, i) && BytesTried(accepts, a, c, i) && i <= |a|
    ensures b == c
  {
    var p := 0;
    while p < i
      invariant p <= i && b[..p] == c[..p]
    {
      assert b[..p] + [ZERO] + a[p + 1..] == c[..p] + [ZERO] + a[p + 1..];
      assert b[..p + 1] == b[..p] + [b[p]] && c[..p + 1] == c[..p] + [c[p]];
      p := p + 1;
    }
  }

  /** What every changing pass makes smaller. */
  function Weight(s: seq<byte>): nat {
    |s| + NonZero(s)
  }

  lemma ShrunkWeighs(a: seq<byte>, b: seq<byte>)
    requires Shrunk(a, b)
    ensures Reduces(a, b)
    ensures |b| <= |a| ==> Weight(b) <= Weight(a)
    ensures |b| < |a| ==> Weight(b) < Weight(a)
  {
  }

  lemma ZeroedWeighs(a: seq<byte>, b: seq<byte>)
    requires Zeroed(a, b)
    ensures Reduces(a, b) && Weight(b) <= Weight(a) && (a != b ==> Weight(b) < Weight(a))
  {
    ZeroedReduces(a, b);
    ZeroedCounts(a, b);
  }

  /** A deletion stage in a run that began with was. */
  lemma Deleted(was: seq<byte>, a: seq<byte>, b: seq<byte>)
    requires Reduces(was, a) && Shrunk(a, b)
    ensures Reduces(was, b)
    ensures |b| <= |a| ==> Weight(b) <= Weight(a)
    ensures |b| < |a| ==> Weight(b) < Weight(a)
  {
    hide Reduces, NonZero;
    ShrunkWeighs(a, b);
    ReducesTrans(was, a, b);
  }

  /** A replacing stage in a run that began with was. */
  lemma Overwritten(was: seq<byte>, a: seq<byte>, b: seq<byte>)
    requires Reduces(was, a) && Zeroed(a, b)
    ensures Reduces(was, b) && Weight(b) <= Weight(a) && (a != b ==> Weight(b) < Weight(a))
  {
    hide Reduces, NonZero, Zeroed;
    ZeroedWeighs(a, b);
    ReducesTrans(was, a, b);
  }

  lemma NoBlockEnds(accepts: seq<byte> -> bool, s: seq<byte>, n: nat, upto: nat)
    requires NoBlock(accepts, s, n, upto) && upto >= |s|
    ensures NoBlock(accepts, s, n, |s|)
  {
  }

  lemma {:induction false} ReducesRefl(s: seq<byte>)
    ensures Reduces(s, s)
  {
    assert Zeroed(s, s);
    ZeroedReduces(s, s);
  }

  // ---------------------------------------------------------------- a second pass that deletes nothing

  const ABAB: seq<byte> := [0x61, 0x62, 0x61, 0x62]
  const A0AB: seq<byte> := [0x61, ZERO, 0x61, 0x62]
  const ZZAB: seq<byte> := [ZERO, ZERO, 0x61, 0x62]

  /** An oracle that accepts the first byte overwritten only when the second one is. */
  const Picky: seq<byte> -> bool := s => s == ABAB || s == A0AB || s == ZZAB

  /** With this oracle every stage has one outcome, and only the byte stage changes anything. */
  lemma PickyStages(b: seq<byte>)
    ensures Normalized(Picky, ABAB, b) ==> b == ABAB
    ensures SymbolsTried(Picky, ABAB, b, 256) ==> b == ABAB
    ensures BytesTried(Picky, ABAB, b, 4) ==> b == A0AB
    ensures !ByteMinimal(Picky, A0AB)
  {
    PickyBlocks(b);
    PickySymbols(b);
    PickyBytes(b);
    PickyLeft();
  }

  lemma PickyLeft()
    ensures !ByteMinimal(Picky, A0AB)
  {
    assert A0AB[0] == 0x61 && A0AB[0 := ZERO] == ZZAB;
  }

  lemma PickyBlocks(b: seq<byte>)
    ensures Normalized(Picky, ABAB, b) ==> b == ABAB
  {
    if n: nat :| SetLength(n, 4) && BlocksTried(Picky, ABAB, b, n, 4) {
      DivModUnique(0, n, 0, 0);
      assert BlockTried(Picky, ABAB, b, n, 0);
      PickyRejects(ZeroedBlock(b[..0] + ABAB[0..], 0, n));
      SameFour(b);
    }
  }

  lemma PickyRejects(s: seq<byte>)
    ensures |s| != 4 || s[2] != 0x61 || s[3] != 0x62 ==> !Picky(s)
  {
    assert ABAB[2] == A0AB[2] == ZZAB[2] == 0x61 && ABAB[3] == A0AB[3] == ZZAB[3] == 0x62;
  }

  lemma SameFour(b: seq<byte>)
    requires |b| == 4 && b[0] == ABAB[0] && b[1] == ABAB[1] && b[2] == ABAB[2] && b[3] == ABAB[3]
    ensures b == ABAB
  {
  }

  lemma PickySymbols(b: seq<byte>)
    ensures SymbolsTried(Picky, ABAB, b, 256) ==> b == ABAB
  {
    if SymbolsTried(Picky, ABAB, b, 256) {
      PickySymbol(b, 0);
      PickySymbol(b, 1);
      PickySymbol(b, 2);
      PickySymbol(b, 3);
      assert |b| == 4;
      hide *;
      SameFour(b);
    }
  }

  lemma PickySymbol(b: seq<byte>, i: nat)
    requires SymbolsTried(Picky, ABAB, b, 256) && i < 4
    ensures b[i] == ABAB[i]
  {
    hide Picky;
    PickyReplaced(Below(ABAB, b, ABAB[i] as nat), b, ABAB[i]);
  }

  lemma PickyReplaced(x: seq<byte>, b: seq<byte>, c: byte)
    requires |b| == 4 && (c == 0x61 || c == 0x62) && x == Below(ABAB, b, c as nat)
    ensures !Picky(Replaced(x, c))
  {
    var r := Replaced(x, c);
    assert |r| == 4 && ABAB[2] == 0x61 && ABAB[3] == 0x62;
    assert if c == 0x61 then r[2] == ZERO else r[3] == ZERO;
    hide *;
    PickyRejects(r);
  }

  lemma PickyBytes(b: seq<byte>)
    ensures BytesTried(Picky, ABAB, b, 4) ==> b == A0AB
  {
    if BytesTried(Picky, ABAB, b, 4) {
      assert b[..0] + [ZERO] + ABAB[1..] == [ZERO, 0x62, 0x61, 0x62];
      assert !Picky([ZERO, 0x62, 0x61, 0x62]) by {
        assert ABAB[0] != ZERO && A0AB[0] != ZERO && ZZAB[1] != 0x62;
      }
      assert b[0] == A0AB[0];
      assert b[..1] + [ZERO] + ABAB[2..] == A0AB && Picky(A0AB);
      assert b[1] == A0AB[1];
      PickyRejects(b[..2] + [ZERO] + ABAB[3..]);
      PickyRejects(b[..3] + [ZERO] + ABAB[4..]);
      assert b[2] == A0AB[2] && b[3] == A0AB[3];
    }
  }

  /** A run of two passes whose result has a byte that could be overwritten. */
  method SecondPassRun() returns (result: seq<byte>, passes: nat)
    ensures result == A0AB && passes == 2 && !ByteMinimal(Picky, result)
  {
    hide Normalized, SymbolsTried, BytesTried, BlockMinimal, OneMinimal, SymbolMinimal, ByteMinimal, NoSymbolLeft,
      NoByteLeft, Reduces, NonZero;
    var input := new byte[4](i requires 0 <= i < 4 => ABAB[i]);
    assert input[..] == ABAB;
    var tc := new TestCase(Picky, input);
    ghost var trail;
    passes, trail := tc.Minimize();
    PickyTrail(trail);
    result := input[..tc.inLen];
  }

  lemma PickyTrail(trail: seq<Pass>)
    requires IsTrail(Picky, ABAB, trail)
    ensures |trail| == 1 && trail[0].start == ABAB && trail[0].bytes == A0AB && !ByteMinimal(Picky, A0AB)
  {
    hide Normalized, SymbolsTried, BytesTried, BlockMinimal, ByteMinimal, Reduces, NonZero, Shrunk;
    var p := trail[0];
    assert IsPass(Picky, p);
    PickyStages(p.start);
    PickyStages(p.symbols);
    PickyStages(p.bytes);
    forall i | 0 <= i < |trail| ensures |trail[i].deleted| == 4 { PickyPass(trail[i]); }
    SecondDeletes(trail);
  }

  lemma SecondDeletes(trail: seq<Pass>)
    requires IsTrail(Picky, ABAB, trail)
    ensures |trail| > 1 ==> |trail[1].deleted| < |trail[0].bytes|
  {
    hide Normalized, IsPass;
  }

  lemma PickyPass(p: Pass)
    requires IsPass(Picky, p)
    ensures |p.deleted| == 4
  {
    PickyRejects(p.deleted);
  }
}
