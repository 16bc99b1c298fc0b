/**
 AFL's dictionary stages: every token is written over, or inserted at, every position of
 the input, without restoring the buffer between the tokens of one position.
 */
module Dictionary {
  import opened Bits

  /** One execution: where which token went, and the buffer the target got. */
  datatype Run = Run(at: nat, token: nat, buffer: seq<byte>)

  /** orig with t written over it at i. */
  function Overwritten(orig: seq<byte>, i: nat, t: seq<byte>): seq<byte>
    requires i + |t| <= |orig|
  {
    orig[..i] + t + orig[i + |t|..]
  }

  function Inserted(orig: seq<byte>, i: nat, t: seq<byte>): seq<byte>
    requires i <= |orig|
  {
    orig[..i] + t + orig[i..]
  }

  ghost predicate SortedByLength(ts: seq<seq<byte>>) {
    forall j, k :: 0 <= j <= k < |ts| ==> |ts[j]| <= |ts[k]|
  }

  /** The executions of position i from token j on, when the buffer shows buf before them. */
  function Writes(orig: seq<byte>, ts: seq<seq<byte>>, skip: (nat, nat) -> bool, i: nat, j: nat,
                  buf: seq<byte>): seq<Run>
    decreases |ts| - j
  {
    if j >= |ts| then []
    else if i + |ts[j]| > |orig| || i + |ts[j]| > |buf| || skip(i, j) || buf[i..i + |ts[j]|] == ts[j] then
      Writes(orig, ts, skip, i, j + 1, buf)
    else
      var b := Overwritten(orig, i, ts[j]);
      [Run(i, j, b)] + Writes(orig, ts, skip, i, j + 1, b)
  }

  /** The executions of all positions from i on, each starting with the original. */
  function AllWrites(orig: seq<byte>, ts: seq<seq<byte>>, skip: (nat, nat) -> bool, i: nat): seq<Run>
    decreases |orig| - i
  {
    if i >= |orig| then [] else Writes(orig, ts, skip, i, 0, orig) + AllWrites(orig, ts, skip, i + 1)
  }

  /** Every token that fits, from token j at position i on. */
  function Inserts(orig: seq<byte>, ts: seq<seq<byte>>, maxFile: nat, i: nat, j: nat): seq<Run>
    decreases |orig| + 1 - i, |ts| - j
  {
    if i > |orig| then []
    else if j >= |ts| then Inserts(orig, ts, maxFile, i + 1, 0)
    else if |orig| + |ts[j]| > maxFile then Inserts(orig, ts, maxFile, i, j + 1)
    else [Run(i, j, Inserted(orig, i, ts[j]))] + Inserts(orig, ts, maxFile, i, j + 1)
  }

  /** The executions are the planned ones in their order, up to the one after which the entry is abandoned. */
  ghost predicate Follows(runs: seq<Run>, plan: seq<Run>, stop: nat -> bool, abandoned: bool) {
    && |runs| <= |plan| && runs == plan[..|runs|]
    && (!abandoned ==> runs == plan && GoesOn(stop, 0, |runs|))
    && (abandoned ==> |runs| > 0 && stop(|runs|) && GoesOn(stop, 0, |runs| - 1))
  }

  lemma FollowsAll(runs: seq<Run>, plan: seq<Run>, stop: nat -> bool)
    requires runs + [] == plan && GoesOn(stop, 0, |runs|)
    ensures Follows(runs, plan, stop, false)
  {
  }

  lemma FollowsSome(runs: seq<Run>, rest: seq<Run>, plan: seq<Run>, stop: nat -> bool)
    requires runs + rest == plan && |runs| > 0 && stop(|runs|) && GoesOn(stop, 0, |runs| - 1)
    ensures Follows(runs, plan, stop, true)
  {
  }

  /** The entry was abandoned after none of the executions from the n-th on. */
  ghost predicate GoesOn(stop: nat -> bool, from: nat, to: nat) {
    forall k: nat :: from < k <= to ==> !stop(k)
  }

  // ---------------------------------------------------------------- overwriting

  /** The token can be tried: there is room, and neither chance nor the effector map skips it. */
  ghost predicate Eligible(orig: seq<byte>, ts: seq<seq<byte>>, skip: (nat, nat) -> bool, i: nat, j: nat) {
    j < |ts| && i + |ts[j]| <= |orig| && !skip(i, j)
  }

  /** Every run executes the original with one eligible token written over it. */
  ghost predicate Faithful(orig: seq<byte>, ts: seq<seq<byte>>, skip: (nat, nat) -> bool, runs: seq<Run>) {
    forall r :: r in runs ==>
      Eligible(orig, ts, skip, r.at, r.token) && r.buffer == Overwritten(orig, r.at, ts[r.token])
  }

  ghost predicate Executed(runs: seq<Run>, i: nat, b: seq<byte>) {
    exists r :: r in runs && r.at == i && r.buffer == b
  }

  /** What an eligible token makes of the original was executed at its position, or is the original. */
  ghost predicate TriedAt(orig: seq<byte>, ts: seq<seq<byte>>, skip: (nat, nat) -> bool, runs: seq<Run>, i: nat,
                          n: nat) {
    forall j: nat :: j < n && Eligible(orig, ts, skip, i, j) ==>
      Overwritten(orig, i, ts[j]) == orig || Executed(runs, i, Overwritten(orig, i, ts[j]))
  }

  ghost predicate TriedBelow(orig: seq<byte>, ts: seq<seq<byte>>, skip: (nat, nat) -> bool, runs: seq<Run>, i: nat) {
    forall k: nat :: k < i ==> TriedAt(orig, ts, skip, runs, k, |ts|)
  }

  /** The buffer between two tokens of position i: the original, or the last execution of this position. */
  ghost predicate BufferAt(orig: seq<byte>, ts: seq<seq<byte>>, runs: seq<Run>, i: nat, j: nat, buf: seq<byte>,
                           lastLen: nat) {
    && i + lastLen <= |orig| && |buf| == |orig|
    && (forall k :: j <= k < |ts| ==> lastLen <= |ts[k]|)
    && (forall k :: 0 <= k < |orig| && !(i <= k < i + lastLen) ==> buf[k] == orig[k])
    && (buf == orig || Executed(runs, i, buf))
  }

  lemma WritesStep(orig: seq<byte>, ts: seq<seq<byte>>, skip: (nat, nat) -> bool, i: nat, j: nat, buf: seq<byte>,
                   before: seq<Run>)
    requires j < |ts| && |buf| == |orig|
    ensures if i + |ts[j]| > |orig| || skip(i, j) || buf[i..i + |ts[j]|] == ts[j] then
        Writes(orig, ts, skip, i, j, buf) == Writes(orig, ts, skip, i, j + 1, buf)
      else
        var b := Overwritten(orig, i, ts[j]);
        before + Writes(orig, ts, skip, i, j, buf) == before + [Run(i, j, b)] + Writes(orig, ts, skip, i, j + 1, b)
  {
    hide Overwritten;
    if !(i + |ts[j]| > |orig| || skip(i, j) || buf[i..i + |ts[j]|] == ts[j]) {
      var b := Overwritten(orig, i, ts[j]);
      var rest := Writes(orig, ts, skip, i, j + 1, b);
      assert before + ([Run(i, j, b)] + rest) == before + [Run(i, j, b)] + rest;
    }
  }

  lemma WritesEnd(orig: seq<byte>, ts: seq<seq<byte>>, skip: (nat, nat) -> bool, i: nat, buf: seq<byte>)
    ensures Writes(orig, ts, skip, i, |ts|, buf) == []
  {
  }

  lemma GoesOnMore(stop: nat -> bool, n: nat)
    requires GoesOn(stop, 0, n) && !stop(n + 1)
    ensures GoesOn(stop, 0, n + 1)
  {
  }

  /** Writing a longer token covers the shorter one before it completely. */
  lemma WriteCovers(orig: seq<byte>, ts: seq<seq<byte>>, runs: seq<Run>, i: nat, j: nat, buf: seq<byte>, lastLen: nat)
    requires BufferAt(orig, ts, runs, i, j, buf, lastLen) && j < |ts| && i + |ts[j]| <= |orig|
    ensures Overwritten(buf, i, ts[j]) == Overwritten(orig, i, ts[j])
  {
  }

  lemma WriteStep(orig: seq<byte>, ts: seq<seq<byte>>, skip: (nat, nat) -> bool, runs: seq<Run>, i: nat, j: nat,
                  buf: seq<byte>, lastLen: nat)
    requires SortedByLength(ts) && Faithful(orig, ts, skip, runs) && TriedBelow(orig, ts, skip, runs, i) &&
      TriedAt(orig, ts, skip, runs, i, j)
    requires BufferAt(orig, ts, runs, i, j, buf, lastLen) && j < |ts| && i + |ts[j]| <= |orig| && !skip(i, j)
    ensures var b := Overwritten(orig, i, ts[j]);
      var now := runs + [Run(i, j, b)];
      && Faithful(orig, ts, skip, now) && TriedBelow(orig, ts, skip, now, i) && TriedAt(orig, ts, skip, now, i, j + 1)
      && BufferAt(orig, ts, now, i, j + 1, b, |ts[j]|)
  {
    var b := Overwritten(orig, i, ts[j]);
    var now := runs + [Run(i, j, b)];
    MoreRuns(runs, Run(i, j, b));
    assert Executed(now, i, b) by { assert Run(i, j, b) in now; }
    forall k: nat | k < i ensures TriedAt(orig, ts, skip, now, k, |ts|) {
      assert TriedAt(orig, ts, skip, runs, k, |ts|);
    }
  }

  lemma MoreRuns(runs: seq<Run>, r: Run)
    ensures forall i, b :: Executed(runs, i, b) ==> Executed(runs + [r], i, b)
    ensures forall x :: x in runs + [r] <==> x in runs || x == r
  {
    forall i, b | Executed(runs, i, b) ensures Executed(runs + [r], i, b) {
      var x :| x in runs && x.at == i && x.buffer == b;
      assert x in runs + [r];
    }
  }

  /** A token that is skipped because the buffer shows it already would reproduce the buffer. */
  lemma RedundantStep(orig: seq<byte>, ts: seq<seq<byte>>, skip: (nat, nat) -> bool, runs: seq<Run>, i: nat, j: nat,
                      buf: seq<byte>, lastLen: nat)
    requires TriedAt(orig, ts, skip, runs, i, j) && BufferAt(orig, ts, runs, i, j, buf, lastLen) && j < |ts|
    requires Eligible(orig, ts, skip, i, j) ==> buf[i..i + |ts[j]|] == ts[j]
    ensures TriedAt(orig, ts, skip, runs, i, j + 1) && BufferAt(orig, ts, runs, i, j + 1, buf, lastLen)
  {
    if Eligible(orig, ts, skip, i, j) {
      WriteCovers(orig, ts, runs, i, j, buf, lastLen);
      assert Overwritten(buf, i, ts[j]) == buf;
    }
  }

  /** `memcpy` of a token. */
  method CopyToken(buf: array<byte>, i: nat, t: seq<byte>)
    requires i + |t| <= buf.Length
    modifies buf
    ensures buf[..] == Overwritten(old(buf[..]), i, t)
  {
    forall k | i <= k < i + |t| {
      buf[k] := t[k - i];
    }
  }

  /**
   The overwrite stage over tokens sorted by length. Each execution gets exactly the
   original with one token over it; whatever token is passed over, what it would have
   made is the original or was executed at the same position; each position ends with
   the original in the buffer. `stop` tells after which execution the entry is abandoned.
   */
  method OverwriteStage(inBuf: seq<byte>, outBuf: array<byte>, extras: seq<seq<byte>>,
                        skip: (nat, nat) -> bool, stop: nat -> bool)
      returns (runs: seq<Run>, abandoned: bool)
    requires outBuf[..] == inBuf && SortedByLength(extras)
    modifies outBuf
    ensures Faithful(inBuf, extras, skip, runs)
    ensures !abandoned ==> outBuf[..] == inBuf && TriedBelow(inBuf, extras, skip, runs, |inBuf|)
    ensures abandoned ==> |runs| > 0 && stop(|runs|) && outBuf[..] == runs[|runs| - 1].buffer
    ensures Follows(runs, AllWrites(inBuf, extras, skip, 0), stop, abandoned)
  {
    hide Writes, AllWrites, Follows, GoesOn;
    ghost var plan := AllWrites(inBuf, extras, skip, 0);
    runs, abandoned := [], false;
    assert [] + plan == plan;
    NoneYet(stop);
    for i := 0 to |inBuf|
      invariant outBuf[..] == inBuf && Faithful(inBuf, extras, skip, runs) && TriedBelow(inBuf, extras, skip, runs, i)
      invariant runs + AllWrites(inBuf, extras, skip, i) == plan && GoesOn(stop, 0, |runs|)
    {
      hide Faithful, TriedBelow;
      AllWritesStep(inBuf, extras, skip, i, runs);
      ghost var rest;
      runs, abandoned, rest := OverwriteAt(inBuf, outBuf, extras, skip, stop, i, runs);
      if abandoned {
        ghost var later := AllWrites(inBuf, extras, skip, i + 1);
        assert runs + rest + later == runs + (rest + later);
        FollowsSome(runs, rest + later, plan, stop);
        return;
      }
      assert runs + rest == runs;
      TriedNext(inBuf, extras, skip, runs, i);
    }
    AllWritesEnd(inBuf, extras, skip);
    FollowsAll(runs, plan, stop);
  }

  lemma NoneYet(stop: nat -> bool)
    ensures GoesOn(stop, 0, 0)
  {
  }

  lemma AllWritesStep(orig: seq<byte>, ts: seq<seq<byte>>, skip: (nat, nat) -> bool, i: nat, before: seq<Run>)
    requires i < |orig|
    ensures before + AllWrites(orig, ts, skip, i) ==
      before + Writes(orig, ts, skip, i, 0, orig) + AllWrites(orig, ts, skip, i + 1)
  {
    hide Writes;
    var a, b := Writes(orig, ts, skip, i, 0, orig), AllWrites(orig, ts, skip, i + 1);
    assert before + (a + b) == before + a + b;
  }

  lemma AllWritesEnd(orig: seq<byte>, ts: seq<seq<byte>>, skip: (nat, nat) -> bool)
    ensures AllWrites(orig, ts, skip, |orig|) == []
  {
  }

  lemma TriedNext(orig: seq<byte>, ts: seq<seq<byte>>, skip: (nat, nat) -> bool, runs: seq<Run>, i: nat)
    requires TriedBelow(orig, ts, skip, runs, i) && TriedAt(orig, ts, skip, runs, i, |ts|)
    ensures TriedBelow(orig, ts, skip, runs, i + 1)
  {
    hide TriedAt;
  }

  /** The body of the outer loop: all tokens at position i. */
  method OverwriteAt(inBuf: seq<byte>, outBuf: array<byte>, extras: seq<seq<byte>>,
                     skip: (nat, nat) -> bool, stop: nat -> bool, i: nat, before: seq<Run>)
      returns (runs: seq<Run>, abandoned: bool, ghost rest: seq<Run>)
    requires outBuf[..] == inBuf && SortedByLength(extras) && i < |inBuf| && GoesOn(stop, 0, |before|)
    requires Faithful(inBuf, extras, skip, before) && TriedBelow(inBuf, extras, skip, before, i)
    modifies outBuf
    ensures Faithful(inBuf, extras, skip, runs) && TriedBelow(inBuf, extras, skip, runs, i)
    ensures !abandoned ==> outBuf[..] == inBuf && TriedAt(inBuf, extras, skip, runs, i, |extras|)
    ensures abandoned ==> |runs| > 0 && stop(|runs|) && outBuf[..] == runs[|runs| - 1].buffer
    ensures runs + rest == before + Writes(inBuf, extras, skip, i, 0, inBuf)
    ensures !abandoned ==> rest == [] && GoesOn(stop, 0, |runs|)
    ensures abandoned ==> GoesOn(stop, 0, |runs| - 1)
  {
    hide Writes, GoesOn;
    runs, abandoned, rest := before, false, [];
    ghost var plan := before + Writes(inBuf, extras, skip, i, 0, inBuf);
    var lastLen: nat := 0;
    AtStart(inBuf, extras, skip, runs, i);
    for j := 0 to |extras|
      invariant Faithful(inBuf, extras, skip, runs) && TriedBelow(inBuf, extras, skip, runs, i)
      invariant TriedAt(inBuf, extras, skip, runs, i, j) && BufferAt(inBuf, extras, runs, i, j, outBuf[..], lastLen)
      invariant runs + Writes(inBuf, extras, skip, i, j, outBuf[..]) == plan && GoesOn(stop, 0, |runs|)
    {
      hide Faithful, TriedBelow, TriedAt, BufferAt, Overwritten;
      BufferSize(inBuf, extras, runs, i, j, outBuf[..], lastLen);
      WritesStep(inBuf, extras, skip, i, j, outBuf[..], runs);
      if |extras[j]| > |inBuf| - i || skip(i, j) || outBuf[..][i..i + |extras[j]|] == extras[j] {
        RedundantStep(inBuf, extras, skip, runs, i, j, outBuf[..], lastLen);
        continue;
      }
      WriteCovers(inBuf, extras, runs, i, j, outBuf[..], lastLen);
      WriteStep(inBuf, extras, skip, runs, i, j, outBuf[..], lastLen);
      lastLen := |extras[j]|;
      CopyToken(outBuf, i, extras[j]);
      runs := runs + [Run(i, j, outBuf[..])];
      if stop(|runs|) {
        abandoned, rest := true, Writes(inBuf, extras, skip, i, j + 1, outBuf[..]);
        return;
      }
      GoesOnMore(stop, |runs| - 1);
    }
    WritesEnd(inBuf, extras, skip, i, outBuf[..]);
    assert runs + [] == runs;
    RestoreBuffer(inBuf, extras, runs, i, |extras|, outBuf[..], lastLen);
    CopyToken(outBuf, i, inBuf[i..i + lastLen]);
  }

  lemma AtStart(orig: seq<byte>, ts: seq<seq<byte>>, skip: (nat, nat) -> bool, runs: seq<Run>, i: nat)
    requires i < |orig|
    ensures TriedAt(orig, ts, skip, runs, i, 0) && BufferAt(orig, ts, runs, i, 0, orig, 0)
  {
  }

  lemma BufferSize(orig: seq<byte>, ts: seq<seq<byte>>, runs: seq<Run>, i: nat, j: nat, buf: seq<byte>, lastLen: nat)
    requires BufferAt(orig, ts, runs, i, j, buf, lastLen)
    ensures |buf| == |orig|
  {
  }

  /** Copying back as many bytes as the last token had restores the original. */
  lemma RestoreBuffer(orig: seq<byte>, ts: seq<seq<byte>>, runs: seq<Run>, i: nat, j: nat, buf: seq<byte>, lastLen: nat)
    requires BufferAt(orig, ts, runs, i, j, buf, lastLen)
    ensures |buf| == |orig| && i + lastLen <= |orig|
    ensures Overwritten(buf, i, orig[i..i + lastLen]) == orig
  {
  }

  /** Without the order of lengths an execution can mix two tokens. */
  lemma UnsortedMixes()
    ensures var orig, long, short := [0 as byte, 0, 0], [1 as byte, 2], [3 as byte];
      Overwritten(Overwritten(orig, 0, long), 0, short) != Overwritten(orig, 0, short)
  {
    var orig, long, short := [0 as byte, 0, 0], [1 as byte, 2], [3 as byte];
    assert Overwritten(Overwritten(orig, 0, long), 0, short)[1] == 2;
    assert Overwritten(orig, 0, short)[1] == 0;
  }

  /** Writing b over a leaves nothing of a, whatever they are, exactly when b is long enough or shows what follows. */
  lemma CoveredIff(orig: seq<byte>, i: nat, a: seq<byte>, b: seq<byte>)
    requires i + |a| <= |orig| && i + |b| <= |orig|
    ensures Overwritten(Overwritten(orig, i, a), i, b) == Overwritten(orig, i, b) <==>
      |a| <= |b| || a[|b|..] == orig[i + |b|..i + |a|]
  {
    var x, y := Overwritten(Overwritten(orig, i, a), i, b), Overwritten(orig, i, b);
    forall k | 0 <= k < |orig| && !(i + |b| <= k < i + |a|) ensures x[k] == y[k] {
    }
    forall k | i + |b| <= k < i + |a| ensures x[k] == a[k - i] && y[k] == orig[k] {
    }
    if |a| > |b| {
      var p, q := a[|b|..], orig[i + |b|..i + |a|];
      assert |p| == |q|;
      assert forall k :: 0 <= k < |p| ==> p[k] == x[i + |b| + k] && q[k] == y[i + |b| + k];
      if x == y { assert p == q; }
      if p == q {
        forall k | i + |b| <= k < i + |a| ensures x[k] == y[k] { assert p[k - i - |b|] == q[k - i - |b|]; }
        assert x == y;
      }
    } else {
      assert x == y;
    }
  }

  // ---------------------------------------------------------------- inserting

  /** The insertion stage: the head grows byte by byte, token and tail are written behind it. */
  method InsertStage(outBuf: seq<byte>, extras: seq<seq<byte>>, maxFile: nat, stop: nat -> bool, exTmp: array<byte>)
      returns (runs: seq<Run>, abandoned: bool)
    requires forall j :: 0 <= j < |extras| ==> |outBuf| + |extras[j]| <= exTmp.Length
    requires exTmp.Length > |outBuf|
    modifies exTmp
    ensures forall r :: r in runs ==> InsertedRun(outBuf, extras, maxFile, r)
    ensures !abandoned ==> forall i: nat, j: nat ::
      i <= |outBuf| && j < |extras| && |outBuf| + |extras[j]| <= maxFile ==>
        Run(i, j, Inserted(outBuf, i, extras[j])) in runs
    ensures Follows(runs, Inserts(outBuf, extras, maxFile, 0, 0), stop, abandoned)
  {
    hide Inserts, Follows, GoesOn, InsertedRun, InsertedAt;
    ghost var plan := Inserts(outBuf, extras, maxFile, 0, 0);
    runs, abandoned := [], false;
    assert [] + plan == plan;
    NoneYet(stop);
    for i := 0 to |outBuf| + 1
      invariant runs + Inserts(outBuf, extras, maxFile, i, 0) == plan && GoesOn(stop, 0, |runs|)
      invariant i <= |outBuf| ==> exTmp[..i] == outBuf[..i]
      invariant forall r :: r in runs ==> InsertedRun(outBuf, extras, maxFile, r)
      invariant forall k: nat :: k < i ==> InsertedAt(outBuf, extras, maxFile, runs, k, |extras|)
    {
      ghost var was := runs;
      runs, abandoned := InsertAt(outBuf, extras, maxFile, stop, exTmp, i, runs, plan);
      if abandoned {
        FollowsCut(runs, plan, stop);
        return;
      }
      InsertedStill(outBuf, extras, maxFile, was, runs, i);
      InsertsNext(outBuf, extras, maxFile, i);
      if i < |outBuf| {
        exTmp[i] := outBuf[i];
        assert exTmp[..i + 1] == exTmp[..i] + [outBuf[i]];
      }
    }
    InsertsEnd(outBuf, extras, maxFile);
    FollowsAll(runs, plan, stop);
    AllInserted(outBuf, extras, maxFile, runs);
  }

  /** The body of the outer loop: all tokens at position i. */
  method InsertAt(outBuf: seq<byte>, extras: seq<seq<byte>>, maxFile: nat, stop: nat -> bool, exTmp: array<byte>,
                  i: nat, before: seq<Run>, ghost plan: seq<Run>) returns (runs: seq<Run>, abandoned: bool)
    requires forall j :: 0 <= j < |extras| ==> |outBuf| + |extras[j]| <= exTmp.Length
    requires exTmp.Length > |outBuf| && i <= |outBuf| && exTmp[..i] == outBuf[..i]
    requires forall r :: r in before ==> InsertedRun(outBuf, extras, maxFile, r)
    requires before + Inserts(outBuf, extras, maxFile, i, 0) == plan && GoesOn(stop, 0, |before|)
    modifies exTmp
    ensures exTmp[..i] == outBuf[..i]
    ensures forall r :: r in runs ==> InsertedRun(outBuf, extras, maxFile, r)
    ensures forall r :: r in before ==> r in runs
    ensures !abandoned ==> runs + Inserts(outBuf, extras, maxFile, i, |extras|) == plan && GoesOn(stop, 0, |runs|)
    ensures !abandoned ==> InsertedAt(outBuf, extras, maxFile, runs, i, |extras|)
    ensures abandoned ==> |runs| <= |plan| && runs == plan[..|runs|]
    ensures abandoned ==> |runs| > 0 && stop(|runs|) && GoesOn(stop, 0, |runs| - 1)
  {
    hide Inserts, GoesOn, InsertedRun, InsertedAt;
    runs, abandoned := before, false;
    NothingInserted(outBuf, extras, maxFile, runs, i);
    for j := 0 to |extras|
      invariant exTmp[..i] == outBuf[..i]
      invariant runs + Inserts(outBuf, extras, maxFile, i, j) == plan && GoesOn(stop, 0, |runs|)
      invariant forall r :: r in before ==> r in runs
      invariant forall r :: r in runs ==> InsertedRun(outBuf, extras, maxFile, r)
      invariant InsertedAt(outBuf, extras, maxFile, runs, i, j)
    {
      InsertsStep(outBuf, extras, maxFile, i, j, runs);
      InsertedMore(outBuf, extras, maxFile, runs, i, j);
      if |outBuf| + |extras[j]| > maxFile { continue; }
      CopyToken(exTmp, i, extras[j]);
      CopyToken(exTmp, i + |extras[j]|, outBuf[i..]);
      var n := |outBuf| + |extras[j]|;
      assert exTmp[..n] == Inserted(outBuf, i, extras[j]) by { BuiltUp(exTmp[..], outBuf, i, extras[j]); }
      runs := runs + [Run(i, j, exTmp[..n])];
      InsertedOne(outBuf, extras, maxFile, i, j);
      if stop(|runs|) {
        abandoned := true;
        return;
      }
      GoesOnMore(stop, |runs| - 1);
    }
  }

  /** The first n tokens that fit have been tried at position i. */
  ghost predicate InsertedAt(orig: seq<byte>, ts: seq<seq<byte>>, maxFile: nat, runs: seq<Run>, i: nat, n: nat)
    requires i <= |orig|
  {
    forall j: nat :: j < n && j < |ts| && |orig| + |ts[j]| <= maxFile ==> Run(i, j, Inserted(orig, i, ts[j])) in runs
  }

  lemma NothingInserted(orig: seq<byte>, ts: seq<seq<byte>>, maxFile: nat, runs: seq<Run>, i: nat)
    requires i <= |orig|
    ensures InsertedAt(orig, ts, maxFile, runs, i, 0)
  {
  }

  lemma InsertedMore(orig: seq<byte>, ts: seq<seq<byte>>, maxFile: nat, runs: seq<Run>, i: nat, j: nat)
    requires i <= |orig| && j < |ts| && InsertedAt(orig, ts, maxFile, runs, i, j)
    ensures |orig| + |ts[j]| > maxFile ==> InsertedAt(orig, ts, maxFile, runs, i, j + 1)
    ensures InsertedAt(orig, ts, maxFile, runs + [Run(i, j, Inserted(orig, i, ts[j]))], i, j + 1)
  {
    hide Inserted;
    var now := runs + [Run(i, j, Inserted(orig, i, ts[j]))];
    assert now[|runs|] == Run(i, j, Inserted(orig, i, ts[j]));
    forall k: nat | k < j + 1 && |orig| + |ts[k]| <= maxFile ensures Run(i, k, Inserted(orig, i, ts[k])) in now {
      if k < j { assert Run(i, k, Inserted(orig, i, ts[k])) in runs; }
    }
  }

  lemma InsertedStill(orig: seq<byte>, ts: seq<seq<byte>>, maxFile: nat, was: seq<Run>, runs: seq<Run>, i: nat)
    requires i <= |orig| && (forall r :: r in was ==> r in runs)
    requires forall k: nat :: k < i ==> InsertedAt(orig, ts, maxFile, was, k, |ts|)
    ensures forall k: nat :: k < i ==> InsertedAt(orig, ts, maxFile, runs, k, |ts|)
  {
    hide Inserted;
    forall k: nat | k < i ensures InsertedAt(orig, ts, maxFile, runs, k, |ts|) {
      assert InsertedAt(orig, ts, maxFile, was, k, |ts|);
    }
  }

  lemma AllInserted(orig: seq<byte>, ts: seq<seq<byte>>, maxFile: nat, runs: seq<Run>)
    requires forall k: nat :: k < |orig| + 1 ==> InsertedAt(orig, ts, maxFile, runs, k, |ts|)
    ensures forall i: nat, j: nat :: i <= |orig| && j < |ts| && |orig| + |ts[j]| <= maxFile ==>
      Run(i, j, Inserted(orig, i, ts[j])) in runs
  {
    hide Inserted;
    forall i: nat, j: nat | i <= |orig| && j < |ts| && |orig| + |ts[j]| <= maxFile
      ensures Run(i, j, Inserted(orig, i, ts[j])) in runs
    {
      assert InsertedAt(orig, ts, maxFile, runs, i, |ts|);
    }
  }

  lemma FollowsCut(runs: seq<Run>, plan: seq<Run>, stop: nat -> bool)
    requires |runs| <= |plan| && runs == plan[..|runs|]
    requires |runs| > 0 && stop(|runs|) && GoesOn(stop, 0, |runs| - 1)
    ensures Follows(runs, plan, stop, true)
  {
  }

  lemma InsertsStep(orig: seq<byte>, ts: seq<seq<byte>>, maxFile: nat, i: nat, j: nat, before: seq<Run>)
    requires i <= |orig| && j < |ts|
    ensures |orig| + |ts[j]| > maxFile ==>
      Inserts(orig, ts, maxFile, i, j) == Inserts(orig, ts, maxFile, i, j + 1)
    ensures |orig| + |ts[j]| <= maxFile ==>
      before + Inserts(orig, ts, maxFile, i, j) ==
      before + [Run(i, j, Inserted(orig, i, ts[j]))] + Inserts(orig, ts, maxFile, i, j + 1)
  {
    hide Inserted;
    if |orig| + |ts[j]| <= maxFile {
      var r, rest := Run(i, j, Inserted(orig, i, ts[j])), Inserts(orig, ts, maxFile, i, j + 1);
      assert before + ([r] + rest) == before + [r] + rest;
    }
  }

  lemma InsertsNext(orig: seq<byte>, ts: seq<seq<byte>>, maxFile: nat, i: nat)
    requires i <= |orig|
    ensures Inserts(orig, ts, maxFile, i, |ts|) == Inserts(orig, ts, maxFile, i + 1, 0)
  {
  }

  lemma InsertsEnd(orig: seq<byte>, ts: seq<seq<byte>>, maxFile: nat)
    ensures Inserts(orig, ts, maxFile, |orig| + 1, 0) == []
  {
  }

  ghost predicate InsertedRun(orig: seq<byte>, ts: seq<seq<byte>>, maxFile: nat, r: Run) {
    && r.token < |ts| && r.at <= |orig| && |orig| + |ts[r.token]| <= maxFile
    && r.buffer == Inserted(orig, r.at, ts[r.token])
  }

  lemma InsertedOne(orig: seq<byte>, ts: seq<seq<byte>>, maxFile: nat, i: nat, j: nat)
    requires j < |ts| && i <= |orig| && |orig| + |ts[j]| <= maxFile
    ensures InsertedRun(orig, ts, maxFile, Run(i, j, Inserted(orig, i, ts[j])))
  {
  }

  lemma BuiltUp(buf: seq<byte>, orig: seq<byte>, i: nat, t: seq<byte>)
    requires i <= |orig| && |orig| + |t| <= |buf|
    requires buf[..i] == orig[..i] && buf[i..i + |t|] == t && buf[i + |t|..|orig| + |t|] == orig[i..]
    ensures buf[..|orig| + |t|] == Inserted(orig, i, t)
  {
    var n := |orig| + |t|;
    assert buf[..n] == buf[..i] + buf[i..i + |t|] + buf[i + |t|..n];
  }
}
