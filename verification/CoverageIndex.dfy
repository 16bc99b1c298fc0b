/**
 AFL's index of the best queue entry for every coverage slot, and the greedy choice of
 favored entries from it. Queue entries are named by their position in the queue.
 */
module CoverageIndex {
  import opened Wrappers
  import opened Bits

  const MAP_SIZE: nat := 0x1_0000

  /** The bytes the instrumentation counted in one run, one per slot. */
  type Trace = s: seq<byte> | |s| == MAP_SIZE witness seq(MAP_SIZE, i => 0)

  type Slots = s: seq<Option<nat>> | |s| == MAP_SIZE witness seq(MAP_SIZE, i => None)

  datatype Entry = Entry(
    len: nat, execUs: nat, tcRef: nat, mini: Option<seq<bv8>>, favored: bool, wasFuzzed: bool)

  /** The speed-times-size product in 64-bit arithmetic. */
  function Factor(e: Entry): nat {
    (e.execUs * e.len) % TWO64
  }

  // ---------------------------------------------------------------- bit sets

  function Flag(k: nat): bv8
    requires k < 8
  {
    match k
    case 0 => 1 case 1 => 2 case 2 => 4 case 3 => 8
    case 4 => 16 case 5 => 32 case 6 => 64 case _ => 128
  }

  predicate Has(m: seq<bv8>, i: nat)
    requires i / 8 < |m|
  {
    FlagSet(m[i / 8], i % 8)
  }

  predicate FlagSet(b: bv8, n: nat)
    requires n < 8
  {
    b & Flag(n) != 0
  }

  lemma FlagOr(b: bv8, k: nat, n: nat)
    requires k < 8 && n < 8
    ensures FlagSet(b | Flag(k), n) <==> k == n || FlagSet(b, n)
  {
  }

  lemma FlagClear(b: bv8, c: bv8, n: nat)
    requires n < 8
    ensures (b & !c) & Flag(n) != 0 <==> b & Flag(n) != 0 && c & Flag(n) == 0
  {
  }

  function Without(b: bv8, c: bv8): bv8 {
    b & !c
  }

  lemma FlagDistinct(b: bv8, c: bv8)
    requires forall n {:trigger Flag(n)} :: 0 <= n < 8 ==> (b & Flag(n) != 0 <==> c & Flag(n) != 0)
    ensures b == c
  {
    assert Flag(0) == 1 && Flag(1) == 2 && Flag(2) == 4 && Flag(3) == 8;
    assert Flag(4) == 16 && Flag(5) == 32 && Flag(6) == 64 && Flag(7) == 128;
  }

  lemma FlagFull(n: nat)
    requires n < 8
    ensures 255 & Flag(n) != 0 && 0 & Flag(n) == 0
  {
  }

  /** The compacted form of a trace: one bit per slot, set where the slot was hit. */
  ghost predicate IsCompact(m: seq<bv8>, t: Trace) {
    |m| == MAP_SIZE / 8 && forall i: nat :: i < MAP_SIZE ==> (Has(m, i) <==> t[i] != 0)
  }

  lemma CompactUnique(a: seq<bv8>, b: seq<bv8>, t: Trace)
    requires IsCompact(a, t) && IsCompact(b, t)
    ensures a == b
  {
    hide Flag;
    forall j | 0 <= j < |a| ensures a[j] == b[j] {
      forall n | 0 <= n < 8
        ensures a[j] & Flag(n) != 0 <==> b[j] & Flag(n) != 0
      {
        var i := 8 * j + n;
        SlotOf(j, n);
        assert Has(a, i) <==> Has(b, i);
      }
      FlagDistinct(a[j], b[j]);
    }
  }

  lemma SlotOf(j: nat, n: nat)
    requires n < 8
    ensures (8 * j + n) / 8 == j && (8 * j + n) % 8 == n
  {
  }

  /** `minimize_bits`. */
  method MinimizeBits(src: Trace) returns (dst: seq<bv8>)
    ensures IsCompact(dst, src)
    ensures forall i: nat :: i < MAP_SIZE ==> ((dst[i / 8] >> (i % 8)) & 1 == 1 <==> src[i] != 0)
  {
    dst := seq(MAP_SIZE / 8, i => 0);
    forall k: nat | k < MAP_SIZE ensures !Has(dst, k) {
      FlagFull(k % 8);
    }
    for i := 0 to MAP_SIZE
      invariant |dst| == MAP_SIZE / 8
      invariant forall k: nat :: k < MAP_SIZE ==> (Has(dst, k) <==> k < i && src[k] != 0)
    {
      if src[i] != 0 {
        SetBit(dst, i);
        dst := WithBit(dst, i);
      }
    }
    forall i: nat | i < MAP_SIZE ensures (dst[i / 8] >> (i % 8)) & 1 == 1 <==> src[i] != 0 { HasBit(dst, i); }
  }

  function WithBit(m: seq<bv8>, i: nat): seq<bv8>
    requires i / 8 < |m|
  {
    m[i / 8 := m[i / 8] | Flag(i % 8)]
  }

  lemma SetBit(m: seq<bv8>, i: nat)
    requires i / 8 < |m|
    ensures |WithBit(m, i)| == |m|
    ensures forall k: nat :: k / 8 < |m| ==> (Has(WithBit(m, i), k) <==> k == i || Has(m, k))
  {
    forall k: nat | k / 8 < |m|
      ensures Has(WithBit(m, i), k) <==> k == i || Has(m, k)
    {
      hide Flag, FlagSet;
      FlagOr(m[i / 8], i % 8, k % 8);
      if k / 8 == i / 8 && k % 8 == i % 8 { assert k == i; }
    }
  }

  /** A set holds i when bit i%8 of byte i/8 is set. */
  lemma HasBit(m: seq<bv8>, i: nat)
    requires i / 8 < |m|
    ensures Has(m, i) <==> (m[i / 8] >> (i % 8)) & 1 == 1
  {
    ShiftedFlag(m[i / 8], i % 8);
  }

  lemma ShiftedFlag(b: bv8, k: nat)
    requires k < 8
    ensures FlagSet(b, k) <==> (b >> k) & 1 == 1
  {
    match k
    case 0 => case 1 => case 2 => case 3 =>
    case 4 => case 5 => case 6 => case _ =>
  }

  // ---------------------------------------------------------------- reference counts

  /** The number of slots below n that entry e holds. */
  function Held(top: seq<Option<nat>>, e: nat, n: nat): nat
    requires n <= |top|
  {
    if n == 0 then 0 else Held(top, e, n - 1) + if top[n - 1] == Some(e) then 1 else 0
  }

  lemma {:induction false} HeldUpdate(top: seq<Option<nat>>, i: nat, x: Option<nat>, e: nat, n: nat)
    requires i < |top| && n <= |top|
    ensures Held(top[i := x], e, n) + (if i < n && top[i] == Some(e) then 1 else 0)
         == Held(top, e, n) + (if i < n && x == Some(e) then 1 else 0)
  {
    if n > 0 { HeldUpdate(top, i, x, e, n - 1); }
  }

  lemma {:induction false} HeldNone(top: seq<Option<nat>>, e: nat, n: nat)
    requires n <= |top|
    ensures Held(top, e, n) == 0 <==> forall i :: 0 <= i < n ==> top[i] != Some(e)
  {
    if n > 0 { HeldNone(top, e, n - 1); }
  }

  /** The reference count is the number of slots held; the compacted trace is kept exactly while it is positive. */
  ghost predicate RefOk(x: Entry, held: nat, t: Trace) {
    && x.tcRef == held
    && (x.mini.Some? <==> held > 0)
    && (held > 0 ==> IsCompact(x.mini.value, t))
  }

  /** Every holder covers its slot and all references are in order; cover is what each entry was scored with. */
  ghost predicate Refs(es: seq<Entry>, top: Slots, cover: seq<Trace>) {
    && |cover| == |es|
    && (forall i: nat :: i < MAP_SIZE && top[i].Some? ==> top[i].value < |es| && cover[top[i].value][i] != 0)
    && forall e: nat :: e < |es| ==> RefOk(es[e], Held(top, e, MAP_SIZE), cover[e])
  }

  /** Entries that differ in their references at most. */
  ghost predicate SameButRefs(es: seq<Entry>, fs: seq<Entry>) {
    |fs| == |es| && forall e :: 0 <= e < |es| ==> fs[e] == es[e].(tcRef := fs[e].tcRef, mini := fs[e].mini)
  }

  /** An entry loses one of its slots. */
  function Released(x: Entry): Entry
    requires x.tcRef > 0
  {
    x.(tcRef := x.tcRef - 1, mini := if x.tcRef == 1 then None else x.mini)
  }

  /** An entry wins a slot. */
  function Gained(x: Entry, m: seq<bv8>): Entry {
    x.(tcRef := x.tcRef + 1, mini := if x.mini.None? then Some(m) else x.mini)
  }

  /** The entries after slot i has gone to q. */
  function Moved(es: seq<Entry>, top: Slots, q: nat, i: nat, m: seq<bv8>): seq<Entry>
    requires q < |es| && i < MAP_SIZE
    requires top[i].Some? ==> top[i].value < |es| && es[top[i].value].tcRef > 0
  {
    var fs := if top[i].Some? then es[top[i].value := Released(es[top[i].value])] else es;
    fs[q := Gained(fs[q], m)]
  }

  lemma HolderCounted(es: seq<Entry>, top: Slots, cover: seq<Trace>, i: nat)
    requires Refs(es, top, cover) && i < MAP_SIZE && top[i].Some?
    ensures top[i].value < |es| && es[top[i].value].tcRef > 0 && es[top[i].value].mini.Some?
    ensures IsCompact(es[top[i].value].mini.value, cover[top[i].value])
  {
    var e := top[i].value;
    HeldNone(top, e, MAP_SIZE);
    assert RefOk(es[e], Held(top, e, MAP_SIZE), cover[e]);
  }

  /** Moving a slot, also from an entry to itself, keeps every reference in order. */
  lemma MovedRefs(es: seq<Entry>, top: Slots, cover: seq<Trace>, q: nat, i: nat, m: seq<bv8>)
    requires Refs(es, top, cover) && q < |es| && i < MAP_SIZE && cover[q][i] != 0 && IsCompact(m, cover[q])
    ensures top[i].Some? ==> top[i].value < |es| && es[top[i].value].tcRef > 0
    ensures Refs(Moved(es, top, q, i, m), top[i := Some(q)], cover)
    ensures SameButRefs(es, Moved(es, top, q, i, m))
  {
    hide Held, IsCompact;
    if top[i].Some? { HolderCounted(es, top, cover, i); }
    var fs := Moved(es, top, q, i, m);
    forall e: nat | e < |es|
      ensures RefOk(fs[e], Held(top[i := Some(q)], e, MAP_SIZE), cover[e])
    {
      HeldUpdate(top, i, Some(q), e, MAP_SIZE);
      assert RefOk(es[e], Held(top, e, MAP_SIZE), cover[e]);
    }
  }

  // ---------------------------------------------------------------- the argmin

  /** Every covered slot is held by an entry that no entry covering the slot undercuts. */
  ghost predicate Best(es: seq<Entry>, top: Slots, cover: seq<Trace>) {
    |cover| == |es| &&
    forall e: nat, i: nat :: e < |es| && i < MAP_SIZE && cover[e][i] != 0 ==>
      top[i].Some? && top[i].value < |es| && Factor(es[top[i].value]) <= Factor(es[e])
  }

  /** All products of time and length fit 64 bits. */
  ghost predicate Small(es: seq<Entry>) {
    forall e :: 0 <= e < |es| ==> es[e].execUs * es[e].len < TWO64
  }

  /** Every covered slot is held by an entry whose time multiplied by its length is least among those covering it. */
  ghost predicate Cheapest(es: seq<Entry>, top: Slots, cover: seq<Trace>) {
    |cover| == |es| &&
    forall e: nat, i: nat :: e < |es| && i < MAP_SIZE && cover[e][i] != 0 ==>
      && top[i].Some? && top[i].value < |es|
      && es[top[i].value].execUs * es[top[i].value].len <= es[e].execUs * es[e].len
  }

  lemma FactorIs(e: Entry)
    ensures Factor(e) == e.execUs * e.len % TWO64
    ensures e.execUs * e.len < TWO64 ==> Factor(e) == e.execUs * e.len
  {
  }

  /** Without wrap-around the index is right exactly when it is in products. */
  lemma BestIsCheapest(es: seq<Entry>, top: Slots, cover: seq<Trace>)
    requires Small(es)
    ensures Best(es, top, cover) <==> Cheapest(es, top, cover)
  {
    forall e | 0 <= e < |es| ensures Factor(es[e]) == es[e].execUs * es[e].len { FactorIs(es[e]); }
    hide Factor;
    if Best(es, top, cover) {
      forall e: nat, i: nat | e < |es| && i < MAP_SIZE && cover[e][i] != 0
        ensures top[i].Some? && top[i].value < |es|
        ensures es[top[i].value].execUs * es[top[i].value].len <= es[e].execUs * es[e].len
      {
        assert Factor(es[top[i].value]) <= Factor(es[e]);
      }
    }
    if Cheapest(es, top, cover) {
      forall e: nat, i: nat | e < |es| && i < MAP_SIZE && cover[e][i] != 0
        ensures top[i].Some? && top[i].value < |es| && Factor(es[top[i].value]) <= Factor(es[e])
      {
        assert es[top[i].value].execUs * es[top[i].value].len <= es[e].execUs * es[e].len;
      }
    }
  }

  /** What scoring does to a slot: q wins it if its product modulo 2^64 is not above the holder's. */
  ghost predicate Contested(es: seq<Entry>, was: Option<nat>, now: Option<nat>, q: nat)
    requires q < |es|
  {
    match was
    case None => now == Some(q)
    case Some(h) =>
      h < |es| &&
      now == if es[q].execUs * es[q].len % TWO64 <= es[h].execUs * es[h].len % TWO64 then Some(q) else was
  }

  /** What scoring does to all slots, in products. */
  ghost predicate Contest(es: seq<Entry>, top: Slots, q: nat, trace: Trace, now: Slots)
    requires q < |es|
  {
    forall i: nat :: i < MAP_SIZE ==> if trace[i] != 0 then Contested(es, top[i], now[i], q) else now[i] == top[i]
  }

  lemma ScoredContest(es: seq<Entry>, top: Slots, q: nat, trace: Trace, now: Slots)
    requires q < |es| && Scored(es, top, q, trace, now)
    requires forall i: nat :: i < MAP_SIZE && top[i].Some? ==> top[i].value < |es|
    ensures Contest(es, top, q, trace, now)
  {
    forall i: nat | i < MAP_SIZE
      ensures if trace[i] != 0 then Contested(es, top[i], now[i], q) else now[i] == top[i]
    {
      FactorIs(es[q]);
      if top[i].Some? { FactorIs(es[top[i].value]); }
      hide Factor;
      assert now[i] == if Wins(es, top, q, trace, i) then Some(q) else top[i];
    }
  }

  /** An entry that held nothing, and one that became shorter at the same time of execution, keep the index right. */
  lemma CheaperStillBest(es: seq<Entry>, fs: seq<Entry>, top: Slots, cover: seq<Trace>, q: nat, trace: Trace)
    requires |cover| == |es| == |fs| && q < |es| && fs == es[q := fs[q]] && Small(es)
    requires Best(es, top, cover)
    requires forall i: nat :: i < MAP_SIZE && top[i].Some? ==> top[i].value < |es| && cover[top[i].value][i] != 0
    requires CoversNothing(cover[q]) || (fs[q].execUs == es[q].execUs && fs[q].len <= es[q].len)
    ensures StillBest(fs, top, cover[q := trace], q)
  {
    if !CoversNothing(cover[q]) {
      FactorIs(es[q]);
      FactorIs(fs[q]);
      MulMono(fs[q].len, es[q].len, es[q].execUs);
      hide Factor;
      NotGrownStillBest(es, fs, top, cover, q, trace);
    }
  }

  /** q takes slot i unless its factor is the larger one. */
  predicate Wins(es: seq<Entry>, top: Slots, q: nat, trace: Trace, i: nat)
    requires q < |es| && i < MAP_SIZE
  {
    trace[i] != 0 && !(top[i].Some? && top[i].value < |es| && Factor(es[q]) > Factor(es[top[i].value]))
  }

  /** The index after entry q was scored. */
  ghost predicate Scored(es: seq<Entry>, top: Slots, q: nat, trace: Trace, now: Slots)
    requires q < |es|
  {
    forall i: nat :: i < MAP_SIZE ==> now[i] == if Wins(es, top, q, trace, i) then Some(q) else top[i]
  }

  /** Two traces that hit the same slots. */
  ghost predicate SameCover(a: Trace, b: Trace) {
    forall i: nat :: i < MAP_SIZE ==> (a[i] != 0 <==> b[i] != 0)
  }

  ghost predicate CoversNothing(a: Trace) {
    forall i: nat :: i < MAP_SIZE ==> a[i] == 0
  }

  /** No entry is strictly cheaper than q's new factor on a slot that q already holds. */
  ghost predicate StillBest(es: seq<Entry>, top: Slots, cover: seq<Trace>, q: nat)
    requires |cover| == |es| && q < |es|
  {
    forall e: nat, i: nat :: e < |es| && i < MAP_SIZE && top[i] == Some(q) && cover[e][i] != 0 ==>
      Factor(es[q]) <= Factor(es[e])
  }

  /**
   Scoring entry q, whose factor may have changed since it was last scored, leaves the
   argmin exactly when q is still the best on the slots it already held.
   */
  lemma ScoredBest(es: seq<Entry>, fs: seq<Entry>, top: Slots, cover: seq<Trace>, q: nat, trace: Trace, now: Slots)
    requires |cover| == |es| == |fs| && q < |es| && fs == es[q := fs[q]]
    requires Best(es, top, cover) && (SameCover(cover[q], trace) || CoversNothing(cover[q]))
    requires forall i: nat :: i < MAP_SIZE && top[i].Some? ==> top[i].value < |es| && cover[top[i].value][i] != 0
    requires Scored(fs, top, q, trace, now)
    ensures Best(fs, now, cover[q := trace]) <==> StillBest(fs, top, cover[q := trace], q)
  {
    hide Factor;
    var c2 := cover[q := trace];
    if StillBest(fs, top, c2, q) {
      forall e: nat, i: nat | e < |fs| && i < MAP_SIZE && c2[e][i] != 0
        ensures now[i].Some? && now[i].value < |fs| && Factor(fs[now[i].value]) <= Factor(fs[e])
      {
        assert now[i] == if Wins(fs, top, q, trace, i) then Some(q) else top[i];
        if e != q {
          assert cover[e][i] != 0;
        }
      }
    }
    if Best(fs, now, c2) {
      forall e: nat, i: nat | e < |fs| && i < MAP_SIZE && top[i] == Some(q) && c2[e][i] != 0
        ensures Factor(fs[q]) <= Factor(fs[e])
      {
        assert cover[q][i] != 0;
        assert Wins(fs, top, q, trace, i);
        assert now[i] == Some(q);
      }
    }
  }

  /** A factor that did not grow, as after a trim, is still best. */
  lemma NotGrownStillBest(es: seq<Entry>, fs: seq<Entry>, top: Slots, cover: seq<Trace>, q: nat, trace: Trace)
    requires |cover| == |es| == |fs| && q < |es| && fs == es[q := fs[q]]
    requires Best(es, top, cover) && Factor(fs[q]) <= Factor(es[q])
    ensures StillBest(fs, top, cover[q := trace], q)
  {
    hide Factor;
    forall e: nat, i: nat | e < |fs| && i < MAP_SIZE && top[i] == Some(q) && cover[q := trace][e][i] != 0
      ensures Factor(fs[q]) <= Factor(fs[e])
    {
      if e != q { assert cover[e][i] != 0; }
    }
  }

  /**
   An entry that became dearer than a rival keeps the slots it held, so the argmin is
   lost, although all references were in order and the index was right before.
   */
  lemma DearerRescoreFails(t: Trace, m: seq<bv8>, es: seq<Entry>, fs: seq<Entry>, top: Slots, now: Slots)
    requires t[0] != 0 && IsCompact(m, t)
    requires forall i: nat :: i < MAP_SIZE ==> top[i] == if t[i] != 0 then Some(0) else None
    requires es == [Entry(1, 1, Held(top, 0, MAP_SIZE), Some(m), false, false), Entry(1, 2, 0, None, false, false)]
    requires fs == es[0 := es[0].(execUs := 3)] && Scored(fs, top, 0, t, now)
    ensures Refs(es, top, [t, t]) && Best(es, top, [t, t]) && !Best(fs, now, [t, t])
  {
    HeldNone(top, 0, MAP_SIZE);
    HeldNone(top, 1, MAP_SIZE);
    hide Held, IsCompact;
    assert top[0] == Some(0);
    assert RefOk(es[0], Held(top, 0, MAP_SIZE), t) && RefOk(es[1], Held(top, 1, MAP_SIZE), t);
    assert Factor(es[0]) == 1 && Factor(fs[0]) == 3 && Factor(fs[1]) == 2;
    assert Wins(fs, top, 0, t, 0);
    assert now[0] == Some(0);
    assert [t, t][1][0] != 0;
  }

  lemma AddedBest(es: seq<Entry>, top: Slots, cover: seq<Trace>, x: Entry, t: Trace)
    requires Best(es, top, cover) && CoversNothing(t)
    ensures Best(es + [x], top, cover + [t])
  {
    hide Factor;
  }

  // ---------------------------------------------------------------- the greedy cover

  ghost predicate InRange(top: Slots, cover: seq<Trace>) {
    forall i: nat :: i < MAP_SIZE && top[i].Some? ==> top[i].value < |cover| && cover[top[i].value][i] != 0
  }

  ghost predicate Touched(ps: seq<nat>, cover: seq<Trace>, i: nat)
    requires i < MAP_SIZE
  {
    exists p :: p in ps && p < |cover| && cover[p][i] != 0
  }

  /** The simple form of `cull_queue`: slot by slot, pick the holder unless a pick covers the slot already. */
  ghost function Picks(top: Slots, cover: seq<Trace>, n: nat): seq<nat>
    requires n <= MAP_SIZE
  {
    if n == 0 then []
    else
      var ps := Picks(top, cover, n - 1);
      if top[n - 1].Some? && !Touched(ps, cover, n - 1) then ps + [top[n - 1].value] else ps
  }

  ghost predicate Distinct(ps: seq<nat>) {
    forall i, j :: 0 <= i < j < |ps| ==> ps[i] != ps[j]
  }

  /** Every pick is the holder of a slot below n. */
  ghost predicate HoldBelow(ps: seq<nat>, top: Slots, n: nat)
    requires n <= MAP_SIZE
  {
    forall p :: p in ps ==> exists i: nat :: i < n && top[i] == Some(p)
  }

  ghost predicate TouchBelow(ps: seq<nat>, top: Slots, cover: seq<Trace>, n: nat)
    requires n <= MAP_SIZE
  {
    forall i: nat :: i < n && top[i].Some? ==> Touched(ps, cover, i)
  }

  lemma {:induction false} PicksOk(top: Slots, cover: seq<Trace>, n: nat)
    requires n <= MAP_SIZE && InRange(top, cover)
    ensures Distinct(Picks(top, cover, n))
    ensures HoldBelow(Picks(top, cover, n), top, n)
    ensures TouchBelow(Picks(top, cover, n), top, cover, n)
  {
    if n > 0 {
      PicksOk(top, cover, n - 1);
      hide Distinct, HoldBelow, TouchBelow, Touched;
      PickStep(Picks(top, cover, n - 1), top, cover, n);
    }
  }

  lemma PickStep(ps: seq<nat>, top: Slots, cover: seq<Trace>, n: nat)
    requires 0 < n <= MAP_SIZE && InRange(top, cover)
    requires Distinct(ps) && HoldBelow(ps, top, n - 1) && TouchBelow(ps, top, cover, n - 1)
    ensures top[n - 1].None? || Touched(ps, cover, n - 1) ==> HoldBelow(ps, top, n) && TouchBelow(ps, top, cover, n)
    ensures top[n - 1].Some? && !Touched(ps, cover, n - 1) ==>
      var qs := ps + [top[n - 1].value];
      Distinct(qs) && HoldBelow(qs, top, n) && TouchBelow(qs, top, cover, n)
  {
    if top[n - 1].Some? && !Touched(ps, cover, n - 1) {
      var v := top[n - 1].value;
      assert v !in ps;
      hide Touched;
      forall i: nat | i < n && top[i].Some? ensures Touched(ps + [v], cover, i) {
        TouchedMore(ps, v, cover, i);
      }
    }
  }

  lemma TouchedMore(ps: seq<nat>, v: nat, cover: seq<Trace>, i: nat)
    requires i < MAP_SIZE && v < |cover|
    ensures Touched(ps + [v], cover, i) <==> Touched(ps, cover, i) || cover[v][i] != 0
  {
    if Touched(ps, cover, i) {
      var p :| p in ps && p < |cover| && cover[p][i] != 0;
      assert p in ps + [v];
    }
    if cover[v][i] != 0 {
      assert v in ps + [v];
    }
  }

  /** Every held slot is covered by a favored entry, and no entry is picked twice. */
  lemma GreedyCover(top: Slots, cover: seq<Trace>)
    requires InRange(top, cover)
    ensures Distinct(Picks(top, cover, MAP_SIZE))
    ensures forall i: nat :: i < MAP_SIZE && top[i].Some? ==> Touched(Picks(top, cover, MAP_SIZE), cover, i)
  {
    hide Picks;
    PicksOk(top, cover, MAP_SIZE);
  }

  // ---------------------------------------------------------------- counting entries

  function Tally(es: seq<Entry>, p: Entry -> bool): nat {
    if |es| == 0 then 0 else Tally(es[..|es| - 1], p) + if p(es[|es| - 1]) then 1 else 0
  }

  lemma {:induction false} TallyUpdate(es: seq<Entry>, e: nat, x: Entry, p: Entry -> bool)
    requires e < |es|
    ensures Tally(es[e := x], p) + (if p(es[e]) then 1 else 0) == Tally(es, p) + if p(x) then 1 else 0
  {
    var n := |es| - 1;
    if e < n {
      TallyUpdate(es[..n], e, x, p);
      assert es[e := x][..n] == es[..n][e := x];
    } else {
      assert es[e := x][..n] == es[..n];
    }
  }

  lemma {:induction false} TallySame(es: seq<Entry>, fs: seq<Entry>, p: Entry -> bool)
    requires |es| == |fs| && forall e :: 0 <= e < |es| ==> p(es[e]) == p(fs[e])
    ensures Tally(es, p) == Tally(fs, p)
  {
    if |es| > 0 { TallySame(es[..|es| - 1], fs[..|fs| - 1], p); }
  }

  lemma {:induction false} TallyNone(es: seq<Entry>, p: Entry -> bool)
    requires forall e :: 0 <= e < |es| ==> !p(es[e])
    ensures Tally(es, p) == 0
  {
    if |es| > 0 { TallyNone(es[..|es| - 1], p); }
  }

  const NotFuzzed := (x: Entry) => !x.wasFuzzed
  const Favored := (x: Entry) => x.favored
  const FavoredNotFuzzed := (x: Entry) => x.favored && !x.wasFuzzed

  /** The three counters name the sizes of their sets. */
  ghost predicate CountsOk(es: seq<Entry>, notFuzzed: nat, favored: nat, pending: nat) {
    && notFuzzed == Tally(es, NotFuzzed)
    && favored == Tally(es, Favored)
    && pending == Tally(es, FavoredNotFuzzed)
  }

  lemma CountsSame(es: seq<Entry>, fs: seq<Entry>, notFuzzed: nat, favored: nat, pending: nat)
    requires CountsOk(es, notFuzzed, favored, pending) && |fs| == |es|
    requires forall e :: 0 <= e < |es| ==> fs[e].favored == es[e].favored && fs[e].wasFuzzed == es[e].wasFuzzed
    ensures CountsOk(fs, notFuzzed, favored, pending)
  {
    TallySame(es, fs, NotFuzzed);
    TallySame(es, fs, Favored);
    TallySame(es, fs, FavoredNotFuzzed);
  }

  /** Exactly the greedy picks are marked as favored. */
  ghost predicate Marked(es: seq<Entry>, ps: seq<nat>) {
    forall e: nat :: e < |es| ==> (es[e].favored <==> e in ps)
  }

  // ---------------------------------------------------------------- the fuzzer's state

  class Fuzzer {
    const dumbMode: bool
    var entries: seq<Entry>
    const topRated: array<Option<nat>>
    var scoreChanged: bool
    var queuedFavored: nat
    var pendingFavored: nat
    var pendingNotFuzzed: nat
    /** The trace each entry was last scored with, all zero before. */
    ghost var cover: seq<Trace>

    constructor (dumbMode: bool)
      ensures Valid() && BestRated() && entries == [] && fresh(topRated)
      ensures forall i: nat :: i < MAP_SIZE ==> Top()[i] == None
    {
      this.dumbMode, entries, scoreChanged := dumbMode, [], false;
      queuedFavored, pendingFavored, pendingNotFuzzed := 0, 0, 0;
      topRated := new Option<nat>[MAP_SIZE](i => None);
      cover := [];
      new;
      assert forall i: nat :: i < MAP_SIZE ==> topRated[..][i] == None;
      NoPicks(topRated[..], cover, MAP_SIZE);
    }

    ghost predicate Sized() reads this {
      topRated.Length == MAP_SIZE && |cover| == |entries|
    }

    ghost function Top(): Slots
      reads this, topRated
      requires topRated.Length == MAP_SIZE
    {
      topRated[..]
    }

    /** What every operation keeps; between a scoring and the next culling the favored marks may be out of date. */
    ghost predicate Valid()
      reads this, topRated
    {
      && Sized()
      && Refs(entries, Top(), cover)
      && CountsOk(entries, pendingNotFuzzed, queuedFavored, pendingFavored)
      && (!scoreChanged && !dumbMode ==> Marked(entries, Picks(Top(), cover, MAP_SIZE)))
    }

    ghost predicate BestRated()
      reads this, topRated
      requires Sized()
    {
      Best(entries, Top(), cover)
    }

    ghost predicate CheapestRated()
      reads this, topRated
      requires Sized()
    {
      Cheapest(entries, Top(), cover)
    }

    /** `add_to_queue`. */
    method AddToQueue(len: nat)
      requires Valid()
      modifies this
      ensures Valid() && entries == old(entries) + [Entry(len, 0, 0, None, false, false)]
      ensures cover[..|cover| - 1] == old(cover) && CoversNothing(cover[|cover| - 1])
      ensures old(BestRated()) ==> BestRated()
      ensures Top() == old(Top()) && scoreChanged == old(scoreChanged) && pendingNotFuzzed == old(pendingNotFuzzed) + 1
    {
      hide Refs, Picks, Tally, Best;
      var x := Entry(len, 0, 0, None, false, false);
      ghost var t: Trace := seq(MAP_SIZE, i => 0);
      AddedRefs(entries, Top(), cover, x, t);
      AddedMarks(entries, Top(), cover, x, t);
      AddedCounts(entries, x);
      if BestRated() { AddedBest(entries, Top(), cover, x, t); }
      entries := entries + [x];
      cover := cover + [t];
      pendingNotFuzzed := pendingNotFuzzed + 1;
    }

    /** The body of the loop over slots in `update_bitmap_score`, for a slot that q wins. */
    method TakeSlot(q: nat, i: nat, traceBits: Trace)
      requires Sized() && Refs(entries, Top(), cover)
      requires q < |entries| && i < MAP_SIZE && cover[q] == traceBits && traceBits[i] != 0
      modifies this`entries, this`scoreChanged, topRated
      ensures Refs(entries, Top(), cover) && Sized() && scoreChanged
      ensures SameButRefs(old(entries), entries)
      ensures Top() == old(Top())[i := Some(q)]
    {
      ghost var es, top := entries, Top();
      var m := MinimizeBits(traceBits);
      MovedRefs(es, top, cover, q, i, m);
      var prev := topRated[i];
      if prev.Some? {
        var x := entries[prev.value];
        assert x.tcRef > 0;
        entries := entries[prev.value := x.(tcRef := x.tcRef - 1, mini := if x.tcRef == 1 then None else x.mini)];
      }
      topRated[i] := Some(q);
      var y := entries[q];
      entries := entries[q := y.(tcRef := y.tcRef + 1, mini := if y.mini.None? then Some(m) else y.mini)];
      assert entries == Moved(es, top, q, i, m);
      assert Top() == top[i := Some(q)];
      scoreChanged := true;
    }

    /** `update_bitmap_score`: q competes for every slot its trace covers. */
    method UpdateBitmapScore(q: nat, traceBits: Trace)
      requires Sized() && Refs(entries, Top(), cover)
      requires q < |entries| && (SameCover(cover[q], traceBits) || CoversNothing(cover[q]))
      modifies this`entries, this`scoreChanged, this`cover, topRated
      ensures Sized() && Refs(entries, Top(), cover) && cover == old(cover)[q := traceBits]
      ensures SameButRefs(old(entries), entries)
      ensures Scored(old(entries), old(Top()), q, traceBits, Top())
      ensures Contest(old(entries), old(Top()), q, traceBits, Top())
      ensures !scoreChanged ==> !old(scoreChanged) && Top() == old(Top())
    {
      ghost var es, top := entries, Top();
      CoverFixed(entries, Top(), cover, q, traceBits);
      cover := cover[q := traceBits];
      var favFactor := Factor(entries[q]);
      for i := 0 to MAP_SIZE
        invariant Sized() && Refs(entries, Top(), cover) && cover == old(cover)[q := traceBits]
        invariant SameButRefs(es, entries)
        invariant ScoredTo(es, top, q, traceBits, Top(), i)
        invariant !scoreChanged ==> !old(scoreChanged) && Top() == top
      {
        hide Refs, SameButRefs, Wins, Factor;
        ghost var es1, top1 := entries, Top();
        assert topRated[i] == top1[i] == top[i];
        if traceBits[i] != 0 {
          HolderFactor(es, es1, top1, cover, q, i);
          if topRated[i].Some? && favFactor > Factor(entries[topRated[i].value]) {
            SlotKept(es, top, q, traceBits, i);
          } else {
            SlotWon(es, top, q, traceBits, i);
            TakeSlot(q, i, traceBits);
            SameButRefsTrans(es, es1, entries);
          }
        } else {
          SlotKept(es, top, q, traceBits, i);
        }
        SlotDone(es, top, q, traceBits, top1, Top(), i);
      }
      SlotsDone(es, top, q, traceBits, Top());
      ScoredContest(es, top, q, traceBits, Top());
    }

    /**
     Scores q after its execution time or length has changed, as calibration and
     trimming do. With an index that was right before, it is right afterwards exactly
     when q is still the best on the slots it held; a factor that has not grown suffices.
     */
    method Rescore(q: nat, execUs: nat, len: nat, traceBits: Trace)
      requires Valid()
      requires q < |entries| && (SameCover(cover[q], traceBits) || CoversNothing(cover[q]))
      modifies this, topRated
      ensures Valid() && |entries| == |old(entries)| && cover == old(cover)[q := traceBits]
      ensures entries[q].execUs == execUs && entries[q].len == len
      ensures SameButRefs(old(entries)[q := old(entries[q]).(execUs := execUs, len := len)], entries)
      ensures Scored(old(entries)[q := old(entries[q]).(execUs := execUs, len := len)], old(Top()), q, traceBits, Top())
      ensures old(BestRated()) ==> (BestRated() <==> StillBest(entries, old(Top()), cover, q))
      ensures old(BestRated()) && Factor(entries[q]) <= old(Factor(entries[q])) ==> BestRated()
      ensures
        && old(CheapestRated()) && old(Small(entries)) && Small(entries)
        && (old(CoversNothing(cover[q])) || (execUs == old(entries[q].execUs) && len <= old(entries[q].len)))
        ==> CheapestRated()
    {
      hide Refs, Best, Scored, StillBest, SameCover, CoversNothing, Factor, Picks, Tally, Cheapest, Small, Contest;
      ghost var es0, top0, cover0 := entries, Top(), cover;
      ChangedRefs(entries, Top(), cover, q, execUs, len);
      entries := entries[q := entries[q].(execUs := execUs, len := len)];
      ghost var es := entries;
      CountsSame(es0, es, pendingNotFuzzed, queuedFavored, pendingFavored);
      UpdateBitmapScore(q, traceBits);
      CountsSame(es, entries, pendingNotFuzzed, queuedFavored, pendingFavored);
      if !scoreChanged && !dumbMode {
        UnchangedMarks(es0, entries, Top(), cover0, q, traceBits);
      }
      if Best(es0, top0, cover0) {
        HoldersIn(es0, top0, cover0);
        ScoredBest(es0, es, top0, cover0, q, traceBits, Top());
        BestButRefs(es, entries, Top(), cover);
        StillBestButRefs(es, entries, top0, cover, q);
        FactorButRefs(es, entries, q);
        if Factor(es[q]) <= Factor(es0[q]) {
          NotGrownStillBest(es0, es, top0, cover0, q, traceBits);
        }
      }
      if Small(es0) && Small(entries) {
        BestIsCheapest(es0, top0, cover0);
        BestIsCheapest(entries, Top(), cover);
        if
          && Best(es0, top0, cover0)
          && (CoversNothing(cover0[q]) || (execUs == es0[q].execUs && len <= es0[q].len))
        {
          CheaperStillBest(es0, es, top0, cover0, q, traceBits);
        }
      }
    }

    /**
     `cull_queue`: unless nothing was scored since the last call, marks as favored
     exactly the greedy picks, which cover every held slot; no entry is picked twice.
     */
    method CullQueue()
      requires Valid()
      modifies this`entries, this`scoreChanged, this`queuedFavored, this`pendingFavored
      ensures Valid() && (dumbMode || !scoreChanged)
      ensures SameButMarks(old(entries), entries)
      ensures !dumbMode ==> Marked(entries, Picks(Top(), cover, MAP_SIZE))
      ensures dumbMode || !old(scoreChanged) ==>
        entries == old(entries) && queuedFavored == old(queuedFavored) && pendingFavored == old(pendingFavored)
      ensures old(BestRated()) ==> BestRated()
    {
      if dumbMode || !scoreChanged { return; }
      hide Refs, Picks, Tally, Best, Factor;
      ghost var es, top := entries, Top();
      scoreChanged := false;
      var tempV := new bv8[MAP_SIZE / 8](i => 255);
      forall k: nat | k < MAP_SIZE ensures Has(tempV[..], k) { FlagFull(k % 8); }
      ClearFavored();
      PicksZero(top, cover);
      for i := 0 to MAP_SIZE
        invariant Sized() && Refs(entries, Top(), cover) && tempV.Length == MAP_SIZE / 8 && !scoreChanged
        invariant SameButMarks(es, entries)
        invariant CountsOk(entries, pendingNotFuzzed, queuedFavored, pendingFavored)
        invariant Marked(entries, Picks(top, cover, i))
        invariant Untouched(tempV[..], Picks(top, cover, i), cover)
      {
        PickNext(top, cover, i);
        HoldersIn(entries, top, cover);
        assert topRated[i] == top[i];
        CullSlot(i, tempV, Picks(top, cover, i));
      }
      if Best(es, top, cover) { BestButMarks(es, entries, top, cover); }
    }

    /** The body of the loop over slots: ps are the picks so far. */
    method CullSlot(i: nat, tempV: array<bv8>, ghost ps: seq<nat>)
      requires Sized() && Refs(entries, Top(), cover) && tempV.Length == MAP_SIZE / 8 && i < MAP_SIZE
      requires CountsOk(entries, pendingNotFuzzed, queuedFavored, pendingFavored)
      requires Marked(entries, ps) && Untouched(tempV[..], ps, cover)
      modifies this`entries, this`queuedFavored, this`pendingFavored, tempV
      ensures Sized() && Refs(entries, Top(), cover) && SameButMarks(old(entries), entries)
      ensures CountsOk(entries, pendingNotFuzzed, queuedFavored, pendingFavored)
      ensures topRated[i].Some? && !Touched(ps, cover, i) ==>
        Marked(entries, ps + [topRated[i].value]) && Untouched(tempV[..], ps + [topRated[i].value], cover)
      ensures topRated[i].None? || Touched(ps, cover, i) ==> Marked(entries, ps) && Untouched(tempV[..], ps, cover)
    {
      hide Refs, Tally, Marked, Untouched, Touched, IsCompact, Flag, FlagSet, Has, Without;
      ghost var es, was := entries, tempV[..];
      UntouchedAt(was, ps, cover, i);
      if topRated[i].Some? && FlagSet(tempV[i / 8], i % 8) {
        HolderCounted(es, Top(), cover, i);
        var v := topRated[i].value;
        CompactSize(es[v].mini.value, cover[v]);
        ClearBits(tempV, entries[v].mini.value);
        ClearedBits(was, tempV[..], es[v].mini.value);
        UntouchedMore(was, tempV[..], es[v].mini.value, ps, v, cover);
        MarkOne(es, cover, Top(), ps, v, i);
        MarkCounts(es, v);
        entries := entries[v := entries[v].(favored := true)];
        queuedFavored := queuedFavored + 1;
        if !entries[v].wasFuzzed { pendingFavored := pendingFavored + 1; }
      }
    }

    /** The first pass over the queue: no entry is favored. */
    method ClearFavored()
      requires Sized() && Refs(entries, Top(), cover) && pendingNotFuzzed == Tally(entries, NotFuzzed)
      modifies this`entries, this`queuedFavored, this`pendingFavored
      ensures Sized() && Refs(entries, Top(), cover)
      ensures SameButMarks(old(entries), entries) && Marked(entries, [])
      ensures CountsOk(entries, pendingNotFuzzed, queuedFavored, pendingFavored)
    {
      hide Refs, Tally;
      queuedFavored, pendingFavored := 0, 0;
      for e := 0 to |entries|
        invariant Sized() && Refs(entries, Top(), cover) && SameButMarks(old(entries), entries)
        invariant queuedFavored == pendingFavored == 0
        invariant forall k: nat :: k < e ==> !entries[k].favored
      {
        MarkRefs(entries, Top(), cover, e, false);
        entries := entries[e := entries[e].(favored := false)];
      }
      TallySame(old(entries), entries, NotFuzzed);
      TallyNone(entries, Favored);
      TallyNone(entries, FavoredNotFuzzed);
    }

    /** The inner loop: takes the bits of a compacted trace out of tempV, from the last byte to the first. */
    static method ClearBits(tempV: array<bv8>, mini: seq<bv8>)
      requires tempV.Length == |mini|
      modifies tempV
      ensures forall b :: 0 <= b < tempV.Length ==> tempV[b] == Without(old(tempV[b]), mini[b])
    {
      hide Without;
      var j: nat := tempV.Length;
      while j > 0
        invariant j <= tempV.Length
        invariant forall b :: 0 <= b < j ==> tempV[b] == old(tempV[b])
        invariant forall b :: j <= b < tempV.Length ==> tempV[b] == Without(old(tempV[b]), mini[b])
      {
        j := j - 1;
        if mini[j] != 0 {
          tempV[j] := Without(tempV[j], mini[j]);
        } else {
          NothingCleared(tempV[j], mini[j]);
        }
      }
    }

    /** The tail of `fuzz_one`: q counts as fuzzed unless the run stopped or calibration failed. */
    method FinishFuzzing(q: nat, stopSoon: bool, calFailed: bool)
      requires Valid() && q < |entries|
      modifies this`entries, this`pendingNotFuzzed, this`pendingFavored
      ensures Valid()
      ensures entries == if stopSoon || calFailed then old(entries)
        else old(entries)[q := old(entries[q]).(wasFuzzed := true)]
      ensures old(BestRated()) ==> BestRated()
    {
      if !stopSoon && !calFailed && !entries[q].wasFuzzed {
        hide Refs, Picks, Tally, Best;
        FuzzedRefs(entries, Top(), cover, q);
        FuzzedCounts(entries, q);
        if BestRated() { FuzzedBest(entries, Top(), cover, q); }
        pendingNotFuzzed := pendingNotFuzzed - 1;
        if entries[q].favored { pendingFavored := pendingFavored - 1; }
        entries := entries[q := entries[q].(wasFuzzed := true)];
      }
    }
  }

  ghost predicate SameButMarks(es: seq<Entry>, fs: seq<Entry>) {
    |fs| == |es| && forall e :: 0 <= e < |es| ==> fs[e] == es[e].(favored := fs[e].favored)
  }

  /** A bit of tempV is set exactly for the slots that no pick covers. */
  ghost predicate Untouched(tempV: seq<bv8>, ps: seq<nat>, cover: seq<Trace>)
    requires |tempV| == MAP_SIZE / 8
  {
    forall k: nat :: k < MAP_SIZE ==> (Has(tempV, k) <==> !Touched(ps, cover, k))
  }

  lemma CompactSize(m: seq<bv8>, t: Trace)
    requires IsCompact(m, t)
    ensures |m| == MAP_SIZE / 8
  {
  }

  lemma ClearedBit(b: bv8, c: bv8, n: nat)
    requires n < 8
    ensures FlagSet(Without(b, c), n) <==> FlagSet(b, n) && !FlagSet(c, n)
  {
    FlagClear(b, c, n);
  }

  lemma ClearedAt(was: seq<bv8>, now: seq<bv8>, mini: seq<bv8>, k: nat)
    requires |was| == |now| == |mini| && k / 8 < |was|
    requires forall b :: 0 <= b < |was| ==> now[b] == Without(was[b], mini[b])
    ensures Has(now, k) <==> Has(was, k) && !Has(mini, k)
  {
    hide Flag, Without, FlagSet;
    var j := k / 8;
    ClearedBit(was[j], mini[j], k % 8);
    assert now[j] == Without(was[j], mini[j]);
  }

  lemma ClearedBits(was: seq<bv8>, now: seq<bv8>, mini: seq<bv8>)
    requires |was| == |now| == |mini| == MAP_SIZE / 8
    requires forall b :: 0 <= b < |was| ==> now[b] == Without(was[b], mini[b])
    ensures forall k: nat :: k < MAP_SIZE ==> (Has(now, k) <==> Has(was, k) && !Has(mini, k))
  {
    hide Flag, Without, Has;
    forall k: nat | k < MAP_SIZE
      ensures Has(now, k) <==> Has(was, k) && !Has(mini, k)
    {
      ClearedAt(was, now, mini, k);
    }
  }

  lemma NothingCleared(b: bv8, c: bv8)
    requires c == 0
    ensures Without(b, c) == b
  {
  }

  lemma PicksZero(top: Slots, cover: seq<Trace>)
    ensures Picks(top, cover, 0) == []
  {
  }

  lemma PickNext(top: Slots, cover: seq<Trace>, i: nat)
    requires i < MAP_SIZE
    ensures Picks(top, cover, i + 1) ==
      if top[i].Some? && !Touched(Picks(top, cover, i), cover, i) then Picks(top, cover, i) + [top[i].value]
      else Picks(top, cover, i)
  {
  }

  lemma UntouchedAt(tempV: seq<bv8>, ps: seq<nat>, cover: seq<Trace>, i: nat)
    requires |tempV| == MAP_SIZE / 8 && i < MAP_SIZE && Untouched(tempV, ps, cover)
    ensures FlagSet(tempV[i / 8], i % 8) <==> !Touched(ps, cover, i)
  {
    assert Has(tempV, i) <==> !Touched(ps, cover, i);
  }

  lemma UntouchedMore(was: seq<bv8>, now: seq<bv8>, mini: seq<bv8>, ps: seq<nat>, v: nat, cover: seq<Trace>)
    requires |was| == |now| == MAP_SIZE / 8 && v < |cover| && IsCompact(mini, cover[v]) && Untouched(was, ps, cover)
    requires forall k: nat :: k < MAP_SIZE ==> (Has(now, k) <==> Has(was, k) && !Has(mini, k))
    ensures Untouched(now, ps + [v], cover)
  {
    hide Has, Touched;
    forall k: nat | k < MAP_SIZE ensures Has(now, k) <==> !Touched(ps + [v], cover, k) {
      TouchedMore(ps, v, cover, k);
      assert Has(was, k) <==> !Touched(ps, cover, k);
      assert Has(mini, k) <==> cover[v][k] != 0;
    }
  }

  lemma MarkRefs(es: seq<Entry>, top: Slots, cover: seq<Trace>, v: nat, mark: bool)
    requires Refs(es, top, cover) && v < |es|
    ensures Refs(es[v := es[v].(favored := mark)], top, cover)
  {
    hide Held;
    forall e: nat | e < |es| ensures RefOk(es[v := es[v].(favored := mark)][e], Held(top, e, MAP_SIZE), cover[e]) {
      assert RefOk(es[e], Held(top, e, MAP_SIZE), cover[e]);
    }
  }

  /** Picking the uncovered holder of slot i marks an entry that was not marked. */
  lemma MarkOne(es: seq<Entry>, cover: seq<Trace>, top: Slots, ps: seq<nat>, v: nat, i: nat)
    requires Refs(es, top, cover) && Marked(es, ps) && i < MAP_SIZE && top[i] == Some(v) && !Touched(ps, cover, i)
    ensures v < |es| && !es[v].favored
    ensures Refs(es[v := es[v].(favored := true)], top, cover)
    ensures Marked(es[v := es[v].(favored := true)], ps + [v])
  {
    MarkRefs(es, top, cover, v, true);
    assert v !in ps;
  }

  lemma MarkCounts(es: seq<Entry>, v: nat)
    requires v < |es| && !es[v].favored
    ensures var fs := es[v := es[v].(favored := true)];
      && Tally(fs, NotFuzzed) == Tally(es, NotFuzzed)
      && Tally(fs, Favored) == Tally(es, Favored) + 1
      && Tally(fs, FavoredNotFuzzed) == Tally(es, FavoredNotFuzzed) + if es[v].wasFuzzed then 0 else 1
  {
    var x := es[v].(favored := true);
    TallyUpdate(es, v, x, NotFuzzed);
    TallyUpdate(es, v, x, Favored);
    TallyUpdate(es, v, x, FavoredNotFuzzed);
  }

  lemma BestButMarks(es: seq<Entry>, fs: seq<Entry>, top: Slots, cover: seq<Trace>)
    requires SameButMarks(es, fs) && Best(es, top, cover)
    ensures Best(fs, top, cover)
  {
  }

  lemma FuzzedRefs(es: seq<Entry>, top: Slots, cover: seq<Trace>, q: nat)
    requires Refs(es, top, cover) && q < |es|
    ensures Refs(es[q := es[q].(wasFuzzed := true)], top, cover)
  {
    hide Held;
    forall e: nat | e < |es| ensures RefOk(es[q := es[q].(wasFuzzed := true)][e], Held(top, e, MAP_SIZE), cover[e]) {
      assert RefOk(es[e], Held(top, e, MAP_SIZE), cover[e]);
    }
  }

  lemma FuzzedCounts(es: seq<Entry>, q: nat)
    requires q < |es| && !es[q].wasFuzzed
    ensures var fs := es[q := es[q].(wasFuzzed := true)];
      && Tally(fs, NotFuzzed) + 1 == Tally(es, NotFuzzed)
      && Tally(fs, Favored) == Tally(es, Favored)
      && Tally(fs, FavoredNotFuzzed) + (if es[q].favored then 1 else 0) == Tally(es, FavoredNotFuzzed)
  {
    var x := es[q].(wasFuzzed := true);
    TallyUpdate(es, q, x, NotFuzzed);
    TallyUpdate(es, q, x, Favored);
    TallyUpdate(es, q, x, FavoredNotFuzzed);
  }

  lemma FuzzedBest(es: seq<Entry>, top: Slots, cover: seq<Trace>, q: nat)
    requires Best(es, top, cover) && q < |es|
    ensures Best(es[q := es[q].(wasFuzzed := true)], top, cover)
  {
  }

  /** Only the traces of holders with a reference matter, and q's covers the same slots. */
  lemma CoverFixed(es: seq<Entry>, top: Slots, cover: seq<Trace>, q: nat, trace: Trace)
    requires Refs(es, top, cover) && q < |es| && (SameCover(cover[q], trace) || CoversNothing(cover[q]))
    ensures Refs(es, top, cover[q := trace])
  {
    HeldNone(top, q, MAP_SIZE);
    hide Held;
    assert CoversNothing(cover[q]) ==> forall i :: 0 <= i < MAP_SIZE ==> top[i] != Some(q);
    forall e: nat | e < |es|
      ensures RefOk(es[e], Held(top, e, MAP_SIZE), cover[q := trace][e])
    {
      assert RefOk(es[e], Held(top, e, MAP_SIZE), cover[e]);
    }
  }

  /** The slots below n are settled, the others are as before. */
  ghost predicate ScoredTo(es: seq<Entry>, top: Slots, q: nat, trace: Trace, now: Slots, n: nat)
    requires q < |es|
  {
    forall i: nat :: i < MAP_SIZE ==> now[i] == if i < n && Wins(es, top, q, trace, i) then Some(q) else top[i]
  }

  lemma SlotDone(es: seq<Entry>, top: Slots, q: nat, trace: Trace, was: Slots, now: Slots, i: nat)
    requires q < |es| && i < MAP_SIZE && ScoredTo(es, top, q, trace, was, i)
    requires now == if Wins(es, top, q, trace, i) then was[i := Some(q)] else was
    ensures ScoredTo(es, top, q, trace, now, i + 1)
  {
    hide Wins;
  }

  lemma SlotsDone(es: seq<Entry>, top: Slots, q: nat, trace: Trace, now: Slots)
    requires q < |es| && ScoredTo(es, top, q, trace, now, MAP_SIZE)
    ensures Scored(es, top, q, trace, now)
  {
    hide Wins;
  }

  lemma SlotWon(es: seq<Entry>, top: Slots, q: nat, trace: Trace, i: nat)
    requires q < |es| && i < MAP_SIZE && trace[i] != 0
    requires !(top[i].Some? && top[i].value < |es| && Factor(es[q]) > Factor(es[top[i].value]))
    ensures Wins(es, top, q, trace, i)
  {
  }

  lemma SlotKept(es: seq<Entry>, top: Slots, q: nat, trace: Trace, i: nat)
    requires q < |es| && i < MAP_SIZE
    requires trace[i] != 0 ==> top[i].Some? && top[i].value < |es| && Factor(es[q]) > Factor(es[top[i].value])
    ensures !Wins(es, top, q, trace, i)
  {
  }

  lemma HolderFactor(es: seq<Entry>, fs: seq<Entry>, top: Slots, cover: seq<Trace>, q: nat, i: nat)
    requires SameButRefs(es, fs) && Refs(fs, top, cover) && q < |es| && i < MAP_SIZE
    ensures |fs| == |es| && Factor(fs[q]) == Factor(es[q])
    ensures top[i].Some? ==> top[i].value < |es| && Factor(fs[top[i].value]) == Factor(es[top[i].value])
  {
  }

  lemma SameButRefsTrans(es: seq<Entry>, fs: seq<Entry>, gs: seq<Entry>)
    requires SameButRefs(es, fs) && SameButRefs(fs, gs)
    ensures SameButRefs(es, gs)
  {
  }

  lemma ChangedRefs(es: seq<Entry>, top: Slots, cover: seq<Trace>, q: nat, execUs: nat, len: nat)
    requires Refs(es, top, cover) && q < |es|
    ensures Refs(es[q := es[q].(execUs := execUs, len := len)], top, cover)
  {
    hide Held;
    var fs := es[q := es[q].(execUs := execUs, len := len)];
    forall e: nat | e < |es| ensures RefOk(fs[e], Held(top, e, MAP_SIZE), cover[e]) {
      assert RefOk(es[e], Held(top, e, MAP_SIZE), cover[e]);
    }
  }

  lemma HoldersIn(es: seq<Entry>, top: Slots, cover: seq<Trace>)
    requires Refs(es, top, cover)
    ensures forall i: nat :: i < MAP_SIZE && top[i].Some? ==> top[i].value < |es| && cover[top[i].value][i] != 0
    ensures InRange(top, cover)
  {
  }

  lemma FactorButRefs(es: seq<Entry>, fs: seq<Entry>, q: nat)
    requires SameButRefs(es, fs) && q < |es|
    ensures Factor(fs[q]) == Factor(es[q])
  {
  }

  lemma BestButRefs(es: seq<Entry>, fs: seq<Entry>, top: Slots, cover: seq<Trace>)
    requires SameButRefs(es, fs)
    ensures Best(es, top, cover) <==> Best(fs, top, cover)
  {
  }

  lemma StillBestButRefs(es: seq<Entry>, fs: seq<Entry>, top: Slots, cover: seq<Trace>, q: nat)
    requires SameButRefs(es, fs) && |cover| == |es| && q < |es|
    ensures StillBest(es, top, cover, q) <==> StillBest(fs, top, cover, q)
  {
  }

  /** When no slot has changed hands, the marks are still the greedy picks. */
  lemma UnchangedMarks(es: seq<Entry>, fs: seq<Entry>, top: Slots, cover: seq<Trace>, q: nat, trace: Trace)
    requires Refs(es, top, cover) && q < |es| && (SameCover(cover[q], trace) || CoversNothing(cover[q]))
    requires |fs| == |es| && forall e :: 0 <= e < |es| ==> fs[e].favored == es[e].favored
    requires Marked(es, Picks(top, cover, MAP_SIZE))
    ensures Marked(fs, Picks(top, cover[q := trace], MAP_SIZE))
  {
    hide Picks;
    HoldersIn(es, top, cover);
    PicksWithMore(top, cover, cover[q := trace], MAP_SIZE);
  }

  lemma {:induction false} NoPicks(top: Slots, cover: seq<Trace>, n: nat)
    requires n <= MAP_SIZE && forall i: nat :: i < n ==> top[i].None?
    ensures Picks(top, cover, n) == []
  {
    if n > 0 { NoPicks(top, cover, n - 1); }
  }

  /** The holders cover the same slots in both tables. */
  ghost predicate HoldersKeep(top: Slots, cover: seq<Trace>, more: seq<Trace>) {
    forall i: nat :: i < MAP_SIZE && top[i].Some? ==>
      top[i].value < |cover| && top[i].value < |more| && SameCover(cover[top[i].value], more[top[i].value])
  }

  lemma TouchedSame(ps: seq<nat>, cover: seq<Trace>, more: seq<Trace>, i: nat)
    requires i < MAP_SIZE
    requires forall p :: p in ps ==> p < |cover| && p < |more| && SameCover(cover[p], more[p])
    ensures Touched(ps, cover, i) <==> Touched(ps, more, i)
  {
  }

  lemma {:induction false} PicksWithMore(top: Slots, cover: seq<Trace>, more: seq<Trace>, n: nat)
    requires n <= MAP_SIZE && InRange(top, cover) && HoldersKeep(top, cover, more)
    ensures Picks(top, cover, n) == Picks(top, more, n)
  {
    if n > 0 {
      PicksWithMore(top, cover, more, n - 1);
      PicksOk(top, cover, n - 1);
      var ps := Picks(top, cover, n - 1);
      hide SameCover, Touched;
      forall p | p in ps ensures p < |cover| && p < |more| && SameCover(cover[p], more[p]) {
        var i: nat :| i < n - 1 && top[i] == Some(p);
      }
      TouchedSame(ps, cover, more, n - 1);
    }
  }

  lemma AddedRefs(es: seq<Entry>, top: Slots, cover: seq<Trace>, x: Entry, t: Trace)
    requires Refs(es, top, cover) && x.tcRef == 0 && x.mini.None?
    ensures Refs(es + [x], top, cover + [t])
  {
    hide Held;
    HeldNone(top, |es|, MAP_SIZE);
    forall e: nat | e < |es| + 1
      ensures RefOk((es + [x])[e], Held(top, e, MAP_SIZE), (cover + [t])[e])
    {
      if e < |es| { assert RefOk(es[e], Held(top, e, MAP_SIZE), cover[e]); }
    }
  }

  lemma AddedMarks(es: seq<Entry>, top: Slots, cover: seq<Trace>, x: Entry, t: Trace)
    requires Refs(es, top, cover) && !x.favored
    ensures Picks(top, cover, MAP_SIZE) == Picks(top, cover + [t], MAP_SIZE)
    ensures Marked(es, Picks(top, cover, MAP_SIZE)) ==> Marked(es + [x], Picks(top, cover, MAP_SIZE))
  {
    hide Picks;
    assert InRange(top, cover) && HoldersKeep(top, cover, cover + [t]);
    PicksWithMore(top, cover, cover + [t], MAP_SIZE);
    PicksOk(top, cover, MAP_SIZE);
    assert |es| !in Picks(top, cover, MAP_SIZE);
  }

  lemma AddedCounts(es: seq<Entry>, x: Entry)
    requires !x.favored && !x.wasFuzzed
    ensures Tally(es + [x], NotFuzzed) == Tally(es, NotFuzzed) + 1
    ensures Tally(es + [x], Favored) == Tally(es, Favored)
    ensures Tally(es + [x], FavoredNotFuzzed) == Tally(es, FavoredNotFuzzed)
  {
    assert (es + [x])[..|es|] == es;
  }

  /** Every slot of t is held by entry 0, and no other slot is held. */
  ghost predicate HeldByFirst(top: Slots, t: Trace) {
    forall i: nat :: i < MAP_SIZE ==> top[i] == if t[i] != 0 then Some(0) else None
  }

  /** The first entry takes every slot of its trace from an empty index. */
  lemma FirstTakesAll(es: seq<Entry>, top: Slots, t: Trace, now: Slots, fs: seq<Entry>, cover: seq<Trace>)
    requires |es| == |fs| == |cover| == 2 && (forall i: nat :: i < MAP_SIZE ==> top[i] == None) &&
      Scored(es, top, 0, t, now)
    ensures HeldByFirst(now, t) && StillBest(fs, top, cover, 0)
  {
  }

  /** The second, dearer entry takes none of them. */
  lemma SecondTakesNone(es: seq<Entry>, top: Slots, t: Trace, now: Slots, fs: seq<Entry>, cover: seq<Trace>)
    requires |es| == |fs| == |cover| == 2 && HeldByFirst(top, t) && Scored(es, top, 1, t, now)
    requires Factor(es[1]) > Factor(es[0])
    ensures HeldByFirst(now, t) && StillBest(fs, top, cover, 1)
  {
    hide Factor;
    forall i: nat | i < MAP_SIZE ensures now[i] == top[i] {
      assert !Wins(es, top, 1, t, i);
    }
  }

  lemma FirstUndercut(es: seq<Entry>, top: Slots, t: Trace, cover: seq<Trace>)
    requires |es| == |cover| == 2 && HeldByFirst(top, t) && cover[1] == t && t[0] != 0
    requires Factor(es[0]) > Factor(es[1])
    ensures !StillBest(es, top, cover, 0)
  {
    hide Factor;
    assert top[0] == Some(0) && cover[1][0] != 0;
  }

  /** Products this small do not wrap. */
  lemma SmallFactor(e: Entry)
    requires e.len == 1 && e.execUs < TWO64
    ensures Factor(e) == e.execUs
  {
  }

  /** A run of the fuzzer to such a state: two entries are scored, then the winner again, with a longer time. */
  method DearerRescoreRun(t: Trace) returns (f: Fuzzer)
    requires t[0] != 0
    ensures fresh(f) && f.Valid() && !f.BestRated()
  {
    f := new Fuzzer(false);
    f.AddToQueue(1);
    assert f.cover == [f.cover[0]];
    f.AddToQueue(1);
    assert CoversNothing(f.cover[0]) && CoversNothing(f.cover[1]);
    hide Refs, Best, Scored, StillBest, SameCover, CoversNothing, Factor, Picks, Tally, Marked, HeldByFirst;
    ghost var top0, es0 := f.Top(), f.entries;
    SameTrace(t);
    f.Rescore(0, 1, 1, t);
    ghost var top1, es1 := f.Top(), f.entries;
    FirstTakesAll(es0[0 := es0[0].(execUs := 1, len := 1)], top0, t, top1, es1, f.cover);
    assert f.BestRated();
    f.Rescore(1, 2, 1, t);
    ghost var top2, es2 := f.Top(), f.entries;
    ghost var es := es1[1 := es1[1].(execUs := 2, len := 1)];
    SmallFactor(es[0]);
    SmallFactor(es[1]);
    SecondTakesNone(es, top1, t, top2, es2, f.cover);
    assert f.BestRated();
    f.Rescore(0, 3, 1, t);
    SmallFactor(f.entries[0]);
    SmallFactor(f.entries[1]);
    FirstUndercut(f.entries, top2, t, f.cover);
  }

  lemma SameTrace(t: Trace)
    ensures SameCover(t, t)
  {
  }
}
