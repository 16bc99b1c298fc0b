/**
 AFL's novelty map: hit counts are classified into buckets two bytes at a time, and a
 trace is compared with everything seen before eight bytes at a time.
 */
module NewBits {

  // ---------------------------------------------------------------- words over bytes

  /** A 64-bit load of eight bytes, the lowest address in the lowest bits. */
  function Load64(a: bv8, b: bv8, c: bv8, d: bv8, e: bv8, f: bv8, g: bv8, h: bv8): bv64 {
    (a as bv64) | ((b as bv64) << 8) | ((c as bv64) << 16) | ((d as bv64) << 24)
    | ((e as bv64) << 32) | ((f as bv64) << 40) | ((g as bv64) << 48) | ((h as bv64) << 56)
  }

  function LoadAt(m: seq<bv8>, i: nat): bv64
    requires i + 8 <= |m|
  {
    Load64(m[i], m[i + 1], m[i + 2], m[i + 3], m[i + 4], m[i + 5], m[i + 6], m[i + 7])
  }

  /** The byte a 64-bit store puts at offset k. */
  function ByteOf(w: bv64, k: nat): bv8
    requires k < 8
  {
    match k
    case 0 => (w & 0xff) as bv8
    case 1 => ((w >> 8) & 0xff) as bv8
    case 2 => ((w >> 16) & 0xff) as bv8
    case 3 => ((w >> 24) & 0xff) as bv8
    case 4 => ((w >> 32) & 0xff) as bv8
    case 5 => ((w >> 40) & 0xff) as bv8
    case 6 => ((w >> 48) & 0xff) as bv8
    case _ => ((w >> 56) & 0xff) as bv8
  }

  lemma LoadZero(a: bv8, b: bv8, c: bv8, d: bv8, e: bv8, f: bv8, g: bv8, h: bv8)
    ensures Load64(a, b, c, d, e, f, g, h) == 0 <==>
      a == 0 && b == 0 && c == 0 && d == 0 && e == 0 && f == 0 && g == 0 && h == 0
  {
  }

  /** The bits of a that b has not. */
  function Minus(a: bv8, b: bv8): bv8 { a & !b }

  function Minus64(a: bv64, b: bv64): bv64 { a & !b }

  function Common64(a: bv64, b: bv64): bv64 { a & b }

  function Common(a: bv8, b: bv8): bv8 { a & b }

  lemma AndOfLoads(
      a: bv8, b: bv8, c: bv8, d: bv8, e: bv8, f: bv8, g: bv8, h: bv8,
      a2: bv8, b2: bv8, c2: bv8, d2: bv8, e2: bv8, f2: bv8, g2: bv8, h2: bv8)
    ensures Common64(Load64(a, b, c, d, e, f, g, h), Load64(a2, b2, c2, d2, e2, f2, g2, h2))
         == Load64(Common(a, a2), Common(b, b2), Common(c, c2), Common(d, d2), Common(e, e2), Common(f, f2),
           Common(g, g2), Common(h, h2))
  {
  }

  lemma CommonOfLoads(
      a: bv8, b: bv8, c: bv8, d: bv8, e: bv8, f: bv8, g: bv8, h: bv8,
      a2: bv8, b2: bv8, c2: bv8, d2: bv8, e2: bv8, f2: bv8, g2: bv8, h2: bv8)
    ensures Common64(Load64(a, b, c, d, e, f, g, h), Load64(a2, b2, c2, d2, e2, f2, g2, h2)) == 0 <==>
        && Common(a, a2) == 0 && Common(b, b2) == 0 && Common(c, c2) == 0 && Common(d, d2) == 0
        && Common(e, e2) == 0 && Common(f, f2) == 0 && Common(g, g2) == 0 && Common(h, h2) == 0
  {
    AndOfLoads(a, b, c, d, e, f, g, h, a2, b2, c2, d2, e2, f2, g2, h2);
    LoadZero(Common(a, a2), Common(b, b2), Common(c, c2), Common(d, d2), Common(e, e2), Common(f, f2), Common(g, g2),
      Common(h, h2));
  }

  lemma MinusOfLowLoads(
      a: bv8, b: bv8, c: bv8, d: bv8, e: bv8, f: bv8, g: bv8, h: bv8,
      a2: bv8, b2: bv8, c2: bv8, d2: bv8, e2: bv8, f2: bv8, g2: bv8, h2: bv8)
    ensures ByteOf(Minus64(Load64(a, b, c, d, e, f, g, h), Load64(a2, b2, c2, d2, e2, f2, g2, h2)), 0) == Minus(a, a2)
    ensures ByteOf(Minus64(Load64(a, b, c, d, e, f, g, h), Load64(a2, b2, c2, d2, e2, f2, g2, h2)), 1) == Minus(b, b2)
    ensures ByteOf(Minus64(Load64(a, b, c, d, e, f, g, h), Load64(a2, b2, c2, d2, e2, f2, g2, h2)), 2) == Minus(c, c2)
    ensures ByteOf(Minus64(Load64(a, b, c, d, e, f, g, h), Load64(a2, b2, c2, d2, e2, f2, g2, h2)), 3) == Minus(d, d2)
  {
  }

  lemma MinusOfHighLoads(
      a: bv8, b: bv8, c: bv8, d: bv8, e: bv8, f: bv8, g: bv8, h: bv8,
      a2: bv8, b2: bv8, c2: bv8, d2: bv8, e2: bv8, f2: bv8, g2: bv8, h2: bv8)
    ensures ByteOf(Minus64(Load64(a, b, c, d, e, f, g, h), Load64(a2, b2, c2, d2, e2, f2, g2, h2)), 4) == Minus(e, e2)
    ensures ByteOf(Minus64(Load64(a, b, c, d, e, f, g, h), Load64(a2, b2, c2, d2, e2, f2, g2, h2)), 5) == Minus(f, f2)
    ensures ByteOf(Minus64(Load64(a, b, c, d, e, f, g, h), Load64(a2, b2, c2, d2, e2, f2, g2, h2)), 6) == Minus(g, g2)
    ensures ByteOf(Minus64(Load64(a, b, c, d, e, f, g, h), Load64(a2, b2, c2, d2, e2, f2, g2, h2)), 7) == Minus(h, h2)
  {
  }

  /** The test `*current & *virgin` looks for a common bit in any of the eight bytes. */
  lemma LoadAnd(m: seq<bv8>, n: seq<bv8>, i: nat)
    requires i + 8 <= |m| == |n|
    ensures Common64(LoadAt(m, i), LoadAt(n, i)) != 0 <==> exists k: nat :: i <= k < i + 8 && NewBit(m, n, k)
  {
    hide Load64, Common, Common64, NewBit;
    CommonOfLoads(m[i], m[i + 1], m[i + 2], m[i + 3], m[i + 4], m[i + 5], m[i + 6], m[i + 7],
                  n[i], n[i + 1], n[i + 2], n[i + 3], n[i + 4], n[i + 5], n[i + 6], n[i + 7]);
    EightBits(m, n, i);
  }

  lemma EightBits(m: seq<bv8>, n: seq<bv8>, i: nat)
    requires i + 8 <= |m| == |n|
    ensures (exists k: nat :: i <= k < i + 8 && NewBit(m, n, k)) <==>
      !(&& Common(m[i], n[i]) == 0 && Common(m[i + 1], n[i + 1]) == 0
        && Common(m[i + 2], n[i + 2]) == 0 && Common(m[i + 3], n[i + 3]) == 0
        && Common(m[i + 4], n[i + 4]) == 0 && Common(m[i + 5], n[i + 5]) == 0
        && Common(m[i + 6], n[i + 6]) == 0 && Common(m[i + 7], n[i + 7]) == 0)
  {
    assert NewBit(m, n, i) || Common(m[i], n[i]) == 0;
    assert NewBit(m, n, i + 1) || Common(m[i + 1], n[i + 1]) == 0;
    assert NewBit(m, n, i + 2) || Common(m[i + 2], n[i + 2]) == 0;
    assert NewBit(m, n, i + 3) || Common(m[i + 3], n[i + 3]) == 0;
    assert NewBit(m, n, i + 4) || Common(m[i + 4], n[i + 4]) == 0;
    assert NewBit(m, n, i + 5) || Common(m[i + 5], n[i + 5]) == 0;
    assert NewBit(m, n, i + 6) || Common(m[i + 6], n[i + 6]) == 0;
    assert NewBit(m, n, i + 7) || Common(m[i + 7], n[i + 7]) == 0;
  }

  /** The update `*virgin &= ~*current` works on each byte alone. */
  lemma LoadMinus(m: seq<bv8>, n: seq<bv8>, i: nat, k: nat)
    requires i + 8 <= |m| == |n| && k < 8
    ensures ByteOf(Minus64(LoadAt(m, i), LoadAt(n, i)), k) == Minus(m[i + k], n[i + k])
  {
    hide Load64, ByteOf, Minus, Minus64;
    MinusOfLowLoads(m[i], m[i + 1], m[i + 2], m[i + 3], m[i + 4], m[i + 5], m[i + 6], m[i + 7],
                 n[i], n[i + 1], n[i + 2], n[i + 3], n[i + 4], n[i + 5], n[i + 6], n[i + 7]);
    MinusOfHighLoads(m[i], m[i + 1], m[i + 2], m[i + 3], m[i + 4], m[i + 5], m[i + 6], m[i + 7],
                 n[i], n[i + 1], n[i + 2], n[i + 3], n[i + 4], n[i + 5], n[i + 6], n[i + 7]);
  }

  // ---------------------------------------------------------------- has_new_bits, byte by byte

  /** Some bit of the trace at slot i is still virgin. */
  predicate NewBit(cur: seq<bv8>, vir: seq<bv8>, i: nat)
    requires i < |cur| == |vir|
  {
    Common(cur[i], vir[i]) != 0
  }

  /** Slot i is hit and entirely virgin. */
  predicate NewSlot(cur: seq<bv8>, vir: seq<bv8>, i: nat)
    requires i < |cur| == |vir|
  {
    cur[i] != 0 && vir[i] == 0xff
  }

  ghost predicate AnyNewBit(cur: seq<bv8>, vir: seq<bv8>, lo: nat, hi: nat)
    requires hi <= |cur| == |vir|
  {
    exists i: nat :: lo <= i < hi && NewBit(cur, vir, i)
  }

  ghost predicate AnyNewSlot(cur: seq<bv8>, vir: seq<bv8>, lo: nat, hi: nat)
    requires hi <= |cur| == |vir|
  {
    exists i: nat :: lo <= i < hi && NewSlot(cur, vir, i)
  }

  ghost function Verdict(cur: seq<bv8>, vir: seq<bv8>, n: nat): nat
    requires n <= |cur| == |vir|
  {
    if AnyNewSlot(cur, vir, 0, n) then 2 else if AnyNewBit(cur, vir, 0, n) then 1 else 0
  }

  /** The virgin map after the first n bytes of the trace have been recorded. */
  ghost predicate Recorded(cur: seq<bv8>, vir: seq<bv8>, now: seq<bv8>, n: nat) {
    && |now| == |vir| == |cur| && n <= |cur|
    && (forall i :: 0 <= i < n ==> now[i] == Minus(vir[i], cur[i]))
    && (forall i :: n <= i < |vir| ==> now[i] == vir[i])
  }

  lemma SlotIsBit(cur: seq<bv8>, vir: seq<bv8>, i: nat)
    requires i < |cur| == |vir|
    ensures NewSlot(cur, vir, i) ==> NewBit(cur, vir, i)
  {
    assert vir[i] == 0xff ==> cur[i] & vir[i] == cur[i];
  }

  /** How one word changes the verdict. */
  lemma VerdictStep(cur: seq<bv8>, vir: seq<bv8>, i: nat)
    requires i + 8 <= |cur| == |vir|
    ensures Verdict(cur, vir, i + 8) ==
      if !AnyNewBit(cur, vir, i, i + 8) || Verdict(cur, vir, i) == 2 then Verdict(cur, vir, i)
      else if AnyNewSlot(cur, vir, i, i + 8) then 2 else 1
  {
    hide NewBit, NewSlot;
    forall k: nat | i <= k < i + 8 ensures NewSlot(cur, vir, k) ==> NewBit(cur, vir, k) {
      SlotIsBit(cur, vir, k);
    }
    assert AnyNewSlot(cur, vir, 0, i + 8) <==> AnyNewSlot(cur, vir, 0, i) || AnyNewSlot(cur, vir, i, i + 8);
    assert AnyNewBit(cur, vir, 0, i + 8) <==> AnyNewBit(cur, vir, 0, i) || AnyNewBit(cur, vir, i, i + 8);
  }

  /** A word none of whose bits is virgin is as if it had been recorded already. */
  lemma NothingToRecord(cur: seq<bv8>, vir: seq<bv8>, now: seq<bv8>, i: nat)
    requires i + 8 <= |cur| == |vir| && Recorded(cur, vir, now, i) && !AnyNewBit(cur, vir, i, i + 8)
    ensures Recorded(cur, vir, now, i + 8)
  {
    forall k: nat | i <= k < i + 8 ensures now[k] == Minus(vir[k], cur[k]) {
      assert !NewBit(cur, vir, k);
      assert cur[k] & vir[k] == 0 ==> vir[k] & !cur[k] == vir[k];
    }
  }

  /** `*mem = w` for a 64-bit pointer into the buffer. */
  method Store64(m: array<bv8>, i: nat, w: bv64)
    requires i + 8 <= m.Length
    modifies m
    ensures forall k: nat :: k < 8 ==> m[i + k] == ByteOf(w, k)
    ensures forall k :: 0 <= k < m.Length && !(i <= k < i + 8) ==> m[k] == old(m[k])
  {
    hide ByteOf;
    m[i], m[i + 1], m[i + 2], m[i + 3] := ByteOf(w, 0), ByteOf(w, 1), ByteOf(w, 2), ByteOf(w, 3);
    m[i + 4], m[i + 5], m[i + 6], m[i + 7] := ByteOf(w, 4), ByteOf(w, 5), ByteOf(w, 6), ByteOf(w, 7);
  }

  lemma WordRecorded(cur: seq<bv8>, vir: seq<bv8>, was: seq<bv8>, now: seq<bv8>, i: nat)
    requires i + 8 <= |cur| == |vir| && Recorded(cur, vir, was, i) && |now| == |was|
    requires forall k: nat :: k < 8 ==> now[i + k] == ByteOf(Minus64(LoadAt(was, i), LoadAt(cur, i)), k)
    requires forall k :: 0 <= k < |was| && !(i <= k < i + 8) ==> now[k] == was[k]
    ensures Recorded(cur, vir, now, i + 8)
  {
    hide ByteOf, Minus, Minus64, LoadAt;
    forall j: nat | i <= j < i + 8 ensures now[j] == Minus(vir[j], cur[j]) {
      LoadMinus(was, cur, i, j - i);
      assert now[i + (j - i)] == now[j];
    }
  }

  /** The eight-way test for a hit byte that is pristine. */
  predicate EightNewSlots(cur: seq<bv8>, vir: seq<bv8>, i: nat)
    requires i + 8 <= |cur| == |vir|
  {
    || (cur[i] != 0 && vir[i] == 0xff) || (cur[i + 1] != 0 && vir[i + 1] == 0xff)
    || (cur[i + 2] != 0 && vir[i + 2] == 0xff) || (cur[i + 3] != 0 && vir[i + 3] == 0xff)
    || (cur[i + 4] != 0 && vir[i + 4] == 0xff) || (cur[i + 5] != 0 && vir[i + 5] == 0xff)
    || (cur[i + 6] != 0 && vir[i + 6] == 0xff) || (cur[i + 7] != 0 && vir[i + 7] == 0xff)
  }

  lemma EightSlots(cur: seq<bv8>, vir: seq<bv8>, now: seq<bv8>, i: nat)
    requires i + 8 <= |cur| == |vir| && Recorded(cur, vir, now, i)
    ensures EightNewSlots(cur, now, i) <==> AnyNewSlot(cur, vir, i, i + 8)
  {
    assert NewSlot(cur, vir, i) <==> cur[i] != 0 && now[i] == 0xff;
    assert NewSlot(cur, vir, i + 1) <==> cur[i + 1] != 0 && now[i + 1] == 0xff;
    assert NewSlot(cur, vir, i + 2) <==> cur[i + 2] != 0 && now[i + 2] == 0xff;
    assert NewSlot(cur, vir, i + 3) <==> cur[i + 3] != 0 && now[i + 3] == 0xff;
    assert NewSlot(cur, vir, i + 4) <==> cur[i + 4] != 0 && now[i + 4] == 0xff;
    assert NewSlot(cur, vir, i + 5) <==> cur[i + 5] != 0 && now[i + 5] == 0xff;
    assert NewSlot(cur, vir, i + 6) <==> cur[i + 6] != 0 && now[i + 6] == 0xff;
    assert NewSlot(cur, vir, i + 7) <==> cur[i + 7] != 0 && now[i + 7] == 0xff;
  }

  lemma WordTest(cur: seq<bv8>, vir: seq<bv8>, now: seq<bv8>, i: nat)
    requires i + 8 <= |cur| == |vir| && Recorded(cur, vir, now, i)
    ensures Common64(LoadAt(cur, i), LoadAt(now, i)) != 0 <==> AnyNewBit(cur, vir, i, i + 8)
    ensures LoadAt(cur, i) == 0 ==> Common64(LoadAt(cur, i), LoadAt(now, i)) == 0
  {
    hide Common, Load64;
    LoadAnd(cur, now, i);
    forall k: nat | i <= k < i + 8 ensures NewBit(cur, now, k) <==> NewBit(cur, vir, k) {
    }
  }

  /**
   `has_new_bits`, eight bytes at a time: 2 when a pristine slot was hit, else 1 when
   some hit bit was still virgin, else 0; the bits of the trace are virgin no more.
   */
  method HasNewBits(cur: array<bv8>, vir: array<bv8>) returns (ret: nat)
    requires cur != vir && cur.Length == vir.Length && cur.Length % 8 == 0
    modifies vir
    ensures ret == Verdict(cur[..], old(vir[..]), cur.Length)
    ensures Recorded(cur[..], old(vir[..]), vir[..], cur.Length)
  {
    hide NewBit, NewSlot, Recorded, Verdict, Minus, Minus64, Common, Common64, ByteOf, LoadAt;
    ghost var c, v := cur[..], vir[..];
    var i, at := cur.Length / 8, 0;
    ret := 0;
    NothingYet(c, v);
    while i > 0
      invariant 0 <= i && 0 <= at && at + 8 * i == cur.Length && cur[..] == c && ret <= 2
      invariant Recorded(c, v, vir[..], at) && ret == Verdict(c, v, at)
    {
      i := i - 1;
      ghost var now := vir[..];
      var current, virgin := LoadAt(cur[..], at), LoadAt(vir[..], at);
      WordTest(c, v, now, at);
      VerdictStep(c, v, at);
      EightSlots(c, v, now, at);
      if current != 0 && Common64(current, virgin) != 0 {
        if ret < 2 {
          if EightNewSlots(cur[..], vir[..], at) { ret := 2; } else { ret := 1; }
        }
        Store64(vir, at, Minus64(virgin, current));
        WordRecorded(c, v, now, vir[..], at);
      } else {
        NothingToRecord(c, v, now, at);
      }
      at := at + 8;
    }
  }

  lemma NothingYet(cur: seq<bv8>, vir: seq<bv8>)
    requires |cur| == |vir|
    ensures Recorded(cur, vir, vir, 0) && Verdict(cur, vir, 0) == 0
  {
  }

  // ---------------------------------------------------------------- buckets

  /** `count_class_lookup8`: which of eight ranges a hit count lies in, as a single bit. */
  function Class(n: nat): bv8 {
    if n == 0 then 0 else if n == 1 then 1 else if n == 2 then 2 else if n == 3 then 4
    else if n <= 7 then 8 else if n <= 15 then 16 else if n <= 31 then 32
    else if n <= 127 then 64 else 128
  }

  function Bucket(x: bv8): bv8 {
    Class(x as nat)
  }

  /** Two counts between which the fuzzer sees no difference. */
  predicate SameRange(m: nat, n: nat) {
    || m == n
    || (4 <= m <= 7 && 4 <= n <= 7) || (8 <= m <= 15 && 8 <= n <= 15) || (16 <= m <= 31 && 16 <= n <= 31)
    || (32 <= m <= 127 && 32 <= n <= 127) || (128 <= m <= 255 && 128 <= n <= 255)
  }

  /** Each range has its own bit. */
  lemma RangeBits(n: nat)
    requires n < 256
    ensures Class(n) == 0 <==> n == 0
    ensures Class(n) == 0x01 <==> n == 1
    ensures Class(n) == 0x02 <==> n == 2
    ensures Class(n) == 0x04 <==> n == 3
    ensures Class(n) == 0x08 <==> 4 <= n <= 7
    ensures Class(n) == 0x10 <==> 8 <= n <= 15
    ensures Class(n) == 0x20 <==> 16 <= n <= 31
    ensures Class(n) == 0x40 <==> 32 <= n <= 127
    ensures Class(n) == 0x80 <==> 128 <= n <= 255
  {
  }

  /** Counts share a bucket exactly when they lie in one range. */
  lemma SameBucket(x: bv8, y: bv8)
    ensures Bucket(x) == Bucket(y) <==> SameRange(x as nat, y as nat)
  {
    RangeBits(x as nat);
    RangeBits(y as nat);
  }

  /** `init_count_class16`. */
  method InitCountClass16(table: array<bv16>)
    requires table.Length == 0x1_0000
    modifies table
    ensures PairTable(table[..])
    ensures forall x: nat :: x < 0x1_0000 ==>
      table[x] == ((Class(x / 256) as bv16) << 8) | (Class(x % 256) as bv16)
  {
    for b1 := 0 to 256
      invariant forall h: nat, l: nat :: h < b1 && l < 256 ==> table[PairIndex(h, l)] == Pair(Class(h), Class(l))
    {
      for b2 := 0 to 256
        invariant forall h: nat, l: nat :: h < b1 && l < 256 ==> table[PairIndex(h, l)] == Pair(Class(h), Class(l))
        invariant forall l: nat :: l < b2 ==> table[PairIndex(b1, l)] == Pair(Class(b1), Class(l))
      {
        hide Pair, Class;
        PairIndexUnique();
        table[PairIndex(b1, b2)] := Pair(Class(b1), Class(b2));
      }
    }
    forall x: nat | x < 0x1_0000
      ensures table[x] == ((Class(x / 256) as bv16) << 8) | (Class(x % 256) as bv16)
    {
      PairAt(table[..], x);
    }
  }

  lemma PairAt(t: seq<bv16>, x: nat)
    requires PairTable(t) && x < 0x1_0000
    ensures |t| == 0x1_0000 && t[x] == ((Class(x / 256) as bv16) << 8) | (Class(x % 256) as bv16)
  {
    hide Class;
    assert PairIndex(x / 256, x % 256) == x;
  }

  function PairIndex(h: nat, l: nat): (i: nat)
    requires h < 256 && l < 256
    ensures i < 0x1_0000
  {
    h * 256 + l
  }

  function Pair(h: bv8, l: bv8): bv16 {
    ((h as bv16) << 8) | (l as bv16)
  }

  ghost predicate PairTable(t: seq<bv16>) {
    |t| == 0x1_0000 && forall h: nat, l: nat :: h < 256 && l < 256 ==> t[PairIndex(h, l)] == Pair(Class(h), Class(l))
  }

  lemma PairIndexUnique()
    ensures forall h: nat, l: nat, h2: nat, l2: nat :: h < 256 && l < 256 && h2 < 256 && l2 < 256 ==>
      (PairIndex(h, l) == PairIndex(h2, l2) ==> h == h2 && l == l2)
  {
  }

  function LowByte(e: bv16): bv8 { (e & 0xff) as bv8 }

  function HighByte(e: bv16): bv8 { (e >> 8) as bv8 }

  lemma PairBytes(h: bv8, l: bv8)
    ensures LowByte(Pair(h, l)) == l && HighByte(Pair(h, l)) == h
  {
  }

  lemma PairLookup(t: seq<bv16>, h: nat, l: nat)
    requires PairTable(t) && h < 256 && l < 256
    ensures |t| == 0x1_0000 && LowByte(t[PairIndex(h, l)]) == Class(l) && HighByte(t[PairIndex(h, l)]) == Class(h)
  {
    hide Class, Pair, LowByte, HighByte;
    PairBytes(Class(h), Class(l));
  }

  /** `mem16[k] = count_class_lookup16[mem16[k]]`, low byte first. */
  method ClassifyPair(m: array<bv8>, i: nat, table: array<bv16>)
    requires i + 2 <= m.Length && PairTable(table[..])
    modifies m
    ensures m[i] == Bucket(old(m[i])) && m[i + 1] == Bucket(old(m[i + 1]))
    ensures forall k :: 0 <= k < m.Length && k != i && k != i + 1 ==> m[k] == old(m[k])
  {
    hide PairTable, Class, PairIndex, LowByte, HighByte;
    var l, h := m[i] as nat, m[i + 1] as nat;
    PairLookup(table[..], h, l);
    var e := table[..][PairIndex(h, l)];
    m[i] := LowByte(e);
    m[i + 1] := HighByte(e);
  }

  /** `classify_counts`: a zero word is skipped, any other is mapped pair by pair; every byte ends in its bucket. */
  method ClassifyCounts(m: array<bv8>, table: array<bv16>)
    requires m.Length % 8 == 0 && PairTable(table[..])
    modifies m
    ensures forall k :: 0 <= k < m.Length ==> m[k] == Bucket(old(m[k]))
  {
    hide PairTable, LoadAt, Class;
    var i, at := m.Length / 8, 0;
    while i > 0
      invariant 0 <= i && 0 <= at && at + 8 * i == m.Length
      invariant forall k :: 0 <= k < at ==> m[k] == Bucket(old(m[k]))
      invariant forall k :: at <= k < m.Length ==> m[k] == old(m[k])
    {
      i := i - 1;
      var word := LoadAt(m[..], at);
      if word != 0 {
        ClassifyWord(m, at, table);
      } else {
        ZeroWord(m[..], at);
      }
      at := at + 8;
    }
  }

  method ClassifyWord(m: array<bv8>, i: nat, table: array<bv16>)
    requires i + 8 <= m.Length && PairTable(table[..])
    modifies m
    ensures forall k :: i <= k < i + 8 ==> m[k] == Bucket(old(m[k]))
    ensures forall k :: 0 <= k < m.Length && !(i <= k < i + 8) ==> m[k] == old(m[k])
  {
    hide PairTable, Bucket;
    ClassifyPair(m, i, table);
    ClassifyPair(m, i + 2, table);
    ClassifyPair(m, i + 4, table);
    ClassifyPair(m, i + 6, table);
  }

  /** The skipped words are the ones classification would not change. */
  lemma ZeroWord(m: seq<bv8>, i: nat)
    requires i + 8 <= |m| && LoadAt(m, i) == 0
    ensures forall k :: i <= k < i + 8 ==> m[k] == Bucket(m[k])
  {
    LoadZero(m[i], m[i + 1], m[i + 2], m[i + 3], m[i + 4], m[i + 5], m[i + 6], m[i + 7]);
    forall k | i <= k < i + 8 ensures m[k] == Bucket(m[k]) {
      assert m[k] == 0;
    }
  }

  // ---------------------------------------------------------------- all traces so far

  /** The bits of slot i that no recorded trace has set. */
  ghost function Unseen(history: seq<seq<bv8>>, i: nat): bv8 {
    if |history| == 0 then 0xff
    else
      var h := history[|history| - 1];
      Minus(Unseen(history[..|history| - 1], i), if i < |h| then Bucket(h[i]) else 0)
  }

  lemma BucketSingle(x: bv8, y: bv8)
    ensures Bucket(x) == 0 <==> x == 0
    ensures Common(Bucket(x), Bucket(y)) != 0 <==> Bucket(x) == Bucket(y) && x != 0
  {
  }

  lemma MinusKeeps(b: bv8, u: bv8, h: bv8)
    requires b == 0 || b == 1 || b == 2 || b == 4 || b == 8 || b == 16 || b == 32 || b == 64 || b == 128
    ensures Common(b, Minus(u, h)) != 0 <==> Common(b, u) != 0 && Common(b, h) == 0
  {
  }

  lemma BucketOneBit(x: bv8)
    ensures var b := Bucket(x);
      b == 0 || b == 1 || b == 2 || b == 4 || b == 8 || b == 16 || b == 32 || b == 64 || b == 128
  {
  }

  /** A trace of raw counts: slot i lies in a range that no earlier trace has had there. */
  ghost predicate FreshBucket(history: seq<seq<bv8>>, raw: seq<bv8>, i: nat)
    requires i < |raw|
  {
    raw[i] != 0 && forall h: seq<bv8> :: h in history && i < |h| ==> !SameRange(h[i] as nat, raw[i] as nat)
  }

  /** Slot i is hit and no earlier trace has hit it. */
  ghost predicate FreshSlot(history: seq<seq<bv8>>, raw: seq<bv8>, i: nat)
    requires i < |raw|
  {
    raw[i] != 0 && forall h: seq<bv8> :: h in history && i < |h| ==> h[i] == 0
  }

  lemma InInit(history: seq<seq<bv8>>, h: seq<bv8>)
    requires |history| > 0
    ensures h in history <==> h in history[..|history| - 1] || h == history[|history| - 1]
  {
    assert history == history[..|history| - 1] + [history[|history| - 1]];
  }

  lemma {:induction false} UnseenBucket(history: seq<seq<bv8>>, raw: seq<bv8>, i: nat)
    requires i < |raw|
    ensures Common(Bucket(raw[i]), Unseen(history, i)) != 0 <==> FreshBucket(history, raw, i)
  {
    hide Bucket, Common, Minus, SameRange;
    if |history| == 0 {
      AllVirgin(raw[i]);
    } else {
      var init, h := history[..|history| - 1], history[|history| - 1];
      UnseenBucket(init, raw, i);
      BucketOneBit(raw[i]);
      var x := if i < |h| then h[i] else 0;
      BucketSingle(raw[i], x);
      BucketSingle(x, x);
      SameBucket(x, raw[i]);
      MinusKeeps(Bucket(raw[i]), Unseen(init, i), Bucket(x));
      forall g ensures g in history <==> g in init || g == h { InInit(history, g); }
    }
  }

  lemma AllVirgin(x: bv8)
    ensures Common(Bucket(x), 0xff) != 0 <==> x != 0
  {
  }

  lemma MinusFull(u: bv8, h: bv8)
    ensures Minus(u, h) == 0xff <==> u == 0xff && h == 0
  {
  }

  lemma {:induction false} UnseenSlot(history: seq<seq<bv8>>, raw: seq<bv8>, i: nat)
    requires i < |raw|
    ensures raw[i] != 0 && Unseen(history, i) == 0xff <==> FreshSlot(history, raw, i)
  {
    hide Bucket, Common, Minus;
    if |history| > 0 {
      var init, h := history[..|history| - 1], history[|history| - 1];
      UnseenSlot(init, raw, i);
      var x := if i < |h| then h[i] else 0;
      BucketSingle(x, x);
      BucketSingle(0, 0);
      MinusFull(Unseen(init, i), Bucket(x));
      forall g ensures g in history <==> g in init || g == h { InInit(history, g); }
    }
  }

  /** The novelty map with everything it has recorded. */
  class NoveltyMap {
    const virgin: array<bv8>
    const table: array<bv16>
    /** The raw traces recorded so far. */
    ghost var history: seq<seq<bv8>>

    /** A fresh map, of a size that whole words fill. */
    constructor (size: nat)
      requires size % 8 == 0
      ensures Valid() && history == [] && virgin.Length == size && fresh(virgin) && fresh(table)
    {
      virgin := new bv8[size](i => 0xff);
      table := new bv16[0x1_0000];
      history := [];
      new;
      InitCountClass16(table);
    }

    ghost predicate Valid()
      reads this, virgin, table
    {
      && virgin.Length % 8 == 0 && PairTable(table[..])
      && forall i :: 0 <= i < virgin.Length ==> virgin[i] == Unseen(history, i)
    }

    /**
     Classifies a raw trace in place and looks for news: 2 exactly when it hits a slot no
     recorded trace has hit, non-zero exactly when a slot is in a bucket it has not been
     in before; then the trace is recorded.
     */
    method Inspect(trace: array<bv8>) returns (ret: nat)
      requires Valid() && trace != virgin && trace.Length == virgin.Length
      modifies this, virgin, trace
      ensures Valid() && history == old(history) + [old(trace[..])] && ret <= 2
      ensures ret == 2 <==> exists i: nat :: i < |old(trace[..])| && FreshSlot(old(history), old(trace[..]), i)
      ensures ret != 0 <==> exists i: nat :: i < |old(trace[..])| && FreshBucket(old(history), old(trace[..]), i)
    {
      hide PairTable, Unseen, FreshSlot, FreshBucket, Bucket;
      ghost var raw, was := trace[..], virgin[..];
      ClassifyCounts(trace, table);
      ghost var cur := trace[..];
      ret := HasNewBits(trace, virgin);
      VerdictMeaning(history, raw, cur, was);
      history := history + [raw];
      assert history[..|history| - 1] == old(history);
      UnseenMore(history, raw, cur, was, virgin[..]);
    }
  }

  lemma VerdictMeaning(history: seq<seq<bv8>>, raw: seq<bv8>, cur: seq<bv8>, vir: seq<bv8>)
    requires |raw| == |cur| == |vir|
    requires forall i :: 0 <= i < |raw| ==> cur[i] == Bucket(raw[i]) && vir[i] == Unseen(history, i)
    ensures Verdict(cur, vir, |cur|) == 2 <==> exists i: nat :: i < |raw| && FreshSlot(history, raw, i)
    ensures Verdict(cur, vir, |cur|) != 0 <==> exists i: nat :: i < |raw| && FreshBucket(history, raw, i)
  {
    hide Bucket, Unseen, FreshSlot, FreshBucket;
    forall i: nat | i < |raw|
      ensures NewSlot(cur, vir, i) <==> FreshSlot(history, raw, i)
      ensures NewBit(cur, vir, i) <==> FreshBucket(history, raw, i)
      ensures NewSlot(cur, vir, i) ==> NewBit(cur, vir, i)
    {
      BucketSingle(raw[i], raw[i]);
      UnseenSlot(history, raw, i);
      UnseenBucket(history, raw, i);
      SlotIsBit(cur, vir, i);
    }
    hide NewSlot, NewBit;
    if i: nat :| i < |raw| && FreshSlot(history, raw, i) {
      assert NewSlot(cur, vir, i);
    }
    if i: nat :| i < |raw| && FreshBucket(history, raw, i) {
      assert NewBit(cur, vir, i);
    }
  }

  lemma UnseenMore(history: seq<seq<bv8>>, raw: seq<bv8>, cur: seq<bv8>, vir: seq<bv8>, now: seq<bv8>)
    requires |raw| == |cur| == |vir| && |history| > 0 && history[|history| - 1] == raw
    requires forall i :: 0 <= i < |raw| ==> cur[i] == Bucket(raw[i]) && vir[i] == Unseen(history[..|history| - 1], i)
    requires Recorded(cur, vir, now, |cur|)
    ensures forall i :: 0 <= i < |raw| ==> now[i] == Unseen(history, i)
  {
    hide Bucket, Minus;
  }

  /** A trace whose counts all lie in buckets recorded before has no news; in particular one recorded already. */
  lemma RepeatIsOld(history: seq<seq<bv8>>, h: seq<bv8>, raw: seq<bv8>)
    requires h in history && |h| == |raw| && forall i :: 0 <= i < |raw| ==> SameRange(h[i] as nat, raw[i] as nat)
    ensures !exists i: nat :: i < |raw| && FreshBucket(history, raw, i)
  {
  }
}

