/**
 `$writemem` and `$readmem` for arrays and for associative arrays, and reading back what
 was written.
 */
module MemFile {
  import opened Bits
  import opened Wide
  import opened Wrappers
  import opened MemFormat
  import opened MemReader

  // ---------------------------------------------------------------- the writer

  /** The address the writer expects after some elements. */
  function NextAddr(recs: seq<Rec>, m: nat): nat {
    if |recs| == 0 then m else (recs[|recs| - 1].addr + 1) % TWO64
  }

  lemma {:induction false} PrintedSnoc(recs: seq<Rec>, r: Rec, stamps: bool, m: nat)
    ensures Printed(recs + [r], stamps, m)
         == Printed(recs, stamps, m)
           + (if stamps && r.addr != NextAddr(recs, m) then Stamp(r.addr) else "") + r.digits + "\n"
  {
    hide Stamp;
    if |recs| == 0 {
      assert recs + [r] == [r] && [r][1..] == [];
    } else {
      assert (recs + [r])[1..] == recs[1..] + [r];
      PrintedSnoc(recs[1..], r, stamps, (recs[0].addr + 1) % TWO64);
      assert NextAddr(recs[1..], (recs[0].addr + 1) % TWO64) == NextAddr(recs, m);
      SnocText(if stamps && recs[0].addr != m then Stamp(recs[0].addr) else "", recs[0].digits,
        Printed(recs[1..], stamps, (recs[0].addr + 1) % TWO64),
        if stamps && r.addr != NextAddr(recs, m) then Stamp(r.addr) else "", r.digits);
    }
  }

  lemma SnocText(a: string, b: string, c: string, d: string, e: string)
    ensures a + b + "\n" + (c + d + e + "\n") == a + b + "\n" + c + d + e + "\n"
  {
  }

  /** Without stamps the expected address does not matter. */
  lemma {:induction false} PrintedNoStamps(recs: seq<Rec>, m: nat, n: nat)
    ensures Printed(recs, false, m) == Printed(recs, false, n)
  {
  }

  class VlWriteMem {
    const bits: nat
    const addrstamp: bool
    var addr: nat
    var text: string
    /** The elements printed so far. */
    ghost var recs: seq<Rec>

    constructor (bits: nat, addrstamp: bool)
      ensures Valid() && recs == [] && this.bits == bits && this.addrstamp == addrstamp
    {
      this.bits, this.addrstamp, addr, text, recs := bits, addrstamp, 0, "", [];
    }

    ghost predicate Valid() reads this {
      && text == Printed(recs, addrstamp, 0) && addr == NextAddr(recs, 0) && GoodRecs(recs)
    }

    /** `VlWriteMem::print`. */
    method Print(addr: nat, ws: seq<word>)
      requires Valid() && bits >= 1 && |ws| == Words(bits) && addr < TWO64
      modifies this
      ensures Valid() && |recs| == |old(recs)| + 1 && recs[..|old(recs)|] == old(recs)
      ensures recs[|old(recs)|].addr == addr && Shows(recs[|old(recs)|].digits, bits, ws)
    {
      hide Printed, Stamp, Shows, AllHex;
      ghost var was := text;
      var line := PrintElement(bits, ws);
      ghost var r := Rec(addr, line[..|line| - 1]);
      assert line == r.digits + "\n";
      ShownDigits(r.digits, bits, ws);
      PrintedSnoc(recs, r, addrstamp, 0);
      if addr != this.addr && addrstamp {
        text := text + ("@" + HexMin(addr) + "\n");
        StampIs(addr);
      }
      this.addr := (addr + 1) % TWO64;
      text := text + line;
      LineText(was, if addrstamp && addr != NextAddr(recs, 0) then Stamp(addr) else "", r.digits);
      recs := recs + [r];
    }
  }

  lemma StampIs(addr: nat)
    ensures Stamp(addr) == "@" + HexMin(addr) + "\n"
  {
  }

  lemma LineText(a: string, b: string, c: string)
    ensures a + b + (c + "\n") == a + b + c + "\n" && a + "" == a
  {
  }

  lemma ShownDigits(s: string, bits: nat, ws: seq<word>)
    requires bits >= 1 && Shows(s, bits, ws)
    ensures AllHex(s) && |s| > 0
  {
  }

  // ---------------------------------------------------------------- arrays

  datatype Written = Written(text: string) | Invalid

  /** The elements printed for the rows from first to last. */
  ghost predicate RowsShown(recs: seq<Rec>, mem: seq<seq<word>>, bits: nat, lsb: nat, first: nat, n: nat)
    requires bits >= 1
  {
    && |recs| == n && lsb <= first && first - lsb + n <= |mem|
    && forall k :: 0 <= k < n ==> recs[k].addr == first + k && Shows(recs[k].digits, bits, mem[first - lsb + k])
  }

  /** `VL_WRITEMEM_N` for an array; binary output and an empty range are refused. */
  method WriteMem(hex: bool, bits: nat, lsb: nat, mem: seq<seq<word>>, start: nat, end: nat)
      returns (out: Written, ghost recs: seq<Rec>)
    requires bits >= 1 && |mem| > 0 && lsb + |mem| < TWO64 && forall r :: r in mem ==> |r| == Words(bits)
    ensures var first, last := Clip(start, lsb), ClipEnd(end, lsb + |mem| - 1);
      && (out.Invalid? <==> !hex || first > last)
      && (out.Written? ==> GoodRecs(recs) && RowsShown(recs, mem, bits, lsb, first, last - first + 1)
                           && out.text == Printed(recs, false, first))
  {
    hide Printed, Shows;
    var addrMax := lsb + |mem| - 1;
    var first := if start < lsb then lsb else start;
    var last := if end > addrMax then addrMax else end;
    recs := [];
    if !hex || first > last {
      return Invalid, [];
    }
    var wmem := new VlWriteMem(bits, false);
    var addr := first;
    while addr <= last
      invariant first <= addr <= last + 1
      invariant wmem.Valid() && fresh(wmem) && wmem.bits == bits && !wmem.addrstamp
      invariant RowsShown(wmem.recs, mem, bits, lsb, first, addr - first)
    {
      assert mem[addr - lsb] in mem;
      wmem.Print(addr, mem[addr - lsb]);
      addr := addr + 1;
    }
    recs := wmem.recs;
    PrintedNoStamps(recs, 0, first);
    out := Written(wmem.text);
  }

  function Clip(start: nat, lsb: nat): nat { if start < lsb then lsb else start }

  function ClipEnd(end: nat, max: nat): nat { if end > max then max else end }

  /** The values of rows. */
  ghost predicate RowsAre(mem: seq<seq<word>>, vals: seq<nat>, bits: nat) {
    |mem| == |vals| && forall k :: 0 <= k < |mem| ==> |mem[k]| == Words(bits) && Val(mem[k]) == vals[k]
  }

  /** What the elements of a file make of an array, or None when an address is out of bounds; n counts elements. */
  ghost function Applied(vals: seq<nat>, recs: seq<Rec>, bits: nat, lsb: nat, draw: nat -> nat -> nat,
                         n: nat): Option<seq<nat>>
    decreases |recs|
  {
    if |recs| == 0 then Some(vals)
    else if recs[0].addr < lsb || recs[0].addr >= lsb + |vals| then None
    else Applied(vals[recs[0].addr - lsb := HexNat(Resolved(recs[0].digits, draw(n))) % Pow2(bits)], recs[1..], bits,
      lsb, draw, n + 1)
  }

  /** The file ends without an error. */
  predicate EndsWell(last: Outcome, end: nat) {
    last.End? && (end == NO_END || last.addr > end)
  }

  /** `VL_READMEM_N` for an array, in hexadecimal. */
  method ReadMem(bits: nat, lsb: nat, text: string, mem: array<seq<word>>, start: nat, end: nat,
                 random: nat -> nat, draw: nat -> nat -> nat, ghost vals: seq<nat>)
      returns (fatal: bool, ghost now: seq<nat>)
    requires bits >= 1 && lsb + mem.Length < TWO64 && RowsAre(mem[..], vals, bits)
    modifies mem
    ensures RowsAre(mem[..], now, bits)
    ensures var (recs, last) := ReadAll(text, 0, Clip(start, lsb), true, random);
      var result := Applied(vals, recs, bits, lsb, draw, 0);
      (fatal <==> result.None? || !EndsWell(last, end)) && (!fatal ==> result == Some(now))
  {
    hide Scan, HexNat, Pow2, Resolved, Val;
    var first := if start < lsb then lsb else start;
    var rmem := new VlReadMem(true, text, first, end, random);
    fatal, now := false, vals;
    var n := 0;
    while true
      invariant 0 <= n && fresh(rmem) && rmem.hex && rmem.text == text && rmem.end == end && rmem.random == random
      invariant RowsAre(mem[..], now, bits) && |now| == mem.Length == |vals|
      invariant Applied(now, ReadAll(text, rmem.pos, rmem.addr, true, random).0, bits, lsb, draw, n)
             == Applied(vals, ReadAll(text, 0, first, true, random).0, bits, lsb, draw, 0)
      invariant ReadAll(text, rmem.pos, rmem.addr, true, random).1 == ReadAll(text, 0, first, true, random).1
      decreases |text| - rmem.pos
    {
      ghost var pos, at := rmem.pos, rmem.addr;
      ScanAdvances(text, pos, Start(at), true, random);
      ScanDigitsOnly(text, pos, Start(at), random);
      var ok, bad, addr, value := rmem.Get();
      if !ok {
        fatal := bad;
        return;
      }
      if addr < lsb || addr >= lsb + mem.Length {
        fatal := true;
        return;
      }
      SetRow(bits, mem, addr - lsb, value, draw(n), now);
      now := now[addr - lsb := HexNat(Resolved(value, draw(n))) % Pow2(bits)];
      n := n + 1;
    }
  }

  /** `setData` on one row of the array. */
  method SetRow(bits: nat, mem: array<seq<word>>, k: nat, value: string, draw: nat -> nat, ghost vals: seq<nat>)
    requires bits >= 1 && RowsAre(mem[..], vals, bits) && k < mem.Length
    requires |value| > 0 && forall i :: 0 <= i < |value| ==> IsXDigit(value[i]) || IsX(value[i])
    modifies mem
    ensures RowsAre(mem[..], vals[k := HexNat(Resolved(value, draw)) % Pow2(bits)], bits)
  {
    hide HexNat, Pow2, Resolved, Val, IsXDigit, IsX, HoldsDigits;
    var row := mem[k];
    assert |mem[..][k]| == Words(bits);
    var datap := new word[|row|](i requires 0 <= i < |row| => row[i]);
    SetData(true, bits, datap, value, draw);
    DigitsHeld(datap[..], bits, Resolved(value, draw));
    mem[k] := datap[..];
  }

  lemma DigitsHeld(ws: seq<word>, bits: nat, s: string)
    requires HoldsDigits(ws, bits, s, 4)
    ensures Val(ws) == HexNat(s) % Pow2(bits)
  {
  }

  /** What `get` returns is a run of digits, some of which may be unknown. */
  lemma {:induction false} ScanDigitsOnly(text: string, pos: nat, s: Scanner, random: nat -> nat)
    requires forall i :: 0 <= i < |s.value| ==> IsXDigit(s.value[i]) || IsX(s.value[i])
    requires s.inData ==> |s.value| > 0
    ensures var out := Scan(text, pos, s, true, random);
      out.Got? ==> |out.value| > 0 && forall i :: 0 <= i < |out.value| ==> IsXDigit(out.value[i]) || IsX(out.value[i])
    decreases |text| - pos
  {
    if pos < |text| {
      var c := text[pos];
      ScanDigitsOnly(text, pos + 1, s, random);
      EatDigits(s, c, random(pos));
      var (t, ok) := Eat(s, c, true, random(pos));
      hide Eat;
      ScanDigitsOnly(text, pos + 1, t, random);
    }
  }

  lemma EatDigits(s: Scanner, c: char, random: nat)
    requires forall i :: 0 <= i < |s.value| ==> IsXDigit(s.value[i]) || IsX(s.value[i])
    requires s.inData ==> |s.value| > 0
    ensures var t := Eat(s, c, true, random).0;
      (forall i :: 0 <= i < |t.value| ==> IsXDigit(t.value[i]) || IsX(t.value[i])) && (t.inData ==> |t.value| > 0)
  {
  }

  // ---------------------------------------------------------------- arrays, read back

  /** Digits as the writer prints them are taken as they are. */
  lemma PrintedResolved(s: string, draw: nat -> nat)
    requires AllHex(s)
    ensures Resolved(s, draw) == s
  {
    forall i | 0 <= i < |s| ensures Resolved(s, draw)[i] == s[i] {
      assert IsHexDigit(s[i]);
      assert Resolved(s, draw)[i] == ResolvedChar(s[i], draw(i) % 16);
    }
  }

  /** The target with the rows from `first` on replaced by the first n source rows, cut to the width. */
  ghost function Overlaid(vals: seq<nat>, mem: seq<seq<word>>, bits: nat, at: nat, n: nat): seq<nat>
    requires |mem| == |vals| && at + n <= |vals|
  {
    seq(|vals|, k requires 0 <= k < |vals| => if at <= k < at + n then Val(mem[k]) % Pow2(bits) else vals[k])
  }

  lemma {:induction false} AppliedRows(vals: seq<nat>, recs: seq<Rec>, mem: seq<seq<word>>, bits: nat, lsb: nat,
                                       first: nat, draw: nat -> nat -> nat, n: nat)
    requires bits >= 1 && |mem| == |vals| && RowsShown(recs, mem, bits, lsb, first, |recs|)
    ensures Applied(vals, recs, bits, lsb, draw, n) == Some(Overlaid(vals, mem, bits, first - lsb, |recs|))
    decreases |recs|
  {
    hide HexNat, Val, Pow2, Resolved, Shows;
    if |recs| == 0 {
      assert Overlaid(vals, mem, bits, first - lsb, 0) == vals;
    } else {
      var r, k := recs[0], first - lsb;
      assert r.addr == first + 0 && Shows(r.digits, bits, mem[k + 0]);
      ShownValue(r.digits, bits, mem[k], draw(n));
      var now := vals[k := Val(mem[k]) % Pow2(bits)];
      forall i | 0 <= i < |recs[1..]|
        ensures recs[1..][i].addr == first + 1 + i && Shows(recs[1..][i].digits, bits, mem[first + 1 - lsb + i])
      {
        assert recs[i + 1].addr == first + (i + 1);
      }
      AppliedRows(now, recs[1..], mem, bits, lsb, first + 1, draw, n + 1);
      assert Overlaid(now, mem, bits, k + 1, |recs| - 1) == Overlaid(vals, mem, bits, k, |recs|);
    }
  }

  lemma ShownValue(s: string, bits: nat, ws: seq<word>, draw: nat -> nat)
    requires bits >= 1 && Shows(s, bits, ws)
    ensures HexNat(Resolved(s, draw)) % Pow2(bits) == Val(ws) % Pow2(bits)
  {
    PrintedResolved(s, draw);
    hide HexNat, Val, Pow2, Resolved;
    ModOfMod(Val(ws), Pow2(bits));
  }

  lemma ModOfMod(x: nat, m: nat)
    requires m > 0
    ensures x % m % m == x % m
  {
    DivModUnique(x % m, m, 0, x % m);
  }

  lemma {:induction false} RowsExpected(recs: seq<Rec>, mem: seq<seq<word>>, bits: nat, lsb: nat, first: nat)
    requires bits >= 1 && RowsShown(recs, mem, bits, lsb, first, |recs|) && first + |recs| < TWO64
    ensures Expected(recs, false, first) && NextAddr(recs, first) == first + |recs|
    decreases |recs|
  {
    hide Shows;
    if |recs| > 0 {
      assert recs[0].addr == first + 0;
      assert recs[|recs| - 1].addr == first + (|recs| - 1);
      forall i | 0 <= i < |recs[1..]|
        ensures recs[1..][i].addr == first + 1 + i && Shows(recs[1..][i].digits, bits, mem[first + 1 - lsb + i])
      {
        assert recs[i + 1].addr == first + (i + 1);
      }
      RowsExpected(recs[1..], mem, bits, lsb, first + 1);
    }
  }

  /**
   Reading the text written for the rows from first to last restores each of them, cut
   to the element width, and leaves the other rows; whether the reader complains depends
   only on the end address it was given.
   */
  lemma ArrayReadBack(mem: seq<seq<word>>, vals: seq<nat>, recs: seq<Rec>, text: string, bits: nat, lsb: nat,
                      first: nat, n: nat, end: nat, random: nat -> nat, draw: nat -> nat -> nat)
    requires bits >= 1 && |mem| == |vals| && lsb + |mem| < TWO64
    requires GoodRecs(recs) && RowsShown(recs, mem, bits, lsb, first, n) && text == Printed(recs, false, first)
    ensures var (got, last) := ReadAll(text, 0, Clip(first, lsb), true, random);
      && Applied(vals, got, bits, lsb, draw, 0) == Some(Overlaid(vals, mem, bits, first - lsb, n))
      && (EndsWell(last, end) <==> end == NO_END || end < first + n)
  {
    hide Shows, Printed, GoodRecs, Overlaid, Applied, ReadAll;
    RowsExpected(recs, mem, bits, lsb, first);
    assert text[0..] == text && "" + text == text;
    PrintedReadBack(recs, false, first, text, 0, false, random);
    AppliedRows(vals, recs, mem, bits, lsb, first, draw, 0);
  }

  // ---------------------------------------------------------------- associative arrays

  ghost predicate AscendingKeys(keys: seq<nat>) {
    forall i, j :: 0 <= i < j < |keys| ==> keys[i] < keys[j]
  }

  /** The elements printed for the keys within a range. */
  ghost predicate KeysShown(recs: seq<Rec>, keys: seq<nat>, m: map<nat, seq<word>>, bits: nat, start: nat, end: nat)
    requires bits >= 1
  {
    && (forall r :: r in recs ==>
         r.addr in m && r.addr in keys && start <= r.addr <= end && Shows(r.digits, bits, m[r.addr]))
    && (forall k :: k in keys && start <= k <= end ==> exists r :: r in recs && r.addr == k)
    && forall i, j :: 0 <= i < j < |recs| ==> recs[i].addr < recs[j].addr
  }

  /** `VL_WRITEMEM_N` for an associative array, whose keys are iterated in ascending order. */
  method WriteAssoc(hex: bool, bits: nat, keys: seq<nat>, m: map<nat, seq<word>>, start: nat, end: nat)
      returns (out: Written, ghost recs: seq<Rec>)
    requires bits >= 1 && AscendingKeys(keys) && (forall k :: k in keys <==> k in m)
    requires forall k :: k in m ==> k < TWO64 && |m[k]| == Words(bits)
    ensures out.Invalid? <==> !hex || start > end
    ensures out.Written? ==>
      GoodRecs(recs) && KeysShown(recs, keys, m, bits, start, end) && out.text == Printed(recs, true, 0)
  {
    hide Printed, Shows, GoodRecs, KeysShown;
    recs := [];
    NoKeyShown(m, bits, start, end);
    if !hex || start > end {
      return Invalid, [];
    }
    var wmem := new VlWriteMem(bits, true);
    for i := 0 to |keys|
      invariant wmem.Valid() && fresh(wmem) && wmem.bits == bits && wmem.addrstamp
      invariant KeysShown(wmem.recs, keys[..i], m, bits, start, end)
    {
      var addr := keys[i];
      assert addr in keys;
      ghost var was := wmem.recs;
      assert keys[..i + 1] == keys[..i] + [addr];
      if start <= addr <= end {
        wmem.Print(addr, m[addr]);
        KeyShown(was, wmem.recs, keys[..i], addr, m, bits, start, end);
      } else {
        KeySkipped(was, keys[..i], addr, m, bits, start, end);
      }
    }
    recs := wmem.recs;
    assert keys[..|keys|] == keys;
    out := Written(wmem.text);
  }

  lemma NoKeyShown(m: map<nat, seq<word>>, bits: nat, start: nat, end: nat)
    requires bits >= 1
    ensures KeysShown([], [], m, bits, start, end)
  {
  }

  lemma KeyShown(was: seq<Rec>, recs: seq<Rec>, keys: seq<nat>, addr: nat, m: map<nat, seq<word>>, bits: nat,
                 start: nat, end: nat)
    requires bits >= 1 && KeysShown(was, keys, m, bits, start, end) && addr in m && start <= addr <= end
    requires forall k :: k in keys ==> k < addr
    requires |recs| == |was| + 1 && recs[..|was|] == was && recs[|was|].addr == addr &&
      Shows(recs[|was|].digits, bits, m[addr])
    ensures KeysShown(recs, keys + [addr], m, bits, start, end)
  {
    hide Shows;
    assert recs == was + [recs[|was|]];
    forall k | k in keys + [addr] && start <= k <= end ensures exists r :: r in recs && r.addr == k {
      if k == addr {
        assert recs[|was|] in recs;
      } else {
        var r :| r in was && r.addr == k;
        assert r in recs;
      }
    }
  }

  lemma KeySkipped(was: seq<Rec>, keys: seq<nat>, addr: nat, m: map<nat, seq<word>>, bits: nat, start: nat, end: nat)
    requires bits >= 1 && KeysShown(was, keys, m, bits, start, end) && !(start <= addr <= end)
    ensures KeysShown(was, keys + [addr], m, bits, start, end)
  {
    hide Shows;
    forall k | k in keys + [addr] && start <= k <= end ensures exists r :: r in was && r.addr == k {
      assert k in keys;
    }
  }

  /** What the elements of a file make of an associative array. */
  ghost function AssocApplied(vals: map<nat, nat>, recs: seq<Rec>, bits: nat, draw: nat -> nat -> nat,
                              n: nat): map<nat, nat>
    decreases |recs|
  {
    if |recs| == 0 then vals
    else AssocApplied(vals[recs[0].addr := HexNat(Resolved(recs[0].digits, draw(n))) % Pow2(bits)], recs[1..], bits,
      draw, n + 1)
  }

  ghost predicate EntriesAre(m: map<nat, seq<word>>, vals: map<nat, nat>, bits: nat) {
    m.Keys == vals.Keys && forall k :: k in m ==> |m[k]| == Words(bits) && Val(m[k]) == vals[k]
  }

  class VlAssocArray {
    var contents: map<nat, seq<word>>

    constructor () ensures contents == map[] { contents := map[]; }

    /** `VL_READMEM_N` for an associative array, in hexadecimal. */
    method ReadMem(bits: nat, text: string, start: nat, end: nat, random: nat -> nat, draw: nat -> nat -> nat,
                   ghost vals: map<nat, nat>)
        returns (fatal: bool, ghost now: map<nat, nat>)
      requires bits >= 1 && EntriesAre(contents, vals, bits)
      modifies this
      ensures EntriesAre(contents, now, bits)
      ensures var (recs, last) := ReadAll(text, 0, start, true, random);
        now == AssocApplied(vals, recs, bits, draw, 0) && (fatal <==> !EndsWell(last, end))
    {
      hide Scan, HexNat, Pow2, Resolved, Val;
      var rmem := new VlReadMem(true, text, start, end, random);
      fatal, now := false, vals;
      var n := 0;
      while true
        invariant 0 <= n && fresh(rmem) && rmem.hex && rmem.text == text && rmem.end == end && rmem.random == random
        invariant EntriesAre(contents, now, bits)
        invariant AssocApplied(now, ReadAll(text, rmem.pos, rmem.addr, true, random).0, bits, draw, n)
               == AssocApplied(vals, ReadAll(text, 0, start, true, random).0, bits, draw, 0)
        invariant ReadAll(text, rmem.pos, rmem.addr, true, random).1 == ReadAll(text, 0, start, true, random).1
        decreases |text| - rmem.pos
      {
        ghost var pos, at := rmem.pos, rmem.addr;
        ScanAdvances(text, pos, Start(at), true, random);
        ScanDigitsOnly(text, pos, Start(at), random);
        var ok, bad, addr, value := rmem.Get();
        if !ok {
          fatal := bad;
          return;
        }
        var datap := new word[Words(bits)](i => 0);
        SetData(true, bits, datap, value, draw(n));
        contents := contents[addr := datap[..]];
        now := now[addr := HexNat(Resolved(value, draw(n))) % Pow2(bits)];
        DigitsHeld(datap[..], bits, Resolved(value, draw(n)));
        n := n + 1;
      }
    }
  }

  lemma {:induction false} AssocAppliedKeys(vals: map<nat, nat>, recs: seq<Rec>, m: map<nat, seq<word>>, bits: nat,
                                            draw: nat -> nat -> nat, n: nat)
    requires bits >= 1 && forall r :: r in recs ==> r.addr in m && Shows(r.digits, bits, m[r.addr])
    ensures var now := AssocApplied(vals, recs, bits, draw, n);
      forall k :: (k in now <==> k in vals || exists r :: r in recs && r.addr == k)
        && ((exists r :: r in recs && r.addr == k) ==> k in now && k in m && now[k] == Val(m[k]) % Pow2(bits))
        && (k in vals && !(exists r :: r in recs && r.addr == k) ==> k in now && now[k] == vals[k])
    decreases |recs|
  {
    hide HexNat, Val, Pow2, Resolved, Shows;
    if |recs| > 0 {
      var r := recs[0];
      assert recs == [r] + recs[1..];
      assert r in recs;
      ShownValue(r.digits, bits, m[r.addr], draw(n));
      AssocAppliedKeys(vals[r.addr := Val(m[r.addr]) % Pow2(bits)], recs[1..], m, bits, draw, n + 1);
    }
  }

  /**
   Reading what was written for an associative array, from address 0 and without an end
   address, into an empty one gives exactly the entries of the range, cut to the width.
   */
  lemma AssocReadBack(keys: seq<nat>, m: map<nat, seq<word>>, recs: seq<Rec>, text: string, bits: nat, start: nat,
                      end: nat, random: nat -> nat, draw: nat -> nat -> nat)
    requires bits >= 1 && (forall k :: k in keys <==> k in m)
    requires GoodRecs(recs) && KeysShown(recs, keys, m, bits, start, end) && text == Printed(recs, true, 0)
    ensures var (got, last) := ReadAll(text, 0, 0, true, random);
      var now := AssocApplied(map[], got, bits, draw, 0);
      && EndsWell(last, NO_END)
      && (forall k :: k in now <==> k in m && start <= k <= end)
      && (forall k :: k in now ==> now[k] == Val(m[k]) % Pow2(bits))
  {
    hide Shows, Printed, GoodRecs, AssocApplied, ReadAll;
    StampedExpected(recs, 0);
    assert text[0..] == text && "" + text == text;
    PrintedReadBack(recs, true, 0, text, 0, false, random);
    AssocAppliedKeys(map[], recs, m, bits, draw, 0);
  }

  /** The entries of a range, cut to the width. */
  ghost predicate IsRestriction(now: map<nat, nat>, m: map<nat, seq<word>>, bits: nat, start: nat, end: nat) {
    && (forall k :: k in now <==> k in m && start <= k <= end)
    && (forall k :: k in now ==> k in m && now[k] == Val(m[k]) % Pow2(bits))
  }

  lemma {:induction false} AssocAppliedDomain(vals: map<nat, nat>, recs: seq<Rec>, bits: nat, draw: nat -> nat -> nat,
                                              n: nat)
    ensures forall k: nat :: k in AssocApplied(vals, recs, bits, draw, n) <==> k in vals || HasAddr(recs, k)
    decreases |recs|
  {
    if |recs| > 0 {
      hide HexNat, Pow2, Resolved;
      var v := HexNat(Resolved(recs[0].digits, draw(n))) % Pow2(bits);
      AssocAppliedDomain(vals[recs[0].addr := v], recs[1..], bits, draw, n + 1);
      forall k: nat ensures HasAddr(recs, k) <==> k == recs[0].addr || HasAddr(recs[1..], k) {
        HasAddrTail(recs, k);
      }
    }
  }

  lemma HasAddrTail(recs: seq<Rec>, k: nat)
    requires |recs| > 0
    ensures HasAddr(recs, k) <==> k == recs[0].addr || HasAddr(recs[1..], k)
  {
    if i :| 0 <= i < |recs| && recs[i].addr == k {
      assert i > 0 ==> recs[1..][i - 1] == recs[i];
    }
    if i :| 0 <= i < |recs[1..]| && recs[1..][i].addr == k {
      assert recs[i + 1] == recs[1..][i];
    }
  }

  /**
   From any start address: the entries of the range come back if and only if the reader
   starts at 0 or the entry at address 0 is not among them, which is printed without its address.
   */
  lemma AssocReadBackIff(keys: seq<nat>, m: map<nat, seq<word>>, recs: seq<Rec>, bits: nat, start: nat, end: nat,
                         from: nat, random: nat -> nat, draw: nat -> nat -> nat)
    requires bits >= 1 && (forall k :: k in keys <==> k in m) && start <= end
    requires GoodRecs(recs) && KeysShown(recs, keys, m, bits, start, end) && |recs| < TWO64 && from < TWO64
    ensures var (got, last) := ReadAll(Printed(recs, true, 0), 0, from, true, random);
      && EndsWell(last, NO_END)
      && (IsRestriction(AssocApplied(map[], got, bits, draw, 0), m, bits, start, end) <==>
          from == 0 || start > 0 || 0 !in m)
  {
    hide Shows, Printed, AssocApplied, ReadAll, Misread, Pow2, Val;
    var text := Printed(recs, true, 0);
    ListReadBackIff(recs, from, random);
    FirstAddr(recs, keys, m, bits, start, end);
    if from == 0 || start > 0 || 0 !in m {
      AssocAppliedKeys(map[], recs, m, bits, draw, 0);
    } else {
      KeyMissing(recs, keys, m, bits, start, end, from, draw);
    }
  }

  /** An entry of the range that is read to another address is missing. */
  lemma KeyMissing(recs: seq<Rec>, keys: seq<nat>, m: map<nat, seq<word>>, bits: nat, start: nat, end: nat,
                   from: nat, draw: nat -> nat -> nat)
    requires bits >= 1 && (forall k :: k in keys <==> k in m) && KeysShown(recs, keys, m, bits, start, end)
    requires GoodRecs(recs) && AscendingRecs(recs) && 0 < |recs| < TWO64 && recs[0].addr == 0 && 0 < from < TWO64
    ensures !IsRestriction(AssocApplied(map[], Misread(recs, 0, from), bits, draw, 0), m, bits, start, end)
  {
    hide Shows, AssocApplied, Misread;
    var k := MissingAddr(recs, from);
    AssocAppliedDomain(map[], Misread(recs, 0, from), bits, draw, 0);
    var i :| 0 <= i < |recs| && recs[i].addr == k;
    assert recs[i] in recs;
  }

  /** The first element is the one at address 0 exactly when that is an entry of the range. */
  lemma FirstAddr(recs: seq<Rec>, keys: seq<nat>, m: map<nat, seq<word>>, bits: nat, start: nat, end: nat)
    requires bits >= 1 && (forall k :: k in keys <==> k in m) && start <= end &&
      KeysShown(recs, keys, m, bits, start, end)
    ensures |recs| > 0 && recs[0].addr == 0 <==> start == 0 && 0 in m
    ensures AscendingRecs(recs)
  {
    hide Shows;
    if |recs| > 0 { assert recs[0] in recs; }
    if start == 0 && 0 in m {
      var r :| r in recs && r.addr == 0;
      var i :| 0 <= i < |recs| && recs[i] == r;
      assert recs[i].addr == 0;
    }
  }
}
