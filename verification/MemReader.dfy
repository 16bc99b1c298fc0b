/**
 Scanning a memory file for the next element, and scanning what `$writemem` printed.
 */
module MemReader {
  import opened Bits
  import opened MemFormat

  /** The end address that stands for "not specified". */
  const NO_END: nat := TWO64 - 1

  /** The scanner's flags, the address and the digits collected so far. */
  datatype Scanner = Scanner(
    addr: nat, value: string, inData: bool, toEol: bool, toCmt: bool, readingAddr: bool, lastc: char)

  datatype Outcome =
    | Got(addr: nat, value: string, pos: nat, next: nat)
    | End(addr: nat)
    | Fatal

  function Start(addr: nat): Scanner {
    Scanner(addr, "", false, false, false, false, ' ')
  }

  predicate IsBlank(c: char) {
    c == '\t' || c == ' ' || c == '\r' || c == 12 as char
  }

  /** The value of a digit; an x gets some random four bits. */
  function ValueOf(c: char, random: nat): nat {
    if ToLower(c) == 'x' then random else DigitValue(ToLower(c))
  }

  /** How one character outside the special cases changes the scanner, or None for a fatal error. */
  function Eat(s: Scanner, c: char, hex: bool, random: nat): (Scanner, bool) {
    var t := s.(lastc := c);
    if c == '\n' then (t.(toEol := false, readingAddr := false), true)
    else if IsBlank(c) then (t.(readingAddr := false), true)
    else if s.toCmt && s.lastc == '*' && c == '/' then (t.(toCmt := false, readingAddr := false), true)
    else if s.toEol || s.toCmt then (t, true)
    else if s.lastc == '/' && c == '*' then (t.(toCmt := true), true)
    else if s.lastc == '/' && c == '/' then (t.(toEol := true), true)
    else if c == '/' then (t, true)
    else if c == '#' then (t.(toEol := true), true)
    else if c == '@' then (t.(readingAddr := true, addr := 0), true)
    else if IsXDigit(c) || (!s.readingAddr && IsX(c)) then
      var v := ValueOf(c, random);
      if s.readingAddr then (t.(addr := (s.addr * 16 % TWO64 + v) % TWO64, lastc := ToLower(c)), true)
      else (t.(inData := true, value := s.value + [ToLower(c)], lastc := ToLower(c)), hex || v <= 1)
    else (t, false)
  }

  /** `VlReadMem::get` from position pos. */
  function Scan(text: string, pos: nat, s: Scanner, hex: bool, random: nat -> nat): Outcome
    decreases |text| - pos
  {
    if pos >= |text| then End(s.addr)
    else
      var c := text[pos];
      if c == '_' then Scan(text, pos + 1, s, hex, random)
      else if s.inData && !IsXDigit(c) && !IsX(c) then Got(s.addr, s.value, pos, (s.addr + 1) % TWO64)
      else
        var (t, ok) := Eat(s, c, hex, random(pos));
        if ok then Scan(text, pos + 1, t, hex, random) else Fatal
  }

  class VlReadMem {
    const hex: bool
    const text: string
    const end: nat
    const random: nat -> nat
    var pos: nat
    var addr: nat

    constructor (hex: bool, text: string, start: nat, end: nat, random: nat -> nat)
      ensures this.hex == hex && this.text == text && this.end == end && this.random == random
      ensures pos == 0 && addr == start
    {
      this.hex, this.text, this.end, this.random := hex, text, end, random;
      pos, addr := 0, start;
    }

    /** Reads the next element; at the end of the file the last address has to be reached. */
    method Get() returns (ok: bool, fatal: bool, addrr: nat, valuer: string)
      modifies this
      ensures var out := Scan(text, old(pos), Start(old(addr)), hex, random);
        match out
        case Got(a, v, p, n) => ok && !fatal && addrr == a && valuer == v && pos == p && addr == n
        case End(a) => !ok && addr == a && (fatal <==> end != 0xffff_ffff_ffff_ffff && a <= end)
        case Fatal => !ok && fatal
    {
      hide Eat;
      ok, fatal, addrr, valuer := false, false, 0, "";
      var s := Start(addr);
      while pos < |text|
        invariant Scan(text, pos, s, hex, random) == Scan(text, old(pos), Start(old(addr)), hex, random)
        decreases |text| - pos
      {
        var c := text[pos];
        if c == '_' {
          pos := pos + 1;
          continue;
        }
        if s.inData && !IsXDigit(c) && !IsX(c) {
          addrr, valuer := s.addr, s.value;
          addr := (s.addr + 1) % TWO64;
          return true, false, addrr, valuer;
        }
        var (t, good) := Eat(s, c, hex, random(pos));
        if !good {
          fatal := true;
          return;
        }
        s := t;
        pos := pos + 1;
      }
      addr := s.addr;
      fatal := end != NO_END && addr <= end;
    }
  }

  // ---------------------------------------------------------------- what the writer prints

  /** One printed element: its address and its digits. */
  datatype Rec = Rec(addr: nat, digits: string)

  /** `@` and the address, or nothing. */
  function Stamp(addr: nat): string {
    "@" + HexMin(addr) + "\n"
  }

  /** The file for a list of elements; m is the address the writer expects next. */
  function Printed(recs: seq<Rec>, stamps: bool, m: nat): string {
    if |recs| == 0 then ""
    else
      (if stamps && recs[0].addr != m then Stamp(recs[0].addr) else "") + recs[0].digits + "\n"
      + Printed(recs[1..], stamps, (recs[0].addr + 1) % TWO64)
  }

  ghost predicate GoodRecs(recs: seq<Rec>) {
    forall i :: 0 <= i < |recs| ==> recs[i].addr < TWO64 && AllHex(recs[i].digits) && |recs[i].digits| > 0
  }

  /** Every element without an address stamp is at the address that is expected. */
  ghost predicate Expected(recs: seq<Rec>, stamps: bool, m: nat) {
    |recs| > 0 ==> (stamps || recs[0].addr == m) && Expected(recs[1..], stamps, (recs[0].addr + 1) % TWO64)
  }

  /** All elements of a file, one `get` after the other, and how it ends. */
  function ReadAll(text: string, pos: nat, addr: nat, hex: bool, random: nat -> nat): (seq<Rec>, Outcome)
    decreases |text| - pos
  {
    var out := Scan(text, pos, Start(addr), hex, random);
    ScanAdvances(text, pos, Start(addr), hex, random);
    match out
    case Got(a, v, p, n) =>
      var (rest, last) := ReadAll(text, p, n, hex, random);
      ([Rec(a, v)] + rest, last)
    case _ => ([], out)
  }

  lemma {:induction false} ScanAdvances(text: string, pos: nat, s: Scanner, hex: bool, random: nat -> nat)
    ensures var out := Scan(text, pos, s, hex, random);
      out.Got? ==> pos <= out.pos < |text| && (!s.inData ==> pos < out.pos)
    decreases |text| - pos
  {
    if pos < |text| {
      var c := text[pos];
      var (t, ok) := Eat(s, c, hex, random(pos));
      hide Eat;
      ScanAdvances(text, pos + 1, s, hex, random);
      ScanAdvances(text, pos + 1, t, hex, random);
    }
  }

  // ---------------------------------------------------------------- scanning it

  /** Neither in a comment nor behind a slash. */
  predicate Plain(s: Scanner) {
    !s.toEol && !s.toCmt && s.lastc != '/'
  }

  lemma EatHex(s: Scanner, c: char, random: nat)
    requires Plain(s) && IsHexDigit(c)
    ensures var v := DigitValue(c);
      Eat(s, c, true, random) ==
        (if s.readingAddr then (s.(addr := (s.addr * 16 % TWO64 + v) % TWO64, lastc := c), true)
         else (s.(inData := true, value := s.value + [c], lastc := c), true))
    ensures c != '_' && c != '/' && IsXDigit(c)
  {
    assert ToLower(c) == c && c != 'x';
  }

  /** A run of digits is collected up to the character behind it. */
  lemma {:induction false} ScanDigits(text: string, pos: nat, s: Scanner, d: string, random: nat -> nat)
    requires Plain(s) && !s.readingAddr && AllHex(d) && (s.inData || |d| > 0)
    requires pos + |d| < |text| && text[pos..pos + |d|] == d && text[pos + |d|] == '\n'
    ensures Scan(text, pos, s, true, random) == Got(s.addr, s.value + d, pos + |d|, (s.addr + 1) % TWO64)
    decreases |d|
  {
    hide Eat, DigitValue;
    if |d| > 0 {
      assert text[pos] == text[pos..pos + |d|][0] == d[0];
      EatHex(s, d[0], random(pos));
      var t := s.(inData := true, value := s.value + [d[0]], lastc := d[0]);
      assert text[pos + 1..pos + |d|] == d[1..];
      ScanDigits(text, pos + 1, t, d[1..], random);
      assert s.value + [d[0]] + d[1..] == s.value + d;
    }
  }

  /** A line end is skipped. */
  lemma ScanLineEnd(text: string, pos: nat, s: Scanner, random: nat -> nat)
    requires pos < |text| && text[pos] == '\n' && !s.inData
    ensures Scan(text, pos, s, true, random)
         == Scan(text, pos + 1, s.(toEol := false, readingAddr := false, lastc := '\n'), true, random)
  {
  }

  /** A stamp sets the address. */
  lemma {:induction false} ScanAddress(text: string, pos: nat, s: Scanner, d: string, random: nat -> nat)
    requires Plain(s) && s.readingAddr && !s.inData && AllHex(d)
    requires pos + |d| < |text| && text[pos..pos + |d|] == d && text[pos + |d|] == '\n' && s.addr < TWO64
    requires s.addr * Pow2(4 * |d|) + HexNat(d) < TWO64
    ensures Scan(text, pos, s, true, random)
         == Scan(text, pos + |d| + 1,
                 s.(addr := s.addr * Pow2(4 * |d|) + HexNat(d), readingAddr := false, lastc := '\n'), true, random)
    decreases |d|
  {
    hide Eat, DigitValue, HexNat;
    if |d| == 0 {
      ScanLineEnd(text, pos, s, random);
      assert Pow2(4 * 0) == 1;
      HexNatSnoc("", '0');
    } else {
      assert text[pos] == text[pos..pos + |d|][0] == d[0];
      assert text[pos + 1..pos + |d|] == d[1..];
      EatHex(s, d[0], random(pos));
      AddressStep(s.addr, d);
      var v := DigitValue(d[0]);
      var a := s.addr * 16 + v;
      var t := s.(addr := a, lastc := d[0]);
      ScanAddress(text, pos + 1, t, d[1..], random);
    }
  }

  lemma AddressStep(a: nat, d: string)
    requires |d| > 0 && AllHex(d) && a < TWO64 && a * Pow2(4 * |d|) + HexNat(d) < TWO64
    ensures var v := DigitValue(d[0]);
      && a * 16 + v < TWO64 && (a * 16 % TWO64 + v) % TWO64 == a * 16 + v
      && (a * 16 + v) * Pow2(4 * |d[1..]|) + HexNat(d[1..]) == a * Pow2(4 * |d|) + HexNat(d)
  {
    AddressDigits(d);
    hide HexNat, Pow2, DigitValue, AllHex;
    AddressAlgebra(a, DigitValue(d[0]), Pow2(4 * |d[1..]|), HexNat(d[1..]), HexNat(d), Pow2(4 * |d|));
  }

  lemma AddressDigits(d: string)
    requires |d| > 0
    ensures HexNat(d) == DigitValue(d[0]) * Pow2(4 * |d[1..]|) + HexNat(d[1..])
    ensures Pow2(4 * |d|) == 16 * Pow2(4 * |d[1..]|)
  {
    assert Pow2(4) == 16;
    hide HexNat, Pow2, DigitValue;
    assert d == [d[0]] + d[1..];
    HexNatConcat([d[0]], d[1..]);
    HexNatSnoc("", d[0]);
    assert "" + [d[0]] == [d[0]];
    Pow2Add(4, 4 * |d[1..]|);
  }

  lemma AddressAlgebra(a: nat, v: nat, p: nat, rest: nat, all: nat, q: nat)
    requires p > 0 && all == v * p + rest && q == 16 * p && a * q + all < TWO64
    ensures a * 16 + v < TWO64 && (a * 16 % TWO64 + v) % TWO64 == a * 16 + v
    ensures (a * 16 + v) * p + rest == a * q + all
  {
    assert (a * 16 + v) * p == a * 16 * p + v * p;
    assert a * 16 * p == a * (16 * p);
    MulMono(1, p, a * 16 + v);
  }

  /**
   Reading what the writer printed gives the elements it printed, in order, with their
   addresses; nl says that the line end of the element before is still to be read.
   */
  lemma {:induction false} PrintedReadBack(recs: seq<Rec>, stamps: bool, m: nat, text: string, pos: nat, nl: bool,
                                           random: nat -> nat)
    requires GoodRecs(recs) && Expected(recs, stamps, m) && m < TWO64
    requires pos <= |text| && text[pos..] == (if nl then "\n" else "") + Printed(recs, stamps, m)
    ensures ReadAll(text, pos, m, true, random) ==
      (recs, End(if |recs| == 0 then m else (recs[|recs| - 1].addr + 1) % TWO64))
    decreases |recs|
  {
    hide Eat, HexMin, Scan, AllHex, Printed, Stamp, Plain, ReadAll;
    var s, p := SkipLineEnd(Printed(recs, stamps, m), text, pos, m, nl, random);
    if |recs| == 0 {
      NothingPrinted(recs, stamps, m);
      ScanAtEnd(text, p, s, random);
      ReadNone(text, pos, m, random);
    } else {
      var rest := Printed(recs[1..], stamps, (recs[0].addr + 1) % TWO64);
      PrintedFirst(recs, stamps, m, rest);
      var q := OneElement(recs[0], stamps && recs[0].addr != m, rest, text, p, s, random);
      PrintedReadBack(recs[1..], stamps, (recs[0].addr + 1) % TWO64, text, q, true, random);
      ReadOne(text, pos, m, random);
      assert recs == [recs[0]] + recs[1..];
    }
  }

  lemma ReadNone(text: string, pos: nat, m: nat, random: nat -> nat)
    requires Scan(text, pos, Start(m), true, random).End?
    ensures ReadAll(text, pos, m, true, random) == ([], Scan(text, pos, Start(m), true, random))
  {
    hide Scan;
  }

  lemma ReadOne(text: string, pos: nat, m: nat, random: nat -> nat)
    requires Scan(text, pos, Start(m), true, random).Got?
    ensures var out := Scan(text, pos, Start(m), true, random);
      var rest := ReadAll(text, out.pos, out.next, true, random);
      ReadAll(text, pos, m, true, random) == ([Rec(out.addr, out.value)] + rest.0, rest.1)
  {
    hide Scan;
    ScanAdvances(text, pos, Start(m), true, random);
  }

  lemma NothingPrinted(recs: seq<Rec>, stamps: bool, m: nat)
    ensures |recs| == 0 ==> Printed(recs, stamps, m) == ""
  {
  }

  lemma PrintedFirst(recs: seq<Rec>, stamps: bool, m: nat, rest: string)
    requires |recs| > 0 && rest == Printed(recs[1..], stamps, (recs[0].addr + 1) % TWO64)
    ensures Printed(recs, stamps, m)
         == (if stamps && recs[0].addr != m then Stamp(recs[0].addr) else "") + recs[0].digits + "\n" + rest
  {
  }

  lemma SkipLineEnd(body: string, text: string, pos: nat, m: nat, nl: bool, random: nat -> nat)
      returns (s: Scanner, p: nat)
    requires pos <= |text| && text[pos..] == (if nl then "\n" else "") + body
    ensures p <= |text| && text[p..] == body
    ensures Scan(text, pos, Start(m), true, random) == Scan(text, p, s, true, random)
    ensures s.addr == m && s.value == "" && !s.inData && !s.readingAddr && Plain(s)
  {
    hide Scan;
    s, p := Start(m), pos;
    if nl {
      assert text[pos] == text[pos..][0] == '\n';
      ScanLineEnd(text, pos, s, random);
      s := s.(lastc := '\n');
      p := pos + 1;
      assert text[p..] == text[pos..][1..] == body;
    } else {
      assert "" + body == body;
    }
  }

  lemma ScanAtEnd(text: string, p: nat, s: Scanner, random: nat -> nat)
    requires p == |text|
    ensures Scan(text, p, s, true, random) == End(s.addr)
  {
  }

  /** One element, with its stamp if it has one. */
  lemma OneElement(r: Rec, stamped: bool, rest: string, text: string, p: nat, s: Scanner, random: nat -> nat)
      returns (q: nat)
    requires r.addr < TWO64 && AllHex(r.digits) && |r.digits| > 0 && (stamped || r.addr == s.addr)
    requires p <= |text| && text[p..] == (if stamped then Stamp(r.addr) else "") + r.digits + "\n" + rest
    requires s.value == "" && !s.inData && !s.readingAddr && Plain(s)
    ensures q <= |text| && text[q..] == "\n" + rest
    ensures Scan(text, p, s, true, random) == Got(r.addr, r.digits, q, (r.addr + 1) % TWO64)
  {
    hide Eat, HexMin, Scan, AllHex, Stamp, Plain;
    var body := r.digits + "\n" + rest;
    BodyText(if stamped then Stamp(r.addr) else "", r.digits, rest);
    var at, u := AtDigits(r, stamped, body, text, p, s, random);
    q := at + |r.digits|;
    DigitsAt(r.digits, rest, text, at, u, random);
  }

  lemma DigitsAt(d: string, rest: string, text: string, at: nat, u: Scanner, random: nat -> nat)
    requires AllHex(d) && |d| > 0 && at <= |text| && text[at..] == d + "\n" + rest
    requires u.value == "" && !u.inData && !u.readingAddr && Plain(u)
    ensures at + |d| <= |text| && text[at + |d|..] == "\n" + rest
    ensures Scan(text, at, u, true, random) == Got(u.addr, d, at + |d|, (u.addr + 1) % TWO64)
  {
    hide Eat, Scan, AllHex, Plain;
    Behind(text, at, d, rest);
    ScanDigits(text, at, u, d, random);
    assert "" + d == d;
  }

  lemma BodyText(a: string, d: string, rest: string)
    ensures a + d + "\n" + rest == a + (d + "\n" + rest)
  {
  }

  /** Past the stamp, if there is one, the scanner has the element's address. */
  lemma AtDigits(r: Rec, stamped: bool, body: string, text: string, p: nat, s: Scanner, random: nat -> nat)
      returns (at: nat, u: Scanner)
    requires r.addr < TWO64 && (stamped || r.addr == s.addr)
    requires p <= |text| && text[p..] == (if stamped then Stamp(r.addr) else "") + body
    requires s.value == "" && !s.inData && !s.readingAddr && Plain(s)
    ensures at <= |text| && text[at..] == body && Scan(text, p, s, true, random) == Scan(text, at, u, true, random)
    ensures u.addr == r.addr && u.value == "" && !u.inData && !u.readingAddr && Plain(u)
  {
    hide Eat, HexMin, Scan, AllHex, HexNat;
    u, at := s, p;
    if stamped {
      var a := HexMin(r.addr);
      HexMinValue(r.addr);
      assert text[p..] == "@" + a + "\n" + body;
      ScanStamp(text, p, s, a, body, random);
      at := p + |a| + 2;
      u := s.(addr := r.addr, lastc := '\n');
    } else {
      assert "" + body == body;
    }
  }

  lemma Behind(text: string, at: nat, d: string, rest: string)
    requires at <= |text| && text[at..] == d + "\n" + rest
    ensures at + |d| < |text| && text[at..at + |d|] == d && text[at + |d|] == '\n'
    ensures text[at + |d|..] == "\n" + rest && text[at + |d| + 1..] == rest
  {
    var t := text[at..];
    assert text[at..at + |d|] == t[..|d|];
    assert text[at + |d|] == t[|d|];
    assert text[at + |d|..] == t[|d|..];
    assert text[at + |d| + 1..] == t[|d| + 1..];
  }

  lemma ScanStamp(text: string, p: nat, s: Scanner, a: string, body: string, random: nat -> nat)
    requires p <= |text| && text[p..] == "@" + a + "\n" + body && AllHex(a) && HexNat(a) < TWO64
    requires !s.inData && !s.readingAddr && Plain(s)
    ensures p + |a| + 2 <= |text| && text[p + |a| + 2..] == body
    ensures Scan(text, p, s, true, random)
         == Scan(text, p + |a| + 2, s.(addr := HexNat(a), lastc := '\n'), true, random)
  {
    hide HexNat, AllHex;
    assert text[p] == text[p..][0] == '@';
    assert text[p + 1..] == text[p..][1..] == a + "\n" + body;
    Behind(text, p + 1, a, body);
    EatAt(s, random(p));
    var t := s.(readingAddr := true, addr := 0, lastc := '@');
    assert Scan(text, p, s, true, random) == Scan(text, p + 1, t, true, random);
    ScanAddress(text, p + 1, t, a, random);
  }

  lemma EatAt(s: Scanner, random: nat)
    requires Plain(s)
    ensures Eat(s, '@', true, random) == (s.(readingAddr := true, addr := 0, lastc := '@'), true)
  {
  }

  // ---------------------------------------------------------------- another start address

  lemma {:induction false} StampedExpected(recs: seq<Rec>, m: nat)
    ensures Expected(recs, true, m)
    decreases |recs|
  {
    if |recs| > 0 { StampedExpected(recs[1..], (recs[0].addr + 1) % TWO64); }
  }

  /** What a reader expecting address r makes of a file whose writer expected w: up to the first stamp it miscounts. */
  function Misread(recs: seq<Rec>, w: nat, r: nat): seq<Rec> {
    if |recs| == 0 || recs[0].addr != w then recs
    else [Rec(r, recs[0].digits)] + Misread(recs[1..], (w + 1) % TWO64, (r + 1) % TWO64)
  }

  lemma {:induction false} MisreadBack(recs: seq<Rec>, w: nat, r: nat, text: string, pos: nat, nl: bool,
                                       random: nat -> nat)
    requires GoodRecs(recs) && w < TWO64 && r < TWO64
    requires pos <= |text| && text[pos..] == (if nl then "\n" else "") + Printed(recs, true, w)
    ensures var (got, last) := ReadAll(text, pos, r, true, random); got == Misread(recs, w, r) && last.End?
    decreases |recs|
  {
    hide Eat, HexMin, Scan, AllHex, Printed, Stamp, Plain, ReadAll;
    var s, p := SkipLineEnd(Printed(recs, true, w), text, pos, r, nl, random);
    if |recs| == 0 {
      NothingPrinted(recs, true, w);
      ScanAtEnd(text, p, s, random);
      ReadNone(text, pos, r, random);
    } else {
      var a := recs[0].addr;
      var rest := Printed(recs[1..], true, (a + 1) % TWO64);
      PrintedFirst(recs, true, w, rest);
      if a == w {
        var q := OneElement(Rec(r, recs[0].digits), false, rest, text, p, s, random);
        MisreadBack(recs[1..], (w + 1) % TWO64, (r + 1) % TWO64, text, q, true, random);
      } else {
        var q := OneElement(recs[0], true, rest, text, p, s, random);
        StampedExpected(recs[1..], (a + 1) % TWO64);
        PrintedReadBack(recs[1..], true, (a + 1) % TWO64, text, q, true, random);
        assert recs == [recs[0]] + recs[1..];
      }
      ReadOne(text, pos, r, random);
    }
  }

  lemma {:induction false} MisreadExact(recs: seq<Rec>, w: nat, r: nat)
    requires w < TWO64 && r < TWO64
    ensures Misread(recs, w, r) == recs <==> |recs| == 0 || w == r || recs[0].addr != w
    decreases |recs|
  {
    if |recs| > 0 && recs[0].addr == w {
      if w == r {
        MisreadExact(recs[1..], (w + 1) % TWO64, (r + 1) % TWO64);
        assert recs == [recs[0]] + recs[1..];
      } else {
        assert Misread(recs, w, r)[0].addr == r;
      }
    }
  }

  /** From start address r the list is read back exactly when r is 0 or the first element is not at address 0. */
  lemma ListReadBackIff(recs: seq<Rec>, r: nat, random: nat -> nat)
    requires GoodRecs(recs) && r < TWO64
    ensures var (got, last) := ReadAll(Printed(recs, true, 0), 0, r, true, random);
      && last.End? && got == Misread(recs, 0, r)
      && (got == recs <==> |recs| == 0 || r == 0 || recs[0].addr != 0)
  {
    hide Printed, ReadAll, Misread, GoodRecs;
    var text := Printed(recs, true, 0);
    assert text[0..] == "" + text;
    MisreadBack(recs, 0, r, text, 0, false, random);
    MisreadExact(recs, 0, r);
  }

  ghost predicate AscendingRecs(recs: seq<Rec>) {
    forall i, j :: 0 <= i < j < |recs| ==> recs[i].addr < recs[j].addr
  }

  /** How many elements from the start follow each other without a gap. */
  function RunLength(recs: seq<Rec>, w: nat): nat {
    if |recs| == 0 || recs[0].addr != w then 0 else 1 + RunLength(recs[1..], w + 1)
  }

  /** The elements below n are misplaced by the same distance, the others are right and lie beyond them. */
  ghost predicate Misplaced(recs: seq<Rec>, got: seq<Rec>, n: nat, w: nat, r: nat) {
    && n <= |recs| == |got|
    && (forall i :: 0 <= i < n ==> recs[i].addr == w + i && got[i].addr == (r + i) % TWO64)
    && (forall i :: n <= i < |recs| ==> got[i] == recs[i] && recs[i].addr > w + n)
  }

  lemma {:induction false} RunMisplaced(recs: seq<Rec>, w: nat, r: nat)
    requires GoodRecs(recs) && AscendingRecs(recs) && w <= TWO64 && r < TWO64 && (|recs| > 0 ==> w <= recs[0].addr)
    ensures Misplaced(recs, Misread(recs, w, r), RunLength(recs, w), w, r)
    decreases |recs|
  {
    if |recs| > 0 && recs[0].addr == w {
      var rest, r2 := recs[1..], (r + 1) % TWO64;
      RunMisplaced(rest, w + 1, r2);
      MisreadRun(recs, w, r);
      hide Misread, RunLength;
      MisplacedMore(rest, Misread(rest, w + 1, r2), RunLength(rest, w + 1), w + 1, r, recs[0].digits);
      assert recs == [recs[0]] + rest;
    }
  }

  lemma MisreadRun(recs: seq<Rec>, w: nat, r: nat)
    requires GoodRecs(recs) && AscendingRecs(recs) && |recs| > 0 && recs[0].addr == w < TWO64
    ensures Misread(recs, w, r) == [Rec(r, recs[0].digits)] + Misread(recs[1..], w + 1, (r + 1) % TWO64)
    ensures RunLength(recs, w) == 1 + RunLength(recs[1..], w + 1)
  {
    if |recs| > 1 {
      assert recs[0].addr < recs[1].addr < TWO64;
    }
  }

  lemma MisplacedMore(rest: seq<Rec>, got: seq<Rec>, n: nat, w: nat, r: nat, d: string)
    requires w > 0 && r < TWO64 && Misplaced(rest, got, n, w, (r + 1) % TWO64)
    ensures Misplaced([Rec(w - 1, d)] + rest, [Rec(r, d)] + got, n + 1, w - 1, r)
  {
    var all, read := [Rec(w - 1, d)] + rest, [Rec(r, d)] + got;
    assert forall i :: 0 < i < |all| ==> all[i] == rest[i - 1] && read[i] == got[i - 1];
    forall i | 0 <= i < n + 1 ensures read[i].addr == (r + i) % TWO64 {
      if i > 0 { SuccMod(r, i - 1); }
    }
  }

  lemma SuccMod(r: nat, i: nat)
    ensures ((r + 1) % TWO64 + i) % TWO64 == (r + 1 + i) % TWO64
  {
  }

  ghost predicate HasAddr(recs: seq<Rec>, k: nat) {
    exists i :: 0 <= i < |recs| && recs[i].addr == k
  }

  /** A list that starts at address 0 and is read from elsewhere loses one of its addresses. */
  lemma MissingAddr(recs: seq<Rec>, r: nat) returns (k: nat)
    requires GoodRecs(recs) && AscendingRecs(recs) && 0 < |recs| < TWO64 && recs[0].addr == 0 && 0 < r < TWO64
    ensures HasAddr(recs, k) && !HasAddr(Misread(recs, 0, r), k)
  {
    RunMisplaced(recs, 0, r);
    var n, got := RunLength(recs, 0), Misread(recs, 0, r);
    k := if r <= n then r - 1 else n - 1;
    hide Misread, RunLength, GoodRecs, AscendingRecs;
    assert recs[k].addr == k;
    forall i | 0 <= i < |got| ensures got[i].addr != k {
      if i < n { NotRotated(r, i, n, k); }
    }
  }

  lemma NotRotated(r: nat, i: nat, n: nat, k: nat)
    requires 0 < r < TWO64 && i < n < TWO64 && k == if r <= n then r - 1 else n - 1
    ensures (r + i) % TWO64 != k
  {
  }
}
