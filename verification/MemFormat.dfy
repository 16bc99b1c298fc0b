/**
 The digits of a memory file: how `$writemem` prints an element and how `$readmem`
 shifts the digits back in.
 */
module MemFormat {
  import opened Bits
  import opened Wide
  import WideArith
  import WideNormalize
  import WideInPlace

  // ---------------------------------------------------------------- hexadecimal text

  function HexDigit(n: nat): char
    requires n < 16
  {
    if n < 10 then (n + '0' as int) as char else (n - 10 + 'a' as int) as char
  }

  /** What the printer uses; the reader takes upper case as well. */
  predicate IsHexDigit(c: char) {
    '0' <= c <= '9' || 'a' <= c <= 'f'
  }

  predicate AllHex(s: string) {
    forall i :: 0 <= i < |s| ==> IsHexDigit(s[i])
  }

  function ToLower(c: char): char {
    if 'A' <= c <= 'Z' then (c as int + 32) as char else c
  }

  /** `isxdigit`. */
  predicate IsXDigit(c: char) {
    IsHexDigit(c) || 'A' <= c <= 'F'
  }

  /** The value of a digit in lower case. */
  function DigitValue(c: char): (n: nat)
    ensures IsHexDigit(c) ==> n < 16
  {
    if 'a' <= c then c as int - 'a' as int + 10 else if '0' <= c then c as int - '0' as int else 0
  }

  /** The number a string of digits stands for, each digit having the given number of bits. */
  function Number(s: string, shift: nat): nat {
    if |s| == 0 then 0 else Number(s[..|s| - 1], shift) * Pow2(shift) + DigitValue(s[|s| - 1])
  }

  function HexNat(s: string): nat {
    Number(s, 4)
  }

  lemma {:induction false} HexNatConcat(a: string, b: string)
    ensures HexNat(a + b) == HexNat(a) * Pow2(4 * |b|) + HexNat(b)
  {
    if |b| == 0 {
      assert a + b == a;
      assert Pow2(0) == 1;
    } else {
      var c, d := b[..|b| - 1], DigitValue(b[|b| - 1]);
      HexNatConcat(a, c);
      assert (a + b)[..|a + b| - 1] == a + c;
      Pow2Add(4 * |c|, 4);
      ConcatAlgebra(HexNat(a), Pow2(4 * |c|), HexNat(c), Pow2(4), d);
    }
  }

  lemma ConcatAlgebra(a: nat, p: nat, c: nat, q: nat, d: nat)
    ensures (a * p + c) * q + d == a * (p * q) + (c * q + d)
  {
    assert (a * p + c) * q == a * p * q + c * q;
    assert a * p * q == a * (p * q);
  }

  /** `%x`. */
  function HexMin(v: nat): (s: string)
    ensures |s| > 0
  {
    (if v < 16 then "" else HexMin(v / 16)) + [HexDigit(v % 16)]
  }

  lemma HexDigitValue(n: nat)
    requires n < 16
    ensures IsHexDigit(HexDigit(n)) && DigitValue(HexDigit(n)) == n
  {
  }

  lemma HexNatSnoc(s: string, c: char)
    ensures HexNat(s + [c]) == 16 * HexNat(s) + DigitValue(c)
    ensures HexNat([]) == 0
  {
    assert (s + [c])[..|s|] == s;
    assert Pow2(4) == 16;
  }

  lemma {:induction false} HexMinValue(v: nat)
    ensures AllHex(HexMin(v)) && HexNat(HexMin(v)) == v
  {
    hide HexNat, HexDigit, DigitValue;
    HexDigitValue(v % 16);
    if v < 16 {
      HexNatSnoc("", HexDigit(v % 16));
      assert HexMin(v) == "" + [HexDigit(v % 16)];
    } else {
      HexMinValue(v / 16);
      HexNatSnoc(HexMin(v / 16), HexDigit(v % 16));
    }
  }

  lemma {:induction false} HexMinLength(v: nat, n: nat)
    requires n >= 1 && v < Pow2(4 * n)
    ensures |HexMin(v)| <= n
  {
    if v >= 16 {
      assert Pow2(4) == 16;
      assert n > 1;
      Pow2Add(4, 4 * (n - 1));
      QuotientBound(v, 16, Pow2(4 * (n - 1)));
      HexMinLength(v / 16, n - 1);
    }
  }

  function Zeros(n: nat): (s: string)
    ensures |s| == n
  {
    seq(n, i => '0')
  }

  lemma {:induction false} HexNatZeros(n: nat)
    ensures HexNat(Zeros(n)) == 0
  {
    if n > 0 {
      assert Zeros(n)[..n - 1] == Zeros(n - 1);
      HexNatZeros(n - 1);
    }
  }

  /** `%0Nx`. */
  function PadHex(v: nat, n: nat): string {
    var s := HexMin(v);
    if |s| < n then Zeros(n - |s|) + s else s
  }

  lemma PadHexValue(v: nat, n: nat)
    requires n >= 1 && v < Pow2(4 * n)
    ensures AllHex(PadHex(v, n)) && |PadHex(v, n)| == n && HexNat(PadHex(v, n)) == v
  {
    hide HexMin, Number, Pow2, HexNat;
    HexMinLength(v, n);
    HexMinValue(v);
    if |HexMin(v)| < n {
      HexNatZeros(n - |HexMin(v)|);
      HexNatConcat(Zeros(n - |HexMin(v)|), HexMin(v));
      ZerosHex(n - |HexMin(v)|, HexMin(v));
    }
  }

  lemma ZerosHex(n: nat, s: string)
    requires AllHex(s)
    ensures AllHex(Zeros(n) + s)
  {
  }

  // ---------------------------------------------------------------- printing an element

  /** The digits `memhFormat` asks for. */
  function MemhDigits(nBits: nat): nat
    requires 1 <= nBits <= 32
  {
    (nBits - 1) / 4 + 1
  }

  /** s is the element's value cut to its width, in as many digits as the width takes. */
  ghost predicate Shows(s: string, bits: nat, ws: seq<word>)
    requires bits >= 1
  {
    AllHex(s) && |s| == (bits + 3) / 4 && HexNat(s) == Val(ws) % Pow2(bits)
  }

  lemma MemhFits(v: nat, nBits: nat)
    requires 1 <= nBits <= 32 && v < Pow2(nBits)
    ensures v < Pow2(4 * MemhDigits(nBits)) && MemhDigits(nBits) == (nBits + 3) / 4
  {
    Pow2Mono(nBits, 4 * MemhDigits(nBits));
  }

  /** `VlWriteMem::print` without the address: one word, two words, or a loop from the top word down. */
  method PrintElement(bits: nat, ws: seq<word>) returns (s: string)
    requires bits >= 1 && |ws| == Words(bits)
    ensures |s| > 0 && s[|s| - 1] == '\n' && Shows(s[..|s| - 1], bits, ws)
  {
    hide HexMin, Number, Pow2, HexNat, Val, And, PadHex, Mask32;
    TopWord(ws, bits);
    if bits <= 32 {
      s := PadHex(And(ws[0], Mask32(bits)), MemhDigits(bits));
      PrintedTop(ws, bits, s);
      AllWords(ws, bits, s);
    } else if bits <= 64 {
      var hi, lo := And(ws[1], Mask32(bits)), ws[0];
      s := PadHex(hi, MemhDigits(bits - 32));
      PrintedTop(ws, bits, s);
      PrintedMore(ws, bits, 1, s);
      s := s + PadHex(lo, 8);
      AllWords(ws, bits, s);
    } else {
      s := PrintWords(bits, ws);
      AllWords(ws, bits, s);
    }
    s := s + "\n";
    assert s[..|s| - 1] + "\n" == s;
  }

  /** The loop over the words, from the top one down. */
  method PrintWords(bits: nat, ws: seq<word>) returns (s: string)
    requires bits > 64 && |ws| == Words(bits)
    ensures PrintedFrom(ws, bits, 0, s)
  {
    hide Pow2, And, PadHex, Mask32, PrintedFrom;
    var wordIdx := |ws| - 1;
    var nBits := bits - 32 * wordIdx;
    TopWord(ws, bits);
    s := "";
    var first := true;
    while wordIdx >= 0
      invariant -1 <= wordIdx < |ws| && first == (wordIdx == |ws| - 1)
      invariant first ==> s == ""
      invariant !first ==> PrintedFrom(ws, bits, wordIdx + 1, s)
    {
      var data := ws[wordIdx];
      if first {
        data := And(data, Mask32(bits));
        s := s + PadHex(data, MemhDigits(nBits));
        assert s == PadHex(data, MemhDigits(nBits));
        PrintedTop(ws, bits, s);
      } else {
        PrintedMore(ws, bits, wordIdx + 1, s);
        s := s + PadHex(data, 8);
      }
      wordIdx := wordIdx - 1;
      first := false;
    }
  }

  /** The words with the bits above the width masked off. */
  function Masked(ws: seq<word>, bits: nat): seq<word>
    requires bits >= 1 && |ws| == Words(bits)
  {
    AndBound(ws[|ws| - 1], Mask32(bits));
    ws[|ws| - 1 := And(ws[|ws| - 1], Mask32(bits))]
  }

  lemma TopWord(ws: seq<word>, bits: nat)
    requires bits >= 1 && |ws| == Words(bits)
    ensures |ws| >= 1 && 1 <= bits - 32 * (|ws| - 1) <= 32
    ensures And(ws[|ws| - 1], Mask32(bits)) < Pow2(bits - 32 * (|ws| - 1))
    ensures And(ws[|ws| - 1], Mask32(bits)) <= ws[|ws| - 1]
  {
    var b := bits - 32 * (|ws| - 1);
    hide Pow2, And, Mask32;
    MaskOfRest(bits, |ws| - 1);
    AndLowOnes(ws[|ws| - 1], b);
    AndBound(ws[|ws| - 1], Mask32(bits));
  }

  /** The words from n on have been printed. */
  ghost predicate PrintedFrom(ws: seq<word>, bits: nat, n: nat, s: string)
    requires bits >= 1 && |ws| == Words(bits)
  {
    && n < |ws| && AllHex(s) && HexNat(s) == Val(Masked(ws, bits)[n..])
    && |s| == MemhTop(ws, bits) + 8 * (|ws| - 1 - n)
  }

  function MemhTop(ws: seq<word>, bits: nat): nat
    requires bits >= 1 && |ws| == Words(bits)
  {
    TopWord(ws, bits);
    MemhDigits(bits - 32 * (|ws| - 1))
  }

  lemma PrintedTop(ws: seq<word>, bits: nat, s: string)
    requires bits >= 1 && |ws| == Words(bits)
    requires s == PadHex(And(ws[|ws| - 1], Mask32(bits)), MemhTop(ws, bits))
    ensures PrintedFrom(ws, bits, |ws| - 1, s)
  {
    hide HexMin, Number, Pow2, HexNat, And, PadHex, Mask32;
    TopWord(ws, bits);
    var data := And(ws[|ws| - 1], Mask32(bits));
    MemhFits(data, bits - 32 * (|ws| - 1));
    PadHexValue(data, MemhTop(ws, bits));
    assert Masked(ws, bits)[|ws| - 1..] == [data];
    assert [data][1..] == [];
    assert Val([]) == 0;
  }

  lemma PrintedMore(ws: seq<word>, bits: nat, n: nat, s: string)
    requires bits >= 1 && |ws| == Words(bits) && n >= 1 && PrintedFrom(ws, bits, n, s)
    ensures PrintedFrom(ws, bits, n - 1, s + PadHex(ws[n - 1], 8))
  {
    hide HexMin, Number, Pow2, HexNat, And, PadHex, Mask32, MemhTop;
    var w := ws[n - 1];
    Pow2At32();
    PadHexValue(w, 8);
    HexNatConcat(s, PadHex(w, 8));
    var m := Masked(ws, bits);
    assert m[n - 1..][0] == w && m[n - 1..][1..] == m[n..];
    HexConcat(s, PadHex(w, 8));
  }

  lemma HexConcat(a: string, b: string)
    requires AllHex(a) && AllHex(b)
    ensures AllHex(a + b)
  {
  }

  lemma AllWords(ws: seq<word>, bits: nat, s: string)
    requires bits >= 1 && |ws| == Words(bits) && PrintedFrom(ws, bits, 0, s)
    ensures Shows(s, bits, ws)
  {
    hide HexMin, Number, Pow2, HexNat, And, Mask32, Val;
    WideArith.CleanedTop(ws, bits);
    TopWord(ws, bits);
    assert Masked(ws, bits)[0..] == Masked(ws, bits);
  }

  // ---------------------------------------------------------------- reading an element

  /** The digits shifted in one after the other, cut to the width each time. */
  ghost predicate HoldsDigits(datap: seq<word>, bits: nat, s: string, shift: nat)
  {
    Val(datap) == Number(s, shift) % Pow2(bits)
  }

  predicate IsX(c: char) {
    c == 'x' || c == 'X'
  }

  function ResolvedChar(c: char, r: nat): char
    requires r < 16
  {
    if IsX(c) then HexDigit(r) else ToLower(c)
  }

  /** The digits in lower case, each x replaced by the random digit that is drawn for it. */
  function Resolved(s: string, draw: nat -> nat): (t: string)
    ensures |t| == |s|
  {
    seq(|s|, i requires 0 <= i < |s| => ResolvedChar(s[i], draw(i) % 16))
  }

  /** `VlReadMem::setData` for an element in its words; a binary file has no unknown digits. */
  method SetData(hex: bool, bits: nat, datap: array<word>, rhs: string, draw: nat -> nat)
    requires bits >= 1 && datap.Length == Words(bits)
    requires forall i :: 0 <= i < |rhs| ==>
      (IsXDigit(rhs[i]) || (hex && IsX(rhs[i]))) && (hex || DigitValue(ToLower(rhs[i])) < 2)
    modifies datap
    ensures |rhs| == 0 ==> datap[..] == old(datap[..])
    ensures |rhs| > 0 ==> HoldsDigits(datap[..], bits, Resolved(rhs, draw), if hex then 4 else 1)
  {
    hide Number, Pow2, Val, HoldsDigits, DigitValue, HexDigit, ToLower;
    var shift := if hex then 4 else 1;
    var innum := false;
    for i := 0 to |rhs|
      invariant innum == (i > 0)
      invariant i == 0 ==> datap[..] == old(datap[..])
      invariant i > 0 ==> HoldsDigits(datap[..], bits, Resolved(rhs, draw)[..i], shift)
    {
      var c := ResolvedChar(rhs[i], draw(i) % 16);
      var value := if IsX(rhs[i]) then draw(i) % 16 else DigitValue(c);
      assert Resolved(rhs, draw)[..i + 1] == Resolved(rhs, draw)[..i] + [c];
      ValueBelow(hex, rhs[i], draw(i) % 16);
      if !innum {
        ZeroWords(datap);
        NoDigits(datap[..], bits, shift);
        assert Resolved(rhs, draw)[..0] == [];
      }
      ghost var was := datap[..];
      SetDigit(bits, datap, shift, value);
      DigitIn(was, datap[..], bits, Resolved(rhs, draw)[..i], c, shift);
      innum := true;
    }
    assert Resolved(rhs, draw)[..|rhs|] == Resolved(rhs, draw);
  }

  /** One digit in: on up to 64 bits by arithmetic, else by shifting the words and or-ing. */
  method SetDigit(bits: nat, datap: array<word>, shift: nat, value: nat)
    requires bits >= 1 && datap.Length == Words(bits) && 1 <= shift < 32 && value < Pow2(shift)
    modifies datap
    ensures Val(datap[..]) == (Val(old(datap[..])) * Pow2(shift) + value) % Pow2(bits)
  {
    hide Pow2, Val;
    if bits <= 64 {
      SetSmall(bits, datap, shift, value);
    } else {
      ghost var was := datap[..];
      assert datap[..Words(bits)] == was;
      WideInPlace.ShiftLeftInPlace(bits, datap, shift);
      assert datap[..Words(bits)] == datap[..];
      OrDigit(datap[..], shift, value, was, bits);
      datap[0] := Or(datap[0], value);
    }
  }

  lemma ValueBelow(hex: bool, c: char, r: nat)
    requires r < 16 && (IsXDigit(c) || (hex && IsX(c))) && (hex || DigitValue(ToLower(c)) < 2)
    ensures var d := if IsX(c) then HexDigit(r) else ToLower(c);
      var v := if IsX(c) then r else DigitValue(ToLower(c));
      DigitValue(d) == v && v < Pow2(if hex then 4 else 1)
  {
    assert Pow2(4) == 16 && Pow2(1) == 2;
    HexDigitValue(r);
  }

  /** `VL_ZERO_RESET_W` and `*datap = 0`. */
  method ZeroWords(datap: array<word>)
    modifies datap
    ensures Val(datap[..]) == 0
  {
    for i := 0 to datap.Length
      invariant forall k :: 0 <= k < i ==> datap[k] == 0
    {
      datap[i] := 0;
    }
    ValZeros(datap[..]);
  }

  lemma NoDigits(datap: seq<word>, bits: nat, shift: nat)
    requires Val(datap) == 0
    ensures HoldsDigits(datap, bits, [], shift)
  {
    DivModUnique(0, Pow2(bits), 0, 0);
  }

  /** `*datap = ((*datap << shift) + value) & mask` on one or two words. */
  method SetSmall(bits: nat, datap: array<word>, shift: nat, value: nat)
    requires 1 <= bits <= 64 && datap.Length == Words(bits) && 1 <= shift < 32
    modifies datap
    ensures Val(datap[..]) == (Val(old(datap[..])) * Pow2(shift) + value) % Pow2(bits)
  {
    hide Pow2;
    var v := if bits <= 32 then datap[0] as nat else (datap[0] as nat) + 0x1_0000_0000 * (datap[1] as nat);
    SmallValue(datap[..]);
    var w := (v * Pow2(shift) + value) % Pow2(bits);
    SmallBound(bits);
    if bits <= 32 {
      datap[0] := w;
    } else {
      datap[0], datap[1] := w % 0x1_0000_0000, w / 0x1_0000_0000;
    }
    SmallValue(datap[..]);
  }

  lemma SmallBound(bits: nat)
    ensures bits <= 32 ==> Pow2(bits) <= 0x1_0000_0000
    ensures bits <= 64 ==> Pow2(bits) <= 0x1_0000_0000_0000_0000
  {
    Pow2At32();
    Pow2Add(32, 32);
    if bits <= 32 { Pow2Mono(bits, 32); }
    if bits <= 64 { Pow2Mono(bits, 64); }
  }

  lemma SmallValue(ws: seq<word>)
    ensures |ws| == 1 ==> Val(ws) == ws[0]
    ensures |ws| == 2 ==> Val(ws) == (ws[0] as nat) + 0x1_0000_0000 * (ws[1] as nat)
  {
    if |ws| == 1 { assert ws[1..] == []; }
    if |ws| == 2 { assert ws[1..][1..] == [] && ws[1..][0] == ws[1]; }
  }

  /** Or-ing a digit into the space the shift has made adds it. */
  lemma OrDigit(ws: seq<word>, shift: nat, value: nat, was: seq<word>, bits: nat)
    requires 1 <= shift < 32 && value < Pow2(shift) && |ws| > 0 && bits > 64
    requires Val(ws) == Val(was) * Pow2(shift) % Pow2(bits)
    ensures Or(ws[0], value) < 0x1_0000_0000
    ensures Val(ws[0 := Or(ws[0], value)]) == (Val(was) * Pow2(shift) + value) % Pow2(bits)
  {
    hide Pow2, Or;
    DigitRoom(Val(was), shift, bits);
    var q := Val(was) % Pow2(bits - shift);
    assert Val(ws) == q * Pow2(shift);
    LowWordRoom(ws, q, shift);
    OrDisjoint(ws[0] / Pow2(shift), value, shift);
    WordRoom(ws[0], shift, value);
    var t := ws[0 := Or(ws[0], value)];
    assert t[1..] == ws[1..] && Val(t) == Val(ws) + value;
    SumBelow(Val(was), shift, value, bits);
  }

  /** Shifting left by s and cutting at b keeps the low b-s bits, shifted. */
  lemma DigitRoom(x: nat, s: nat, b: nat)
    requires s <= b
    ensures x * Pow2(s) % Pow2(b) == x % Pow2(b - s) * Pow2(s)
  {
    Pow2Add(s, b - s);
    hide Pow2;
    ModScales(x, Pow2(s), Pow2(b - s), 0);
  }

  /** The low word of a multiple of 2^s is one. */
  lemma LowWordRoom(ws: seq<word>, q: nat, s: nat)
    requires 1 <= s < 32 && |ws| > 0 && Val(ws) == q * Pow2(s)
    ensures ws[0] == ws[0] / Pow2(s) * Pow2(s)
  {
    SplitPowers(s);
    hide Pow2, Val;
    var a, d := Pow2(s), Pow2(32 - s);
    var h := ValTail(ws);
    Multiple(ws[0], h, q, a, d);
  }

  ghost function ValTail(ws: seq<word>): (h: nat)
    requires |ws| > 0
    ensures Val(ws) == ws[0] + 0x1_0000_0000 * h
  {
    Val(ws[1..])
  }

  lemma Multiple(x: nat, h: nat, q: nat, a: nat, d: nat)
    requires a > 0 && a * d == 0x1_0000_0000 && x + 0x1_0000_0000 * h == q * a
    ensures x == x / a * a
  {
    var k := q - d * h;
    assert k * a == q * a - d * h * a;
    assert d * h * a == a * d * h;
    assert x == k * a;
    DivModUnique(x, a, k, 0);
  }

  lemma WordRoom(x: word, s: nat, value: nat)
    requires 1 <= s < 32 && value < Pow2(s) && x == x / Pow2(s) * Pow2(s)
    ensures x + value < 0x1_0000_0000
  {
    SplitPowers(s);
    hide Pow2;
    QuotientBound(x, Pow2(s), Pow2(32 - s));
    WideNormalize.DigitsFit(x / Pow2(s), Pow2(32 - s), Pow2(s), value);
  }

  lemma SumBelow(x: nat, s: nat, value: nat, b: nat)
    requires s <= b && value < Pow2(s)
    ensures (x * Pow2(s) + value) % Pow2(b) == x % Pow2(b - s) * Pow2(s) + value
  {
    Pow2Add(s, b - s);
    hide Pow2;
    ModScales(x, Pow2(s), Pow2(b - s), value);
  }

  /** Cutting at every digit is cutting once. */
  lemma DigitIn(was: seq<word>, now: seq<word>, bits: nat, s: string, c: char, shift: nat)
    requires HoldsDigits(was, bits, s, shift) && Val(now) == (Val(was) * Pow2(shift) + DigitValue(c)) % Pow2(bits)
    ensures HoldsDigits(now, bits, s + [c], shift)
  {
    NumberSnoc(s, c, shift);
    hide Pow2, Val, DigitValue, Number;
    CutTwice(Number(s, shift), Pow2(shift), DigitValue(c), Pow2(bits));
  }

  lemma NumberSnoc(s: string, c: char, shift: nat)
    ensures Number(s + [c], shift) == Number(s, shift) * Pow2(shift) + DigitValue(c)
  {
    assert (s + [c])[..|s|] == s;
  }

  lemma CutTwice(x: nat, a: nat, v: nat, m: nat)
    requires m > 0
    ensures (x % m * a + v) % m == (x * a + v) % m
  {
    Euclid(x, m);
    var q, r := x / m, x % m;
    var y := r * a + v;
    Euclid(y, m);
    assert x * a + v == (q * a + y / m) * m + y % m by {
      assert x * a == (q * m + r) * a;
      assert q * m * a == q * a * m;
    }
    DivModUnique(x * a + v, m, q * a + y / m, y % m);
  }
}
