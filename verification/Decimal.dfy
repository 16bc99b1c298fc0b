/**
 Decimal printing of wide numbers in the Verilator runtime: the double-dabble
 algorithm on packed decimal digits, four bits each.
 */
module Decimal {
  import opened Bits
  import opened Wide
  import opened WideArith
  import opened WideShift

  const VALUE_STRING_MAX_WIDTH: nat := 8192

  type digit = d: int | 0 <= d < 16

  // ---------------------------------------------------------------- digit sequences

  /** The number whose base-b digits are ds, least significant first. */
  function FromDigits(ds: seq<digit>, b: nat): nat {
    if |ds| == 0 then 0 else ds[0] + b * FromDigits(ds[1..], b)
  }

  function PowN(b: nat, n: nat): nat {
    if n == 0 then 1 else b * PowN(b, n - 1)
  }

  lemma {:induction false} PowNPositive(b: nat, n: nat)
    requires b > 0
    ensures PowN(b, n) > 0
  {
    if n > 0 {
      PowNPositive(b, n - 1);
    }
  }

  lemma {:induction false} Pow16(n: nat)
    ensures PowN(16, n) == Pow2(4 * n)
  {
    if n > 0 {
      Pow16(n - 1);
      assert Pow2(4) == 16;
      Pow2Add(4, 4 * (n - 1));
      assert 4 * n == 4 + 4 * (n - 1);
    }
  }

  lemma {:induction false} DigitsBound(ds: seq<digit>, b: nat)
    requires b > 0 && forall k :: 0 <= k < |ds| ==> ds[k] < b
    ensures FromDigits(ds, b) < PowN(b, |ds|)
  {
    if |ds| > 0 {
      assert forall k :: 0 <= k < |ds| - 1 ==> ds[1..][k] == ds[k + 1];
      DigitsBound(ds[1..], b);
      PrependBound(ds[0], FromDigits(ds[1..], b), PowN(b, |ds| - 1), b);
    }
  }

  lemma PrependBound(d: nat, r: nat, p: nat, b: nat)
    requires d < b && r < p
    ensures d + b * r < b * p
  {
    MulMono(r + 1, p, b);
    assert b * (r + 1) == b * r + b;
  }

  lemma Prepend(d: nat, b: nat, r: nat, e: int, p: nat)
    ensures d + b * (r + e * p) == d + b * r + e * (b * p)
  {
    assert b * (e * p) == e * (b * p);
  }

  lemma {:induction false} DigitsUpdate(ds: seq<digit>, i: nat, x: digit, b: nat)
    requires i < |ds|
    ensures FromDigits(ds[i := x], b) == FromDigits(ds, b) + (x - ds[i]) * PowN(b, i)
  {
    var t := ds[i := x];
    if i == 0 {
      assert t[1..] == ds[1..];
    } else {
      assert t[1..] == ds[1..][i - 1 := x];
      DigitsUpdate(ds[1..], i - 1, x, b);
      Prepend(ds[0], b, FromDigits(ds[1..], b), x as int - ds[i] as int, PowN(b, i - 1));
    }
  }

  lemma {:induction false} DigitsSnoc(ds: seq<digit>, x: digit, b: nat)
    ensures FromDigits(ds + [x], b) == FromDigits(ds, b) + x * PowN(b, |ds|)
  {
    if |ds| == 0 {
      assert (ds + [x])[1..] == [];
    } else {
      assert (ds + [x])[1..] == ds[1..] + [x];
      DigitsSnoc(ds[1..], x, b);
      Prepend(ds[0], b, FromDigits(ds[1..], b), x, PowN(b, |ds| - 1));
    }
  }

  /** Four bits of a packed number are one digit, zero beyond the last. */
  lemma {:induction false} PackedNibble(ds: seq<digit>, j: nat)
    ensures Shr(FromDigits(ds, 16), 4 * j) % 16 == if j < |ds| then ds[j] else 0
    decreases j
  {
    var x := FromDigits(ds, 16);
    if |ds| == 0 {
      ShrZero(4 * j);
    } else if j > 0 {
      assert x / 16 == FromDigits(ds[1..], 16);
      PackedNibble(ds[1..], j - 1);
      ShrFour(x, 4 * j - 4);
    }
  }

  lemma {:induction false} ShrZero(n: nat)
    ensures Shr(0, n) == 0
  {
    if n > 0 {
      ShrZero(n - 1);
    }
  }

  lemma ShrFour(x: nat, n: nat)
    ensures Shr(x, n + 4) == Shr(x / 16, n)
  {
    assert x / 2 / 2 / 2 / 2 == x / 16;
    assert Shr(x, n + 4) == Shr(x / 2, n + 3) == Shr(x / 2 / 2, n + 2) == Shr(x / 2 / 2 / 2, n + 1);
  }

  // ---------------------------------------------------------------- double dabble on digits

  /** A digit before the shift: three is added to those that reach ten when doubled. */
  function Add3(d: digit): digit {
    if 5 <= d <= 9 then d + 3 else d
  }

  ghost predicate Decimals(ds: seq<digit>) {
    forall k :: 0 <= k < |ds| ==> ds[k] <= 9
  }

  /** The decimal digits of twice the number plus c; a carry out of the last digit is dropped. */
  function Doubled(ds: seq<digit>, c: nat): (r: seq<digit>)
    requires c <= 1 && Decimals(ds)
    ensures |r| == |ds| && Decimals(r)
  {
    if |ds| == 0 then []
    else [2 * ds[0] % 10 + c] + Doubled(ds[1..], if ds[0] >= 5 then 1 else 0)
  }

  /** The digits with the first n of them adjusted. */
  function FirstAdd3(ds: seq<digit>, n: nat): (r: seq<digit>)
    ensures |r| == |ds|
  {
    seq(|ds|, k requires 0 <= k < |ds| => if k < n then Add3(ds[k]) else ds[k])
  }

  function AllAdd3(ds: seq<digit>): (r: seq<digit>)
    ensures |r| == |ds|
  {
    FirstAdd3(ds, |ds|)
  }

  /** A carry out of doubling: 1 when the top digit is five or more. */
  function TopCarry(ds: seq<digit>, c: nat): nat
    requires c <= 1
  {
    if |ds| == 0 then c else if ds[|ds| - 1] >= 5 then 1 else 0
  }

  /**
   The heart of double dabble: adding three to the digits from five up and doubling
   the packed number doubles the decimal number.
   */
  lemma {:induction false} DoubleDabble(ds: seq<digit>, c: nat)
    requires c <= 1 && Decimals(ds)
    ensures FromDigits(Doubled(ds, c), 16) + TopCarry(ds, c) * PowN(16, |ds|)
            == 2 * FromDigits(AllAdd3(ds), 16) + c
    ensures FromDigits(Doubled(ds, c), 10) + TopCarry(ds, c) * PowN(10, |ds|)
            == 2 * FromDigits(ds, 10) + c
  {
    if |ds| > 0 {
      var c' := if ds[0] >= 5 then 1 else 0;
      DoubleDabble(ds[1..], c');
      DoubledParts(ds, c, c');
      var t, n, r := TopCarry(ds, c), |ds| - 1, 2 * ds[0] % 10 + c;
      DabbleAlgebra(16, r, FromDigits(Doubled(ds[1..], c'), 16), t, PowN(16, n),
                    FromDigits(AllAdd3(ds[1..]), 16), c', Add3(ds[0]), c);
      DabbleAlgebra(10, r, FromDigits(Doubled(ds[1..], c'), 10), t, PowN(10, n),
                    FromDigits(ds[1..], 10), c', ds[0], c);
    }
  }

  lemma DoubledParts(ds: seq<digit>, c: nat, c': nat)
    requires |ds| > 0 && c <= 1 && Decimals(ds) && c' == if ds[0] >= 5 then 1 else 0
    ensures TopCarry(ds[1..], c') == TopCarry(ds, c)
    ensures Doubled(ds, c)[0] == 2 * ds[0] as int % 10 + c && Doubled(ds, c)[1..] == Doubled(ds[1..], c')
    ensures AllAdd3(ds)[0] == Add3(ds[0]) && AllAdd3(ds)[1..] == AllAdd3(ds[1..])
    ensures 2 * ds[0] as int % 10 + c + 16 * c' == 2 * Add3(ds[0]) as int + c
    ensures 2 * ds[0] as int % 10 + c + 10 * c' == 2 * ds[0] as int + c
  {
  }

  lemma DabbleAlgebra(b: nat, r: nat, rs: nat, t: nat, p: nat, a: nat, c': nat, d: nat, c: nat)
    requires rs + t * p == 2 * a + c' && r + b * c' == 2 * d + c
    ensures r + b * rs + t * (b * p) == 2 * (d + b * a) + c
  {
    assert b * (rs + t * p) == b * rs + t * (b * p);
    assert b * (2 * a + c') == 2 * (b * a) + b * c';
  }

  /** Without overflow nothing is dropped. */
  lemma DoubledFits(ds: seq<digit>, c: nat)
    requires c <= 1 && Decimals(ds) && 2 * FromDigits(ds, 10) + c < PowN(10, |ds|)
    ensures FromDigits(Doubled(ds, c), 16) == 2 * FromDigits(AllAdd3(ds), 16) + c
    ensures FromDigits(Doubled(ds, c), 10) == 2 * FromDigits(ds, 10) + c
  {
    DoubleDabble(ds, c);
  }

  // ---------------------------------------------------------------- room for the digits

  /** width/3 + 1 decimal digits hold every number of width bits. */
  lemma {:induction false} EnoughDigits(width: nat)
    ensures Pow2(width) < PowN(10, width / 3 + 1)
    decreases width
  {
    if width < 3 {
      assert Pow2(0) == 1 && Pow2(1) == 2 && Pow2(2) == 4;
      assert PowN(10, 1) == 10;
    } else {
      EnoughDigits(width - 3);
      Pow2Add(3, width - 3);
      assert Pow2(3) == 8;
      assert width / 3 == (width - 3) / 3 + 1;
      assert PowN(10, width / 3 + 1) == 10 * PowN(10, (width - 3) / 3 + 1);
    }
  }

  /** `maxdecwidth`: the bits set aside for the packed digits. */
  function MaxDecWidth(width: nat): nat {
    (width + 3) * 4 / 3
  }

  lemma DigitsFitWords(width: nat)
    ensures 4 <= 4 * (width / 3 + 1) <= MaxDecWidth(width) <= 32 * Words(MaxDecWidth(width))
    ensures width <= VALUE_STRING_MAX_WIDTH ==>
              Words(MaxDecWidth(width)) <= VALUE_STRING_MAX_WIDTH / 4 + 2
  {
  }

  // ---------------------------------------------------------------- one nibble

  /** `(data[j/8] >> 4*(j%8)) & 0xf` is nibble j of the number. */
  lemma NibbleRead(s: seq<word>, j: nat)
    requires j < 8 * |s|
    ensures And(Shr32(s[4 * j / 32], 4 * j % 32), 0xf) == Shr(Val(s), 4 * j) % 16
  {
    hide And, Bit, Shr, Val;
    var w, b := 4 * j / 32, 4 * j % 32;
    assert Pow2(4) == 16;
    AndLowOnes(Shr32(s[w], b), 4);
    forall k: nat
      ensures Bit(Shr32(s[w], b) % 16, k) == Bit(Shr(Val(s), 4 * j) % 16, k)
    {
      BitOfMod(Shr32(s[w], b), 4, k);
      BitOfMod(Shr(Val(s), 4 * j), 4, k);
      if k < 4 {
        BitOfShr32(s[w], b, k);
        BitOfShr(Val(s), 4 * j, k);
        BitOfVal(s, 4 * j + k);
        assert (4 * j + k) / 32 == w && (4 * j + k) % 32 == b + k;
      }
    }
    BitsEqual(Shr32(s[w], b) % 16, Shr(Val(s), 4 * j) % 16);
  }

  /** `tmp2[nibble_bit/32] |= 3 << nibble_bit%32` on zero words is 3 * 16^j. */
  lemma ThreeAt(s: seq<word>, j: nat, x: word)
    requires j < 8 * |s| && (forall k :: 0 <= k < |s| ==> s[k] == 0)
    requires x == Or(s[4 * j / 32], Shl32(3, 4 * j % 32))
    ensures Val(s[4 * j / 32 := x]) == 3 * PowN(16, j)
  {
    hide Or, Val, ShlBy, PowB, Pow2, PowN;
    var w, b := 4 * j / 32, 4 * j % 32;
    OrZero(Shl32(3, b));
    Shl32Def(3, b);
    Pow2At32();
    Pow2Mono(b, 28);
    Pow2Add(28, 4);
    assert Pow2(4) == 16 by { FourBits(); }
    assert 3 * Pow2(b) < 0x1_0000_0000;
    assert x == 3 * Pow2(b);
    ValZeros(s);
    ValUpdate(s, w, x);
    PowBIsPow2(w);
    Pow2Add(32 * w, b);
    Pow16(j);
    assert 4 * j == 32 * w + b;
    Thrice(PowB(w), Pow2(b));
  }

  lemma Thrice(a: nat, b: nat)
    ensures a * (3 * b) == 3 * (a * b)
  {
  }

  lemma FourBits()
    ensures Pow2(4) == 16
  {
  }

  /** The words bcd hold exactly the packed digits ds, which have room to spare. */
  ghost predicate Packs(s: seq<word>, ds: seq<digit>) {
    Val(s) == FromDigits(ds, 16) && |ds| <= 8 * |s|
  }

  lemma PackedRoom(s: seq<word>, ds: seq<digit>)
    requires |ds| <= 8 * |s|
    ensures FromDigits(ds, 16) < PowB(|s|)
  {
    DigitsBound(ds, 16);
    Pow16(|ds|);
    PowBIsPow2(|s|);
    Pow2Mono(4 * |ds|, 32 * |s|);
  }

  lemma ReadDigit(s: seq<word>, ds: seq<digit>, j: nat)
    requires Packs(s, ds) && j < 8 * |s|
    ensures And(Shr32(s[4 * j / 32], 4 * j % 32), 0xf) == if j < |ds| then ds[j] else 0
  {
    hide And, Shr32, Shr, FromDigits;
    NibbleRead(s, j);
    PackedNibble(ds, j);
  }

  /** Adding three at a digit from five to nine changes that digit only. */
  lemma AddThreeAt(ds: seq<digit>, j: nat)
    requires j < |ds| && 5 <= ds[j] <= 9
    ensures FromDigits(FirstAdd3(ds, j + 1), 16) == FromDigits(FirstAdd3(ds, j), 16) + 3 * PowN(16, j)
  {
    var cur := FirstAdd3(ds, j);
    assert FirstAdd3(ds, j + 1) == cur[j := ds[j] + 3];
    DigitsUpdate(cur, j, ds[j] + 3, 16);
  }

  lemma NothingToAdd(ds: seq<digit>, j: nat)
    requires j < |ds| ==> ds[j] < 5
    ensures FirstAdd3(ds, j + 1) == FirstAdd3(ds, j)
  {
  }

  /** The pass over the nibbles: adds three to every digit from five up. */
  method AdjustDigits(maxdecwidth: nat, bcd: array<word>, tmp: array<word>, tmp2: array<word>, ghost ds: seq<digit>)
    requires bcd != tmp && bcd != tmp2 && tmp != tmp2
    requires Words(maxdecwidth) <= bcd.Length && Words(maxdecwidth) <= tmp.Length && Words(maxdecwidth) <= tmp2.Length
    requires 4 * |ds| <= maxdecwidth && Decimals(ds) && Packs(bcd[..Words(maxdecwidth)], ds)
    modifies bcd, tmp, tmp2
    ensures Packs(bcd[..Words(maxdecwidth)], AllAdd3(ds))
  {
    hide And, Shr32, Packs, FirstAdd3;
    var words := Words(maxdecwidth);
    var nibble_bit := 0;
    NoneAdded(ds);
    while nibble_bit < maxdecwidth
      invariant nibble_bit % 4 == 0 && 0 <= nibble_bit < maxdecwidth + 4
      invariant Packs(bcd[..words], FirstAdd3(ds, nibble_bit / 4))
    {
      ghost var j, now := nibble_bit / 4, bcd[..words];
      assert nibble_bit == 4 * j && j < 8 * words;
      ReadDigit(now, FirstAdd3(ds, j), j);
      NotYetAdded(ds, j);
      assert now[nibble_bit / 32] == bcd[nibble_bit / 32];
      if And(Shr32(bcd[nibble_bit / 32], nibble_bit % 32), 0xf) >= 5 {
        AddThree(words, bcd, tmp, tmp2, nibble_bit, ds);
      } else {
        NothingToAdd(ds, j);
      }
      nibble_bit := nibble_bit + 4;
    }
    AllAdded(ds, nibble_bit / 4);
  }

  /** Adds three at one digit. */
  method AddThree(words: nat, bcd: array<word>, tmp: array<word>, tmp2: array<word>, bit: nat, ghost ds: seq<digit>)
    requires bcd != tmp && bcd != tmp2 && tmp != tmp2
    requires words <= bcd.Length && words <= tmp.Length && words <= tmp2.Length && bit % 4 == 0 && bit < 32 * words
    requires bit / 4 < |ds| && 5 <= ds[bit / 4] <= 9 && Packs(bcd[..words], FirstAdd3(ds, bit / 4))
    modifies bcd, tmp, tmp2
    ensures Packs(bcd[..words], FirstAdd3(ds, bit / 4 + 1))
  {
    hide Or, Shl32, Val, PowB, FromDigits, PowN, FirstAdd3;
    ghost var j, now := bit / 4, bcd[..words];
    Clear(tmp2, words);
    ghost var zeros := tmp2[..words];
    tmp2[bit / 32] := OrWord(tmp2[bit / 32], Shl32(3, bit % 32));
    assert bit == 4 * j;
    assert tmp2[..words] == zeros[4 * j / 32 := tmp2[bit / 32]];
    ThreeAt(zeros, j, tmp2[bit / 32]);
    AssignW(words, tmp, bcd);
    Add(words, bcd, tmp, tmp2);
    AddThreeAt(ds, j);
    PackedRoom(now, FirstAdd3(ds, j + 1));
    DivModUnique(FromDigits(FirstAdd3(ds, j + 1), 16), PowB(words), 0, FromDigits(FirstAdd3(ds, j + 1), 16));
  }

  lemma NoneAdded(ds: seq<digit>)
    ensures FirstAdd3(ds, 0) == ds
  {
  }

  lemma NotYetAdded(ds: seq<digit>, j: nat)
    ensures j < |ds| ==> FirstAdd3(ds, j)[j] == ds[j]
  {
  }

  lemma AllAdded(ds: seq<digit>, j: nat)
    requires j >= |ds|
    ensures FirstAdd3(ds, j) == AllAdd3(ds)
  {
  }

  /** `x | y` on words. */
  function OrWord(x: word, y: word): (r: word)
    ensures r == Or(x, y)
  {
    Pow2At32();
    OrBound(x, y, 32);
    Or(x, y)
  }

  // ---------------------------------------------------------------- shifting a bit in

  /** `bcd[0] |= 1` on an even number adds one. */
  lemma OrOne(s: seq<word>, x: word)
    requires |s| > 0 && Val(s) % 2 == 0 && x == Or(s[0], 1)
    ensures Val(s[0 := x]) == Val(s) + 1
  {
    hide Or;
    assert s[0] % 2 == 0;
    OrDisjoint(s[0] / 2, 1, 1);
    assert Pow2(1) == 2;
    assert s[0] / 2 * Pow2(1) == s[0];
    assert s[0 := x][1..] == s[1..];
  }

  /** The shift loses nothing: the doubled digits still fit. */
  lemma ShiftKeeps(o: nat, x: nat, maxdecwidth: nat, y: nat, k: nat)
    requires maxdecwidth >= 1 && LeftBy(o, x, 1, maxdecwidth)
    requires 2 * x <= y < PowN(16, k) && 4 * k <= maxdecwidth
    ensures o == 2 * x
  {
    Pow16(k);
    Pow2Mono(4 * k, maxdecwidth);
    assert Pow2(maxdecwidth) == 2 * Pow2(maxdecwidth - 1);
    DivModUnique(x, Pow2(maxdecwidth - 1), 0, x);
    assert Pow2(1) == 2;
  }

  /** One shift of the algorithm: double the adjusted number and bring in the next bit. */
  method ShiftBitIn(maxdecwidth: nat, bcd: array<word>, tmp: array<word>, bit: bool, ghost ds: seq<digit>)
    requires bcd != tmp && Words(maxdecwidth) <= bcd.Length && Words(maxdecwidth) <= tmp.Length
    requires 4 <= 4 * |ds| <= maxdecwidth && Decimals(ds) && Packs(bcd[..Words(maxdecwidth)], AllAdd3(ds))
    requires 2 * FromDigits(ds, 10) + (if bit then 1 else 0) < PowN(10, |ds|)
    modifies bcd, tmp
    ensures Packs(bcd[..Words(maxdecwidth)], Doubled(ds, if bit then 1 else 0))
  {
    hide Val, PowB, FromDigits, PowN, Or, AllAdd3, Doubled;
    var words := Words(maxdecwidth);
    ghost var c := if bit then 1 else 0;
    ghost var x, y := FromDigits(AllAdd3(ds), 16), FromDigits(Doubled(ds, c), 16);
    DoubledFits(ds, c);
    DigitsBound(Doubled(ds, c), 16);
    AssignW(words, tmp, bcd);
    ShiftLeft(maxdecwidth, bcd, tmp, 1);
    ShiftKeeps(Val(bcd[..words]), x, maxdecwidth, y, |ds|);
    if bit {
      ghost var even := bcd[..words];
      bcd[0] := OrWord(bcd[0], 1);
      assert bcd[..words] == even[0 := bcd[0]];
      OrOne(even, bcd[0]);
    }
  }

  // ---------------------------------------------------------------- the printed string

  function ToNat(s: string): int {
    if |s| == 0 then 0 else 10 * ToNat(s[..|s| - 1]) + (s[|s| - 1] as int - '0' as int)
  }

  /** s is the decimal numeral of n, without superfluous leading zeros. */
  ghost predicate IsNumeral(s: string, n: int) {
    && |s| > 0 && (forall k :: 0 <= k < |s| ==> '0' <= s[k] <= '9')
    && (|s| > 1 ==> s[0] != '0')
    && ToNat(s) == n
  }

  lemma {:induction false} NumeralBound(s: string, n: int)
    requires IsNumeral(s, n)
    ensures n >= 0 && (|s| == 1 <==> n < 10)
  {
    if |s| > 1 {
      var p := s[..|s| - 1];
      assert forall k :: 0 <= k < |p| ==> p[k] == s[k];
      NumeralBound(p, ToNat(p));
      if |p| == 1 {
        assert p[..0] == [];
        assert s[0] == p[0];
      }
    } else {
      assert s == [s[0]] && '0' <= s[0] <= '9';
      OneChar(s[0]);
    }
  }

  lemma OneChar(c: char)
    ensures ToNat([c]) == c as int - '0' as int
  {
    assert [c][..0] == [];
  }

  /** A number has one numeral. */
  lemma {:induction false} NumeralUnique(s: string, t: string, n: int)
    requires IsNumeral(s, n) && IsNumeral(t, n)
    ensures s == t
    decreases |s|
  {
    var p, q := s[..|s| - 1], t[..|t| - 1];
    NumeralBound(s, n);
    NumeralBound(t, n);
    LastDigit(s, n);
    LastDigit(t, n);
    hide IsNumeral, ToNat;
    assert s == p + [s[|s| - 1]] && t == q + [t[|t| - 1]];
    if |s| > 1 { NumeralUnique(p, q, ToNat(p)); }
  }

  lemma LastDigit(s: string, n: int)
    requires IsNumeral(s, n)
    ensures |s| > 0 && '0' <= s[|s| - 1] <= '9'
    ensures n == 10 * ToNat(s[..|s| - 1]) + (s[|s| - 1] as int - '0' as int)
    ensures if |s| > 1 then IsNumeral(s[..|s| - 1], ToNat(s[..|s| - 1])) else ToNat(s[..|s| - 1]) == 0
  {
    var p := s[..|s| - 1];
    assert forall k :: 0 <= k < |p| ==> p[k] == s[k];
  }

  /** Characters printed so far, over the m digits still to print. */
  ghost predicate Printing(out: string, ds: seq<digit>, m: nat, total: nat) {
    && m <= |ds|
    && ToNat(out) * PowN(10, m) + FromDigits(ds[..m], 10) == total
    && (forall k :: 0 <= k < |out| ==> '0' <= out[k] <= '9')
  }

  lemma PrintStep(out: string, ds: seq<digit>, m: nat, total: nat, c: char)
    requires m > 0 && Printing(out, ds, m, total) && Decimals(ds) && c as int == '0' as int + ds[m - 1]
    ensures Printing(out + [c], ds, m - 1, total)
  {
    hide FromDigits;
    assert (out + [c])[..|out|] == out;
    assert ds[..m] == ds[..m - 1] + [ds[m - 1]];
    DigitsSnoc(ds[..m - 1], ds[m - 1], 10);
    PrintAlgebra(ToNat(out), PowN(10, m - 1), ds[m - 1]);
  }

  lemma PrintAlgebra(t: int, p: nat, d: nat)
    ensures (10 * t + d) * p == t * (10 * p) + d * p
  {
  }

  /** Leading zero digits do not count. */
  lemma {:induction false} DropZeros(ds: seq<digit>, m: nat)
    requires m <= |ds| && forall k :: m <= k < |ds| ==> ds[k] == 0
    ensures FromDigits(ds, 10) == FromDigits(ds[..m], 10)
    decreases |ds|
  {
    if m < |ds| {
      var n := |ds| - 1;
      assert ds == ds[..n] + [ds[n]] && ds[..n][..m] == ds[..m];
      DigitsSnoc(ds[..n], ds[n], 10);
      DropZeros(ds[..n], m);
    } else {
      assert ds[..m] == ds;
    }
  }

  lemma WordsHold(n: nat)
    ensures n <= 32 * Words(n)
  {
  }

  lemma ReadAt(s: seq<word>, ds: seq<digit>, lsb: nat)
    requires Packs(s, ds) && lsb % 4 == 0 && lsb < 32 * |s|
    ensures And(Shr32(s[lsb / 32], lsb % 32), 0xf) == if lsb / 4 < |ds| then ds[lsb / 4] else 0
  {
    hide And, Shr32, Packs;
    ReadDigit(s, ds, lsb / 4);
  }

  /** The loop that skips leading zeros, down to the last digit. */
  method SkipZeros(maxdecwidth: nat, bcd: array<word>, ghost ds: seq<digit>) returns (lsb: nat)
    requires Words(maxdecwidth) <= bcd.Length && 4 <= 4 * |ds| <= maxdecwidth
    requires Packs(bcd[..Words(maxdecwidth)], ds)
    ensures lsb % 4 == 0 && lsb / 4 < |ds| && (lsb > 0 ==> ds[lsb / 4] != 0)
    ensures forall k :: lsb / 4 < k < |ds| ==> ds[k] == 0
  {
    hide And, Shr32, Packs, Words;
    lsb := maxdecwidth - 1 - (maxdecwidth - 1) % 4;
    ghost var s := bcd[..Words(maxdecwidth)];
    WordsHold(maxdecwidth);
    while lsb > 0
      invariant lsb % 4 == 0 && lsb < maxdecwidth
      invariant forall k :: lsb / 4 < k < |ds| ==> ds[k] == 0
    {
      ReadAt(s, ds, lsb);
      assert s[lsb / 32] == bcd[lsb / 32];
      if And(Shr32(bcd[lsb / 32], lsb % 32), 0xf) != 0 { return; }
      lsb := lsb - 4;
    }
  }

  /** The output loops: skips leading zeros, then prints the digits from lsb down. */
  method PrintDigits(maxdecwidth: nat, bcd: array<word>, ghost ds: seq<digit>) returns (output: string)
    requires Words(maxdecwidth) <= bcd.Length && 4 <= 4 * |ds| <= maxdecwidth
    requires Decimals(ds) && Packs(bcd[..Words(maxdecwidth)], ds)
    ensures IsNumeral(output, FromDigits(ds, 10))
  {
    hide And, Shr32, FromDigits, PowN, Packs, Printing;
    ghost var now, total := bcd[..Words(maxdecwidth)], FromDigits(ds, 10);
    output := "";
    var lsb: int := SkipZeros(maxdecwidth, bcd, ds);
    ghost var top := lsb / 4 + 1;
    DropZeros(ds, top);
    ghost var m := top;
    PrintStarts(ds, m, total);
    while lsb >= 0
      invariant lsb == 4 * (m - 1) && 0 <= m <= top <= |ds|
      invariant |output| == top - m
      invariant Printing(output, ds, m, total)
      invariant m < top ==> output[0] as int == '0' as int + ds[top - 1]
    {
      ReadDigit(now, ds, m - 1);
      var nibble := And(Shr32(bcd[lsb / 32], lsb % 32), 0xf);
      var c := '0' + nibble as char;
      PrintStep(output, ds, m, total, c);
      output := output + [c];
      lsb := lsb - 4;
      m := m - 1;
    }
    PrintEnds(output, ds, total);
  }

  lemma PrintStarts(ds: seq<digit>, m: nat, total: nat)
    requires m <= |ds| && FromDigits(ds[..m], 10) == total
    ensures Printing("", ds, m, total)
  {
  }

  lemma PrintEnds(out: string, ds: seq<digit>, total: nat)
    requires Printing(out, ds, 0, total)
    ensures ToNat(out) == total && forall k :: 0 <= k < |out| ==> '0' <= out[k] <= '9'
  {
  }

  // ---------------------------------------------------------------- VL_DECIMAL_NW

  lemma ShrStep(x: nat, k: nat)
    ensures Shr(x, k) == 2 * Shr(x, k + 1) + if Bit(x, k) then 1 else 0
  {
    BitDef(x, k);
    ShrAdd(x, k, 1);
  }

  lemma {:induction false} ShrAdd(x: nat, m: nat, n: nat)
    ensures Shr(x, m + n) == Shr(Shr(x, m), n)
    decreases m
  {
    if m > 0 {
      ShrAdd(x / 2, m - 1, n);
    }
  }

  lemma {:induction false} ShrOut(x: nat, n: nat)
    requires x < Pow2(n)
    ensures Shr(x, n) == 0
  {
    if n > 0 {
      ShrOut(x / 2, n - 1);
    }
  }

  /** Bit k of the operand below its width, as the source reads it. */
  lemma OperandBit(s: seq<word>, width: nat, k: nat)
    requires |s| == Words(width) && k < width
    ensures And(s[k / 32], Shl32(1, k % 32)) != 0 <==> Bit(Val(s) % Pow2(width), k)
    ensures And(Shr32(s[k / 32], k % 32), 1) != 0 <==> Bit(Val(s) % Pow2(width), k)
  {
    hide And, Shr32, Shl32, Bit, Val;
    BitIsSetW(s, k);
    BitOfMod(Val(s), width, k);
    BitOfShr32(s[k / 32], k % 32, 0);
    BitOfVal(s, k);
    assert Pow2(0) == 1;
    AndOneBit(Shr32(s[k / 32], k % 32), 0);
  }

  lemma NoDigits(n: nat) returns (ds: seq<digit>)
    ensures |ds| == n && Decimals(ds) && FromDigits(ds, 10) == 0 && FromDigits(ds, 16) == 0
  {
    ds := [];
    while |ds| < n
      invariant |ds| <= n && Decimals(ds) && FromDigits(ds, 10) == 0 && FromDigits(ds, 16) == 0
    {
      assert ([0] + ds)[1..] == ds;
      ds := [0] + ds;
    }
  }

  /** `VL_DECIMAL_NW`: the decimal numeral of the low width bits of the operand. */
  method DecimalOf(width: nat, lwp: array<word>) returns (output: string)
    requires width <= VALUE_STRING_MAX_WIDTH && Words(width) <= lwp.Length
    ensures IsNumeral(output, Val(lwp[..Words(width)]) % Pow2(width))
  {
    hide Val, Pow2, Shr, Bit, And, Shl32, Shr32, FromDigits, PowN, Doubled, AllAdd3;
    var maxdecwidth := MaxDecWidth(width);
    var words := Words(maxdecwidth);
    DigitsFitWords(width);
    ghost var l, ls := Val(lwp[..Words(width)]) % Pow2(width), lwp[..Words(width)];
    var bcd := new word[VALUE_STRING_MAX_WIDTH / 4 + 2];
    for i := 0 to words
      invariant forall k :: 0 <= k < i ==> bcd[k] == 0
    {
      bcd[i] := 0;
    }
    var tmp := new word[VALUE_STRING_MAX_WIDTH / 4 + 2];
    var tmp2 := new word[VALUE_STRING_MAX_WIDTH / 4 + 2];
    ghost var ds := NoDigits(width / 3 + 1);
    ValZeros(bcd[..words]);
    EnoughDigits(width);
    ShrOut(l, width);
    var from_bit := width - 1;
    while from_bit >= 0 && And(Shr32(lwp[from_bit / 32], from_bit % 32), 1) == 0
      invariant -1 <= from_bit < width && Shr(l, from_bit + 1) == 0
      invariant Packs(bcd[..words], ds)
    {
      OperandBit(ls, width, from_bit);
      ShrStep(l, from_bit);
      from_bit := from_bit - 1;
    }
    while from_bit >= 0
      invariant -1 <= from_bit < width && lwp[..Words(width)] == ls
      invariant |ds| == width / 3 + 1 && Decimals(ds)
      invariant Packs(bcd[..words], ds) && FromDigits(ds, 10) == Shr(l, from_bit + 1)
    {
      OperandBit(ls, width, from_bit);
      ShrStep(l, from_bit);
      var bit := And(lwp[from_bit / 32], Shl32(1, from_bit % 32)) != 0;
      AdjustDigits(maxdecwidth, bcd, tmp, tmp2, ds);
      DoubledFits(ds, if bit then 1 else 0);
      ShiftBitIn(maxdecwidth, bcd, tmp, bit, ds);
      ds := Doubled(ds, if bit then 1 else 0);
      from_bit := from_bit - 1;
    }
    output := PrintDigits(maxdecwidth, bcd, ds);
    assert Shr(l, 0) == l by { ShrDef(l, 0); NoShift(l); }
  }

  lemma NoShift(x: nat)
    ensures Shr(x, 0) == x
  {
  }
}
