/**
 The syntax of memory files: blanks, comments, addresses and numbers, and what the
 scanner makes of a file that is put together from them.
 */
module MemSyntax {
  import opened Bits
  import opened MemFormat
  import opened MemReader

  /**
   A piece of a file. The body of a line comment ends before its line end, that of a block comment
   before its end mark.
   */
  datatype Piece =
    | Blank(c: char)
    | LineComment(hash: bool, body: string)
    | BlockComment(body: string)
    | Address(digits: string)
    | Number(digits: string)

  function PieceText(p: Piece): string {
    match p
    case Blank(c) => [c]
    case LineComment(hash, body) => (if hash then "#" else "//") + body + "\n"
    case BlockComment(body) => "/*" + body + "*/"
    case Address(d) => "@" + d
    case Number(d) => d
  }

  function FileText(ps: seq<Piece>): string {
    if |ps| == 0 then "" else PieceText(ps[0]) + FileText(ps[1..])
  }

  // ---------------------------------------------------------------- what a file means

  predicate HexChar(c: char) {
    '0' <= c <= '9' || 'a' <= c <= 'f' || 'A' <= c <= 'F'
  }

  function Lower(c: char): char {
    if 'A' <= c <= 'Z' then (c as int - 'A' as int + 'a' as int) as char else c
  }

  /** The digits of a number in lower case, without the underscores inside it. */
  function Digits(d: string): string {
    if |d| == 0 then "" else (if d[0] == '_' then "" else [Lower(d[0])]) + Digits(d[1..])
  }

  /** A number goes to the current address. */
  function ElementOf(p: Piece, addr: nat): seq<Rec> {
    if p.Number? then [Rec(addr, Digits(p.digits))] else []
  }

  /** An address sets the current one, a number moves it on. */
  function Next(p: Piece, addr: nat): nat {
    match p
    case Address(d) => HexNat(Digits(d)) % TWO64
    case Number(_) => (addr + 1) % TWO64
    case _ => addr
  }

  function Elements(ps: seq<Piece>, addr: nat): seq<Rec> {
    if |ps| == 0 then [] else ElementOf(ps[0], addr) + Elements(ps[1..], Next(ps[0], addr))
  }

  function AddressAfter(ps: seq<Piece>, addr: nat): nat {
    if |ps| == 0 then addr else AddressAfter(ps[1..], Next(ps[0], addr))
  }

  // ---------------------------------------------------------------- which files are well formed

  /** No slash right behind a star, the one that opens the comment included; underscores in between do not count. */
  predicate NoEndMark(last: char, body: string)
    decreases |body|
  {
    |body| == 0
    || (if body[0] == '_' then NoEndMark(last, body[1..])
        else !(last == '*' && body[0] == '/') && NoEndMark(body[0], body[1..]))
  }

  /** Digits, of which a binary file has only 0 and 1, and underscores. */
  predicate NumberChar(c: char, hex: bool) {
    c == '_' || c == '0' || c == '1' || (hex && (HexChar(c) || c == 'x' || c == 'X'))
  }

  predicate GoodPiece(p: Piece, hex: bool) {
    match p
    case Blank(c) => c == ' ' || c == '\t' || c == '\r' || c == '\n' || c == 12 as char
    case LineComment(_, body) => '\n' !in body
    case BlockComment(body) => NoEndMark('*', body)
    case Address(d) => forall i :: 0 <= i < |d| ==> HexChar(d[i]) || d[i] == '_'
    case Number(d) => Digits(d) != "" && forall i :: 0 <= i < |d| ==> NumberChar(d[i], hex)
  }

  /**
   A number needs something in front of it that ends what is before, and two block comments
   something between them.
   */
  predicate MayFollow(p: Piece, q: Piece) {
    && (q.Number? ==> !p.Number? && !p.Address?)
    && (q.BlockComment? ==> !p.BlockComment?)
  }

  predicate WellFormed(ps: seq<Piece>, hex: bool) {
    && (forall i :: 0 <= i < |ps| ==> GoodPiece(ps[i], hex))
    && (forall i :: 0 < i < |ps| ==> MayFollow(ps[i - 1], ps[i]))
  }

  // ---------------------------------------------------------------- between two pieces

  /** No number, comment or line comment is under way. */
  predicate Between(s: Scanner) {
    s.value == "" && !s.inData && !s.toEol && !s.toCmt
  }

  /** What may come next in this state. */
  predicate MayStart(s: Scanner, ps: seq<Piece>) {
    |ps| > 0 ==> (ps[0].Number? ==> !s.readingAddr) && (ps[0].BlockComment? ==> s.lastc != '/')
  }

  /** The state a piece leaves, as far as it matters for the next one. */
  predicate Behind(p: Piece, u: Scanner) {
    Between(u) && (u.lastc == '/' ==> p.BlockComment?) && (u.readingAddr <==> p.Address?)
  }

  /** All elements from a state of the scanner on. */
  function ReadFrom(text: string, pos: nat, s: Scanner, hex: bool, random: nat -> nat): (seq<Rec>, Outcome) {
    var out := Scan(text, pos, s, hex, random);
    match out
    case Got(a, v, p, n) =>
      var (rest, last) := ReadAll(text, p, n, hex, random);
      ([Rec(a, v)] + rest, last)
    case _ => ([], out)
  }

  lemma ReadIsFrom(text: string, pos: nat, addr: nat, hex: bool, random: nat -> nat)
    ensures ReadAll(text, pos, addr, hex, random) == ReadFrom(text, pos, Start(addr), hex, random)
  {
    hide Scan;
    ScanAdvances(text, pos, Start(addr), hex, random);
  }

  lemma ScanUnderscore(text: string, pos: nat, s: Scanner, hex: bool, random: nat -> nat)
    requires pos < |text| && text[pos] == '_'
    ensures Scan(text, pos, s, hex, random) == Scan(text, pos + 1, s, hex, random)
  {
  }

  lemma ScanOne(text: string, pos: nat, s: Scanner, hex: bool, random: nat -> nat)
    requires pos < |text| && text[pos] != '_' && !(s.inData && !IsXDigit(text[pos]) && !IsX(text[pos]))
    ensures var (t, ok) := Eat(s, text[pos], hex, random(pos));
      Scan(text, pos, s, hex, random) == if ok then Scan(text, pos + 1, t, hex, random) else Fatal
  {
    hide Eat;
  }

  /** text has part at pos. */
  predicate At(text: string, pos: nat, part: string) {
    pos + |part| <= |text| && text[pos..pos + |part|] == part
  }

  lemma AtHead(text: string, pos: nat, part: string)
    requires At(text, pos, part) && |part| > 0
    ensures pos < |text| && text[pos] == part[0] && At(text, pos + 1, part[1..])
  {
    assert text[pos..pos + |part|][0] == part[0];
    assert text[pos + 1..pos + |part|] == text[pos..pos + |part|][1..];
  }

  lemma Assoc(a: string, b: string, c: string)
    ensures a + b + c == a + (b + c)
  {
  }

  lemma AtParts(text: string, pos: nat, a: string, b: string)
    requires At(text, pos, a + b)
    ensures At(text, pos, a) && At(text, pos + |a|, b)
  {
    var t := text[pos..pos + |a + b|];
    assert text[pos..pos + |a|] == t[..|a|] && text[pos + |a|..pos + |a| + |b|] == t[|a|..];
  }

  // ---------------------------------------------------------------- comments

  /** A line comment is skipped, with its line end. */
  lemma {:induction false} SkipLine(text: string, pos: nat, body: string, s: Scanner, hex: bool, random: nat -> nat)
    requires At(text, pos, body + "\n") && '\n' !in body && s.toEol && !s.toCmt && !s.inData
    ensures Scan(text, pos, s, hex, random)
         == Scan(text, pos + |body| + 1, s.(toEol := false, readingAddr := false, lastc := '\n'), hex, random)
    decreases |body|
  {
    hide Scan;
    AtHead(text, pos, body + "\n");
    if |body| == 0 {
      ScanOne(text, pos, s, hex, random);
    } else {
      assert (body + "\n")[1..] == body[1..] + "\n";
      if body[0] == '_' {
        ScanUnderscore(text, pos, s, hex, random);
        SkipLine(text, pos + 1, body[1..], s, hex, random);
      } else {
        ScanOne(text, pos, s, hex, random);
        var t := Eat(s, body[0], hex, random(pos)).0;
        SkipLine(text, pos + 1, body[1..], t, hex, random);
      }
    }
  }

  /** A block comment is skipped up to its end mark. */
  lemma {:induction false} SkipBlock(text: string, pos: nat, body: string, s: Scanner, hex: bool, random: nat -> nat)
    requires At(text, pos, body + "*/") && NoEndMark(s.lastc, body) && s.toCmt && !s.toEol && !s.inData
    ensures Scan(text, pos, s, hex, random)
         == Scan(text, pos + |body| + 2, s.(toCmt := false, readingAddr := false, lastc := '/'), hex, random)
    decreases |body|
  {
    hide Scan;
    AtHead(text, pos, body + "*/");
    if |body| == 0 {
      var t := s.(lastc := '*');
      ScanOne(text, pos, s, hex, random);
      AtHead(text, pos + 1, "*/"[1..]);
      ScanOne(text, pos + 1, t, hex, random);
    } else {
      assert (body + "*/")[1..] == body[1..] + "*/";
      if body[0] == '_' {
        ScanUnderscore(text, pos, s, hex, random);
        SkipBlock(text, pos + 1, body[1..], s, hex, random);
      } else {
        ScanOne(text, pos, s, hex, random);
        var t := Eat(s, body[0], hex, random(pos)).0;
        SkipBlock(text, pos + 1, body[1..], t, hex, random);
      }
    }
  }

  lemma SkipPiece(text: string, pos: nat, p: Piece, s: Scanner, hex: bool, random: nat -> nat) returns (u: Scanner)
    requires At(text, pos, PieceText(p)) && GoodPiece(p, hex) && Between(s)
    requires p.Blank? || p.LineComment? || (p.BlockComment? && s.lastc != '/')
    ensures Scan(text, pos, s, hex, random) == Scan(text, pos + |PieceText(p)|, u, hex, random)
    ensures Behind(p, u) && u.addr == s.addr
  {
    hide Scan, NoEndMark, At, Between, Behind;
    match p
    case Blank(c) =>
      u := SkipBlank(text, pos, c, s, hex, random);
    case LineComment(hash, body) =>
      var mark := if hash then "#" else "//";
      Assoc(mark, body, "\n");
      AtParts(text, pos, mark, body + "\n");
      u := SkipLineComment(text, pos, hash, body, s, hex, random);
    case BlockComment(body) =>
      Assoc("/*", body, "*/");
      AtParts(text, pos, "/*", body + "*/");
      u := SkipBlockComment(text, pos, body, s, hex, random);
  }

  lemma SkipBlank(text: string, pos: nat, c: char, s: Scanner, hex: bool, random: nat -> nat) returns (u: Scanner)
    requires At(text, pos, [c]) && GoodPiece(Blank(c), hex) && Between(s)
    ensures Scan(text, pos, s, hex, random) == Scan(text, pos + 1, u, hex, random)
    ensures Behind(Blank(c), u) && u.addr == s.addr
  {
    hide Scan, At;
    AtHead(text, pos, [c]);
    ScanOne(text, pos, s, hex, random);
    u := Eat(s, c, hex, random(pos)).0;
  }

  lemma SkipLineComment(text: string, pos: nat, hash: bool, body: string, s: Scanner, hex: bool, random: nat -> nat)
      returns (u: Scanner)
    requires var mark := if hash then "#" else "//"; At(text, pos, mark) && At(text, pos + |mark|, body + "\n")
    requires '\n' !in body && Between(s)
    ensures Scan(text, pos, s, hex, random)
         == Scan(text, pos + (if hash then 2 else 3) + |body|, u, hex, random)
    ensures Behind(LineComment(hash, body), u) && u.addr == s.addr
  {
    hide Scan, At;
    u := s.(toEol := false, readingAddr := false, lastc := '\n');
    if hash {
      AtHead(text, pos, "#");
      ScanOne(text, pos, s, hex, random);
      SkipLine(text, pos + 1, body, s.(lastc := '#', toEol := true), hex, random);
    } else {
      AtHead(text, pos, "//");
      ScanOne(text, pos, s, hex, random);
      AtHead(text, pos + 1, "//"[1..]);
      var t := Eat(s, '/', hex, random(pos)).0;
      ScanOne(text, pos + 1, t, hex, random);
      SkipLine(text, pos + 2, body, s.(lastc := '/', toEol := true), hex, random);
    }
  }

  lemma SkipBlockComment(text: string, pos: nat, body: string, s: Scanner, hex: bool, random: nat -> nat)
      returns (u: Scanner)
    requires At(text, pos, "/*") && At(text, pos + 2, body + "*/") && NoEndMark('*', body)
    requires Between(s) && s.lastc != '/'
    ensures Scan(text, pos, s, hex, random) == Scan(text, pos + 4 + |body|, u, hex, random)
    ensures Behind(BlockComment(body), u) && u.addr == s.addr && u.lastc == '/' && !u.readingAddr
  {
    hide Scan, At, NoEndMark;
    AtHead(text, pos, "/*");
    ScanOne(text, pos, s, hex, random);
    AtHead(text, pos + 1, "/*"[1..]);
    ScanOne(text, pos + 1, s.(lastc := '/'), hex, random);
    SkipBlock(text, pos + 2, body, s.(lastc := '*', toCmt := true), hex, random);
    u := s.(toCmt := false, readingAddr := false, lastc := '/');
  }

  // ---------------------------------------------------------------- digits

  lemma EatDigit(s: Scanner, c: char, hex: bool, random: nat)
    requires !s.toEol && !s.toCmt && HexChar(c)
    ensures c != '_' && c != '/' && IsXDigit(c) && Lower(c) == ToLower(c) && DigitValue(Lower(c)) < 16
    ensures Eat(s, c, hex, random) ==
      if s.readingAddr then
        (s.(addr := (s.addr * 16 % TWO64 + DigitValue(Lower(c))) % TWO64, lastc := Lower(c)), true)
      else
        (s.(inData := true, value := s.value + [Lower(c)], lastc := Lower(c)), hex || DigitValue(Lower(c)) <= 1)
  {
  }

  lemma AddressDigit(a: nat, prefix: string, c: char)
    requires a == HexNat(prefix) % TWO64
    ensures (a * 16 % TWO64 + DigitValue(c)) % TWO64 == HexNat(prefix + [c]) % TWO64
  {
    HexNatSnoc(prefix, c);
    hide HexNat, DigitValue;
    ShiftIn(HexNat(prefix), DigitValue(c));
  }

  lemma ShiftIn(h: nat, v: nat)
    ensures (h % TWO64 * 16 % TWO64 + v) % TWO64 == (16 * h + v) % TWO64
  {
    var r := 16 * (h % TWO64);
    DropMultiple(r % TWO64 + v, 16 * (h / TWO64) + r / TWO64);
  }

  lemma DropMultiple(x: nat, k: nat)
    ensures (x + TWO64 * k) % TWO64 == x % TWO64
  {
    DivModUnique(x + TWO64 * k, TWO64, x / TWO64 + k, x % TWO64);
  }

  /** The digits of an address, in any case and with underscores, give their number modulo 2^64. */
  lemma {:induction false} AddressDigits(text: string, pos: nat, d: string, prefix: string, s: Scanner, hex: bool,
                                         random: nat -> nat) returns (u: Scanner)
    requires At(text, pos, d) && (forall i :: 0 <= i < |d| ==> HexChar(d[i]) || d[i] == '_')
    requires Between(s) && s.readingAddr && s.lastc != '/' && s.addr == HexNat(prefix) % TWO64
    ensures Scan(text, pos, s, hex, random) == Scan(text, pos + |d|, u, hex, random)
    ensures Between(u) && u.readingAddr && u.lastc != '/' && u.addr == HexNat(prefix + Digits(d)) % TWO64
    decreases |d|
  {
    hide Scan, HexNat, Eat, DigitValue;
    if |d| == 0 {
      u := s;
      assert prefix + "" == prefix;
    } else {
      AtHead(text, pos, d);
      if d[0] == '_' {
        ScanUnderscore(text, pos, s, hex, random);
        u := AddressDigits(text, pos + 1, d[1..], prefix, s, hex, random);
        assert Digits(d) == Digits(d[1..]);
      } else {
        EatDigit(s, d[0], hex, random(pos));
        ScanOne(text, pos, s, hex, random);
        AddressDigit(s.addr, prefix, Lower(d[0]));
        var t := Eat(s, d[0], hex, random(pos)).0;
        LowerSlash(d[0]);
        u := AddressDigits(text, pos + 1, d[1..], prefix + [Lower(d[0])], t, hex, random);
        assert prefix + [Lower(d[0])] + Digits(d[1..]) == prefix + Digits(d);
      }
    }
  }

  lemma LowerSlash(c: char)
    requires HexChar(c) || c == 'x' || c == 'X'
    ensures Lower(c) != '/' && (Lower(c) == 'x' <==> c == 'x' || c == 'X')
  {
  }

  lemma ReadAddress(text: string, pos: nat, d: string, s: Scanner, hex: bool, random: nat -> nat) returns (u: Scanner)
    requires At(text, pos, "@" + d) && GoodPiece(Address(d), hex) && Between(s)
    ensures Scan(text, pos, s, hex, random) == Scan(text, pos + 1 + |d|, u, hex, random)
    ensures Behind(Address(d), u) && u.readingAddr && u.addr == HexNat(Digits(d)) % TWO64
  {
    hide Scan, HexNat;
    AtHead(text, pos, "@" + d);
    assert ("@" + d)[1..] == d;
    ScanOne(text, pos, s, hex, random);
    HexNatSnoc("", '0');
    u := AddressDigits(text, pos + 1, d, "", s.(readingAddr := true, addr := 0, lastc := '@'), hex, random);
    assert "" + Digits(d) == Digits(d);
  }

  /** A character of a number; in a binary file an unknown digit is one if it is drawn as 0 or 1. */
  predicate GoodDigit(c: char, hex: bool, drawn: nat) {
    NumberChar(c, hex) || ((c == 'x' || c == 'X') && drawn <= 1)
  }

  /** The characters of a number are collected in lower case. */
  lemma {:induction false} NumberDigits(text: string, pos: nat, d: string, s: Scanner, hex: bool, random: nat -> nat)
      returns (u: Scanner)
    requires At(text, pos, d) && forall i :: 0 <= i < |d| ==> GoodDigit(d[i], hex, random(pos + i))
    requires !s.toEol && !s.toCmt && !s.readingAddr
    ensures Scan(text, pos, s, hex, random) == Scan(text, pos + |d|, u, hex, random)
    ensures u == s.(value := s.value + Digits(d), inData := s.inData || Digits(d) != "", lastc := u.lastc)
    decreases |d|
  {
    hide Scan, DigitValue, At, GoodDigit;
    if |d| == 0 {
      u := s;
      assert s.value + "" == s.value;
    } else {
      AtHead(text, pos, d);
      GoodTail(d, hex, random, pos);
      if d[0] == '_' {
        ScanUnderscore(text, pos, s, hex, random);
        u := NumberDigits(text, pos + 1, d[1..], s, hex, random);
      } else {
        var c := d[0];
        EatNumberChar(s, c, hex, random(pos));
        hide Eat;
        ScanOne(text, pos, s, hex, random);
        var t := s.(inData := true, value := s.value + [Lower(c)], lastc := Lower(c));
        u := NumberDigits(text, pos + 1, d[1..], t, hex, random);
        assert s.value + [Lower(c)] + Digits(d[1..]) == s.value + Digits(d);
      }
    }
  }

  lemma GoodTail(d: string, hex: bool, random: nat -> nat, pos: nat)
    requires |d| > 0 && forall i :: 0 <= i < |d| ==> GoodDigit(d[i], hex, random(pos + i))
    ensures GoodDigit(d[0], hex, random(pos))
    ensures forall i :: 0 <= i < |d[1..]| ==> GoodDigit(d[1..][i], hex, random(pos + 1 + i))
  {
    hide GoodDigit;
    assert GoodDigit(d[0], hex, random(pos + 0));
    forall i | 0 <= i < |d[1..]| ensures GoodDigit(d[1..][i], hex, random(pos + 1 + i)) {
      assert GoodDigit(d[i + 1], hex, random(pos + (i + 1)));
    }
  }

  lemma EatNumberChar(s: Scanner, c: char, hex: bool, random: nat)
    requires GoodDigit(c, hex, random) && c != '_' && !s.toEol && !s.toCmt && !s.readingAddr
    ensures IsXDigit(c) || IsX(c)
    ensures Eat(s, c, hex, random) == (s.(inData := true, value := s.value + [Lower(c)], lastc := Lower(c)), true)
  {
  }

  lemma ReadNumber(text: string, pos: nat, d: string, s: Scanner, hex: bool, random: nat -> nat)
    requires At(text, pos, d) && GoodPiece(Number(d), hex) && Between(s) && !s.readingAddr
    requires pos + |d| < |text| && !NumberChar(text[pos + |d|], true)
    ensures Scan(text, pos, s, hex, random) == Got(s.addr, Digits(d), pos + |d|, (s.addr + 1) % TWO64)
  {
    hide Scan;
    var u := NumberDigits(text, pos, d, s, hex, random);
    assert "" + Digits(d) == Digits(d);
    NumberDone(text, pos + |d|, u, hex, random);
  }

  lemma NumberDone(text: string, pos: nat, u: Scanner, hex: bool, random: nat -> nat)
    requires pos < |text| && !NumberChar(text[pos], true) && u.inData
    ensures Scan(text, pos, u, hex, random) == Got(u.addr, u.value, pos, (u.addr + 1) % TWO64)
  {
  }

  /** At the end of the file a number under way is dropped. */
  lemma NumberLost(text: string, pos: nat, d: string, s: Scanner, hex: bool, random: nat -> nat)
    requires At(text, pos, d) && GoodPiece(Number(d), hex) && Between(s) && !s.readingAddr && pos + |d| == |text|
    ensures Scan(text, pos, s, hex, random) == End(s.addr)
  {
    hide Scan;
    var u := NumberDigits(text, pos, d, s, hex, random);
    ScanEnd(text, pos + |d|, u, hex, random);
  }

  lemma ScanEnd(text: string, pos: nat, s: Scanner, hex: bool, random: nat -> nat)
    requires pos == |text|
    ensures Scan(text, pos, s, hex, random) == End(s.addr)
  {
  }

  // ---------------------------------------------------------------- reading a file

  lemma FirstChar(p: Piece, hex: bool)
    requires GoodPiece(p, hex) && !p.Number?
    ensures PieceText(p) != "" && !NumberChar(PieceText(p)[0], true)
  {
  }

  /** What is left of the text at pos. */
  predicate Rest(text: string, pos: nat, body: string) {
    pos + |body| == |text| && text[pos..] == body
  }

  lemma RestParts(text: string, pos: nat, a: string, b: string)
    requires Rest(text, pos, a + b)
    ensures At(text, pos, a) && Rest(text, pos + |a|, b)
  {
    assert text[pos..pos + |a|] == text[pos..][..|a|];
    assert text[pos + |a|..] == text[pos..][|a|..];
  }

  lemma RestHead(text: string, pos: nat, body: string)
    requires Rest(text, pos, body) && body != ""
    ensures pos < |text| && text[pos] == body[0]
  {
    assert text[pos..][0] == body[0];
  }

  /** A number that comes last is followed by something that ends it. */
  predicate LastEnds(ps: seq<Piece>, rest: string) {
    |ps| > 0 && ps[|ps| - 1].Number? ==> rest != "" && !NumberChar(rest[0], true)
  }

  /** Behind a number comes something that ends it. */
  lemma NumberEnds(ps: seq<Piece>, rest: string, text: string, pos: nat, hex: bool)
    requires WellFormed(ps, hex) && |ps| > 0 && ps[0].Number? && LastEnds(ps, rest)
    requires Rest(text, pos, FileText(ps[1..]) + rest)
    ensures pos < |text| && !NumberChar(text[pos], true)
  {
    var body := FileText(ps[1..]) + rest;
    if |ps| > 1 {
      assert MayFollow(ps[0], ps[1]);
      FirstChar(ps[1], hex);
      assert body[0] == PieceText(ps[1])[0];
    } else {
      assert body == rest;
    }
    hide NumberChar;
    RestHead(text, pos, body);
  }

  lemma WellFormedTail(ps: seq<Piece>, hex: bool)
    requires WellFormed(ps, hex) && |ps| > 0
    ensures WellFormed(ps[1..], hex) && GoodPiece(ps[0], hex)
    ensures |ps| > 1 ==> MayFollow(ps[0], ps[1])
  {
    hide GoodPiece, MayFollow;
    forall i | 0 < i < |ps[1..]| ensures MayFollow(ps[1..][i - 1], ps[1..][i]) {
      assert MayFollow(ps[i], ps[i + 1]);
    }
  }

  /** Reading from one place gives some elements and what reading from the other place gives. */
  ghost predicate Adds(text: string, hex: bool, random: nat -> nat, pos: nat, s: Scanner, es: seq<Rec>, to: nat,
                       u: Scanner) {
    var (more, last) := ReadFrom(text, to, u, hex, random);
    ReadFrom(text, pos, s, hex, random) == (es + more, last)
  }

  lemma AddsNothing(text: string, hex: bool, random: nat -> nat, pos: nat, s: Scanner, to: nat, u: Scanner)
    requires Scan(text, pos, s, hex, random) == Scan(text, to, u, hex, random)
    ensures Adds(text, hex, random, pos, s, [], to, u)
  {
    hide Scan;
    var more := ReadFrom(text, to, u, hex, random).0;
    assert [] + more == more;
  }

  lemma AddsBoth(text: string, hex: bool, random: nat -> nat, pos: nat, s: Scanner, a: seq<Rec>, mid: nat, m: Scanner,
                 b: seq<Rec>, to: nat, u: Scanner)
    requires Adds(text, hex, random, pos, s, a, mid, m) && Adds(text, hex, random, mid, m, b, to, u)
    ensures Adds(text, hex, random, pos, s, a + b, to, u)
  {
    hide ReadFrom;
    var more := ReadFrom(text, to, u, hex, random).0;
    assert a + b + more == a + (b + more);
  }

  lemma AddsElement(text: string, hex: bool, random: nat -> nat, pos: nat, s: Scanner, v: string, to: nat)
    requires Scan(text, pos, s, hex, random) == Got(s.addr, v, to, (s.addr + 1) % TWO64)
    ensures Adds(text, hex, random, pos, s, [Rec(s.addr, v)], to, Start((s.addr + 1) % TWO64))
  {
    hide Scan;
    ReadIsFrom(text, to, (s.addr + 1) % TWO64, hex, random);
  }

  /** The first piece: what it adds, and the state behind it. */
  lemma ReadPiece(ps: seq<Piece>, rest: string, text: string, pos: nat, s: Scanner, hex: bool, random: nat -> nat)
      returns (u: Scanner)
    requires WellFormed(ps, hex) && |ps| > 0 && Between(s) && MayStart(s, ps) && LastEnds(ps, rest)
    requires At(text, pos, PieceText(ps[0])) && Rest(text, pos + |PieceText(ps[0])|, FileText(ps[1..]) + rest)
    ensures Behind(ps[0], u) && u.addr == Next(ps[0], s.addr)
    ensures Adds(text, hex, random, pos, s, ElementOf(ps[0], s.addr), pos + |PieceText(ps[0])|, u)
  {
    WellFormedTail(ps, hex);
    assert (ps[0].Number? ==> !s.readingAddr) && MayStart(s, [ps[0]]);
    hide *;
    if ps[0].Number? {
      u := ReadNumberPiece(ps, rest, text, pos, s, hex, random);
    } else if ps[0].Address? {
      u := ReadAddressPiece(ps[0], text, pos, s, hex, random);
    } else {
      u := ReadOtherPiece(ps[0], text, pos, s, hex, random);
    }
  }

  lemma ReadNumberPiece(ps: seq<Piece>, rest: string, text: string, pos: nat, s: Scanner, hex: bool,
                        random: nat -> nat) returns (u: Scanner)
    requires WellFormed(ps, hex) && |ps| > 0 && ps[0].Number? && GoodPiece(ps[0], hex) && LastEnds(ps, rest)
    requires Between(s) && !s.readingAddr
    requires At(text, pos, PieceText(ps[0])) && Rest(text, pos + |PieceText(ps[0])|, FileText(ps[1..]) + rest)
    ensures Behind(ps[0], u) && u.addr == Next(ps[0], s.addr)
    ensures Adds(text, hex, random, pos, s, ElementOf(ps[0], s.addr), pos + |PieceText(ps[0])|, u)
  {
    hide Scan, At, Rest, Digits, FileText, LastEnds, Adds, Between, GoodPiece, WellFormed;
    var d := ps[0].digits;
    assert ps[0] == Piece.Number(d);
    NumberEnds(ps, rest, text, pos + |d|, hex);
    ReadNumber(text, pos, d, s, hex, random);
    AddsElement(text, hex, random, pos, s, Digits(d), pos + |d|);
    u := Start((s.addr + 1) % TWO64);
    StartBehind(ps[0], u.addr);
  }

  lemma ReadAddressPiece(p: Piece, text: string, pos: nat, s: Scanner, hex: bool, random: nat -> nat)
      returns (u: Scanner)
    requires p.Address? && GoodPiece(p, hex) && Between(s) && At(text, pos, PieceText(p))
    ensures Behind(p, u) && u.addr == Next(p, s.addr)
    ensures Adds(text, hex, random, pos, s, ElementOf(p, s.addr), pos + |PieceText(p)|, u)
  {
    hide Scan, At, HexNat, Digits, Adds, Between, GoodPiece;
    var d := p.digits;
    assert p == Address(d);
    u := ReadAddress(text, pos, d, s, hex, random);
    AddsNothing(text, hex, random, pos, s, pos + 1 + |d|, u);
  }

  lemma ReadOtherPiece(p: Piece, text: string, pos: nat, s: Scanner, hex: bool, random: nat -> nat)
      returns (u: Scanner)
    requires !p.Number? && !p.Address? && GoodPiece(p, hex) && Between(s) && MayStart(s, [p])
    requires At(text, pos, PieceText(p))
    ensures Behind(p, u) && u.addr == Next(p, s.addr)
    ensures Adds(text, hex, random, pos, s, ElementOf(p, s.addr), pos + |PieceText(p)|, u)
  {
    hide Scan, At, Adds, Between, GoodPiece, PieceText;
    u := SkipPiece(text, pos, p, s, hex, random);
    AddsNothing(text, hex, random, pos, s, pos + |PieceText(p)|, u);
  }

  lemma StartBehind(p: Piece, addr: nat)
    requires p.Number?
    ensures Behind(p, Start(addr))
  {
  }

  /** What may come next behind a piece. */
  lemma StartsBehind(p: Piece, u: Scanner, ps: seq<Piece>)
    requires Behind(p, u) && (|ps| > 0 ==> MayFollow(p, ps[0]))
    ensures Between(u) && MayStart(u, ps)
  {
  }

  /** Well-formed pieces are read one after the other, whatever follows them. */
  lemma {:induction false} ReadPieces(ps: seq<Piece>, rest: string, text: string, pos: nat, s: Scanner, hex: bool,
                                      random: nat -> nat) returns (u: Scanner)
    requires WellFormed(ps, hex) && Between(s) && MayStart(s, ps) && LastEnds(ps, rest)
    requires Rest(text, pos, FileText(ps) + rest)
    ensures u.addr == AddressAfter(ps, s.addr) && Rest(text, pos + |FileText(ps)|, rest)
    ensures if |ps| == 0 then u == s else Behind(ps[|ps| - 1], u)
    ensures Adds(text, hex, random, pos, s, Elements(ps, s.addr), pos + |FileText(ps)|, u)
    decreases |ps|
  {
    hide Scan, ReadFrom, Between, Behind, MayStart, WellFormed, MayFollow, NumberChar, PieceText, Rest, At, Adds,
      GoodPiece;
    if |ps| == 0 {
      assert "" + rest == rest;
      u := s;
      AddsNothing(text, hex, random, pos, s, pos, s);
    } else {
      var head, tail := PieceText(ps[0]), FileText(ps[1..]);
      Assoc(head, tail, rest);
      RestParts(text, pos, head, tail + rest);
      var m := ReadPiece(ps, rest, text, pos, s, hex, random);
      WellFormedTail(ps, hex);
      StartsBehind(ps[0], m, ps[1..]);
      LastEndsTail(ps, rest);
      u := ReadPieces(ps[1..], rest, text, pos + |head|, m, hex, random);
      AddsBoth(text, hex, random, pos, s, ElementOf(ps[0], s.addr), pos + |head|, m,
               Elements(ps[1..], m.addr), pos + |head| + |tail|, u);
      if |ps| == 1 { assert ps[1..] == []; } else { assert ps[1..][|ps| - 2] == ps[|ps| - 1]; }
    }
  }

  lemma LastEndsTail(ps: seq<Piece>, rest: string)
    requires |ps| > 0 && LastEnds(ps, rest)
    ensures LastEnds(ps[1..], rest)
  {
  }

  /** How a file is read whose well-formed part is followed by something at which the scanner stops. */
  lemma ReadThenStop(ps: seq<Piece>, rest: string, start: nat, hex: bool, random: nat -> nat) returns (u: Scanner)
    requires WellFormed(ps, hex) && LastEnds(ps, rest)
    ensures var text, at := FileText(ps) + rest, |FileText(ps)|;
      && Rest(text, at, rest) && u.addr == AddressAfter(ps, start)
      && (if |ps| == 0 then u == Start(start) else Behind(ps[|ps| - 1], u))
      && (!Scan(text, at, u, hex, random).Got? ==>
           ReadAll(text, 0, start, hex, random) == (Elements(ps, start), Scan(text, at, u, hex, random)))
  {
    var text, at := FileText(ps) + rest, |FileText(ps)|;
    FreshStart(start, ps);
    hide Scan, ReadFrom, Between, Behind, MayStart, WellFormed, NumberChar, At, ReadAll, FileText, LastEnds;
    assert text[0..] == text;
    ReadIsFrom(text, 0, start, hex, random);
    u := ReadPieces(ps, rest, text, 0, Start(start), hex, random);
    if !Scan(text, at, u, hex, random).Got? {
      NothingMore(text, at, u, hex, random);
      assert Elements(ps, start) + [] == Elements(ps, start);
    }
  }

  lemma FreshStart(start: nat, ps: seq<Piece>)
    ensures Between(Start(start)) && MayStart(Start(start), ps)
    ensures Start(start).addr == start && !Start(start).readingAddr
  {
  }

  lemma NothingMore(text: string, pos: nat, u: Scanner, hex: bool, random: nat -> nat)
    requires !Scan(text, pos, u, hex, random).Got?
    ensures ReadFrom(text, pos, u, hex, random) == ([], Scan(text, pos, u, hex, random))
  {
    hide Scan;
  }

  /** The pieces without a number at the very end, which is lost. */
  function Complete(ps: seq<Piece>): seq<Piece> {
    if |ps| > 0 && ps[|ps| - 1].Number? then ps[..|ps| - 1] else ps
  }

  /**
   A well-formed file gives exactly its numbers at their addresses: blanks and comments are
   skipped, underscores dropped, upper case becomes lower case. A number that ends with
   the file is lost.
   */
  lemma FileRead(ps: seq<Piece>, start: nat, hex: bool, random: nat -> nat)
    requires WellFormed(ps, hex)
    ensures ReadAll(FileText(ps), 0, start, hex, random) ==
      (Elements(Complete(ps), start), End(AddressAfter(Complete(ps), start)))
  {
    hide WellFormed, ReadAll, FileText, Elements, AddressAfter;
    if |ps| > 0 && ps[|ps| - 1].Number? {
      LastLost(ps, start, hex, random);
    } else {
      AllRead(ps, start, hex, random);
    }
  }

  lemma AllRead(ps: seq<Piece>, start: nat, hex: bool, random: nat -> nat)
    requires WellFormed(ps, hex) && (|ps| > 0 ==> !ps[|ps| - 1].Number?)
    ensures ReadAll(FileText(ps), 0, start, hex, random) == (Elements(ps, start), End(AddressAfter(ps, start)))
  {
    hide WellFormed, ReadAll, FileText, Elements, AddressAfter, Scan, Behind;
    var text := FileText(ps);
    assert text + "" == text;
    var u := ReadThenStop(ps, "", start, hex, random);
    ScanEnd(text, |text|, u, hex, random);
  }

  lemma LastLost(ps: seq<Piece>, start: nat, hex: bool, random: nat -> nat)
    requires WellFormed(ps, hex) && |ps| > 0 && ps[|ps| - 1].Number?
    ensures var qs := ps[..|ps| - 1];
      ReadAll(FileText(ps), 0, start, hex, random) == (Elements(qs, start), End(AddressAfter(qs, start)))
  {
    var qs, d := ps[..|ps| - 1], ps[|ps| - 1].digits;
    FileTextSnoc(ps);
    WellFormedInit(ps, hex);
    assert ps[|ps| - 1] == Number(d) && PieceText(Number(d)) == d;
    assert LastEnds(qs, d);
    hide WellFormed, ReadAll, FileText, Elements, AddressAfter, Scan, Behind, LastEnds, MayFollow, GoodPiece, Rest;
    var text, at := FileText(qs) + d, |FileText(qs)|;
    var u := ReadThenStop(qs, d, start, hex, random);
    ReadyForNumber(qs, d, u, start);
    assert d + "" == d;
    RestParts(text, at, d, "");
    NumberLost(text, at, d, u, hex, random);
  }

  lemma ReadyForNumber(qs: seq<Piece>, d: string, u: Scanner, start: nat)
    requires |qs| > 0 ==> MayFollow(qs[|qs| - 1], Number(d))
    requires if |qs| == 0 then u == Start(start) else Behind(qs[|qs| - 1], u)
    ensures Between(u) && !u.readingAddr
  {
  }

  lemma WellFormedInit(ps: seq<Piece>, hex: bool)
    requires WellFormed(ps, hex) && |ps| > 0
    ensures var qs := ps[..|ps| - 1];
      WellFormed(qs, hex) && GoodPiece(ps[|ps| - 1], hex) && (|qs| > 0 ==> MayFollow(qs[|qs| - 1], ps[|ps| - 1]))
  {
    hide GoodPiece, MayFollow;
  }

  lemma {:induction false} FileTextSnoc(ps: seq<Piece>)
    requires |ps| > 0
    ensures FileText(ps) == FileText(ps[..|ps| - 1]) + PieceText(ps[|ps| - 1])
  {
    hide PieceText;
    if |ps| > 1 {
      FileTextSnoc(ps[1..]);
      assert ps[1..][..|ps| - 2] == ps[..|ps| - 1][1..];
      var a, b, c := PieceText(ps[0]), FileText(ps[..|ps| - 1][1..]), PieceText(ps[|ps| - 1]);
      assert a + (b + c) == a + b + c;
    } else {
      assert ps[1..] == [] && ps[..0] == [];
      var a := PieceText(ps[0]);
      assert a + "" == a == "" + a;
    }
  }

  // ---------------------------------------------------------------- files that are refused

  /** A character that begins nothing. */
  predicate Misplaced(c: char, ps: seq<Piece>) {
    && c != ' ' && c != '\t' && c != '\r' && c != '\n' && c != 12 as char
    && c != '_' && c != '/' && c != '#' && c != '@' && !HexChar(c)
    && (c == 'x' || c == 'X' ==> |ps| > 0 && ps[|ps| - 1].Address?)
    && (c == '*' ==> |ps| == 0 || !ps[|ps| - 1].BlockComment?)
  }

  /** Any other character, and an unknown digit in an address, is fatal; what was read before is not affected. */
  lemma FileRefused(ps: seq<Piece>, c: char, more: string, start: nat, hex: bool, random: nat -> nat)
    requires WellFormed(ps, hex) && Misplaced(c, ps)
    ensures ReadAll(FileText(ps) + ([c] + more), 0, start, hex, random) == (Elements(ps, start), Fatal)
  {
    MisplacedEnds(c, ps);
    hide WellFormed, ReadAll, FileText, Elements, AddressAfter, Scan, Behind, Rest, Misplaced, Eat, NumberChar;
    var text, at := FileText(ps) + ([c] + more), |FileText(ps)|;
    var u := ReadThenStop(ps, [c] + more, start, hex, random);
    RestHead(text, at, [c] + more);
    EatMisplaced(u, c, ps, start, hex, random(at));
    ScanOne(text, at, u, hex, random);
  }

  lemma MisplacedEnds(c: char, ps: seq<Piece>)
    requires Misplaced(c, ps)
    ensures c != '_' && forall more :: LastEnds(ps, [c] + more)
  {
  }

  lemma EatMisplaced(u: Scanner, c: char, ps: seq<Piece>, start: nat, hex: bool, random: nat)
    requires Misplaced(c, ps) && if |ps| == 0 then u == Start(start) else Behind(ps[|ps| - 1], u)
    ensures !Eat(u, c, hex, random).1 && !u.inData
  {
  }

  /** In a binary file a digit above 1, or an unknown one drawn above 1, is fatal, also inside a number. */
  lemma BinaryRefused(ps: seq<Piece>, d: string, c: char, more: string, start: nat, random: nat -> nat)
    requires WellFormed(ps, false) && (|ps| > 0 ==> MayFollow(ps[|ps| - 1], Number(d)))
    requires forall i :: 0 <= i < |d| ==> NumberChar(d[i], false)
    requires || (HexChar(c) && c != '0' && c != '1')
             || ((c == 'x' || c == 'X') && random(|FileText(ps) + d|) > 1)
    ensures ReadAll(FileText(ps) + (d + ([c] + more)), 0, start, false, random) == (Elements(ps, start), Fatal)
  {
    BinaryEnds(ps, d, c, more);
    hide WellFormed, ReadAll, FileText, Elements, AddressAfter, Scan, Behind, Rest, Eat, NumberChar, MayFollow,
      Between, LastEnds;
    var text, at := FileText(ps) + (d + ([c] + more)), |FileText(ps)|;
    var u := ReadThenStop(ps, d + ([c] + more), start, false, random);
    ReadyForNumber(ps, d, u, start);
    BetweenIs(u);
    BinaryStop(text, at, d, c, more, u, random);
  }

  lemma BinaryStop(text: string, at: nat, d: string, c: char, more: string, u: Scanner, random: nat -> nat)
    requires Rest(text, at, d + ([c] + more)) && forall i :: 0 <= i < |d| ==> NumberChar(d[i], false)
    requires !u.toEol && !u.toCmt && !u.readingAddr
    requires || (HexChar(c) && c != '0' && c != '1')
             || ((c == 'x' || c == 'X') && random(at + |d|) > 1)
    ensures Scan(text, at, u, false, random) == Fatal
  {
    hide Scan, Rest, Eat, NumberChar, At, Digits;
    RestParts(text, at, d, [c] + more);
    var v := NumberDigits(text, at, d, u, false, random);
    RestHead(text, at + |d|, [c] + more);
    EatBinary(v, c, random(at + |d|));
    ScanOne(text, at + |d|, v, false, random);
  }

  lemma BinaryEnds(ps: seq<Piece>, d: string, c: char, more: string)
    requires |ps| > 0 ==> MayFollow(ps[|ps| - 1], Number(d))
    ensures LastEnds(ps, d + ([c] + more))
  {
  }

  lemma BetweenIs(u: Scanner)
    requires Between(u)
    ensures u.value == "" && !u.inData && !u.toEol && !u.toCmt
  {
  }

  lemma EatBinary(v: Scanner, c: char, random: nat)
    requires !v.toEol && !v.toCmt && !v.readingAddr
    requires (HexChar(c) && c != '0' && c != '1') || ((c == 'x' || c == 'X') && random > 1)
    ensures !Eat(v, c, false, random).1 && c != '_' && (IsXDigit(c) || IsX(c))
  {
  }

  /** In a binary file an unknown digit drawn as 0 or 1 is part of its number. */
  lemma UnknownRead(ps: seq<Piece>, d: string, c: char, more: string, start: nat, random: nat -> nat)
    requires WellFormed(ps, false) && (|ps| > 0 ==> MayFollow(ps[|ps| - 1], Number(d)))
    requires Digits(d) != "" && !NumberChar(c, true)
    requires forall i :: 0 <= i < |d| ==> GoodDigit(d[i], false, random(|FileText(ps)| + i))
    ensures var es := ReadAll(FileText(ps) + (d + ([c] + more)), 0, start, false, random).0;
      Elements(ps, start) + [Rec(AddressAfter(ps, start), Digits(d))] <= es
  {
    hide WellFormed, ReadAll, FileText, Elements, AddressAfter, MayFollow, Digits, NumberChar, GoodDigit;
    UnknownFrom(ps, d, c, more, start, random, Start((AddressAfter(ps, start) + 1) % TWO64));
  }

  lemma UnknownFrom(ps: seq<Piece>, d: string, c: char, more: string, start: nat, random: nat -> nat, next: Scanner)
    requires WellFormed(ps, false) && (|ps| > 0 ==> MayFollow(ps[|ps| - 1], Number(d)))
    requires Digits(d) != "" && !NumberChar(c, true) && next == Start((AddressAfter(ps, start) + 1) % TWO64)
    requires forall i :: 0 <= i < |d| ==> GoodDigit(d[i], false, random(|FileText(ps)| + i))
    ensures var es := ReadAll(FileText(ps) + (d + ([c] + more)), 0, start, false, random).0;
      Elements(ps, start) + [Rec(AddressAfter(ps, start), Digits(d))] <= es
  {
    hide *;
    BinaryEnds(ps, d, c, more);
    FreshStart(start, ps);
    var text, at := FileText(ps) + (d + ([c] + more)), |FileText(ps)|;
    WholeText(text);
    ReadIsFrom(text, 0, start, false, random);
    var u := ReadPieces(ps, d + ([c] + more), text, 0, Start(start), false, random);
    ReadyForNumber(ps, d, u, start);
    NumberAt(text, at, d, c, more, u, random);
    var es, e := Elements(ps, start), Rec(u.addr, Digits(d));
    AddsBoth(text, false, random, 0, Start(start), es, at, u, [e], at + |d|, next);
    AddsPrefix(text, false, random, 0, Start(start), es + [e], at + |d|, next);
  }

  lemma NumberAt(text: string, at: nat, d: string, c: char, more: string, u: Scanner, random: nat -> nat)
    requires Rest(text, at, d + ([c] + more)) && Digits(d) != "" && !NumberChar(c, true)
    requires forall i :: 0 <= i < |d| ==> GoodDigit(d[i], false, random(at + i))
    requires Between(u) && !u.readingAddr
    ensures Adds(text, false, random, at, u, [Rec(u.addr, Digits(d))], at + |d|, Start((u.addr + 1) % TWO64))
  {
    hide Scan, Rest, NumberChar, GoodDigit, Digits, Adds, Between;
    NumberScanned(text, at, d, c, more, u, random);
    AddsElement(text, false, random, at, u, Digits(d), at + |d|);
  }

  lemma NumberScanned(text: string, at: nat, d: string, c: char, more: string, u: Scanner, random: nat -> nat)
    requires Rest(text, at, d + ([c] + more)) && Digits(d) != "" && !NumberChar(c, true)
    requires forall i :: 0 <= i < |d| ==> GoodDigit(d[i], false, random(at + i))
    requires Between(u) && !u.readingAddr
    ensures Scan(text, at, u, false, random) == Got(u.addr, Digits(d), at + |d|, (u.addr + 1) % TWO64)
  {
    hide Scan, Rest, NumberChar, GoodDigit, Digits, At, Between;
    NumberThenChar(text, at, d, c, more);
    var v := NumberCollected(text, at, d, u, random);
    NumberDone(text, at + |d|, v, false, random);
  }

  lemma NumberCollected(text: string, at: nat, d: string, u: Scanner, random: nat -> nat) returns (v: Scanner)
    requires At(text, at, d) && forall i :: 0 <= i < |d| ==> GoodDigit(d[i], false, random(at + i))
    requires Between(u) && !u.readingAddr && Digits(d) != ""
    ensures Scan(text, at, u, false, random) == Scan(text, at + |d|, v, false, random)
    ensures v.addr == u.addr && v.value == Digits(d) && v.inData
  {
    hide Scan, GoodDigit, Digits, At;
    v := NumberDigits(text, at, d, u, false, random);
    assert "" + Digits(d) == Digits(d);
  }

  lemma NumberThenChar(text: string, at: nat, d: string, c: char, more: string)
    requires Rest(text, at, d + ([c] + more))
    ensures At(text, at, d) && at + |d| < |text| && text[at + |d|] == c
  {
    hide Rest, At;
    RestParts(text, at, d, [c] + more);
    RestHead(text, at + |d|, [c] + more);
  }

  lemma WholeText(text: string)
    ensures Rest(text, 0, text)
  {
    assert text[0..] == text;
  }

  lemma AddsPrefix(text: string, hex: bool, random: nat -> nat, pos: nat, s: Scanner, es: seq<Rec>, to: nat, u: Scanner)
    requires Adds(text, hex, random, pos, s, es, to, u)
    ensures es <= ReadFrom(text, pos, s, hex, random).0
  {
    hide ReadFrom;
  }

  // ---------------------------------------------------------------- comments in a printed file

  /** Numbers and addresses alone, as the scanner sees them. */
  function Bare(ps: seq<Piece>): seq<Piece> {
    if |ps| == 0 then []
    else match ps[0]
      case Address(d) => [Address(Digits(d))] + Bare(ps[1..])
      case Number(d) => [Number(Digits(d))] + Bare(ps[1..])
      case _ => Bare(ps[1..])
  }

  lemma {:induction false} DigitsTwice(d: string)
    ensures Digits(Digits(d)) == Digits(d)
  {
    if |d| > 0 {
      DigitsTwice(d[1..]);
      if d[0] == '_' {
        assert "" + Digits(d[1..]) == Digits(d[1..]);
      } else {
        assert ([Lower(d[0])] + Digits(d[1..]))[1..] == Digits(d[1..]);
        LowerTwice(d[0]);
      }
    }
  }

  lemma LowerTwice(c: char)
    ensures Lower(Lower(c)) == Lower(c) && (Lower(c) == '_' <==> c == '_')
  {
  }

  lemma {:induction false} ElementsOfBare(ps: seq<Piece>, addr: nat)
    ensures Elements(ps, addr) == Elements(Bare(ps), addr)
    decreases |ps|
  {
    hide HexNat, Digits;
    if |ps| > 0 {
      var p, rest := ps[0], Bare(ps[1..]);
      ElementsOfBare(ps[1..], Next(p, addr));
      match p
      case Address(d) =>
        DigitsTwice(d);
        assert ([Address(Digits(d))] + rest)[1..] == rest;
      case Number(d) =>
        DigitsTwice(d);
        assert ([Number(Digits(d))] + rest)[1..] == rest;
      case _ =>
        assert [] + Elements(ps[1..], addr) == Elements(ps[1..], addr);
    }
  }

  /** The pieces the writer prints. */
  function PrintedPieces(recs: seq<Rec>, stamps: bool, m: nat): seq<Piece> {
    if |recs| == 0 then []
    else
      (if stamps && recs[0].addr != m then [Address(HexMin(recs[0].addr)), Blank('\n')] else [])
      + [Number(recs[0].digits), Blank('\n')]
      + PrintedPieces(recs[1..], stamps, (recs[0].addr + 1) % TWO64)
  }

  lemma {:induction false} FileTextConcat(ps: seq<Piece>, qs: seq<Piece>)
    ensures FileText(ps + qs) == FileText(ps) + FileText(qs)
  {
    hide PieceText;
    if |ps| == 0 {
      assert ps + qs == qs;
      assert "" + FileText(qs) == FileText(qs);
    } else {
      FileTextConcat(ps[1..], qs);
      assert (ps + qs)[1..] == ps[1..] + qs;
      var a, b, c := PieceText(ps[0]), FileText(ps[1..]), FileText(qs);
      assert a + (b + c) == a + b + c;
    }
  }

  lemma TwoPieces(p: Piece, q: Piece)
    ensures FileText([p, q]) == PieceText(p) + PieceText(q)
  {
    hide PieceText;
    assert [p, q][1..] == [q] && [q][1..] == [];
    assert FileText([q]) == PieceText(q) + FileText([]) == PieceText(q);
  }

  /** Printing is writing these pieces. */
  lemma {:induction false} PrintedText(recs: seq<Rec>, stamps: bool, m: nat)
    ensures FileText(PrintedPieces(recs, stamps, m)) == Printed(recs, stamps, m)
    decreases |recs|
  {
    if |recs| > 0 {
      var a, d, next := recs[0].addr, recs[0].digits, (recs[0].addr + 1) % TWO64;
      PrintedText(recs[1..], stamps, next);
      var stamp := if stamps && a != m then [Address(HexMin(a)), Blank('\n')] else [];
      var rest := PrintedPieces(recs[1..], stamps, next);
      hide HexMin;
      FileTextConcat(stamp + [Number(d), Blank('\n')], rest);
      FileTextConcat(stamp, [Number(d), Blank('\n')]);
      TwoPieces(Address(HexMin(a)), Blank('\n'));
      TwoPieces(Number(d), Blank('\n'));
      hide FileText, PrintedPieces;
      Assoc(FileText(stamp), d, "\n");
    }
  }

  lemma {:induction false} DigitsPlain(d: string)
    requires AllHex(d)
    ensures Digits(d) == d
  {
    if |d| > 0 {
      assert IsHexDigit(d[0]);
      DigitsPlain(d[1..]);
      assert d == [d[0]] + d[1..];
    }
  }

  lemma {:induction false} PrintedElements(recs: seq<Rec>, stamps: bool, m: nat)
    requires GoodRecs(recs) && Expected(recs, stamps, m)
    ensures Elements(PrintedPieces(recs, stamps, m), m) == recs
    decreases |recs|
  {
    hide HexNat, HexMin, AllHex, Digits, Elements, Next;
    if |recs| == 0 {
      NoElements(m);
    } else {
      var a, d, next := recs[0].addr, recs[0].digits, (recs[0].addr + 1) % TWO64;
      PrintedElements(recs[1..], stamps, next);
      var rest := PrintedPieces(recs[1..], stamps, next);
      PrintedElement(a, d, rest, stamps && a != m, m);
      assert recs == [recs[0]] + recs[1..];
    }
  }

  lemma NoElements(m: nat)
    ensures Elements([], m) == []
  {
  }

  lemma PrintedElement(a: nat, d: string, rest: seq<Piece>, stamped: bool, m: nat)
    requires a < TWO64 && AllHex(d) && (stamped || a == m)
    ensures var stamp := if stamped then [Address(HexMin(a)), Blank('\n')] else [];
      Elements(stamp + [Number(d), Blank('\n')] + rest, m) == [Rec(a, d)] + Elements(rest, (a + 1) % TWO64)
  {
    hide HexNat, HexMin, AllHex, Digits, Elements, Next;
    HexMinValue(a);
    DigitsPlain(HexMin(a));
    DigitsPlain(d);
    NumberThen(d, rest, a);
    var number := [Number(d), Blank('\n')];
    if stamped {
      AddressThen(HexMin(a), number + rest, m);
      assert [Address(HexMin(a)), Blank('\n')] + number + rest == [Address(HexMin(a)), Blank('\n')] + (number + rest);
    } else {
      assert [] + number + rest == number + rest;
    }
  }

  lemma NumberThen(d: string, rest: seq<Piece>, addr: nat)
    ensures Elements([Number(d), Blank('\n')] + rest, addr) ==
      [Rec(addr, Digits(d))] + Elements(rest, (addr + 1) % TWO64)
  {
    hide Digits;
    var ps, next := [Number(d), Blank('\n')] + rest, (addr + 1) % TWO64;
    assert ps[1..] == [Blank('\n')] + rest && ps[1..][1..] == rest;
    assert [] + Elements(rest, next) == Elements(rest, next);
  }

  lemma AddressThen(d: string, rest: seq<Piece>, addr: nat)
    ensures Elements([Address(d), Blank('\n')] + rest, addr) == Elements(rest, HexNat(Digits(d)) % TWO64)
  {
    hide HexNat, Digits;
    var ps, next := [Address(d), Blank('\n')] + rest, HexNat(Digits(d)) % TWO64;
    assert ps[1..] == [Blank('\n')] + rest && ps[1..][1..] == rest;
    assert [] + ([] + Elements(rest, next)) == Elements(rest, next);
  }

  /**
   A printed list into which blanks, comments and underscores were put, and whose digits were
   put in upper case, is read as the list.
   */
  lemma CommentedReadBack(ps: seq<Piece>, recs: seq<Rec>, stamps: bool, m: nat, random: nat -> nat)
    requires WellFormed(ps, true) && GoodRecs(recs) && Expected(recs, stamps, m)
    requires Bare(ps) == Bare(PrintedPieces(recs, stamps, m)) && Complete(ps) == ps
    ensures ReadAll(FileText(ps), 0, m, true, random).0 == recs
  {
    FileRead(ps, m, true, random);
    ElementsOfBare(ps, m);
    ElementsOfBare(PrintedPieces(recs, stamps, m), m);
    PrintedElements(recs, stamps, m);
  }

  // ---------------------------------------------------------------- two comments in a row

  /** Right behind a block comment a single slash begins a comment up to the end of the line. */
  lemma SecondComment(text: string, pos: nat, body: string, s: Scanner, hex: bool, random: nat -> nat)
    requires At(text, pos, "/" + body + "\n") && '\n' !in body && Between(s) && s.lastc == '/'
    ensures Scan(text, pos, s, hex, random)
         == Scan(text, pos + |body| + 2, s.(readingAddr := false, lastc := '\n'), hex, random)
  {
    hide Scan;
    assert "/" + body + "\n" == "/" + (body + "\n");
    AtParts(text, pos, "/", body + "\n");
    AtHead(text, pos, "/");
    ScanOne(text, pos, s, hex, random);
    SkipLine(text, pos + 1, body, s.(lastc := '/', toEol := true), hex, random);
  }

  /** So a number behind two block comments in a row is lost, and with a blank between them it is not. */
  lemma AdjacentComments(start: nat, random: nat -> nat)
    ensures ReadAll("/*a*//*b*/41\n", 0, start, true, random).0 == []
    ensures ReadAll("/*a*/ /*b*/41\n", 0, start, true, random).0 == [Rec(start, "41")]
  {
    hide Scan, ReadAll;
    AdjacentLost(start, random);
    SeparatedRead(start, random);
  }

  lemma AdjacentLost(start: nat, random: nat -> nat)
    ensures ReadAll("/*a*//*b*/41\n", 0, start, true, random).0 == []
  {
    var text := "/*a*//*b*/41\n";
    hide Scan;
    assert text[0..2] == "/*" && text[2..5] == "a" + "*/";
    assert NoEndMark('a', "a"[1..]);
    ReadIsFrom(text, 0, start, true, random);
    var u := SkipBlockComment(text, 0, "a", Start(start), true, random);
    assert text[5..13] == "/" + "*b*/41" + "\n";
    SecondComment(text, 5, "*b*/41", u, true, random);
    ScanEnd(text, 13, u.(readingAddr := false, lastc := '\n'), true, random);
  }

  lemma SeparatedRead(start: nat, random: nat -> nat)
    ensures ReadAll("/*a*/ /*b*/41\n", 0, start, true, random).0 == [Rec(start, "41")]
  {
    var ps := [BlockComment("a"), Blank(' '), BlockComment("b"), Number("41"), Blank('\n')];
    SeparatedText(ps);
    SeparatedForm(ps);
    SeparatedElements(ps, start);
    hide *;
    FileRead(ps, start, true, random);
  }

  lemma SeparatedText(ps: seq<Piece>)
    requires ps == [BlockComment("a"), Blank(' '), BlockComment("b"), Number("41"), Blank('\n')]
    ensures FileText(ps) == "/*a*/ /*b*/41\n" && Complete(ps) == ps
  {
    SeparatedTails(ps);
    assert FileText(ps[4..]) == "\n";
    assert FileText(ps[3..]) == "41\n";
    assert FileText(ps[2..]) == "/*b*/41\n";
    assert FileText(ps[1..]) == " /*b*/41\n";
  }

  lemma SeparatedTails(ps: seq<Piece>)
    requires |ps| == 5
    ensures ps[1..][1..] == ps[2..] && ps[2..][1..] == ps[3..] && ps[3..][1..] == ps[4..] && ps[4..][1..] == []
  {
  }

  lemma SeparatedForm(ps: seq<Piece>)
    requires ps == [BlockComment("a"), Blank(' '), BlockComment("b"), Number("41"), Blank('\n')]
    ensures WellFormed(ps, true)
  {
    assert NoEndMark('a', "a"[1..]) && NoEndMark('b', "b"[1..]);
    DigitsOf41();
  }

  lemma DigitsOf41()
    ensures Digits("41") == "41"
  {
    DigitsPlain("41");
  }

  lemma SeparatedElements(ps: seq<Piece>, start: nat)
    requires ps == [BlockComment("a"), Blank(' '), BlockComment("b"), Number("41"), Blank('\n')]
    ensures Elements(ps, start) == [Rec(start, "41")]
  {
    SeparatedTails(ps);
    DigitsOf41();
    var next := (start + 1) % TWO64;
    ElementsStep(ps, start);
    ElementsStep(ps[1..], start);
    ElementsStep(ps[2..], start);
    ElementsStep(ps[3..], start);
    ElementsStep(ps[4..], next);
    hide HexNat, Digits, Elements;
    NoElements(next);
  }

  lemma ElementsStep(ps: seq<Piece>, addr: nat)
    requires |ps| > 0
    ensures ps[0].Number? ==>
      Elements(ps, addr) == [Rec(addr, Digits(ps[0].digits))] + Elements(ps[1..], (addr + 1) % TWO64)
    ensures !ps[0].Number? && !ps[0].Address? ==> Elements(ps, addr) == Elements(ps[1..], addr)
  {
    hide HexNat, Digits;
    if !ps[0].Number? && !ps[0].Address? {
      assert [] + Elements(ps[1..], addr) == Elements(ps[1..], addr);
    }
  }
}
