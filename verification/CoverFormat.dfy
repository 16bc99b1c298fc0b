/**
 The text of a coverage file: how the writer escapes and lays out the keys, values and
 counts of a row, and how the Python reader takes a row apart.
 */
module CoverFormat {
  import opened Wrappers

  /** "\001" stands before a key, "\002" before its value. */
  const KEY: char := 1 as char
  const VALUE: char := 2 as char

  /** What a C string can hold: bytes other than NUL. */
  predicate CString(s: string) {
    forall i :: 0 <= i < |s| ==> 0 < s[i] as int < 256
  }

  /** `isprint` in the C locale. */
  predicate Printable(c: char) {
    0x20 <= c as int < 0x7f
  }

  // ---------------------------------------------------------------- escaping

  function HexDigit(n: nat): char
    requires n < 16
  {
    if n < 10 then (n + '0' as int) as char else (n - 10 + 'A' as int) as char
  }

  function HexValue(c: char): (n: nat) {
    if '0' <= c <= '9' then c as int - '0' as int
    else if 'A' <= c <= 'F' then c as int - 'A' as int + 10
    else 0
  }

  function TwoDigits(n: nat): string
    requires n < 256
  {
    [HexDigit(n / 16), HexDigit(n % 16)]
  }

  /** `"%%%02X"` of a signed character: eight digits when it is negative. */
  function Escape(c: char): string
    requires c as int < 256
  {
    "%" + (if c as int < 128 then "" else "FFFFFF") + TwoDigits(c as int)
  }

  function QuoteChar(c: char): string
    requires c as int < 256
  {
    if !Printable(c) || c == '%' || c == '"' then Escape(c) else [c]
  }

  function Quote(s: string): string
    requires CString(s)
  {
    if |s| == 0 then "" else QuoteChar(s[0]) + Quote(s[1..])
  }

  lemma QuoteSnoc(s: string, c: char)
    requires CString(s) && 0 < c as int < 256
    ensures CString(s + [c]) && Quote(s + [c]) == Quote(s) + QuoteChar(c)
  {
    hide QuoteChar;
    if |s| > 0 {
      assert (s + [c])[1..] == s[1..] + [c] && (s + [c])[0] == s[0];
      QuoteSnoc(s[1..], c);
    } else {
      assert s + [c] == [c];
      assert Quote([c]) == QuoteChar(c) + Quote([]);
    }
  }

  /** `dequote`. */
  method Dequote(text: string) returns (rtn: string)
    requires CString(text)
    ensures rtn == Quote(text)
  {
    rtn := "";
    for pos := 0 to |text|
      invariant rtn == Quote(text[..pos])
    {
      assert text[..pos + 1] == text[..pos] + [text[pos]];
      QuoteSnoc(text[..pos], text[pos]);
      var c := text[pos];
      if !Printable(c) || c == '%' || c == '"' {
        rtn := rtn + Escape(c);
      } else {
        rtn := rtn + [c];
      }
    }
    assert text[..|text|] == text;
  }

  /** Undoes the escapes. */
  function Unquote(t: string): string {
    if |t| == 0 then ""
    else if t[0] != '%' then [t[0]] + Unquote(t[1..])
    else if |t| >= 9 && t[1..7] == "FFFFFF" then [Unhex(t[7], t[8])] + Unquote(t[9..])
    else if |t| >= 3 then [Unhex(t[1], t[2])] + Unquote(t[3..])
    else ""
  }

  function Unhex(a: char, b: char): char {
    (16 * HexValue(a) + HexValue(b)) as char
  }

  lemma HexRoundTrip(n: nat)
    requires n < 256
    ensures var d := TwoDigits(n); Unhex(d[0], d[1]) as int == n && (n < 128 ==> d[0] != 'F')
  {
    assert n == 16 * (n / 16) + n % 16;
  }

  lemma {:induction false} UnquoteRoundTrip(s: string)
    requires CString(s)
    ensures Unquote(Quote(s)) == s
  {
    if |s| > 0 {
      UnquoteRoundTrip(s[1..]);
      UnquoteHead(s[0], Quote(s[1..]));
      assert s == [s[0]] + s[1..];
    }
  }

  lemma UnquoteHead(c: char, rest: string)
    requires 0 < c as int < 256
    ensures Unquote(QuoteChar(c) + rest) == [c] + Unquote(rest)
  {
    var t := QuoteChar(c) + rest;
    var d := TwoDigits(c as int);
    HexRoundTrip(c as int);
    if !Printable(c) || c == '%' || c == '"' {
      if c as int < 128 {
        assert Escape(c) == ['%', d[0], d[1]];
        assert t == ['%', d[0], d[1]] + rest;
        assert t[3..] == rest && t[1] == d[0];
        assert |t| >= 9 ==> t[1..7][0] == d[0];
      } else {
        assert Escape(c) == "%FFFFFF" + d;
        assert t == "%FFFFFF" + d + rest;
        assert t[1..7] == "FFFFFF" && t[7] == d[0] && t[8] == d[1] && t[9..] == rest;
      }
    } else {
      assert t == [c] + rest && t[1..] == rest;
    }
  }

  lemma QuoteInjective(a: string, b: string)
    requires CString(a) && CString(b) && Quote(a) == Quote(b)
    ensures a == b
  {
    UnquoteRoundTrip(a);
    UnquoteRoundTrip(b);
  }

  /** Escaped text is printable and contains a quote character only where the text did. */
  lemma {:induction false} QuotePrintable(s: string)
    requires CString(s)
    ensures forall i :: 0 <= i < |Quote(s)| ==> Printable(Quote(s)[i])
    ensures '\'' in Quote(s) <==> '\'' in s
  {
    if |s| > 0 {
      QuotePrintable(s[1..]);
      QuoteCharPrintable(s[0]);
      assert s == [s[0]] + s[1..];
    }
  }

  predicate Plain(s: string) {
    forall i :: 0 <= i < |s| ==> ' ' <= s[i] <= '~' && s[i] != '%' && s[i] != '"'
  }

  /** Printable text without percent signs and double quotes is left as it is. */
  lemma {:induction false} QuotePlain(s: string)
    requires CString(s) && Plain(s)
    ensures Quote(s) == s
  {
    if |s| > 0 {
      QuotePlain(s[1..]);
      assert s == [s[0]] + s[1..];
    }
  }

  /** Every other character becomes a percent sign and hexadecimal digits. */
  lemma QuoteEscapes(c: char)
    requires 0 < c as int < 256 && !(' ' <= c <= '~' && c != '%' && c != '"')
    ensures |Quote([c])| == (if c as int < 128 then 3 else 9) && Quote([c])[0] == '%'
  {
    assert Quote([c]) == QuoteChar(c) + Quote([c][1..]) && [c][1..] == "";
    assert QuoteChar(c) + "" == QuoteChar(c);
  }

  lemma QuoteCharPrintable(c: char)
    requires 0 < c as int < 256
    ensures forall i :: 0 <= i < |QuoteChar(c)| ==> Printable(QuoteChar(c)[i])
    ensures '\'' in QuoteChar(c) <==> '\'' == c
  {
  }

  // ---------------------------------------------------------------- keys

  /** `VerilatedCovKey::shortKey`. */
  function ShortKey(key: string): string {
    if key == "col0" then "c0"
    else if key == "col0_name" then "C0"
    else if key == "col1" then "c1"
    else if key == "col1_name" then "C1"
    else if key == "col2" then "c2"
    else if key == "col2_name" then "C2"
    else if key == "col3" then "c3"
    else if key == "col3_name" then "C3"
    else if key == "column" then "n"
    else if key == "comment" then "o"
    else if key == "filename" then "f"
    else if key == "groupcmt" then "O"
    else if key == "groupdesc" then "d"
    else if key == "groupname" then "g"
    else if key == "hier" then "h"
    else if key == "limit" then "L"
    else if key == "lineno" then "l"
    else if key == "per_instance" then "P"
    else if key == "row0" then "r0"
    else if key == "row0_name" then "R0"
    else if key == "row1" then "r1"
    else if key == "row1_name" then "R1"
    else if key == "row2" then "r2"
    else if key == "row2_name" then "R2"
    else if key == "row3" then "r3"
    else if key == "row3_name" then "R3"
    else if key == "table" then "T"
    else if key == "thresh" then "s"
    else if key == "type" then "t"
    else if key == "weight" then "w"
    else key
  }

  /** The key a short key stands for. */
  function LongKey(short: string): string {
    if |short| == 1 then LongLetter(short[0], short)
    else if |short| == 2 then LongNumbered(short[0], short[1], short)
    else short
  }

  function LongLetter(c: char, short: string): string {
    if c == 'n' then "column"
    else if c == 'o' then "comment"
    else if c == 'f' then "filename"
    else if c == 'O' then "groupcmt"
    else if c == 'd' then "groupdesc"
    else if c == 'g' then "groupname"
    else if c == 'h' then "hier"
    else if c == 'L' then "limit"
    else if c == 'l' then "lineno"
    else if c == 'P' then "per_instance"
    else if c == 'T' then "table"
    else if c == 's' then "thresh"
    else if c == 't' then "type"
    else if c == 'w' then "weight"
    else short
  }

  function LongNumbered(c: char, n: char, short: string): string {
    if c == 'c' && n == '0' then "col0"
    else if c == 'C' && n == '0' then "col0_name"
    else if c == 'c' && n == '1' then "col1"
    else if c == 'C' && n == '1' then "col1_name"
    else if c == 'c' && n == '2' then "col2"
    else if c == 'C' && n == '2' then "col2_name"
    else if c == 'c' && n == '3' then "col3"
    else if c == 'C' && n == '3' then "col3_name"
    else if c == 'r' && n == '0' then "row0"
    else if c == 'R' && n == '0' then "row0_name"
    else if c == 'r' && n == '1' then "row1"
    else if c == 'R' && n == '1' then "row1_name"
    else if c == 'r' && n == '2' then "row2"
    else if c == 'R' && n == '2' then "row2_name"
    else if c == 'r' && n == '3' then "row3"
    else if c == 'R' && n == '3' then "row3_name"
    else short
  }

  predicate IsAlpha(c: char) {
    'a' <= c <= 'z' || 'A' <= c <= 'Z'
  }

  predicate IsDigit(c: char) {
    '0' <= c <= '9'
  }

  /** `legalKey`. */
  predicate LegalKey(key: string) {
    |key| >= 2 && !(|key| == 2 && IsDigit(key[1]))
  }

  lemma LetterKeys()
    ensures LongKey("n") == "column"
    ensures LongKey("o") == "comment"
    ensures LongKey("f") == "filename"
    ensures LongKey("O") == "groupcmt"
    ensures LongKey("d") == "groupdesc"
    ensures LongKey("g") == "groupname"
    ensures LongKey("h") == "hier"
    ensures LongKey("L") == "limit"
    ensures LongKey("l") == "lineno"
    ensures LongKey("P") == "per_instance"
    ensures LongKey("T") == "table"
    ensures LongKey("s") == "thresh"
    ensures LongKey("t") == "type"
    ensures LongKey("w") == "weight"
  {
  }

  lemma NumberedKeys()
    ensures LongKey("c0") == "col0"
    ensures LongKey("C0") == "col0_name"
    ensures LongKey("c1") == "col1"
    ensures LongKey("C1") == "col1_name"
    ensures LongKey("c2") == "col2"
    ensures LongKey("C2") == "col2_name"
    ensures LongKey("c3") == "col3"
    ensures LongKey("C3") == "col3_name"
    ensures LongKey("r0") == "row0"
    ensures LongKey("R0") == "row0_name"
    ensures LongKey("r1") == "row1"
    ensures LongKey("R1") == "row1_name"
    ensures LongKey("r2") == "row2"
    ensures LongKey("R2") == "row2_name"
    ensures LongKey("r3") == "row3"
    ensures LongKey("R3") == "row3_name"
  {
  }

  /**
   Keys that could be taken for an abbreviation, of one character or of two with a digit, are
   illegal, and no others.
   */
  lemma LegalIff(key: string)
    ensures LegalKey(key) <==> |key| >= 3 || (|key| == 2 && !('0' <= key[1] <= '9'))
  {
  }

  lemma LegalIsLong(key: string)
    requires LegalKey(key)
    ensures LongKey(key) == key
  {
  }

  /** No legal key is mistaken for the abbreviation of another one. */
  lemma ShortKeyRoundTrip(key: string)
    requires LegalKey(key)
    ensures LongKey(ShortKey(key)) == key
  {
    LetterKeys();
    NumberedKeys();
    LegalIsLong(key);
    hide LongKey;
  }

  lemma ShortLettersToG()
    ensures ShortKey("column") == "n"
    ensures ShortKey("comment") == "o"
    ensures ShortKey("filename") == "f"
    ensures ShortKey("groupcmt") == "O"
    ensures ShortKey("groupdesc") == "d"
    ensures ShortKey("groupname") == "g"
  {
  }

  lemma ShortLettersFromH()
    ensures ShortKey("hier") == "h"
    ensures ShortKey("limit") == "L"
    ensures ShortKey("lineno") == "l"
    ensures ShortKey("per_instance") == "P"
    ensures ShortKey("table") == "T"
    ensures ShortKey("thresh") == "s"
    ensures ShortKey("type") == "t"
    ensures ShortKey("weight") == "w"
  {
  }

  lemma ShortColumns()
    ensures ShortKey("col0") == "c0"
    ensures ShortKey("col1") == "c1"
    ensures ShortKey("col2") == "c2"
    ensures ShortKey("col3") == "c3"
  {
  }

  lemma ShortColumnNames()
    ensures ShortKey("col0_name") == "C0"
    ensures ShortKey("col1_name") == "C1"
    ensures ShortKey("col2_name") == "C2"
    ensures ShortKey("col3_name") == "C3"
  {
  }

  lemma ShortRows()
    ensures ShortKey("row0") == "r0"
    ensures ShortKey("row1") == "r1"
    ensures ShortKey("row2") == "r2"
    ensures ShortKey("row3") == "r3"
  {
  }

  lemma ShortRowNames()
    ensures ShortKey("row0_name") == "R0"
    ensures ShortKey("row1_name") == "R1"
  {
  }

  lemma ShortMoreRowNames()
    ensures ShortKey("row2_name") == "R2"
    ensures ShortKey("row3_name") == "R3"
  {
  }

  /** Every abbreviation is used for its key. */
  lemma Abbreviated(short: string)
    ensures LongKey(short) != short ==> ShortKey(LongKey(short)) == short
  {
    hide ShortKey;
    if |short| == 1 {
      ShortLettersToG();
      ShortLettersFromH();
      assert short == [short[0]];
    } else if |short| == 2 {
      ShortColumns();
      ShortColumnNames();
      ShortRows();
      ShortRowNames();
      ShortMoreRowNames();
      assert short == [short[0], short[1]];
    }
  }

  lemma ShortKeyInjective(a: string, b: string)
    requires LegalKey(a) && LegalKey(b) && ShortKey(a) == ShortKey(b)
    ensures a == b
  {
    ShortKeyRoundTrip(a);
    ShortKeyRoundTrip(b);
  }

  // ---------------------------------------------------------------- rows

  datatype KeyVal = KeyVal(key: string, val: string)

  predicate CPair(p: KeyVal) {
    CString(p.key) && CString(p.val)
  }

  predicate CPairs(ps: seq<KeyVal>) {
    forall i :: 0 <= i < |ps| ==> CPair(ps[i])
  }

  /** `keyValueFormatter`. */
  function KeyValueFormatter(key: string, value: string): string
    requires CString(key) && CString(value)
  {
    (if |key| == 1 && IsAlpha(key[0]) then [KEY] + key else [KEY] + Quote(key)) + [VALUE] + Quote(value)
  }

  /** The bytes 1 and 2 stand before a key and its value. */
  lemma FormatterPlain(key: string, value: string)
    requires CString(key) && CString(value) && Plain(key) && Plain(value)
    ensures KeyValueFormatter(key, value) == [1 as char] + key + [2 as char] + value
  {
    FormatterQuotes(key, value);
    QuotePlain(key);
    QuotePlain(value);
  }

  lemma FormatterQuotes(key: string, value: string)
    requires CString(key) && CString(value)
    ensures KeyValueFormatter(key, value) == [KEY] + Quote(key) + [VALUE] + Quote(value)
  {
    if |key| == 1 && IsAlpha(key[0]) {
      assert key == [key[0]] + [];
      assert Quote(key) == QuoteChar(key[0]) + Quote(key[1..]);
    }
  }

  /** A row name: the formatted pairs one after the other. */
  function Format(ps: seq<KeyVal>): string
    requires CPairs(ps)
  {
    if |ps| == 0 then "" else Format(ps[..|ps| - 1]) + KeyValueFormatter(ps[|ps| - 1].key, ps[|ps| - 1].val)
  }

  // ---------------------------------------------------------------- numbers

  function Digits(n: nat): string {
    (if n < 10 then "" else Digits(n / 10)) + [('0' as int + n % 10) as char]
  }

  function DigitsValue(s: string): nat {
    if |s| == 0 then 0
    else 10 * DigitsValue(s[..|s| - 1]) + if IsDigit(s[|s| - 1]) then s[|s| - 1] as int - '0' as int else 0
  }

  lemma {:induction false} DigitsRoundTrip(n: nat)
    ensures |Digits(n)| > 0 && forall i :: 0 <= i < |Digits(n)| ==> IsDigit(Digits(n)[i])
    ensures DigitsValue(Digits(n)) == n
  {
    var d := ('0' as int + n % 10) as char;
    if n < 10 {
      assert Digits(n) == [d] && [d][..0] == [];
    } else {
      DigitsRoundTrip(n / 10);
      assert Digits(n) == Digits(n / 10) + [d];
      assert Digits(n)[..|Digits(n)| - 1] == Digits(n / 10);
    }
  }

  /** Leading blanks off. */
  function LStrip(s: string): string {
    if |s| > 0 && s[0] == ' ' then LStrip(s[1..]) else s
  }

  function ParseInt(s: string): Option<nat> {
    var t := LStrip(s);
    if |t| > 0 && forall i :: 0 <= i < |t| ==> IsDigit(t[i]) then Some(DigitsValue(t)) else None
  }

  /** What is not a number is refused. */
  lemma {:induction false} CountRefused(s: string, c: char)
    requires c in s && c != ' ' && !('0' <= c <= '9')
    ensures ParseInt(s) == None
  {
    StripKeeps(s, c);
  }

  lemma {:induction false} NoCountRefused(s: string)
    requires forall c :: c in s ==> c == ' '
    ensures ParseInt(s) == None
  {
    AllStripped(s);
  }

  lemma {:induction false} AllStripped(s: string)
    requires forall c :: c in s ==> c == ' '
    ensures LStrip(s) == ""
  {
    if |s| > 0 {
      assert s[0] in s && forall c :: c in s[1..] ==> c in s;
      AllStripped(s[1..]);
    }
  }

  lemma {:induction false} StripKeeps(s: string, c: char)
    requires c in s && c != ' '
    ensures c in LStrip(s)
  {
    if s[0] == ' ' { StripKeeps(s[1..], c); }
  }

  // ---------------------------------------------------------------- the reader

  /** Python's `split`: the pieces between the separators. */
  function Split(s: string, c: char): (r: seq<string>)
    ensures |r| > 0
  {
    if |s| == 0 then [""]
    else
      var r := Split(s[..|s| - 1], c);
      if s[|s| - 1] == c then r + [""] else r[..|r| - 1] + [r[|r| - 1] + [s[|s| - 1]]]
  }

  lemma {:induction false} SplitNone(s: string, c: char)
    requires c !in s
    ensures Split(s, c) == [s]
  {
    if |s| > 0 {
      SplitNone(s[..|s| - 1], c);
      assert s == s[..|s| - 1] + [s[|s| - 1]];
    }
  }

  lemma {:induction false} SplitAppend(a: string, b: string, c: char)
    requires c !in b
    ensures Split(a + [c] + b, c) == Split(a, c) + [b]
  {
    var s := a + [c] + b;
    if |b| == 0 {
      assert s[..|s| - 1] == a && s[|s| - 1] == c;
    } else {
      var d := b[..|b| - 1];
      SplitAppend(a, d, c);
      assert s[..|s| - 1] == a + [c] + d && s[|s| - 1] == b[|b| - 1];
      var r := Split(a, c) + [d];
      assert r[..|r| - 1] + [r[|r| - 1] + [b[|b| - 1]]] == Split(a, c) + [b] by {
        assert d + [b[|b| - 1]] == b;
      }
    }
  }

  lemma {:induction false} SplitMany(s: string, c: char)
    ensures c in s <==> |Split(s, c)| > 1
  {
    if |s| > 0 {
      SplitMany(s[..|s| - 1], c);
      assert s == s[..|s| - 1] + [s[|s| - 1]];
    }
  }

  predicate Ascii(s: string) {
    forall i :: 0 <= i < |s| ==> s[i] as int < 128
  }

  /** The dictionary of a row's entries, or None where the comprehension fails. */
  function Dict(es: seq<string>): Option<map<string, string>> {
    if |es| == 0 then Some(map[])
    else
      var m := Dict(es[..|es| - 1]);
      var e := Split(es[|es| - 1], VALUE);
      if m.None? || |e| < 2 || !Ascii(e[0]) || !Ascii(e[1]) then None
      else Some(m.value[e[0] := e[1]])
  }

  /** An entry without a value, or with a key or value that is not ASCII, is refused. */
  lemma {:induction false} EntryRefused(es: seq<string>, i: nat)
    requires i < |es|
    requires var e := Split(es[i], VALUE);
      |e| == 1 || (exists c :: c in e[0] && c as int >= 128) || (exists c :: c in e[1] && c as int >= 128)
    ensures Dict(es) == None
    decreases |es|
  {
    hide Split;
    if i < |es| - 1 {
      assert es[..|es| - 1][i] == es[i];
      EntryRefused(es[..|es| - 1], i);
    } else {
      var e := Split(es[i], VALUE);
      if |e| > 1 {
        NotAscii(e[0]);
        NotAscii(e[1]);
      }
    }
  }

  lemma NotAscii(s: string)
    ensures (exists c :: c in s && c as int >= 128) ==> !Ascii(s)
  {
  }

  /** A cell of a row: an escaped value or the count. */
  datatype Cell = Text(text: string) | Number(n: nat)

  function Cells(m: map<string, string>, n: nat): map<string, Cell> {
    (map k | k in m :: Text(m[k]))["count" := Number(n)]
  }

  /** The body of `load_dat`'s loop, for a line without its first four characters. */
  function ParseLine(line: string): Option<map<string, Cell>> {
    var parts := Split(line, '\'');
    if |parts| != 2 then None
    else
      var m, n := Dict(Split(parts[0], KEY)), ParseInt(parts[1]);
      if m.None? || n.None? then None else Some(Cells(m.value, n.value))
  }

  // ---------------------------------------------------------------- one row

  function Entry(p: KeyVal): string
    requires CPair(p)
  {
    Quote(p.key) + [VALUE] + Quote(p.val)
  }

  function Entries(ps: seq<KeyVal>): seq<string>
    requires CPairs(ps)
  {
    seq(|ps|, i requires 0 <= i < |ps| => Entry(ps[i]))
  }

  /** The row's map of escaped short keys to escaped values. */
  function Fields(ps: seq<KeyVal>): map<string, string>
    requires CPairs(ps)
  {
    if |ps| == 0 then map[] else Fields(ps[..|ps| - 1])[Quote(ps[|ps| - 1].key) := Quote(ps[|ps| - 1].val)]
  }

  /** A line without the four characters before its first key. */
  function LineRest(ps: seq<KeyVal>, n: nat): string
    requires CPairs(ps) && |ps| > 0
    requires |Format(ps)| > 0
  {
    Format(ps)[1..] + "' " + Digits(n)
  }

  lemma PrintableFree(s: string)
    requires forall i :: 0 <= i < |s| ==> Printable(s[i])
    ensures KEY !in s && VALUE !in s && '\n' !in s && Ascii(s)
  {
  }

  lemma EntryParts(p: KeyVal)
    requires CPair(p)
    ensures Split(Entry(p), VALUE) == [Quote(p.key), Quote(p.val)]
    ensures Ascii(Quote(p.key)) && Ascii(Quote(p.val))
    ensures KEY !in Entry(p) && '\n' !in Entry(p)
    ensures '\'' in Entry(p) <==> Apostrophe(p)
  {
    QuotePrintable(p.key);
    QuotePrintable(p.val);
    PrintableFree(Quote(p.key));
    PrintableFree(Quote(p.val));
    hide Quote, Split, Ascii, CString;
    SplitAppend(Quote(p.key), Quote(p.val), VALUE);
    SplitNone(Quote(p.key), VALUE);
  }

  lemma {:induction false} DictOfEntries(ps: seq<KeyVal>)
    requires CPairs(ps)
    ensures Dict(Entries(ps)) == Some(Fields(ps))
  {
    if |ps| > 0 {
      hide Quote, Split, Entry;
      DictOfEntries(ps[..|ps| - 1]);
      EntryParts(ps[|ps| - 1]);
      assert Entries(ps)[..|ps| - 1] == Entries(ps[..|ps| - 1]);
    }
  }

  predicate Apostrophe(p: KeyVal) {
    '\'' in p.key || '\'' in p.val
  }

  predicate AnyApostrophe(ps: seq<KeyVal>) {
    exists i :: 0 <= i < |ps| && Apostrophe(ps[i])
  }

  lemma AnyApostropheSnoc(ps: seq<KeyVal>)
    requires |ps| > 0
    ensures AnyApostrophe(ps) <==> AnyApostrophe(ps[..|ps| - 1]) || Apostrophe(ps[|ps| - 1])
  {
    var init := ps[..|ps| - 1];
    if i :| 0 <= i < |init| && Apostrophe(init[i]) {
      assert ps[i] == init[i];
    }
    if i :| 0 <= i < |ps| && Apostrophe(ps[i]) {
      assert i < |init| ==> init[i] == ps[i];
    }
  }

  /** A separator and an entry behind a row name that is not empty. */
  lemma Appended(a: string, e: string)
    requires |a| > 0
    ensures (a + ([KEY] + e))[1..] == a[1..] + [KEY] + e
    ensures '\'' in a[1..] + [KEY] + e <==> '\'' in a[1..] || '\'' in e
    ensures '\n' in a + ([KEY] + e) <==> '\n' in a || '\n' in e
  {
  }

  /** Without its first character a row name is its entries with separators between them. */
  lemma {:induction false} SplitFormat(ps: seq<KeyVal>)
    requires CPairs(ps) && |ps| > 0
    ensures |Format(ps)| > 0 && Format(ps)[0] == KEY && Split(Format(ps)[1..], KEY) == Entries(ps)
    ensures '\'' in Format(ps)[1..] <==> AnyApostrophe(ps)
    ensures '\n' !in Format(ps)
  {
    hide Quote, Split, Entry, Apostrophe, AnyApostrophe, CString;
    var init, p := ps[..|ps| - 1], ps[|ps| - 1];
    FormatterQuotes(p.key, p.val);
    EntryParts(p);
    EntryIs(p);
    AnyApostropheSnoc(ps);
    assert Format(ps) == Format(init) + ([KEY] + Entry(p));
    if |init| == 0 {
      NoneHasIt(init);
      assert Format(ps) == [KEY] + Entry(p) && Format(ps)[1..] == Entry(p);
      SplitNone(Entry(p), KEY);
      assert Entries(ps) == [Entry(p)];
    } else {
      SplitFormat(init);
      Appended(Format(init), Entry(p));
      SplitAppend(Format(init)[1..], Entry(p), KEY);
      assert Entries(ps) == Entries(init) + [Entry(p)];
    }
  }

  lemma NoneHasIt(ps: seq<KeyVal>)
    ensures |ps| == 0 ==> !AnyApostrophe(ps)
  {
  }

  lemma EntryIs(p: KeyVal)
    requires CPair(p)
    ensures [KEY] + Quote(p.key) + [VALUE] + Quote(p.val) == [KEY] + Entry(p)
  {
  }

  /** A row is read back exactly when it contains no apostrophe, and then with all its fields and its count. */
  lemma LineRoundTrip(ps: seq<KeyVal>, n: nat)
    requires CPairs(ps) && |ps| > 0
    ensures |Format(ps)| > 0
    ensures ParseLine(LineRest(ps, n)) ==
      if AnyApostrophe(ps) then None else Some(Cells(Fields(ps), n))
  {
    SplitFormat(ps);
    DictOfEntries(ps);
    hide *;
    BodyParsed(Format(ps)[1..], n);
    RestText(ps, n);
  }

  lemma RestText(ps: seq<KeyVal>, n: nat)
    requires CPairs(ps) && |Format(ps)| > 0 && |ps| > 0
    ensures LineRest(ps, n) == Format(ps)[1..] + ['\''] + (" " + Digits(n))
  {
    hide Format, Digits;
  }

  /** A row's entries, its apostrophe and its count, parsed. */
  lemma BodyParsed(body: string, n: nat)
    requires Dict(Split(body, KEY)).Some?
    ensures ParseLine(body + ['\''] + (" " + Digits(n))) ==
      if '\'' in body then None else Some(Cells(Dict(Split(body, KEY)).value, n))
  {
    ParseCount(n);
    hide Dict, Split, Cells, ParseLine, ParseInt, Digits;
    if '\'' in body {
      ParseBad(body, " " + Digits(n));
    } else {
      ParseGood(body, " " + Digits(n));
    }
  }

  lemma ParseBad(body: string, tail: string)
    requires '\'' in body && '\'' !in tail
    ensures ParseLine(body + ['\''] + tail) == None
  {
    hide Split, Dict, ParseInt;
    SplitAppend(body, tail, '\'');
    SplitMany(body, '\'');
  }

  lemma ParseGood(body: string, tail: string)
    requires '\'' !in body && '\'' !in tail && ParseInt(tail).Some? && Dict(Split(body, KEY)).Some?
    ensures ParseLine(body + ['\''] + tail) == Some(Cells(Dict(Split(body, KEY)).value, ParseInt(tail).value))
  {
    hide Split, Dict, ParseInt, Cells;
    SplitAppend(body, tail, '\'');
    SplitNone(body, '\'');
  }

  lemma ParseCount(n: nat)
    ensures ParseInt(" " + Digits(n)) == Some(n) && '\'' !in " " + Digits(n) && '\n' !in " " + Digits(n)
  {
    DigitsRoundTrip(n);
    hide Digits, DigitsValue, LStrip;
    StripOne(Digits(n));
  }

  lemma StripOne(s: string)
    requires |s| > 0 && IsDigit(s[0])
    ensures LStrip(" " + s) == s
  {
    assert (" " + s)[1..] == s;
  }

  predicate DistinctKeys(ps: seq<KeyVal>) {
    forall i, j :: 0 <= i < j < |ps| ==> ps[i].key != ps[j].key
  }

  /** From the row of distinct keys every pair can be recovered. */
  lemma {:induction false} FieldsRecover(ps: seq<KeyVal>, i: nat)
    requires CPairs(ps) && DistinctKeys(ps) && i < |ps|
    ensures Quote(ps[i].key) in Fields(ps) && Fields(ps)[Quote(ps[i].key)] == Quote(ps[i].val)
  {
    hide Quote;
    if i < |ps| - 1 {
      FieldsRecover(ps[..|ps| - 1], i);
      var p := ps[|ps| - 1];
      if Quote(ps[i].key) == Quote(p.key) { QuoteInjective(ps[i].key, p.key); }
    }
  }

  /** Only a key called "count" loses its value in the table. */
  lemma CellsRecover(ps: seq<KeyVal>, n: nat, i: nat)
    requires CPairs(ps) && DistinctKeys(ps) && i < |ps|
    ensures var row := Cells(Fields(ps), n);
      && "count" in row && row["count"] == Number(n)
      && Quote(ps[i].key) in row
      && (row[Quote(ps[i].key)] == Text(Quote(ps[i].val)) <==> ps[i].key != "count")
  {
    FieldsRecover(ps, i);
    QuotedCount();
    if Quote(ps[i].key) == "count" { QuoteInjective(ps[i].key, "count"); }
    hide Quote, Fields;
  }

  lemma QuotedCount()
    ensures CString("count") && Quote("count") == "count"
  {
    assert "count"[1..] == "ount" && "ount"[1..] == "unt" && "unt"[1..] == "nt" && "nt"[1..] == "t";
  }
}
