/**
 The whole coverage file: rows in the order of their names, and reading them back.
 */
module CoverFile {
  import opened Wrappers
  import opened Bits
  import opened CoverFormat
  import opened CoverWrite
  import opened Lexicographic
  import HierNames

  /** A row being collected. */
  datatype Event = Event(name: string, hier: string, count: nat)

  // ---------------------------------------------------------------- the ordered map of rows

  const CharLess := (x: char, y: char) => x < y

  /** The order of `std::map<std::string, ...>`. */
  predicate Before(a: string, b: string) {
    Less(a, b, CharLess)
  }

  lemma BeforeTotal(a: string, b: string)
    ensures Before(a, b) || Before(b, a) || a == b
    ensures !(Before(a, b) && Before(b, a)) && (a == b ==> !Before(a, b))
  {
    Total(a, b, CharLess);
  }

  ghost predicate Ascending(es: seq<Event>) {
    forall i, j :: 0 <= i < j < |es| ==> Before(es[i].name, es[j].name)
  }

  /** Looks the row of an item up and adds to it, or inserts a new row. */
  function Record(es: seq<Event>, name: string, hier: string, count: nat): seq<Event> {
    if |es| == 0 then [Event(name, hier, count % TWO64)]
    else if es[0].name == name then
      [Event(name, HierNames.Combined(es[0].hier, hier), (es[0].count + count) % TWO64)] + es[1..]
    else if Before(name, es[0].name) then [Event(name, hier, count % TWO64)] + es
    else [es[0]] + Record(es[1..], name, hier, count)
  }

  function Find(es: seq<Event>, name: string): Option<Event> {
    if |es| == 0 then None
    else if es[0].name == name then Some(es[0])
    else Find(es[1..], name)
  }

  /** What the row holds after one more item. */
  function Added(e: Option<Event>, name: string, hier: string, count: nat): Event {
    match e
    case None => Event(name, hier, count % TWO64)
    case Some(prev) => Event(name, HierNames.Combined(prev.hier, hier), (prev.count + count) % TWO64)
  }

  lemma {:induction false} FindNone(es: seq<Event>, name: string)
    requires forall i :: 0 <= i < |es| ==> Before(name, es[i].name)
    ensures Find(es, name) == None
  {
    if |es| > 0 {
      BeforeTotal(name, es[0].name);
      FindNone(es[1..], name);
    }
  }

  /** Recording changes the row of that name only, and keeps the order. */
  lemma {:induction false} RecordFind(es: seq<Event>, name: string, hier: string, count: nat)
    requires Ascending(es)
    ensures Ascending(Record(es, name, hier, count))
    ensures forall i :: 0 <= i < |Record(es, name, hier, count)| ==>
      || Record(es, name, hier, count)[i].name == name
      || exists j :: 0 <= j < |es| && es[j].name == Record(es, name, hier, count)[i].name
    ensures forall n ::
      Find(Record(es, name, hier, count), n) ==
      (if n == name then Some(Added(Find(es, name), name, hier, count)) else Find(es, n))
  {
    hide HierNames.Combined;
    if |es| > 0 {
      BeforeTotal(name, es[0].name);
      if es[0].name == name {
        RecordAtHead(es, Added(Some(es[0]), name, hier, count));
      } else if Before(name, es[0].name) {
        RecordInFront(es, Added(None, name, hier, count));
      } else {
        var rest := Record(es[1..], name, hier, count);
        RecordFind(es[1..], name, hier, count);
        RecordBehind(es, rest, name);
      }
    }
  }

  lemma RecordAtHead(es: seq<Event>, e: Event)
    requires |es| > 0 && Ascending(es) && e.name == es[0].name
    ensures var rs := [e] + es[1..];
      && Ascending(rs)
      && (forall i :: 0 <= i < |rs| ==> rs[i].name == es[i].name)
      && forall n :: Find(rs, n) == if n == e.name then Some(e) else Find(es, n)
  {
    hide Before;
    var rs := [e] + es[1..];
    assert rs[1..] == es[1..];
    assert forall i :: 0 <= i < |rs| ==> rs[i].name == es[i].name;
  }

  lemma RecordInFront(es: seq<Event>, e: Event)
    requires |es| > 0 && Ascending(es) && Before(e.name, es[0].name)
    ensures var rs := [e] + es;
      && Ascending(rs)
      && Find(es, e.name) == None
      && forall n :: Find(rs, n) == if n == e.name then Some(e) else Find(es, n)
  {
    forall j | 0 <= j < |es| ensures Before(e.name, es[j].name) {
      if j > 0 { Transitive(e.name, es[0].name, es[j].name, CharLess); }
    }
    hide Before;
    FindNone(es, e.name);
    var rs := [e] + es;
    assert rs[1..] == es;
  }

  lemma RecordBehind(es: seq<Event>, rest: seq<Event>, name: string)
    requires |es| > 0 && Ascending(es) && Ascending(rest) && Before(es[0].name, name)
    requires forall i :: 0 <= i < |rest| ==>
      rest[i].name == name || exists j :: 0 <= j < |es[1..]| && es[1..][j].name == rest[i].name
    ensures var rs := [es[0]] + rest;
      && Ascending(rs)
      && (forall i :: 0 <= i < |rs| ==> rs[i].name == name || exists j :: 0 <= j < |es| && es[j].name == rs[i].name)
      && forall n :: Find(rs, n) == if n == es[0].name then Some(es[0]) else Find(rest, n)
  {
    hide Before;
    var rs := [es[0]] + rest;
    assert rs[1..] == rest;
    forall i | 0 <= i < |rest| ensures Before(es[0].name, rest[i].name) {
      if rest[i].name != name {
        var j :| 0 <= j < |es[1..]| && es[1..][j].name == rest[i].name;
        assert es[j + 1].name == rest[i].name;
      }
    }
    forall i | 0 <= i < |rs| ensures rs[i].name == name || exists j :: 0 <= j < |es| && es[j].name == rs[i].name {
      if i == 0 {
        assert es[0].name == rs[0].name;
      } else if rest[i - 1].name != name {
        var j :| 0 <= j < |es[1..]| && es[1..][j].name == rest[i - 1].name;
        assert es[j + 1].name == rs[i].name;
      }
    }
  }

  // ---------------------------------------------------------------- collecting the items

  predicate CItems(items: seq<Item>) {
    forall i :: 0 <= i < |items| ==> CPairs(items[i].pairs)
  }

  function RowName(it: Item): string
    requires CPairs(it.pairs)
  {
    RowPairsOk(it);
    Format(RowPairs(it))
  }

  /** The hierarchy names of the items of one row, in order. */
  function HiersOf(items: seq<Item>, name: string): seq<string>
    requires CItems(items)
  {
    if |items| == 0 then []
    else
      var it := items[|items| - 1];
      HiersOf(items[..|items| - 1], name) + if RowName(it) == name then [RowHier(it)] else []
  }

  /** The sum of the counts of the items of one row. */
  function TotalOf(items: seq<Item>, name: string): nat
    requires CItems(items)
  {
    if |items| == 0 then 0
    else
      var it := items[|items| - 1];
      TotalOf(items[..|items| - 1], name) + if RowName(it) == name then it.count else 0
  }

  /** What the row of a name has to hold. */
  function RowOf(items: seq<Item>, name: string): Option<Event>
    requires CItems(items)
  {
    var hs := HiersOf(items, name);
    if |hs| == 0 then None
    else Some(Event(name, HierNames.Fold(hs), TotalOf(items, name) % TWO64))
  }

  /** The rows are those of the items, each once, in order. */
  ghost predicate Collected(es: seq<Event>, items: seq<Item>) {
    CItems(items) && Ascending(es) && forall name :: Find(es, name) == RowOf(items, name)
  }

  lemma CollectedStep(es: seq<Event>, items: seq<Item>, n: nat)
    requires n < |items| && CItems(items) && Collected(es, items[..n])
    ensures Collected(Record(es, RowName(items[n]), RowHier(items[n]), items[n].count), items[..n + 1])
  {
    hide RowName, RowHier, Record, Find, HierNames.Combined;
    var it := items[n];
    var rs := Record(es, RowName(it), RowHier(it), it.count);
    RecordFind(es, RowName(it), RowHier(it), it.count);
    forall name ensures Find(rs, name) == RowOf(items[..n + 1], name) {
      assert Find(es, name) == RowOf(items[..n], name);
      RowOfStep(items, n, name);
    }
  }

  lemma RowOfStep(items: seq<Item>, n: nat, name: string)
    requires n < |items| && CItems(items)
    ensures RowOf(items[..n + 1], name) ==
      if name == RowName(items[n]) then Some(Added(RowOf(items[..n], name), name, RowHier(items[n]), items[n].count))
      else RowOf(items[..n], name)
  {
    hide RowName, RowHier, HierNames.Combined;
    var it := items[n];
    assert items[..n + 1][..n] == items[..n] && items[..n + 1][n] == it;
    var hs := HiersOf(items[..n], name);
    if name == RowName(it) {
      assert (hs + [RowHier(it)])[..|hs|] == hs;
      NoHierNoTotal(items[..n], name);
      AddMod(TotalOf(items[..n], name), it.count);
    } else {
      assert hs + [] == hs;
    }
  }

  lemma {:induction false} NoHierNoTotal(items: seq<Item>, name: string)
    requires CItems(items)
    ensures |HiersOf(items, name)| == 0 ==> TotalOf(items, name) == 0
  {
    if |items| > 0 { NoHierNoTotal(items[..|items| - 1], name); }
  }

  lemma AddMod(a: nat, b: nat)
    ensures (a % TWO64 + b) % TWO64 == (a + b) % TWO64
  {
  }

  /** The first half of `write`. */
  method Collect(items: seq<Item>) returns (es: seq<Event>)
    requires CItems(items)
    ensures Collected(es, items)
    ensures Congruent(SumCounts(es), SumItems(items))
  {
    es := [];
    NothingCollected(items);
    for n := 0 to |items|
      invariant Collected(es, items[..n])
      invariant Congruent(SumCounts(es), SumItems(items[..n]))
    {
      hide Collected, Record, RowPairs, RowHier, Congruent, SumCounts, SumItems;
      CollectedStep(es, items, n);
      var name, hier := BuildName(items[n]);
      assert name == RowName(items[n]);
      CollectSum(es, items, n, name, hier);
      es := Record(es, name, hier, items[n].count);
    }
    assert items[..|items|] == items;
  }

  // ---------------------------------------------------------------- nothing is lost

  lemma NothingCollected(items: seq<Item>)
    requires CItems(items)
    ensures Collected([], items[..0]) && Congruent(SumCounts([]), SumItems(items[..0]))
  {
  }

  lemma CollectSum(es: seq<Event>, items: seq<Item>, n: nat, name: string, hier: string)
    requires n < |items| && Congruent(SumCounts(es), SumItems(items[..n]))
    ensures Congruent(SumCounts(Record(es, name, hier, items[n].count)), SumItems(items[..n + 1]))
  {
    RecordSum(es, name, hier, items[n].count);
    CongruentAdd(SumCounts(es), SumItems(items[..n]), items[n].count);
    assert items[..n + 1][..n] == items[..n];
  }

  function SumCounts(es: seq<Event>): nat {
    if |es| == 0 then 0 else es[0].count + SumCounts(es[1..])
  }

  function SumItems(items: seq<Item>): nat {
    if |items| == 0 then 0 else SumItems(items[..|items| - 1]) + items[|items| - 1].count
  }

  /** Equal modulo 2^64. */
  ghost predicate Congruent(a: int, b: int) {
    a % TWO64 == b % TWO64
  }

  lemma CongruentAdd(a: int, b: int, c: int)
    requires Congruent(a, b)
    ensures Congruent(a + c, b + c)
  {
  }

  lemma CongruentMod(a: nat, c: int)
    ensures Congruent(a % TWO64 + c, a + c)
  {
  }

  lemma {:induction false} RecordSum(es: seq<Event>, name: string, hier: string, count: nat)
    ensures Congruent(SumCounts(Record(es, name, hier, count)), SumCounts(es) + count)
  {
    hide Before, HierNames.Combined, Congruent;
    if |es| == 0 {
      CongruentMod(count, 0);
      SumHead(Event(name, hier, count % TWO64), []);
    } else if es[0].name == name {
      var e := Added(Some(es[0]), name, hier, count);
      SumHead(e, es[1..]);
      CongruentMod(es[0].count + count, SumCounts(es[1..]));
    } else if Before(name, es[0].name) {
      SumHead(Event(name, hier, count % TWO64), es);
      CongruentMod(count, SumCounts(es));
    } else {
      var rest := Record(es[1..], name, hier, count);
      RecordSum(es[1..], name, hier, count);
      SumHead(es[0], rest);
      CongruentAdd(SumCounts(rest), SumCounts(es[1..]) + count, es[0].count);
    }
  }

  lemma SumHead(e: Event, es: seq<Event>)
    ensures SumCounts([e] + es) == e.count + SumCounts(es)
  {
    assert ([e] + es)[1..] == es;
  }

  // ---------------------------------------------------------------- the text

  const HEADER: string := "# SystemC::Coverage-3"

  ghost predicate CHiers(es: seq<Event>) {
    forall i :: 0 <= i < |es| ==> CString(es[i].hier)
  }

  /** A row as `write` prints it. */
  function LineOf(e: Event): string
    requires CString(e.hier)
  {
    EmptyOk();
    "C '" + e.name + (if e.hier != "" then KeyValueFormatter("h", e.hier) else "") + "' " + Digits(e.count)
  }

  function LinesOf(es: seq<Event>): (ls: seq<string>)
    requires CHiers(es)
    ensures |ls| == |es|
  {
    seq(|es|, i requires 0 <= i < |es| => LineOf(es[i]))
  }

  function JoinLines(ls: seq<string>): string {
    if |ls| == 0 then "" else JoinLines(ls[..|ls| - 1]) + ls[|ls| - 1] + "\n"
  }

  /** `write`, with the file as a string. */
  method Write(items: seq<Item>) returns (text: string, ghost es: seq<Event>)
    requires CItems(items)
    ensures Collected(es, items) && Congruent(SumCounts(es), SumItems(items))
    ensures CHiers(es) && text == JoinLines(["# SystemC::Coverage-3"] + LinesOf(es))
  {
    var rows := Collect(items);
    es := rows;
    HiersPlain(es, items);
    text := HEADER + "\n";
    JoinHeader();
    for i := 0 to |rows|
      invariant text == JoinLines([HEADER] + LinesOf(es)[..i])
    {
      hide LineOf, Collected, CString, Congruent, JoinLines;
      JoinMore(LinesOf(es), i);
      text := text + LineOf(rows[i]);
      text := text + "\n";
    }
    assert LinesOf(es)[..|es|] == LinesOf(es);
  }

  lemma JoinHeader()
    ensures JoinLines([HEADER]) == HEADER + "\n"
    ensures [HEADER] + [] == [HEADER]
  {
    assert [HEADER][..0] == [];
    assert JoinLines([]) + HEADER + "\n" == HEADER + "\n";
  }

  lemma JoinMore(ls: seq<string>, i: nat)
    requires i < |ls|
    ensures JoinLines([HEADER] + ls[..i + 1]) == JoinLines([HEADER] + ls[..i]) + ls[i] + "\n"
  {
    var a := [HEADER] + ls[..i + 1];
    assert a[..|a| - 1] == [HEADER] + ls[..i] && a[|a| - 1] == ls[i];
  }

  // ---------------------------------------------------------------- merged names are printable

  predicate NoApostrophe(s: string) {
    '\'' !in s
  }

  lemma CombinedChars(a: string, b: string)
    requires CString(a) && CString(b)
    ensures CString(HierNames.Combined(a, b))
    ensures NoApostrophe(a) && NoApostrophe(b) ==> NoApostrophe(HierNames.Combined(a, b))
  {
    hide HierNames.Lcp, HierNames.Lcs;
  }

  lemma {:induction false} FoldChars(hs: seq<string>)
    requires |hs| > 0 && forall i :: 0 <= i < |hs| ==> CString(hs[i])
    ensures CString(HierNames.Fold(hs))
    ensures (forall i :: 0 <= i < |hs| ==> NoApostrophe(hs[i])) ==> NoApostrophe(HierNames.Fold(hs))
  {
    hide CString, NoApostrophe, HierNames.Combined;
    if |hs| > 1 {
      FoldChars(hs[..|hs| - 1]);
      CombinedChars(HierNames.Fold(hs[..|hs| - 1]), hs[|hs| - 1]);
    }
  }

  lemma {:induction false} HiersOfChars(items: seq<Item>, name: string)
    requires CItems(items)
    ensures forall i :: 0 <= i < |HiersOf(items, name)| ==> CString(HiersOf(items, name)[i])
    ensures (forall i :: 0 <= i < |items| ==> NoApostrophe(RowHier(items[i]))) ==>
      forall i :: 0 <= i < |HiersOf(items, name)| ==> NoApostrophe(HiersOf(items, name)[i])
  {
    hide CString, NoApostrophe, RowHier, RowName;
    if |items| > 0 {
      HiersOfChars(items[..|items| - 1], name);
      RowPairsOk(items[|items| - 1]);
    }
  }

  lemma FindAt(es: seq<Event>, i: nat)
    requires Ascending(es) && i < |es|
    ensures Find(es, es[i].name) == Some(es[i])
    decreases i
  {
    if i > 0 {
      BeforeTotal(es[0].name, es[i].name);
      FindAt(es[1..], i - 1);
    }
  }

  lemma HiersPlain(es: seq<Event>, items: seq<Item>)
    requires Collected(es, items)
    ensures CHiers(es)
    ensures (forall i :: 0 <= i < |items| ==> NoApostrophe(RowHier(items[i]))) ==>
      forall i :: 0 <= i < |es| ==> NoApostrophe(es[i].hier)
  {
    hide CString, NoApostrophe, RowHier, HierNames.Fold, Before;
    forall i | 0 <= i < |es|
      ensures CString(es[i].hier)
      ensures (forall k :: 0 <= k < |items| ==> NoApostrophe(RowHier(items[k]))) ==> NoApostrophe(es[i].hier)
    {
      FindAt(es, i);
      assert Find(es, es[i].name) == RowOf(items, es[i].name);
      HiersOfChars(items, es[i].name);
      FoldChars(HiersOf(items, es[i].name));
    }
  }

  // ---------------------------------------------------------------- reading the file

  function Drop4(l: string): string {
    if |l| >= 4 then l[4..] else ""
  }

  function LoadLines(ls: seq<string>): Option<seq<map<string, Cell>>> {
    if |ls| == 0 then Some([])
    else
      var rows, l := LoadLines(ls[..|ls| - 1]), ls[|ls| - 1];
      if |l| < 3 || l[..3] != "C '" then rows
      else
        var row := ParseLine(Drop4(l));
        if rows.None? || row.None? then None else Some(rows.value + [row.value])
  }

  /** `load_dat`. */
  function LoadDat(data: string): Option<seq<map<string, Cell>>> {
    LoadLines(Split(data, '\n'))
  }

  /** The pairs a printed row consists of. */
  ghost predicate RowIs(e: Event, ps: seq<KeyVal>) {
    && |ps| > 0 && CPairs(ps) && CString(e.hier)
    && Format(ps) == e.name + if e.hier != "" then (EmptyOk(); KeyValueFormatter("h", e.hier)) else ""
  }

  lemma LineText(e: Event, ps: seq<KeyVal>)
    requires RowIs(e, ps)
    ensures LineOf(e) == "C '" + Format(ps) + "' " + Digits(e.count)
  {
    hide Format, Digits, KeyValueFormatter, CString;
    EmptyOk();
    var h := if e.hier != "" then KeyValueFormatter("h", e.hier) else "";
    assert "C '" + e.name + h == "C '" + (e.name + h);
  }

  lemma LineCut(f: string, d: string)
    requires |f| > 0
    ensures var l := "C '" + f + "' " + d;
      |l| >= 4 && l[..3] == "C '" && Drop4(l) == f[1..] + "' " + d && ('\n' in l <==> '\n' in f || '\n' in d)
  {
    var l := "C '" + f + "' " + d;
    assert l[4..] == f[1..] + "' " + d;
  }

  lemma LineParses(e: Event, ps: seq<KeyVal>)
    requires RowIs(e, ps)
    ensures '\n' !in LineOf(e)
    ensures |LineOf(e)| >= 4 && LineOf(e)[..3] == "C '"
    ensures ParseLine(Drop4(LineOf(e))) == if AnyApostrophe(ps) then None else Some(Cells(Fields(ps), e.count))
  {
    SplitFormat(ps);
    LineRoundTrip(ps, e.count);
    NoLineEnd(e.count);
    LineText(e, ps);
    hide Format, Split, Digits, Fields, Cells, ParseLine, AnyApostrophe, CString, LineOf, RowIs, Drop4;
    LineCut(Format(ps), Digits(e.count));
  }

  lemma NoLineEnd(n: nat)
    ensures '\n' !in Digits(n)
  {
    DigitsRoundTrip(n);
    hide Digits, DigitsValue;
  }

  /** Joined lines, split again. */
  lemma {:induction false} LinesSplit(ls: seq<string>)
    requires forall i :: 0 <= i < |ls| ==> '\n' !in ls[i]
    ensures Split(JoinLines(ls), '\n') == ls + [""]
  {
    if |ls| > 0 {
      hide Split;
      var init, l := ls[..|ls| - 1], ls[|ls| - 1];
      LinesSplit(init);
      assert (init + [""])[..|init|] == init;
      AddLine(JoinLines(init), l);
      assert init + [l, ""] == ls + [""];
    }
  }

  /** A text that ends with a line end and one more line. */
  lemma AddLine(s: string, l: string)
    requires '\n' !in l && Split(s, '\n')[|Split(s, '\n')| - 1] == ""
    ensures Split(s + l + "\n", '\n') == Split(s, '\n')[..|Split(s, '\n')| - 1] + [l, ""]
  {
    AddToLast(s, l);
    var r := Split(s, '\n');
    assert "" + l == l;
    SplitAppend(s + l, "", '\n');
    assert s + l + ['\n'] + "" == s + l + "\n";
  }

  lemma SplitChar(s: string, c: char)
    requires c != '\n'
    ensures var r := Split(s, '\n'); Split(s + [c], '\n') == r[..|r| - 1] + [r[|r| - 1] + [c]]
  {
    var t := s + [c];
    assert t[..|t| - 1] == s;
  }

  lemma {:induction false} AddToLast(s: string, l: string)
    requires '\n' !in l
    ensures var r := Split(s, '\n'); Split(s + l, '\n') == r[..|r| - 1] + [r[|r| - 1] + l]
  {
    if |l| == 0 {
      var r := Split(s, '\n');
      assert s + l == s && r[|r| - 1] + l == r[|r| - 1];
      assert r == r[..|r| - 1] + [r[|r| - 1]];
    } else {
      hide Split;
      SplitChar(s + l[..|l| - 1], l[|l| - 1]);
      var d := l[..|l| - 1];
      AddToLast(s, d);
      var t := s + l;
      var c, r := l[|l| - 1], Split(s, '\n');
      assert t == s + d + [c];
      assert r[|r| - 1] + d + [c] == r[|r| - 1] + l;
    }
  }

  // ---------------------------------------------------------------- reading back what was written

  /** Some item of the row. */
  function ItemOf(items: seq<Item>, name: string): Option<Item>
    requires CItems(items)
  {
    if |items| == 0 then None
    else if RowName(items[|items| - 1]) == name then Some(items[|items| - 1])
    else ItemOf(items[..|items| - 1], name)
  }

  lemma {:induction false} ItemOfFound(items: seq<Item>, name: string)
    requires CItems(items)
    ensures |HiersOf(items, name)| > 0 <==> ItemOf(items, name).Some?
    ensures ItemOf(items, name).Some? ==>
      ItemOf(items, name).value in items && RowName(ItemOf(items, name).value) == name
  {
    hide RowName, RowHier;
    if |items| > 0 { ItemOfFound(items[..|items| - 1], name); }
  }

  lemma {:induction false} ItemCounted(items: seq<Item>, n: nat)
    requires CItems(items) && n < |items|
    ensures |HiersOf(items, RowName(items[n]))| > 0
  {
    hide RowName, RowHier;
    if n < |items| - 1 { ItemCounted(items[..|items| - 1], n); }
  }

  /** The pairs of a printed row: those that name it and the merged hierarchy. */
  function PrintedPairs(it: Item, hier: string): seq<KeyVal> {
    RowPairs(it) + if hier != "" then [KeyVal("h", hier)] else []
  }

  lemma PrintedIs(e: Event, it: Item)
    requires CPairs(it.pairs) && RowName(it) == e.name && CString(e.hier)
    ensures CPairs(RowPairs(it)) && CPairs(PrintedPairs(it, e.hier))
    ensures |PrintedPairs(it, e.hier)| > 0 ==> RowIs(e, PrintedPairs(it, e.hier))
  {
    hide Format, KeyValueFormatter, CString, RowPairs;
    RowPairsOk(it);
    EmptyOk();
    if e.hier != "" {
      FormatSnoc(RowPairs(it), KeyVal("h", e.hier));
    } else {
      assert PrintedPairs(it, e.hier) == RowPairs(it);
      assert e.name + "" == e.name;
    }
  }

  /** The reader refuses this row: it shows an apostrophe, or nothing at all between its two own ones. */
  predicate Unreadable(e: Event) {
    '\'' in e.name || '\'' in e.hier || (e.name == "" && e.hier == "")
  }

  ghost predicate AnyUnreadable(es: seq<Event>) {
    exists i :: 0 <= i < |es| && Unreadable(es[i])
  }

  lemma AnyUnreadableSnoc(es: seq<Event>, n: nat)
    requires n < |es|
    ensures AnyUnreadable(es[..n + 1]) <==> AnyUnreadable(es[..n]) || Unreadable(es[n])
  {
    hide Unreadable;
    var init, more := es[..n], es[..n + 1];
    if i :| 0 <= i < |init| && Unreadable(init[i]) {
      assert more[i] == init[i];
    }
    if i :| 0 <= i < |more| && Unreadable(more[i]) {
      assert i < n ==> init[i] == more[i];
    }
    assert more[n] == es[n];
  }

  lemma NameShows(ps: seq<KeyVal>)
    requires CPairs(ps)
    ensures '\'' in Format(ps) <==> AnyApostrophe(ps)
    ensures Format(ps) == "" <==> |ps| == 0
  {
    if |ps| > 0 {
      SplitFormat(ps);
      hide Format, AnyApostrophe, Split, CString, Entries;
      assert Format(ps) == [KEY] + Format(ps)[1..];
    } else {
      NoneHasIt(ps);
    }
  }

  lemma HierAdds(it: Item, hier: string)
    ensures AnyApostrophe(PrintedPairs(it, hier)) <==> AnyApostrophe(RowPairs(it)) || '\'' in hier
    ensures |PrintedPairs(it, hier)| == 0 <==> |RowPairs(it)| == 0 && hier == ""
  {
    hide RowPairs;
    var ps := PrintedPairs(it, hier);
    if hier != "" {
      AnyApostropheSnoc(ps);
      assert ps[..|ps| - 1] == RowPairs(it);
      assert '\'' !in "h";
    } else {
      assert ps == RowPairs(it);
    }
  }

  /** The pairs of a row show whether it can be read. */
  lemma UnreadablePairs(e: Event, it: Item)
    requires CPairs(it.pairs) && RowName(it) == e.name
    ensures Unreadable(e) <==> AnyApostrophe(PrintedPairs(it, e.hier)) || |PrintedPairs(it, e.hier)| == 0
  {
    hide Format, AnyApostrophe, CString, RowPairs, PrintedPairs;
    RowPairsOk(it);
    NameShows(RowPairs(it));
    HierAdds(it, e.hier);
  }

  lemma EmptyRow(e: Event)
    requires e.name == "" && e.hier == ""
    ensures CString(e.hier) && ParseLine(Drop4(LineOf(e))) == None
    ensures '\n' !in LineOf(e) && |LineOf(e)| >= 4 && LineOf(e)[..3] == "C '"
  {
    EmptyOk();
    ParseCount(e.count);
    var d := Digits(e.count);
    hide Digits, ParseInt, Split;
    assert "C '" + "" + "" + "' " + d == "C '' " + d;
    assert ("C '' " + d)[4..] == " " + d;
    SplitNone(" " + d, '\'');
  }

  /** Every item has a named row, and neither keys nor values contain an apostrophe. */
  ghost predicate Readable(items: seq<Item>) {
    && CItems(items)
    && (forall i :: 0 <= i < |items| ==>
         |RowPairs(items[i])| > 0 && !AnyApostrophe(RowPairs(items[i])) && NoApostrophe(RowHier(items[i])))
  }

  /** The table a row of the file becomes. */
  ghost function TableRow(e: Event, items: seq<Item>): map<string, Cell> {
    if CItems(items) && ItemOf(items, e.name).Some? && CPairs(PrintedPairs(ItemOf(items, e.name).value, e.hier))
    then Cells(Fields(PrintedPairs(ItemOf(items, e.name).value, e.hier)), e.count)
    else map[]
  }

  ghost function Table(es: seq<Event>, items: seq<Item>): seq<map<string, Cell>> {
    seq(|es|, i requires 0 <= i < |es| => TableRow(es[i], items))
  }

  /** The row of an event: an item names it, and it parses to its table row or not at all. */
  ghost predicate RowReads(e: Event, items: seq<Item>) {
    && CItems(items) && CString(e.hier) && ItemOf(items, e.name).Some?
    && CPairs(PrintedPairs(ItemOf(items, e.name).value, e.hier))
    && '\n' !in LineOf(e) && |LineOf(e)| >= 4 && LineOf(e)[..3] == "C '"
    && ParseLine(Drop4(LineOf(e))) == if Unreadable(e) then None else Some(TableRow(e, items))
  }

  lemma {:induction false} EventReads(es: seq<Event>, items: seq<Item>, i: nat)
    requires Collected(es, items) && i < |es|
    ensures RowReads(es[i], items)
  {
    hide CString, Format, RowPairs, RowHier, RowName, AnyApostrophe, LineOf, ParseLine, Fields, Cells, HierNames.Fold,
      Drop4, CPairs, PrintedPairs, Unreadable;
    var e := es[i];
    HiersPlain(es, items);
    FindAt(es, i);
    assert Find(es, e.name) == RowOf(items, e.name);
    ItemOfFound(items, e.name);
    var it := ItemOf(items, e.name).value;
    var k :| 0 <= k < |items| && items[k] == it;
    ItemChars(items, k);
    PrintedIs(e, it);
    UnreadablePairs(e, it);
    if |PrintedPairs(it, e.hier)| > 0 {
      LineParses(e, PrintedPairs(it, e.hier));
    } else {
      HierAdds(it, e.hier);
      NamedBy(e, it);
      EmptyRow(e);
    }
  }

  lemma NamedBy(e: Event, it: Item)
    requires CPairs(it.pairs) && RowName(it) == e.name && |RowPairs(it)| == 0
    ensures e.name == ""
  {
    hide RowPairs;
  }

  lemma ItemChars(items: seq<Item>, k: nat)
    requires CItems(items) && k < |items|
    ensures CPairs(items[k].pairs)
  {
  }

  /**
   Reading the written file fails if and only if some row cannot be read; otherwise it gives
   one table row per event, in order.
   */
  lemma ReadBack(es: seq<Event>, items: seq<Item>)
    requires Collected(es, items)
    ensures CHiers(es) && forall i :: 0 <= i < |es| ==> RowReads(es[i], items)
    ensures LoadDat(JoinLines([HEADER] + LinesOf(es))) ==
      if AnyUnreadable(es) then None else Some(Table(es, items))
  {
    hide LineOf, TableRow, Split, CString, ParseLine, JoinLines, Collected, Unreadable, AnyUnreadable;
    forall i | 0 <= i < |es| ensures RowReads(es[i], items) { EventReads(es, items, i); }
    var ls := [HEADER] + LinesOf(es);
    assert '\n' !in HEADER;
    LinesSplit(ls);
    RowsLoad(es, items, |es|);
    assert LinesOf(es)[..|es|] == LinesOf(es) && es[..|es|] == es;
    SkipLast(ls);
  }

  /** Items whose keys and values have no apostrophe give readable rows. */
  lemma {:induction false} ReadableRows(es: seq<Event>, items: seq<Item>)
    requires Collected(es, items) && Readable(items)
    ensures !AnyUnreadable(es)
  {
    hide CString, RowPairs, RowHier, RowName, AnyApostrophe, HierNames.Fold, CPairs, PrintedPairs, Unreadable;
    forall i | 0 <= i < |es| ensures !Unreadable(es[i]) {
      var e := es[i];
      HiersPlain(es, items);
      FindAt(es, i);
      assert Find(es, e.name) == RowOf(items, e.name);
      ItemOfFound(items, e.name);
      var it := ItemOf(items, e.name).value;
      var k :| 0 <= k < |items| && items[k] == it;
      ItemChars(items, k);
      UnreadablePairs(e, it);
      HierAdds(it, e.hier);
    }
  }

  lemma SkipLast(ls: seq<string>)
    ensures LoadLines(ls + [""]) == LoadLines(ls)
  {
    assert (ls + [""])[..|ls|] == ls;
  }

  lemma {:induction false} RowsLoad(es: seq<Event>, items: seq<Item>, n: nat)
    requires n <= |es| && CHiers(es) && forall i :: 0 <= i < |es| ==> RowReads(es[i], items)
    ensures LoadLines([HEADER] + LinesOf(es)[..n]) ==
      if AnyUnreadable(es[..n]) then None else Some(Table(es[..n], items))
  {
    hide LineOf, TableRow, CString, ParseLine, LoadLines, Unreadable, AnyUnreadable, Drop4, CPairs, CItems;
    var ls := LinesOf(es);
    if n == 0 {
      HeaderSkipped();
      NoRows(es);
      assert [HEADER] + ls[..0] == [HEADER];
      assert Table(es[..0], items) == [];
    } else {
      RowsLoad(es, items, n - 1);
      AnyUnreadableSnoc(es, n - 1);
      assert RowReads(es[n - 1], items);
      LoadMore([HEADER] + ls[..n - 1], ls[n - 1]);
      assert [HEADER] + ls[..n] == [HEADER] + ls[..n - 1] + [ls[n - 1]];
      assert Table(es[..n], items) == Table(es[..n - 1], items) + [TableRow(es[n - 1], items)];
    }
  }

  lemma NoRows(es: seq<Event>)
    ensures !AnyUnreadable(es[..0])
  {
  }

  lemma LoadMore(ls: seq<string>, l: string)
    requires |l| >= 4 && l[..3] == "C '"
    ensures LoadLines(ls + [l]) ==
      if LoadLines(ls).None? || ParseLine(Drop4(l)).None? then None
      else Some(LoadLines(ls).value + [ParseLine(Drop4(l)).value])
  {
    hide ParseLine, Drop4;
    assert (ls + [l])[..|ls|] == ls;
  }

  lemma HeaderSkipped()
    ensures LoadLines([HEADER]) == Some([])
  {
    assert HEADER[..3][0] == '#';
    assert [HEADER][..0] == [];
  }

  /** Short keys of one row are distinct, also with the merged hierarchy. */
  lemma {:induction false} PrintedDistinct(es: seq<Event>, items: seq<Item>, i: nat)
    requires Collected(es, items) && i < |es| && forall k :: 0 <= k < |items| ==> LegalItem(items[k])
    ensures ItemOf(items, es[i].name).Some?
    ensures DistinctKeys(PrintedPairs(ItemOf(items, es[i].name).value, es[i].hier))
  {
    hide CString, RowName, HierNames.Fold, ShortKey, LegalKey;
    var e := es[i];
    FindAt(es, i);
    assert Find(es, e.name) == RowOf(items, e.name);
    ItemOfFound(items, e.name);
    var it := ItemOf(items, e.name).value;
    var k :| 0 <= k < |items| && items[k] == it;
    assert LegalItem(items[k]);
    DistinctShorts(it.pairs);
    var ss := Shorts(it.pairs);
    DistinctWithout(ss);
    if PerInstance(ss) {
      NoHiers(items, it);
      FoldNothing(HiersOf(items, e.name));
    }
  }

  lemma DistinctShorts(ps: seq<KeyVal>)
    requires DistinctKeys(ps) && AllLegal(ps)
    ensures DistinctKeys(Shorts(ps))
  {
    hide ShortKey, LegalKey;
    forall i, j | 0 <= i < j < |ps| ensures Shorts(ps)[i].key != Shorts(ps)[j].key {
      if Shorts(ps)[i].key == Shorts(ps)[j].key { ShortKeyInjective(ps[i].key, ps[j].key); }
    }
  }

  lemma {:induction false} DistinctWithout(ss: seq<KeyVal>)
    requires DistinctKeys(ss)
    ensures DistinctKeys(Without(ss, "h"))
    ensures forall i :: 0 <= i < |Without(ss, "h")| ==> Without(ss, "h")[i].key != "h" && Without(ss, "h")[i] in ss
  {
    if |ss| > 0 { DistinctWithout(ss[..|ss| - 1]); }
  }

  /** The items of a row are all counted per instance or none is. */
  lemma {:induction false} NoHiers(items: seq<Item>, it: Item)
    requires CItems(items) && CPairs(it.pairs) && PerInstance(Shorts(it.pairs))
    ensures forall i :: 0 <= i < |HiersOf(items, RowName(it))| ==> HiersOf(items, RowName(it))[i] == ""
  {
    if |items| > 0 {
      var last := items[|items| - 1];
      NoHiers(items[..|items| - 1], it);
      if RowName(last) == RowName(it) { SamePerInstance(last, it); }
      hide RowName, PerInstance, Shorts;
    }
  }

  lemma SamePerInstance(a: Item, b: Item)
    requires CPairs(a.pairs) && CPairs(b.pairs) && RowName(a) == RowName(b) && PerInstance(Shorts(b.pairs))
    ensures PerInstance(Shorts(a.pairs))
  {
    hide CString, Format, Shorts, Without, PerInstance, ValueOf;
    RowPairsOk(a);
    RowPairsOk(b);
    FormatInjective(RowPairs(a), RowPairs(b));
    ShortsOk(a.pairs);
    ShortsOk(b.pairs);
    PartsOk(Shorts(a.pairs));
    PartsOk(Shorts(b.pairs));
    SameParts(Shorts(a.pairs), Shorts(b.pairs));
    PerInstanceShows(Shorts(a.pairs));
    PerInstanceShows(Shorts(b.pairs));
  }

  lemma {:induction false} FoldNothing(hs: seq<string>)
    requires |hs| > 0 && forall i :: 0 <= i < |hs| ==> hs[i] == ""
    ensures HierNames.Fold(hs) == ""
  {
    if |hs| > 1 { FoldNothing(hs[..|hs| - 1]); }
  }

  /**
   Writing a file and reading it gives, for every item, a row with the sum of the counts
   of all items of that row (unless the row holds a key "count", which the count
   replaces, every short key with its escaped value) and the merged hierarchy name.
   */
  lemma {:induction false} ItemReadBack(es: seq<Event>, items: seq<Item>, n: nat)
    requires Collected(es, items) && !AnyUnreadable(es) && n < |items|
    requires forall k :: 0 <= k < |items| ==> LegalItem(items[k])
    ensures CHiers(es)
    ensures LoadDat(JoinLines([HEADER] + LinesOf(es))) == Some(Table(es, items))
    ensures exists r: nat :: r < |es| && ReadsAs(Table(es, items)[r], items, items[n])
  {
    hide Collected, AnyUnreadable, LegalItem, ReadsAs, LoadDat, JoinLines, LineOf, RowReads;
    ReadBack(es, items);
    var r := RowIndex(es, items, n);
    RowCanBeRead(es, r);
    RowReadsAs(es, items, n, r);
    assert Table(es, items)[r] == TableRow(es[r], items);
  }

  /** The row shows the item's pairs, the total count, and the merged hierarchy unless it is empty. */
  ghost predicate ReadsAs(row: map<string, Cell>, items: seq<Item>, it: Item) {
    && CItems(items) && CPairs(it.pairs) && CPairs(RowPairs(it))
    && "count" in row && row["count"] == Number(TotalOf(items, RowName(it)) % TWO64)
    && (forall i :: 0 <= i < |RowPairs(it)| && RowPairs(it)[i].key != "count" ==>
         var key := Quote(RowPairs(it)[i].key); key in row && row[key] == Text(Quote(RowPairs(it)[i].val)))
    && |HiersOf(items, RowName(it))| > 0
    && var hier := HierNames.Fold(HiersOf(items, RowName(it)));
       CString(hier) && (hier != "" ==> "h" in row && row["h"] == Text(Quote(hier)))
  }

  lemma RowIndex(es: seq<Event>, items: seq<Item>, n: nat) returns (r: nat)
    requires Collected(es, items) && n < |items|
    ensures r < |es| && es[r].name == RowName(items[n])
    ensures Find(es, es[r].name) == Some(es[r]) == RowOf(items, es[r].name)
  {
    hide RowName, RowHier;
    ItemCounted(items, n);
    assert Find(es, RowName(items[n])) == RowOf(items, RowName(items[n]));
    r := FoundAt(es, RowName(items[n]));
  }

  lemma {:induction false} FoundAt(es: seq<Event>, name: string) returns (r: nat)
    requires Find(es, name).Some?
    ensures r < |es| && es[r].name == name && Find(es, name) == Some(es[r])
    decreases |es|
  {
    if es[0].name == name { return 0; }
    r := FoundAt(es[1..], name);
    r := r + 1;
  }

  lemma RowCanBeRead(es: seq<Event>, r: nat)
    requires r < |es| && !AnyUnreadable(es)
    ensures !Unreadable(es[r])
  {
  }

  lemma {:induction false} RowReadsAs(es: seq<Event>, items: seq<Item>, n: nat, r: nat)
    requires Collected(es, items) && n < |items| && r < |es| && !Unreadable(es[r])
    requires forall k :: 0 <= k < |items| ==> LegalItem(items[k])
    requires r < |es| && es[r].name == RowName(items[n]) && RowOf(items, es[r].name) == Some(es[r])
    ensures ReadsAs(TableRow(es[r], items), items, items[n])
  {
    hide CString, Format, RowHier, AnyApostrophe, NoApostrophe, LineOf, ParseLine, Fields, Cells, HierNames.Fold,
      Quote, RowPairs, LegalItem;
    var e := es[r];
    EventReads(es, items, r);
    PrintedDistinct(es, items, r);
    ItemOfFound(items, e.name);
    var it := ItemOf(items, e.name).value;
    var k :| 0 <= k < |items| && items[k] == it;
    RowPairsOk(it);
    RowPairsOk(items[n]);
    FormatInjective(RowPairs(it), RowPairs(items[n]));
    UnreadablePairs(e, it);
    var ps := PrintedPairs(it, e.hier);
    forall i | 0 <= i < |RowPairs(it)| && RowPairs(it)[i].key != "count"
      ensures var key := Quote(RowPairs(it)[i].key);
        key in TableRow(e, items) && TableRow(e, items)[key] == Text(Quote(RowPairs(it)[i].val))
    {
      assert ps[i] == RowPairs(it)[i];
      CellsRecover(ps, e.count, i);
    }
    CellsRecover(ps, e.count, 0);
    if e.hier != "" {
      assert ps[|ps| - 1] == KeyVal("h", e.hier);
      CellsRecover(ps, e.count, |ps| - 1);
      QuotedHier();
    }
  }

  lemma QuotedHier()
    ensures CString("h") && Quote("h") == "h" && "h" != "count"
  {
    assert "h"[1..] == "";
  }
}
