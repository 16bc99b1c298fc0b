/**
 Writing a coverage file: items are grouped into rows, the counts of a row are added up
 and the hierarchy names of collapsed items merged; the Python reader gets the rows back.
 */
module CoverWrite {
  import opened CoverFormat

  /** A coverage item with its full keys. */
  datatype Item = Item(pairs: seq<KeyVal>, count: nat)

  predicate LegalItem(it: Item) {
    && CPairs(it.pairs) && DistinctKeys(it.pairs)
    && AllLegal(it.pairs)
  }

  predicate AllLegal(ps: seq<KeyVal>) {
    forall i :: 0 <= i < |ps| ==> LegalKey(ps[i].key)
  }

  lemma AllLegalSnoc(ps: seq<KeyVal>, p: KeyVal)
    ensures AllLegal(ps + [p]) <==> AllLegal(ps) && LegalKey(p.key)
  {
    var qs := ps + [p];
    assert qs[|ps|] == p && forall i :: 0 <= i < |ps| ==> qs[i] == ps[i];
  }

  // ---------------------------------------------------------------- insertp

  /** Of the pairs with one key the last one stays; empty keys go. */
  function KeepLast(ps: seq<KeyVal>): seq<KeyVal> {
    if |ps| == 0 then []
    else if ps[0].key == "" || HasKey(ps[1..], ps[0].key) then KeepLast(ps[1..])
    else [ps[0]] + KeepLast(ps[1..])
  }

  predicate HasKey(ps: seq<KeyVal>, key: string) {
    exists j :: 0 <= j < |ps| && ps[j].key == key
  }

  /** The value each key was last given. */
  function LastValues(ps: seq<KeyVal>): map<string, string> {
    if |ps| == 0 then map[]
    else
      var m := LastValues(ps[1..]);
      if ps[0].key == "" || ps[0].key in m then m else m[ps[0].key := ps[0].val]
  }

  lemma {:induction false} LastValuesKeys(ps: seq<KeyVal>)
    ensures forall k :: k in LastValues(ps) <==> k != "" && HasKey(ps, k)
  {
    if |ps| > 0 {
      LastValuesKeys(ps[1..]);
      forall k ensures HasKey(ps, k) <==> ps[0].key == k || HasKey(ps[1..], k) {
        if j :| 0 <= j < |ps| && ps[j].key == k {
          assert j > 0 ==> ps[1..][j - 1].key == k;
        }
        if j :| 0 <= j < |ps[1..]| && ps[1..][j].key == k {
          assert ps[j + 1].key == k;
        }
      }
    }
  }

  /** Dropping all but the last pair of a key loses no value and leaves every key once. */
  lemma {:induction false} KeepLastValues(ps: seq<KeyVal>)
    ensures LastValues(KeepLast(ps)) == LastValues(ps)
    ensures DistinctKeys(KeepLast(ps))
    ensures forall i :: 0 <= i < |KeepLast(ps)| ==> KeepLast(ps)[i] in ps && KeepLast(ps)[i].key != ""
  {
    if |ps| > 0 {
      var rest := KeepLast(ps[1..]);
      KeepLastValues(ps[1..]);
      LastValuesKeys(ps[1..]);
      LastValuesKeys(rest);
      if ps[0].key != "" && !HasKey(ps[1..], ps[0].key) {
        var all := [ps[0]] + rest;
        assert !HasKey(rest, ps[0].key);
        forall i, j | 0 <= i < j < |all| ensures all[i].key != all[j].key {
          if i == 0 { assert rest[j - 1].key != ps[0].key; }
        }
        assert all[1..] == rest;
      }
    }
  }

  /** `insertp`, once the first three keys are set: duplicate keys keep the last value, illegal ones are fatal. */
  method InsertP(ps: seq<KeyVal>) returns (kept: seq<KeyVal>, ok: bool)
    ensures kept == KeepLast(ps)
    ensures ok <==> AllLegal(kept)
  {
    var keys := seq(|ps|, i requires 0 <= i < |ps| => ps[i].key);
    for i := 0 to |ps|
      invariant |keys| == |ps|
      invariant forall k :: i <= k < |ps| ==> keys[k] == ps[k].key
      invariant forall k :: 0 <= k < i ==> keys[k] == if HasKey(ps[k + 1..], ps[k].key) then "" else ps[k].key
    {
      if keys[i] != "" {
        var j, found := i + 1, false;
        while j < |ps| && !found
          invariant i + 1 <= j <= |ps|
          invariant found <==> HasKey(ps[i + 1..j], ps[i].key)
        {
          found := keys[i] == keys[j];
          MoreKeys(ps, i + 1, j, ps[i].key);
          j := j + 1;
        }
        SomeKey(ps, i + 1, j, ps[i].key);
        if found { keys := keys[i := ""]; }
      }
    }
    kept, ok := Keep(ps, keys);
  }

  lemma MoreKeys(ps: seq<KeyVal>, i: nat, j: nat, key: string)
    requires i <= j < |ps|
    ensures HasKey(ps[i..j + 1], key) <==> HasKey(ps[i..j], key) || ps[j].key == key
  {
    assert ps[i..j + 1] == ps[i..j] + [ps[j]];
    if HasKey(ps[i..j], key) {
      var k :| 0 <= k < |ps[i..j]| && ps[i..j][k].key == key;
      assert ps[i..j + 1][k].key == key;
    }
    assert ps[i..j + 1][j - i] == ps[j];
  }

  lemma SomeKey(ps: seq<KeyVal>, i: nat, j: nat, key: string)
    requires i <= j <= |ps| && (HasKey(ps[i..j], key) || j == |ps|)
    ensures HasKey(ps[i..], key) <==> HasKey(ps[i..j], key)
  {
    if j == |ps| {
      assert ps[i..j] == ps[i..];
    } else {
      var k :| 0 <= k < |ps[i..j]| && ps[i..j][k].key == key;
      assert ps[i..][k].key == key;
    }
  }

  /** The keys with those blanked that occur again. */
  ghost predicate Blanked(ps: seq<KeyVal>, keys: seq<string>) {
    |keys| == |ps| && forall k :: 0 <= k < |ps| ==> keys[k] == if HasKey(ps[k + 1..], ps[k].key) then "" else ps[k].key
  }

  /** The second loop of `insertp`: the keys that were not blanked, in order. */
  method Keep(ps: seq<KeyVal>, keys: seq<string>) returns (kept: seq<KeyVal>, ok: bool)
    requires Blanked(ps, keys)
    ensures kept == KeepLast(ps)
    ensures ok <==> AllLegal(kept)
  {
    kept, ok := [], true;
    assert ps[0..] == ps && [] + KeepLast(ps) == KeepLast(ps);
    hide LegalKey, Blanked, KeepLast, HasKey, AllLegal;
    AllLegalNone();
    for i := 0 to |ps|
      invariant kept + KeepLast(ps[i..]) == KeepLast(ps)
      invariant ok <==> AllLegal(kept)
    {
      KeepOne(ps, keys, i);
      if keys[i] != "" {
        AllLegalSnoc(kept, ps[i]);
        kept := kept + [ps[i]];
        ok := ok && LegalKey(keys[i]);
      }
    }
    KeepNone(ps);
  }

  lemma AllLegalNone()
    ensures AllLegal([])
  {
  }

  lemma KeepNone(ps: seq<KeyVal>)
    ensures KeepLast(ps[|ps|..]) == []
  {
  }

  lemma KeepOne(ps: seq<KeyVal>, keys: seq<string>, i: nat)
    requires i < |ps| && Blanked(ps, keys)
    ensures |keys| == |ps|
    ensures keys[i] == "" ==> KeepLast(ps[i..]) == KeepLast(ps[i + 1..])
    ensures keys[i] != "" ==> keys[i] == ps[i].key && KeepLast(ps[i..]) == [ps[i]] + KeepLast(ps[i + 1..])
  {
    assert ps[i..][0] == ps[i] && ps[i..][1..] == ps[i + 1..];
  }

  // ---------------------------------------------------------------- the name of a row

  /** The pairs with their short keys. */
  function Shorts(ps: seq<KeyVal>): (ss: seq<KeyVal>)
    ensures |ss| == |ps|
  {
    seq(|ps|, i requires 0 <= i < |ps| => KeyVal(ShortKey(ps[i].key), ps[i].val))
  }

  /** All pairs but those with key k, in order. */
  function Without(ps: seq<KeyVal>, k: string): seq<KeyVal> {
    if |ps| == 0 then []
    else if ps[|ps| - 1].key == k then Without(ps[..|ps| - 1], k)
    else Without(ps[..|ps| - 1], k) + [ps[|ps| - 1]]
  }

  /** The last value of key k, or nothing. */
  function ValueOf(ps: seq<KeyVal>, k: string): string {
    if |ps| == 0 then ""
    else if ps[|ps| - 1].key == k then ps[|ps| - 1].val
    else ValueOf(ps[..|ps| - 1], k)
  }

  predicate PerInstance(ps: seq<KeyVal>) {
    |ps| > 0 && ((ps[|ps| - 1].key == "P" && ps[|ps| - 1].val != "0") || PerInstance(ps[..|ps| - 1]))
  }

  /** What names the row of an item: its pairs in order, the hierarchy only for an item counted per instance. */
  function RowPairs(it: Item): seq<KeyVal> {
    var ss := Shorts(it.pairs);
    Without(ss, "h") + if PerInstance(ss) then [KeyVal("h", ValueOf(ss, "h"))] else []
  }

  /** The hierarchy to be merged into the row. */
  function RowHier(it: Item): string {
    var ss := Shorts(it.pairs);
    if PerInstance(ss) then "" else ValueOf(ss, "h")
  }

  lemma ShortKeyChars(key: string)
    requires CString(key)
    ensures CString(ShortKey(key))
  {
  }

  lemma ShortsOk(ps: seq<KeyVal>)
    requires CPairs(ps)
    ensures CPairs(Shorts(ps))
  {
    hide ShortKey, CString;
    forall i | 0 <= i < |ps| ensures CPair(Shorts(ps)[i]) {
      assert CPair(ps[i]);
      ShortKeyChars(ps[i].key);
    }
  }

  lemma {:induction false} PartsOk(ss: seq<KeyVal>)
    requires CPairs(ss)
    ensures CPairs(Without(ss, "h")) && CString(ValueOf(ss, "h"))
    ensures forall i :: 0 <= i < |Without(ss, "h")| ==> Without(ss, "h")[i].key != "h"
  {
    hide CString;
    if |ss| > 0 {
      PartsOk(ss[..|ss| - 1]);
      assert CPair(ss[|ss| - 1]);
    } else {
      EmptyOk();
    }
  }

  lemma EmptyOk()
    ensures CString("") && CString("h")
  {
  }

  lemma RowPairsOk(it: Item)
    requires CPairs(it.pairs)
    ensures CPairs(RowPairs(it)) && CString(RowHier(it))
  {
    hide CString;
    ShortsOk(it.pairs);
    PartsOk(Shorts(it.pairs));
    EmptyOk();
  }

  /** The loop over the keys of an item in `write`. */
  method BuildName(it: Item) returns (name: string, hier: string)
    requires CPairs(it.pairs)
    ensures CPairs(RowPairs(it)) && name == Format(RowPairs(it)) && hier == RowHier(it)
  {
    RowPairsOk(it);
    ShortsOk(it.pairs);
    EmptyOk();
    hide ShortKey, CString, KeyValueFormatter, RowPairs, RowHier, Format, Without, ValueOf, PerInstance;
    ghost var ss := Shorts(it.pairs);
    name, hier := "", "";
    var perInstance := false;
    NameStarts(ss);
    for i := 0 to |it.pairs|
      invariant NameSoFar(ss, i, name, hier, perInstance)
    {
      hide NameSoFar;
      var key, val := ShortKey(it.pairs[i].key), it.pairs[i].val;
      NameStep(ss, i, name, hier, perInstance);
      assert ss[i] == KeyVal(key, val);
      if key == "P" && val != "0" { perInstance := true; }
      if key == "h" {
        hier := val;
      } else {
        name := name + KeyValueFormatter(key, val);
      }
    }
    NameEnds(it, name, hier, perInstance);
    if perInstance {
      name := name + KeyValueFormatter("h", hier);
      hier := "";
    }
  }

  ghost predicate NameSoFar(ss: seq<KeyVal>, i: nat, name: string, hier: string, perInstance: bool) {
    && i <= |ss| && CPairs(Without(ss[..i], "h")) && name == Format(Without(ss[..i], "h"))
    && hier == ValueOf(ss[..i], "h") && perInstance == PerInstance(ss[..i])
  }

  lemma NameStarts(ss: seq<KeyVal>)
    ensures NameSoFar(ss, 0, "", "", false)
  {
    FormatEmpty();
  }

  lemma NameStep(ss: seq<KeyVal>, i: nat, name: string, hier: string, perInstance: bool)
    requires i < |ss| && CPairs(ss) && NameSoFar(ss, i, name, hier, perInstance)
    ensures var (key, val) := (ss[i].key, ss[i].val);
      CPair(ss[i]) &&
      NameSoFar(ss, i + 1, if key == "h" then name else name + KeyValueFormatter(key, val),
        if key == "h" then val else hier, perInstance || (key == "P" && val != "0"))
  {
    hide KeyValueFormatter, Format, CString;
    assert CPair(ss[i]);
    assert ss[..i + 1][..i] == ss[..i] && ss[..i + 1][i] == ss[i];
    FormatSnoc(Without(ss[..i], "h"), ss[i]);
  }

  lemma NameEnds(it: Item, name: string, hier: string, perInstance: bool)
    requires CPairs(it.pairs) && CPairs(RowPairs(it)) && CString("h")
    requires NameSoFar(Shorts(it.pairs), |it.pairs|, name, hier, perInstance)
    ensures CString(hier)
    ensures perInstance ==> Format(RowPairs(it)) == name + KeyValueFormatter("h", hier) && RowHier(it) == ""
    ensures !perInstance ==> Format(RowPairs(it)) == name && RowHier(it) == hier
  {
    hide KeyValueFormatter, Format, CString, Without, ValueOf, PerInstance, ShortKey;
    var ss := Shorts(it.pairs);
    assert ss[..|ss|] == ss;
    ShortsOk(it.pairs);
    PartsOk(ss);
    if perInstance {
      FormatSnoc(Without(ss, "h"), KeyVal("h", hier));
    } else {
      assert RowPairs(it) == Without(ss, "h");
    }
  }

  lemma FormatSnoc(ps: seq<KeyVal>, p: KeyVal)
    requires CPairs(ps) && CPair(p)
    ensures CPairs(ps + [p]) && Format(ps + [p]) == Format(ps) + KeyValueFormatter(p.key, p.val)
  {
    assert (ps + [p])[..|ps|] == ps;
  }

  /** Row names tell rows apart: equal names come from equal lists. */
  lemma FormatInjective(ps: seq<KeyVal>, qs: seq<KeyVal>)
    requires CPairs(ps) && CPairs(qs) && Format(ps) == Format(qs)
    ensures ps == qs
  {
    if |ps| > 0 { SplitFormat(ps); }
    if |qs| > 0 { SplitFormat(qs); }
    hide Format, Split, CString;
    FormatEmpty();
    if |ps| > 0 && |qs| > 0 {
      assert Entries(ps) == Entries(qs);
      assert |ps| == |Entries(ps)| == |Entries(qs)| == |qs|;
      forall i | 0 <= i < |ps| ensures ps[i] == qs[i] {
        assert Entries(ps)[i] == Entry(ps[i]) && Entries(qs)[i] == Entry(qs[i]);
        EntryInjective(ps[i], qs[i]);
      }
    }
  }

  lemma FormatEmpty()
    ensures Format([]) == ""
  {
  }

  lemma EntryInjective(p: KeyVal, q: KeyVal)
    requires CPair(p) && CPair(q) && Entry(p) == Entry(q)
    ensures p == q
  {
    EntryParts(p);
    EntryParts(q);
    hide Quote, Split, CString, Entry;
    var a, b := [Quote(p.key), Quote(p.val)], [Quote(q.key), Quote(q.val)];
    assert a == b && a[0] == b[0] && a[1] == b[1];
    QuoteInjective(p.key, q.key);
    QuoteInjective(p.val, q.val);
  }

  // ---------------------------------------------------------------- which items share a row

  lemma {:induction false} WithoutShort(ps: seq<KeyVal>)
    requires AllLegal(ps)
    ensures Without(Shorts(ps), "h") == Shorts(Without(ps, "hier"))
    ensures AllLegal(Without(ps, "hier"))
  {
    hide ShortKey, LegalKey;
    if |ps| > 0 {
      var init, p := ps[..|ps| - 1], ps[|ps| - 1];
      WithoutShort(init);
      assert Shorts(ps)[..|ps| - 1] == Shorts(init);
      ShortHier(p.key);
      AllLegalSnoc(Without(init, "hier"), p);
      assert Shorts(Without(init, "hier") + [p]) == Shorts(Without(init, "hier")) + [KeyVal(ShortKey(p.key), p.val)];
    }
  }

  lemma ShortHier(key: string)
    requires LegalKey(key)
    ensures ShortKey(key) == "h" <==> key == "hier"
  {
    ShortKeyRoundTrip(key);
    LetterKeys();
    HierKey();
    hide ShortKey, LongKey;
  }

  lemma HierKey()
    ensures ShortKey("hier") == "h"
  {
  }

  lemma ShortsInjective(ps: seq<KeyVal>, qs: seq<KeyVal>)
    requires AllLegal(ps) && AllLegal(qs) && Shorts(ps) == Shorts(qs)
    ensures ps == qs
  {
    hide ShortKey, LegalKey;
    forall i | 0 <= i < |ps| ensures ps[i] == qs[i] {
      assert Shorts(ps)[i] == Shorts(qs)[i];
      ShortKeyInjective(ps[i].key, qs[i].key);
    }
  }

  /** Whether an item is counted per instance shows in the pairs that name its row. */
  lemma {:induction false} PerInstanceShows(ss: seq<KeyVal>)
    ensures PerInstance(ss) <==> PerInstance(Without(ss, "h"))
  {
    if |ss| > 0 {
      var init, p := ss[..|ss| - 1], ss[|ss| - 1];
      PerInstanceShows(init);
      assert "P"[0] == 'P' && "h"[0] == 'h';
      if p.key != "h" {
        var w := Without(ss, "h");
        assert w == Without(init, "h") + [p];
        assert w[..|w| - 1] == Without(init, "h") && w[|w| - 1] == p;
      }
    }
  }

  /**
   Two items share a row exactly when their pairs agree in order and value, leaving out
   the hierarchy, which has to agree as well when they are counted per instance.
   */
  lemma SameRow(a: Item, b: Item)
    requires LegalItem(a) && LegalItem(b)
    ensures CPairs(RowPairs(a)) && CPairs(RowPairs(b))
    ensures Format(RowPairs(a)) == Format(RowPairs(b)) <==>
      Without(a.pairs, "hier") == Without(b.pairs, "hier")
      && (PerInstance(Shorts(a.pairs)) ==> ValueOf(Shorts(a.pairs), "h") == ValueOf(Shorts(b.pairs), "h"))
  {
    hide ShortKey, LegalKey, CString, Format, DistinctKeys;
    RowPairsOk(a);
    RowPairsOk(b);
    var sa, sb := Shorts(a.pairs), Shorts(b.pairs);
    WithoutShort(a.pairs);
    WithoutShort(b.pairs);
    PerInstanceShows(sa);
    PerInstanceShows(sb);
    if Format(RowPairs(a)) == Format(RowPairs(b)) {
      FormatInjective(RowPairs(a), RowPairs(b));
      ShortsOk(a.pairs);
      ShortsOk(b.pairs);
      PartsOk(sa);
      PartsOk(sb);
      SameParts(sa, sb);
      ShortsInjective(Without(a.pairs, "hier"), Without(b.pairs, "hier"));
    }
  }

  lemma SameLength(a: seq<KeyVal>, pa: seq<KeyVal>, b: seq<KeyVal>, pb: seq<KeyVal>)
    requires a + pa == b + pb && |pa| <= 1 && |pb| <= 1
    requires forall i :: 0 <= i < |a| ==> a[i].key != "h"
    requires forall i :: 0 <= i < |b| ==> b[i].key != "h"
    requires (|pa| == 1 ==> pa[0].key == "h") && (|pb| == 1 ==> pb[0].key == "h")
    ensures |a| == |b|
  {
    Joined(a, pa);
    Joined(b, pb);
  }

  lemma Joined(a: seq<KeyVal>, pa: seq<KeyVal>)
    requires |pa| <= 1 && (|pa| == 1 ==> pa[0].key == "h")
    ensures |pa| == 1 ==> (a + pa)[|a|].key == "h"
    ensures forall i :: 0 <= i < |a| ==> (a + pa)[i] == a[i]
  {
  }

  lemma SameParts(sa: seq<KeyVal>, sb: seq<KeyVal>)
    requires forall i :: 0 <= i < |Without(sa, "h")| ==> Without(sa, "h")[i].key != "h"
    requires forall i :: 0 <= i < |Without(sb, "h")| ==> Without(sb, "h")[i].key != "h"
    requires var pa := if PerInstance(sa) then [KeyVal("h", ValueOf(sa, "h"))] else [];
      var pb := if PerInstance(sb) then [KeyVal("h", ValueOf(sb, "h"))] else [];
      Without(sa, "h") + pa == Without(sb, "h") + pb
    ensures Without(sa, "h") == Without(sb, "h")
    ensures PerInstance(sa) ==> ValueOf(sa, "h") == ValueOf(sb, "h")
  {
    hide Without, PerInstance, ValueOf;
    var wa, wb := Without(sa, "h"), Without(sb, "h");
    var pa := if PerInstance(sa) then [KeyVal("h", ValueOf(sa, "h"))] else [];
    var pb := if PerInstance(sb) then [KeyVal("h", ValueOf(sb, "h"))] else [];
    var x, y := wa + pa, wb + pb;
    SameLength(wa, pa, wb, pb);
    assert x[..|wa|] == wa && y[..|wb|] == wb;
    if PerInstance(sa) { assert x[|wa|] == y[|wa|]; }
  }
}
