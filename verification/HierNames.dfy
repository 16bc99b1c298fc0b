/**
 Merging hierarchy names of collapsed coverage points: two names become their common
 beginning, a star and their common ending.
 */
module HierNames {

  const NUL: char := '\0'

  /** A name that contains neither a star nor a NUL. */
  predicate Clean(s: string) {
    '*' !in s && NUL !in s
  }

  /** What a name or a merged name stands for. */
  datatype Pattern = Name(s: string) | Glob(pre: string, suf: string)

  function Text(p: Pattern): string {
    match p
    case Name(s) => s
    case Glob(pre, suf) => pre + "*" + suf
  }

  predicate StartsWith(s: string, pre: string) {
    |pre| <= |s| && s[..|pre|] == pre
  }

  predicate EndsWith(s: string, suf: string) {
    |suf| <= |s| && s[|s| - |suf|..] == suf
  }

  predicate Matches(p: Pattern, s: string) {
    match p
    case Name(t) => s == t
    case Glob(pre, suf) => |pre| + |suf| <= |s| && StartsWith(s, pre) && EndsWith(s, suf)
  }

  predicate CleanPattern(p: Pattern) {
    match p
    case Name(s) => Clean(s)
    case Glob(pre, suf) => Clean(pre) && Clean(suf)
  }

  // ---------------------------------------------------------------- the two scans

  /** The character a C string shows at index i. */
  function CharAt(s: string, i: nat): char
    requires i <= |s|
  {
    if i < |s| then s[i] else NUL
  }

  /** The length of the longest common beginning. */
  function Lcp(a: string, b: string): (n: nat)
    ensures n <= |a| && n <= |b|
  {
    if |a| > 0 && |b| > 0 && a[0] == b[0] then 1 + Lcp(a[1..], b[1..]) else 0
  }

  /** It is common, and one more character is not. */
  lemma {:induction false} LcpLongest(a: string, b: string)
    ensures a[..Lcp(a, b)] == b[..Lcp(a, b)]
    ensures Lcp(a, b) < |a| && Lcp(a, b) < |b| ==> a[Lcp(a, b)] != b[Lcp(a, b)]
  {
    if |a| > 0 && |b| > 0 && a[0] == b[0] {
      LcpLongest(a[1..], b[1..]);
      var n := Lcp(a[1..], b[1..]);
      assert a[..n + 1] == [a[0]] + a[1..][..n] && b[..n + 1] == [b[0]] + b[1..][..n];
    }
  }

  lemma {:induction false} LcpIs(a: string, b: string, n: nat)
    requires n <= |a| && n <= |b| && a[..n] == b[..n]
    requires n < |a| && n < |b| ==> a[n] != b[n]
    ensures Lcp(a, b) == n
  {
    if n > 0 {
      assert a[0] == a[..n][0] == b[..n][0] == b[0];
      assert a[1..][..n - 1] == a[..n][1..] == b[..n][1..] == b[1..][..n - 1];
      LcpIs(a[1..], b[1..], n - 1);
    }
  }

  /** The length of the longest common ending of at most m characters. */
  function Lcs(a: string, b: string, m: nat): (n: nat)
    requires m <= |a| && m <= |b|
    ensures n <= m
  {
    if m > 0 && a[|a| - 1] == b[|b| - 1] then 1 + Lcs(a[..|a| - 1], b[..|b| - 1], m - 1) else 0
  }

  lemma LongerEnding(s: string, n: nat)
    requires n < |s|
    ensures s[|s| - 1 - n..] == s[..|s| - 1][|s| - 1 - n..] + [s[|s| - 1]]
    ensures n + 1 < |s| ==> s[..|s| - 1][|s| - 2 - n] == s[|s| - 2 - n]
  {
  }

  lemma {:induction false} LcsLongest(a: string, b: string, m: nat)
    requires m <= |a| && m <= |b|
    ensures var n := Lcs(a, b, m); a[|a| - n..] == b[|b| - n..] && (n < m ==> a[|a| - 1 - n] != b[|b| - 1 - n])
  {
    if m > 0 && a[|a| - 1] == b[|b| - 1] {
      var c, d := a[..|a| - 1], b[..|b| - 1];
      LcsLongest(c, d, m - 1);
      var n := Lcs(c, d, m - 1);
      LongerEnding(a, n);
      LongerEnding(b, n);
    }
  }

  lemma {:induction false} LcsIs(a: string, b: string, m: nat, n: nat)
    requires n <= m <= |a| && m <= |b| && a[|a| - n..] == b[|b| - n..]
    requires n < m ==> a[|a| - 1 - n] != b[|b| - 1 - n]
    ensures Lcs(a, b, m) == n
  {
    if n > 0 {
      var c, d := a[..|a| - 1], b[..|b| - 1];
      assert a[|a| - 1] == a[|a| - n..][n - 1] == b[|b| - n..][n - 1] == b[|b| - 1];
      assert c[|c| - (n - 1)..] == a[|a| - n..][..n - 1];
      assert d[|d| - (n - 1)..] == b[|b| - n..][..n - 1];
      LcsIs(c, d, m - 1, n - 1);
    }
  }

  /** How many characters the ending may take: one less than what the beginning has left of each name. */
  function SuffixRoom(a: string, b: string, p: nat): (m: nat)
    requires p <= |a| && p <= |b|
    ensures m <= |a| && m <= |b|
  {
    if p >= |a| || p >= |b| then 0
    else if |a| < |b| then |a| - 1 - p else |b| - 1 - p
  }

  /** Two names merged: equal and empty names are left, others become beginning, star and ending. */
  function Combined(name: string, add: string): string {
    if name == add || |name| == 0 then add
    else if |add| == 0 then name
    else
      var p := Lcp(name, add);
      var n := Lcs(name, add, SuffixRoom(name, add, p));
      add[..p] + "*" + add[|add| - n..]
  }

  /** `combineHier`; every character it looks at lies within the names and their terminating NULs. */
  method CombineHier(name: string, add: string) returns (out: string)
    requires NUL !in name && NUL !in add
    ensures out == Combined(name, add)
  {
    hide Lcp, Lcs;
    if name == add { return add; }
    if |name| == 0 { return add; }
    if |add| == 0 { return name; }
    var pre: nat := 0;
    while CharAt(name, pre) == CharAt(add, pre)
      invariant pre <= |name| && pre <= |add| && name[..pre] == add[..pre]
      decreases |name| - pre
    {
      if pre == |name| || pre == |add| { EqualAtEnd(name, add, pre); }
      pre := pre + 1;
    }
    LcpIs(name, add, pre);
    var prefix := name[..pre];
    var apost, bpost := |name| - 1, |add| - 1;
    while CharAt(name, apost) == CharAt(add, bpost) && apost > pre && bpost > pre
      invariant 0 <= apost < |name| && 0 <= bpost < |add| && |name| - apost == |add| - bpost
      invariant apost == |name| - 1 || (apost >= pre && bpost >= pre)
      invariant name[apost + 1..] == add[bpost + 1..]
      decreases apost
    {
      OneMore(name, add, apost, bpost);
      apost, bpost := apost - 1, bpost - 1;
    }
    var suffix := if CharAt(add, bpost) != NUL then add[bpost + 1..] else "";
    SuffixFound(name, add, pre, apost, bpost);
    out := prefix + "*" + suffix;
  }

  lemma OneMore(a: string, b: string, i: nat, j: nat)
    requires i < |a| && j < |b| && a[i] == b[j] && a[i + 1..] == b[j + 1..]
    ensures a[i..] == b[j..]
  {
    assert a[i..] == [a[i]] + a[i + 1..] && b[j..] == [b[j]] + b[j + 1..];
  }

  lemma NoNul(s: string)
    ensures NUL !in s ==> forall i :: 0 <= i < |s| ==> s[i] != NUL
  {
  }

  lemma EqualAtEnd(a: string, b: string, n: nat)
    requires NUL !in a && NUL !in b && n <= |a| && n <= |b| && a[..n] == b[..n]
    requires CharAt(a, n) == CharAt(b, n) && (n == |a| || n == |b|)
    ensures a == b
  {
    NoNul(a);
    NoNul(b);
    assert a == a[..n] && b == b[..n];
  }

  lemma SuffixFound(a: string, b: string, p: nat, apost: nat, bpost: nat)
    requires NUL !in a && NUL !in b && p == Lcp(a, b)
    requires apost < |a| && bpost < |b| && |a| - apost == |b| - bpost && a[apost + 1..] == b[bpost + 1..]
    requires apost == |a| - 1 || (apost >= p && bpost >= p)
    requires !(a[apost] == b[bpost] && apost > p && bpost > p)
    ensures Lcs(a, b, SuffixRoom(a, b, p)) == |b| - 1 - bpost
  {
    LcpLongest(a, b);
    LcsIs(a, b, SuffixRoom(a, b, p), |b| - 1 - bpost);
  }

  // ---------------------------------------------------------------- what a merged name matches

  /** Merging a pattern with a clean name gives a pattern. */
  function Widened(p: Pattern, add: string): Pattern
    requires CleanPattern(p) && Clean(add)
  {
    match p
    case Name(s) =>
      if s == add || |s| == 0 then Name(add) else if |add| == 0 then p else
        var n := Lcp(s, add);
        Glob(add[..n], add[|add| - Lcs(s, add, SuffixRoom(s, add, n))..])
    case Glob(pre, suf) =>
      if |add| == 0 then p else
        var n := Lcp(Text(p), add);
        Glob(add[..n], add[|add| - Lcs(Text(p), add, SuffixRoom(Text(p), add, n))..])
  }

  lemma CleanPart(s: string, i: nat, j: nat)
    requires Clean(s) && i <= j <= |s|
    ensures Clean(s[i..j]) && Clean(s[i..]) && Clean(s[..j])
  {
  }

  lemma GlobNotClean(p: Pattern, add: string)
    requires Clean(add)
    ensures p.Glob? ==> Text(p) != add
  {
    if p.Glob? { assert Text(p)[|p.pre|] == '*'; }
  }

  lemma WidenedText(p: Pattern, add: string)
    requires CleanPattern(p) && Clean(add)
    ensures Text(Widened(p, add)) == Combined(Text(p), add)
    ensures CleanPattern(Widened(p, add))
  {
    hide Clean, Lcp, Lcs;
    GlobNotClean(p, add);
    if |add| > 0 && Text(p) != add && |Text(p)| > 0 {
      var n := Lcp(Text(p), add);
      var k := Lcs(Text(p), add, SuffixRoom(Text(p), add, n));
      CleanPart(add, 0, n);
      CleanPart(add, |add| - k, |add|);
    }
  }

  lemma SliceHas(s: string, i: nat, j: nat, at: nat)
    requires i <= j <= |s| && at < |s|
    ensures i <= at < j ==> s[at] in s[i..j]
    ensures j == |s| ==> s[i..j] == s[i..]
  {
    if i <= at < j { assert s[i..j][at - i] == s[at]; }
  }

  /** The star of a pattern meets no character of a clean name, so the scans stop there. */
  lemma GlobScans(pre: string, suf: string, add: string)
    requires Clean(add) && |add| > 0
    ensures var g := Text(Glob(pre, suf));
      var n := Lcp(g, add);
      n <= |pre| && Lcs(g, add, SuffixRoom(g, add, n)) <= |suf|
  {
    var g := Text(Glob(pre, suf));
    var n := Lcp(g, add);
    var m := SuffixRoom(g, add, n);
    var k := Lcs(g, add, m);
    LcpLongest(g, add);
    LcsLongest(g, add, m);
    assert g[|pre|] == '*';
    assert '*' !in add[..n] && '*' !in add[|add| - k..];
    SliceHas(g, 0, n, |pre|);
    SliceHas(g, |g| - k, |g|, |pre|);
  }

  lemma SliceEnds(s: string, n: nat, k: nat)
    requires n <= |s| && k <= |s|
    ensures StartsWith(s, s[..n]) && EndsWith(s, s[|s| - k..])
  {
  }

  lemma PrefixOfPrefix(s: string, t: string, n: nat)
    requires StartsWith(s, t) && n <= |t|
    ensures StartsWith(s, t[..n])
  {
    assert s[..n] == s[..|t|][..n];
  }

  lemma SuffixOfSuffix(s: string, t: string, k: nat)
    requires EndsWith(s, t) && k <= |t|
    ensures EndsWith(s, t[|t| - k..])
  {
    assert s[|s| - k..] == s[|s| - |t|..][|t| - k..];
  }

  /** The merged pattern matches the added name and everything the old one matched. */
  lemma WidenedMatches(p: Pattern, add: string, s: string)
    requires CleanPattern(p) && Clean(add) && |add| > 0 && |Text(p)| > 0
    ensures Matches(Widened(p, add), add)
    ensures Matches(p, s) ==> Matches(Widened(p, add), s)
  {
    hide Clean, Lcp, Lcs, StartsWith, EndsWith;
    var g := Text(p);
    if p != Name(add) {
      var n := Lcp(g, add);
      var m := SuffixRoom(g, add, n);
      var k := Lcs(g, add, m);
      LcpLongest(g, add);
      LcsLongest(g, add, m);
      SliceEnds(add, n, k);
      if p == Name(s) { SliceEnds(g, n, k); }
      if p.Glob? && Matches(p, s) {
        GlobScans(p.pre, p.suf, add);
        PartsMatch(p.pre, p.suf, add, s, n, k);
      }
    }
  }

  /** Equal beginnings and endings that do not reach the star are parts of the pattern's. */
  lemma PartsMatch(pre: string, suf: string, add: string, s: string, n: nat, k: nat)
    requires StartsWith(s, pre) && EndsWith(s, suf) && n <= |pre| && k <= |suf| && n <= |add| && k <= |add|
    requires var g := pre + "*" + suf; g[..n] == add[..n] && g[|g| - k..] == add[|add| - k..]
    ensures StartsWith(s, add[..n]) && EndsWith(s, add[|add| - k..])
  {
    hide StartsWith, EndsWith;
    PrefixOfPrefix(s, pre, n);
    SuffixOfSuffix(s, suf, k);
    SameParts(pre, suf, n, k);
  }

  lemma SameParts(pre: string, suf: string, n: nat, k: nat)
    requires n <= |pre| && k <= |suf|
    ensures var g := pre + "*" + suf; g[..n] == pre[..n] && g[|g| - k..] == suf[|suf| - k..]
  {
  }

  lemma WidenedShape(p: Pattern, add: string)
    requires CleanPattern(p) && Clean(add)
    ensures |Text(p)| > 0 && |add| > 0 ==> (Widened(p, add).Name? <==> p == Name(add))
    ensures |Text(p)| == 0 ==> Widened(p, add) == Name(add)
    ensures |add| == 0 ==> Widened(p, add) == p
    ensures p == Name(add) ==> Widened(p, add) == p
  {
  }

  // ---------------------------------------------------------------- folding

  ghost predicate AllClean(names: seq<string>) {
    forall s :: s in names ==> Clean(s)
  }

  lemma SplitLast(names: seq<string>)
    requires |names| > 1
    ensures forall s :: s in names <==> s in names[..|names| - 1] || s == names[|names| - 1]
    ensures names[0] == names[..|names| - 1][0]
  {
    assert names == names[..|names| - 1] + [names[|names| - 1]];
  }

  /** What `write` makes of the hierarchy names of one row, in the order they come. */
  function Fold(names: seq<string>): string
    requires |names| > 0
  {
    if |names| == 1 then names[0] else Combined(Fold(names[..|names| - 1]), names[|names| - 1])
  }

  ghost function FoldPattern(names: seq<string>): Pattern
    requires |names| > 0 && AllClean(names)
    ensures CleanPattern(FoldPattern(names))
  {
    if |names| == 1 then assert names[0] in names; Name(names[0]) else
      SplitLast(names);
      var p := FoldPattern(names[..|names| - 1]);
      WidenedText(p, names[|names| - 1]);
      Widened(p, names[|names| - 1])
  }

  lemma FoldStep(names: seq<string>)
    requires |names| > 1 && AllClean(names)
    ensures var init, last := names[..|names| - 1], names[|names| - 1];
      && AllClean(init) && Clean(last)
      && FoldPattern(names) == Widened(FoldPattern(init), last)
      && Fold(names) == Combined(Fold(init), last)
  {
    SplitLast(names);
  }

  lemma {:induction false} FoldText(names: seq<string>)
    requires |names| > 0 && AllClean(names)
    ensures Text(FoldPattern(names)) == Fold(names)
  {
    if |names| > 1 {
      FoldStep(names);
      FoldText(names[..|names| - 1]);
      WidenedText(FoldPattern(names[..|names| - 1]), names[|names| - 1]);
    }
  }

  /** Every non-empty merged name matches the result, which is empty only when all of them are. */
  lemma {:induction false} FoldMatches(names: seq<string>)
    requires |names| > 0 && AllClean(names)
    ensures forall s :: s in names && |s| > 0 ==> Matches(FoldPattern(names), s)
    ensures |Fold(names)| == 0 <==> forall s :: s in names ==> |s| == 0
  {
    if |names| > 1 {
      var init, last := names[..|names| - 1], names[|names| - 1];
      FoldStep(names);
      SplitLast(names);
      FoldMatches(init);
      FoldText(init);
      FoldText(names);
      var p := FoldPattern(init);
      WidenedShape(p, last);
      hide Fold, FoldPattern, Widened, Combined, Clean, Text;
      forall s | s in names && |s| > 0 ensures Matches(FoldPattern(names), s) {
        if |last| > 0 && |Text(p)| > 0 {
          WidenedMatches(p, last, s);
        }
      }
      if |last| > 0 && |Text(p)| > 0 { WidenedFull(p, last); }
    }
  }

  lemma WidenedFull(p: Pattern, add: string)
    requires CleanPattern(p) && Clean(add) && |Text(p)| > 0 && |add| > 0
    ensures |Text(Widened(p, add))| > 0
  {
  }

  predicate AllAre(names: seq<string>, x: string) {
    forall s :: s in names ==> s == x
  }

  lemma AllAreSplit(names: seq<string>)
    requires |names| > 1
    ensures AllAre(names, names[0]) <==> AllAre(names[..|names| - 1], names[0]) && names[|names| - 1] == names[0]
  {
    SplitLast(names);
    assert names[|names| - 1] in names;
    var init := names[..|names| - 1];
    if AllAre(names, names[0]) {
      forall s | s in init ensures s == names[0] { assert s in names; }
    }
  }

  /** Without two different names the result is the one name, otherwise it is a pattern with one star. */
  lemma {:induction false} FoldCommon(names: seq<string>)
    requires |names| > 0 && AllClean(names) && forall s :: s in names ==> |s| > 0
    ensures AllAre(names, names[0]) ==> FoldPattern(names) == Name(names[0]) && Fold(names) == names[0]
    ensures !AllAre(names, names[0]) ==> FoldPattern(names).Glob?
  {
    FoldText(names);
    assert names[0] in names;
    if |names| > 1 {
      var init, last := names[..|names| - 1], names[|names| - 1];
      FoldStep(names);
      SplitLast(names);
      FoldCommon(init);
      FoldMatches(init);
      FoldText(init);
      WidenedShape(FoldPattern(init), last);
      hide Fold, FoldPattern, Widened, Combined, Clean, Matches;
      AllAreSplit(names);
    }
  }

  /** The fixed beginning of a pattern. */
  function Head(p: Pattern): string {
    match p
    case Name(s) => s
    case Glob(pre, _) => pre
  }

  lemma StartsAt(s: string, c: string, i: nat)
    requires StartsWith(s, c) && i < |c|
    ensures s[i] == c[i]
  {
    assert s[i] == s[..|c|][i];
  }

  lemma CommonPrefixLength(a: string, b: string, c: string)
    requires StartsWith(a, c) && StartsWith(b, c)
    ensures |c| <= Lcp(a, b)
  {
    var n := Lcp(a, b);
    LcpLongest(a, b);
    if n < |c| {
      StartsAt(a, c, n);
      StartsAt(b, c, n);
    }
  }

  /** A beginning that all merged names share is kept; the pattern starts with the longest one. */
  lemma {:induction false} FoldStart(names: seq<string>, c: string)
    requires |names| > 0 && AllClean(names) && forall s :: s in names ==> |s| > 0 && StartsWith(s, c)
    ensures StartsWith(Head(FoldPattern(names)), c)
  {
    assert names[0] in names;
    if |names| > 1 {
      hide Clean, Lcp, Lcs, Widened, StartsWith, Combined;
      var init, last := names[..|names| - 1], names[|names| - 1];
      FoldStep(names);
      SplitLast(names);
      assert init[0] in init;
      assert last in names;
      FoldStart(init, c);
      FoldMatches(init);
      FoldText(init);
      WidenedStart(FoldPattern(init), last, c);
    }
  }

  lemma WidenedStart(p: Pattern, add: string, c: string)
    requires CleanPattern(p) && Clean(add) && |Text(p)| > 0 && |add| > 0
    requires StartsWith(Head(p), c) && StartsWith(add, c)
    ensures StartsWith(Head(Widened(p, add)), c)
  {
    hide Clean, Lcp, Lcs;
    if p.Glob? { assert Text(p)[..|p.pre|] == p.pre; }
    assert StartsWith(Text(p), c);
    CommonPrefixLength(Text(p), add, c);
    if p != Name(add) {
      var n := Lcp(Text(p), add);
      assert add[..n][..|c|] == add[..|c|];
    }
  }

  // ---------------------------------------------------------------- the beginning and the ending all names share

  /** The longest beginning all names share. */
  function SharedStart(names: seq<string>): string
    requires |names| > 0
  {
    if |names| == 1 then names[0]
    else
      var c := SharedStart(names[..|names| - 1]);
      c[..Lcp(c, names[|names| - 1])]
  }

  /** The longest ending all names share. */
  function SharedEnd(names: seq<string>): string
    requires |names| > 0
  {
    if |names| == 1 then names[0]
    else
      var c, t := SharedEnd(names[..|names| - 1]), names[|names| - 1];
      c[|c| - Lcs(c, t, Shorter(c, t))..]
  }

  function Shorter(a: string, b: string): (m: nat)
    ensures m <= |a| && m <= |b|
  {
    if |a| < |b| then |a| else |b|
  }

  lemma CommonSuffixLength(a: string, b: string, c: string, m: nat)
    requires EndsWith(a, c) && EndsWith(b, c) && |c| <= m && m <= |a| && m <= |b|
    ensures |c| <= Lcs(a, b, m)
  {
    var n: nat := Lcs(a, b, m);
    LcsLongest(a, b, m);
    SameEndAt(a, b, c, n);
  }

  lemma SameEndAt(a: string, b: string, c: string, n: nat)
    requires EndsWith(a, c) && EndsWith(b, c)
    ensures n < |c| ==> a[|a| - 1 - n] == b[|b| - 1 - n]
  {
    if n < |c| {
      assert a[|a| - 1 - n] == a[|a| - |c|..][|c| - 1 - n];
      assert b[|b| - 1 - n] == b[|b| - |c|..][|c| - 1 - n];
    }
  }

  /** All names begin with it, and any other shared beginning is a beginning of it. */
  lemma {:induction false} SharedStartLongest(names: seq<string>, c: string)
    requires |names| > 0
    ensures forall s :: s in names ==> StartsWith(s, SharedStart(names))
    ensures (forall s :: s in names ==> StartsWith(s, c)) ==> StartsWith(SharedStart(names), c)
  {
    assert names[0] in names;
    if |names| > 1 {
      var init, t := names[..|names| - 1], names[|names| - 1];
      SharedStartLongest(init, c);
      SplitLast(names);
      assert t in names;
      hide SharedStart, StartsWith;
      SharedStartSnoc(names);
      StartStep(names, SharedStart(init), c);
    } else {
      SliceEnds(names[0], |names[0]|, 0);
      assert names[0][..|names[0]|] == names[0];
    }
  }

  lemma SharedStartSnoc(names: seq<string>)
    requires |names| > 1
    ensures var d, t := SharedStart(names[..|names| - 1]), names[|names| - 1]; SharedStart(names) == d[..Lcp(d, t)]
  {
  }

  lemma StartStep(names: seq<string>, d: string, c: string)
    requires |names| > 1
    requires forall s :: s in names <==> s in names[..|names| - 1] || s == names[|names| - 1]
    requires forall s :: s in names[..|names| - 1] ==> StartsWith(s, d)
    requires (forall s :: s in names[..|names| - 1] ==> StartsWith(s, c)) ==> StartsWith(d, c)
    ensures var e := d[..Lcp(d, names[|names| - 1])];
      && (forall s :: s in names ==> StartsWith(s, e))
      && ((forall s :: s in names ==> StartsWith(s, c)) ==> StartsWith(e, c))
  {
    var init, t := names[..|names| - 1], names[|names| - 1];
    var n := Lcp(d, t);
    LcpLongest(d, t);
    hide Lcp, StartsWith;
    SliceEnds(t, n, 0);
    forall s | s in names ensures StartsWith(s, d[..n]) {
      if s in init { PrefixOfPrefix(s, d, n); }
    }
    if forall s :: s in names ==> StartsWith(s, c) {
      CommonPrefixLength(d, t, c);
      StartOfSlice(d, n, c);
    }
  }

  lemma StartOfSlice(d: string, n: nat, c: string)
    requires StartsWith(d, c) && |c| <= n <= |d|
    ensures StartsWith(d[..n], c)
  {
    assert d[..n][..|c|] == d[..|c|];
  }

  lemma EndOfSlice(d: string, n: nat, c: string)
    requires EndsWith(d, c) && |c| <= n <= |d|
    ensures EndsWith(d[|d| - n..], c)
  {
    assert d[|d| - n..][n - |c|..] == d[|d| - |c|..];
  }

  lemma {:induction false} SharedEndLongest(names: seq<string>, c: string)
    requires |names| > 0
    ensures forall s :: s in names ==> EndsWith(s, SharedEnd(names))
    ensures (forall s :: s in names ==> EndsWith(s, c)) ==> EndsWith(SharedEnd(names), c)
  {
    assert names[0] in names;
    if |names| > 1 {
      var init, t := names[..|names| - 1], names[|names| - 1];
      SharedEndLongest(init, c);
      SplitLast(names);
      assert t in names;
      hide SharedEnd, EndsWith;
      SharedEndSnoc(names);
      EndStep(names, SharedEnd(init), c);
    } else {
      SliceEnds(names[0], 0, |names[0]|);
      assert names[0][0..] == names[0];
    }
  }

  lemma SharedEndSnoc(names: seq<string>)
    requires |names| > 1
    ensures var d, t := SharedEnd(names[..|names| - 1]), names[|names| - 1];
      SharedEnd(names) == d[|d| - Lcs(d, t, Shorter(d, t))..]
  {
  }

  lemma EndStep(names: seq<string>, d: string, c: string)
    requires |names| > 1
    requires forall s :: s in names <==> s in names[..|names| - 1] || s == names[|names| - 1]
    requires forall s :: s in names[..|names| - 1] ==> EndsWith(s, d)
    requires (forall s :: s in names[..|names| - 1] ==> EndsWith(s, c)) ==> EndsWith(d, c)
    ensures var t := names[|names| - 1];
      var e := d[|d| - Lcs(d, t, Shorter(d, t))..];
      && (forall s :: s in names ==> EndsWith(s, e))
      && ((forall s :: s in names ==> EndsWith(s, c)) ==> EndsWith(e, c))
  {
    var init, t := names[..|names| - 1], names[|names| - 1];
    var m := Shorter(d, t);
    var k := Lcs(d, t, m);
    LcsLongest(d, t, m);
    EndsShorter(d, t, c);
    hide Lcs, EndsWith, Shorter;
    SliceEnds(t, 0, k);
    var e := d[|d| - k..];
    forall s | s in names ensures EndsWith(s, e) {
      if s in init { SuffixOfSuffix(s, d, k); }
    }
    if forall s :: s in names ==> EndsWith(s, c) {
      assert t in names;
      CommonSuffixLength(d, t, c, m);
      EndOfSlice(d, k, c);
    }
  }

  lemma EndsShorter(a: string, b: string, c: string)
    ensures EndsWith(a, c) && EndsWith(b, c) ==> |c| <= Shorter(a, b)
  {
  }

  /** Which names there are decides what they share, not their order. */
  lemma SharedByAll(xs: seq<string>, ys: seq<string>)
    requires |xs| > 0 && |ys| > 0 && forall s :: s in xs <==> s in ys
    ensures SharedStart(xs) == SharedStart(ys) && SharedEnd(xs) == SharedEnd(ys)
  {
    SharedStartLongest(xs, SharedStart(ys));
    SharedStartLongest(ys, SharedStart(xs));
    SharedEndLongest(xs, SharedEnd(ys));
    SharedEndLongest(ys, SharedEnd(xs));
    Antisymmetric(SharedStart(xs), SharedStart(ys));
    AntisymmetricEnd(SharedEnd(xs), SharedEnd(ys));
  }

  lemma Antisymmetric(a: string, b: string)
    requires StartsWith(a, b) && StartsWith(b, a)
    ensures a == b
  {
    assert a[..|a|] == a && b[..|b|] == b;
  }

  lemma AntisymmetricEnd(a: string, b: string)
    requires EndsWith(a, b) && EndsWith(b, a)
    ensures a == b
  {
    assert a[0..] == a && b[0..] == b;
  }

  // ---------------------------------------------------------------- when the ending is kept

  /** The fixed ending of a pattern. */
  function Tail(p: Pattern): string {
    match p
    case Name(s) => s
    case Glob(_, suf) => suf
  }

  /** An ending of n characters fits behind the beginning of p characters in a name of length len. */
  predicate Room(n: nat, p: nat, len: nat) {
    n == 0 || n + p < len
  }

  /**
   If the names up to the i-th are not all the same, there is room for n characters behind the beginning
   shared so far in the name that is added, and at the first merge of different names also in the one that
   is there.
   */
  ghost predicate KeptAt(names: seq<string>, i: int, n: nat) {
    0 < i < |names| && !AllAre(names[..i + 1], names[0]) ==>
      && Room(n, |SharedStart(names[..i + 1])|, |names[i]|)
      && (AllAre(names[..i], names[0]) ==> Room(n, |SharedStart(names[..i + 1])|, |names[0]|))
  }

  /** Every merge leaves room for n characters. */
  ghost predicate Kept(names: seq<string>, n: nat) {
    forall i :: 0 < i < |names| ==> KeptAt(names, i, n)
  }

  /** A merged pattern begins with the longest shared beginning. */
  lemma {:induction false} HeadIsShared(names: seq<string>)
    requires |names| > 0 && AllClean(names) && forall s :: s in names ==> |s| > 0
    ensures Head(FoldPattern(names)) == SharedStart(names)
  {
    SharedStartLongest(names, "");
    FoldStart(names, SharedStart(names));
    SharedStartLongest(names, Head(FoldPattern(names)));
    FoldMatches(names);
    forall s | s in names ensures StartsWith(s, Head(FoldPattern(names))) {
      MatchStarts(FoldPattern(names), s);
    }
    Antisymmetric(Head(FoldPattern(names)), SharedStart(names));
  }

  lemma MatchStarts(p: Pattern, s: string)
    requires Matches(p, s)
    ensures StartsWith(s, Head(p)) && EndsWith(s, Tail(p))
  {
    SliceEnds(s, |s|, |s|);
    assert s[..|s|] == s && s[0..] == s;
  }

  /** A shared ending survives a merge that has room for it. */
  lemma EndKeptStep(p: Pattern, add: string, c: string)
    requires CleanPattern(p) && Clean(add) && |Text(p)| > 0 && |add| > 0 && p != Name(add)
    requires EndsWith(Tail(p), c) && EndsWith(add, c)
    requires Room(|c|, |Head(Widened(p, add))|, |add|)
    requires p.Name? ==> Room(|c|, |Head(Widened(p, add))|, |p.s|)
    ensures EndsWith(Tail(Widened(p, add)), c)
  {
    hide Clean, Lcp, Lcs, EndsWith;
    var g := Text(p);
    var n := Lcp(g, add);
    var m := SuffixRoom(g, add, n);
    var k := Lcs(g, add, m);
    if |c| > 0 {
      EndsLonger(Tail(p), c);
      if p.Glob? {
        GlobScans(p.pre, p.suf, add);
        TextEnds(p.pre, p.suf, c);
      }
      CommonSuffixLength(g, add, c, m);
    }
    EndOfSlice(add, k, c);
  }

  lemma EndsLonger(s: string, c: string)
    requires EndsWith(s, c)
    ensures |c| <= |s|
  {
  }

  lemma TextEnds(pre: string, suf: string, c: string)
    requires EndsWith(suf, c)
    ensures EndsWith(Text(Glob(pre, suf)), c)
  {
    var g := pre + "*" + suf;
    assert g[|g| - |suf|..] == suf;
    assert g[|g| - |c|..] == suf[|suf| - |c|..];
  }

  /** A merge leaves only as much of the ending as there is room for. */
  lemma EndBoundStep(p: Pattern, add: string)
    requires CleanPattern(p) && Clean(add) && |Text(p)| > 0 && |add| > 0 && p != Name(add)
    ensures var q := Widened(p, add);
      && q.Glob? && Room(|q.suf|, |q.pre|, |add|) && (p.Name? ==> Room(|q.suf|, |q.pre|, |p.s|))
      && |q.suf| <= |Tail(p)|
  {
    hide Clean, Lcp, Lcs;
    if p.Glob? { GlobScans(p.pre, p.suf, add); }
  }

  lemma KeptAtInit(names: seq<string>, i: int, n: nat)
    requires |names| > 1 && i < |names| - 1
    ensures KeptAt(names, i, n) <==> KeptAt(names[..|names| - 1], i, n)
  {
    if 0 < i {
      var init := names[..|names| - 1];
      assert names[..i + 1] == init[..i + 1] && names[..i] == init[..i];
    }
  }

  /** What the last merge needs on top of the earlier ones. */
  ghost predicate KeptLast(names: seq<string>, n: nat)
    requires |names| > 1
  {
    !AllAre(names, names[0]) ==>
      && Room(n, |SharedStart(names)|, |names[|names| - 1]|)
      && (AllAre(names[..|names| - 1], names[0]) ==> Room(n, |SharedStart(names)|, |names[0]|))
  }

  lemma KeptAtLast(names: seq<string>, n: nat)
    requires |names| > 1
    ensures KeptAt(names, |names| - 1, n) <==> KeptLast(names, n)
  {
    hide SharedStart, AllAre, Room;
    assert names[..|names| - 1 + 1] == names;
  }

  lemma KeptSnoc(names: seq<string>, n: nat)
    requires |names| > 1
    ensures Kept(names, n) <==> Kept(names[..|names| - 1], n) && KeptLast(names, n)
  {
    hide KeptAt, KeptLast;
    KeptAtLast(names, n);
    var init := names[..|names| - 1];
    forall i: int | i < |init| ensures KeptAt(names, i, n) <==> KeptAt(init, i, n) {
      KeptAtInit(names, i, n);
    }
    if Kept(init, n) && KeptLast(names, n) {
      forall i | 0 < i < |names| ensures KeptAt(names, i, n) {
        assert i < |init| ==> KeptAt(init, i, n);
      }
    }
  }

  ghost predicate Names(names: seq<string>) {
    |names| > 0 && AllClean(names) && forall s :: s in names ==> |s| > 0
  }

  /** A shared ending survives all merges if each has room for it. */
  lemma {:induction false} EndKept(names: seq<string>, c: string)
    requires Names(names) && (forall s :: s in names ==> EndsWith(s, c)) && Kept(names, |c|)
    ensures EndsWith(Tail(FoldPattern(names)), c)
  {
    assert names[0] in names;
    if |names| > 1 {
      var init, last := names[..|names| - 1], names[|names| - 1];
      FoldStep(names);
      SplitLast(names);
      KeptSnoc(names, |c|);
      EndKept(init, c);
      FoldText(init);
      FoldMatches(init);
      FoldCommon(init);
      FoldCommon(names);
      HeadIsShared(names);
      assert init[0] in init && last in names;
      WidenedShape(FoldPattern(init), last);
      hide Fold, FoldPattern, Widened, Combined, Clean, Matches, EndsWith, SharedStart, Kept, Lcp, Lcs;
      if FoldPattern(init) != Name(last) { EndKeptStep(FoldPattern(init), last, c); }
    }
  }

  /** What is left of an ending had room at every merge. */
  lemma {:induction false} EndHadRoom(names: seq<string>, n: nat)
    requires Names(names) && FoldPattern(names).Glob? && n <= |Tail(FoldPattern(names))|
    ensures Kept(names, n)
  {
    assert names[0] in names;
    if |names| > 1 {
      var init, last := names[..|names| - 1], names[|names| - 1];
      FoldStep(names);
      SplitLast(names);
      FoldText(init);
      FoldMatches(init);
      FoldCommon(init);
      FoldCommon(names);
      HeadIsShared(names);
      KeptSnoc(names, n);
      assert init[0] in init && last in names;
      var p := FoldPattern(init);
      WidenedShape(p, last);
      if p.Name? { KeptAlone(init, n); }
      hide Fold, FoldPattern, Widened, Combined, Clean, Matches, SharedStart, Kept, Lcp, Lcs;
      if p == Name(last) {
        assert false;
      } else {
        EndBoundStep(p, last);
        if p.Glob? { EndHadRoom(init, n); }
      }
    }
  }

  /** Equal names need no room. */
  lemma KeptAlone(names: seq<string>, n: nat)
    requires |names| > 0 && AllAre(names, names[0])
    ensures Kept(names, n)
  {
    forall i | 0 < i < |names| ensures KeptAt(names, i, n) {
      AllArePrefix(names, i + 1);
    }
  }

  lemma AllArePrefix(names: seq<string>, i: nat)
    requires i <= |names| && |names| > 0 && AllAre(names, names[0])
    ensures AllAre(names[..i], names[0])
  {
    forall s | s in names[..i] ensures s == names[0] { assert s in names; }
  }

  /**
   Names that are not all the same merge to the longest beginning they share, a star, and as much of the
   longest ending they share as there was room for at every merge.
   */
  lemma FoldExact(names: seq<string>, n: nat)
    requires Names(names) && !AllAre(names, names[0])
    ensures var p := FoldPattern(names);
      && p.Glob? && Fold(names) == SharedStart(names) + "*" + p.suf && p.pre == SharedStart(names)
      && EndsWith(SharedEnd(names), p.suf)
      && (n <= |p.suf| <==> n <= |SharedEnd(names)| && Kept(names, n))
  {
    FoldCommon(names);
    FoldText(names);
    HeadIsShared(names);
    hide Fold, SharedStart, SharedEnd, Kept, AllAre;
    EndingOfFold(names, n);
  }

  lemma EndingOfFold(names: seq<string>, n: nat)
    requires Names(names) && FoldPattern(names).Glob?
    ensures EndsWith(SharedEnd(names), Tail(FoldPattern(names)))
    ensures n <= |Tail(FoldPattern(names))| <==> n <= |SharedEnd(names)| && Kept(names, n)
  {
    FoldMatches(names);
    var p, e := FoldPattern(names), SharedEnd(names);
    hide Fold, FoldPattern, SharedStart, SharedEnd, Kept, Matches, Clean, EndsWith;
    forall s | s in names ensures EndsWith(s, Tail(p)) { MatchStarts(p, s); }
    SharedEndLongest(names, Tail(p));
    EndsLonger(e, Tail(p));
    if n <= |Tail(p)| {
      EndHadRoom(names, n);
    } else if n <= |e| && Kept(names, n) {
      PartKept(names, n);
    }
  }

  lemma PartKept(names: seq<string>, n: nat)
    requires Names(names) && n <= |SharedEnd(names)| && Kept(names, n)
    ensures n <= |Tail(FoldPattern(names))|
  {
    hide FoldPattern, SharedEnd, Kept, Clean, EndsWith;
    var e := SharedEnd(names);
    SharedEndLongest(names, "");
    var c := e[|e| - n..];
    forall s | s in names ensures EndsWith(s, c) { SuffixOfSuffix(s, e, n); }
    EndKept(names, c);
    EndsLonger(Tail(FoldPattern(names)), c);
  }

  /** The whole of the longest shared ending is kept if and only if it had room at every merge. */
  lemma EndingIsShared(names: seq<string>)
    requires Names(names) && !AllAre(names, names[0])
    ensures Fold(names) == SharedStart(names) + "*" + SharedEnd(names) <==> Kept(names, |SharedEnd(names)|)
  {
    var p, e := FoldPattern(names), SharedEnd(names);
    FoldExact(names, |e|);
    if |e| <= |p.suf| { AntisymmetricEnd(e, p.suf); }
    SameText(SharedStart(names), p.suf, e);
  }

  lemma SameText(a: string, b: string, c: string)
    ensures a + "*" + b == a + "*" + c <==> b == c
  {
    if a + "*" + b == a + "*" + c {
      assert b == (a + "*" + b)[|a| + 1..] && c == (a + "*" + c)[|a| + 1..];
    }
  }

  ghost predicate SameNames(xs: seq<string>, ys: seq<string>) {
    forall s :: s in xs <==> s in ys
  }

  /** An ending of n characters is kept in both orders or in neither. */
  ghost predicate KeptAlike(xs: seq<string>, ys: seq<string>, n: nat) {
    Kept(xs, n) <==> Kept(ys, n)
  }

  /**
   Two orders of the same names give the same merged name if and only if they leave room for the same
   endings.
   */
  lemma OrderMattersIff(xs: seq<string>, ys: seq<string>)
    requires Names(xs) && Names(ys) && SameNames(xs, ys)
    ensures Fold(xs) == Fold(ys) <==> forall n: nat :: n <= |SharedEnd(xs)| ==> KeptAlike(xs, ys, n)
  {
    SharedByAll(xs, ys);
    assert xs[0] in xs && ys[0] in ys;
    if AllAre(xs, xs[0]) {
      assert AllAre(ys, ys[0]);
      forall n: nat ensures KeptAlike(xs, ys, n) { KeptAlone(xs, n); KeptAlone(ys, n); }
      FoldCommon(xs);
      FoldCommon(ys);
    } else {
      assert !AllAre(ys, ys[0]);
      OrderOfDifferent(xs, ys);
    }
  }

  lemma OrderOfDifferent(xs: seq<string>, ys: seq<string>)
    requires Names(xs) && Names(ys) && SharedStart(xs) == SharedStart(ys) && SharedEnd(xs) == SharedEnd(ys)
    requires !AllAre(xs, xs[0]) && !AllAre(ys, ys[0])
    ensures Fold(xs) == Fold(ys) <==> forall n: nat :: n <= |SharedEnd(xs)| ==> KeptAlike(xs, ys, n)
  {
    hide Fold, SharedStart, SharedEnd, AllAre, Kept, EndsWith;
    FoldExact(xs, 0);
    FoldExact(ys, 0);
    var a, b, e := FoldPattern(xs).suf, FoldPattern(ys).suf, SharedEnd(xs);
    SameText(SharedStart(xs), a, b);
    SameEndings(e, a, b);
    forall n: nat | n <= |e| ensures KeptAlike(xs, ys, n) <==> BothFit(a, b, n) {
      FoldExact(xs, n);
      FoldExact(ys, n);
    }
  }

  predicate BothFit(a: string, b: string, n: nat) {
    n <= |a| <==> n <= |b|
  }

  lemma SameEndings(e: string, a: string, b: string)
    requires EndsWith(e, a) && EndsWith(e, b)
    ensures a == b <==> forall n: nat :: n <= |e| ==> BothFit(a, b, n)
  {
    if forall n: nat :: n <= |e| ==> BothFit(a, b, n) {
      assert BothFit(a, b, |a|) && BothFit(a, b, |b|);
    }
  }

  /** Any two different names leave room for the ending behind what they share at the beginning. */
  ghost predicate PairsHaveRoom(names: seq<string>, n: nat) {
    forall s, t :: s in names && t in names && s != t ==> Room(n, Lcp(s, t), |s|)
  }

  /** With such names every order keeps the ending; without, some order loses it. */
  lemma EveryOrderKeeps(xs: seq<string>)
    requires Names(xs)
    ensures PairsHaveRoom(xs, |SharedEnd(xs)|) <==>
      forall ys :: Names(ys) && SameNames(xs, ys) ==> Kept(ys, |SharedEnd(ys)|)
  {
    hide Kept, SharedEnd, Clean;
    var n := |SharedEnd(xs)|;
    if PairsHaveRoom(xs, n) {
      forall ys | Names(ys) && SameNames(xs, ys) ensures Kept(ys, |SharedEnd(ys)|) {
        SharedByAll(xs, ys);
        PairsKeep(ys, n);
      }
    } else {
      var s, t :| s in xs && t in xs && s != t && !Room(n, Lcp(s, t), |s|);
      var ys := [t, s] + xs;
      assert Names(ys) && SameNames(xs, ys);
      SharedByAll(xs, ys);
      TightPair(ys, s, t, n);
    }
  }

  /** Such names merge to the same name in every order. */
  lemma OrderIrrelevant(xs: seq<string>, ys: seq<string>)
    requires Names(xs) && Names(ys) && SameNames(xs, ys) && PairsHaveRoom(xs, |SharedEnd(xs)|)
    ensures Fold(xs) == Fold(ys)
    ensures AllAre(xs, xs[0]) || Fold(ys) == SharedStart(xs) + "*" + SharedEnd(xs)
  {
    hide Kept, SharedStart, SharedEnd, Fold, PairsHaveRoom, Clean;
    EveryOrderKeeps(xs);
    SharedByAll(xs, ys);
    assert xs[0] in xs && ys[0] in ys;
    if AllAre(xs, xs[0]) {
      FoldCommon(xs);
      FoldCommon(ys);
    } else {
      EndingIsShared(xs);
      EndingIsShared(ys);
    }
  }

  lemma PairsKeep(names: seq<string>, n: nat)
    requires Names(names) && PairsHaveRoom(names, n)
    ensures Kept(names, n)
  {
    forall i | 0 < i < |names| ensures KeptAt(names, i, n) {
      PairsKeepAt(names, i, n);
    }
  }

  lemma PairsKeepAt(names: seq<string>, i: nat, n: nat)
    requires Names(names) && PairsHaveRoom(names, n) && 0 < i < |names|
    ensures KeptAt(names, i, n)
  {
    hide SharedStart, Clean, Lcp, StartsWith, AllAre;
    var some, t := names[..i + 1], names[i];
    if !AllAre(some, names[0]) {
      SharedStartLongest(some, "");
      assert some[0] in some && some[i] in some;
      var u := OtherName(some, names[0]);
      var s := if t == names[0] then u else names[0];
      CommonPrefixLength(t, s, SharedStart(some));
      CommonPrefixLength(s, t, SharedStart(some));
      assert Room(n, Lcp(t, s), |t|) && Room(n, Lcp(s, t), |s|);
      NewName(names, i);
    }
  }

  lemma OtherName(names: seq<string>, x: string) returns (u: string)
    requires !AllAre(names, x)
    ensures u in names && u != x
  {
    u :| u in names && u != x;
  }

  lemma NewName(names: seq<string>, i: nat)
    requires i < |names| && !AllAre(names[..i + 1], names[0])
    ensures AllAre(names[..i], names[0]) ==> names[i] != names[0]
  {
    assert names[..i + 1] == names[..i] + [names[i]];
  }

  lemma TightPair(names: seq<string>, s: string, t: string, n: nat)
    requires |names| >= 2 && names[0] == t && names[1] == s && s != t && !Room(n, Lcp(s, t), |s|)
    ensures !Kept(names, n)
  {
    var two := names[..2];
    assert two == [t, s] && two[..1] == [t];
    assert s in two;
    LcpLongest(s, t);
    LcpLongest(t, s);
    LcpIs(t, s, Lcp(s, t));
    assert SharedStart(two) == t[..Lcp(t, s)];
    assert !KeptAt(names, 1, n);
  }

  /** Three names in two orders: one keeps the ending, the other does not. */
  lemma OrderMatters()
    ensures Fold(["aab", "aaab", "cab"]) == "*"
    ensures Fold(["aaab", "cab", "aab"]) == "*ab"
  {
    hide *;
    EndingLost();
    EndingKept();
  }

  lemma EndingLost()
    ensures Fold(["aab", "aaab", "cab"]) == "*"
  {
    var x, y, z := "aab", "aaab", "cab";
    LcpIs(x, y, 2);
    assert Combined(x, y) == "aa*";
    LcpIs("aa*", z, 0);
    LcsIs("aa*", z, 2, 0);
    assert Combined("aa*", z) == "*";
    hide Combined, Lcp, Lcs;
    FoldThree(x, y, z);
  }

  lemma EndingKept()
    ensures Fold(["aaab", "cab", "aab"]) == "*ab"
  {
    var x, y, z := "aaab", "cab", "aab";
    LcpIs(x, y, 0);
    LcsIs(x, y, 2, 2);
    assert Combined(x, y) == "*ab";
    LcpIs("*ab", z, 0);
    LcsIs("*ab", z, 2, 2);
    assert Combined("*ab", z) == "*ab";
    hide Combined, Lcp, Lcs;
    FoldThree(x, y, z);
  }

  lemma FoldThree(x: string, y: string, z: string)
    ensures Fold([x, y, z]) == Combined(Combined(x, y), z)
  {
    hide Combined;
    assert [x, y, z][..2] == [x, y] && [x, y][..1] == [x];
    assert Fold([x]) == x;
    assert Fold([x, y]) == Combined(x, y);
  }
}
