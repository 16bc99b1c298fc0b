/**
 The byte format of Verilator's save files: integers, strings and associative arrays,
 nested in each other.
 */
module Serialize {
  import opened Bits
  import opened Lexicographic

  /** A value to save; an associative array lists its entries in the order of its keys. */
  datatype Val =
    | Num(width: nat, value: nat)
    | Str(chars: seq<byte>)
    | Assoc(dflt: Val, entries: seq<Pair>)

  datatype Pair = Pair(key: Val, value: Val)

  /** The declared type of a value. */
  datatype Shape = NumShape(width: nat) | StrShape | AssocShape(key: Shape, value: Shape)

  // ---------------------------------------------------------------- integers

  function Pow256(w: nat): (p: nat)
    ensures p > 0
  {
    if w == 0 then 1 else 256 * Pow256(w - 1)
  }

  /** The bytes of an integer in memory, lowest first. */
  function ToBytes(x: nat, w: nat): (bs: seq<byte>)
    ensures |bs| == w
  {
    if w == 0 then [] else [x % 256] + ToBytes(x / 256, w - 1)
  }

  function FromBytes(bs: seq<byte>): nat {
    if |bs| == 0 then 0 else bs[0] as nat + 256 * FromBytes(bs[1..])
  }

  lemma {:induction false} BytesRoundTrip(x: nat, w: nat)
    requires x < Pow256(w)
    ensures FromBytes(ToBytes(x, w)) == x
  {
    if w > 0 {
      BytesRoundTrip(x / 256, w - 1);
      assert ToBytes(x, w)[1..] == ToBytes(x / 256, w - 1);
    }
  }

  /** Byte k has the weight 256^k. */
  lemma {:induction false} ByteAt(x: nat, w: nat, k: nat)
    requires k < w
    ensures ToBytes(x, w)[k] == x / Pow256(k) % 256
  {
    if k > 0 {
      ByteAt(x / 256, w - 1, k - 1);
      DivDiv(x, 256, Pow256(k - 1));
    } else {
      assert x / 1 == x;
    }
  }

  lemma Pow256At4()
    ensures Pow256(4) == TWO32
  {
  }

  // ---------------------------------------------------------------- the order of keys

  const ByteLess := (x: byte, y: byte) => x < y

  predicate KeyLess(a: Val, b: Val) {
    || (a.Num? && b.Num? && a.value < b.value)
    || (a.Str? && b.Str? && Less(a.chars, b.chars, ByteLess))
  }

  lemma KeyLessAsymmetric(a: Val, b: Val)
    requires KeyLess(a, b)
    ensures !KeyLess(b, a) && a != b
  {
    if a.Str? { Total(a.chars, b.chars, ByteLess); }
  }

  predicate Ascending(es: seq<Pair>) {
    forall i, j :: 0 <= i < j < |es| ==> KeyLess(es[i].key, es[j].key)
  }

  /** `VlAssocArray::at(index) = value`. */
  function Put(es: seq<Pair>, k: Val, v: Val): seq<Pair> {
    if |es| == 0 then [Pair(k, v)]
    else if es[0].key == k then [Pair(k, v)] + es[1..]
    else if KeyLess(k, es[0].key) then [Pair(k, v)] + es
    else [es[0]] + Put(es[1..], k, v)
  }

  lemma {:induction false} PutLast(es: seq<Pair>, k: Val, v: Val)
    requires forall i :: 0 <= i < |es| ==> KeyLess(es[i].key, k)
    ensures Put(es, k, v) == es + [Pair(k, v)]
  {
    if |es| > 0 {
      KeyLessAsymmetric(es[0].key, k);
      PutLast(es[1..], k, v);
    }
  }

  /** The value of a key, if the array has it. */
  function Lookup(es: seq<Pair>, k: Val): seq<Val> {
    if |es| == 0 then [] else (if es[0].key == k then [es[0].value] else []) + Lookup(es[1..], k)
  }

  lemma {:induction false} NotBefore(es: seq<Pair>, k: Val)
    requires forall i :: 0 <= i < |es| ==> es[i].key != k
    ensures Lookup(es, k) == []
  {
    if |es| > 0 { NotBefore(es[1..], k); }
  }

  lemma KeyLessTransitive(a: Val, b: Val, c: Val)
    requires KeyLess(a, b) && KeyLess(b, c)
    ensures KeyLess(a, c)
  {
    if a.Str? { Transitive(a.chars, b.chars, c.chars, ByteLess); }
  }

  /** Setting an entry keeps the order and changes the value of its key only, whether the key was there or not. */
  lemma {:induction false} PutSets(es: seq<Pair>, k: Val, v: Val)
    requires Ascending(es)
    requires forall i :: 0 <= i < |es| ==> es[i].key == k || KeyLess(k, es[i].key) || KeyLess(es[i].key, k)
    ensures Ascending(Put(es, k, v))
    ensures forall i :: 0 <= i < |Put(es, k, v)| ==>
      Put(es, k, v)[i].key == k || exists j :: 0 <= j < |es| && es[j].key == Put(es, k, v)[i].key
    ensures Lookup(Put(es, k, v), k) == [v]
    ensures forall x :: x != k ==> Lookup(Put(es, k, v), x) == Lookup(es, x)
  {
    hide KeyLess;
    if |es| == 0 {
    } else if es[0].key == k {
      PutAtHead(es, k, v);
    } else if KeyLess(k, es[0].key) {
      PutInFront(es, k, v);
    } else {
      var rest := Put(es[1..], k, v);
      PutSets(es[1..], k, v);
      PutBehind(es, rest, k);
    }
  }

  lemma PutAtHead(es: seq<Pair>, k: Val, v: Val)
    requires Ascending(es) && |es| > 0 && es[0].key == k
    ensures var rs := [Pair(k, v)] + es[1..];
      && Ascending(rs) && (forall i :: 0 <= i < |rs| ==> rs[i].key == es[i].key)
      && Lookup(rs, k) == [v] && forall x :: x != k ==> Lookup(rs, x) == Lookup(es, x)
  {
    var rs := [Pair(k, v)] + es[1..];
    assert rs[1..] == es[1..];
    forall i | 0 <= i < |es[1..]| ensures es[1..][i].key != k { KeyLessAsymmetric(es[0].key, es[i + 1].key); }
    hide KeyLess;
    NotBefore(es[1..], k);
    assert forall i :: 0 <= i < |rs| ==> rs[i].key == es[i].key;
  }

  lemma PutInFront(es: seq<Pair>, k: Val, v: Val)
    requires Ascending(es) && |es| > 0 && KeyLess(k, es[0].key)
    ensures var rs := [Pair(k, v)] + es;
      && Ascending(rs) && (forall i :: 0 < i < |rs| ==> rs[i].key == es[i - 1].key)
      && Lookup(rs, k) == [v] && forall x :: x != k ==> Lookup(rs, x) == Lookup(es, x)
  {
    var rs := [Pair(k, v)] + es;
    assert rs[1..] == es;
    forall i | 0 <= i < |es| ensures KeyLess(k, es[i].key) && es[i].key != k {
      if i > 0 { KeyLessTransitive(k, es[0].key, es[i].key); }
      KeyLessAsymmetric(k, es[i].key);
    }
    hide KeyLess;
    NotBefore(es, k);
  }

  lemma PutBehind(es: seq<Pair>, rest: seq<Pair>, k: Val)
    requires Ascending(es) && |es| > 0 && Ascending(rest) && KeyLess(es[0].key, k) && es[0].key != k
    requires forall i :: 0 <= i < |rest| ==>
      rest[i].key == k || exists j :: 0 <= j < |es[1..]| && es[1..][j].key == rest[i].key
    ensures var rs := [es[0]] + rest;
      && Ascending(rs)
      && (forall i :: 0 <= i < |rs| ==> rs[i].key == k || exists j :: 0 <= j < |es| && es[j].key == rs[i].key)
      && Lookup(rs, k) == Lookup(rest, k)
      && forall x :: Lookup(rs, x) == (if es[0].key == x then [es[0].value] else []) + Lookup(rest, x)
  {
    hide KeyLess;
    var rs := [es[0]] + rest;
    assert rs[1..] == rest;
    forall i | 0 <= i < |rest|
      ensures KeyLess(es[0].key, rest[i].key)
      ensures rest[i].key == k || exists j :: 0 <= j < |es| && es[j].key == rest[i].key
    {
      if rest[i].key != k {
        var j :| 0 <= j < |es[1..]| && es[1..][j].key == rest[i].key;
        assert es[j + 1].key == rest[i].key;
      }
    }
  }

  // ---------------------------------------------------------------- writing

  /** What the `operator<<` of a value writes; lengths are cut to 32 bits. */
  function Encode(v: Val): seq<byte>
    decreases v, if v.Assoc? then |v.entries| + 1 else 0
  {
    match v
    case Num(w, x) => ToBytes(x, w)
    case Str(cs) => ToBytes(|cs| % TWO32, 4) + cs[..|cs| % TWO32]
    case Assoc(d, es) => Encode(d) + ToBytes(|es| % TWO32, 4) + EncodeEntries(v, |es|)
  }

  /** The first n entries, each as its key and its value. */
  function EncodeEntries(v: Val, n: nat): seq<byte>
    requires v.Assoc? && n <= |v.entries|
    decreases v, n
  {
    if n == 0 then [] else
      EncodeEntries(v, n - 1) + Encode(v.entries[n - 1].key) + Encode(v.entries[n - 1].value)
  }

  // ---------------------------------------------------------------- reading

  /** A file is followed by zeros. */
  function At(data: seq<byte>, p: nat): byte {
    if p < |data| then data[p] else 0
  }

  function Bytes(data: seq<byte>, p: nat, n: nat): (bs: seq<byte>)
    ensures |bs| == n
  {
    seq<byte>(n, i requires 0 <= i < n => At(data, p + i))
  }

  /** What the `operator>>` of a shape reads at p, and the position after it. */
  function Decode(s: Shape, data: seq<byte>, p: nat): (Val, nat)
    decreases s, 1, 0
  {
    match s
    case NumShape(w) => (Num(w, FromBytes(Bytes(data, p, w))), p + w)
    case StrShape =>
      var n := FromBytes(Bytes(data, p, 4));
      (Str(Bytes(data, p + 4, n)), p + 4 + n)
    case AssocShape(_, vs) =>
      var (d, q) := Decode(vs, data, p);
      var (es, r) := DecodeEntries(s, data, q + 4, FromBytes(Bytes(data, q, 4)));
      (Assoc(d, es), r)
  }

  function DecodeEntries(s: Shape, data: seq<byte>, p: nat, n: nat): (seq<Pair>, nat)
    requires s.AssocShape?
    decreases s, 0, n
  {
    if n == 0 then ([], p) else
      var (es, q) := DecodeEntries(s, data, p, n - 1);
      var (k, q2) := Decode(s.key, data, q);
      var (v, q3) := Decode(s.value, data, q2);
      (Put(es, k, v), q3)
  }

  // ---------------------------------------------------------------- the round trip

  /** v has shape s and every length in it fits 32 bits. */
  ghost predicate Storable(v: Val, s: Shape)
    decreases s
  {
    match s
    case NumShape(w) => v.Num? && v.width == w && v.value < Pow256(w)
    case StrShape => v.Str? && |v.chars| < TWO32
    case AssocShape(ks, vs) =>
      && v.Assoc? && |v.entries| < TWO32 && Ascending(v.entries)
      && Storable(v.dflt, vs)
      && forall i :: 0 <= i < |v.entries| ==> Storable(v.entries[i].key, ks) && Storable(v.entries[i].value, vs)
  }

  /** The file holds bs at position p. */
  ghost predicate Holds(data: seq<byte>, p: nat, bs: seq<byte>) {
    p + |bs| <= |data| && data[p..p + |bs|] == bs
  }

  lemma HoldsParts(data: seq<byte>, p: nat, a: seq<byte>, b: seq<byte>)
    requires Holds(data, p, a + b)
    ensures Holds(data, p, a) && Holds(data, p + |a|, b)
  {
    var d := data[p..p + |a + b|];
    assert a == d[..|a|] && b == d[|a|..];
    assert data[p..p + |a|] == d[..|a|];
    assert data[p + |a|..p + |a| + |b|] == d[|a|..];
  }

  lemma HoldsBytes(data: seq<byte>, p: nat, bs: seq<byte>)
    requires Holds(data, p, bs)
    ensures Bytes(data, p, |bs|) == bs
  {
    forall i | 0 <= i < |bs| ensures Bytes(data, p, |bs|)[i] == bs[i] {
      assert Bytes(data, p, |bs|)[i] == At(data, p + i);
      assert data[p..p + |bs|][i] == data[p + i];
    }
  }

  lemma HoldsNumber(data: seq<byte>, p: nat, x: nat, w: nat)
    requires x < Pow256(w) && Holds(data, p, ToBytes(x, w))
    ensures FromBytes(Bytes(data, p, w)) == x
  {
    HoldsBytes(data, p, ToBytes(x, w));
    BytesRoundTrip(x, w);
  }

  /**
   Reading a value back, wherever it was written and whatever follows it, gives the value and the
   position after it.
   */
  lemma {:induction false} RoundTrip(v: Val, s: Shape, data: seq<byte>, p: nat)
    requires Storable(v, s) && Holds(data, p, Encode(v))
    ensures Decode(s, data, p) == (v, p + |Encode(v)|)
    decreases v, if v.Assoc? then |v.entries| + 1 else 0
  {
    hide Pow256, ToBytes, FromBytes, Put, Bytes, Encode, EncodeEntries, Decode, DecodeEntries;
    match s
    case NumShape(w) =>
      NumBack(v, w, data, p);
    case StrShape =>
      StringBack(v.chars, data, p);
    case AssocShape(ks, vs) =>
      Pow256At4();
      AssocEncoding(v);
      var n := |v.entries|;
      var a, b, c := Encode(v.dflt), ToBytes(n, 4), EncodeEntries(v, n);
      HoldsParts(data, p, a + b, c);
      HoldsParts(data, p, a, b);
      RoundTrip(v.dflt, vs, data, p);
      HoldsNumber(data, p + |a|, n, 4);
      EntriesRoundTrip(v, s, data, p + |a| + 4, n);
      assert v.entries[..n] == v.entries;
      AssocBack(v, s, data, p);
  }

  lemma {:induction false} AssocEncoding(v: Val)
    requires v.Assoc? && |v.entries| < TWO32
    ensures Encode(v) == Encode(v.dflt) + ToBytes(|v.entries|, 4) + EncodeEntries(v, |v.entries|)
  {
    hide ToBytes, EncodeEntries;
    assert |v.entries| % TWO32 == |v.entries|;
  }

  lemma {:induction false} NumBack(v: Val, w: nat, data: seq<byte>, p: nat)
    requires v.Num? && v.width == w && v.value < Pow256(w) && Holds(data, p, Encode(v))
    ensures Decode(NumShape(w), data, p) == (v, p + |Encode(v)|)
  {
    hide Pow256, ToBytes, FromBytes, Bytes;
    HoldsNumber(data, p, v.value, w);
  }

  /** An associative array from its default and its entries. */
  lemma {:induction false} AssocBack(v: Val, s: Shape, data: seq<byte>, p: nat)
    requires v.Assoc? && s.AssocShape?
    requires Decode(s.value, data, p) == (v.dflt, p + |Encode(v.dflt)|)
    requires var q := p + |Encode(v.dflt)|;
      && FromBytes(Bytes(data, q, 4)) == |v.entries|
      && DecodeEntries(s, data, q + 4, |v.entries|) == (v.entries, q + 4 + |EncodeEntries(v, |v.entries|)|)
    ensures Decode(s, data, p) == (v, p + |Encode(v)|)
  {
    hide Pow256, ToBytes, FromBytes, Bytes, EncodeEntries, DecodeEntries;
  }

  lemma {:induction false} StringBack(cs: seq<byte>, data: seq<byte>, p: nat)
    requires |cs| < TWO32 && Holds(data, p, Encode(Str(cs)))
    ensures Decode(StrShape, data, p) == (Str(cs), p + |Encode(Str(cs))|)
  {
    hide Pow256, ToBytes, FromBytes, Put, Bytes;
    Pow256At4();
    HoldsParts(data, p, ToBytes(|cs|, 4), cs);
    assert cs[..|cs| % TWO32] == cs;
    HoldsNumber(data, p, |cs|, 4);
    HoldsBytes(data, p + 4, cs);
  }

  lemma {:induction false} EntriesRoundTrip(v: Val, s: Shape, data: seq<byte>, p: nat, n: nat)
    requires s.AssocShape? && Storable(v, s) && n <= |v.entries| && Holds(data, p, EncodeEntries(v, n))
    ensures DecodeEntries(s, data, p, n) == (v.entries[..n], p + |EncodeEntries(v, n)|)
    decreases v, n
  {
    hide Pow256, ToBytes, FromBytes, Put, Bytes, Encode, Decode;
    if n > 0 {
      var e := v.entries[n - 1];
      var a, b, c := EncodeEntries(v, n - 1), Encode(e.key), Encode(e.value);
      HoldsParts(data, p, a + b, c);
      HoldsParts(data, p, a, b);
      EntriesRoundTrip(v, s, data, p, n - 1);
      RoundTrip(e.key, s.key, data, p + |a|);
      RoundTrip(e.value, s.value, data, p + |a| + |b|);
      PutLast(v.entries[..n - 1], e.key, e.value);
      assert v.entries[..n] == v.entries[..n - 1] + [e];
    }
  }

  /** A string comes back exactly when its length fits the 32 bits it is stored in. */
  lemma StringRoundTrip(cs: seq<byte>)
    ensures Decode(StrShape, Encode(Str(cs)), 0).0 == Str(cs) <==> |cs| < TWO32
  {
    var bs := Encode(Str(cs));
    var n := |cs| % TWO32;
    assert bs[..4] == ToBytes(n, 4);
    Pow256At4();
    HoldsNumber(bs, 0, n, 4);
    if |cs| < TWO32 {
      assert bs[0..|bs|] == bs;
      RoundTrip(Str(cs), StrShape, bs, 0);
    }
  }

  /** Different values of one shape never have the same encoding. */
  lemma EncodeInjective(v: Val, w: Val, s: Shape)
    requires Storable(v, s) && Storable(w, s) && Encode(v) == Encode(w)
    ensures v == w
  {
    var bs := Encode(v);
    assert bs[0..|bs|] == bs;
    RoundTrip(v, s, bs, 0);
    RoundTrip(w, s, bs, 0);
  }
}
