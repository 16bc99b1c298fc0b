/** Comparing sequences element by element, as `std::string` and the maps keyed by it do. */
module Lexicographic {

  predicate Less<T(==)>(a: seq<T>, b: seq<T>, lt: (T, T) -> bool) {
    |b| > 0 && (|a| == 0 || lt(a[0], b[0]) || (a[0] == b[0] && Less(a[1..], b[1..], lt)))
  }

  ghost predicate TotalOrder<T(!new)>(lt: (T, T) -> bool) {
    && (forall x, y :: lt(x, y) || lt(y, x) || x == y)
    && (forall x, y :: !(lt(x, y) && (lt(y, x) || x == y)))
    && (forall x, y, z :: lt(x, y) && lt(y, z) ==> lt(x, z))
  }

  lemma {:induction false} Total<T(!new)>(a: seq<T>, b: seq<T>, lt: (T, T) -> bool)
    requires TotalOrder(lt)
    ensures Less(a, b, lt) || Less(b, a, lt) || a == b
    ensures !(Less(a, b, lt) && (Less(b, a, lt) || a == b))
  {
    if |a| > 0 && |b| > 0 && a[0] == b[0] {
      Total(a[1..], b[1..], lt);
      assert a == [a[0]] + a[1..] && b == [b[0]] + b[1..];
    }
  }

  lemma {:induction false} Transitive<T(!new)>(a: seq<T>, b: seq<T>, c: seq<T>, lt: (T, T) -> bool)
    requires TotalOrder(lt) && Less(a, b, lt) && Less(b, c, lt)
    ensures Less(a, c, lt)
  {
    if |a| > 0 && a[0] == b[0] && b[0] == c[0] {
      Transitive(a[1..], b[1..], c[1..], lt);
    }
  }
}
