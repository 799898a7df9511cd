/** The order in which the store sorts identifiers (ORDER BY user_id,
    ORDER BY reviewer_id): lexicographic comparison of character codes. */
module Ordering {
  import opened Collections

  /** `a` sorts strictly before `b`. */
  predicate IdLess(a: string, b: string)
  {
    if |a| == 0 then |b| > 0
    else |b| > 0 && (a[0] < b[0] || (a[0] == b[0] && IdLess(a[1..], b[1..])))
  }

  lemma {:induction false} IdLessIrreflexive(a: string)
    ensures !IdLess(a, a)
  {
    if |a| > 0 {
      IdLessIrreflexive(a[1..]);
    }
  }

  lemma {:induction false} IdLessConnected(a: string, b: string)
    ensures a == b || IdLess(a, b) || IdLess(b, a)
  {
    if |a| > 0 && |b| > 0 && a[0] == b[0] {
      IdLessConnected(a[1..], b[1..]);
      if a[1..] == b[1..] {
        assert a == [a[0]] + a[1..] && b == [b[0]] + b[1..];
      }
    }
  }

  lemma {:induction false} IdLessTransitive(a: string, b: string, c: string)
    requires IdLess(a, b) && IdLess(b, c)
    ensures IdLess(a, c)
  {
    if |a| > 0 && a[0] == b[0] && b[0] == c[0] {
      IdLessTransitive(a[1..], b[1..], c[1..]);
    }
  }

  /** IdLess is a strict total order on every set of identifiers, so every
      query sorted by an id has exactly one admissible row order. */
  lemma IdLessIsStrictTotal(s: set<string>)
    ensures StrictTotalOn(IdLess, s)
  {
    forall a | a in s ensures !IdLess(a, a) {
      IdLessIrreflexive(a);
    }
    forall a, b | a in s && b in s && a != b ensures IdLess(a, b) || IdLess(b, a) {
      IdLessConnected(a, b);
    }
    forall a, b, c | a in s && b in s && c in s && IdLess(a, b) && IdLess(b, c)
      ensures IdLess(a, c)
    {
      IdLessTransitive(a, b, c);
    }
  }
}
