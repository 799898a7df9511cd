/** Sequence and set helpers shared by the store and the assignment engine:
    the elements of a sequence, duplicate-freedom, and the two ways the
    database hands back the rows of a query, in a given order (ORDER BY)
    or in an order it is free to choose (no ORDER BY). */
module Collections {

  /** The set of elements of a sequence. */
  function Elems<T>(s: seq<T>): set<T>
  {
    set x | x in s
  }

  /** No element occurs twice. */
  predicate Distinct<T(==)>(s: seq<T>)
  {
    forall i, j | 0 <= i < j < |s| :: s[i] != s[j]
  }

  /** `before` is a strict total order on the elements of `s`. */
  ghost predicate StrictTotalOn<T>(before: (T, T) -> bool, s: set<T>)
  {
    && (forall a | a in s :: !before(a, a))
    && (forall a, b | a in s && b in s && a != b :: before(a, b) || before(b, a))
    && (forall a, b, c | a in s && b in s && c in s && before(a, b) && before(b, c) :: before(a, c))
  }

  /** Every element of `r` comes `before` every later one. */
  ghost predicate SortedBy<T>(before: (T, T) -> bool, r: seq<T>)
  {
    forall i, j | 0 <= i < j < |r| :: before(r[i], r[j])
  }

  /** A sequence has as many distinct elements as entries exactly when no
      element repeats. */
  lemma {:induction false} DistinctCard<T>(s: seq<T>)
    ensures |Elems(s)| <= |s|
    ensures Distinct(s) <==> |Elems(s)| == |s|
  {
    if s != [] {
      var t := s[1..];
      DistinctCard(t);
      assert Elems(s) == {s[0]} + Elems(t) by {
        assert s == [s[0]] + t;
      }
      if s[0] in t {
        assert Elems(s) == Elems(t);
        var k :| 0 <= k < |t| && t[k] == s[0];
        assert s[0] == s[k + 1];
        assert !Distinct(s);
      } else {
        assert |Elems(s)| == |Elems(t)| + 1;
        if Distinct(s) {
          assert Distinct(t) by {
            forall i, j | 0 <= i < j < |t| ensures t[i] != t[j] {
              assert t[i] == s[i + 1] && t[j] == s[j + 1];
            }
          }
        } else {
          var i, j :| 0 <= i < j < |s| && s[i] == s[j];
          assert 0 < i;
          assert t[i - 1] == t[j - 1];
          assert !Distinct(t);
        }
      }
    }
  }

  /** Only the empty sequence has no elements. */
  lemma ElemsEmpty<T>(s: seq<T>)
    ensures Elems(s) == {} <==> s == []
  {
    if s != [] {
      assert s[0] in Elems(s);
    }
  }

  /** The elements of a prefix grow one at a time, and in a sequence
      without repeats the next element is not among those before it. */
  lemma PrefixElems<T>(s: seq<T>, i: nat)
    requires i < |s|
    ensures Elems(s[..i + 1]) == Elems(s[..i]) + {s[i]}
    ensures Distinct(s) ==> s[i] !in Elems(s[..i])
  {
    assert s[..i + 1] == s[..i] + [s[i]];
  }

  /** Appending an element adds it to the elements, and appending a new one
      keeps a sequence without repeats. */
  lemma AppendElems<T>(s: seq<T>, x: T)
    ensures Elems(s + [x]) == Elems(s) + {x}
    ensures Distinct(s) && x !in Elems(s) ==> Distinct(s + [x])
  {
    var t := s + [x];
    assert forall k | 0 <= k < |s| :: t[k] == s[k];
    assert t[|s|] == x;
  }

  /** A sequence sorted by a strict order repeats no element. */
  lemma SortedIsDistinct<T>(before: (T, T) -> bool, r: seq<T>)
    requires StrictTotalOn(before, Elems(r))
    requires SortedBy(before, r)
    ensures Distinct(r)
  {
    forall i, j | 0 <= i < j < |r| ensures r[i] != r[j] {
      assert r[i] in Elems(r);
      assert before(r[i], r[j]);
    }
  }

  /** A strict total order on a finite set restricts to one on every subset. */
  lemma StrictTotalOnSubset<T>(before: (T, T) -> bool, s: set<T>, t: set<T>)
    requires StrictTotalOn(before, s) && t <= s
    ensures StrictTotalOn(before, t)
  {
  }

  /** Every non-empty finite set has a least element under a strict total order. */
  lemma {:induction false} LeastExists<T>(before: (T, T) -> bool, s: set<T>)
    requires StrictTotalOn(before, s) && s != {}
    ensures exists m :: m in s && forall x | x in s && x != m :: before(m, x)
    decreases |s|
  {
    var y :| y in s;
    var rest := s - {y};
    if rest == {} {
      assert s == {y};
    } else {
      StrictTotalOnSubset(before, s, rest);
      LeastExists(before, rest);
      var m :| m in rest && forall x | x in rest && x != m :: before(m, x);
      if before(m, y) {
        assert forall x | x in s && x != m :: before(m, x);
      } else {
        assert before(y, m);
        forall x | x in s && x != y ensures before(y, x) {
          if x != m {
            assert before(m, x);
          }
        }
      }
    }
  }

  /** Two sequences sorted by the same strict total order and holding the same
      elements are equal: "sorted by" fixes the order of a query's rows. */
  lemma {:induction false} SortedUnique<T>(before: (T, T) -> bool, r: seq<T>, q: seq<T>)
    requires StrictTotalOn(before, Elems(r))
    requires SortedBy(before, r) && SortedBy(before, q)
    requires Elems(r) == Elems(q)
    ensures r == q
  {
    ElemsEmpty(r);
    ElemsEmpty(q);
    if r != [] && q != [] {
      assert r[0] in Elems(q) && q[0] in Elems(r);
      assert r[0] == q[0];
      SortedIsDistinct(before, r);
      StrictTotalOnSubset(before, Elems(r), Elems(q));
      SortedIsDistinct(before, q);
      var r', q' := r[1..], q[1..];
      assert Elems(r') == Elems(r) - {r[0]} by {
        assert r == [r[0]] + r';
        forall i | 0 <= i < |r'| ensures r'[i] != r[0] { assert r'[i] == r[i + 1]; }
      }
      assert Elems(q') == Elems(q) - {q[0]} by {
        assert q == [q[0]] + q';
        forall i | 0 <= i < |q'| ensures q'[i] != q[0] { assert q'[i] == q[i + 1]; }
      }
      StrictTotalOnSubset(before, Elems(r), Elems(r'));
      SortedUnique(before, r', q');
      assert r == [r[0]] + r' && q == [q[0]] + q';
    }
  }

  /** Appending the least remaining element keeps a selection sort's invariant. */
  lemma AppendLeast<T>(before: (T, T) -> bool, s: set<T>, r: seq<T>, rest: set<T>, m: T)
    requires rest <= s && Elems(r) + rest == s && Elems(r) !! rest
    requires SortedBy(before, r)
    requires forall i, x | 0 <= i < |r| && x in rest :: before(r[i], x)
    requires m in rest && forall x | x in rest && x != m :: before(m, x)
    ensures Elems(r + [m]) + (rest - {m}) == s && Elems(r + [m]) !! (rest - {m})
    ensures SortedBy(before, r + [m])
    ensures forall i, x | 0 <= i < |r + [m]| && x in rest - {m} :: before((r + [m])[i], x)
  {
    assert Elems(r + [m]) == Elems(r) + {m};
  }

  /** The rows of a query with an ORDER BY: the elements of `s`, each once,
      in the order `before`. */
  method SortBy<T(==)>(s: set<T>, before: (T, T) -> bool) returns (r: seq<T>)
    requires StrictTotalOn(before, s)
    ensures Elems(r) == s && |r| == |s|
    ensures SortedBy(before, r)
  {
    r := [];
    var rest := s;
    while rest != {}
      invariant rest <= s
      invariant Elems(r) + rest == s && Elems(r) !! rest
      invariant SortedBy(before, r)
      invariant forall i, x | 0 <= i < |r| && x in rest :: before(r[i], x)
      decreases |rest|
    {
      StrictTotalOnSubset(before, s, rest);
      LeastExists(before, rest);
      var m :| m in rest && forall x | x in rest && x != m :: before(m, x);
      AppendLeast(before, s, r, rest, m);
      r := r + [m];
      rest := rest - {m};
    }
    StrictTotalOnSubset(before, s, Elems(r));
    SortedIsDistinct(before, r);
    DistinctCard(r);
  }

  /** The rows of a query without an ORDER BY: the elements of `s`, each once,
      in an order the store is free to choose. */
  method Enumerate<T(==)>(s: set<T>) returns (r: seq<T>)
    ensures Elems(r) == s && Distinct(r)
  {
    r := [];
    var rest := s;
    while rest != {}
      invariant rest <= s
      invariant Elems(r) + rest == s && Elems(r) !! rest
      invariant Distinct(r)
      decreases |rest|
    {
      var x :| x in rest;
      r := r + [x];
      rest := rest - {x};
    }
  }
}
