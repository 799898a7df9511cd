/** How the service picks reviewers: drop the author and the already
    assigned reviewers from a candidate list, pick one candidate at random,
    or shuffle the candidates and take the first few. Randomness is a choice
    the model leaves open: `Shuffle` may produce any permutation and
    `SelectRandomReviewer` takes the drawn index as an argument. */
module ReviewerSelection {
  import opened Models
  import opened Collections

  /** The candidates, in their order, that are neither the author nor
      already assigned. */
  function FilterAssignedReviewers(candidates: seq<User>, assignedIds: seq<string>, authorId: string): (r: seq<User>)
    ensures forall u :: u in r <==> u in candidates && u.userId != authorId && u.userId !in assignedIds
    ensures |r| <= |candidates|
  {
    if candidates == [] then []
    else
      var c := candidates[0];
      var rest := FilterAssignedReviewers(candidates[1..], assignedIds, authorId);
      assert forall u :: u in candidates <==> u == c || u in candidates[1..];
      if c.userId == authorId || c.userId in assignedIds then rest else [c] + rest
  }

  /** The ids of a list of users are the ids of its members. */
  lemma UserIdsElems(s: seq<User>)
    ensures Elems(UserIds(s)) == set u | u in s :: u.userId
  {
    forall id | id in Elems(UserIds(s)) ensures id in set u | u in s :: u.userId {
      var k :| 0 <= k < |s| && UserIds(s)[k] == id;
      assert s[k] in s;
    }
  }

  /** The filtered ids are the candidates' ids minus the author and the
      assigned reviewers. */
  lemma FilterIds(candidates: seq<User>, assignedIds: seq<string>, authorId: string)
    ensures Elems(UserIds(FilterAssignedReviewers(candidates, assignedIds, authorId)))
         == Elems(UserIds(candidates)) - {authorId} - Elems(assignedIds)
  {
    UserIdsElems(candidates);
    UserIdsElems(FilterAssignedReviewers(candidates, assignedIds, authorId));
  }

  /** Filtering a list with distinct ids leaves a list with distinct ids. */
  lemma {:induction false} FilterKeepsDistinct(candidates: seq<User>, assignedIds: seq<string>, authorId: string)
    requires Distinct(UserIds(candidates))
    ensures Distinct(UserIds(FilterAssignedReviewers(candidates, assignedIds, authorId)))
  {
    if candidates != [] {
      var c, tail := candidates[0], candidates[1..];
      assert Distinct(UserIds(tail)) by {
        forall i, j | 0 <= i < j < |tail| ensures UserIds(tail)[i] != UserIds(tail)[j] {
          assert UserIds(tail)[i] == UserIds(candidates)[i + 1];
          assert UserIds(tail)[j] == UserIds(candidates)[j + 1];
        }
      }
      FilterKeepsDistinct(tail, assignedIds, authorId);
      var rest := FilterAssignedReviewers(tail, assignedIds, authorId);
      if !(c.userId == authorId || c.userId in assignedIds) {
        assert c.userId !in Elems(UserIds(rest)) by {
          UserIdsElems(rest);
          UserIdsElems(tail);
          assert c.userId !in Elems(UserIds(tail)) by {
            forall k | 0 <= k < |tail| ensures UserIds(tail)[k] != c.userId {
              assert UserIds(tail)[k] == UserIds(candidates)[k + 1];
              assert c.userId == UserIds(candidates)[0];
            }
          }
        }
        DistinctCons(c, rest);
      }
    }
  }

  /** Putting a user whose id is new in front of a list with distinct ids
      keeps the ids distinct. */
  lemma DistinctCons(c: User, rest: seq<User>)
    requires Distinct(UserIds(rest)) && c.userId !in Elems(UserIds(rest))
    ensures Distinct(UserIds([c] + rest))
  {
    var r := [c] + rest;
    forall i, j | 0 <= i < j < |r| ensures UserIds(r)[i] != UserIds(r)[j] {
      assert UserIds(r)[j] == UserIds(rest)[j - 1];
      if i > 0 {
        assert UserIds(r)[i] == UserIds(rest)[i - 1];
      }
    }
  }

  /** Keeping the candidates whose id is not in `excluded` keeps exactly the
      ids not in `excluded`. */
  lemma ExcludeIds(kept: seq<User>, candidates: seq<User>, excluded: seq<string>)
    requires forall u :: u in kept <==> u in candidates && u.userId !in excluded
    ensures Elems(UserIds(kept)) == Elems(UserIds(candidates)) - Elems(excluded)
  {
    UserIdsElems(kept);
    UserIdsElems(candidates);
  }

  /** The candidates, in their order, whose id is not among the departing
      users. */
  method ExcludeDeparting(candidates: seq<User>, deactivatedUserIds: seq<string>) returns (kept: seq<User>)
    ensures forall u :: u in kept <==> u in candidates && u.userId !in deactivatedUserIds
    ensures Elems(UserIds(kept)) == Elems(UserIds(candidates)) - Elems(deactivatedUserIds)
  {
    kept := [];
    var i := 0;
    while i < |candidates|
      invariant 0 <= i <= |candidates|
      invariant forall u :: u in kept <==> u in candidates[..i] && u.userId !in deactivatedUserIds
    {
      if candidates[i].userId !in deactivatedUserIds {
        kept := kept + [candidates[i]];
      }
      assert candidates[..i + 1] == candidates[..i] + [candidates[i]];
      i := i + 1;
    }
    assert candidates[..i] == candidates;
    ExcludeIds(kept, candidates, deactivatedUserIds);
  }

  /** The id of the candidate at the drawn index `pick`, or "" when there is
      no candidate. */
  function SelectRandomReviewer(candidates: seq<User>, pick: nat): (r: string)
    requires candidates != [] ==> pick < |candidates|
    ensures candidates == [] ==> r == ""
    ensures candidates != [] ==> r in UserIds(candidates) && r == candidates[pick].userId
  {
    if |candidates| == 0 then "" else candidates[pick].userId
  }

  /** Fisher–Yates in the order rand.Shuffle uses: for i from the last index
      down to 1, swap a[i] with some a[j], 0 <= j <= i. Every permutation is
      a possible outcome; no particular one is promised. */
  method Shuffle(a: array<User>)
    modifies a
    ensures multiset(a[..]) == multiset(old(a[..]))
  {
    var i := a.Length - 1;
    while i > 0
      invariant -1 <= i < a.Length
      invariant multiset(a[..]) == multiset(old(a[..]))
    {
      var j :| 0 <= j <= i;
      a[i], a[j] := a[j], a[i];
      i := i - 1;
    }
  }

  /** The ids of the candidates of a permutation are those of the original. */
  lemma PermutationKeepsIds(s: seq<User>, t: seq<User>)
    requires multiset(s) == multiset(t)
    ensures |UserIds(s)| == |UserIds(t)|
    ensures Elems(UserIds(s)) == Elems(UserIds(t))
  {
    assert |s| == |multiset(s)| == |multiset(t)| == |t|;
    forall id | id in Elems(UserIds(s)) ensures id in Elems(UserIds(t)) {
      var k :| 0 <= k < |s| && s[k].userId == id;
      assert s[k] in multiset(t);
      var m :| 0 <= m < |t| && t[m] == s[k];
      assert UserIds(t)[m] == id;
    }
    forall id | id in Elems(UserIds(t)) ensures id in Elems(UserIds(s)) {
      var k :| 0 <= k < |t| && t[k].userId == id;
      assert t[k] in multiset(s);
      var m :| 0 <= m < |s| && s[m] == t[k];
      assert UserIds(s)[m] == id;
    }
  }

  /** Every prefix of a list without repeats is without repeats. */
  lemma PrefixDistinct<T>(s: seq<T>, n: nat)
    requires n <= |s| && Distinct(s)
    ensures Distinct(s[..n])
  {
    forall i, j | 0 <= i < j < n ensures s[..n][i] != s[..n][j] {
      assert s[..n][i] == s[i] && s[..n][j] == s[j];
    }
  }

  /** Up to `maxCount` ids of a random arrangement of the candidates: the
      first min(maxCount, |candidates|) ids of a permutation of them. */
  method SelectRandomReviewers(candidates: seq<User>, maxCount: nat)
    returns (reviewers: seq<string>, ghost shuffled: seq<User>)
    ensures multiset(shuffled) == multiset(candidates) && |shuffled| == |candidates|
    ensures |reviewers| == Min(maxCount, |candidates|)
    ensures reviewers == UserIds(shuffled)[..|reviewers|]
    ensures Elems(reviewers) <= Elems(UserIds(candidates))
    ensures Distinct(UserIds(candidates)) ==> Distinct(reviewers)
  {
    if |candidates| == 0 {
      return [], candidates;
    }
    var count := maxCount;
    if |candidates| < maxCount {
      count := |candidates|;
    }
    var mixed := new User[|candidates|](k requires 0 <= k < |candidates| => candidates[k]);
    assert mixed[..] == candidates;
    Shuffle(mixed);
    reviewers := [];
    var i := 0;
    while i < count
      invariant 0 <= i <= count <= mixed.Length
      invariant reviewers == UserIds(mixed[..])[..i]
    {
      reviewers := reviewers + [mixed[i].userId];
      i := i + 1;
    }
    shuffled := mixed[..];
    assert |shuffled| == |multiset(shuffled)| == |multiset(candidates)| == |candidates|;
    PermutationKeepsIds(shuffled, candidates);
    assert Elems(reviewers) <= Elems(UserIds(shuffled));
    if Distinct(UserIds(candidates)) {
      DistinctCard(UserIds(candidates));
      DistinctCard(UserIds(shuffled));
      PrefixDistinct(UserIds(shuffled), count);
    }
  }
}
