/** The assignment engine: team creation, user activation, pull request
    creation with automatic reviewer assignment, merging, reviewer
    reassignment and bulk deactivation of a team, on top of the store. */
module Service {
  import opened Models
  import opened Collections
  import opened Ordering
  import opened Repository
  import opened ReviewerSelection

  /** No pull request is reviewed by its own author. */
  ghost predicate NoSelfReview(prs: map<string, PrRow>, rows: set<(string, string)>)
  {
    forall a | a in rows && a.0 in prs :: a.1 != prs[a.0].authorId
  }

  /** The users table after the members of a team request are written one by
      one, each insert-or-update overwriting the previous row. */
  function Enroll(users: map<string, UserRow>, teamName: string, members: seq<TeamMember>): map<string, UserRow>
  {
    if members == [] then users
    else
      var m := members[|members| - 1];
      Enroll(users, teamName, members[..|members| - 1])[m.userId := UserRow(m.username, teamName, m.isActive)]
  }

  /** `members[k]` is the last entry of the request with its id. */
  predicate LastEntry(members: seq<TeamMember>, k: int)
    requires 0 <= k < |members|
  {
    forall k' | k < k' < |members| :: members[k'].userId != members[k].userId
  }

  /** Writing a team's members adds exactly the listed ids to the table. */
  lemma {:induction false} EnrollKeys(users: map<string, UserRow>, teamName: string, members: seq<TeamMember>)
    ensures Enroll(users, teamName, members).Keys == users.Keys + Elems(MemberIds(members))
  {
    if members != [] {
      var n := |members| - 1;
      var m := members[n];
      var prev := Enroll(users, teamName, members[..n]);
      EnrollKeys(users, teamName, members[..n]);
      assert Enroll(users, teamName, members).Keys == prev.Keys + {m.userId};
      assert Elems(MemberIds(members)) == Elems(MemberIds(members[..n])) + {m.userId} by {
        assert MemberIds(members) == MemberIds(members[..n]) + [m.userId];
      }
    }
  }

  /** Writing a team's members leaves every user it does not list as it was. */
  lemma {:induction false} EnrollUnlisted(users: map<string, UserRow>, teamName: string, members: seq<TeamMember>)
    ensures forall id | id in users && id !in MemberIds(members) ::
      id in Enroll(users, teamName, members) && Enroll(users, teamName, members)[id] == users[id]
  {
    if members != [] {
      var n := |members| - 1;
      EnrollUnlisted(users, teamName, members[..n]);
      assert MemberIds(members) == MemberIds(members[..n]) + [members[n].userId];
    }
  }

  /** When an id is listed more than once, its last entry is what the table
      holds. */
  lemma {:induction false} EnrollLastWriteWins(users: map<string, UserRow>, teamName: string, members: seq<TeamMember>)
    ensures forall k | 0 <= k < |members| && LastEntry(members, k) ::
      && members[k].userId in Enroll(users, teamName, members)
      && Enroll(users, teamName, members)[members[k].userId]
         == UserRow(members[k].username, teamName, members[k].isActive)
  {
    if members != [] {
      var n := |members| - 1;
      var init := members[..n];
      EnrollLastWriteWins(users, teamName, init);
      forall k | 0 <= k < |members| && LastEntry(members, k)
        ensures members[k].userId in Enroll(users, teamName, members)
        ensures Enroll(users, teamName, members)[members[k].userId]
             == UserRow(members[k].username, teamName, members[k].isActive)
      {
        if k < n {
          assert init[k] == members[k];
          assert LastEntry(init, k);
        }
      }
    }
  }

  /** Who may replace a departing reviewer during a bulk deactivation: the
      active members of the author's team, except the author, the reviewers
      already listed and the departing users. */
  function BulkPool(users: map<string, UserRow>, authorTeam: string, authorId: string,
                    current: set<string>, dead: set<string>): set<string>
  {
    ActiveInTeam(users, authorTeam) - {authorId} - current - dead
  }

  /** The replacement candidates for the departing reviewers of `prId`, as
      fixed when its sweep begins; empty when the pull request or its author
      is unknown. */
  function SweepPool(users: map<string, UserRow>, prs: map<string, PrRow>, current: set<string>,
                     prId: string, dead: set<string>): set<string>
  {
    if prId in prs && prs[prId].authorId in users then
      BulkPool(users, users[prs[prId].authorId].teamName, prs[prId].authorId, current, dead)
    else {}
  }

  /** The replacement candidates now reviewing `prId`, other than the empty id. */
  function Gained(rows: set<(string, string)>, prId: string, pool: set<string>): set<string>
  {
    ReviewersOf(rows, prId) * pool - {""}
  }

  /** The reviewer rows of every pull request other than `prId`. */
  function Others(rows: set<(string, string)>, prId: string): set<(string, string)>
  {
    set a | a in rows && a.0 != prId
  }

  lemma OthersKeepReviewers(rows: set<(string, string)>, rows': set<(string, string)>, prId: string, q: string)
    requires Others(rows, prId) == Others(rows', prId) && q != prId
    ensures ReviewersOf(rows, q) == ReviewersOf(rows', q)
  {
    forall r | r in ReviewersOf(rows, q) ensures r in ReviewersOf(rows', q) {
      assert (q, r) in Others(rows, prId);
    }
    forall r | r in ReviewersOf(rows', q) ensures r in ReviewersOf(rows, q) {
      assert (q, r) in Others(rows', prId);
    }
  }

  /** Inserting a pull request whose reviewers exclude its author keeps
      authors off their own reviews. */
  lemma NoSelfReviewAfterCreate(prs: map<string, PrRow>, rows: set<(string, string)>,
                                prId: string, row: PrRow, reviewers: seq<string>)
    requires NoSelfReview(prs, rows)
    requires forall a | a in rows :: a.0 in prs
    requires prId !in prs && row.authorId !in reviewers
    ensures NoSelfReview(prs[prId := row], rows + RowsFor(prId, reviewers))
  {
  }

  /** Swapping in a reviewer other than the author keeps authors off their
      own reviews. */
  lemma NoSelfReviewAfterSwap(prs: map<string, PrRow>, rows: set<(string, string)>,
                              prId: string, oldId: string, newId: string)
    requires NoSelfReview(prs, rows)
    requires prId in prs ==> newId != prs[prId].authorId
    ensures NoSelfReview(prs, rows - {(prId, oldId)} + {(prId, newId)})
  {
  }

  /** The state of one pull request's sweep, against the reviewer set
      `before` it started from: reviewers only leave if departing and only
      arrive from `pool`, their number stays, and `replaced` says whether a
      non-empty candidate has arrived. */
  ghost predicate PrSwept(rows: set<(string, string)>, prId: string, before: set<string>, pool: set<string>,
                          dead: set<string>, replaced: bool)
  {
    && ReviewersOf(rows, prId) - before <= pool
    && before - ReviewersOf(rows, prId) <= dead
    && |ReviewersOf(rows, prId)| == |before|
    && (replaced <==> Gained(rows, prId, pool) != {})
  }

  /** One successful swap during a bulk deactivation sweep: a departing
      reviewer from the original list leaves, a candidate from the pool
      arrives, the number of reviewers stays, no other pull request is
      touched, and the swap counts as a replacement exactly when the new id
      is not empty. */
  lemma SweepStep(rows: set<(string, string)>, prId: string, before: set<string>, pool: set<string>,
                  dead: set<string>, oldId: string, newId: string, replaced: bool)
    requires PrSwept(rows, prId, before, pool, dead, replaced)
    requires pool !! before && oldId in before && oldId in dead && newId in pool
    requires (prId, oldId) in rows && (prId, newId) !in rows - {(prId, oldId)}
    ensures var rows' := rows - {(prId, oldId)} + {(prId, newId)};
      && Others(rows', prId) == Others(rows, prId)
      && PrSwept(rows', prId, before, pool, dead, replaced || newId != "")
  {
    var rows' := rows - {(prId, oldId)} + {(prId, newId)};
    SwapKeepsReviewerCount(rows, prId, oldId, newId);
    SwapOthers(rows, prId, oldId, newId);
    SwapWithinSweep(ReviewersOf(rows, prId), ReviewersOf(rows', prId), before, pool, dead, oldId, newId);
  }

  /** A swap rewrites only the rows of its own pull request. */
  lemma SwapOthers(rows: set<(string, string)>, prId: string, oldId: string, newId: string)
    ensures Others(rows - {(prId, oldId)} + {(prId, newId)}, prId) == Others(rows, prId)
  {
    var rows' := rows - {(prId, oldId)} + {(prId, newId)};
    assert forall a :: a in rows' && a.0 != prId <==> a in rows && a.0 != prId;
  }

  /** Replacing a departing reviewer `oldId` by a pool member `newId` keeps
      the arrivals within the pool and the departures among the departing,
      and adds `newId` to the gained candidates. */
  lemma SwapWithinSweep(now: set<string>, next: set<string>, before: set<string>, pool: set<string>,
                        dead: set<string>, oldId: string, newId: string)
    requires next == now - {oldId} + {newId}
    requires now - before <= pool && before - now <= dead
    requires oldId in dead && newId in pool && oldId !in pool
    ensures next - before <= pool && before - next <= dead
    ensures next * pool - {""} == (now * pool - {""}) + ({newId} - {""})
  {
  }

  /** What the sweep of pull request `p` leaves behind, against the reviewer
      rows `rows0` it started from: reviewers only leave if departing and only
      arrive from the sweep pool, their number stays, `p` is reported exactly
      when a non-empty candidate arrived, and it is reported whenever the pool
      was non-empty and free of the empty id. */
  ghost predicate Swept(users: map<string, UserRow>, prs: map<string, PrRow>, rows0: set<(string, string)>,
                        rows: set<(string, string)>, dead: set<string>, p: string, reported: bool)
  {
    var pool := SweepPool(users, prs, ReviewersOf(rows0, p), p, dead);
    && PrSwept(rows, p, ReviewersOf(rows0, p), pool, dead, reported)
    && (pool != {} && "" !in pool ==> reported)
  }

  /** A sweep's outcome for `p` survives changes to other pull requests' rows. */
  lemma SweptFrame(users: map<string, UserRow>, prs: map<string, PrRow>, rows0: set<(string, string)>,
                   rows: set<(string, string)>, rows': set<(string, string)>, dead: set<string>,
                   p: string, reported: bool)
    requires Swept(users, prs, rows0, rows, dead, p, reported)
    requires ReviewersOf(rows', p) == ReviewersOf(rows, p)
    ensures Swept(users, prs, rows0, rows', dead, p, reported)
  {
  }

  /** Sweeping one more pull request `prId` settles its outcome and leaves
      the outcomes of the pull requests already swept, and the rows of those
      not yet swept, as they were. */
  lemma SweepAdvance(users: map<string, UserRow>, prs: map<string, PrRow>, rows0: set<(string, string)>,
                     rowsBefore: set<(string, string)>, rows: set<(string, string)>, dead: set<string>,
                     prId: string, done: set<string>, seenBefore: set<string>, seen: set<string>)
    requires prId !in done && ReviewersOf(rows0, prId) * dead != {}
    requires forall p | p !in done :: ReviewersOf(rowsBefore, p) == ReviewersOf(rows0, p)
    requires forall p | p in done :: Swept(users, prs, rows0, rowsBefore, dead, p, p in seenBefore)
    requires Others(rows, prId) == Others(rowsBefore, prId)
    requires forall q | q != prId :: q in seen <==> q in seenBefore
    requires var pool := SweepPool(users, prs, ReviewersOf(rowsBefore, prId), prId, dead);
      && PrSwept(rows, prId, ReviewersOf(rowsBefore, prId), pool, dead, prId in seen)
      && (ReviewersOf(rowsBefore, prId) * dead != {} && pool != {} && "" !in pool ==> prId in seen)
    ensures forall p | p !in done + {prId} :: ReviewersOf(rows, p) == ReviewersOf(rows0, p)
    ensures forall p | p in done + {prId} :: Swept(users, prs, rows0, rows, dead, p, p in seen)
  {
    forall q | q != prId
      ensures ReviewersOf(rows, q) == ReviewersOf(rowsBefore, q)
      ensures q in done ==> Swept(users, prs, rows0, rows, dead, q, q in seen)
    {
      OthersKeepReviewers(rows, rowsBefore, prId, q);
      if q in done {
        SweptFrame(users, prs, rows0, rowsBefore, rows, dead, q, q in seen);
      }
    }
  }

  class Service {
    const repo: Store

    /** The store's own invariant, and no author reviews their own pull request. */
    ghost predicate Valid()
      reads this, repo
    {
      repo.Valid() && NoSelfReview(repo.prs, repo.assignments)
    }

    constructor (store: Store)
      requires store.Valid() && NoSelfReview(store.prs, store.assignments)
      ensures repo == store && Valid()
    {
      repo := store;
    }

    // --- Teams

    /** Refuse an existing team name; otherwise create the team and write
        every listed member into it, in order. */
    method CreateTeam(team: Team) returns (err: Option<Error>)
      requires Valid()
      modifies repo
      ensures Valid()
      ensures team.teamName in old(repo.teams) ==>
        err == Some(Code(TeamExists)) && repo.teams == old(repo.teams) && repo.users == old(repo.users)
      ensures team.teamName !in old(repo.teams) ==>
        && err == None
        && repo.teams == old(repo.teams) + {team.teamName}
        && repo.users == Enroll(old(repo.users), team.teamName, team.members)
      ensures repo.prs == old(repo.prs) && repo.assignments == old(repo.assignments) && repo.clock == old(repo.clock)
    {
      var found := repo.TeamExists(team.teamName);
      if found {
        return Some(Code(TeamExists));
      }
      err := repo.CreateTeam(team.teamName);
      assert err == None;
      var i := 0;
      while i < |team.members|
        invariant 0 <= i <= |team.members|
        invariant repo.Valid() && NoSelfReview(repo.prs, repo.assignments)
        invariant repo.teams == old(repo.teams) + {team.teamName}
        invariant repo.users == Enroll(old(repo.users), team.teamName, team.members[..i])
        invariant repo.prs == old(repo.prs) && repo.assignments == old(repo.assignments)
        invariant repo.clock == old(repo.clock)
      {
        var member := team.members[i];
        repo.CreateOrUpdateUser(User(member.userId, member.username, team.teamName, member.isActive));
        assert team.members[..i + 1][..i] == team.members[..i];
        i := i + 1;
      }
      assert team.members[..i] == team.members;
    }

    method GetTeam(teamName: string) returns (r: Result<Team>)
      ensures r.Err? <==> teamName !in repo.teams && TeamMembers(repo.users, teamName) == {}
      ensures r.Err? ==> r.error == TeamNotFound
      ensures r.Ok? ==>
        && r.value.teamName == teamName
        && Elems(MemberIds(r.value.members)) == TeamMembers(repo.users, teamName)
        && SortedBy(IdLess, MemberIds(r.value.members))
        && forall m | m in r.value.members ::
             m.userId in repo.users
             && m == TeamMember(m.userId, repo.users[m.userId].username, repo.users[m.userId].isActive)
    {
      r := repo.GetTeam(teamName);
    }

    // --- Users

    method SetUserActive(userId: string, isActive: bool) returns (r: Result<User>)
      requires Valid()
      modifies repo
      ensures Valid()
      ensures userId !in old(repo.users) ==> r == Err(UserNotFound) && repo.users == old(repo.users)
      ensures userId in old(repo.users) ==>
        && repo.users == old(repo.users)[userId := old(repo.users)[userId].(isActive := isActive)]
        && r == Ok(AsUser(repo.users, userId))
        && r.value.isActive == isActive
      ensures repo.teams == old(repo.teams) && repo.prs == old(repo.prs)
      ensures repo.assignments == old(repo.assignments) && repo.clock == old(repo.clock)
    {
      var err := repo.UpdateUserActive(userId, isActive);
      if err.Some? {
        return Err(err.value);
      }
      r := repo.GetUser(userId);
    }

    // --- Pull requests

    /** Create an OPEN pull request and assign it up to two reviewers drawn at
        random from the author's active teammates. */
    method CreatePullRequest(prId: string, prName: string, authorId: string) returns (r: Result<PullRequest>)
      requires Valid()
      modifies repo
      ensures Valid()
      ensures repo.teams == old(repo.teams) && repo.users == old(repo.users)
      ensures prId in old(repo.prs) ==> r == Err(Code(PrExists))
      ensures prId !in old(repo.prs) && authorId !in old(repo.users) ==> r == Err(AuthorNotFound)
      ensures r.Err? ==>
        repo.prs == old(repo.prs) && repo.assignments == old(repo.assignments) && repo.clock == old(repo.clock)
      ensures prId !in old(repo.prs) && authorId in old(repo.users) ==>
        var pool := ActiveInTeam(old(repo.users), old(repo.users)[authorId].teamName) - {authorId};
        && r.Ok?
        && Shows(r.value, repo.prs, repo.assignments)
        && r.value.pullRequestId == prId && r.value.pullRequestName == prName
        && r.value.authorId == authorId && r.value.status == Open
        && Elems(r.value.assignedReviewers) <= pool
        && |r.value.assignedReviewers| == Min(2, |pool|)
        && r.value.needMoreReviewers == (|r.value.assignedReviewers| < 2)
        && repo.prs == old(repo.prs)[prId := PrRow(prName, authorId, Open, r.value.needMoreReviewers, old(repo.clock))]
        && repo.assignments == old(repo.assignments) + RowsFor(prId, r.value.assignedReviewers)
        && repo.clock == old(repo.clock) + 1
    {
      var found := repo.PullRequestExists(prId);
      if found {
        return Err(Code(PrExists));
      }
      var author := repo.GetUser(authorId);
      if author.Err? {
        return Err(AuthorNotFound);
      }
      var candidates := repo.GetActiveUsersByTeam(author.value.teamName, authorId);
      var reviewers, shuffled := SelectRandomReviewers(candidates, 2);
      var needMoreReviewers := |reviewers| < 2;
      ghost var pool := ActiveInTeam(repo.users, author.value.teamName) - {authorId};
      DistinctCard(UserIds(candidates));
      ghost var rowsBefore, prsBefore := repo.assignments, repo.prs;
      var err := repo.CreatePullRequest(PullRequest(prId, prName, authorId, Open, reviewers, needMoreReviewers, 0));
      assert err == None;
      NewPullRequestReviewers(rowsBefore, prId, reviewers);
      NoSelfReviewAfterCreate(prsBefore, rowsBefore, prId, repo.prs[prId], reviewers);
      r := repo.GetPullRequest(prId);
      assert r.Ok?;
      ShownReviewers(r.value, repo.prs, repo.assignments);
      DistinctCard(reviewers);
      RowsForElems(prId, reviewers, r.value.assignedReviewers);
    }

    /** Merge an OPEN pull request; merging a MERGED one again succeeds and
        changes nothing. */
    method MergePullRequest(prId: string) returns (r: Result<PullRequest>)
      requires Valid()
      modifies repo
      ensures Valid()
      ensures prId !in old(repo.prs) ==> r == Err(PullRequestNotFound)
      ensures prId in old(repo.prs) ==>
        r.Ok? && r.value.pullRequestId == prId && r.value.status == Merged && Shows(r.value, repo.prs, repo.assignments)
      ensures prId in old(repo.prs) && old(repo.prs)[prId].status == Open ==>
        repo.prs == old(repo.prs)[prId := old(repo.prs)[prId].(status := Merged)]
      ensures prId !in old(repo.prs) || old(repo.prs)[prId].status == Merged ==> repo.prs == old(repo.prs)
      ensures repo.teams == old(repo.teams) && repo.users == old(repo.users)
      ensures repo.assignments == old(repo.assignments) && repo.clock == old(repo.clock)
    {
      r := repo.GetPullRequest(prId);
      if r.Err? || r.value.status == Merged {
        return r;
      }
      var err := repo.MergePullRequest(prId);
      assert err == None;
      r := repo.GetPullRequest(prId);
      assert r.Ok?;
    }

    /** Replace one reviewer of an OPEN pull request by a random active member
        of that reviewer's team who is neither the author nor already
        reviewing it. */
    method ReassignReviewer(prId: string, oldReviewerId: string)
      returns (r: Result<PullRequest>, newReviewerId: string)
      requires Valid()
      modifies repo
      ensures Valid()
      ensures repo.teams == old(repo.teams) && repo.users == old(repo.users)
      ensures repo.prs == old(repo.prs) && repo.clock == old(repo.clock)
      ensures r.Err? ==> newReviewerId == "" && repo.assignments == old(repo.assignments)
      ensures prId !in old(repo.prs) ==> r == Err(PullRequestNotFound)
      ensures prId in old(repo.prs) && old(repo.prs)[prId].status == Merged ==> r == Err(Code(PrMerged))
      ensures (prId in old(repo.prs) && old(repo.prs)[prId].status == Open
               && oldReviewerId !in ReviewersOf(old(repo.assignments), prId)) ==>
        r == Err(Code(NotAssigned))
      ensures (prId in old(repo.prs) && old(repo.prs)[prId].status == Open
               && oldReviewerId in ReviewersOf(old(repo.assignments), prId)
               && oldReviewerId !in old(repo.users)) ==>
        r == Err(OldReviewerNotFound)
      ensures (prId in old(repo.prs) && old(repo.prs)[prId].status == Open
               && oldReviewerId in ReviewersOf(old(repo.assignments), prId)
               && oldReviewerId in old(repo.users)) ==>
        var pool := ActiveInTeam(old(repo.users), old(repo.users)[oldReviewerId].teamName)
                    - {oldReviewerId} - {old(repo.prs)[prId].authorId}
                    - ReviewersOf(old(repo.assignments), prId);
        && (pool == {} ==> r == Err(Code(NoCandidate)))
        && (pool != {} ==>
              && r.Ok? && r.value.pullRequestId == prId && Shows(r.value, repo.prs, repo.assignments)
              && newReviewerId in pool
              && repo.assignments == old(repo.assignments) - {(prId, oldReviewerId)} + {(prId, newReviewerId)}
              && |r.value.assignedReviewers| == |ReviewersOf(old(repo.assignments), prId)|)
    {
      var got := repo.GetPullRequest(prId);
      if got.Err? {
        return Err(got.error), "";
      }
      var pr := got.value;
      if pr.status == Merged {
        return Err(Code(PrMerged)), "";
      }
      var found := false;
      var i := 0;
      while i < |pr.assignedReviewers|
        invariant 0 <= i <= |pr.assignedReviewers|
        invariant !found
        invariant oldReviewerId !in pr.assignedReviewers[..i]
      {
        if pr.assignedReviewers[i] == oldReviewerId {
          found := true;
          break;
        }
        i := i + 1;
      }
      if !found {
        assert pr.assignedReviewers[..i] == pr.assignedReviewers;
        return Err(Code(NotAssigned)), "";
      }
      assert oldReviewerId in Elems(pr.assignedReviewers);
      var oldReviewerTeam := repo.GetUserTeam(oldReviewerId);
      if oldReviewerTeam.Err? {
        return Err(OldReviewerNotFound), "";
      }
      var candidates := repo.GetActiveUsersByTeam(oldReviewerTeam.value, oldReviewerId);
      var available := FilterAssignedReviewers(candidates, pr.assignedReviewers, pr.authorId);
      FilterIds(candidates, pr.assignedReviewers, pr.authorId);
      ElemsEmpty(UserIds(available));
      if |available| == 0 {
        return Err(Code(NoCandidate)), "";
      }
      var pick :| 0 <= pick < |available|;
      newReviewerId := SelectRandomReviewer(available, pick);
      assert newReviewerId !in ReviewersOf(repo.assignments, prId);
      ReviewerRow(repo.assignments, prId, newReviewerId);
      ReviewerRow(repo.assignments, prId, oldReviewerId);
      NoSelfReviewAfterSwap(repo.prs, repo.assignments, prId, oldReviewerId, newReviewerId);
      var err := repo.ReassignReviewer(prId, oldReviewerId, newReviewerId);
      assert err == None;
      SwapKeepsReviewerCount(old(repo.assignments), prId, oldReviewerId, newReviewerId);
      r := repo.GetPullRequest(prId);
      assert r.Ok?;
      ShownReviewers(r.value, repo.prs, repo.assignments);
    }

    /** The pull requests an existing user reviews, newest first. */
    method GetPullRequestsByReviewer(reviewerId: string) returns (r: Result<seq<PullRequestShort>>)
      requires Valid()
      ensures reviewerId !in repo.users ==> r == Err(UserNotFound)
      ensures reviewerId in repo.users ==>
        && r.Ok?
        && Elems(ShortIds(r.value)) == AssignedPrs(repo.assignments, reviewerId)
        && SortedBy(NewestFirst(repo.prs), ShortIds(r.value))
        && Distinct(ShortIds(r.value))
        && forall s | s in r.value ::
             && s.pullRequestId in repo.prs
             && s == PullRequestShort(s.pullRequestId, repo.prs[s.pullRequestId].name,
                                      repo.prs[s.pullRequestId].authorId, repo.prs[s.pullRequestId].status)
    {
      var user := repo.GetUser(reviewerId);
      if user.Err? {
        return Err(UserNotFound);
      }
      var prs := repo.GetPullRequestsByReviewer(reviewerId);
      r := Ok(prs);
    }

    /** Per-user assignment counts and pull request totals. */
    method GetStatistics() returns (r: StatisticsResponse)
      requires Valid()
      ensures Elems(StatIds(r.userStats)) == repo.users.Keys && Distinct(StatIds(r.userStats))
      ensures SortedBy(StatsOrder(repo.assignments), StatIds(r.userStats))
      ensures forall s | s in r.userStats :: s.userId in repo.users && s == StatsOf(repo.users, repo.prs, repo.assignments, s.userId)
      ensures forall s | s in r.userStats :: s.openAssignments + s.mergedAssignments == s.totalAssignments
      ensures r.prStats.totalPrs == |repo.prs| && r.prStats.totalAssignments == |repo.assignments|
      ensures r.prStats.openPrs == |WithStatus(repo.prs, repo.prs.Keys, Open)|
      ensures r.prStats.mergedPrs == |WithStatus(repo.prs, repo.prs.Keys, Merged)|
      ensures r.prStats.openPrs + r.prStats.mergedPrs == r.prStats.totalPrs
    {
      var userStats := repo.GetUserReviewStats();
      var prStats := repo.GetPRStats();
      r := StatisticsResponse(userStats, prStats);
    }

    // --- Bulk deactivation

    /** Replace `oldReviewerId` on `prId` by a random member of the author's
        team who is active, not the author, not in `currentReviewers` and not
        departing. */
    method ReassignReviewerForBulkDeactivation(prId: string, oldReviewerId: string, authorTeamName: string,
                                               currentReviewers: seq<string>, authorId: string,
                                               deactivatedUserIds: seq<string>)
      returns (newReviewerId: string, err: Option<Error>)
      requires repo.Valid()
      modifies repo
      ensures repo.Valid()
      ensures repo.teams == old(repo.teams) && repo.users == old(repo.users)
      ensures repo.prs == old(repo.prs) && repo.clock == old(repo.clock)
      ensures var pool := BulkPool(old(repo.users), authorTeamName, authorId,
                                   Elems(currentReviewers), Elems(deactivatedUserIds));
        && (pool == {} ==> err == Some(Code(NoCandidate)))
        && (err.Some? ==> newReviewerId == "" && repo.assignments == old(repo.assignments))
        && (err.None? ==>
              && newReviewerId in pool
              && (prId, oldReviewerId) in old(repo.assignments)
              && (prId, newReviewerId) !in old(repo.assignments) - {(prId, oldReviewerId)}
              && repo.assignments == old(repo.assignments) - {(prId, oldReviewerId)} + {(prId, newReviewerId)})
        && ((pool != {} && (prId, oldReviewerId) in old(repo.assignments)
             && pool * ReviewersOf(old(repo.assignments), prId) == {}) ==> err.None?)
    {
      var candidates := repo.GetActiveUsersByTeam(authorTeamName, authorId);
      var available := FilterAssignedReviewers(candidates, currentReviewers, authorId);
      FilterIds(candidates, currentReviewers, authorId);
      var finalCandidates := ExcludeDeparting(available, deactivatedUserIds);
      ghost var pool := BulkPool(repo.users, authorTeamName, authorId, Elems(currentReviewers), Elems(deactivatedUserIds));
      assert Elems(UserIds(finalCandidates)) == pool;
      ElemsEmpty(UserIds(finalCandidates));
      if |finalCandidates| == 0 {
        return "", Some(Code(NoCandidate));
      }
      var pick :| 0 <= pick < |finalCandidates|;
      newReviewerId := SelectRandomReviewer(finalCandidates, pick);
      assert newReviewerId in pool;
      ReviewerRow(repo.assignments, prId, newReviewerId);
      var storeErr := repo.ReassignReviewer(prId, oldReviewerId, newReviewerId);
      if storeErr.Some? {
        return "", storeErr;
      }
      err := None;
    }

    /** One departing reviewer of a pull request's sweep: try to swap in a
        replacement from `pool`. A failed attempt changes nothing; a
        successful one keeps the sweep state and reports a non-empty
        arrival. The first attempt, made on the untouched reviewer set,
        succeeds whenever the pool is non-empty. */
    method ReplaceOneDeparting(prId: string, reviewerId: string, teamName: string, current: seq<string>,
                               authorId: string, dead: seq<string>, ghost before: set<string>,
                               ghost pool: set<string>, replaced: bool)
      returns (replaced': bool)
      requires Valid()
      requires pool == BulkPool(repo.users, teamName, authorId, Elems(current), Elems(dead))
      requires before == Elems(current) && reviewerId in before && reviewerId in dead
      requires prId in repo.prs ==> repo.prs[prId].authorId == authorId
      requires PrSwept(repo.assignments, prId, before, pool, Elems(dead), replaced)
      modifies repo
      ensures Valid()
      ensures repo.teams == old(repo.teams) && repo.users == old(repo.users)
      ensures repo.prs == old(repo.prs) && repo.clock == old(repo.clock)
      ensures Others(repo.assignments, prId) == Others(old(repo.assignments), prId)
      ensures PrSwept(repo.assignments, prId, before, pool, Elems(dead), replaced')
      ensures replaced ==> replaced'
      ensures (ReviewersOf(old(repo.assignments), prId) == before && pool != {} && "" !in pool) ==> replaced'
    {
      ghost var rows := repo.assignments;
      assert ReviewersOf(rows, prId) == before ==> (prId, reviewerId) in rows && pool * ReviewersOf(rows, prId) == {} by {
        ReviewerRow(rows, prId, reviewerId);
      }
      var newReviewerId, err := ReassignReviewerForBulkDeactivation(
        prId, reviewerId, teamName, current, authorId, dead);
      replaced' := replaced;
      if err.None? {
        SweepStep(rows, prId, before, pool, Elems(dead), reviewerId, newReviewerId, replaced);
        NoSelfReviewAfterSwap(repo.prs, rows, prId, reviewerId, newReviewerId);
        if newReviewerId != "" {
          replaced' := true;
        }
      }
    }

    /** The reviewers `current` of pull request `prId`, read once: for each
        of them who is departing, try to swap in a replacement from the pool
        of the author's team. */
    method ReplaceListedReviewers(prId: string, current: seq<string>, teamName: string, authorId: string,
                                  dead: seq<string>)
      returns (replaced: bool)
      requires Valid()
      requires Elems(current) == ReviewersOf(repo.assignments, prId)
      requires prId in repo.prs ==> repo.prs[prId].authorId == authorId
      modifies repo
      ensures Valid()
      ensures repo.teams == old(repo.teams) && repo.users == old(repo.users)
      ensures repo.prs == old(repo.prs) && repo.clock == old(repo.clock)
      ensures Others(repo.assignments, prId) == Others(old(repo.assignments), prId)
      ensures var pool := BulkPool(old(repo.users), teamName, authorId, Elems(current), Elems(dead));
        && PrSwept(repo.assignments, prId, Elems(current), pool, Elems(dead), replaced)
        && (Elems(current) * Elems(dead) != {} && pool != {} && "" !in pool ==> replaced)
    {
      ghost var before := Elems(current);
      ghost var departing := Elems(dead);
      ghost var pool := BulkPool(repo.users, teamName, authorId, before, departing);
      ghost var attempted := false;
      replaced := false;
      var i := 0;
      while i < |current|
        invariant 0 <= i <= |current|
        invariant Valid()
        invariant repo.teams == old(repo.teams) && repo.users == old(repo.users)
        invariant repo.prs == old(repo.prs) && repo.clock == old(repo.clock)
        invariant Others(repo.assignments, prId) == Others(old(repo.assignments), prId)
        invariant PrSwept(repo.assignments, prId, before, pool, departing, replaced)
        invariant !attempted ==> repo.assignments == old(repo.assignments)
        invariant !attempted ==> forall j | 0 <= j < i :: current[j] !in departing
        invariant attempted && pool != {} && "" !in pool ==> replaced
      {
        var reviewerId := current[i];
        if reviewerId in dead {
          assert reviewerId in Elems(current);
          replaced := ReplaceOneDeparting(prId, reviewerId, teamName, current, authorId, dead, before, pool, replaced);
          attempted := true;
        }
        i := i + 1;
      }
      if !attempted {
        assert before * departing == {} by {
          forall id | id in before ensures id !in departing {
            var j :| 0 <= j < |current| && current[j] == id;
          }
        }
      }
    }

    /** One pull request of a bulk deactivation: read it and its author, then
        replace its departing reviewers. Reports whether some swap brought in
        a reviewer with a non-empty id. */
    method ReplaceDepartingReviewers(prId: string, dead: seq<string>) returns (replaced: bool)
      requires Valid()
      modifies repo
      ensures Valid()
      ensures repo.teams == old(repo.teams) && repo.users == old(repo.users)
      ensures repo.prs == old(repo.prs) && repo.clock == old(repo.clock)
      ensures Others(repo.assignments, prId) == Others(old(repo.assignments), prId)
      ensures var pool := SweepPool(old(repo.users), old(repo.prs), ReviewersOf(old(repo.assignments), prId),
                                    prId, Elems(dead));
        && PrSwept(repo.assignments, prId, ReviewersOf(old(repo.assignments), prId), pool, Elems(dead), replaced)
        && (ReviewersOf(old(repo.assignments), prId) * Elems(dead) != {} && pool != {} && "" !in pool ==> replaced)
    {
      var got := repo.GetPullRequest(prId);
      if got.Err? {
        return false;
      }
      var pr := got.value;
      var author := repo.GetUser(pr.authorId);
      if author.Err? {
        return false;
      }
      assert Elems(pr.assignedReviewers) == ReviewersOf(repo.assignments, prId);
      replaced := ReplaceListedReviewers(prId, pr.assignedReviewers, author.value.teamName, pr.authorId, dead);
    }

    /** The sweep over the affected pull requests of a bulk deactivation:
        each is processed once, and each one that received a replacement is
        reported once. */
    method SweepPullRequests(affected: seq<string>, deactivated: seq<string>) returns (reassigned: seq<string>)
      requires Valid()
      requires Distinct(affected)
      requires forall p | p in affected :: ReviewersOf(repo.assignments, p) * Elems(deactivated) != {}
      modifies repo
      ensures Valid()
      ensures repo.teams == old(repo.teams) && repo.users == old(repo.users)
      ensures repo.prs == old(repo.prs) && repo.clock == old(repo.clock)
      ensures Elems(reassigned) <= Elems(affected) && Distinct(reassigned)
      ensures forall p | p !in Elems(affected) :: ReviewersOf(repo.assignments, p) == ReviewersOf(old(repo.assignments), p)
      ensures forall p | p in Elems(affected) ::
        Swept(old(repo.users), old(repo.prs), old(repo.assignments), repo.assignments, Elems(deactivated),
              p, p in Elems(reassigned))
    {
      ghost var departing := Elems(deactivated);
      ghost var done: set<string> := {};
      reassigned := [];
      var seen: set<string> := {};
      var i := 0;
      while i < |affected|
        invariant 0 <= i <= |affected|
        invariant done == Elems(affected[..i])
        invariant repo.Valid() && NoSelfReview(repo.prs, repo.assignments)
        invariant repo.teams == old(repo.teams) && repo.users == old(repo.users)
        invariant repo.prs == old(repo.prs) && repo.clock == old(repo.clock)
        invariant seen == Elems(reassigned) && seen <= done && Distinct(reassigned)
        invariant forall p | p !in done :: ReviewersOf(repo.assignments, p) == ReviewersOf(old(repo.assignments), p)
        invariant forall p | p in done ::
          Swept(old(repo.users), old(repo.prs), old(repo.assignments), repo.assignments, departing, p, p in seen)
      {
        var prId := affected[i];
        ghost var rowsBefore := repo.assignments;
        ghost var seenBefore := seen;
        PrefixElems(affected, i);
        var replaced := ReplaceDepartingReviewers(prId, deactivated);
        if replaced && prId !in seen {
          AppendElems(reassigned, prId);
          reassigned := reassigned + [prId];
          seen := seen + {prId};
        }
        SweepAdvance(old(repo.users), old(repo.prs), old(repo.assignments), rowsBefore, repo.assignments,
                     departing, prId, done, seenBefore, seen);
        done := done + {prId};
        i := i + 1;
      }
      assert affected[..i] == affected;
    }

    /** Deactivate every active member of a team, first moving their OPEN
        reviews to active members of each author's team where possible.
        Returns the deactivated ids and the pull requests that received a
        replacement. */
    method BulkDeactivateTeam(teamName: string)
      returns (deactivated: seq<string>, reassigned: seq<string>, err: Option<Error>)
      requires Valid()
      modifies repo
      ensures Valid()
      ensures repo.teams == old(repo.teams) && repo.prs == old(repo.prs) && repo.clock == old(repo.clock)
      ensures (teamName !in old(repo.teams) && TeamMembers(old(repo.users), teamName) == {}) ==>
        err == Some(TeamNotFound) && repo.users == old(repo.users) && repo.assignments == old(repo.assignments)
      ensures !(teamName !in old(repo.teams) && TeamMembers(old(repo.users), teamName) == {}) ==>
        var departing := ActiveInTeam(old(repo.users), teamName);
        var affected := OpenWithAnyReviewer(old(repo.prs), old(repo.assignments), departing);
        && err == None
        && Elems(deactivated) == departing && Distinct(deactivated)
        && repo.users == Deactivated(old(repo.users), teamName)
        && Elems(reassigned) <= affected && Distinct(reassigned)
        && (forall p | p !in affected :: ReviewersOf(repo.assignments, p) == ReviewersOf(old(repo.assignments), p))
        && (forall p | p in affected ::
              Swept(old(repo.users), old(repo.prs), old(repo.assignments), repo.assignments, departing, p,
                    p in Elems(reassigned)))
    {
      var team := repo.GetTeam(teamName);
      if team.Err? {
        return [], [], Some(TeamNotFound);
      }
      deactivated := repo.GetUsersByTeamForDeactivation(teamName);
      if |deactivated| == 0 {
        ElemsEmpty(deactivated);
        DeactivatedNoActive(repo.users, teamName);
        return [], [], None;
      }
      var affected := repo.GetOpenPRsWithReviewers(deactivated);
      forall p | p in affected ensures ReviewersOf(repo.assignments, p) * Elems(deactivated) != {} {
        assert p in Elems(affected);
      }
      reassigned := SweepPullRequests(affected, deactivated);
      var _ := repo.BulkDeactivateUsersByTeam(teamName);
      err := None;
    }
  }
}
