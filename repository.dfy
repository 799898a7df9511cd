/** The store behind the service: the teams, users, pull_requests and
    pull_request_reviewers tables, kept in memory. Each store operation is
    one atomic step; a transaction that fails leaves every table as it was. */
module Repository {
  import opened Models
  import opened Collections
  import opened Ordering

  /** A row of the users table, keyed by user_id. */
  datatype UserRow = UserRow(username: string, teamName: string, isActive: bool)

  /** A row of the pull_requests table, keyed by pull_request_id. */
  datatype PrRow = PrRow(
    name: string,
    authorId: string,
    status: PullRequestStatus,
    needMoreReviewers: bool,
    createdAt: nat)

  // ---------------------------------------------------------------------
  // Views of the tables used by the contracts

  /** The reviewers assigned to `prId`, from (pull_request_id, reviewer_id) rows. */
  function ReviewersOf(rows: set<(string, string)>, prId: string): set<string>
  {
    set a | a in rows && a.0 == prId :: a.1
  }

  /** The pull requests `userId` reviews. */
  function AssignedPrs(rows: set<(string, string)>, userId: string): set<string>
  {
    set a | a in rows && a.1 == userId :: a.0
  }

  /** The rows that assign each of `reviewers` to `prId`. */
  function RowsFor(prId: string, reviewers: seq<string>): set<(string, string)>
  {
    set r | r in reviewers :: (prId, r)
  }

  function TeamMembers(users: map<string, UserRow>, teamName: string): set<string>
  {
    set id | id in users && users[id].teamName == teamName
  }

  function ActiveInTeam(users: map<string, UserRow>, teamName: string): set<string>
  {
    set id | id in users && users[id].teamName == teamName && users[id].isActive
  }

  function WithStatus(prs: map<string, PrRow>, ids: set<string>, status: PullRequestStatus): set<string>
  {
    set p | p in ids && p in prs && prs[p].status == status
  }

  /** The OPEN pull requests that have at least one reviewer in `ids`. */
  function OpenWithAnyReviewer(prs: map<string, PrRow>, rows: set<(string, string)>, ids: set<string>): set<string>
  {
    set p | p in prs && prs[p].status == Open && ReviewersOf(rows, p) * ids != {}
  }

  function AsUser(users: map<string, UserRow>, id: string): User
    requires id in users
  {
    User(id, users[id].username, users[id].teamName, users[id].isActive)
  }

  /** `pr` is what a lookup of its id returns: the row's fields and the
      reviewers sorted by id. */
  ghost predicate Shows(pr: PullRequest, prs: map<string, PrRow>, rows: set<(string, string)>)
  {
    && pr.pullRequestId in prs
    && prs[pr.pullRequestId]
       == PrRow(pr.pullRequestName, pr.authorId, pr.status, pr.needMoreReviewers, pr.createdAt)
    && Elems(pr.assignedReviewers) == ReviewersOf(rows, pr.pullRequestId)
    && SortedBy(IdLess, pr.assignedReviewers)
  }

  /** ORDER BY created_at DESC. */
  function NewestFirst(prs: map<string, PrRow>): (string, string) -> bool
  {
    (a, b) => a in prs && b in prs && prs[a].createdAt > prs[b].createdAt
  }

  /** ORDER BY total_assignments DESC, user_id. */
  predicate StatsBefore(rows: set<(string, string)>, a: string, b: string)
  {
    var ta, tb := |AssignedPrs(rows, a)|, |AssignedPrs(rows, b)|;
    ta > tb || (ta == tb && IdLess(a, b))
  }

  function StatsOrder(rows: set<(string, string)>): (string, string) -> bool
  {
    (a, b) => StatsBefore(rows, a, b)
  }

  // ---------------------------------------------------------------------
  // Facts about the views

  /** A user's statistics row: the pull requests they review, in total, still
      OPEN and MERGED. */
  function StatsOf(users: map<string, UserRow>, prs: map<string, PrRow>, rows: set<(string, string)>,
                   id: string): UserReviewStats
    requires id in users
  {
    var reviewed := AssignedPrs(rows, id);
    UserReviewStats(id, users[id].username, |reviewed|,
                    |WithStatus(prs, reviewed, Open)|, |WithStatus(prs, reviewed, Merged)|)
  }

  /** A shown pull request lists each of its reviewers once. */
  lemma ShownReviewers(pr: PullRequest, prs: map<string, PrRow>, rows: set<(string, string)>)
    requires Shows(pr, prs, rows)
    ensures Distinct(pr.assignedReviewers)
    ensures |pr.assignedReviewers| == |ReviewersOf(rows, pr.pullRequestId)|
  {
    IdLessIsStrictTotal(Elems(pr.assignedReviewers));
    SortedIsDistinct(IdLess, pr.assignedReviewers);
    DistinctCard(pr.assignedReviewers);
  }

  /** Removing one assigned reviewer of a pull request and adding one it does
      not have keeps its number of reviewers. */
  lemma SwapKeepsReviewerCount(rows: set<(string, string)>, prId: string, oldId: string, newId: string)
    requires (prId, oldId) in rows
    requires (prId, newId) !in rows - {(prId, oldId)}
    ensures ReviewersOf(rows - {(prId, oldId)} + {(prId, newId)}, prId)
         == ReviewersOf(rows, prId) - {oldId} + {newId}
    ensures oldId in ReviewersOf(rows, prId) && newId !in ReviewersOf(rows, prId) - {oldId}
    ensures |ReviewersOf(rows - {(prId, oldId)} + {(prId, newId)}, prId)| == |ReviewersOf(rows, prId)|
    ensures forall q | q != prId ::
      ReviewersOf(rows - {(prId, oldId)} + {(prId, newId)}, q) == ReviewersOf(rows, q)
  {
    var after := rows - {(prId, oldId)} + {(prId, newId)};
    assert ReviewersOf(after, prId) == ReviewersOf(rows, prId) - {oldId} + {newId};
    forall q | q != prId ensures ReviewersOf(after, q) == ReviewersOf(rows, q) {
      assert forall r :: (q, r) in after <==> (q, r) in rows;
    }
  }

  /** The reviewer rows of a list depend only on which ids it holds. */
  lemma RowsForElems(prId: string, a: seq<string>, b: seq<string>)
    requires Elems(a) == Elems(b)
    ensures RowsFor(prId, a) == RowsFor(prId, b)
  {
    assert forall r :: r in a <==> r in Elems(a);
    assert forall r :: r in b <==> r in Elems(b);
  }

  /** A reviewer of a pull request is one with a row for it. */
  lemma ReviewerRow(rows: set<(string, string)>, prId: string, r: string)
    ensures (prId, r) in rows <==> r in ReviewersOf(rows, prId)
  {
  }

  /** The rows inserted for a new pull request are all the reviewers it has. */
  lemma NewPullRequestReviewers(rows: set<(string, string)>, prId: string, reviewers: seq<string>)
    requires forall a | a in rows :: a.0 != prId
    ensures ReviewersOf(rows + RowsFor(prId, reviewers), prId) == Elems(reviewers)
  {
  }

  /** Every pull request is either OPEN or MERGED, so the two counts add up. */
  lemma PartitionByStatus(prs: map<string, PrRow>, ids: set<string>)
    requires ids <= prs.Keys
    ensures |WithStatus(prs, ids, Open)| + |WithStatus(prs, ids, Merged)| == |ids|
  {
    var o, m := WithStatus(prs, ids, Open), WithStatus(prs, ids, Merged);
    assert o + m == ids;
    assert o * m == {};
  }

  /** A list of statistics built one per user, in the order of `ids`, lists
      every user once, in that order, with open and merged counts adding up
      to the total. */
  lemma StatsListFacts(users: map<string, UserRow>, prs: map<string, PrRow>, rows: set<(string, string)>,
                       ids: seq<string>, r: seq<UserReviewStats>)
    requires forall a | a in rows :: a.0 in prs
    requires Elems(ids) == users.Keys && SortedBy(StatsOrder(rows), ids)
    requires |r| == |ids|
    requires forall k | 0 <= k < |ids| :: ids[k] in users && r[k] == StatsOf(users, prs, rows, ids[k])
    ensures Elems(StatIds(r)) == users.Keys && Distinct(StatIds(r))
    ensures SortedBy(StatsOrder(rows), StatIds(r))
    ensures forall s | s in r :: s.userId in users && s == StatsOf(users, prs, rows, s.userId)
    ensures forall s | s in r :: s.openAssignments + s.mergedAssignments == s.totalAssignments
  {
    assert StatIds(r) == ids;
    StatsOrderIsStrictTotal(rows, users.Keys);
    SortedIsDistinct(StatsOrder(rows), ids);
    forall s | s in r ensures s.openAssignments + s.mergedAssignments == s.totalAssignments {
      assert AssignedPrs(rows, s.userId) <= prs.Keys;
      PartitionByStatus(prs, AssignedPrs(rows, s.userId));
    }
  }

  /** With distinct creation stamps, newest-first is a strict total order. */
  lemma NewestFirstIsStrictTotal(prs: map<string, PrRow>, s: set<string>)
    requires s <= prs.Keys
    requires forall p, q | p in prs && q in prs && p != q :: prs[p].createdAt != prs[q].createdAt
    ensures StrictTotalOn(NewestFirst(prs), s)
  {
  }

  lemma StatsOrderIsStrictTotal(rows: set<(string, string)>, s: set<string>)
    ensures StrictTotalOn(StatsOrder(rows), s)
  {
    var before := StatsOrder(rows);
    forall a | a in s ensures !before(a, a) {
      IdLessIrreflexive(a);
    }
    forall a, b | a in s && b in s && a != b ensures before(a, b) || before(b, a) {
      IdLessConnected(a, b);
    }
    forall a, b, c | a in s && b in s && c in s && before(a, b) && before(b, c)
      ensures before(a, c)
    {
      if IdLess(a, b) && IdLess(b, c) {
        IdLessTransitive(a, b, c);
      }
    }
  }

  lemma JoinIsOpenWithAnyReviewer(prs: map<string, PrRow>, rows: set<(string, string)>, ids: seq<string>)
    ensures (set a | a in rows && a.1 in ids && a.0 in prs && prs[a.0].status == Open :: a.0)
         == OpenWithAnyReviewer(prs, rows, Elems(ids))
  {
    var join := set a | a in rows && a.1 in ids && a.0 in prs && prs[a.0].status == Open :: a.0;
    forall p | p in OpenWithAnyReviewer(prs, rows, Elems(ids)) ensures p in join {
      var r :| r in ReviewersOf(rows, p) * Elems(ids);
      assert (p, r) in rows;
    }
    forall p | p in join ensures p in OpenWithAnyReviewer(prs, rows, Elems(ids)) {
      var a :| a in rows && a.1 in ids && a.0 in prs && prs[a.0].status == Open && a.0 == p;
      assert a.1 in ReviewersOf(rows, p) * Elems(ids);
    }
  }

  /** The users table after every active member of `teamName` is deactivated. */
  function Deactivated(users: map<string, UserRow>, teamName: string): (r: map<string, UserRow>)
    ensures r.Keys == users.Keys
    ensures forall id | id in r ::
      r[id] == users[id].(isActive := users[id].isActive && users[id].teamName != teamName)
  {
    map id | id in users ::
      if users[id].teamName == teamName && users[id].isActive then users[id].(isActive := false) else users[id]
  }

  /** Deactivating a team with no active member changes nothing. */
  lemma DeactivatedNoActive(users: map<string, UserRow>, teamName: string)
    requires ActiveInTeam(users, teamName) == {}
    ensures Deactivated(users, teamName) == users
  {
    forall id | id in users ensures Deactivated(users, teamName)[id] == users[id] {
      assert id !in ActiveInTeam(users, teamName);
    }
  }

  // ---------------------------------------------------------------------
  // The store

  class Store {
    var teams: set<string>
    var users: map<string, UserRow>
    var prs: map<string, PrRow>
    /** pull_request_reviewers: (pull_request_id, reviewer_id); a pair occurs at most once. */
    var assignments: set<(string, string)>
    /** The creation stamp the next pull request gets. */
    var clock: nat

    /** Every reviewer row names an existing pull request. */
    ghost predicate RowsReferToPrs()
      reads this
    {
      forall a | a in assignments :: a.0 in prs
    }

    /** Creation stamps are distinct and below the clock. */
    ghost predicate StampsDistinct()
      reads this
    {
      && (forall p | p in prs :: prs[p].createdAt < clock)
      && (forall p, q | p in prs && q in prs && p != q :: prs[p].createdAt != prs[q].createdAt)
    }

    ghost predicate Valid()
      reads this
    {
      RowsReferToPrs() && StampsDistinct()
    }

    constructor ()
      ensures Valid()
      ensures teams == {} && users == map[] && prs == map[] && assignments == {}
    {
      teams, users, prs, assignments, clock := {}, map[], map[], {}, 0;
    }

    // --- Teams

    method CreateTeam(teamName: string) returns (err: Option<Error>)
      requires Valid()
      modifies this
      ensures Valid()
      ensures err == if teamName in old(teams) then Some(DuplicateKey) else None
      ensures teams == old(teams) + {teamName}
      ensures users == old(users) && prs == old(prs)
      ensures assignments == old(assignments) && clock == old(clock)
    {
      if teamName in teams {
        return Some(DuplicateKey);
      }
      teams := teams + {teamName};
      return None;
    }

    method TeamExists(teamName: string) returns (found: bool)
      ensures found <==> teamName in teams
    {
      found := teamName in teams;
    }

    /** The team's members sorted by id; a team without members is found only
        if its name is in the teams table. */
    method GetTeam(teamName: string) returns (r: Result<Team>)
      ensures r.Err? <==> teamName !in teams && TeamMembers(users, teamName) == {}
      ensures r.Err? ==> r.error == TeamNotFound
      ensures r.Ok? ==> r.value.teamName == teamName
      ensures r.Ok? ==> Elems(MemberIds(r.value.members)) == TeamMembers(users, teamName)
      ensures r.Ok? ==> SortedBy(IdLess, MemberIds(r.value.members))
      ensures r.Ok? ==> forall m | m in r.value.members ::
        m.userId in users && m == TeamMember(m.userId, users[m.userId].username, users[m.userId].isActive)
    {
      IdLessIsStrictTotal(TeamMembers(users, teamName));
      var ids := SortBy(TeamMembers(users, teamName), IdLess);
      var members: seq<TeamMember> := [];
      var i := 0;
      while i < |ids|
        invariant 0 <= i <= |ids|
        invariant MemberIds(members) == ids[..i]
        invariant forall m | m in members ::
          m.userId in users && m == TeamMember(m.userId, users[m.userId].username, users[m.userId].isActive)
      {
        assert ids[i] in Elems(ids);
        var row := users[ids[i]];
        members := members + [TeamMember(ids[i], row.username, row.isActive)];
        i := i + 1;
      }
      assert ids[..i] == ids;
      if |members| == 0 {
        ElemsEmpty(ids);
        var found := TeamExists(teamName);
        if !found {
          return Err(TeamNotFound);
        }
      }
      return Ok(Team(teamName, members));
    }

    // --- Users

    /** Insert the user, or overwrite every field of the existing row. */
    method CreateOrUpdateUser(user: User)
      requires Valid()
      modifies this
      ensures Valid()
      ensures users == old(users)[user.userId := UserRow(user.username, user.teamName, user.isActive)]
      ensures teams == old(teams) && prs == old(prs)
      ensures assignments == old(assignments) && clock == old(clock)
    {
      users := users[user.userId := UserRow(user.username, user.teamName, user.isActive)];
    }

    method GetUser(userId: string) returns (r: Result<User>)
      ensures r.Ok? <==> userId in users
      ensures r.Ok? ==> r.value == AsUser(users, userId)
      ensures r.Err? ==> r.error == UserNotFound
    {
      if userId !in users {
        return Err(UserNotFound);
      }
      return Ok(AsUser(users, userId));
    }

    /** Set the active flag of one user; an update that touches no row is
        "user not found". */
    method UpdateUserActive(userId: string, isActive: bool) returns (err: Option<Error>)
      requires Valid()
      modifies this
      ensures Valid()
      ensures userId !in old(users) ==> err == Some(UserNotFound) && users == old(users)
      ensures userId in old(users) ==>
        err == None && users == old(users)[userId := old(users)[userId].(isActive := isActive)]
      ensures teams == old(teams) && prs == old(prs)
      ensures assignments == old(assignments) && clock == old(clock)
    {
      var rowsAffected := 0;
      if userId in users {
        users := users[userId := users[userId].(isActive := isActive)];
        rowsAffected := 1;
      }
      if rowsAffected == 0 {
        return Some(UserNotFound);
      }
      return None;
    }

    /** The active members of the team other than `excludeUserId`, sorted by id. */
    method GetActiveUsersByTeam(teamName: string, excludeUserId: string) returns (r: seq<User>)
      ensures Elems(UserIds(r)) == ActiveInTeam(users, teamName) - {excludeUserId}
      ensures SortedBy(IdLess, UserIds(r)) && Distinct(UserIds(r))
      ensures forall u | u in r :: u.userId in users && u == AsUser(users, u.userId)
    {
      var matching := ActiveInTeam(users, teamName) - {excludeUserId};
      IdLessIsStrictTotal(matching);
      var ids := SortBy(matching, IdLess);
      r := [];
      var i := 0;
      while i < |ids|
        invariant 0 <= i <= |ids|
        invariant UserIds(r) == ids[..i]
        invariant forall u | u in r :: u.userId in users && u == AsUser(users, u.userId)
      {
        assert ids[i] in Elems(ids);
        r := r + [AsUser(users, ids[i])];
        i := i + 1;
      }
      assert ids[..i] == ids;
      SortedIsDistinct(IdLess, ids);
    }

    method GetUserTeam(userId: string) returns (r: Result<string>)
      ensures userId in users ==> r == Ok(users[userId].teamName)
      ensures userId !in users ==> r == Err(UserNotFound)
    {
      if userId !in users {
        return Err(UserNotFound);
      }
      return Ok(users[userId].teamName);
    }

    // --- Pull requests

    /** Insert the pull request row and one reviewer row per listed reviewer,
        all or nothing: a second row with an existing key aborts the whole
        transaction. */
    method CreatePullRequest(pr: PullRequest) returns (err: Option<Error>)
      requires Valid()
      modifies this
      ensures Valid()
      ensures err.None? <==> pr.pullRequestId !in old(prs) && Distinct(pr.assignedReviewers)
      ensures err.Some? ==> err.value == DuplicateKey
      ensures err.Some? ==> prs == old(prs) && assignments == old(assignments) && clock == old(clock)
      ensures err.None? ==>
        && prs == old(prs)[pr.pullRequestId :=
             PrRow(pr.pullRequestName, pr.authorId, pr.status, pr.needMoreReviewers, old(clock))]
        && assignments == old(assignments) + RowsFor(pr.pullRequestId, pr.assignedReviewers)
        && clock == old(clock) + 1
      ensures teams == old(teams) && users == old(users)
    {
      var id := pr.pullRequestId;
      if id in prs {
        return Some(DuplicateKey);
      }
      var pending: set<(string, string)> := {};
      var i := 0;
      while i < |pr.assignedReviewers|
        invariant 0 <= i <= |pr.assignedReviewers|
        invariant pending == RowsFor(id, pr.assignedReviewers[..i])
        invariant Distinct(pr.assignedReviewers[..i])
      {
        var row := (id, pr.assignedReviewers[i]);
        if row in assignments || row in pending {
          assert pr.assignedReviewers[i] in pr.assignedReviewers[..i];
          return Some(DuplicateKey);
        }
        pending := pending + {row};
        i := i + 1;
      }
      assert pr.assignedReviewers[..i] == pr.assignedReviewers;
      prs := prs[id := PrRow(pr.pullRequestName, pr.authorId, pr.status, pr.needMoreReviewers, clock)];
      assignments := assignments + pending;
      clock := clock + 1;
      return None;
    }

    method PullRequestExists(prId: string) returns (found: bool)
      ensures found <==> prId in prs
    {
      found := prId in prs;
    }

    /** The pull request with its reviewers sorted ascending by id. */
    method GetPullRequest(prId: string) returns (r: Result<PullRequest>)
      ensures r.Err? <==> prId !in prs
      ensures r.Err? ==> r.error == PullRequestNotFound
      ensures r.Ok? ==> r.value.pullRequestId == prId && Shows(r.value, prs, assignments)
    {
      if prId !in prs {
        return Err(PullRequestNotFound);
      }
      var row := prs[prId];
      IdLessIsStrictTotal(ReviewersOf(assignments, prId));
      var reviewers := SortBy(ReviewersOf(assignments, prId), IdLess);
      return Ok(PullRequest(prId, row.name, row.authorId, row.status, reviewers, row.needMoreReviewers, row.createdAt));
    }

    /** OPEN becomes MERGED; a MERGED pull request is left as it is and the
        call still succeeds; an unknown id is "pull request not found". */
    method MergePullRequest(prId: string) returns (err: Option<Error>)
      requires Valid()
      modifies this
      ensures Valid()
      ensures err.Some? <==> prId !in old(prs)
      ensures err.Some? ==> err.value == PullRequestNotFound
      ensures prId in old(prs) && old(prs)[prId].status == Open ==>
        prs == old(prs)[prId := old(prs)[prId].(status := Merged)]
      ensures prId !in old(prs) || old(prs)[prId].status == Merged ==> prs == old(prs)
      ensures teams == old(teams) && users == old(users)
      ensures assignments == old(assignments) && clock == old(clock)
    {
      var rowsAffected := 0;
      if prId in prs && prs[prId].status == Open {
        prs := prs[prId := prs[prId].(status := Merged)];
        rowsAffected := 1;
      }
      if rowsAffected == 0 {
        var found := PullRequestExists(prId);
        if !found {
          return Some(PullRequestNotFound);
        }
      }
      return None;
    }

    /** In one transaction: check that the old pair exists, delete it, insert
        the new pair. A missing old pair or an insert that would duplicate a
        pair rolls everything back. */
    method ReassignReviewer(prId: string, oldReviewerId: string, newReviewerId: string)
      returns (err: Option<Error>)
      requires Valid()
      modifies this
      ensures Valid()
      ensures (prId, oldReviewerId) !in old(assignments) ==>
        err == Some(ReviewerNotAssignedToPr) && assignments == old(assignments)
      ensures ((prId, oldReviewerId) in old(assignments)
               && (prId, newReviewerId) in old(assignments) - {(prId, oldReviewerId)}) ==>
        err == Some(DuplicateKey) && assignments == old(assignments)
      ensures ((prId, oldReviewerId) in old(assignments)
               && (prId, newReviewerId) !in old(assignments) - {(prId, oldReviewerId)}) ==>
        && err == None
        && assignments == old(assignments) - {(prId, oldReviewerId)} + {(prId, newReviewerId)}
      ensures teams == old(teams) && users == old(users) && prs == old(prs) && clock == old(clock)
    {
      if (prId, oldReviewerId) !in assignments {
        return Some(ReviewerNotAssignedToPr);
      }
      var remaining := assignments - {(prId, oldReviewerId)};
      if (prId, newReviewerId) in remaining {
        return Some(DuplicateKey);
      }
      assignments := remaining + {(prId, newReviewerId)};
      return None;
    }

    /** The pull requests the user reviews, newest first. */
    method GetPullRequestsByReviewer(reviewerId: string) returns (r: seq<PullRequestShort>)
      requires Valid()
      ensures Elems(ShortIds(r)) == AssignedPrs(assignments, reviewerId)
      ensures SortedBy(NewestFirst(prs), ShortIds(r)) && Distinct(ShortIds(r))
      ensures forall s | s in r ::
        && s.pullRequestId in prs
        && s == PullRequestShort(s.pullRequestId, prs[s.pullRequestId].name,
                                 prs[s.pullRequestId].authorId, prs[s.pullRequestId].status)
    {
      var reviewed := AssignedPrs(assignments, reviewerId);
      NewestFirstIsStrictTotal(prs, reviewed);
      var ids := SortBy(reviewed, NewestFirst(prs));
      r := [];
      var i := 0;
      while i < |ids|
        invariant 0 <= i <= |ids|
        invariant ShortIds(r) == ids[..i]
        invariant forall s | s in r ::
          && s.pullRequestId in prs
          && s == PullRequestShort(s.pullRequestId, prs[s.pullRequestId].name,
                                   prs[s.pullRequestId].authorId, prs[s.pullRequestId].status)
      {
        assert ids[i] in Elems(ids);
        var row := prs[ids[i]];
        r := r + [PullRequestShort(ids[i], row.name, row.authorId, row.status)];
        i := i + 1;
      }
      assert ids[..i] == ids;
      SortedIsDistinct(NewestFirst(prs), ids);
    }

    // --- Statistics

    /** One entry per user, including users with no assignment, ordered by
        number of assignments (most first) and then by id. */
    method GetUserReviewStats() returns (r: seq<UserReviewStats>)
      requires RowsReferToPrs()
      ensures Elems(StatIds(r)) == users.Keys && Distinct(StatIds(r))
      ensures SortedBy(StatsOrder(assignments), StatIds(r))
      ensures forall s | s in r :: s.userId in users && s == StatsOf(users, prs, assignments, s.userId)
      ensures forall s | s in r :: s.openAssignments + s.mergedAssignments == s.totalAssignments
    {
      StatsOrderIsStrictTotal(assignments, users.Keys);
      var ids := SortBy(users.Keys, StatsOrder(assignments));
      r := [];
      var i := 0;
      while i < |ids|
        invariant 0 <= i <= |ids|
        invariant |r| == i
        invariant forall k | 0 <= k < i :: ids[k] in users && r[k] == StatsOf(users, prs, assignments, ids[k])
      {
        var id := ids[i];
        assert id in Elems(ids);
        var reviewed := AssignedPrs(assignments, id);
        var stat := UserReviewStats(id, users[id].username, |reviewed|,
                                    |WithStatus(prs, reviewed, Open)|, |WithStatus(prs, reviewed, Merged)|);
        r := r + [stat];
        i := i + 1;
      }
      StatsListFacts(users, prs, assignments, ids, r);
    }

    method GetPRStats() returns (r: PRStats)
      ensures r.totalPrs == |prs| && r.totalAssignments == |assignments|
      ensures r.openPrs == |WithStatus(prs, prs.Keys, Open)|
      ensures r.mergedPrs == |WithStatus(prs, prs.Keys, Merged)|
      ensures r.openPrs + r.mergedPrs == r.totalPrs
    {
      PartitionByStatus(prs, prs.Keys);
      r := PRStats(|prs|, |WithStatus(prs, prs.Keys, Open)|, |WithStatus(prs, prs.Keys, Merged)|, |assignments|);
    }

    // --- Bulk deactivation

    /** The ids of the team's active members, in no particular order. */
    method GetUsersByTeamForDeactivation(teamName: string) returns (r: seq<string>)
      ensures Elems(r) == ActiveInTeam(users, teamName) && Distinct(r)
    {
      r := Enumerate(ActiveInTeam(users, teamName));
    }

    /** Deactivate every active member of the team and return who they were. */
    method BulkDeactivateUsersByTeam(teamName: string) returns (r: seq<string>)
      requires Valid()
      modifies this
      ensures Valid()
      ensures Elems(r) == ActiveInTeam(old(users), teamName) && Distinct(r)
      ensures users == Deactivated(old(users), teamName)
      ensures teams == old(teams) && prs == old(prs)
      ensures assignments == old(assignments) && clock == old(clock)
    {
      r := GetUsersByTeamForDeactivation(teamName);
      if |r| == 0 {
        ElemsEmpty(r);
        DeactivatedNoActive(users, teamName);
        return [];
      }
      users := Deactivated(users, teamName);
    }

    /** The distinct ids of the OPEN pull requests with at least one reviewer
        among `reviewerIds`, in no particular order. */
    method GetOpenPRsWithReviewers(reviewerIds: seq<string>) returns (r: seq<string>)
      ensures |reviewerIds| == 0 ==> r == []
      ensures Elems(r) == OpenWithAnyReviewer(prs, assignments, Elems(reviewerIds)) && Distinct(r)
    {
      if |reviewerIds| == 0 {
        assert Elems(reviewerIds) == {};
        return [];
      }
      var join := set a | a in assignments && a.1 in reviewerIds && a.0 in prs && prs[a.0].status == Open :: a.0;
      JoinIsOpenWithAnyReviewer(prs, assignments, reviewerIds);
      r := Enumerate(join);
    }
  }
}
