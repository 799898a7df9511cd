/** The records exchanged between the store, the assignment engine and its
    callers: teams, users, pull requests, statistics and error codes. */
module Models {

  datatype Option<T> = None | Some(value: T)

  datatype PullRequestStatus = Open | Merged

  /** A team member as listed in a team-creation request or a team lookup. */
  datatype TeamMember = TeamMember(userId: string, username: string, isActive: bool)

  datatype Team = Team(teamName: string, members: seq<TeamMember>)

  datatype User = User(userId: string, username: string, teamName: string, isActive: bool)

  /** A pull request with its reviewers. `createdAt` is the store's creation
      stamp: a counter that grows with every inserted pull request. */
  datatype PullRequest = PullRequest(
    pullRequestId: string,
    pullRequestName: string,
    authorId: string,
    status: PullRequestStatus,
    assignedReviewers: seq<string>,
    needMoreReviewers: bool,
    createdAt: nat)

  datatype PullRequestShort = PullRequestShort(
    pullRequestId: string,
    pullRequestName: string,
    authorId: string,
    status: PullRequestStatus)

  datatype UserReviewStats = UserReviewStats(
    userId: string,
    username: string,
    totalAssignments: nat,
    openAssignments: nat,
    mergedAssignments: nat)

  datatype PRStats = PRStats(totalPrs: nat, openPrs: nat, mergedPrs: nat, totalAssignments: nat)

  datatype StatisticsResponse = StatisticsResponse(userStats: seq<UserReviewStats>, prStats: PRStats)

  /** The error codes of the service's responses. */
  datatype ErrorCode = TeamExists | PrExists | PrMerged | NotAssigned | NoCandidate | NotFound

  /** Every error the store and the engine raise. The service raises its
      conflict errors as the bare code text (Code); the others carry fixed
      messages; DuplicateKey is the database refusing a second row with the
      same primary key. */
  datatype Error =
    | Code(code: ErrorCode)
    | UserNotFound
    | AuthorNotFound
    | OldReviewerNotFound
    | TeamNotFound
    | PullRequestNotFound
    | ReviewerNotAssignedToPr
    | DuplicateKey

  datatype Result<T> = Ok(value: T) | Err(error: Error)

  /** The ids of a list of users, in order. */
  function UserIds(us: seq<User>): (ids: seq<string>)
    ensures |ids| == |us|
    ensures forall i | 0 <= i < |us| :: ids[i] == us[i].userId
  {
    seq(|us|, i requires 0 <= i < |us| => us[i].userId)
  }

  function MemberIds(ms: seq<TeamMember>): (ids: seq<string>)
    ensures |ids| == |ms|
    ensures forall i | 0 <= i < |ms| :: ids[i] == ms[i].userId
  {
    seq(|ms|, i requires 0 <= i < |ms| => ms[i].userId)
  }

  function ShortIds(rs: seq<PullRequestShort>): (ids: seq<string>)
    ensures |ids| == |rs|
    ensures forall i | 0 <= i < |rs| :: ids[i] == rs[i].pullRequestId
  {
    seq(|rs|, i requires 0 <= i < |rs| => rs[i].pullRequestId)
  }

  function StatIds(ss: seq<UserReviewStats>): (ids: seq<string>)
    ensures |ids| == |ss|
    ensures forall i | 0 <= i < |ss| :: ids[i] == ss[i].userId
  {
    seq(|ss|, i requires 0 <= i < |ss| => ss[i].userId)
  }

  function Min(a: int, b: int): int
  {
    if a < b then a else b
  }
}
