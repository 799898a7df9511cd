# Reviewer assignment service — a Dafny model

This project models the core of a pull request reviewer assignment service.
Teams group users. Each user is active or not. A pull request is created OPEN by
an author, and the service assigns it up to two reviewers. The reviewers are
drawn at random from the author's active teammates. A reviewer can be
replaced by a random active member of their own team. A pull request can be
merged, and merging it again succeeds without changing anything. Statistics
count assignments per user and pull requests per status. A whole team can be
deactivated at once. Before that happens, its members' places on OPEN pull
requests are handed to other active members of each author's team.

The model has six modules:

- `Models` (`models.dfy`): the records of the service. These are teams,
  members, users, pull requests with their short form, statistics, and the
  error codes.
- `Repository` (`repository.dfy`): the store, a `class Store` whose fields
  are the four tables.
  - `teams` is a set of names.
  - `users` is a map keyed by user id.
  - `prs` is a map keyed by pull request id.
  - `assignments` is the set of (pull request, reviewer) pairs.
  - `clock` is the creation stamp that the next pull request gets.

  Every store operation is a method that changes these fields in one atomic
  step. A transaction that fails leaves every table as it was. Queries with an
  `ORDER BY` return a list sorted by that order (`Collections.SortBy`).
  Queries without one return the rows in an order the model leaves open
  (`Collections.Enumerate`).
- `ReviewerSelection` (`selection.dfy`): how candidates are filtered and
  drawn.
  - The shuffle is an in-place Fisher–Yates over an array. Any permutation
    can come out.
  - The draw of one candidate takes the drawn index as an argument.
- `Service` (`service.dfy`): a `class Service` over a `Store`. Its methods
  follow the service operations step by step: the same store calls, the same
  checks, and the same errors in the same order.
- `Collections` and `Ordering`: sequence and set helpers, sorting by a strict
  total order, and the order on ids (`IdLess`, code-point lexicographic)
  that stands for `ORDER BY user_id` and `ORDER BY reviewer_id`.

The service keeps two invariants:

- `Store.Valid`: every reviewer row names an existing pull request, and the
  creation stamps are distinct and below the clock.
- `Service.Valid`: additionally, no author reviews their own pull request.

Every public service operation preserves both; the store's operations preserve `Store.Valid`.

## Model

| member | source | states |
|---|---|---|
| Repository.Store.CreateTeam | internal/repository/repository.go:19-25 | an existing name is refused as a duplicate key and nothing changes; otherwise only the teams table gains the name |
| Repository.Store.TeamExists | internal/repository/repository.go:27-31 | true exactly when the name is in the teams table |
| Repository.Store.GetTeam | internal/repository/repository.go:33-67 | the team is not found exactly when its name is unknown and it has no members; otherwise the member ids are exactly the team's users, sorted by id and without repeats, and each entry carries that user's username and active flag |
| Repository.Store.CreateOrUpdateUser | internal/repository/repository.go:74-86 | upsert: the user's row becomes the given username, team and flag; no other row or table changes |
| Repository.Store.GetUser | internal/repository/repository.go:88-102 | found exactly when the id is in the table, with that row's fields; otherwise "user not found" |
| Repository.Store.UpdateUserActive | internal/repository/repository.go:104-121 | an unknown id (zero rows affected) is "user not found" and nothing changes; otherwise only that user's active flag changes |
| Repository.Store.GetActiveUsersByTeam | internal/repository/repository.go:125-146 | exactly the team's active members other than the excluded id, sorted by id, each with its stored fields |
| Repository.Store.GetUserTeam | internal/repository/repository.go:148-155 | the user's team, or "user not found" |
| Repository.Store.CreatePullRequest | internal/repository/repository.go:158-184 | all or nothing: it succeeds exactly when the id is new and the reviewer list has no repeats; on success the new row is stamped with the clock and one reviewer row is added per listed reviewer; on failure no table changes |
| Repository.Store.PullRequestExists | internal/repository/repository.go:186-190 | true exactly when the id is in the pull_requests table |
| Repository.Store.GetPullRequest | internal/repository/repository.go:192-245 | not found exactly when the id is unknown; otherwise the row's fields with exactly its reviewers, sorted ascending by id |
| Repository.Store.MergePullRequest | internal/repository/repository.go:247-272 | OPEN becomes MERGED; an already MERGED one is left as it is and the call succeeds; an unknown id is "pull request not found" |
| Repository.Store.ReassignReviewer | internal/repository/repository.go:274-315 | a missing old pair is "reviewer is not assigned", and a new pair that already exists is a duplicate key; both roll back; otherwise exactly the old pair is replaced by the new one |
| Repository.Store.GetPullRequestsByReviewer | internal/repository/repository.go:317-339 | exactly the pull requests the user reviews, newest first, each once, with its stored name, author and status |
| Repository.Store.GetUserReviewStats | internal/repository/repository.go:342-370 | one entry per user, including users with no assignment, ordered by total descending and then by id; each carries the user's total, OPEN and MERGED counts, and OPEN plus MERGED equals the total |
| Repository.Store.GetPRStats | internal/repository/repository.go:372-386 | totals of pull requests and reviewer rows, the OPEN and MERGED counts, and OPEN plus MERGED equals the total |
| Repository.Store.GetUsersByTeamForDeactivation | internal/repository/repository.go:389-408 | exactly the team's active members, each once |
| Repository.Store.BulkDeactivateUsersByTeam | internal/repository/repository.go:410-432 | returns exactly the team's active members; the users table becomes `Deactivated`, so every other user and field is kept |
| Repository.Store.GetOpenPRsWithReviewers | internal/repository/repository.go:434-472 | an empty id list gives an empty result; otherwise exactly the OPEN pull requests with at least one reviewer among the ids, each once |
| Repository.Deactivated | internal/repository/repository.go:424-428 | same users; an active member of the team becomes inactive, and every other row is unchanged |
| Repository.DeactivatedNoActive | internal/repository/repository.go:417-419 | with no active member, the bulk update changes nothing, which is why the early return is equivalent |
| Repository.JoinIsOpenWithAnyReviewer | internal/repository/repository.go:450-455 | the join with `DISTINCT`, status and `IN` filters selects exactly the OPEN pull requests having a reviewer among the ids (both directions) |
| Repository.ShownReviewers | internal/repository/repository.go:225-243 | a fetched pull request lists each reviewer once, as many as its reviewer rows |
| Repository.SwapKeepsReviewerCount | internal/repository/repository.go:274-315 | a swap of an assigned reviewer for an unassigned one keeps the number of reviewers and touches no other pull request |
| Repository.NewPullRequestReviewers | internal/repository/repository.go:173-181 | after the insert loop, the new pull request's reviewers are exactly the listed ones |
| Repository.PartitionByStatus | internal/repository/repository.go:347-349 | every assigned pull request is OPEN or MERGED, so the two counts add up to the total |
| Repository.StatsListFacts | internal/repository/repository.go:342-370 | a list built one entry per sorted user lists every user once, in the statistics order, with consistent counts |
| Repository.NewestFirstIsStrictTotal | internal/repository/repository.go:323 | with distinct creation stamps, newest-first is a strict total order, so the sorted list is unique |
| Repository.StatsOrderIsStrictTotal | internal/repository/repository.go:354 | total descending, then id, is a strict total order |
| Ordering.IdLessIsStrictTotal | internal/repository/repository.go:40 | the id order of `ORDER BY user_id` is irreflexive, connected and transitive |
| Collections.SortBy | internal/repository/repository.go:323 | the result holds each element of the set once, sorted by the given strict total order |
| Collections.Enumerate | internal/repository/repository.go:390-392 | an unordered query result holds each element of the set exactly once |
| Collections.SortedUnique | internal/repository/repository.go:354 | two lists sorted by the same strict total order with the same elements are equal, so an `ORDER BY` result is determined |
| ReviewerSelection.FilterAssignedReviewers | internal/service/service.go:376-392 | a candidate is kept exactly when it is neither the author nor assigned, in both directions, and the list does not grow |
| ReviewerSelection.FilterIds | internal/service/service.go:376-392 | the kept ids are the candidates' ids minus the author and the assigned ones |
| ReviewerSelection.FilterKeepsDistinct | internal/service/service.go:382-390 | filtering a list with distinct ids keeps them distinct |
| ReviewerSelection.ExcludeDeparting | internal/service/service.go:310-320 | a candidate is kept exactly when it is not departing; the kept ids are the candidates' ids minus the departing ones |
| ReviewerSelection.SelectRandomReviewer | internal/service/service.go:367-373 | no candidate gives ""; otherwise the id of the candidate at the drawn index, which is among the candidates' ids |
| ReviewerSelection.Shuffle | internal/service/service.go:354-356 | the array is rearranged in place, and its multiset of users is unchanged |
| ReviewerSelection.SelectRandomReviewers | internal/service/service.go:340-365 | the first min(maxCount, number of candidates) ids of a permutation of the candidates; all are candidates' ids, without repeats when the candidates' ids are distinct |
| ReviewerSelection.PermutationKeepsIds | internal/service/service.go:351-356 | a permutation of the candidates has the same ids |
| Service.EnrollKeys | internal/service/service.go:35-45 | writing a team's members adds exactly the listed ids to the users table |
| Service.EnrollUnlisted | internal/service/service.go:35-45 | users the request does not list keep their rows |
| Service.EnrollLastWriteWins | internal/service/service.go:35-45 | for an id listed more than once, its last entry, in the new team, is what the table holds |
| Service.Service.CreateTeam | internal/service/service.go:21-48 | an existing team is TEAM_EXISTS and nothing changes; otherwise the team is added and the members are written in order (`Enroll`), with no pull request or reviewer row touched |
| Service.Service.GetTeam | internal/service/service.go:50-56 | the store's team lookup: exactly the team's users, sorted by id, each with its stored username and active flag, and "team not found" for an unknown team without members |
| Service.Service.SetUserActive | internal/service/service.go:59-64 | an unknown user is "user not found"; otherwise only the flag changes and the updated user is returned |
| Service.Service.CreatePullRequest | internal/service/service.go:69-111 | PR_EXISTS first, then "author not found"; otherwise an OPEN pull request with min(2, pool) distinct reviewers from the author's active teammates other than the author, needing more reviewers exactly when fewer than two were found, stamped with the clock, which advances by one, and no author reviewing their own pull request |
| Service.Service.MergePullRequest | internal/service/service.go:113-129 | unknown is "not found"; OPEN becomes MERGED; merging again returns the pull request unchanged |
| Service.Service.ReassignReviewer | internal/service/service.go:132-190 | errors in the service's order: not found, PR_MERGED, NOT_ASSIGNED, "old reviewer not found", NO_CANDIDATE when the pool is empty; otherwise the old reviewer is swapped for a pool member, the number of reviewers is kept, and nothing else changes |
| Service.Service.GetPullRequestsByReviewer | internal/service/service.go:192-200 | an unknown user is "user not found"; otherwise exactly the pull requests the user reviews, newest first, each once, with its stored name, author and status |
| Service.Service.GetStatistics | internal/service/service.go:203-224 | per-user statistics (every user once, ordered, each equal to the user's counts, OPEN plus MERGED equal to the total) and pull request totals: all pull requests, the OPEN ones, the MERGED ones, and all reviewer rows |
| Service.Service.ReassignReviewerForBulkDeactivation | internal/service/service.go:299-335 | an empty pool (the author's active teammates minus the author, the listed reviewers and the departing users) is NO_CANDIDATE; a success swaps in a pool member; on an untouched list a non-empty pool guarantees success; any failure changes nothing |
| Service.Service.ReplaceOneDeparting | internal/service/service.go:270-280 | one departing reviewer: a failed swap changes nothing, a successful one keeps the sweep state, and the first attempt succeeds whenever the pool is non-empty |
| Service.Service.ReplaceListedReviewers | internal/service/service.go:268-283 | over the list read once, reviewers only leave if departing and only arrive from the pool, their number stays, and the pull request is reported exactly when a non-empty id arrived, and surely when a departing reviewer had a non-empty pool |
| Service.Service.ReplaceDepartingReviewers | internal/service/service.go:257-284 | an unreadable pull request or author is skipped; otherwise as above, with the pool of the author's team; other pull requests are untouched |
| Service.Service.SweepPullRequests | internal/service/service.go:253-285 | each affected pull request is swept once (`Swept`), unaffected ones keep their reviewers, and the report lists each reassigned pull request once |
| Service.Service.BulkDeactivateTeam | internal/service/service.go:227-295 | unknown team is "team not found"; otherwise returns exactly the team's active members, deactivates exactly them, keeps pull requests, leaves non-affected reviews as they were, and sweeps each OPEN pull request they reviewed |
| Service.SweepStep | internal/service/service.go:274-281 | one successful swap keeps the sweep state and counts as a replacement exactly when the new id is not empty |
| Service.SweepAdvance | internal/service/service.go:256-285 | sweeping one more pull request settles its outcome and keeps the outcomes already settled |
| Service.SweptFrame | internal/service/service.go:256-285 | a settled outcome survives changes to other pull requests |
| Service.OthersKeepReviewers | internal/repository/repository.go:274-315 | rewriting one pull request's rows keeps every other pull request's reviewers |
| Service.NoSelfReviewAfterCreate | internal/service/service.go:86-105 | candidates exclude the author, so a new pull request is not reviewed by its author |
| Service.NoSelfReviewAfterSwap | internal/service/service.go:168-177 | a swap that brings in someone other than the author keeps authors off their own reviews |

## Left out

- HTTP handlers, middleware, the server's main and the load tests are not part of this model.
- SQL itself, connection errors, transactions racing each other, and concurrency are left out: each store call is one atomic step that cannot fail for reasons outside the tables.
- Foreign keys from reviewer and author ids to users are not modelled, because the schema is not part of this model. Only the reviewer-to-pull-request reference is kept, as an invariant.
- `created_at` is a counter (`clock`) that grows with every insert. `CURRENT_TIMESTAMP` could tie two pull requests. `merged_at` and `updated_at` are left out, because the wall clock is I/O.
- Ordering.IdLess: code-point lexicographic order stands for the database collation used by `ORDER BY user_id` and `ORDER BY reviewer_id`.
- ReviewerSelection.SelectRandomReviewers: the model does not state that the shuffle is uniform. Any permutation may come out. The seeding from the clock is left out.
- ReviewerSelection.SelectRandomReviewer: the drawn index is a parameter, and its uniformity is not stated.
- ReviewerSelection.SelectRandomReviewers: `maxCount` is a natural number. A negative count would make Go panic, and the only caller passes 2.
- Service.Service.ReassignReviewer: the branch that turns the store's "not assigned" message into NOT_ASSIGNED (service.go:178-180) cannot be taken when calls run one at a time. The old pair was checked present, so the model proves the store call succeeds.
- Repository.Store.GetOpenPRsWithReviewers: Go returns a nil slice when no row matches. The model returns the empty sequence, and the service treats both alike.
- Service.Service.BulkDeactivateTeam: the sweep reads each pull request's reviewer list once, as the service does. Two departing reviewers of one pull request can draw the same replacement. The second store swap then fails as a duplicate key and is skipped, so the contract states the per-pull-request outcome (`Swept`) rather than which rows result. A replacement with an empty id is swapped in but not reported, following the service's check that the new id is not empty (service.go:275).
- Service.Service.BulkDeactivateTeam: store errors after the first step cannot occur in the model, so the service's early returns on them are not modelled.
