# Verified model of the community backend

Green Community's backend keeps several pieces of state that are easy to get subtly
wrong: likes that live in Redis until a background job writes them to the database,
refresh tokens that may be used once, a login rate limiter, a menu tree, report
processing in one transaction, two-level comments, nested migration operations and
masked log events. This project models each of them in Dafny and proves what the
code promises, over every run rather than for single calls.

Run `dafny verify dfyconfig.toml` to check everything.

## How the model is laid out

Every stateful part has two layers. A value layer describes the state as a datatype and
each operation as a function on it; lemmas about that layer speak of whole runs. An
object layer has the classes with the fields the service updates in place; each method's
postcondition equates its effect with the function of the value layer. For each call a lemma
spells out what it answers and writes, field by field and apart from the function that
computes it.

| files | part of the system |
|---|---|
| `LikeCache`, `LikeReads`, `LikeRepository`, `LikeCount` | the write-behind like cache, reads on older rows, its flush job and `count_likes` |
| `TokenStore`, `TokenHistory`, `TokenSafety`, `TokenTtl` | refresh-token rotation and reuse detection |
| `RateLimit`, `LoginLimit`, `AuthService` | the fixed-window limiter, its use in login, the auth service |
| `MenuTable`, `MenuService`, `MenuTree`, `MenuAssembly` | the menu forest, its calls and the one-pass tree |
| `Reports`, `ReportService` | report processing |
| `Comments`, `Pagination` | comment rules, paged listing |
| `Synchronize` | the migration worklist |
| `Masking` | masking of log events |
| `Common` | options, results, ASCII lower-casing, choice from a set |

Likes. The effective set is the rows overridden by pending marks. The flush is a sequence
of small steps (GET, stage, commit, DEL), SCAN may yield keys in any order and repeatedly,
and requests run between any two steps. A request may itself be split: its check and its
SET, or its finding that there is nothing to do, are moments apart. The exact result is an
equivalence: users see the likes they asked for at every point of a run if and only if
every DEL still finds the marks the flush read and every request that wrote nothing had
nothing to do. An unlike that lands between GET and DEL is lost, and a lemma shows that run.

A request has one database transaction, whose view of the rows is fixed by its first query
(REPEATABLE READ, the default of the MySQL 8.0 in docker-compose.yml:14; no file sets
another level). That query comes before `get_like` reads Redis, so the rows are older than
the marks. `LikeReads` says exactly when the answer is still true at some instant of the
request, and when a request that found nothing to do fits into the run. `LikeCount` has the
exact error of the count when its marks and its rows are of different moments.

Tokens. `TokenHistory` holds two machines. One runs the calls on the three Redis keyspaces
with their expiry times; the other has no keys and no expiries and only remembers what
became of each token. They are proved to answer every call alike. `TokenSafety` draws the
consequences. Each call is one atomic step on a whole-second clock, identifiers handed out
are new, SHA-256 is an injective wrapper, and only a token the service issued carries a
valid signature. `TokenTtl` does the expiry arithmetic on a real-valued clock and finds when
the reuse marker ends too early.

Rate limiter. The bound over an arbitrary interval is (2 + r) * max - 1, one less than twice
the limit when nothing is reset. Matching runs, of hits and of whole logins, show that it is
tight for every limit and every number of resets; a login passes exactly while both its
counters are below the limit.

Menus. The upward walk rejects exactly the moves that make a cycle, cycles being defined by
paths and not by the walk. The tree is specified recursively, shown to exist and to be
unique, and the objects built by the pass are proved to represent it.

Reports. Posts and comments may be deleted by their authors between calls.

Where code and documentation disagree the code is modelled:

- app/core/logging_config.py:7 says that no password or token ever stays in a log. Values
  below the depth of app/core/logging_config.py:45 are not masked; `Masking.AllMaskedIff`
  says exactly when something is left, `Masking.DeepPasswordIsLogged` gives an event.
- app/common/rate_limit.py:6 speaks of at most twice the limit at a window boundary. With
  successful logins in between the counter is reset, and the bound grows with the resets.
- app/modules/posts/post_repository.py:149 wants the screen right before the write-behind
  has reached the database, and `unlike_post` is to cancel a like
  (app/modules/posts/post_service.py:231-250). An unlike is lost when it lands between GET
  and DEL (`LikeCache.UnlikeDuringFlushIsLost`), and also, with clean DELs, when a whole
  flush runs between the first query of the request and its GET
  (`LikeReads.UnlikeOnOldRowsIsLost`); in such a run `count_likes` misses likers too
  when the author reads the post; other readers commit first (app/modules/posts/post_service.py:78-83)
  and get rows newer than the marks (`LikeCount.CountOnOldRowsMisses`, `LikeCount.CountErrorIsExact`).
- app/modules/auth/service.py:123-126 promises that a reuse revokes every session. On a
  real clock a reuse in the last second before exp can be taken for an unknown token
  (`TokenTtl.LateReuseIsUnknown`); `TokenTtl.ReuseAlwaysFoundIff` says exactly when.
- app/modules/reports/report_service.py:324-329 means to hide the content of any report. A
  suspension or ban on a comment or user report fails there and is rolled back, so in every
  run these two punishments stem from post reports only (`Reports.SanctionsAreSound`).

Outside inputs are parameters: the clock, new identifiers, the bcrypt verdict, the account
row found, whether a post is published, whether mentions resolve, the order in which SCAN
and queries return their results.

## Model

| member | source | states |
|---|---|---|
| LikeCache.GetLikeIsEffective | app/modules/posts/post_repository.py:232-247 | the answer of `get_like` is membership in the effective set, in every state |
| LikeCache.InvStep | app/modules/posts/post_repository.py:256-291 | every step keeps the relation between scanned marks, staged rows and committed rows |
| LikeCache.StepAgrees | app/modules/posts/post_repository.py:256-288 | every step except DEL, rollback and stop included, moves the effective set as the ideal set of likes moves, unless a request wrote nothing with something to do |
| LikeCache.DeleteExact | app/modules/posts/post_repository.py:289-291 | DEL keeps a scanned key's value exactly when Redis still holds the mark its GET saw; other keys are untouched |
| LikeCache.DeleteAgrees | app/modules/posts/post_repository.py:289-291 | DEL changes nothing for users if and only if all scanned marks are still current |
| LikeCache.AgreementIff | app/modules/posts/post_repository.py:232-297 | over every run, effective likes equal the ideal ones at every point if and only if every DEL is clean and every request that wrote nothing had nothing to do |
| LikeCache.RightRunEndsIdeal | app/modules/posts/post_repository.py:232-297 | after such a run the effective set is the replay of the likes and unlikes alone |
| LikeCache.UndisturbedRunIsIdeal | app/modules/posts/post_repository.py:256-297 | if no key is written between its GET and the DEL and skipped requests had nothing to do, the run agrees with the ideal set at every point and at the end |
| LikeCache.UnlikeDuringFlushIsLost | app/modules/posts/post_repository.py:262-291 | a run in which an unlike between GET and DEL is lost |
| LikeReads.ReadOnOldRowsIff | app/modules/posts/post_repository.py:232-247 | rows fixed before the GET, any steps between: the answer was true at some instant between if and only if a mark is still there, or none was there when the rows were fixed, or it agreed with the row, or a step between made it true |
| LikeReads.SeenIffTurned | app/modules/posts/post_repository.py:232-297 | a key takes the other value during a run exactly when a request asks for it or a DEL loses a mark |
| LikeReads.KeptMarkReadIsCurrent | app/modules/posts/post_repository.py:235-247 | unless a DEL removed the key's mark in between, the answer on older rows is true at the GET |
| LikeReads.SkippedRequestFitsIff | app/modules/posts/post_service.py:204-250 | a request that found nothing to do acts like one step somewhere between its row view and its GET if and only if the condition of ReadOnOldRowsIff holds |
| LikeReads.WrittenRequestActsAtItsSet | app/modules/posts/post_service.py:225-250 | a request that found something to do acts like one step at its SET |
| LikeReads.UnlikeOnOldRowsIsLost | app/modules/posts/post_service.py:238-245 | a run with clean DELs in which an unlike finds nothing to do although the key is liked throughout, and fits nowhere |
| LikeReads.ReadOnNewerRowsIsLinearizable | app/modules/posts/post_repository.py:235-247 | for rows viewed after the GET, as READ COMMITTED would have it: the answer was true at some instant between the two reads; under REPEATABLE READ it covers no request of the service |
| LikeCache.FlushPersists | app/modules/posts/post_repository.py:256-291 | an undisturbed flush, for any scan order and repetitions, changes nothing for users, removes the scanned marks, and leaves rows equal to the effective set when all marks were scanned |
| LikeRepository.PostRepository.IsLiked | app/modules/posts/post_repository.py:232-247 | returns membership in the effective set |
| LikeRepository.PostRepository.AddLike | app/modules/posts/post_repository.py:251-253 | writes the liked mark of one key and nothing else |
| LikeRepository.PostRepository.DeleteLike | app/modules/posts/post_repository.py:295-297 | writes the unliked mark of one key and nothing else |
| LikeRepository.PostRepository.ScanLikeToDb | app/modules/posts/post_repository.py:256-291 | the loop performs exactly the machine's flush and keeps the effective set |
| LikeRepository.PostService.LikeThePost | app/modules/posts/post_service.py:204-229 | the like step, with the effective set gaining the key; an unpublished post is an error and changes nothing |
| LikeRepository.PostService.UnlikeThePost | app/modules/posts/post_service.py:231-250 | the unlike step, with the effective set losing the key |
| LikeCount.CountLikesIsCardinality | app/modules/posts/post_repository.py:148-173 | with marks and rows of one moment the count equals the number of users whose `get_like` is true, for any scan order and repetitions, keys gone since the SCAN, and any phase of a flush |
| LikeCount.CountErrorIsExact | app/modules/posts/post_repository.py:148-173 | with rows of another moment or an incomplete scan, the exact error: users counted for a vanished row minus likers with neither scanned mark nor viewed row |
| LikeCount.CountOnOldRows | app/modules/posts/post_repository.py:148-173 | with rows fixed before the marks are read, the count is right whenever no DEL removed a mark of the post in between |
| LikeCount.CountOnOldRowsMisses | app/modules/posts/post_repository.py:161-164 | after a whole flush in between the count is zero for one liker |
| LikeCount.CorrectionIsDifference | app/modules/posts/post_repository.py:173 | rows plus the signed sum over pending marks is the size of the overlaid set |
| TokenStore.RefreshTokenStore.SaveToken | app/modules/auth/token_store.py:73-83 | stores the hash, joins the live index and restarts the index expiry |
| TokenStore.RefreshTokenStore.VerifyToken | app/modules/auth/token_store.py:87-106 | the four verdicts from live key, hash and used marker |
| TokenStore.RefreshTokenStore.RotateToken | app/modules/auth/token_store.py:108-119 | removes the key and its index entry and leaves a marker for the remaining life, at least one second |
| TokenStore.RefreshTokenStore.RevokeToken | app/modules/auth/token_store.py:123-128 | removes one key and its index entry, without a marker |
| TokenStore.RefreshTokenStore.RevokeAllTokens | app/modules/auth/token_store.py:130-148 | the loop removes the key of every live index member and the index, and returns the number of members |
| TokenHistory.VerifyMeets | app/modules/auth/token_store.py:87-106 | the verdict on a token that still decodes is the one its history calls for |
| TokenHistory.IssueAgrees | app/modules/auth/service.py:189-194 | issuing keeps store and history in agreement |
| TokenHistory.RemoveAgrees | app/modules/auth/token_store.py:108-128 | rotating or logging out a live token keeps store and history in agreement |
| TokenHistory.SweepAgrees | app/modules/auth/token_store.py:130-148 | revoking all of a user's tokens keeps store and history in agreement |
| TokenHistory.CallAgrees | app/modules/auth/service.py:120-187 | each call answers like the history and keeps the agreement |
| TokenHistory.Refinement | app/modules/auth/service.py:62-187 | over every run the Redis store answers every call like the history that knows no keys and no expiries |
| TokenSafety.VerifyTellsHistory | app/modules/auth/token_store.py:87-106 | over every run: ACTIVE while live, REUSED exactly when exchanged before, UNKNOWN when logged out or swept, never FORGED |
| TokenSafety.ActiveIffNeverEnded | app/modules/auth/service.py:120-187 | a token stays ACTIVE exactly as long as no call exchanged it, logged it out or revoked its user's tokens |
| TokenSafety.EachTokenIssuesOnce | app/modules/auth/service.py:132-161 | over every run each refresh token yields new tokens at most once |
| TokenSafety.FatesAreFinal | app/modules/auth/token_store.py:14-22 | how a session ended never changes later |
| TokenSafety.IndexCoversActiveKeys | app/modules/auth/token_store.py:79-83 | in every reachable state a live key is in the live index of its user, which does not expire before it |
| TokenSafety.RevokeAllEndsSessions | app/modules/auth/token_store.py:130-148 | no session of the user stays live, other users keep theirs, and the count is at least the sessions ended |
| TokenSafety.EndedStaysEnded | app/modules/auth/token_store.py:87-148 | an ended session is not live after any further calls |
| TokenSafety.LogoutAllIsFinal | app/modules/auth/service.py:181-185 | after logging out everywhere no token issued before is ever live again |
| TokenSafety.ReuseEndsEverySession | app/modules/auth/service.py:135-145 | presenting an exchanged token fails, leaves no live session, and none issued before comes back |
| TokenSafety.RefreshKeepsSessionCount | app/modules/auth/service.py:151-161 | a successful refresh swaps one live session for one new one |
| TokenSafety.LoginHandsOut | app/modules/auth/service.py:86-89 | a login hands out an access and a refresh token for its user with the new ids and both lifetimes; the refresh token is ACTIVE and no other session changes |
| TokenSafety.RefreshHandsOut | app/modules/auth/service.py:132-161 | new tokens exactly for an unexpired refresh token whose hash its live key holds, of an active user; they are for the token's user and work, the old one is REUSED; otherwise denied |
| TokenSafety.HandedOutIsLive | app/modules/auth/service.py:120-200 | whatever calls follow, a handed-out refresh token is ACTIVE until its exp exactly as long as no call ends it |
| TokenTtl.Truncate | app/modules/auth/service.py:157 | truncation toward zero of the remaining seconds |
| TokenTtl.ActiveKeyOutlivesExp | app/core/security.py:93-109 | an active key never expires before its token's exp, and less than a second plus the delay after it |
| TokenTtl.MarkerEndsNearExp | app/modules/auth/token_store.py:118 | the used marker ends strictly within one second of exp, exactly at exp on a whole-second clock |
| TokenTtl.MarkerCoversLifeIff | app/modules/auth/service.py:157-158 | the marker covers the token's remaining life exactly when that is under a second or a whole number of seconds |
| TokenTtl.ReuseAlwaysFoundIff | app/modules/auth/token_store.py:87-119 | on a real clock every later use of an exchanged token is REUSED if and only if the time left at the exchange was under a second or whole; what is missed lies in the last second |
| TokenTtl.LateReuseIsUnknown | app/modules/auth/service.py:135-149 | a reuse a quarter of a second before exp is UNKNOWN and revokes nothing |
| RateLimit.RateLimiter.Hit | app/common/rate_limit.py:28-49 | one hit: count, verdict, retry time, and a running window's end never moves |
| RateLimit.RateLimiter.Reset | app/common/rate_limit.py:51-53 | removes one counter and nothing else |
| RateLimit.AllowedInAnyInterval | app/common/rate_limit.py:28-53 | in every run, any interval of one window with r resets sees at most (2 + r) * limit - 1 allowed hits |
| RateLimit.AllowedFromInside | app/common/rate_limit.py:36-42 | inside the interval a counter that lasts to its end is replaced only after a reset |
| RateLimit.BoundIsReached | app/common/rate_limit.py:6 | the bound is met by a run, for every limit, every number of resets and every window of two seconds or more |
| LoginLimit.KeysDiffer | app/modules/auth/service.py:114-116 | an address key never collides with an email key |
| LoginLimit.KeysTellApart | app/modules/auth/service.py:114-116 | emails share a counter exactly when they differ in letter case only, addresses never |
| LoginLimit.TriedIsActions | app/modules/auth/service.py:91-112 | one attempt acts on each key as a hit, or a hit and a reset, or nothing |
| LoginLimit.TimelineCounts | app/modules/auth/service.py:62-112 | passing attempts are allowed hits and successful logins are resets of the key's own timeline |
| LoginLimit.LoginBound | app/modules/auth/service.py:62-112 | over every run at most (2 + r) * max - 1 attempts per email, or per address, pass in a window with r successes |
| LoginLimit.PassesIff | app/modules/auth/service.py:91-108 | an attempt passes if and only if the running counts of its email and its address are both below the limit |
| LoginLimit.TriedLeaves | app/modules/auth/service.py:91-112 | the counts an attempt leaves: a blocked email spares the address, a success clears both, other keys stay |
| LoginLimit.LimitIsExact | app/common/rate_limit.py:36-49 | the first `max_attempts` attempts of a window pass, and then none before the window ends |
| LoginLimit.LoginBoundIsReached | app/common/rate_limit.py:6 | some run of logins meets (2 + r) * max - 1, for every limit, every number of successes and every window of two seconds or more |
| AuthService.AuthService.CheckRateLimit | app/modules/auth/service.py:91-108 | hits both keys in turn and stops at the first that blocks |
| AuthService.AuthService.ResetRateLimit | app/modules/auth/service.py:110-112 | clears both counters |
| AuthService.AuthService.Login | app/modules/auth/service.py:62-89 | succeeds exactly for good credentials under the limits; counters and store change as the two machines say |
| AuthService.AuthService.Refresh | app/modules/auth/service.py:120-161 | store and answer are those of the token machine's refresh call |
| AuthService.AuthService.Logout | app/modules/auth/service.py:165-179 | the token machine's logout, silent on undecodable tokens |
| AuthService.AuthService.LogoutAll | app/modules/auth/service.py:181-185 | the token machine's sweep, with the number of indexed tokens |
| AuthService.AuthService.IssueTokens | app/modules/auth/service.py:189-200 | a new pair whose refresh token is stored |
| MenuTable.CycleIffBelow | app/modules/menus/menu_service.py:67-87 | the move is below the menu itself exactly when it would create a cycle |
| MenuTable.ForestHasNoCycle | app/modules/menus/menu_service.py:70-73 | a table of the invariant has no cyclic path |
| MenuTable.MoveKeepsForest | app/modules/menus/menu_service.py:152-163 | an accepted move keeps a forest |
| MenuTable.CreateKeepsGood | app/modules/menus/menu_service.py:126-138 | creating keeps the forest, live parents and unique sibling names |
| MenuTable.UpdateKeepsGood | app/modules/menus/menu_service.py:140-167 | updating keeps them, although the name check runs only on a change and does not exclude the menu itself |
| MenuTable.DeleteKeepsGood | app/modules/menus/menu_service.py:169-182 | deleting keeps them |
| MenuTable.CreateAddsOneRow | app/modules/menus/menu_service.py:126-138 | one new live row under an unused id with the name and parent sent, nothing else changes |
| MenuTable.CreateRefusedIff | app/modules/menus/menu_service.py:126-132 | refused exactly for a parent that is not live or a name taken there |
| MenuTable.UpdateSetsWhatWasSent | app/modules/menus/menu_service.py:159-163 | each field sent has the value sent, each other field stays, no other row changes |
| MenuTable.UpdateRefusedIff | app/modules/menus/menu_service.py:140-158 | each error with its exact condition; a move is cyclic exactly when a path leads up to the menu itself, and the name check, though it may meet the menu itself, refuses exactly when another live menu has the name there |
| MenuTable.DeleteEndsOneMenu | app/modules/menus/menu_service.py:169-182 | refused exactly when not live or with live children; otherwise that row alone stops being live |
| MenuTable.ApplyKeepsGood | app/modules/menus/menu_service.py:126-182 | every call keeps the invariant and a refused call changes nothing |
| MenuTable.RunsKeepTheForest | app/modules/menus/menu_service.py:126-182 | over every run: acyclic, live parents, unique names among live siblings and at the top |
| MenuService.MenuService.EnsureNotOwnDescendant | app/modules/menus/menu_service.py:67-87 | the walk terminates and rejects exactly when the menu is the new parent or above it |
| MenuService.MenuService.EnsureParentExists | app/modules/menus/menu_service.py:46-56 | a parent that is not live is an error |
| MenuService.MenuService.EnsureNameAvailable | app/modules/menus/menu_service.py:58-65 | a live sibling of the same name is an error, at top level too |
| MenuService.MenuService.Create | app/modules/menus/menu_service.py:126-138 | the create call of the table |
| MenuService.MenuService.Update | app/modules/menus/menu_service.py:140-167 | the update call of the table, with all errors in order |
| MenuService.MenuService.Delete | app/modules/menus/menu_service.py:169-182 | the delete call of the table |
| MenuTree.TreeIsUnique | app/modules/menus/menu_service.py:93-117 | the recursive definition fixes the tree of a menu |
| MenuTree.ForestExists | app/modules/menus/menu_service.py:93-117 | every reachable table has exactly one forest |
| MenuTree.EveryLiveMenuOnce | app/modules/menus/menu_service.py:93-117 | every live menu appears exactly once, nothing else does, and the roots are the live menus without a parent |
| MenuTree.ForestIsById | app/modules/menus/menu_repository.py:39-47 | on every level of the tree menus stand by increasing id |
| MenuTree.FiledIsParent | app/modules/menus/menu_service.py:109-115 | on reachable tables a menu is shown under its own parent |
| MenuAssembly.ListingGivesChildren | app/modules/menus/menu_repository.py:39-47 | the pass over the ordered rows gives each menu its children by increasing id |
| MenuAssembly.LinkNode | app/modules/menus/menu_service.py:105-115 | one iteration appends the node under its parent's node, or to the roots |
| MenuAssembly.GetTree | app/modules/menus/menu_service.py:93-117 | the node objects built in place represent the recursive forest; roots and children are exactly the live menus with that parent, by increasing id |
| Reports.MatchesIsSameTarget | app/modules/reports/report_repository.py:22-59 | the query conditions select exactly the well-shaped reports of the same target |
| Reports.MatchesIsEquivalence | app/modules/reports/report_repository.py:22-59 | on reports that pass validation the relation is an equivalence |
| Reports.ProcessDecidesTheTarget | app/modules/reports/report_service.py:287-346 | a failed call changes nothing; a successful one decides all pending reports of the target, its own included, and no other |
| Reports.ProcessWrites | app/modules/reports/report_service.py:314-346 | every field a successful call writes: the decision on each pending report of the target, a published post hidden exactly on an accepted suspension or ban, the sanction row; all else stays |
| Reports.UpdateBatchWrites | app/modules/reports/report_repository.py:169-201 | each pending row of the target gets status, sanction, reviewer and time and keeps the rest; no other row changes |
| Reports.ProcessSucceedsIff | app/modules/reports/report_service.py:287-346 | the exact condition of success |
| Reports.ProcessRefuses | app/modules/reports/report_service.py:38-134 | each error with its exact condition, in the order of the checks |
| Reports.AnyMemberDecidesAlike | app/modules/reports/report_repository.py:179-201 | any pending member of the class gives the same answer, reports and posts |
| Reports.StepKeepsInv | app/modules/reports/report_service.py:287-346 | every step keeps the invariant on reports, sanctions and posts |
| Reports.SanctionsAreSound | app/modules/reports/report_service.py:259-346 | over every run each sanction stems from an accepted report of the same type, has an end exactly when a suspension, its post is not public when suspended or banned, and each target is punished at most once |
| Reports.DecisionsAreFinal | app/modules/reports/report_service.py:59-62 | over every run a decided report never changes again and no sanction is withdrawn |
| ReportService.ReportService.ValidateReport | app/modules/reports/report_service.py:38-134 | the checks in order with their errors |
| ReportService.ReportService.UpdateReport | app/modules/reports/report_repository.py:169-201 | the loop updates exactly the pending rows of the target and returns their number |
| ReportService.ReportService.HideReportedContent | app/modules/reports/report_service.py:210-255 | hides a published post, leaves another one, and fails for a missing id, a missing post, comment and user reports |
| ReportService.ReportService.AddUserSanction | app/modules/reports/report_service.py:259-283 | adds one sanction, or one of the two expiry errors |
| ReportService.ReportService.ProcessReport | app/modules/reports/report_service.py:287-346 | the whole transaction, rollback included |
| Comments.ApplyKeepsTwoLevels | app/modules/comments/comment_service.py:59-163 | each call keeps replies under top-level comments of their own post |
| Comments.RunsKeepTwoLevels | app/modules/comments/comment_service.py:59-163 | over every run comments are at most two levels deep |
| Comments.CreateAddsOneRow | app/modules/comments/comment_service.py:59-111 | each refusal with its exact condition; otherwise one new row with what was sent |
| Comments.UpdateTouchesOwnContent | app/modules/comments/comment_service.py:114-142 | only the author updates, only a live comment, only its content |
| Comments.DeleteMarksOwnComment | app/modules/comments/comment_service.py:145-163 | only the author deletes, only a live comment, and the row stays |
| Comments.SortedSorts | app/modules/comments/comment_repository.py:88-93 | the sort gives the same comments in strictly descending (created_at, id) order |
| Comments.OrderIsUnique | app/modules/comments/comment_repository.py:27-33 | there is only one such order |
| Comments.CountRepliesByParents | app/modules/comments/comment_repository.py:117-153 | the counters of exactly the listed parents that have live replies |
| Comments.ListByPost | app/modules/comments/comment_repository.py:46-114 | the page, the total and the reply counters |
| Comments.PagesListEverything | app/modules/comments/comment_repository.py:46-97 | pages 1 to total_pages list every live top-level comment once, newest first, whatever order the rows came in; later pages are empty |
| Comments.EarlierPagesAreNewer | app/modules/comments/comment_repository.py:88-97 | each comment on an earlier page is newer than each on a later one, by created_at, then id |
| Comments.ListingAccountsForAll | app/modules/comments/comment_repository.py:54-153 | live comments are the listed ones, their counted replies and the live replies under deleted comments |
| Comments.CommentService.CreateComment | app/modules/comments/comment_service.py:59-111 | the create call with its errors in order |
| Comments.CommentService.UpdateComment | app/modules/comments/comment_service.py:114-142 | only the owner's live comment changes, and only its content |
| Comments.CommentService.DeleteComment | app/modules/comments/comment_service.py:145-163 | only the owner's live comment is marked deleted |
| Pagination.PagesCoverOnce | app/common/pagination.py:30-61 | pages 1 to total_pages give the list once, none is empty, every later one is |
| Pagination.PageHolds | app/common/pagination.py:30-36 | page p holds the `size` items from position (p - 1) * size on, or what is left |
| Pagination.TotalPagesIsCeiling | app/common/pagination.py:54 | enough pages for everything and not one more |
| Synchronize.CollectOperations | app/infrastructure/database/synchronize.py:67-80 | the worklist ends for every nesting and returns the leaves in left-to-right order |
| Synchronize.LeavesConcat | app/infrastructure/database/synchronize.py:63-65 | putting children in place of their group keeps the order of the leaves |
| Synchronize.LeavesAreTheSingles | app/infrastructure/database/synchronize.py:71-80 | collected are exactly the single operations inside the groups |
| Synchronize.LeavesLeftToRight | app/infrastructure/database/synchronize.py:67-80 | the collected operations stand at paths that go strictly from left to right through the nesting and miss none |
| Masking.MaskEventTwice | app/core/logging_config.py:57-66 | masking an event twice equals masking it once |
| Masking.MaskValueTwice | app/core/logging_config.py:43-54 | the same for a value at any depth |
| Masking.PlainPathsKept | app/core/logging_config.py:43-54 | a value not under a sensitive key stays where it is, masked from its own depth on and untouched from the cut-off on |
| Masking.SensitiveEntriesMasked | app/core/logging_config.py:47-51 | a sensitive entry of a dict above the cut-off holds the mask |
| Masking.SensitiveIff | app/core/logging_config.py:22-40 | a key is sensitive exactly when one of the seven parts stands anywhere in it, in any letter case |
| Masking.EventEntries | app/core/logging_config.py:57-66 | a masked event keeps its keys in order, and exactly the entries with such a key get the mask; another one holds it only if it did before |
| Masking.PlainPathsShape | app/core/logging_config.py:43-54 | above depth 6 scalars stay, dicts keep their keys, lists and tuples become lists of the same length; from there on nothing changes |
| Masking.AllMaskedIff | app/core/logging_config.py:45-54 | nothing sensitive is left exactly when the part below the cut-off holds nothing sensitive |
| Masking.EventAllMaskedIff | app/core/logging_config.py:57-66 | the same for a whole event |
| Masking.DeepPasswordIsLogged | app/core/logging_config.py:34-46 | an event whose password is logged in the clear |
| Common.Lower | app/core/logging_config.py:39 | each ASCII capital becomes the same letter in lower case, every other character stays |

## Left out

- Interleaved refresh calls, interleaved `revoke_all`, concurrent menu edits and a second flush process: the code takes no lock there, so the token, menu and flush results are for atomic calls and one flush at a time.
- Redis keys set to expire are compared on a whole-second clock; millisecond rounding of TTL is not modelled outside `TokenTtl`.
- Transaction isolation of MySQL outside likes: the other services read the last committed rows. The classes of `LikeRepository` run one request at a time.
- Constraint errors of the database (unique keys, NOT NULL on report contents) and collation; a null menu name is the one modelled.
- `add_report`: its insert cannot succeed against the declared NOT NULL columns, so runs start from a given table of reports.
- Routers, cookies, middleware, Pydantic parsing, role checks, view counts, profile updates, settings validation.
- bcrypt, JWT signing and hashing internals, and any timing property.
- Mention search and the title filter; whether mentions resolve is a parameter.
- Image resizing, object storage, health checks, the scheduler library, seeding, Alembic scripts.
- Common.Lower: does not model lower-casing outside ASCII.
- Dict keys that are not strings in log events, and cyclic values.
- MenuAssembly.GetTree: takes the ordered rows of `list_all` as an argument and carries only id, name and children of a node.
- Comments.ListByPost: takes the unsorted query rows as an argument; the check that the post exists precedes it in the service and is not repeated.
