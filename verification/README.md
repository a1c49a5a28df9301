# FastTAK: the parts with run-level guarantees

A Dafny model of the state machines inside FastTAK and of what they promise over whole
runs. Each module follows one component, in the form the component has: objects that change
in place are classes, loops are loops, conversions are functions. A method is proved against
a function or predicate of the inputs; what the code promises is then proved of that.

| module | component |
|---|---|
| `RateLimit`, `RateLimiter`, `Guessing`, `Interleaving`, `WorstRun` | the LDAP proxy's failure-counting limiter: its reference semantics, the mutable per-IP object with the request handler, wrong passwords in a row, concurrent requests, and the worst they can do |
| `Tokens`, `TokenTransactions`, `TokenHistory` | the enrollment token table: a mutable table against a log of events, its transactions interleaved statement by statement, and the log such a run forms |
| `Evaluator`, `Alerts`, `AlertInterleaving`, `HealthPoll`, `PollInterleaving` | threshold verdicts, the alert engine over poll histories, overlapping alert calls, the poll joining them, and overlapping polls |
| `Stamps`, `Retention`, `BackupRun` | backup names, retention, and the run that writes and prunes |
| `Attributes`, `Identity`, `Groups`, `Expiry` | the identity client's attribute codec, its read-modify-write calls, group replacement, and the TTL job |
| `Audit` | redaction of request bodies |
| `Seqs`, `Options` | shared helpers |

## What is proved

**Rate limiter.** The pruned slice and the single stored lockout answer exactly as the full
history of that one IP would, forever, for every configuration. Every window, wherever it
starts, holds at most `maxAttempts - 1 + ceil(window/lockout)` counted failures, and so does
the slice; the bound is attained in every positive configuration, and it is `maxAttempts` if and
only if `lockout >= window`. Retry-After is the least whole number of seconds that ends the lock
(delay-seconds, section 10.2.3 of RFC 9110). As many wrong passwords in a row as `maxAttempts` inside one window leave
an unlocked IP locked, always, if and only if `lockout >= window` or `maxAttempts <= 2`. With at most `cap` requests of an IP in flight,
at most `cap - 1` failures per lockout escape counting, in every interleaving. So any interval admits at most
the windows' budget plus `cap - 1` for each lockout that meets it. No more lockouts do than fit and one that
stands as the interval begins, and that one costs the interval the time it still stands. In every positive
configuration a run attains this on a window, paying `cap - 1` for one lockout after another; where a lockout
lasts a window, another attains it with one standing.

**Tokens.** A log of creations, acceptances and deletions decides every `Verify`, and every
`GetActive` that is not cut short, whether or not a purge ever ran. In every interleaving of statements a one-time
token is accepted at most once. Every acceptance and every refusal was right at some committed version of the
table during the call: what is accepted is the token presented, a token gone before the call began is not
accepted, and one live throughout is not refused. The run's creations, deletions and consumptions in commit
order form a log that decides what each version answers, so each acceptance is what a sequential store would
have said, and so is each refusal asked no earlier than the run's latest purge. The only thing assumed of the
database is that a transaction that wrote cannot commit over a later commit. Row ids come back after
deletions, and the assumption is what makes that harmless: `StaleCallsMeetReusedIds` reaches the state where it matters.

**Health.** A verdict is the worst contribution, with the first place that reaches it. A worse reading
lowers it only through the dead-tuple floor, and the exact condition is proved. A service is at a level or worse
if and only if some reading lies past that level on its worse side, some mapped value is given it, or an item that
counts has an error of it. The recorded actions are
exactly the stutter-free states, a leading ok dropped, with one recovery after each ok. Notification
stamps are at least a cooldown apart for clock readings in any order. Overlapping calls interleave their own
outputs, each call's in order, and lose and repeat nothing. Dashboard and engine agree about a service exactly
when the latest poll by the order of each had the same status.

**Backups.** Names parse back to the second printed, and name order is time order. After any series of
runs, with failures at any point and prunes that stop partway among them, one success leaves exactly the
newest `keep` archives of all there were or that ever landed, as long as no earlier run pruned to fewer.
Other files stay, and the exact condition is proved under which a sidecar outlives its archive.

**Identity.** Writing any dictionary and reading back changes exactly the names written. A group
replacement that stops at any request has only moved towards its target and can be repeated. A user
leaves the pending set exactly when the sweep and every listed certificate were dealt with and the mark was
stored. A tick deactivates every pending user whose deactivation is applied, and an update leaves each attribute as its
arguments say or as it was. In all of this a request may take effect and be reported failed, or the other way round.

**Audit.** Two bodies leave the same record if and only if they agree outside sensitive keys.

## Where the code and its comments differ

- `ldap-proxy/ratelimit.go:15-17` says old failures are pruned on every interaction. The code prunes
  only when an IP that is not locked out fails again; the bound on the slice holds all the same.
- `ldap-proxy/ratelimit.go:20-21` says that a lockout is set once `maxAttempts` failures accumulate within the window.
  Failures during a lockout do not count, so where a lockout is shorter than the window `maxAttempts` wrong passwords within one
  window may leave the IP unlocked: `GuessesLockIff` is the exact condition, `StraddlingDoesNotLock` a run.
- `ldap-proxy/tokens.go:75` computes the expiry in 64-bit arithmetic from a ttl nothing bounds
  (`ldap-proxy/tokens_api.go`). A large ttl wraps and the token is expired from the start:
  `TtlHonouredIff` is the exact condition, `HugeTtlExpiresAtOnce` an instance.
- `monitor/app/evaluator.py:100-104` filters by `dead_tuples` before judging. Where a lower-is-worse level is
  set on that same key, a worse reading can turn a critical item ok: `ContributionDropsIff` says exactly
  when for the item, `StatusDropsIff` for the service; `FloorHidesLowDeadTuples` is an instance.
- `monitor/app/backup/retention.py:26` does not match every name `monitor/app/backup/runner.py:68-69` can
  print: an archive written under an empty version, or one with a newline, is never placed in the order and never pruned.
- `monitor/app/backup/runner.py:144-194` records a run both completed and failed exactly when the write succeeded
  and then the configured retention was not a number from 1 up, or the prune raised: `CompletedAndFailedIff`, with
  `StuckArchiveRaises` as an instance. Archives such a prune has deleted get no event.
- `monitor/app/backup/retention.py:73-74` promises to remove the sidecar of a pruned archive. If the archive goes and its
  sidecar cannot, no later run removes it: `OrphansIff`, `OrphansStay`, and `StuckSidecarOrphans` for an instance.
- `monitor/app/api/users/tak_server.py:157-165` promises revocation on the CRL, not by certadmin's flag, and true only
  if every cert was revoked. Two inputs mark a user with a certificate TLS still accepts. An HTTP error in the query
  (`monitor/app/api/users/tak_server.py:127-129`) looks like having none: `HttpErrorMarksTheUnrevoked`. A certificate
  flagged in certadmin that never reached the CRL is skipped (`monitor/app/api/users/tak_server.py:182-183`) with no
  error at all: `FlaggedCertMarksTheUnrevoked`. `MarkedWithValidIff` is the exact condition.
- `ldap-proxy/tokens.go:140` says `GetActive` returns all non-expired tokens. A step that fails ends the loop
  (`ldap-proxy/tokens.go:153-160`) and the rows so far are returned with no error, none of them if it was the
  first: `CutListing` says such a list is never complete. `monitor/app/api/users/identity.py:687-703` then
  creates another token.

## Assumptions

- Limiter times are nanoseconds since the zero time, read under the mutex, so non-decreasing in lock order. Nothing
  is assumed of `window`, `lockout` and `maxAttempts` except where a lemma says `Sane` (all three positive).
- Token plaintexts are fresh, the hash is injective, and Unix time does not run backwards between calls.
- Alert clock readings are arbitrary, since they are taken before the lock.
- Group names are unique and a user's groups are existing groups.
- The names a backup run writes end in `.age`, as `_filename` prints them, where a lemma speaks of sidecars.
- How LLDAP, TAK Server, openssl and the database answer is an input: each call may succeed or fail, and a write to
  LLDAP may take effect or not whatever its caller is told.

## Model

| member | source | states |
|---|---|---|
| RateLimit.PrunedSliceMatches | ldap-proxy/ratelimit.go:115-123 | pruning leaves a suffix of the full history whose length is the history's count over the window |
| RateLimit.RecordRepresents | ldap-proxy/ratelimit.go:98-135 | a recorded failure keeps slot and full history in step, whether dropped, counted or starting a lockout |
| RateLimit.SlotRepresentsHistory | ldap-proxy/ratelimit.go:77-135 | refinement: after any attempts the pruned slot stands for the never-pruned history at every later time |
| RateLimit.RefusedExactlyWhenLocked | ldap-proxy/ratelimit.go:86-90 | an IP is refused at t iff some counted failure filled its window and t lies in that failure's lockout |
| RateLimit.LockoutsAreDisjoint | ldap-proxy/ratelimit.go:110-113 | nothing is counted during a lockout, so lockouts are pairwise disjoint and never extended |
| RateLimit.TriggersCrowdOut | ldap-proxy/ratelimit.go:128-134 | failures beyond maxAttempts within one window each cost a whole lockout |
| RateLimit.BudgetIsMaxAttempts | ldap-proxy/ratelimit.go:33-40 | the window budget equals maxAttempts iff lockout >= window |
| RateLimit.AnyWindowWithinBudget | ldap-proxy/ratelimit.go:33-35 | any window-long interval holds at most the budget of counted failures, and at most maxAttempts when lockout >= window |
| RateLimit.AnyIntervalWithinBudget | ldap-proxy/ratelimit.go:33-40 | any interval holds at most the budget times the windows that cover it, so no boundary burst exists |
| RateLimit.SliceWithinBudget | ldap-proxy/ratelimit.go:15-17 | memory: an IP's slice never exceeds maxAttempts - 1 + ceil(window/lockout) |
| RateLimit.SliceBoundIsTight | ldap-proxy/ratelimit.go:115-134 | in every positive configuration some run fills the slice to that bound |
| RateLimit.SliceHoldsMaxAttemptsIff | ldap-proxy/ratelimit.go:15-21 | every run keeps the slice within maxAttempts iff lockout >= window |
| RateLimit.LockedAttemptsChangeNothing | ldap-proxy/ratelimit.go:110-113 | any number of failures during a lockout leave the slot as it was |
| RateLimit.RetryAfterIsLeastWait | ldap-proxy/ratelimit.go:168-170 | a whole-second wait is too short iff it is below the value sent, however many failures arrive meanwhile |
| RateLimiter.EachSlotStep | ldap-proxy/ratelimit.go:104-108 | a failure moves the slot of its own IP and of no other |
| RateLimiter.IpState.Prune | ldap-proxy/ratelimit.go:115-123 | in-place compaction keeps exactly the entries after the cutoff, in order |
| RateLimiter.IpState.Append | ldap-proxy/ratelimit.go:126 | append adds one entry at the end, growing the backing array when full |
| RateLimiter.IpState.RecordAt | ldap-proxy/ratelimit.go:110-134 | the in-place object moves as the slot specification does |
| RateLimiter.RateLimiter.constructor | ldap-proxy/ratelimit.go:58-66 | a new limiter has heard of no failure |
| RateLimiter.RateLimiter.CheckLockout | ldap-proxy/ratelimit.go:77-91 | answers what this IP's full history answers, and the wait returned ends the lock exactly |
| RateLimiter.RateLimiter.StateFor | ldap-proxy/ratelimit.go:104-108 | a first-seen IP gets an empty entry and no IP's slot changes |
| RateLimiter.RateLimiter.RecordFailure | ldap-proxy/ratelimit.go:98-135 | exactly one failure joins the log, and every IP's slot still follows from its own failures |
| RateLimiter.RateLimiter.Middleware | ldap-proxy/ratelimit.go:164-176 | refuses iff the history locks the IP, with the least sufficient Retry-After |
| RateLimiter.HandleVerify | ldap-proxy/auth.go:30-86 | 401 and one failure recorded iff the header is missing or the directory refuses the bind, 500 iff it errs, 400 iff the header is malformed, 200 iff it accepts; nothing else is recorded |
| RateLimiter.Serve | ldap-proxy/auth.go:20-35 | a whole request: 429 iff locked; a failure is logged iff it is not refused and has no header or a refused bind; in every other case no IP's slot moves |
| Guessing.LastGuess | ldap-proxy/auth.go:39-75 | a wrong password is refused without effect while the IP is locked, else counted, and it locks iff it fills the window |
| Guessing.GuessesLockIff | ldap-proxy/ratelimit.go:33-40 | maxAttempts wrong passwords inside one window always leave an unlocked IP locked by the last of them iff lockout >= window or maxAttempts <= 2 |
| Guessing.StraddlingDoesNotLock | ldap-proxy/ratelimit.go:110-134 | the run in between: old failures, a guess that locks, guesses that lockout swallows, and one as it ends |
| Guessing.ServeGuess | ldap-proxy/auth.go:20-75 | one wrong password at the proxy is answered 429 or 401, and recorded iff its IP was not locked |
| Guessing.ServeGuesses | ldap-proxy/auth.go:20-75 | wrong passwords one after another leave just the failures recorded that the guesses call for |
| Guessing.ServeBurst | ldap-proxy/auth.go:20-75 | after maxAttempts of them inside one window the proxy refuses the IP, under that condition |
| Interleaving.FailureAccounted | ldap-proxy/ratelimit.go:98-135 | a failure is dropped without effect, or counted with no lockout standing after, or counted and starts exactly one |
| Interleaving.SettleKeepsBound | ldap-proxy/auth.go:30-35 | recording a failure out of order with other requests keeps the drop bound of every interval |
| Interleaving.ReachableIsBounded | ldap-proxy/ratelimit.go:164-176 | for every interval the drop bound holds in every reachable state of check, bind and record steps of any number of requests |
| Interleaving.AdmittedFailuresBounded | ldap-proxy/auth.go:39-75 | admitted failures are at most the counted ones plus cap - 1 per lockout; one at a time loses none |
| Interleaving.LockoutsInBounded | ldap-proxy/ratelimit.go:110-134 | at most ceil(length/lockout) lockouts, and one standing as it begins, meet an interval |
| Interleaving.AnyIntervalAdmitsAtMost | ldap-proxy/ratelimit.go:33-40 | brute force: any interval, in any interleaving, admits at most the windows' budget plus cap - 1 for each lockout meeting it; with none standing as it begins, only those that fit; with one, its cap - 1 and what fits after it |
| Interleaving.LockedStart | ldap-proxy/ratelimit.go:110-113 | a lockout standing as an interval begins lets nothing be counted there until it ends, so only the rest of the interval has a budget |
| WorstRun.DropsAreAttained | ldap-proxy/auth.go:30-75 | for every positive configuration and cap some run has one lockout and drops cap - 1 failures |
| WorstRun.RoundsCount | ldap-proxy/ratelimit.go:98-135 | cap failures recorded as each lockout ends count once, lock again, and drop the rest |
| WorstRun.RoundsReached | ldap-proxy/ratelimit.go:164-176 | interleaved requests can do just that, round after round |
| WorstRun.WindowBoundIsAttained | ldap-proxy/ratelimit.go:33-40 | for every positive configuration and cap some run attains the interval bound on a window, with cap - 1 drops for each of its ceil(window/lockout) lockouts |
| WorstRun.LockedBoundIsAttained | ldap-proxy/ratelimit.go:33-40 | where a lockout lasts a window at least, some run attains the bound on a window with a lockout standing: its cap - 1 drops, the budget, and the next lockout's cap - 1 |
| Tokens.TtlHonouredIff | ldap-proxy/tokens.go:73-77 | a token expires when its ttl says iff created-at plus 60 ttl fits 64 bits |
| Tokens.HugeTtlExpiresAtOnce | ldap-proxy/tokens.go:73-77 | a ttl whose token is created already expired |
| Tokens.ConsumedIsNeverGoodAgain | ldap-proxy/tokens.go:119-123 | once accepted, a one-time token is good at no time afterwards |
| Tokens.TracksPurged | ldap-proxy/tokens.go:96-97 | removing expired rows loses no token that is still live |
| Tokens.AcceptanceEnds | ldap-proxy/tokens.go:119-123 | accepting ends the accepted token if one-time, and no other |
| Tokens.GoodAfterCreation | ldap-proxy/tokens.go:65-87 | after a creation the new token is good for its user until its ttl is over, and every other answer is as before |
| Tokens.GoodAfterDeletion | ldap-proxy/tokens.go:132-138 | after a deletion no token of the user is good, of either kind, and every other user's answers are as before |
| Tokens.GoodAfterAcceptance | ldap-proxy/tokens.go:119-128 | after an acceptance the token is good no more iff it was issued for one use, and every other answer is as before |
| Tokens.MatchIsGood | ldap-proxy/tokens.go:105-110 | the query finds a row iff the log says the credentials are good |
| Tokens.SelectedAreActive | ldap-proxy/tokens.go:141-161 | the rows selected are the user's active tokens, each once |
| Tokens.TokenStore.Create | ldap-proxy/tokens.go:65-87 | a token is logged with its user, ttl and kind iff it is returned; a failed insert leaves nothing |
| Tokens.TokenStore.Purge | ldap-proxy/tokens.go:96-97 | exactly the expired rows go and the log does not notice |
| Tokens.TokenStore.Verify | ldap-proxy/tokens.go:92-129 | accepts iff the log says good, for any purge outcome; an error or a refusal changes no token |
| Tokens.TokenStore.Transact | ldap-proxy/tokens.go:99-128 | the same within the transaction, with a failed statement rolled back |
| Tokens.TokenStore.Accept | ldap-proxy/tokens.go:119-128 | a one-time row is gone and any other stays |
| Tokens.TokenStore.DeleteByUsername | ldap-proxy/tokens.go:132-138 | no row of the user is left, every other row is as it was, no token is good for the user at any time, and other users' answers stand; or the statement fails and nothing changes; the count is of rows, unpurged expired ones included |
| Tokens.TokenStore.Query | ldap-proxy/tokens.go:143-146 | the statement yields the user's unexpired rows, each once |
| Tokens.ReadRows | ldap-proxy/tokens.go:152-160 | the loop returns the rows up to a step that fails as if complete; only a failed query or scan is an error |
| Tokens.CutListing | ldap-proxy/tokens.go:153-160 | a listing cut short is never a listing of the active tokens |
| Tokens.ListedIffGood | ldap-proxy/tokens.go:140-161 | a full listing shows a token iff a verify of it would accept, each with the user, kind and dates it was created with |
| Tokens.TokenStore.GetActive | ldap-proxy/tokens.go:141-161 | exactly when it errs, what it returns otherwise, and that this is the active tokens, each once, iff no step failed before the last row |
| TokenTransactions.StepKeepsInv | ldap-proxy/tokens.go:99-128 | every statement of every call keeps rows as issued, snapshots truthful, answers justified, and tokens that left the table gone for good |
| TokenTransactions.ReachableHasInv | ldap-proxy/tokens.go:89-129 | the same in every reachable state |
| TokenTransactions.StatementsChangeRows | ldap-proxy/tokens.go:79-138 | a creation adds the row as given, a deletion leaves no row of the user, a purge no expired row, and every other row stays |
| TokenTransactions.CallsReadTheCurrent | ldap-proxy/tokens.go:99-110 | a call begins on the current version with what it was given, and reads a row of that version with the password's hash |
| TokenTransactions.ReuseIsAccepted | ldap-proxy/tokens.go:119-128 | a call that read a token that is not one-time commits always, accepts, and changes no row |
| TokenTransactions.AcceptanceIsJustified | ldap-proxy/tokens.go:105-128 | each acceptance was right at a committed version between the call's begin and commit, of the very token presented; a one-time token is in the version committed on and gone from the next |
| TokenTransactions.RefusalIsJustified | ldap-proxy/tokens.go:107-114 | each refusal was right at a committed version within the call |
| TokenTransactions.LiveThroughoutIsNotRefused | ldap-proxy/tokens.go:107-114 | a call that finds a matching token in every version of its lifetime is not refused |
| TokenTransactions.GoneBeforeBeginIsRefused | ldap-proxy/tokens.go:132-138 | a token that was deleted, purged or consumed before a call began is not accepted by that call |
| TokenTransactions.ClearedUserIsRefused | ldap-proxy/tokens.go:132-138 | once a version holds no row of a user, as right after a deletion, no call that begins then or later accepts a token from before |
| TokenTransactions.OneTimeAcceptedAtMostOnce | ldap-proxy/tokens.go:89-129 | a one-time token that was accepted is accepted by no other call in any interleaved run |
| TokenTransactions.CommitRemovesWhatItVerified | ldap-proxy/tokens.go:119-127 | a consuming commit succeeds iff nothing was committed since its snapshot, and then removes the very row it verified |
| TokenTransactions.StaleCallsMeetReusedIds | ldap-proxy/tokens.go:34 | a call can hold an id that by now belongs to another token |
| TokenHistory.RunHasHistory | ldap-proxy/tokens.go:65-138 | every interleaved run has a history, fixed by its steps: for each version the events committed while it was current or before, and the latest purge time |
| TokenHistory.LogIsTheRuns | ldap-proxy/tokens.go:65-138 | the events of that history are steps of the run, every creation and every deletion of the run is among them, and the purge time is that of its latest purge |
| TokenHistory.HistoryRecords | ldap-proxy/tokens.go:96-138 | each version's rows are unconsumed tokens of its log, all live ones among them, and each one-time acceptance is in its place |
| TokenHistory.VersionAnswersLikeItsLog | ldap-proxy/tokens.go:105-110 | a version of the run answers a query as the run's log up to it does, for whoever asks no earlier than the run's latest purge; yes is right for anyone |
| TokenHistory.AcceptanceIsGood | ldap-proxy/tokens.go:92-129 | each acceptance of the run is good by the run's log at its snapshot, and a one-time token by the log of no later version |
| TokenHistory.RefusalIsNotGood | ldap-proxy/tokens.go:107-114 | each refusal of the run asked no earlier than the run's latest purge is right by the run's log |
| Evaluator.WorstIsUnique | monitor/app/evaluator.py:35-55 | the loops' answer is the maximum |
| Evaluator.CheckReachesIff | monitor/app/evaluator.py:155-189 | a value is at a level or worse iff it is past it on the side away from warning, or mapped to it; an unmapped value is a warning |
| Evaluator.StatusReachesIff | monitor/app/evaluator.py:68-90 | an item is at a level or worse iff its error status is, or without an error some key reaches it |
| Evaluator.ListReachesIff | monitor/app/evaluator.py:93-113 | a list is at a level or worse iff some item is that counts: one with an error, or not below the dead-tuple floor |
| Evaluator.ContainersReachIff | monitor/app/evaluator.py:116-152 | containers are at a level or worse iff one is by its known health, else its status, else the default |
| Evaluator.ItemStatus | monitor/app/evaluator.py:68-90 | the item is at a level or worse iff its error or some key reaches it, the first key to reach the worst being named |
| Evaluator.EvaluateSingle | monitor/app/evaluator.py:35-55 | worst threshold and the first key that reaches it, or no message when all is ok; what a threshold reaches is `Evaluator.CheckReachesIff` |
| Evaluator.EvaluateList | monitor/app/evaluator.py:93-113 | worst unfiltered item and the first item that reaches it; what a list reaches is `Evaluator.ListReachesIff` |
| Evaluator.EvaluateContainers | monitor/app/evaluator.py:116-152 | worst container under the health, status, default order, and the first that reaches it |
| Evaluator.Evaluate | monitor/app/evaluator.py:13-32 | the service is at a level or worse iff something in its data is, for each of the three patterns; alerting iff it reaches the minimum level |
| Evaluator.OrderDoesNotMatter | monitor/app/evaluator.py:93-113 | permuting the items leaves the status |
| Evaluator.AddingItemsNeverHelps | monitor/app/evaluator.py:93-113 | more items never lower the status |
| Evaluator.ErrorsAlwaysCount | monitor/app/evaluator.py:100-106 | an item with an error is never filtered away |
| Evaluator.WorseReadingNeverHelps | monitor/app/evaluator.py:155-189 | a reading moving in its worse direction, either orientation, never lowers the item's status |
| Evaluator.ContributionDropsIff | monitor/app/evaluator.py:99-106 | after such a move an item counts for less iff it fell below the dead-tuple floor and was not ok |
| Evaluator.StatusDropsIff | monitor/app/evaluator.py:93-113 | for every key and orientation such a move lowers the service status iff it takes a non-ok item, worse than all others, below the dead-tuple floor |
| Evaluator.StatusIsMonotone | monitor/app/evaluator.py:93-113 | so it never does for other keys, nor for dead_tuples where higher is worse |
| Evaluator.FloorHidesLowDeadTuples | monitor/app/evaluator.py:103-104 | a critical item that a worse dead_tuples reading turns ok |
| Alerts.ErasingRecoveredDecodes | monitor/app/api/alerts/engine.py:118-127 | erasing the recoveries from a log gives back the changes it records |
| Alerts.DestutterIsStutterFree | monitor/app/api/alerts/engine.py:103-104 | the changes hold no state twice in a row and start where the polls did |
| Alerts.RecoveryFollowsOk | monitor/app/api/alerts/engine.py:118-127 | a recovery stands right after each ok in the log and nowhere else |
| Alerts.ActionsStep | monitor/app/api/alerts/engine.py:100-127 | one more state adds nothing, or its event, or its event and a recovery |
| Alerts.NotificationsSpan | monitor/app/api/alerts/engine.py:111-114 | n notifications span at least n - 1 cooldowns |
| Alerts.SuppressedIff | monitor/app/api/alerts/engine.py:111-114 | a reading is too early iff some recorded stamp is less than a cooldown before it |
| Alerts.PollStep | monitor/app/api/alerts/engine.py:97-127 | one poll keeps events, memory and spacing right for every service, its own and the others |
| Alerts.AlertEngine.constructor | monitor/app/api/alerts/engine.py:22-27 | an engine that has seen nothing |
| Alerts.AlertEngine.Track | monitor/app/api/alerts/engine.py:99-116 | the update under the lock: when a poll is a change, a notification, a recovery |
| Alerts.AlertEngine.Emit | monitor/app/api/alerts/engine.py:118-127 | what is recorded and sent for each of these |
| Alerts.AlertEngine.CheckAndAlert | monitor/app/api/alerts/engine.py:80-127 | over any poll history the event log is the rendered changes; this poll adds its event iff it is a change, a recovery iff it is ok too, and notifies iff it is a wanted change to non-ok no sooner than the cooldown after the last |
| AlertInterleaving.ReachableHasInv | monitor/app/api/alerts/engine.py:94-127 | with calls overlapping at will, decisions are right in lock order and each call has emitted the beginning of its own |
| AlertInterleaving.OutInterleavesTheCalls | monitor/app/api/alerts/engine.py:118-127 | what is out is an interleaving of the calls' own outputs, each call's in order |
| AlertInterleaving.OverlappingCallsLoseNothing | monitor/app/api/alerts/engine.py:94-127 | per service, decisions in lock order are the actions its polls call for, with stamps spaced; what is out is part of them, each as often, and all once all calls are done |
| AlertInterleaving.RecoveryMayComeFirst | monitor/app/api/alerts/engine.py:118-127 | a run whose log shows the recovery before the fault it ends |
| HealthPoll.RunPoll | monitor/app/scheduler.py:76-99 | dashboard and engine receive the same status, which is at a level or worse iff something in the data is; a broken probe is critical and alerts; data that raises touches neither |
| PollInterleaving.ViewsAgree | monitor/app/scheduler.py:83-99 | with polls overlapping, dashboard and engine agree about a service iff the latest poll by each one's order had the same status, and so once its polls are done in one order |
| PollInterleaving.ViewsMayDiffer | monitor/app/scheduler.py:83-99 | a run that leaves the dashboard at ok and the engine at critical with all polls done |
| Stamps.BeforeIsEarlier | monitor/app/backup/retention.py:41-47 | comparing fields compares instants, and equal instants are equal stamps |
| Stamps.DaysBeforeYearClosed | monitor/app/backup/retention.py:41-45 | the calendar counts 365 days a year and one for each Gregorian leap year gone by |
| Stamps.MonthTable | monitor/app/backup/retention.py:41-45 | its months have the lengths they have, February what is left of the year |
| Stamps.EverySecondHasAStamp | monitor/app/backup/retention.py:41-45 | no second is left out: each is the instant of a valid stamp |
| Stamps.PrintedStampParses | monitor/app/backup/runner.py:68-69 | a printed stamp parses to itself |
| Stamps.ParsesToIff | monitor/app/backup/retention.py:39-45 | a text parses to a stamp iff it is that stamp printed and the stamp is a real second |
| Stamps.ImpossibleIsRefused | monitor/app/backup/retention.py:39-45 | a printed stamp is refused iff its fields name no real second |
| Stamps.TextOrderIsTimeOrder | monitor/app/backup/runner.py:68-69 | string order of stamps is chronological order |
| Stamps.FilenameRoundTrip | monitor/app/backup/retention.py:26 | the runner's names parse back to the second printed iff the version is non-empty and has no newline; else not at all |
| Stamps.NameParsesToIff | monitor/app/backup/retention.py:26 | a name parses to a stamp iff it is the runner's name of that stamp and some non-empty one-line version |
| Stamps.SampleName | monitor/app/backup/runner.py:68-69 | the parts of one such name, letter for letter |
| Stamps.NewerIsStrictOrder | monitor/app/backup/retention.py:47 | the sort key is a strict total order on names |
| Stamps.NewerIsStringOrder | monitor/app/backup/retention.py:47 | on archives it is plain string order |
| Retention.SliceIsKept | monitor/app/backup/retention.py:82 | the first keep of a newest-first listing are the archives with fewer than keep newer ones |
| Retention.KeptCount | monitor/app/backup/retention.py:65-69 | min(n, keep) remain and each is newer than everything dropped |
| Retention.SqueezedKept | monitor/app/backup/retention.py:65-97 | any part of the archives that holds the newest keep prunes to the same set |
| Retention.EarlierPruneIsAbsorbed | monitor/app/backup/retention.py:65-97 | pruning earlier to no fewer never changes what a later prune leaves |
| Retention.SecondPruneDeletesNothing | monitor/app/backup/retention.py:65-97 | pruning again keeps the same set |
| Retention.SuffixesDiffer | monitor/app/backup/retention.py:26 | no sidecar or partial is an archive |
| Retention.PruneRaisesIff | monitor/app/backup/retention.py:65-108 | a prune raises iff some partial is unreadable, or some old partial, archive with keep newer ones or sidecar of one is stuck |
| Retention.QuietPruneRemoves | monitor/app/backup/retention.py:65-108 | one that does not raise removes exactly the old partials, the archives with at least keep newer ones, and their sidecars |
| Retention.PruneOnlyRemoves | monitor/app/backup/retention.py:65-108 | however it ends, it adds no file and changes no mtime |
| Retention.SortRanks | monitor/app/backup/retention.py:47 | sorting ranks newest first and keeps the members |
| Retention.PartialPruneIsPrefix | monitor/app/backup/retention.py:84-97 | a prune that stops has cleared the first k doomed archives, newest first, and removed these and at most the next |
| Retention.StoppedFiles | monitor/app/backup/retention.py:84-97 | the loop's stopping point and the set description leave the same directory |
| Retention.BackupDir.StampedBackups | monitor/app/backup/retention.py:29-47 | exactly the archives, newest first, whatever the enumeration order |
| Retention.BackupDir.ReapPartials | monitor/app/backup/retention.py:100-108 | exactly the partials older than the limit go; it raises iff some partial cannot be examined or is due and stuck, and then only due ones are gone |
| Retention.BackupDir.UnlinkAll | monitor/app/backup/retention.py:83-97 | the listed archives and their sidecars go and nothing else; if it raises, the first k of them, and the next at most without its sidecar |
| Retention.BackupDir.Prune | monitor/app/backup/retention.py:65-97 | stale partials, archives outside the kept set and their sidecars go, up to what is stuck; exactly when it raises; and the names returned |
| BackupRun.WritingAddsOneArchive | monitor/app/backup/runner.py:129-132 | partial, rename and sidecar change the archives by the one written |
| BackupRun.PruningKeepsTheNewest | monitor/app/backup/runner.py:156 | after a prune the archives are the kept set, or hold it if the prune raised |
| BackupRun.RunKeepsTheNewest | monitor/app/backup/runner.py:91-196 | no run, however it ends, loses an archive that a later prune would keep |
| BackupRun.SeriesLosesNothing | monitor/app/backup/runner.py:91-196 | nor does any series of runs |
| BackupRun.SeriesKeepsTheNewest | monitor/app/backup/runner.py:91-196 | after any runs, one success leaves exactly the newest keep of all archives there were or that landed |
| BackupRun.SeriesOutcome | monitor/app/backup/runner.py:129-165 | with the last stamp newest the archive just written stays, min(n, keep) remain, all newer than the dropped |
| BackupRun.RunLeavesOthers | monitor/app/backup/retention.py:70-74 | a run touches no file but its own, partials, archives and their sidecars |
| BackupRun.SeriesLeavesOthers | monitor/app/backup/retention.py:70-74 | nor does any series |
| BackupRun.WrittenWithItsSidecar | monitor/app/backup/runner.py:129-132 | the archive a run wrote, if it is there at the end, has its sidecar beside it, both as written |
| BackupRun.OrphansIff | monitor/app/backup/retention.py:84-96 | a run leaves a sidecar without its archive iff its prune first stops at an archive whose sidecar alone is stuck |
| BackupRun.SeriesLeavesNoOrphans | monitor/app/backup/retention.py:73-74 | over a series every sidecar has its archive, unless some run does that |
| BackupRun.OrphansStay | monitor/app/backup/retention.py:82-96 | no later run removes such a sidecar, unless it writes that archive anew |
| BackupRun.StuckSidecarOrphans | monitor/app/backup/retention.py:84-96 | one older archive whose sidecar alone is stuck is enough |
| BackupRun.CompletedAndFailedIff | monitor/app/backup/runner.py:144-194 | completed is recorded iff the write succeeded, and failed as well iff then keep is invalid or the prune raises |
| BackupRun.StuckArchiveRaises | monitor/app/backup/retention.py:84-89 | one older archive that cannot be removed makes a run with a valid keep do so |
| BackupRun.BackupRunner.Write | monitor/app/backup/runner.py:130-132 | what is in the directory after each way of failing, and on success: archive and sidecar in place, the partial gone, nothing else touched |
| BackupRun.BackupRunner.Fail | monitor/app/backup/runner.py:167-193 | the partial goes and the failure is recorded, unless the partial is stuck |
| BackupRun.BackupRunner.Retain | monitor/app/backup/runner.py:156-165 | one event per archive deleted; none if the prune raises |
| BackupRun.BackupRunner.Attempt | monitor/app/backup/runner.py:103-194 | the run once it has the lock |
| BackupRun.BackupRunner.Conclude | monitor/app/backup/runner.py:144-194 | from completed on: retention, and the failure recorded over it |
| BackupRun.BackupRunner.Run | monitor/app/backup/runner.py:91-196 | directory, state file and events of a run for each way it can end; a held lock changes nothing, a partial is left only if it is stuck, and an untroubled run with a valid keep succeeds |
| BackupRun.BackupRunner.RunSeries | monitor/app/backup/runner.py:91-196 | runs one after another take the directory through the states the series lemmas speak of |
| Attributes.DecimalRoundTrip | monitor/app/api/users/identity.py:206-210 | every integer survives its decimal text |
| Attributes.IntsTaken | monitor/app/api/users/identity.py:206-210 | white space, a sign and single underscores are taken as int() takes them |
| Attributes.IntsRefused | monitor/app/api/users/identity.py:206-210 | and malformed texts are refused |
| Attributes.EntryRoundTrip | monitor/app/api/users/identity.py:192-217 | every value of a known attribute comes back from the strings written; a cleared one does not |
| Attributes.WireFormat | monitor/app/api/users/identity.py:185-190 | the four names and the strings written |
| Attributes.FlagsRead | monitor/app/api/users/identity.py:211-214 | revoked is only what says true, inactive only what says false, in any case |
| Attributes.OthersRead | monitor/app/api/users/identity.py:199-216 | the first string is read as a number or a word; unknown names and unreadable numbers are dropped |
| Attributes.WriteThenRead | monitor/app/api/users/identity.py:249-262 | writing a dictionary over any store and reading back changes exactly the names written |
| Attributes.CodecRoundTrip | monitor/app/api/users/identity.py:249-262 | parsing what was built gives the dictionary without its cleared entries |
| Attributes.ParseAttributes | monitor/app/api/users/identity.py:192-217 | the loop over LLDAP's entries, in any order, computes the parsed dictionary |
| Attributes.ParseEntry | monitor/app/api/users/identity.py:199-216 | one entry gives what the dictionary holds under its name, or nothing |
| Attributes.BuildCustomAttributes | monitor/app/api/users/identity.py:249-262 | the loop lists each attribute once with its rendered value |
| Identity.MarkingSetsOnlyRevoked | monitor/app/api/users/identity.py:505-529 | marking sets the revoked flag and changes nothing else, whatever strings were stored |
| Identity.DeactivatingSetsOnlyActive | monitor/app/api/users/identity.py:458-478 | deactivation clears the active flag and changes nothing else |
| Identity.UpdatingSetsOnlyRequested | monitor/app/api/users/identity.py:425-444 | an update sets or clears exactly the requested attributes |
| Identity.NewTtlDecidesPending | monitor/app/api/users/identity.py:404-418 | after a new ttl, or none, the user is pending iff that ttl has passed, whatever the flags were |
| Identity.UpdateReadsAsAsked | monitor/app/api/users/identity.py:404-444 | after an update the active flag is the value passed or as before; expiry and revoked flag are set afresh by a new ttl, gone with none, and otherwise as before but for a reactivation, which clears the revoked flag; the rest is untouched |
| Identity.ReactivatedIsDueIff | monitor/app/api/users/identity.py:405-409 | after a bare reactivation a user is pending iff their stored expiry has passed |
| Identity.MarkingEndsPending | monitor/app/api/users/identity.py:731-743 | a marked user is not pending |
| Identity.DeactivatingKeepsPending | monitor/app/api/users/identity.py:458-460 | deactivation alone leaves the user pending |
| Identity.IdentityClient.MarkCertsRevoked | monitor/app/api/users/identity.py:505-529 | read, merge and write reach exactly the marked store iff the write takes effect, and succeed iff it is reported done |
| Identity.IdentityClient.DeactivateUser | monitor/app/api/users/identity.py:458-478 | likewise for deactivation |
| Identity.IdentityClient.UpdateUser | monitor/app/api/users/identity.py:398-456 | what a reader finds under each name after the call, from the arguments and what was there; a new display name takes effect with it or not at all; nothing requested, nothing sent; a failure to read the user back is a failure of the call |
| Identity.BuildRequest | monitor/app/api/users/identity.py:404-418 | the request holds the active flag passed, false for the revoked flag on reactivation or a new ttl, the expiry or its clearing, and nothing else |
| Identity.Merge | monitor/app/api/users/identity.py:431-444 | requested over existing, with cleared names appended empty and none listed twice |
| Groups.TargetSurvivesPartialRuns | monitor/app/api/users/identity.py:604-643 | any partial run aims at the same end, and the end is a fixed point |
| Groups.BelongsIffTarget | monitor/app/api/users/identity.py:604-620 | a group is in the target iff it is a tak_ group named with or without the prefix, or another the user was in |
| Groups.Replaced | monitor/app/api/users/identity.py:604-643 | whatever part of the requests is made and applied, the user moves only towards the target, and is there once all are |
| Groups.GroupDirectory.RemoveUndesired | monitor/app/api/users/identity.py:621-631 | leaves are asked only for undesired tak_ groups, for all of them unless one is reported failed; those applied take effect |
| Groups.GroupDirectory.AddDesired | monitor/app/api/users/identity.py:633-643 | joins are asked only for missing desired groups, for all of them unless one is reported failed; those applied take effect |
| Groups.GroupDirectory.SetUserGroups | monitor/app/api/users/identity.py:604-643 | the user ends in the tak_ groups named, with or without the prefix, and the others they were in, if all requests are applied; every request moves that way, none when already there |
| Expiry.TakServerClient.RevokeAllUserCerts | monitor/app/api/users/tak_server.py:172-203 | true iff the sweep succeeded and every listed certificate was revoked already or is put on the CRL; failures do not stop the loop |
| Expiry.CrlAfterIff | monitor/app/api/users/tak_server.py:172-203 | the CRL gains what the sweep covered and the PEMs of the listed unrevoked certificates it accepts |
| Expiry.TurnReads | monitor/app/scheduler.py:124-153 | after a turn a reader finds the user inactive if they were or a deactivation was applied, the revoked flag set iff the mark was stored, and all else as before |
| Expiry.InactiveUsersAreNotDeactivated | monitor/app/scheduler.py:129-131 | for a user stored inactive the turn ends the same whatever a deactivation would do |
| Expiry.FailedDeactivationKeepsPending | monitor/app/scheduler.py:124-131 | an active user whose deactivation is reported failed stays pending and is not reported done |
| Expiry.LeavesPendingIff | monitor/app/scheduler.py:129-153 | a pending user's turn ends it iff the mark is stored |
| Expiry.LeavesPendingOnlyWhenRevoked | monitor/app/scheduler.py:134-149 | so only with a TAK client, a successful sweep and every listed certificate dealt with |
| Expiry.MarkedWithValidIff | monitor/app/api/users/tak_server.py:123-203 | a user is marked while the server holds a certificate off the CRL iff the mark is stored after a good sweep and either the query met an HTTP error or a listed one was dealt with only by its flag |
| Expiry.MarkedMeansRevoked | monitor/app/api/users/tak_server.py:157-165 | with the query answered and no flag ahead of the CRL, a marked user has no valid certificate left |
| Expiry.HttpErrorMarksTheUnrevoked | monitor/app/api/users/tak_server.py:127-129 | whoever the user is, an HTTP error in a smooth turn marks them with a valid certificate left |
| Expiry.FlaggedCertMarksTheUnrevoked | monitor/app/api/users/tak_server.py:182-183 | so does a certificate flagged in certadmin that never reached the CRL, with no error |
| Expiry.PendingFallsByMarked | monitor/app/api/users/identity.py:731-743 | at a fixed time the pending users lose exactly the marked ones; nobody is marked without a TAK client |
| Expiry.Turn | monitor/app/scheduler.py:124-153 | one user's turn under any failures changes that user alone; it is reported done iff the user was inactive or reported deactivated, a client revoked all, and the mark is reported written; without the former the CRL is untouched |
| Expiry.CheckUserExpiry | monitor/app/scheduler.py:102-153 | after a tick every pending user whose deactivation is applied reads inactive, each pending user is as their turn leaves them and nobody else changed; exactly who is reported done; those marked have their listed certificates dealt with |
| Audit.SameRecordIffAgreeOutside | monitor/app/audit.py:112-125 | noninterference, exactly: same record iff the bodies agree outside sensitive keys |
| Audit.FieldRedactedIff | monitor/app/audit.py:112-123 | a field keeps only the placeholder iff its key, in lower case, contains one of the seven words; else its own value is redacted in turn |
| Audit.SanitisedIsClean | monitor/app/audit.py:117-125 | at every depth a sensitive key holds the placeholder |
| Audit.CleanIsFixed | monitor/app/audit.py:117-125 | a body is left alone iff it is clean already |
| Audit.SanitiseIsIdempotent | monitor/app/audit.py:117-125 | twice is once, and the record agrees with the body outside sensitive keys |
| Audit.RecordAlongPath | monitor/app/audit.py:117-125 | off sensitive paths every leaf is kept in place; on them only the placeholder is found |

## Left out

- RateLimit.RetryAfterIsLeastWait: the remaining time is rounded up exactly; the code goes through a float64 number of seconds, which holds whole nanoseconds exactly only up to about 2^24 seconds.
- Tokens.TokenStore.GetActive: row ids and row order are not determined by the log, since ids are reused and the query sets no order.
- Tokens.TokenStore.DeleteByUsername: the count is of rows, so it depends on which purges ran.
- TokenTransactions.AcceptanceIsJustified: a token that is not one-time may be accepted by a call that began before its deletion and commits after it, so acceptances are placed at some version within the call, not at its commit.
- TokenHistory.RefusalIsNotGood: a call whose clock reading is older than another call's purge may miss a token that was still good at its own time.
- WorstRun.LockedBoundIsAttained: where a lockout is shorter than the window the bound with a lockout standing is proved but not shown attained.
- Evaluator.ItemStatus: message texts are reduced to which key or item they are about; NaN, and status names outside the four, are not modelled.
- Evaluator.StatusDropsIff: excludes the key `error`, which is not a reading, and data that would raise.
- Alerts.AlertEngine.CheckAndAlert: a change suppressed by the cooldown is not sent later while the state stays put, so no eventual notification is claimed.
- HealthPoll.RunPoll: of the dashboard store only the status is kept; it takes dashboard and engine to agree before the poll; overlapping polls, after which they may not, are the subject of `PollInterleaving`.
- Alerts.AlertEngine.Emit: failures of the event table, mail and SMS are swallowed by the code and not modelled.
- Stamps.FilenameRoundTrip: digits are ASCII, while the pattern's `\d` also admits other decimal digits; years below 1000, which strftime may print short, parse here but are not printed by any run.
- Retention.BackupDir.Prune: which names cannot be examined or removed is fixed for the length of a prune, and no one else removes files meanwhile.
- BackupRun.BackupRunner.Run: failures to write the state file are not modelled, nor is a sidecar written in part or the content of an archive.
- Attributes.ParseAttributes: text is ASCII where the code strips, lower-cases and reads digits, and Python's limit on the length of integer texts is left out.
- Identity.IdentityClient.UpdateUser: the retries of a request, what the user read back looks like and the conversion of a fractional ttl to a whole expiry are not modelled; users are found by name, not by numeric id.
- Expiry.LeavesPendingOnlyWhenRevoked: speaks of the listed certificates; what is left valid all the same is the subject of `MarkedWithValidIff`.
- Expiry.CheckUserExpiry: that certificates are revoked eventually is not claimed, as it depends on how openssl treats one revoked before.
- Audit.SameRecordIffAgreeOutside: keys are lower-cased in ASCII; the middleware around redaction is not modelled.
- HTTP routing, bind and search handlers, group lookup for response headers, DN, header and client IP parsing: I/O and strings with no invariant over runs.
- Hidden users, group creation and deletion, service accounts, retry loops and the dashboard: easy members only.
- SQLite, PostgreSQL, flock, SHA-256, x509, openssl, age and pg_dump: represented by the outcomes and assumptions above.
