# Verification of the table-order service

A Dafny model of the parts of the restaurant table-order service that carry state, branching or
arithmetic: the Python backend's login rate limiter, its session, order and history transactions,
order numbering, the write retry, timestamps and order numbers as text, and two pieces of the shared
TypeScript library, the polling hook and the cart total.

`dafny verify dfyconfig.toml` checks everything.

## How it is built

| files | what they hold |
|---|---|
| `LimiterSpec`, `LimiterStore`, `RateLimiter`, `LoginGuard`, `LoginRuns` | The limiter as an object whose ordered dictionary is pruned, swept and capped in place, proved to answer as a specification that keeps every failure. From the way logins call it follows a bound on failed attempts in any span of time, for every interleaved run of logins on a limiter that starts empty. |
| `Numbering` | Order numbering with any number of clients interleaved: reading the maximum and committing the insert are two steps, reads may be stale, and the UNIQUE constraint refuses. |
| `SessionRace` | Starting sessions with any number of clients interleaved: looking for an ACTIVE session and committing a new one are two steps. |
| `Rows`, `OrderLists` | Database rows and the queries over them: sums, counts, maxima, sorted lists, pages. |
| `Steps` | Each transaction as one pure step, with every write taking effect at once. |
| `Invariants`, `Transactions`, `Effects`, `Runs` | What every step keeps, what each does and answers, field by field, and what follows over whole runs from an empty database. |
| `ActiveSessions`, `TableLogins` | How many ACTIVE sessions a table has, when it is more than one, and how logins get rid of stale ones. |
| `UnitOfWork`, `Services`, `Dashboard` | The database session with `autoflush=False` (flushed rows, and pending changes in memory) and the services on top of it, statement by statement, each proved to commit what its step says. |
| `Witnesses` | Concrete runs: a table from set-up to completion, and the runs in which something promised goes wrong. |
| `TableAuthentication` | The whole table login: limiter, PIN, session. |
| `Retry` | The retry loop, and what may come of a create_order that is retried. |
| `Decimal`, `OrderNumber`, `Timestamp`, `HistoryQuery`, `HistoryDays`, `HistoryPages` | Printing, parsing and comparing text; the history query on stored timestamps, which days it lists the services' own rows for, and when its pages fit together. |
| `Wrappers`, `Collections`, `Sorting` | `Option` and `Result`; slices, set sizes and products; sorting by insertion. |
| `PollingProtocol`, `UsePolling` | The hook as a protocol of events with theorems over every interleaving, and the hook itself, updating its refs and timer in place, proved to follow it. |
| `Pricing` | The cart total in floating point against the server's in whole numbers. |

Choices the code leaves open are parameters: the clock (it never runs backwards for the limiter),
fresh ids, which stored hashes a password fits, and which row an unordered query returns. Database timestamps are
microseconds as integers; `Timestamp.IsoOrder` and `Timestamp.ParseToIso` say why that is the same as
the stored text. A token is taken to name a table that exists, since logins issue it. Rows are never
removed, so a row is known by its place.

## Where the code and its documentation disagree

Each comes with an input that shows it and the exact condition under which the promise is kept.

- The header of `backend/app/db/session.py` (line 4) says that UNIQUE violations are retried. The code
  retries only operational errors that speak of a lock or a busy database
  (`Retry.OnlyConflictsAreRetried`, `Retry.ConflictIff`). A create_order whose insert is overtaken by
  another client's fails at once, and of the inserts only such a one (`Retry.OvertakenIsLost`,
  `Retry.OneOfTwoIsLost`). Rule BR-NUM-04, which asks for a retry or a failure, is kept.
- `delete_order` is documented to return the recomputed total without the deleted order. With
  `autoflush=False` the sum is taken before the deletion is flushed, so the total still has the
  order in it, and is right only for an order worth nothing (`Services.DeleteOrder`,
  `Services.ReturnedTotalRightIff`, `Witnesses.WrongTotalReturned`).
- Rule BR-SESS-01 allows one ACTIVE session a table. Setting a table up again over a session
  that has run out but is still marked ACTIVE leaves two (`ActiveSessions.TwoActiveSessions`). Of
  transactions that run one after the other nothing else does (`ActiveSessions.OneActiveIff`). No
  constraint backs the rule when they overlap: requests that all look before any of them commits start a
  session each, as many as there are clients and no more (`SessionRace.ActiveBounded`,
  `SessionRace.BoundIsReached`).
- Rule BR-SESS-03 refuses to set a table up again while it has an active session. That holds while no
  table has two ACTIVE rows (`ActiveSessions.SetupRefusedIff`); in general a setup can get past a running
  session if and only if a run-out row is still marked ACTIVE beside it
  (`ActiveSessions.SetupOverRunningIff`, `Witnesses.SetUpOverRunning`).
- Rule BR-SESS-05 has every request that finds its session run out mark it EXPIRED and answer
  TOKEN_EXPIRED. A login does. An order marks it if and only if its token names no session and all its
  dishes are known; otherwise it is refused (as a closed session, when the token names one) and the mark
  is rolled back with it. A setup never marks it (`Transactions.MarkedExpiredIff`,
  `Witnesses.ExpiredStaysActive`).
- Rules BR-HIST-03 and BR-AUTH-05 reset a table's card and void its tokens when its session is completed.
  With two ACTIVE rows the other one stays: the card is reset if and only if no other session of the table
  runs and has orders (`Dashboard.CompletionResetsCard`), and logins and tokens end if and only if no other
  one runs (`TableLogins.CompletionEndsLogins`, `TableLogins.CompletionEndsOrders`,
  `Witnesses.OtherSessionStays`).
- Rule BR-HIST-01 moves a session's orders to the history when the session ends. The orders of a session
  that expires stay where they are (`Runs.ArchivedIffCompleted`, `Witnesses.ExpiredOrderNotArchived`).
- Section 2.5 of the integration contract has the history answered in pages of a total, sorted by completion
  time. All orders of a session are completed at one time, and nothing orders them further, so pages of
  separate queries need not hold every order once. They do, whatever the queries make of ties, if and only
  if no tie lies across the end of a page (`HistoryPages.PagesFitIff`, `HistoryPages.TwoAtOnce`).
- Rule BR-PL-04 has the polling hook abort the request under way when its component goes. It does if and
  only if polling is enabled then, or the request was aborted before: a disabled effect has no clean-up
  (`PollingProtocol.UnmountAbortsIff`, `PollingProtocol.DisabledIsNotCleanedUp`).

## Model

| member | source | states |
|---|---|---|
| `LimiterSpec.LockedIff` | backend/app/security/ratelimit.py:70-102 | By the events alone: a key is locked exactly if some failure of it, with those in the window before it and since the key's last success, eviction or lock, made up max_failures, less than the cooldown ago, and no success or eviction followed. |
| `LimiterSpec.BelowMaximumNeverLocked` | backend/app/security/ratelimit.py:92-96 | A key that never has max_failures in the window that ends with a failure is never locked. |
| `LimiterSpec.MaximumLocks` | backend/app/security/ratelimit.py:92-96 | As soon as the failures of a key with nothing to forget make up max_failures in one window it is locked, for the cooldown. |
| `LimiterStore.PruneTracks` | backend/app/security/ratelimit.py:46-50 | Dropping the old end of a deque changes no count the limiter may ever ask for again, and no lock. |
| `LimiterStore.SweepKeeps` | backend/app/security/ratelimit.py:52-63 | A sweep at any moment leaves a store that stands for the same history of failures as before. |
| `LimiterStore.MaybeSweptConsistent` | backend/app/security/ratelimit.py:52-63 | Sweeping or not, the store keeps its order of use, its cap and its meaning when time moves on. |
| `LimiterStore.SweptIff` | backend/app/security/ratelimit.py:52-63 | Once a window has passed since the last sweep, the keys left are exactly those with a lock in force or a failure in the window, and the oldest failure left of each is in the window. |
| `LimiterStore.ProbeConsistent` | backend/app/security/ratelimit.py:70-81 | The lock found in the store is the lock of the keep-everything specification; a locked answer makes the key the youngest. |
| `LimiterStore.RecordTracks` | backend/app/security/ratelimit.py:89-96 | The entry after a failure stands for the specification's log after it: the same lock, and the same counts from then on. |
| `LimiterStore.FailureConsistent` | backend/app/security/ratelimit.py:83-97 | After a failure the store is consistent again; if it overflows, exactly the oldest key goes. |
| `LimiterStore.EvictConsistent` | backend/app/security/ratelimit.py:65-68 | Evicting the oldest key of an overfull store is justified and leaves a consistent store. |
| `LimiterStore.SuccessConsistent` | backend/app/security/ratelimit.py:99-102 | A success forgets the key and nothing else. |
| `LimiterStore.OldestIsJustified` | backend/app/security/ratelimit.py:65-68 | Every other key in the store was used after the oldest one: at least cap many. |
| `LimiterStore.MemoryBound` | backend/app/security/ratelimit.py:46-97 | At most key_cap * (max_failures - 1) timestamps are ever kept. |
| `LimiterStore.FewKeysNeverEvicted` | backend/app/security/ratelimit.py:65-68 | As long as at most key_cap distinct keys were used nothing is ever evicted. |
| `LimiterStore.PlainWithFewKeys` | backend/app/security/ratelimit.py:70-102 | As long as at most key_cap distinct keys were used the answers are those of the plain specification, which keeps every failure since a key's last success or lock and counts those no older than the window. |
| `RateLimiter.PruneEntry` | backend/app/security/ratelimit.py:46-50 | The popping loop drops exactly the failures at the old end that lie before the window. |
| `RateLimiter.SweptInTwoLoops` | backend/app/security/ratelimit.py:57-63 | Pruning every entry and then popping the dead keys leaves exactly the pruned live entries. |
| `RateLimiter.Limiter.constructor` | backend/app/security/ratelimit.py:30-44 | A new limiter is empty and stands for an empty history. |
| `RateLimiter.Limiter.Pop` | backend/app/security/ratelimit.py:99-102 | Removing a key keeps all other entries and their order. |
| `RateLimiter.Limiter.PruneAll` | backend/app/security/ratelimit.py:57-61 | The first sweep loop prunes every entry and lists exactly the dead keys. |
| `RateLimiter.Limiter.PopAll` | backend/app/security/ratelimit.py:62-63 | The second sweep loop removes exactly the listed keys and keeps the order of the others. |
| `RateLimiter.Limiter.MaybeSweep` | backend/app/security/ratelimit.py:52-63 | At most one sweep a window; it leaves exactly the pruned live entries, in order. |
| `RateLimiter.Limiter.EvictIfNeeded` | backend/app/security/ratelimit.py:65-68 | Keys leave from the old end until the cap holds, no more and no fewer. |
| `RateLimiter.Limiter.Look` | backend/app/security/ratelimit.py:72-81 | What a question does to the dictionary. |
| `RateLimiter.Limiter.IsLocked` | backend/app/security/ratelimit.py:70-81 | Over every sequence of calls: locked exactly if the key's events so far lock it, as `LimiterSpec.LockedIff` says. |
| `RateLimiter.Limiter.StoreFailure` | backend/app/security/ratelimit.py:86-97 | The dictionary after a failure: key youngest, entry as `LimiterStore.RecordTracks` has it, oldest key gone if over the cap. |
| `RateLimiter.Limiter.RecordFailure` | backend/app/security/ratelimit.py:83-97 | Records the failure, evicts at most one key, and never the recorded one when the cap is at least 1. |
| `RateLimiter.Limiter.RecordSuccess` | backend/app/security/ratelimit.py:99-102 | Clears the key in store and history. |
| `LoginGuard.Authenticate` | backend/app/services/auth_service.py:45-61 | Ask, verify, record: refused exactly when the key's events lock it, and every failure recorded was asked for first. |
| `LoginGuard.AskedMeansUnlocked` | backend/app/services/auth_service.py:45-61 | A failure recorded after an unlocked answer meets no lock in force. |
| `LoginGuard.FailureContained` | backend/app/security/ratelimit.py:92-96 | Each failure is counted in the window, or locks past its end, or lies outside. |
| `LoginGuard.WindowBound` | backend/app/services/auth_service.py:45-61 | With cooldown >= window and no eviction, any half-open span of one window holds at most max_failures failed attempts between two successes. |
| `LoginGuard.WindowsBound` | backend/app/services/auth_service.py:45-61 | Any span of at most n windows holds at most n * max_failures failed attempts, under the same conditions. |
| `LoginGuard.SpanBound` | backend/app/services/auth_service.py:45-61 | Any span of length T holds at most max_failures * (floor(T / window) + 1) failed attempts, under the same conditions. |
| `LoginRuns.CountsAgree` | backend/app/services/auth_service.py:45-61 | The failures in the history are the calls that callers saw refused for their credentials. |
| `LoginRuns.StretchBound` | backend/app/services/auth_service.py:45-61 | The bound for any stretch of calls in which the key is not accepted, in terms of answers. |
| `LoginRuns.Serve` | backend/app/services/auth_service.py:45-61 | One half of a login, the question or the verdict, while logins of other keys are under way: every failure recorded was asked for first. |
| `LoginRuns.ServeAll` | backend/app/services/auth_service.py:45-61 | Any interleaved run of logins, one at a time for each key, on a limiter that starts empty with room for all keys: a key is told to wait exactly when the refusals and acceptances seen so far lock it, every verdict is the deserved one, and every stretch without a success and every span T has at most max_failures * (floor(T / window) + 1) refused credentials for a key. |
| `TableAuthentication.AuthenticateTable` | backend/app/services/auth_service.py:82-118 | A locked key leaves rows untouched; otherwise the login step runs, a wrong PIN is recorded as a failure and a right one clears the key even if the session has expired. |
| `TableAuthentication.SameKeyIff` | backend/app/security/ratelimit.py:104-110 | Tables of one store never share a key, and none shares one with an admin; tables of two stores do if and only if colons in their names make it so. |
| `Numbering.MaxIsCount` | backend/app/repositories/order_repo.py:14-22 | Without gaps the maximum, deleted rows included, is the count. |
| `Numbering.TakenIffCounted` | backend/app/db/models.py:109 | The numbers taken for a store and day are exactly 1..n. |
| `Numbering.NumbersDistinct` | backend/app/db/models.py:109 | No (store, date, number) occurs twice. |
| `Numbering.RefusedIffOvertaken` | backend/app/services/order_service.py:103-122 | An insert is refused if and only if another client committed for the same store and day since the read. |
| `Numbering.ReadIsFresh` | backend/app/services/order_service.py:103-106 | Directly after reading, the insert would be accepted. |
| `Numbering.NextKeepsInv` | backend/app/services/order_service.py:103-122 | Reads, commits, aborts and soft deletions in any interleaving keep the rows gap-free and every reading the count of a prefix. |
| `Numbering.NumbersAreExact` | backend/app/services/order_service.py:103-122 | In every interleaving the stored numbers of a store and day are exactly 1..n, each once, in commit order. |
| `Numbering.RefusalsBounded` | backend/app/services/order_service.py:103-122 | With N clients at most N - 1 inserts are refused for each one committed. |
| `Numbering.AcceptsAreRows` | backend/app/services/order_service.py:122 | Every committed insert is one row. |
| `Numbering.ReadingsAsRead` | backend/app/services/order_service.py:103 | A request is about to insert exactly if its last step was to read, for the store and day it read. |
| `Numbering.StepEffect` | backend/app/services/order_service.py:103-122 | Its insert adds one row for that store and day with the next number, unless it was overtaken; deleting an order only marks its row; nothing else touches the rows. |
| `Numbering.SecondIsRefused` | backend/app/db/models.py:109 | Two clients read, one commits, and the insert of the other is refused. |
| `Numbering.PrintedNumbersUnique` | backend/app/services/order_service.py:104-107 | Printed order numbers are unique over all stores and days, though no constraint says so. |
| `OrderNumber.LastDash` | backend/app/services/order_number.py:17 | Finds the last dash, if there is one. |
| `OrderNumber.RoundTrip` | backend/app/services/order_number.py:10-18 | Parsing undoes printing for every store id, every dash-free date and every number. |
| `OrderNumber.ParseThenFormat` | backend/app/services/order_number.py:10-18 | A parsed text prints back to itself exactly when its number part is as the printer writes it. |
| `OrderNumber.FormatInjective` | backend/app/services/order_number.py:10-12 | Different parts never print alike. |
| `OrderNumber.Samples` | backend/app/services/order_number.py:10-12 | Store, date and number in this order, the number with at least three digits. |
| `Timestamp.DayOrder` | backend/app/time_utils.py:37-39 | Days are ordered by year, month and day as their numbers are. |
| `Timestamp.IsoOrder` | backend/app/time_utils.py:19-26 | Printed timestamps sort as text exactly as the moments sort in time, with or without a fraction. |
| `Timestamp.ParseToIso` | backend/app/time_utils.py:29-34 | Every printed timestamp is read back as it was. |
| `Timestamp.DateOf` | backend/app/time_utils.py:37-39 | For every day number of the calendar there is the date. |
| `Timestamp.MomentOf` | backend/app/time_utils.py:14-16 | For every number of microseconds in the calendar there is the moment, on the day it falls on. |
| `Timestamp.CompactInjective` | backend/app/time_utils.py:42-44 | Compact dates of different days differ and hold no dash. |
| `Timestamp.PrintedDate` | backend/app/time_utils.py:42-44 | A date as printed, with dashes and compact. |
| `Timestamp.CalendarSamples` | backend/app/time_utils.py:37-39 | Leap years, and days by their number. |
| `HistoryQuery.Matching` | backend/app/repositories/history_repo.py:27-34 | The filter keeps exactly the matching rows. |
| `HistoryQuery.FromMeansDay` | backend/app/repositories/history_repo.py:30-31 | Comparing text with date_from means: completed on that day or later. |
| `HistoryQuery.ToMeansDay` | backend/app/repositories/history_repo.py:32-34 | Comparing text with the end of date_to means: completed on that day or earlier. |
| `HistoryQuery.FilterMeansDays` | backend/app/repositories/history_repo.py:16-36 | Every row of any page is a row there is, of the store (and table), completed in Seoul on a day in the range; the page as long as the count holds each such row exactly as often as it is there. |
| `HistoryQuery.SortSorts` | backend/app/repositories/history_repo.py:35 | Latest completion first. |
| `HistoryQuery.CountAgrees` | backend/app/repositories/history_repo.py:39-54 | The count says how many rows each page holds, and each page is latest first. |
| `HistoryQuery.WholeListing` | backend/app/repositories/history_repo.py:27-36 | The page from the start as long as the count holds exactly the matching rows, each as often as it is there. |
| `HistoryQuery.PagesPartition` | backend/app/services/history_service.py:84-104 | The pages 1..total_pages of one arrangement joined are that whole listing. |
| `HistoryPages.PagesFitIff` | backend/app/repositories/history_repo.py:35 | Pages from queries of their own, each free to arrange ties, hold every row once if and only if no two rows on either side of a page's end were completed at the same time. |
| `HistoryPages.TwoAtOnce` | backend/app/services/session_service.py:189-193 | Two orders completed together, one a page, need not both come. |
| `HistoryDays.ListedByItsDay` | backend/app/repositories/history_repo.py:27-36 | A history row of the services is listed by the query exactly for its store, its table or all, and the ranges of days that contain its completion. |
| `HistoryDays.CompletionListed` | backend/app/services/session_service.py:189-193 | The query lists a completion's rows in exactly the ranges that contain the day of completion. |
| `Rows.FindTable` | backend/app/repositories/table_repo.py:19-22 | A table of that store and number, or proof that there is none. |
| `Rows.FindMenu` | backend/app/repositories/menu_repo.py:25-28 | A dish of that store and id, or none. |
| `Rows.FindOrder` | backend/app/repositories/order_repo.py:30-34 | A live order of that store and id, or none. |
| `OrderLists.ListMembers` | backend/app/repositories/order_repo.py:46-66 | The list holds exactly the orders of that store and session that are not deleted. |
| `OrderLists.ListDistinct` | backend/app/repositories/order_repo.py:46-66 | The session's list holds no order twice. |
| `OrderLists.SortOrdered` | backend/app/repositories/order_repo.py:62 | Ascending: an earlier order never stands after a later one, nor of two created at the same time the one with the lower number. |
| `OrderLists.SortedUnique` | backend/app/repositories/order_repo.py:62 | With distinct sort keys only one arrangement is sorted. |
| `OrderLists.ListTotal` | backend/app/repositories/order_repo.py:84-93 | The list adds up to the session's total. |
| `OrderLists.ListCount` | backend/app/repositories/order_repo.py:69-81 | The count is the list's length. |
| `OrderLists.NonePending` | backend/app/repositories/order_repo.py:112-126 | No order counts as pending exactly when all live ones are completed. |
| `OrderLists.PagesPartition` | backend/app/services/order_service.py:129-146 | For every page size the pages 1..total_pages of one arrangement joined are the whole list. |
| `OrderLists.PagesOfSeparateQueries` | backend/app/services/order_service.py:129-146 | If sort keys are distinct the pages joined are the whole list, although each comes from a query of its own that may arrange the rows as it likes. |
| `OrderLists.PagesNotEmpty` | backend/app/services/order_service.py:210-212 | No page up to total_pages is empty unless there are no orders. |
| `OrderLists.RecentIsReversedEnd` | backend/app/repositories/order_repo.py:96-109 | The recent orders, descending by creation time, then number, are the end of the list, latest first, if sort keys are distinct. |
| `Steps.ArchiveAll` | backend/app/services/history_service.py:18-49 | One history row an order, a copy of it. |
| `Invariants.AddSessionKeeps` | backend/app/repositories/table_repo.py:76-93 | Starting a session keeps the invariant and all that went before. |
| `Invariants.MarkExpiredKeeps` | backend/app/repositories/table_repo.py:96-103 | Marking an ACTIVE session expired keeps the invariant and all that went before. |
| `Invariants.OrderChangeKeeps` | backend/app/repositories/order_repo.py:37-43 | A change of status or a soft deletion keeps the invariant; contents, number and history copy of the order stay. |
| `Invariants.AppendOrderKeeps` | backend/app/services/order_service.py:109-122 | A new order with the next number in an ACTIVE session keeps the invariant, and closed sessions get no orders. |
| `Invariants.ArchiveKeeps` | backend/app/services/session_service.py:180-193 | Closing a session keeps the invariant: its live orders enter the history for the first time, completed, and none is forgotten. |
| `Invariants.NotArchivedYet` | backend/app/services/session_service.py:180-193 | No order of an ACTIVE session is in the history. |
| `Transactions.PricedItems` | backend/app/services/order_service.py:81-101 | One line for each item requested, in order: its dish and quantity, name and price of that dish on the store's menu; the total is the sum of price times quantity. |
| `Transactions.PricedIffKnown` | backend/app/services/order_service.py:84-87 | Lines are priced exactly if every dish is known to the store. |
| `Transactions.NextNumber` | backend/app/repositories/order_repo.py:14-22 | The maximum is the count of the store's orders that day. |
| `Transactions.StartSession` | backend/app/services/session_service.py:31-69 | The session an order goes to is ACTIVE, unexpired, the table's, and the token's if it names one. |
| `Transactions.CreateGoesToOpenSession` | backend/app/services/order_service.py:67-126 | The one new order has exactly the lines requested at the menu's prices, their sum as total, the next number, and went to such a session; nothing else of orders, history and tables changed. |
| `Transactions.CreateSucceedsIff` | backend/app/services/order_service.py:67-122 | Exactly when an order is placed: items given, table known, token fitting the open session, all dishes known. |
| `Transactions.UpsertKeeps` | backend/app/repositories/table_repo.py:32-54 | The table exists afterwards with the new PIN and auto login, and table numbers stay unique. |
| `Transactions.StatusChanges` | backend/app/services/order_service.py:149-170 | Any status may follow any other, for a live order of the store; nothing else in the database changes. |
| `Transactions.DeleteRemoves` | backend/app/services/order_service.py:173-189 | The deleted order, and only it, leaves its session's list; it is not found again, and its number stays taken. |
| `Transactions.CompleteSucceedsIff` | backend/app/services/session_service.py:181-187 | A session is completed exactly if one was found and none of its live orders is unfinished. |
| `Transactions.CompleteArchives` | backend/app/services/session_service.py:173-209 | Archives exactly the live orders, all completed, and the archived totals add up to the table's total just before. |
| `Transactions.NextKeeps` | backend/app/services/session_service.py:180-202 | Every step keeps the invariant and only develops the database forwards. |
| `Transactions.MarkedExpiredIff` | backend/app/services/session_service.py:46-59 | Exactly which requests leave an ACTIVE session EXPIRED: of those that find it run out, a login always, an order if and only if its token names no session and all dishes are known, a setup never. |
| `Effects.CreateEffect` | backend/app/services/session_service.py:43-69 | An order joins the session found running; if none is, one of sixteen hours starts now, and a run-out one found is marked EXPIRED; no other session changes. |
| `Effects.CreateRefused` | backend/app/services/order_service.py:72-87 | A refused order changes nothing; which error it gets: nothing ordered, no table, closed session, unknown dish, in this order. |
| `Effects.NotFoundRefused` | backend/app/services/order_service.py:154-181 | Without such a live order a status change and a deletion answer NOT_FOUND and change nothing. |
| `Effects.DeleteEffect` | backend/app/services/order_service.py:173-207 | The live order gets its two deletion marks and keeps the rest; nothing else changes. |
| `Effects.SetupEffect` | backend/app/services/session_service.py:89-103 | A set-up gives the table its password and lets tablets in, new or under its old id, and adds one session of sixteen hours; all other rows stay. |
| `Effects.SetupRefused` | backend/app/services/session_service.py:82-87 | It is refused exactly while the table exists and the session found for it runs, and then changes nothing. |
| `Effects.LoginAnswer` | backend/app/services/auth_service.py:92-118 | UNAUTHORIZED without the right password of a table that lets tablets in, TOKEN_EXPIRED without a running session, otherwise the session found; the only change ever is the EXPIRED mark. |
| `Effects.CompleteEffect` | backend/app/services/session_service.py:180-193 | The session found is COMPLETED with its time, its listed orders are copied field by field to the end of the history in list order, and nothing else changes. |
| `Effects.CompleteRefused` | backend/app/services/session_service.py:181-187 | Otherwise it answers NOT_FOUND without a session and a conflict with unfinished orders, and changes nothing. |
| `Runs.ReachableInv` | backend/app/services/order_service.py:77-122 | The invariant holds in every reachable state. |
| `Runs.RunLater` | backend/app/repositories/table_repo.py:96-103 | Over any stretch of a run sessions close for good, orders keep their contents and history only grows. |
| `Runs.ClosedSessionFrozen` | backend/app/services/session_service.py:43-69 | A session no longer ACTIVE never changes, and its set of orders is frozen. |
| `Runs.ClosedSessionTakesNoOrders` | backend/app/services/session_service.py:51-59 | Once a session is no longer ACTIVE every order with a token that names it is refused, over every later run, and changes nothing. |
| `Runs.OrdersComeFromOpenSessions` | backend/app/services/order_service.py:77-122 | Every order of a run was placed by a request that found its session ACTIVE, unexpired and matching its token, and has that request's lines at the prices the menu had then, and their sum as total. |
| `Runs.HistoryIsFaithful` | backend/app/services/history_service.py:18-49 | Each order is in history at most once, COMPLETED, with its contents, under its completed session; no live order of a completed session is missing. |
| `Runs.ArchivedIffCompleted` | backend/app/services/session_service.py:189-193 | In every reachable state a live order is in the history if and only if its session is COMPLETED. |
| `Runs.RowsAreAppended` | backend/app/services/history_service.py:23-49 | A completion appends its rows, and they total the table's sum. |
| `Runs.ArchivedForGood` | backend/app/services/session_service.py:189-193 | Those rows stay in the history unchanged whatever comes later. |
| `Runs.KeysDistinct` | backend/app/repositories/order_repo.py:62 | Sort keys of a session are distinct in every database in which orders of one moment carry one day. |
| `Runs.ReachablePages` | backend/app/services/order_service.py:129-146 | In every such reachable state the pages of separate queries joined are the whole list. |
| `Runs.StepFlow` | backend/app/repositories/order_repo.py:84-93 | Each step changes a session's total by exactly what it orders or deletes. |
| `Runs.MoneyBalance` | backend/app/repositories/order_repo.py:84-93 | At any time a session's total is what was ordered less what was deleted, whatever happened to the menu. |
| `Runs.OrderNumbersUnique` | backend/app/services/order_service.py:104-107 | No two orders of a database print the same number. |
| `ActiveSessions.PickMeansCount` | backend/app/repositories/table_repo.py:57-64 | The lookup finds nothing exactly when the table has no ACTIVE row, whichever row it picks. |
| `ActiveSessions.StepChange` | backend/app/services/session_service.py:31-69 | By how much each request changes the number of ACTIVE rows of a table. |
| `ActiveSessions.RiseFromZero` | backend/app/services/session_service.py:81-103 | But for one kind of request an ACTIVE row is added only where there is none. |
| `ActiveSessions.SecondSession` | backend/app/services/session_service.py:83-103 | Setting up over an expired ACTIVE row makes it two. |
| `ActiveSessions.OneActiveIff` | backend/app/services/session_service.py:83-103 | One-ACTIVE-per-table is kept if and only if the request is not a setup over an expired row still marked ACTIVE. |
| `ActiveSessions.ReachableTablesKnown` | backend/app/db/models.py:74 | Every session belongs to a table there is. |
| `ActiveSessions.OneActiveThroughout` | backend/app/services/session_service.py:83-103 | Over whole runs: at most one ACTIVE session a table throughout, if and only if no such setup ever happens. |
| `ActiveSessions.TwoActiveSessions` | backend/app/services/session_service.py:85-103 | A run of two setups sixteen hours apart that ends with two ACTIVE sessions. |
| `ActiveSessions.SetupRefusedIff` | backend/app/services/session_service.py:82-87 | While no table has two ACTIVE rows, a setup is refused if and only if the table has an unexpired ACTIVE session. |
| `ActiveSessions.SetupOverRunningIff` | backend/app/services/session_service.py:82-87 | Over a running session the lookup can let a setup through if and only if the table also has a run-out row still ACTIVE. |
| `ActiveSessions.FoundAfterCompletion` | backend/app/services/session_service.py:180-193 | After a completion the lookup finds, of running sessions, exactly those that were there besides the completed one. |
| `ActiveSessions.CompletionClosesIff` | backend/app/services/session_service.py:180-193 | No lookup finds a running session after a completion if and only if the table had no other. |
| `SessionRace.ActiveBounded` | backend/app/services/session_service.py:43-69 | However lookups and commits interleave, a table has at most as many ACTIVE sessions as there are clients. |
| `SessionRace.OneAtATime` | backend/app/services/session_service.py:43-69 | With one client at a time there is at most one. |
| `SessionRace.StepChange` | backend/app/services/session_service.py:43-69 | A commit starts one session, of the table its client looked for last; closing one ends it; nothing else changes how many a table has. |
| `SessionRace.BoundIsReached` | backend/app/db/models.py:63-70 | For every number of clients there is a run in which each starts a session of the same table: no constraint prevents it. |
| `Witnesses.SetUpOverRunning` | backend/app/services/session_service.py:82-87 | A third setup succeeds although the second session runs. |
| `TableLogins.TurnedAwaySpends` | backend/app/services/auth_service.py:110-118 | A login with the right PIN that is turned away while there is an ACTIVE row uses up a stale one. |
| `TableLogins.EachLoginAnswered` | backend/app/services/auth_service.py:110-118 | Every login with the right PIN is let in or told that the token expired. |
| `TableLogins.LoginSucceedsInTheEnd` | backend/app/services/auth_service.py:110-118 | While a session stays ACTIVE, at most as many right-PIN logins are turned away as rows go stale, whichever rows the lookups return and whatever else happens. |
| `TableLogins.OneMoreLoginThanStale` | backend/app/services/auth_service.py:110-118 | Of k + 1 such logins one is let in when there are k stale rows. |
| `TableLogins.SetupThenLogin` | backend/app/services/session_service.py:89-103 | With the password just set the tablet gets in whichever row is looked up, if and only if the new session has not run out and no run-out row of the table was left ACTIVE; the new session may always be the one found. |
| `TableLogins.SetupLetsInAtLast` | backend/app/services/auth_service.py:110-118 | If k stale rows were left, of k + 1 logins with the right PIN after the setup one is let in while the new session runs. |
| `Witnesses.TurnedAwayAfterSetup` | backend/app/services/auth_service.py:110-118 | A run after which the tablet is turned away right after its table was set up. |
| `TableLogins.CompletionEndsLogins` | backend/app/services/auth_service.py:110-113 | After a completion the right PIN gets no token, whichever row is looked up, if and only if the table had no other session running. |
| `TableLogins.CompletionEndsOrders` | backend/app/services/session_service.py:57-59 | After a completion an order of known dishes with a token is refused, whichever row is looked up, if and only if the token names no other session still running. |
| `UnitOfWork.Work.constructor` | backend/app/db/engine.py:44 | A fresh unit of work has nothing pending. |
| `UnitOfWork.Work.Write` | backend/app/db/engine.py:44 | A new object or changed attribute waits in memory, unseen by queries. |
| `UnitOfWork.Work.Commit` | backend/app/db/models.py:104-113 | Writes everything pending, or nothing if a primary key or UNIQUE constraint is broken. |
| `UnitOfWork.Work.Rollback` | backend/app/services/order_service.py:123 | Drops everything pending. |
| `UnitOfWork.Work.GetTableByNo` | backend/app/repositories/table_repo.py:19-22 | The table of that number, from the flushed rows only; notes whether the answer would be the same with all pending writes applied. |
| `UnitOfWork.Work.GetActiveSession` | backend/app/repositories/table_repo.py:57-64 | Any ACTIVE session row of the table, from the flushed rows only; notes whether the answer would be the same with all pending writes applied. |
| `UnitOfWork.Work.GetMenu` | backend/app/repositories/menu_repo.py:25-28 | The dish, from the flushed rows only; notes whether the answer would be the same with all pending writes applied. |
| `UnitOfWork.Work.MaxOrderSeq` | backend/app/repositories/order_repo.py:14-22 | The highest number of a store and day, from the flushed rows only; notes whether the answer would be the same with all pending writes applied. |
| `UnitOfWork.Work.GetOrder` | backend/app/repositories/order_repo.py:30-34 | The live order, from the flushed rows only; notes whether the answer would be the same with all pending writes applied. |
| `UnitOfWork.Work.SumTableTotal` | backend/app/repositories/order_repo.py:84-93 | The session's total, from the flushed rows only; notes whether the answer would be the same with all pending writes applied. |
| `UnitOfWork.Work.CountPending` | backend/app/repositories/order_repo.py:112-126 | The number of unfinished live orders, from the flushed rows only; notes whether the answer would be the same with all pending writes applied. |
| `UnitOfWork.Work.ListBySession` | backend/app/repositories/order_repo.py:46-66 | The session's live orders in order, from the flushed rows only; notes whether the answer would be the same with all pending writes applied. |
| `UnitOfWork.Work.RecentOrders` | backend/app/repositories/order_repo.py:96-109 | The session's latest orders, from the flushed rows only; notes whether the answer would be the same with all pending writes applied. |
| `Services.MarkSession` | backend/app/repositories/table_repo.py:96-103 | Changes the session object in memory as the step does the row. |
| `Services.StartSession` | backend/app/repositories/table_repo.py:76-93 | Adds an ACTIVE session for sixteen hours. |
| `Services.UpsertTable` | backend/app/repositories/table_repo.py:32-54 | Adds the table or renews its PIN. |
| `Services.GetOrStartSession` | backend/app/services/session_service.py:31-69 | Joins, starts or refuses as the step says. |
| `Services.SumOfLines` | backend/app/services/pricing.py:14-16 | The sum of the list of line amounts is the total of the items. |
| `Services.SnapshotItems` | backend/app/services/order_service.py:81-99 | The loop over the items copies names and prices, or stops at the first unknown dish. |
| `Services.NextConstraints` | backend/app/db/models.py:109 | No step breaks a primary key or UNIQUE constraint, so on its own every commit succeeds. |
| `Services.CreateOrder` | backend/app/services/order_service.py:67-126 | Commits exactly the step's effect or leaves the rows alone; every query agrees with writes applied at once. |
| `Services.UpdateStatus` | backend/app/services/order_service.py:149-170 | Commits exactly the step's effect or leaves the rows alone; every query agrees with writes applied at once. |
| `Services.DeleteOrder` | backend/app/services/order_service.py:173-207 | Commits the deletion; the total returned is the one before, too high by the order's amount, and queries agree with writes applied at once exactly if that is 0. |
| `Services.ReturnedTotalRightIff` | backend/app/services/order_service.py:189-201 | The total returned is the one after the deletion if and only if the order's total is 0. |
| `Witnesses.WrongTotalReturned` | backend/app/services/order_service.py:200-207 | A run after which deleting the only order returns 9000 where 0 is left. |
| `Witnesses.ClosedRun` | backend/app/services/session_service.py:173-209 | A run from set-up to completion after which the one order, with its total, is the whole history. |
| `Witnesses.ExpiredStaysActive` | backend/app/services/session_service.py:57-59 | An order with the token of a session that has run out is refused and leaves it ACTIVE. |
| `Witnesses.ExpiredOrderNotArchived` | backend/app/services/auth_service.py:115-118 | A run after which a live order of an EXPIRED session is not in the history. |
| `Services.SetupTable` | backend/app/services/session_service.py:72-112 | Commits exactly the step's effect or leaves the rows alone; every query agrees with writes applied at once. |
| `Services.LoginTable` | backend/app/services/auth_service.py:92-118 | Commits exactly the step's effect: only the EXPIRED mark of a session found expired; every query agrees with writes applied at once. |
| `Services.ArchiveSession` | backend/app/services/history_service.py:18-49 | The loop adds one history row for each live order, in order, and counts them. |
| `Services.CompleteSession` | backend/app/services/session_service.py:173-209 | Commits exactly the step's effect, history rows included, or leaves the rows alone; every query agrees with writes applied at once. |
| `Dashboard.GetDashboard` | backend/app/services/session_service.py:138-170 | One card for each table asked for, in order, for the session its lookup found. |
| `Dashboard.CompletionResetsCard` | backend/app/services/session_service.py:143-147 | After a completion the card shows nothing, whichever row is looked up, if and only if no other session of the table runs and has live orders. |
| `Dashboard.CardShowsOneSession` | backend/app/services/session_service.py:148-160 | The total is that of all the session's live orders; it lists at most three of them, latest first, and none it leaves out is later. |
| `Dashboard.TablesListed` | backend/app/repositories/table_repo.py:25-29 | The tables of the store, or the one asked for. |
| `Dashboard.EachTableOnce` | backend/app/repositories/table_repo.py:25-29 | No table has two cards. |
| `Dashboard.SummaryMeans` | backend/app/services/session_service.py:128-135 | The first dish, and how many more lines there are if there are any. |
| `Dashboard.EmptyCardIff` | backend/app/services/session_service.py:145-160 | A card shows nothing exactly if no running session was found, or one without live orders. |
| `Witnesses.OtherSessionStays` | backend/app/services/session_service.py:180-193 | A run in which completing a stale session leaves the other: its total stays on the card and the tablet still gets a token. |
| `Retry.ConflictIff` | backend/app/db/session.py:37-42 | A conflict is exactly an operational error whose message speaks of locked or busy, in any case of letters. |
| `Retry.RetryOnWriteConflict` | backend/app/db/session.py:45-68 | All runs but the last met a conflict; the last one's commit is the only effect, or there is none and its error is raised. |
| `Retry.EndingIsUnique` | backend/app/db/session.py:24-25 | That determines the ending: at most three runs and 30 ms of waiting. |
| `Retry.OnlyConflictsAreRetried` | backend/app/db/session.py:58-60 | A second run happens if and only if the first met a conflict, a third if and only if both did, after 10 ms and 20 ms more; after three conflicts the conflict is raised, a UNIQUE violation at once. |
| `Retry.RetriedCreate` | backend/app/services/order_service.py:66-126 | However often it is tried, the outcome is that of one create_order in the state of the last run, or what the database raised there: at most one order, with the next number of that state. |
| `Retry.OvertakenIsLost` | backend/app/db/session.py:45-68 | A create_order overtaken between its reading and its insert ends there with the broken UNIQUE constraint and no row; one not overtaken gets the next number. |
| `Retry.RefusalIsLost` | backend/app/db/session.py:58-60 | An insert refused in an interleaved run, in the first run of its request, ends the request after that one run. |
| `Retry.OneOfTwoIsLost` | backend/app/db/session.py:58-60 | Of two clients that read at the same time one is lost. |
| `PollingProtocol.NextKeepsInv` | frontend/shared/src/hooks/usePolling.ts:89-147 | Every event keeps: only the newest request unaborted, responses in order, one interval at most, and what is shown is what was dispatched. |
| `PollingProtocol.ProtocolSafe` | frontend/shared/src/hooks/usePolling.ts:89-147 | In every interleaving of ticks, visibility changes, refetches, re-mounts and late responses: at most one request is unaborted and it is the newest, responses are dispatched in the order of their requests, and there is one interval exactly while polling is enabled and the tab visible. |
| `PollingProtocol.EventStarts` | frontend/shared/src/hooks/usePolling.ts:89-139 | Every tick, refetch, enabled set-up, showing of the tab while enabled, and heard failure whose observer refetches starts one request, new, current and not aborted; no other event does; so their number is that of such events. |
| `PollingProtocol.RunAsTold` | frontend/shared/src/hooks/usePolling.ts:89-147 | Requests started, responses heard, and whether the newest request is aborted, over every run, from its events alone. |
| `PollingProtocol.NewestAbortedIff` | frontend/shared/src/hooks/usePolling.ts:126-146 | The newest request is aborted exactly if a clean-up, or a hiding of the tab while enabled, came among the events since the one that started it. |
| `PollingProtocol.HeardIff` | frontend/shared/src/hooks/usePolling.ts:93-102 | A response reaches the component exactly if it answers the newest request, no clean-up or hiding came since, and the component counts as mounted, all by the events. |
| `PollingProtocol.AttachedIffEnabled` | frontend/shared/src/hooks/usePolling.ts:109-111 | There is a clean-up exactly if the latest set-up, not cleaned up since, was an enabled one. |
| `PollingProtocol.UnmountAbortsIff` | frontend/shared/src/hooks/usePolling.ts:141-146 | When the component goes its newest request is aborted if and only if polling is enabled or it was silenced before; no interval is left either way. |
| `PollingProtocol.NothingFromBefore` | frontend/shared/src/hooks/usePolling.ts:141-146 | Nothing started before a clean-up or hiding is ever dispatched after it, even once mounted again. |
| `PollingProtocol.DataStay` | frontend/shared/src/hooks/usePolling.ts:39-52 | Data never go back to null. |
| `PollingProtocol.ShownMeans` | frontend/shared/src/hooks/usePolling.ts:39-52 | Data are the last good response's, the error is that of the last response if it failed, loading holds until the first. |
| `PollingProtocol.ShownAfter` | frontend/shared/src/hooks/usePolling.ts:39-52 | Over every run the component shows what the responses heard so far come to. |
| `PollingProtocol.DisabledIsNotCleanedUp` | frontend/shared/src/hooks/usePolling.ts:109-111 | A refetch made while polling is disabled is not aborted when the component goes, and is heard. |
| `UsePolling.Hook.constructor` | frontend/shared/src/hooks/usePolling.ts:72-87 | The refs and state a component starts with. |
| `UsePolling.Hook.AbortCurrent` | frontend/shared/src/hooks/usePolling.ts:90 | Aborts the request under way, if any. |
| `UsePolling.Hook.RunFetch` | frontend/shared/src/hooks/usePolling.ts:89-94 | Aborts the request under way and starts the next. |
| `UsePolling.Hook.Dispatch` | frontend/shared/src/hooks/usePolling.ts:39-52 | The reducer's two cases. |
| `UsePolling.Hook.OnResolved` | frontend/shared/src/hooks/usePolling.ts:94-96 | A good response is dispatched or ignored as the protocol's event says. |
| `UsePolling.Hook.OnRejected` | frontend/shared/src/hooks/usePolling.ts:97-102 | A failed response is dispatched or ignored as the protocol's event says, even if its observer refetches first. |
| `UsePolling.Hook.Refetch` | frontend/shared/src/hooks/usePolling.ts:105-107 | A refetch does what the protocol's event says. |
| `UsePolling.Hook.Start` | frontend/shared/src/hooks/usePolling.ts:115-118 | Creates an interval unless there is one. |
| `UsePolling.Hook.Stop` | frontend/shared/src/hooks/usePolling.ts:119-124 | Clears the interval if there is one. |
| `UsePolling.Hook.OnTick` | frontend/shared/src/hooks/usePolling.ts:117 | A tick does what the protocol's event says: it starts a request, as `PollingProtocol.EventStarts` has it. |
| `UsePolling.Hook.OnVisibility` | frontend/shared/src/hooks/usePolling.ts:126-134 | Showing the tab catches up and polls; hiding it stops and aborts. |
| `UsePolling.Hook.SetUp` | frontend/shared/src/hooks/usePolling.ts:109-139 | The effect's set-up mounts, fetches and, if visible, starts the interval, as the protocol's event says. |
| `UsePolling.Hook.CleanUp` | frontend/shared/src/hooks/usePolling.ts:141-146 | The clean-up unmounts, clears the interval and aborts, as the protocol's event says. |
| `Pricing.CartIsExact` | frontend/shared/src/pricing/index.ts:38-43 | As long as the true total is a safe integer the floating-point total is exact. |
| `Pricing.AmountMeans` | frontend/shared/src/pricing/index.ts:28-43 | A line counts its own price, else the dish's, else nothing, times the quantity, fractions of both cut off; negative, infinite and undefined ones count as nothing. |
| `Pricing.PartialSumsSafe` | frontend/shared/src/pricing/index.ts:38-43 | As long as the true total is a safe integer so is every partial sum, and each is exact. |
| `Pricing.CartOrderIrrelevant` | frontend/shared/src/pricing/index.ts:38-43 | As long as the true total is a safe integer the order of the lines does not matter. |
| `Pricing.LimitIsSharp` | backend/app/schemas/order.py:11-22 | All orders within the request limits have a safe total if and only if prices are at most 90162154702. |
| `Pricing.CartAgreesWithServer` | backend/app/services/pricing.py:9-16 | For such orders the browser's total is the server's. |

## Left out

- Each transaction is one atomic step, restored when it fails. Interleaving the reads and writes of different transactions is modelled only for numbering (`Numbering`) and for starting sessions (`SessionRace`, where no session runs out); what SQLite lets a transaction see while another commits is not.
- HTTP routes, middleware, configuration, seed data, logging and masking, token signing, password hashing: a password check is a boolean input and a token the record of its claims.
- Real threads and the lock in the limiter: its calls come one after the other with a clock that never runs backwards. Concurrent logins of one key that all ask before any of them records are not bounded by `LoginGuard.WindowBound`.
- The limiter's clock is a real number; rounding of floating-point seconds is not modelled. The key cap is not negative (a negative one would make the eviction loop fail in the source).
- `RateLimiter.PruneEntry`: works on the entry as a value put back into the dictionary, since no two keys share an entry; the aliasing of the source's entry object is not modelled.
- `TableAuthentication.AuthenticateTable`: looks the table up a second time for the session step, with nothing changed in between; rows of login attempts are not kept.
- `OrderLists.PagesPartition`: one arrangement serves all pages; `OrderLists.PagesOfSeparateQueries` says when separate queries do. Without distinct sort keys their pages need not fit together.
- `HistoryQuery.PagesPartition`: one arrangement serves all pages; `HistoryPages.PagesFitIff` says when separate queries do.
- `OrderNumber.ParseThenFormat`: number parts are decimal digits; the signs, spaces, underscores and other digits that Python's `int` also reads are not modelled.
- `Timestamp.ParseToIso`: texts in the form the service prints; other ISO 8601 forms and other time zones are not modelled. `Timestamp.CompactInjective`: years below 1000 are printed without padding, as on Linux.
- `HistoryQuery.FilterMeansDays`: dates are well-formed; for malformed ones the text comparison has no meaning as days.
- `UnitOfWork.Work.Commit`: foreign keys are not checked; that sessions and orders name tables and sessions there are is proved of every reachable state instead. Stores and audit rows are not modelled.
- `Dashboard.GetDashboard`: tables come in row order (the query has none); the server time is left out.
- `Retry.RetryOnWriteConflict`: conflicts arise inside the transaction block; the refresh after the commit is taken not to fail.
- `UsePolling.Hook.OnRejected`: the observer of errors may refetch, but not unmount the component; a payload is never null itself.
- `Pricing.CartIsExact`: of rounding only exactness on safe integers is assumed, so totals beyond them, and the overflow of a product to infinity, are not described.
- `Runs.ReachableInv`: tables, sessions, orders and histories start empty; seeded rows would have to meet the invariant.
- Menus other than as an input that may change at any time, categories, stores and admins.
