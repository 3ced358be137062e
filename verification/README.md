# WebGuard API: a verified model of its stateful core

WebGuard keeps many small summaries that stand for something larger: one `(window, count)` pair for a
history of requests, a pruned table of attempts, two indexes and an event log for findings, a cursor text for
a place in a feed, a tracking table for a series of migration runs, a manifest for a backup. This project
models that code in Dafny and proves that each summary agrees with a plain specification over every input and
every run.

Code that changes state step by step is a class or a method with loops (`FixedWindowRateLimiter`,
`InMemoryFindingRepository`, `MigrationTarget`, `RestoreTarget`, `WaitForObservation` and so on), tied by
`ensures` to a function of the old state; the results over whole runs are lemmas about that function. Codecs,
parsers and orders are functions. `dafny verify dfyconfig.toml` checks everything.

| module | models |
|---|---|
| `FixedWindow`, `AuthProtocol`, `Authenticate` | the process-local limiter, every interleaving of reserve, fail, refund and charge over it, and one authentication request |
| `SlidingLog` | the Postgres limiter over a pruned log of attempts |
| `Base64Url`, `Decimal`, `Tokens`, `CursorCodec` | canonical base64url (sections 3.5 and 5 of RFC 4648), decimal text, `prefix_id_secret` tokens, secret hashes, signed cursors |
| `Keyset`, `AuditFeed`, `TextOrder` | keyset pagination in general, and the audit feed while events keep arriving |
| `CoverageKey`, `CoverageFeed` | the joined cursor key against tuple order, and the coverage listing on both backends |
| `Findings`, `FindingTenancy`, `PostgresFindings` | the finding lifecycle, isolation of organizations, and the SQL repository as a refinement of the in-memory one |
| `Migrations` | discovery, one migration run, and any series of runs |
| `CallbackWait` | the two-clock polling loop |
| `DataRestore` | table dumps, cascading truncates and the restore |
| `JobSubmit` | idempotent job submission with permit binding |

Where a property that the code suggests is false in general, the model keeps the code, shows an input and
gives the exact condition:

- A limiter check from an older window overwrites the pair (`StaleCheckForgets`). Over every interleaving the
  pair is right after every step if and only if every admitted check fell in the stored window or in a window
  that held nothing (`PairRightExactly`); nondecreasing times per key are one way to ensure that.
- An attempt dated in the future prunes sliding-log rows that a later, earlier-dated attempt would have
  counted (`BackdatedAttemptSlipsThrough`). Over every run, in any order of times, the next call counts and
  decides as it would over the full history if and only if no attempt it has to count was overtaken by a later
  accepted one of its bucket dated more than a window after it (`PrunedCountExact`, `DecisionsExact`).
- `decode(encode(b)) == b` fails for the empty byte string alone (`DecodeEncode`).
- The SQL coverage feed sorts by four columns and cuts by their joined text. With a control character below
  U+001F it can skip a row for good (`SqlFeedCanLoseARow`); it is exact at every page size if and only if
  columns and joined text order the rows of each instant alike (`SqlWalkByOrders`), which for components
  without U+001F means that joining swaps no two of them (`SqlWalkExactly`).
- With U+001F inside a component the in-memory coverage feed can skip a row too (`MemoryFeedCanLoseARow`); it
  is exact at every page size if and only if no two rows of one instant share a joined key
  (`MemoryWalkExactly`).
- With several callback events of one token, which of them a poll sees first can decide (`FirstSeenDecides`).
  The outcome is independent of the schedule if and only if all events fall in the same class by their own
  times (`OutcomeIsScheduleFreeExactly`), and the whole verdict if and only if there is one event at most or
  all are too late (`VerdictIsScheduleFreeExactly`).
- A clock that goes back reorders a finding's event list (`ListingCanReorder`); the list is in the order in
  which the events happened if and only if their times do not go back (`ListingIsHistory`), and the database
  must list them as the in-memory repository does if and only if different events have different times
  (`ListingsAgreeExactly`).
- Numbering the same migration first "1" and then "01" executes it twice (`WidthChangeRunsTwice`). Over every
  series of runs the tracking table is a prefix, each version executed once and in order, if and only if no two
  runs that took effect used different widths (`PrefixExactly`).

Two places where the code and its own words differ; the model follows the code. `_latest_observation`
returns the earliest observation. The migration runner wraps each file in its own transaction block, but its
connection is already inside a transaction, so these blocks are savepoints and a failing file rolls the whole
run back.

## Model

| member | source | states |
|---|---|---|
| `FixedWindow.FixedWindowRateLimiter.Check` | apps/api/src/webguard_api/rate_limit.py:68-88 | refused exactly when the stored pair is of the check's window and at the limit; a refused check writes nothing, an admitted one counts one more or restarts the pair; `remaining` and the reset follow |
| `FixedWindow.FixedWindowRateLimiter.Release` | apps/api/src/webguard_api/rate_limit.py:38-66 | takes one reservation from the matching window, never from another window or key |
| `FixedWindow.NewLimiter` | apps/api/src/webguard_api/rate_limit.py:28-36 | a limiter exists exactly for positive arguments, and starts empty |
| `FixedWindow.RefundUndoesReserve` | apps/api/src/webguard_api/rate_limit.py:38-88 | releasing a reservation restores the window's load and leaves every other key alone |
| `FixedWindow.WindowBounds` | apps/api/src/webguard_api/rate_limit.py:69 | a clock reading lies inside its own window |
| `FixedWindow.WindowsOfSpan` | apps/api/src/webguard_api/rate_limit.py:69 | windows are ordered as readings are, and readings one span apart lie in the same or neighbouring windows |
| `FixedWindow.ResetAfter` | apps/api/src/webguard_api/rate_limit.py:83 | the reported reset is between 1 and the window length, and within one second of the window's end |
| `AuthProtocol.StoredCountIsHeld` | apps/api/src/webguard_api/http_api.py:609-678 | in every interleaving the stored pair describes the key's latest window and counts exactly what it still holds; no window holds more than the limit |
| `AuthProtocol.TimeOrderSuffices` | apps/api/src/webguard_api/http_api.py:610-678 | nondecreasing clock readings per key give the window order the other results assume |
| `AuthProtocol.FailureCountExact` | apps/api/src/webguard_api/http_api.py:632-665 | a failure key's stored count is its failed plus in-flight reservations, which never exceed the limit |
| `AuthProtocol.AdmissionExact` | apps/api/src/webguard_api/rate_limit.py:68-88 | the single pair decides as counting the whole history would: the next check is admitted, and recorded, exactly when its window holds fewer than the limit |
| `AuthProtocol.SettledOnce` | apps/api/src/webguard_api/http_api.py:649-665 | each reservation is settled at most once, for good: a failure stays counted and leaves the table alone, a refund stays refunded, whatever other requests do |
| `AuthProtocol.LockoutHolds` | apps/api/src/webguard_api/http_api.py:640-655 | after as many failures as the limit, every later check of that window is refused, whatever happens in between |
| `AuthProtocol.LateRefundIsInert` | apps/api/src/webguard_api/rate_limit.py:55-58 | a refund from an older window leaves the table as it is |
| `AuthProtocol.TwiceTheLimit` | apps/api/src/webguard_api/rate_limit.py:68-88 | in any closed span of one window length at most twice the limit is admitted and not refunded |
| `AuthProtocol.TwiceTheLimitAdmitted` | apps/api/src/webguard_api/rate_limit.py:68-88 | without refunds, at most twice the limit is admitted at all in such a span |
| `AuthProtocol.PairRightExactly` | apps/api/src/webguard_api/rate_limit.py:38-88 | over every interleaving, in any order of times, the stored pair is right after every step if and only if every admitted check met the guard; then no window exceeds the limit; window order implies the guard |
| `AuthProtocol.StaleCheckForgets` | apps/api/src/webguard_api/rate_limit.py:71-73 | an out-of-order check makes a limit of one hold two reservations |
| `Authenticate.AuthenticateRequest` | apps/api/src/webguard_api/http_api.py:609-678 | each outcome is the corresponding run of the protocol: refused before verification, failure consumed, success refunded and charged to its own quota; the decision and the retry delay are those of the key that decided |
| `Authenticate.BucketExactly` | apps/api/src/webguard_api/http_api.py:571-607 | the bucket is the claimed token id's exactly for one bearer header with a printed token, and the peer's in every other case |
| `Authenticate.BucketsAreInjective` | apps/api/src/webguard_api/http_api.py:571-624 | different peers, and different token ids, have different buckets |
| `Authenticate.BucketIsSecretFree` | apps/api/src/webguard_api/http_api.py:571-601 | all well-formed headers of one token id share one bucket, whatever the secret or the peer |
| `Authenticate.BucketsAreDisjoint` | apps/api/src/webguard_api/http_api.py:571-624 | token, peer and session buckets and quota keys never coincide |
| `SlidingLog.PostgresAuthRateLimiter.CheckAndRecord` | apps/api/src/webguard_api/auth_rate_limit.py:55-87 | accepts exactly when fewer than `max_attempts` stored rows of the bucket are in the trailing window; prunes and records in one transaction; a refusal leaves the table as it was |
| `SlidingLog.TableIsSurvivors` | apps/api/src/webguard_api/auth_rate_limit.py:65-87 | in every run the table is exactly the accepted attempts that no later accepted attempt of their bucket overtook by more than a window |
| `SlidingLog.PrunedCountExact` | apps/api/src/webguard_api/auth_rate_limit.py:69-78 | over every run the pruned count never exceeds the count over the full history, and equals it if and only if nothing counted was lost |
| `SlidingLog.DecisionsExact` | apps/api/src/webguard_api/auth_rate_limit.py:65-83 | over every run the next call decides as over the full history, at every limit, if and only if nothing counted was lost |
| `SlidingLog.PruningChangesNothing` | apps/api/src/webguard_api/auth_rate_limit.py:65-78 | a decision at a time no earlier attempt of the bucket exceeds equals the one over the full history |
| `SlidingLog.BoundedUnlessLost` | apps/api/src/webguard_api/auth_rate_limit.py:65-87 | in any order of times, at most `max_attempts` per closed span of window length as long as no accepted attempt missed a pruned one |
| `SlidingLog.SpanNeverExceeds` | apps/api/src/webguard_api/auth_rate_limit.py:65-87 | for times that do not go back, at most `max_attempts` are accepted in every closed span of window length |
| `SlidingLog.BackdatedAttemptSlipsThrough` | apps/api/src/webguard_api/auth_rate_limit.py:69-72 | without time order pruning can admit one too many |
| `Base64Url.DecodeEncode` | apps/api/src/webguard_api/pagination.py:123-149 | decoding an encoding gives the bytes back, exactly for non-empty byte strings |
| `Base64Url.AcceptsExactlyCanonical` | apps/api/src/webguard_api/pagination.py:127-149 | accepted text is exactly non-empty alphabet text whose bits are whole bytes followed by zero bits |
| `Base64Url.AlphabetExactly` | apps/api/src/webguard_api/pagination.py:124 | the digits are the base64url alphabet in order |
| `Base64Url.GroupsAreTheBits` | apps/api/src/webguard_api/pagination.py:124 | the digits carry the bits of the bytes in order, three bytes to four digits, the rest followed by zero bits |
| `Base64Url.DecodeLetters` | apps/api/src/webguard_api/pagination.py:127-149 | on alphabet text: empty or dangling is invalid, left-over bits are not canonical, everything else decodes to its bytes |
| `Base64Url.OtherSpelling` | apps/api/src/webguard_api/pagination.py:134-148 | text with "+" or "/" is refused as not canonical |
| `Base64Url.StrayIsInvalid` | apps/api/src/webguard_api/pagination.py:132-143 | any other character is refused as invalid, wherever it stands |
| `Base64Url.DecodeInjective` | apps/api/src/webguard_api/permits.py:34-60 | accepted text is the encoding of its result, so two texts never decode to the same bytes |
| `Base64Url.EncodeInjective` | apps/api/src/webguard_api/permits.py:30-31 | different bytes have different encodings |
| `Base64Url.UndoEncode` | apps/api/src/webguard_api/identity.py:111-116 | the lenient decoder undoes every encoding, the empty one included |
| `Base64Url.EncodedDigits` | apps/api/src/webguard_api/identity.py:111-112 | encodings use alphabet characters only, so never "." or "$" |
| `Tokens.ParsePrint` | apps/api/src/webguard_api/identity.py:172-188 | a printed token parses back exactly when the prefix has no underscore, the id is a canonical UUID and the secret is not empty, underscores in the secret included |
| `Tokens.PrintParse` | apps/api/src/webguard_api/identity.py:172-188 | every accepted token reprints to itself |
| `Tokens.VerifyOwnHash` | apps/api/src/webguard_api/identity.py:119-149 | a stored hash accepts a secret if and only if scrypt derives the same digest, for every salt |
| `Tokens.VerifyExactly` | apps/api/src/webguard_api/identity.py:132-149 | exactly which stored texts accept a secret: a six-field scrypt hash whose digest scrypt derives with the stored parameters and salt |
| `Tokens.SplitJoin` | apps/api/src/webguard_api/identity.py:134 | joining then splitting gives the fields back when all but the last are free of the separator |
| `Tokens.JoinSplit` | apps/api/src/webguard_api/identity.py:179 | splitting loses nothing |
| `CursorCodec.DecodeProduced` | apps/api/src/webguard_api/pagination.py:176-304 | the decoder's answer to a produced cursor for every organization, resource, filter map and time: the position before expiry in the same scope, otherwise the named refusal |
| `CursorCodec.EncodeExactly` | apps/api/src/webguard_api/pagination.py:176-210 | exactly when a cursor is issued: a well-formed resource name, a time in range, a printable payload and at most 4096 characters; the refusal in every other case |
| `CursorCodec.SignedIsAccepted` | apps/api/src/webguard_api/pagination.py:212-304 | the signed form of every acceptable payload is accepted, with its position |
| `CursorCodec.ForgeryIsRefused` | apps/api/src/webguard_api/pagination.py:231-237 | a payload under any other signature is refused |
| `CursorCodec.AcceptedIsCanonical` | apps/api/src/webguard_api/pagination.py:212-304 | an accepted cursor is letter for letter the signed canonical form of its payload, bound to its scope and unexpired |
| `CursorCodec.AcceptedDiffer` | apps/api/src/webguard_api/pagination.py:212-304 | different accepted texts carry different payloads |
| `CursorCodec.OneScopePerCursor` | apps/api/src/webguard_api/pagination.py:258-274 | a cursor is accepted in one scope at most, always with the same position |
| `CursorCodec.TokenSplits` | apps/api/src/webguard_api/pagination.py:225-237 | the dot is outside the alphabet, so both halves are found again |
| `TextOrder.LessExactly` | apps/api/src/webguard_api/identity.py:1658-1663 | text compares by proper prefix or by the first different code point |
| `Keyset.PageFacts` | apps/api/src/webguard_api/identity.py:1658-1676 | a page is descending, after the cursor, full when there is more, and leaves out only rows after its last |
| `Keyset.WalkIsExact` | apps/api/src/webguard_api/coverage_store.py:165-195 | where cursor and sort order agree, the walk is exactly the remaining rows, once each, in order |
| `Keyset.WalkIsWellPaged` | apps/api/src/webguard_api/coverage_store.py:194-195 | every page but the last is full and announces more; the last does not |
| `Keyset.WalkExactIffOrdersAgree` | apps/api/src/webguard_api/postgres_coverage.py:142-159 | a feed that cuts by one order and sorts by another is exact at every page size if and only if the orders agree on its rows |
| `Keyset.WalkExactIffTotal` | apps/api/src/webguard_api/coverage_store.py:179-195 | a feed that cuts and sorts by one order is exact at every page size if and only if no two rows tie |
| `Keyset.CutSorted` | apps/api/src/webguard_api/coverage_store.py:179-193 | cutting the stably sorted rows is sorting the cut rows, ties included |
| `AuditFeed.IdentityStore.RecordAuditEvent` | apps/api/src/webguard_api/identity.py:1547-1581 | appends the event unless its id is taken |
| `AuditFeed.IdentityStore.ListAuditEventsPage` | apps/api/src/webguard_api/identity.py:1623-1676 | refuses exactly bad limits and empty cursor parts; otherwise newest first by time then id, only the organization's events of the asked outcome below the cursor pair, full and with something left out when there is more, and whatever is left out is below the last row |
| `AuditFeed.WalkMissesNothing` | apps/api/src/webguard_api/identity.py:1623-1676 | with arbitrary inserts between pages the rows are strictly descending, none repeated, and every event present at the start is returned or still ahead |
| `AuditFeed.EndsWhenInsertsStop` | apps/api/src/webguard_api/identity.py:1623-1676 | from any reachable state, more fetches than rows left reach the end |
| `AuditFeed.WalkCompletes` | apps/api/src/webguard_api/identity.py:1623-1676 | any walk so far can be completed and then has returned every event of the start |
| `CoverageKey.JoinedText` | apps/api/src/webguard_api/coverage_store.py:80-96 | the joined key, written out |
| `CoverageKey.ColumnOrder` | apps/api/src/webguard_api/postgres_coverage.py:152-155 | tuple order, column by column |
| `CoverageKey.JoinInjective` | apps/api/src/webguard_api/coverage_store.py:80-96 | joining is injective on components without the separator |
| `CoverageKey.JoinedOrderExact` | apps/api/src/webguard_api/postgres_coverage.py:142-155 | joined order and tuple order agree on two keys exactly when joining does not swap them |
| `CoverageKey.JoinedOrderIsTupleOrder` | apps/api/src/webguard_api/postgres_coverage.py:133-155 | above U+001F the joined order is the tuple order and the joined key is injective |
| `CoverageFeed.InMemoryCoverageRepository.RecordCoverage` | apps/api/src/webguard_api/coverage_store.py:118-153 | the row of the six-column key carries the call's arguments and keeps when it was first observed, or is added; every other row is unchanged |
| `CoverageFeed.InMemoryCoverageRepository.ListCoverageForAssetPage` | apps/api/src/webguard_api/coverage_store.py:165-195 | the page holds rows of the asset after the cursor, never ascending, full when there is more; what it leaves out is not greater than anything it returns |
| `CoverageFeed.InMemoryCoverageRepository.CountCoverageByStatus` | apps/api/src/webguard_api/coverage_store.py:197-211 | exactly the statuses that occur, each with its number of rows |
| `CoverageFeed.UpsertsAgree` | apps/api/src/webguard_api/postgres_coverage.py:74-111 | both backends store the same rows, one per key, other rows untouched |
| `CoverageFeed.MemoryPageIsFetch` | apps/api/src/webguard_api/coverage_store.py:165-195 | sorting then cutting is cutting then sorting, for any components |
| `CoverageFeed.MemoryWalkIsExact` | apps/api/src/webguard_api/coverage_store.py:165-211 | the walk over the returned pages ends, returns exactly the asset's rows in order, pages well, and the status totals sum to the rows walked |
| `CoverageFeed.MemoryWalkExactly` | apps/api/src/webguard_api/coverage_store.py:165-195 | for any components, exact at every page size if and only if no two rows of one instant share a joined key |
| `CoverageFeed.MemoryFeedCanLoseARow` | apps/api/src/webguard_api/coverage_store.py:179-195 | a row skipped for good because two keys join to one text |
| `CoverageFeed.SqlPageFacts` | apps/api/src/webguard_api/postgres_coverage.py:125-159 | one SQL page: descending by time and then the four columns, rows after the cursor, full when there is more; what is left out comes after all of it |
| `CoverageFeed.SqlWalkByOrders` | apps/api/src/webguard_api/postgres_coverage.py:125-159 | for any components, the SQL feed is exact at every page size if and only if columns and joined text order the rows of each instant alike |
| `CoverageFeed.SqlWalkExactly` | apps/api/src/webguard_api/postgres_coverage.py:125-159 | without U+001F, if and only if joining swaps no two rows of one instant |
| `CoverageFeed.BackendsPageAlike` | apps/api/src/webguard_api/postgres_coverage.py:125-159 | above U+001F both backends return the same page for every limit and cursor |
| `CoverageFeed.SqlFeedCanLoseARow` | apps/api/src/webguard_api/postgres_coverage.py:142-155 | a row skipped for good because of a control character |
| `Findings.InMemoryFindingRepository.RecordFinding` | apps/api/src/webguard_api/finding_store.py:155-238 | the new state of both indexes and the log, and the record stored under its id |
| `Findings.InMemoryFindingRepository.UpdateStatus` | apps/api/src/webguard_api/finding_store.py:281-316 | not found exactly for unknown or foreign ids, refused exactly for a different status the lifecycle does not allow, otherwise the new record with exactly one event of the change, or none when nothing changes |
| `Findings.InMemoryFindingRepository.GetFindingScoped` | apps/api/src/webguard_api/finding_store.py:240-245 | the stored record for its own organization, not found otherwise |
| `Findings.GraphExactly` | apps/api/src/webguard_api/finding_store.py:67-80 | the allowed transitions, by the statuses each status can be entered from |
| `Findings.RepeatIsNoOp` | apps/api/src/webguard_api/finding_store.py:295-299 | repeating a change returns the same record and changes nothing |
| `Findings.InMemoryFindingRepository.ListEventsScoped` | apps/api/src/webguard_api/finding_store.py:318-326 | exactly the finding's events, each as often as it was logged, in time order, for its own organization only |
| `Findings.LifecycleIsAPath` | apps/api/src/webguard_api/finding_store.py:155-316 | in every run a finding's events are an unbroken path from OPEN to its status along allowed edges, with RESOLVED and REOPENED alternating |
| `Findings.PathAlternates` | apps/api/src/webguard_api/finding_store.py:67-80 | alternation follows from the transition graph alone |
| `Findings.IndexesAgree` | apps/api/src/webguard_api/finding_store.py:149-316 | in every run both indexes hold the same records, one per key |
| `Findings.FindingsPersist` | apps/api/src/webguard_api/finding_store.py:155-316 | a finding keeps its id, key and first-seen time; the log and its history only grow |
| `Findings.RecordsReflectDetections` | apps/api/src/webguard_api/finding_store.py:155-316 | in every run a key has a record exactly when it was detected, and the record describes the first detection and reports the last, whatever status changes came between |
| `Findings.ListingIsHistory` | apps/api/src/webguard_api/finding_store.py:318-326 | a listing holds exactly the finding's events in time order, stably, and equals the history exactly when times do not go back |
| `Findings.ListingCanReorder` | apps/api/src/webguard_api/finding_store.py:281-326 | a run from the empty store whose listing reverses its history |
| `FindingTenancy.ProjectionCommutes` | apps/api/src/webguard_api/finding_store.py:155-316 | projecting a run on an organization is running its own calls on its own part of the store |
| `FindingTenancy.ReadsAreScoped` | apps/api/src/webguard_api/finding_store.py:240-326 | lookups, event lists and pages depend only on the organization's own part |
| `FindingTenancy.FindingsPageFacts` | apps/api/src/webguard_api/finding_store.py:247-279 | one page: the organization's records that every given filter selects, below the cursor texts, last seen first; what is left out comes after all of it |
| `FindingTenancy.TenantsAreIsolated` | apps/api/src/webguard_api/finding_store.py:149-326 | deleting every call of other organizations changes no reply and no read of an organization |
| `PostgresFindings.PostgresFindingRepository.RecordFinding` | apps/api/src/webguard_api/postgres_findings.py:85-187 | insert or update under the unique key, with the event in the same transaction |
| `PostgresFindings.PostgresFindingRepository.UpdateStatus` | apps/api/src/webguard_api/postgres_findings.py:245-290 | the scoped status change and its event, or an error without effect |
| `PostgresFindings.BackendsAgree` | apps/api/src/webguard_api/postgres_findings.py:85-290 | run for run, the same records, statuses, events and errors as the in-memory repository |
| `PostgresFindings.TablesStayKeyed` | apps/api/src/webguard_api/postgres_findings.py:85-290 | in every run, used ids included, finding ids, keys and event ids stay unique |
| `PostgresFindings.BackendsAgreeFromEmpty` | apps/api/src/webguard_api/postgres_findings.py:85-290 | from the empty database: equal logs and replies, and never two rows of one key |
| `PostgresFindings.ListingsAgreeExactly` | apps/api/src/webguard_api/postgres_findings.py:292-322 | both backends list the same events for the same callers, and every order the database may choose is the in-memory one if and only if different events have different times |
| `Migrations.DiscoverMigrations` | scripts/run-postgres-migrations.py:50-73 | succeeds exactly for a listing, in any order, whose versions are different and are 1..n at one width; returns the same files with version i + 1 at position i; names each refusal |
| `Migrations.AcceptsExactly` | scripts/run-postgres-migrations.py:66-72 | the sorted check accepts exactly such directories |
| `Migrations.SortAscending` | scripts/run-postgres-migrations.py:66 | the files are sorted by number, ascending |
| `Migrations.ApplyAll` | scripts/run-postgres-migrations.py:110-145 | the loop computes the specified pass |
| `Migrations.MigrationTarget.RunMigrations` | scripts/run-postgres-migrations.py:93-145 | the loop computes the specified run; a refused directory or an error leaves the database as it was |
| `Migrations.PassShape` | scripts/run-postgres-migrations.py:110-143 | over a prefix every recorded file is checked before any new one is applied |
| `Migrations.RunKeepsPrefix` | scripts/run-postgres-migrations.py:93-145 | succeeds exactly when no applied file was edited and, in a real run, no new file fails; otherwise names the first edited or else the first failing file and leaves no trace; success executes and records exactly the new files in order, under their names and checksums |
| `Migrations.AlwaysAPrefix` | scripts/run-postgres-migrations.py:93-145 | over any series of runs whose effective directories share a width, the recorded versions are 1..k and each was executed exactly once, in order |
| `Migrations.PrefixExactly` | scripts/run-postgres-migrations.py:50-145 | over any series of runs that guarantee holds if and only if no two effective runs used different widths |
| `Migrations.RerunIsNoOp` | scripts/run-postgres-migrations.py:113-121 | a successful run followed by another on the same directory changes and applies nothing |
| `Migrations.DryRunForetells` | scripts/run-postgres-migrations.py:123-125 | a dry run changes nothing and lists exactly what a succeeding real run applies |
| `Migrations.WidthChangeReapplies` | scripts/run-postgres-migrations.py:67-68 | a succeeding run executes the first file again if and only if the width changed |
| `Migrations.WidthChangeRunsTwice` | scripts/run-postgres-migrations.py:67-68 | a series of two runs that executes one text twice |
| `Decimal.ParseFilled` | scripts/run-postgres-migrations.py:66-67 | zero-filled decimal text reads back as its number |
| `CallbackWait.WaitForObservation` | apps/api/src/webguard_api/postgres_callback_broker.py:156-257 | for every schedule: goes on through every uneventful turn before the grace deadline, within ceil((wait + grace) / interval) + 1 polls; ends cancelled, failed or observed exactly as its last turn says; reports the earliest visible event of the token, within the grace period, flagged by its own time |
| `CallbackWait.KeepsPolling` | apps/api/src/webguard_api/postgres_callback_broker.py:218-257 | the first turn that shows a row before the grace deadline is the one the loop stops at |
| `CallbackWait.OutcomeIsScheduleFreeExactly` | apps/api/src/webguard_api/postgres_callback_broker.py:218-257 | the outcome is independent of the poll schedule and of the order in which rows become visible if and only if all events are in one class by event time |
| `CallbackWait.VerdictIsScheduleFreeExactly` | apps/api/src/webguard_api/postgres_callback_broker.py:218-257 | the whole verdict is, if and only if there is at most one event or all are too late |
| `CallbackWait.SilenceIsExact` | apps/api/src/webguard_api/postgres_callback_broker.py:237-256 | nothing is reported exactly when no poll saw a row, or the first that did saw only late ones |
| `CallbackWait.NoticingTimeIsIrrelevant` | apps/api/src/webguard_api/postgres_callback_broker.py:237-254 | a single event gets the verdict of its own time, whenever it is noticed |
| `CallbackWait.FirstSeenDecides` | apps/api/src/webguard_api/postgres_callback_broker.py:259-288 | with two events the order of visibility matters |
| `CallbackWait.Earliest` | apps/api/src/webguard_api/postgres_callback_broker.py:259-288 | a row of the token exists exactly when one is returned, and it is the earliest |
| `DataRestore.BackupDatabase` | scripts/backup-postgres.py:74-106 | the included tables exactly, each file its whole dump, each count its number of rows |
| `DataRestore.WriteTable` | scripts/backup-postgres.py:95-102 | bytes and newline counts do not depend on chunk boundaries |
| `DataRestore.DumpRoundTrip` | scripts/backup-postgres.py:98-101 | a dump has one newline per row and reads back as the rows |
| `DataRestore.LinesUnterminated` | scripts/restore-postgres.py:90-92 | a last line without its newline is a row too |
| `DataRestore.CascadeIsReachability` | scripts/restore-postgres.py:68-83 | for every foreign-key graph, cycles included, a cascading truncate empties exactly the tables that reach a named one |
| `DataRestore.RestoreTarget.RestoreDatabase` | scripts/restore-postgres.py:48-126 | succeeds exactly for a restorable backup; then every manifest table equals its dump, other tables are emptied exactly when a truncated one reaches them, and the counts are right; otherwise nothing changes and the error names what is wrong |
| `DataRestore.Restore` | scripts/restore-postgres.py:55-122 | the new tables, manifest tables and others, for every manifest order |
| `DataRestore.LoadAll` | scripts/restore-postgres.py:84-122 | loading succeeds exactly when every dump is there with its recorded rows, and touches no other table |
| `DataRestore.SecondPass` | scripts/restore-postgres.py:107-121 | reports exactly whether some row count differs at the end |
| `DataRestore.CopyInChunks` | scripts/restore-postgres.py:91-92 | reading in chunks sends the file's content |
| `DataRestore.BackupThenRestore` | scripts/restore-postgres.py:48-126 | restoring a backup gives every table back row for row |
| `DataRestore.InterleavingLosesExactly` | scripts/restore-postgres.py:69-83 | truncating inside the loop loses a table's rows exactly when it has rows and a later table's cascade reaches it |
| `JobSubmit.PostgresJobRepository.Submit` | apps/api/src/webguard_api/postgres_jobs.py:426-549 | the specified outcome and store; an error leaves the store as it was |
| `JobSubmit.ArgumentsExactly` | apps/api/src/webguard_api/postgres_jobs.py:438-452 | the refusals of unpaired arguments and of a permit without an organization |
| `JobSubmit.ReuseExactly` | apps/api/src/webguard_api/postgres_jobs.py:467-497 | a visible job of the key is returned unchanged, or is a conflict exactly when its fingerprint, organization, permit or digest differs |
| `JobSubmit.FreshExactly` | apps/api/src/webguard_api/postgres_jobs.py:499-549 | without one: exactly when it is an integrity error, a permit that is not found, or a new job and binding with the call's arguments and nothing else changed |
| `JobSubmit.SuccessesAgree` | apps/api/src/webguard_api/postgres_jobs.py:467-549 | over every run two successes of one key have one job, one fingerprint and, where given, one organization, permit and digest |
| `JobSubmit.SubmissionsStaySound` | apps/api/src/webguard_api/postgres_jobs.py:426-549 | in every run at most one job per key, and every binding names a permit of the job's organization with the same digest |
| `JobSubmit.RepeatReturnsSameJob` | apps/api/src/webguard_api/postgres_jobs.py:467-497 | repeating a successful keyed submission returns the same job and changes nothing, whatever came between |
| `JobSubmit.SubmitSucceedsExactly` | apps/api/src/webguard_api/postgres_jobs.py:467-549 | what an answer means: no trace of a failure; a replay is a stored job of the key and request; a new job has an unused id and key and is bound exactly when a permit of its organization is given |
| `JobSubmit.ForeignKeyUseIsRefused` | apps/api/src/webguard_api/postgres_jobs.py:482-491 | another organization's key is refused, as a conflict or by the unique index |

## Left out

- Clock readings are reals and instants are integers or reals: floating-point rounding is not modelled.
- Locks and threads: a limiter call and a database transaction are each one atomic step. The documented check-then-act race of the Postgres limiter, and other races between transactions, are outside the model.
- AuthProtocol.StoredCountIsHeld: assumes that a key's checks are admitted in window order, because a check from an older window overwrites the pair; `PairRightExactly` gives the exact condition over runs.
- HMAC, SHA-256, scrypt, the JSON library and the text of timestamps are parameters. `CursorCodec` states what it assumes of them: printed payloads and timestamps read back, payloads and signatures are not empty.
- CursorCodec.DecodeProduced: takes well-typed arguments, so the type checks on the key, the validity and the cursor are not modelled.
- Base64Url.AcceptsExactlyCanonical: does not distinguish the two refusals for text with "=" inside, where versions of the base64 library differ in which one is raised.
- Tokens.VerifyOwnHash: the numeric fields of a hash are plain digits; other texts that `int` accepts (signs, spaces, underscores) count as a failed verification.
- Migrations.DiscoverMigrations: digits other than ASCII that `isdigit` accepts are not modelled.
- Migrations.AlwaysAPrefix: assumes one width for the version numbers of the effective runs; `PrefixExactly` shows that this is needed. Whether a file's SQL succeeds is a parameter, and a file is taken not to end the surrounding transaction itself.
- Findings: the page walk of the in-memory repository is not claimed to be exact, because it compares two text forms of one instant; pages appear only in the isolation result. UUIDs are arguments taken to be unused.
- PostgresFindings: foreign keys to other tables are not modelled.
- CoverageFeed: text columns compare by code point, as under the C collation; the cursor's time is the parsed instant.
- CallbackWait.WaitForObservation: the ownership lookup before the first poll is not modelled.
- DataRestore.RestoreTarget.RestoreDatabase: failures inside COPY other than a missing dump or a wrong row count, and the end-of-data marker line, are not modelled.
- JobSubmit: the job's later state columns (revision, lease, result) are not part of the record, so "the same job" means the same submitted columns; that the organization row exists is not modelled.
- Lease claim, renewal, recovery and terminal transitions of jobs: their logic is in SQL functions outside the repository's Python code.
- Query-string validation (`parse_page_request`, `PageRequest`), the wrapper `InMemoryAuthRateLimiter` around the fixed-window limiter, the other repositories, the transport layer and the web application would only add easy members.
