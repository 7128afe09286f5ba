# Verified models of the Idena indexer API

The indexer API answers HTTP requests from a Postgres database. Around the queries it has a handful of compact
algorithms and protocols of its own. This project models those in Dafny and proves what they are for.

| file | models |
|---|---|
| `MaxReqCount.dfy`, `MonitorRuns.dfy`, `PerformanceMonitor.dfy` | the performance monitor: the sweep that finds the peak number of simultaneous requests, the life of a record over whole runs, and the monitor class, each of whose methods is one step of such a run |
| `OracleRewards.dfy` | the reward estimates of an oracle voting |
| `VotingContracts.dfy`, `RowGroups.dfy`, `RewardRows.dfy`, `IdentityRewardPages.dfy` | the one-pass folds of joined rows into voting contracts and rewards, the pages of folded rows, and the time estimates in wrapping integers |
| `Tokens.dfy`, `Pagination.dfy`, `DelegateeTotals.dfy`, `IdentityTxs.dfy` | continuation tokens, keyset pagination over a growing table, the listing whose later pages lose their filter, and the pages that merge the memory pool with the database |
| `ReqLimiter.dfy` | the request limiter as a transition system, and its class |
| `TtlCache.dfy`, `CacheKeys.dfy`, `CacheRuns.dfy`, `CachedAccessor.dfy` | the bounded cache, its keys, concurrent load-on-miss, and the accessor class |
| `NetworkSizeLoader.dfy` | the double-checked, single-flight loader |
| `GlogHandler.dfy` | the call-site memo table of the log filter |
| `Logfmt.dfy` | the logfmt printer, and the parser that undoes it |
| `GoInts.dfy`, `Options.dfy` | Go's fixed-width integers, and `Option` |

Two forms recur. Code that updates fields or loops is a class or a method, proved against a function or against a
step of a run. Concurrent code is also a state machine: a `datatype State`, one `Step` per atomic action, `Apply`,
and `Run(steps)`; its theorems hold for every sequence of steps, so for every interleaving.

## What the code does not do

Some properties one would expect are false of the code. Each has a lemma that shows it, and one that says when the
property does hold.

- A request may be counted by two reports (`MonitorRuns.CountedTwice`): the copied map shares the record pointers, so
  a `Complete` between copying the map and reading it is seen by this report and by the next. It is counted twice
  exactly then (`MonitorRuns.CountedOnceOrLate`), and never if reports are atomic.
- A page walk with a limit of 0 never ends on a nonempty table (`Pagination.ZeroLimitNeverEnds`); otherwise some walk
  always ends (`Pagination.SomeWalkEnds`).
- If the memory pool fills the first page of an address's transactions, no token is handed out: neither the rest of the
  pool nor the database's transactions are ever reached (`IdentityTxs.TxWalkReturns`). Nothing is lost exactly if the
  pool leaves room, or fills the page exactly and the database has nothing (`IdentityTxs.TxWalkIsCompleteIff`). With a
  count of 0 and a nonempty pool the unsigned subtraction wraps (`IdentityTxs.GetIdentityTxs`).
- A negative amount is not recovered from its token, because of its minus sign (`Tokens.AmountTokenRoundTrip`).
- Cache keys collide for two texts with spaces, for lists of texts and for pointers (`CacheKeys.TwoTextsCollide`,
  `CacheKeys.ListsCollide`, `CacheKeys.PointersCollide`), and some methods leave their arguments out of the key. A method's cache is transparent
  exactly if arguments of its own shape with the same key have the same answer
  (`CacheRuns.TransparentIffKeyDetermines`). Methods with numbers, booleans, nil tokens and at most one text always meet
  this (`CacheRuns.ScalarMethodsTransparent`), and so do methods with more texts as long as these hold no spaces
  (`CacheRuns.SpaceFreeMethodsTransparent`); methods that key nothing meet it exactly if their answer is constant
  (`CacheRuns.LeftOutArguments`).
- Clearing a cache does not forget a load that was finished before and is stored after it; this is the only way an old
  load can be served to a later call (`CacheRuns.ClearForgetsIff`).
- A record may be dropped although direct evaluation emits it at every moment of the call
  (`GlogHandler.DropAgainstEveryMoment`). It takes a raised verbosity and then changed rules, both during the call
  (`GlogHandler.WrongDropNeedsBoth`); if not both can happen during a call, every decision agrees with direct evaluation
  at some moment, and only then (`GlogHandler.AlwaysAgreesIff`).
- Two different contexts may print the same logfmt line (`Logfmt.TwoContextsOneLine`), because the printer does not
  check its keys. Banning characters from keys prevents this exactly if the space is banned
  (`Logfmt.LinesDeterminePairsIff`).
- With a token, the listing of an epoch's delegatees selects rows of all epochs, because `OR` binds weaker than `AND` in
  its query (`DelegateeTotals.WalkLeavesEpoch`). `DelegateeTotals.RightWalkIff` says exactly when the epoch can be walked
  through correctly. A walk may also repeat one page for ever (`DelegateeTotals.WalkNeverEnds`), exactly if it reaches a
  token whose key more rows share than a page shows (`DelegateeTotals.WalkEndsIff`).
- The estimated reward may exceed the maximal one if the deposit and the locks are not covered by the balance
  (`OracleRewards.UncoveredBoundFails`). How large the shortfall has to be for that, in terms of fee, payment, committee,
  votes and winners, is `OracleRewards.ReversedIff`; only the rounding of the last digit can make up for it
  (`OracleRewards.BoundFailsIff`).
- The maximal reward estimate divides by zero when the winner threshold is 0 (`OracleRewards.PanicsOnlyWithoutThreshold`).

## Model

| member | source | states |
|---|---|---|
| `MaxReqCount.DetermineMaxReqCount` | app/monitoring/performance.go:193-233 | the result is the maximum over all instants of the number of requests in progress, and it is reached at the start of one of them |
| `MaxReqCount.CollectEvents` | app/monitoring/performance.go:198-210 | whatever the order of the map, the events rise above the records' finishes by exactly the records open at each cut of the time line |
| `MaxReqCount.Sweep` | app/monitoring/performance.go:220-232 | the running count stays a natural number, and the result is the largest balance of any prefix, reached right after a start |
| `MaxReqCount.BalanceNeverNegative` | app/monitoring/performance.go:222-231 | no prefix of the sorted events finishes more requests than it starts |
| `MaxReqCount.BalanceAtStart` | app/monitoring/performance.go:211-227 | because starts come first at ties, the count right after a start does not exceed the requests active at that instant |
| `MaxReqCount.SomePrefixReaches` | app/monitoring/performance.go:211-232 | the number of requests active at any instant, event or not, is reached by some prefix |
| `MaxReqCount.LevelOfPermutation` | app/monitoring/performance.go:211-219 | sorting does not change how many starts and finishes lie before a cut |
| `MonitorRuns.UnfinishedNeverDropped` | app/monitoring/performance.go:112-123 | over every interleaving, an unfinished record stays in the map and is in no report, unless its id was reused |
| `MonitorRuns.CountedOnceOrLate` | app/monitoring/performance.go:69-123 | once a later report is complete, a finished record was counted once, and once more exactly if its Complete fell between a copy and its reading |
| `MonitorRuns.AtomicReportsCountOnce` | app/monitoring/performance.go:106-123 | with atomic reports and at most 2^32 starts, every completed request is counted in exactly one report |
| `MonitorRuns.NothingOverwritten` | app/monitoring/performance.go:72-79 | with at most 2^32 starts no two live requests share an id, wrap-around included |
| `MonitorRuns.CountedTwice` | app/monitoring/performance.go:106-110 | the shortest run in which one request is in two reports |
| `PerformanceMonitor.PerformanceMonitor.Start` | app/monitoring/performance.go:69-81 | the new id is the wrapped next counter, a fresh unfinished record is stored under it, nothing else changes, and the call is the run's Start step |
| `PerformanceMonitor.PerformanceMonitor.Complete` | app/monitoring/performance.go:83-97 | an unknown or already completed id changes nothing; otherwise exactly this record gets its finish; the call is the run's Complete step |
| `PerformanceMonitor.PerformanceMonitor.CopyAndDelete` | app/monitoring/performance.go:116-121 | deleting while ranging over the map still copies every record, and keeps exactly the unfinished ones |
| `PerformanceMonitor.PerformanceMonitor.CopyRecords` | app/monitoring/performance.go:112-123 | the copy shares the records, and the call is the run's Copy step |
| `PerformanceMonitor.PerformanceMonitor.ReportOn` | app/monitoring/performance.go:106-110 | the counts of the report add up to what this step of the run counts: the copied records that are finished when they are read |
| `PerformanceMonitor.PerformanceMonitor.CopiedFinished` | app/monitoring/performance.go:106-123 | ids of a copy and allocated records correspond, so the machine's count is the number of finished copied records |
| `PerformanceMonitor.GetReport` | app/monitoring/performance.go:125-136 | distinct names, each with the number of its finished records; together they count every finished record once; the peak is that of the snapshot |
| `PerformanceMonitor.GetCompletedRecordsByName` | app/monitoring/performance.go:138-147 | each name has a list that holds its finished records once each, and names without any have none |
| `PerformanceMonitor.SumOfLines` | app/monitoring/performance.go:125-136 | distinct lines add up to the finished records of all their names |
| `OracleRewards.EstimateWithinMaximum` | app/db/postgres/contracts.go:317-427 | the estimated reward is at most the maximal one, in every branch and after rounding and clamping |
| `OracleRewards.QuorumIsCeiling` | app/db/postgres/contracts.go:403-407 | the quorum size n is the exact ceiling: 100(n - 1) < committee * quorum <= 100 n, and 1 if nothing is required |
| `OracleRewards.MaximumWrittenOut` | app/db/postgres/contracts.go:392-427 | for the least number of votes that reaches the quorum and is not below the votes there are, and the least number of winners, the maximum is the locks and what the owner leaves, divided and rounded to 16 digits, in the contract's own numbers |
| `OracleRewards.EstimateWrittenOut` | app/db/postgres/contracts.go:361-390 | the same for the estimate, with the full committee and a fee rounded up to everything |
| `OracleRewards.OwnerRewardWrittenOut` | app/db/postgres/contracts.go:317-359 | the owner gets the deposit and the fee on what exceeds deposit, fund and locks, or without a deposit the fee on what exceeds the locks; the oracles get the rest |
| `OracleRewards.UnevenMaximum` | app/db/postgres/contracts.go:403-422 | a quorum of 55 percent of 10 is 6: 160 among 6 winners is 26.6666666666666667 |
| `OracleRewards.TermsEstimates` | app/db/postgres/contracts.go:317-447 | one contract with deposit, fund, fee and votes, and all its amounts |
| `OracleRewards.UncoveredBoundFails` | app/db/postgres/contracts.go:317-427 | terms whose deposit exceeds the balance, with an estimate of 5 and a maximum of 0 |
| `OracleRewards.ReversedIff` | app/db/postgres/contracts.go:317-427 | for all terms: before rounding the estimate exceeds the maximum if and only if the balance lacks k > 0 for deposit and locks, and k(n - w) > m n (q - w) with a deposit or without a fee, or k(1 - fee) > m(q - w) with a fee alone, for n oracles, q counted votes, w winners and minimal payment m |
| `OracleRewards.BoundFailsIff` | app/db/postgres/contracts.go:361-427 | the promised estimate exceeds the maximum if and only if the shortfall reverses the shares in that way and rounding to 16 digits and clamping keep them apart; never if deposit and locks are covered |
| `OracleRewards.WholeShortfall` | app/db/postgres/contracts.go:332-348 | with a deposit, or without a fee, both estimates bear the whole shortfall |
| `OracleRewards.FeeShortfall` | app/db/postgres/contracts.go:349-356 | with a fee alone, the rounded-up fee spares the estimate all of the shortfall, and the exact fee spares the maximum its share |
| `OracleRewards.BoundFailsAUnitApart` | app/db/postgres/contracts.go:361-427 | rounding does not help if the exact shares are reversed by a unit of the last digit and the estimate is worth anything |
| `OracleRewards.UncoveredReversesBound` | app/db/postgres/contracts.go:317-427 | without a fee and with all winning, the maximum is nowhere above the estimate once coverage fails |
| `OracleRewards.PanicsOnlyWithoutThreshold` | app/db/postgres/contracts.go:422 | the division by zero happens exactly for a winner threshold of 0 |
| `OracleRewards.MaximumConstantUntilQuorum` | app/db/postgres/contracts.go:392-427 | votes that each pay the minimal payment do not move the maximal estimate as long as all but the last of them are less than the quorum percentage of the committee |
| `OracleRewards.EstimateConstantUntilCommittee` | app/db/postgres/contracts.go:361-390 | nor the estimate until the committee size is reached |
| `OracleRewards.EstimateNeverRises` | app/db/postgres/contracts.go:361-390 | however many votes come in, also beyond the committee, the estimate does not rise |
| `OracleRewards.NoCoinsCreated` | app/db/postgres/contracts.go:317-359 | owner's reward and total reward add up to the balance |
| `OracleRewards.WinnersPaidFromPool` | app/db/postgres/contracts.go:392-427 | paying each winner the maximal estimate takes at most the pool plus half a unit of the 16th digit each |
| `OracleRewards.PoolIsLocksPlusSurplus` | app/db/postgres/contracts.go:317-390 | for every number of votes to come, what the oracles share is that many locks plus a surplus that does not depend on it |
| `OracleRewards.SurplusBounds` | app/db/postgres/contracts.go:332-357 | the surplus is not negative, and rounding the fee up only lowers it |
| `OracleRewards.QuorumWithinCommittee` | app/db/postgres/contracts.go:375-408 | the votes the maximum counts with are never more than those the estimate counts with |
| `VotingContracts.TimeIsExact` | app/db/postgres/contracts.go:254-260 | the wrapping block arithmetic gives the exact time if and only if the signed block total fits a duration |
| `VotingContracts.EstimatesAreExactAndOrdered` | app/db/postgres/contracts.go:250-262 | all three estimates are exact and voting <= public <= termination, even when the head is past the counting block |
| `VotingContracts.FinishesInOrder` | app/db/postgres/contracts.go:239-265 | whichever finishes an item has from its counting block come with the later ones and in order, and are exactly head time + 20 s for each block, termination included |
| `VotingContracts.WhichEstimates` | app/db/postgres/contracts.go:238-307 | which estimates an item has in which state, and a pending one's termination 30 days after its start |
| `VotingContracts.WhichFailure` | app/db/postgres/contracts.go:239-307 | a row cannot be estimated exactly if the network size is needed and missing, or nobody would win |
| `VotingContracts.VotesAsTheyAre` | app/db/postgres/contracts.go:226-232 | option and both counts reach the item unchanged as long as they fit |
| `VotingContracts.FirstFailureIs` | app/db/postgres/contracts.go:243-247 | the failure of a reading is that of the first group that has one |
| `VotingContracts.RewardsInOrder` | app/db/postgres/contracts.go:303-307 | an item has all reward estimates or none, the estimate is within the maximum, and the total is the balance without the owner's reward |
| `VotingContracts.ReadOracleVotingContracts` | app/db/postgres/contracts.go:165-315 | one item per maximal run of rows of a contract, headed by its first row; the earliest row that cannot be estimated decides the failure; the network size is loaded at most once |
| `VotingContracts.Estimate` | app/db/postgres/contracts.go:236-307 | which states get which estimates, and which rows fail and why |
| `VotingContracts.ItemsReproduceRows` | app/db/postgres/contracts.go:219-232 | the items' votes in order are all rows' votes, and neighbouring items are different contracts |
| `VotingContracts.EarliestFailure` | app/db/postgres/contracts.go:243-247 | rows after the failing one do not matter |
| `RowGroups.GroupsAreAGrouping` | app/db/postgres/contracts.go:219-225 | adding rows one by one cuts them into pieces of one key, in order, with different neighbours |
| `RowGroups.GroupingIsUnique` | app/db/postgres/epoch.go:385-400 | there is only one such cut, so a fold that yields one yields the maximal runs |
| `RewardRows.GroupByAddress` | app/db/postgres/epoch.go:373-400 | one item per maximal run of rows of an address, with the header of its first row, the last one included |
| `RewardRows.GroupByEpoch` | app/db/postgres/identity.go:185-215 | the same per epoch, and the id returned is that of the last row read, which keys the next page |
| `RewardRows.ItemsReproduceRows` | app/db/postgres/epoch.go:373-400 | the items together hold every row's reward once and in order |
| `RewardRows.ItemSays` | app/db/postgres/epoch.go:385-396 | an item has the key, states and age of its first row, and one reward for each of its rows |
| `RewardRows.RewardIs` | app/db/postgres/common.go:690-695 | a reward keeps its amounts, and only candidates and staking are renamed, if at all |
| `RewardRows.PartIsGrouping` | app/db/postgres/epoch.go:368-400 | a window of consecutive identities, joined and folded, falls apart into the same identities |
| `RewardRows.PageAt` | app/db/postgres/epoch.go:358-403 | a page shows the identities at its offset, and hands out the next offset exactly when there are more |
| `RewardRows.WalkReturnsIdentities` | app/db/postgres/epoch.go:358-403 | following the tokens returns every identity of the epoch once, in order |
| `RewardRows.WalkExists` | app/db/postgres/epoch.go:358-403 | from any offset there is such a walk, and it ends |
| `IdentityRewardPages.PageShows` | app/db/postgres/identity.go:182-221 | a page of an identity's rewards, folded from joined rows and keyed by the last row's id, is the page of the identity's states, each with its item, and has the same token |
| `IdentityRewardPages.WalkReturnsEpochs` | app/db/postgres/identity.go:182-221 | following the tokens from nil returns each epoch once, newest first, with all its rewards, whatever epochs are added meanwhile, in the expected number of pages |
| `IdentityRewardPages.WalkFromNil` | app/db/postgres/identity.go:182-221 | there is such a walk, and it ends |
| `IdentityRewardPages.PiecesAreGroups` | app/db/postgres/identity.go:188-214 | the joined rows of an identity's states fall apart into those of each state |
| `Tokens.UintTokenRoundTrip` | app/db/postgres/common.go:472-484 | every printed number below 2^64 is recovered, and every larger one is refused |
| `Tokens.UintTokenIff` | app/db/postgres/common.go:472-484 | a uint token stands for n exactly if it is a nonempty digit string of value n |
| `Tokens.IntAccepted` | app/db/postgres/common.go:553 | an int token is digits with at most one sign before them |
| `Tokens.PrintedTokens` | app/db/postgres/epoch.go:488 | what tokens look like: 1203-7, and 7-120.3 for an amount of 120.300 |
| `Tokens.IntTokenRoundTrip` | app/db/postgres/common.go:547-559 | the same for int64 numbers, signs and both bounds included |
| `Tokens.ParseDigits` | app/db/postgres/common.go:478-480 | read digit by digit in wrapping 64-bit arithmetic, a digit string, leading zeros or not, is refused exactly when its value needs more than 64 bits |
| `Tokens.PairTokenRoundTrip` | app/db/postgres/pools.go:25-41 | every pair of an id and a size is recovered |
| `Tokens.DecimalRoundTrip` | app/db/postgres/common.go:575 | printing a decimal that is not negative, trailing zeros dropped, and parsing it gives the same number |
| `Tokens.AmountTokenRoundTrip` | app/db/postgres/common.go:561-581 | a pair of an id and an amount is recovered if the amount is not negative, and is refused otherwise |
| `Pagination.WalkReturnsFirstTable` | app/db/postgres/common.go:486-545 | following tokens from nil returns exactly the rows of the first request, in order, whatever is added in front meanwhile; no page is too long, each token names the next page's first row, tokens strictly move on, and the number of pages is as expected |
| `Pagination.WalkReturnsRest` | app/db/postgres/common.go:486-545 | the same from any point of a walk |
| `Pagination.PageCountIsCeiling` | app/db/postgres/common.go:486-495 | the number of pages is max(1, ceil(rows/count)) |
| `Pagination.WalkExists` | app/db/postgres/common.go:497-520 | from any point there is a walk on which no request fails, and it ends |
| `Pagination.SomeWalkEnds` | app/db/postgres/common.go:486-520 | a positive limit, or an empty table, is enough for a walk to end |
| `Pagination.ZeroLimitNeverEnds` | app/db/postgres/common.go:486-520 | with a limit of 0 and any row at all, no walk ends |
| `Pagination.SelectIsSuffix` | resources/scripts/api/addressPenalties.sql:12-15 | filtering by a row's own key keeps exactly that row and those after it |
| `Pagination.TokenKey` | app/db/postgres/epoch_delegatee.go:13-61 | in all four listings the token of a row, amounts included, parses to the row's key |
| `DelegateeTotals.RightWalkIff` | app/db/postgres/epoch.go:445-493 | some walk over an epoch ends and returns exactly its delegatees if and only if they fit the first page, or no row of another epoch comes at or after the first one that does not fit |
| `DelegateeTotals.TotalsWalkIff` | app/db/postgres/epoch.go:445-493 | a walk that ends returns exactly the epoch's delegatees under the same condition and no other |
| `DelegateeTotals.WalkEndsIff` | app/db/postgres/epoch.go:486-491 | a walk ends if and only if the epoch fits the first page, or no token is reached whose key more rows, of any epoch, share than a page shows |
| `DelegateeTotals.WalkNeverEnds` | resources/scripts/api/epochDelegateeTotalRewards.sql:22-27 | one delegatee with the same total in two epochs: with pages of one row no walk ends |
| `DelegateeTotals.TieNeverEnds` | resources/scripts/api/epochDelegateeTotalRewards.sql:24-27 | from a token that leads to such a tie no walk ends |
| `DelegateeTotals.WalkShowsAll` | resources/scripts/api/epochDelegateeTotalRewards.sql:22-27 | a walk from a row's token shows every row of every epoch from that key on |
| `DelegateeTotals.WalkLeavesEpoch` | resources/scripts/api/epochDelegateeTotalRewards.sql:22-27 | a walk over epoch 5 that ends with a row of epoch 4 |
| `IdentityTxs.GetIdentityTxs` | app/api/service.go:94-120 | a page never exceeds its count, and the subtraction wraps exactly for a count that is 0, or negative as an int, and a larger pool |
| `IdentityTxs.TxWalkReturns` | app/api/service.go:94-120 | a walk returns the pool and then the whole database list if the pool leaves room on the first page, and only the pool's first transactions otherwise |
| `IdentityTxs.TxWalkExists` | app/api/service.go:94-120 | such a walk exists for every pool and every growing table |
| `IdentityTxs.TxWalkIsCompleteIff` | app/api/service.go:94-120 | the whole pool and the whole database list are returned if and only if the pool leaves room on the first page, or fills it exactly and the database has nothing |
| `IdentityTxs.TokenSkipsPool` | app/api/service.go:98-116 | a request with a token does not see the pool, whatever is in it by then |
| `ReqLimiter.LifetimeCounts` | app/api/req_limiter.go:42-64 | under every interleaving, one lifetime of a counter hands out 1, 2, ..., n, each once, and min(n, limit) calls pass |
| `ReqLimiter.LifetimeLasts` | app/api/req_limiter.go:46-58 | all counts of one lifetime go to one client, and no later than the cache's lifetime after the first of them |
| `ReqLimiter.StartsAfreshIff` | app/api/req_limiter.go:46-58 | every count handed out is 1 if and only if no counter was added for the client within the lifetime |
| `ReqLimiter.NobodyStuck` | app/api/req_limiter.go:46-58 | in every reachable state a request without its count moves on, or the holder of the mutex does |
| `ReqLimiter.NoLimitNoRefusal` | app/api/req_limiter.go:43-45 | a limit that is not positive refuses nobody |
| `ReqLimiter.AdmissionsBounded` | app/api/req_limiter.go:42-64 | over a whole run at most limit requests per lifetime are let through, plus one per fallback |
| `ReqLimiter.AdmittedIsPassed` | app/api/req_limiter.go:60-63 | the requests let through are exactly the calls whose count did not exceed the limit |
| `ReqLimiter.FallbackNeedsExpiry` | app/api/req_limiter.go:52-58 | the fallback happens only if the counter that made Add fail has expired since |
| `ReqLimiter.OneHolder` | app/api/req_limiter.go:50-58 | two requests are never between Lock and Unlock at once |
| `ReqLimiter.QueueLengthIsServing` | app/api/req_limiter.go:25-76 | in every reachable state each queue holds exactly the requests being served on its class of paths, and never more than its capacity |
| `ReqLimiter.FreePlaceServes` | app/api/req_limiter.go:29-39 | a request at its queue is served at its next step if fewer are served there than its capacity, 1 for adjacent paths, and waits otherwise |
| `ReqLimiter.ArrivesAs` | app/api/req_limiter.go:71-76 | a request is adjacent exactly if "/adjacent" occurs in its path |
| `ReqLimiter.ReleaseNeverBlocks` | app/api/server.go:169-184 | a served request can always release, and frees one place of its own queue and none of the other |
| `ReqLimiter.RefusedForEver` | app/api/server.go:169-183 | over every run, a request once rejected or timed out stays refused, and nothing it tries afterwards changes anything |
| `ReqLimiter.RefusedNeverServed` | app/api/server.go:169-184 | a request refused at some point of a run holds a place in a queue at no point of it, before or after |
| `ReqLimiter.Limiter.CheckReqLimit` | app/api/req_limiter.go:42-64 | called alone: a counter that has not expired grows by 1 and keeps its expiry, any other starts at 1 for a full lifetime, other clients keep theirs, and the call is refused exactly above a positive limit |
| `ReqLimiter.Limiter.TakeResource` | app/api/req_limiter.go:25-40 | called alone: which of the three outcomes, and which queue grows |
| `ReqLimiter.Limiter.ReleaseResource` | app/api/req_limiter.go:66-69 | undoes the take on the same class of path |
| `TtlCache.StoredIsBounded` | app/db/cached/cache.go:36-48 | storing keeps the bound, also for maximal sizes that are not positive |
| `TtlCache.StoredExactly` | app/db/cached/cache.go:40-47 | with room, or with room once the expired are gone, the key holds the new item, and otherwise it is refused; no item that has not expired is lost unless it is replaced |
| `TtlCache.Cache.Set` | app/db/cached/cache.go:36-48 | keeps the bound, stores exactly under that condition and for the given or the default lifetime, and keeps what has not expired |
| `TtlCache.Cache.Get` | app/db/cached/cache.go:32-34 | finds an item exactly until its expiry |
| `TtlCache.Cache.ItemsCount` | app/db/cached/cache.go:54-56 | never exceeds the maximal size |
| `CacheKeys.KeyInjective` | app/db/cached/accessor.go:207-213 | keys tell argument lists apart if they hold numbers, booleans and nils and one text at a fixed place, whatever the text |
| `CacheKeys.KeyLooksLike` | app/db/cached/accessor.go:207-213 | what a key looks like: the arguments as they print, in one bracketed list |
| `CacheKeys.SpaceFreeKeyInjective` | app/db/cached/accessor.go:207-213 | and with any number of texts at fixed places, if these hold no spaces |
| `CacheKeys.ListsCollide` | app/db/cached/accessor.go:376-389 | a list of texts has the key of the list of their words |
| `CacheKeys.TwoTextsCollide` | app/db/cached/accessor.go:207-213 | with two texts they do not |
| `CacheKeys.PointersCollide` | app/db/cached/accessor.go:207-213 | a pointer's key does not depend on what it points to |
| `CacheRuns.NeverTooMany` | app/db/cached/cache.go:36-56 | in no run does the cache hold more than its maximal number of items |
| `CacheRuns.ReturnedByOneLoad` | app/db/cached/accessor.go:215-242 | every triple a call returns was produced by one load for the same key: its own, or one stored no longer ago than the lifetime |
| `CacheRuns.ServedWhileFresh` | app/db/cached/accessor.go:215-242 | a load that was stored is served to every call that asks for its key within the lifetime, if nothing clears the cache or stores the key again in between |
| `CacheRuns.TransparentIffKeyDetermines` | app/db/cached/accessor.go:215-242 | for calls whose arguments have a method's shape, over unchanged data, the cached accessor equals the uncached one in all runs if and only if equal keys of that shape mean equal answers |
| `CacheRuns.ScalarMethodsTransparent` | app/db/cached/accessor.go:320-325 | so methods with numbers, booleans, nil tokens and at most one text, such as (epoch), (epoch, address) and (hash, isShort), are cached transparently whatever they load |
| `CacheRuns.SpaceFreeMethodsTransparent` | app/db/cached/accessor.go:215-242 | and methods with several texts, if these hold no spaces |
| `CacheRuns.ClearForgetsIff` | app/db/cached/accessor.go:150-158 | in all continuations, calls that enter after a clearing are served only loads finished after it, if and only if no call has finished a load and not stored it yet when the cache is cleared |
| `CacheRuns.LeftOutArguments` | app/db/cached/accessor.go:285-297 | a method that keys none of its arguments is cached transparently if and only if its answer does not depend on them |
| `CacheRuns.TokensLeftOut` | app/db/cached/accessor.go:306-311 | a page asked for by a token is cached transparently only if it does not depend on the token's text |
| `CachedAccessor.Accessor.GetOrLoad` | app/db/cached/accessor.go:215-242 | called alone: a hit changes nothing, a miss stores what it returns, errors included, and no other method's cache is touched |
| `CachedAccessor.Accessor.GetCache` | app/db/cached/accessor.go:244-269 | a method's cache is created once, empty, with the method's own size and lifetime or else the defaults, and is never shared |
| `CachedAccessor.Accessor.ClearCache` | app/db/cached/accessor.go:150-158 | every cache is emptied and none is removed |
| `NetworkSizeLoader.SingleFlight` | app/service/network_size_loader.go:37-65 | under every interleaving at most one underlying load is in flight |
| `NetworkSizeLoader.LoadsAreSpaced` | app/service/network_size_loader.go:9-65 | a new load starts more than 60 s after a success was stored, or 10 s after a failure |
| `NetworkSizeLoader.NothingStale` | app/service/network_size_loader.go:9-65 | under every interleaving no call returns a result later than 60 s after it was stored, or 10 s if it is a failure |
| `NetworkSizeLoader.ReturnsLatest` | app/service/network_size_loader.go:37-65 | a call returns the result of the last load started when it returns |
| `NetworkSizeLoader.SameBetweenLoads` | app/service/network_size_loader.go:37-65 | so calls with no load started between their returns see the same result and error |
| `NetworkSizeLoader.CachedLoader.Load` | app/service/network_size_loader.go:37-65 | called alone: the underlying loader is asked exactly if nothing is cached or its expiry has passed, and a success is kept for 60 s and a failure for 10 s |
| `GlogHandler.CacheAlwaysAgrees` | log/handler_glog.go:136-141 | whatever interleaves, every cache entry is the first match of the current patterns, and a nil map is never written |
| `GlogHandler.FirstMatchWins` | log/handler_glog.go:216-221 | the level is that of the first pattern that matches, whatever the later ones say |
| `GlogHandler.NoMatchIsZero` | log/handler_glog.go:222-225 | and 0 if none matches |
| `GlogHandler.DirectMeans` | log/handler_glog.go:200-231 | direct evaluation emits exactly if the verbosity, or the first pattern in force that matches, reaches the record's level |
| `GlogHandler.AlwaysAgreesIff` | log/handler_glog.go:136-141 | every decision equals direct evaluation at some moment of its call, in all runs, if and only if not both Verbosity and Vmodule may take effect during a call |
| `GlogHandler.WrongDropNeedsBoth` | log/handler_glog.go:199-231 | a drop that no moment of its call justifies needs, during the call, a Verbosity that raises the level to the record's, and after it a change of the rules |
| `GlogHandler.DecisionAgrees` | log/handler_glog.go:199-231 | at the moment of the decision itself an emit is always right, and a drop is if and only if the verbosity is still below the record's level |
| `GlogHandler.SwapsAloneAreHarmless` | log/handler_glog.go:199-231 | without a Verbosity call since the level check, every decision is right, whatever swaps come in between |
| `GlogHandler.DropAgainstEveryMoment` | log/handler_glog.go:200-207 | a run in which a record is dropped although direct evaluation emits it throughout the call |
| `GlogHandler.Handler.Log` | log/handler_glog.go:199-231 | called alone: emits exactly if the verbosity or the first matching pattern allows it, and caches at most this site's first match |
| `GlogHandler.Handler.Vmodule` | log/handler_glog.go:135-141 | installs the patterns with an empty cache and the matching flag |
| `Logfmt.LineDetermines` | log/format.go:160-197 | lines with keys without spaces, equals signs or quotes allowed, determine their keys and texts whatever the gaps |
| `Logfmt.LinesDeterminePairsIff` | log/format.go:160-197 | banning characters from keys makes lines determine their pairs if and only if the space is banned |
| `Logfmt.TwoContextsOneLine` | log/format.go:165-192 | two different contexts that print the same line |
| `Logfmt.PrintDetermines` | log/format.go:160-197 | in particular lines printed from any padding memories |
| `Logfmt.LineRoundTrip` | log/format.go:160-197 | whatever the gaps between fields, a line parses back into its keys and texts if no key holds an equals sign or starts with a space |
| `Logfmt.LogfmtRoundTrip` | log/format.go:160-197 | in particular from any padding memory |
| `Logfmt.ValueRoundTrip` | log/format.go:364-405 | every text, quoted or bare, is recovered with exactly what follows it left over |
| `Logfmt.ValueLooksLike` | log/format.go:364-405 | a value is in quotes exactly if it holds a space, a control character, an equals sign or a quote, and is written character by character |
| `Logfmt.EscapedCharacters` | log/format.go:380-394 | the five characters that get a backslash, and no others |
| `Logfmt.BadKey` | log/format.go:166-170 | a key that is not a string is printed as LOG15_ERROR and loses its value |
| `Logfmt.NoNewlineInside` | log/format.go:160-197 | a printed line holds no newline if and only if no key does |
| `Logfmt.PaddingGrows` | log/format.go:173-184 | in sequential use a key's padding only grows, and covers every value printed for it |
| `Logfmt.PaddingIsWidest` | log/format.go:173-184 | and is exactly the widest value printed for the key so far |
| `Logfmt.FieldsAligned` | log/format.go:190-193 | a value and the gap after it fill the width known for the key by then |
| `Logfmt.EscapeString` | log/format.go:364-405 | the two passes over a buffer that is cut or kept give the same text as escaping character by character |
| `Logfmt.Formatter.Logfmt` | log/format.go:160-197 | the loop prints the specified line and leaves the padding memory that the line's values require |

## Left out

- SQL text, row scanning and the driver: a query is a filtered, sorted and limited sequence; rows of a table differ in their keys.
- The average duration of a name's requests (a float), its lists of the three fastest and slowest requests, and the order of the report's lines.
- The cube root for the days until termination: any function of stake and network size.
- The quorum size is an exact rational ceiling, where the code computes it in float64; decimals are exact reals, with division rounded to 16 digits.
- `sort.Slice` and go-cache by contract: a sorted permutation, and atomic operations, an increment leaving the expiry alone.
- Fields that the folds only copy, and the voting state as text: it is an enumeration.
- The type names of rewards other than the two that are replaced, and how delegation rewards are added up.
- `DelegateeTotals.TotalsWalkIff`: the table does not change during the walk.
- Cache keys with lists of texts: that they are distinct for texts without spaces and brackets.
- Rows loaded for one page are read from one snapshot of the table.
- `Pagination.WalkReturnsFirstTable`: `int(count)+1` is not wrapped, because limits above 100 are refused before (app/api/common.go:86).
- `Tokens.DecimalRoundTrip`: parsing of exponents, which printing never produces, is not part of this model.
- `Pagination.WalkReturnsFirstTable`, for pools: a pool whose size changes moves within the list; only walks during which existing rows keep their place are covered.
- `VotingContracts.ReadOracleVotingContracts`: errors of scanning a row.
- `ReqLimiter.Limiter.TakeResource`: called alone, so a full queue ends in the timeout; the interleavings are in the machine.
- `CachedAccessor.Accessor.GetOrLoad`: called alone; the interleavings of its parts are in `CacheRuns`.
- `GlogHandler.Handler.Vmodule`: parsing of the rules and compiling them to regular expressions; matching is any predicate. The flag stores the number of patterns, below 2^32. Backtraces are not part of this model.
- `Logfmt.Formatter.Logfmt`: values other than strings, colours, contexts of odd length, and the other formats. Other goroutines may change the padding in between; `Logfmt.LineRoundTrip` covers every gap that this can lead to.
- HTTP routing, configuration, the indexer client, and the contract pages of the service layer.
- The clocks are monotone, and their readings are parameters or steps.
