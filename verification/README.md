# Models of aptos-core, verified in Dafny

Dafny models of parts of aptos-core and proofs about them: consensus safety over
whole runs, the incremental gas-price cache against an uncached computation,
three small concurrent protocols, cursor pagination, and several loops with a
simpler form to agree with. `dafny verify dfyconfig.toml` checks everything.

| file | what it models |
|---|---|
| `TwoChainRules.dfy`, `Quorum.dfy`, `Agreement.dfy`, `Progress.dfy` | the two-chain voting rules of the safety-rules service, vote weight, agreement of committed blocks over every run with Byzantine validators, and that the honest ones can always commit more |
| `SafetyRules.dfy`, `EpochChange.dfy` | the service as an object with persisted state, epoch-change proofs, the initialise loop and the retry wrapper |
| `GasPrice.dfy`, `GasStatistics.dfy` | the minimum inclusion price of one block; the low, median and ninetieth-percentile statistics |
| `GasChain.dfy`, `GasWindow.dfy`, `GasEstimator.dfy` | the walk back from a ledger tip, the price cache as a window of blocks, and the cache object that refines it |
| `EpochCache.dfy` | the double-checked per-epoch caches under a readers-writer lock |
| `WaitByHash.dfy` | the atomic counter that admits long-polling requests |
| `PortAllocator.dfy` | the lock-file protected port counter shared by test processes |
| `Pagination.dfy`, `PageTrace.dfy`, `Orbit.dfy` | listing modules and resources page by page, over cursors that may resume early |
| `Rendering.dfy` | timestamps of rendered transactions; the ledger tip behind the internal indexer |
| `EventTranslation.dfy` | in-place translation of v2 events for simulation |
| `Calibration.dfy`, `GasMultiplier.dfy` | recalibration of performance baselines; rescaling of integer literals |
| `Common.dfy`, `MapSum.dfy` | options, results and sums over maps |

## What is assumed

- Consensus: one epoch with one agreed genesis block; signatures cannot be forged,
  so a certificate exists only if its signatures were made; quorum certificates and
  timeout certificates reaching the service belong to its epoch; Byzantine voting
  power is less than a third. The service's signature checks are taken as made. In
  the local service mode the node's other consensus code makes them before a request
  reaches the service, which then skips its own
  (consensus/safety-rules/src/safety_rules_manager.rs:131-132).
- Gas estimation: block lookups are stable, nothing of the current epoch is pruned,
  on-chain configuration is constant within an epoch, genesis is version 0 alone,
  the configuration passed its sanitizer, no block of the chain makes the scan panic
  (`PanicsExactlyWhen` says which would), u64 sums do not overflow, and the clock is
  a parameter. The f32 fractions of the majority test are exact here.
- Caches and counters: a lock is held by a step sequence, and atomic operations are
  single steps. What storage holds for an epoch is a function of the epoch.
- Pagination: the store is the account's keys at one version, in byte order.

## Where the code falls short of what one might expect

Each comes with the exact condition and with inputs that show it.

- If the epoch of version 0 went on after it, the cached price list could include the
  genesis block, which the uncached walk never lists (`GasWindow.GenesisCounterexample`).
  Storage expects the genesis ledger info at version 0 to end its epoch, and then the
  lists always agree (`GasWindow.AlwaysUncachedAfterGenesis`).
- A page boundary that falls on a resource group gives out the cursor of the resource
  of that name, which sorts earlier. Listing can repeat items or never end
  (`Pagination.ResourceListingNeverEnds`). It shows each item once exactly when no item
  lies between that cursor and the group at any boundary (`Pagination.ResourcesListed`),
  and ends exactly when the boundaries, followed cursor by cursor, leave the list, which
  takes at most one page more than there are items (`Pagination.ListingEndsExactlyWhen`).
- A long poll whose task is dropped never returns its slot (`WaitByHash.OneDropLeaks`).
  The counter comes back to zero exactly when none was dropped (`WaitByHash.CounterReturns`),
  and once as many were dropped as there are slots no request long-polls again
  (`WaitByHash.NoLongPollAgain`).
- A port counter that is emptied but not rewritten (`PortAllocator.LostCountRepeats`), or
  cannot be read (`PortAllocator.FailedReadRepeats`), makes ports repeat. While neither
  happens, ports are equal exactly when their attempts are whole vectors apart
  (`PortAllocator.PortsAreUnique`).
- A process that is killed while it holds the lock file, cannot open the counter file or cannot
  remove the lock file leaves the lock behind (`PortAllocator.OrphanedExactlyWhen`), and nobody
  gets a port from then on (`PortAllocator.OrphanedForGood`).
- The calibration script can fail halfway through rewriting its file, losing the rest. It
  does so exactly when a rewrite is forced and some row cannot be written
  (`Calibration.OutcomeExactlyWhen`): a row without a key column
  (`Calibration.MissingKeyTruncates`), or a row that lacks another column and is not kept,
  such as that of a new test (`Calibration.NewTestTruncates`).
- Scaling a literal up and back restores its value, but its text only if it was grouped
  canonically (`GasMultiplier.ScaleAndBack`, `GasMultiplier.UnusualGroupingIsLost`).
- The tip reported behind the internal indexer can be past the indexer's own version,
  exactly when that is in the middle of a block (`Rendering.TipIsBlockEnd`,
  `Rendering.TipPastIndexer`).
- Initialising a validator stops at the first page of endings that reaches its epoch, which
  is storage's newest epoch exactly when that page is the last
  (`SafetyRules.NewestExactlyWhen`, `SafetyRules.OnePageIsNotEnough`). The retried request is
  then still refused for its epoch exactly when that is not the one reached
  (`SafetyRules.StillWrongEpoch`).

## Model

| member | source | states |
|---|---|---|
| `Agreement.AgreementOverRuns` | consensus/safety-rules/src/safety_rules_2chain.rs:19-119 | in every run, blocks committed at any two moments, by the two-chain rule or by order votes, lie on one chain |
| `Agreement.CommitHappens` | consensus/safety-rules/src/safety_rules_2chain.rs:53-95 | a run of the protocol in which a block is committed |
| `Agreement.CommitByOrderVote` | consensus/safety-rules/src/safety_rules_2chain.rs:97-119 | a run in which order votes alone commit a block |
| `Progress.HonestCanCommit` | consensus/safety-rules/src/safety_rules_2chain.rs:124-178 | from every state of every run, whatever Byzantine validators signed, the honest ones alone can go on to commit a block not committed before, while the highest round voted in has two successors |
| `Progress.CommitAfterTimeouts` | consensus/safety-rules/src/safety_rules_2chain.rs:150-166 | in every committee, after any number of rounds that all timed out, the next proposal can still be committed |
| `Progress.NextBacked` | consensus/safety-rules/src/safety_rules_2chain.rs:19-119 | every step keeps the rounds of honest validators backed by certificates: the one-chain round by a certified block, the last voted round by a certificate of the round before |
| `Agreement.CommittedBlocksAgree` | consensus/safety-rules/src/safety_rules_2chain.rs:124-178 | in every state that keeps the invariant two committed blocks are ancestor and descendant |
| `Agreement.CertifiedExtendsCommitted` | consensus/safety-rules/src/safety_rules_2chain.rs:150-166 | every certified block at or above a committed round extends the committed block |
| `Agreement.OneCertifiedPerRound` | consensus/safety-rules/src/safety_rules_2chain.rs:53-95 | at most one block is certified per round |
| `Agreement.TimeoutsRememberCommit` | consensus/consensus-types/src/timeout_2chain.rs:141-183 | a block justified by a timeout certificate from a committed round on has a parent no lower than the committed block |
| `Agreement.CommittedIsCertified` | consensus/safety-rules/src/safety_rules_2chain.rs:195-214 | a committed block is certified and is not genesis |
| `Agreement.RulesKeepNodeInv` | consensus/safety-rules/src/safety_rules_2chain.rs:19-119 | whatever it is asked, an honest validator votes once per round and its timeouts carry certificates at least as high as those behind its earlier votes and order votes |
| `Agreement.NextInv` | consensus/safety-rules/src/safety_rules_2chain.rs:19-119 | every step, honest or Byzantine, keeps all honest validators consistent and their votes justified by existing certificates |
| `TwoChainRules.VotesExactlyWhen` | consensus/safety-rules/src/safety_rules_2chain.rs:53-95 | a vote is given exactly in a round already voted in, where it is the same vote, or above the last voted round when the round follows the parent or a timeout certificate that saw no higher one; what it commits and the rounds stored |
| `TwoChainRules.VoteRefusedBecause` | consensus/safety-rules/src/safety_rules_2chain.rs:150-166 | which refusal a vote gets, both ways |
| `TwoChainRules.TimesOutExactlyWhen` | consensus/safety-rules/src/safety_rules_2chain.rs:19-51 | a timeout is signed exactly when its round follows the QC or the TC, is not below the last voted round, and the QC is not below the one-chain round; the rounds stored and the refusals |
| `TwoChainRules.OrderVotesExactlyWhen` | consensus/safety-rules/src/safety_rules_2chain.rs:97-119 | an order vote is signed exactly above every round timed out in; the rounds stored |
| `Quorum.Committee.QuorumsShareHonest` | types/src/validator_verifier.rs:206-214 | two sets holding a quorum of voting power share an honest validator |
| `Quorum.Committee.HonestIsQuorum` | types/src/validator_verifier.rs:206-214 | the honest validators hold a quorum on their own |
| `SafetyRules.VerifiedIsEnabled` | consensus/safety-rules/src/safety_rules.rs:63-111 | a request that passes the checks, whose certificates exist, is an enabled step of the agreement protocol |
| `SafetyRules.EnabledIsVerified` | consensus/safety-rules/src/safety_rules.rs:63-111 | an enabled step, put as a sound request to an initialised validator, passes the checks |
| `SafetyRules.VerifiesExactlyWhen` | consensus/safety-rules/src/safety_rules.rs:63-111 | the checks pass exactly for a sound request of the epoch to an initialised validator |
| `SafetyRules.CheckFailedBecause` | consensus/safety-rules/src/safety_rules.rs:63-111 | the error of a failed check names one that fails |
| `SafetyRules.AnsweredExactlyWhen` | consensus/safety-rules/src/safety_rules_2chain.rs:19-119 | a request is answered exactly when the checks pass and the rounds allow it, with the vote, timeout or order vote asked for |
| `SafetyRules.ServiceTakesHonestSteps` | consensus/safety-rules/src/safety_rules_2chain.rs:19-119 | an answered request is a step of the agreement protocol that moves the persisted data and records what was signed; a refusal changes nothing |
| `SafetyRules.SafetyRules.SignVoteTwoChain` | consensus/safety-rules/src/safety_rules_2chain.rs:53-95 | new persisted data and result are those of the voting decision; a vote is signed exactly when the rounds allow it or one was in that round |
| `SafetyRules.SafetyRules.SignTimeoutWithQc` | consensus/safety-rules/src/safety_rules_2chain.rs:19-51 | new persisted data and result are those of the timeout decision; signed exactly when the rounds allow it |
| `SafetyRules.SafetyRules.SignOrderVoteFor` | consensus/safety-rules/src/safety_rules_2chain.rs:97-119 | new persisted data and result are those of the order-vote decision; signed exactly above the highest timeout |
| `SafetyRules.SafetyRules.Initialize` | consensus/safety-rules/src/safety_rules.rs:265-344 | a proof that verifies is installed, with all rounds zero and no last vote if it opens a new epoch and the safety data untouched otherwise; one that does not verify leaves everything as it was |
| `SafetyRules.InstallOutcome` | consensus/safety-rules/src/safety_rules.rs:265-344 | a page of endings settles the validator in the epoch it opens, with all rounds zero and no last vote if that is a new one, or only moves the waypoint when the validator is in a later epoch |
| `SafetyRules.AnyProofInstalls` | consensus/safety-rules/src/safety_rules.rs:265-344 | when only genuine endings are signed, any proof that verifies has the effect of a page that storage serves |
| `SafetyRules.InitializedOutcome` | consensus/src/metrics_safety_rules.rs:40-69 | initialising fails on an unknown waypoint, leaves the waypoint at the last ending when storage is behind the validator's epoch, and otherwise settles in the epoch that the pages reach, starting over if it is a new one, and reconciles the key; with the errors |
| `SafetyRules.InitializedExactlyWhen` | consensus/src/metrics_safety_rules.rs:40-69 | initialising succeeds exactly when the waypoint is a stored ending, storage is not behind, and the key of the epoch reached reconciles |
| `SafetyRules.ReachedIs` | consensus/src/metrics_safety_rules.rs:40-69 | the epoch reached is the first page end from the waypoint on that is not before the validator's epoch, or the newest when there is none |
| `SafetyRules.VisitedIs` | consensus/src/metrics_safety_rules.rs:53-66 | the waypoints tried are every ninety-ninth ending from the first |
| `SafetyRules.NewEpochVotes` | consensus/safety-rules/src/safety_rules.rs:294-303 | after moving to a new epoch the first proposal on its genesis is voted for |
| `SafetyRules.NewestExactlyWhen` | consensus/src/metrics_safety_rules.rs:53-66 | initialising ends in storage's newest epoch exactly when the last page it used was the final one |
| `SafetyRules.OnePageIsNotEnough` | consensus/src/metrics_safety_rules.rs:53-66 | with 250 epochs ended, a validator in epoch 1 ends in epoch 100 |
| `SafetyRules.StillWrongEpoch` | consensus/src/metrics_safety_rules.rs:71-85 | after initialising, a request is refused for its epoch exactly when that is not the epoch reached |
| `SafetyRules.NotReadyExactlyWhen` | consensus/src/metrics_safety_rules.rs:71-85 | an answer asks for initialising exactly when there is no key, the epoch differs, or the epoch is not set up where that is asked for |
| `SafetyRules.TrailGrows` | consensus/src/metrics_safety_rules.rs:40-69 | the waypoints tried start at the current one and move strictly forward over stored endings, by whole pages except at the end |
| `SafetyRules.SafetyRules.PerformInitialize` | consensus/src/metrics_safety_rules.rs:40-69 | the loop ends with exactly the state, the result and the trail of waypoint versions that these lemmas are about |
| `SafetyRules.SafetyRules.Retry` | consensus/src/metrics_safety_rules.rs:71-85 | the request runs twice exactly when the validator is not ready and initialising succeeds, the second time on the state that initialising left; otherwise its first answer or the initialisation's own error stands; a second answer refuses the epoch exactly when initialising reached another; the request is answered exactly when it is sound and the rules allow it there |
| `EpochChange.VerifyProof` | types/src/epoch_change.rs:66-118 | accepts exactly the proofs that, past a stale prefix, start at the waypoint and chain epoch by epoch with valid signatures |
| `EpochChange.Storage.StretchVerifies` | types/src/epoch_change.rs:66-118 | every stretch of endings verifies against every waypoint in it, whatever comes before that one |
| `EpochChange.Storage.VerifiedIsGenuine` | types/src/epoch_change.rs:66-118 | when only what ended an epoch carries its signatures, a proof that verifies at a stored ending consists of the endings that follow it |
| `EpochChange.Storage.PageVerifies` | storage/aptosdb/src/db/aptosdb_reader.rs:562-594 | from a stored ending, storage serves a page that verifies there and ends later unless it was the last |
| `EpochChange.Storage.UnknownWaypointFails` | types/src/epoch_change.rs:66-118 | a waypoint that is no stored ending never verifies a page |
| `GasPrice.NextBucketFrom` | api/src/context.rs:1065-1076 | the first bucket above a price, or the price when there is none |
| `GasPrice.MaxByCount` | api/src/context.rs:1157-1168 | a key of maximal count and the total, for every visiting order |
| `GasPrice.GetGasPricesAndUsed` | api/src/context.rs:1116-1171 | the user transactions' prices and gas, the end infos, and a majority exactly when one contract has more than half |
| `GasPrice.MajorityIsMaximum` | api/src/context.rs:1157-1168 | a strict contract majority is unique and is the maximum, so ties and order cannot matter |
| `GasPrice.BlockMinInclusionPrice` | api/src/context.rs:1173-1231 | the price of what the tip lets the scan read, whatever order counters are visited in; from the block's last version but one on, one function of the block and the epoch's configuration |
| `GasPrice.ScanLength` | api/src/context.rs:1116-1131 | exactly the transactions before the block's last version and not past the ledger version are read |
| `GasPrice.FullExactlyWhen` | api/src/context.rs:1181-1213 | full, not full or two end infos, in terms of the number of user transactions, the one end info, and the gas they used against the limit |
| `GasPrice.PricedExactlyWhen` | api/src/context.rs:1181-1231 | a price is given exactly for a full block that somebody used, and it is that of a user transaction none undercuts, rounded up to the next bucket |
| `GasPrice.PanicsExactlyWhen` | api/src/context.rs:1181-1231 | which blocks make the scan panic, both ways |
| `GasPrice.BlockPriceRespectsMin` | api/src/context.rs:1173-1231 | a block's price is at least the minimum that its transactions respect |
| `GasStatistics.MarketIsMedian` | api/src/context.rs:1350-1369 | more than half of the sample is at most the market estimate, which is the low estimate or a price with no more than half of the sample below it |
| `GasStatistics.DeprioritizedIsCheapest` | api/src/context.rs:1341-1348 | deprioritized is one of the most recent prices and at most each of them, or the minimum when none is looked at |
| `GasStatistics.PrioritizedIsRank` | api/src/context.rs:1370-1387 | prioritized is a price rounded up to the next bucket: the market estimate, or above it a price of the history with at most nine tenths below it |
| `GasStatistics.PrioritizedCoversNineTenths` | api/src/context.rs:1370-1387 | more than nine tenths of the history is at most the prioritized estimate |
| `GasStatistics.EstimateOrdered` | api/src/context.rs:1339-1393 | minimum, deprioritized, market and prioritized are in order |
| `GasStatistics.EmptyExactlyWhen` | api/src/context.rs:1350-1387 | the fallback for an empty list is taken exactly when there is no price or no market history |
| `GasStatistics.DefaultEstimation` | api/src/context.rs:1078-1084 | the default estimate is ordered and not below the minimum |
| `GasStatistics.DefaultIsQuietHistory` | api/src/context.rs:1078-1084 | the default estimate is that of any history in which every price was the minimum |
| `GasChain.Layout.FreshIs` | api/src/context.rs:1273-1307 | the uncached walk lists consecutive blocks from the tip's predecessor down to the epoch's start or the history limit |
| `GasWindow.FreshListsExactly` | api/src/context.rs:1273-1307 | which blocks the uncached walk lists: those of the epoch before the block of the version, no further back than the limit, newest first, and genesis only when nothing lies between |
| `GasChain.Env.PricesRespectMinimum` | api/src/context.rs:1173-1231 | every price of a stretch of blocks of one epoch respects its minimum |
| `GasChain.Env.PriceIs` | api/src/context.rs:1313-1326 | a block counts with its price, or with the minimum when it has none |
| `GasWindow.NextCacheOk` | api/src/context.rs:1394-1401 | any slow call, for any tip and epoch, leaves a gap-free window of one epoch within the history limit |
| `GasWindow.UsedVersusFresh` | api/src/context.rs:1273-1337 | the list used is a prefix of the uncached list, and all of it, under exactly the stated conditions |
| `GasWindow.RunCacheOk` | api/src/context.rs:1261-1401 | over every run of calls in any order the cache stays such a window |
| `GasWindow.RunUsesPrefix` | api/src/context.rs:1261-1337 | in every run each slow call uses a prefix of the uncached list, where version 0 is in another epoch or ends its own |
| `GasWindow.RunMatchesUncached` | api/src/context.rs:1261-1337 | with tips that never go back the lists are equal exactly when the window does not reach genesis, and so always where version 0 is in another epoch or ends its own |
| `GasWindow.AlwaysUncachedAfterGenesis` | api/src/context.rs:1261-1337 | when genesis ends its epoch, every slow call of a run with tips that never go back uses exactly the uncached list |
| `GasWindow.GenesisCounterexample` | api/src/context.rs:1298-1301 | three calls after which the cached list has genesis and the uncached one does not |
| `GasEstimator.Walk` | api/src/context.rs:1273-1307 | the walk stops at the cache, the epoch or the limit with exactly the uncached blocks above the window |
| `GasEstimator.TakeCached` | api/src/context.rs:1328-1337 | the cached prices up to a version, newest first, up to a number |
| `GasEstimator.FirstKey` | api/src/context.rs:1394-1401 | the least key of the ordered map |
| `GasEstimator.GreatestAreNewest` | api/src/context.rs:1394-1401 | dropping first keys down to the limit keeps the newest blocks and their prices |
| `GasEstimator.SlowCall.Collecting` | api/src/context.rs:1394-1401 | after recording and garbage collection the map holds exactly the next window's prices |
| `GasEstimator.RunEstimatesUncached` | api/src/context.rs:1233-1403 | over runs with tips that never go back every slow call estimates what an empty cache would, where version 0 is in another epoch or ends its own |
| `GasEstimator.UncachedIs` | api/src/context.rs:1308-1393 | an uncached estimate is the statistics of the uncached list's prices, or the default when that is empty |
| `GasEstimator.Source` | api/src/context.rs:1086-1103 | the call an answer comes from is of the same epoch and less than an expiration before |
| `GasEstimator.SourceStays` | api/src/context.rs:1086-1103 | between that call and the one told, every call is told the same |
| `GasEstimator.EstimateAll` | api/src/context.rs:1233-1403 | one cache over any mix of fast and slow calls with tips that never go back: every answer is the uncached estimate at its source, where version 0 is in another epoch or ends its own |
| `GasEstimator.GasEstimationCache.constructor` | api/src/context.rs:123-128 | starts with no epoch, no estimate and no prices |
| `GasEstimator.GasEstimationCache.PriceBlocks` | api/src/context.rs:1313-1326 | the collected blocks' prices in order, each recorded under its end version |
| `GasEstimator.GasEstimationCache.CollectGarbage` | api/src/context.rs:1394-1401 | keeps the greatest keys, as many as allowed, with their values |
| `GasEstimator.GasEstimationCache.ReadCached` | api/src/context.rs:1086-1103 | a cached estimate is returned exactly when it is of the asked epoch and has not expired, and is ordered for that epoch |
| `GasEstimator.GasEstimationCache.EstimateGasPrice` | api/src/context.rs:1254-1403 | returns the cached estimate and changes nothing, or estimates from the window's list, moves the window and stores the result; estimates are ordered |
| `EpochCache.ReturnsOwnEpoch` | api/src/context.rs:1410-1492 | in every interleaving a caller that gets a value gets its own epoch's |
| `EpochCache.NothingOnlyFromFailure` | api/src/context.rs:1442-1478 | a caller is left without a value only by a load of its own that failed in this request |
| `EpochCache.HitAnswers` | api/src/context.rs:1410-1427 | a request for the cached epoch is answered under the read lock, beside other readers, and changes nothing |
| `EpochCache.MissWrites` | api/src/context.rs:1428-1441 | a request for another epoch comes to load under the write lock when nobody is in its way |
| `EpochCache.LoadAnswers` | api/src/context.rs:1442-1491 | a load that succeeds caches the epoch's value under its label and answers with it |
| `EpochCache.ReadersSeePairs` | api/src/context.rs:1494-1536 | whenever the read lock can be taken, value and epoch label belong together |
| `EpochCache.WriterIsAlone` | api/src/context.rs:1410-1492 | nobody holds the lock beside a writer |
| `EpochCache.RefreshesAlternate` | api/src/context.rs:1428-1491 | between two refreshes for one epoch there is one for another |
| `EpochCache.OneRefreshPerEpoch` | api/src/context.rs:1428-1491 | while all requests are for one epoch the cache is refreshed at most once |
| `EpochCache.FailedLoadsLeaveNoTrace` | api/src/context.rs:1442-1478 | without the steps of a caller whose loads all fail there is a run with the same cache, refreshes and answers to everybody else |
| `EpochCache.NextInv` | api/src/context.rs:1410-1536 | every step keeps exclusion, pairing and the refresh log |
| `WaitByHash.NeverTooMany` | api/src/transactions.rs:239-276 | at most the limit long-poll at any moment, and the counter equals the requests it counts |
| `WaitByHash.CounterReturns` | api/src/transactions.rs:262-276 | when all requests are over the counter is the number dropped in their long poll, zero exactly when none was |
| `WaitByHash.SettledOnArrival` | api/src/transactions.rs:239-258 | whether a request long-polls is settled by the count at its arrival, whatever the others do |
| `WaitByHash.PollsExactlyWhen` | api/src/transactions.rs:239-258 | a request's first move takes it to its long poll exactly when fewer than the limit were counted at its arrival |
| `WaitByHash.NeverStuck` | api/src/transactions.rs:239-276 | a new request can always arrive, and one under way can always move |
| `WaitByHash.SlotsShrink` | api/src/transactions.rs:262-276 | long polls and dropped long polls together never exceed the limit |
| `WaitByHash.NoLongPollAgain` | api/src/transactions.rs:262-276 | once as many long polls as the limit were dropped, none ever happens again |
| `WaitByHash.OneDropLeaks` | api/src/transactions.rs:262-276 | a run that ends with every request over and the counter at one |
| `WaitByHash.NextInv` | api/src/transactions.rs:239-276 | every step keeps the count exact and the admitted within the limit |
| `PortAllocator.BindPortFromCounter` | config/src/utils.rs:173-199 | the port of the first attempt that binds and the position after it, wrapping; nothing exactly when all attempts fail |
| `PortAllocator.PortsAreUnique` | config/src/utils.rs:114-144 | in any interleaving two ports between which the count was neither lost nor unreadable are equal exactly when their attempts are whole vectors apart |
| `PortAllocator.MutualExclusion` | config/src/utils.rs:144-171 | two processes never hold the lock file at once |
| `PortAllocator.CounterInRange` | config/src/utils.rs:114-144 | with the lock free, a committed counter is readable, below the vector length, and the next position |
| `PortAllocator.NextInv` | config/src/utils.rs:114-171 | every file operation that succeeds or fails, from creating the lock file to removing it, and every kill keeps exclusion, the counter and distinct ports |
| `PortAllocator.GenerationExactlyWhen` | config/src/utils.rs:114-142 | the counter generation stays the same exactly while no rewrite fails, no process is killed after emptying the file, and no unread count is emptied |
| `PortAllocator.StartsWhereLeft` | config/src/utils.rs:116-131 | a count that can be read and is in range is where the search starts, anything else starts over |
| `PortAllocator.OrphanedExactlyWhen` | config/src/utils.rs:144-171 | which steps leave the lock file without a holder, both ways |
| `PortAllocator.OrphanedForGood` | config/src/utils.rs:144-171 | a lock file without a holder stays, and nobody gets a port any more |
| `PortAllocator.WaitsOut` | config/src/utils.rs:144-171 | failed attempts at the lock change nothing until the last, which gives up |
| `PortAllocator.AcquireLock` | config/src/utils.rs:144-171 | the first attempt that finds no lock file, or none within the limit |
| `PortAllocator.CounterFiles.GetUniquePort` | config/src/utils.rs:114-144 | the whole operation with every failure: port, counter file and lock afterwards |
| `PortAllocator.AloneInProtocol` | config/src/utils.rs:114-144 | the same operation as protocol steps gives the same port, file and lock |
| `PortAllocator.LostCountRepeats` | config/src/utils.rs:134-139 | a failed rewrite of the emptied file makes a port repeat |
| `PortAllocator.FailedReadRepeats` | config/src/utils.rs:116-131 | a failed read of the counter makes a port repeat |
| `Pagination.ResourceBeforeGroup` | types/src/access_path.rs:78-82 | a resource's storage key sorts before that of the group of the same name |
| `Pagination.KeyReadsBack` | types/src/access_path.rs:78-82 | a storage key determines the path it was made from |
| `Pagination.DecodesExactlyWhen` | types/src/access_path.rs:245-253 | path bytes decode to a path exactly when they deserialize and are its encoding |
| `Pagination.AllListsStore` | api/src/context.rs:461-584 | a list is the filtered stream exactly when it holds, in key order, what the entries are due: each readable entry of the kind with its key, path and value, each unreadable one as an error, nothing else |
| `Pagination.AllFoundExactlyWhen` | api/src/context.rs:461-584 | the stream has no error exactly when every entry can be read |
| `Pagination.CursorAtMostKey` | api/src/context.rs:533-537 | a cursor is the item's own key, or for a group the lower key of the resource of its name |
| `Pagination.ScanFrom` | storage/indexer/src/utils.rs:28-70 | seeking and then filtering is filtering and then seeking |
| `Pagination.GetPageAt` | api/src/context.rs:461-539 | every page is a stretch of the whole filtered list from its cursor's position |
| `Pagination.ResumeAt` | api/src/context.rs:533-537 | a cursor resumes at or before the item it names, and exactly there if and only if nothing lies between; always so for modules and plain resources |
| `Pagination.ListingCovers` | api/src/context.rs:461-539 | a listing that ends has shown every item and met no error |
| `Pagination.ListedOnceExactlyWhen` | api/src/context.rs:461-539 | a listing that ends shows each item once, in order, if and only if every page boundary is clean |
| `Pagination.ModulesListed` | api/src/context.rs:541-584 | for every positive page size the module listing ends exactly when every entry can be read, and then shows exactly the store's modules once in key order |
| `Pagination.ResourcesListed` | api/src/context.rs:461-539 | some listing shows exactly the store's resources and groups once in order exactly when every entry can be read and every boundary is clean |
| `Pagination.ListingEndsExactlyWhen` | api/src/context.rs:461-584 | for every page size a listing ends exactly when no item is broken and the boundaries, followed cursor by cursor, leave the list within as many steps as there are items |
| `Pagination.RunsAgree` | api/src/context.rs:461-584 | two listings of the same store agree page by page |
| `Pagination.ResourceListingNeverEnds` | api/src/context.rs:533-537 | with one resource, one group and pages of one, no run of pages is ever complete |
| `Pagination.LimitIsPositive` | api/src/page.rs:74-97 | an accepted page size is at most the maximum, and positive exactly when the maximum is |
| `Pagination.LimitExactlyWhen` | api/src/page.rs:74-97 | a size is refused exactly when it is zero, and is otherwise the smaller of what was asked for and the maximum |
| `Pagination.DefaultPageEndsAtTip` | api/src/page.rs:26-58 | the default page of transactions is the last ones, all of them if there are fewer |
| `Pagination.StartExactlyWhen` | api/src/page.rs:26-58 | a start that is asked for is used unless it is past the tip |
| `Rendering.RenderSequential` | api/src/context.rs:700-731 | each transaction converted with the running timestamp, the first failure failing all |
| `Rendering.ConvertExactlyWhen` | api/src/context.rs:700-757 | all are converted, each with its timestamp, exactly when every timestamp and conversion succeeds |
| `Rendering.StampFromMetadata` | api/src/context.rs:707-721 | the running timestamp is that of the last metadata so far |
| `Rendering.StampFromStart` | api/src/context.rs:707-721 | before any metadata the running timestamp is the one to start with |
| `Rendering.Chain.TimestampIs` | api/src/context.rs:732-757 | a version's timestamp is that of the one block that holds it |
| `Rendering.SequentialMatchesLookups` | api/src/context.rs:700-757 | one pass agrees with a lookup per transaction on every contiguous range if and only if metadata carries its block's timestamp and a block without metadata repeats the one before |
| `Rendering.StampsAreLookups` | api/src/transactions.rs:887-901 | from the timestamp of the first version's block, the running timestamp is every transaction's block timestamp |
| `Rendering.TipIsBlockEnd` | api/src/context.rs:325-366 | the reported tip is a block end, not past storage, and past the indexer exactly when that is mid-block |
| `Rendering.TipPastIndexer` | api/src/context.rs:325-366 | two blocks, storage at the end of the second and the indexer inside it: the tip is past the indexer |
| `Rendering.TipMonotone` | api/src/context.rs:325-366 | the reported tip never goes back |
| `EventTranslation.TranslateForSimulation` | api/src/context.rs:990-1016 | events before the first failure are translated in place with their rank among the key's events added, the rest are left alone |
| `EventTranslation.TranslationIs` | api/src/context.rs:990-1016 | what each event becomes and when it fails, with the number of earlier events of its key |
| `EventTranslation.FirstKeepsNumber` | api/src/context.rs:990-1016 | the first event of a key gets the indexer's own number |
| `EventTranslation.Consecutive` | api/src/context.rs:990-1016 | neighbouring events of a key get consecutive numbers exactly when the indexer gives both one next number |
| `EventTranslation.NumbersIncrease` | api/src/context.rs:990-1016 | with one next number per key, later events of a key get greater numbers |
| `Calibration.Calibrate` | testsuite/single_node_performance_calibration.py:374-457 | unchanged, rewritten or crashed, as the verdicts on all rows say, with the lines written |
| `Calibration.Classify` | testsuite/single_node_performance_calibration.py:374-436 | whether a band divides by zero, whether any row forces a rewrite, and which keys are kept |
| `Calibration.WriteRows` | testsuite/single_node_performance_calibration.py:447-457 | the lines of the rows before the first that cannot be written, kept rows with their old values |
| `Calibration.LoadKeys` | testsuite/single_node_performance_calibration.py:130-141 | the calibrated tests are those with a line in the file |
| `Calibration.LoadIs` | testsuite/single_node_performance_calibration.py:130-141 | the last line of a key in the calibrated file counts |
| `Calibration.VerdictExactlyWhen` | testsuite/single_node_performance_calibration.py:374-436 | when a row divides by zero, forces a rewrite, or is kept for lack of samples |
| `Calibration.RewrittenLines` | testsuite/single_node_performance_calibration.py:447-457 | a rewritten file has one line per measured row, with its own values unless its key is kept |
| `Calibration.BreaksExactlyWhen` | testsuite/single_node_performance_calibration.py:447-457 | a row cannot be written exactly when it has no key, or lacks a column and is not kept |
| `Calibration.TpsBandExactlyWhen` | testsuite/single_node_performance_calibration.py:36-43 | the throughput band without divisions, for either sign of the count |
| `Calibration.WallTimeBandExactlyWhen` | testsuite/single_node_performance_calibration.py:46-55 | a wall time may be fifteen percent and two microseconds off, or as far off as the ratios say |
| `Calibration.SecondRunUnchanged` | testsuite/single_node_performance_calibration.py:374-457 | after a rewrite a second run changes nothing if and only if every blocking row not kept is within its own band or has too few samples |
| `Calibration.OwnTpsBand` | testsuite/single_node_performance_calibration.py:36-43 | a row is within its own throughput band exactly when its ratios straddle one up to 1 / (count + 10) |
| `Calibration.OwnWallTimeBand` | testsuite/single_node_performance_calibration.py:46-55 | a non-negative wall time is within its own band |
| `Calibration.OrdinaryRowsSettle` | testsuite/single_node_performance_calibration.py:374-457 | rows with parsed cells, positive counts and ratios around one settle after one run |
| `Calibration.OutcomeExactlyWhen` | testsuite/single_node_performance_calibration.py:374-457 | which of the four outcomes a run has, both ways, and that writing stops at the first row that cannot be written |
| `Calibration.NewTestTruncates` | testsuite/single_node_performance_calibration.py:447-457 | an incomplete row of a new test forces a rewrite that fails before its own line |
| `Calibration.OneRowTruncates` | testsuite/single_node_performance_calibration.py:447-457 | one keyless row, or one incomplete row of a new test, with no file to begin with |
| `Calibration.MissingKeyTruncates` | testsuite/single_node_performance_calibration.py:447-457 | a row without a key column forces a rewrite that fails before its own line |
| `GasMultiplier.FormatInt` | aptos-move/aptos-gas-schedule/apply_gas_multiplier.py:87-96 | the loop over chunks gives the grouping from the right |
| `GasMultiplier.FormatRoundTrip` | aptos-move/aptos-gas-schedule/apply_gas_multiplier.py:87-96 | a formatted integer without its underscores reads back as itself |
| `GasMultiplier.GroupSizes` | aptos-move/aptos-gas-schedule/apply_gas_multiplier.py:87-96 | every group but the leftmost has the group size, and that one between one digit and the group size |
| `GasMultiplier.RewriteScales` | aptos-move/aptos-gas-schedule/apply_gas_multiplier.py:123-136 | a rewritten literal is a literal of the scaled value rounded down |
| `GasMultiplier.RewriteStyle` | aptos-move/aptos-gas-schedule/apply_gas_multiplier.py:123-136 | a literal of the same value stays as written; otherwise underscores are kept or left out as before, in groups of four for fees and three for the rest |
| `GasMultiplier.Scale` | aptos-move/aptos-gas-schedule/apply_gas_multiplier.py:123-124 | the multiple is rounded down |
| `GasMultiplier.StrOfValue` | aptos-move/aptos-gas-schedule/apply_gas_multiplier.py:87-90 | every digit string without leading zeros is the decimal string of its value |
| `GasMultiplier.NoLeadingZero` | aptos-move/aptos-gas-schedule/apply_gas_multiplier.py:87-90 | a decimal string has no leading zero |
| `GasMultiplier.ScaleAndBack` | aptos-move/aptos-gas-schedule/apply_gas_multiplier.py:123-136 | scaling by n and back restores the value, and the text if and only if nothing was scaled or the grouping was canonical |
| `GasMultiplier.UnusualGroupingIsLost` | aptos-move/aptos-gas-schedule/apply_gas_multiplier.py:123-136 | a literal whose text is not restored |

## Left out

- Consensus across epochs, when or whether commits happen under timing assumptions, the block tree, pending votes, randomness and the decoupled execution pipeline: agreement is proved within one epoch.
- `sign_proposal` and `sign_commit_vote`: they do not enter the agreement argument.
- Gas estimation when disabled or statically overridden: returns a configured value.
- Poisoned locks: a panic while a lock is held is not modelled.
- Lock fairness and liveness: the interleavings say what may happen, not that every caller finishes.
- Expansion of resource groups into their members after a page is cut: it maps items one by one and does not affect cursors.
- State keys that appear between two pages of one listing: the store is fixed for a listing.
- Conversion of transactions and events to their JSON forms: an arbitrary function that may fail.
- Translation of events of committed transactions: a lookup per event with no counting.
- The regular expression that finds entries in gas-schedule files, negative multipliers and a zero denominator.
- The calibration changelog, the counters printed, and float values that are not numbers.
- EpochCache.ReturnsOwnEpoch: the two caches are one model with a value that may start absent or as a default.
- Mempool, storage engine, state sync, executor, networking, the Move VM, HTTP plumbing and node start-up.
