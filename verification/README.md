# Veridex: a verified model

Veridex runs agents over recorded or live match markets, scores them against the closing line, anchors what
happened in Merkle roots and shows public boards. This project models the parts of that program where a wrong
step would be quiet: the store every service shares, the wire protocol of the public smoke check, the scores
and boards, the proof roots, and the time-series and order-book code behind the market-maker research. Each
part is written in the form the program has (an object with fields is a class, a loop is a loop), every method
is proved against a specification function, and the lemmas are about those functions.

| part | files |
|---|---|
| The store as a state machine: competitions, event log, leases, attempts, identities, projected rows | `InMemoryStore.dfy`, `Competitions.dfy`, `CompetitionRows.dfy`, `ConfigRewrites.dfy`, `RuntimeEvents.dfy`, `Leases.dfy`, `PublicAgents.dfy`, `BackfillEdits.dfy`, `LinkWriters.dfy`, `StoreClients.dfy` |
| RFC 6455 frames, message reassembly, the replay verdict | `Frames.dfy`, `Messages.dfy`, `WebSocketConnection.dfy`, `SmokeReplay.dfy` |
| Scores, boards, the public projection | `Ranking.dfy`, `Grouping.dfy`, `Scoring.dfy`, `Leaderboard.dfy`, `Pooling.dfy`, `PooledMeans.dfy`, `Projection.dfy`, `PublicBoards.dfy` |
| Merkle roots | `Merkle.dfy` |
| Look-ahead-free time series | `ArrivalLeads.dfy`, `LeadLagProbe.dfy`, `FvHistory.dfy`, `Cadence.dfy` |
| Streaming books | `BookSeries.dfy`, `TopOfBook.dfy`, `Coverage.dfy`, `SxBook.dfy`, `SxQuotes.dfy`, `ServedQuotes.dfy` |
| Shared: results and sequences, a stable sort, folds | `Prelude.dfy`, `Sorting.dfy`, `Folds.dfy` |

How the model reads the program:

- A store method has no `await` inside, so one call is one atomic step. "Any callers in any interleaving" is
  therefore any sequence of calls. A raised exception is a returned fault, and a refused call changes nothing.
- Protocols with awaits between store calls (the backfill, a polling client, the read of the public board) are
  runs of small steps that may interleave at every await; a backfill pass may also stop at any of them.
- Floats are exact reals; ids, basis points and milliseconds are integers; clocks, random bytes and what a peer
  sends are inputs.
- Hashes are free terms: distinct inputs have distinct hashes by construction, and nothing is assumed.
- A parameter stands for code that is not part of this model: the UTF-8 decoder, the minting function, the book
  maintainer, the top-of-book normaliser, the reading of an SX order's fields as an offer.

Where the program and its own words part, the model follows the program and the exact condition is proved:

- Merkle roots bind a list only for a known length; `[x, y, z]` and `[x, y, z, z]` share a root
  (`Merkle.LengthsCollide`, `Merkle.DomainRootsAgreeExactly`).
- Re-persisting projected rows is harmless exactly when no two rows of a run carry one public id
  (`Projection.RepersistIsHarmlessExactly`, `PublicBoards.TwoRuntimeAgentsClash`).
- SX deltas may be reordered and repeated on a given book exactly when, among the orders that book would heed,
  each hash has one newest active order and no removal as new as it, because no tombstones are kept
  (`SxBook.ReorderableExactly`); on every book, exactly when that holds of all the orders of the batch
  (`SxBook.ReorderableEverywhereExactly`).
- A competition's run id is meant to be set exactly while it is claimed, and to be the last winner's. The start
  route (`POST /competitions/{competition_id}/start`, veridex/competition/service.py:502-504) writes the status
  and then the run id without comparing: after the first write the record runs with no run id, and racing an
  arena claim it overwrites the winner's (`Competitions.StartLeavesNoRunId`,
  `Competitions.StartOverwritesTheWinner`). The exact condition on the calls is proved for each property; the
  compare-and-set callers meet it (`Competitions.GuardedCallersRaceSafely`,
  `Competitions.GuardedClaimFreezesExactly`).
- The Postgres config rewrite says it can never drop the frozen replay identity (veridex/store.py:2716-2719), but
  reads the row without locking it. It drops the binding exactly when its read saw none and a freeze lands before
  its write (`CompetitionRows.RewriteLosesBindingExactly`, `CompetitionRows.LostBindingIsReplaced`). With any
  number of rewrites in flight the row is bound by the earliest freeze on its line of descent, so the first
  freeze is lost exactly when a rewrite on that line steps over it, and a later write may bring it back
  (`ConfigRewrites.FirstFreezeLostExactly`, `ConfigRewrites.LostAndBroughtBack`).
- A backfill pass touches no linked instance, but one that looked before the link was made and persists later
  writes the legacy identity over an edit made in between (`BackfillEdits.EditSurvivesExactly`,
  `BackfillEdits.ThreatIsReached`), and one that looked before another writer linked the instance links it to the
  legacy agent (`LinkWriters.LinkSurvivesExactly`, `LinkWriters.SeedLinkIsContested`).
- The board averages the valid percentage and the Brier score over runs without weights. They are those of all the
  agent's rows exactly when they do not vary, over its runs, with the number of rows behind them
  (`PooledMeans.ValidPctPoolsExactly`, `PooledMeans.BrierPoolsExactly`).
- Rows with a null receive time are said to be skipped by every builder
  (scripts/maker/pmxt_archive_pull.py:427-433); the book reconstruction raises on one instead
  (`BookSeries.ReconstructBookSeries`).
- The size an SX quote shows depends on the order of the orders exactly when orders of different size tie at
  the touch (`SxQuotes.QuoteIgnoresOrderExactly`, `SxQuotes.TiedSizesShowTheFirst`). So a batch of deltas that may
  be reordered leaves the prices served alone, and the sizes exactly when the offers that some order of the
  batch shows first have one size (`ServedQuotes.ReorderedPrices`, `ServedQuotes.ServedQuoteExactly`).
- `analyze_samples` says no change event spans a gap. That holds of the cadence deltas; the series it hands to
  the probe runs the segments together, so there it holds exactly when the mid is the same on both sides of
  every break (`Cadence.ProbeSeriesSpansNoBreakExactly`, `Cadence.ProbeSeriesMaySpanABreak`).
- Change events rebuild the mids of a series exactly when no time carries two mids
  (`LeadLagProbe.CompressionIsLossless`, `LeadLagProbe.TwoMidsAtOneTime`); a collapsed tape always meets that
  (`ArrivalLeads.SeriesCompressesLosslessly`).

## Model

| member | source | states |
|---|---|---|
| Frames.BigEndianRoundTrip | scripts/smoke_public_ws.py:256-259 | an extended length written in network byte order is read back as the same number |
| Frames.FrameOfBytes | scripts/smoke_public_ws.py:244-267 | byte for byte, which frame is read, and otherwise which refusal leaves which bytes unread |
| Frames.MaskInvolutive | scripts/smoke_public_ws.py:280 | masking twice with one key is the identity (section 5.3 of RFC 6455), for every payload and key |
| Frames.XorBitwise | scripts/smoke_public_ws.py:280 | the masking byte is the exclusive or, bit by bit |
| Frames.ParseEncoded | scripts/smoke_public_ws.py:244-267 | decoding inverts every encoding a server may choose, in all three length forms, minimal or not, and leaves what follows untouched |
| Frames.ParsedWasEncoded | scripts/smoke_public_ws.py:244-267 | conversely, whatever the client decodes was on the wire in one of those forms and is a frame it may accept |
| Frames.ClientFramesOfOne | scripts/smoke_public_ws.py:269-282 | a server decoding one masked client frame gets back exactly its opcode and payload |
| Frames.ClientFramesConcat | scripts/smoke_public_ws.py:269-282 | written frames decode piecewise: earlier frames are never disturbed by later ones |
| WebSocketConnection.Connection.ReadExactly | scripts/smoke_public_ws.py:247-266 | n bytes and the rest left in the buffer, or a short read that drains it |
| WebSocketConnection.Connection.ReadFrame | scripts/smoke_public_ws.py:244-267 | the byte-by-byte reader is the frame decoder, with its refusals and the bytes each one leaves unread |
| WebSocketConnection.Connection.SendFrame | scripts/smoke_public_ws.py:269-282 | the peer, decoding all that was written, sees exactly this one final frame on top of what it saw before; on the wire, after the shortest header and four mask bytes, every bit of the payload is flipped exactly where its mask byte has a bit set |
| WebSocketConnection.Connection.Recv | scripts/smoke_public_ws.py:215-242 | the receive loop is the message specification: same text or failure, same unread bytes, and the peer reads one pong per ping with its payload, in order |
| WebSocketConnection.Connection.RecvEach | scripts/smoke_public_ws.py:340-355 | repeated receives up to the first failure: the texts, the failure, the bytes left and a pong for every ping read so far, in order |
| Messages.RecvAcceptsExactlyMessages | scripts/smoke_public_ws.py:215-242 | recv returns a text if and only if the reader starts with the wire form of a message carrying it (data frames in order, pings and pongs anywhere between), and it stops right after that message |
| Messages.RecvFailsExactly | scripts/smoke_public_ws.py:215-242 | recv fails in one way if and only if the reader starts with frames that leave a message open and then has what gives that failure; pings up to there are answered |
| Messages.StreamIsReceivedInOrder | scripts/smoke_public_ws.py:215-242 | any messages back to back, however fragmented, come back once each and in order, and every ping is answered in order |
| Messages.BrokenStreamKeepsItsTexts | scripts/smoke_public_ws.py:215-242 | where a stream of messages breaks, the texts and pongs before it stand, followed by the failure |
| SmokeReplay.ValidateCanonical | scripts/smoke_public_ws.py:106-117 | the pass over the tail accepts exactly the tails of at least two and at most 10,000 events whose sequence numbers strictly increase, and says which of the three it is not |
| SmokeReplay.MissingTail | scripts/smoke_public_ws.py:346 | what is owed after the first event is the canonical tail without its head |
| SmokeReplay.RunPublicWsSmoke | scripts/smoke_public_ws.py:311-368 | the check passes if and only if the server delivered the first event, then exactly the missing tail in order and unchanged, then stayed quiet; the reported numbers are all the canonical ones; each failure names what the server did, and the final duplicate check never fires |
| Merkle.MerkleRoot | veridex/chain/merkle.py:29-45 | the in-place level-folding loop computes the root of the padded tree |
| Merkle.RootIsPerfect | veridex/chain/merkle.py:29-45 | that root is the perfect binary tree over the list padded by level-wise repetition of the last node |
| Merkle.PaddedStartsWithLeaves | veridex/chain/merkle.py:42-43 | padding only appends |
| Merkle.RootBindsEqualLengths | veridex/chain/merkle.py:29-45 | for one length, equal roots if and only if equal lists |
| Merkle.DomainRootsAgreeExactly | veridex/chain/merkle.py:48-50 | across lengths, two record lists share a root exactly when both are empty or their padded lists agree |
| Merkle.LengthsCollide | veridex/chain/merkle.py:42-43 | a concrete pair of lists of different length with one root |
| Merkle.ForestBinds | veridex/chain/merkle.py:53-82 | given the domain lengths, a forest commits to every record of every domain, in order |
| Merkle.EachRootBindsItsDomain | veridex/chain/merkle.py:53-82 | every root of the forest commits to its own domain and to no other |
| Merkle.SmallRoots | veridex/chain/merkle.py:19-50 | the roots of no, one and two records, spelled out |
| Competitions.RunKeepsExactly | veridex/store.py:1255-1390 | over any calls, every record keeps distinct agents within its cap and a run id exactly while claimed, throughout, if and only if every call is harmless to the record it finds |
| Competitions.ClaimsAlternateExactly | veridex/store.py:1319-1361 | over any calls of any callers, claims and releases of a competition alternate and its run id is always the last winner's, if and only if no call claims a held one, releases a free one or writes another run id |
| Competitions.RosterFrozenExactly | veridex/store.py:1285-1361 | from a claim on, roster, run id and closed status are kept throughout if and only if every call respects the claim, which a guarded call does unless it gives the claim back |
| Competitions.GuardedMeetsAll | veridex/api/router.py:1661-1749 | a compare-and-set caller's call is harmless and fair, and respects a claim unless it is the give-back |
| Competitions.GuardedCallersRaceSafely | veridex/api/router.py:1661-1749 | however many compare-and-set callers race, at every moment every record is well kept, and claims and releases of every competition alternate with the last winner's run id stored |
| Competitions.GuardedClaimFreezesExactly | veridex/api/router.py:1661-1749 | among them a claim keeps roster, run id and closed status throughout exactly when nobody gives it back |
| Competitions.StartLeavesNoRunId | veridex/competition/service.py:500-504 | the start route's first write leaves an unclaimed competition running with no run id |
| Competitions.StartOverwritesTheWinner | veridex/competition/service.py:500-504 | racing an arena claim, the start route replaces the winner's run id by its own |
| Competitions.FirstBindingWinsForever | veridex/store.py:1377-1390 | over any calls at all, the stored binding is the first one ever frozen, and the owner never changes |
| CompetitionRows.BuildInsert | veridex/store.py:1100-1161 | writing a competition with its riders folded into the config blob and reading it back is the identity |
| CompetitionRows.BlobIs | veridex/store.py:1100-1161 | the blob holds the config's own fields and the two riders under their keys |
| CompetitionRows.ApplyRowSimulates | veridex/store.py:2558-2772 | each row update, with its refusals, does to the read-back record what the in-memory method does |
| CompetitionRows.StepSimulates | veridex/store.py:2493-2772 | one transaction simulates one in-memory step on the whole table, fault for fault |
| CompetitionRows.RunSimulates | veridex/store.py:2493-2772 | over any run the Postgres rows read back as the in-memory records |
| CompetitionRows.RidersSurvive | veridex/store.py:2493-2772 | no sequence of whole transactions drops the owner or a frozen binding from the blob |
| CompetitionRows.RewriteInOneStep | veridex/store.py:2703-2738 | the rewrite's read and write back to back are its one-step form |
| CompetitionRows.RewriteLosesBindingExactly | veridex/store.py:2703-2738 | whatever commits between the rewrite's unlocked read and its write, the owner is kept, and the binding is lost exactly when the read saw none and a freeze landed in between |
| CompetitionRows.LostBindingIsReplaced | veridex/store.py:2740-2772 | after such a loss the next freeze binds the competition to another identity |
| ConfigRewrites.RewritesBindByLine | veridex/store.py:2703-2772 | however transactions and the halves of any number of rewrites interleave, the owner stays, a bound row stays bound as it was, and any other is bound by the earliest freeze on its line of descent |
| ConfigRewrites.FirstFreezeLostExactly | veridex/store.py:2703-2772 | the first freeze is kept unless a rewrite on that line read before it and wrote after it; then the row is unbound or bound by a later freeze |
| ConfigRewrites.LostExactlyWhenSteppedOver | veridex/store.py:2703-2772 | when no later freeze repeats it, its binding is gone if and only if it was stepped over so |
| ConfigRewrites.LostAndBroughtBack | veridex/store.py:2703-2738 | two rewrites around one freeze: the first to write loses the binding, the second restores it |
| RuntimeEvents.LogStoresFirstOccurrences | veridex/store.py:1596-1628 | after any deliveries, replays and in-batch duplicates included, the log is the first occurrence of each uuid, numbered from 1 |
| RuntimeEvents.ActConsistent | veridex/store.py:1596-1662 | every append and every poll keeps: pages so far are exactly the events in scope up to the cursor |
| RuntimeEvents.CursorLosesAndRepeatsNothing | veridex/store.py:1596-1662 | under any interleaving the polled pages are a prefix of the deduplicated feed of an agent or a run, an unlimited poll catches up, and the returned counts add up to the rows stored |
| RuntimeEvents.PollTakesNext | veridex/store.py:1630-1664 | a poll with limit n returns exactly the next n events of the feed, or what is left of it; a negative limit leaves that many |
| RuntimeEvents.ListExactly | veridex/store.py:1630-1664 | a read returns stored events of its agent or run past the cursor, in id order, and without a limit all of them |
| Leases.OneAcquireEver | veridex/store.py:1947-1961 | over any calls at most one acquire per instance ever succeeds |
| Leases.LeaseOnlyAdvances | veridex/store.py:1968-2009 | a lease keeps its pinned ids, never falls in rank, and never changes once terminal |
| Leases.TransitionMeans | veridex/store.py:1968-2009 | which lease may move where: on from starting, from active to an end, to its own status without effect, and never back |
| Leases.LedgerOnlyAdvances | veridex/store.py:1843-1926 | ledger entries stay, keep their claim, only move later in the saga, take an external id at most once, and a key has one claim |
| Leases.AtMostOneWinner | veridex/store.py:1892-1926 | of any workers racing to advance an attempt from one status at most one ever wins |
| Leases.StagesInOrder | veridex/deploy/attempt.py:31-66 | a stage is later exactly when it comes after in the declared saga |
| Leases.AdvancedMeans | veridex/store.py:1892-1926 | a successful advance sets the status and stores a first external id, and nothing else of the entry changes; each refusal has its one cause |
| PublicAgents.InterleavingsKeep | veridex/public_agent_backfill.py:52-72 | passes that start, interleave at every await and crash anywhere, beside deployments and instance updates, never raise and keep the store honest: earlier links untouched, every new link to its own legacy agent |
| PublicAgents.FinishedPassHasLinked | veridex/public_agent_backfill.py:52-72 | a pass that reaches its end amid any of that has linked every instance it listed |
| PublicAgents.CompletePassFinishes | veridex/public_agent_backfill.py:52-72 | after any crashes, one complete pass leaves every instance linked with one private, unknown-origin user agent each for the newly linked, named and owned as the instance says, counts what was unlinked, and a further pass is a no-op returning 0 |
| PublicAgents.NothingLeftToDo | veridex/public_agent_backfill.py:53-55 | a pass over linked instances changes nothing |
| PublicAgents.UninterruptedPassIsTheLoop | veridex/public_agent_backfill.py:52-72 | run step by step with nothing in between, a pass is the loop: same store, same count, same fault |
| PublicAgents.StepLosesOnlyRaised | veridex/public_agent_backfill.py:52-72 | a pass in flight is lost only to a crash or to a refused link, which is counted as raised |
| BackfillEdits.EditsDoNotDisturb | veridex/store.py:1751-1789 | with visibility and name edits at any point, passes, links and the set of agents evolve as without them |
| BackfillEdits.EditedRunsKeepLinks | veridex/public_agent_backfill.py:52-72 | so no pass raises and earlier links stay, edits or no edits |
| BackfillEdits.EditSurvivesExactly | veridex/public_agent_backfill.py:53-70 | an edit of a linked instance's agent survives every continuation exactly when no pass has looked at the instance before the link and is yet to persist it |
| BackfillEdits.ThreatIsReached | veridex/public_agent_backfill.py:53-70 | two passes over one unlinked instance reach the state in which an edit will be reverted |
| LinkWriters.WritersMakeNoPassRaise | veridex/public_agent_backfill.py:53-71 | whoever else edits agents, updates instances or links them, no pass ever raises |
| LinkWriters.LinkSurvivesExactly | veridex/public_agent_backfill.py:53-71 | a link made by another writer survives every continuation exactly when no pass stands between its look and its link of that instance |
| LinkWriters.SeedLinkIsContested | veridex/seed/official_replay_league.py:424-455 | a pass looks, the league seed links the instance to its official agent, and that link is one of the lost ones |
| StoreClients.BackfillPublicAgents | veridex/public_agent_backfill.py:34-72 | the loop over the mutable store is that specification on the listing it took, with its count |
| StoreClients.MintAndLink | veridex/public_agent_backfill.py:56-70 | persist then link, back to back, cannot fail; the agent stored is private, of unknown origin and class user, named and owned as the instance says, in version 1 |
| StoreClients.DirectionalBoard | veridex/public_projection.py:145-168 | the read is the board specification on the listing it took and on the agents as each was found by its one lookup, whatever others change in between |
| InMemoryStore.Store.CreateCompetition | veridex/store.py:1255-1267 | the new table and the fault are the step of the competition model |
| InMemoryStore.Store.AddAgentEntryGuarded | veridex/store.py:1285-1303 | admission is the guarded step: status, duplicate and cap checks in that order |
| InMemoryStore.Store.ClaimCompetitionRun | veridex/store.py:1319-1332 | the compare-and-set claim is the step of the model |
| InMemoryStore.Store.ReleaseCompetitionRun | veridex/store.py:1334-1347 | the compare-and-set release is the step of the model |
| InMemoryStore.Store.UpdateCompetitionStatus | veridex/store.py:1305-1317 | the status write is the step of the model |
| InMemoryStore.Store.UpdateCompetitionRunId | veridex/store.py:1349-1361 | the run-id write is the step of the model |
| InMemoryStore.Store.UpdateCompetitionConfig | veridex/store.py:1363-1375 | the config rewrite is the step of the model |
| InMemoryStore.Store.UpdateCompetitionReplayBinding | veridex/store.py:1377-1390 | the write-once freeze is the step of the model |
| InMemoryStore.Store.AppendRuntimeEvents | veridex/store.py:1596-1628 | the loop over list, counter and uuid set is the append of the log model, and returns the growth of the log |
| InMemoryStore.Store.ListRuntimeEvents | veridex/store.py:1630-1664 | filter, sort and slice is the cursor read of the log model |
| InMemoryStore.Store.AcquireInstanceLease | veridex/store.py:1947-1961 | insert-only acquire is the lease step |
| InMemoryStore.Store.ReleaseInstanceLease | veridex/store.py:1968-1990 | a transition is the lease step and returns the lease it leaves |
| InMemoryStore.Store.PersistDeploymentAttempt | veridex/store.py:1843-1858 | insert-once per operator and key is the ledger step |
| InMemoryStore.Store.AdvanceDeploymentAttempt | veridex/store.py:1892-1926 | find, compare, advance and rewrite in place is the ledger step: the first entry of that id takes the status and keeps or takes its external id, or one of four refusals changes nothing |
| InMemoryStore.Store.PersistAgentInstance | veridex/store.py:1666-1672 | the upsert of an instance, which keeps every instance filed under its own id |
| InMemoryStore.Store.SetPublicAgentVisibility | veridex/store.py:1751-1769 | only the visibility, the time and the version of a stored agent change; an absent one is refused |
| InMemoryStore.Store.LinkInstancePublicAgent | veridex/store.py:1807-1822 | linking is the identity step, with its two refusals |
| InMemoryStore.Store.PersistProjectedRows | veridex/store.py:1793-1801 | the keyed upsert is the fold of the projection model and keeps every row filed under its own key |
| Ranking.KeyLeIsTotalOrder | veridex/leaderboard.py:204-231 | the rank key with None last is a strict total order: different keys never tie |
| Ranking.SortKeys | veridex/scoring.py:218-240 | sorting rows by key sorts their keys, so nothing else about a row can move it |
| Ranking.SortedByKeyIsUnique | veridex/leaderboard.py:286-297 | rows with distinct keys have one sorted arrangement |
| Scoring.MaxDrawdown | veridex/scoring.py:121-140 | the one-pass loop computes the drawdown specification |
| Scoring.DrawdownIsWorstChange | veridex/scoring.py:121-140 | that is the least prefix[j] - prefix[i] over all i <= j, and some pair attains it |
| Scoring.DrawdownOfConcat | veridex/scoring.py:121-140 | joining two series can only deepen the drawdown of each |
| Scoring.JoinedDrawdownIsWorse | veridex/scoring.py:121-140 | the drawdown of series end to end is never less severe than that of any one of them |
| Scoring.BrierLoop | veridex/scoring.py:143-163 | the loop is the mean squared error over exactly the scored rows with a usable confidence, or None |
| Scoring.ScoreRun | veridex/scoring.py:243-275 | grouping, measuring, sorting and ranking gives one ranked row per participant, higher average CLV first and so on down the key |
| Pooling.ScoresAreRanked | veridex/scoring.py:269-275 | those rows are the participants' metrics, best first in the strict rank order, each participant once |
| Scoring.MetricsAreTotals | veridex/scoring.py:167-207 | every pooled figure of an agent is a sum of one contribution per row, whatever the row order |
| Scoring.OneMoreRow | veridex/scoring.py:167-207 | what one more row adds to each sum and count: valid rows with a whole CLV count, and windows by themselves |
| Scoring.MeansOfSums | veridex/scoring.py:167-207 | the means are the sums over the counts, None for none, and the percentage is of all rows |
| Scoring.ScoredInTickOrder | veridex/scoring.py:121-140 | the drawdown runs over exactly the scored rows, in tick order |
| Leaderboard.BuildLeaderboard | veridex/leaderboard.py:239-297 | grouping, aggregating, sorting and writing ranks gives the board, ranks 1..N: higher average CLV first with None last, then higher total, lower Brier with None last, milder drawdown, more actions, smaller id |
| Leaderboard.BoardIgnoresRecordOrder | veridex/leaderboard.py:239-297 | any permutation of the records gives the same board, rows, order and ranks |
| Leaderboard.BoardIsTheRankedRows | veridex/leaderboard.py:286-297 | the board holds exactly one row per agent in strict rank order |
| Leaderboard.OnlyRankFieldsDecideTheOrder | veridex/leaderboard.py:123-231 | anchor, proof-mode, source-mode, validity and window fields never move an agent |
| Pooling.PoolsToTotal | veridex/leaderboard.py:137-159 | an additive figure summed over runs is the figure over all rows |
| Pooling.PoolingIsHomomorphic | veridex/leaderboard.py:137-159 | aggregating an agent's per-run scores has the CLV, action, validity and window figures of measuring all runs' rows at once |
| Pooling.BoardPoolsTheWholeRun | veridex/leaderboard.py:137-159 | every row of the board is, in these figures, a row of score_run over all the runs as one |
| Pooling.BoardDrawdownIsNoWorse | veridex/leaderboard.py:161-162 | the drawdown the board shows is one run's own, at least as severe as every other run's, and never more severe than that of all the agent's runs end to end |
| Pooling.BoardRowIsProven | veridex/leaderboard.py:43-78 | a row is fully, partly or not proven, and anchored, by whether all, some or none of its agent's runs are |
| Pooling.BoardRowSource | veridex/leaderboard.py:81-104 | its source mode is that of the runs that say one, mixed if they differ, unknown if none does |
| Pooling.BoardRowProofMode | veridex/leaderboard.py:107-121 | its proof mode is the one all its runs share, or mixed |
| PooledMeans.MeansAgreeExactly | veridex/leaderboard.py:164-169 | a plain mean of run means is the weighted one exactly when mean and weight do not vary together |
| PooledMeans.TwoRunsAgreeExactly | veridex/leaderboard.py:164-169 | over two runs that is: equal weights or equal means |
| PooledMeans.ValidPctPoolsExactly | veridex/leaderboard.py:164-165 | the board's valid percentage is that of all the agent's rows exactly when, over the runs it played, the percentage does not vary with its number of rows |
| PooledMeans.BrierPoolsExactly | veridex/leaderboard.py:167-169 | its Brier score is that of all its rows exactly when, over the runs that have one, the score does not vary with the number of rows it averages |
| PooledMeans.BrierOneMore | veridex/scoring.py:143-163 | one more rated row adds the square of its miss, from 1 on a risen closing line and from 0 otherwise; no other row moves the score |
| PooledMeans.BrierZeroExactly | veridex/scoring.py:143-163 | the score is 0 exactly when every rated row was sure of the rise or sure against it, rightly |
| Projection.ProjectPublicRows | veridex/public_projection.py:52-105 | fail-closed: every row is bound and copied under its public id in order, all its other fields kept, or nothing is and the first unbound agent is named |
| Projection.RepersistIsHarmlessExactly | veridex/store.py:1793-1801 | persisting already projected rows again, in any order and number, changes nothing exactly when no two of them clash |
| Projection.NameLookupSucceedsExactly | veridex/public_projection.py:145-168 | the name lookup never fails exactly when every kept row is grouped under a kept public id |
| Projection.BoardShowsListedAgents | veridex/public_projection.py:145-168 | for projected rows the board is never refused and shows exactly the public (official, on the benchmark) agents with a row, each once, under its current name and in rank order |
| Projection.BoardIgnoresListingOrder | veridex/store.py:1803-1805 | the order in which the store lists its rows does not matter |
| Projection.HidingIsDeleting | veridex/public_projection.py:155-161 | hiding an agent gives the board deleting its rows would give |
| Projection.UnhidingRestores | veridex/store.py:1751-1769 | making it public again restores the board exactly |
| PublicBoards.PublishedBoard | veridex/public_projection.py:85-168 | whatever runs were projected and persisted, the board over any listing is never refused and shows listed agents only, each once |
| PublicBoards.PublishedHolds | veridex/public_projection.py:85-105 | a run whose mode is known and whose rows are bound is stored under its run and public ids and touches no other run; any other changes nothing |
| PublicBoards.TwoRuntimeAgentsClash | veridex/public_projection.py:86-103 | two runtime agents of a run under one public id give clashing rows, and persisting the first again takes the second's place |
| PublicBoards.ResolvedAtFirstRow | veridex/public_projection.py:150-155 | each public id is resolved once, to what the store held when its first row was reached |
| PublicBoards.ShownAgentsWerePublicWhenLookedUp | veridex/public_projection.py:150-161 | however agents change during the read, every agent shown was public (official, on the benchmark) when looked up, and has the name it had then |
| PublicBoards.SteadyAgentsGiveTheirBoard | veridex/public_projection.py:145-168 | if nothing changes during the read, it is the board on those agents |
| FvHistory.BisectLeft | scripts/maker/live_monitor.py:228 | binary search finds the boundary of the earlier timestamps |
| FvHistory.History.Insort | scripts/maker/live_monitor.py:220-233 | inserting into the two parallel lists keeps them strictly ascending and is the map update |
| FvHistory.Consume | scripts/maker/live_monitor.py:220-233 | after any arrivals the lists are the last-arrival-wins map |
| FvHistory.LayoutIsUnique | scripts/maker/live_monitor.py:220-233 | the lists are determined by that map |
| FvHistory.DistinctArrivalsCommute | scripts/maker/live_monitor.py:220-233 | arrivals with distinct timestamps commute |
| FvHistory.History.AlignedMid | veridex/maker/tape.py:64-89 | the lookup returns the most recent value at or before the tick with its staleness, or nothing if too stale |
| FvHistory.AlignedIsUnique | veridex/maker/tape.py:64-89 | that answer is unique |
| FvHistory.NoLookAhead | scripts/maker/live_monitor.py:220-233 | whatever arrives for later timestamps, the lookup at a tick answers the same |
| Cadence.SplitSegments | scripts/maker/live_monitor.py:460-471 | the running-segment loop yields the liquid runs |
| Cadence.SegmentsAreTheLiquidRuns | scripts/maker/live_monitor.py:460-471 | the segments are exactly the maximal liquid runs, in order |
| Cadence.SegmentsHoldTheLiquidRows | scripts/maker/live_monitor.py:473 | run together they are the liquid rows, none lost or repeated, in order |
| Cadence.CadenceDeltas | scripts/maker/live_monitor.py:481-489 | the nested loops collect the deltas of each segment's change events |
| Cadence.NoDeltaSpansABreak | scripts/maker/live_monitor.py:436-443 | every delta is the non-negative time between two rows with nothing but liquid rows between |
| Cadence.EveryStepHasItsDelta | scripts/maker/live_monitor.py:481-489 | within a run of whole rows, the time from each change of the mid to the next is a delta |
| Cadence.ProbeSeriesSpansNoBreakExactly | scripts/maker/live_monitor.py:473-479 | the joined series has only the segments' own change events exactly when the mid is the same on both sides of every break |
| Cadence.ProbeSeriesMaySpanABreak | scripts/maker/live_monitor.py:436-443 | a concrete tape whose probe series has a change event across a gap |
| ArrivalLeads.CollapseToSeries | scripts/maker/ws_leadlag_monitor.py:259-291 | the nested index loops emit, at each distinct receive time, the latest value of each feed once both are known |
| ArrivalLeads.RowsOfSeries | scripts/maker/ws_leadlag_monitor.py:259-291 | there is a row at t exactly when t is a receive time by which both feeds have spoken, and it carries what the last report of each feed at or before t said; rows ascend strictly |
| ArrivalLeads.DirectArrivalLeads | scripts/maker/ws_leadlag_monitor.py:294-318 | the bisect loop scores each venue change against the last fair-value change not after it |
| ArrivalLeads.LeadOfOneChange | scripts/maker/ws_leadlag_monitor.py:294-318 | a lead is the least over changes not after the venue time, never negative, and 0 exactly when a change shares the millisecond |
| ArrivalLeads.LeadsAreNonNegative | scripts/maker/ws_leadlag_monitor.py:294-318 | no reported lead is negative |
| ArrivalLeads.LeadsOfTape | scripts/maker/ws_leadlag_monitor.py:294-318 | there is one lead, in order, for every venue event with a change of fair value not after it: the time since the last such change |
| ArrivalLeads.OrderedIsTheTape | scripts/maker/ws_leadlag_monitor.py:268 | both read the whole tape, by receive time and then sequence number |
| ArrivalLeads.TieNeutral | scripts/maker/ws_leadlag_monitor.py:259-318 | two sorted tapes with the same two feeds give the same series and leads, however the feeds interleave within a receive time |
| ArrivalLeads.TieNeutralAsRecorded | scripts/maker/ws_leadlag_monitor.py:259-318 | so do two recorded tapes, in any order and under any numbering across the feeds, whose feeds sorted on their own read the same |
| ArrivalLeads.SeriesCompressesLosslessly | scripts/maker/ws_leadlag_monitor.py:259-267 | the probe's compression loses no mid of a collapsed series |
| LeadLagProbe.CompressToChangeEvents | scripts/maker/leadlag_probe.py:117-145 | the loop with a standing mid is one event per row that differs from its predecessor; unequal lengths are refused |
| LeadLagProbe.CompressionIsLossless | scripts/maker/leadlag_probe.py:117-145 | for rows in time order, forward filling the events rebuilds every mid exactly when no time carries two mids |
| LeadLagProbe.TwoMidsAtOneTime | scripts/maker/leadlag_probe.py:117-145 | a two-row series that is not rebuilt |
| LeadLagProbe.MedianSplits | scripts/maker/leadlag_probe.py:167 | at least half the values lie on either side of the median |
| LeadLagProbe.MedianExactly | scripts/maker/leadlag_probe.py:167 | it is the middle value, or the mean of the two middle ones, of the values in order |
| LeadLagProbe.ExpandingMedianBasis | scripts/maker/leadlag_probe.py:148-171 | each basis is the median over strictly earlier events, None in warmup, and a non-positive warmup raises on the first event |
| LeadLagProbe.AnalyzeMarket | scripts/maker/leadlag_probe.py:219-251 | the three growing hit lists are the specification's, event by event |
| LeadLagProbe.SameHitsAre | scripts/maker/leadlag_probe.py:229-236 | one read for every event past warmup whose residual over its prior mid, less the median gap so far, clears the gate; a hit when it moved that way |
| LeadLagProbe.NextHitsAre | scripts/maker/leadlag_probe.py:236-239 | the same residual against the move of the next event |
| LeadLagProbe.PlaceboHitsAre | scripts/maker/leadlag_probe.py:240-243 | the residual over the mid after the move, against that move |
| LeadLagProbe.ProbeMeans | scripts/maker/leadlag_probe.py:219-251 | which list of the evidence is which, at a gate in basis points |
| LeadLagProbe.NoLookAhead | scripts/maker/leadlag_probe.py:117-251 | cutting a series anywhere leaves change events, bases and all three hit lists as prefixes of what the full series gives |
| LeadLagProbe.PlaceboHitsAreSameHits | scripts/maker/leadlag_probe.py:229-243 | a post-move hit is always a pre-move hit, and a pre-move miss a post-move miss |
| LeadLagProbe.PooledPlaceboNeverWins | scripts/maker/leadlag_probe.py:305-318 | over any markets the pooled placebo rate never exceeds the pooled same-change rate |
| BookSeries.ReconstructBookSeries | scripts/maker/pmxt_archive_pull.py:304-375 | the pending/flush pass over all tokens gives each token the simple form, for any maintainer; any row without a receive time makes the pull raise |
| BookSeries.MachineKeepsSurvivors | scripts/maker/pmxt_archive_pull.py:326-374 | the streaming machine outputs the gaps and, per segment and bucket, the last snapshot |
| BookSeries.RowsAreHonest | scripts/maker/pmxt_archive_pull.py:340-371 | every row comes from a frame of its token received in its bucket; a snapshot is the seeded book right after that frame, a gap marks a delta that found no book or a frame that lost one |
| BookSeries.RowsFollowFrames | scripts/maker/pmxt_archive_pull.py:331-374 | the rows stand in the order of their frames |
| BookSeries.BreaksAreReported | scripts/maker/pmxt_archive_pull.py:340-362 | every delta that finds no book and every frame that loses one yields a gap row |
| BookSeries.BooksAreReported | scripts/maker/pmxt_archive_pull.py:363-374 | every other frame that leaves a seeded book has a snapshot row of its bucket, its own or that of a later frame with no break between |
| BookSeries.SeriesInTime | scripts/maker/pmxt_archive_pull.py:331-342 | a token's timestamps never decrease |
| BookSeries.NoBucketIsLost | scripts/maker/pmxt_archive_pull.py:366-374 | every snapshot's bucket keeps a row of its own segment, also at end of stream |
| BookSeries.OneRowPerBucket | scripts/maker/pmxt_archive_pull.py:368-371 | a bucket has one snapshot row per segment |
| TopOfBook.BuildTopOfBookSeries | scripts/maker/pmxt_archive_pull.py:437-478 | exactly the last quote of every non-empty bucket, in ascending bucket order; no bucket is invented |
| TopOfBook.SeriesQuotesRows | scripts/maker/pmxt_archive_pull.py:437-478 | row by row: a quote is the last price change of its token received in its bucket, and every price change has one for its bucket |
| Coverage.SpanCoverageIsAFraction | scripts/maker/pmxt_archive_pull.py:639-649 | span coverage lies in [0, 1] and is 1 exactly when every spanned bucket is ok |
| Coverage.WindowCoverageIsAFraction | scripts/maker/pmxt_archive_pull.py:652-663 | for built series window coverage lies in [0, 1] and is 1 exactly when every bucket of the window has an ok quote received in it |
| Coverage.SpanCoverageIsTheShare | scripts/maker/pmxt_archive_pull.py:639-649 | span coverage times the spanned buckets is the number of distinct ok buckets |
| Coverage.WindowCoverageIsTheShare | scripts/maker/pmxt_archive_pull.py:652-663 | window coverage times the window's buckets is the number of them with an ok quote received in it |
| Coverage.SeriesStamped | scripts/maker/pmxt_archive_pull.py:463-467 | every quote of a built series carries the bucket it was received in |
| Coverage.OkBucketsAreOkRows | scripts/maker/pmxt_archive_pull.py:642-648 | on one row per bucket, distinct ok buckets are counted by ok rows |
| SxBook.MarketBook.Seed | scripts/maker/sx_bet_poller.py:648-656 | the book holds exactly the hashes some active order of the snapshot carries, each with the last such order, and every retained order is active under its own hash |
| SxBook.SeedIsServed | scripts/maker/sx_bet_poller.py:648-656 | so does the market serve after a publication that seeds it |
| SxBook.PublicationMeans | scripts/maker/sx_bet_poller.py:783-795 | a publication seeds an unseeded book if the seed comes, applies its deltas to that or to what is there, and touches no other book |
| SxBook.GapMeans | scripts/maker/sx_bet_poller.py:784-788 | a gap empties and unseeds every book |
| SxBook.OneDelta | scripts/maker/sx_bet_poller.py:658-672 | a stale order changes nothing, an active one is held, any other takes its hash out |
| SxBook.MarketBook.ApplyDeltas | scripts/maker/sx_bet_poller.py:658-672 | the delta loop is the fold of the specification and keeps that |
| SxBook.Consumer.OnFrame | scripts/maker/sx_bet_poller.py:783-795 | one frame is one step: a gap invalidates every book, a publication seeds an unseeded book and applies its deltas |
| SxBook.ReorderableExactly | scripts/maker/sx_bet_poller.py:658-672 | on a given book a batch means the same in every order and under repetition if and only if, among the orders the book would heed, each hash has one newest active order and its removals are older |
| SxBook.ReorderableEverywhereExactly | scripts/maker/sx_bet_poller.py:658-672 | it does so on every book if and only if each hash has one newest active order and all its removals are older |
| SxBook.NewerBookIgnoresTies | scripts/maker/sx_bet_poller.py:666-668 | two tied orders may be reordered on a book that holds a newer one and not on the empty book |
| SxBook.LateRemovalDepends | scripts/maker/sx_bet_poller.py:658-672 | on any book, a heeded removal at least as new as every active order wins if it comes last and loses if an active order follows |
| SxBook.NothingSurvivesAGap | scripts/maker/sx_bet_poller.py:784-788 | after a gap every market serves what it would had nothing been received before it |
| SxBook.ServedWasReceived | scripts/maker/sx_bet_poller.py:679-681 | every served order is active, under its own hash, and was received for that market |
| SxBook.ServedAfterGapIsNew | scripts/maker/sx_bet_poller.py:783-795 | every order served after a gap was received after it |
| SxQuotes.PricesIgnoreOrder | scripts/maker/sx_bet_poller.py:251-286 | bid, ask, mid and order count do not depend on the order of the orders |
| SxQuotes.AskShows | scripts/maker/sx_bet_poller.py:241-286 | the ask is what the longest odds on outcome two leave a taker to pay, with the size of the first such order; none exactly when no active order is on that side |
| SxQuotes.BidShows | scripts/maker/sx_bet_poller.py:241-286 | the bid is the longest odds on outcome one; the mid is half way, if both are there |
| SxQuotes.CountShows | scripts/maker/sx_bet_poller.py:251-286 | the count is of the active orders |
| SxQuotes.QuoteIgnoresOrderExactly | scripts/maker/sx_bet_poller.py:265-276 | the whole quote ignores that order exactly when offers tied at each touch show one size |
| SxQuotes.TiedSizesShowTheFirst | scripts/maker/sx_bet_poller.py:265-269 | two tied offers of different size, in one order and the other, show different sizes at one price |
| SxQuotes.SwappingOutcomesMirrors | scripts/maker/sx_bet_poller.py:251-286 | naming the outcomes the other way round mirrors the quote about 1 and swaps the sizes |
| SxQuotes.CrossedExactly | scripts/maker/sx_bet_poller.py:251-286 | the quote is crossed exactly when two makers on opposite outcomes together offer more than certainty |
| ServedQuotes.ListedIsTheBook | scripts/maker/sx_bet_poller.py:658-681 | the dictionary in its own order, after any deltas, lists exactly what the book holds, each hash once |
| ServedQuotes.ReorderedPrices | scripts/maker/sx_bet_poller.py:679-681 | a reorderable batch leaves bid, ask, mid and count of the quote served alone, in any order and under repetition |
| ServedQuotes.ServedQuoteExactly | scripts/maker/sx_bet_poller.py:251-286 | it leaves the whole quote alone exactly when, on each side, the offers at the touch that may come first have one size: those behind no other one that keeps its place in the dictionary |
| ServedQuotes.FreshQuoteExactly | scripts/maker/sx_bet_poller.py:251-286 | from an empty book: exactly when the offers tied at each touch show one size |

## Left out

- The network, TLS, the HTTP fetch and the WebSocket handshake; real clocks and timeouts are inputs.
- SHA-256, canonical JSON, pydantic validation and UTF-8: hashes are free terms, records are structured, the decoder is a parameter.
- Float rounding: every float is an exact real, so order-independence of float sums is claimed in exact arithmetic only.
- SQL text, isolation levels and connection pools: a Postgres method is the row-level step its transaction makes. Other tables than competitions are not compared between the two stores; they differ (a run overwrites in memory and is inserted in Postgres, serial ids may skip).
- Deep copies in the in-memory store: records are values here, so aliasing through returned objects is not modelled.
- Competition events, executions, fill and pre-submit ledgers, seed state and provisioning records of the store: plain appends or keyed writes.
- RidersSurvive: takes each call as one transaction; the one call that does not lock its row is split in RewriteLosesBindingExactly and, with any number in flight, in ConfigRewrites.
- LedgerOnlyAdvances: takes the deployment ledger as its entries in insertion order, as a Python dictionary iterates.
- CompletePassFinishes: the minting function must be injective and its ids free or left by an earlier crashed pass, as the caller's namespaced hash provides.
- The confidence badges, rank guards and Markdown of the boards: each is one branch on figures that are modelled.
- FvHistory.Consume: the book and mid polling around the history is not modelled.
- LeadLagProbe.AnalyzeMarket: the binomial z score, the fixture-level sign test and the verdict are arithmetic on the lists and are left out.
- Cadence.CadenceDeltas: grouping samples by market and the percentiles of the deltas are left out.
- BookSeries.ReconstructBookSeries: the maintainer's merge, the level lists and the market metadata of a row are abstract; a row carries its frame and the state instead.
- TopOfBook.BuildTopOfBookSeries: the normalisation of a quote to ok, gap or excluded is a parameter.
- Depth and trade series, file writing and the fetch of archive hours.
- SxBook.Consumer.OnFrame: the answer of the seed request is part of the frame; the request itself is not modelled.
- SX market resolution, API keys, reconnect backoff and the polling shells.
