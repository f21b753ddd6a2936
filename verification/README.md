# Verified model of the mitum consensus core

This project models the parts of mitum in which a mistake would be a consensus mistake, and proves
what they are for. `dafny verify dfyconfig.toml` checks all of it. Each file is one module.

**Voting** (`VoteCount`, `Quorum`, `Voteproofs`, `Backing`, `Records`, `Issuance`, `Keys`,
`Ballotboxes`, `Network`, `Exactness`, `Delivery`, `Limits`). Ballots are counted into MAJORITY, DRAW or
NOT-YET (`FindMajority`, `FindMajorityFromSlice`); a `VoteRecords` object applies the count one ballot at a time, with a
finished/closed life cycle in which one ballot may be stored without being counted and later ballots are
counted again; a `Ballotbox` routes ballots by the printed key of their point; a network is any number
of boxes with any delivery order, duplicates, losses, cleaning, and nodes that vote differently at
different boxes. Proved: the count means what its names say; agreement with as many faulty nodes as the
fault bound allows; draws exclude majorities; results are stable; a quorum of agreeing nodes makes
progress; a box hands a voteproof over once for a point unless its record is removed in between; and
every voteproof that a box issues passes every recount from scratch and is backed by a quorum of distinct
nodes. For agreement, exclusion, progress, stability, validation and the draw test, `Exactness` and
`Limits` prove the condition exact, over all suffrages, all thresholds and all runs: where it fails, some
run violates the property.

**Syncing** (`Manifests`, `Syncing`, `SyncPlan`, `Windows`). Hash chains, the binary search for the
first diverging block, the rollback to the longest common prefix, the batches that cover a height range,
and the two window-by-window chain checks of the command line tools, which are compared with one check
of the whole chain.

**Around them.** `Processes` (cycle check and dependency-ordered start), `States` (the state pool does
not depend on the schedule of operations), `InitBallots` (builders of INIT ballots against their rules),
`Roundrobin` (fairness of proposer election). `Base` and `Sorting` hold shared vocabulary.

Code that updates fields or arrays in place is a class or a method here, tied by its `ensures` to a
predicate on values such as `VoteStep` or `BoxVote`; the lemmas about runs are about these predicates.
Where Go iterates over a map, the model picks an arbitrary order. `Uint`, `Int64` and `Uint8` are Go's
fixed-width integers, and `Wrap` and `WrapInt64` write out the wrap-around.

## Where the code does less than one may expect

Each of these is a lemma or a contract with its exact condition.

- A vote list in which no key can reach the threshold any more is a DRAW exactly if it has at most as
  many votes as the total and the largest count together; with more, `total-sum+set[0]` wraps and it is
  NOT-YET (`Limits.DrawExactly`). No run over a suffrage no larger than the total gets there
  (`Records.DrawTestNeverWraps`).
- The ratios that are valid start at 1, but two quorums share more nodes than NumberOfFaultyNodes allows to
  be faulty exactly if a quorum is more than two thirds of the nodes, which holds for every suffrage
  exactly if the ratio is above 200/3 (`Quorum.QuorumOverlap`, `Quorum.OverlapExactly`). Majorities can
  change after closing exactly if the threshold is at most one half of the total
  (`Limits.StabilityExactly`).
- One member that votes twice breaks the exclusion of draws by majorities, unless a quorum is a single node
  (`Exactness.ExclusionExactly`).
- At a threshold of at most one half of the total, and only there, a recount may reject a voteproof that a
  box issued (`Limits.ValidationExactly`).
- The validator of voteproofs counts votes, not nodes. With signers checked to be members, as
  isaac/voteproof_checker.go:40-51 does, acceptance of a MAJORITY guarantees a quorum of distinct nodes
  exactly in the suffrages whose quorum is a single node (`Backing.BackedExactly`); without that check it
  never does (`Backing.StrangersNotBacked`). Votes of distinct members are enough
  (`Backing.SingleVotesBacked`), and what boxes issue has them (`Delivery.BoxIssuesBacked`).
- A box that cleans or empties a record forgets that it was finished, and hands over again when the ballots
  come back (`Delivery.HandOverRepeats`); without a removal in between it never does
  (`Delivery.HandOverOnce`).
- A retry of fetching manifests asks for what was missing but holds the answer against all heights, so
  after a partial answer of a channel that answers only what it is asked, the next attempt fails
  (`SyncPlan.PartialAnswerFails`); fetching succeeds exactly if one answer covers all heights
  (`SyncPlan.FetchSlice`).
- The window loop over blockdata that are restored from a path checks nothing in a range of a single block
  (`Windows.WindowsMissOneBlock`), and the window loop over the manifests of a storage checks nothing if
  there is only the pre-genesis block (`Windows.StorageMissesPreGenesis`). Other checks of these commands,
  such as those of a single restored block and of block files, are not part of this model.
- When only the genesis block differs, rollback restarts before genesis, so the common pre-genesis block
  is dropped too (`Syncing.GeneralSyncer.Rollback`).
- At the last round, the INIT ballot rules accept a ballot whose round wraps to 0, below its base
  (`InitBallots.AcceptedMakesProgress`).
- Round-robin is unfair exactly if the uint64 sum wraps inside a window and the number of nodes does not
  divide 2^64 (`Roundrobin.FairnessExactly`). With no acting node requested, which configuration refuses
  (launch/config/suffrage.go:97), the proposer would not be acting (`Roundrobin.Elect`).
- An invalid operation hash is refused only where the updater of a key has not met it (`States.SetFailsExactly`),
  so that a Set call of one state that was refused passes when it is called again (`States.RefusedOnce`).
- A failed Set also takes back what earlier successful calls wrote to the same keys, whose operations stay listed
  (`States.FailedSetResets`).
- What a state pool ends in depends on the schedule exactly if two calls that write one key disagree on the
  first value each writes or on the height each keeps last (`States.IndependentExactly`); the first value
  written stays (`States.PoolHolds`). Whether the states tree fails never depends on it
  (`States.SameFailure`).

## Model

| member | source | states |
|---|---|---|
| VoteCount.FindMajority | base/votecount.go:12-48 | over a list of counts sorted in place: the index of the first count that reaches the threshold (and then the slice is untouched), else draw or not-yet by the wrapping draw test on the largest count |
| VoteCount.FindMajorityFromSlice | base/votecount.go:50-74 | whatever the map order, the outcome is one of those allowed for the votes: a majority key occurs in the votes, has the largest count, and reaches the threshold |
| VoteCount.TallyMeaning | base/votecount.go:26-47 | with no more votes than the total: MAJORITY iff some key has reached the threshold, DRAW iff no way of casting the outstanding votes lets any key reach it; the unsigned subtraction does not wrap |
| VoteCount.TallyUnique | base/votecount.go:50-74 | above one half, the outcome and its key depend on the multiset of votes only, not on arrival or map order |
| VoteCount.CompletionByOne | base/votecount.go:43-47 | a completion that reaches the threshold exists iff giving all outstanding votes to one key reaches it |
| VoteCount.DecidedPermuted | base/votecount.go:37-47 | a draw or not-yet is independent of the order of the counts |
| VoteCount.TwoGroups | base/votecount.go:50-74 | of two groups of votes, one that reaches the threshold and is no smaller is a possible winner; on a tie both are |
| Quorum.QuorumComplement | base/threshold.go:33-41 | a threshold is built iff the suffrage is not empty and the ratio is from 1 to 100; it is then exactly the number of nodes less NumberOfFaultyNodes |
| Quorum.ThresholdIsLeast | base/threshold.go:33-41 | the threshold is the least number of nodes whose share of the suffrage is at least the ratio |
| Quorum.QuorumOverlap | base/suffrage.go:63-71 | for every suffrage and valid ratio two quorums share more nodes than may be faulty iff a quorum is more than two thirds of the nodes |
| Quorum.OverlapExactly | base/threshold.go:17-41 | it is so for every suffrage iff the ratio is above 200/3; three nodes show it fails at and below |
| Quorum.AboveTwoThirds | base/threshold.go:33-41 | a ratio above 200/3 makes every quorum more than two thirds of the nodes |
| Voteproofs.IsValidFacts | base/voteproof_v0.go:333-367 | accepts iff every vote's fact and signature is valid and its fact listed, the number of distinct voted hashes is the number of facts, and facts are valid |
| Voteproofs.Recount | base/voteproof_v0.go:244-277 | the recount in map order takes any key that reaches the threshold, otherwise draw or not-yet as the tally |
| Voteproofs.IsValidCheckMajority | base/voteproof_v0.go:238-295 | the answer is the comparison of the claim with some possible recount |
| Voteproofs.RecountIsJustice | base/voteproof_v0.go:238-295 | with no more votes than voters and a threshold above one half, every possible recount accepts iff the claim is true of the votes |
| Voteproofs.IsValid | base/voteproof_v0.go:215-236 | for decisive voteproofs, accepted iff fields and facts are in order, there are at least as many votes as the threshold, and the claim is true of the votes; whatever is accepted is in order as the next row says |
| Voteproofs.InOrderExactly | base/voteproof_v0.go:297-367 | fields and facts pass iff every fact, voted fact and signature is valid, the facts are exactly those voted for, each once, stage, height and ratio are in range, the finishing time is set, and a finished result has its majority |
| Voteproofs.TamperedVoteRefused | base/voteproof_v0.go:333-367 | changing one vote of any voteproof to one with an invalid signature or fact, or a fact that is not listed, makes it unacceptable |
| Backing.BackedExactly | isaac/voteproof_checker.go:40-51 | for every suffrage and ratio, every acceptable MAJORITY whose signers are members is backed by a quorum of distinct nodes iff a quorum is a single node |
| Backing.StrangersNotBacked | base/voteproof_v0.go:215-295 | for every suffrage and ratio, the checks of a voteproof alone accept one that no member stands behind |
| Backing.SingleVotesBacked | base/voteproof_v0.go:238-295 | a true MAJORITY whose votes are by distinct members is backed |
| Records.VoteRecords.AddBallot | isaac/voterecords.go:70-88 | a voter's first ballot is stored in the three maps, a later one changes nothing |
| Records.VoteRecords.FinishVoteproof | isaac/voterecords.go:150-173 | the finished voteproof lists every stored fact and every ballot's signed fact once, in whatever order |
| Records.VoteRecords.Vote | isaac/voterecords.go:98-148 | the new state of all fields is a vote step of the old state, and the voteproof returned is the stored one |
| Records.StepKeepsConsistent | isaac/voterecords.go:109-148 | every vote keeps votes, ballots, facts and tally in agreement; only ballots that came before closing can be missing from the tally |
| Records.StepKeepsSettled | isaac/voterecords.go:126-147 | every vote leaves the voteproof telling what the tally means, and keeps the decision of a finished one |
| Records.AtMostOneUncounted | isaac/voterecords.go:109-124 | at every moment of every run the tally misses at most one of the stored votes, and none before closing |
| Records.LateVoteIsListed | isaac/voterecords.go:109-148 | the first ballot of a voter that comes after closing is listed, with all others, in the voteproof made then |
| Records.ListedWasSent | isaac/voterecords.go:70-88 | every ballot stored and every signed fact listed at any moment of any run is one that was voted, with its own fact and signature |
| Records.RunHolds | isaac/voterecords.go:109-148 | both hold at every moment of every run |
| Records.DrawTestNeverWraps | base/votecount.go:43-43 | in every run over a suffrage no larger than the total the unsigned draw test does not wrap |
| Records.Stability | isaac/voterecords.go:109-148 | once finished, no later votes change the result; nor the majority if twice the threshold exceeds the total |
| Records.LifeCycle | base/voteproof_v0.go:135-145 | finished and closed never revert, the vote after finishing closes, and only finished voteproofs close |
| Records.SingleHandOver | isaac/voterecords.go:100-124 | in every run of one record at most one call returns a voteproof that is finished and not closed |
| Records.AgreeingPrevail | isaac/voterecords.go:126-147 | when a quorum votes only one hash, the record never draws, has finished once all are heard, and with nothing else if the others are no quorum |
| Records.Progress | isaac/voterecords.go:109-148 | in every run in which such a quorum is heard, in any order and among any other ballots, it ends with MAJORITY on their fact and was never DRAW or anything else |
| Records.RunExists | isaac/voterecords.go:45-68 | every sequence of ballots has a run, so the statements about runs are not empty |
| Issuance.FinishedFacts | isaac/voterecords.go:150-173 | the lists of a finished voteproof pass the validator's fact checks |
| Issuance.FinishedClaim | base/voteproof_v0.go:238-295 | all ballots together, also one that the tally missed, bear out the result |
| Issuance.RunIssues | isaac/voterecords.go:150-173 | in every run everything stored is valid and every finished voteproof is stamped, consistent, lists each member's vote at most once, has a quorum of votes and a true claim |
| Issuance.IssuedIsAccepted | base/voteproof_v0.go:215-295 | producer and validator agree: at every moment of every run over a suffrage with a threshold above one half, a finished voteproof is decisive and acceptable |
| Issuance.IssuedIsBacked | isaac/voterecords.go:150-173 | every MAJORITY that a run issues, at any ratio, is signed by a quorum of distinct suffrage nodes |
| Keys.KeyRoundTrip | isaac/ballotbox.go:59-71 | scanning a printed key gives back its point for every height, negative ones too, every round and stage |
| Keys.KeyInjective | isaac/ballotbox.go:155-157 | different points have different keys |
| Ballotboxes.Later | isaac/ballotbox.go:124-140 | the latest ballot is at or above every ballot loaded, and a tie keeps the earlier ballot |
| Ballotboxes.PointsInOrder | isaac/ballotbox.go:124-140 | the order of points is total: by height, then round, then stage |
| Ballotboxes.Ballotbox.LoadVoteRecords | isaac/ballotbox.go:118-153 | the record of the ballot's point is found or created, every other record stays |
| Ballotboxes.Ballotbox.Vote | isaac/ballotbox.go:34-44 | a ballot that cannot vote is an error and changes nothing; another takes one vote step in its own record and leaves all others |
| Ballotboxes.OthersChangeNothing | isaac/ballotbox.go:159-177 | a ballot is refused iff it is not of stage INIT or ACCEPT or not by a member; then the box is unchanged |
| Ballotboxes.VoteKeepsKeyed | isaac/ballotbox.go:142-157 | records stay under their own keys with ballots of their own point only, and other points' records are unchanged |
| Ballotboxes.KeysUpTo | isaac/ballotbox.go:58-81 | the scan fails iff some key cannot be scanned, else collects exactly the keys up to the height |
| Ballotboxes.ScannedIsAbove | isaac/ballotbox.go:83-92 | with records under their own keys the scan does not fail, and what remains is exactly the records above the height |
| Ballotboxes.Ballotbox.Clean | isaac/ballotbox.go:46-101 | removes exactly the records up to the height and leaves all others unchanged; on a failed scan nothing changes |
| Ballotboxes.AboveExactly | isaac/ballotbox.go:75-92 | after cleaning the record of a point is there, unchanged, iff it was there and its height is greater |
| Ballotboxes.Ballotbox.Empty | isaac/ballotbox.go:110-116 | the box is as new |
| Network.RunKeepsNet | isaac/ballotbox.go:36-44 | in every run of every network each record is consistent, settled, and holds what its non-faulty voters cast |
| Network.MajoritySupport | isaac/voterecords.go:126-147 | a majority has a quorum of voters behind it |
| Network.OneMajority | base/votecount.go:26-35 | two records that only nodes of a set vote differently at hold the same majority, if the set is smaller than the overlap of two quorums |
| Network.AgreementBelowOverlap | isaac/voterecords.go:109-148 | at any two times of any run any two boxes with MAJORITY at a point hold the same hash, as long as fewer members are faulty than two quorums share |
| Network.Agreement | base/suffrage.go:63-71 | the same with at most NumberOfFaultyNodes faulty members, whenever a quorum is more than two thirds of the nodes |
| Network.AgreementByRatio | base/threshold.go:33-41 | the same for every suffrage and every ratio above 200/3 |
| Network.ProgressDespiteFaults | isaac/voterecords.go:109-148 | if the members that are not faulty make a quorum and the faulty do not, then in every run in which the former cast one hash at a point no box draws or finishes otherwise there, and each that heard them all has MAJORITY on it |
| Network.ProgressByRatio | base/suffrage.go:63-71 | the same with at most NumberOfFaultyNodes faulty members, for every threshold above one half and every ratio above 200/3 |
| Network.DrawExcludesMajority | base/votecount.go:26-47 | for every valid ratio, when no member is faulty or a quorum is one node, no box draws at a point where any box at any time has a MAJORITY |
| Exactness.AgreementExactly | isaac/voterecords.go:109-148 | for every suffrage and threshold, agreement holds in every run iff fewer members are faulty than two quorums share |
| Exactness.Disagreement | isaac/ballotbox.go:36-44 | otherwise two boxes of some run hold different majorities at one point |
| Exactness.ExclusionExactly | base/votecount.go:26-47 | for every suffrage and threshold, draws and majorities exclude each other in every run iff no member is faulty or a quorum is a single node |
| Exactness.OneDoubleVoteBreaksExclusion | isaac/voterecords.go:126-147 | at every quorum of two or more, any one faulty member is enough for a run with MAJORITY at one box and DRAW at another |
| Exactness.ProgressExactly | isaac/voterecords.go:109-148 | what the others agree on prevails in every run iff they make a quorum and the faulty members do not |
| Exactness.DeliverRun | isaac/ballotbox.go:36-44 | any run of a network goes on by delivering any authentic ballots of a point to an empty box, whose record becomes a run of these ballots |
| Delivery.RecordIsRun | isaac/ballotbox.go:36-44 | every record of every box at every time is the end of a run of ballots that members sent for its point and that were delivered to that box |
| Delivery.DeliveredIsHeard | isaac/ballotbox.go:36-44 | in every run an INIT or ACCEPT ballot of a member that is delivered to a box is among the votes of its point at every later time, until a cleaning of its height or above or an emptying |
| Delivery.DeliveredQuorumWins | isaac/ballotbox.go:36-44 | if the members that are not faulty make a quorum, the faulty do not, and the former cast one hash, a box to which a ballot of each of them was delivered holds MAJORITY on it, whatever else was delivered and in whatever order |
| Delivery.LatestIsHighest | isaac/ballotbox.go:118-140 | in every run the latest ballot of a box is one of a highest point among those delivered to it since it was last emptied |
| Delivery.BoxIssuesAccepted | base/voteproof_v0.go:215-295 | above one half, every finished voteproof that any box holds at any time is decisive and acceptable |
| Delivery.BoxIssuesBacked | isaac/voterecords.go:150-173 | at every ratio, every MAJORITY that any box holds at any time is signed by a quorum of distinct members |
| Delivery.ListedWasDelivered | isaac/voterecords.go:150-173 | every signed fact that a voteproof of a box lists was delivered to that box by a member for that point, with its own fact and signature |
| Delivery.HandOverOnce | isaac/voterecords.go:100-124 | if a box hands over twice for a point, the record was cleaned or emptied out in between |
| Delivery.HandOverRepeats | isaac/ballotbox.go:110-116 | in every setting some run with an emptied box hands over twice |
| Limits.DrawExactly | base/votecount.go:43-47 | for every list of fewer than 2^64 votes DRAW is reported exactly when no key has or can reach the threshold, iff some key has reached it or there are at most as many votes as the total and the largest count together |
| Limits.StabilityExactly | isaac/voterecords.go:126-147 | majorities are stable in every run of the voters iff twice the threshold exceeds the total |
| Limits.ValidationExactly | base/voteproof_v0.go:238-295 | every recount accepts every voteproof that any run over the suffrage finishes iff twice the threshold exceeds the total |
| Limits.UnstableAtHalf | isaac/voterecords.go:126-147 | at every threshold of at most one half, some run of distinct voters changes its majority after closing |
| Manifests.CheckSerialized | isaac/block_checker.go:64-89 | passes iff no manifest is missing, each is valid and each links to the next; panics iff a part passes and its successor is missing; an integrity failure names the last manifest of a part that passes |
| Manifests.PassesExactly | isaac/block_checker.go:24-39 | a list passes iff each place has a confirmed manifest with the hash of its own fields, the height counted from the first, and the hash of the manifest before it as previous block |
| Manifests.TamperEvident | isaac/block_checker.go:64-89 | of two passed lists of one length the last hash alone determines every hashed field of every manifest |
| Manifests.HashCovers | base/block/block_v0_manifest.go:28-50 | two manifests have one hash iff height, round, proposal, previous block, confirming time and the joined operations and states hashes are the same |
| Manifests.SerializedJoin | isaac/block_checker.go:24-39 | a list passes iff two parts that share one manifest pass |
| Manifests.MatchedBelow | base/block/block_v0_manifest.go:28-50 | two hash chains equal at a height agree in hash and all hashed fields at every lower height |
| Syncing.SearchUnmatched | isaac/syncer_general.go:1394-1420 | on hash chains the binary search is the linear scan; an error only if some height cannot be compared |
| Syncing.CompareBlocks | isaac/syncer_general.go:1330-1371 | the lowest differing block from before genesis up, with a differing genesis reported as pre-genesis |
| Syncing.GeneralSyncer.Create | isaac/syncer_general.go:85-135 | refuses exactly empty ranges and ranges that start inside the stored blocks; otherwise range, base and buffers fit |
| Syncing.GeneralSyncer.Reset | isaac/syncer_general.go:329-380 | with a session left over, removes everything from the range's start up; fails iff no source; the session buffer fits the range |
| Syncing.GeneralSyncer.CheckHead | isaac/syncer_general.go:408-425 | passes iff head follows base; a failure is from the base manifest, so below the range |
| Syncing.GeneralSyncer.Rebase | isaac/syncer_general.go:1300-1325 | removes the blocks from the height up, makes the block below the base, re-sizes the buffer |
| Syncing.GeneralSyncer.Rollback | isaac/syncer_general.go:1285-1328 | on hash chains succeeds iff some block differs and there is a source; then exactly the longest common prefix remains, or nothing if it ends before genesis; every remaining block matches and is unchanged, the range starts right after the base, is not empty, and both buffers have its length |
| SyncPlan.FillManifests | isaac/syncer_general.go:440-489 | the batches, in order, are exactly the heights between head and tail, all but the last full and the last not empty |
| SyncPlan.PlanCoversRange | isaac/syncer_general.go:389-394 | head, tail and batches ask for every height of the range exactly once and for no other |
| SyncPlan.DistributeBlocksJob | isaac/syncer_general.go:600-633 | the jobs, in order, are exactly the missing heights; all but the last job full, and a computed limit of 0 gives one job |
| SyncPlan.JobsForEveryChannel | isaac/syncer_general.go:604-610 | with nothing stored and work for every channel, but less than the channels take at full size, there are more jobs than channels |
| SyncPlan.MissingExactly | isaac/syncer_general.go:613-618 | a height is in the jobs as often as in the range if it is not stored, and never otherwise |
| SyncPlan.SanitizeManifests | isaac/syncer_general.go:942-991 | for each asked height the first manifest fetched for it, in order, and exactly the heights that have none |
| SyncPlan.Update | isaac/syncer_general.go:716-736 | although the scan cursor falls behind, for any fetched list, in any order and with repeated heights, a slot whose height was fetched gets a manifest of that height and no other slot changes |
| SyncPlan.FetchSlice | isaac/syncer_general.go:765-811 | of up to three attempts, succeeds iff some answer covers all heights before one is canceled, with one manifest for each height from that answer |
| SyncPlan.ThreeAttempts | isaac/syncer_general.go:765-804 | fetching succeeds iff the first answer covers all heights, or the second does and the first was not a cancel, or the third does and neither before was |
| SyncPlan.PartialAnswerFails | isaac/syncer_general.go:779-803 | after an answer with some of the heights, the next attempt at a channel that answers only what it is asked never succeeds |
| SyncPlan.CallbackFetchManifests | isaac/syncer_general.go:711-763 | succeeds iff the channel delivers every part, and then every height got a manifest of that height from the channel, at its own index |
| Windows.CheckBlockdataPath | launch/cmds/restore.go:313-325 | for more than one block the overlapping windows pass iff the whole range passes one serialized check; a single block is never checked |
| Windows.CheckBlockdatas | launch/cmds/restore.go:383-430 | one window passes iff its range does |
| Windows.WholeIsChain | isaac/block_checker.go:64-89 | blocks stored at their own heights pass over a range iff they form a valid hash chain over it |
| Windows.WindowsMissOneBlock | launch/cmds/restore.go:313-325 | the windows and the whole check differ iff the range is a single block that is missing or invalid |
| Windows.WholeOverlap | isaac/block_checker.go:64-89 | a range passes iff two ranges that share a height and make it up pass |
| Windows.ChainedWindow | launch/cmds/verify_storage.go:100-106 | a window with the last manifest of the passed part before it passes iff the whole chain up to its end does |
| Windows.CheckManifests | launch/cmds/verify_storage.go:80-121 | given the last manifest of the passed part, passes iff the chain up to the window's end does, and returns its last manifest |
| Windows.CheckAllManifests | launch/cmds/verify_storage.go:48-78 | from genesis up, all windows pass iff the whole chain from pre-genesis passes one serialized check; below, nothing is checked |
| Windows.StorageMissesPreGenesis | launch/cmds/verify_storage.go:48-78 | from pre-genesis up, the windows and the whole check differ iff there is only the pre-genesis block and it is missing or invalid |
| Processes.Manager.AddProcess | launch/pm/processes.go:69-85 | refuses init and unforced replacement; a replacement keeps its place in the order |
| Processes.Manager.CheckProcess | launch/pm/processes.go:236-261 | terminates; extends a dependency order of the processes marked done, or shows that the graph is not closed or has a cycle |
| Processes.Manager.Check | launch/pm/processes.go:220-234 | succeeds iff what enabled processes require is enabled and there is no cycle |
| Processes.OrderShowsAcyclic | launch/pm/processes.go:236-261 | a complete dependency order exists only for closed graphs without cycles |
| Processes.PathClosesCycle | launch/pm/processes.go:243-246 | a process met again on the path to it closes a cycle |
| Processes.WalkFalls | launch/pm/processes.go:248-256 | along every walk of requirements the place in a complete order strictly falls |
| Processes.Manager.RunProcess | launch/pm/processes.go:263-312 | terminates; the log of processes that ran stays without repetition, enabled, and in dependency order, whatever fails; a process whose pre hook fails is never in it, and only its last one may have failed |
| Processes.Manager.Run | launch/pm/processes.go:198-218 | if the check fails nothing runs; else processes run once, after all they require, never a disabled one, and nothing after a failure; it succeeds iff the check does and no enabled process fails, and then every enabled process ran, init first, in the order of adding if that is a dependency order |
| States.Statepool.Get | storage/statepool.go:69-102 | answers from the cache, else from storage with the snapshot cached, operations cleared; an absent key is answered only if it is a valid key |
| States.FirstGetAnswersStorage | storage/statepool.go:80-102 | the first Get of a key answers what storage holds and whether it was found |
| States.Statepool.Set | storage/statepool.go:104-147 | the updaters after any call, also one that fails, are a function of those before; the operation is recorded iff it succeeds; the cache that Get reads is never touched |
| States.SetFailsExactly | storage/statepool.go:125-141 | Set fails iff the operation hash is empty or over 100 bytes and some state is of a key whose updater has not met it |
| States.ValidSetWrites | storage/statepool.go:112-131 | with a valid operation hash Set succeeds and writes every state in order |
| States.FailedSetResets | storage/statepool.go:112-142 | a failed Set takes the states up to the refused one back to the original states of their updaters, which keep their operations and heights and remember the operation hash; no other updater changes; the refused one is the first of a key whose updater had not met the hash |
| States.GetIsFixed | storage/statepool.go:80-102 | however Set calls interleave and whatever storage says later, every Get of a key answers what its first successful one did |
| States.PoolHolds | base/state/state.go:99-132 | after any writes an updater holds the first value written, the height kept by the last write, and each operation that wrote the key exactly once |
| States.RefusedOnce | base/state/state.go:99-116 | a Set call of one state fails at most once: called again it succeeds, whatever the operation hash |
| States.OriginIsFirst | base/state/state.go:134-141 | an updater is there iff its key was written, and a reset goes back to the first state written to it, without operations |
| States.SameFinal | base/state/state_v0.go:93-115 | updaters that hold the same, with operations in any order, end in the same state and hash |
| States.FinalShows | base/state/state_v0.go:93-115 | after a run a key ends with the first value written, the new height, the last kept height as previous one, its operations once each and sorted, and the hash of key, value, kept height and operations |
| States.HashTells | base/state/state_v0.go:93-115 | with an injective hash two runs end two keys in one hash iff key, first value, last kept height and writing operations are the same |
| States.SortedKeys | storage/statepool.go:156-173 | every updated key once, sorted, whatever the map order |
| States.StatesTree | base/prprocessor/operation.go:131-166 | fails iff a state has no value; else the final states, sorted by hash |
| States.ScheduleIndependence | storage/statepool.go:104-147 | every rearrangement of Set calls that agree where they write the same key, with any Get calls in between, gives the same states and hashes in the same order, if no two final hashes collide |
| States.IndependentExactly | base/state/state_v0.go:164-178 | whatever the hash, every rearrangement of the calls ends every key in the same state iff the calls agree |
| States.OneListForDistinguishingHash | base/prprocessor/operation.go:149-151 | with a hash that tells keys apart, agreeing calls give one list of states |
| States.DifferentLists | base/prprocessor/operation.go:149-151 | a key that ends differently shows in the lists |
| States.SameFailure | base/prprocessor/operation.go:137-147 | whether StatesTree fails is the same for every rearrangement, also of calls that do not agree |
| States.PoolIsWrites | storage/statepool.go:112-142 | a run of calls writes one state after the other |
| InitBallots.AcceptBuilderMeetsRules | base/ballot/init.go:132-171 | the ballot built from an ACCEPT voteproof passes the rules iff it was agreed or the database has the previous height's agreed ACCEPT voteproof |
| InitBallots.InitBuilderMeetsRules | states/basic/ballot.go:78-121 | the ballot built from an INIT voteproof passes the rules iff the ACCEPT voteproof given, or else stored, is the previous height's agreed one |
| InitBallots.BuiltAfterAgreement | states/basic/ballot.go:16-76 | from an agreed ACCEPT voteproof the builder succeeds whatever the database knows: round 0 of the next height on the agreed block, and the rules accept it |
| InitBallots.BuiltForNextRound | states/basic/ballot.go:16-121 | from a draw, or an INIT voteproof, it succeeds when the database knows the height below: the next round on the block below, and the rules accept it |
| InitBallots.BuiltFromFinished | states/basic/ballot.go:16-121 | nothing is built from an unfinished voteproof or one of another stage |
| InitBallots.StandsOnBlockBelow | states/basic/ballot.go:16-121 | if the database stores what was agreed, every ballot from either builder names the block stored right below it |
| InitBallots.OneBlockPerHeight | states/basic/ballot.go:16-121 | hence all ballots built for one height name the same previous block |
| InitBallots.RulesLeaveNoChoice | base/ballot/init.go:117-217 | over an INIT or ACCEPT base the rules accept exactly one height and round, and exactly with or without the ACCEPT voteproof of the height below |
| InitBallots.AcceptedMakesProgress | base/ballot/init.go:117-217 | a ballot that passes over an INIT or ACCEPT base is strictly above it, except exactly when the next round of the last round is asked for |
| InitBallots.SuccessionClimbs | base/ballot/init.go:117-217 | ballots each accepted over the point that the one before opened climb, never returning to a point, iff no base after the first is out of rounds |
| InitBallots.RoundWraps | base/ballot/init.go:187-190 | the exception is real |
| Roundrobin.Pos | launch/process/suffrage_roundrobin.go:75-93 | the loop with wrapping additions is the wrapped sum of bytes, height and round modulo the number of nodes |
| Roundrobin.PositionMoves | launch/process/suffrage_roundrobin.go:75-93 | a height more moves the position as a round more does, a byte of the previous hash as that many rounds, and without either it is the round |
| Roundrobin.FairnessExactly | launch/process/suffrage_roundrobin.go:75-93 | as many consecutive rounds as nodes elect each node once iff the uint64 sum does not wrap inside them or the number of nodes divides 2^64 |
| Roundrobin.Elect | launch/process/suffrage_roundrobin.go:41-73 | exactly the requested number of distinct nodes, cyclic from the proposer, who is among them iff any is requested |

## Left out

- Floating point: ratios are exact reals; the source computes quorum and fault bound in float64, where
  rounding could move the ceiling.
- Hashing is symbolic: a manifest's hash is identified with the fields it covers (operations and states
  hashes without a mark when one is absent), and no two hashed inputs collide. A ballot fact's hash does
  not determine the fact, because an ACCEPT fact's hash does not cover the proposal
  (base/ballot/accept.go:63-74); agreement is stated on hashes. The hash of a state is a function of its key,
  value, previous height and operations, where the source concatenates their bytes (base/state/state_v0.go:104-115).
- Signatures, facts' own checks and the finishing time are flags of the values that carry them.
- Ballotboxes.Ballotbox.Vote: taken to be one step. The source takes the lock of the box and then that of
  the record (isaac/ballotbox.go:36-44), so that a concurrent Clean may put the record back into the pool
  in between; only the record's own Vote is atomic by its lock. Pooled objects are new ones here.
- One suffrage and one threshold are fixed for a run; the source asks for them anew at each new record.
- Keys: the leading blanks that Sscanf would skip never occur in printed keys and are not modelled.
- Heights in `Manifests`, `Syncing`, `SyncPlan` and `Windows` do not wrap.
- Windows.CheckBlockdatas: a block that cannot be loaded or fails its own checks beyond its manifest is a
  missing one, and so is a block stored under another height, which the source places by its own height.
- Windows.CheckManifests: a panic of the serialized check counts as a failure.
- Sources: `Syncing` has one remote chain where the source compares several channels by threshold; blocks,
  sessions and the database are reduced to the values a member reads. That cleaning removes the heights
  from the given one up is taken from the database. The syncer's state label is left out.
- Syncing.GeneralSyncer.Rollback: ends with the reset that begins the next preparation; the preparation
  that follows, with its network traffic, is not part of it.
- SyncPlan.FetchSlice: the waits between attempts are left out.
- Processes.Manager.Run: hooks and processes are reduced to where an attempt fails (before, in or after
  the process); removing processes, replacing init and inserting hooks are left out.
- States.StatesTree: a state's validity is that it has a value (without one the source panics while
  hashing); the other checks of a state and the fixed tree built from the sorted states are left out.
- Updaters are values of the pool's map; that they share the sorted operations slice with the state shows
  in the final state, whose operations are sorted. Added operations and closing a pool are left out.
- INIT ballots: seal, signatures and the checks of the voteproofs themselves are left out.
- Packing and unpacking, hints, the network, handover, command line and configuration, storage engines,
  and the asynchronous handling of `Syncers` and `Processors` events.
