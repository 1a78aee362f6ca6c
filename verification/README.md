# Verified models of the TCP probe: learner, receiver, codec and two kernel state machines

This project models four parts of the repository in Dafny 4.11 and proves what they are for.
`dafny verify dfyconfig.toml` checks everything.

**The Mealy-machine learner** (`reference/salvage/lstar.cpp`). Mealy machines over arbitrary
finite state and input sets; the prefix-trie cache and the audited, majority-voted oracle in
front of a deterministic system; breadth-first search for shortest separating words; the
characterizing set with its greedy cover; Moore partition refinement; the observation table,
Rivest-Schapire analysis, the W-method suite, and the whole run. The main result is
`Learning.Learner.Learn`: over a deterministic system no detector D1, D2, D3, D4 or D6 is ever
raised and the run ends; unless a cap stopped it, with the exact oracle or within the W-method's
budget, the hypothesis agrees with the system on every word and has exactly as many states as the
system has distinguishable reachable ones. With the exact oracle the number of queries is bounded
in closed form, so with caps at the bounds the run always ends so; and no round begins above a cap.
Files: `Mealy`, `Search`, `Separation`, `Partition`, `WMethod`, `Oracle`, `Observation`,
`Tables`, `Words`, `Queries`, `Runs`, `Learner`.

**The receiver** (`src/reassembly.cpp`, `src/policy.cpp`, `src/peer.cpp`, `include/tp/seq.hpp`, and
XNU's `tcp_reass`). The cyclic 32-bit interval set is proved to refine the set of accepted bytes
over unbounded offsets. `Reassembling.AcceptAny` needs no assumption about the sender: read at the
offset nearest the frontier, a segment either brings exactly its bytes or, ending 2^31 or more
beyond the frontier, nothing. On that rests the peer as a state machine, with the theorems over
whole runs: what every ACK on the wire carries and when it may leave, ACK safety, progress under
loss, head-of-line delay, and everything a call's summary reports. The kernel's queue of unmerged
segments is a second implementation, proved to agree segment by segment. Files: `SeqSpace`, `ByteStream`, `Reassembly`, `Newest`, `KernelQueue`, `Policy`,
`PeerModel`, `PeerRuns`, `Acks`, `Originals`, `Tallies`, `Peer`, `PeerCalls`, `Scenarios`.

**The wire codec and checksum** (`src/segment.cpp`, `include/tp/checksum.hpp`). Builder and
parser over byte buffers. Parsing a built frame returns the segment if and only if the packet
fits its 16-bit length field; every built packet verifies, even where the 32-bit accumulator
wraps. The frame is pinned byte by byte, the parser reads a frame if and only if it holds a TCP
segment, and the option walk reads what the field's options say. Every ACK the peer can queue fits
the frame and survives the round trip.
Files: `Checksum`, `Wire`, `Packet`, `Layout`, `Codec`.

**Two kernel state machines** (`reference/xnu/tcp_input.c`). The challenge-ACK limiter, its
simulated twin in `discriminate.cpp`, and the fixed-point RTT estimator. Files: `Limiter`, `Rtt`.

## How the model is set up

- Integers are unbounded; 32-bit arithmetic is written out (`SeqSpace.Wrap`, `SeqSpace.Diff`,
  `% WIDE`). `double` times are `real`.
- Clock readings, drained batches and send outcomes are inputs: a call takes a script of rounds,
  and a function from attempt numbers to outcomes stands for the network.
- The peer's `past` (true offsets, accepted segments, queued states) is a history that no step
  reads; the theorems speak about it.
- A cache row's `key` string is the row itself.

## Where code and documentation differ

- `include/tp/reassembly.hpp:38` promises SACK blocks most recent first; the code reports the
  highest first. `NewestFirst.NewestFirstExactly` says for which runs the list is most recent first
  after every arrival; `Scenarios.ReorderedBlockNotFirst` and `Scenarios.LaterBlocksOutOfOrder` are
  runs where it is not.
- `include/tp/peer.hpp:60` calls `t_last_original` the time of the last segment carrying
  never-before-seen bytes. A segment that straddles the highest end seen carries some and is taken
  for a retransmission (`Originals.OriginalExactly`), and dropped segments are not counted
  (`Originals.LastOriginalIs`).
- `include/tp/peer.hpp:61` calls `t_hole_created` the arrival of the first dropped segment. It is
  that of the last drop of the call that found no hole open: `PeerRuns.CreatedIsFirstDropExactly`
  says when the two are the same, `PeerRuns.DelayFitsExactly` when the delay is still fill time
  minus creation time, and `Scenarios.SecondHoleOverwrites` is a run where neither holds. A hole
  whose segment ended at or below the frontier is closed by whatever is taken next, unless that
  takes the frontier 2^31 or more beyond it (`PeerRuns.StaleHoleClosesExactly`, reached in
  `Scenarios.StaleDropIsTimed`).
- `include/tp/reassembly.hpp:46` promises the time at which the frontier first reached an offset.
  The log knows advances only, so offsets at or below the start get the first advance's time or -1,
  and offsets more than 2^31 above the first advance are answered too early
  (`Reassembling.TimeReachedExactly`).
- `src/policy.cpp:12` says overlap; a rule with `lo >= hi` still fires on a segment that strictly
  surrounds it (`LossPolicies.EmptyRuleFires`), and a segment that reaches offset 2^32 can miss a
  rule it overlaps (`LossPolicies.MatchIsOverlapExactly`), which the peer never asks about.
- The limiter stores the anchor of a window as a clock reading and takes zero for "never". A
  window opened at reading zero therefore limits nothing while the clock stays there, while one
  opened before still does (`Limiter.ZeroClockLimitsExactly`), and such an opening is exactly what
  puts kernel and twin out of step (`Limiter.OpeningKeepsStepExactly`). 2^31 ms after the anchor
  they part as well (`Limiter.OpensAlikeExactly`).
- `tcp_reass` is exact for a segment if and only if it does not start below `rcv_nxt`
  (`KernelQueue.ReassExactlyAbove`); the input path trims the front first, which makes it exact
  for all (`KernelQueue.InputStands`).
- The limiter's true ceiling in any 1000 ms is 2 * max(1, limit) - 1, not twice the limit, and it
  is attained (`Limiter.KernelBoundAttained`).

## Model

| member | source | states |
|---|---|---|
| `Machines.FirstDifference` | reference/salvage/lstar.cpp:510-514 | a separating word separates at a first position: the outputs before it agree, and the two states reached there emit different outputs |
| `Machines.AlikeStep` | reference/salvage/lstar.cpp:446 | indistinguishable states emit alike and move to indistinguishable states |
| `Search.BreadthFirst` | reference/salvage/lstar.cpp:439-450 | the worklist search returns a shortest word hitting the goal, or none exactly when no word hits it |
| `Separation.ShortestSeparator` | reference/salvage/lstar.cpp:297-308 | a shortest separating word for two states, or none exactly when they are indistinguishable, with or without the pair swapping |
| `Separation.EqPerfect` | reference/salvage/lstar.cpp:438-451 | the product search returns a shortest word separating hypothesis and reference, or none exactly when they agree on every word |
| `Separation.Candidates` | reference/salvage/lstar.cpp:295-309 | the pool decides every pair of states: it holds a separating word for each distinguishable pair |
| `Separation.BestCover` | reference/salvage/lstar.cpp:315-321 | the greedy step picks a word telling apart the most needed pairs, or none exactly when none tells any |
| `Separation.CharacterizingSet` | reference/salvage/lstar.cpp:294-326 | two states are told apart by some word of W if and only if they are distinguishable at all |
| `Partition.Number` | reference/salvage/lstar.cpp:99-108 | equal keys, and only equal keys, get equal numbers, which run from zero without gaps |
| `Partition.Refine` | reference/salvage/lstar.cpp:103-111 | refinement never merges classes, and if it splits none the classes are exactly indistinguishability |
| `Partition.MinimalSize` | reference/salvage/lstar.cpp:96-114 | terminates with the number of classes of states that no input word can tell apart |
| `WMethod.StableRun` | reference/salvage/lstar.cpp:452-474 | once agreement to depth j implies depth j + 1, it is agreement on every word |
| `WMethod.UnstableNeedsClasses` | reference/salvage/lstar.cpp:455-463 | every depth at which agreement still shrinks costs the system one more distinguishable state |
| `WMethod.LockStep` | reference/salvage/lstar.cpp:464-473 | on a passed suite the system stays indistinguishable from the access word of the hypothesis state, whatever word is run |
| `WMethod.WMethodSound` | reference/salvage/lstar.cpp:452-474 | passing S . middle . W with a state cover and a characterizing W proves equivalence with every system that has at most mExtra more distinguishable reachable states than the hypothesis has, however many redundant ones it has |
| `WMethod.WMethodExact` | reference/salvage/lstar.cpp:452-474 | within that budget a system passes the suite if and only if it agrees with the hypothesis on every word |
| `Tables.Middle` | reference/salvage/lstar.cpp:455-463 | the middle part is every word of length at most 1 + mExtra and nothing else |
| `Tables.SuffixesCharacterize` | reference/salvage/lstar.cpp:453 | taking E as W is sound when the system has at most mExtra more distinguishable reachable states than S has rows, which are pairwise distinct |
| `Tables.PassedIsAlike` | reference/salvage/lstar.cpp:452-474 | a passed suite within budget proves equivalence, whichever way W was chosen |
| `Oracles.InsertedKeys` | reference/salvage/lstar.cpp:196-215 | the trie then holds exactly what it held and the non-empty prefixes of the inserted word |
| `Oracles.InsertedKeeps` | reference/salvage/lstar.cpp:200-203 | insertion overwrites no recorded output |
| `Oracles.InsertedNew` | reference/salvage/lstar.cpp:201-203 | a new edge records the output given with it |
| `Oracles.AuditedAre` | reference/salvage/lstar.cpp:203-206 | an insertion audits exactly the prefixes known before it, and contradicts exactly those of them recorded with another output |
| `Oracles.InsertTruth` | reference/salvage/lstar.cpp:201-212 | inserting a true answer contradicts nothing and keeps every recorded output true |
| `Oracles.RecordedIsRun` | reference/salvage/lstar.cpp:190-194 | what a truthful trie answers is the system's own run |
| `Oracles.Cache.Lookup` | reference/salvage/lstar.cpp:190-194 | returns the recorded outputs, or none exactly when the word is not held |
| `Oracles.Cache.Insert` | reference/salvage/lstar.cpp:196-215 | the node structure represents exactly the new edges, each known edge met is counted as an audit and each disagreeing one as a contradiction |
| `Oracles.Vote` | reference/salvage/lstar.cpp:240-245 | the most frequent value, the least on a tie, and whether any two runs disagree |
| `Oracles.VoteAll` | reference/salvage/lstar.cpp:234-248 | at every position the most frequent value of the runs, the least on a tie; disagreement is reported exactly when two runs differ |
| `Oracles.Oracle.Query` | reference/salvage/lstar.cpp:250-280 | whatever was asked before, cached, audited, bypassed or voted, the answer is the system's run, no contradiction is counted, the words held grow by exactly the prefixes of a word sent, and hits, misses, hit symbols, resets and steps account for every query; a hit is audited always at a rate of one or more and never at zero, and only a hit is |
| `Observation.AccessWords` | reference/salvage/lstar.cpp:399-406 | each access word leads the hypothesis to its own state |
| `Observation.DifferenceVanishes` | reference/salvage/lstar.cpp:423-433 | where the difference vanishes the first outputs agree and the suffix is non-empty, new, and splits two equal rows |
| `Observation.SuffixOpensTable` | reference/salvage/lstar.cpp:515-521 | with that suffix added the rows of S stay distinct and the table is no longer closed |
| `Observation.DistinctBound` | reference/salvage/lstar.cpp:498-499 | distinct rows bound the size of S by the number of distinguishable reachable states |
| `Observation.EquivalentIsLarge` | reference/salvage/lstar.cpp:507 | an equivalent hypothesis has at least as many states as the system has distinguishable reachable ones |
| `Tables.FindOpen` | reference/salvage/lstar.cpp:380-387 | finds the first extension, in the order of S and of the inputs, whose row no access word has, keeping S a tree with distinct rows, or none exactly when the table is closed |
| `Tables.IndexRows` | reference/salvage/lstar.cpp:393-398 | each row is indexed to the last state with it, the count is what S has more than rows, and it is zero exactly if all rows differ |
| `Tables.BuildHypothesis` | reference/salvage/lstar.cpp:388-405 | a well-formed machine whose transitions follow equal rows and stay where the row is unknown; of a closed table it is the machine the table describes |
| `Tables.AnalysisProgress` | reference/salvage/lstar.cpp:425-434 | a boundary of the binary search yields a fresh suffix that splits a row |
| `Tables.ReadOffUnique` | reference/salvage/lstar.cpp:531 | building the hypothesis again gives the same machine |
| `Tables.EquivalentIsMinimal` | reference/salvage/lstar.cpp:530-532 | an equivalent hypothesis has exactly the minimal number of states |
| `Learning.Learner.FillRow` | reference/salvage/lstar.cpp:363-371 | the row of u becomes the system's outputs on every suffix after u, with a query only for each cell not known |
| `Learning.Learner.FillAll` | reference/salvage/lstar.cpp:377-379 | every row is filled, at a cost of at most the missing cells of the access words not yet filled |
| `Learning.Learner.CloseOnce` | reference/salvage/lstar.cpp:380-387 | that first open extension is appended to S with rows still distinct, or the table is closed |
| `Learning.Learner.BuildHyp` | reference/salvage/lstar.cpp:388-405 | the hypothesis is the one the table describes and D4 stays silent |
| `Learning.Learner.FindBoundary` | reference/salvage/lstar.cpp:425-426 | binary search ends at a position where the difference disappears, after as many queries as the word's length can be halved |
| `Queries.HalvingsIsLog` | reference/salvage/lstar.cpp:426 | the number of halvings is the binary logarithm of the length, rounded up |
| `Learning.Learner.RivestSchapire` | reference/salvage/lstar.cpp:410-435 | a true counterexample raises neither D2 nor D6 and yields a new suffix that splits a row; otherwise D2 is counted exactly if system and hypothesis differ on the symbol at the boundary or no suffix follows it, D6 exactly if else the suffix is in E |
| `Words.Sorted` | reference/salvage/lstar.cpp:464-467 | the suite in the order a sorted set of words keeps |
| `Words.LessExactly` | reference/salvage/lstar.cpp:464-467 | that order is the one of the first difference, a proper prefix coming first |
| `Learning.Learner.RunSuite` | reference/salvage/lstar.cpp:467-473 | the first failing test in order, or none exactly when all pass, at one query for each test up to it |
| `Learning.Learner.EqWMethod` | reference/salvage/lstar.cpp:452-474 | the first failing test, in word order, of exactly the suite S . middle . W, or none, which within the budget proves equivalence |
| `Learning.Learner.EqRandomWalk` | reference/salvage/lstar.cpp:475-486 | returns a true counterexample of 1 to 60 symbols, or none after exactly the configured number of tests, whichever words the walks happen to be |
| `Learning.Learner.Trim` | reference/salvage/lstar.cpp:510-514 | the counterexample is cut right after its first difference, and is still one |
| `Learning.Learner.Equivalence` | reference/salvage/lstar.cpp:487-491 | the configured oracle: a true counterexample, a shortest one from the exact oracle; none from an oracle that is conclusive proves equivalence |
| `Learning.Learner.Explain` | reference/salvage/lstar.cpp:509-516 | the suffix is cut from the counterexample trimmed if and only if so configured; it splits a row if the counterexample is true |
| `Learning.Learner.CloseLoop` | reference/salvage/lstar.cpp:497 | the table is closed, or S exceeds the cap on states, which closing passes by at most one |
| `Learning.Learner.Widen` | reference/salvage/lstar.cpp:515-521 | after a splitting suffix S grows, so D3 stays silent |
| `Learning.Learner.Round` | reference/salvage/lstar.cpp:496-523 | a round stops the run properly or S grows |
| `Queries.ShortestIsShort` | reference/salvage/lstar.cpp:438-451 | a shortest counterexample is no longer than there are pairs of states |
| `Queries.QueryBoundIs` | reference/salvage/lstar.cpp:493-534 | the bound on queries: t (k+1) (k+t) + t (t (k+1) + log (t n) + 2) for t distinguishable reachable states, k inputs and n states |
| `Runs.RefiningRuns` | reference/salvage/lstar.cpp:508-522 | a round's analysis, suffix and closing stay within what a round and its new access words may cost |
| `Runs.StoppedMeans` | reference/salvage/lstar.cpp:501-507 | the end of a run bounds its size and queries, a conclusive end is right and minimal, a proper end is within every cap and any other exceeds one |
| `Learning.Learner.Learn` | reference/salvage/lstar.cpp:493-534 | the whole run: terminates, all detectors silent, S bounded by the minimal size, equivalence and exact size on conclusive termination, `correct` if and only if terminated and equivalent; with the exact oracle at most the bounded number of queries, so with caps at the bounds the run always ends correct; a run ends properly only within the caps on states, rounds and, with the exact oracle, queries, and otherwise exceeds one |
| `SeqSpace.DiffInWindow` | include/tp/seq.hpp:13-16 | offsets less than 2^31 apart compare as their sequence numbers do |
| `SeqSpace.LtExactlyInWindow` | include/tp/seq.hpp:13 | within one turn the comparison is right exactly on the half-open window |
| `SeqSpace.LtTransitiveExactly` | include/tp/seq.hpp:13 | the cyclic order is transitive exactly where both steps together stay within half the space |
| `SeqSpace.LtNotAntisymmetric` | include/tp/seq.hpp:13 | two numbers precede each other exactly when half the space apart |
| `ByteStream.RunsUnique` | src/reassembly.cpp:21-27 | a sorted list of maximal runs is determined by the offsets it covers |
| `ByteStream.MergeIsUnion` | src/reassembly.cpp:28-48 | merging yields the maximal runs covering what was covered and the new bytes |
| `ByteStream.AcceptStands` | src/reassembly.cpp:8-68 | after any segment the frontier is the first missing byte and the held runs the maximal accepted runs above it |
| `Reassembling.AcceptSim` | src/reassembly.cpp:8-68 | inside the window the cyclic step is the step on offsets |
| `Reassembling.NewEndTakenForOld` | src/reassembly.cpp:15-18 | of segments ending above the frontier, exactly those 2^31 or more above it are taken for duplicates |
| `Reassembling.MergedIsSorted` | src/reassembly.cpp:49-52 | the merged list is sorted, as the code asserts |
| `Reassembling.RunRefinesBytes` | src/reassembly.cpp:8-68 | over every run in the window, however often numbers wrap, the 32-bit state is the image of the state the accepted bytes determine |
| `Reassembling.OrderIndependent` | src/reassembly.cpp:21-62 | runs covering the same bytes end in the same 32-bit state |
| `Reassembling.SameBytesSameState` | src/reassembly.cpp:21-62 | any order, duplication and re-segmentation of the same bytes in one 2^31 window ends in the same state |
| `Reassembling.AcceptAny` | src/reassembly.cpp:8-68 | for every segment that ends at most one turn beyond the frontier, as every segment of at most 2^31 bytes does, and with no assumption on the sender, the step is the one its nearest reading calls for |
| `Reassembling.BeyondOneTurn` | src/reassembly.cpp:8-68 | beyond that bound a fresh receiver holds a range that ends before it starts |
| `Reassembling.TimeReachedExactly` | include/tp/reassembly.hpp:46-50 | over a log that climbs as the receiver's does, the time returned is that at which the frontier first reached the offset, and -1 if it has not, if and only if the offset lies above the start and at most 2^31 above the first logged frontier |
| `Reassembling.IndexReachedExactly` | src/reassembly.cpp:82-86 | the advance found is the first that truly reached the offset if and only if the first logged frontier is at most 2^31 below it and less than 2^31 above it |
| `Reassembling.FoundTooEarly` | src/reassembly.cpp:82-86 | a log that starts further below is answered with an advance that had not reached the offset |
| `Reassembling.TimeReachedTooEarly` | src/reassembly.cpp:82-86 | an input: an advance 2^31 + 1 below the offset already counts as reaching it |
| `Reassembling.Reassembly.Accept` | src/reassembly.cpp:8-68 | the object's whole new state: core, advance log, duplicate and out-of-order counts |
| `Reassembling.Reassembly.Blocks` | src/reassembly.cpp:70-80 | the highest held ranges, highest first, at most max |
| `Reassembling.Reassembly.WhenReached` | src/reassembly.cpp:82-86 | the loop returns the first logged time at or beyond the number asked for |
| `NewestFirst.NewestFirstExactly` | include/tp/reassembly.hpp:38-42 | over every run in the window and for any number of blocks, the list reported is most recent first after every arrival if and only if no arrival that starts above the frontier ends below the start of a run held |
| `NewestFirst.ReportedAre` | src/reassembly.cpp:70-80 | the blocks reported after any number of arrivals are the held runs, highest first |
| `NewestFirst.FirstBlockExactly` | src/reassembly.cpp:70-80 | after one segment above the frontier the highest run contains it if and only if no run held begins beyond its end |
| `Scenarios.LaterBlocksOutOfOrder` | src/reassembly.cpp:70-80 | an input: bytes 30 to 39, 10 to 19 and 50 to 59, where the newest block comes first and the older of the other two second |
| `Scenarios.ReorderedBlockNotFirst` | src/reassembly.cpp:70-80 | an input: bytes 30 to 39 and then 10 to 19, where the older block is reported first |
| `KernelQueue.InsertTidy` | reference/xnu/tcp_input.c:626-771 | insertion keeps the queue sorted, disjoint and without empty entries |
| `KernelQueue.InsertIsUnion` | reference/xnu/tcp_input.c:626-771 | insertion adds exactly the segment's bytes |
| `KernelQueue.PresentStands` | reference/xnu/tcp_input.c:773-824 | presentation advances to the first missing byte and leaves exactly the bytes above it |
| `KernelQueue.ReassExactlyAbove` | reference/xnu/tcp_input.c:626-824 | the queue is exact for a segment if and only if it does not start below the frontier |
| `KernelQueue.InputStands` | reference/xnu/tcp_input.c:4363-4442 | with the front trimmed first, every segment is accounted for exactly |
| `KernelQueue.ReceiversAgree` | reference/xnu/tcp_input.c:626-824 | after every run in the window kernel queue and interval set have the same frontier and hold the same bytes |
| `KernelQueue.TcpInput.TcpReass` | reference/xnu/tcp_input.c:626-824 | the object's new queue and frontier |
| `KernelQueue.TcpInput.Receive` | reference/xnu/tcp_input.c:5803-5806 | trimming, the direct path and the queue together are the input step |
| `KernelQueue.DequeueCovered` | reference/xnu/tcp_input.c:711-758 | the loop removes or trims exactly the covered successors |
| `LossPolicies.DropsCostBudget` | src/policy.cpp:5-20 | every drop costs exactly one unit of budget, only drops do, and the books stay balanced |
| `LossPolicies.DropsNeverExceedBudget` | src/policy.cpp:5-20 | over any segments, drops plus remaining budget is constant, dropped equals the sum of fired and no rule exceeds its times |
| `LossPolicies.MatchIsOverlapExactly` | src/policy.cpp:7-13 | for a non-empty rule with budget the test is overlap if and only if the segment ends before offset 2^32, or the rule begins below its wrapped end, or the rule ends at or below its start |
| `LossPolicies.MatchIsOverlap` | src/policy.cpp:7-13 | so it is overlap for every segment that starts below 2^31 and is no longer than that, as the peer only asks about |
| `LossPolicies.EmptyRuleFires` | src/policy.cpp:7-13 | an empty rule fires on exactly the segments that end before offset 2^32 and strictly surround it, though they share no byte |
| `LossPolicies.DropsExactly` | src/policy.cpp:5-20 | a segment that ends before offset 2^32 is dropped if and only if it is not empty and a rule with budget left meets it |
| `LossPolicies.DropIsCharged` | src/policy.cpp:8-17 | the first rule that meets it is charged once; no bound, budget or other rule changes, and a segment that passes is charged to none |
| `Scenarios.EmptyRuleDrops` | src/policy.cpp:5-20 | an input: the rule from 5 to 5 drops the segment of bytes 0 to 9 |
| `LossPolicies.LossPolicy.Drop` | src/policy.cpp:5-20 | the verdict and the new state: the first rule with budget that overlaps is charged |
| `LossPolicies.LossPolicy.Unfired` | src/policy.cpp:22-27 | exactly the rules that never fired, in order |
| `PeerModel.TookRx` | src/peer.cpp:230-234 | taking any segment keeps receiver and advance log the image of the accepted bytes |
| `PeerModel.RunKeeps` | src/peer.cpp:168-260 | under any arrivals, drops, send failures and clock readings the invariant behind ACK safety holds |
| `PeerRuns.AcksInOrder` | src/peer.cpp:137-164 | ACKs leave in non-decreasing order of the true offsets they acknowledge |
| `PeerRuns.AcceptedArrived` | src/peer.cpp:191-236 | every accepted segment came in an arrival that the policy let pass |
| `Acks.AckCarries` | src/peer.cpp:145-154 | in the fields of every ACK on the wire: the number is the first byte missing from the segments accepted when it was queued, the blocks are the at most four highest runs held, highest first, if both SACK switches are on and none otherwise; ports, sequence number, flag 0x10, window, no payload and no other option |
| `Acks.AckedByteArrived` | src/peer.cpp:137-236 | a byte of the stream that an ACK on the wire acknowledges, by its number or a block as a receiver compares them, arrived in a segment that was not dropped |
| `Acks.OneAckEach` | src/peer.cpp:236 | every segment taken queues exactly one ACK, of the state it leaves and at its clock reading, and nothing else does |
| `Acks.FlushSends` | src/peer.cpp:141-144 | a flush attempts a prefix of the queue in order: all of it if forced, otherwise exactly up to the first not yet due |
| `Acks.FlushWaits` | src/peer.cpp:137-144 | unless forced, an ACK is attempted at the first flush at which the configured delay has passed since it was queued, and never before |
| `Acks.LeftIsSent` | src/peer.cpp:155-163 | over every run, exactly the attempts that the network let out have left |
| `Acks.CallDupAcks` | src/peer.cpp:155-161 | the duplicate ACKs a call counts are exactly its ACKs on the wire that repeat the number told before them |
| `PeerRuns.AcksRoundTrip` | src/peer.cpp:145-154 | every ACK the peer can send fits the 1500-byte frame and parses back to itself |
| `PeerRuns.UsefulAdvances` | src/peer.cpp:230 | a taken segment that spans the frontier moves it |
| `PeerRuns.ProgressUnderLoss` | src/peer.cpp:168-253 | remaining budget plus missing bytes falls with every segment that spans the frontier, so the goal is reached after at most that many |
| `PeerRuns.DeliveredIsDistance` | include/tp/reassembly.hpp:36 | the delivered count is the frontier's distance from the first byte modulo 2^32, and exactly that distance if and only if it is below 2^32 |
| `PeerRuns.ClosesExactly` | src/peer.cpp:238-242 | a segment closes a hole above the frontier exactly when it takes the frontier to the hole's end |
| `PeerRuns.HoleCloses` | src/peer.cpp:214-242 | the hole closes at the first arrival after which every byte below its end is accepted, and stays open until then |
| `PeerRuns.HeadOfLineDelay` | src/peer.cpp:214-242 | the delay recorded is that arrival's time minus the drop's, it is what the call returns unless another hole closes later, and time_reached of the hole's end gives the same advance if and only if the first logged frontier is at most 2^31 below the hole's end |
| `PeerRuns.FirstSegmentOpens` | src/peer.cpp:214-224 | under any configuration a policy that drops the first byte once makes the first data segment open such a hole |
| `PeerRuns.StaleHoleClosesExactly` | src/peer.cpp:217-238 | a hole that ended at most 2^31 below the frontier is closed by the next segment taken if and only if that does not take the frontier 2^31 or more beyond the hole's end |
| `Scenarios.StaleDropIsTimed` | src/peer.cpp:214-242 | a run: a call whose policy drops a retransmission of delivered data records a delay although nothing was missing |
| `PeerRuns.CallTells` | src/peer.cpp:214-242 | over any one call the creation time is that of the last drop that found no hole open, fill time and delay are those of the last hole closed, and closing number i closes opening number i |
| `PeerRuns.CreatedIsFirstDropExactly` | include/tp/peer.hpp:61 | the creation time returned is the first drop's if and only if no later drop of the call finds the hole closed at another time |
| `PeerRuns.DelayFitsExactly` | include/tp/peer.hpp:63 | the delay returned is the last closed hole's, and fill time minus creation time if and only if no hole is left open or the open one was opened at the same moment |
| `Scenarios.SecondHoleOverwrites` | src/peer.cpp:217-242 | a run with two rules: dropped at 0 ms, taken at 10, dropped again at 20, it reports creation at 20, fill at 10 and a delay of 10 |
| `PeerRuns.CallBooks` | src/peer.cpp:141-164 | sent plus failed equals attempts, sent equals ACKs on the wire, dropped equals the policy's count, over any one call |
| `Originals.LastOriginalIs` | src/peer.cpp:203-234 | the last-original time a call returns is that of the last segment it took that starts at or above everything seen before, dropped segments included, while segments stay within 2^31 of the highest end |
| `Originals.RetransmitsAre` | src/peer.cpp:202-208 | the retransmissions a call records are, in order, its data segments that start below something seen before, dropped ones included: time, distance from the first data byte, length |
| `Originals.StartSight` | src/peer.cpp:91 | before the first call the mark is at the first data byte and nothing has been seen |
| `Originals.OriginalExactly` | include/tp/peer.hpp:60 | with a sender that leaves no gap, the mark says that a segment carries never-before-seen bytes if and only if the segment does not straddle the highest end seen |
| `Originals.OriginalIsNew` | src/peer.cpp:203 | what is marked original carries new bytes, whatever the sender does |
| `Originals.GaplessKept` | src/peer.cpp:204 | a sender that never skips ahead leaves no gap |
| `Tallies.ForeignLeavesNoTrace` | src/peer.cpp:192 | segments of other connections can be taken out of any run without a trace |
| `Tallies.FlagBits` | src/peer.cpp:193 | reset and end are the third and the first bit of the flags, whatever the others are |
| `Tallies.LostExactly` | src/peer.cpp:213-214 | a data segment is dropped if and only if it starts less than 2^31 at or beyond the first data byte and a rule with budget left meets its true offsets |
| `Tallies.SeenExactly` | src/peer.cpp:192-245 | a call has seen a reset exactly if one of this connection came, and the end exactly if it came on an empty segment that is no reset |
| `Tallies.FirstDataIs` | src/peer.cpp:233 | the time of the first data is that of the first segment taken, or unset |
| `Tallies.TalliesExactly` | src/reassembly.cpp:12-66 | over every run the duplicate count is the number of taken segments that end at or below the first missing byte or 2^31 or more beyond it, the out-of-order count that of the others that leave it where it is, and the log holds exactly its moves with their times |
| `PeerCalls.CallOutcome` | src/peer.cpp:168-260 | a call keeps the invariant and its books, and unless reset every queued ACK was attempted and `completed` holds exactly if the target was delivered |
| `PeerCalls.CallIsPasses` | src/peer.cpp:181-254 | the events of a call: whole passes, each entered before the deadline and below the target, then all pending ACKs and the end; or one more pass up to its first reset and nothing after |
| `PeerCalls.CallSummary` | src/peer.cpp:168-260 | what a call returns, whatever arrives: the target, the flags, the duplicate ACKs and the time of the first data; after a reset nothing delivered and not complete |
| `PeerCalls.CallOriginals` | src/peer.cpp:202-234 | the last-original time and the retransmissions that a call returns are those of its events |
| `PeerCalls.CallHoles` | src/peer.cpp:168-260 | what a receive call returns about holes is what the drops and closings of its events say |
| `PeerCalls.FramesAreShort` | src/segment.cpp:157-161 | segments parsed from any frames satisfy the length assumption of every theorem about calls |
| `Peers.Peer.FlushAcks` | src/peer.cpp:141-164 | the loop ends in the state whose ACKs, order, delay and counts are those of AckCarries, FlushWaits and CallDupAcks |
| `Peers.Peer.OnTaken` | src/peer.cpp:230-242 | accept, acknowledge, close the hole: the whole new state |
| `Peers.Peer.OnData` | src/peer.cpp:201-242 | the whole new state: the mark and the record that RetransmitsAre describes, then dropped or taken |
| `Peers.Peer.Receive` | src/peer.cpp:168-260 | the nested loop ends in the state its events determine, a reset ending it with nothing flushed |
| `Checksum.TotalConcat` | include/tp/checksum.hpp:5-7 | sums chain over blocks of even length |
| `Checksum.TotalByPlace` | include/tp/checksum.hpp:14-21 | bytes at even places are high halves and bytes at odd places low halves, whatever the length |
| `Checksum.CarryKeepsReduce` | include/tp/checksum.hpp:29 | adding carries back leaves the one's-complement reduction alone |
| `Checksum.OwnChecksumFoldsToZero` | include/tp/checksum.hpp:28-31 | an accumulator plus its own checksum never overflows 32 bits and folds to zero |
| `Checksum.StoredChecksumVerifies` | include/tp/checksum.hpp:14-31 | a checksum stored in a zeroed field at an even offset makes the block verify, whatever its length and although the accumulator wraps |
| `Checksum.SumBe16` | include/tp/checksum.hpp:14-21 | the loop computes the big-endian word sum modulo 2^32, an odd last byte as a high half |
| `Checksum.FoldCarries` | include/tp/checksum.hpp:28-31 | the loop computes the complement of the one's-complement reduction |
| `Wire.WireLenIsEncoded` | src/segment.cpp:29-40 | the counted length is the length encoded, a multiple of four |
| `Wire.BlocksRoundTrip` | src/segment.cpp:68-73 | SACK blocks are read back in order |
| `Wire.OptionsRoundTrip` | src/segment.cpp:175-205 | the option walk reads back every option the encoder wrote |
| `Packets.RoundTripExactly` | src/segment.cpp:90-210 | for every segment the builder accepts, parsing the frame returns the segment if and only if the packet is at most 65535 bytes long |
| `Packets.IpHeaderVerifies` | src/segment.cpp:118 | every IP header built folds to zero |
| `Packets.TcpSegmentVerifies` | src/segment.cpp:133-140 | pseudo-header and segment, chained, fold to zero for every payload |
| `Packets.TcpSegmentVerifiesTruly` | src/segment.cpp:133-140 | within the length field that is the RFC 1071 sum over the two laid end to end |
| `Packets.ParsedIsShort` | src/segment.cpp:157-161 | a parsed payload is at most 65495 bytes |
| `Layout.FrameIs` | src/segment.cpp:104-131 | every byte of a built frame but the checksums: family, IP and TCP fields at their places, addresses, options, payload |
| `Layout.FrameSums` | src/segment.cpp:118-140 | both checksums as a receiver computes them from the frame alone, with the pseudo-header read off it, sum to all ones |
| `Layout.ParsesExactly` | src/segment.cpp:144-166 | a frame is read if and only if its family is 2, it is IPv4 with a header of at least 20 bytes, carries TCP, its length field fits the frame and holds both headers, and the data offset is between 20 and the segment length |
| `Layout.ParsedIs` | src/segment.cpp:168-209 | the numbers, options and payload read lie where the header lengths and the length field say |
| `Layout.OptionsMean` | src/segment.cpp:175-205 | every option field is a list of options and an end; of each kind the last of its proper length counts, the blocks of all SACK options add up, and no other option says anything |
| `Layout.OthersIgnored` | src/segment.cpp:183-204 | an option of unknown kind, or of known kind with another length, changes nothing |
| `Layout.BlocksAre` | src/segment.cpp:194-197 | a SACK body is read as many blocks as fit, eight bytes each, start and end |
| `Layout.OptionFieldIs` | src/segment.cpp:42-77 | the encoder spells the options in order with their kinds and lengths and pads with zeros to a multiple of four |
| `Layout.BlocksWritten` | src/segment.cpp:68-73 | block i is written at byte 8 i, start and end in network order |
| `Codec.Encode` | src/segment.cpp:42-77 | the moving index writes exactly the option field and nothing beyond |
| `Codec.Build` | src/segment.cpp:90-142 | writes exactly the frame, whose every field stands where FrameIs says, and leaves the rest of the buffer; or refuses with the buffer untouched exactly when the options exceed 40 bytes or the frame the buffer |
| `Codec.WalkOptions` | src/segment.cpp:175-205 | the loop is the option walk, with every malformed option stopping it |
| `Codec.ParseFrame` | src/segment.cpp:144-210 | returns a segment if and only if the frame holds one, and then the numbers, options and payload at their places |
| `Limiter.KernelWindowGrantsExactly` | reference/xnu/tcp_input.c:486-512 | from a new connection, after any calls, the window a call opens grants exactly the smaller of the calls within 1000 ms of it and max(1, limit) |
| `Limiter.TwinWindowGrants` | reference/salvage/lstar_measurements/discriminate.cpp:87-90 | the same of the simulated limiter, from any state |
| `Limiter.KernelIntervalBound` | reference/xnu/tcp_input.c:486-512 | from a new connection, whatever was called before, any 1000 ms interval is granted at most 2 * max(1, limit) - 1 |
| `Limiter.TwinIntervalBound` | reference/salvage/lstar_measurements/discriminate.cpp:87-90 | the same of the simulated limiter |
| `Limiter.KernelBoundAttained` | reference/xnu/tcp_input.c:486-512 | the kernel attains that bound for every limit: one call at 1 ms, the rest of the quota at 1000 ms, a whole quota at 1001 ms |
| `Limiter.TwinBoundAttained` | reference/salvage/lstar_measurements/discriminate.cpp:87-90 | the simulated limiter attains it too |
| `Limiter.TwinAnswersAlike` | reference/salvage/lstar_measurements/discriminate.cpp:78-95 | the twin answers every call as the kernel does, over non-zero times less than 2^31 ms after the anchor, however often the clock wraps |
| `Limiter.OpensAlikeExactly` | reference/xnu/tcp_input.c:493-498 | within one turn they agree on opening a window exactly when fewer than 2^31 ms have passed |
| `Limiter.ZeroClockGrants` | reference/xnu/tcp_input.c:498-503 | at clock reading zero every call is granted if the first opens a window, and otherwise exactly as many as the open window has left |
| `Limiter.ZeroClockLimitsExactly` | reference/xnu/tcp_input.c:498-503 | so all are granted if and only if a window opens there or the open one has room for all |
| `Limiter.OpeningKeepsStepExactly` | reference/xnu/tcp_input.c:498-499 | a call that opens a window leaves kernel and twin in step if and only if the clock does not read zero |
| `Limiter.ZeroOpeningParts` | reference/xnu/tcp_input.c:498-499 | after an opening at zero the kernel grants every further call at that time, the twin only up to the quota |
| `Limiter.PerConnectionIsDeterministic` | reference/salvage/lstar_measurements/discriminate.cpp:74-95 | after a reset the answers to a query of any length depend on the word alone, not on the clock reading or earlier queries |
| `Limiter.ShortQueriesAreClockFree` | reference/salvage/lstar_measurements/discriminate.cpp:74-95 | up to 5000 steps, which is the 1000 ms window, they are those of a clock-free machine over base state and grant count |
| `Limiter.Tcpcb.IsAckRateLimited` | reference/xnu/tcp_input.c:486-512 | the verdict and the new fields; the overflow guard never bites |
| `Limiter.PerConnCounter.Step` | reference/salvage/lstar_measurements/discriminate.cpp:84-94 | output, new state, and the granted and suppressed counters |
| `Rtt.SmoothedInHull` | reference/xnu/tcp_input.c:6715-6752 | one sample keeps the hull in spite of floor shifts and neither clamp to one fires |
| `Rtt.EstimatorHull` | reference/xnu/tcp_input.c:6715-6766 | srtt stays between 32 times the extremes of the samples and rttvar between 1 and max(8 first, 16 (largest - smallest)) |
| `Rtt.ConstantIsExact` | reference/xnu/tcp_input.c:6729-6765 | constant samples from the first on are reproduced exactly |
| `Rtt.EstimatorFits` | reference/xnu/tcp_input.c:6657-6766 | over any samples both fields stay below 2^21 |
| `Rtt.Settles` | reference/xnu/tcp_input.c:6729-6734 | a steady round trip is found from any estimate, to within the 7/32 ms the floor shift cannot tell |
| `Rtt.FirstSample` | reference/xnu/tcp_input.c:6753-6765 | the first sample, held between 1 ms and 60 s, gives srtt 32 times and rttvar 8 times the sample |
| `Rtt.StepInNumbers` | reference/xnu/tcp_input.c:6729-6752 | one step moves srtt to 7/8 srtt + 1/8 of the sample and rttvar to 3/4 rttvar + the deviation, each to within one unit |
| `Rtt.VarianceFollows` | reference/xnu/tcp_input.c:6746-6752 | rttvar rises if and only if the deviation exceeds a quarter of it and falls if and only if it is below |
| `Rtt.SteadyIsFound` | reference/xnu/tcp_input.c:6729-6752 | from any estimate steady samples bring srtt into the band and rttvar down to at most 3 within a bounded number of samples |
| `Rtt.Tcpcb.XmitTimer` | reference/xnu/tcp_input.c:6643-6766 | the new srtt and rttvar are those of FirstSample and StepInNumbers |

## Left out

- `FlakySUL`, `ChallengeSUL`, `DetBugSUL`, alphabet minimisation and the drivers of lstar.cpp and discriminate.cpp: statistical or driver code.
- Learning.Learner.EqRandomWalk: which words are walked is left open, so nothing is said about how likely a counterexample is found.
- Learning.Learner.Learn: without the exact oracle it asks for at least one input symbol, because the code's fallback suffix is input 0.
- Log strings, seconds and the counters of Rivest-Schapire queries, suite size and tests run.
- KernelQueue.TcpInput.TcpReass: leaves out the queue limit, FIN flags, the in-progress flag, statistics and mbufs.
- KernelQueue.TcpInput.Receive: leaves out right-window trimming and the flags of the input path.
- KernelQueue.ReceiversAgree: assumes every segment starts and ends within 2^31 of the frontier of its time; receive-window right trimming, FIN-only segments, queue limits, mbuf accounting, DSACK fields and the in-progress flag are not modelled, and the queue is a sequence, not a linked list.
- Limiter.ShortQueriesAreClockFree: rounding of the simulated clock is not modelled.
- Limiter.KernelWindowGrantsExactly: the limit is constant over a run; changing the sysctl between calls is not modelled.
- Peers.Peer.constructor: starts from the established connection; the handshake, `burst`, `reset`, sockets, poll, the Mach clock and the trace output are not modelled, and the receiver is created with the peer where the code creates it on the first call.
- Peers.Peer.Receive: a script that runs out stands for the deadline passing; counters are unbounded where the code has `int`.
- Originals.LastOriginalIs: assumes every data segment starts and ends within 2^31 of the highest end seen.
- Originals.RetransmitsAre: assumes the same; a distance of 2^31 or more from the first data byte is told as 32 bits tell it.
- Tallies.FirstDataIs: assumes that no segment was observed before the origin of time.
- Acks.AckedByteArrived: speaks of bytes less than 2^31 beyond the ACK's number, since comparison means nothing further out.
- Rtt.Tcpcb.XmitTimer: takes four maximum segment lifetimes as 60 seconds, as the code's comment says; base RTT, best RTT, the spurious-timeout recomputation and the AWDL exception are not modelled.
- `src/utun.cpp`, `src/clock.cpp`, `src/sysctl.cpp`, `src/trace.cpp`, the experiments, the rest of the XNU sources including CUBIC, RACK and timers.
