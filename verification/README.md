# KVJet: verified model

A Dafny 4.11 model of the core of KVJet, a distributed in-memory key/value store, with machine-checked proofs of what
its parts promise. `dafny verify dfyconfig.toml` checks everything.

| part | files | what is established |
|---|---|---|
| RESP codec | `RespValue`, `RespEncoder`, `RespMachine`, `RespParser`, `RespRoundTrip`, `RespInvariant` | encoding then parsing is exact in every parsing context and for every chunking; the parser's own checks never fire |
| Raft member | `Raft`, `RaftInvariant`, `Exchange`, `CommitRule`, `RaftNode`, `RaftDisk` | per-member invariant under arbitrary messages; the commit rule; what a message and its answer achieve; the timers; the log on disk |
| Raft group | `RaftGroup`, `ElectionSafety`, `LogMatching`, `ReplySafety`, `GroupRuns`, `GroupProgress`, `ElectionLimits`, `LogLimits`, `ReplyLimits` | one leader per term, command-level log matching and no read beyond a leader's log over whole runs, exactly when each holds, and runs of every group in which it does not; runs, with their number of steps, that elect a member and get a command to all |
| Hash table | `HashTableSpec`, `HashTableRefinement`, `HashTable`, `Crowding`, `Snapshot`, `SnapshotFile` | the table is a map, over every sequence of calls; how tombstones crowd it; the snapshot round trip |
| Store | `LruSpec`, `Lru`, `StoreSpec`, `KvStore`, `StoreLimits`, `Replay`, `Requests`, `ReplayLimits`, `Aof`, `Applying` | recency order and eviction; the shards are one map; what each request does to it; log and replay, exactly when replay succeeds; calls and logs that the store refuses; committed commands applied to the store |
| The program's hash | `StringHash`, `ProgramLimits` | the string hash and the sixteen shards of the program reach those states |
| Ring | `Mixer`, `Ring`, `Replicas`, `Cluster` | minimal movement; the replica walk; when virtual points collide |
| Placement | `Placement`, `PlacedGroups` | every node computes the same groups, and these are groups the protocol theorems cover |

`Sequences`, `Text`, `Decimal` and `Wrappers` hold shared vocabulary. `Formats` writes out the bytes of each encoding for given
values.

How the C++ program appears in the model:

- A byte is a `char`; a `std::string` is a `string`; 64-bit and 32-bit widths are written out where they matter
  (term counters, size headers, index arithmetic, the mixer, fixed-width integers in snapshots).
- An object with updated fields is a class. Its methods are proved against functions on values, and the theorems about
  sequences of calls are about those functions.
- A C++ exception is an outcome. Undefined behaviour (a dereferenced empty optional, a signed overflow, an index out of
  range) is an outcome of its own, and a lemma says exactly when it happens.
- Hash functions, clocks, random numbers and read sizes are parameters, so every statement holds for all of them. The
  number of shards and the capacity of an LRU are parameters too. `StringHash` and `ProgramLimits` put in the string hash
  of the program and its sixteen shards, whose keys have but one home bucket in sixteen, and give keys that the store
  can receive.
- Each section of code under a lock is one atomic step; `propose` is two, with a step-down possible between them. In a
  Raft group the network keeps every packet ever sent, so a packet may be delivered never, late, out of order or many
  times.
- A run of a Raft group ends where its behaviour becomes undefined, at a read beyond a leader's log.
  `NeverOutOfRangeExactly` says when no run ends like that.
- A `Policy` names three checks that the code does not make: that a vote is counted in the term it was granted in only
  (`timely`), that the second section of `propose` is run by a leader only (`guarded`), and that a success reply is
  counted in its own term only (`current`). The theorems say exactly what holds with and without each.

Some promises are false of the code as they stand. Each is shown failing, with the exact condition under which it holds:

- The table throws on a lookup when no bucket is empty and the key is absent, which tombstones can bring about even in
  an empty table, for good (`EmptyTableThrows`, `RunStuck`). In the store, where a table only has the keys of one shard,
  it cannot happen before the table has grown (`OneHomeNeverThrows`); sixteen keys set and deleted, and then sixteen
  more, bring it about after that (`ShardStuckForGood`, `ProgramShardStuck`).
- A table reloaded from a snapshot loses keys whose probe path crossed a tombstone (`LookupsAgree`, `ReloadLosesKey`).
- Two leaders in one term are possible in every group when a vote is counted in a later term than it was granted in, and
  in every group of four or more even on timely votes (`OneLeaderExactly`).
- Logs stop matching when the second locked section of `propose`, which does not look at the role again, runs after its
  member has stepped down (`FormerLeaderBreaksMatching`, `LogMatchingExactly`).
- A leader reads beyond its log when a quorum of members claim a longer one. Followers report their whole last index, so
  this happens in groups of three even with timely votes and guarded second sections, on a reply of an earlier term, and
  in groups of two and three without either of these checks (`NeverOutOfRangeExactly`).
- The replica walk never ends when the ring has fewer owners than asked for and some owner has several points
  (`HaltsExactlyWhen`), for instance on every ring of one node whose id the mixer does not map to itself
  (`LoneNodeWalk`).
- The Raft log on disk comes back only if no command holds a newline (`LoadExactly`). After a truncation disk and log are
  in step only if the last new entry has filled the write buffer (`InSyncAfter`); otherwise a reload doubles what was
  buffered (`RestartAfterTruncation`).
- The commit index of a follower can fall (`CommitFallsExactly`), but no entry is handed out for application twice
  (`AppliedOnce`).
- An append-only file replays completely only if no command is refused at its turn (`Restart`). SETs alone can be
  refused: evictions leave tombstones in the index of an LRU until it has no empty bucket, and then a new pair is stored
  and its SET throws (`EvictionsRefuse`, `SetsAloneRefused`). `ServeSet` says when log and store part ways.
- What a member applies is the SET that its master stored only if the key is one word and the value a simple string of one
  word, because commands travel as text that is cut up at white space (`SetSurvives`). Other SETs change kind, set another
  key (`BulkBecomesSimple`, `WrongKeySet`), or are refused by every member and stop the batch (`UnappliedBatch`).
- A snapshot file that was cut short is never taken for a table, but what is read in its place is left open
  (`TornSnapshot`).
- `docs/Cluster.md` says a node may be replica in all three of its groups; the code makes it master of exactly one, and
  with fewer than three nodes it is in fewer than three groups (`ThreeGroupsOneMaster`).

## Model

| member | source | states |
|---|---|---|
| `RespEncoder.EncodeSimpleString` | src/resp/RespEncoder.cpp:4-11 | appends exactly the encoding of the simple string to the given string |
| `RespEncoder.EncodeError` | src/resp/RespEncoder.cpp:12-19 | appends exactly the encoding of the error |
| `RespEncoder.EncodeInteger` | src/resp/RespEncoder.cpp:20-27 | appends exactly the encoding of the integer, for every int64 |
| `RespEncoder.EncodeBulkString` | src/resp/RespEncoder.cpp:28-41 | appends exactly the encoding of the bulk string, nil included |
| `RespEncoder.EncodeArray` | src/resp/RespEncoder.cpp:42-66 | the element loop with its recursion appends the encoding of the whole nested array |
| `RespEncoder.EncodeValue` | src/resp/RespEncoder.cpp:68-83 | encode dispatches every alternative to the same encoding |
| `RespParserClass.RespParser.constructor` | src/resp/RespParser.cpp:7-8 | a new parser waits for a type byte with nothing pending and nothing queued |
| `RespParserClass.RespParser.Push` | src/resp/RespParser.cpp:190-213 | push, with its stack collapse, does what the machine does; it ends on stack depth and never reports a syntax error |
| `RespParserClass.RespParser.SizeDigit` | src/resp/RespParser.cpp:59-74 | a size digit opens the container and accumulates modulo 2^64 |
| `RespParserClass.RespParser.LineByte` | src/resp/RespParser.cpp:107-145 | one byte of text or of an integer, with sign marker and signed overflow |
| `RespParserClass.RespParser.Consume` | src/resp/RespParser.cpp:11-169 | one byte through the switch agrees with the machine; a syntax error leaves the parser as it was |
| `RespParserClass.RespParser.Append` | src/resp/RespParser.cpp:9-171 | a chunk has the effect of running the machine over it; on a syntax error everything before the offending byte stays read |
| `RespParserClass.RespParser.HasResult` | src/resp/RespParser.cpp:178-180 | true exactly when a result is queued |
| `RespParserClass.RespParser.GetResult` | src/resp/RespParser.cpp:181-188 | hands out and removes the oldest queued value, or nothing |
| `RespParserClass.RespParser.Reset` | src/resp/RespParser.cpp:172-177 | reset gives back a new parser's state |
| `RespMachine.ChunkIndependence` | src/resp/RespParser.cpp:9-171 | for every state and input, feeding chunks is feeding their concatenation, faults included |
| `RespRoundTrip.RoundTripInContext` | src/resp/RespParser.cpp:9-213 | whatever is pending on the stack, the encoding of any nested value has exactly the effect of delivering that one value |
| `RespRoundTrip.IntValue` | src/resp/RespParser.cpp:121-140 | every int64, the minimum included, comes back without overflow |
| `RespRoundTrip.StreamRoundTrip` | src/resp/RespParser.cpp:9-171 | concatenated encodings queue exactly those values in order |
| `RespRoundTrip.StreamInChunks` | src/resp/RespParser.cpp:9-188 | so do they when cut into chunks anywhere |
| `RespInvariant.PushValid` | src/resp/RespParser.cpp:190-213 | push keeps every stacked frame a non-nil array short of its declared count, and cannot fail |
| `RespInvariant.StepValid` | src/resp/RespParser.cpp:11-169 | each byte keeps the state invariant; mismatch and stack-error throws are unreachable; undefined exactly on an empty size header or an integer overflow |
| `RespInvariant.RejectsExactly` | src/resp/RespParser.cpp:11-169 | a byte is a syntax error if and only if it is none of those that the syntax allows in the parser's state |
| `RespInvariant.LastDigit` | src/resp/RespParser.cpp:121-140 | of the digits that would complete an integer of nineteen, exactly 8 and 9 above zero and 9 below overflow |
| `RespInvariant.RunValid` | src/resp/RespParser.cpp:9-171 | the same over every byte stream, with the exact place where behaviour becomes undefined |
| `RespInvariant.RoundTripExactly` | src/resp/RespEncoder.cpp:4-83 | encoding then parsing gives the value back if and only if its line texts hold no carriage return and its sizes fit a size_t |
| `Formats.RespLines` | src/resp/RespEncoder.cpp:4-41 | the bytes of a simple string, an error, an integer, a nil bulk string and a nil array |
| `Formats.RespData` | src/resp/RespEncoder.cpp:28-41 | the bytes of bulk strings, one of them with a line end inside |
| `Formats.RequestBytes` | src/resp/RespEncoder.cpp:42-66 | the bytes of a SET request |
| `Formats.NoElements` | src/resp/RespEncoder.cpp:42-66 | the bytes of an empty array |
| `RespInvariant.QueueIndependence` | src/resp/RespParser.cpp:178-219 | taking results out early or late does not change what is parsed |
| `RespInvariant.ProperPrefixYieldsNothing` | src/resp/RespParser.cpp:9-171 | a proper prefix of an encoding is accepted and delivers nothing |
| `RespInvariant.PrefixFree` | src/resp/RespEncoder.cpp:68-83 | the encoding is injective and prefix-free |
| `RespInvariant.TornStream` | src/resp/RespParser.cpp:9-171 | a stream cut inside a value yields exactly the whole values before the cut |
| `CommitRule.CommitPointCounts` | src/raft/RaftNode.cpp:246-250 | the element at quorum position reaches n if and only if a quorum of members, self included, reaches n |
| `CommitRule.CommitPointInRange` | src/raft/RaftNode.cpp:250-251 | the read of log[newCommit] is in range if and only if fewer than a quorum claim to be past the leader's last index |
| `CommitRule.HonestReportsInRange` | src/raft/RaftNode.cpp:244-253 | match indices up to the leader's last index keep the commit point within the log |
| `CommitRule.QuorumsIntersect` | src/raft/RaftNode.cpp:249 | any two quorums of peers/2+1 share a member if and only if the group size is odd |
| `Raft.MergeShape` | src/raft/RaftNode.cpp:187-201 | the append loop either keeps the log and grows its end, or cuts at the first clashing label and refills from the message |
| `Raft.MergeKeepsAndLabels` | src/raft/RaftNode.cpp:190-199 | entries before the new ones stay; every new index carries the message term |
| `RaftInvariant.StepKeepsInvariant` | src/raft/RaftNode.cpp:94-348 | every locked section keeps the sentinel, sorted and bounded log terms, a candidate's own vote and nextIndex of at least 1; term and applied index never fall |
| `RaftInvariant.TermNeverDecreases` | src/raft/RaftNode.cpp:94-108 | the term falls in exactly one case, an election started at the largest 64-bit term |
| `RaftInvariant.RunKeepsInvariant` | src/raft/RaftNode.cpp:74-385 | the invariant over every run of arbitrary decoded messages from an empty log |
| `RaftInvariant.AdvanceCommitRule` | src/raft/RaftNode.cpp:244-253 | the commit index moves exactly to the largest index a quorum reached, only upwards and only onto a current-term entry |
| `RaftInvariant.LargestReachedExists` | src/raft/RaftNode.cpp:246-250 | there always is a largest index reached by a quorum |
| `RaftInvariant.AppendReplyDefined` | src/raft/RaftNode.cpp:215-253 | handling a reply is undefined exactly when it makes a quorum claim an index beyond both the log and the commit index, in every state, truncated logs included |
| `RaftInvariant.CommitFallsExactly` | src/raft/RaftNode.cpp:206-207 | the commit index falls in exactly two cases, both with a log that ends before it |
| `RaftInvariant.CommitCanFall` | src/raft/RaftNode.cpp:206-207 | two messages after which it has fallen |
| `RaftInvariant.AppliedOnce` | src/raft/RaftNode.cpp:376-385 | over every run takePendingApply hands out indices in ascending order, none twice |
| `RaftInvariant.PendingComplete` | src/raft/RaftNode.cpp:376-385 | a batch holds the entry of every index above the applied and up to the committed one, as far as the log goes, and nothing else |
| `RaftInvariant.HandedOutExactly` | src/raft/RaftNode.cpp:376-385 | over every run, the indices handed out are exactly those that the applied index passes while the log reaches them |
| `RaftInvariant.AloneCommits` | src/raft/RaftNode.cpp:312-322 | a member without peers commits every command it is given, and has all of them to apply |
| `Exchange.Delivered` | src/raft/RaftNode.cpp:335-348 | delivered, a leader's message is accepted if and only if the logs meet; then the recipient's commit index is the leader's up to its own last index, or its old one if that is no less |
| `Exchange.DeliveredLog` | src/raft/RaftNode.cpp:186-201 | and its log has every command of the leader's from there on; what lay beyond goes if and only if a label changed |
| `Exchange.RecipientFollows` | src/raft/RaftNode.cpp:176-178 | whoever gets AppendEntries of its own term or a later one is in that term and no candidate, accepted or not; when its vote lasts |
| `Exchange.CatchUp` | src/raft/RaftNode.cpp:237-241 | from any nextIndex, a leader is refused exactly as often as it has to go back to the last entry before which the logs meet |
| `Exchange.CaughtUp` | src/raft/RaftNode.cpp:335-348 | the message that is then accepted brings every command past that entry |
| `Exchange.UpToDateHeartbeat` | src/raft/RaftNode.cpp:233-236 | a member that answers with the leader's last index gets an empty message next; it brings it the leader's commit index if and only if the member holds the leader's label there, and is refused if it has relabelled the entry |
| `Exchange.StaleSenderStepsDown` | src/raft/RaftNode.cpp:168-172 | a leader or candidate of an earlier term changes nothing at the recipient, and the refusal makes it a follower in the recipient's term |
| `Exchange.VoteExactly` | src/raft/RaftNode.cpp:257-284 | a candidate's request is granted if and only if the voter is free in that term and the candidate's log is at least as new |
| `Exchange.NewnessOrders` | src/raft/RaftNode.cpp:273-274 | newness of logs is a total preorder that extends the prefix order, so one member's log is always good enough for all |
| `Exchange.WinsExactly` | src/raft/RaftNode.cpp:302-307 | a granted reply makes a candidate lead if and only if it and the replies counted are more than half of its peers |
| `Exchange.NewLeaderProbes` | src/raft/RaftNode.cpp:110-116 | a new leader first asks every peer about its own last entry, and counts nothing as stored there |
| `Exchange.StrayReply` | src/raft/RaftNode.cpp:215-308 | replies that a member is not waiting for change nothing |
| `Exchange.NewerReply` | src/raft/RaftNode.cpp:215-308 | a reply of a later term makes whoever waits for it a follower in that term, log and commit index untouched |
| `Exchange.OutOfRole` | src/raft/RaftNode.cpp:120-138 | a leader calls no election; nobody else sends heartbeats or takes commands |
| `RaftNodeClass.RaftNode.constructor` | src/raft/RaftNode.cpp:74-79 | a new node holds the sentinel only |
| `RaftNodeClass.RaftNode.Start` | src/raft/RaftNode.cpp:80-87 | the rest of construction: the log is the sentinel plus the file's entries, all committed and none applied; a node without peers leads |
| `RaftNodeClass.RaftNode.ResetElectionTimer` | src/raft/RaftNode.cpp:89-92 | the timer lands between 150 and 300 for every random number |
| `RaftNodeClass.RaftNode.BecomeFollower` | src/raft/RaftNode.cpp:94-100 | new term, no vote, no count; nothing else changes |
| `RaftNodeClass.RaftNode.BecomeCandidate` | src/raft/RaftNode.cpp:102-108 | next term (modulo 2^64), own vote; nothing else changes |
| `RaftNodeClass.RaftNode.BecomeLeader` | src/raft/RaftNode.cpp:110-116 | every nextIndex after the last entry, every matchIndex zero |
| `RaftNodeClass.RaftNode.Tick` | src/raft/RaftNode.cpp:120-138 | flushes the disk buffer; broadcasts or starts an election exactly when the timer is due, and leaves both timers as the countdown says |
| `RaftNodeClass.KeepsQuiet` | src/raft/RaftNode.cpp:89-138 | for 149 ticks after a reset of its timer a member sends nothing and changes nothing |
| `RaftNodeClass.CallsElection` | src/raft/RaftNode.cpp:89-138 | and by the 300th it has asked every peer for its vote in the next term |
| `RaftNodeClass.BeatsOnce` | src/raft/RaftNode.cpp:120-130 | in any 50 ticks a leader sends to its peers exactly once |
| `RaftNodeClass.RaftNode.SendToPeers` | src/raft/RaftNode.cpp:327-328 | the loop sends each peer the AppendEntries for its nextIndex, whatever the role |
| `RaftNodeClass.RaftNode.Step` | src/raft/RaftNode.cpp:142-155 | dispatch leads to the step of the model, and is undefined exactly where that is |
| `RaftNodeClass.RaftNode.HandleAppendEntries` | src/raft/RaftNode.cpp:159-211 | state and reply follow the model; file and buffer follow from the old ones, the old log and the message alone |
| `RaftNodeClass.RaftNode.AppendLoop` | src/raft/RaftNode.cpp:187-201 | the in-place loop computes the merged log, appends exactly the pushed entries to the disk, and reports a truncation exactly when a label clashes |
| `RaftNodeClass.RaftNode.HandleAppendReply` | src/raft/RaftNode.cpp:215-242 | follows the model: step down, advance, or back off and resend |
| `RaftNodeClass.RaftNode.AdvanceCommitIndex` | src/raft/RaftNode.cpp:244-253 | follows the commit rule, changing the commit index only |
| `RaftNodeClass.RaftNode.HandleRequestVote` | src/raft/RaftNode.cpp:257-284 | follows the model: refuse, step down, grant at most to the recorded candidate |
| `RaftNodeClass.RaftNode.HandleVoteReply` | src/raft/RaftNode.cpp:288-308 | follows the model: count grants, lead on a quorum |
| `RaftNodeClass.RaftNode.Propose` | src/raft/RaftNode.cpp:312-324 | a leader's entry is appended with its term and reaches the disk in step; anyone else does nothing |
| `RaftNodeClass.RaftNode.SendProposed` | src/raft/RaftNode.cpp:325-330 | the second locked section sends AppendEntries to every peer, whatever the role has become |
| `RaftNodeClass.RaftNode.TakePendingApply` | src/raft/RaftNode.cpp:376-385 | hands out every entry between applied and committed, once and in order |
| `RaftNodeClass.RaftNode.AppendToDisk` | src/raft/RaftNode.cpp:389-399 | file and buffer together grow by the entry's line, whether or not the threshold flushed; fewer than 1024 bytes stay buffered |
| `RaftNodeClass.RaftNode.FlushDisk` | src/raft/RaftNode.cpp:401-409 | the buffer moves to the file |
| `RaftNodeClass.RaftNode.RewriteDisk` | src/raft/RaftNode.cpp:411-415 | the file spells the log without its sentinel; the buffer stays |
| `RaftNodeClass.RaftNode.LoadFromDisk` | src/raft/RaftNode.cpp:417-433 | the getline loop loads what the file spells, and throws exactly on a term that stoull does not read |
| `RaftDisk.LoadExactly` | src/raft/RaftNode.cpp:389-433 | loading a spelled log gives it back if and only if commands are newline-free and terms fit 64 bits |
| `RaftDisk.TermText` | src/raft/RaftNode.cpp:425 | what a term amounts to that has white space, a sign, digits and anything after them, as stoull reads it |
| `RaftDisk.TermForm` | src/raft/RaftNode.cpp:425 | text of any other form is an exception |
| `Formats.RaftLogLines` | src/raft/RaftNode.cpp:389-391 | the lines of two entries |
| `RaftDisk.InSyncAfter` | src/raft/RaftNode.cpp:187-203 | a disk in step with the log stays so if and only if no label clashes, or the last new entry fills the write buffer |
| `RaftDisk.SmallTruncationDoubles` | src/raft/RaftNode.cpp:202-203 | after a truncation below the buffer threshold, disk and log are out of step: file and buffer spell the buffered and the new entries twice |
| `RaftDisk.TruncationExample` | src/raft/RaftNode.cpp:187-203 | one entry replaced by another comes back twice from a flush and reload |
| `RaftNodeClass.RestartAfterFlush` | src/raft/RaftNode.cpp:376-433 | flush and load rebuild the same log; the first apply batch is the whole log once in order |
| `RaftNodeClass.RestartAfterTruncation` | src/raft/RaftNode.cpp:401-433 | after a truncation, flush and load give the log followed once more by the entries still buffered |
| `RaftGroup.SentMessages` | src/raft/RaftNode.cpp:159-354 | every message goes to a peer or back, with the sender's term; AppendEntries come from leaders or from the second section of propose, a vote goes only to the requester recorded |
| `RaftGroup.RoleSteps` | src/raft/RaftNode.cpp:94-138 | a leader leads until its term ends; leaders come only from candidates, on a granted reply |
| `RaftGroup.BaseRun` | src/raft/RaftNode.cpp:74-385 | in every run of a group, up to the first undefined behaviour, all members keep their invariant and whoever led a term still leads it or is past it |
| `RaftGroup.SecondSectionDefined` | src/raft/RaftNode.cpp:325-330 | whoever runs the second section of propose has led, so its vectors are filled |
| `ElectionSafety.NewGrant` | src/raft/RaftNode.cpp:257-284 | a new vote is the voter's only vote in that term, by a follower that has not led it |
| `ElectionSafety.FollowerKeepsVote` | src/raft/RaftNode.cpp:94-100 | within a term a follower that voted keeps its vote, although stepping down clears it |
| `ElectionSafety.VoteRun` | src/raft/RaftNode.cpp:257-308 | over every run with timely votes: votes stand and are unique, every leader has a vote, no leader votes in its own term |
| `ElectionSafety.OneLeader` | src/raft/RaftNode.cpp:94-116 | in groups of at most three with timely votes, two leaders of one term at any two moments of a run, up to the first undefined behaviour, are the same member |
| `ElectionLimits.OneLeaderExactly` | src/raft/RaftNode.cpp:288-308 | in every fully connected group, all runs have one leader per term if and only if votes are timely and there are at most three members |
| `ElectionLimits.StaleVotesElectTwo` | src/raft/RaftNode.cpp:294-307 | in every group, a run with two leaders in term 3 on old votes, because a reply's term is not compared |
| `ElectionLimits.FourMembersElectTwo` | src/raft/RaftNode.cpp:302-306 | in every group of four or more, a run with two leaders in term 1 on timely votes, because replies are not counted per voter |
| `GroupRuns.WinAct` | src/raft/RaftNode.cpp:302-306 | one granted reply makes a candidate leader when it has been delivered so often that the count exceeds half of the peers, and no sooner |
| `GroupProgress.ForemostWins` | src/raft/RaftNode.cpp:257-308 | in a group of any size, a member whose term and log no peer is ahead of wins on one timeout, v votes and v replies, with the smallest v that is enough |
| `GroupProgress.CommandReachesAll` | src/raft/RaftNode.cpp:159-385 | a new group of any size elects any member and gets a command to all of them in 4 + 4v + peers steps, after which every member has exactly that command to apply |
| `LogMatching.ConsistentAgrees` | src/raft/RaftNode.cpp:180-184 | passing the consistency check means agreeing with the leader's commands up to the previous entry |
| `LogMatching.MergeTraced` | src/raft/RaftNode.cpp:187-201 | merging keeps every label leading to a term log that agrees with this log up to it |
| `LogMatching.LeaderSendsOk` | src/raft/RaftNode.cpp:335-348 | what a leader sends repeats its own term's log, and its previous label leads to an agreeing one |
| `LogMatching.LogStep` | src/raft/RaftNode.cpp:159-348 | every step of a group whose second sections of propose are run by leaders keeps all logs and messages traced to append-only term logs |
| `LogMatching.CommandLogMatching` | src/raft/RaftNode.cpp:159-211 | with one leader per term and second sections of propose run by leaders, equal labels at one index, in any members at any two moments of a run, mean equal commands at every index up to it |
| `LogMatching.SmallGroupLogMatching` | src/raft/RaftNode.cpp:159-348 | in groups of at most three, timely votes and that guard are enough for log matching |
| `LogLimits.LogMatchingExactly` | src/raft/RaftNode.cpp:325-330 | in every fully connected group, all runs match their logs if and only if the second section of propose is run by leaders only, votes are timely and there are at most three members |
| `LogLimits.FormerLeaderBreaksMatching` | src/raft/RaftNode.cpp:325-330 | in every group, a run with one leader per term in which a former leader's second section leaves two members with different commands under one label at one index |
| `LogLimits.TwoLeadersDiverge` | src/raft/RaftNode.cpp:312-322 | two leaders of one term come to hold different commands under one label |
| `LogLimits.LabelsDiffer` | src/raft/RaftNode.cpp:196-199 | in every group of three or more, a run in which two members hold equal labels at one index above different labels |
| `LogLimits.FollowerRelabels` | src/raft/RaftNode.cpp:196-199 | a follower gives every accepted entry the leader's term, whatever label the leader holds |
| `ReplyLimits.NeverOutOfRangeExactly` | src/raft/RaftNode.cpp:233-252 | in every fully connected group, no run reads beyond a leader's log if and only if votes are timely, second sections guarded, there are at most three members and, with three, success replies are counted in their own term |
| `ReplySafety.NeverBeyond` | src/raft/RaftNode.cpp:233-252 | the sufficient half over whole runs: the reported indices of all but one member are within the leader's log |
| `ReplySafety.ReplyStep` | src/raft/RaftNode.cpp:209-210 | every step keeps each success reply within the log of its term's leader, unless it comes from a member that does not vote for it in that term |
| `ReplySafety.GrantStep` | src/raft/RaftNode.cpp:273-283 | every step keeps each voter's log no better than the candidate's was, until it takes entries of the term |
| `ReplySafety.MonoStep` | src/raft/RaftNode.cpp:273-283 | in a group of two, every step keeps the logs of leaders of later terms at least as long as those of earlier ones |
| `ReplyLimits.StaleReplyFails` | src/raft/RaftNode.cpp:233-236 | three members, under every policy without the third check: an old success reply makes a leader read beyond its log |
| `ReplyLimits.TwoLeadersFail` | src/raft/RaftNode.cpp:244-252 | two leaders of one term: the replies of the other members make one of them read beyond its log |
| `ReplyLimits.TwoMembersFail` | src/raft/RaftNode.cpp:244-252 | two members: a leader that gave up an entry for a former leader's message then hears that it was accepted, and reads beyond its log |
| `HashTableSpec.FindSpec` | src/kvstore/HashTable.cpp:18-39 | find gives up if and only if the key is absent and no bucket is empty; otherwise it returns the key's bucket or a free one on its probe path |
| `HashTableSpec.FirstFree` | src/kvstore/HashTable.cpp:18-39 | for a new key it is the first free bucket on the path, tombstones included |
| `HashTableSpec.PutSpec` | src/kvstore/HashTable.cpp:50-62 | writing where find said keeps probe chains and unique keys and is a map update, tombstones reused |
| `HashTableSpec.EraseSpec` | src/kvstore/HashTable.cpp:79-88 | a tombstone keeps every probe chain and removes exactly the key |
| `HashTableSpec.ReinsertSpec` | src/kvstore/HashTable.cpp:64-77 | doubling keeps every pair, leaves no tombstone and always finds room |
| `HashTableSpec.ReinsertKeepsOrder` | src/kvstore/HashTable.cpp:64-77 | of two pairs with one home in the doubled table, the one from the earlier bucket lies nearer to it |
| `Crowding.ThreeQuarters` | src/kvstore/HashTable.cpp:50-62 | no run of calls fills a table to more than three quarters |
| `Crowding.GrowsNoSooner` | src/kvstore/HashTable.cpp:50-77 | without erase, the number of buckets is the first of 16, 32, 64 and so on of which the keys fill no more than three quarters |
| `HashTableRefinement.ApplyRefines` | src/kvstore/HashTable.cpp:41-93 | each call throws exactly when find gives up, changing nothing; otherwise contents and answer are the map's |
| `HashTableRefinement.RunRefines` | src/kvstore/HashTable.cpp:18-93 | over every sequence of calls, doubling included, contents and answers agree with a map |
| `HashTableRefinement.RunWithoutErase` | src/kvstore/HashTable.cpp:50-77 | without erase no call ever throws |
| `HashTableRefinement.EmptyTableThrows` | src/kvstore/HashTable.cpp:18-39 | for every hash function and any sixteen keys that fill the buckets in order: once they have come and gone the table is empty, and every later call throws |
| `HashTableRefinement.RunStuck` | src/kvstore/HashTable.cpp:18-93 | a table without an empty bucket never gets one back: keys only go, and every call on another key throws |
| `Crowding.OneHomeNeverThrows` | src/kvstore/HashTable.cpp:18-62 | for every hash function, a table that only receives keys of one home bucket throws on no call before it has grown |
| `Crowding.TwoRoundsFill` | src/kvstore/HashTable.cpp:18-88 | for every hash function, sixteen keys of one home modulo 32 set and erased, then sixteen of the home half a table on, leave nothing stored and no empty bucket |
| `Crowding.HomeBlock` | src/kvstore/HashTable.cpp:18-39 | as many buckets from a home on are in use as there are stored keys with that home |
| `StoreLimits.ShardStuckForGood` | src/kvstore/KVStore.cpp:12-59 | for every hash function, number of shards and capacity: after such keys of one shard were set and deleted, every call on that shard throws for good |
| `ProgramLimits.ProgramShardStuck` | src/kvstore/KVStore.cpp:12-59 | with the hash and the sixteen shards of the program, thirty-two two-letter keys bring this about |
| `StringHash.ProgramSmallTable` | src/kvstore/KVStore.cpp:12-16 | with the hash and the shards of the program no call throws before its table has grown |
| `StringHash.ProgramTableThrows` | src/kvstore/HashTable.cpp:8-39 | for a table used on its own with the hash of the program, sixteen one-letter keys bring this about |
| `StringHash.UnhashHash` | src/kvstore/HashTable.cpp:8-16 | from its hash, the bytes of a key lead back to the start value, with the inverse of the multiplier and the sign extension written out |
| `StringHash.OneByteApart` | src/kvstore/HashTable.cpp:8-16 | keys of one length that differ in one byte never have the same hash |
| `StringHash.WidensSigned` | src/kvstore/HashTable.cpp:12 | a byte is widened as the signed number it is |
| `HashTableClass.HashTable.constructor` | src/kvstore/HashTable.cpp:4-6 | a new table is the empty map |
| `HashTableClass.HashTable.FindBucket` | src/kvstore/HashTable.cpp:18-39 | the do-while loop with wrap-around computes the probe |
| `HashTableClass.HashTable.Get` | src/kvstore/HashTable.cpp:41-48 | the map's value or absence; throws exactly when stuck |
| `HashTableClass.HashTable.Set` | src/kvstore/HashTable.cpp:50-62 | the map updated and the whole table as the model says; a throw changes nothing |
| `HashTableClass.HashTable.Rehash` | src/kvstore/HashTable.cpp:64-77 | the loop rebuilds the doubled table |
| `HashTableClass.HashTable.Erase` | src/kvstore/HashTable.cpp:79-88 | the key removed, and whether it was there |
| `HashTableClass.HashTable.CheckExist` | src/kvstore/HashTable.cpp:90-93 | whether the map has the key |
| `Snapshot.SnapshotRoundTrip` | src/kvstore/HashTable.cpp:95-182 | reading a written table restores every pair at its bucket index and the size; tombstones come back empty |
| `Snapshot.SnapshotExactly` | src/kvstore/HashTable.cpp:95-182 | the round trip holds if and only if every key is below 2^32 bytes and every value survives its encoding |
| `Snapshot.TurnExactly` | src/kvstore/HashTable.cpp:150-181 | what every record comes to, well-formed or not: empty keys and values leave what was there, only the first value of the text counts |
| `Snapshot.TornSnapshot` | src/kvstore/HashTable.cpp:137-182 | a file cut short anywhere is never read as a table |
| `Formats.SnapshotBytes` | src/kvstore/HashTable.cpp:95-135 | the bytes of a table with one pair |
| `Snapshot.LookupsAgree` | src/kvstore/HashTable.cpp:95-182 | all lookups agree after a reload if and only if no stored key's probe path crosses a tombstone and a table with tombstones has an empty bucket |
| `Snapshot.ReloadLosesKey` | src/kvstore/HashTable.cpp:95-182 | for every hash function and two keys with one home bucket: set both, erase the first, and a reload has lost the second |
| `StringHash.ProgramReloadLosesKey` | src/kvstore/HashTable.cpp:95-182 | with the hash of the program, the keys a and q do this |
| `Snapshot.NoTombstonesIdentical` | src/kvstore/HashTable.cpp:95-182 | without tombstones the very same table comes back, under exactly the same condition |
| `SnapshotFile.WriteToFile` | src/kvstore/HashTable.cpp:95-135 | the loop writes the modelled bytes |
| `SnapshotFile.ReadFromFile` | src/kvstore/HashTable.cpp:137-182 | the loop reads what the model reads, for every file, well-formed or not |
| `SnapshotFile.SaveAndLoad` | src/kvstore/HashTable.cpp:95-182 | saving one table and loading into another gives the same pairs bucket by bucket if and only if keys and values can be read back |
| `LruSpec.RunByRecency` | src/kvstore/LRU.cpp:5-42 | over every run, calls that throw included, the keys are in order of last touch, without duplicates, never more than the maximum |
| `LruSpec.EvictsOldest` | src/kvstore/LRU.cpp:24-30 | an evicted key was touched no later than any key held, is the only one to go, and goes only from a full list |
| `LruClass.CallsByRecency` | src/kvstore/LRU.cpp:5-42 | over every sequence of calls on a new LRU, throws included, list and index stay linked and the list is in order of last touch |
| `LruClass.LRU.constructor` | src/kvstore/LRU.cpp:3 | a new LRU is empty |
| `LruClass.LRU.Access` | src/kvstore/LRU.cpp:5-14 | a known key moves to the back; list and index stay linked; a throw changes nothing |
| `LruClass.LRU.Refresh` | src/kvstore/LRU.cpp:10-12 | the node is erased through the index entry and the index follows to the new one, as the modelled state |
| `LruClass.RefreshedOk` | src/kvstore/LRU.cpp:10-12 | erasing through the index entry removes exactly the key's node; list and index stay linked, the key goes last |
| `LruClass.LRU.Set` | src/kvstore/LRU.cpp:16-35 | refresh, insert or insert and evict, as the recency order says |
| `LruClass.LRU.Del` | src/kvstore/LRU.cpp:37-42 | the key leaves list and index |
| `LruClass.LRU.Clear` | src/kvstore/LRU.cpp:44-47 | empty list and a fresh index |
| `KvStoreClass.Shard.Set` | src/kvstore/KVStore.cpp:17-23 | table and LRU become exactly the modelled ones, also when the LRU throws after the table was written |
| `KvStoreClass.Shard.Get` | src/kvstore/KVStore.cpp:25-34 | the modelled answer, and a touch exactly when the key was found |
| `KvStoreClass.Shard.Del` | src/kvstore/KVStore.cpp:50-59 | the key leaves the table and then the LRU, as modelled, throws included |
| `StoreSpec.StoreSetOk` | src/kvstore/KVStore.cpp:17-23 | the shards stand for one map, which set changes at one key, unless the data table gives up; tracked keys stay stored keys |
| `StoreSpec.StoreGetOk` | src/kvstore/KVStore.cpp:25-34 | get answers as the one map, and touches the key exactly when it is there |
| `StoreSpec.StoreDelOk` | src/kvstore/KVStore.cpp:50-59 | del removes the key from the one map, also when the LRU then throws |
| `KvStoreClass.KVStore.constructor` | src/kvstore/KVStore.cpp:5-10 | the shards are separate and the store is the empty map |
| `KvStoreClass.KVStore.Set` | src/kvstore/KVStore.cpp:17-23 | the whole store is one map, updated at one key; eviction follows the shard's recency order and removes nothing from the map; a throw leaves the order alone; no other shard changes |
| `KvStoreClass.KVStore.Get` | src/kvstore/KVStore.cpp:25-34 | the answer is the one map's |
| `KvStoreClass.KVStore.Del` | src/kvstore/KVStore.cpp:50-59 | the key leaves the one map, and whether it was there |
| `KvStoreClass.KVStore.CheckExist` | src/kvstore/KVStore.cpp:61-66 | whether the one map has the key |
| `Aof.HandleNoAof` | src/server/Handler.cpp:64-105 | a request is handled if and only if it is one of the four arrays and no table it asks gives up; handled, it has done to the map what its array says; anything else changes nothing |
| `Replay.HandleExactly` | src/server/Handler.cpp:64-105 | which requests are refused, and the map after each, refused or not |
| `Requests.HandledDoes` | src/server/Handler.cpp:64-105 | handled, the array SET, key, value stores the pair, DEL, key removes the key, GET or EXIST, key leaves the map alone; and when each is refused |
| `Requests.HandledOrder` | src/kvstore/KVStore.cpp:17-59 | what a handled array does to the recency order of its key's shard: SET inserts, a lookup that finds its key touches it, DEL takes it out; no other shard changes |
| `Requests.OthersRefused` | src/server/Handler.cpp:64-105 | every other value, whatever its name or length, is refused and changes nothing |
| `Requests.HandledLog` | src/kvstore/AOF.cpp:47-51 | after a log of such arrays, all handled, the last write of each key has won |
| `Requests.HandledAreRequests` | src/kvstore/AOF.cpp:47-51 | a log that is handled to its end consists of such arrays |
| `Replay.HandleAllMap` | src/server/Handler.cpp:64-105 | a sequence of requests that are all handled gives the map that the same requests give |
| `Replay.ModestAllHandled` | src/server/Handler.cpp:64-105 | SETs and lookups with no more keys in any shard than its LRU tracks are all handled by a new store: nothing is evicted, so no table ever gives up |
| `ReplayLimits.EvictionsRefuse` | src/kvstore/LRU.cpp:24-30 | for every hash function and capacity: once SETs of keys whose homes reach every bucket have gone through the LRU, the SET of a new key stores its pair and is refused |
| `ReplayLimits.SetsAloneRefused` | src/kvstore/KVStore.cpp:17-23 | a log of forty-eight SETs and one more, for every hash function, that a new store with a capacity of sixteen to twenty-three cannot replay |
| `ProgramLimits.ProgramSetRefused` | src/kvstore/KVStore.cpp:12-23 | such a log with the hash and the shards of the program |
| `StoreLimits.EvictionsFillIndex` | src/kvstore/LRU.cpp:16-35 | evictions leave the index without an empty bucket |
| `Aof.AOF.constructor` | src/kvstore/AOF.cpp:7-18 | a log opened on a file keeps its bytes and has appended nothing |
| `Aof.AOF.Append` | src/kvstore/AOF.cpp:28-36 | file and buffer together always are the earlier bytes and the encodings of everything appended, whichever flushes happened; the buffer is flushed when it exceeds 1 MiB or the time is up, and only then |
| `Aof.AOF.Flush` | src/kvstore/AOF.cpp:56-61 | the buffer moves to the file |
| `Aof.Recover` | src/kvstore/AOF.cpp:37-54 | for every file and read size: the store is what handling a prefix of the values in the file makes of it, all of them handled, ending at the end of the file, before the first malformed chunk, or with the first command refused |
| `Aof.Drain` | src/kvstore/AOF.cpp:47-51 | the inner loop handles every queued command in order, up to and including the first refused |
| `Aof.RefusedContents` | src/kvstore/AOF.cpp:47-51 | the map after a refused command: what the ones before give, with its own write or without |
| `Aof.ServeSet` | src/server/Handler.cpp:141-146 | a store that is what its log replays to stays so if and only if the data table takes the key |
| `Aof.Restart` | src/kvstore/AOF.cpp:28-61 | flush and recovery succeed if and only if no logged command is refused at its turn, and then give the map the commands give, in which the last write of each key has won; a log of SETs and lookups with no more keys in any shard than its LRU tracks always recovers |
| `Aof.CutLog` | src/kvstore/AOF.cpp:37-54 | a log cut off after any number of bytes recovers exactly the commands that end within them |
| `Aof.ValuesGrow` | src/kvstore/AOF.cpp:44-46 | more bytes only add commands, and nothing after malformed bytes counts |
| `Applying.MakeCommand` | src/server/Server.cpp:221-232 | the extraction loop gives the words of the text, as simple strings |
| `Applying.SetSurvives` | src/server/Handler.cpp:127-138 | what a member makes of a proposed SET is the SET that the master stored if and only if the key is one word and the value a simple string of one word |
| `Applying.DelSurvives` | src/server/Handler.cpp:207-209 | a DEL comes through if and only if its key is one word |
| `Applying.SetIsRequest` | src/server/Server.cpp:221-232 | the text of a SET is a request at all if and only if key and text are two words between them, and then it sets the first to the second |
| `Applying.WrongKeySet` | src/server/Handler.cpp:127-138 | a key of two words with a value that is not a string sets the first word to the second |
| `Applying.BulkBecomesSimple` | src/server/Handler.cpp:128-130 | a bulk string of one word arrives as a simple string |
| `Applying.NilHasNoText` | src/server/Handler.cpp:128-129 | only a nil bulk string leaves the code to read a payload that is not there |
| `Applying.ApplyEntries` | src/server/Server.cpp:329-336 | the loop handles a batch in order, up to the first refusal; handled whole, the last write of each key has won |
| `Applying.UnappliedBatch` | src/server/Server.cpp:329-336 | a batch with a SET of any other shape is never handled to its end, whatever the store holds |
| `Replication.SetReachesAll` | src/server/Server.cpp:323-338 | in a new group of any size, a SET of a word to a word can be proposed by any member so that every member's store comes to hold exactly that pair, for every hash function, shard count and capacity |
| `Mixer.XorShiftInjective` | src/util/Cluster.cpp:148-152 | x ^ (x >> k) determines x for every positive k |
| `Mixer.TimesInjective` | src/util/Cluster.cpp:149-151 | both odd multiplications are injective modulo 2^64 |
| `Mixer.MixInjective` | src/util/Cluster.cpp:147-154 | the 64-bit mixer is injective |
| `Mixer.UnmixMix` | src/util/Cluster.cpp:147-154 | the inverse, with every shift and multiplier written out, undoes the mixer |
| `Mixer.MixUnmix` | src/util/Cluster.cpp:147-154 | and the mixer undoes it, so the mixer is a bijection on 64-bit values |
| `RingMixer.VirtualPointsCollide` | src/util/Cluster.cpp:98-105 | two nodes share a virtual point if and only if one id is reached from the other by fewer than 160 mixings |
| `Ring.PointCount` | src/util/Cluster.cpp:98-105 | a node has 160 points if and only if the mixer does not take its id back to itself before |
| `Ring.SuccessorIsNearest` | src/util/Cluster.cpp:116-124 | lower_bound with wrap-around selects the unique nearest point clockwise |
| `Ring.AddMovesLittle` | src/util/Cluster.cpp:98-105 | an added node takes exactly the positions one of its points is nearest to; every other position keeps its owner |
| `Ring.RemoveMovesLittle` | src/util/Cluster.cpp:107-114 | removing a node whose points are its own changes owners only where it was the owner |
| `Ring.RemoveUndoesAdd` | src/util/Cluster.cpp:98-114 | deletion undoes addition if and only if the points were fresh |
| `ClusterClass.Cluster.AddNodeToHash` | src/util/Cluster.cpp:98-105 | the loop adds the 160 iterated points |
| `ClusterClass.Cluster.DelNodeToHash` | src/util/Cluster.cpp:107-114 | the loop erases the 160 iterated points |
| `ClusterClass.Cluster.QueryNode` | src/util/Cluster.cpp:116-124 | the owner of the nearest point clockwise; undefined exactly on an empty ring |
| `Replicas.OrderIsAllOwners` | src/util/Cluster.cpp:126-141 | the clockwise order of first appearance holds every owner once and starts with the key's owner |
| `Replicas.HaltsExactlyWhen` | src/util/Cluster.cpp:133-139 | the walk ends if and only if there are enough distinct owners or every point has its own |
| `Replicas.NegativeCount` | src/util/Cluster.cpp:133 | a negative number of replicas ends the walk only where no owner has two points |
| `ReplicaRings.LoneNodeWalk` | src/util/Cluster.cpp:126-141 | on the ring of one node, with the program's own mixer, the walk for two or more replicas ends if and only if the mixer maps the id to itself |
| `ReplicaRings.WalkNeverStops` | src/util/Cluster.cpp:98-141 | whenever a node was just added and more replicas are asked for than there are owners, the walk goes on for ever |
| `Replicas.QueryReplicas` | src/util/Cluster.cpp:126-141 | the first N owners in clockwise order of first appearance, the first being queryNode's |
| `Placement.BackShift` | src/server/Server.cpp:523-527 | the unsigned index arithmetic inverts the member shift for every N of at least 1, wrap-around included |
| `Placement.MemberIffCreates` | src/server/Server.cpp:523-527 | a node is a member of a group if and only if it creates it |
| `Placement.PeersSymmetric` | src/server/Server.cpp:529-536 | b is a peer of a in a group if and only if a is a peer of b there |
| `Placement.ThreeGroupsOneMaster` | src/server/Server.cpp:523-553 | each node is in exactly three groups, or in as many as there are nodes, and first in exactly one |
| `Placement.GroupSize` | src/server/Server.cpp:543-551 | a group has three members, or all nodes when there are fewer |
| `Placement.GroupsInOrder` | src/server/Server.cpp:525-527 | the first member of a group is its master and the others are, in order, the first members of the next group |
| `Placement.InitRaftGroups` | src/server/Server.cpp:498-558 | the topology's nodes are put on the ring, and the loops build peers, member lists and masters for exactly the groups the node takes part in |
| `PlacedGroups.PlacedGroupIsInitial` | src/server/Server.cpp:523-551 | from two nodes on, every group placed is a proper initial Raft group of two or three members, fully connected, each peer once |
| `PlacedGroups.PlacedGroupIsSafe` | src/server/Server.cpp:523-551 | in every run of every placed group with timely votes, up to undefined behaviour, one leader per term; with guarded second sections also command-level log matching; and with current replies too, no read beyond a log, so that no run ends in undefined behaviour |
| `PlacedGroups.PlacedGroupExactly` | src/server/Server.cpp:523-551 | every placed group has one leader per term in all runs if and only if votes are timely, matching logs if and only if besides second sections are guarded, and no read beyond a log if and only if besides replies are current or there are two nodes |
| `Placement.NodesAgree` | src/server/Server.cpp:523-554 | nodes sharing a topology agree on members and master of every common group, and are each other's peers there |

## Left out

- Sockets, epoll, threads, fork and the client: input/output plumbing.
- Gossip, heartbeats, node joining and leaving (NODEIN, NODEOUT, HELLO): driven by time and randomness.
- Raft message encoding and parseParts: messages are taken in decoded form; the two reply encoders write an extra `+`, so no wire round trip is claimed for them.
- Raft restarts inside a group run: term and vote are not persisted, so the group theorems cover runs without restarts.
- Leader completeness and state-machine safety: relabelled entries and unchecked reply terms mean the code does not support them.
- The hash of a key's position on the ring (Cluster::hash of a string): the position is a parameter.
- Disk writes from several threads: appends to the Raft log file are serial in the model, so the append between the two sections of propose falls together with the first.
- Runs of a Raft group past undefined behaviour: a run ends at the first read beyond a leader's log (RaftGroup.Enabled).
- Memory exhaustion: a size header too large for reserve, and more elements than 64-bit sizes can count.
- The table sizes at which doubling would overflow a size_t.
- KVStore::writetofile and readfromfile over a directory: each shard's file is the table snapshot that is modelled.
- AOF::append of raw text, and the logging of DEL, whose key has been moved out of the request before it is logged.
- KVStore::getValue: get followed by encode.
- A nil array handed to the command handler, which the C++ code dereferences; the model refuses it.
- GET and EXIST replies, MOVED redirects and the ownership check of the handlers.
- Elections and replication under all schedules: GroupProgress gives runs that succeed, with their number of steps; no fairness of the network is assumed, so nothing is said to happen in every run.
- RaftGroup.BaseRun: covers runs up to the first undefined behaviour; NeverOutOfRangeExactly says which groups have no other runs.
- PlacedGroups.PlacedGroupIsSafe: the same, unless all three checks are made.
- ReplayLimits.SetsAloneRefused: gives the keys for capacities from sixteen to twenty-three; EvictionsRefuse is for every capacity, given keys of the shard whose homes reach every bucket of the index.
- ElectionSafety.OneLeader: needs votes counted in their own term and at most three members; OneLeaderExactly shows that nothing less will do.
- LogMatching.CommandLogMatching: speaks of commands, not labels, because followers relabel what they accept (LabelsDiffer), and needs one leader per term and the guard on the second section of propose; LogMatchingExactly shows that in full.
- RespParserClass.RespParser.Append: does not say what the parser holds after undefined behaviour.
- Replicas.QueryReplicas: asks for a ring on which the walk ends, since a method that never returns has no contract; HaltsExactlyWhen says which rings these are.
- ClusterClass.Cluster.QueryReplicas: the same.
- Ring.RemoveMovesLittle: needs the removed node's points to be its own and another point to remain, since deletion also erases points that another node took over.
- Snapshot.SnapshotRoundTrip: needs bucket count, key sizes and value sizes below 2^32, the widths in the file, and values that survive their encoding; SnapshotExactly shows which of these the round trip cannot do without.
- Snapshot.SnapshotExactly: needs bucket count and value texts below 2^32; with more buckets the writing loop never ends, and a longer text shifts all later records.
- Snapshot.NoTombstonesIdentical: the same.
- SnapshotFile.SaveAndLoad: the same.
- Exchange.DeliveredLog: asks that where both logs carry the leader's own label they hold the same command, which log matching gives within its limits; otherwise the member keeps its own command.
- Exchange.CaughtUp: the same.
