# valkey-rs: a Dafny model of the hard parts

This project models the parts of valkey-rs (an in-memory data store written in Rust) whose correctness is not
visible in any single function, and proves what they promise:

| module | what it models |
|---|---|
| `Lcs` | the `LCS` command: the dynamic-programming table, the backtrack and the IDX match runs |
| `Glob` | the iterative `*`/`?` matcher used by ACL rules |
| `Slots` | the two CRC16 routines, hash tags and cluster slots |
| `Gossip` | merging gossip messages into a node's view of the cluster |
| `HyperLogLog` | `PFADD`, `PFCOUNT` and `PFMERGE` on 16384 registers |
| `Transactions` | `MULTI`, `EXEC`, `DISCARD`, `WATCH`, `UNWATCH` and command dispatch for one client |
| `Watchers` | the store's watchers behind `WATCH`, and what they make of optimistic locking |
| `Bits`, `BitCount`, `Bitfield` | `BITCOUNT`, `BITOP` and `BITFIELD` |
| `ZSet` | sorted sets: two indexes, ranks, ranges and pops |
| `Streams` | one stream with one consumer group: `XADD`, `XDEL`, `XTRIM`, `XREADGROUP`, `XACK`, `XCLAIM`, `XAUTOCLAIM` |
| `Sweeps` | a client that goes through all pending entries with `XAUTOCLAIM`, cursor by cursor |
| `RdbCodec`, `RdbLimits`, `RdbValues`, `RdbFile` | the RDB snapshot format, `save` and `load` |

`Data` and `Order` hold shared types and the sorted enumeration of a finite set, which is what walking a BTreeMap
visits; `Indexes` says when the member map and the score index of a sorted set agree. Code that updates things in place
is modelled by classes and by methods with loops; every such method is proved against a specification function or an
outright property, and the lemmas are about those.

`dafny verify dfyconfig.toml` checks everything.

## What the code does not do

Where a property turned out not to hold of the code, the model keeps the code's behaviour, a lemma exhibits the
failure, and another gives the exact condition.

- **Glob.** A literal comparison is tried before the star, so a `*` in the text can eat the pattern's `*`. The
  matcher is right for all patterns if and only if the text has no `*`, and for all texts if and only if the pattern
  has none (`Glob.TextsJudgedRightly`, `Glob.PatternsJudgedRightly`).
- **Cluster slots.** `CLUSTER KEYSLOT` ignores hash tags while routing honours them. Both agree on a key and on every
  key that starts with it if and only if its first `{` is at once followed by `}` (`Slots.KeyslotsAgreeExactly`).
- **Gossip.** Epochs and the set of known nodes do not depend on message order. The rest of a node's record is the same
  for every order of the messages if and only if the messages that carry its greatest epoch all end on the same word
  about it (`Gossip.RecordIndependentOfMessageOrder`); two that differ are enough (`Gossip.TwoMessagesDisagree`), a tie
  inside one message is not (`Gossip.TieInsideMessage`).
- **WATCH.** A watcher speaks once, a flush silences it, `MULTI` forgets what it said before, and `UNWATCH` does not take
  it away. `EXEC` aborts if and only if a key waited on at `MULTI` is announced changed for the first time after it, with
  no flush before that and no `UNWATCH` after (`Watchers.ExecAbortsExactly`). Optimistic locking is to abort if and only
  if a key changed, by itself or in a flush, since a `WATCH` of it that the client has not forgotten by `UNWATCH` or
  `RESET`. It fails in two cases only (`Watchers.WatchHonoured`). `EXEC` aborts astray, over a watcher of which no
  `WATCH` stands, so that a key watched and forgotten still aborts a later transaction
  (`Watchers.ForgottenWatchAborts`). Or it misses a change: nothing is heard after `MULTI`, and a watched key had changed
  before it, or everything is flushed after it (`Watchers.FlushSilences`).
- **Ranges.** `ZRANGE key 0 stop` with `stop` before the front returns the first element instead of nothing
  (`ZSet.RangeExactly`).
- **XCLAIM.** Naming an existing entry that is not pending makes it pending although it was never delivered, or was
  acknowledged already; the group's books balance if and only if no such id is named (`Streams.ClaimBalanced`).
- **XAUTOCLAIM.** The cursor after an id with the largest sequence number points back before it, and a sweep that
  meets it there never ends (`Streams.LargestSequenceLoops`); COUNT 0 never advances (`Streams.CountZeroStandsStill`).
  What a call will list can be told before it (`Streams.ReplyKnownBefore`), and so can when its cursor is right: if and
  only if fewer than COUNT entries fit or the COUNT-th that does has a successor, but for an end in millisecond 0
  (`Streams.CursorTruthful`). A client that follows the cursors sees every entry once, for any minimum idle time and any
  clock, if and only if that holds of every page the entries fall into (`Sweeps.SweepExactly`).
- **XADD.** An XADD can replace an entry: with its clock behind the last id (`Streams.BehindClockOverwrites`), or after
  an entry with the largest sequence number has sent the last id back (`Streams.LargestReplacesItself`). On any stream it
  does if and only if the id it would use is held (`Streams.AddReplacesExactly`), and over any run every accepted XADD
  adds an entry of its own if and only if that never happens (`Streams.NoneReplacedExactly`). Where no sequence number
  is used up, it happens only to a clock behind the last id in a millisecond whose entry number 0 is still there
  (`Streams.KeptReplacesExactly`, `Streams.KeptRunReplacesExactly`).
- **Groups at `$`.** The last id is one past the newest entry, so an entry added in that very millisecond gets exactly
  the id the group stands at and is never delivered (`Streams.AddedIsDeliverable`, `Streams.DollarGroupMisses`).
- **RDB lengths.** A length of 2^32 or more is truncated (`RdbCodec.LengthBack`, `RdbLimits.StringBack`). A value or a
  record is read back if and only if it holds none (`RdbLimits.ValueBack`, `RdbFile.RecordBack`).
- **RDB deadlines.** A deadline that has passed by the time of loading is dropped and the key comes back without one;
  it survives if and only if it is ahead at load and had not passed at save (`RdbFile.DeadlineSurvives`).
- **RDB sorted sets.** A file that lists a member with two scores that differ as floats loads into indexes that disagree,
  and only such a file does (`RdbValues.IndexesAgreeExactly`).
- **RDB errors.** Records go into the keyspace as they are read: a bad checksum or a file cut short is reported only
  after that (`RdbFile.LoadOfBody`, `RdbFile.LoadOfCutFile`). A load leaves every keyspace alone if and only if the
  magic is wrong or not even a first record is read (`RdbFile.LoadLeavesAlone`).

## Model

| member | source | states |
|---|---|---|
| Lcs.BestIsLongestLength | crates/commands/src/string.rs:773-784 | every table cell is the length of a longest common subsequence of the two prefixes, where a common subsequence is any string embedded in both |
| Lcs.BestIsUpperBound | crates/commands/src/string.rs:777-781 | no common subsequence of the prefixes is longer than the cell |
| Lcs.CellsStaySmall | crates/commands/src/string.rs:768-774 | under the size guard every cell is at most 8192, so the 32-bit cells never overflow |
| Lcs.WalkIsCommon | crates/commands/src/string.rs:789-802 | from every cell the backtrack spells a common subsequence of exactly the cell's length |
| Lcs.WalkIsLongest | crates/commands/src/string.rs:789-803 | the backtrack from the last cell spells a longest common subsequence |
| Lcs.RunsDescribeWalk | crates/commands/src/string.rs:806-838 | the runs are equal slices of both strings, strictly descending and disjoint in both, their sizes add up to the LCS length and joined in ascending order they are the text of the plain walk |
| Lcs.WalkThroughRun | crates/commands/src/string.rs:809-816 | stepping over a whole run at once is stepping byte by byte |
| Lcs.LongRunsKeepExactlyTheLong | crates/commands/src/string.rs:817-832 | MINMATCHLEN keeps exactly the runs at least that long |
| Lcs.LongRunsDescend | crates/commands/src/string.rs:817-832 | filtering by MINMATCHLEN keeps the runs strictly descending in both strings |
| Lcs.ReportedAreTheLongRuns | crates/commands/src/string.rs:808-838 | filtering during the backtrack reports the same runs as filtering afterwards |
| Lcs.IdxSpellsText | crates/commands/src/string.rs:788-838 | with MINMATCHLEN 0 the reported runs are all runs and spell the text of the non-IDX form |
| Lcs.FillCell | crates/commands/src/string.rs:777-781 | the cell written holds the specified value and no earlier cell changes |
| Lcs.FillTable | crates/commands/src/string.rs:773-783 | the flat table, filled in place row by row, holds the specified value in every cell |
| Lcs.StepBack | crates/commands/src/string.rs:796-800 | where the bytes differ, the step goes to the neighbour the specification names |
| Lcs.BacktrackText | crates/commands/src/string.rs:789-803 | the reversed output of the loop is a longest common subsequence |
| Lcs.StepBackOverRun | crates/commands/src/string.rs:810-816 | the inner loop stops after exactly the bytes that agree backwards from the cell |
| Lcs.BacktrackRuns | crates/commands/src/string.rs:806-838 | the loop collects exactly the runs of the backtrack that are long enough |
| Lcs.Command | crates/commands/src/string.rs:703-845 | every form of the command answers as promised: both modes refused, too large refused, LEN the length of a longest common subsequence, plain a longest common subsequence, IDX the long runs of one with its length |
| Glob.LatestStarSuffices | crates/commands/src/acl.rs:1028-1036 | once a later star is reached, a match that an earlier star could give by taking more text is also given by the later one: only the latest star has to be retried |
| Glob.LiteralFirstIsSound | crates/commands/src/acl.rs:1018-1045 | a positive answer of the literal-first rule is a match in the recursive sense, for every text |
| Glob.LiteralFirstIsComplete | crates/commands/src/acl.rs:1018-1045 | on a text without `*` every recursive match is found |
| Glob.StarFreePattern | crates/commands/src/acl.rs:1018-1045 | without a star in the pattern the answer is right for every text |
| Glob.StarInTextMisjudged | crates/commands/src/acl.rs:1025-1031 | for every text holding a `*` there is a pattern that matches it and is answered no |
| Glob.StarInPatternMisjudges | crates/commands/src/acl.rs:1025-1031 | for every pattern holding a `*` there is a text it matches and for which the answer is no |
| Glob.TextsJudgedRightly | crates/commands/src/acl.rs:1018-1045 | a text is judged rightly under all patterns if and only if it has no `*` |
| Glob.PatternsJudgedRightly | crates/commands/src/acl.rs:1018-1045 | a pattern judges all texts rightly if and only if it has no `*` |
| Glob.ScanStep | crates/commands/src/acl.rs:1025-1038 | one turn of the loop keeps the answer owed and moves forward, or the answer is no |
| Glob.GlobMatchImpl | crates/commands/src/acl.rs:1018-1045 | the loop ends on every input and answers as the recursive literal-first rule |
| Glob.OnlyStars | crates/commands/src/acl.rs:1041-1044 | the closing loop finds whether only stars are left |
| Glob.GlobMatch | crates/commands/src/acl.rs:1012-1016 | true implies a match; if text or pattern has no `*`, true if and only if a match |
| Slots.EntryIsEightShifts | crates/cluster/src/slots.rs:1-24 | every one of the 256 table entries is eight bit-steps of its index |
| Slots.TableIsRight | crates/cluster/src/slots.rs:1-24 | the whole table tabulates eight bit-steps |
| Slots.StepsAgree | crates/cluster/src/slots.rs:54-55 | one table step equals eight bit steps from every 16-bit state on every byte |
| Slots.ChecksumsAgree | crates/cluster/src/slots.rs:51-58 | the table-driven and the bit-by-bit checksum are equal on every byte string |
| Slots.MessageWithChecksum | crates/commands/src/cluster.rs:153-166 | a message followed by its own checksum has checksum zero |
| Slots.ChecksumIsLinear | crates/commands/src/cluster.rs:153-166 | the checksum of two messages of one length laid over each other by exclusive or is the exclusive or of their checksums |
| Slots.Crc16 | crates/cluster/src/slots.rs:51-58 | the table-driven loop computes the bit-by-bit CRC |
| Slots.Crc16Xmodem | crates/commands/src/cluster.rs:153-166 | the nested loop computes the bit-by-bit CRC |
| Slots.KeyHashSlot | crates/cluster/src/slots.rs:28-32 | the slot is that of the tag, or of the key without one, and is below 16384 |
| Slots.ClusterKeyslot | crates/commands/src/cluster.rs:78-88 | without arguments an error; otherwise the slot of the whole key, tag or not |
| Slots.TagOfTaggedKey | crates/cluster/src/slots.rs:36-49 | a key of the form p{t}s, no `{` in p and no `}` in t, has tag t |
| Slots.FormOfTaggedKey | crates/cluster/src/slots.rs:36-49 | a key with a non-empty tag has that form |
| Slots.TagExactly | crates/cluster/src/slots.rs:36-49 | a non-empty t is the tag if and only if the key has the form p{t}s |
| Slots.TaggedKeysShareSlot | crates/cluster/src/slots.rs:28-32 | every key p{t}s gets the checksum slot of t alone, whatever p and s |
| Slots.KeyslotsAgreeUntagged | crates/commands/src/cluster.rs:84-87 | on keys without a non-empty tag both slot routines agree |
| Slots.SlotIgnoresSuffix | crates/cluster/src/slots.rs:28-32 | bytes after a tagged key do not change its slot |
| Slots.KeyslotsAgreeExactly | crates/commands/src/cluster.rs:84-87 | the two slot routines agree on a key and on every key that starts with it if and only if its first `{` is at once followed by `}` |
| Slots.UntaggedExactly | crates/cluster/src/slots.rs:36-49 | no key that starts with the given one has a tag if and only if its first `{` is at once followed by `}` |
| Slots.KeyslotsDisagreeOnTags | crates/commands/src/cluster.rs:84-87 | of two tagged keys that differ only in the lowest bit of a last byte behind the tag, at least one gets different slots from the two routines |
| Gossip.ClusterState.constructor | crates/cluster/src/state.rs:227-246 | a fresh view knows the node itself and nothing else |
| Gossip.ClusterState.MergeNode | crates/cluster/src/state.rs:307-315 | the record is stored if the node is new or the epoch is at least the stored one, and nothing else changes |
| Gossip.ClusterState.HandleGossip | crates/cluster/src/gossip.rs:110-148 | a message merges its entries, then its sender, none of them about the node itself, whose record is unchanged |
| Gossip.MergeAllKeepsGreatest | crates/cluster/src/state.rs:307-315 | after any offers, the known nodes are the old and the offered ones, each with the greatest epoch stored or offered |
| Gossip.ReceivedIsMergeAll | crates/cluster/src/gossip.rs:110-148 | a run of messages is the merge of all they offer, in order |
| Gossip.CarriesIsOffered | crates/cluster/src/gossip.rs:110-148 | what a message offers about another node is what it carries as an entry or as its sender |
| Gossip.OffersSay | crates/cluster/src/gossip.rs:110-148 | a message offers exactly the records that say what one of its entries says (id, address, epoch, flags, slave exactly if flagged so) or what it says about its sender (a master without flags), never about the receiver, the sender last |
| Gossip.EpochAfterRun | crates/cluster/src/gossip.rs:110-148 | after any messages a node is known if and only if it was or was carried, and its epoch is the maximum of the initial one and every carried one |
| Gossip.OrderAndRepetitionDoNotMatter | crates/cluster/src/gossip.rs:110-148 | the same messages in any order and any number of times give the same known nodes and epochs |
| Gossip.OwnRecordKept | crates/cluster/src/gossip.rs:110-148 | no run of messages changes the node's own record |
| Gossip.StoredRecord | crates/cluster/src/state.rs:307-315 | the stored record is one offered with the greatest epoch, or the initial one if every offer was older |
| Gossip.RecordIndependentOfMessageOrder | crates/cluster/src/gossip.rs:110-148 | the whole record stored for another node is the same under every order of the messages if and only if the messages carrying its greatest epoch all have the same last offer for it |
| Gossip.TwoMessagesDisagree | crates/cluster/src/gossip.rs:110-148 | of two messages of one node and epoch with different addresses the later one is believed |
| Gossip.TieInsideMessage | crates/cluster/src/gossip.rs:115-148 | a message can hold two different offers for a node at one epoch; its last word is the sender's, so the tie is harmless |
| Gossip.StoredIsLast | crates/cluster/src/state.rs:307-315 | the record stored with an epoch is the last one offered with it, or the initial one |
| Gossip.RecordIndependentOfOrder | crates/cluster/src/state.rs:307-315 | of single offers: the record is the same under every order of them if and only if no two different ones tie at the greatest epoch |
| HyperLogLog.RankInBounds | crates/commands/src/hyperloglog.rs:73-78 | ranks are between 1 and 51 for every 64-bit hash |
| HyperLogLog.RankExactly | crates/commands/src/hyperloglog.rs:73-78 | the rank is k + 1 if and only if the k bits of the hash above the low 14 are 0 and the next one is 1, or k is 50 |
| HyperLogLog.IndexExactly | crates/commands/src/hyperloglog.rs:73-75 | the register number is below 16384 and its bits are the low 14 bits of the hash |
| HyperLogLog.SketchDetermined | crates/commands/src/hyperloglog.rs:142-164 | the elements, and the buffers there were at the start, determine all registers; each is at most 51 unless such a buffer went beyond |
| HyperLogLog.RaiseAllSketch | crates/commands/src/hyperloglog.rs:152-159 | adding elements to the sketch of a set gives the sketch of the larger set, in any order and with repetitions |
| HyperLogLog.JoinSketch | crates/commands/src/hyperloglog.rs:212-216 | the register-wise maximum of two sketches is the sketch of the union |
| HyperLogLog.StepTracks | crates/commands/src/hyperloglog.rs:142-224 | every command keeps each stored sketch the sketch of the elements that went into its key |
| HyperLogLog.RunTracks | crates/commands/src/hyperloglog.rs:142-224 | after any run from any store each register is the greatest of the ranks of the elements that went into its key and of that register in the initial buffers that did |
| HyperLogLog.RegistersDependOnElementsOnly | crates/commands/src/hyperloglog.rs:142-224 | two runs, from any stores, that put the same elements and initial buffers into a key store the same registers |
| HyperLogLog.CountMatchesJoin | crates/commands/src/hyperloglog.rs:169-194 | counting several keys covers the registers of their join, with the same first error |
| HyperLogLog.FirstError | crates/commands/src/hyperloglog.rs:204-221 | joining keys fails if and only if one of them holds no sketch, and with the error of the first such key |
| HyperLogLog.CountUsesMergedRegisters | crates/commands/src/hyperloglog.rs:169-224 | PFCOUNT of several keys uses exactly the registers PFMERGE of them into a missing key stores, and fails exactly when that fails |
| HyperLogLog.JoinRegisters | crates/commands/src/hyperloglog.rs:212-216 | the in-place loop computes the register-wise maximum and leaves the header |
| HyperLogLog.CoverRegisters | crates/commands/src/hyperloglog.rs:179-184 | the loop raises each merged register to that of the source |
| HyperLogLog.RaiseElements | crates/commands/src/hyperloglog.rs:152-159 | the loop raises the register of every element and reports a change exactly when the buffer changed |
| HyperLogLog.Db.Pfadd | crates/commands/src/hyperloglog.rs:142-164 | the key holds the raised sketch; the reply is 1 if and only if the store changed, as for a missing key; a value that is no string and a string that is no sketch are refused, each with its error, and kept |
| HyperLogLog.Db.Pfcount | crates/commands/src/hyperloglog.rs:169-194 | the reply is the estimate of the covered registers, 0 if no key exists, or the first error |
| HyperLogLog.Db.Pfmerge | crates/commands/src/hyperloglog.rs:199-224 | the destination holds the join of itself and the sources, or nothing changes and the first error is replied |
| Transactions.Connection.CmdMulti | crates/commands/src/transaction.rs:9-18 | nested is refused; otherwise an empty transaction opens and the mark is cleared |
| Transactions.Connection.CmdDiscard | crates/commands/src/transaction.rs:21-31 | refused outside; otherwise the client is fresh and the store untouched |
| Transactions.Connection.CmdExec | crates/commands/src/transaction.rs:34-69 | refused outside; marked, a null reply and nothing done; otherwise state and replies are those of a fresh client sending the queued commands one after the other, first to last |
| Transactions.Connection.CmdWatch | crates/commands/src/transaction.rs:72-95 | refused without keys or inside a transaction; otherwise the keys are watched and the mark cleared |
| Transactions.Connection.CmdUnwatch | crates/commands/src/transaction.rs:98-103 | forgets the keys and the mark, inside a transaction too |
| Transactions.Connection.DispatchCtx | crates/commands/src/lib.rs:80-114 | dispatch, with EXEC calling back into it, ends and does what the specification says, keeping the invariant |
| Transactions.QueueOnlyInMulti | crates/commands/src/lib.rs:80-114 | in every run a non-empty queue implies an open transaction, and no queued command is a transaction command |
| Transactions.OpenTransaction | crates/commands/src/lib.rs:80-114 | while a transaction stays open the store does not change and the queue is exactly the ordinary commands sent |
| Transactions.CleanExecIsSequential | crates/commands/src/transaction.rs:34-69 | a clean EXEC leaves the state of a run of a fresh client that sends the queued commands in order outside, and the store and, in order, the replies of such a run of the client itself |
| Transactions.OneByOne | crates/commands/src/transaction.rs:56-66 | what EXEC does with a queue is the run of its commands sent one after the other, in order |
| Transactions.OrdinaryCommand | crates/commands/src/lib.rs:80-114 | inside MULTI an ordinary command is queued last and nothing else happens; outside, a permitted one is carried out, RESET leaving a fresh client, and a denied one changes nothing |
| Transactions.NamesIgnoreCase | crates/commands/src/lib.rs:84-87 | a command is known by its letters in either case and by nothing else |
| Transactions.WorldDecides | crates/commands/src/lib.rs:80-114 | ordinary commands outside a transaction depend on the store only, not on the rest of the client |
| Transactions.DiscardUndoes | crates/commands/src/transaction.rs:21-31 | MULTI, anything, DISCARD leaves the store as it was at MULTI and a fresh client |
| Transactions.DirtyExecAborts | crates/commands/src/transaction.rs:40-51 | EXEC replies null if and only if a watcher marked the client inside the transaction after the last UNWATCH, at whatever point that mark came, and then the store is as at MULTI |
| Transactions.WatchHonoured | crates/commands/src/transaction.rs:9-18 | whatever comes before and after MULTI, EXEC aborts exactly when a mark came before it after which the client did not forget, by UNWATCH or by a RESET carried out outside MULTI, unless, and only unless, such a mark stood at MULTI and neither an UNWATCH nor a standing mark came after it |
| Watchers.WaitingExactly | crates/storage/src/lib.rs:689-702 | over every course a key is waited on if and only if an accepted WATCH named it and since then its change was not announced and nothing flushed; UNWATCH, DISCARD and EXEC make no difference |
| Watchers.ExecAbortsExactly | crates/commands/src/transaction.rs:34-92 | EXEC aborts if and only if, since MULTI, a change of a key waited on at MULTI was announced for the first time, with no flush before it and no UNWATCH after it |
| Watchers.WatchHonoured | crates/commands/src/transaction.rs:34-103 | whatever comes before MULTI and while it is open, EXEC aborts if and only if a key waited on at MULTI is heard of after it; the promise to abort if and only if a key changed, by itself or in a flush, since a WATCH of it that UNWATCH or RESET has not undone, fails if and only if EXEC aborts though no such key changed or UNWATCH came after MULTI, or nothing is heard and such a key had changed before MULTI or everything is flushed after it |
| Watchers.FlushSilences | crates/storage/src/lib.rs:682-685 | a transaction opened right after a flush does not abort, whatever was watched and whatever changes |
| Watchers.ForgottenWatchAborts | crates/commands/src/transaction.rs:98-103 | WATCH and UNWATCH of a key leave a watcher that makes a later transaction abort though nothing is watched |
| BitCount.OnesCountsPositions | crates/commands/src/bitmap.rs:143-160 | the count over a range is the number of positions in it whose bit is 1 |
| BitCount.MaskedByte | crates/commands/src/bitmap.rs:148-156 | the first and last byte's masks keep exactly the bits inside the range |
| BitCount.CountBitsRange | crates/commands/src/bitmap.rs:143-160 | the masked byte loop counts the ones between two bit positions inclusive |
| BitCount.ClampedRange | crates/commands/src/bitmap.rs:190-213 | clamping the two indices selects exactly the asked positions, or none |
| BitCount.Bitcount | crates/commands/src/bitmap.rs:165-215 | the reply is the number of ones among the asked positions, in bit and byte mode, with negative and out-of-range indices; 0 for a missing key |
| BitCount.ByteModeIsScaledBitMode | crates/commands/src/bitmap.rs:190-214 | byte mode is bit mode on the scaled range, for non-negative and negative indices alike |
| BitCount.FoldByteBits | crates/commands/src/bitmap.rs:324-351 | folding bytes operates on every bit position separately, missing bytes being zero |
| BitCount.CombineSources | crates/commands/src/bitmap.rs:325-351 | the loop over the sources folds the bytes at one index |
| BitCount.Bitop | crates/commands/src/bitmap.rs:301-366 | the result has the longest length and every bit is the operation of the sources' bits; NOT of several sources is refused |
| BitCount.AndOrCountsAddUp | crates/commands/src/bitmap.rs:325-342 | for two sources of any lengths, count of AND plus count of OR is the sum of their counts |
| Bitfield.GetBits | crates/commands/src/bitmap.rs:409-422 | the loop reads the field as a number, most significant bit first, zero past the end |
| Bitfield.SetBits | crates/commands/src/bitmap.rs:424-440 | the loop stores the value's bits into the grown buffer |
| Bitfield.GetStored | crates/commands/src/bitmap.rs:424-440 | after storing, a bit inside the field is the value's and every other bit is unchanged, zero past the old end |
| Bitfield.ReadBack | crates/commands/src/bitmap.rs:409-440 | reading back what was stored gives the value modulo 2^width |
| Bitfield.DecodeIsTwosComplement | crates/commands/src/bitmap.rs:444-452 | decoding is two's complement, inside the type's bounds |
| Bitfield.EncodeIsRemainder | crates/commands/src/bitmap.rs:481-488 | encoding is the remainder modulo 2^width |
| Bitfield.DecodeOfEncode | crates/commands/src/bitmap.rs:444-488 | decode undoes encode on all values within the type's bounds |
| Bitfield.EncodeOfDecode | crates/commands/src/bitmap.rs:444-488 | encode undoes decode on all raw values |
| Bitfield.WrapIsUnique | crates/commands/src/bitmap.rs:465-479 | WRAP yields the one value within the bounds congruent modulo 2^width |
| Bitfield.WrapIsWrapped | crates/commands/src/bitmap.rs:465-479 | WRAP always yields a value, within the bounds and congruent |
| Bitfield.SatIsNearest | crates/commands/src/bitmap.rs:465-479 | SAT yields the nearest value within the bounds; FAIL yields the value or refuses |
| Bitfield.WriteRead | crates/commands/src/bitmap.rs:409-488 | a value within the bounds written is the value read, and no bit outside the field changes |
| Bitfield.RefusedCommand | crates/commands/src/bitmap.rs:587-618 | a command writes nothing and ends with the string it found if and only if every one of its writes is refused by FAIL, judged by that string and the mode in force |
| Bitfield.RefusedStep | crates/commands/src/bitmap.rs:594-613 | a refused SET or INCRBY changes nothing but a null reply, and every other write marks the string |
| Bitfield.OpFrame | crates/commands/src/bitmap.rs:587-615 | no operation changes a bit outside its field |
| Bitfield.Bitfield | crates/commands/src/bitmap.rs:580-620 | some course of strings leads from the one found to the one stored, one operation at a time, each having its effect under the mode in force and its reply in its place; nothing is stored if and only if every write is refused |
| Bitfield.EffectOf | crates/commands/src/bitmap.rs:588-613 | GET changes nothing and replies the value; an accepted SET leaves the value, no other bit changed, and replies the one before; an accepted INCRBY leaves the sum and replies it; a refused write changes nothing and replies null; OVERFLOW replies nothing and sets the mode |
| Bitfield.EveryOperation | crates/commands/src/bitmap.rs:584-615 | so it is for every operation of every list, and there are as many replies as operations other than OVERFLOW |
| Bitfield.ChainOfIncrements | crates/commands/src/bitmap.rs:603-613 | any chain of WRAP increments ends at the start plus their sum, wrapped once |
| Bitfield.OrderOfIncrementsIrrelevant | crates/commands/src/bitmap.rs:603-613 | permuting the increments gives the same buffer, bit for bit |
| ZSet.ZSetData.constructor | crates/storage/src/lib.rs:219-221 | a new sorted set is empty with agreeing indexes |
| ZSet.ZSetData.Add | crates/storage/src/lib.rs:223-235 | the member has the score, nothing else changes, and the indexes still agree |
| Indexes.AgreeDetermines | crates/storage/src/lib.rs:223-235 | the member map of a sorted set determines its score index |
| ZSet.EntriesEnumerate | crates/commands/src/zset.rs:107-115 | the entry list is the strictly (score, member)-sorted enumeration of the map |
| ZSet.EntriesAscend | crates/commands/src/zset.rs:107-115 | from one entry to any later one the score, as a number, does not fall, and within one score the members rise byte by byte |
| ZSet.BytesLessExactly | crates/storage/src/lib.rs:213-216 | members are ordered by the first byte in which they differ, a member before those it begins |
| ZSet.FlattenIsEntries | crates/commands/src/zset.rs:107-115 | walking the buckets of an agreeing index gives that enumeration |
| ZSet.ZSetData.ZsetEntries | crates/commands/src/zset.rs:107-115 | the nested loop returns the sorted enumeration of the map |
| ZSet.ZSetData.ZsetRank | crates/commands/src/zset.rs:117-133 | none if and only if not a member; otherwise the position of the member in the sorted list |
| ZSet.ZSetData.ZsetRevRank | crates/commands/src/zset.rs:135-151 | the same counted from the end |
| ZSet.RanksAddUp | crates/commands/src/zset.rs:117-151 | rank and reverse rank of a member add up to the size less one |
| ZSet.ZSetData.ZsetRange | crates/commands/src/zset.rs:153-166 | the clamped slice of the sorted list |
| ZSet.ZSetData.ZsetRevRange | crates/commands/src/zset.rs:168-182 | the clamped slice of the reversed list |
| ZSet.RangeExactly | crates/commands/src/zset.rs:153-166 | the slice is exactly the elements between the two indices, except if and only if the set is non-empty, stop lies before the front and start at or before it |
| ZSet.ZSetData.ZsetRangeByScore | crates/commands/src/zset.rs:184-202 | for every pair of bounds the result is the plain filter of the sorted list |
| ZSet.BetweenExactly | crates/commands/src/zset.rs:28-44 | that filter keeps the order and exactly the entries whose scores are above or, for an inclusive bound, at the lower one, and likewise below or at the upper one |
| ZSet.BucketsBetween | crates/commands/src/zset.rs:184-202 | skipping and stopping early loses nothing |
| ZSet.NothingAbove | crates/commands/src/zset.rs:186-200 | behind the first bucket above the upper bound nothing is in range |
| ZSet.ZSetData.RebuildScores | crates/commands/src/zset.rs:248-254 | from any members, the rebuilt index agrees with them |
| ZSet.ZSetData.Zrem | crates/commands/src/zset.rs:901-921 | exactly the named members go, the reply is how many there were, and the indexes agree |
| ZSet.ZSetData.Zpopmin | crates/commands/src/zset.rs:1031-1066 | popped followed by what is left is the old sorted list, of the asked length as far as there are entries; the members left are the old ones without the popped |
| ZSet.ZSetData.Zpopmax | crates/commands/src/zset.rs:1069-1105 | what is left followed by the popped entries reversed is the old sorted list; the members left are the old ones without the popped |
| ZSet.EntriesSplit | crates/commands/src/zset.rs:1045-1051 | dropping a front or back part of the sorted list from the map leaves the other part as its sorted list |
| ZSet.PopAllInOrder | crates/commands/src/zset.rs:1043-1052 | repeated ZPOPMIN with any counts lists the set in sorted order, nothing lost or twice; once empty, all of it |
| ZSet.PoppedPrecede | crates/commands/src/zset.rs:1045-1091 | every popped entry precedes every one left |
| Streams.NewIdsExactly | crates/commands/src/stream.rs:875-894 | a `>` read delivers, in order, exactly the entries above the old and up to the new last-delivered id |
| Streams.ReadNewExactly | crates/commands/src/stream.rs:870-894 | a `>` read delivers the first entries above the last-delivered id, at most COUNT but at least one, all of them if there are fewer or no COUNT is given; the last becomes the last-delivered id; without NOACK each is pending with the consumer, delivered now and once; nothing else changes |
| Streams.DeliveredAtMostOnce | crates/commands/src/stream.rs:816-928 | over every run of commands the ids `>` reads deliver strictly increase and the last-delivered id never decreases |
| Streams.ClaimedKeys | crates/commands/src/stream.rs:1000-1020 | after XCLAIM the pending ids are the old ones and the existing entries named |
| Streams.ClaimedRecord | crates/commands/src/stream.rs:1000-1020 | for every id and every list, what XCLAIM leaves of its pending entry: untouched if not claimable or not named; otherwise the consumer, the delivery time with the idle time given, and one more delivery, or one for each time it is named if that idle time is enough; one that was not pending starts with one delivery now |
| Streams.ClaimBalanced | crates/commands/src/stream.rs:1000-1020 | XCLAIM keeps the ledger if and only if every existing entry it names is pending |
| Streams.LedgerOverRun | crates/commands/src/stream.rs:816-1035 | over every run whose XCLAIMs name only pending or absent ids, the ids delivered without NOACK are the disjoint union of pending and acknowledged ones, and their number is the pending count plus the sum of XACK replies |
| Streams.RereadAllExactly | crates/commands/src/stream.rs:895-913 | reading history adds one delivery to exactly the entries returned, which exist, and leaves out an existing one only once COUNT is reached |
| Streams.RereadInOrder | crates/commands/src/stream.rs:895-913 | what is read again is picked from the pending ids in their order, each at most once |
| Streams.SweepVisits | crates/commands/src/stream.rs:1234-1262 | XAUTOCLAIM looks at the ids in order, all of them unless its reply is full, and then its cursor is the successor of the last |
| Streams.SweepTakes | crates/commands/src/stream.rs:1235-1262 | exactly the visited entries that are idle long enough are handed over, once each, and the reply lists, in order and once each, those of them that still exist (any with JUSTID), at most COUNT |
| Streams.ReplyKnownBefore | crates/commands/src/stream.rs:1232-1262 | the reply is the first COUNT of the entries from the start on that, before the call, are idle long enough and exist; a full one was filled by the last entry visited |
| Streams.AutoClaimCursor | crates/commands/src/stream.rs:1232-1267 | 0-0 is replied when all is visited; otherwise what lies from the cursor on is exactly what is left, and the last visited id lies below the cursor if and only if it is not the largest sequence number |
| Streams.CountZeroStandsStill | crates/commands/src/stream.rs:1235-1238 | with COUNT 0 the cursor handed in is handed back and nothing is claimed |
| Streams.CursorTruthful | crates/commands/src/stream.rs:1232-1267 | the cursor says what is left if and only if, before the call, fewer than COUNT entries from the start on fit, or the COUNT-th that does has a successor or is the very last id, in millisecond 0; with COUNT 0, if and only if there is nothing from 0-0 on |
| Streams.LargestSequenceLoops | crates/commands/src/stream.rs:1250-1250 | a sweep without minimum idle time that has come to (ms, 0) and is filled by the largest id of that millisecond is handed that cursor on every further call, the id gaining one delivery each time |
| Streams.SameCursorForever | crates/commands/src/stream.rs:1193-1274 | a sweep without minimum idle time handed back its own cursor is handed it for ever |
| Streams.LargestSequenceReached | crates/commands/src/stream.rs:1250-1250 | a sole pending entry with the largest sequence number leads a sweep from 0-0 there |
| Sweeps.SweepExactly | crates/commands/src/stream.rs:1193-1274 | following the cursors ends and visits every pending id from the start on exactly once, in order, if and only if, page by page as the entries stand before the sweep, every full page ends on an id that has a successor or on the very last id, in millisecond 0; with COUNT 0, if and only if there is nothing from 0-0 on |
| Sweeps.NextPages | crates/commands/src/stream.rs:1193-1274 | after a call whose page ends well the pages ahead are those that were ahead before it |
| Sweeps.BadPageMisleads | crates/commands/src/stream.rs:1250-1267 | a call whose full page ends badly is handed 0-0 too early or a cursor that leads back to an id it looked at |
| Sweeps.SuccessorsSuffice | crates/commands/src/stream.rs:1250-1250 | if no pending id has the largest sequence number every page ends well |
| Sweeps.FollowTakesOnce | crates/commands/src/stream.rs:1193-1274 | a sweep that visits everything hands every entry over at most once, exactly once with min-idle 0, and touches none before its start |
| Sweeps.WholeSweep | crates/commands/src/stream.rs:1193-1274 | from 0-0, if every page ends well, the sweep ends, every pending id is visited once and, with min-idle 0, ends with the claimer and one more delivery |
| Streams.AssignedAboveAll | crates/storage/src/lib.rs:354-381 | an assigned id is at or above the last id, hence above every entry, if and only if it was asked for or the clock is not behind |
| Streams.AddKeepsWell | crates/storage/src/lib.rs:339-344 | entries stay below the last id if and only if the added id is below it or has a successor |
| Streams.BehindClockOverwrites | crates/storage/src/lib.rs:339-381 | with the clock behind, two entries added in one millisecond get the same id and the second replaces the first |
| Streams.AddReplacesExactly | crates/storage/src/lib.rs:339-381 | on any stream XADD is accepted and adds no entry if and only if the stream holds the id asked for, above the last id, or else the last id in its millisecond or number 0 in the clock's |
| Streams.KeptReplacesExactly | crates/storage/src/lib.rs:354-381 | where every entry lies below the last id, that is if and only if the clock chose the id, is behind the last id, and an entry with number 0 in that millisecond exists |
| Streams.LargestReplacesItself | crates/storage/src/lib.rs:339-344 | an entry added with the largest sequence number sends the last id back, so the same XADD is accepted again and replaces it |
| Streams.KeptExactly | crates/commands/src/stream.rs:347-393 | trimming by length keeps as many entries as the length allows and every one kept is above every one dropped; by bound, exactly the entries not below it; what stays keeps its fields |
| Streams.KeptSize | crates/commands/src/stream.rs:347-393 | trimming takes away as many entries as are beyond the length, or below the bound |
| Streams.TrimEntries | crates/commands/src/stream.rs:347-393 | removing the ids one by one leaves what the rule keeps and counts the rest |
| Streams.EntriesAddUp | crates/commands/src/stream.rs:111-142 | over every run the number of entries is the initial one plus the accepted XADDs less the replaced and less the dropped: those XDEL names and the stream holds, and the surplus over each trim's length or below its bound |
| Streams.NoneReplacedExactly | crates/storage/src/lib.rs:339-381 | over every run on any stream the number of entries is the initial one plus one for each accepted XADD less the dropped, if and only if no XADD finds its id held |
| Streams.KeptRunReplacesExactly | crates/storage/src/lib.rs:339-381 | over every run that does not use up the sequence numbers, that is if and only if no XADD comes with its clock behind the last id on a millisecond whose entry number 0 exists |
| Streams.AssignedIncrease | crates/storage/src/lib.rs:339-381 | over every run whose clock keeps up the assigned ids strictly increase |
| Streams.AddedIsDeliverable | crates/commands/src/stream.rs:875-880 | an added entry can be read by the group if and only if its id is above the last-delivered one; with `*` that id is the last id in its own millisecond and the start of the millisecond otherwise |
| Streams.NotDeliveredLater | crates/commands/src/stream.rs:875-880 | an entry at or below the last-delivered id is never delivered again in any run |
| Streams.DollarGroupMisses | crates/commands/src/stream.rs:735-747 | after creating a group at `$`, an entry added in the millisecond of the last id is stored but never delivered in any run |
| Streams.RemoveListed | crates/commands/src/stream.rs:402-407 | the loop leaves exactly the entries not listed, as they were, and counts those that were there |
| Streams.DeliverNew | crates/commands/src/stream.rs:874-894 | the loop delivers and tracks the first ids up to COUNT, at least one, and returns the last one |
| Streams.DeliverFirst | crates/commands/src/stream.rs:870-894 | the read as a whole does what a `>` read is to do |
| Streams.DeliverAgain | crates/commands/src/stream.rs:895-913 | the loop over the pending ids, with its early stop, does what the specification says |
| Streams.ClaimListed | crates/commands/src/stream.rs:999-1032 | the reply names, in their order, exactly the listed ids claimable when the command came; they are with the consumer, all other pending entries untouched |
| Streams.ClaimInOrder | crates/commands/src/stream.rs:1232-1262 | the loop of XAUTOCLAIM, with its break and skips, does what the specification says |
| Streams.GroupedStream.constructor | crates/commands/src/stream.rs:720-749 | a new group has nothing pending, stands at the given id or the last id, and starts with balanced books |
| Streams.GroupedStream.Xadd | crates/commands/src/stream.rs:111-142 | a refused id changes nothing; otherwise the entry is there with its fields, and the entries with it are trimmed by the rule, if there is one |
| Streams.GroupedStream.Xdel | crates/commands/src/stream.rs:395-410 | exactly the named entries go and the reply is how many there were |
| Streams.GroupedStream.Xtrim | crates/commands/src/stream.rs:347-393 | the lowest ids beyond the length, or all below the bound, go, the others stay as they were, and the reply is how many went |
| Streams.GroupedStream.XreadgroupNew | crates/commands/src/stream.rs:870-894 | replies the first new ids, as many as COUNT lets through, moves the last-delivered id to the last of them, and records each as delivered to the consumer now and once unless NOACK |
| Streams.GroupedStream.XreadgroupHistory | crates/commands/src/stream.rs:870-913 | replies the re-read ids and leaves the state the specification names |
| Streams.GroupedStream.Xack | crates/commands/src/stream.rs:930-947 | exactly the named ids stop being pending and the reply is how many were |
| Streams.GroupedStream.Xclaim | crates/commands/src/stream.rs:949-1035 | replies exactly the claimable ids, now with the consumer, each with the delivery time and count its being named calls for |
| Streams.GroupedStream.Xautoclaim | crates/commands/src/stream.rs:1193-1274 | replies cursor and claimed ids of the specification and leaves its state |
| RdbCodec.LengthBack | crates/persistence/src/rdb.rs:57-128 | wherever a length is printed it is read back and reading stops right behind it, if and only if it is below 2^32 |
| RdbCodec.LengthForms | crates/persistence/src/rdb.rs:69-128 | what the bytes of a length mean, whatever they are: the first byte is the length, or its low six bits are the high byte and the next byte the low one, or it announces one, two or four bytes, or is refused; and input that ends inside ends too early |
| RdbCodec.LengthWidth | crates/persistence/src/rdb.rs:57-67 | lengths are printed in one, two or five bytes, the shortest that holds them |
| RdbLimits.StringBack | crates/persistence/src/rdb.rs:135-149 | the same of strings, if and only if shorter than 2^32 bytes |
| RdbCodec.StringForm | crates/persistence/src/rdb.rs:135-149 | a string that is read is the bytes right behind its length, as they stand; if they are not all there the input ended too early |
| RdbCodec.ElementForms | crates/persistence/src/rdb.rs:418-492 | which part of an element is read first: the field before its value, the member before its score, the time of an id before its number, the id of a stream entry before its pairs |
| RdbCodec.CodeManyCons | crates/persistence/src/rdb.rs:206-211 | the elements of a list are printed first to last |
| RdbCodec.U64Back | crates/persistence/src/rdb.rs:183-184 | 64-bit little-endian integers are read back |
| RdbCodec.LittleEndianBytes | crates/persistence/src/rdb.rs:183-184 | byte i of what is printed is byte i of the number, the least significant first |
| RdbCodec.FixedReads | crates/persistence/src/rdb.rs:316-319 | a number is read from its bytes, least significant first, if they are all there |
| RdbCodec.KindDecides | crates/persistence/src/rdb.rs:388-492 | the type byte decides the kind of value read, and one of no known kind is refused |
| RdbLimits.ManyJudged | crates/persistence/src/rdb.rs:397-400 | if each element is read back when good and never when not, a count loop reads a list back exactly when all its elements are good, and otherwise never as itself |
| RdbLimits.CountedAt | crates/persistence/src/rdb.rs:394-402 | the same of a list behind its count, if and only if there are also fewer than 2^32 elements |
| RdbCodec.ManyAdvances | crates/persistence/src/rdb.rs:397-400 | a count loop that succeeds took at least one byte per element and stayed inside the input |
| RdbLimits.ValueBack | crates/persistence/src/rdb.rs:388-492 | every value of the six kinds is read back, whatever surrounds it, if and only if every count and every string in it is below 2^32; one that is not is nowhere read back as itself |
| RdbCodec.ValueAdvances | crates/persistence/src/rdb.rs:388-492 | on arbitrary bytes a value that is read lies inside the input and has fewer elements than bytes consumed |
| RdbValues.MapRebuilt | crates/persistence/src/rdb.rs:433-442 | inserting a map's entries in any order rebuilds the map |
| RdbValues.FromPairsLast | crates/persistence/src/rdb.rs:433-442 | of equal keys the last one listed counts |
| RdbValues.DecimalBack | crates/persistence/src/rdb.rs:255-258 | what is written for an integer is a minus sign if it is negative and digits that stand for it in base ten, with no leading zero |
| RdbValues.ScoreKeyExactly | crates/persistence/src/rdb.rs:425-430 | two scores are filed together if and only if they are the same pattern, both zero or both NaN |
| RdbValues.IndexesAgreeExactly | crates/persistence/src/rdb.rs:414-431 | the two indexes of a sorted set, filled side by side from the elements read, agree if and only if no member is listed with two scores that differ as floats |
| RdbValues.MeaningOfWritten | crates/persistence/src/rdb.rs:201-259 | in whatever order collections were written, what is read means the value, with compact encodings made plain and groups dropped |
| RdbValues.DecodeMany | crates/persistence/src/rdb.rs:394-402 | the list loop succeeds or fails exactly as the format says, with the elements in order |
| RdbValues.DecodeSet | crates/persistence/src/rdb.rs:403-411 | the set loop holds exactly the elements read |
| RdbValues.DecodeZSet | crates/persistence/src/rdb.rs:412-432 | the sorted-set loop holds both indexes of the elements read |
| RdbValues.DecodeMap | crates/persistence/src/rdb.rs:433-442 | the map loops hold the entries read, the last of equal keys |
| RdbValues.DecodeValue | crates/persistence/src/rdb.rs:388-492 | on arbitrary bytes the decoder ends, with the same error as the format or with what the elements amount to |
| RdbFile.RecordBack | crates/persistence/src/rdb.rs:304-364 | a printed record (expiry, type, key, value) is read back, for millisecond, second and no stamps, if and only if its key, the lengths of its value and a stamp in seconds are below 2^32 |
| RdbFile.HeadForms | crates/persistence/src/rdb.rs:312-355 | 0xFC and eight bytes are a stamp in milliseconds, 0xFD and four bytes one in seconds, least significant byte first, the type byte following; any other byte is the type byte |
| RdbFile.RecordAdvances | crates/persistence/src/rdb.rs:299-364 | on arbitrary bytes every record that is read moves forward inside the input, so loading ends |
| RdbFile.ReadAllBack | crates/persistence/src/rdb.rs:299-369 | printed records are read back, all of them, and reading goes on right behind |
| RdbFile.DeadlineSurvives | crates/persistence/src/rdb.rs:322-329 | a deadline survives save and load if and only if it is ahead at load, had not passed at save and fits 64 bits, whichever clock reads later; one passed by a later load is lost |
| RdbFile.StampMeans | crates/persistence/src/rdb.rs:322-350 | a stamp in milliseconds that is ahead is the deadline; one in seconds, while its second is ahead of that of the load, gives the moment as far into that second as the load is into its own; any other stamp gives no deadline |
| RdbFile.RestoredExactly | crates/persistence/src/rdb.rs:164-386 | an entry comes back identical if and only if it had no compact encoding, no consumer groups and no deadline that does not survive |
| RdbFile.LoadOfBody | crates/persistence/src/rdb.rs:282-386 | loading well-formed records followed by any bytes puts them all into the keyspace and reports an error if and only if the last eight bytes of the file are not the checksum of all before them |
| RdbFile.LoadOfCutFile | crates/persistence/src/rdb.rs:299-369 | a file cut anywhere before its end mark is refused as ended too early with exactly the records wholly before the cut loaded; cut inside the magic, nothing is |
| RdbFile.LoadLeavesAlone | crates/persistence/src/rdb.rs:287-369 | a load leaves every keyspace as it was if and only if the magic is wrong, nothing or the end mark follows it, or the first record fails |
| RdbFile.RecordNeedsAll | crates/persistence/src/rdb.rs:312-364 | whatever the bytes, a record that is read is read the same from any input that reaches its end, and from any that ends inside it fails as ended too early |
| RdbCodec.ValueNeedsAll | crates/persistence/src/rdb.rs:388-492 | the same of every value of the six kinds |
| RdbFile.InsertedSnapshot | crates/persistence/src/rdb.rs:363-369 | putting a snapshot's records into a keyspace overlays the saved entries, restored, and keeps every other key |
| RdbFile.InsertedLast | crates/persistence/src/rdb.rs:363-369 | of several records for a key the last one counts |
| RdbFile.LoadOfSave | crates/persistence/src/rdb.rs:164-386 | loading what was saved reports no error and yields the keyspace before overlaid with the saved one, every value normalised and every deadline still ahead kept, for all keyspaces with lengths below 2^32 and every order of walking them |
| RdbFile.EncodeMany | crates/persistence/src/rdb.rs:206-211 | the loop appends the elements' codes in order |
| RdbFile.EncodeValue | crates/persistence/src/rdb.rs:201-259 | what is appended is the code of some way to write the value |
| RdbFile.SaveEntry | crates/persistence/src/rdb.rs:175-259 | what is appended for a key is the code of some record that writes its entry |
| RdbFile.SaveRecords | crates/persistence/src/rdb.rs:171-261 | the loop over the keys appends records that write every entry once, in some order |
| RdbFile.Store.Save | crates/persistence/src/rdb.rs:164-270 | the bytes hold records that write every entry once, in some order; and if every length is below 2^32, loading them at any time into any keyspace reports no error and brings every entry back |
| RdbFile.LoadRecords | crates/persistence/src/rdb.rs:299-369 | the loop ends on every input with the records read so far inserted and the error the format says |
| RdbFile.Store.Load | crates/persistence/src/rdb.rs:282-386 | any bytes load as specified: wrong magic changes nothing, otherwise the records up to the first error are inserted |

## Left out

- Parsing of command arguments and option syntax; the models start from parsed values.
- Floating-point arithmetic: sorted-set scores are an ordered type in `ZSet`, where NaN and the equality of -0.0 and 0.0 are not modelled; in `RdbValues` they are 64-bit patterns filed by float equality, and which pattern of a class stands in the index is not modelled; the HyperLogLog estimate is a parameter.
- Hash functions: the 64-bit hash of HyperLogLog and the CRC-64 of snapshots are parameters.
- Clocks: times are parameters, one reading per command, per save and per load; monotonic and wall clock are taken as one.
- Overflow of 64-bit bit offsets in `BITFIELD`, and panics of debug builds on integer overflow: arithmetic is that of release builds where it wraps, unbounded elsewhere.
- The delay of a watcher's thread: in `Transactions` a mark may come at any point of a run, in `Watchers` it comes with the announcement.
- Writes that announce nothing to watchers because they go around the store's `set`, `del` and `expire`: `Watchers` starts from what is announced.
- The default configuration EXEC runs commands with, and isolation of EXEC from other clients.
- XGROUP SETID, XGROUP DESTROY and re-creation of a group, XSETID and several groups on one stream: they reset what the run theorems are about.
- Blocking reads and pops, XREAD, XRANGE, XPENDING, XINFO: readers of the same state, easier than the members here.
- Lexicographic ranges, set algebra and ZREMRANGE of sorted sets: simpler uses of the same indexes.
- Slots, flags, addresses and link state of a gossip node beyond being carried in its record; failure detection and failover.
- The layout of ListPack and IntSet in memory, eviction, AOF, replication, scripting, pub/sub, ACL rule tables and DUMP/RESTORE.
- File input and output of snapshots: bytes in, bytes out.
- RdbFile.Store.Save: collections are walked in any order, which covers every hash order; that a stream's entries are walked by id is not used.
