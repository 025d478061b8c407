# Verified model of mgnx

mgnx is a BitTorrent DHT node and crawler written in Go. This project models its stateful core in Dafny
and proves what that core is for:

- the Kademlia routing table (`dht/table`, "Routing Table" section of BEP-05): the buckets over the 160-bit
  identifier space, insertion with splitting, eviction with replacement, lookup of the closest nodes;
- the transaction manager over the generic cache (`dht/server/transaction.go`, `pkg/cache/cache.go`) and the
  per-address limiter (`dht/server/limiter.go`), under every interleaving of their goroutines;
- the two iterative lookups (`dht/crawler/discovery.go`, `dht/server/bootstrap.go`);
- the announce store (`dht/server/peerstore.go`) and the crawler's two heaps (`dht/crawler/heaps.go`);
- the wire formats: compact records ("Contact Encoding" section of BEP-05), peer messages and the metadata
  exchange (BEP-10, BEP-9), and node identifiers tied to addresses (BEP-42).

`dafny verify dfyconfig.toml` checks everything.

How the pieces fit:

| file | contents |
|---|---|
| `common.dfy` | optional values, duplicate-free lists, sizes of sets |
| `node_ids.dfy`, `buckets.dfy` | identifiers as bytes, bits and numbers; distance; dyadic buckets; refresh targets |
| `table_model.dfy` | the routing table as values, its operations and its invariant |
| `table_theorems.dfy`, `table_runs.dfy`, `table_conservation.dfy`, `table_ages.dfy`, `table_failures.dfy`, `candidates.dfy` | the table as a map, the shape of every reachable table, what is conserved, who has waited longest, how failures add up, what a lookup sees |
| `routing_table.dfy` | the table as shared, mutable objects, each method proved against `table_model.dfy` |
| `nearest.dfy`, `discovery.dfy`, `bootstrap.dfy` | the nearest few of a set, and the two lookups |
| `transactions.dfy`, `txn_manager.dfy`, `limiter.dfy` | interleaved steps, and the objects behind them |
| `peer_store.dfy`, `peer_store_object.dfy` | the announce store as a value and as an object |
| `heaps.dfy`, `crawler.dfy` | `container/heap` for any rank, and the two heaps of the crawler |
| `compact.dfy`, `bep42.dfy`, `peer_wire.dfy`, `metadata_fetch.dfy` | formats and protocols |

Identifiers stay sequences of twenty bytes. `Top(id, d)` is the number formed by their first `d` bits and `Val`
the number formed by all 160; lexicographic order, XOR distance, bucket depth and common prefix length are all
tied to it, so that every argument about the table is an argument about intervals of numbers.

The routing table is proved twice over. `TableModel` is a state machine on values with one invariant, `Inv`:
the buckets partition the space into consecutive dyadic intervals; no list is longer than the bucket size; a
cache is non-empty only when its bucket is full; our own bucket has no cache; identifiers are distinct; every node
lies in its bucket; every other bucket is the sibling of a step of the path to our own identifier; and there is one
bucket more than our own is deep. The objects
of `RoutingTables` are then shown to do exactly what the state machine does.

Several statements turn out to hold only under a condition, and the condition is proved to be exact:

- random refresh targets exist for every bucket of every reachable table if and only if the bucket size is at least
  two (`TableRuns.RefreshTargetsExist`);
- the announce store keeps its structures in agreement over every run if and only if both caps are at least one
  (`PeerStores.CapsMustBePositive`);
- a fresh announce is returned while it lives if and only if its infohash is new, the peer is known already, or the
  list, expired peers included, is not full (`PeerStores.AnnouncedIsReturned`); `PeerStores.FreshAnnounceIsLost` is a
  run in which it is lost although every peer in its way has expired;
- a stream of messages is read back as it was written if and only if every message fits the size limit
  (`PeerWire.ReadsBack`);
- the limiter's map stays within a bound over every run if and only if the bound is at least the configured size plus
  the number of workers less one, so that the configured size itself is kept with one worker and with no more
  (`Limiter.ExactBound`).

The effect of each operation is also stated in fields, bytes and positions, without the function that computes it.

The comment on `MarkFailure` (dht/table/table.go:184-186) says that a bad node is evicted when a replacement is
waiting; the code evicts it in either case, and the model follows the code.

## Model

| member | source | states |
|---|---|---|
| NodeIds.CompareIsValue | dht/table/nodeid.go:58-61 | Byte-lexicographic order of identifiers is the order of their 160-bit values; equal only when identical |
| NodeIds.ComputeXor | dht/table/nodeid.go:38-45 | The loop over bytes yields the bytewise XOR |
| NodeIds.DistInjective | dht/table/nodeid.go:38-45 | Two identifiers at the same distance from a target are the same |
| NodeIds.CloserByBytes | dht/table/nodeid.go:38-45 | Of two identifiers the closer to a target is decided by the first byte in which their XORs with it differ |
| NodeIds.ComputeCommonPrefixLen | dht/table/nodeid.go:47-56 | The scan for the first non-zero byte finds the index of the first differing bit, 160 when there is none |
| NodeIds.LeadingZeros8 | dht/table/nodeid.go:52 | The count of leading zero bits of a byte: all bits before it are zero, the bit at it is one |
| NodeIds.PrefixLenIsTop | dht/table/nodeid.go:47-56 | A common prefix of at least d bits is agreement of the first d bits |
| NodeIds.LongerPrefixIsCloser | dht/table/nodeid.go:38-56 | A longer common prefix with a target means a strictly smaller XOR distance |
| NodeIds.IntervalIsPrefix | dht/table/bucket.go:18-23 | An interval of width 2^(160-d) on a d-bit boundary holds exactly the identifiers with its d-bit prefix |
| Buckets.ContainsIsRange | dht/table/bucket.go:18-23 | The comparison of bytes, with zero Max for the end of the space, is membership of the value in the bucket's interval |
| Buckets.ContainsIsPrefix | dht/table/bucket.go:18-23 | A dyadic bucket contains exactly the identifiers that share its first Depth bits |
| Buckets.MidpointHalves | dht/table/table.go:283-293 | Setting bit Depth and clearing the bits below it gives the point that halves the range |
| Buckets.RandomNodeId | dht/table/bucket.go:33-44 | Bits before Depth come from Min, the rest stay random; a dyadic bucket contains the result |
| TableModel.NewIsValid | dht/table/table.go:39-50 | The initial table, one bucket over the whole space, satisfies the invariant for every bucket size of at least one |
| TableModel.RangesInOrder | dht/table/table.go:264-272 | In a partition, an earlier bucket ends no later than a later one starts |
| TableModel.BucketForIsUnique | dht/table/table.go:264-272 | The bucket found by the search is the one and only bucket that contains the identifier |
| TableModel.RoomToSplit | dht/table/table.go:94-104 | A full bucket still missing an identifier of its range has a depth below 160, and below 159 when it holds two or more |
| TableModel.ZeroCapacityAlwaysSplits | dht/table/table.go:94-104 | With bucket size zero, inserting our own identifier asks for a split in every table without nodes, a bucket of one identifier included |
| TableModel.SplitIsSafe | dht/table/table.go:100-104 | Every split that insertion makes is in range, keeps the invariant and makes our own bucket one bit deeper |
| TableModel.SplitContents | dht/table/table.go:299-312 | Both halves of our own bucket satisfy the conditions on their contents |
| TableModel.SplitKeepsOrder | dht/table/table.go:299-312 | Nodes keep their order in the half they go to |
| TableModel.SplitKeepsInv | dht/table/table.go:279-325 | Splitting our own bucket keeps partition, contents, uniqueness and path |
| TableTheorems.LookupSplit | dht/table/table.go:279-325 | A split changes no entry of the table seen as a map |
| TableTheorems.InsertRefinesMap | dht/table/table.go:78-127 | Insertion keeps the invariant and changes the map only at the inserted identifier, as its result says: inserted and cached add the node, updated leaves its identifier with the new address and time and no failures, dropped changes nothing |
| TableTheorems.MarkFailureRefinesMap | dht/table/table.go:187-224 | A failure keeps the invariant, adds one to one identifier's count, keeps its address and time, removes it exactly when the count reaches the threshold, and leaves all others |
| TableTheorems.MarkSuccessRefinesMap | dht/table/table.go:169-182 | A success keeps the invariant and gives the identifier the new time and no failures, only when it is an active node |
| TableTheorems.StoredIsFound | dht/table/table.go:264-272 | Whatever is stored anywhere in the table is found under its identifier in the bucket the search returns |
| TableTheorems.EachIdOnce | dht/table/table.go:84-125 | An identifier occurs at most once in the whole table, active nodes and caches together |
| TableRuns.ApplyKeepsInv | dht/table/table.go:60-66 | Every operation keeps the invariant, our identifier, the bucket size and the threshold |
| TableRuns.Run | dht/table/table.go:60-224 | Every table reachable by any sequence of operations satisfies the invariant |
| TableRuns.OwnBucketIsPrefix | dht/table/table.go:100-104 | Our own bucket, of depth D, holds exactly the identifiers that share at least D bits with ours |
| TableRuns.OwnIsDeepest | dht/table/table.go:100-104 | No bucket is deeper than our own |
| TableRuns.KademliaPath | dht/table/table.go:279-325 | With D the depth of our own bucket there are D + 1 buckets, and the other bucket at depth d holds exactly the identifiers with common prefix length d - 1 |
| TableRuns.OneBucketPerDepth | dht/table/table.go:279-325 | There is exactly one other bucket at each depth from 1 to D |
| TableRuns.RefusedElsewhere | dht/table/table.go:94-125 | A node is cached or dropped only by a full bucket that is not ours, and dropped only when its cache is full too |
| TableRuns.OneNodeBucketsReachBottom | dht/table/table.go:94-104 | With bucket size one, inserting our own identifier and its nearest sibling yields a bucket of depth 160 |
| TableRuns.RefreshTargetsExist | dht/table/bucket.go:33-44 | Every bucket of every reachable table has depth below 160, so that a refresh target can be drawn, if and only if the bucket size is at least two |
| TableConservation.InsertCounts | dht/table/table.go:94-98 | The node count grows by one exactly for "inserted" and is otherwise unchanged, splits included |
| TableConservation.MarkFailureCounts | dht/table/table.go:201-208 | The node count falls by one exactly when a node is evicted and no replacement is waiting |
| TableConservation.OldestIsPromoted | dht/table/table.go:202-206 | On eviction the node at the front of the cache, unchanged, becomes active, and the failed identifier is gone |
| TableConservation.CachedIsYoungest | dht/table/table.go:117-124 | A new node is put at the back, of the cache when cached and of the active nodes when inserted |
| TableConservation.PromotedIsLast | dht/table/table.go:202-206 | The front of the cache leaves it for the back of the active nodes |
| TableConservation.RefreshedInPlace | dht/table/table.go:84-116 | A node that is seen again is refreshed where it is: no bucket is split and nobody changes place |
| TableConservation.SuccessInPlace | dht/table/table.go:173-181 | A success changes nobody's place |
| TableConservation.FailureInPlace | dht/table/table.go:191-199 | A failure below the threshold changes nobody's place |
| TableFailures.FailuresAddUp | dht/table/table.go:187-224 | After any number of failures in a row a stored node is still there, with that many more on its count, exactly while the count is below the threshold |
| TableFailures.SightingForgives | dht/table/table.go:84-92 | After an update the count starts from zero: the node, with its new address and time, survives any number of failures below the threshold and goes with the one that reaches it |
| TableFailures.AnswerForgives | dht/table/table.go:169-182 | So it does after a success of an active node, which keeps its address |
| TableFailures.OthersUnharmed | dht/table/table.go:187-224 | Failures of one identifier change no other entry |
| TableAges.CachesAreInOrder | dht/table/table.go:117-124 | After every run each cache is in the order of the operations that last cached its nodes, across splits, refreshes, promotions and pruning |
| TableAges.LongestWaitingIsPromoted | dht/table/table.go:202-206 | In every reachable table an eviction promotes the cached node of that bucket that was cached by the earliest operation |
| TableConservation.RunKeepsProperty | dht/table/table.go:60-224 | A property of nodes that the operations' own edits respect holds of every stored node after every run |
| TableConservation.NoBadNodes | dht/table/table.go:187-224 | When inserted nodes start below the failure threshold, no bad node is ever stored |
| Candidates.GoodIdsAreStored | dht/table/table.go:137-151 | The candidates of a lookup are exactly the identifiers the map holds with a node that is not bad |
| Candidates.GatheredIsStored | dht/table/table.go:137-151 | Each candidate is the node stored under its identifier |
| Candidates.GatheredDistinct | dht/table/table.go:137-151 | No two candidates have the same identifier |
| Candidates.NobodyIsMissed | dht/table/table.go:133-163 | When inserts start below the failure threshold, the candidates of a lookup in any reachable table are all nodes stored, active and cached |
| Candidates.LookupIsFull | dht/table/table.go:159-162 | ... and a lookup returns the minimum of n and their number |
| RoutingTables.RoutingTable.constructor | dht/table/table.go:39-50 | A new table object is the initial table of the model |
| RoutingTables.RoutingTable.FindBucket | dht/table/table.go:264-272 | The binary search, then one step back, returns the bucket of the model |
| RoutingTables.SplitBucket | dht/table/table.go:279-314 | The two new bucket objects hold the old one's nodes as the model's split distributes them |
| RoutingTables.ComputeMidpoint | dht/table/table.go:283-293 | The byte-wise computation of the split point equals the model's |
| RoutingTables.RoutingTable.Insert | dht/table/table.go:79-127 | The retry loop ends; the table object and the result are the model's, and the invariant holds |
| RoutingTables.RoutingTable.MarkSuccess | dht/table/table.go:169-182 | Refreshing the node object in place is the model's step |
| RoutingTables.RoutingTable.MarkFailure | dht/table/table.go:187-224 | Counting, evicting, promoting and pruning in place is the model's step |
| RoutingTables.RoutingTable.CountNodes | dht/table/table.go:227-235 | The sum over buckets is the model's node count |
| RoutingTables.RoutingTable.Gather | dht/table/table.go:137-151 | The loops over buckets collect the model's candidates in order |
| RoutingTables.RoutingTable.Closest | dht/table/table.go:133-163 | The result is in strictly ascending distance, is the nearest n of all stored nodes that are not bad, has the minimum of n and their number as its length, and consists of stored nodes |
| Nearest.SortBy | dht/table/table.go:153-157 | Stands for the library sort: a permutation in non-decreasing order of the key |
| Nearest.AscendingIsUnique | dht/table/table.go:153-157 | Two strictly ascending lists of the same identifiers are equal, so that the unstable sort has one outcome |
| Nearest.NearestIsUnique | dht/table/table.go:159-162 | There is only one nearest set of w members |
| Nearest.PrefixIsNearest | dht/table/table.go:159-162 | The first w of the sorted list are the nearest w |
| Nearest.NearestExists | dht/table/table.go:159-162 | Every set has a nearest set of w members |
| Nearest.TrimLosesNothing | dht/crawler/discovery.go:138-148 | With only the nearest w kept, adding identifiers gives the same nearest w as adding them to everything seen |
| Nearest.TrimmedIsSame | dht/crawler/discovery.go:138-148 | A set and its nearest w have the same nearest w |
| Transactions.NoTransactionIsLost | dht/server/transaction.go:28-113 | Under every interleaving of callers, repliers and sweeper, an undelivered transaction is in the map under its own key; each channel gets at most one message and is closed once when delivered and not before; a failure is marked at most once |
| Transactions.OnlyDeliveredAreDeleted | pkg/cache/cache.go:112-118 | What the delete phase removes has been delivered |
| Transactions.NewNeverOverwrites | dht/server/transaction.go:80-102 | Registering a transaction leaves every entry of the map in place |
| Transactions.ReplyReachesTransaction | dht/server/transaction.go:104-113 | A reply that finds a waiting transaction is the one message it gets, whatever happens between its two steps, unless something else is delivered to that transaction first |
| Transactions.ClosedForGood | dht/server/transaction.go:31-42 | Once a transaction is done, no sequence of events sends on its channel, closes it again or reopens it |
| Transactions.HowTransactionsEnd | dht/server/transaction.go:31-71 | A transaction ends either with exactly the message of a reply that had found it or, expired by the sweeper, without a message and with its failure marked |
| Transactions.OnlyOverdueExpire | dht/server/transaction.go:56-71 | Only a transaction that a visit of the sweeper found waiting for longer than the timeout is ever marked as failed or expired |
| Transactions.OverdueExpires | dht/server/transaction.go:56-71 | A waiting transaction found overdue is marked, closed without a message and collected for deletion |
| Transactions.SweepClearsDelivered | pkg/cache/cache.go:103-118 | A transaction delivered before a sweep begins is out of the map when the sweep ends, whatever interleaves with it |
| Transactions.LockHoldsEntries | pkg/cache/cache.go:104-110 | While the sweeper holds the read lock no entry is added or removed |
| Transactions.NewRegisters | dht/server/transaction.go:92-100 | A call of New that has seen its key unused adds one waiting transaction under it and nothing else, whatever happened since |
| Transactions.UninterruptedNew | dht/server/transaction.go:83-100 | A call nobody interferes with takes the next number and registers under its key |
| Transactions.KeysRepeat | dht/server/transaction.go:118-123 | Two numbers have the same key exactly when they are a multiple of 2^32 apart |
| Transactions.CallersDiffer | dht/server/transaction.go:84-90 | Two concurrent calls of New never hold the same key |
| Transactions.NextKeepsInv | dht/server/transaction.go:28-113 | Every atomic step keeps the invariant of keys, callers and sweeper |
| Transactions.FewRetries | dht/server/transaction.go:80-102 | However callers, repliers and sweeper interleave with it, a call of New hits a used key at most as often as there were entries and pending calls when it began |
| Transactions.NextTryIsFree | dht/server/transaction.go:83-90 | A call that has failed that often finds its next key unused |
| Transactions.DrawKey | dht/server/transaction.go:82-90 | Without interference the retry loop ends within one try more than there are entries, at the first unused key |
| TxnManagers.Transaction.Deliver | dht/server/transaction.go:31-42 | The first call sends its message, if any, and closes; once done, messages sent and closes stay as they are |
| TxnManagers.Cache.DeleteAll | pkg/cache/cache.go:112-118 | The second phase of a cleanup removes exactly the collected keys |
| TxnManagers.TxnManager.New | dht/server/transaction.go:82-102 | Without interference, a fresh transaction is registered under a key that was unused, and nothing else changes |
| TxnManagers.TxnManager.Complete | dht/server/transaction.go:107-113 | The message is sent to the transaction with that key unless it is done, and nothing is sent or closed otherwise |
| TxnManagers.ShouldDelete | dht/server/transaction.go:56-71 | A delivered transaction goes, a young one stays, and any other fails once, is closed once without a message and goes |
| TxnManagers.SweptFields | dht/server/transaction.go:56-71 | What a sweep leaves of a transaction, field by field: only a waiting, overdue one changes |
| TxnManagers.TxnManager.Sweep | dht/server/transaction.go:56-71 | Without interference, exactly the waiting, unexpired entries stay; the expired ones are closed without a message, and their nodes are the ones marked |
| Compact.EncodeNodes | dht/table/table.go:354-368 | The loop writes one 26-byte record for each IPv4 node, in order |
| Compact.DecodeNodes | dht/table/table.go:373-391 | A length that is not a multiple of 26 is an error; otherwise the loop parses every record |
| Compact.To4Is | dht/table/table.go:357-360 | Exactly four-byte and v4-in-v6 addresses have an IPv4 form, their last four bytes |
| Compact.RecordBytes | dht/table/table.go:361-365 | The record of a node byte by byte, the port high byte first |
| Compact.DecodedAt | dht/table/table.go:378-389 | Every decoded node, read from its 26 bytes, the port high byte first |
| Compact.DecodeEncode | dht/table/table.go:350-391 | Decoding what was encoded gives every IPv4 node, in order, with its identifier, address and 16-bit port |
| Compact.WireIsIdentity | dht/table/table.go:350-391 | Nodes that the format can express come back unchanged |
| Compact.EncodeDecode | dht/table/table.go:350-391 | Encoding what was decoded gives back every string whose length is a multiple of 26 |
| Compact.EncodePeer | dht/table/table.go:328-333 | The buffer holds four address bytes, zero for an address that is not IPv4, and the 16-bit port |
| Compact.DecodePeers | dht/table/table.go:336-348 | One record of the wrong length fails the whole list; otherwise each record is parsed in order |
| Compact.PeerBytes | dht/table/table.go:328-346 | A peer record byte by byte, both ways, the port high byte first |
| Compact.PeerRoundTrip | dht/table/table.go:327-348 | Any peer, encoded and decoded, comes back with its four address bytes, zero unless it is IPv4 in either form, and its 16-bit port |
| Compact.RecordRoundTrip | dht/table/table.go:327-348 | Every six bytes, decoded and encoded, come back |
| Compact.PeersRoundTrip | dht/table/table.go:327-348 | A list of any peers, encoded one by one, is decoded as what the wire carries of each, in order |
| Compact.RecordsRoundTrip | dht/table/table.go:336-348 | Every list of records that decodes is given back by encoding the result |
| Bep42.DeriveNodeId | dht/table/nodeid.go:92-121 | For every IPv4 address, checksum function and random bytes the derived identifier passes validation, and every bit the rule leaves open is the random one; any other address gives the zero identifier |
| Bep42.SeedBytes | dht/table/nodeid.go:104-110 | The checksum is taken over two, four, six and eight bits of the address with the random number in the top three bits |
| Bep42.ValidIsPrefix | dht/table/nodeid.go:123-145 | Validation is agreement of the first 21 bits of the identifier with that checksum, for an IPv4 address |
| Bep42.InsertValidEffect | dht/table/table.go:71-76 | A node that fails the check is dropped and no entry changes; any other is inserted |
| Bep42.CheckDrops | dht/table/table.go:71-76 | Passing all insertions through the check is running without those that fail it |
| Bep42.StoredNodesFit | dht/table/table.go:71-76 | When all insertions pass through the check, every node ever stored fits its current address, across refresh, split and promotion |
| Discovery.SortByDistance | dht/crawler/discovery.go:150-163 | The map's nodes in strictly ascending distance, none missing |
| Discovery.TrimToKClosest | dht/crawler/discovery.go:138-148 | The nearest w nodes of the map, each with its record |
| Discovery.ExtractNodes | dht/crawler/discovery.go:258-282 | A malformed list gives nothing; otherwise the identifiers in the result are exactly those of the 26-byte records that fit their address, each with the last such record, all read from the bytes |
| Discovery.ExtractPeers | dht/crawler/discovery.go:226-247 | None when any record is malformed; otherwise the address and port of every record, in order, read from the bytes |
| Discovery.ProcessResponses | dht/crawler/discovery.go:201-223 | Peers of all replies in order, nodes of all replies merged with later ones winning |
| Discovery.PeersInOrder | dht/crawler/discovery.go:201-211 | The peers of several replies are those of each, one reply after the other |
| Discovery.NewestWins | dht/crawler/discovery.go:201-223 | Everything named in a fitting record of any reply is learned, with the last such record of the last such reply, and nothing else is |
| Discovery.LearnedIs | dht/crawler/discovery.go:111-119 | A lookup knows exactly where it started and what its replies named |
| Discovery.LearnedNodesFit | dht/crawler/discovery.go:269-279 | Every learned node is stored under its own identifier and fits its address |
| Discovery.DispatchedAreNew | dht/crawler/discovery.go:95-109 | Appending chosen nodes that were not asked before to those asked makes no duplicate and stays among those known |
| Discovery.Dispatch | dht/crawler/discovery.go:89-109 | Those to ask are the nearest alpha of the shortlist's nodes that have not been asked |
| Discovery.Mark | dht/crawler/discovery.go:107-109 | The marking loop adds exactly the chosen nodes' identifiers |
| Discovery.QueryParallel | dht/crawler/discovery.go:166-186 | The nodes asked are a prefix, of the helper's own choice, of all those handed to it |
| Discovery.RoundJoins | dht/crawler/discovery.go:111-119 | A round adds its identifiers to those asked, its peers to those collected and its accepted nodes to those learned |
| Discovery.DiscoverPeers | dht/crawler/discovery.go:74-120 | The set marked queried is the set asked, and no identifier is asked twice; at most alpha times maxIterations queries go out; every round asks the nearest alpha open nodes of its shortlist, at the address of the newest record received, and the nearest w of the shortlist are the nearest w of the start and every identifier named in a fitting record so far; all peers received are returned; when everything was queried, the nearest w of all learned were asked |
| Bootstrap.ClosestUnqueried | dht/server/bootstrap.go:50-70 | Exactly the three closest of the unqueried among the eight closest entries, in order of distance |
| Bootstrap.StepKeepsInv | dht/server/bootstrap.go:39-48 | Every interleaved Get, Set or answer of a round keeps the round's invariant |
| Bootstrap.StoreOverwritesNothingQueried | dht/server/bootstrap.go:39-48 | Whatever interleaves between Get and Set, no queried entry and no entry from before the round is overwritten |
| Bootstrap.AnswersOnce | dht/server/bootstrap.go:179-206 | A reply arrives only for an entry that was not queried before |
| Bootstrap.RoundQueries | dht/server/bootstrap.go:176-210 | A finished round adds exactly the entries asked to the queried ones |
| Bootstrap.RoundLearns | dht/server/bootstrap.go:195-204 | A finished round knows exactly what was known before and what the first answer to each worker, as the events give it, named |
| Bootstrap.RunRound | dht/server/bootstrap.go:178-210 | Any schedule of a round, and then every worker to its end, by atomic steps that keep the invariant |
| Bootstrap.ConvergeTable | dht/server/bootstrap.go:166-217 | For any replies and schedules the loop ends after a sequence of complete rounds, each with the right choice and each adding exactly what its answers named; no identifier is queried twice; on exit the eight closest known entries have all been queried |
| PeerStores.PrepareEvicts | dht/server/peerstore.go:87-93 | Below the cap nothing is evicted; at the cap, or at one infohash when the cap is not positive, exactly the infohash at the front of the order |
| PeerStores.AddKeepsInv | dht/server/peerstore.go:48-93 | Adding keeps entries and order in agreement, both caps, and peers distinct by address and port |
| PeerStores.GetKeepsInv | dht/server/peerstore.go:95-111 | Reading, which forgets expired peers and empty infohashes, keeps the same |
| PeerStores.PruneKeepsInv | dht/server/peerstore.go:126-151 | Pruning keeps the same |
| PeerStores.ClashEitherWay | dht/server/peerstore.go:76-82 | In a list kept free of equal peers no two are equal, whichever comes first, IPv4 in either form included |
| PeerStores.RunAgrees | dht/server/peerstore.go:48-184 | For all caps: with room for a peer the structures agree in every reachable store, and without it nothing is ever stored |
| PeerStores.LiveKeeps | dht/server/peerstore.go:175-184 | Filtering keeps exactly the peers seen after the cutoff |
| PeerStores.LiveInOrder | dht/server/peerstore.go:175-184 | ... in their order |
| PeerStores.SamePeerIs | dht/server/peerstore.go:76-77 | Two peers are the same when their ports are and their addresses are, up to the two forms of an IPv4 address |
| PeerStores.AnnounceEffect | dht/server/peerstore.go:48-85 | An announce changes the list of its infohash alone: the time of the announced peer where it is listed, or one more peer at the end while there is room |
| PeerStores.GetEffect | dht/server/peerstore.go:95-111 | A read returns exactly the live peers in order, keeps exactly those, forgets the infohash when there are none, and leaves all others |
| PeerStores.PruneEffect | dht/server/peerstore.go:126-151 | Pruning keeps exactly the infohashes with live peers, each with exactly those in order |
| PeerStores.AnnouncedIsReturned | dht/server/peerstore.go:48-66 | While it lives, an announced peer is returned exactly when its infohash was new, the peer was known, or its list was not full |
| PeerStores.FreshAnnounceIsLost | dht/server/peerstore.go:57-59 | For all positive caps a run ends in a store without live peers in which a fresh announce is lost at once |
| PeerStores.ExpiryIsInvisible | dht/server/peerstore.go:95-184 | With no announce in between and a clock that never goes back, any reads and prunes change nothing a later Get returns |
| PeerStores.RunKeepsInv | dht/server/peerstore.go:48-184 | The invariant holds in every reachable store |
| PeerStores.OrderIsByAge | dht/server/peerstore.go:87-93 | In every reachable store the order list is in the order in which the infohashes were stored |
| PeerStores.EvictsStoredLongest | dht/server/peerstore.go:153-164 | In every reachable store at its cap, a new infohash evicts exactly one other: the one stored longest ago |
| PeerStores.CapsMustBePositive | dht/server/peerstore.go:48-93 | The invariant holds over all runs if and only if both caps are at least one |
| PeerStoreObjects.PeerStore.Add | dht/server/peerstore.go:48-66 | For all caps the map, the list and the index together do the model's step and stay linked |
| PeerStoreObjects.PeerStore.GetOrPrepare | dht/server/peerstore.go:68-85 | A known peer is refreshed, a new infohash is given its place, and anything else is left for the caller |
| PeerStoreObjects.PeerStore.PrepareNewInfohash | dht/server/peerstore.go:87-93 | Eviction when at the cap, then a new element at the back, in list and index |
| PeerStoreObjects.PeerStore.EvictOldest | dht/server/peerstore.go:153-164 | The loop from the front drops elements until one with peers has gone |
| PeerStoreObjects.PeerStore.Get | dht/server/peerstore.go:95-111 | The result and the store are the model's |
| PeerStoreObjects.PeerStore.RemoveFromOrder | dht/server/peerstore.go:166-173 | Unlinking through the index removes exactly that infohash from the order |
| PeerStoreObjects.PeerStore.PruneExpired | dht/server/peerstore.go:126-151 | The walk over the list, reading the clock at each infohash and removing under its own cursor, is the model's pruning |
| PeerStoreObjects.FilterLivePeers | dht/server/peerstore.go:175-184 | Exactly the peers seen after the cutoff, in order |
| Heaps.UpRestores | dht/crawler/crawler.go:202 | Sifting up restores heap order when only the edge above the sifted element is broken |
| Heaps.DownRestores | dht/crawler/crawler.go:201 | Sifting down restores heap order below any index when only the edges below the sifted element are broken |
| Heaps.PushKeepsHeap | dht/crawler/crawler.go:202 | A push keeps heap order and adds exactly one element |
| Heaps.PopTakesLeast | dht/crawler/crawler.go:201 | A pop keeps heap order, takes the root and nothing else, and no element is less than the root |
| Heaps.InitMakesHeap | dht/crawler/crawler.go:527 | Initialising makes a heap of any sequence without changing its elements |
| Crawlers.CmpDist | dht/crawler/heaps.go:63-73 | The first differing byte decides the order of the values |
| Crawlers.TraversalHeap.Less | dht/crawler/heaps.go:34-49 | Less compares the distances as numbers, scaling only items with a positive yield |
| Crawlers.TraversalHeap.Swap | dht/crawler/heaps.go:75-79 | Two items change places and every index field still equals its position |
| Crawlers.TraversalHeap.Push | dht/crawler/heaps.go:81-85 | The push of the sift steps, with every index field equal to its position |
| Crawlers.TraversalHeap.Pop | dht/crawler/heaps.go:87-95 | The root comes out with index -1, the rest keep their index fields equal to their positions |
| Crawlers.CooldownHeap.Push | dht/crawler/heaps.go:21 | The push of the sift steps, by time |
| Crawlers.CooldownHeap.Pop | dht/crawler/heaps.go:22-28 | The item with the earliest time comes out of a heap |
| Crawlers.PromoteOne | dht/crawler/crawler.go:201-202 | Moving the root of one heap to the other keeps both heaps ordered and every item in one place only |
| Crawlers.Crawler.PromoteReady | dht/crawler/crawler.go:195-204 | The items moved are exactly those whose time is not after now; none is lost or duplicated; both heaps stay ordered and indexed |
| Crawlers.Crawler.NextEligible | dht/crawler/crawler.go:451-459 | Null exactly when nothing is eligible; otherwise an item whose distance, scaled if it has yielded, is no greater than that of any eligible one, taken out alone |
| Crawlers.Crawler.PushToReady | dht/crawler/crawler.go:429-441 | A seen identifier changes nothing; otherwise one new item with its XOR distance joins |
| Crawlers.Crawler.Cool | dht/crawler/crawler.go:347 | A queried item joins the cooldown heap and nothing else changes |
| Crawlers.Crawler.TrimReadyToK | dht/crawler/crawler.go:521-528 | traversalWidth items stay, none with a greater distance, scaled if it has yielded, than any that goes; heap-ordered and indexed; a shorter heap is left alone |
| PeerWire.LengthRoundTrip | metadata/fetch.go:315-341 | The four length bytes give back the length modulo 2^32 |
| PeerWire.FrameBytes | metadata/fetch.go:315-329 | A message byte by byte: length with the most significant byte first, type, extension id, payload |
| PeerWire.ParseIs | metadata/fetch.go:336-355 | What is read, from the bytes: a keep-alive, one whole message within the limit, or a failure |
| PeerWire.SendMsg | metadata/fetch.go:315-334 | The bytes written are one frame: length, type, extension id, payload |
| PeerWire.ReadMsg | metadata/fetch.go:336-355 | Short input and oversized lengths fail, zero length is a keep-alive, anything else is one message, and the rest is left unread |
| PeerWire.ReadsBack | metadata/fetch.go:315-355 | A stream of messages and keep-alives is read back as the same sequence if and only if every message fits the size limit |
| PeerWire.SendHandshake | metadata/fetch.go:286-295 | The 68 bytes: protocol string, extension bit, infohash, peer id |
| PeerWire.HandshakeLayout | metadata/fetch.go:286-295 | The handshake byte by byte: 19, the name of the protocol, eight reserved bytes of which the sixth is 0x10, infohash, peer id |
| PeerWire.ReadHandshake | metadata/fetch.go:297-313 | Accepted exactly for a full handshake with the right protocol string, whose reserved bytes and infohash are returned |
| PeerWire.HandshakeRoundTrip | metadata/fetch.go:286-313 | A handshake is accepted and read back with its infohash and the extension bit |
| MetadataFetch.FetchPieces | metadata/fetch.go:190-269 | Guards first; then, stop and wait, the pieces from the first matching replies are assembled, and one request for each piece is written |
| MetadataFetch.AwaitPiece | metadata/fetch.go:226-268 | Messages are skipped up to the first that answers the request |
| MetadataFetch.PieceDataIs | metadata/fetch.go:236-262 | Exactly an extension message, not a handshake, that decodes to type 1 and the requested piece answers, with the bytes that follow |
| MetadataFetch.RequestsReadBack | metadata/fetch.go:207-224 | A peer whose limit they fit reads one request for each piece, in order, with its extension id |
| MetadataFetch.SlicesCover | metadata/fetch.go:203-205 | The rounded-up number of pieces covers the metadata exactly, each of 16384 bytes but the last, which is not empty |
| MetadataFetch.FetchesMetadata | metadata/fetch.go:207-269 | When the first answer to each request carries its piece, the result is the metadata, whatever else is mixed in |
| MetadataFetch.NeverWrong | metadata/fetch.go:207-269 | When no answer carries anything but its piece, the result is the metadata or a failure, on any input |
| Limiter.NextKeepsInv | dht/server/limiter.go:50-71 | Entries plus workers past the size check stay within the bound at every step |
| Limiter.OneName | dht/server/limiter.go:50-54 | The two forms of an IPv4 address have one name |
| Limiter.NoLimit | dht/server/limiter.go:61-63 | Without a positive limit the size check lets everyone pass |
| Limiter.OnlyIdleAreDeleted | dht/server/limiter.go:30-40 | The cleanup deletes only addresses it has found unseen for longer than the age allowed |
| Limiter.OnlyCleanupRemoves | pkg/cache/cache.go:112-118 | Nothing but the delete phase removes an address |
| Limiter.ExactBound | dht/server/limiter.go:50-71 | Over all interleavings of w workers and cleanup, the bound maxSize + w - 1 holds and no smaller one does |

## Left out

- Sockets, bencoding, SHA-1, CRC32-C tables, the bloom filter and the token-bucket limiter: parameters or arbitrary functions here.
- The asynchronous ping of `insert` (dht/table/table.go:119-122): it only leads to later MarkSuccess and MarkFailure steps.
- LastChanged, IsStale, StaleBuckets and AllNodes: timestamps and plain reads.
- Each operation under a mutex is one atomic step; data races on fields read outside their lock are not modelled.
- RoutingTables.RoutingTable.constructor: a bucket size of at least one is assumed; with zero the splits never end (`TableModel.ZeroCapacityAlwaysSplits`), and with less no bucket is ever full and the table is one unbounded list.
- A failure count is a natural number without an upper end.
- TableModel.SplitKeepsInv: splits of buckets other than our own are not covered, because insertion never makes them.
- Transactions.NoTransactionIsLost: assumes that the 32-bit counter does not go all the way round while one call of New is between its draw and its Set.
- Transactions.FewRetries: assumes that the 32-bit counter has not gone all the way round since the call began.
- Transactions.DrawKey: the map and the counter do not change during the loop; `Transactions.FewRetries` is the bound under interference.
- TxnManagers.TxnManager.New: runs without interference; the interleaved calls are those of `Transactions`.
- TxnManagers.TxnManager.Sweep: runs without interference; the interleaved sweeper is the one of `Transactions`.
- Discovery.DiscoverPeers: the initial shortlist and each round's replies are given as inputs; sending, recording and emitting are not modelled, nor the insertion of learned nodes into the routing table.
- Bootstrap.ConvergeTable: starts from entries that are not queried; seeding, the routing-table insertions, and the cancelling of a round are not modelled. An entry's distance is recomputed from its identifier.
- PeerStoreObjects.PeerStore.Get: the slice returned is a value here; the code returns the stored slice itself.
- PeerStore.Sample and its cache: a shuffle and a time check.
- Crawlers.TraversalHeap.Less: the floating-point scaling of distances is an arbitrary function, because its remainder can push a byte out of range and then no order or scaling law holds.
- Crawlers.Crawler.PushToReady: one node may be queued twice, as in the code, which marks a node as seen only when it is popped; items, not nodes, are conserved. An item's yield is fixed here, where the code raises it while the item is in neither heap.
- Crawlers.TraversalHeap.Sort and Nearest.SortBy stand for the library's sort; any sort that permutes and orders would do.
- The target rotation that empties the ready heap (dht/crawler/crawler.go:366-370) and the pruning of the seen map (dht/crawler/crawler.go:382-425), whose cap does not hold because its keys come from an older snapshot.
- MetadataFetch.FetchPieces: the extension handshake that precedes it, the final hash comparison and the decoding of the result are not modelled; a read fails once the bytes run out, which stands for the deadline.
- Limiter.ExactBound: the verdict of the token bucket plays no part; that the bound is reached needs as many distinct addresses as the bound.
- HTTP interface, database, classification, scraping, configuration and user interface.
