# Ensemble: models and proofs of the stateful cores

This project models, in Dafny, the parts of Ensemble (a peer-to-peer daemon over Tor) whose correctness is an argument
over runs, over many functions, or over arithmetic, and proves what they are for. `dafny verify dfyconfig.toml` checks
all of it.

Two kinds of model recur. Where several parties interleave, there is a **step system** (a state, the steps that can be
taken, what each does), theorems about every run, and beside it a **class** whose methods are the source's code, loops
and branches included, while the other parties run in between. The class records the run so far: its fields are always
what that run makes of the initial state, every method extends the run (the old one is a prefix of the new one), and
the contracts say which of the new steps are the caller's own; all others are other parties'. Where one object is
updated under one lock, there is a class with the source's fields, proved against functions on values, and lemmas about
those functions.

What happens outside, a failing disk, stream, hook or Tor, a context that ends, an answer of the network, is an
arbitrary choice made in one small method, which records it in a ghost field. The contracts say that the code fails only
when something so recorded has happened, and with which result.

- **File transfer.** `Chunker` cuts a file and puts it together; `Merkle` builds the hash tree, makes proofs and checks
  them; `ProofLengths` says which proof lengths bind; `Transfer` is sender, two FIFO queues and receiver as one step
  system; `TransferSession` is the code of the two loops. Hashing is an arbitrary function with 32-byte results. Nothing
  says it is injective: wrong data leads to two different strings with one hash, which the theorems compute.
- **Kademlia discovery.** `NodeIds` is the XOR metric; `Nearest` the exact nearest-K list; `RateLimit` the insertion
  limits; `Tables` the bucket table as a value; `RoutingTable` the table object; `LookupLog` what a lookup, and others
  meanwhile, do to a table, event by event, every record considered included; `Dht` iterative lookup and the list of
  local identities. `Clock` has Go's saturating time difference.
- **Replay cache.** `ReplayCache` compares the pruned nonce cache with the log of everything ever accepted.
- **Services.** `ServiceSystem` is Register, Unregister, the onion table and the advertised identities under any
  interleaving of streams and any failure of outside calls; `ServiceRegistry` is the code. `EventQueue` is the
  drop-oldest queue of a stream with one producer, `EventSystem` the same queue with many, and its closing,
  `PendingRequests` the step system of connection requests waiting for a decision, `PendingStore` its code.
- **Keys and framing.** `X25519` (over `Modular`) maps Ed25519 keys to X25519 keys; `Codec` frames envelopes and builds
  the signed bytes. `Bytes` has byte strings as numbers, `MachineInts` Go's integer widths, `Wrappers` optional results.

## What the proofs found

- Reading and joining the counted chunks gives back the file if and only if the chunks are counted right
  (`Chunker.RoundTrip`). Unless the rounding sum overflows 64 bits, that is when there are fewer than 2^32 of them: a
  larger count is cut to 32 bits without an error. If the sum overflows, the count is still right for chunk size 2^32
  when the file's last byte begins a chunk, and for chunk size 2^32 - 1 when it is at least the third of its chunk, and
  for nothing else (`Chunker.CountIsExact`).
- The ten-minute lifetime of a nonce is the least one that keeps replays out, but only if one clock reading serves a
  whole validation (`ReplayCache.TtlIsTight`). The source reads the clock up to three times. For two delays, the first
  from future check to cache check and the second from age check to cache check, a run in which two validations with
  these delays accept one request exists if and only if the second delay is longer (`ReplayCache.DelaysDecide`).
- A limit below one on insertions per source still lets the first insertion through: the configured limits hold in every
  run exactly when they are at least one, or the window is empty (`RateLimit.LimitsHoldWhen`).
- Load does not check for duplicates. It keeps the table invariant if and only if, in every bucket, the records that
  still find room have distinct identifiers that the bucket does not hold yet (`Tables.LoadKeepsInvariantWhen`). It
  fails for the file that lists one foreign record twice (`Tables.LoadKeepsDuplicates`).
- `VerifyProof` takes the tree's depth from the proof, and proofs of length n bind if and only if n is the tree's depth
  (`ProofLengths.OnlyFullDepthBinds`). At every other length any hash function has a forgery, or shows a collision
  (`ProofLengths.ForgedWithAnyHash`). With shorter proofs every inner node passes (`InnerNodeAccepted`). With one
  sibling more the first 32 bytes of any chunk of at least 32 bytes pass, because leaves and inner nodes are hashed
  alike (`ChunkPrefixAccepted`).
- The event queue is closed without waiting for calls of `emit`, and before the service is unregistered. Once it is
  closed, a send can meet it, which panics, if and only if a call is under way or a new one starts
  (`EventSystem.ClosedIsMetWhen`, `CloseDoesNotWait`). With several producers the unlocked `dropCount` can lose counts,
  but never exceeds what was taken out of the queue (`EventSystem.EveryRun`, `CountsLost`).
- Dropping all pending requests at the end of a stream releases every call that has stored its channel. A call that has
  only its id stores it too late and waits for its own context (`PendingRequests.DropAllReleases`, `ParkedTooLate`).
- In Register the rollback after a race is dead code, and the "already decided" branches of accept and reject are never
  taken (`ServiceSystem.NoRace`, `PendingRequests.EveryRun`). The first depends on streams unregistering only what they
  registered: otherwise the race can be lost (`ServiceSystem.ForeignUnregisterLosesRace`), and an identity can stay
  advertised with no onion behind it after all calls have ended (`ServiceSystem.ForeignUnregisterBreaks`).

## Model

| member | source | states |
|---|---|---|
| Transfer.StepInv | internal/filetransfer/sender.go:284-366 | every step of sender, stream or receiver keeps the invariant: counters agree, each handed-out index is acknowledged or on its way exactly once, transmissions are first sends plus counted retries, the receiver holds exactly the chunks it has acknowledged as good; the skip of an acknowledged index is never reached |
| Transfer.EachIndexOnce | internal/filetransfer/sender.go:284-366 | while the sender has not failed, each index below nextToSend is either acknowledged or has exactly one chunk or acknowledgement on its way; inFlight is the number on the way, between 0 and 8, and xfer.acked is the size of acked |
| Transfer.EveryRun | internal/filetransfer/sender.go:290-366 | every run keeps the invariant, makes at most total*(MaxRetries+1) chunk transmissions and has at most 40*total+13 steps |
| Transfer.StepRank | internal/filetransfer/sender.go:298-366 | every step, failing ones included, lowers a rank over unused transmissions, chunks and acknowledgements on their way |
| Transfer.Progress | internal/filetransfer/sender.go:312-326 | no deadlock: a sender waiting for an acknowledgement has something on its way, and while neither end has given up an undisturbed step is possible |
| Transfer.ChunkNotReceived | internal/filetransfer/receiver.go:323-327 | a chunk still on its way has not been received, so no chunk overwrites another |
| Transfer.WrongChunkShowsCollision | internal/filetransfer/receiver.go:301-325 | at any time a chunk the receiver holds is the sender's chunk of that index, or the message that brought it yields two strings with one hash |
| Transfer.SuccessMeansSameFile | internal/filetransfer/receiver.go:334-376 | when the sender has reported success, only FILE_COMPLETE can be left on the stream, the receiver finds every index, and what it writes is the sender's chunks in order unless some received chunk shows a collision |
| Transfer.UndisturbedRunDelivers | internal/filetransfer/sender.go:284-366 | without disturbance every chunk is sent at most once, nobody fails, and a run that cannot go on has ended with the receiver having written the sender's chunks |
| Transfer.UnalteredRun | internal/filetransfer/sender.go:355-366 | in every run in which the stream alters no chunk, whoever gives up, no acknowledgement is negative, no retry is counted, and what the receiver holds is the sender's |
| Transfer.TransferKeepsTheFile | internal/filetransfer/receiver.go:347-376 | for chunks read by the chunker: after success the receiver's file is the original if and only if its chunks were counted right, or a received message shows a collision |
| TransferSession.Session.SendChunks | internal/filetransfer/sender.go:284-368 | the loop as written, with the receiver running in between, extends the run of the step system, ends, and sends at most four times per chunk; it succeeds if and only if it meets no trouble (context, disk, stream) and no chunk is refused more than three times, so without trouble on a stream that alters no chunk it succeeds; on success its last step is writing FILE_COMPLETE, every index is acknowledged and received |
| TransferSession.Session.FillWindow | internal/filetransfer/sender.go:297-310 | the sender's own steps are one send for each index by which nextToSend advances, then leaving the loop or giving up; it leaves the loop with eight chunks in flight or all sent, and gives up only when the disk or the stream fails; the branch for an acknowledged index is unreachable |
| TransferSession.Session.HandleOneAck | internal/filetransfer/sender.go:324-366 | after any turns of the receiver the sender's own step is to take the first acknowledgement, or to give up; it fails only when no acknowledgement can be read, the disk or the stream fails, or a chunk has been refused four times |
| TransferSession.Session.Acknowledged | internal/filetransfer/sender.go:344-354 | a positive acknowledgement enters its index into acked and takes one chunk out of flight |
| TransferSession.Session.Retransmit | internal/filetransfer/sender.go:355-366 | a negative acknowledgement is counted as a retry of its index; the chunk is written again and stays in flight if and only if this is at most its third retry and disk and stream do not fail; otherwise the transfer fails |
| TransferSession.Session.SendOneChunk | internal/filetransfer/sender.go:370-400 | the chunk the chunker reads and the proof the tree makes for it are the message of the step system, written once, or not at all when the disk or the stream fails, and only then |
| TransferSession.OfferFile | internal/filetransfer/sender.go:152-165 | hashing all chunks and building their tree starts a session in the initial state, unless a chunk cannot be read or there is none |
| TransferSession.Session.ReceiveOne | internal/filetransfer/receiver.go:287-344 | one turn of the receiver's loop adds one step of the receiver and none of the sender; the receiver gives up if and only if reading the stream fails, as it does when nothing comes |
| TransferSession.Session.ReceiveChunkMsg | internal/filetransfer/receiver.go:295-332 | adds the step for exactly the message read: hash and proof are checked, the verdict is queued for that index, and a good chunk is kept |
| Merkle.BuildMerkleTree | internal/filetransfer/merkle.go:19-56 | fails exactly on no hashes; otherwise every inner node is the hash of its left child followed by its right child, the lowest level holds the hashes with the last one repeated, and its size is the least power of two that is at least 2 and holds them |
| Merkle.MerkleTree.Proof | internal/filetransfer/merkle.go:77-90 | fails exactly on an index out of range; otherwise the siblings met from the leaf to the root |
| Merkle.VerifyProof | internal/filetransfer/merkle.go:94-118 | accepts exactly when neither string is empty and climbing from the 64-bit start position reaches the root; with no siblings, when hash and root are equal |
| Merkle.StartPosExact | internal/filetransfer/merkle.go:99-105 | up to 62 siblings and for an index below the leaf count, the 64-bit start position is 2^depth + index |
| Merkle.ClimbPath | internal/filetransfer/merkle.go:77-118 | climbing from any node of a tree with its own siblings reaches the root |
| Merkle.Completeness | internal/filetransfer/merkle.go:77-118 | for every leaf list and index in range the generated proof is as long as the tree is deep and is accepted, unless the leaf is the empty string |
| Merkle.ClimbBinding | internal/filetransfer/merkle.go:107-117 | a value that differs from the node at its position and still climbs to the root meets a collision on the way |
| Merkle.Binding | internal/filetransfer/merkle.go:94-118 | a proof of exactly the tree's depth that is accepted for a 32-byte hash other than the padded leaf at that index yields a collision, however long its siblings are |
| Merkle.EqualRoots | internal/filetransfer/merkle.go:19-56 | equally long hash lists with equal roots: any position where they differ yields a collision |
| ProofLengths.OnlyFullDepthBinds | internal/filetransfer/merkle.go:94-118 | for every number of leaves and every proof length, a wrong hash that passes without the collision binding finds exists if and only if the length is not the depth of the tree |
| ProofLengths.ForgedWithAnyHash | internal/filetransfer/merkle.go:94-118 | for every hash function, every number of leaves and every length but the depth, a wrong hash that passes is computed, or a collision |
| ProofLengths.InnerNodeAccepted | internal/filetransfer/merkle.go:99-105 | at every length up to the depth, every node at that depth is accepted with its own siblings |
| ProofLengths.ChunkPrefixAccepted | internal/filetransfer/merkle.go:58-63 | one sibling beyond the depth, the first 32 bytes of any chunk of at least 32 bytes are accepted at twice its index |
| Chunker.NewChunkerWithSize | internal/filetransfer/chunker.go:33-57 | fails exactly on an empty file or a chunk size that is not positive; the count is the 64-bit rounding sum over the chunk size, towards zero, cut to 32 bits |
| Chunker.Chunker.ReadChunk | internal/filetransfer/chunker.go:60-90 | fails when the index is not counted or its 64-bit offset is outside the file; a counted chunk that starts inside the file is the file from index*chunkSize to (index+1)*chunkSize or its end |
| Chunker.Chunker.AllChunkHashes | internal/filetransfer/chunker.go:113-123 | one hash per counted chunk, of that chunk; fails exactly when one cannot be read |
| Chunker.ChunkSizes | internal/filetransfer/chunker.go:49-81 | every chunk below the ceiling starts inside the file and is not empty, and all but the last are full |
| Chunker.RoundTrip | internal/filetransfer/receiver.go:363-373 | reading and joining all counted chunks gives back the file if and only if they are counted right: fewer than 2^32 of them, or, when the rounding sum overflows, one of two chunk sizes with some remainders |
| Chunker.CountIsExact | internal/filetransfer/chunker.go:49 | for all 64-bit sizes, the count is the ceiling of size over chunk size if and only if there are fewer than 2^32 chunks or, when the rounding sum overflows, the chunk size is 2^32 and divides size - 1, or is 2^32 - 1 and leaves at least 2 |
| Chunker.WrappedCountIsWrong | internal/filetransfer/chunker.go:49 | if the rounding sum overflows, a file that fits one chunk is counted as 0 or 2^32 - 1 chunks |
| Chunker.ReadsAhead | internal/filetransfer/chunker.go:71-81 | a chunk that starts inside the file is read from where it is: its offset does not wrap |
| Chunker.JoinedPrefix | internal/filetransfer/receiver.go:363-373 | joining the first n chunks gives the first n*chunkSize bytes, or the whole file |
| Chunker.CeilDivMeans | internal/filetransfer/chunker.go:49 | the ceiling is the one n with (n-1)*chunkSize < size <= n*chunkSize |
| Chunker.Reassemble | internal/filetransfer/receiver.go:347-376 | succeeds exactly when there are total chunks and every index below total is among them; then the chunks joined in index order |
| NodeIds.Distance | internal/discovery/routing.go:64-70 | the loop computes the byte-wise XOR |
| NodeIds.CommonPrefixLen | internal/discovery/routing.go:73-86 | the loops find the first bit, most significant first, at which the identifiers differ |
| NodeIds.CompareDist | internal/discovery/routing.go:475-485 | the byte-wise comparison is the numeric order of the 160-bit numbers, zero only for equal ones |
| NodeIds.PrefixLenMeans | internal/discovery/routing.go:72-86 | the identifiers agree on every bit before the prefix length and differ on the bit at it |
| NodeIds.PrefixLenIsMagnitude | internal/discovery/routing.go:64-86 | for a != b the prefix length is k if and only if 2^(159-k) <= distance < 2^(160-k) |
| NodeIds.PrefixLenFull | internal/discovery/routing.go:146-153 | the prefix length is 160 exactly for equal identifiers, so the second rejection of AddPeer adds nothing to the first |
| NodeIds.DistanceIsMetric | internal/discovery/routing.go:63-70 | XOR distance is symmetric, zero only on equal identifiers, satisfies the triangle inequality, and determines the other end |
| NodeIds.PrefixUltrametric | internal/discovery/routing.go:72-86 | cpl(a,c) >= min(cpl(a,b), cpl(b,c)), with equality when the two differ |
| NodeIds.BucketMatesShareMore | internal/discovery/routing.go:150-158 | two peers of bucket i share at least i+1 leading bits with each other |
| NodeIds.NearerMeansLongerPrefix | internal/discovery/routing.go:64-86 | the nearer of two peers shares at least as long a prefix with the target |
| Nearest.PrefixIsNearest | internal/discovery/routing.go:317-326 | cutting any sorted arrangement gives the min(count, size) nearest in increasing distance |
| Nearest.Nearer | internal/discovery/routing.go:317-321 | comparing the two XOR distances byte by byte decides which peer is numerically nearer |
| Nearest.SortByDistance | internal/discovery/routing.go:317-321 | sorting with the comparison of the two distances, byte by byte, gives a permutation by increasing distance |
| Nearest.NearestUnique | internal/discovery/routing.go:305-327 | with distinct identifiers there is only one such list, however the sort orders equal elements |
| Nearest.NearestMonotone | internal/discovery/routing.go:305-327 | when the known identifiers only grow, the i-th nearest distance does not increase |
| Nearest.NearestByDescendingBucket | internal/discovery/routing.go:305-327 | for the local identifier as target the list runs through the buckets in descending index |
| RateLimit.CheckRateLimit | internal/discovery/routing.go:424-446 | the loop gives the verdict on the pruned tracker that PrunedVerdict relates to the full history |
| RateLimit.RecordInsertion | internal/discovery/routing.go:449-472 | counts one more and keeps, in order, exactly the times within the window |
| RateLimit.PrunedVerdict | internal/discovery/routing.go:424-472 | at every later time the pruned tracker allows exactly what the full insertion history allows |
| RateLimit.VerdictIsCount | internal/discovery/routing.go:424-446 | the verdict on the full history, counted: a source passes if and only if it has no entry, or fewer entries than MaxPerSource and fewer than RateLimit of them after now less the window |
| RateLimit.RecordTracks | internal/discovery/routing.go:449-472 | recording keeps the trackers equal to the history cut at each source's last insertion |
| RateLimit.Caps | internal/discovery/routing.go:424-472 | no source has more than max(1, MaxPerSource) insertions, nor more than max(1, RateLimit) in any window (t-W, t] |
| RateLimit.VerdictAfterFirst | internal/discovery/routing.go:428-445 | a first insertion always passes, and the next one passes exactly below both limits |
| RateLimit.CountCapIsExact | internal/discovery/routing.go:424-472 | the number of insertions one source can reach is max(1, MaxPerSource), or 1 for a rate limit below one: never exceeded, and reached |
| RateLimit.WindowCapIsExact | internal/discovery/routing.go:437-445 | the number of insertions in one window is bounded by the smaller of both limits, at least 1 and 0 for an empty window: never exceeded, and reached in every window |
| RateLimit.LimitsHoldWhen | internal/discovery/routing.go:424-472 | no source ever exceeds MaxPerSource if and only if it is at least 1; no window exceeds RateLimit if and only if it is at least 1, or 0 with an empty window |
| Tables.TableDistinct | internal/discovery/routing.go:145-186 | under the table invariant no identifier is in the table twice and the local one not at all |
| Tables.RefreshedInv | internal/discovery/routing.go:160-170 | refreshing a known peer and moving it to the tail keeps its bucket's invariant |
| Tables.RefreshedIds | internal/discovery/routing.go:160-170 | refreshing changes no identifier of the bucket |
| Tables.RefreshedSurvives | internal/discovery/routing.go:160-221 | a known peer that has just been offered again survives an eviction if and only if its new time is set and not older than allowed; what the table knew of it before does not matter |
| Tables.AppendedInv | internal/discovery/routing.go:177-182 | appending an unknown peer below 20 entries keeps the bucket's invariant |
| Tables.KeptSplit | internal/discovery/routing.go:208-302 | survivors and dropped entries of an eviction are together the bucket, copies counted |
| Tables.KeptMembers | internal/discovery/routing.go:208-302 | survivors and dropped entries of a bucket are told apart by the matching condition alone; Evict and EvictByFailures state it in full |
| Tables.KeptInv | internal/discovery/routing.go:208-302 | eviction keeps the bucket's invariant |
| Tables.LoadFillsInOrder | internal/discovery/routing.go:406-418 | whatever the file, loading appends to each bucket its own records in order until it has 20 |
| Tables.SaveLoad | internal/discovery/routing.go:362-421 | a saved table, in whatever order the sort leaves it, loads into a fresh table with each bucket's entries restored, failures reset, and the invariant |
| Tables.LoadPlaces | internal/discovery/routing.go:406-418 | any file leaves entries in the bucket of their prefix length, at most 20 each, without the local identifier |
| Tables.LoadKeepsInvariantWhen | internal/discovery/routing.go:406-418 | loading any file into any table keeps the invariant if and only if in every bucket the records that find room have distinct identifiers, none of them in the bucket already |
| Tables.LoadKeepsDuplicates | internal/discovery/routing.go:406-418 | the file that lists one foreign record twice puts it into the bucket of an empty table twice |
| Tables.NewestFirstPermutes | internal/discovery/routing.go:398-401 | the order in which records fill buckets is a permutation by descending last-seen time |
| RoutingTable.CompactInPlace | internal/discovery/routing.go:216-235 | filtering a bucket within its own array leaves the survivors in order at the front, clears the rest, and reports the dropped ones |
| RoutingTable.RoutingTable.AddPeer | internal/discovery/routing.go:145-186 | keeps the invariant; a known peer, whatever the limits, keeps its address and failure count, takes the new onion and time and becomes the last of its bucket, the others keeping their order; a new one is inserted exactly when the full history allows its source and the bucket has fewer than 20; otherwise nothing changes; loses no identifier |
| RoutingTable.RoutingTable.RemovePeer | internal/discovery/routing.go:189-203 | removes the first entry with the address; reports whether some entry has it, and changes nothing if none does |
| RoutingTable.RoutingTable.Sweep | internal/discovery/routing.go:214-236 | every bucket keeps exactly its survivors in order; the dropped entries are reported bucket after bucket; survivors and dropped entries together are the old table, copies counted |
| RoutingTable.RoutingTable.Evict | internal/discovery/routing.go:208-238 | a peer stays exactly if its time is not the zero time and, where there is an age limit, its age is at most that limit; reports the number by which the table shrank |
| RoutingTable.RoutingTable.EvictByFailures | internal/discovery/routing.go:277-302 | for a positive threshold a peer stays exactly if its failure count is below it, and the others are reported; a threshold of zero or less changes nothing |
| RoutingTable.RoutingTable.RecordFailure | internal/discovery/routing.go:243-256 | counts one more for the first entry with the onion and returns the new count; positive exactly when some entry has the onion |
| RoutingTable.RoutingTable.RecordSuccess | internal/discovery/routing.go:260-272 | resets the count of the first entry with the onion, and changes nothing else |
| RoutingTable.RoutingTable.FindClosest | internal/discovery/routing.go:305-327 | returns the one list of the min(count, size) nearest peers in increasing distance |
| RoutingTable.RoutingTable.Save | internal/discovery/routing.go:362-380 | one record for every entry, with its identifier, address, onion and time: that of entry j of bucket b at the place of the entry, after all entries of the buckets before; as many records as entries |
| RoutingTable.RoutingTable.Load | internal/discovery/routing.go:384-421 | a missing file is no error, an unreadable or malformed one is; a file fills the buckets newest first, up to 20, and keeps the invariant if and only if every bucket takes distinct records; any arrangement of what Save writes restores the table, failure counts at zero |
| RoutingTable.RestoresAll | internal/discovery/routing.go:362-421 | loading any permutation of the records of a table into an empty one restores all buckets, with failure counts at zero, and the invariant |
| RoutingTable.Restart | internal/daemon/daemon.go:333-337 | what one table has saved, loaded into a new table of the same node, gives every bucket its entries back with failure counts at zero, keeps the invariant, and starts the limits afresh |
| Dht.Dht.Lookup | internal/discovery/dht.go:213-269 | with other goroutines changing the table in between: the log of what it does makes of the old table the new one; it returns the first fresh record of the address among all records it heard of, its first look and then the answers, and if it fails it has considered every one of them and found each of another address or older than allowed; it dials no node twice, the local one never, at most 400, and only candidates of its at most 20 rounds; it is cancelled only when the context was found done; unless others take peers out, candidates never get farther from round to round; it gives up only when every round's candidates have been asked, and before the last round only when these are the 20 closest known peers |
| Dht.Dht.Round | internal/discovery/dht.go:235-260 | dials, each once and nearest first, the candidates not dialled before: all of them, unless an answer or the end of the context stops it; a round that dials nobody and is not stopped changes nothing |
| Dht.Dht.Query | internal/discovery/dht.go:248-259 | dials the peer once and considers its records in order; it ends without an answer only if each of them was of another address or older than allowed, and has then offered all of them to the table; otherwise the answer is the first record of which this is not so, and those before it have been offered |
| Dht.Dht.Judge | internal/discovery/dht.go:254 | a record is fresh exactly if it is of the address and its age, at a reading of the clock taken now, is at most recordTTL; the judgement and its reading are logged |
| Dht.Dht.OfferPeer | internal/discovery/dht.go:258 | the record just considered is offered: the table and its history are what AddPeer makes of them at the readings logged |
| Dht.Dht.Closest | internal/discovery/dht.go:232 | one look: the at most 20 nearest peers of the table at that moment, the local one not among them |
| Dht.Dht.LocalAnswer | internal/discovery/dht.go:221-227 | the first look: the nearest known peers are considered in order, and the first fresh one of the address is the answer |
| LookupLog.LooksApproach | internal/discovery/dht.go:231-265 | in every lawful log in which others take no peer out, each look's i-th candidate is at most as far as the i-th of every earlier look |
| LookupLog.JudgedInOrder | internal/discovery/dht.go:222-254 | in every lawful log records are considered in the order in which they came, none skipped, at times that only grow |
| LookupLog.NothingMissed | internal/discovery/dht.go:222-268 | when all records heard have been considered and none was fresh, every record of the address that any dialled peer answered, or that the first look found, was considered at a time when it was too old |
| LookupLog.SeenStaysKnown | internal/discovery/dht.go:231-265 | in such a log every peer a look has seen is still in the table |
| Dht.Dht.AddLocalIdentity | internal/discovery/dht.go:79-103 | afterwards the list advertises the onion under the address and is otherwise unchanged; the node's own address and an undecodable one change nothing |
| Dht.Dht.RemoveLocalIdentity | internal/discovery/dht.go:107-117 | afterwards exactly the address is no longer advertised; reports whether it was |
| ReplayCache.NonceCache.Check | internal/signaling/handshake.go:41-64 | the deletion loop leaves exactly the entries at most ten minutes old; accepts and records exactly a nonce of 32 bytes that is not among them |
| ReplayCache.ValidateConnRequest | internal/signaling/handshake.go:98-124 | accepts exactly a request whose timestamp is at most five minutes before the first reading and at most five minutes after the second, with a nonce of 32 bytes not accepted in the ten minutes before the third; a request outside the window leaves the cache alone |
| ReplayCache.CacheIsRecentLog | internal/signaling/handshake.go:41-64 | after a check on a well-formed nonce the cache is exactly the acceptances within the lifetime, and the verdict is that of the unbounded log |
| ReplayCache.CacheAgreesWithLog | internal/signaling/handshake.go:98-124 | in every run, overlapping validations included, the cache is the log cut at its last use, and each request is accepted exactly when it is timely and the full log allows it |
| ReplayCache.AcceptedExactly | internal/signaling/handshake.go:98-124 | in every run, overlapping validations included: a request is accepted if and only if its timestamp is at most five minutes before its first reading and at most five after its second, its nonce has 32 bytes, and no request with that nonce was accepted in the ten minutes before its third |
| ReplayCache.StaysCached | internal/signaling/handshake.go:51-62 | an accepted nonce stays in the cache with its time until it is older than the lifetime |
| ReplayCache.TtlIsTight | internal/signaling/handshake.go:19-23 | with one clock reading per validation, no run accepts one request twice if and only if the lifetime is at least ten minutes |
| ReplayCache.ReplayNeedsDelay | internal/signaling/handshake.go:104-121 | with the several readings the source takes, a request accepted twice means that the second validation was slower, from age check to cache check, than the first from future check to cache check |
| ReplayCache.DelayAllowsReplay | internal/signaling/handshake.go:104-121 | for any two such delays, the second longer, there is a run that accepts one request twice |
| ReplayCache.DelaysDecide | internal/signaling/handshake.go:104-121 | a run in which two validations with given delays accept one request exists if and only if the second delay is longer than the first |
| ServiceSystem.StepInv | internal/services/registry.go:69-172 | every locked section and outside call, failing or not, keeps: each running onion has exactly one owner, and the tables list exactly what the owners' positions say |
| ServiceSystem.EveryInterleaving | internal/services/registry.go:69-172 | in every interleaving a registered name and an advertised address imply a running onion, the two maps are inverse, no onion has two owners, and nobody loses a race |
| ServiceSystem.QuietTablesAgree | internal/api/registerservice.go:149-166 | when no call is in flight, running onions, both maps and the advertised identities agree and are exactly what streams have registered |
| ServiceSystem.NoRace | internal/services/registry.go:96-103 | a stream whose onion runs finds its name free: the rollback after a race is never taken |
| ServiceSystem.ListedIsThere | internal/services/registry.go:147-153 | a registered stream finds its own entry |
| ServiceSystem.ClosingIsRunning | internal/tor/engine.go:292-300 | a stream that removes its onion finds it running |
| ServiceSystem.ForeignUnregisterBreaks | internal/services/registry.go:147-172 | if others unregister a service while it registers, all calls can end with its identity advertised and no onion and no entry behind it |
| ServiceSystem.ForeignUnregisterLosesRace | internal/services/registry.go:96-103 | if others unregister a service while it registers, another stream can find its name taken after starting the onion: the race is lost |
| ServiceRegistry.Registry.Register | internal/services/registry.go:69-142 | with other streams running between its sections: extends the run; the stream's own steps are exactly those of its way through the code, rollback included; ends registered or holding nothing; refused as registered if and only if the name was; otherwise it fails only if the keystore, Tor, the discovery layer or the hook does, each with its own result, or if an onion of that name was running meanwhile |
| ServiceRegistry.Registry.Provision | internal/tor/engine.go:231-287 | one step: starts an onion under a name that has none, or leaves the onions alone, and that only if the keystore or Tor fails or an onion of the name is running |
| ServiceRegistry.Registry.InsertEntry | internal/services/registry.go:96-107 | one step: the name was free and exactly its entry is added to both maps; the race branch is unreachable |
| ServiceRegistry.Registry.Advertise | internal/services/registry.go:109-120 | adds exactly the identity, or, if and only if the discovery layer fails, the stream's own steps undo entry and onion |
| ServiceRegistry.Registry.RunHook | internal/services/registry.go:122-139 | changes no table, or, if and only if the hook fails, the stream's own steps undo entry, identity and onion |
| ServiceRegistry.Registry.TearDown | internal/tor/engine.go:292-306 | one step: finds the onion running and removes exactly it |
| ServiceRegistry.Registry.Unregister | internal/services/registry.go:147-172 | a registered stream always finds its service; its own steps are taking it out, the hook, withdrawing the identity and removing the onion; ends holding nothing |
| ServiceRegistry.Registry.Get | internal/services/registry.go:243-248 | a service found by name has a running onion and is found by that onion too |
| ServiceRegistry.Registry.LookupByOnion | internal/services/registry.go:253-258 | a service found by onion has that onion, runs, and is found by its name too |
| EventQueue.Stream.Emit | internal/api/registerservice.go:317-334 | with a forwarder running in between: ends with the event last in the queue, before it the old queue less what was delivered or dropped from its front, at most one event dropped and none while there were fewer than 256; delivered and queued events stay a subsequence of the emitted ones, the rest are dropCount |
| EventQueue.Stream.DropOldest | internal/api/registerservice.go:327-331 | drops and counts the oldest event, if the forwarder has left one |
| EventQueue.Stream.Receive | internal/api/registerservice.go:283-296 | delivers the oldest event |
| EventSystem.EveryRun | internal/api/registerservice.go:283-334 | with any number of producers: what was sent is what was delivered, is queued, or was dropped, in order; dropCount never exceeds what producers took out; while the queue is open they took out only events and nobody panicked |
| EventSystem.ClosedIsMetWhen | internal/api/registerservice.go:187-191 | once the queue is closed, and without new calls, a send meets it in some run if and only if a call of emit is under way |
| EventSystem.CloseDoesNotWait | internal/api/registerservice.go:161-191 | a call under way when the queue is closed, and one that starts afterwards, both lead to a panic |
| EventSystem.CountsLost | internal/api/registerservice.go:327-329 | two producers that count at the same time raise dropCount by one |
| PendingRequests.RequestIdInjective | internal/api/registerservice.go:351-357 | equal request ids come from the same address and the same counter value, whatever the address contains |
| PendingRequests.StepInv | internal/api/registerservice.go:51-89 | every step keeps: a request's channel is stored, held by one handler, or filled, never two of these, and each request was sent at most one decision |
| PendingRequests.EveryRun | internal/api/registerservice.go:247-279 | in every run ids are distinct, each request gets at most one decision, a handler finds the channel it took empty, "already decided" never happens, and OnConnectionRequest returns true only if an accept of that id took its channel |
| PendingRequests.DropAllReleases | internal/api/registerservice.go:77-89 | once the store is dropped and no handler is between take and send, a call that has not returned has its decision if and only if it had stored its channel |
| PendingRequests.ParkedTooLate | internal/api/registerservice.go:383-415 | a call that stores its channel after the drop waits with an empty one |
| PendingStore.Store.NewRequestId | internal/api/registerservice.go:351-357 | the new id differs from every earlier one |
| PendingStore.Store.Put | internal/api/registerservice.go:60-64 | adds the channel under an id that was not in the store |
| PendingStore.Store.OnConnectionRequest | internal/api/registerservice.go:383-415 | with other calls and handlers running in between: takes a new id, then exactly the steps of its way through the code; returns the one decision sent under its id, true only after an accept of it; ends without a decision only if the event cannot be marshalled or the context ends, and has then left the store |
| PendingStore.Store.Select | internal/api/registerservice.go:400-414 | the call receives the one decision, or the context ends; it ends only then, or if no decision comes |
| PendingStore.Store.Decide | internal/api/registerservice.go:247-279 | succeeds exactly when the id is pending, and its decision is then the only one the request is sent; the handler only takes, and sends if it has taken |
| PendingStore.Store.DropAll | internal/api/registerservice.go:79-89 | one step: the loop sends the rejection to exactly the stored requests, none of which had a decision, and empties the store |
| X25519.ToX25519PrivateKey | internal/identity/x25519.go:16-27 | the key's number is 2^254 plus bits 3 to 253 of the digest's first half: a multiple of 8 in [2^254, 2^255) |
| X25519.ClampedRange | internal/identity/x25519.go:22-24 | a clamped number is a multiple of 8 in [2^254, 2^255) |
| X25519.FieldPrimeValue | internal/identity/x25519.go:10-12 | the constant is 2^255 - 19 |
| X25519.Ed25519PublicKeyToX25519 | internal/identity/x25519.go:36-74 | succeeds exactly for 32 bytes whose 1 - y has an inverse modulo p, y being the key's number modulo 2^255; no index is out of range; the 32 bytes decode little-endian to a u below p with u(1-y) congruent to 1+y |
| X25519.QuotientMaps | internal/identity/x25519.go:55-64 | the numerator times the inverse of the denominator satisfies the map's equation |
| X25519.ToLittleEndian32 | internal/identity/x25519.go:66-71 | reversing the minimal big-endian bytes into 32 zero bytes gives the number little-endian |
| X25519.SignCleared | internal/identity/x25519.go:43-46 | clearing the top bit leaves the number modulo 2^255 |
| X25519.SameImage | internal/identity/x25519.go:55-64 | ordinates with the same image are congruent modulo p, because (u+1)(1-y) is congruent to 2 |
| X25519.SameKeySameOrdinate | internal/identity/x25519.go:36-74 | two accepted keys get the same result if and only if their ordinates are congruent modulo p |
| X25519.RefusedOrdinates | internal/identity/x25519.go:57-61 | p being prime, the keys refused as degenerate are exactly those with y congruent to 1 |
| Modular.PrimeInverse | internal/identity/x25519.go:58-61 | modulo a prime exactly the multiples of the prime have no inverse |
| Codec.WriteMsg | internal/protocol/codec.go:15-35 | succeeds exactly when the envelope can be marshalled, is not too large, and the writer reports no error, and has then written the whole frame; an envelope that cannot be sent writes nothing; a failed write leaves a strict prefix of the frame |
| Codec.ReadMsg | internal/protocol/codec.go:38-59 | returns an envelope exactly when a whole acceptable frame is ahead, and leaves the bytes behind it |
| Codec.FrameLayout | internal/protocol/codec.go:15-35 | a frame is four bytes that spell the length, the first one heaviest, and then the data |
| Codec.ReadsWholeFrames | internal/protocol/codec.go:38-59 | what is accepted is exactly the length of the data in four bytes, at most 16 MiB, then data that unmarshals |
| Codec.FrameIsRead | internal/protocol/codec.go:15-59 | a written frame is read back whole, whatever follows it |
| Codec.CutFrameRefused | internal/protocol/codec.go:38-52 | a strict prefix of a frame is never accepted |
| Codec.ReadBack | internal/protocol/codec.go:15-59 | reading from the concatenated frames of any list of envelopes returns the list and leaves the following bytes |
| Codec.BrokenStream | internal/protocol/codec.go:38-52 | a stream that breaks off inside a frame yields the envelopes before it and then an error |
| Codec.SigningPayload | internal/protocol/codec.go:62-68 | the copies fill a buffer of 12 bytes more than the payload with the signed bytes; the payload is behind the first four |
| Codec.SignedLayout | internal/protocol/codec.go:62-68 | the signed bytes are the type in four bytes, the payload, and the timestamp in eight, numbers with their heaviest byte first and negative ones in two's complement |
| Codec.SignedBytesInjective | internal/protocol/codec.go:62-68 | messages that differ in type, payload or timestamp have different bytes signed |

## Left out

- Outside systems: Tor, libp2p, gRPC, sockets, deadlines, contexts, files and JSON. Their failures are arbitrary
  choices, recorded in ghost fields; an answer of the network is an arbitrary list of peers, a file is its contents.
- Protobuf encoding (any marshaller whose output is read back unchanged), SHA-256 and RIPEMD-160 (any function with
  results of fixed length), SHA-512 (its 64 bytes are a parameter), Ed25519 signatures, AES-GCM, Argon2, Base58.
- The primality of 2^255 - 19 is a hypothesis of X25519.RefusedOrdinates and of nothing else. The library's modular
  inverse is any number below p that is one.
- Connector eviction, chat history, contacts, keystore files, daemon wiring, access control, progress display, the
  terminal interface and the Python client: they would only add easy members or are input and output.
- Transfer.StepInv: the offer (root hash and chunk count) is assumed to arrive unchanged, acknowledgements too; an
  acknowledgement that cannot be written is the receiver giving up before it reads the chunk; messages of other kinds
  are the reader giving up.
- Merkle.BuildMerkleTree: the heap size is an unbounded integer; completeness and binding are stated for up to 2^62
  leaves, more than a slice can hold.
- Chunker.NewChunkerWithSize: files change neither size nor contents while they are read, and a buffer of any chunk size
  can be allocated; that the disk fails is modelled where chunks are sent, not where they are hashed.
- RoutingTable.RoutingTable.AddPeer: entries are values; that the table and a caller can share one record by pointer is
  not modelled. The limits are constants of the table.
- RoutingTable.RoutingTable.FindClosest: the library sort is an insertion sort with the source's comparison;
  NearestUnique shows that no other sort could return another list.
- RoutingTable.RoutingTable.Save: a file that cannot be written, and a time that JSON cannot spell, are not modelled.
- RoutingTable.RoutingTable.RecordFailure: the failure count is unbounded.
- RoutingTable.RoutingTable.Load: which of several equally old records find room in a full bucket is decided as by a
  stable sort; the source's sort leaves it open. The condition on the file is stated for any order of its records.
- RoutingTable.RoutingTable.Load: a JSON array with a null entry, which the source unmarshals without an error and then
  dereferences, is not an input of the model.
- Dht.Dht.Lookup: other goroutines insert, remove, evict and count failures, but do not load a file meanwhile.
- Dht.Dht.AddLocalIdentity: the local address check precedes the list's lock; the address is a constant of the object.
- ServiceSystem.EveryInterleaving: distinct names have distinct onions and addresses, none of them the node's own;
  discovery and hooks are wired before the streams start, so SetDiscovery and SetOnRegister do not replay; AddOnion is
  one step at its second locked section; streams unregister only what they registered.
- EventQueue.Stream.Emit: one producer, and a queue that is not closed meanwhile; EventSystem has the other cases.
- PendingRequests.EveryRun: the counter does not reach 2^64.
