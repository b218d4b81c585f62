# A model of the Torrust BitTorrent libraries

The model covers the logic of the libraries that is hard to get right, one module per component:

- **Kademlia routing** (`Sha`, `Bucket`, `Table`, `TableSplits`, `ClosestNodes`): 160-bit ids, buckets of eight with status-ordered
  replacement, the last bucket that splits recursively, and the zig-zag iterator around a target.
- **Bencode** (`Decimal`, `Bencode`, `BencodeKeys`, `BencodeCodec`, `BencodeRoundTrip`, `BencodeOrder`,
  `BencodeSpans`, `BencodeCanonical`): the recursive decoder with its options, the encoder, and how they undo each other.
- **Piece hashing** (`PieceHasher`, `PieceHasherProofs`): a master and any number of workers as interleaved steps over a
  queue, a channel and a buffer pool.
- **DHT lookup** (`Lookup`, `LookupPicks`, `LookupProofs`, `LookupRuns`): responses, timeouts, request rounds, the endgame
  and the final announces.
- **Metadata download** (`UtMetadata`, `UtMetadataDownload`): pieces moving between queued, in flight and received.
- **Announce storage** (`AnnounceStorage`), **transaction ids** (`Transaction`) and **announce tokens** (`Token`).
- **Honest revelation** (`BitField`, `Honest`, `HonestRuns`) and **handshakes** (`Handshake`).

`Wrappers`, `Bytes`, `Sums` and `Peers` hold what several of these share.

Code that updates fields, arrays or vectors in place is modelled by classes and methods with loops, proved against
functions on values; theorems about whole runs are lemmas about those functions and the step relations built from them.
Clocks, random choices, socket answers and the order of hash-map iteration are inputs or arbitrary choices, so every
result holds for all of them. SHA-1 and the metainfo parser are arbitrary functions.

Where documentation and code disagree the model follows the code. The comment on tokens promises between 10 and 20
minutes; lazy refresh makes it between 10 and 30, and `Token` proves both ends exactly. Further expectations that are
false of the code come with an input that shows it and the exact condition under which they hold: Questionable nodes can
be lost by a new Good one and by a split (`Bucket.QuestionableLost`, `TableSplits.SplitKeepsIff`), strict decoding is canonical only without plus signs
(`BencodeCanonical.StrictIsCanonical`), a round asks the three closest candidates only if they are listed closest first
(`LookupPicks.ThreeClosestIff`), announces expire on time only while nothing fresh stands before them
(`AnnounceStorage.SurvivorsExactIff`), and a metadata can be served completely only if its last piece is full
(`UtMetadata.AllServableIff`).

## Model

| member | source | states |
|---|---|---|
| Sha.BitXor | packages/util/src/sha/mod.rs:95-105 | every bit of the result is set exactly when the two operands differ there |
| Sha.UnmaskedShift | packages/util/src/sha/mod.rs:152-164 | the unmasked shifted byte is 1 if and only if bit k is set and all earlier bits of the byte are clear |
| Sha.Bits.Next | packages/util/src/sha/mod.rs:149-165 | ends after exactly 160 bits; answers Set if and only if the bit is set and no earlier bit of its byte is |
| Sha.LeadingBitCount | packages/dht/src/routing/table.rs:146-150 | the count through the unmasked iterator is the common-prefix length of the two ids |
| Sha.CommonPrefix | packages/dht/src/routing/table.rs:146-150 | the first index where two ids differ: equal below, different there, 160 for equal ids |
| Sha.OrderByBit | packages/util/src/sha/mod.rs:15-18 | the derived byte order is decided by the first differing bit of the 160 |
| Sha.LongerPrefixIsCloser | packages/util/src/sha/mod.rs:95-105 | a longer common prefix with a target means a strictly smaller xor distance to it |
| Sha.PrefixVia | packages/dht/src/routing/table.rs:265-275 | how the prefixes with a third id fix the prefix of two ids: equal, shorter and longer cases |
| Sha.FullPrefixIsEqual | packages/dht/src/routing/table.rs:146-150 | all 160 bits agree exactly when the ids are equal |
| Sha.FlipIdBitAtIndex | packages/dht/src/worker/bootstrap.rs:370-378 | only bit i changes, so the common prefix with the original is exactly i |
| Bucket.Bucket.constructor | packages/dht/src/routing/bucket.rs:20-40 | eight placeholder slots that no contact was ever heard from |
| Bucket.Bucket.AddNode | packages/dht/src/routing/bucket.rs:67-96 | the slots and the answer after an in-place add are those of the specified placement |
| Bucket.PlaceWellFormed | packages/dht/src/routing/bucket.rs:67-96 | placing keeps eight slots without duplicate contacts, and brings in nothing but a node that is not Bad |
| Bucket.PlaceKeepsGood | packages/dht/src/routing/bucket.rs:67-96 | no Good node of a bucket is ever lost by a placement |
| Bucket.PlaceKeepsNoWorse | packages/dht/src/routing/bucket.rs:85-95 | a newcomer drives out only nodes of a lower status than its own, so one that is not Good no Questionable node |
| Bucket.PlaceRenews | packages/dht/src/routing/bucket.rs:75-83 | of two records of one contact the one with the higher status stays, and of equal ones the newer; no other slot changes |
| Bucket.PlaceFirstLower | packages/dht/src/routing/bucket.rs:85-91 | a new contact takes the first slot of a lower status and every other slot keeps its node |
| Bucket.PlaceOutcome | packages/dht/src/routing/bucket.rs:67-96 | a node that is not Bad ends up held, or the bucket is untouched and full of nodes at least as good |
| Bucket.QuestionableLost | packages/dht/src/routing/bucket.rs:85-95 | a Questionable node survives a new Good node if and only if a node that is not Good precedes it |
| Bucket.QuestionableLostExample | packages/dht/src/routing/bucket.rs:85-95 | with seven free slots the only Questionable node is still lost |
| Bucket.PlaceInFree | packages/dht/src/routing/bucket.rs:67-96 | while slots k and above are free, a node that is not Bad is taken and slots k+1 and above stay free |
| Table.RoutingTable.constructor | packages/dht/src/routing/table.rs:25-30 | one bucket of placeholders |
| Table.RoutingTable.AddNode | packages/dht/src/routing/table.rs:72-84 | the in-place mutual recursion computes the specified table, and terminates |
| Table.RoutingTable.BucketNode | packages/dht/src/routing/table.rs:86-97 | retrying after a split computes the specified table |
| Table.RoutingTable.SplitBucket | packages/dht/src/routing/table.rs:102-125 | splits exactly when allowed; popping, pushing and re-adding every node computes the specified table, of which SplitKeeps and the rows of TableSplits say what is kept |
| Table.BucketPlacement | packages/dht/src/routing/table.rs:154-164 | the bucket of the prefix if it exists, otherwise the last one |
| Table.PlaceInTable | packages/dht/src/routing/table.rs:86-97 | placing in the bucket of its prefix keeps the table invariant and all Good nodes |
| Table.ReaddOne | packages/dht/src/routing/table.rs:102-125 | a node re-added by a split goes into one of the two new buckets and causes no further split |
| Table.Readd | packages/dht/src/routing/table.rs:102-125 | re-adding a whole split bucket never splits again, keeps the invariant and loses no Good node |
| Table.SplitKeeps | packages/dht/src/routing/table.rs:102-129 | a split adds one bucket, keeps the invariant and every Good node of the table |
| Table.WithNodeAtKeeps | packages/dht/src/routing/table.rs:86-125 | through any number of splits the invariant and every Good node survive, and the node is held or its bucket is full of nodes as good and is not the last, or the 160th |
| Table.WithNodeKeeps | packages/dht/src/routing/table.rs:72-125 | one add_node call: invariant kept and no Good node lost; nothing changes for a Bad node or the own id, any other node is held or turned away by a full bucket that is not the last, or the 160th |
| Table.RunInv | packages/dht/src/routing/table.rs:25-164 | after every sequence of calls: 1 to 160 buckets, a node of bucket i shares exactly i bits, those of the last at least count-1 and under 160 |
| Table.RunUnique | packages/dht/src/routing/table.rs:25-164 | after every sequence of calls no contact occupies two places |
| TableSplits.HeldAtHome | packages/dht/src/routing/table.rs:154-164 | a node that is not Bad can only be held by the bucket of its prefix |
| TableSplits.SplitKeepsUnfollowed | packages/dht/src/routing/table.rs:102-125 | a Questionable node of the split bucket that no Good node of the same half follows is still in the table |
| TableSplits.SplitKeepsPingable | packages/dht/src/routing/table.rs:102-125 | splitting a bucket without Good nodes loses nobody who can be pinged, in the whole table |
| TableSplits.SplitKeepsIff | packages/dht/src/routing/table.rs:102-125 | a Questionable node of the split bucket is kept if and only if, from some slot up to its own on, no more Good nodes of its half are re-added than Questionable ones before it |
| TableSplits.OutlastsIff | packages/dht/src/routing/table.rs:118-120 | while nodes are re-added, one with c Questionable nodes before it in its new bucket outlasts exactly c Good ones that come there |
| TableSplits.SplitOnly | packages/dht/src/routing/table.rs:110-120 | the two new buckets hold nothing but nodes of the popped one |
| TableSplits.RunOnlyAdded | packages/dht/src/routing/table.rs:72-125 | after every sequence of calls each node in the table was added by one of the calls |
| TableSplits.GrowsIff | packages/dht/src/routing/table.rs:86-129 | a call makes the table grow if and only if the node belongs in the last bucket, which is not the 160th and is full of other nodes at least as good |
| TableSplits.QuestionableKeepsAll | packages/dht/src/routing/table.rs:72-125 | a Questionable node offered to a table whose last bucket has no Good node drives nobody out, through any number of splits |
| ClosestNodes.Extend | packages/dht/src/routing/table.rs:375-422 | one zig-zag step extends the visited interval at one end by the new index, and stops only when all are visited |
| ClosestNodes.ZigZagVisitsAllOnce | packages/dht/src/routing/table.rs:375-422 | from any start in 0..=160 the walk visits every bucket index exactly once |
| ClosestNodes.ZigZagOrder | packages/dht/src/routing/table.rs:375-422 | the walk goes by distance from the start index, the higher of two indices at the same distance first |
| ClosestNodes.Precompute | packages/dht/src/routing/table.rs:320-345 | the assorted entries are the last bucket, each with its own prefix index and not yet returned |
| ClosestNodes.ClosestNodes.constructor | packages/dht/src/routing/table.rs:265-278 | what is left to hand out is the whole specified order |
| ClosestNodes.ClosestNodes.NextInBucket | packages/dht/src/routing/table.rs:287-292 | the next pingable slot is the head of what is left |
| ClosestNodes.ClosestNodes.NextAssorted | packages/dht/src/routing/table.rs:294-303 | the first due assorted entry is the head of what is left, and is marked |
| ClosestNodes.ClosestNodes.Advance | packages/dht/src/routing/table.rs:305-315 | moving on changes nothing that is left, and reaches an index not visited before |
| ClosestNodes.ClosestNodes.Next | packages/dht/src/routing/table.rs:281-317 | each call hands out the head of what is left, and ends exactly when nothing is; it terminates |
| ClosestNodes.ClosestNodes.Collect | packages/dht/src/routing/table.rs:281-317 | draining the iterator gives exactly the specified order |
| ClosestNodes.ClosestNodesExact | packages/dht/src/routing/table.rs:264-422 | for every table satisfying the invariant and every target, also its own id, each Good or Questionable node is handed out exactly once |
| ClosestNodes.ReachableExact | packages/dht/src/routing/table.rs:72-422 | so it is for every table that add_node calls can make, under every status |
| ClosestNodes.AtPrefix | packages/dht/src/routing/table.rs:320-356 | a node handed out at index i shares exactly i leading bits with the table id |
| ClosestNodes.StartBucketIsClosest | packages/dht/src/routing/table.rs:264-317 | for any other target, the nodes of the start index are strictly xor-closer to it than all handed out later |
| Decimal.ParseOfText | packages/bencode/src/mutable/encode.rs:20-34 | decimal text reads back as its number and is never padded |
| Decimal.TextOfParse | packages/bencode/src/reference/decode.rs:45-67 | unpadded text without plus sign is exactly how its value is written; a plus sign makes it longer |
| BencodeSpans.DecodeIntIff | packages/bencode/src/reference/decode.rs:37-67 | a number is accepted with a value and an end if and only if it stands before the first delimiter, unpadded, and parses to that value |
| BencodeSpans.DecodeBytesIff | packages/bencode/src/reference/decode.rs:71-87 | a string is accepted with its bytes and end if and only if its length field gives that many bytes, which are there |
| BencodeCodec.EncodeTo | packages/bencode/src/mutable/encode.rs:7-18 | appends exactly the encoding of the value to what the vector held |
| BencodeCodec.EncodeIntTo | packages/bencode/src/mutable/encode.rs:20-26 | appends exactly the encoding of the integer |
| BencodeCodec.EncodeBytesTo | packages/bencode/src/mutable/encode.rs:28-34 | appends exactly the encoding of the byte string |
| BencodeCodec.EncodeListTo | packages/bencode/src/mutable/encode.rs:36-48 | the loop appends the encodings of the items in order between the list markers |
| BencodeCodec.EncodeDictTo | packages/bencode/src/mutable/encode.rs:50-67 | sorting and the loop append the entries in key order between the dictionary markers |
| BencodeCodec.SortedIsFixed | packages/bencode/src/mutable/encode.rs:56-58 | sorting the entries of an ordered map changes nothing |
| BencodeCodec.DecodeValue | packages/bencode/src/reference/decode.rs:9-35 | the decoder returns the specified result or error, and terminates |
| BencodeCodec.DecodeList | packages/bencode/src/reference/decode.rs:89-106 | the loop over items returns the specified list or the first error |
| BencodeCodec.DecodeDict | packages/bencode/src/reference/decode.rs:108-152 | the loop over entries returns the specified map, or the key-order, duplicate or nested error |
| BencodeRoundTrip.DecodeEncoded | packages/bencode/src/reference/decode.rs:9-152 | read anywhere in a larger input, an encoding gives its value and its end, exactly when the depth allows it |
| BencodeRoundTrip.RoundTrip | packages/bencode/src/reference/bencode_ref.rs:39-48 | decoding an encoding consumes it all and gives the value back, for every option setting, if and only if max_recursion is at least the depth |
| BencodeRoundTrip.TrailingBytes | packages/bencode/src/reference/bencode_ref.rs:39-48 | with bytes after it an encoding is accepted if and only if its depth is allowed and the whole input need not be consumed; the value comes back, its buffer is exactly the encoding, and else the error is at its end |
| BencodeRoundTrip.FormatExample | packages/bencode/src/mutable/encode.rs:7-67 | the bytes of a dictionary of a list of a negative number |
| BencodeOrder.AnyKeyOrder | packages/bencode/src/reference/decode.rs:108-152 | a dictionary with its entries in any order is accepted if and only if its depth is allowed, no key occurs twice and, when order is checked, the keys ascend; it decodes to the same entries in key order |
| BencodeOrder.DecodeInAnyOrder | packages/bencode/src/reference/decode.rs:108-152 | so does the dictionary loop from any entries read before, anywhere in a larger input |
| BencodeRoundTrip.EncodeInjective | packages/bencode/src/mutable/encode.rs:7-67 | different values have different encodings |
| BencodeSpans.LocalDecode | packages/bencode/src/reference/decode.rs:9-152 | decoding depends only on the bytes of the value: moved to any context and any smaller depth it gives the same |
| BencodeSpans.SuffixIrrelevant | packages/bencode/src/reference/decode.rs:9-152 | appended bytes never change a successful decode |
| BencodeSpans.TrailingIgnoredIff | packages/bencode/src/reference/bencode_ref.rs:39-48 | any accepted input is accepted with more bytes after it, to the same value, if and only if the whole input need not be consumed |
| BencodeSpans.PrefixFree | packages/bencode/src/reference/bencode_ref.rs:39-48 | no accepted input is a proper prefix of another |
| BencodeSpans.Spans | packages/bencode/src/reference/bencode_ref.rs:50-60 | success strictly advances and stays in bounds, and every nested value carries the slice of the input it was read from, which on its own decodes to that same value |
| BencodeCanonical.StrictIsCanonical | packages/bencode/src/reference/decode.rs:37-152 | with both checks on, re-encoding an accepted input gives back its bytes if and only if no number field starts with a plus sign |
| BencodeCanonical.PlusIsLost | packages/bencode/src/reference/decode.rs:57-67 | i+5e is accepted and re-encoded as i5e |
| BencodeCanonical.Decoded | packages/bencode/src/reference/decode.rs:9-152 | whatever is accepted has sorted keys, numbers in range and a depth within the limit |
| BencodeCanonical.Normalises | packages/bencode/src/reference/decode.rs:9-152 | the re-encoding of anything accepted is accepted by every option setting that allows the depth, strict ones too, as the same value |
| PieceHasher.Buffer.constructor | packages/metainfo/src/builder/buffer.rs:70-75 | an empty buffer of one piece length |
| PieceHasher.Buffer.WriteBytes | packages/metainfo/src/builder/buffer.rs:77-86 | the callback fills in place just after what was read before |
| PieceHasher.Buffer.Reset | packages/metainfo/src/builder/buffer.rs:28-33 | a buffer handed back is empty again |
| PieceHasherProofs.StructureKept | packages/metainfo/src/builder/worker.rs:83-198 | every step of master or worker keeps the worker count and all buffers at piece length |
| PieceHasherProofs.OutlookKept | packages/metainfo/src/builder/worker.rs:83-131 | no step, whatever the short reads, changes the hashes the sequential hasher will have handed out in the end |
| PieceHasherProofs.TokenKept | packages/metainfo/src/builder/worker.rs:83-198 | an indexed piece is never lost or repeated between queue, workers, channel and list; only handing it out makes one |
| PieceHasherProofs.BuffersKeptByStep | packages/metainfo/src/builder/buffer.rs:16-56 | free, queued, in-worker and master-held buffers always total twice the workers while the master reads |
| PieceHasherProofs.OrderlyKept | packages/metainfo/src/builder/worker.rs:133-198 | finish messages follow all pieces, and a worker reports the end after all its pieces |
| PieceHasherProofs.RunInv | packages/metainfo/src/builder/worker.rs:72-198 | all of this holds in every state of every interleaving |
| PieceHasherProofs.NothingLeft | packages/metainfo/src/builder/worker.rs:138-154 | once every worker has reported, nothing is queued, held or in the channel |
| PieceHasherProofs.ResultIsSequential | packages/metainfo/src/builder/worker.rs:83-154 | the sorted list returned is exactly the indexed hashes of the sequential hasher |
| PieceHasherProofs.CheckoutIsServed | packages/metainfo/src/builder/buffer.rs:35-52 | a master blocked on checkout implies a worker that can step |
| PieceHasherProofs.WaitingIsServed | packages/metainfo/src/builder/worker.rs:138-149 | a master waiting for results implies a message or a worker that can step |
| PieceHasherProofs.NoDeadlock | packages/metainfo/src/builder/worker.rs:72-198 | no reachable unfinished state is deadlocked |
| PieceHasherProofs.RunsEnd | packages/metainfo/src/builder/worker.rs:72-198 | no run is longer than a bound fixed at the start |
| PieceHasherProofs.MaximalRunsAreCorrect | packages/metainfo/src/builder/worker.rs:72-198 | under every scheduler a run that cannot go on has returned exactly the sequential result |
| PieceHasherProofs.SequentialIsChunking | packages/metainfo/src/builder/worker.rs:83-131 | with computed accesses only, that result is the hash of each piece-length chunk of the concatenated regions |
| PieceHasherProofs.ChunkAt | packages/metainfo/src/builder/worker.rs:88-131 | chunk i is the i-th piece-length slice of the data, only the last may be short |
| Lookup.TableLookup.Start | packages/dht/src/worker/lookup.rs:60-118 | the closest good nodes are merged in order and the first four asked |
| LookupRuns.StartDoes | packages/dht/src/worker/lookup.rs:60-118 | a lookup starts by knowing exactly the given nodes, with the first four marked asked and those reached requested; it fails if and only if a send does, and is complete at once only without nodes |
| LookupRuns.StartRegisters | packages/dht/src/worker/lookup.rs:84-112 | with fresh ids each of the first four that was tried is outstanding at its own distance |
| Lookup.TableLookup.Search | packages/dht/src/worker/lookup.rs:502-510 | the binary search finds an index that keeps the order |
| Lookup.TableLookup.InsertSortedNode | packages/dht/src/worker/lookup.rs:502-516 | the list is still sorted by distance with the node at a found index |
| Lookup.TableLookup.StartRequestRound | packages/dht/src/worker/lookup.rs:333-394 | each node is registered with the distance to beat and sent to, up to the first failed send, whose request stays registered but whose node does not count as asked; nothing to ask clears the requests |
| Lookup.TableLookup.StartEndgameRound | packages/dht/src/worker/lookup.rs:397-442 | the endgame is on; unless values were received, all entries not asked are registered and then sent to, up to the first failed send |
| LookupProofs.EndgameAsksAll | packages/dht/src/worker/lookup.rs:397-442 | once values were received nothing is asked; otherwise every entry not asked has its own request at its own distance, and the round succeeds, with every entry asked, if and only if every send does |
| Lookup.TableLookup.InsertClosestNodes | packages/dht/src/worker/lookup.rs:483-499 | the in-place fill or replacement of the three picks is the specified one |
| Lookup.TableLookup.PickIterateNodes | packages/dht/src/worker/lookup.rs:465-481 | the three slots after all candidates are those of the specified fold |
| LookupPicks.FirstIsClosest | packages/dht/src/worker/lookup.rs:465-500 | the first slot always holds a closest candidate |
| LookupPicks.PickedAreCandidates | packages/dht/src/worker/lookup.rs:465-500 | every pick is one of the candidates |
| LookupPicks.RoundStartsIff | packages/dht/src/worker/lookup.rs:174-184 | a response starts a round if and only if it lists a node not asked before that is closer than the distance to beat; none of these is closer than the next distance |
| LookupPicks.RoundAsksClosest | packages/dht/src/worker/lookup.rs:174-216 | a response that beats the distance asks one to three of its nodes, none asked before, the first of them at exactly the new distance to beat |
| LookupPicks.ThreeClosestIff | packages/dht/src/worker/lookup.rs:483-500 | the three closest candidates are all picked if and only if they are listed closest first |
| LookupPicks.ThreeClosestExample | packages/dht/src/worker/lookup.rs:483-500 | of three candidates the middle one, listed first, is driven out |
| Lookup.TableLookup.RecvResponse | packages/dht/src/worker/lookup.rs:126-230 | the state and status after a response are those the step relation allows, and the list stays sorted; ResponseDoes and ResponseMarks say what they are |
| LookupRuns.ResponseDoes | packages/dht/src/worker/lookup.rs:126-230 | one accepted response: its token replaces the node's; values alone are remembered; the known nodes are those before and those listed; the nodes reached by the round are the newly requested ones; other outstanding requests stay; the answer is its values, or that the search goes on, unless a send failed; and no lookup is left idle outside the endgame |
| LookupRuns.ResponseMarks | packages/dht/src/worker/lookup.rs:186-212 | a node that was not known is marked asked if and only if it was picked, unless the endgame began |
| LookupRuns.RequestsAre | packages/dht/src/worker/lookup.rs:333-394 | a round stops at the first failed send, succeeds if and only if none fails, and makes exactly the nodes reached requested ones |
| LookupRuns.RequestsRegister | packages/dht/src/worker/lookup.rs:345-360 | with fresh ids each request tried is outstanding under its own id at its own distance |
| Lookup.TableLookup.RecvTimeout | packages/dht/src/worker/lookup.rs:233-256 | a timeout removes its request, and starts the endgame when it was the last |
| LookupRuns.TimeoutDoes | packages/dht/src/worker/lookup.rs:233-256 | a timeout ends exactly its request, keeps tokens, known and requested nodes, begins the endgame if and only if nothing else was outstanding, and never completes the lookup |
| Lookup.TableLookup.RecvFinished | packages/dht/src/worker/lookup.rs:259-322 | the specified announces are all tried, one id and one send each, and the lookup forgets its requests; it fails if and only if a send did |
| LookupProofs.RunsStayOrdered | packages/dht/src/worker/lookup.rs:502-516 | in every run the known nodes stay sorted by their true xor distance |
| LookupProofs.AnnouncesClosest | packages/dht/src/worker/lookup.rs:273-296 | at most eight announces, each with the node's own token; any token holder left out is at least as far as every one picked |
| LookupRuns.TokensAreLast | packages/dht/src/worker/lookup.rs:148-150 | in every run a node has a token if and only if an accepted response of it carried one, and the token is that of the last such response |
| LookupRuns.FinishAnnounces | packages/dht/src/worker/lookup.rs:126-322 | whenever a lookup finishes, each of its at most eight announces carries the token of the last token-bearing response of its node, and a known node that gave a token is left out only for eight at least as close |
| LookupRuns.RunNoRepeats | packages/dht/src/worker/lookup.rs:502-516 | if no two contacts heard of share an id, no run lists a node twice |
| LookupProofs.CloserIsLighter | packages/dht/src/worker/lookup.rs:139-230 | one request at a distance outweighs any three at smaller distances |
| LookupProofs.AcceptedFalls | packages/dht/src/worker/lookup.rs:139-256 | every accepted response or timeout lowers (not in endgame, sum of weights) |
| LookupProofs.NeverRises | packages/dht/src/worker/lookup.rs:333-442 | along a run that measure never rises, so the endgame is entered at most once |
| LookupProofs.OnlyFinitelyManyAccepted | packages/dht/src/worker/lookup.rs:126-256 | every run accepts only finitely many responses and timeouts |
| UtMetadata.RequestedInv | packages/select/src/discovery/ut_metadata.rs:208-234 | moving a queued piece into flight keeps every download's accounts |
| UtMetadata.InFlightIsLeft | packages/select/src/discovery/ut_metadata.rs:169-185 | a piece in flight is one of the download, was not received, and left is positive, so it never underflows |
| UtMetadata.DeliveredInv | packages/select/src/discovery/ut_metadata.rs:169-185 | data received moves its piece from in flight to received and keeps the buffer assembled |
| UtMetadata.ExpiredInv | packages/select/src/discovery/ut_metadata.rs:140-152 | a timed-out request puts its piece back in the queue of its download |
| UtMetadata.BegunInv | packages/select/src/discovery/ut_metadata.rs:263-274 | a download begins with every piece queued and none in flight |
| UtMetadata.EndedInv | packages/select/src/discovery/ut_metadata.rs:191-206 | a complete download can be removed or restarted without leaving a request behind |
| UtMetadata.ApplyInv | packages/select/src/discovery/ut_metadata.rs:100-338 | each of the ten actions keeps the invariant |
| UtMetadata.RunInv | packages/select/src/discovery/ut_metadata.rs:100-338 | the invariant holds in every state of every run |
| UtMetadata.RunAccounts | packages/select/src/discovery/ut_metadata.rs:131-338 | in every run each piece is in exactly one of queued, in flight and received, left is queued plus in flight, and complete exact-size downloads are the pieces in order |
| UtMetadata.CompleteIsAssembled | packages/select/src/discovery/ut_metadata.rs:191-206 | at left == 0 all pieces are received, and if each had its piece's size the bytes are their concatenation |
| UtMetadata.RetrievePieceResponse | packages/select/src/discovery/ut_metadata.rs:236-261 | requests are dropped up to the first whose full 16 KiB slice exists, which is answered with it, or whose number is negative, which panics |
| UtMetadata.AllServableIff | packages/select/src/discovery/ut_metadata.rs:236-261 | a peer can get every piece of a metadata if and only if its size is a multiple of 16 KiB |
| UtMetadata.OneByteIsNeverServed | packages/select/src/discovery/ut_metadata.rs:236-261 | the only piece of a one-byte metadata is never served |
| UtMetadataDownload.SweptKeeps | packages/select/src/discovery/ut_metadata.rs:140-152 | a tick keeps exactly the unexpired requests, and every download's left and bytes |
| UtMetadataDownload.SweptPeers | packages/select/src/discovery/ut_metadata.rs:140-152 | a tick keeps every entry and its size, and drops exactly the peers with a request that timed out |
| UtMetadataDownload.PendingInfoFromMetadataSize | packages/select/src/discovery/ut_metadata.rs:321-338 | every piece index once, as many left, a zeroed buffer of the size |
| UtMetadataDownload.UtMetadataModule.AddPeer | packages/select/src/discovery/ut_metadata.rs:100-129 | exactly a peer with support on both sides and a size is added to the known ones; the first size of a hash stands, other hashes keep theirs |
| UtMetadataDownload.UtMetadataModule.RemovePeer | packages/select/src/discovery/ut_metadata.rs:131-138 | exactly the peer goes, and the entry of its hash if and only if it has no peer then |
| UtMetadataDownload.UtMetadataModule.DownloadMetainfo | packages/select/src/discovery/ut_metadata.rs:159-161 | a hash not yet pending becomes pending, and every pending one stays as it is |
| UtMetadataDownload.UtMetadataModule.ApplyTick | packages/select/src/discovery/ut_metadata.rs:140-157 | expired requests are requeued, exactly their peers are dropped, and the rest are older by the duration |
| UtMetadataDownload.UtMetadataModule.RecvData | packages/select/src/discovery/ut_metadata.rs:169-185 | only the first matching request is answered; too much data for the buffer panics, else the data is in the buffer at its place, one piece less is left and exactly that request is gone |
| UtMetadataDownload.UtMetadataModule.RetrievePieceRequest | packages/select/src/discovery/ut_metadata.rs:208-234 | the last queued piece of some download goes to a peer of it for two seconds, or no download has both |
| UtMetadataDownload.UtMetadataModule.RetrieveCompletedDownload | packages/select/src/discovery/ut_metadata.rs:191-206 | complete downloads that do not parse are removed with their peers until one parses; that one has all pieces, and in order if all had their size |
| UtMetadataDownload.UtMetadataModule.InitializePending | packages/select/src/discovery/ut_metadata.rs:263-274 | exactly the pending downloads with peers are begun, with every piece queued once and a buffer of the size; panics if and only if one has a negative size |
| UtMetadataDownload.UtMetadataModule.ValidateDownloaded | packages/select/src/discovery/ut_metadata.rs:276-291 | every download complete afterwards has its hash; one complete with the wrong hash starts over, and all others are unchanged |
| AnnounceStorage.Announcer.constructor | packages/dht/src/storage.rs:19-24 | nothing is stored |
| AnnounceStorage.Announcer.RemoveExpiredItems | packages/dht/src/storage.rs:107-126 | exactly the expired front of the list goes, from list and map alike, whatever the clock |
| AnnounceStorage.Announcer.InsertContact | packages/dht/src/storage.rs:79-104 | already there, inserted, or refused exactly when 500 others are held |
| AnnounceStorage.Announcer.Add | packages/dht/src/storage.rs:31-52 | after expiry an announce is refreshed if held, listed if there is room and refused otherwise, whatever the clock; map and list still agree |
| AnnounceStorage.Announcer.Find | packages/dht/src/storage.rs:62-74 | reports each address of the hash that is still listed exactly once, and no other |
| AnnounceStorage.SurvivorsExactIff | packages/dht/src/storage.rs:107-112 | expiry from the front removes exactly what is 24 hours old or more if and only if no expired item stands behind a fresh one |
| AnnounceStorage.KeptTooLongExample | packages/dht/src/storage.rs:107-112 | after a clock that went back a contact is kept past its time |
| AnnounceStorage.DropAgrees | packages/dht/src/storage.rs:107-126 | dropping an expired contact keeps map and list in agreement and leaves no empty list |
| AnnounceStorage.StoreAgrees | packages/dht/src/storage.rs:79-104 | storing a new contact keeps map and list in agreement |
| AnnounceStorage.RefreshKeeps | packages/dht/src/storage.rs:38-44 | a renewed announce moves to the end of the list and takes no more room |
| AnnounceStorage.ListedIsBounded | packages/dht/src/storage.rs:79-104 | whatever the clock, no run ever lists a contact twice or more than 500 contacts |
| AnnounceStorage.AddedIsAnnounce | packages/dht/src/storage.rs:31-52 | on a list in insertion order an announce is that of a timed set that forgets everything expired, and leaves the list in order |
| AnnounceStorage.ListedIsHeld | packages/dht/src/storage.rs:31-126 | in every run whose insertion times never go back, list and map are that timed set |
| AnnounceStorage.HeldIsFreshLedger | packages/dht/src/storage.rs:31-126 | in every run with a forward clock, what is held and fresh is what a ledger that never forgets says is fresh |
| AnnounceStorage.AnswersFollowLedger | packages/dht/src/storage.rs:31-74 | in every run with a forward clock an announce is accepted, and an address found, if and only if a ledger that never forgets has a fresh announce or, for an announce, fewer than 500 |
| Transaction.FisherShuffle | packages/util/src/lib.rs:32-46 | in place, each position is swapped with its pick, so the list is permuted for any picks, also when both positions are the same |
| Transaction.EveryOrder | packages/util/src/lib.rs:32-46 | every permutation of the list is the shuffle for some picks |
| Transaction.GenerateIds | packages/dht/src/transaction.rs:106-123 | 2048 consecutive ids from the marker, or from zero exactly when the marker is the maximum |
| Transaction.ShuffledIds | packages/dht/src/transaction.rs:81-103 | a shuffled block holds each of its 2048 ids once |
| Transaction.NextStart | packages/dht/src/transaction.rs:106-123 | block starts follow each other, reach the maximum exactly and never pass it |
| Transaction.DrawsDiffer | packages/dht/src/transaction.rs:67-195 | for any shuffles, ids drawn from blocks fewer than one whole wrap apart are different |
| Transaction.OrIsPlus | packages/dht/src/transaction.rs:155-155 | or-ing a number below 2^k into one shifted left by k is adding it |
| Transaction.MaskIsRemainder | packages/dht/src/transaction.rs:267-275 | masking with 2^k - 1 is the remainder by 2^k |
| Transaction.ComposedId | packages/dht/src/transaction.rs:149-157 | an action id or-ed with a message id fits in 64 bits and gives back both |
| Transaction.BytesIdentify | packages/util/src/convert.rs:17-30 | different ids have different byte forms |
| Transaction.FromBytes | packages/dht/src/transaction.rs:209-221 | succeeds on exactly eight bytes, keeps them, and inverts the byte form of every id |
| Transaction.MidGenerator.constructor | packages/dht/src/transaction.rs:135-143 | nothing drawn yet; the first block is lazy |
| Transaction.MidGenerator.Generate | packages/dht/src/transaction.rs:149-169 | the id maps back to the generator's action id and carries the next message id drawn |
| Transaction.AidGenerator.constructor | packages/dht/src/transaction.rs:68-79 | one shuffled block, nothing drawn |
| Transaction.AidGenerator.Generate | packages/dht/src/transaction.rs:81-103 | the new generator stands for the next action id drawn |
| Transaction.TransactionsDiffer | packages/dht/src/transaction.rs:67-221 | two ids in use, of actions and messages fewer than one wrap apart, have equal bytes only if they are the same draw |
| Token.BufferIdentifies | packages/dht/src/token.rs:145-172 | different addresses or secrets are never hashed from the same bytes |
| Token.BufferLayout | packages/dht/src/token.rs:145-172 | the hashed buffer is the address followed by the four bytes of the secret, most significant first |
| Token.InjectiveIsCollisionFree | packages/dht/src/token.rs:145-172 | a hash that tells these buffers apart tells the secrets of an address apart |
| Token.TokenBoundToAddress | packages/dht/src/token.rs:175-194 | with such a hash a token made for one address is never accepted for another, in any store state |
| Token.TokenStore.constructor | packages/dht/src/token.rs:77-91 | two fresh secrets, refreshed now |
| Token.TokenStore.RefreshCheck | packages/dht/src/token.rs:105-120 | no, one or both secrets are replaced by the whole ten-minute intervals passed at the first clock reading, and the refresh is dated by the second |
| Token.TokenStore.Checkout | packages/dht/src/token.rs:93-97 | a token of the current secret, which is accepted at once |
| Token.TokenStore.Checkin | packages/dht/src/token.rs:99-103 | accepted exactly if it is the token of the current or the last secret |
| Token.IntervalsAre | packages/dht/src/token.rs:127-134 | minutes rounded down, then divided by ten, are whole ten-minute intervals |
| Token.GoodForTenMinutes | packages/dht/src/token.rs:93-134 | on every schedule a token is accepted up to ten minutes after the checkout began |
| Token.UselessAfterThirtyMinutes | packages/dht/src/token.rs:93-134 | on every schedule with fresh secrets it is refused from thirty minutes after the checkout on, plus the longest gap between the two clock readings of a call, less one tick |
| Token.AlwaysGoodUntil | packages/dht/src/token.rs:93-134 | accepted on all schedules at an age if and only if the age is at most ten minutes |
| Token.SometimesGoodUntil | packages/dht/src/token.rs:93-134 | accepted on some schedule at an age if and only if the age is at most thirty minutes plus that gap, less two ticks |
| BitField.InsertedStores | packages/select/src/revelation/honest.rs:197-197 | inserting an index adds exactly that piece to the set |
| BitField.ReverseByte | packages/select/src/revelation/honest.rs:253-260 | bit k of the result is bit 7-k of the byte |
| BitField.InsertReversedBits | packages/select/src/revelation/honest.rs:252-264 | the bytes appended announce exactly the pieces of the bit set |
| BitField.BitFieldIter.Next | packages/peer/src/message/standard.rs:239-254 | the next announced piece at or past the cursor, skipping only unset bits; panics exactly at an index that does not fit in 32 bits |
| BitField.Pieces | packages/peer/src/message/standard.rs:236-255 | draining the iterator lists the announced pieces that fit in 32 bits once each, in order, and panics if and only if there are more bits |
| Honest.HonestRevealModule.constructor | packages/select/src/revelation/honest.rs:59-66 | honest about no torrents |
| Honest.HonestRevealModule.AddTorrent | packages/select/src/revelation/honest.rs:82-108 | a new torrent starts with nothing known; an existing one is refused |
| Honest.HonestRevealModule.RemoveTorrent | packages/select/src/revelation/honest.rs:111-121 | the torrent and its peers go; an unknown one is refused |
| Honest.HonestRevealModule.AddPeer | packages/select/src/revelation/honest.rs:124-154 | exactly the peer is added; one bit field that announces exactly the known pieces is queued to it, or nothing if there are none; an unknown torrent is refused |
| Honest.HonestRevealModule.RemovePeer | packages/select/src/revelation/honest.rs:157-167 | exactly the peer goes from its torrent, nothing else changes and nothing is queued; an unknown torrent is refused |
| Honest.HonestRevealModule.InsertPiece | packages/select/src/revelation/honest.rs:170-201 | one Have for each peer is queued, in some order, and nothing else; then exactly the piece is added; unknown torrents and indices out of range are refused |
| Honest.HonestRevealModule.PollNextMessage | packages/select/src/revelation/honest.rs:205-222 | messages leave in the order they were queued |
| Honest.RunTellsAll | packages/select/src/revelation/honest.rs:68-201 | in every run the pieces sent to a connected peer since it connected, bit field and Haves together, are exactly the known pieces of its torrent |
| Honest.RunHonest | packages/select/src/revelation/honest.rs:68-201 | that holds of all torrents and peers in every state of every run, and known pieces are in range |
| HonestRuns.RunFollows | packages/select/src/revelation/honest.rs:68-201 | in every state of every run the torrents are those added and not removed since, a peer is in its torrent's set if and only if it connected and neither left nor had its torrent removed since, and the known pieces are those found good since the torrent was added |
| HonestRuns.RunTellsFound | packages/select/src/revelation/honest.rs:68-201 | so a connected peer has been told of a piece if and only if it was found good since its torrent was added |
| HonestRuns.RunSends | packages/select/src/revelation/honest.rs:124-201 | every message of every run is queued by a call after which its peer is connected |
| HonestRuns.SilentWhileGone | packages/select/src/revelation/honest.rs:157-201 | from the call with which a peer leaves, or its torrent is removed, until it connects again nothing is queued to it |
| HonestRuns.ApplyChanges | packages/select/src/revelation/honest.rs:68-201 | what each call changes in the torrents, the peers and the known pieces, and nothing else |
| Honest.ApplyHonest | packages/select/src/revelation/honest.rs:68-201 | each call keeps every peer told exactly what is known |
| Honest.RevealPart | packages/select/src/revelation/honest.rs:186-195 | in whatever order peers are sent a piece, those reached know it and the others know the rest |
| Honest.ConnectHonest | packages/select/src/revelation/honest.rs:124-154 | after the bit field a peer has been told exactly the known pieces, and so have the others |
| Honest.AnnounceOne | packages/select/src/revelation/honest.rs:186-195 | each Have tells one more peer of the new piece |
| Honest.AnnouncedAll | packages/select/src/revelation/honest.rs:186-200 | when all have heard, adding the piece makes everyone told exactly what is known |
| Honest.OthersKept | packages/select/src/revelation/honest.rs:124-201 | an event of one torrent leaves the others honest |
| Handshake.WriteBytesSync | packages/handshake/src/bittorrent/message.rs:51-62 | appends exactly the wire format |
| Handshake.WireLength | packages/handshake/src/bittorrent/message.rs:64-76 | the wire format is as long as its first byte announces |
| Handshake.WireLayout | packages/handshake/src/bittorrent/message.rs:51-62 | where each field stands: the length, the name, the extensions, the hash and last the peer id |
| Handshake.RoundTrip | packages/handshake/src/bittorrent/message.rs:79-102 | reading back what was written, whatever follows, gives the message; a custom protocol with the standard name reads as BitTorrent |
| Handshake.ParsedIsWire | packages/handshake/src/bittorrent/message.rs:79-102 | parsing succeeds exactly when the announced length is there, and gives the canonical message of those bytes |
| Handshake.FramedHandshake.constructor | packages/handshake/src/bittorrent/framed.rs:54-62 | waiting, with nothing read or written |
| Handshake.FramedHandshake.StartSend | packages/handshake/src/bittorrent/framed.rs:84-93 | what the socket took and what is buffered are the messages sent, in order |
| Handshake.FramedHandshake.PollFlush | packages/handshake/src/bittorrent/framed.rs:96-120 | for any partial writes nothing is lost or repeated; after the writes that took something either all is written, and the own flush of the socket is the answer, or that of the next write is |
| Handshake.FramedHandshake.PollNext | packages/handshake/src/bittorrent/framed.rs:142-291 | each poll is the specified step, and the framer's own assertions never fail |
| Handshake.RunInv | packages/handshake/src/bittorrent/framed.rs:142-291 | in every run the buffer holds the bytes taken, never more than announced, and errors come only from the socket |
| Handshake.RunProgress | packages/handshake/src/bittorrent/framed.rs:142-291 | every productive read is progress until the message has been answered |
| Handshake.AnsweredIff | packages/handshake/src/bittorrent/framed.rs:142-291 | without failed reads there is an answer if and only if the framer was polled again after all announced bytes were taken |
| Handshake.MessageCrosses | packages/handshake/src/bittorrent/framed.rs:142-291 | however a message is cut up, the framer takes no byte past it, and has answered if and only if it was polled again after taking it all: the message once, in canonical form, then the end |
| Handshake.ErrorsEnd | packages/handshake/src/bittorrent/framed.rs:160-175 | a framer errs only after a failed read, answers the error once and then the end |

## Left out

- Sockets, tasks, wakers, timers, channels' internals, files and logging: plumbing around the modelled steps.
- Node statuses changing during a call: a status is fixed for one `add_node` or one walk, and arbitrary between calls.
- `RoutingTable::find_node` and the bucket-contents iterator: nodes of the last bucket are not found by it.
- The full xor order of `ClosestNodes`: the zig-zag mixes buckets with shorter prefixes; only the start bucket is closest.
- TableSplits.SplitKeepsIff: not for a bucket that holds a contact equal to the placeholder, the zero id on port 0 of the
  local host, which a new Good node of that contact would replace out of turn.
- Eventual completion of a lookup: the endgame timeout is never scheduled.
- UTF-8 and number errors of a bencode integer are one error.
- Errors while reading a region to be hashed, and pieces of length zero.
- The progress channel of the hasher.
- Hash validity of a `DownloadedMetainfo` and a cap on active requests: not enforced where the message is produced.
- Keeping metadata served to peers (`add_torrent`, `remove_torrent`, `recv_request`): plain map and queue updates.
- Reject messages, which the module ignores.
- Bit sets are modelled by their storage bytes; the capacity reserved for them is not.
- Extensions in `PeerInfo`: not part of its equality.
- Peer wire messages, metainfo building and parsing, disk and peer managers, magnet links, trackers, uTP and UPnP.
- SHA-1 itself, UTF-8, socket addresses as bytes: library behaviour.
