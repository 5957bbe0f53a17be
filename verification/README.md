# Verified model of the lbry.go DHT, announcer, stream codec and base58

This project models four parts of the LBRY Go library in Dafny and proves what they promise.

- **DHT core.** 384-bit identifiers with hand-written arithmetic (`Bits`), ranges and their division (`Ranges`),
  contacts ordered by XOR distance (`Contacts`), the routing table with its splitting buckets (`Buckets`, `Table`,
  `TableRuns`, `TableContacts`, `Retention`, `RetentionLimits`, `PeerLoss`, `RoutingTable`) and the iterative lookup
  (`Finder`, `FinderProbes`, `FinderRecords`, `FinderDecisions`, `ContactFinder`).
- **Announcer.** The scheduler of announcements (`Announcer`, `Ring`) and the choice of store targets (`Announce`).
- **Stream codec.** Blobs, descriptors, encoder and decoder (`Blobs`, `Streams`, `Integrity`, `Reconstruction`,
  `Encoder`).
- **Base58.** Address text and back (`Base58`).

Where the program updates things in place there is a class or a method with loops (`RoutingTable`, `ContactFinder`,
`Ring`, `Encoder`, the loops in `Bits`, `Blobs` and `Base58`), proved equal to functions on values; the properties over
whole runs are proved about those functions. `dafny verify dfyconfig.toml` checks everything.

## Main results

- Retention: the table reports the eight closest contacts ever passed to `Update`, after every run in which no peer
  becomes bad, if and only if its own id is all zeros (`RetentionLimits.RetentionIff`). For any other id some run
  of updates forgets one of them, because after a split the half is picked by the contact's id and not its distance. Run
  by run, it suffices that every update reaches the bucket that covers its contact
  (`Retention.ClosestEverSeen`); `TableRuns.UpdateInserts` says exactly when an update keeps its contact, and
  `RetentionLimits.SplitCut` where a split cuts.
- The table invariant holds after every run for every id (`TableRuns.Run`); a peer is lost exactly by an insert into a
  full bucket that finds it to be the least recently active peer with three failures since its last touch
  (`PeerLoss.LostOnlyByEviction`, `PeerLoss.LostPeerWasWorst`); every contact the table reports has the address it was
  last brought in with (`TableContacts.ReportsWholeContacts`).
- In every interleaving of the lookup's goroutines every answer is recorded, and the active contacts are those that
  answered (`FinderRecords.AnswersAreRecorded`, `FinderRecords.ActiveIsRecorded`); the lookup stops only for a reason
  and goes on until then (`FinderDecisions.StopsForAReason`, `FinderDecisions.GoesOnUntilThen`,
  `FinderDecisions.DecidesSo`); every chain of cycles is finite (`Finder.ChainsAreFinite`); and announcing stores at
  exactly the eight closest of those that answered, this node included (`Announce.StoresAtClosest`).
- The announcer sleeps exactly when nothing is due, wakes in time, spaces announcements of a hash, and no operation that
  can happen panics (`Announcer.SleepsOnlyWhenNothingDue`, `Announcer.ReannounceSpacing`, `Announcer.NeverPanics`); its
  linked ring and map implement that queue over every history (`Ring.RunAnnouncer`). A new hash goes to the front, so a
  due hash can be passed over any number of times (`Announcer.AddsCanStarve`); it is announced once the wake-ups
  outnumber the hashes ahead of it and those added since, and exactly at the wake-up that finds none ahead
  (`Announcer.DueHashIsAnnounced`, `Announcer.AnnouncedIff`).
- Decoding an encoded stream returns the delivered bytes exactly when the reader delivers at least one chunk and no empty
  one, and ends without a failure and without further bytes (`Streams.KeyedRoundTripIff`, and `Streams.RoundTripIff` for
  any key and IVs). Encoding from a descriptor reproduces its stream exactly when the reader delivers the same chunks
  (`Reconstruction.ReconstructionIff`). What the decoder accepts is stated exactly, and two accepted streams
  with the same descriptor hash are equal or contain a hash collision (`Integrity.DecodeIff`, `Integrity.SameStream`).
- The intervals of a range tile it exactly for the widths in `Ranges.Divisible` (`Ranges.IntervalsTile`).
- A base58 address comes back exactly when no quotient tested by the encoder is a nonzero multiple of 2^64
  (`Base58.AddressRoundTrip`), and the text of one exactly when it is moreover a canonical numeral below 2^200
  (`Base58.TextRoundTripIff`); which texts decode to what is stated exactly (`Base58.DecodedIff`).

## How the source is read

- A locked section is one step; the clock is a parameter that does not run backwards. Each table operation reads it
  once, although the original calls it once or twice while holding the lock. The announcer's wake-up reads it twice, as
  the original does.
- Panics are a `Panicked` outcome or an error value where a caller can cause them by data. That includes a table
  operation on the table's own id: `TableRuns.PanicsIff` says which runs panic, and the other results are about the
  rest.
- A byte is an integer below 256, and the bit operators are written arithmetically: exclusive or bit by bit from the low
  end, complement as 255 minus the byte, bit tests and sets by repeated halving.
- `sort.Slice` is taken as some sorting algorithm: the model sorts by insertion, and `Contacts.SortIsUnique` shows that
  distinct ids leave only one result.
- AES is an arbitrary family of block permutations with inverses, SHA-384 an arbitrary function, the JSON form of a
  descriptor an arbitrary inverse pair on descriptors of stream type "lbryfile" (the rewriting of commas and colons at
  stream/sdBlob.go:75-80 would change other types), hexadecimal and decimal text arbitrary functions, and random IVs an
  arbitrary sequence of blocks. CBC chaining, padding, chunking, numbering, IV use and termination are modelled.
- `big.Int.Int64` of a number beyond 64 bits is read as its low 64 bits, which is what the library returns.
- The doubt in the comment of `RandInRangeP` (dht/bits/bitmap.go:365-366) is unfounded: the result is always in range.
  With equal bounds the loop does not end unless the draw is zero (`Bits.LoopEndsIff`).
- `FailContact` says it removes the contact (dht/routing_table.go:142, 282), but it only counts, as its body explains.

## Model

| member | source | states |
|---|---|---|
| Bits.ValueInjective | dht/bits/bitmap.go:62-66 | equal-length byte strings with the same big-endian value are equal |
| Bits.FromBig | dht/bits/bitmap.go:338-340 | every number below 2^384 has a bitmap with that value |
| Bits.FromBigValue | dht/bits/bitmap.go:62-66 | converting a bitmap to a number and back returns it |
| Bits.CmpIsValueOrder | dht/bits/bitmap.go:74-83 | byte-wise comparison is the order of the integers |
| Bits.EqualsIsEquality | dht/bits/bitmap.go:91-93 | equality by comparison is equality |
| Bits.CloserIsDist | dht/bits/bitmap.go:86-88 | closer means smaller XOR distance as an integer |
| Bits.CloserTotalOrder | dht/bits/bitmap.go:86-88 | closer to a fixed point is a strict total order on ids |
| Bits.DistSymmetric | dht/bits/bitmap.go:104-110 | XOR distance is symmetric |
| Bits.DistZero | dht/bits/bitmap.go:104-110 | XOR distance is zero only between equal ids |
| Bits.DistTriangle | dht/bits/bitmap.go:104-110 | XOR distance obeys the triangle inequality in integer value |
| Bits.DistInjective | dht/bits/bitmap.go:104-110 | for a fixed point the distance determines the other id |
| Bits.XorGetBit | dht/bits/bitmap.go:104-110 | a bit of the exclusive or is set exactly when it differs in the operands |
| Bits.SetBit | dht/bits/bitmap.go:376-384 | writes one bit in place and leaves every other bit alone |
| Bits.AddWithCarry | dht/bits/bitmap.go:139-149 | ripple-carry addition: value of the sum plus carry times 2^384 is the integer sum |
| Bits.Add | dht/bits/bitmap.go:153-159 | panics exactly on overflow and is exact otherwise |
| Bits.NotValue | dht/bits/bitmap.go:131-137 | the complement has value 2^384 - 1 minus the operand |
| Bits.Sub | dht/bits/bitmap.go:163-171 | panics exactly when the result would be negative and is exact otherwise, also for a zero subtrahend |
| Bits.RandInRange | dht/bits/bitmap.go:359-368 | terminates for every draw, never overflows, lands in the range, and which value it lands on |
| Bits.ReduceBelow | dht/bits/bitmap.go:362-364 | the subtraction loop ends at the remainder in 1..diff of a draw above diff |
| Bits.Turn | dht/bits/bitmap.go:362-364 | one turn of the loop, for any difference, also zero |
| Bits.LoopEndsIff | dht/bits/bitmap.go:359-368 | the loop ends exactly when the bounds differ or the draw is zero |
| Ranges.ContainsIsCovers | dht/bits/range.go:63-65 | the byte-wise containment test is containment of integers |
| Ranges.MaxRange | dht/bits/range.go:15-20 | covers 0 to 2^384 - 1 |
| Ranges.IntervalsTile | dht/bits/range.go:25-57 | intervals are contiguous from start to end, and all non-empty exactly for divisible widths |
| Ranges.WideIsDivisible | dht/bits/range.go:25-57 | width at least num squared suffices, and any positive width for two halves |
| Ranges.IntervalSizeNearAverage | dht/bits/range.go:22-24 | every interval size is within num of the quotient |
| Ranges.IntervalPReturns | dht/bits/range.go:25-38 | on a divisible range the call does not panic and returns the n-th piece inside the range |
| Ranges.Halves | dht/bits/range.go:25-57 | halving any range of two or more values gives two adjacent non-empty ranges |
| Contacts.SortIsSorted | dht/contact.go:114-118 | the sorted list is ordered by distance and a permutation |
| Contacts.SortIsUnique | dht/contact.go:114-118 | with distinct ids any sorted permutation is the same list |
| Contacts.KClosestIsUnique | dht/routing_table.go:298-310 | the k closest members of a set are determined |
| Contacts.TakeIsKClosest | dht/routing_table.go:298-310 | the first k of a strictly sorted list are its k closest |
| Buckets.Find | dht/routing_table.go:154-161 | returns a position holding the id, or -1 exactly when no peer has it |
| Buckets.UpdatePeerEffect | dht/routing_table.go:104-140 | an update leaves the bucket alone, or touches one peer, puts it at the back with the evicted one gone, and records the time; it is refused exactly out of range |
| Buckets.UpdatePeerOK | dht/routing_table.go:104-140 | keeps the bucket invariant, and which ids the bucket then holds |
| Buckets.FailContactOK | dht/routing_table.go:143-151 | counting a failure keeps the invariant, the ids and the range |
| Buckets.SplitIsSplit | dht/routing_table.go:170-198 | the recursive split ends in two ranges that tile the old one and divide its peers by range in order, both non-empty |
| Buckets.SplitLeavesRoom | dht/routing_table.go:170-198 | each half of a bucket of two or more peers holds some but not all of them |
| Buckets.SplitDivides | dht/routing_table.go:179-185 | the halves together hold exactly the old peers, each in its range |
| Buckets.SplitOK | dht/routing_table.go:170-198 | both halves satisfy the bucket invariant and have room |
| Table.CoverUnique | dht/routing_table.go:330-341 | no two buckets cover the same distance |
| Table.BucketFor | dht/routing_table.go:330-341 | a covering bucket is always found, so the final panic is unreachable |
| Table.HomeBucket | dht/routing_table.go:330-341 | an id is in the bucket covering its distance or in none, and our own id is never held |
| Table.AllContactsDistinct | dht/routing_table.go:298-302 | no id occurs twice anywhere in the table |
| Table.GetClosestIsKClosest | dht/routing_table.go:298-310 | the result is, nearest first, the limit closest ids of the table |
| Table.PlacedValid | dht/routing_table.go:249-264 | splitting keeps the invariant and the ids |
| Table.UpdateValid | dht/routing_table.go:243-270 | keeps the table invariant |
| Table.FreshValid | dht/routing_table.go:273-280 | keeps the table invariant and the ids |
| Table.FailValid | dht/routing_table.go:283-287 | keeps the table invariant and the ids |
| TableRuns.Run | dht/routing_table.go:206-287 | after every run without a panic, for any id, the ranges tile the whole space, buckets hold at most eight peers in range, and no id twice |
| TableRuns.PanicsIff | dht/routing_table.go:330-333 | a run panics exactly when an operation carries the table's own id, and otherwise ends in that table |
| TableRuns.SplitHalves | dht/routing_table.go:249-264 | what an update's split leaves in the table, and that both halves have room |
| TableRuns.ReachesUnlessSplitDisagrees | dht/routing_table.go:259-263 | an update offers its contact to the covering bucket unless a split puts its id and its distance on different sides |
| TableRuns.ZeroIdReaches | dht/routing_table.go:259-263 | with the all-zero id the two sides always agree |
| TableRuns.UpdateIds | dht/routing_table.go:243-270 | an update adds at most its own id and removes at most one other |
| TableRuns.UpdateInserts | dht/routing_table.go:243-270 | exactly when a contact is in the table after an update |
| Retention.RefusedIsFar | dht/routing_table.go:343-358 | a contact refused without a split has eight kept contacts closer than it |
| Retention.RunRetains | dht/routing_table.go:243-270 | over a whole run every contact ever updated is held or has eight held contacts closer |
| Retention.ClosestEverSeen | dht/routing_table.go:298-310 | the eight closest reported are the eight closest ever seen |
| Retention.ZeroIdClosestEverSeen | dht/routing_table_test.go:17-18 | the same for the all-zero id with no further condition |
| RetentionLimits.SplitCut | dht/routing_table.go:170-198 | the recursive split cuts where halving the range towards the distances first separates them |
| RetentionLimits.NearestSplits | dht/routing_table.go:249-263 | the next update splits the full nearest bucket at that cut and picks the half by the id of its contact |
| RetentionLimits.NearestRefuses | dht/routing_table.go:259-263 | a contact whose distance lies below the cut and whose id does not is refused |
| RetentionLimits.NearestShrinks | dht/routing_table.go:249-264 | when both lie below it, the lower half with the contact becomes the nearest bucket |
| RetentionLimits.LargeIdForgets | dht/routing_table.go:259-263 | for every id of 9 or more some run forgets the closest contact ever seen |
| RetentionLimits.SmallIdForgets | dht/routing_table.go:259-263 | for every id of 1 to 8 some run with two splits forgets one of the eight closest |
| RetentionLimits.RetentionIff | dht/routing_table.go:243-270 | the eight closest ever seen are reported after every run without bad peers exactly when the id is all zeros |
| PeerLoss.LostOnlyByEviction | dht/routing_table.go:117-136 | a peer leaves exactly when a new contact finds its bucket full and it is the first bad peer there |
| PeerLoss.FailuresSinceTouch | dht/routing_table.go:38-57 | after every run each failure count is the number of failures since the last touch, through splits |
| PeerLoss.BucketsStayRecent | dht/routing_table.go:112-137 | after every run each bucket is sorted by last activity |
| PeerLoss.LostPeerWasWorst | dht/routing_table.go:117-136 | a lost peer had three failures since its last touch and was the least recently active bad one of a full bucket |
| TableContacts.AllContactsAre | dht/routing_table.go:93-100 | the whole table reports exactly the contacts of its peers, addresses included |
| TableContacts.ContactsAreAsBrought | dht/routing_table.go:117-136 | after every run each contact held is, with its address, the one whose update last brought its id into the table |
| TableContacts.ReportsWholeContacts | dht/routing_table.go:298-310 | so is every contact the table reports as closest |
| TableContacts.BroughtByUpdate | dht/routing_table.go:243-270 | what brought it in was an update of that contact |
| TableContacts.SplitsIff | dht/routing_table.go:343-358 | a bucket is split exactly when it lacks the contact, is full, and starts at zero or fewer than eight held ids are as close |
| RoutingTable.MoveToBack | dht/routing_table.go:454-463 | the shifting loop moves one peer to the back and keeps the order of the rest |
| RoutingTable.Find | dht/routing_table.go:154-161 | the search loop finds the first position of the id |
| RoutingTable.Bucket.UpdatePeer | dht/routing_table.go:104-140 | the new bucket state and the refusal of an uncovered peer |
| RoutingTable.Bucket.FailContact | dht/routing_table.go:143-151 | one more failure for the peer with that id and nothing else |
| RoutingTable.Bucket.Has | dht/routing_table.go:81-90 | whether some peer has the same address and id |
| RoutingTable.Bucket.Divide | dht/routing_table.go:179-185 | the loop sends each peer to the side of its distance, in order |
| RoutingTable.Bucket.Split | dht/routing_table.go:170-198 | two fresh buckets with the states of the specified split, the old one untouched; terminates |
| RoutingTable.RoutingTable.BucketFor | dht/routing_table.go:330-341 | returns the bucket object covering the distance |
| RoutingTable.RoutingTable.GetClosest | dht/routing_table.go:298-310 | collects, sorts and truncates to the specified list |
| RoutingTable.RoutingTable.ShouldSplit | dht/routing_table.go:343-358 | the decision to split |
| RoutingTable.RoutingTable.ReplaceBucket | dht/routing_table.go:252-257 | the search by range start replaces exactly the split bucket |
| RoutingTable.RoutingTable.Update | dht/routing_table.go:243-270 | the new table state, with the bucket objects still distinct |
| RoutingTable.RoutingTable.Fresh | dht/routing_table.go:273-280 | the new table state |
| RoutingTable.RoutingTable.Fail | dht/routing_table.go:283-287 | the new table state |
| RoutingTable.RoutingTable.Do | dht/routing_table.go:243-287 | each of the three operations is one step of the run, and panics with nothing changed exactly on the table's own id |
| Finder.AppendNewIds | dht/node_finder.go:255-264 | exactly the ids never added before are appended, once each |
| Finder.PopIsClosestUnprobed | dht/node_finder.go:270-281 | a pop takes the closest known contact that was never popped |
| Finder.ListsInEveryRun | dht/node_finder.go:190-299 | in every interleaving popped and waiting ids are disjoint and together all added ones, the shortlist is sorted, and active contacts are sorted, distinct, popped and not us |
| Finder.CyclesInEveryRun | dht/node_finder.go:115-187 | in every interleaving a cycle ranks strictly below the one that launched it, and the shared closest contact is no farther than any captured one |
| Finder.ClosestMovesCloser | dht/node_finder.go:170-175 | from any moment of a run to any later one the shared closest contact only moves closer |
| Finder.ChainsAreFinite | dht/node_finder.go:115-187 | any chain of cycles is bounded by twice the number of distances |
| FinderProbes.DecidesOnAllResults | dht/node_finder.go:130-166 | a deciding cycle launched its three or eight probes and received every result |
| FinderRecords.AnswersAreRecorded | dht/node_finder.go:236-251 | in every run an answer with contacts makes its sender active, adds the whole reply, and reports the nearest contact of it |
| FinderRecords.ActiveAreResponders | dht/node_finder.go:236 | in every run those that answered are the active contacts and those a probe is about to record |
| FinderRecords.ActiveIsRecorded | dht/node_finder.go:284-299 | the active list holds exactly the recorded responders |
| FinderRecords.ContactsAreHeard | dht/node_finder.go:253-267 | in every run each contact in the lists is, with its address, a seed or a member of a reply |
| FinderRecords.InitIs | dht/node_finder.go:80-85 | a lookup fails exactly without seeds, and otherwise starts with all of them and one small cycle |
| FinderRecords.FoundIsLastValue | dht/node_finder.go:225-232 | the value found is that of the last answer with one |
| FinderRecords.FindReturns | dht/node_finder.go:96-111 | the result is that value, or the eight closest recorded responders, nearest first |
| FinderRecords.PoppedAreAsked | dht/node_finder.go:190-211 | in every run exactly the popped contacts other than this node have been asked |
| FinderDecisions.StopsForAReason | dht/node_finder.go:166-187 | in every run a stopped lookup was cancelled, found a value, has eight active contacts, or ran a big cycle in vain |
| FinderDecisions.GoesOnUntilThen | dht/node_finder.go:170-187 | until then every ended cycle has a child: big after a small one in vain, small after a closer contact |
| FinderDecisions.PublishesBest | dht/node_finder.go:149-176 | the contact a cycle publishes is the nearest of all its results, and nearer than what it captured |
| FinderDecisions.DecidesSo | dht/node_finder.go:166-187 | what a cycle decides, by the active contacts, the flags and its results |
| ContactFinder.ContactFinder.AppendNewToShortlist | dht/node_finder.go:255-266 | new contacts are appended and the list sorted |
| ContactFinder.ContactFinder.PopFromShortlist | dht/node_finder.go:270-281 | removes and returns the first contact, if any |
| ContactFinder.ContactFinder.InsertIntoActiveList | dht/node_finder.go:284-299 | inserts before the first strictly farther contact |
| ContactFinder.ContactFinder.OfferClosest | dht/node_finder.go:170-175 | the shared closest contact is replaced only by a closer one |
| ContactFinder.ContactFinder.Closest | dht/node_finder.go:327-338 | the loop returns the first nearest contact |
| ContactFinder.ClosestIsMinimum | dht/node_finder.go:327-338 | it is a member no other member beats, and absent only for an empty list |
| Announce.ChooseTargets | dht/dht_announce.go:174-179 | this node joins a short list or replaces a farther last entry |
| Announce.TargetsAreClosest | dht/dht_announce.go:174-179 | the edited list is the eight closest of the active contacts and this node, without duplicates |
| Announce.StoresAtClosest | dht/dht_announce.go:168-190 | for every lookup that finds no value the stores are the eight closest of the recorded responders and this node, as whole contacts and without duplicates |
| Announcer.StepScheduled | dht/dht_announce.go:91-163 | every operation keeps hashes unique, the order by last announcement, and a wake-up no later than the earliest due time |
| Announcer.ScheduledInEveryRun | dht/dht_announce.go:91-163 | so does every run from the empty start, and a wake-up is enabled exactly when the queue is not empty |
| Announcer.NeverPanics | dht/dht_announce.go:124-126 | no operation enabled in a run panics: an enabled wake-up never meets a nil queue |
| Announcer.SleepsOnlyWhenNothingDue | dht/dht_announce.go:124-163 | a wake-up goes back to sleep, until the earliest due time, exactly when every hash was announced less than the reannounce time ago; otherwise it announces the first |
| Announcer.MembersInEveryRun | dht/dht_announce.go:91-122 | in every run the queue holds exactly the hashes added and not removed since |
| Announcer.NoChangeNoEffect | dht/dht_announce.go:93-95 | an add or remove that changes no membership changes nothing |
| Announcer.WakeChanges | dht/dht_announce.go:104-117 | only a new hash and the removal of the last change when the announcer wakes |
| Announcer.ReannounceSpacing | dht/dht_announce.go:124-163 | a hash not removed in between is not announced again within the reannounce time |
| Announcer.PositionInEveryRun | dht/dht_announce.go:91-163 | where a due hash stands after any operations that neither remove nor announce it |
| Announcer.AnnouncedIff | dht/dht_announce.go:124-163 | a wake-up announces a due hash exactly when the shifts since have left none ahead of it |
| Announcer.DueHashIsAnnounced | dht/dht_announce.go:91-163 | a due hash is announced, unless removed, once the wake-ups outnumber the hashes ahead of it and those added since |
| Announcer.AddsCanStarve | dht/dht_announce.go:97-104 | for every n there is a run with n announcements, none of them of a hash that is due throughout |
| Ring.Node.Link | dht/dht_announce.go:99-101 | the ring library's splice of any two nodes, neighbours included |
| Ring.Announcer.KeysAreHashes | dht/dht_announce.go:48-51 | the map's keys are the ring's hashes and it has as many entries |
| Ring.Announcer.Add | dht/dht_announce.go:92-105 | the ring stays a circular doubly linked list indexed by the map, with a new hash in front |
| Ring.Announcer.Remove | dht/dht_announce.go:106-122 | the same with the hash's node unlinked, no new node, and no wake-up for an empty ring |
| Ring.Announcer.Tick | dht/dht_announce.go:124-163 | the new queue over the same nodes, and which hash is announced, if any |
| Ring.Announcer.Do | dht/dht_announce.go:91-163 | one turn of the loop is one step of the queue |
| Ring.RunAnnouncer | dht/dht_announce.go:91-163 | over every history the linked ring goes through its queues and announces its hashes |
| Blobs.Pkcs7Unpad | stream/blob.go:119-139 | the checking loop computes the specified result or error |
| Blobs.UnpadPad | stream/blob.go:105-139 | unpadding undoes padding exactly when the pad length fits a byte |
| Blobs.PadIs | stream/blob.go:105-117 | padding fills up to the next whole block with at least one byte, each holding their number |
| Blobs.UnpadIff | stream/blob.go:119-139 | exactly which data is unpadded, and to what |
| Blobs.CbcChains | stream/blob.go:66-75 | every block is combined with the cipher text before it, the first with the IV |
| Blobs.CbcRoundTrip | stream/blob.go:66-98 | chained decryption undoes chained encryption |
| Blobs.BlobRoundTrip | stream/blob.go:54-101 | a new blob decrypts to its data, is a positive number of blocks, and is fit to send exactly for data below 2 MiB |
| Blobs.NewBlobIs | stream/blob.go:54-76 | exactly when a blob can be made, and that it is the padded data in blocks chained from the IV |
| Streams.EncodesAll | stream/stream.go:149-197 | the encoder makes one numbered blob and info per chunk with the next IV, then one terminator, and succeeds exactly when every chunk can be encoded and the source ends without a failure |
| Streams.StreamIs | stream/stream.go:173-197 | exactly when the stream succeeds, and that it is the sealed descriptor and the blobs of the chunks |
| Streams.StreamShape | stream/stream.go:149-197 | numbers equal positions, only the last info is empty, lengths and hashes match, blobs are fit to send, and the source length and data are recorded |
| Streams.DecodeStream | stream/stream.go:33-83 | decoding an encoded stream returns the chunks, and fails as too short for an empty source |
| Streams.RoundTripIff | stream/stream.go:33-197 | for any key, IVs and reader, exactly when the decoded bytes are all delivered bytes |
| Streams.KeyedRoundTripIff | stream/stream.go:33-197 | with a usable key and whole-block IVs: exactly when there is a chunk, none is empty, and the source ends without a failure or further bytes |
| Streams.EmptyReadFails | stream/stream.go:149-165 | a reader that returns nothing without an error makes the encoder fail on the empty plaintext |
| Streams.StreamDescriptor | stream/stream.go:127-141 | the descriptor has the given names, key and type, and the preset IVs followed by random ones |
| Integrity.DecodeIff | stream/stream.go:33-83 | exactly which streams are accepted: lengths, numbers, terminator, stream hash, blob hashes and plaintexts; and the file returned |
| Integrity.SameStream | stream/stream.go:33-83 | two accepted streams whose descriptors have the same hash are equal or contain a hash collision |
| Integrity.StreamHashBinds | stream/sdBlob.go:112-140 | regular descriptors have the same stream hash exactly when they agree on all blob infos and on the covered text of names and key, unless a hash collides |
| Integrity.NameAndKeyRunTogether | stream/sdBlob.go:112-119 | the stream hash does not separate the name from the key |
| Reconstruction.PrefixReconstructsIff | stream/stream.go:131-141 | from the first m infos, for any reader without empty chunks, the first m content blobs come out the same exactly when the first m chunks are the same |
| Reconstruction.ReconstructionIff | stream/stream.go:127-141 | re-encoding from the whole descriptor with any reader gives the identical stream exactly when it delivers the same chunks and ends without a failure |
| Reconstruction.FullReadsReconstructIff | stream/stream.go:127-141 | encoding the decoded file from the descriptor blob with full reads returns the stream exactly when the original reads were full |
| Encoder.Encoder.NextIv | stream/stream.go:234-242 | the next preset IV, or a random one |
| Encoder.Encoder.AddBlob | stream/sdBlob.go:89-99 | the descriptor with one more info, or a panic for an empty IV |
| Encoder.Encoder.EnsureTerminated | stream/stream.go:223-231 | adds the terminator once |
| Encoder.Encoder.Next | stream/stream.go:149-170 | the new encoder state and the blob or error |
| Encoder.Encoder.Stream | stream/stream.go:173-197 | the loop returns the specified stream and seals the descriptor |
| Encoder.Decode | stream/stream.go:33-83 | the checks and the loop return the specified file or error |
| Base58.CharactersIncrease | schema/address/base58/character.go:8-12 | characters are in the order of their digits |
| Base58.AlphabetIs | schema/address/base58/character.go:8-12 | the characters are exactly the ASCII digits and letters without 0, I, O and l |
| Base58.CharacterIndex | schema/address/base58/character.go:14-21 | the search returns the digit of a character or an error |
| Base58.SearchFinds | schema/address/base58/character.go:8-21 | it finds exactly the digit whose character is given |
| Base58.EncodeBase58 | schema/address/base58/encode.go:7-32 | panics exactly for lengths other than 0 and 25, and otherwise writes the digits of the value |
| Base58.EncodeLoop | schema/address/base58/encode.go:16-30 | the division loop writes the digits until the low 64 bits of the quotient are zero |
| Base58.DecodeLoop | schema/address/base58/decode.go:12-21 | the sum of digit times power is the value of the text, or the error of an unknown character |
| Base58.BytesLoop | schema/address/base58/decode.go:22-31 | the low bytes of the value and what is left over |
| Base58.DecodeBase58 | schema/address/base58/decode.go:8-39 | the decoded bytes, or the error for a character or a leftover with nonzero low 64 bits |
| Base58.DecodedIff | schema/address/base58/decode.go:8-39 | a text decodes exactly to the bytes its digits stand for, up to a multiple of 2^64 times what the size holds |
| Base58.TooLargeFails | schema/address/base58/decode.go:32-34 | a number that needs up to 64 bits more than the size has is an error |
| Base58.UnknownCharacterIff | schema/address/base58/decode.go:16-19 | the character error is reported exactly for a character outside the alphabet |
| Base58.DigitsValue | schema/address/base58/encode.go:16-30 | the digits stand for the number exactly when the loop does not stop early, and for less otherwise |
| Base58.AddressRoundTrip | schema/address/base58/encode.go:7-32 | decoding an encoded address returns it exactly when no tested quotient is a nonzero multiple of 2^64 |
| Base58.TextRoundTripIff | schema/address/base58/decode.go:8-39 | a text that decodes to an address is written back exactly when it is the canonical numeral of a number below 2^200 none of whose quotients looks like zero |
| Base58.CanonicalUnique | schema/address/base58/encode.go:16-30 | a number has only one numeral without leading zeros |
| Base58.FalseZeroAddress | schema/address/base58/encode.go:26-28 | the address of value 58 times 2^64 is encoded as one zero digit and does not come back |

## Left out

- UDP transport, packet handling, bencode messages, the token manager and cache, the blob store and the bootstrap node: I/O, or only easy invariants.
- `bits.Closest`: it keeps the address of the loop variable and does not return the closest element.
- `And`, `Or`, `Get`, `Set`, `PrefixLen`, `Prefix`, `Suffix` and the text forms of bitmaps: they would only add easy members.
- Refreshing the routing table and its JSON form: random ids, timers and serialization.
- Slice aliasing in the lookup: the result of `Find` is a snapshot here, while in the program a late probe may still shift the underlying array that the caller reads.
- The reads in `isSearchFinished` and the final read of the result are one step each; cancellation of a probe is a reply of nothing.
- Whether a lookup ends in bounded time: timeouts and fairness are not modelled, only that no chain of cycles is infinite.
- Rate limiting, stop groups, notifications and the maintenance warning of the announcer.
- The random source, SHA-384, AES and the JSON library themselves; the size hint of the encoder, which only affects allocation.
- Bits.RandInRange: leaves out equal bounds with a nonzero draw, where the loop does not end; `Bits.LoopEndsIff` covers that case.
- Bits.ReduceBelow: leaves out a zero difference with a nonzero draw, for the same reason.
- TableRuns.Run: one clock reading per operation; runs that panic are the subject of `TableRuns.PanicsIff`.
- RoutingTable.RoutingTable.Update: it, `Fresh` and `Fail` take another id than the table's own as a precondition; `RoutingTable.RoutingTable.Do` is without it.
- url, schema/stake, schema/keys, lbrycrd, claim, blobex and extras: regular expressions, protobuf, RPC wrappers and thin helpers.
