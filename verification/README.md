# A Dafny model of libp2r2p's durable queues, recovery and codecs

libp2r2p keeps messages in queues that survive crashes and several tabs, cuts them into
chunks, reads history from relays that answer in bounded pages, recovers gaps with a bounded
number of attempts, and carries bytes in texts of its own. This project models that code, one
module per component, and proves what it promises. Objects whose methods change their fields
are classes, loops are loops, and each is proved against functions on values whose properties
are lemmas.

## The main results

- `WebStorageQueue` (over the values of `WebStorage`): a queue over a store without
  transactions, under every eviction policy. The model logs the store after every single-key
  write. `Queue.RunWithCrashes` cuts an operation anywhere and then any number of recoveries
  anywhere: what is left is what an uninterrupted recovery makes of the items from before or
  from after the whole operation, or from after a step of its eviction. Opening the queue on a
  store must give the items `Meaning` reads off rows, bounds, journal and limit; a row stays
  when it and all rows beyond it fit (`Kept`).
- `IdbQueue`, `Leases`, `Coalescing`: the transactional queue. Accounting and bounds hold after
  every call, evicting drops as few rows as the target asks, every call fails exactly when the
  source refuses it, a reservation hands out the first free record for exactly its lease
  (`GrantLasts`), at most one acknowledgement per write succeeds in any interleaving
  (`Queue.Run`, `Queue.OneAckPerWrite`, `StaleTokenRefused`, `AckedNeverReturns`), and the order
  of each coalescing key survives (`Queue.RunCoalescing`).
- `Fragments`, `ReceivedChunks`: rows cut into chunks and drained from chunks in any order come
  out once each and in order, as far as the chunks have come without a gap (`Transfer`), under a byte budget that whole groups pay for.
- `Ranges`, `History`: interval sets with a unique normal form; bisecting reads that process
  every event of a covered second once, in order, in at most 6W - 1 queries for W seconds, each
  query being for the interval that the answers before it have left (`TrailHolds`); a relay that
  answers truthfully is read to the end exactly when no second holds 256 events
  (`TruthfulReads`).
- `Recovery`, `RecoveryRounds`: gap recovery. What a record counts as read is exactly what
  relays reported (`ReadIsReported`); a completed range is read, claimed or asked second by
  second (`CompletedIsAccounted`); a pending second that is gone after a call lay in a range that
  was too old or is accounted for so (`GoneIsAccounted`), its claims being what the priority lane
  pursued (`GoneIsPursued`); relays are given up after at most
  ten passes.
- `PublicationRace`, `Gates`: two lanes that share coverage, as a state machine over the stretches
  between two awaits, safe in every interleaving and left at rest only when settled, without
  anybody aborting it, given up only when it has run dry (`RaceIsSafe`),
  and every relay of every batch is tried while nothing gets in the way (`BatchesAreTried`); a first-in first-out semaphore, and relay gates that come
  and go.
- `Base93` (with `Bits` and `Pieces`), `BaseCodecs` (with `Digits`), `ChunkSize`, `Serialize`: round
  trips and exact images, an exact search threshold, and chunked text that equals the plain text.

`Capacity` is the limit both queues share; `Positions`, `Totals` and `Arithmetic` hold what the
modules share.

## What turned out differently

- An item that an evicting Web Storage queue accepts may be gone before anybody can read it: a
  write only has to fit the limit, but the next call opens the queue and evicts down to the
  headroom (web-storage-queue/index.js:245-248). `AcceptedLasts`: the item is still there if and
  only if nothing is evicted or its size leaves the headroom free; `AcceptedThenLost` gives an
  input.
- removeAt of the Web Storage queue does not remove an item that a hole follows: moveItem
  returns early and the row stays (web-storage-queue/index.js:321-325). `RemoveAtExact` gives the
  exact condition, `RemoveAtBeforeHoleKeepsItem` an input. Such a hole is left by a setAt that
  evicts around the slot it protects (:177-211, :490-501), when other code deletes rows, and on
  purpose by removeWhere (:612-633), the queue's own main source of holes. The call is still
  crash-safe.
- The coalescing comparator has cycles when some items of a key carry a sequence and others do
  not. `TransitiveExactly` says for which patterns: exactly those with two carriers among three.
  coalesceBy can therefore break the order of a key, and so it can once a lease has lapsed
  (`MixedBreaksOrder`, `LapseBreaksOrder`). `CallKeepsOrderExactly` says when it does not: without
  eviction, a call whose item fits keeps the order if and only if the item is turned down, or an
  older waiting one is kept, or every record of the key that is being processed is below the item
  and before all waiting ones. With eviction that is still enough.
- serializeEventChunks writes the public key without escaping. Without validation its text equals
  the plain one exactly when the key is plain, unit by unit: none below 32, no quote, no backslash,
  no lone surrogate (`SerializeEventChunks`, `PlainExactly`). `QuoteAsKey` is a key for which it
  does not.
- The start-up cleanup of received chunks counts expired groups against older live ones that
  it meets first, so a live group can go although it would fit afterwards. This happens only when
  a database filled under a larger budget is opened under a smaller one: within the budget exactly
  the live groups stay (`LiveStay`). `Cleanup` says exactly which groups stay otherwise, and
  `ExpiredBytesCount` gives a database.
- A range is completed without any seeder when none is available (private-messenger/index.js:3162);
  a priority claim, in contrast, needs at least one (:3450). `UnattendedExactly`: a completed range
  holds a second that nobody read, claimed or was asked for if and only if there was no seeder and
  some second was uncovered. `CompletedUnread` gives a visit.
- Some branches are unreachable, and the model asserts it: the second too-large check of a put
  (private-channel/services/received-chunks.js:337-341), the delivery of a carry after the last
  chunk (:510-519), an idle gate after an abort (helpers/abortable-semaphore.js:32), and the
  capacity check behind an eviction (web-storage-queue/index.js:241).

## Model

| member | source | states |
|---|---|---|
| Capacity.TenthIsQuotient | idb-queue/index.js:325-330 | the headroom is a tenth of the limit, rounded down |
| Capacity.TargetExactly | web-storage-queue/index.js:72-81 | a write leaves a tenth of the limit free below it, at least one byte and at most 65536, unless it needs more itself |
| Capacity.EvictsExactly | web-storage-queue/index.js:62-70 | the end opposite to the new item makes room, unless the policy names an end |
| Capacity.RoomFor | web-storage-queue/index.js:72-81 | a write stays within the limit, and either leaves the headroom free or needs the whole queue emptied |
| WebStorage.MoveResumes | web-storage-queue/index.js:321-326 | a row move cut after its first write, or done again, ends in the same rows |
| WebStorage.InsertedRow | web-storage-queue/index.js:368-380 | position by position, what an insert journal makes of the rows when it is played to its end from any cursor |
| WebStorage.InsertedMeaning | web-storage-queue/index.js:503-533 | a played insert puts the item exactly before the rows from the slot on, and charges its bytes |
| WebStorage.RemovedRow | web-storage-queue/index.js:386-398 | position by position, what a remove journal makes of the rows, when its first move has something to copy |
| WebStorage.RemovedMeaning | web-storage-queue/index.js:386-402 | a played removal drops exactly the row at the slot, or nothing when the slot is an occupied row before a hole |
| WebStorage.RemovedBytes | web-storage-queue/index.js:386-402 | a played removal charges no byte more than before |
| WebStorage.RemoveAtExact | web-storage-queue/index.js:549-572 | removeAt takes effect if and only if its slot is not an item followed by a hole |
| WebStorage.RemoveAtBeforeHoleKeepsItem | web-storage-queue/index.js:321-326 | a concrete input on which removeAt removes nothing |
| WebStorage.MeaningWithin | web-storage-queue/index.js:250-259 | the items and bytes of a recoverable store do not depend on which bounds around its rows are used |
| WebStorage.SameFinalRows | web-storage-queue/index.js:356-366 | two recoverable stores whose journals end in the same rows hold the same items |
| WebStorage.LeanMeaning | web-storage-queue/index.js:245-248 | a store that leaves the headroom free means exactly what its rows hold |
| WebStorage.CutKept | web-storage-queue/index.js:213-221 | evicting half way and then again leaves what evicting at once leaves |
| WebStorage.KeptIsCut | web-storage-queue/index.js:213-221 | what eviction leaves is what lies beyond some cut |
| WebStorage.SparedItems | web-storage-queue/index.js:213-243 | the items that are left are the last ones or the first ones of those before |
| WebStorage.AcceptedMeaning | web-storage-queue/index.js:233-248 | what reopening makes of a store to which an item was added: all of it, or nothing when the item does not leave the headroom free |
| WebStorage.AcceptedLasts | web-storage-queue/index.js:245-248 | an item that push or unshift accepted is still there when the queue is next opened if and only if nothing is evicted or its size leaves the headroom free |
| WebStorage.AcceptedThenLost | web-storage-queue/index.js:245-248 | a concrete item that is accepted and then dropped unread |
| WebStorage.AppendedMeaning | web-storage-queue/index.js:409-430 | a row written at the reserved tail adds one item at the end and its size to the usage |
| WebStorage.PrependedMeaning | web-storage-queue/index.js:432-453 | the same at the reserved head |
| WebStorage.FirstRow | web-storage-queue/index.js:455-470 | deleting the head row takes the first item, or nothing when the row is a hole or unreadable |
| WebStorage.LastRow | web-storage-queue/index.js:472-488 | the same for the tail row |
| WebStorage.MovePlays | web-storage-queue/index.js:374-379 | every write of a turn of a journal leaves a store that ends in the same rows |
| WebStorage.EndsStay | web-storage-queue/index.js:186-189 | after an eviction both ends are occupied or reserved again |
| WebStorage.EvictingMore | web-storage-queue/index.js:235-240 | one more eviction moves the cut in by one row, and no row that fits goes |
| WebStorage.EvictingDone | web-storage-queue/index.js:235-240 | when the target is met, exactly those rows are left that fit together with all rows beyond them |
| WebStorage.RecoveryPassed | web-storage-queue/index.js:245-248 | a recovery that is cut while it evicts is done again to the same end |
| WebStorage.OperationPassed | web-storage-queue/index.js:223-243 | an operation that is cut while it evicts leaves the items from before without some that were to go |
| WebStorage.GrownMeaning | web-storage-queue/index.js:421-427 | what the store means once the reserved slot has its row |
| WebStorage.SpansItems | web-storage-queue/index.js:266-268 | the length in positions is at least the number of items, and equal to it without holes and unreadable rows |
| WebStorage.GoneByPolicy | web-storage-queue/index.js:62-70 | push under the default policy leaves the last of the old items before the new one, unshift the first of them behind it; a policy that names an end takes from that end; the reject policy keeps all |
| WebStorage.OpenedByPolicy | web-storage-queue/index.js:245-248 | opening a queue takes the first items away, the last ones only when the policy names the tail |
| WebStorage.PlacedByPolicy | web-storage-queue/index.js:66-68 | an insertion in the first half takes the last items away, one in the second half the first |
| WebStorage.InsertedWhole | web-storage-queue/index.js:503-533 | into rows without holes, when nothing has to go, an item goes exactly where the index says |
| WebStorageQueue.SumBytes | web-storage-queue/index.js:139-145 | the loop over the rows computes the sum of the stored sizes |
| WebStorageQueue.Storage.constructor | web-storage-queue/index.js:250-258 | an empty store, which means no items |
| WebStorageQueue.Storage.Begin | web-storage-queue/index.js:250-258 | opens an operation: a crash may leave the present items only |
| WebStorageQueue.Storage.Aim | web-storage-queue/index.js:261-264 | names one more item sequence that later writes may amount to |
| WebStorageQueue.Storage.Crash | web-storage-queue/index.js:250-252 | the store becomes any one of those that existed between two single-key writes |
| WebStorageQueue.Storage.Write | web-storage-queue/index.js:261-264 | one single-key write keeps every store of the trail recoverable to an allowed item sequence |
| WebStorageQueue.Storage.WriteState | web-storage-queue/index.js:261-264 | an empty queue drops its state key unless told to keep it |
| WebStorageQueue.Storage.SetRow | web-storage-queue/index.js:321-325 | one row write, harmless when the resulting store is |
| WebStorageQueue.Storage.RemoveRow | web-storage-queue/index.js:321-325 | one row removal, harmless when the resulting store is |
| WebStorageQueue.Storage.SetJournal | web-storage-queue/index.js:341-343 | one journal write, harmless when the resulting store is |
| WebStorageQueue.Storage.ClearJournal | web-storage-queue/index.js:345-347 | one journal removal, harmless when the resulting store is |
| WebStorageQueue.Queue.RecoverHead | web-storage-queue/index.js:97-108 | finds the occupied head around left-behind rows without changing what the queue holds |
| WebStorageQueue.Queue.RecoverTail | web-storage-queue/index.js:110-121 | the same for the tail; afterwards both ends are occupied |
| WebStorageQueue.Queue.RecoverUsage | web-storage-queue/index.js:139-149 | the byte count becomes the sum of the stored sizes |
| WebStorageQueue.Queue.WriteQuietState | web-storage-queue/index.js:261-264 | writing bounds while no journal is open never changes the items |
| WebStorageQueue.Queue.WriteItem | web-storage-queue/index.js:303-319 | without eviction: stores an item at a reserved slot or refuses it, too large or over the limit, each single write being crash-safe |
| WebStorageQueue.Queue.MoveItem | web-storage-queue/index.js:321-326 | both writes of a move leave a store whose journal ends in the same rows |
| WebStorageQueue.Queue.MoveOne | web-storage-queue/index.js:391-396 | a move and the new cursor, cut anywhere, resume to the same rows |
| WebStorageQueue.Queue.FinishInsert | web-storage-queue/index.js:368-384 | plays an insert journal from any cursor, crash-safe at every write |
| WebStorageQueue.Queue.FinishRemove | web-storage-queue/index.js:386-402 | plays a remove journal from any cursor, crash-safe at every write |
| WebStorageQueue.Queue.Trim | web-storage-queue/index.js:157-175 | one end passes over holes, not over rows or the reserved slot |
| WebStorageQueue.Queue.FindEnd | web-storage-queue/index.js:181-185 | the scan finds the outermost row, if there is any |
| WebStorageQueue.Queue.EvictOne | web-storage-queue/index.js:177-211 | deletes exactly the outermost row of an end, never the reserved slot; its two writes are crash-safe |
| WebStorageQueue.Queue.DeleteEnd | web-storage-queue/index.js:186-190 | the row goes and the state follows, with the byte count corrected |
| WebStorageQueue.Queue.EvictTurn | web-storage-queue/index.js:235-240 | one turn of the loop |
| WebStorageQueue.Queue.EvictWhile | web-storage-queue/index.js:213-240 | evicts until the target is met: a row stays if and only if it and all rows beyond it fit |
| WebStorageQueue.Queue.EvictToFit | web-storage-queue/index.js:223-243 | refuses exactly what cannot fit, otherwise leaves exactly the rows that fit beside the write; a cut leaves a step of that |
| WebStorageQueue.Queue.RecoverByteLimit | web-storage-queue/index.js:245-248 | evicts down to the headroom, and amounts to the same wherever it is cut |
| WebStorageQueue.Queue.ReadState | web-storage-queue/index.js:250-259 | recovery repairs bounds, usage and journal, makes the rows fit, and gives the items of every recoverable store |
| WebStorageQueue.Queue.Reserve | web-storage-queue/index.js:421-423 | the bounds grow by a slot without changing the items |
| WebStorageQueue.Queue.WriteReserved | web-storage-queue/index.js:424-429 | the reserved slot gets its row, within the limit |
| WebStorageQueue.Queue.AddAcross | web-storage-queue/index.js:409-430 | push or unshift when rows go from the other end, after the slot is reserved |
| WebStorageQueue.Queue.AddAlong | web-storage-queue/index.js:415-430 | the same when rows go from the end of the new item, before its slot is reserved |
| WebStorageQueue.Queue.Add | web-storage-queue/index.js:409-453 | push and unshift in one, with the direction of the eviction chosen |
| WebStorageQueue.Queue.Push | web-storage-queue/index.js:409-430 | under every policy: refused exactly when it cannot fit, otherwise the rows that fit beside it and the item behind them, with the length in positions returned; a cut leaves the items before, after, or after a step of the eviction |
| WebStorageQueue.Queue.Unshift | web-storage-queue/index.js:432-453 | the same with the item before them |
| WebStorageQueue.Queue.DropRow | web-storage-queue/index.js:460-465 | deletes a row that the stored bounds already exclude |
| WebStorageQueue.Queue.DropFirst | web-storage-queue/index.js:457-466 | one turn of shift takes the first item, or passes a row without one |
| WebStorageQueue.Queue.DropLast | web-storage-queue/index.js:474-484 | one turn of pop |
| WebStorageQueue.Queue.Shift | web-storage-queue/index.js:455-470 | returns and removes the first readable item, past holes and unreadable rows, crash-safe; a queue emptied by it leaves nothing in the storage area |
| WebStorageQueue.Queue.Pop | web-storage-queue/index.js:472-488 | the same for the last readable item |
| WebStorageQueue.Queue.JournalInsert | web-storage-queue/index.js:518-530 | reserving the tail, opening the journal and playing it inserts the item |
| WebStorageQueue.Queue.JournalRemove | web-storage-queue/index.js:556-568 | giving up the tail, opening the journal and playing it gives the rows of a played removal |
| WebStorageQueue.Queue.PlaceAt | web-storage-queue/index.js:508-533 | evicts for the item, then inserts it at the index, or at the end when fewer rows are left |
| WebStorageQueue.Queue.InsertAt | web-storage-queue/index.js:503-533 | under every policy: errors exactly on a bad index or an item that cannot fit; otherwise the item stands at the returned position, the index or as many as are left, among the rows that are left; crash-safe |
| WebStorageQueue.Queue.RemoveSlot | web-storage-queue/index.js:554-571 | removes the row of a slot by its journal and returns what was in it |
| WebStorageQueue.Queue.RemoveAt | web-storage-queue/index.js:549-572 | returns the item at the index and removes it unless a hole follows, crash-safe |
| WebStorageQueue.Queue.Run | web-storage-queue/index.js:409-572 | whatever write of an operation comes last, the store means the items before it, after it, or after a step of its eviction |
| WebStorageQueue.Queue.RunWithCrashes | web-storage-queue/index.js:97-121 | an operation cut anywhere, any number of recoveries cut anywhere, and a last recovery: the items are those from before or after the whole operation, or from after a step of its eviction |
| IdbQueue.RowsBytes | idb-queue/index.js:404-414 | the sum over positions is the sum over the rows in order |
| IdbQueue.StoredAtEnd | idb-queue/index.js:444-462 | the cursor finds the outermost stored record that is not excluded |
| IdbQueue.TrimBounds | idb-queue/index.js:464-484 | the tightest bounds around records and protected slots; an empty queue starts over at zero |
| IdbQueue.EvictOne | idb-queue/index.js:486-495 | removes exactly the outermost unprotected record of an end and its charge |
| IdbQueue.CutMore | idb-queue/index.js:507-510 | one more eviction from the same end keeps what is left an end piece with no record gone in vain |
| IdbQueue.EvictedDrop | idb-queue/index.js:507-510 | evicting rows one by one from an end, each while the rest is over the room, leaves the rows but the first of that end, and no fewer would do |
| IdbQueue.EvictWhile | idb-queue/index.js:507-510 | evicts from one end until the target is met or nothing evictable is left, no record too many |
| IdbQueue.EvictToFit | idb-queue/index.js:497-512 | refuses what cannot fit, otherwise drops the fewest rows that meet the target, around a spared slot too, and fits the limit |
| IdbQueue.StoredAtEdge | idb-queue/index.js:540-546 | storing just outside the bounds adds the row at that end and its charge |
| IdbQueue.AddAtEnd | idb-queue/index.js:534-562 | push and unshift leave the longest run of the old rows that fits the target, and the item at its end |
| IdbQueue.StoreAtEnd | idb-queue/index.js:540-546 | the new row is the first or last one |
| IdbQueue.TakeFromEnd | idb-queue/index.js:651-681 | shift and pop skip holes and take exactly the first or last row, although the bounds may then rest on a hole |
| IdbQueue.PutItem | idb-queue/index.js:521-532 | replaces one slot; growth evicts the fewest records from one end, never that slot; keeps the accounting and the limit, and fails exactly when the item or its growth cannot fit |
| IdbQueue.ShiftUp | idb-queue/index.js:581-586 | moving rows up, last first, shifts them all by one |
| IdbQueue.InsertAtPosition | idb-queue/index.js:564-592 | errors exactly when due; otherwise the fewest rows go first, the index counts from the head that is left, and the rows keep their order around the new one |
| IdbQueue.InsertedRows | idb-queue/index.js:581-590 | the rows after an insertion are the rows before the slot, the new one and the rest |
| IdbQueue.InsertedBytes | idb-queue/index.js:581-590 | and their total grows by the new size |
| IdbQueue.ShiftDown | idb-queue/index.js:600-606 | moving rows down, first first, closes the gap |
| IdbQueue.RemoveAtPosition | idb-queue/index.js:594-613 | drops exactly the row at the index, holes or not |
| IdbQueue.Matching | idb-queue/index.js:804 | the index lookup returns the positions of the key in order |
| IdbQueue.Waiting | idb-queue/index.js:805-811 | the pending ones are those that no current lease holds, in order |
| IdbQueue.LatestOf | idb-queue/index.js:813-815 | the reduce over the matches |
| IdbQueue.LatestIsLast | idb-queue/index.js:812-815 | in an ordered queue the reduce finds the last match |
| IdbQueue.PutBy | idb-queue/index.js:765-777 | fails exactly when the item does not fit where it goes, refuses exactly a new key it may not add, and otherwise replaces the record of the key in place or appends |
| IdbQueue.UniqueAdded | idb-queue/index.js:756-777 | an upsert keeps a unique key unique |
| IdbQueue.Coalesce | idb-queue/index.js:803-850 | ignored exactly when the comparison with the latest match turns the item down, or the oldest is to be kept and one waits; otherwise it fails exactly when the item does not fit where it goes, and else only leased records of the key surround the new one, which took the first waiting place or the last |
| IdbQueue.TurnedDownExactly | idb-queue/index.js:812-819 | in an ordered queue with comparable orders an item is turned down if and only if some stored item of its key is at or above it |
| IdbQueue.TurnedDownByLast | idb-queue/index.js:812-819 | in an ordered queue the last record of the key alone decides whether an item is turned down, however the orders are numbered |
| IdbQueue.StoredInOrder | idb-queue/index.js:825-849 | under every policy, a stored item keeps the order if and only if the records left of its key are below it and before it |
| IdbQueue.AboveIsInOrder | idb-queue/index.js:804-819 | before any lease has lapsed an item above all stored ones of its key is in order |
| IdbQueue.CoalescedOrderExactly | idb-queue/index.js:825-849 | under every policy an item in order keeps the order of its key; without eviction the order is kept if and only if every record of the key being processed is below the item and before all waiting ones |
| IdbQueue.CallKeepsOrderExactly | idb-queue/index.js:803-850 | the same for a whole call, seen before it: the item is turned down, an older one waits and is kept, or the item is in order |
| IdbQueue.CoalescedKeepsOrder | idb-queue/index.js:825-849 | before any lease has lapsed an item that compares with the stored ones keeps the order of every key |
| IdbQueue.WaitingIsLast | idb-queue/index.js:804-811 | in an ordered queue the unreserved record of a key is its last one, so there is at most one |
| IdbQueue.MixedBreaksOrder | private-messenger/index.js:3979-3996 | a concrete call: an unnumbered order above the latest of two numbered ones and below the first is appended, and the order is broken |
| IdbQueue.LapseBreaksOrder | idb-queue/index.js:804-841 | a concrete call: the new item takes the place of a lapsed record before an older one being processed, and the order is broken |
| IdbQueue.AppendPlan | idb-queue/index.js:825-832 | without waiting records and eviction, an item that is not turned down and fits is appended |
| IdbQueue.ReplacePlan | idb-queue/index.js:834-849 | the only waiting record is replaced by an item of its size |
| IdbQueue.ClearOthers | idb-queue/index.js:834-839 | exactly the waiting records but the first are deleted, with their bytes |
| IdbQueue.ReplacePending | idb-queue/index.js:834-849 | the first waiting record is replaced and the other waiting ones go; fails exactly when the item does not fit in that place |
| IdbQueue.ReserveFirst | idb-queue/index.js:898-911 | leases the first record in position order that no current lease holds |
| IdbQueue.SupersededMeansOutdone | idb-queue/index.js:929-945 | in an ordered queue, the records a nack deletes are exactly those that some stored order of the key outdoes |
| IdbQueue.Settle | idb-queue/index.js:920-956 | acts if and only if its own token still holds the record; what ack, nack and renew leave |
| Coalescing.Antisymmetric | private-messenger/index.js:3979-3996 | the comparator is antisymmetric and irreflexive |
| Coalescing.LessExactly | private-messenger/index.js:3979-3996 | the later order is the one a session numbered higher, else the one of the later event, outer event and id |
| Coalescing.TransitiveExactly | private-messenger/index.js:3979-3996 | for a given pattern of who carries a sequence, three orders compare transitively if and only if the number of carriers is not two |
| Coalescing.CycleOf | private-messenger/index.js:3979-3996 | a cycle of three for each pattern with two carriers |
| Leases.StaleTokenRefused | idb-queue/index.js:920-922 | a token that no record carries any more is refused for good, also after positions restart |
| Leases.AckedNeverReturns | idb-queue/index.js:923-926 | an acknowledged write is never stored again |
| Leases.ComesStep | idb-queue/index.js:564-613 | moving records, dropping some and writing one keeps leases on their writes |
| Leases.ReleaseStep | idb-queue/index.js:928-953 | releasing or renewing changes no other lease |
| Leases.GrantFirst | idb-queue/index.js:898-911 | the granted record is the first free one, is now held under the new token until leaseMs from now, and nothing else changed |
| Leases.GrantLasts | idb-queue/index.js:898-922 | a grant lasts exactly as long as it says: until then its token holds the record and nobody else is given it, from then on it is free |
| Leases.GrantsAscend | idb-queue/index.js:898-911 | two grants at one moment go from the lowest position up |
| Leases.SettleRecord | idb-queue/index.js:917-956 | the record goes, is free again or is leased longer as the action says, and the ledger notes an acknowledgement |
| Leases.Queue.constructor | idb-queue/index.js:641-644 | an empty queue |
| Leases.Queue.OneAckPerWrite | idb-queue/index.js:917-963 | at most one handle acknowledges a stored write successfully |
| Leases.Queue.Add | idb-queue/index.js:641-649 | push and unshift as a whole transaction: errors leave everything, success leaves the longest fitting run and the item, and returns the length in positions |
| Leases.Queue.Take | idb-queue/index.js:651-681 | shift and pop return and remove the end row; an emptied queue starts over at zero |
| Leases.Queue.SetAt | idb-queue/index.js:683-695 | succeeds exactly when index and sizes allow; the new record has no lease, and only the evictions its growth needs are made |
| Leases.Queue.InsertAt | idb-queue/index.js:697-700 | errors exactly when due; under an evicting policy the fewest rows go and the returned index is the one that is left |
| Leases.Queue.RemoveAt | idb-queue/index.js:718-720 | removes the row at the index |
| Leases.Queue.PutBy | idb-queue/index.js:756-781 | an upsert as a transaction: errors, refusal and effect as decided, all or nothing; a unique key stays unique |
| Leases.Queue.CoalesceBy | idb-queue/index.js:783-851 | the decided plan as a transaction: the error, the ignored item or the stored one, all or nothing; the limit stays kept |
| Leases.Queue.CoalesceInOrder | idb-queue/index.js:783-851 | a call that leaves its item alone or finds it in order keeps the order of every key, under every policy |
| Leases.Queue.Reserve | idb-queue/index.js:886-912 | hands out the first free record under a fresh token for leaseMs from now, or nothing when all are held |
| Leases.Queue.ReserveThenAck | idb-queue/index.js:886-926 | an acknowledgement succeeds exactly before its lease ends, and then exactly the reserved record is gone |
| Leases.Queue.ReserveTwice | idb-queue/index.js:886-912 | while a lease lasts another reservation gets another record, at the same moment a later one |
| Leases.Queue.UpdateTwice | idb-queue/index.js:917-963 | a handle that is settled does nothing any more and answers as before, or false to another action; after a renewal it acts again |
| Leases.Queue.Update | idb-queue/index.js:912-967 | an unsettled handle acts exactly when its own lease still holds its record, and the record then goes, is free again or is leased longer; a settled one repeats its answer |
| Leases.Queue.Run | idb-queue/index.js:641-967 | any interleaving of calls by any consumers keeps accounting, leases and ledger; the byte limit, once kept, stays kept |
| Leases.Queue.RunCoalescing | idb-queue/index.js:783-968 | runs of coalesceBy, reserve and handle calls keep every key in order as long as each coalescing call is one that keeps it, which without eviction is exactly so for a call whose item fits |
| Fragments.LinesStream | private-channel/services/received-chunks.js:485-502 | taking lines piece by piece with a carry is taking them from the whole text |
| Fragments.LinesOfFramed | private-channel/services/received-chunks.js:485-502 | the lines of the framed rows are the rows, and nothing is left over |
| Fragments.LinesPrefix | private-channel/services/received-chunks.js:480-507 | the lines of some chunks are a prefix of the lines of all |
| Fragments.PreparedChunkCount | private-channel/helpers/chunks.js:237-241 | the announced count, from row lengths alone, is the number of chunks cut |
| Fragments.AppendRow | private-channel/helpers/chunks.js:245-256 | filling chunks with one framed row keeps the text and the full chunk size |
| Fragments.PreparedChunks | private-channel/helpers/chunks.js:243-258 | the chunks concatenate to the framed rows, all but the last full, none empty, as many as announced |
| Fragments.Group.constructor | private-channel/services/received-chunks.js:296-316 | an empty group |
| Fragments.Group.Put | private-channel/services/received-chunks.js:318-348 | a chunk is stored once, repeats change nothing |
| Fragments.Group.DeliverLines | private-channel/services/received-chunks.js:485-505 | hands over the complete lines of carry and chunk under consecutive row indexes, stopping where asked |
| Fragments.Group.DrainChunk | private-channel/services/received-chunks.js:480-507 | one turn of the drain delivers exactly what the next chunk completes |
| Fragments.Group.Drain | private-channel/services/received-chunks.js:474-528 | delivers a growing prefix of the rows up to the first missing chunk, completes exactly when every chunk is there, and then every row was delivered once in order |
| Fragments.NextChunk | private-channel/services/received-chunks.js:485-505 | the lines after one more chunk are the lines so far and those of carry and chunk |
| Fragments.LeadingChunks | private-channel/helpers/chunks.js:243-258 | full chunks make up the text from its beginning |
| Fragments.LinesOfLeading | private-channel/services/received-chunks.js:485-505 | the lines of the beginning of framed rows are the rows that lie in it as a whole |
| Fragments.Transfer | private-channel/services/received-chunks.js:474-528 | end to end, any arrival order with repeats and drains in between: delivered are exactly the rows that lie as a whole in the unbroken run of chunks from the first |
| ReceivedChunks.UsedIsChunkTotal | private-channel/services/received-chunks.js:343-347 | the usage is the sum of all stored chunk lengths |
| ReceivedChunks.DeleteCharged | private-channel/services/received-chunks.js:236-243 | deleting a group takes its chunks and its charge and nothing else |
| ReceivedChunks.OldestGroups | private-channel/services/received-chunks.js:245-251 | every group but one, least recently updated first |
| ReceivedChunks.DeleteExpired | private-channel/services/received-chunks.js:328-331 | exactly the expired groups go |
| ReceivedChunks.EvictTurn | private-channel/services/received-chunks.js:332-336 | one turn of the eviction |
| ReceivedChunks.EvictUntil | private-channel/services/received-chunks.js:332-336 | how far the eviction loop goes and what it has taken |
| ReceivedChunks.EvictOldest | private-channel/services/received-chunks.js:332-336 | whole live groups go, oldest first, each only while the chunk does not fit |
| ReceivedChunks.OldestGo | private-channel/services/received-chunks.js:332-336 | what has gone was live, updated no later than what stays, and would not all fit |
| ReceivedChunks.StoreCharged | private-channel/services/received-chunks.js:343-347 | storing a new chunk charges group and usage for its length |
| ReceivedChunks.MakeRoom | private-channel/services/received-chunks.js:326-341 | room is always found without touching the group being written: the second too-large check is dead code |
| ReceivedChunks.Admit | private-channel/services/received-chunks.js:326-356 | the new chunk is stored within the budget, other groups untouched or evicted whole |
| ReceivedChunks.PutOnce | private-channel/services/received-chunks.js:278-357 | errors and too-large cases exactly; otherwise the chunk is held, within the budget, and the group touched |
| ReceivedChunks.PutHolds | private-channel/services/received-chunks.js:281-348 | the chunks of the group after a put: the new one, and those it had if it was live and announced with the same total |
| ReceivedChunks.LessSince | private-channel/services/received-chunks.js:250-251 | the later a group was updated, the fewer bytes count against it |
| ReceivedChunks.CleanupTurn | private-channel/services/received-chunks.js:258-262 | one turn of the cleanup: the group is spared exactly when live and fitting with everything younger |
| ReceivedChunks.LeftIsSince | private-channel/services/received-chunks.js:257-262 | until a group is spared, the usage is the bytes of the groups not older than the one at hand |
| ReceivedChunks.SparedAreYounger | private-channel/services/received-chunks.js:245-262 | live groups go least recently updated first, and only when not everything fits |
| ReceivedChunks.ExpiredBytesCount | private-channel/services/received-chunks.js:258-262 | a stored database of 12 bytes that loses its live group when reopened under a budget of 10, although that group fits |
| ReceivedChunks.LiveStay | private-channel/services/received-chunks.js:257-262 | within the budget exactly the live groups stay: a live group goes only from a database filled under a larger budget |
| ReceivedChunks.Cleanup | private-channel/services/received-chunks.js:253-266 | a group remains if and only if it is live and fits the budget together with all groups updated since; the budget holds |
| ReceivedChunks.Store.constructor | private-channel/services/received-chunks.js:268-271 | any accounted database can be opened, also one filled under a larger budget |
| ReceivedChunks.Store.Ready | private-channel/services/received-chunks.js:268-271 | the first call cleans the database up, later ones leave it |
| ReceivedChunks.Store.Put | private-channel/services/received-chunks.js:370-386 | each error exactly when due and what it leaves; otherwise the chunk is held, the record renewed, and only expired and then oldest other groups go; accounting and budget hold |
| ReceivedChunks.Store.CleanupStale | private-channel/services/received-chunks.js:253-276 | exactly the spared groups of whatever database was opened remain, accounted and within the budget |
| ReceivedChunks.Store.RemoveGroup | private-channel/services/received-chunks.js:236-243 | removes exactly that group |
| Ranges.NormalUnique | helpers/ranges.js:1-14 | a set of integers has one sorted, non-adjacent form |
| Ranges.MergeRanges | helpers/ranges.js:2-14 | the same integers, in that form |
| Ranges.MergeStep | helpers/ranges.js:8-12 | taking in the next range keeps the form |
| Ranges.SubtractRanges | helpers/ranges.js:17-31 | exactly the integers of the range outside the list, in that form |
| Ranges.IntersectRanges | helpers/ranges.js:33-47 | exactly the integers in both lists, in that form |
| History.BisectPartition | private-channel/helpers/history.js:104-107 | splitting keeps covered and pending seconds a partition of the request and pays one query |
| History.BisectOrder | private-channel/helpers/history.js:104-107 | and keeps the stack newest first |
| History.Double | private-channel/helpers/history.js:108-109 | asking a saturated second again keeps both and pays one query |
| History.Cover | private-channel/helpers/history.js:118-121 | a complete page moves its interval from pending to covered |
| History.ProcessOrder | private-channel/helpers/history.js:37-46 | a page processed after older ones keeps time order within a starting interval |
| History.CoverOnce | private-channel/helpers/history.js:118-121 | each stored event of a covered second has been processed exactly once |
| History.TruthfulKeeps | private-channel/helpers/history.js:104-121 | a relay that answers each filter with as many different matches as there are and the limit allows keeps the promises that the reading rests on |
| History.TruthfulEnds | private-channel/helpers/history.js:104-117 | its reading is ended only by a second with 256 or more events |
| History.TruthfulCovers | private-channel/helpers/history.js:118-121 | and no complete page covers such a second |
| History.TruthfulReads | private-channel/helpers/history.js:54-127 | so it is read to the end exactly when there is none |
| History.SecondsBound | private-channel/helpers/history.js:50-51 | the starting intervals of a request of W seconds have at most W |
| History.StartCost | private-channel/helpers/history.js:50-56 | and cost at most 6W - 1 queries |
| History.ResumeIntervals | private-channel/helpers/history.js:165-174 | the pending seconds of an earlier read, clipped to the request |
| History.ReadPage | private-channel/helpers/history.js:54-127 | one turn of the loop follows the functions that PageTurn and TrailHolds are about: the next stack, what is covered and what is processed |
| History.PageTurn | private-channel/helpers/history.js:54-127 | whatever the answer, a turn keeps partition, order and exactly-once processing and lowers the cost |
| History.TrailHolds | private-channel/helpers/history.js:54-127 | so does every trail of queries, in at most as many queries as the starting stack costs |
| History.FailedPage | private-channel/helpers/history.js:97-103 | a failed page changes nothing that is covered |
| History.CompletePage | private-channel/helpers/history.js:118-121 | a complete page covers its interval |
| History.ReadPages | private-channel/helpers/history.js:54-127 | the loop over the stack: each query asks for the top interval that the answers so far have left, and the loop ends when nothing is pending or an answer ends it |
| History.ReadRelay | private-channel/helpers/history.js:47-139 | covered and pending seconds partition the request, eose if and only if every page was usable, and then nothing is pending; a truthful relay is read to the end if and only if no second holds 256 events; events of covered seconds are processed exactly once in order, queries are bounded |
| History.ReadHistory | private-channel/helpers/history.js:30-139 | with or without resumed intervals: a truthful relay is read to the end, and exactly its stored events of the request are processed once, if and only if no requested second holds 256 or more; whatever the relay, an eose means every requested second was read, within 6W - 1 queries |
| Recovery.RemainingOf | private-messenger/index.js:1656 | what a relay has left to do: the range without what it read or seeders were asked for |
| Recovery.LastEntry | private-messenger/index.js:1644-1647 | of several reports of a relay the last one counts |
| Recovery.AllCoveredExactly | private-messenger/index.js:1635-1638 | what the reports cover is what some report covers |
| Recovery.UpdateRelay | private-messenger/index.js:1646-1664 | one relay after a report: through only when everything it was asked is read |
| Recovery.UpdateOk | private-messenger/index.js:1651-1657 | no second of the range is lost by a report, and no relay revives |
| Recovery.Budgeted | private-messenger/index.js:1729-1736 | a live relay uses up one attempt, and dies at the limit or on a permanent error |
| Recovery.TriedAgain | private-messenger/index.js:1729-1737 | exactly when a relay is tried again, and for what: it was live, has something left to do, no final error, and attempts left, ten while no relay has ended well, six once one has, three once one has with events |
| Recovery.StillToDo | private-messenger/index.js:1651-1657 | what a relay has left to do after a report: the seconds of the range that neither it has read nor anybody was asked for |
| Recovery.FollowsRelays | private-messenger/index.js:1500-1521 | a record follows the relays of the channel: those that stay as they are, new ones with the whole range to do |
| Recovery.UpdateRelays | private-messenger/index.js:1645-1679 | the loop over the relays, and the flags that decide the tier |
| Recovery.Joined | private-messenger/index.js:1635-1638 | what is newly read or claimed joins the covered seconds, in normal form |
| Recovery.UpdateOne | private-messenger/index.js:1645-1657 | a relay without a report stays as it is |
| Recovery.RangeRecord.constructor | private-messenger/index.js:1480-1496 | an empty record |
| Recovery.RangeRecord.Reconcile | private-messenger/index.js:1500-1521 | the relays that stay keep their state, new ones start with the range, the others go |
| Recovery.RangeRecord.Update | private-messenger/index.js:1634-1681 | exactly what the reports say is added to what is read and covered, and exactly what they say of each relay; flags, tier and oldest event |
| Recovery.RangeRecord.ApplyBudget | private-messenger/index.js:1729-1737 | every live relay is charged, no other |
| Recovery.RangeRecord.Claim | private-messenger/index.js:1683-1691 | claimed seconds need not be read, nothing else changes for a relay |
| Recovery.RangeRecord.GiveUp | private-messenger/index.js:3616-3618 | a permanent failure ends every relay |
| Recovery.RangeRecord.Pass | private-messenger/index.js:3553-3589 | one pass exactly: nothing without a live relay, otherwise the update by the answer of the fetch and the charge |
| Recovery.PassAttempts | private-messenger/index.js:3553-3589 | after a pass a relay is live only if it was before, with one more attempt and below the limit of the tier |
| Recovery.RangeRecord.TakeWhole | private-messenger/index.js:3573-3588 | a reader without partial results covers the whole range |
| Recovery.RangeRecord.Prioritize | private-messenger/index.js:3470-3506 | only the answer of the relay that was asked for the open part changes the record, and only an answer without partial results is a claim; returns exactly what stays uncovered |
| Recovery.RangeRecord.Finalize | private-messenger/index.js:1775-1795 | exactly the uncovered seconds and those up to the oldest known event are asked of every seeder; complete means every one was asked |
| Recovery.RangeRecord.Run | private-messenger/index.js:207-211 | for fixed relays no relay is live after ten passes, nor after as many passes as the tier allows |
| Recovery.AskSeeders | private-messenger/index.js:3157-3191 | every seeder is asked, also after a failure |
| Recovery.AskPriority | private-messenger/index.js:3446-3468 | an interval is claimed exactly when there is an active seeder and all of them were asked |
| Recovery.ClaimRelays | private-messenger/index.js:1687-1690 | the new to-do lists after a claim |
| Recovery.ThroughMeansCovered | private-messenger/index.js:1552-1557 | a relay that is done without being dead has left nothing of the range uncovered |
| RecoveryRounds.CompletedIsAccounted | private-messenger/index.js:3589-3606 | every second of a completed range was read by a relay, claimed before or asked of every seeder there is |
| RecoveryRounds.ReadIsReported | private-messenger/index.js:3553-3588 | what a visit adds to what is read is exactly what its fetch reported, and it claims nothing |
| RecoveryRounds.UnattendedExactly | private-messenger/index.js:3157-3163 | a completed range holds a second that nobody read, claimed or was asked for if and only if there was no seeder and a second uncovered |
| RecoveryRounds.CompletedUnread | private-messenger/index.js:3157-3163 | a concrete visit without relays and seeders that completes an unread range |
| RecoveryRounds.Channel.constructor | private-messenger/index.js:1476-1498 | a channel starts without records and with the given ranges |
| RecoveryRounds.Channel.RecordOf | private-messenger/index.js:1476-1498 | one record per range, made on first use |
| RecoveryRounds.Channel.Enter | private-messenger/index.js:3545-3552 | the record follows the relays of the channel, no other record changes |
| RecoveryRounds.SharedClaims | private-messenger/index.js:3460-3466 | sharing out claims adds to a record exactly the claimed seconds of its range |
| RecoveryRounds.FetchClaims | private-messenger/index.js:3498-3501 | the fetch of a turn claims only what the turn wanted, and only when it was answered without partial results |
| RecoveryRounds.PulledClaims | private-messenger/index.js:3474-3506 | one turn of the lane claims only what it pursued |
| RecoveryRounds.LaneClaims | private-messenger/index.js:3470-3508 | every second that the lane leaves claimed was claimed before it or pursued in one of its turns: asked of every active seeder, of which there was one, or answered for by a whole fetch |
| RecoveryRounds.LaneRecords | private-messenger/index.js:3474-3506 | the lane makes records of its own ranges only, and of no other changes what is read |
| RecoveryRounds.Channel.ClaimFor | private-messenger/index.js:3462-3464 | the part of the claims in one range is claimed for its record |
| RecoveryRounds.Channel.ShareOut | private-messenger/index.js:3460-3466 | every record of the channel gets its part, and nothing else changes |
| RecoveryRounds.Channel.Ahead | private-messenger/index.js:3483-3502 | the fetch of the lane for one range, no other record changes |
| RecoveryRounds.Channel.AskAhead | private-messenger/index.js:3446-3468 | claims exactly the parts of what stays open that all active seeders were asked for, online, and shares them out |
| RecoveryRounds.Channel.PullAhead | private-messenger/index.js:3474-3506 | one turn of the lane exactly, also when it is cut short |
| RecoveryRounds.Channel.PriorityLane | private-messenger/index.js:3470-3508 | the story of all turns; the lane stops early only where it was cut or with nothing to prioritize |
| RecoveryRounds.Channel.Caught | private-messenger/index.js:3612-3618 | a permanent error ends every relay of the range, any other changes nothing |
| RecoveryRounds.Channel.PassOver | private-messenger/index.js:3553-3588 | the pass over the record of its range, no other record changes |
| RecoveryRounds.Channel.Conclude | private-messenger/index.js:3589-3606 | completed exactly when nobody interfered, no relay is live, the connection holds and every seeder was asked for what is missing |
| RecoveryRounds.Channel.VisitRange | private-messenger/index.js:3545-3620 | one visit exactly, from the record as found to the record as left, with its verdict |
| RecoveryRounds.Channel.Round | private-messenger/index.js:3538-3620 | expired ranges are dropped, offline ones left alone, the others visited |
| RecoveryRounds.Channel.VisitAll | private-messenger/index.js:3538-3620 | the story of all rounds: each range is decided from the record as its round found it, and changes no other |
| RecoveryRounds.Channel.Prune | private-messenger/index.js:3631 | the records of the ranges still pending stay |
| RecoveryRounds.Channel.Rounds | private-messenger/index.js:3537-3633 | with the story of the rounds, exactly the kept ranges and the concurrently added ones are written, in normal form; recoveredThrough grows only to ends of completed ranges |
| RecoveryRounds.Channel.Recover | private-messenger/index.js:3510-3637 | the whole call: the priority lane when online, then the rounds from the records it leaves, and what is written |
| RecoveryRounds.NothingLost | private-messenger/index.js:3624-3631 | every second pending at the write survives unless its snapshot range expired or was completed |
| RecoveryRounds.GoneIsAccounted | private-messenger/index.js:3537-3631 | end to end: a pending second that is gone afterwards lay in a range that was too old or is accounted for |
| RecoveryRounds.VisitClaims | private-messenger/index.js:3538-3620 | a visit claims nothing |
| RecoveryRounds.RoundsClaims | private-messenger/index.js:3538-3620 | so what is claimed in the rounds was claimed before them |
| RecoveryRounds.ClaimedIsPursued | private-messenger/index.js:3446-3620 | what a completed range counts as claimed had been claimed before the call or was pursued by its priority lane |
| RecoveryRounds.GoneIsPursued | private-messenger/index.js:3510-3637 | end to end with the lane: a pending second that is gone lay in a range that was too old, or was read, claimed before the call, pursued by the lane, or asked of every seeder |
| PublicationRace.Untried | private-messenger/helpers/fallback-race.js:62-65 | the relays of a batch that are sent to: untried, each once |
| PublicationRace.LaunchSendsOnce | private-messenger/helpers/fallback-race.js:62-65 | a launch never sends to a relay twice |
| PublicationRace.LaunchInv | private-messenger/helpers/fallback-race.js:62-98 | a launch keeps the invariant |
| PublicationRace.LeavePrimaryInv | private-messenger/helpers/fallback-race.js:129-137 | the end of the primary lane keeps it |
| PublicationRace.AnswerInv | private-messenger/helpers/fallback-race.js:69-96 | a send that succeeds, fails or cannot be prepared keeps it |
| PublicationRace.StepInv | private-messenger/helpers/fallback-race.js:43-137 | no step of any lane, timer or abort breaks the invariant |
| PublicationRace.ThrowInv | private-messenger/helpers/fallback-race.js:117-137 | nor does an error in a lane, which runs the finally block first |
| PublicationRace.RunInv | private-messenger/helpers/fallback-race.js:5-153 | nor does any interleaving of steps |
| PublicationRace.StartInv | private-messenger/helpers/fallback-race.js:139-153 | the call establishes it |
| PublicationRace.UnsettledCanStep | private-messenger/helpers/fallback-race.js:43-47 | an unsettled race always has a step of its own, without an abort |
| PublicationRace.QuiescentIsSettled | private-messenger/helpers/fallback-race.js:43-47 | when no lane and no timer has anything left to do, the race has settled, aborted or not |
| PublicationRace.VerdictIsEarned | private-messenger/helpers/fallback-race.js:43-48 | the step that settles a race: success with nobody pending, giving up by an abort or with both lanes over, no fallback to come and somebody pending, a rejection by an error |
| PublicationRace.StepPasses | private-messenger/helpers/fallback-race.js:25-42 | a verdict stands with what it rests on, and the primary holds an error back for the fallback only when one was brought |
| PublicationRace.RunOwes | private-messenger/helpers/fallback-race.js:5-153 | so in every interleaving the verdict is earned |
| PublicationRace.RaceIsSafe | private-messenger/helpers/fallback-race.js:5-153 | for every call and interleaving: one send per relay, at most one verdict, success only with everybody covered, given up only when aborted, not current at the start, or run dry, rejected only after an error, and exactly one verdict once nothing is left to do |
| PublicationRace.HaltedSendsNothing | private-messenger/helpers/fallback-race.js:25-137 | a permanent failure, a lost connection, an abort or a verdict silences both lanes, and a verdict stands |
| PublicationRace.HaltingSteps | private-messenger/helpers/fallback-race.js:97-101 | what halts a race: an abort, a failure no other relay can make up for, a send that cannot be prepared, a check without connection |
| PublicationRace.HaltedRun | private-messenger/helpers/fallback-race.js:103-117 | from then on nothing is sent, whatever else happens |
| PublicationRace.SentSettles | private-messenger/helpers/fallback-race.js:92-95 | a send that succeeds takes its receivers off, and settles the race as a success exactly when nobody is left |
| PublicationRace.LaunchTries | private-messenger/helpers/fallback-race.js:62-66 | every relay of a launched batch has been tried before or is sent to |
| PublicationRace.StepBooks | private-messenger/helpers/fallback-race.js:103-137 | while nothing gets in the way, every step keeps the books on what each lane was offered and what came of it |
| PublicationRace.RunBooks | private-messenger/helpers/fallback-race.js:103-137 | and so does every run of such steps |
| PublicationRace.BatchesAreTried | private-messenger/helpers/fallback-race.js:103-137 | for every call and every run in which nothing gets in the way: every relay of every batch offered is tried, and the race is given up only when both lanes were last offered nothing |
| Base93.Tables | base93/index.js:7-21 | the two alphabet tables are inverse to each other and JSON-safe |
| Base93.GroupValue | base93/index.js:65-76 | every group value is below 93 squared and still tells its width |
| Base93.WidestGroup | base93/index.js:66-74 | a group takes 14 bits whenever its value is then sure to be below 93 squared |
| Base93.FlattenPack | base93/index.js:62-78 | the groups and the bits left over are the input |
| Base93.UnpackValues | base93/index.js:127-130 | a reader of the values finds the groups again |
| Base93.TailMeans | base93/index.js:88-95 | the flush writes one digit for up to 7 bits when it is enough, otherwise a pair |
| Base93.LastByte | base93/index.js:138 | a digit without a partner completes exactly the last byte |
| Base93.LastPair | base93/index.js:131-135 | a last pair writes no byte past the end |
| Base93.RoundTrip | base93/index.js:105-140 | decoding an encoding gives the bytes back, for every byte sequence |
| Base93.PackAppend | base93/index.js:54-84 | the groups taken so far do not depend on what follows |
| Base93.PackByte | base93/index.js:63-77 | one more byte completes at most one group |
| Base93.TakeGroup | base93/index.js:66-74 | masks and shifts compute the next group and the rest of the buffer |
| Base93.TailText | base93/index.js:88-96 | the characters of the flush |
| Base93.AbsorbByte | base93/index.js:63-77 | one round of the update loop |
| Base93.Absorb | base93/index.js:57-82 | the update loop, its preallocated array large enough |
| Base93.Encoder.constructor | base93/index.js:47-52 | an encoder with a prefix |
| Base93.Encoder.Update | base93/index.js:54-84 | refused after finishing, otherwise the bytes are taken in; cutting the input differently changes nothing |
| Base93.Encoder.GetEncoded | base93/index.js:86-102 | prefix and encoding of everything consumed, however often it is called |
| Base93.Encode | base93/index.js:105-107 | the encoding of the bytes |
| Base93.Drain | base93/index.js:131-135 | whole bytes leave the bit buffer |
| Base93.AbsorbPair | base93/index.js:127-135 | one pair goes on top of the buffer with the width its value tells |
| Base93.DecodedFits | base93/index.js:110 | the decoded bytes never outgrow 14 bits a pair |
| Base93.DecodeDigit | base93/index.js:116-136 | one round of the decode loop, within the preallocated array |
| Base93.DecodeRest | base93/index.js:138-139 | the end of the decode loop |
| Base93.DecodeUnchecked | base93/index.js:109-140 | the first invalid character is reported, otherwise the bytes; the preallocated array is large enough |
| Base93.Decode | base93/index.js:142-158 | accepts exactly the texts that encode produces, and returns what was encoded |
| ChunkSize.NextPowerFrom | nip44-v3/index.js:20-22 | the least power of two that is at least the length |
| ChunkSize.PadTo | nip44-v3/index.js:24-25 | rounding up to a multiple never shortens |
| ChunkSize.TargetSizeBounds | nip44-v3/index.js:20-26 | at least the length and 32, at most the next power of two or 32 |
| ChunkSize.TargetSizeMonotone | nip44-v3/index.js:20-26 | monotone, also where the number of subdivisions changes |
| ChunkSize.PayloadMonotone | nip44-v3/index.js:74-80 | so is the payload length |
| ChunkSize.Shapes | private-channel/helpers/chunk-size.js:14-40 | the JSON around the contents costs 766 and 445 bytes |
| ChunkSize.OuterLengthMonotone | private-channel/helpers/chunk-size.js:14-40 | the outer event grows with the chunk |
| ChunkSize.MaxChunkBytes | private-channel/helpers/chunk-size.js:42-53 | the search returns 30141, and a chunk fits if and only if it is not longer |
| ChunkSize.Threshold | private-channel/helpers/chunk-size.js:57 | 30141 bytes fit and 30142 do not |
| Serialize.QuoteSplit | event/helpers/serialize.js:54-62 | quoting falls apart at every place that is not inside a surrogate pair |
| Serialize.QuoteCutInPair | event/helpers/serialize.js:41-52 | at a cut inside a pair it would be ten units longer |
| Serialize.UnquoteQuote | event/helpers/serialize.js:28-31 | a JSON reader gets every string back, lone surrogates included |
| Serialize.EscapeLength | event/helpers/serialize.js:54-62 | a letter for seven units, four hex digits for the other control characters and halves of pairs, every other unit as it is |
| Serialize.ChunkEnd | event/helpers/serialize.js:41-52 | every slice makes progress, is not longer than asked, and ends outside pairs |
| Serialize.SerializeJsonString | event/helpers/serialize.js:54-63 | the pieces of a string make up its JSON, for every chunk size |
| Serialize.SerializeTag | event/helpers/serialize.js:75-81 | the pieces of a tag make up its JSON |
| Serialize.SerializeTags | event/helpers/serialize.js:73-82 | and those of all tags theirs |
| Serialize.PlainExactly | event/helpers/serialize.js:54-71 | JSON adds nothing but the quotes if and only if every unit is at least 32, no quote or backslash, and no lone surrogate |
| Serialize.HexIsPlain | event/helpers/serialize.js:3-9 | a hex key needs no escaping |
| Serialize.QuoteAsKey | event/helpers/serialize.js:69-71 | a concrete public key, a double quote, that is written wrongly whatever the rest of the event |
| Serialize.SerializedIs | event/helpers/serialize.js:28-31 | the plain serialization, part by part |
| Serialize.SerializeEventChunks | event/helpers/serialize.js:69-87 | the pieces make up the plain serialization of every valid event, and without validation if and only if the key needs no escaping, unit by unit |
| Digits.MinimalUnique | base36/index.js:21-28 | digits without a leading zero are the only ones of their number |
| Digits.ConvertBack | base36/index.js:52-77 | changing the base and back, one leading zero for each, is the identity in both directions |
| Digits.FixedBack | base36/index.js:90-95 | fixed-width digits give the number back |
| Digits.FixedOf | base36/index.js:97-110 | and fixed-width numbers the digits |
| Digits.FitsExactly | base62/index.js:108-112 | a number has at most k digits if and only if it is below the k-th power of the base |
| BaseCodecs.BytesRoundTrip | base62/index.js:74-123 | every byte array comes back, leading zero bytes included |
| BaseCodecs.TextRoundTrip | base62/index.js:98-123 | every text over the alphabet comes back: no second spelling |
| BaseCodecs.BytesToInteger | base62/index.js:37-41 | the big-endian value |
| BaseCodecs.IntegerToText | base62/index.js:43-50 | the minimal digits, one zero for zero |
| BaseCodecs.ParseInteger | base62/index.js:52-60 | the value of the digits, or an error exactly when a character is not in the alphabet |
| BaseCodecs.MinimalBytes | base62/index.js:62-70 | the minimal bytes, one zero for zero |
| BaseCodecs.EncodeBytes | base36/index.js:52-64 | the text of the bytes |
| BaseCodecs.DecodeBytes | base36/index.js:66-77 | the bytes of the text |
| BaseCodecs.NsiteWidth | base36/index.js:11-13 | 50 digits are enough for 32 bytes and 49 are not |
| BaseCodecs.BytesToBase36Nsite | base36/index.js:90-95 | 32 bytes give exactly 50 digits, any other length an error |
| BaseCodecs.Base36NsiteToBytes | base36/index.js:97-110 | accepts exactly the texts of 32-byte values and inverts them, with exact error cases |
| BaseCodecs.IntegerRoundTrip | base62/index.js:85-89 | integer mode with the byte length round-trips at every text width |
| BaseCodecs.IntegerTextBack | base62/index.js:104-114 | and so does the text at its own length |
| BaseCodecs.BytesToBase62 | base62/index.js:74-96 | both modes with their error cases |
| BaseCodecs.Base62ToBytes | base62/index.js:98-123 | both modes with their error cases, overflow exactly when the number does not fit |
| Gates.Gate.constructor | helpers/abortable-semaphore.js:3-5 | an empty semaphore |
| Gates.Gate.Grant | helpers/abortable-semaphore.js:8-12 | the first waiting job gets a lease |
| Gates.Gate.Drain | helpers/abortable-semaphore.js:6-20 | jobs leave the queue from its front while there is capacity; a settled gate is left alone |
| Gates.Gate.Acquire | helpers/abortable-semaphore.js:22-39 | thrown, full or waiting in turn; granted at once exactly when there is room, last in the queue otherwise |
| Gates.Gate.Enqueue | helpers/abortable-semaphore.js:35-37 | the job joins the queue, and is granted at once when there is room |
| Gates.Gate.Release | helpers/abortable-semaphore.js:12-17 | a lease is given back once and goes to the first who waits, a second call does nothing |
| Gates.Gate.Abort | helpers/abortable-semaphore.js:28-34 | a waiting job leaves the queue, any other job is not affected |
| Gates.LeavesQueue | helpers/abortable-semaphore.js:28-34 | jobs that were not aborted keep the order of their arrival |
| Gates.RelayGates.constructor | private-channel/helpers/history.js:11 | no gates |
| Gates.RelayGates.OneHolder | private-channel/helpers/history.js:15-23 | no relay has two holders, whatever gates came and went |
| Gates.RelayGates.GateFor | private-channel/helpers/history.js:16-21 | the current gate of a relay, made when there is none |
| Gates.RelayGates.Acquire | private-channel/helpers/history.js:15-23 | a job gets a new gate at once, or waits last at the current one, refused exactly when 256 wait; a gate is in the map exactly while it is in use |
| Gates.RelayGates.Forget | private-channel/helpers/history.js:19 | a gate that went idle is dropped unless another has taken its place |
| Gates.RelayGates.Release | private-channel/helpers/history.js:15-23 | releasing, also a lease of a forgotten gate, keeps the exclusion and hands over to the first who waits |
| Gates.RelayGates.Abort | private-channel/helpers/history.js:15-23 | so does aborting, which never leaves a gate idle |

## Left out

- setAt of the Web Storage queue, the one operation that evicts around an occupied slot; insertWhere, removeWhere, clear and the async iterators, which are the modelled operations behind a scan
- Browser quota errors and the session limit they lower, in both queues
- Stored JSON: a state, journal or envelope either parses or is the absent or unreadable value of the model; sizes are given per item, and a journal with fractional or unsafe integers is not modelled
- removeBy, removeWhere, insertWhere, clear and getBy of the indexed queue, and opening, versioning and upgrading its database: a transaction is one atomic call
- Lease tokens are numbers that are never reused, in place of random identifiers; event identifiers and group keys are numbers in the order of their names
- IdbQueue.PutBy: an item carries one indexed key; the refusal of a second record of a unique key by other operations is the database's
- Coalescing.TransitiveExactly: the fallbacks for missing times (private-messenger/index.js:3984-3989) are resolved before the comparison
- Fragments.Group.Drain: one drain at a time; the drain lease, a drain whose group is deleted under it, and what is delivered again after a commit that failed are not modelled. Stopping is final, since it commits the row index without the chunk index (private-channel/services/received-chunks.js:494-497)
- Rows are ASCII without line breaks, because each chunk is decoded by itself; the base64 around a chunk is not modelled
- The commit of a group's payload and receivers, and the record fields that only the caller reads
- History.ReadHistory: one relay, safe integers, no abort signal, and a page is too large or not as one answer; several relays are read one after the other
- Recovery.RangeRecord.Prioritize: the fetch of one relay; which of two hedged relays answers first is an input. The order of relays by failures and latency, and the latency average, are left out
- RecoveryRounds.Channel.Recover: one channel, pauses and aborts as thrown errors, which keep the range; relays, answers and the ranges found at the write are inputs
- PublicationRace.RaceIsSafe: which batches the lanes get, what sends and checks answer and when the attempt stops being current are inputs; remember and isCurrent do not throw; the report of a send and the retry hints of the outcome are not modelled
- Base93 bit operations are written as shifts, remainders and quotients of natural numbers: no intermediate value reaches 2^31
- BaseCodecs.BytesToBase62: option objects with unknown keys and arguments of the wrong type are excluded by the types
- ChunkSize.MaxChunkBytes: the logarithm of targetSize is the exact one; lengths here stay far below where the floating one could differ
- Serialize.SerializeEventChunks: fields have the right types; numbers are written in decimal
- Gates.Gate.Acquire: a queue limit of infinity is any number large enough
- Cryptography, relay sockets and pools, HTTP, URL and text parsing, and the rest of the private messenger
