# A verified model of a two-server private information retrieval library

The library lets a client read rows of a table from two servers without telling either of
them which row. Its value rests on algebraic state that every query and every update has
to keep: permutations with XOR parities, pseudorandom sets with XOR hints, correction words
along a tree path, a compacted operation log and its replica. This project models that
state, in the form in which the library keeps it, and proves what every step keeps, over
runs of any length.

`dafny verify dfyconfig.toml` checks everything.

## What is modelled

Each component has a state machine over values (functions, invariants, theorems about all
inputs and all runs) and, beside it, classes and array methods in the library's own form
whose contracts equate their new state with that state machine's.

* **SinglePass client.** `SinglePass` is one read: query, two answers, reconstruct with its
  in-place swaps and parity repairs, for any swap slots, repeated ones and the queried one
  included. `SinglePassHint` and `Permutations` are the offline phase. `DynamicDb` and
  `StaticDb` are the versioned server table. `SinglePassUpdates` is the replay of the log by
  a client and `SinglePassSystem` the whole: a server that is edited and grown, a client that
  lags behind, joins, updates and reads. `SinglePassClients` is the client object.
* **Distributed point function.** `Dpf` is the scheme on nodes and correction words,
  `DpfKeys` its byte-level form (key generation, point evaluation, full evaluation through a
  shared buffer), `DpfPir` the read built on it, with the plain loop and the eight-lane
  kernel for rows of 32 bytes.
* **Updatable key/value store.** `OpLog` is the log, its compaction and the two-pass
  algorithm. `Updatable` is the protocol, with the whole history as the reference that both
  sides are compared with, for any coding of the key lists; `KeyTransport` is the coding that
  the library uses and `RiceUpdates` the protocol with it. `Waterfall` is the layered partition
  of rows. `UpdatableRead` puts index, layers and server together; `Batches` and
  `KeyValueStore` say what adding and deleting keys means for the map, the log and a client's
  reads; `UpdatableObjects` and `WaterfallClients` are the objects.
* **Puncturable sets.** `GgmTree` and `GgmSets` are the breadth-first evaluation of the native
  code, `GgmDepthFirst` and `GgmPunctured` the depth-first one of the Go code, `Distinct` the
  duplicate check by linear probing (with the bit tricks of `WordBits`), `PuncSets` the shifted sets, `PuncClients` and
  `PuncObjects` the client with its hints and its reverse index.
* **Rice codec.** `RiceCode` is the code on bit strings, `Rice` the bit writer and reader and
  the delta coding, with 32-bit wrap-around, `RiceSize` the encoder's choice of parameter and
  the size of what it writes. Bits are packed as in section 3.1.1 of RFC 1951.

`Rows`, `Bits`, `Powers` and `Options` hold XOR of rows, bits of bytes, powers of two and the
option type.

Assumptions, all visible as parameters: the block cipher and the pseudorandom functions are
arbitrary total functions; every random draw is an arbitrary value of its range; all rows have
one arbitrary length; both servers hold the same table; a query is reconstructed before the
next query or update.

## What turned out to need a condition

* **Edits.** The versions of the dynamic table agree after an edit exactly when every index
  was inside the table: `UpdateRow` ignores an index outside without bumping its version, while
  `EditRows` counts it (`DynamicDb.VersionsAgreeExactly`).
* **Appends.** An append keeps SinglePass server and client right exactly when its rows have
  room: at most `len(table) + extendSize - realSize` of them; and, for an empty append, when the
  table is not both full and still of its first size, as then it grows without anything being
  logged (`SinglePassSystem.AppendKeepsExactly`, with failing inputs `FirstAppendOverflows` and
  `FirstAppendEmpty`). The runs of `SinglePassSystem` allow exactly the appends that fit.
* **Chunk offsets.** A client that lacks some rows has the server's chunk offset exactly when
  it lacks fewer than setSize (`AlignedExactly`). After an update it lacks none or one chunk,
  which is few enough for a database that started with n*n rows; from r*n rows with r < n two
  short appends are enough to break it (`OblongMisaligns`).
* **Stale reads.** A SinglePass client that reads without updating gets the row it last saw
  exactly when the changes in the other chunks of its column cancel (`StaleRead`).
* **Rice coding.** The round trip holds exactly when all quotients are at most 32, the parameter
  is in 0..32 and the length at most 2^31 (`Rice.RoundTrip`). The encoder chooses a negative
  parameter when the range is at most half the length, and then the decoder refuses the result;
  with a nonnegative one lists of up to 16 values are always safe and of every larger length
  there is one that is lost (`RiceSize.ShortListRoundTrip`, `RiceSize.LongListsFail`).
* **Key updates.** Sorted key lists travel Rice-coded, so an update brings a client in step with
  the server exactly when its list meets that condition (`RiceUpdates.ClientAgrees`). A server
  that has logged just the keys 7 and 8 makes every update of a new client fail
  (`NeighboursFail`); the keys 0 to 32 and 65 arrive as 0 to 32 and 64 without any error
  (`LastKeyLost`). Reads may be right although the client is not in step, when the operations
  that it lacks have no effect; so `ReadsAreCurrent` is stated in one direction.
* **Layers.** A query reaches the layer that holds a position exactly when no layer up to that
  one lacks its client: one whose hint was not fetched is skipped without being counted
  (`Waterfall.RoutedExactly`, `AllRoutedExactly`, with the failing input `MissedHint`).
* **Coverage.** A read of the puncturable-set client succeeds exactly for the rows that some
  stored set holds, over whole runs (`PuncClients.RunCorrect`).

## Model

| member | source | states |
|---|---|---|
| `SinglePass.MathModIs` | pir/pset.go:183-192 | The result is congruent to its argument, also when that is negative. |
| `SinglePass.FindIndex` | pir/pir_single_pass.go:156-173 | The chunk and the slot found for a row are in range, and chunk * nHints + permutation[slot] is the row again. |
| `SinglePass.QueriedRowHidden` | pir/pir_single_pass.go:200-239 | Both servers are asked for the same row of the queried chunk, which is the queried row only if the swap slot drawn there is the queried slot. |
| `SinglePass.RecoveredIsRow` | pir/pir_single_pass.go:304-320 | XOR of the online answer, the parity of the slot and the swapped-in row is the row at the queried slot. |
| `SinglePass.RepairSlot` | pir/pir_single_pass.go:323-347 | Round by round the repair loop takes the parity of one slot through the column patched so far, for any swap slots, repeated ones included. |
| `SinglePass.RepairKeeps` | pir/pir_single_pass.go:323-347 | A slot whose rounds fold in equal rows keeps its parity. |
| `SinglePass.RepairedQueried` | pir/pir_single_pass.go:287-349 | After a reconstruct the queried slot holds the parity of its new column, also when it was drawn as a swap slot itself. |
| `SinglePass.RepairedOther` | pir/pir_single_pass.go:287-349 | Every other slot holds the parity of its new column, also when several chunks swap with it and when the queried chunk does. |
| `SinglePass.ReconstructedWellFormed` | pir/pir_single_pass.go:324-344 | The in-place swaps leave every permutation and its inverse mutually inverse. |
| `SinglePass.ReadCorrect` | pir/pir_single_pass.go:200-349 | For any swap slots one query, answer and reconstruct returns the row that was asked for and keeps both invariants. |
| `SinglePass.ReadRunCorrect` | pir/pir_single_pass.go:200-349 | Over runs of any length every read is right and both invariants survive. |
| `SinglePass.StaleRow` | pir/pir_single_pass.go:304-320 | With parities of one table and answers from another, what comes out is the old row plus the parity of the changes in the other chunks, or the new row plus the parity of all changes in the column. |
| `SinglePass.StaleReadIs` | pir/pir_single_pass.go:200-320 | So such a read returns the old row exactly when the other changes cancel, and the new row exactly when all do. |
| `SinglePassClients.SinglePassClient.InitClient` | pir/pir_single_pass.go:114-150 | The client object built from a hint has the state that the hint describes. |
| `SinglePassClients.SinglePassClient.Query` | pir/pir_single_pass.go:200-239 | The two requests sent are the offline and the online column of the state machine. |
| `SinglePassClients.SinglePassClient.SwapSlots` | pir/pir_single_pass.go:332-342 | Two slots of one permutation and their inverse entries are exchanged, nothing else. |
| `SinglePassClients.SinglePassClient.SwapAndRepair` | pir/pir_single_pass.go:324-344 | The loop over all chunks leaves exactly the swapped permutations and the repaired hints. |
| `SinglePassClients.SinglePassClient.Reconstruct` | pir/pir_single_pass.go:287-349 | The method changes the fields to the state for which the theorems hold and returns the recovered row. |
| `SinglePassClients.SinglePassClient.Grow` | pir/pir_single_pass.go:433-449 | A grown client has one more chunk with a drawn permutation and its inverse. |
| `SinglePassClients.SinglePassClient.Apply` | pir/pir_single_pass.go:431-457 | One logged operation patches the parity of the slot that holds its row, growing first when it lies behind the last chunk. |
| `SinglePassClients.SinglePassClient.UpdateState` | pir/pir_single_pass.go:428-461 | Replaying the answer in a loop is the replay of the state machine. |
| `SinglePassClients.ProcessHint` | pir/pir_single_pass.go:68-111 | The server's answer carries the parities and the flattened permutations of the drawn state. |
| `SinglePassClients.ProcessQuery` | pir/pir_single_pass.go:254-285 | The server's answer is, chunk by chunk, the row of its own chunk at the requested place. |
| `Permutations.FastMod` | psetggm/permute.cpp:57-59 | The reduction r of a 32-bit word x is the one with r * 2^32 <= x * n < (r + 1) * 2^32, so it lands below n. |
| `Permutations.FastModReaches` | psetggm/permute.cpp:57-59 | Every value below n comes out for some word. |
| `Permutations.SwapKeepsInverse` | pir/pir_single_pass.go:332-342 | Swapping two slots, equal ones included, keeps a permutation and its inverse mutually inverse. |
| `Permutations.ShuffleInverse` | psetggm/permute.cpp:16-46 | For any random words the shuffle has an exact inverse, so it is a permutation. |
| `Permutations.DrawReaches` | psetggm/permute.cpp:16-34 | Every permutation is drawn by some words. |
| `Permutations.Permute` | psetggm/permute.cpp:16-34 | The in-place loop writes the shuffle of the identity into its window and nothing else. |
| `Permutations.InvertPermutation` | psetggm/permute.cpp:37-46 | The loop writes the unique inverse. |
| `SinglePassHint.HintValid` | psetggm/answer.cpp:37-67 | For any random words the hint establishes both invariants of the client. |
| `SinglePassHint.EffectiveSetSize` | pir/pir_single_pass.go:68-80 | The set size asked for, or the integer square root of the number of rows for 0. |
| `SinglePassHint.PermsReach` | psetggm/answer.cpp:37-67 | Every choice of one permutation per chunk is drawn by some words. |
| `SinglePassHint.XorSinglePass` | psetggm/xor.cpp:350-374 | One pass over a chunk folds each of its rows into the parity of the slot that its inverse gives. |
| `SinglePassHint.AnswerSinglePass` | psetggm/answer.cpp:37-67 | Over zeroed parities the loop over chunks leaves parity h the XOR of row perm_c[h] of every chunk c, and writes all permutations and inverses. |
| `SinglePassHint.InitState` | pir/pir_single_pass.go:131-150 | Cutting the flat arrays gives back the per-chunk permutations. |
| `Rows.XorAllUpdate` | pir/pir_single_pass.go:324-331 | Replacing one row of a column changes its parity by the old and the new row. |
| `Rows.XorAllLists` | pir/pir_single_pass.go:305-320 | The parity of two columns added row by row is the sum of their parities. |
| `Rows.XorAllRows` | psetggm/xor.cpp:247-269 | The loop computes the XOR of all rows. |
| `StaticDb.OverwriteRow` | pir/static_db.go:93-104 | Writing the bytes of one row changes exactly that row of the table that the flat bytes stand for. |
| `StaticDb.StaticDB.FromRows` | pir/static_db.go:27-44 | The flat table built from rows reads back as these rows. |
| `StaticDb.StaticDB.Row` | pir/static_db.go:16-25 | A row inside the table is returned; outside, nothing is. |
| `StaticDb.StaticDB.UpdateRow` | pir/static_db.go:93-104 | The row is replaced and the version bumped, only when the index is inside the table. |
| `StaticDb.StaticDB.ExtendDb` | pir/static_db.go:106-112 | The table grows by zero rows and keeps its version. |
| `DynamicDb.ISqrtSquare` | pir/dynamic_db.go:33-40 | The square root of n*n is n, which gives extendSize n for such a database. |
| `DynamicDb.VersionsAgreeExactly` | pir/dynamic_db.go:74-101 | After an edit currVersion, the table's version and the log length still agree exactly when every index was inside the table. |
| `DynamicDb.EditAllVersion` | pir/dynamic_db.go:74-101 | What a batch of edits does to the log, the versions and the size of the table. |
| `DynamicDb.EditedWrites` | pir/dynamic_db.go:74-101 | The last row passed in for an index is the one there afterwards; every other row is unchanged; the j-th new log entry has the j-th index and row. |
| `DynamicDb.AppendedWrites` | pir/dynamic_db.go:51-72 | After an append that fits row realSize + j is the j-th row passed in, and all others are as before. |
| `DynamicDb.DynamicDB.FromRows` | pir/dynamic_db.go:33-40 | The initial log is empty, all versions are zero, extendSize is the row count by its square root. |
| `DynamicDb.DynamicDB.EditRows` | pir/dynamic_db.go:74-101 | Position r of the table holds the row last passed in for it, or what it held before; the log gets one entry per row, in order, with index and row; lists of different length are refused and change nothing. |
| `DynamicDb.DynamicDB.AppendRows` | pir/dynamic_db.go:51-72 | Rows that have room end up in order behind the rows in use, nothing else changes, and every row is logged. |
| `SinglePassUpdates.GrownValid` | pir/pir_single_pass.go:433-449 | Growing by a drawn permutation keeps the parities right when the new chunk is zero. |
| `SinglePassUpdates.GrownReaches` | pir/pir_single_pass.go:433-449 | A client grows by one chunk, for which any permutation may be drawn. |
| `SinglePassUpdates.PatchValid` | pir/pir_single_pass.go:451-456 | Folding old and new data into one parity follows a change of one row of the table. |
| `SinglePassUpdates.ApplyOpValid` | pir/pir_single_pass.go:428-461 | A client right for a table is right for the table after the operation. |
| `SinglePassUpdates.ReplayableSnoc` | pir/pir_single_pass.go:428-461 | A log stays replayable when an operation with the right old data is appended. |
| `SinglePassUpdates.ReplayValid` | pir/pir_single_pass.go:428-461 | A client that replays a whole log is right for the table at its end. |
| `SinglePassSystem.EditKeeps` | pir/dynamic_db.go:74-101 | Edits keep the joint invariant of server log, table and lagging client. |
| `SinglePassSystem.AppendVersions` | pir/dynamic_db.go:51-101 | After an append the versions agree exactly when nothing was appended or the rows have room in the table as the append extends it. |
| `SinglePassSystem.AppendKeepsExactly` | pir/dynamic_db.go:51-72 | An append of any length keeps the joint invariant exactly when its rows have room, or, for no rows, when it is not what takes the table beyond its first n*n rows. |
| `SinglePassSystem.FirstAppendOverflows` | pir/dynamic_db.go:51-72 | Failing input: a first append of more than n rows leaves more rows counted than the table has, and versions that disagree. |
| `SinglePassSystem.FirstAppendEmpty` | pir/dynamic_db.go:51-72 | Failing input: a first append of no rows grows the table without logging anything, and the chunk offsets of server and client no longer agree. |
| `SinglePassSystem.UpdateKeeps` | pir/pir_single_pass.go:396-461 | So does a client update, after which the client is in sync, whatever permutations it drew. |
| `SinglePassSystem.JoinKeeps` | pir/pir_single_pass.go:68-128 | So does a new client's hint. |
| `SinglePassSystem.AlignedExactly` | pir/pir_single_pass.go:254-285 | The server's chunk offset NumRows/setSize is the client's chunk length exactly when the client lacks fewer rows than setSize. |
| `SinglePassSystem.SyncedShape` | pir/pir_single_pass.go:411-461 | A client in sync is right for the current table, has the server's chunk offset, and trails the table by nothing or one chunk. |
| `SinglePassSystem.ReadKeeps` | pir/pir_single_pass.go:200-349 | A read by a client in sync returns the current row and keeps the joint invariant. |
| `SinglePassSystem.StaleRead` | pir/pir_single_pass.go:200-349 | A read by a client with pending edits returns the row it last saw exactly when the changes in the other chunks of the column cancel, the current row exactly when all changes in it do. |
| `SinglePassSystem.StepKeeps` | pir/pir_single_pass.go:200-461 | Every event keeps the joint invariant: edits inside the table, appends that fit, updates, new hints, reads by a client in sync. |
| `SinglePassSystem.Run` | pir/pir_single_pass.go:200-461 | So does every run of legal events, of any length. |
| `SinglePassSystem.StartValid` | pir/dynamic_db.go:33-40 | A new database of n*n rows and its first client satisfy the invariant. |
| `SinglePassSystem.OblongMisaligns` | pir/dynamic_db.go:33-72 | From r*n rows with r < n and the default sizes, appends of 1 and of n-1 rows lead to a client that has caught up without the chunk offset of the server: only square starts keep it. |
| `SinglePassSystem.FirstUpdate` | pir/pir_single_pass.go:396-426 | The premise of the two main theorems can be met: a new client may update at once, and is told of no operations. |
| `SinglePassSystem.UpdateSyncs` | pir/pir_single_pass.go:411-461 | After any legal run and one more update the client holds the parities of the server's current table. |
| `SinglePassSystem.ReadsAreCurrent` | pir/pir_single_pass.go:200-461 | Then every read returns the current row. |
| `SinglePassSystem.EditIsRead` | pir/dynamic_db.go:74-101 | In any state that a run leads to: after an edit and a client update, reading an edited index returns the row last passed in for it. |
| `SinglePassSystem.EditKeepsOthers` | pir/dynamic_db.go:74-101 | Rows that the edit does not name are read as before. |
| `SinglePassSystem.AppendIsRead` | pir/dynamic_db.go:51-72 | After an append that fits and a client update, the appended rows are read back in order. |
| `OpLog.DefragMeaning` | updatable/pir_updatable_server.go:149-178 | Compacting a prefix of a log never changes the key/data map that replaying it gives. |
| `OpLog.CompactCompose` | updatable/pir_updatable_server.go:149-178 | Compacting in two steps is compacting once. |
| `OpLog.DefragCompose` | updatable/pir_updatable_server.go:149-178 | Compacting at d1 and then at d2, in shifted positions, equals compacting once at d2. |
| `OpLog.CompactLive` | updatable/pir_updatable_server.go:149-178 | A compacted log has only additions, to distinct keys, and is no longer than the log. |
| `OpLog.TwoPasses` | updatable/pir_updatable_server.go:152-175 | Selecting the operations at the live positions gives the compaction. |
| `OpLog.FindLive` | updatable/pir_updatable_server.go:150-165 | The first pass finds the live positions, and `freed` is exactly what the compaction saves. |
| `OpLog.PushForward` | updatable/pir_updatable_server.go:167-174 | The second pass moves the live operations to the front of the buffer, in order. |
| `OpLog.Defrag` | updatable/pir_updatable_server.go:149-178 | The method returns the compacted log, shorter by exactly `freed`. |
| `Updatable.DeletionBitsRead` | updatable/pir_updatable_server.go:180-202 | Bit j of the packed deletion bits is the deletion flag of operation j. |
| `Updatable.Delivered` | updatable/pir_updatable.go:162-169 | The client reads the log that was sent, up to the data, exactly when it has the keys that were sent. |
| `Updatable.IndexAgrees` | updatable/pir_updatable.go:195-206 | The scan that assigns positions gives exactly the keys of the replayed map, each pointing at its own row of the flat table. |
| `Updatable.CompactedValid` | updatable/pir_updatable_server.go:105-121 | Compaction keeps all timestamps, never moves defragTimestamp back, and keeps 2*(defragTimestamp-initialTimestamp) <= len(ops). |
| `Updatable.DeletedValid` | updatable/pir_updatable_server.go:105-121 | Deleting keeps the server's log the compaction of the whole history. |
| `Updatable.LocalDefrag` | updatable/pir_updatable.go:171-182 | Compacting the client's old copy locally and appending the new operations gives the server's compacted log. |
| `Updatable.AnswerFits` | updatable/pir_updatable_server.go:123-147 | A client's request is always answered by something that it can process without going out of bounds, whatever list it gets. |
| `Updatable.AnswerAssembles` | updatable/pir_updatable.go:138-182 | Whatever compaction the client missed, what it keeps and what it is sent make up the server's log. |
| `Updatable.ProcessedSyncs` | updatable/pir_updatable.go:138-206 | A list that the client gets brings it in step with the server exactly when it is the one sent. |
| `Updatable.UpdateSyncs` | updatable/pir_updatable.go:138-206 | After an update the client's operations, timestamps, row count and index are those of the server exactly when the list of keys arrives, whatever the coding of lists. |
| `Updatable.FailedUpdate` | updatable/pir_updatable.go:138-157 | An update whose list cannot be decoded reports an error and changes nothing, unless the answer told the client to drop everything, which it then has done. |
| `Updatable.RunValid` | updatable/pir_updatable.go:138-206 | Over any interleaving of additions, deletions, compactions and updates, failing ones included, server and client stay valid for the history, as long as no list arrives changed. |
| `Updatable.ClientAgrees` | updatable/pir_updatable.go:66-90 | After any such run one more update makes the client agree with the server, whose map is the meaning of the history, exactly when its list arrives. |
| `KeyTransport.DeliversExactly` | updatable/pir_updatable_server.go:194-201 | A list of keys arrives unchanged exactly when it is not sorted, or has at most one key, or is neither too dense nor too uneven for the chosen parameter. |
| `KeyTransport.DenseRefused` | updatable/rice.go:192-204 | A sorted list whose range is at most half its length is refused by the decoder. |
| `KeyTransport.NeighboursRefused` | updatable/rice.go:192-204 | Failing input: the keys 7 and 8. |
| `KeyTransport.SilentLoss` | updatable/rice.go:192-230 | Failing input: the keys 0 to 32 and 65 arrive as 0 to 32 and 64, without an error. |
| `RiceUpdates.ClientAgrees` | updatable/pir_updatable.go:66-90 | With lists coded as they are: if every update so far sent a list that arrives or a dense one, one more makes the client agree with the server exactly when its list arrives. |
| `RiceUpdates.ReadsAreCurrent` | updatable/pir_updatable.go:66-128 | ... and then reading any key returns what the whole history says. |
| `RiceUpdates.NeighboursFail` | updatable/pir_updatable.go:66-90 | Failing input: once a server has logged keys 7 and 8, every update of a new client ends in an error and leaves it empty. |
| `RiceUpdates.LastKeyLost` | updatable/pir_updatable.go:66-90 | Failing input: a first batch of keys 0 to 32 and 65; the update reports success and the client does not know key 65. |
| `Updatable.DefragMonotone` | updatable/pir_updatable_server.go:105-121 | On every run the compacted part stays in the first half of the log, defragTimestamp never decreases, and initialTimestamp+len(ops) only grows by what is logged. |
| `UpdatableRead.NewRowsBehind` | updatable/pir_updatable.go:138-193 | Unless the layers are thrown away, the new rows are those behind the rows that the client has seen. |
| `UpdatableRead.UpdateKeeps` | updatable/pir_updatable.go:66-90 | An update whose list arrives or is refused keeps index, layers and server in agreement. |
| `UpdatableRead.RunValid` | updatable/pir_updatable.go:66-90 | Over any run in which no list arrives changed, the layers of any scheme but SinglePass read from the table as the client last saw it. |
| `UpdatableRead.ReadsAreCurrent` | updatable/pir_updatable.go:66-128 | After any such run and one more update whose list arrives, reading a key returns what the whole history says, and fails exactly for absent keys. |
| `KeyValueStore.AddedIsRead` | updatable/pir_updatable_server.go:65-89 | After any run, once rows have been added and an update whose list arrives has been made, reading a key returns the row last passed in for it. |
| `KeyValueStore.DeletedIsGone` | updatable/pir_updatable_server.go:105-121 | After a deletion and such an update a deleted key is not found. |
| `KeyValueStore.OthersAreKept` | updatable/pir_updatable_server.go:65-121 | Keys that were neither added nor deleted are read as before. |
| `Batches.SortByKeySorts` | updatable/pir_updatable_server.go:80 | The batch is logged in key order. |
| `Batches.AddedStores` | updatable/pir_updatable_server.go:76-84 | Adding a batch gives every key the row last passed in for it and leaves all other keys alone. |
| `Batches.AnyOrderStores` | updatable/pir_updatable_server.go:80-84 | Whatever order sorting leaves equal keys in, an added key holds one of the rows passed in for it. |
| `Batches.AddedLogs` | updatable/pir_updatable_server.go:75-86 | What is logged is, as a multiset, the pairs of key and row passed in, as additions in key order. |
| `Batches.DeletedRemoves` | updatable/pir_updatable_server.go:105-111 | Deleting removes exactly the keys passed in. |
| `Batches.DeletedMeans` | updatable/pir_updatable_server.go:105-121 | The keys are gone and logged in order; while the log is at most four times as long as the map nothing else happens, otherwise its first half is compacted and its second half stays. |
| `UpdatableObjects.OpsToRows` | updatable/pir_updatable_server.go:204-212 | The loop collects the rows of the additions. |
| `UpdatableObjects.IsSorted` | updatable/pir_updatable_server.go:194 | The backward scan over neighbours decides sortedness. |
| `UpdatableObjects.OpsToKeyUpdates` | updatable/pir_updatable_server.go:180-202 | The packed deletion bits are dropped when there is no deletion; the keys are Rice-coded exactly when they are sorted. |
| `UpdatableObjects.Server.AddRows` | updatable/pir_updatable_server.go:65-89 | Every key holds the row last passed in for it, all others are as before, and the pairs passed in are what is logged; an empty batch changes nothing. |
| `UpdatableObjects.Server.DeleteRows` | updatable/pir_updatable_server.go:105-121 | The map loses exactly the keys passed in, whether or not the log is compacted, and the log is compacted exactly when it has become too long. |
| `UpdatableObjects.Server.KeyUpdatesFor` | updatable/pir_updatable_server.go:123-147 | The answer, with its coded or plain keys, is the one of the state machine. |
| `UpdatableObjects.Client.UpdatePositionMap` | updatable/pir_updatable.go:195-206 | The loop continues the index over the new operations. |
| `UpdatableObjects.Client.ProcessKeyUpdate` | updatable/pir_updatable.go:138-193 | The keys are decoded; fields, error and number of new rows are those of the processed state, and the layers are reset exactly when it says so. |
| `UpdatableObjects.Client.Update` | updatable/pir_updatable.go:66-90 | A whole update against a server object, the error return included, is one step of the state machine. |
| `Waterfall.ScanResult` | updatable/pir_waterfall.go:125-140 | The scan stops at the last layer that holds itself, all below it and the new rows, having emptied those below. |
| `Waterfall.ScanStopsFirst` | updatable/pir_waterfall.go:125-134 | Every layer below the one that the scan stops at would be too full with itself, those below it and the new rows. |
| `Waterfall.HalvingsShape` | updatable/pir_waterfall.go:50-63 | Capacities halve, and only the last one is no larger than the smallest layer. |
| `Waterfall.UpdatedTiles` | updatable/pir_waterfall.go:125-154 | The rebuilt layers tile the table again, with the rebuilt one as the last nonempty one. |
| `Waterfall.RunTiles` | updatable/pir_waterfall.go:37-168 | After any sequence of requests, hints and resets the layers tile the rows contiguously and none exceeds its maximum. |
| `Waterfall.RunTyped` | updatable/pir_waterfall.go:90-154 | After any such sequence a layer with rows has the client's scheme, but the smallest one of a scheme with hints has DPF; only layers that need a hint are ever without a client. |
| `Waterfall.GrownAttached` | updatable/pir_waterfall.go:90-168 | A request and its hint leave every layer that has a client with one that reads from its window of the grown table. |
| `Waterfall.GrownServed` | updatable/pir_waterfall.go:90-168 | Afterwards a layer lacks its client exactly if it lacked it before and lies above the rebuilt one. |
| `Waterfall.GrownReady` | updatable/pir_waterfall.go:90-168 | So if every hint is fetched, every layer reads from its window. |
| `Waterfall.RoutedExactly` | updatable/pir_waterfall.go:190-215 | In every tiled state a position is asked of the layer that holds it, at its place there, exactly when no layer up to and including that one lacks its client. |
| `Waterfall.AllRoutedExactly` | updatable/pir_waterfall.go:190-215 | In every tiled state all rows are routed to their layers exactly when no layer with rows lacks its client. |
| `Waterfall.RunRoutes` | updatable/pir_waterfall.go:37-215 | That is what holds after any sequence of requests, hints and resets. |
| `Waterfall.MissedHint` | updatable/pir_waterfall.go:190-215 | Failing input: after requests for 8 rows and 1 row without a hint, position 5 matches no layer and position 0 is asked of the wrong one. |
| `Waterfall.QueryScanRight` | updatable/pir_waterfall.go:190-215 | As far as no layer lacks its client, the query loop sends each layer its own window, and the position to the one that holds it. |
| `Waterfall.ReadRight` | updatable/pir_waterfall.go:177-230 | When no layer lacks its client, every row of the table is read through exactly one layer, and no other position is. |
| `Waterfall.ReadsExactly` | updatable/pir_waterfall.go:177-230 | All rows can be read exactly when no layer with rows lacks its client, for every scheme but SinglePass. |
| `WaterfallClients.WaterfallClient.LayersMaxSizes` | updatable/pir_waterfall.go:50-63 | The loop gives the halving maxima down to the smallest layer. |
| `WaterfallClients.WaterfallClient.UpdateLayers` | updatable/pir_waterfall.go:125-154 | The fields become those of the rebuilt layers, and the returned number is the rebuilt one. |
| `WaterfallClients.WaterfallClient.HintUpdateRequest` | updatable/pir_waterfall.go:90-123 | The request names the rebuilt layer's window; a stateless layer is ready at once. |
| `WaterfallClients.WaterfallClient.InitHints` | updatable/pir_waterfall.go:156-168 | The hint is attached to the last nonempty layer. |
| `WaterfallClients.WaterfallClient.Query` | updatable/pir_waterfall.go:190-215 | The loop's lists and matching layer are those of the routing function. |
| `Dpf.ChildPair` | modules/dpf-go/dpf/dpf.go:102-158 | On the path the control bits of the children differ again; off it seeds and bits coincide, whatever the correction word's seeds. |
| `Dpf.WalkPair` | modules/dpf-go/dpf/dpf.go:71-211 | At every level the two walks differ in the control bit while x shares alpha's prefix and coincide afterwards. |
| `Dpf.SamePathMeans` | modules/dpf-go/dpf/dpf.go:171-211 | Two inputs take the same path exactly when they agree above the lowest seven bits. |
| `Dpf.PointFunction` | modules/dpf-go/dpf/dpf.go:71-211 | For all logN, alpha, x below 2^logN and all seeds the two evaluations differ exactly when x is alpha. |
| `Dpf.KeysShape` | modules/dpf-go/dpf/dpf.go:71-169 | The parties hold their own seeds without the lowest bit, opposite control bits, the first being that lowest bit, and the same words. |
| `Dpf.ChildBits` | modules/dpf-go/dpf/dpf.go:59-70 | Bit by bit, a child is the cipher's output less its lowest bit, which becomes the control bit, both corrected when the parent's control bit is set. |
| `Dpf.LeafValue` | modules/dpf-go/dpf/dpf.go:171-211 | The value at a point is that bit of the converted seed, corrected by the final word when the control bit is set. |
| `DpfKeys.Layout` | modules/dpf-go/dpf/dpf.go:83-168 | Where seed, control bit, correction words and final word are in a serialised key. |
| `DpfKeys.LayoutEnds` | modules/dpf-go/dpf/dpf.go:83-95 | Seed and control bit come first, the final word last. |
| `DpfKeys.GenLevel` | modules/dpf-go/dpf/dpf.go:102-158 | One level of the byte-level generator writes the correction word and moves both seeds and bits to the children on the path. |
| `DpfKeys.Gen` | modules/dpf-go/dpf/dpf.go:71-169 | The two byte keys are the serialised keys of the scheme. |
| `DpfKeys.Eval` | modules/dpf-go/dpf/dpf.go:171-211 | Evaluating a byte key is evaluating the key it serialises. |
| `DpfKeys.LeavesBit` | modules/dpf-go/dpf/dpf.go:213-262 | Bit x of the concatenated leaves is the evaluation at x. |
| `DpfKeys.EvalFullRecursive` | modules/dpf-go/dpf/dpf.go:213-241 | The recursion appends exactly the leaves below its node to the shared buffer and keeps the levels above it. |
| `DpfKeys.EvalFull` | modules/dpf-go/dpf/dpf.go:243-262 | The full evaluation is the concatenation of all leaves. |
| `DpfPir.ProductsDiffer` | pir/pir_dpf.go:18-31 | Bit vectors that differ in one place give products that XOR to exactly that row. |
| `DpfPir.LanesFold` | psetggm/xor.cpp:377-443 | The eight accumulators of the 32-byte kernel together hold the product. |
| `DpfPir.ProductByBits` | pir/pir_dpf.go:18-31 | The plain loop computes the product. |
| `DpfPir.ProductByLanes` | psetggm/xor.cpp:377-443 | The kernel with eight lanes, dummy registers and a tail loop computes the same product. |
| `DpfPir.MatVecProduct` | pir/pir_dpf.go:18-31 | Both branches compute the product for every table. |
| `DpfPir.ReadCorrect` | pir/pir_dpf.go:59-95 | Whatever seeds are drawn, the two servers' answers XOR to the row. |
| `DpfPir.Read` | pir/pir_dpf.go:59-95 | Query, both servers and reconstruct on byte keys return the row. |
| `GgmTree.GetHeight` | psetggm/pset_ggm.cpp:7-16 | The halving loop returns the ceiling of the logarithm, at least 1. |
| `GgmTree.ChildrenAre` | psetggm/pset_ggm.cpp:107-119 | The children are the cipher's images of the key and of a copy that differs in one bit, each with its input folded in; they differ unless two inputs have the same such image. |
| `GgmTree.NodeKeyIs` | psetggm/pset_ggm.cpp:96-119 | The seed is the root; key i of a layer has the keys 2i and 2i + 1 of the next as its left and right child. |
| `GgmTree.ElementIs` | psetggm/pset_ggm.cpp:121-130 | An element is the multiply-and-shift reduction of its word of the last layer. |
| `GgmTree.PathBound` | psetggm/pset_ggm.cpp:140-185 | The node on the path and its sibling are inside their layer. |
| `GgmTree.PuncNodeIsKey` | psetggm/pset_ggm.cpp:187-225 | A punctured key gives every key of the tree off the path. |
| `GgmTree.PuncturedEval` | psetggm/pset_ggm.cpp:96-225 | For every seed and position, evaluating the punctured key gives the full evaluation with the position removed, and the punctured key has pset_buffer_size bytes. |
| `GgmTree.PuncLeavesOut` | psetggm/pset_ggm.cpp:140-185 | In a punctured key the punctured word is zero, the other words of the last block are those of the set, and every other block is the key of a node beside the path, never of an ancestor of the hole. |
| `GgmTree.PuncForgets` | psetggm/pset_ggm.cpp:140-185 | The punctured key does not depend on the punctured word. |
| `GgmSets.Generator.ExpandLayer` | psetggm/pset_ggm.cpp:107-119 | Duplicating, toggling, encrypting and XORing in place turns a layer of keys into the next one, whatever the buffers held. |
| `GgmSets.Generator.Eval` | psetggm/pset_ggm.cpp:96-130 | The breadth-first loop computes the full evaluation, whatever the workspace held. |
| `GgmSets.Generator.Punc` | psetggm/pset_ggm.cpp:140-185 | The walk writes the punctured key: keys beside the path, and last the key of the hole with the punctured word zero. |
| `GgmSets.Generator.LoadLayers` | psetggm/pset_ggm.cpp:187-211 | From a punctured key every layer has the right keys off the path. |
| `GgmSets.Generator.EvalPunctured` | psetggm/pset_ggm.cpp:187-225 | The in-place evaluation computes the evaluation of the punctured key. |
| `WordBits.RoundToPowerOf2` | psetggm/pset_ggm.cpp:231-240 | The shift-or trick gives the least power of two that reaches its argument, for every argument from 1 to 2^32. |
| `Distinct.FastHash` | psetggm/pset_ggm.cpp:227-229 | The mask is the remainder by the table size. |
| `Distinct.TableFits` | psetggm/pset_ggm.cpp:242-250 | With n = set_size the probe table fits the workspace. |
| `Distinct.ProbeEnds` | psetggm/pset_ggm.cpp:252-270 | A probe meets an empty slot or its element after fewer steps than there are slots. |
| `Distinct.HoldsInsert` | psetggm/pset_ggm.cpp:252-270 | Storing at the end of a probe keeps every element findable, through wraparound. |
| `Distinct.Insert` | psetggm/pset_ggm.cpp:252-270 | The probe loop ends and reports exactly whether the element was there. |
| `Distinct.AllDistinct` | psetggm/pset_ggm.cpp:242-272 | In any buffer of the size that the generator allocates, true is returned exactly when no nonzero value occurs twice. |
| `GgmDepthFirst.TreeEvalIsLeaf` | pir/pset_ggm.go:93-107 | The walk from the root with cleared bits reaches the leaf that the parent-to-child recurrence defines. |
| `GgmDepthFirst.ChildrenAre` | pir/pset_ggm.go:111-124 | The children are the cipher's images of the key and of a copy that differs in one bit, each with its input folded in. |
| `GgmDepthFirst.NodeAtIs` | pir/pset_ggm.go:125-163 | The key is the root; node i has the nodes 2i and 2i + 1 of the next layer as its left and right child. |
| `GgmDepthFirst.LeafIs` | pir/pset_ggm.go:105 | A leaf is the remainder of the key's first word by the size of the universe. |
| `GgmDepthFirst.TreeEvalLoop` | pir/pset_ggm.go:93-107 | The loop computes treeEval, for every position. |
| `GgmDepthFirst.Climb` | pir/pset_ggm.go:132-139 | After a leaf the climb stops at the first ancestor entered from the left, or above the root when all leaves are written. |
| `GgmDepthFirst.TreeEvalAll` | pir/pset_ggm.go:125-163 | The in-place walk terminates and writes treeEval(key, p) for every p, and nothing else. |
| `GgmPunctured.LeavesSplit` | pir/pset_ggm.go:152-162 | The leaves of a tree are those of its left and then of its right half. |
| `GgmPunctured.PunctLeavesRight` | pir/pset_ggm.go:165-231 | From the keys beside the path come all leaves but the hole's, in order. |
| `GgmPunctured.CopathBeside` | pir/pset_ggm.go:165-195 | Every key of a punctured set is that of a child of an ancestor of the hole that is no ancestor itself. |
| `GgmPunctured.PuncturedSetEval` | pir/pset_ggm.go:206-231 | Evaluating a punctured set gives the set without that element, also when the set fills only part of the tree. |
| `GgmPunctured.FindPos` | pir/pset_ggm.go:80-87 | The first position of an element, -1 exactly when there is none. |
| `GgmPunctured.Punc` | pir/pset_ggm.go:165-195 | The punctured set holds the keys beside the path to the first occurrence, none of them of an ancestor of the hole; it fails exactly for absent elements. |
| `GgmPunctured.PuncturedTreeEvalAll` | pir/pset_ggm.go:217-231 | The recursion over output slices writes exactly the leaves of the punctured tree. |
| `GgmPunctured.PuncAndEval` | pir/pset_ggm.go:165-231 | End to end: the set with the first occurrence of the element removed. |
| `PuncSets.EvalAt` | pir/pset.go:132-147 | Without wrap-around the client's 32-bit shift is addition modulo the universe. |
| `PuncSets.GenKeyIs` | pir/pset.go:63-78 | A generated set has a shift below the set size, the one that is drawn. |
| `PuncSets.GenWithHolds` | pir/pset.go:80-96 | The set that GenWith makes holds the wanted element, at the position drawn. |
| `PuncSets.NextId` | pir/pset.go:98-119 | The rejection loop ends at the first unused id whose elements are distinct. |
| `PuncSets.AnswerNative` | psetggm/answer.cpp:11-27 | The native kernels, punctured evaluation, shift and fold included, return the parity of the set less one row. |
| `PuncSets.ServerSees` | pir/pset.go:156-181 | What the server regenerates from a punctured set is the client's set without the first occurrence of the element. |
| `PuncSets.AnswerIsParity` | psetggm/answer.cpp:11-27 | The server's answer is the parity of the set less one row, also when the set holds that element twice. |
| `PuncClients.ScanSetsRight` | pir/pir_punc.go:165-180 | The scan over all sets finds a set that holds the row whenever there is one, and its pointer repairs are sound. |
| `PuncClients.FindIndexRight` | pir/pir_punc.go:153-183 | Lookup returns a set that holds the row exactly when the row is covered, and keeps the reverse index sound. |
| `PuncClients.ScanSetsRepairs` | pir/pir_punc.go:153-183 | A lookup leaves a valid pointer for every row of the sets that it has passed over. |
| `PuncClients.ReplacedSound` | pir/pir_punc.go:274-286 | Replacing a set leaves no pointer to it that is wrong. |
| `PuncClients.ReplacedPoints` | pir/pir_punc.go:274-286 | Every row of the new set points to it. |
| `PuncClients.AnswersAre` | pir/pir_punc.go:200-256 | In each of the three cases the two servers answer the parities of the fresh or the old set, one row short. |
| `PuncClients.QueriesAsk` | pir/pir_punc.go:200-256 | In every case each request carries an extra element that its server can see in its own punctured set, so other than the one left out; that one is the queried row, or in one request of cases 1 and 2 the other server's extra element. |
| `PuncClients.ReadFromResult` | pir/pir_punc.go:305-336 | In each case the row comes out, and only the refreshed hint changes, to the parity of the fresh set. |
| `PuncClients.ReadFromCorrect` | pir/pir_punc.go:200-336 | A read that goes ahead returns the row and keeps hints and reverse index right. |
| `PuncClients.ReadCorrect` | pir/pir_punc.go:200-336 | A read succeeds exactly for covered rows, and keeps everything right either way. |
| `PuncClients.RunCorrect` | pir/pir_punc.go:200-336 | Over runs of any length every read succeeds exactly when its row is covered at that point, then returns it, and hints and reverse index stay right. |
| `PuncClients.ReadIds` | pir/pir_punc.go:200-256 | A read that draws a set takes an id that no stored set has. |
| `PuncClients.RunIds` | pir/pset.go:98-119 | Over a run the ids of the sets drawn increase strictly. |
| `PuncObjects.GeneratedSame` | pir/pir_punc.go:113-135 | Client and server, each with its own generator, generate the same ids. |
| `PuncObjects.InitPointersSound` | pir/pir_punc.go:113-135 | The reverse index built set by set is sound. |
| `PuncObjects.InitPointersComplete` | pir/pir_punc.go:113-135 | At first every row of a set has a pointer. |
| `PuncObjects.InitialValid` | pir/pir_punc.go:64-135 | The client that the offline phase sets up satisfies the invariant. |
| `PuncObjects.ProcessHint` | pir/pir_punc.go:64-86 | The server's hints are the parities of the generated sets. |
| `PuncObjects.PuncClient.constructor` | pir/pir_punc.go:96-135 | The client object starts in the initial state. |
| `PuncObjects.PuncClient.Find` | pir/pir_punc.go:153-183 | The method, pointer repairs included, is the lookup of the state machine. |
| `PuncObjects.PuncClient.ReplaceSet` | pir/pir_punc.go:274-286 | Old pointers are cleared, the key stored, new pointers set. |
| `PuncObjects.PuncClient.Query` | pir/pir_punc.go:200-256 | The lookup, and for a covered row two requests each with an extra element of its own punctured set; requests and state left are those of the state machine. |
| `PuncObjects.PuncClient.Reconstruct` | pir/pir_punc.go:305-336 | The row returned and the hint rewritten are those of the state machine. |
| `PuncObjects.ProcessQuery` | pir/pir_punc.go:296-303 | The server's answer is the parity of the punctured set and the extra row. |
| `PuncObjects.PuncClient.Draw` | pir/pir_punc.go:200-256 | The requests, made with the native generator, carry extra elements of their own punctured sets, other than the element left out, and the state left is that of the state machine. |
| `RiceCode.ReadBack` | updatable/rice.go:67-93 | A number whose quotient is at most 32 is read back, whatever follows. |
| `RiceCode.CodeShape` | updatable/rice.go:215-230 | A code is min(q, 32) ones, a zero, zeros for what is missing of q, and the remainder. |
| `RiceCode.BitsOfAt` | updatable/rice.go:215-230 | Bit j of a written number is bit j of the number: the lowest comes first. |
| `RiceCode.ReadAllBack` | updatable/rice.go:17-41 | So is a list of such numbers. |
| `RiceCode.AtMost32` | updatable/rice.go:215-230 | No encoding starts with more than 32 ones, as the unary word has 32 bits. |
| `RiceCode.NotReadBack` | updatable/rice.go:215-230 | A number with a larger quotient is never read back. |
| `RiceCode.ReadAllExactly` | updatable/rice.go:17-41 | A list of differences is read back exactly when no quotient exceeds 32. |
| `Rice.RoundTrip` | updatable/rice.go:18-41 | Decoding the encoding gives the list exactly when it has one element, or at most 2^31 elements, a parameter in 0..32 and quotients of at most 32; sorted or not. |
| `Rice.EncodeHeader` | updatable/rice.go:171-190 | Beside its bits an encoding carries the first value, the number of differences and the parameter; nothing else for a single value. |
| `Rice.LeftUnread` | updatable/rice.go:36-39 | Then fewer than eight zero bits stay unread. |
| `Rice.PackedBits` | updatable/rice.go:146-164 | The bytes written hold exactly the bits written, padded with fewer than eight zeros. |
| `Rice.BitWriter.WriteBit` | updatable/rice.go:151-163 | Buffer, position and mask follow the bits written. |
| `Rice.BitWriter.WriteValue` | updatable/rice.go:215-230 | What is written for a number is its code, with the 32-bit wrap-around of quotient + 1. |
| `Rice.EncodeWithParam` | updatable/rice.go:171-190 | The loop over differences computes the encoding. |
| `Rice.BitReader.ReadBit` | updatable/rice.go:111-121 | One bit is taken off the unread ones; it fails exactly at the end. |
| `Rice.BitReader.ReadBits` | updatable/rice.go:104-123 | n bits are read as a number, least significant first. |
| `Rice.BitReader.ReadValue` | updatable/rice.go:67-93 | One number is read as the decoding function says, errors included. |
| `Rice.BitReader.BitsRemaining` | updatable/rice.go:126-132 | The mask loop counts exactly the unread bits. |
| `Rice.DecodeRice` | updatable/rice.go:18-41 | The method computes the decoding, with all its error cases. |
| `RiceSize.ParameterSign` | updatable/rice.go:196-202 | The chosen parameter is nonnegative exactly when the range is 0 or more than half the length, and then range < n * 2^(k+1). |
| `RiceSize.ParameterIs` | updatable/rice.go:196-202 | The parameter is the logarithm of range by length to base 2, cut off towards zero, and 1 for an empty range. |
| `RiceSize.QuotientsBelow` | updatable/rice.go:192-204 | The quotients of a sorted list add up to less than twice its length. |
| `RiceSize.SizeBound` | updatable/rice.go:146-230 | Every quotient is below 2n, the bits are fewer than 2n+(n-1)(k+1), and the data is the bits rounded up to bytes. |
| `RiceSize.ShortListRoundTrip` | updatable/rice.go:192-204 | A sorted list of 2 to 16 values survives its own choice of parameter exactly when its range is 0 or more than half its length. |
| `RiceSize.ListRoundTrip` | updatable/rice.go:192-204 | A sorted list of any length survives exactly when, besides, it has at most 2^31 values and no difference reaches 33 * 2^k. |
| `RiceSize.LongListsFail` | updatable/rice.go:192-204 | Sixteen is the limit of the unconditional round trip: of every larger length a sorted list with a usable parameter is lost. |
| `RiceSize.EncodeRice` | updatable/rice.go:192-204 | The method chooses the parameter and encodes. |

## Left out

- Privacy: what the servers learn, distributions of draws, the odds of the three query cases and the running time of rejection sampling are probabilistic and not functional correctness.
- Transport: remote calls, TLS, serialisation, drivers, proxies, benchmarks and profiling are plumbing.
- Cipher and kernels: AES, SIMD intrinsics, alignment and pointers across the language border are abstracted to total functions and plain loops; the eight-lane kernel keeps its lanes and dummy registers.
- Floating point: square root and logarithm are the integer square root and the floor or ceiling of the logarithm, the value that the library rounds to.
- Row length: one arbitrary length for all rows; the fatal error for a batch of another length is not modelled. Flat byte buffers of rows are sequences of rows, except in `StaticDb`, where the table is its bytes.
- Integer width: row counts, timestamps, versions and set ids are unbounded; words, shifts, deltas, hashes and the number of Rice entries are 32-bit where the library's arithmetic can wrap around. Sets of puncturable elements have at most 2^28 elements, so that four times as many slots fit the library's 32-bit int.
- Aliasing: permutations and hints of a client are values in its fields; slices that share memory with a response are not.
- RiceUpdates.ClientAgrees: an update that silently takes in other keys ends the runs that are described; what a client makes of later answers is not. Errors of the remote calls themselves are not events, but the layers are described for every sequence of requests and hints, missing hints included.
- Batches.AddedStores: sorting keeps the order of equal keys here, which the library's sort does not promise; `AnyOrderStores` and the theorems of `Updatable` hold for a batch in any order.
- SinglePassSystem.Run: runs contain reads by clients in sync only; `StaleRead` says what one read by another client returns, not what its parities are afterwards.
- SinglePassSystem.StartValid: the database starts with n*n rows; `OblongMisaligns` is the case of r*n rows with r < n, and when the set size does not divide the number of rows the last rows are in no chunk, which is not described further.
- Log unloading: the hook that would drop old operations is empty in the library, so the version at the start of the log stays 0.
- Waterfall.ReadRight: the client of a layer is abstract, one that reads right from the rows it was hinted with; SinglePass layers are excluded from the theorems about reads, because the server's answer to their dummy query divides by a set size of 0; tiling and routing are proved for them too.
- GgmDepthFirst.TreeEvalLoop: evaluation of a single element of a punctured set is unused in the library and not part of this model, nor is the older breadth-first evaluation.
- PuncClients.ReadCorrect: the draw of a member other than a given one needs a set with two different elements; the duplicate check lets the element 0 repeat, so such a set is a hypothesis on the draws, not a consequence.
- PuncSets.NextId: that some unused id gives distinct elements is a hypothesis about the cipher.
- Non-private, matrix and position-map code: easy members next to the above.
- Overlapping queries of one client: the library allows one outstanding query.
