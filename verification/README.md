# Digital Ghost, a verified model

Digital Ghost captures screen frames, describes them with a local model and keeps the descriptions in an encrypted store.
This project models its stateful core in Dafny and proves how it behaves over whole runs: the crash-recoverable store, the
frame queue, the rate governor and the inference loop, similarity search and coherence, the privacy blocklist and gate,
frame scaling, and the parsing of model replies.

## How the model is built

**Store.** `FileSystem` holds the store's directory as a value and its system calls as functions on it. `StoreModel` gives,
for each operation, the list of calls it makes, computed from the disk it starts on (append to the log, write the node file,
write the temporary index, rename it, remove). A stop point lies between two calls or inside one, and leaves any prefix of a
log line, of a node file or of the temporary index; rename and remove are all or nothing. A failing call leaves what a crash
there would leave, so one notion serves crashes and I/O errors. `Wal` has the log's text and its parsing, `Fragments` logs that
end in the middle of a line. `Startup` proves that startup can be restarted, `Faults` what startups, writes and deletes leave
whose own calls fail while the process goes on, `History` the invariant, and `Recovery` the theorems over lives of the store:
any list of startups, writes, deletes and kills, each of which may fail at any of its calls and may end in a crash.
`CrashLives` states what is left of them in plain terms when only crashes happen. `FailedMigration` follows a migration that
fails. `JsonStores` has the classes, with the loops of the code, proved to make exactly those calls, whichever of them fail;
failures are nondeterministic.

**Sealing.** A MAC byte is a symbol carrying the key and the whole authenticated message, a ciphertext byte a symbol carrying
key, nonce and plaintext (idealised HMAC, section 2 of RFC 2104, and AES-GCM, section 7 of NIST SP 800-38D). Records are flat
sequences of such symbols, sliced and cut as the code slices and a crash cuts them. The record layout, the 64-bit big-endian
timestamp and the order of the authenticated fields are those of the code. JSON is a lossless codec whose text length is a
parameter.

**Concurrency.** The queue, the inference goroutine with ticker and metrics, and the gate with reload and pause are state
machines with one step per lock section, channel operation or atomic load; the theorems range over every interleaving. The
queue class, the governor and the inference loop are classes too: the queue's methods are proved against the same functions
the protocol uses, and the governor and the loop are proved to perform only runs of the protocol.

**Numbers.** Timestamps are 64-bit nanosecond counts, parsed with their range check. Similarity and frame geometry are over
exact reals; the square root is a parameter that is required to be one. The backoff wraps at 64 bits, as in the code.

## What the proofs assume about the store

- Ids are fresh for each write, as generated from 16 random bytes.
- `index.enc` is absent or opens if it can be read: this is part of the invariant and proved to be kept.
- Reads that change nothing on disk succeed, and so do stats: of node files, of the legacy index, and of `index.enc` in Read
  or while the cache is loaded.

Nothing else is assumed to succeed, and no failure is kept out of the lives of `Recovery`: a log append may leave any part of
its line while the process goes on, the next line is then glued to it, the index may be unreadable when a row is added to it
(the code then saves the new row alone), saves may fail in writes, deletes, replays and the migration, the log may be
unreadable or impossible to remove, and a crash may follow at any point.

Such a failure can cost a node its row: the node is then `Forgotten`, with its file there but not the row that the next startup
would have to give it. `CostsExactly` says of every event whom it costs, and `ForgottenExactly` of every life who is forgotten
after it. In the code's terms, a node is lost by

- its own write, if it leaves a file, does not save its row, and leaves less than its line in the log or has it glued to a
  fragment (`WriteReads`);
- a later write whose line runs into the fragment that was its only entry (`GluedLineCosts`);
- a save of the index that could not read it, if no log names the node any more (`BlindSaveCosts`);
- a startup in which the save of its row failed and the log was removed all the same (`FailedReindexOrphans`);
- a failed migration, as soon as anything saves an index (`LegacyRowsSurvive`).

Conversely, a life with none of these failures forgets nobody, wherever crashes come (`SafeLifeForgetsNobody`), and a node that
neither rows nor log name stays lost (`OrphanStaysLost`).

## Where the code and its own comments differ

The model follows the code.

- internal/storage/jsonstore.go:10 speaks of a plaintext index; the code keeps an encrypted one.
- internal/storage/jsonstore.go:86 says a failed index migration is rebuilt on the next write; the next save, by a
  write, a delete or the replay, makes the legacy rows go (`LegacyRowsSurvive`).
- internal/filter/blocklist.go:6-7 says an unreadable or malformed file blocks every window; the code keeps the list it had
  (`UnusableFileBlocksOnlyDefaults`).
- internal/inference/throttle.go:66-69 says a grant waits for low load and a token; the load is read before the wait for the
  token and may be stale (`GrantMayBeStale`, `GrantIsFreshWhen`).
- cmd/digitalghost/main.go:436-440 caps the backoff at a minute; from 34 failures in a row on the 64-bit product overflows and
  the wait may be skipped, and from 55 on it always is (`BackoffIsCapped`).
- internal/inference/ollama.go:333-335 speaks of replacing sentences; the code replaces the whole description.
- internal/storage/encrypt.go:67 speaks of the key copy; the code zeroes the caller's slice.

## Model

| member | source | states |
|---|---|---|
| Wal.ParsePrintedLog | internal/storage/jsonstore.go:393-443 | Reading back a log written without interruption gives exactly its entries, for all ids and 64-bit timestamps. |
| Wal.ParseLogPrefix | internal/storage/jsonstore.go:422-443 | Any byte prefix of a log reads as the entries of its whole lines plus at most one more, with the cut line's id and a shortened timestamp. |
| Wal.ParseConcat | internal/storage/jsonstore.go:393-401 | Appending to a log that ends in a whole line never disturbs the entries already there. |
| Wal.PrintedLogMayGrow | internal/storage/jsonstore.go:393-401 | A log written without interruption, with any text appended, reads as its entries and then that text's. |
| Wal.ParseCutLine | internal/storage/jsonstore.go:428-442 | A torn append yields no entry or one entry for the same id. |
| Fragments.LineAfterTornAppend | internal/storage/jsonstore.go:393-443 | After an append torn at any character, the next whole line is read if nothing was left, lost with the torn one if a part was left, and both are read if the torn line was whole; the rest of the log is untouched. |
| Fragments.TornLineReadsRight | internal/storage/jsonstore.go:422-443 | A torn line reads as its own entry exactly if nothing but its line break is missing. |
| Fragments.GluedLineIsLost | internal/storage/jsonstore.go:422-443 | No line glued to a fragment reads as anything, whatever appends the fragment is made of. |
| Fragments.LogAppend | internal/storage/jsonstore.go:393-401 | A log of whole lines and one fragment, to which any part of a line is appended, is one again; its whole lines read as before, and what the last line reads as is fixed. |
| Fragments.FreshLogged | internal/storage/jsonstore.go:393-443 | After such an append the log gives a new id its own timestamp exactly if no fragment was in the way and at most the line break is missing. |
| Fragments.OwnMention | internal/storage/jsonstore.go:422-443 | It mentions the new id at all exactly if no fragment was in the way and the append went past the blank after the id. |
| Text.HexRoundTrip | internal/storage/jsonstore.go:432 | Decoding an encoded id gives it back; so ids and their names correspond one to one. |
| Text.DigitsCut | internal/storage/jsonstore.go:436 | A prefix of a printed number is the number without its last digits. |
| Encrypt.OpenSeal | internal/storage/encrypt.go:81-140 | Opening what was sealed returns the plaintext, for every id, timestamp, nonce and document. |
| Encrypt.OpensIffSealed | internal/storage/encrypt.go:112-140 | A record opens to a document exactly when it is the record sealed under these keys for this id and timestamp. |
| Encrypt.RecordLayout | internal/storage/encrypt.go:81-152 | The bytes on disk: 32 of MAC, 12 of nonce, then the ciphertext; the MAC covers the id, the timestamp as eight bytes, most significant first, the nonce and the ciphertext. |
| Encrypt.MessageInjective | internal/storage/encrypt.go:143-152 | The authenticated byte string determines id, timestamp, nonce and ciphertext. |
| Encrypt.OpenBinds | internal/storage/encrypt.go:110-140 | A sealed record opens under its own keys, id and timestamp and under no others. |
| Encrypt.CutRecordNeverOpens | internal/storage/encrypt.go:112-126 | A record that lost any part of its tail opens for no key, id or timestamp. |
| Encrypt.GeneratedId | cmd/digitalghost/main.go:533-539 | A generated id has version 4 and variant 2, and every other bit of the random bytes. |
| Encrypt.IndexIsNoNode | internal/storage/jsonstore.go:56-66 | The sealed index never opens as a generated node, nor a node as the index, for all random bytes (ids from cmd/digitalghost/main.go:533-539). |
| Encrypt.Encryptor.Close | internal/storage/encrypt.go:71-76 | Every byte of the shared key slice is zero afterwards. |
| Encrypt.ClosedEncryptorOpensNothing | internal/storage/encrypt.go:64-76 | After closing, a record sealed before opens exactly if the key had been zero all along. |
| Encrypt.OpenAfterClose | internal/storage/encrypt.go:71-140 | The same of the object: seal, Close, open succeeds exactly if its key was zero before. |
| FileSystem.CrashConcat | internal/storage/jsonstore.go:142-162 | A crash in two operations one after the other is a crash in the first or in the second. |
| StoreModel.ZeroTimeWraps | internal/storage/jsonstore.go:581-590 | The instant that a missing row stands for is the zero time in nanoseconds since 1970, wrapped to 64 bits. |
| Startup.SaveCrash | internal/storage/jsonstore.go:532-549 | A stopped index save leaves the new rows exactly if its rename went through, else the old ones, and touches nothing else. |
| Startup.ReindexCrash | internal/storage/jsonstore.go:453-476 | A crash anywhere in replay leaves the rows of some prefix of the log replayed. |
| Startup.BootRun | internal/storage/jsonstore.go:72-138 | An uninterrupted startup ends with the replayed rows, no log and no readable legacy index, and touches no node file. |
| Startup.BootCrash | internal/storage/jsonstore.go:103-138 | A startup cut short anywhere leaves the rows that the next startup ends with unchanged. |
| Startup.StartupRestartable | internal/storage/jsonstore.go:406-486 | From every disk, after any number of interrupted startups, the one that completes ends with the same rows in the same order, the same files, no log and no legacy index as one uninterrupted run. |
| History.WriteKeepsInv | internal/storage/jsonstore.go:142-162 | Whatever fails in a write, with any part of its line logged, the index read or not, and wherever it stops, the store invariant holds. |
| History.BootKeepsInv | internal/storage/jsonstore.go:72-99 | Whatever fails in a startup (migration, reads, any saves of the replay, removing the log), the invariant holds. |
| History.DeleteKeepsInv | internal/storage/jsonstore.go:278-286 | Wherever a delete stops, the invariant holds, and once the file is removed it stays absent. |
| Rows.ReplayedFinds | internal/storage/jsonstore.go:461-476 | After a replay an id has the row it had, else the timestamp of its first log entry if its file exists, else none. |
| Faults.BootStoppedIs | internal/storage/jsonstore.go:84-99 | Whatever fails in a startup, the files stay, the log goes or stays whole, and the rows are the replay of the entries whose saves went through, each save that could not read the index starting from none. |
| Faults.FaultyStartupRow | internal/storage/jsonstore.go:461-476 | For every disk and every choice of failing saves, a node has a row afterwards exactly if it had one, or its file exists and the save of one of its log entries went through, the first of which gives the timestamp. |
| Faults.UntroubledStartup | internal/storage/jsonstore.go:72-99 | With no failing call this is the startup of the other theorems, nonces included. |
| Faults.CutStartupIsStopped | internal/storage/jsonstore.go:103-138 | Every startup that a crash cuts short, at any of its calls, leaves what one leaves whose later calls all failed; and the log goes only once the rows were migrated and every save went through. |
| Faults.CutWriteIsWritten | internal/storage/jsonstore.go:142-162 | The same of every write that a crash cuts short, in its log line too. |
| Faults.WrittenIs | internal/storage/jsonstore.go:142-162 | Whatever fails in a write on any disk: the file is there, in part or not, the row is added exactly if the rename went through (alone, if the index could not be read), and the rest is untouched. |
| Faults.BootDue | internal/storage/jsonstore.go:84-99 | For every node the row that the next complete startup gives it, after a startup in which anything failed, computed from the disk before it. |
| Faults.WriteDue | internal/storage/jsonstore.go:142-162 | The same after a write in which anything failed. |
| Faults.DeleteDue | internal/storage/jsonstore.go:278-286 | The same after a delete in which anything failed. |
| Recovery.RunKeepsGood | internal/storage/jsonstore.go:84-162 | The invariant holds at every moment of every life of the store; no failure is excluded. |
| Recovery.UnlistedFileIsLogged | internal/storage/jsonstore.go:146-158 | In every reachable state no id has two rows, every file is a prefix of what was sealed, and a file whose node is not forgotten has a row, or a log entry, with its sealing timestamp. |
| Recovery.ReadExactly | internal/storage/lancedb.go:167-191 | A read returns what was written or an error, and returns it exactly when the file is whole and its row has the timestamp it was sealed with (or it has none and was sealed at the one instant a missing row stands for). |
| Recovery.Recovers | internal/storage/jsonstore.go:403-486 | After any life, whatever failed in it, ending in a startup, every stored, not deleted and not forgotten node reads back equal, and a node reads back exactly when its file is whole and it is not forgotten (or it has no row and is sealed at the zero instant). |
| Recovery.WrittenNodeReadsBack | internal/storage/lancedb.go:132-191 | Whatever fails and comes after a write whose file got written, apart from deleting that node, the next startup reads it back with every field as written and schema version 1, exactly if it is not forgotten (or has no row and is sealed at the zero instant). |
| Recovery.DueAfterExactly | internal/storage/jsonstore.go:142-162 | Every event, whatever fails in it, leaves every node exactly the row to come and the file that are computed from the disk before it. |
| Recovery.CostsExactly | internal/storage/jsonstore.go:146-161 | Whom an event costs its row: a startup by its failing saves, a write its own node by an unlogged or glued line and no row, others by gluing their fragment or wiping their row, a delete others by saving an empty index before the migration. |
| Recovery.ForgottenExactly | internal/storage/jsonstore.go:146-161 | A node is forgotten after a life exactly if its file is there and an event of the life cost it its row, with no later one giving it back. |
| Recovery.SafeLifeForgetsNobody | internal/storage/jsonstore.go:142-162 | A life without those failures, with crashes anywhere and index saves of writes and deletes failing, forgets nobody. |
| Recovery.WriteReads | internal/storage/jsonstore.go:146-161 | From any state of any life, after a write that failed anywhere, the next startup reads its node, every field as written and schema version 1, exactly if the file is whole and, when its line met a fragment or left nothing, its save went through or it was captured at the zero instant; a logged line makes the file enough. |
| Recovery.WriteSparesOthers | internal/storage/jsonstore.go:146-161 | Every other node reads after the next startup as if that write had never begun, unless it could not read the index or its line met a fragment. |
| Recovery.GluedLineCosts | internal/storage/jsonstore.go:393-443 | A whole line glued to a fragment makes exactly those others forgotten that have a file, no row, and no entry of theirs in the whole lines. |
| Recovery.BlindSaveCosts | internal/storage/jsonstore.go:551-561 | A save that could not read the index leaves its own row alone; every other node gets what the log says of it, or nothing. |
| Recovery.StartupReads | internal/storage/jsonstore.go:461-481 | From any state of any life, after a startup in which anything failed, a node reads back exactly if its file is whole and these saves left it the row with its time (or none, and it is sealed at the zero instant). |
| Recovery.DeletedNodeNeverReturns | internal/storage/jsonstore.go:278-286 | After a completed delete no later crash, restart or replay brings back the node or its row. |
| Recovery.CutDeleteNeverReads | internal/storage/jsonstore.go:282-285 | A delete stopped anywhere after removing the file never lets the node be read again. |
| Recovery.CutWriteNeverReads | internal/storage/jsonstore.go:154-157 | A write stopped before its file was whole never yields a readable node, whatever its log append left. |
| Recovery.FreshStoreGood | internal/storage/jsonstore.go:72-82 | The empty directory satisfies the invariant, and nobody is forgotten in it. |
| Recovery.LegacyStoreGood | internal/storage/jsonstore.go:101-138 | So does the directory of an earlier version whose plaintext index lists every file. |
| Recovery.OrphanStaysLost | internal/storage/jsonstore.go:467-480 | A file known to neither rows nor log, fragments included, stays so through every later life, and reads exactly if it is still whole and sealed at the zero instant. |
| Recovery.FailedReindexOrphans | internal/storage/jsonstore.go:470-481 | The log goes although saves failed: orphaned are exactly the files without a row for which no save went through. |
| Recovery.WriteOrphans | internal/storage/jsonstore.go:148-161 | A write orphans its node exactly if it left a file, its save did not go through, and its line met a fragment or ended before the blank after the id. |
| Recovery.UnreadableIndexIsReplaced | internal/storage/jsonstore.go:551-561 | An index that does not open, or cannot be read, is replaced by a single row. |
| CrashLives.PutReadsExactly | internal/storage/jsonstore.go:142-162 | A store whose calls all succeed, but which may crash between any two of them or inside one, any number of times: after the next startup a written node reads back, every field, exactly if its file is whole. |
| CrashLives.PutReadsBack | internal/storage/jsonstore.go:146-161 | So it reads back if its log line and its file were written and it was not deleted. |
| CrashLives.DroppedNeverReads | internal/storage/jsonstore.go:278-286 | A deleted node never reads again once its file was removed, wherever the delete stopped. |
| CrashLives.ReadWasPut | internal/storage/lancedb.go:167-191 | Whatever reads was written, and reads as it was written. |
| FailedMigration.LegacyRowsSurvive | internal/storage/jsonstore.go:85-115 | A startup fails to migrate, the store then runs as it may, a startup completes: it works from the legacy rows exactly if no index save went through in between, neither in the first startup's replay nor by a write or delete; otherwise only nodes that a log names or that were written since have rows. |
| FailedMigration.LegacyRowSurvivesExactly | internal/storage/jsonstore.go:85-115 | So a legacy row that no log and no write speaks of is kept if and only if no index save went through. |
| FailedMigration.WriteForgetsLegacy | internal/storage/jsonstore.go:551-561 | First failing input: after one write and a restart only the new node has a row. |
| FailedMigration.DeleteForgetsLegacy | internal/storage/jsonstore.go:563-579 | Second failing input: after one delete, of any id, and a restart there is no row at all. |
| EmbeddingCache.StartupCacheReadable | internal/storage/jsonstore.go:241-276 | The cache loaded at startup is what decrypting every file would give exactly if no whole file with an embedding and without a row is sealed at the zero instant. |
| EmbeddingCache.WriteCacheExact | internal/storage/lancedb.go:145-154 | From agreement, a write that failed anywhere keeps the cache in agreement exactly if it has no embedding, or it succeeded and the node can be read, or it failed and the node cannot; and, if it saved without reading the index, everyone else reads as well without a row. |
| EmbeddingCache.DeleteCacheExact | internal/storage/lancedb.go:201-211 | From agreement, a delete keeps it exactly when it completed, removed no file, or the id was not cached. |
| EmbeddingCache.StepAgrees | internal/storage/jsonstore.go:181-276 | From agreement, every event leads to agreement exactly if the process does not survive it or it meets these conditions. |
| EmbeddingCache.CacheAgrees | internal/storage/jsonstore.go:181-276 | Over every life whose events meet them, with crashes and failing startups anywhere, the cache maps exactly the readable nodes with an embedding to it. |
| EmbeddingCache.UninterruptedLifeKeeps | internal/storage/jsonstore.go:181-276 | They are met over every life whose surviving writes and deletes go through, failed log appends apart, whatever fails in its startups, if nothing is captured at the zero instant. |
| RangeDelete.RangeDeleteExact | internal/storage/lancedb.go:220-238 | With no failing delete the rows left are exactly the old rows outside [after, before), in order; the listed nodes are gone, every other node reads as before. |
| RangeDelete.ListedExactly | internal/storage/jsonstore.go:288-310 | Listed are the ids of exactly the rows with `after` <= timestamp < `before`, without the first condition when `after` is not given. |
| RangeDelete.RangeDeleteKeeps | internal/storage/lancedb.go:217-238 | With no failing delete, a row is left exactly if it was there and lies before `after` (when given) or not before `before`; a node whose row lies in between is not found, and every other node reads as before. |
| RangeDelete.RangeDeleteIs | internal/storage/lancedb.go:220-238 | Wherever its single deletes stop, the listed nodes that lost their row are exactly those whose delete got its rename through, as many as are counted deleted, and they are not found; all other rows are kept in order, and unlisted nodes read as before. |
| RangeDelete.SweepIsRangeFromZero | internal/storage/jsonstore.go:288-334 | The sweep lists what a range delete from the beginning of time lists. |
| RangeDelete.DeletesAre | internal/storage/lancedb.go:225-232 | A row of deletes, each stopped anywhere, is a life of the store: it keeps the invariant, drops exactly the rows of those that got through and spares other nodes. |
| JsonStores.JsonStore.SaveIndexEntries | internal/storage/jsonstore.go:532-549 | Makes the calls of a save up to the one that fails; succeeds exactly if both went through. |
| JsonStores.JsonStore.AppendIndex | internal/storage/jsonstore.go:551-561 | Adds a row unless the id has one, making exactly the modelled calls up to the one that fails; a failing read is discarded and the row is then saved alone. |
| JsonStores.JsonStore.RemoveFromIndex | internal/storage/jsonstore.go:563-579 | Saves the rows without the id, or fails untouched when the index does not open or cannot be read. |
| JsonStores.JsonStore.WriteRecord | internal/storage/jsonstore.go:142-162 | Goes on after a log append that failed leaving any part of its line, fails exactly when the file was not written whole, ignores a failed read or save of the index, and makes exactly these calls. |
| JsonStores.JsonStore.DeleteRecord | internal/storage/jsonstore.go:278-286 | Makes exactly the calls of a delete up to the one that fails; succeeds exactly if the new index was renamed into place. |
| JsonStores.JsonStore.ScanWal | internal/storage/jsonstore.go:421-443 | The scanning loop computes the parse the framing theorems are about. |
| JsonStores.JsonStore.ReplayWal | internal/storage/jsonstore.go:406-486 | Whatever fails (reading the log or the index, any saves, removing the log), the disk and the nonces drawn are those of the replay that the theorems speak of. |
| JsonStores.JsonStore.MigrateIndexIfNeeded | internal/storage/jsonstore.go:103-138 | Makes exactly the calls of the migration up to the one that fails, if one does. |
| JsonStores.JsonStore.Start | internal/storage/jsonstore.go:72-99 | Whatever fails, a startup leaves the disk of BootStoppedIs; with no failure that of BootRun; and the cache is loaded from its rows. |
| JsonStores.JsonStore.LoadEmbeddingCache | internal/storage/jsonstore.go:241-276 | The loop fills the cache that StartupCacheReadable is about. |
| JsonStores.JsonStore.TimestampFromIndex | internal/storage/jsonstore.go:581-590 | Finds the timestamp of the first row with the id, or the zero instant. |
| JsonStores.JsonStore.IdsInRange | internal/storage/jsonstore.go:288-310 | Lists in row order the ids of exactly the rows with `after` <= timestamp < `before`; fails if the index does not open or cannot be read. |
| JsonStores.Store.Write | internal/storage/lancedb.go:132-163 | Whatever fails, a write is the event of the store's life that went this course, on the disk and in the cache; it succeeds exactly if the file was written whole, which then opens, and with its row reads, to every field of the node with schema version 1. |
| JsonStores.Store.Read | internal/storage/lancedb.go:167-191 | Returns what the read function of the theorems returns: the node exactly if its file opens under its row's time, not-found exactly if there is no file. |
| JsonStores.Store.Delete | internal/storage/lancedb.go:201-215 | A delete is the corresponding event; it succeeds exactly if the new index was renamed into place, and then the cache entry goes. |
| JsonStores.Store.DeleteRange | internal/storage/lancedb.go:220-238 | Performs one delete event per listed id; the deleted count is the number that RangeDeleteIs shows to be gone with their rows; with no failure the rows and reads are those of RangeDeleteKeeps. |
| JsonStores.Store.Sweep | internal/storage/retention.go:79-108 | Performs the delete events of a range delete from the beginning of time; succeeds exactly if all of them went through, and then exactly the rows not before the cutoff are left. |
| Similarity.CosineBound | internal/storage/jsonstore.go:592-609 | For vectors of any lengths the similarity lies in [-1, 1] (Cauchy-Schwarz for the accumulators). |
| Similarity.CauchySchwarz | internal/storage/jsonstore.go:599-604 | The squared inner product is at most the product of the squared norms, for every prefix length. |
| Similarity.CosineIsOne | internal/storage/jsonstore.go:594-609 | For vectors that are not zero the similarity is 1 if and only if one is a positive multiple of the other on the compared coordinates (the equality case of Cauchy-Schwarz). |
| Similarity.CosineScaled | internal/storage/jsonstore.go:594-609 | Scaling either vector by a positive factor changes nothing. |
| Similarity.CosineSimilarity | internal/storage/jsonstore.go:594-609 | The store's loop computes the similarity, within [-1, 1]. |
| Similarity.GraphCosineSimilarity | internal/graph/coherence.go:123-137 | The graph's loop agrees with the store's on equal lengths and gives 0 otherwise. |
| Similarity.NearestNeighbors | internal/storage/jsonstore.go:181-217 | Returns min(k, n) distinct ids, best first, truly scored, and no omitted vector scores above a returned one. |
| Coherence.BestOfTopK | internal/graph/coherence.go:98-107 | The largest score among the k best is the largest over all vectors. |
| Coherence.Checker.Check | internal/graph/coherence.go:80-119 | From k neighbours alone it reports the verdict and the best similarity over the whole cache, and 0 and coherent over an empty one; it fails exactly on an empty embedding. |
| Coherence.VerdictFromDisk | internal/graph/coherence.go:85-107 | After any life whose events keep the cache right the cached verdict equals the verdict over all nodes that decrypt from disk. |
| FrameQueue.PushAllKeepsNewest | internal/inference/queue.go:43-56 | Pushing any number of frames leaves the newest `cap` of everything, in order. |
| FrameQueue.Queue.Push | internal/inference/queue.go:43-63 | The ring refines the sequence that drops its oldest frame when full; the signal is pending afterwards. |
| FrameQueue.Queue.TryPop | internal/inference/queue.go:70-79 | The locked section takes the oldest frame if there is one, releases its slot, and leaves the signal alone. |
| QueueProtocol.EachFrameHasOneFate | internal/inference/queue.go:43-89 | In every interleaving each frame that a step pushed is exactly one of popped, dropped or queued, and the popped ones are an in-order selection of those that left. |
| QueueProtocol.OnlyStopGivesUp | internal/inference/queue.go:81-88 | No consumer comes back with nothing unless the queue was stopped. |
| QueueProtocol.SingleConsumerNeverSleepsOnFrames | internal/inference/queue.go:68-88 | With any number of producers and one consumer, a consumer waiting while frames are queued has a signal pending. |
| QueueProtocol.TwoConsumersLoseAWakeUp | internal/inference/queue.go:58-87 | With two consumers the guarantee fails, on a concrete run. |
| QueueProtocol.PopIsFinite | internal/inference/queue.go:69-88 | With no further push, a Pop takes at most four steps of its own before it returns or stays asleep, whatever stops and steps of other consumers come between. |
| QueueProtocol.WaitingConsumerGetsOldest | internal/inference/queue.go:71-87 | A consumer waiting on a non-empty queue comes back with the oldest frame in two steps of its own. |
| InferenceProtocol.RateFromStart | internal/inference/throttle.go:57-58 | In every interleaving tokens never exceed the capacity, grants are at most 1 + ticks and equal Infer calls (but for one under way), as counted from the steps of the run, frames add up, and the nodes stored are exactly those of the decisions that scored enough and got an id. |
| InferenceProtocol.RateInWindow | internal/inference/throttle.go:176-197 | In any window of any run grants are at most capacity + ticks, as counted from its steps. |
| InferenceProtocol.CountersAre | cmd/digitalghost/main.go:386-555 | On every run the counters are the numbers of its steps, and what is stored is, in order, every decision with an id, enough score, and coherence or enough score to stand alone. |
| InferenceProtocol.FailsAre | cmd/digitalghost/main.go:420-459 | On every run the failure count is the number of failed Infer calls since the last success. |
| InferenceProtocol.DrainsAfterOutage | cmd/digitalghost/main.go:452-459 | A success starts a drain exactly if a call failed since the last success; else the tokens stay. |
| InferenceProtocol.RefillsAreKept | internal/inference/throttle.go:176-197 | As long as nothing is granted or drained every tick is a token, up to the capacity. |
| InferenceProtocol.NoBurstAfterOutage | cmd/digitalghost/main.go:452-459 | If an Infer call failed and none succeeded since, then after the next success the Infer calls never outnumber the ticks that come after it. |
| InferenceProtocol.NoBurstAfterDrain | cmd/digitalghost/main.go:452-459 | After such an outage nothing is inferred before the drain ends, it ends on an empty bucket, and from then on Infer calls never outnumber the ticks that come after that. |
| InferenceProtocol.GateDecides | cmd/digitalghost/main.go:386-405 | On every run a popped frame goes on exactly if it was looked at long enough and is neither entertainment nor system UI. |
| InferenceProtocol.JudgeDecides | internal/inference/throttle.go:73-105 | The governor goes on to a token exactly if both loads were within their thresholds at the last two readings; else it sleeps. |
| InferenceProtocol.GrantFollowsReading | internal/inference/throttle.go:73-126 | Behind every grant of every run lie, in order, the Pop of a gated frame and the last readings of the two loads, at moments when the governor's own values were within the thresholds, with nothing popped or granted since. |
| InferenceProtocol.GrantIsFreshWhen | internal/inference/throttle.go:73-126 | The loads at a grant are within the thresholds exactly if they were not measured again since the reading, or the last measurement was within them. |
| InferenceProtocol.GrantMayBeStale | internal/inference/throttle.go:110-124 | For all thresholds and all loads there is a run from the start, blocking on the empty bucket, that ends in a grant at those loads. |
| InferenceProtocol.StepKeepsInv | cmd/digitalghost/main.go:386-555 | Every step of the loop and of the background keeps the accounting of tokens, frames, readings and writes. |
| InferenceLoops.Governor.Acquire | internal/inference/throttle.go:73-126 | Performs only runs of the protocol; ends with one grant or with the deadline. |
| InferenceLoops.Governor.DrainBucket | internal/inference/throttle.go:142-150 | Ends with an empty bucket, whatever slips in meanwhile. |
| InferenceLoops.InferenceLoop.Iterate | cmd/digitalghost/main.go:386-555 | One iteration performs only runs of the protocol and consumes one frame; a frame failing a gate costs nothing, a grant leads to one Infer call, a failed one is counted, a successful one ends the count and stores the node exactly if it scored enough. |
| InferenceLoops.InferenceLoop.Run | cmd/digitalghost/main.go:369-556 | The whole loop is a run of the protocol from the start; every stored node had the score it needed. |
| Backoffs.BackoffIsCapped | cmd/digitalghost/main.go:436-451 | After k failures in a row the wait is 2^k seconds, at most 60, if and only if k <= 33, or k <= 54 and bit 54 - k of 5^9 is not set; for every other k there is no wait. |
| Backoffs.NoWaitAfter34 | cmd/digitalghost/main.go:436-451 | The first failing input is 34: the wait is at least 2 seconds before it, and negative at it. |
| Blocklists.BlocksExactly | internal/filter/blocklist.go:128-174 | A list blocks a window exactly if its process name is listed or contains an auth pattern, a pattern matches its non-empty URL or title, or its non-empty role is listed, case folded where the code folds it. |
| Blocklists.MergedBlocks | internal/filter/blocklist.go:295-322 | The merged list blocks a window exactly when the defaults or the file would. |
| Blocklists.HistoryBlocks | internal/filter/blocklist.go:186-217 | After any history of good, malformed, uncompilable and unreadable files a window is blocked exactly when the defaults or the last file that compiled block it. |
| Blocklists.LastFileBlocks | internal/filter/blocklist.go:186-291 | After any history whose last usable file is this one a window is blocked exactly when the defaults block it, or an app, auth pattern, URL pattern, title pattern or role as spelled in that file covers it. |
| Blocklists.UnusableFileBlocksOnlyDefaults | internal/filter/blocklist.go:102-110 | An unusable file blocks nothing beyond the defaults. |
| Blocklists.Compile | internal/filter/blocklist.go:257-291 | Compiles everything or nothing: one bad pattern rejects the file. |
| Blocklists.Blocklist.LoadFromFile | internal/filter/blocklist.go:186-217 | Swaps in the merged list exactly when reading, parsing and compiling succeed. |
| Blocklists.Blocklist.Check | internal/filter/blocklist.go:128-174 | Blocks exactly the windows one of the five checks covers, each spelled out, with the reason of the first; and everything when there is no list. |
| Gate.GateNeverPassesDefaults | internal/capture/privacy.go:66-148 | In every interleaving with reload, pause and resume, a passing decision concerned no foreground window or background process the defaults block, and no sensitive role. |
| Gate.GateFromStart | internal/capture/privacy.go:66-148 | The same from the initial state with only the defaults active. |
| Gate.PassedIsClear | internal/capture/privacy.go:66-148 | Behind every passing decision lie the window query and the process list it was about, and no default app, auth pattern, URL or title pattern or role covers them, nor is the role password or spinbutton. |
| Gate.UndisturbedDecision | internal/capture/privacy.go:66-148 | A decision with no step of others in between passes exactly when nothing it looks at is blocked and it is not paused. |
| Gate.InForce | internal/capture/privacy.go:133-135 | On every run the active list is that of all its reloads, and the switch is as it was last set. |
| Gate.PausedNeverPasses | internal/capture/privacy.go:133-135 | Once paused, no decision passes until resumed. |
| Gate.PauseHolds | internal/capture/privacy.go:133-135 | After a pause and without a resume, a decision that has passed had passed before the pause. |
| Gate.CaptureGate.Check | internal/capture/privacy.go:66-148 | Passes exactly when not paused, the window is known, and neither it nor a background process nor the role is blocked. |
| FrameScaling.ScaledSizeFits | internal/capture/frame.go:121-145 | Every oversized frame gets sides of at least 1 within 672 x 378 and fills one of them. |
| FrameScaling.ScaledRectInside | internal/capture/frame.go:149-159 | A window rectangle inside the frame stays inside the shrunk frame and is not turned inside out. |
| FrameScaling.SampleInside | internal/capture/frame.go:163-171 | Every sampled offset is the whole number below its position scaled to the source, lies in the source, and offsets never run backwards. |
| FrameScaling.NearestNeighbor | internal/capture/frame.go:163-182 | Every destination pixel is the source pixel at its sampled position. |
| FrameScaling.Frame.DownscaleForQueue | internal/capture/frame.go:121-160 | The result fits; a fitting frame is left alone; else size, every pixel and the window rectangle are those of one shrinking by the smaller of 672/w and 378/h, each side and each edge of the window rounded down. |
| FrameScaling.DownscaleTwice | internal/inference/ollama.go:366-382 | Twice leaves what once leaves, and the later crop never triggers the encoder's own. |
| FrameScaling.Frame.EncodesTheWindow | internal/inference/ollama.go:366-374 | What goes to the model is exactly the part of the window inside the picture if both are more than 32 wide and high and the picture can be cropped, else the whole picture. |
| TagReply.ReplyRoundTrip | internal/inference/ollama.go:287-310 | Printing a trimmed description and clean tags in the prompted form and parsing gives both back, even if the description contains the marker. |
| TagReply.TagsSurvive | internal/inference/ollama.go:299-308 | Trimmed, comma-free, marker-free tags come back exactly when the first does not begin and the last does not end with a bracket: all outer brackets are stripped, not just the printed pair. |
| TagReply.DescriptionSurvives | internal/inference/ollama.go:336-347 | A printed description comes back unchanged exactly when no injection pattern is spelled in it in any letter case. |
| TagReply.DescriptionIsClean | internal/inference/ollama.go:316-347 | Whatever the reply, the returned description contains no injection pattern in any letter case. |
| TagReply.PatternsAre | internal/inference/ollama.go:316-331 | The injection patterns are these fourteen. |
| TagReply.DescriptionIs | internal/inference/ollama.go:290-347 | For any reply: the description is what comes before the last marker, or all of it without one, without the white space around it, or the placeholder if a pattern is spelled in it. |
| TagReply.TagsAre | internal/inference/ollama.go:299-310 | For any reply with a marker: no tag is empty, has white space at an end or a comma, and together they have every other character of the tag line, in order, once brackets around it are stripped. |
| TagReply.ParseDescriptionAndTags | internal/inference/ollama.go:290-310 | The code's loop computes the parse the round trip is about. |

## Left out

- Rounding of floating-point similarity and geometry; reals are used.
- Cipher, MAC, key derivation and keychain internals; JSON, YAML and regular-expression engines, which are parameters.
- Durability across power loss: the code never syncs, and only process crashes are modelled.
- Failing reads that change nothing: of node files, of `index.json`, and of `index.enc` by Read or while the cache is loaded; and failing stats.
- Lines of the log longer than the scanner's 64 KiB buffer: no line the store writes exceeds 54 characters.
- Write and Delete running at the same time on one node: the cache is updated outside the store's lock, and operations are whole steps here.
- Two processes on one data directory: the status and wipe commands open the store, and so replay and remove its log, beside a running daemon.
- Timeline paging, Count, and the descending listing by time: single sorted reads of the rows.
- WipeAll and the overwriting passes of secure deletion: straight loops over one file.
- The scheduling of the retention sweep, and clocks in general; a cutoff is a parameter.
- The text of the hardcoded blocklist; the theorems hold for any defaults that compile.
- Perceptual hashes, engagement weights and the classifier; a frame carries its class, and a score is an answer of the environment.
- Durations in the inference loop: the backoff is one opaque step there, and `Backoffs` gives its length. A deadline in the governor ends the loop, as in the code, so nothing is claimed about liveness.
- The arithmetic of CPU percentages; the load readings are arbitrary numbers.
- Replies with non-ASCII characters, where lower-casing may move the marker.
- The second retry loop inside one Infer call; a call succeeds or fails as a whole.
- The queue's blocking Pop as one method; its locked half is TryPop, and its wait is a step of QueueProtocol.
- Similarity.SortByScore: an insertion sort stands for the library sort, of which only the contract is used.
