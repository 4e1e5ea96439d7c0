# Verified model of the MinIO storage data path

A Dafny model of the storage data path of S3-Kinetic (a MinIO fork, Go, `cmd/`), with proofs. Each module follows
one component; what the component is for is stated without its code and proved of a model of its code.

| module | component |
|---|---|
| `Bytes`, `Streams`, `Geometry` | ceiling division, streams that end, are cut off or break, shard and block arithmetic, the block walk shared by decoding and the cache |
| `ErasureCode`, `SingleParity` | erasure coding of one block; the Reed-Solomon library is a parameter, one parity shard an instance |
| `BitrotStream` | shard files with interleaved checksums, their writer and their reader |
| `ParallelRead` | the token protocol of `parallelReader.Read` as a state machine over its goroutines and channel |
| `DataBlocks`, `ErasureDecode` | delivering a byte range from the shards that enough disks deliver |
| `ErasureEncode` | splitting a stream over many writers under a write quorum |
| `ErasureHeal` | durability across encode, loss and decode; healing as decode piped into encode |
| `HealPipe` | the two goroutines of healing and the pipe between them, as a state machine |
| `EncryptedRange` | plaintext ranges of multipart DARE 2.0 objects as windows of ciphertext |
| `CacheFile` | block-checksummed files of the disk cache, written and read through a reused buffer |
| `CacheCoherence` | ETag revalidation on GET, hit counting and background fills, step by step |
| `FileScorer` | the eviction queue of the cache |
| `ConfigMigration` | encryption and key rotation of the stored configuration across crashes and restarts |
| `HealResults`, `HealRegistry` | buffered heal results; the map of heal sequences |
| `SetSizing` | cutting endpoints into erasure sets |
| `UrlEncode` | URL encoding of object names |

Code that changes things in place is modelled by classes, arrays and loops (readers, writers, the decode and encode
loops, cache files and entries, the eviction queue, the config store, the result queue); the three concurrent protocols
are state machines whose steps interleave in every way.

## Where the code does not do what one would expect

- `parallelReader.Read` never returns, in any interleaving, if there are no data shards or more data shards than disks
  (`HangsOutsideGeometry`); inside the geometry it always does (`EveryInterleaving`).
- A GET that finds a stale cached copy, accessed at least `after` >= 1 times, deletes it; the fill that reads along with
  the client then sees no entry, records one access and leaves, and the closed pipe breaks the client off
  (cmd/disk-cache.go:256-315, cmd/disk-cache-backend.go:629-631). `CachedObject.Get` states when exactly this happens,
  `BreaksOffAfterOverwrite` is a run that gets there.
- A GET looks into the cache, asks the backend and writes cache metadata under separate locks. A fill of another version
  that lands in between leaves its bytes under the ETag the GET writes (cmd/disk-cache.go:186, cmd/disk-cache.go:274-276),
  and the next GET hands them out. `Run` shows that the entry is true to its bytes in all states exactly if this does not
  happen, and that no client is given wrong bytes then; `WrongAfterOvertaking` is a run with a wrong answer.
- `bitrotReadFromCache` can come back short without an error (cmd/disk-cache-backend.go:789-792), exactly if the file ends
  right behind the checksum of the first block of the range that does not verify; `EndsQuietly` is such a read. If the
  file ends right before that checksum it returns `io.EOF`, which its caller passes to the pipe as the client's normal end
  (cmd/disk-cache-backend.go:780-782, cmd/disk-cache-backend.go:860-866). `ShortWithoutError` and `ServeFromCache` say
  when exactly a client takes a short answer for a complete one; `LooksComplete` shows it for a file cut off at any block.
- `PopHealStatusJSON` empties the buffer even if the status could not be marshalled (cmd/admin-heal-ops.go:293-303).
  Delivered results never repeat (`NoRepetition`), and they are 1, 2, 3, ... exactly as long as no result pushed after a
  lost one is among them (`ConsecutiveUnlessLost`); `GapAfterFailure` is a run with a gap.
- `pushHealResultItem` never returns `errHealIdleTimeout`: after its wait has taken the tick of the timer, the deferred
  clean-up waits for a second one (cmd/admin-heal-ops.go:438-444, cmd/admin-heal-ops.go:468-469). `Push` hangs exactly if
  the buffer is full and the timer ends the wait; `TimerHangs` gets there.
- A stop request removes its path from the map of heal sequences after waiting, whatever is registered there by then
  (cmd/admin-heal-ops.go:176-182). `StaysRegistered` shows that this is the only way for a running sequence to leave
  the map, `TwoRunOnOnePath` is a run with two sequences on one path, and `NoLiveOverlap` excludes overlaps otherwise.
- `stop` of a heal sequence is said to be safe to call many times (cmd/admin-heal-ops.go:415-422), but looks at its
  channel before it closes it. Two requests that have both seen it open close it twice, which panics: no run panics
  without such a race (`NoRaceNoPanic`), every race can go on to panic (`RacePanics`), and two stop requests come to one
  (`TwoStopsPanic`).
- `Heal` returns without closing its end of the pipe when `Encode` fails (cmd/erasure-heal.go:29-42). The decoding
  goroutine then stays in its write for good, exactly if no disk is left with blocks still to come (`HealPipe.HowItEnds`,
  and `HealEveryInterleaving` in terms of the disks).
- `adjustSaveBytes` with a positive argument does not refill the queue: `RaisedTarget` says when that is right, and
  `RaiseMissesFile` shows a file missing. After a target of zero it even leaves an outdated count, and nothing is selected
  any more until the target exceeds it (`ClearedSelectsNothing`). Its two callers never pass a positive number
  (cmd/disk-cache-backend.go:293, cmd/disk-cache-backend.go:307).
- A source that breaks with `io.ErrUnexpectedEOF` is taken for one that ends (cmd/erasure-encode.go:83-87,
  cmd/disk-cache-backend.go:553-556): what came is stored and success reported. The model has this ending (`CutOff`);
  comparing the number of bytes is left to the callers.

## Model

| member | source | states |
|---|---|---|
| `Bytes.CeilFracIsCeiling` | cmd/utils.go:513-528 | `ceilFrac` is the least integer whose multiple reaches the numerator, for all integers over a positive denominator |
| `Bytes.CeilFracSigns` | cmd/utils.go:513-528 | the same with both signs changed, and 0 for a zero denominator |
| `ErasureCode.Codec.DecodesAnyQuorum` | cmd/erasure.go:69-81 | any dataBlocks shards of an encoded block give back its data shards |
| `ErasureCode.SplitJoins` | cmd/erasure.go:50-64 | the data shards of a block joined are the block followed by zeros up to their full length |
| `ErasureCode.SplitShape` | cmd/erasure.go:50-64 | a block is split into dataBlocks shards of equal length, the ceiling of its share |
| `SingleParity.SingleParityIsValid` | cmd/erasure.go:34-46 | a code with one parity shard meets everything assumed of the coding library |
| `Geometry.Erasure.ChunkExtent` | cmd/erasure.go:94-110 | chunk k is non-empty, at most a shard size, full unless last, and lies at its place inside the shard file |
| `Geometry.Erasure.LastChunk` | cmd/erasure.go:99-110 | the chunk of the last block ends the shard file |
| `Geometry.Erasure.ChunkCount` | cmd/erasure.go:99-110 | a shard file has as many chunks as the object has blocks |
| `Geometry.Erasure.TillIsChunkEnd` | cmd/erasure.go:113-122 | `ShardFileTillOffset` is the end of the chunk of the block that holds the byte after the range, and the end of the shard file if there is no such byte |
| `Geometry.Erasure.NoShardFile` | cmd/erasure.go:99-105 | the shard files of an object of unknown size are of unknown size, those of an empty one empty |
| `Geometry.WalkPiece` | cmd/erasure-decode.go:155-172 | the block offsets and lengths cut any range into consecutive pieces, each inside its block, none empty before the end |
| `Geometry.WalkEnds` | cmd/erasure-decode.go:151-154 | the pieces start at the offset and end at offset plus length |
| `BitrotStream.ChunkStart` | cmd/bitrot-streaming.go:103-142 | chunk k starts at the stream offset computed by ReadAt: its checksum there, its bytes behind |
| `BitrotStream.ShardFileLength` | cmd/bitrot.go:160-165 | the shard file made by the chunked writes has length `bitrotShardFileSize(ShardFileSize(total))` for every object and geometry |
| `BitrotStream.WindowCovers` | cmd/erasure.go:113-122 | the window opened up to `ShardFileTillOffset` contains every chunk of every range |
| `BitrotStream.StreamingBitrotWriter.Write` | cmd/bitrot-streaming.go:38-50 | a write appends the checksum and the chunk, or fails and leaves what the disk took of them |
| `BitrotStream.StreamingBitrotReader.ReadAt` | cmd/bitrot-streaming.go:103-142 | exactly which offsets are unexpected; otherwise the verified chunk or an error, and where the stream stands afterwards |
| `BitrotStream.StreamingBitrotReader.UndamagedServes` | cmd/bitrot-streaming.go:103-142 | an undamaged file serves every chunk inside its window |
| `ParallelRead.TryCountIsLeast` | cmd/erasure-decode.go:61-133 | the number of disks tried is the least that contains dataBlocks working ones |
| `ParallelRead.StepInv` | cmd/erasure-decode.go:74-126 | every step keeps the balance of triggers, running reads, failures and filled buffers |
| `ParallelRead.SendsFindRoom` | cmd/erasure-decode.go:70-126 | no goroutine ever waits to send a trigger |
| `ParallelRead.Progress` | cmd/erasure-decode.go:74-126 | as long as Read has not returned some step is possible |
| `ParallelRead.StepShrinks` | cmd/erasure-decode.go:74-126 | every step lowers a bounded measure |
| `ParallelRead.EveryInterleaving` | cmd/erasure-decode.go:61-133 | every interleaving ends, without a blocked send or a deadlock, succeeds iff dataBlocks disks deliver, and fills exactly the first dataBlocks working disks in index order |
| `ParallelRead.HangsOutsideGeometry` | cmd/erasure-decode.go:70-80 | with no data shards, or more than disks, no run ever returns, every run comes to a halt, and one gets stuck |
| `DataBlocks.GetDataBlockLen` | cmd/erasure-utils.go:29-36 | the bytes in the data shards together |
| `DataBlocks.WriteDataBlocks` | cmd/erasure-utils.go:40-111 | the errors of the argument checks, and else exactly the window of the joined data shards is written |
| `ErasureDecode.ParallelReader.Read` | cmd/erasure-decode.go:61-133 | the shards gathered, the disks dropped, and that all remaining disks stay in step with the next chunk |
| `ErasureDecode.ScheduleDoesNotMatter` | cmd/erasure-decode.go:61-133 | the sequential Read and every interleaving of the concurrent one agree on result, buffers and dropped disks |
| `ErasureDecode.DecodeBlocks` | cmd/erasure-decode.go:155-191 | block by block exactly the range, and success iff every block was served |
| `ErasureDecode.Decode` | cmd/erasure-decode.go:136-193 | for every range and any pattern of disk failures over the blocks: a prefix of the range, all of it iff served, never padding, never an unexpected offset at a disk; it blames the disks only if they did not serve, and the destination only if that is full |
| `ErasureDecode.SteadfastServe` | cmd/erasure-decode.go:61-133 | dataBlocks disks that work throughout the range suffice, whatever the others do |
| `ErasureEncode.ReduceErrs` | cmd/xl-v1-utils.go:36-59 | a most frequent error value that is not ignored, no error winning among equals |
| `ErasureEncode.ReduceWriteQuorumErrs` | cmd/xl-v1-utils.go:64-82 | an error whenever fewer than quorum writers succeeded: the value that quorum writers share, else the quorum error |
| `ErasureEncode.ParallelWriter.Write` | cmd/erasure-encode.go:36-70 | every live writer is sent its shard, a failed one is dropped and not written again, and success means quorum writers are left; else the error is that of the writes iff it hit quorum writers in this round |
| `ErasureEncode.Encode` | cmd/erasure-encode.go:73-109 | every writer holds the frames of its shard of the blocks sent, in order; success iff the source did not break with an error other than `io.ErrUnexpectedEOF` and quorum disks take all their shards, then of all blocks; some of the source is left unread iff the quorum is lost with blocks to come; which errors blame the source, and which the disks |
| `ErasureHeal.KeptServe` | cmd/erasure-decode.go:136-193 | dataBlocks undamaged shard files serve every range |
| `ErasureHeal.StoreThenRead` | cmd/erasure-encode.go:73-109 | after a successful Encode with quorum at least dataBlocks, any loss of quorum - dataBlocks shards leaves every range readable, byte for byte |
| `ErasureHeal.Heal` | cmd/erasure-heal.go:28-48 | every writer gets a prefix of the shard stream of the original Encode; success iff the object was readable and a disk takes all its shards, and then the whole stream; an error blames the disks only if none is left, and the source only if the object was not readable; when the decoder is left behind |
| `ErasureHeal.HealEveryInterleaving` | cmd/erasure-heal.go:28-48 | in every interleaving of decoder and encoder, however the decoder cuts its writes, result and fate of the decoder are those of `Heal`, in terms of the disks that take their shards |
| `HealPipe.StepInv` | cmd/erasure-heal.go:29-39 | every step of decoder and encoder keeps the bytes taken, offered and to come equal to the stream, and the blocks sent equal to its first blocks |
| `HealPipe.EveryRun` | cmd/erasure-heal.go:28-42 | in every state of every interleaving the outcome is the one of the encoder reading the whole stream at once |
| `HealPipe.RunsEnd` | cmd/erasure-heal.go:28-42 | every run ends, within a bound given by the writes and bytes |
| `HealPipe.SequentialOutcome` | cmd/erasure-encode.go:80-107 | when Encode over a stream succeeds, and when it leaves some of it unread, in terms of the blocks that find their quorum |
| `HealPipe.HowItEnds` | cmd/erasure-heal.go:28-48 | at the end the encoder has returned, with success iff the decoder succeeded and every block found its quorum, and then has passed on exactly the stream; the decoder is left in its write for good iff the quorum was lost before the end of the stream |
| `EncryptedRange.SizesInverse` | cmd/encryption-v1.go:614-635 | encrypted and decrypted sizes are inverse to each other, refused sizes being outside |
| `EncryptedRange.LimitsAgree` | cmd/encryption-v1.go:814-824 | the 256 TB limits of plaintext and ciphertext correspond |
| `EncryptedRange.RangeInside` | cmd/httprange.go:46-102 | which range headers an object can satisfy, and byte by byte which bytes the offset and length computed for them cover |
| `EncryptedRange.LocatePart` | cmd/encryption-v1.go:757-790 | the part holding a byte and the plain and encrypted sizes before it |
| `EncryptedRange.WindowStart` | cmd/encryption-v1.go:757-778 | part, package number, bytes to skip and ciphertext offset of the first byte |
| `EncryptedRange.WindowEnd` | cmd/encryption-v1.go:779-803 | the end of the package that holds the last byte, short packages included |
| `EncryptedRange.GetDecryptedRange` | cmd/encryption-v1.go:704-809 | its errors, and else a window from the package of the first byte asked for to the package of the last; which objects are taken for several streams, which for one |
| `EncryptedRange.SequenceNumberFits` | cmd/encryption-v1.go:807 | package numbers below 256 TB fit in 32 bits |
| `EncryptedRange.OpensCut` | cmd/encryption-v1.go:533-534 | the decrypter, limited part by part, opens an object cut at package boundaries to its plaintext |
| `EncryptedRange.WindowGivesRange` | cmd/encryption-v1.go:704-809 | for every multipart object and non-empty range: the window is in bounds, opens, holds the range behind skipLen bytes, and has less than one payload too much at either end |
| `EncryptedRange.ReadRange` | cmd/encryption-v1.go:417-418 | a ranged read that knows only the encrypted part sizes delivers exactly the plaintext bytes the header asks for, and refuses exactly the headers it cannot satisfy |
| `EncryptedRange.ReadSingle` | cmd/encryption-v1.go:704-809 | so does a read of an object stored as one stream: one that is not marked as multipart, has no parts or a part of impossible size, or has an ETag of 32 digits under erasure coding |
| `EncryptedRange.SinglePartAgrees` | cmd/encryption-v1.go:587-609 | the single-part arithmetic computes the same window for every non-empty range |
| `EncryptedRange.PaddingIsValid` | cmd/encryption-v1.go:59-63 | there are ciphers with the properties assumed |
| `CacheFile.BitrotWriteToCache` | cmd/disk-cache-backend.go:524-578 | a source that does not break, a cut-off one included, is stored whole up to its end, block by block, whatever the buffer held |
| `CacheFile.BitrotReadFromCache` | cmd/disk-cache-backend.go:727-820 | every range inside the stored data is delivered exactly, for all alignments and any old buffer contents; from a damaged file, whose damage the checksums show, exactly what precedes the first bad block, with its error; when the read is short without one, and when it ends with `io.EOF`; and the errors of the writer |
| `CacheFile.FirstBadExists` | cmd/disk-cache-backend.go:776-820 | a range that does not verify has exactly one first bad block, one that verifies none |
| `CacheFile.ShortWithoutError` | cmd/disk-cache-backend.go:780-792 | a read comes back short without an error iff the file ends right behind the checksum of the first bad block, with `io.EOF` iff right before it, and looks complete iff one of the two |
| `CacheFile.ServeFromCache` | cmd/disk-cache-backend.go:857-866 | what the client of the pipe gets: when it takes a short answer for a complete one, and when the cached object is removed |
| `CacheFile.LooksComplete` | cmd/disk-cache-backend.go:857-866 | of a cache file cut off at any block boundary the client gets what is before and takes it for everything |
| `CacheFile.EndsQuietly` | cmd/disk-cache-backend.go:784-792 | a cache file that ends right behind a checksum reads without error and without the data |
| `CacheFile.CacheRoundTrip` | cmd/disk-cache-backend.go:524-820 | what is written is read back, in any range |
| `CacheCoherence.CachedObject.SaveMetadata` | cmd/disk-cache-backend.go:469-517 | one more hit, ETag and size as given, the cached bytes untouched, attributes kept when only hits are counted; the entry stays true to its bytes iff ETag and size are those of the cached object |
| `CacheCoherence.CachedObject.Put` | cmd/disk-cache-backend.go:614-678 | the new entry, and whether the object was read to its end; entries true to their bytes stay so |
| `CacheCoherence.CachedObject.Ask` | cmd/disk-cache.go:218-256 | revalidation: what the request does next, and the answers given at once |
| `CacheCoherence.CachedObject.Update` | cmd/disk-cache.go:97-123 | the copy is handed out and its metadata follow the backend; the entry stays true to its bytes iff they are still those of the version |
| `CacheCoherence.CachedObject.Open` | cmd/disk-cache.go:267-315 | which version the client gets, and whether a hit is to be counted or a fill started |
| `CacheCoherence.CachedObject.CountHit` | cmd/disk-cache.go:274-276 | one more hit under the ETag asked for; the entry stays true to its bytes iff no other version is cached by then |
| `CacheCoherence.CachedObject.Advance` | cmd/disk-cache.go:174-316 | any step of any request keeps everything true, except exactly a write of metadata to the entry of another version; it brings the request nearer to its answer without changing what comes of it undisturbed; it fails only if the backend is down or cannot open the object |
| `CacheCoherence.CachedObject.OvertakenByFill` | cmd/disk-cache.go:186-276 | only a fill since the request looked leads to such a write |
| `CacheCoherence.Take` | cmd/disk-cache.go:174-316 | each step of a run: what it changes, its answer, and when it makes the entry untrue |
| `CacheCoherence.CachedObject.GetObjectNInfo` | cmd/disk-cache.go:174-316 | a request advanced without interference: the exact reply, when it is tied to a fill, and the new entry |
| `CacheCoherence.CachedObject.Fill` | cmd/disk-cache.go:304-315 | the client gets the version iff the fill reads all of it or it is empty; everything stays true |
| `CacheCoherence.CachedObject.Get` | cmd/disk-cache.go:174-316 | the current version, except exactly when a stale copy with enough hits is replaced |
| `CacheCoherence.Run` | cmd/disk-cache.go:174-316 | over every interleaving of steps of requests, fills, evictions and backend changes, the trace of states and the answer of every step: entries are true to their bytes in all states iff no request writes metadata after a fill of another version since its look-up, and then no client is given bytes other than a version current while it asked; every failure has its reason in the backend |
| `CacheCoherence.BreaksOffAfterOverwrite` | cmd/disk-cache-backend.go:629-631 | the exception is reached |
| `CacheCoherence.WrongAfterOvertaking` | cmd/disk-cache.go:274-276 | such a write, and then a GET that is given the bytes of the old version |
| `FileScorer.RankedIsTheStableOrder` | cmd/disk-cache-utils.go:369-385 | the reference order is the one descending order that keeps equal scores as offered |
| `FileScorer.ShortestIsShortest` | cmd/disk-cache-utils.go:388-401 | the reference selection is a prefix that suffices or is everything, and no shorter one suffices |
| `FileScorer.ShortestIsUnique` | cmd/disk-cache-utils.go:388-401 | it is the only one |
| `FileScorer.InsertCommutes` | cmd/disk-cache-utils.go:324-349 | files outside the selection never come back: inserting into the selection is enough |
| `FileScorer.SkipWorse` | cmd/disk-cache-utils.go:341-346 | a file below the worst of a sufficient selection changes nothing |
| `FileScorer.RaisedTarget` | cmd/disk-cache-utils.go:355-366 | a raised target leaves the selection right iff it still suffices or holds everything |
| `FileScorer.ScoreMonotone` | cmd/disk-cache-utils.go:330-335 | a file that is older, larger and less used does not score lower |
| `FileScorer.ScoreBounds` | cmd/disk-cache-utils.go:330-335 | size and hits raise a score by at most half of the age |
| `FileScorer.ScoreBase` | cmd/disk-cache-utils.go:330-335 | without size and with all hits the score is the age |
| `FileScorer.ScoreSize` | cmd/disk-cache-utils.go:330-335 | size adds its share of the target, up to a quarter of the age |
| `FileScorer.ScoreHits` | cmd/disk-cache-utils.go:330-335 | hits short of the maximum add their share, up to another quarter |
| `FileScorer.LargerScoresHigher` | cmd/disk-cache-utils.go:330-335 | of two files of one age the larger one, short of the target, and not used more, scores strictly higher |
| `FileScorer.LessUsedScoresHigher` | cmd/disk-cache-utils.go:330-335 | and so does the less used one that is not smaller |
| `FileScorer.Scorer.constructor` | cmd/disk-cache-utils.go:309-322 | an empty selection |
| `FileScorer.Scorer.AddFile` | cmd/disk-cache-utils.go:324-349 | the queue stays the shortest sufficient prefix of all files offered; with an outdated count it stays empty |
| `FileScorer.Scorer.InsertFile` | cmd/disk-cache-utils.go:369-385 | stable descending insertion |
| `FileScorer.Scorer.TrimQueue` | cmd/disk-cache-utils.go:388-401 | the shortest prefix of the queue that leaves the counted bytes at the target, also with an outdated count |
| `FileScorer.Scorer.AdjustSaveBytes` | cmd/disk-cache-utils.go:355-366 | a lowered target keeps the selection right; a raised one iff the selection still suffices or holds everything, and then the scorer is valid again; a target of zero empties the queue and leaves the count |
| `FileScorer.RaiseMissesFile` | cmd/disk-cache-utils.go:355-366 | two files and a raised target: the second file is missing from the selection |
| `FileScorer.ClearedSelectsNothing` | cmd/disk-cache-utils.go:355-366 | after a target of zero and a raise up to the outdated count nothing offered is ever selected |
| `FileScorer.Scorer.FileNames` | cmd/disk-cache-utils.go:404-412 | the names in queue order |
| `FileScorer.Collect` | cmd/disk-cache-backend.go:244-314 | after every sequence of offers and freed bytes the names of the shortest prefix, in stable descending order of all files offered, that frees the rest |
| `FileScorer.LargerIsCollected` | cmd/disk-cache-backend.go:244-314 | whenever a file is collected, so is every larger or less used file of the same age |
| `ConfigMigration.DecryptData` | cmd/config-encrypted.go:151-165 | the first key that does not report malicious data decides |
| `ConfigMigration.TryKeysFinds` | cmd/config-encrypted.go:151-165 | decrypts iff the right key is among those given, else malicious data |
| `ConfigMigration.ActionIsRight` | cmd/config-encrypted.go:331-367 | an object is rewritten from its original plaintext, kept if done, and stops the run iff it is not migratable, with the error for its case |
| `ConfigMigration.ConfigStore.MigrateObject` | cmd/config-encrypted.go:325-367 | encrypted under the active key, or left alone; the former may happen although the store reports a failure; an error comes from the store, or is the one for this object |
| `ConfigMigration.ConfigStore.MigrateAll` | cmd/config-encrypted.go:317-374 | over all pages: success means everything is encrypted under the active key; without failures iff everything was migratable |
| `ConfigMigration.ConfigStore.Migrate` | cmd/config-encrypted.go:295-380 | the store stays safe wherever it stops; the marker is complete only with everything under the active key; an error comes from the store, or is the one for an object that cannot be migrated |
| `ConfigMigration.ConfigStore.CheckBackendEncrypted` | cmd/config-encrypted.go:142-148 | whether the marker is complete, asked again while the backend does not answer |
| `ConfigMigration.ConfigStore.HandleEncryptedConfigBackend` | cmd/config-encrypted.go:36-123 | safe in all cases; going on with encryption on means a complete marker, going on over a complete marker means encryption on with credentials; without either the store is untouched; if the store never fails, exactly which error |
| `ConfigMigration.AnyRuns` | cmd/config-encrypted.go:36-123 | over every sequence of runs with any credentials, stopped anywhere, with failed writes that may have taken effect, the contents between the runs and how each ended: no object is lost, and a complete marker means all decrypt under the key it was completed with |
| `ConfigMigration.RestartCompletes` | cmd/config-encrypted.go:295-380 | after any number of interrupted runs one run without failures completes, and all decrypt under the active key |
| `ConfigMigration.UnaryIsValid` | cmd/config-encrypted.go:151-165 | there is encryption with the properties assumed |
| `HealResults.ResultQueue.Push` | cmd/admin-heal-ops.go:432-496 | the result is appended once, under the next index, or not at all; nothing is lost while it waits; it does not return iff the buffer is full and the timer ends the wait, and gives the stop error iff the stop signal was first or is set after the push |
| `HealResults.ResultQueue.Pop` | cmd/admin-heal-ops.go:264-307 | everything buffered is handed out, or lost if it cannot be marshalled |
| `HealResults.ResultQueue.NoRepetition` | cmd/admin-heal-ops.go:280-306 | whatever is lost, results are delivered in order and none twice |
| `HealResults.ResultQueue.ConsecutiveUnlessLost` | cmd/admin-heal-ops.go:280-306 | delivered and buffered results are 1, 2, 3, ... iff none pushed after a lost one is among them |
| `HealResults.AnyInterleaving` | cmd/admin-heal-ops.go:280-306 | in every interleaving of pushes and pops, marshalled or not, the trace of states and the outcome of every step: no repetition, at most 1000 buffered, a gap iff a result pushed after a lost one is left, and no loss without a failure to marshal |
| `HealResults.GapAfterFailure` | cmd/admin-heal-ops.go:293-303 | after a status that could not be marshalled the next one starts with result 2 |
| `HealResults.TimerHangs` | cmd/admin-heal-ops.go:438-469 | after 1000 results that nobody fetches the next push hangs |
| `HealRegistry.StepInv` | cmd/admin-heal-ops.go:199-258 | every step keeps un-ended registered sequences from overlapping |
| `HealRegistry.NeverOverwritten` | cmd/admin-heal-ops.go:229-243 | a launch never replaces an un-ended entry; only a stop request can remove it |
| `HealRegistry.SummaryMoves` | cmd/admin-heal-ops.go:505-549 | not started, running, stopped or finished, in this order |
| `HealRegistry.EveryRun` | cmd/admin-heal-ops.go:114-258 | in every state of every run un-ended registered sequences do not overlap |
| `HealRegistry.SummaryForward` | cmd/admin-heal-ops.go:505-549 | over any stretch of a run summaries only move forward and ended sequences stay as they are |
| `HealRegistry.HowSequencesEnd` | cmd/admin-heal-ops.go:505-549 | a sequence is finished iff it came to its end without an error, and stopped iff by an error or by a stop signal sent to it |
| `HealRegistry.LookUpThenDecide` | cmd/admin-heal-ops.go:199-227 | undisturbed, it decides by the sequence registered on its path |
| `HealRegistry.LaunchRegisters` | cmd/admin-heal-ops.go:229-251 | it is registered iff no un-ended registered sequence overlaps with it |
| `HealRegistry.ForcedStartWaits` | cmd/admin-heal-ops.go:209-223 | over any stretch of a run a forced start gets past the sequence it found only after that has ended |
| `HealRegistry.StopFinds` | cmd/admin-heal-ops.go:160-175 | a stop request finds the sequence registered on its path |
| `HealRegistry.StopWaitsForEnd` | cmd/admin-heal-ops.go:160-187 | over any stretch of a run it is done only after the sequence it found has ended |
| `HealRegistry.WaitersHaveTold` | cmd/admin-heal-ops.go:160-223 | in every state of every run, a sequence that a request waits for has been told to stop |
| `HealRegistry.StaysRegistered` | cmd/admin-heal-ops.go:160-187 | a step lets a live sequence out of the map iff it is a stop request removing an un-ended entry |
| `HealRegistry.NoLiveOverlap` | cmd/admin-heal-ops.go:160-258 | without such requests no two live sequences overlap |
| `HealRegistry.TwoRunOnOnePath` | cmd/admin-heal-ops.go:176-182 | with one, two sequences run on one path |
| `HealRegistry.PanicsExactly` | cmd/admin-heal-ops.go:416-422 | a step panics iff it closes a stop channel that was closed since it was looked at |
| `HealRegistry.NoRaceNoPanic` | cmd/admin-heal-ops.go:416-422 | a run without two requests inside `stop` of one sequence, both having seen its channel open, does not panic |
| `HealRegistry.RacePanics` | cmd/admin-heal-ops.go:416-422 | every run that comes to such a race can panic within two steps |
| `HealRegistry.TwoStopsPanic` | cmd/admin-heal-ops.go:168-182 | two stop requests for one running sequence come to it |
| `SetSizing.Gcd` | cmd/endpoint-ellipses.go:48-53 | the divisors of the result are the common divisors |
| `SetSizing.GetDivisibleSize` | cmd/endpoint-ellipses.go:47-59 | a number divides the result iff it divides every total |
| `SetSizing.LargestSize` | cmd/endpoint-ellipses.go:88-98 | the largest supported size that divides, or 0 |
| `SetSizing.ListsSupported` | cmd/endpoint-ellipses.go:43 | the supported sizes are the even numbers from 4 to 16 |
| `SetSizing.ValidIsSupported` | cmd/endpoint-ellipses.go:62-64 | the range check accepts exactly the supported sizes |
| `SetSizing.GetSetIndexes` | cmd/endpoint-ellipses.go:70-147 | succeeds iff a supported size (the custom one if given) divides every positive total, uses the largest, and the sets of each argument sum to its total |
| `SetSizing.Get` | cmd/endpoint-ellipses.go:166-177 | consecutive pieces of the given sizes that join to the endpoints |
| `SetSizing.AllUnique` | cmd/endpoint-ellipses.go:246-255 | true iff no endpoint occurs twice |
| `SetSizing.GetAllSets` | cmd/endpoint-ellipses.go:220-259 | success iff a layout exists and endpoints are distinct, and the error for duplicates; the sets have the chosen size and join to the endpoints |
| `UrlEncode.S3URLEncode` | cmd/api-utils.go:39-93 | on all paths the byte-by-byte encoding |
| `UrlEncode.EncodeOne` | cmd/api-utils.go:23-92 | a byte stays iff it is a letter, a digit or one of `-_./*`; a space becomes `+`, any other byte `%` and two upper-case hex digits of its value |
| `UrlEncode.EncodeConcat` | cmd/api-utils.go:76-92 | bytes are encoded one by one, in order |
| `UrlEncode.EncodedLength` | cmd/api-utils.go:59-64 | the buffer reserved is exactly what the encoding needs |
| `UrlEncode.CopyWithPlus` | cmd/api-utils.go:66-74 | the path without percent signs fills the buffer with the encoding |
| `UrlEncode.FillEscaped` | cmd/api-utils.go:76-92 | the general path fills the buffer with the encoding |
| `UrlEncode.RoundTrip` | cmd/api-utils.go:39-93 | undone by form-style unescaping (section 2.1 of RFC 3986, and `+` for a space) |
| `UrlEncode.Injective` | cmd/api-utils.go:39-93 | different names have different encodings |
| `UrlEncode.EncodedIsPlain` | cmd/api-utils.go:23-33 | only letters, digits, `-_./*`, `+` and `%` appear |

## Left out

- The Reed-Solomon library, HighwayHash, `sio`, `madmin` encryption and UTF-8 validation are parameters; the hypotheses
  are `Codec.Valid`, `Hash.Valid`, `Cipher.Valid` and `Crypto.Valid`, each with an instance that meets it (a hash only
  needs a fixed length). That a damaged shard is noticed is the hypothesis `Honest` of the readers.
- ErasureDecode.ParallelReader.Read: reuse of the shard buffers across blocks, and aliasing between them, are not
  modelled; shards are values.
- ErasureEncode.Encode: goroutines of one `parallelWriter.Write` work on different writers and are taken in index order.
- EncryptedRange.OpensCut: the mark of the final package, which a cut stream lacks, is not modelled; it belongs to `sio`.
- EncryptedRange.ReadRange: the decrypting reader delivers the plaintext at once, `DecryptBlocksReader.Read` with its
  buffer sizes is not modelled, nor is the mark of final packages.
- CacheFile.BitrotReadFromCache: ranges beyond the stored size, for which the reader delivers old contents of its buffer,
  are excluded as its callers exclude them.
- CacheCoherence.Run: cached ranges, cache-control (with the branch for no-store), encryption of the cache and HEAD
  requests; the file of a cached object counts as read when it is looked up, and a fill is one step, so a crash between
  data and metadata is not seen.
- FileScorer.Scorer.AddFile: scores are real numbers, without rounding of floating point.
- ConfigMigration.AnyRuns: objects are identified by their position in the listing, whose set of names does not change
  during a run; a write that fails leaves the old object or the new one. The etcd variant is not modelled.
- HealResults.AnyInterleaving: timers are nondeterministic pauses.
- HealRegistry.EveryRun: time is left out, so the clean-up may remove any ended entry; a panic ends the run.
- SetSizing.GetAllSets: the expansion of ellipses is given.
- HTTP handlers, authorization, the kinetic drive client, config version migrations, bytesToClear, dynamic timeouts,
  console logging and data usage: plumbing, foreign code, or only easy members.
