# TenzoShare: a verified model of its stateful core

This project models, in Dafny, the parts of TenzoShare where state, interleaving or byte-level
framing make correctness hard to see, and proves what they keep.

* **Upload and download streams.** A file flows through a size tracker, a sniff whose bytes are put
  back in front, a chunked AES-GCM encryptor and a multipart upload; a download flows back through
  the decryptor. Every stage is an object with its own position, buffer and error flags, driven by
  arbitrary short reads (a schedule) and arbitrary caller buffers. Chunk, part and sniff size, size
  limit, cipher and base IV are parameters, and every call to the object store may be carried out,
  refused, or carried out without an acknowledgement.
* **Storage at run time.** Uploads under a per-owner quota mutex, deletes by owners and admins, the
  admin's manual purge and both passes of the retention worker interleave with the sharing of files
  and the clock, one SQL statement or object-store call at a time; each may fail. The queries return
  what the SQL selects at that instant: the retention rule with its cap of 500, and for the second
  pass the 48-hour window, the order by date and the limit of 200.
* **Retention rules.** The three separately written formulas for when a file may be purged, and what
  the shares look like that the transfer service creates.
* **Transfers.** Download attempts (snapshot, checks, conditional upsert, detached increment)
  interleave with each other, Revoke, ExpireStale and the clock; the answer to a statement may be
  lost after it was carried out.
* **File requests, lockout, rate limits, MIME printing.**

A system that runs concurrently is a state machine (`Storage`, `Transfers`, `Requests`): a run is a
list of actions, an action that is not possible when its turn comes does nothing, and the theorems
quantify over all lists. Code that updates objects is a class with the same fields and methods, each
specified by a function or predicate that the theorems are about.

| file | models |
|---|---|
| Wrappers.dfy, IoErrors.dfy, Bytes.dfy | options, the errors of a reader, bytes, big-endian integers, cutting into pieces |
| ChunkFormat.dfy | IVs, frames, sizes, decoding of whole and cut objects |
| Streams.dfy, Decryption.dfy | io.Reader, tracker, multi-reader, io.ReadFull, encryptor, decryptor |
| Multipart.dfy, Pipeline.dfy | object store, multipart upload, upload and download end to end |
| Storage.dfy | storage state machine |
| StorageSafety.dfy, StorageStray.dfy, StorageQuota.dfy | live records have their objects, objects have their records; quotas |
| StorageFreed.dfy | the bytes that purges report |
| StorageKeys.dfy, StorageRuns.dfy, StorageLeak.dfy | which objects of deleted files the worker can still remove |
| UploadHandler.dfy, Cleanup.dfy | end of the upload handler, deletes, worker cycle and manual purge as sequential code |
| Retention.dfy, ShareRules.dfy | eligibility rules, and the shares that transfers make |
| Transfers.dfy, TransferCounts.dfy, TransferStops.dfy | transfers as a state machine: counters, and what ends a transfer |
| TransferService.dfy | the code of one request |
| Requests.dfy | submissions to a file request |
| Lockout.dfy, LockoutRace.dfy, RateLimit.dfy, Auth.dfy | lockout with serial and with overlapping logins, limiter, and the login that uses both |
| Mime.dfy | base64, line wrapping, multipart body, parser |

## Findings

Where a promise is false of the code, the model keeps the code as it is, gives an input or a run on
which the promise fails, and proves when it holds.

* **A source that ends in io.ErrUnexpectedEOF is stored as complete.** The encryptor and the part
  loop take that error for their own short last read (`Pipeline.UploadTruncated`; success exactly when
  the stream ends in either error: `Pipeline.StreamUpload`).
* **A download cut by io.ErrUnexpectedEOF can end in a clean EOF.** That is what a body reports that
  is shorter than announced. The decryptor takes it for the end when it comes at a frame boundary or
  inside a length header, and exactly then; the reply is a strict prefix of the file, and an empty one
  if the cut is in the first header (`Pipeline.DownloadTruncated`, `Pipeline.DownloadCut`). Without
  encryption the error is passed on (`Pipeline.Download`).
* **The decryptor does not check the order of frames.** It takes each IV from its frame, so the frames
  of an object, permuted, repeated or left out, decode to the chunks in that order and a clean EOF
  (`ChunkFormat.FramesInAnyOrder`). A frame that does not open does end the reply in an error, after
  exactly the chunks before it (`Pipeline.DownloadTampered`).
* **chunkedCiphertextSize** says 32 for an empty file, the encryptor emits nothing; it is right for
  all others (`ChunkFormat.SizePrediction`).
* **A cut inside a length header reads as a clean end of file**, as does one between two frames, and
  no other cut does (`ChunkFormat.DecodePrefix`).
* **A committed INSERT that is reported as failed leaves a live record without its object**, and
  nothing else does (`StorageSafety.LostInsertDangles`, `StorageSafety.NeverDangling`).
* **A write that the store carries out and reports as failed, or a rollback that fails, leaves an
  object without a record for good.** Nothing else does (`StorageStray.LostWriteStrays`,
  `StorageStray.FailedRollBackStrays`, `StorageStray.NoStrayIff`, `StorageStray.StrayForever`).
* **A failing policy or usage read lifts the quota**, and a failing override read replaces an
  owner's override by the global limit, which matters exactly if some override is tighter
  (`StorageQuota.UncheckedExceeds`, `StorageQuota.UsageFailureExceeds`,
  `StorageQuota.OverrideFailureExceeds`, `StorageQuota.QuotaSafety`).
* **Objects of deleted files can stay in the store for good.** The comments say that the worker
  removes what an admin deletes; but both admin paths write the purge log, and the worker skips what
  is logged (`StorageLeak.AdminDeleteLeaks`). What an owner deletes stays if the detached drop fails
  and no cycle comes to its second pass within 48 hours, and a cycle without candidates has no second
  pass (`StorageLeak.OwnerDeleteLeaks`, `Cleanup.Service.RunCycle`). Once no request in progress is
  going to drop it, the object can still go exactly if retention is on, the file is not logged, and a
  candidate can come up in time (`StorageLeak.PurgeableIffChance`).
* **The worker's freed bytes can include rows that somebody else deleted**, exactly if another request
  marks a candidate that is not empty between the query and the worker's own UPDATE
  (`StorageLeak.WorkerOvercounts`, `StorageFreed.WorkerFreedBytes`). The admin's are exact
  (`StorageFreed.AdminFreedBytes`).
* **An upsert or increment whose answer is lost** leaves a file's counter above the downloads allowed,
  or the total above what the log of failures explains (`TransferCounts.LostUpsert`,
  `TransferCounts.LostIncrement`). The cap holds even so; the equalities hold in every run exactly if
  no answer is lost.
* **The submission limit is not atomic**, contrary to its comment: with c calls in flight a request
  can record MaxFiles + c - 1 (`Requests.SubmissionCap`).
* **The lockout is not atomic either**: with c logins of one account in flight, c failures fit in one
  lock period, and not more (`LockoutRace.RaceTight`, `LockoutRace.RaceBound`). One failure a period
  holds in every run exactly if logins are serial (`LockoutRace.SpacedIffSerial`).
* **The limiter admits up to 2 * limit - 1 requests in an interval of the window's length**, one
  less than twice the limit, because the request that opens a window is at its start
  (`RateLimit.AdmittedPerInterval`, `RateLimit.IntervalTight`).

Two more differences between the code's own rules show only on rows that the program does not write.
They matter if transfers or settings are written from outside, by a migration or by hand.

* **The admin's list can call a file eligible that the worker never selects**: one with a revoked
  share without an expiry next to shares that expired (`Retention.NullShareDisagrees`,
  `Retention.RetentionAgreement`). The only INSERT into the transfers gets
  its row from services/transfer/internal/service/transfer_service.go:87-122, which always sets an
  expiry, so on every file of the program the two agree (`ShareRules.ListAgreesWithWorker`).
* **auto_delete_at takes the days as configured**, the worker replaces non-positive ones by 30 and
  90 (`Retention.ZeroDaysDisagree`, `Retention.AutoDeleteIsKept`). The settings handler rejects days
  below 1 (services/admin/cmd/server/main.go:1213-1217), and with days that it accepts the date shown
  is the one the worker keeps (`ShareRules.DateIsKept`).

## Model

| member | source | states |
|---|---|---|
| ChunkFormat.DeriveChunkIV | services/storage/internal/handlers/storage.go:880-887 | the byte-wise XOR loop leaves the base IV with the big-endian index XORed into its last eight bytes |
| ChunkFormat.ChunkIVInjective | services/storage/internal/handlers/storage.go:880-887 | the first four bytes survive, and two 64-bit indices give the same IV only if they are equal |
| ChunkFormat.ChunkIVBits | services/storage/internal/handlers/storage.go:880-887 | bit i of the k-th last byte of the IV is that of the base IV, flipped exactly if the index has the bit of weight 2^(8k+i) |
| ChunkFormat.NonceUnique | services/storage/internal/handlers/storage.go:940-947 | two frames of one object share an IV exactly when their positions agree modulo 2^64, so no IV repeats in an object of at most 2^64 chunks |
| ChunkFormat.FrameLayout | services/storage/internal/handlers/storage.go:940-949 | a frame begins with the plaintext's length, most significant byte first, and the IV; the ciphertext with its tag follows |
| ChunkFormat.ObjectStart | services/storage/internal/handlers/storage.go:902-947 | the object of a non-empty file begins with the frame of its first chunk under the base IV itself |
| ChunkFormat.SizePrediction | services/storage/internal/handlers/storage.go:891-897 | the predicted size is that of the stored object exactly for non-empty files; for an empty one it is 32 and the object is empty |
| ChunkFormat.EncryptIsFrames | services/storage/internal/handlers/storage.go:923-949 | the encryptor's chunk-by-chunk output is the list of frames of the file cut to chunk size, numbered from the start index |
| ChunkFormat.DecodePrefix | services/storage/internal/handlers/storage.go:987-1017 | the first bytes of an object, cut anywhere, decode to the whole chunks before the cut, then EOF exactly if the cut is at a frame boundary or inside a length header, else the error of the field it cuts |
| ChunkFormat.WholeFramesBracket | services/storage/internal/handlers/storage.go:987-1017 | the number of whole chunks before a cut is that of the last frame boundary at or before it |
| ChunkFormat.ObjectRoundTrip | services/storage/internal/handlers/storage.go:902-1032 | an object decodes to the file it was made from, and to a clean end |
| ChunkFormat.FramesInAnyOrder | services/storage/internal/handlers/storage.go:1000-1009 | any sequence of frames of one object, in any order, repeated or left out, decodes to the chunks in that order and a clean end |
| ChunkFormat.DecodeTampered | services/storage/internal/handlers/storage.go:1011-1014 | after any sound frames, a complete frame that does not open ends the decoding in the error of a chunk that cannot be decrypted, whatever follows |
| ChunkFormat.MakeChunkedIV | services/storage/internal/handlers/storage.go:856-877 | the marker is recognised, and carries the base IV |
| ChunkFormat.MagicText | services/storage/internal/handlers/storage.go:856-877 | a recognised marker begins with the text TZCHUNK and a 1 |
| Streams.UploadTracker.Read | services/storage/internal/handlers/storage.go:820-838 | a reader that delivers its source, fails for good with the size error exactly if more than a positive limit is to come, and counts what it delivers |
| Streams.MultiReader.Read | services/storage/internal/handlers/storage.go:230-240 | one reader that delivers the sniffed bytes and then the rest of the file, with the rest's error |
| Streams.ReadFull | services/storage/internal/handlers/storage.go:925-936 | io.ReadFull over any reader: fills the buffer with the next bytes whatever the short reads, drops an error that arrives with the last byte it needs, gives the reader's own end if nothing was read, and ErrUnexpectedEOF if only a part was |
| Streams.StreamEncryptor.ReadChunk | services/storage/internal/handlers/storage.go:923-938 | the next chunk of plaintext is full unless it is the last; the end is reported exactly when nothing is left, any other error is passed on |
| Streams.StreamEncryptor.Emit | services/storage/internal/handlers/storage.go:940-949 | one frame under the IV of the current index, and the index steps by one, wrapping as a uint64 |
| Streams.StreamEncryptor.Read | services/storage/internal/handlers/storage.go:952-964 | any buffer size: the bytes delivered continue the frames of the source, and the error is announced only when none are left |
| Decryption.StreamDecryptor.ReadFrame | services/storage/internal/handlers/storage.go:987-1009 | a frame is taken from the source as one unit; a source that ends inside it gives the error of the field it ends in |
| Decryption.StreamDecryptor.Read | services/storage/internal/handlers/storage.go:1020-1032 | any buffer size: the bytes delivered continue the decoding of the source, the loop ends even on zero-length frames, and EOF comes only from a clean source that is used up |
| Decryption.Drain | services/storage/internal/handlers/storage.go:605-635 | read to the first error with any buffers, a source that ends in EOF or in io.ErrUnexpectedEOF gives exactly the decoding of the bytes it delivers, and one that ends in another error never ends in EOF |
| Multipart.UploadParts | services/storage/internal/backends/minio.go:149-190 | success uploads the pieces of the stream as parts 1 to k, all full but the last, which is not empty; a failing read or part is reported as such |
| Multipart.Finish | services/storage/internal/backends/minio.go:192-221 | completes the upload to exactly the stream, or for an empty stream aborts and puts an empty object |
| Multipart.MultipartUpload | services/storage/internal/backends/minio.go:129-221 | all or nothing: exactly the stream is stored or the objects are unchanged, a stream that fails stores nothing, with a working store the stream and its length decide; the upload id is completed or an abort issued, both only when completion went wrong |
| Multipart.AssembleNumbered | services/storage/internal/backends/minio.go:199-218 | parts numbered 1 to k assemble to the concatenation of the pieces in order |
| Pipeline.OpenSource | services/storage/internal/handlers/storage.go:219-240 | after the sniff the combined reader still has the whole file to deliver, with the size error if it is over the limit |
| Pipeline.StreamUpload | services/storage/internal/handlers/storage.go:219-289 | success stores the encryption of exactly the file and the tracker holds its length; a file over a positive limit never succeeds and stores nothing; with a working store the tracker is exceeded exactly then |
| Pipeline.UploadTruncated | services/storage/internal/handlers/storage.go:929-936 | a source that breaks off with io.ErrUnexpectedEOF is stored and reported as a complete upload of what has arrived |
| Pipeline.EncryptFile | services/storage/internal/handlers/storage.go:902-964 | for every pattern of reads and every list of buffers, the encryptor read to the end delivers the frames of the file, chunkedCiphertextSize of them for a non-empty file |
| Pipeline.DecryptAll | services/storage/internal/handlers/storage.go:968-1032 | whatever the reads, the buffers and which of the two ends the source has, the decryptor read to the end on any bytes gives exactly their decoding |
| Pipeline.DecryptPrefix | services/storage/internal/handlers/storage.go:968-1032 | for every cut of an object, pattern of reads, list of buffers and either end of the source, the decryptor delivers the whole chunks before the cut and then the end or error that the cut calls for |
| Pipeline.Download | services/storage/internal/handlers/storage.go:586-635 | which of the paths is taken, and what it makes of the part of the object that arrives and of the error after it: the plain path delivers the part and the error; the chunked one exactly the decoding of the part if the error is EOF or io.ErrUnexpectedEOF, and else a prefix of it that does not end in EOF |
| Pipeline.DownloadCut | services/storage/internal/handlers/storage.go:991-1009 | of an encrypted file cut by io.ErrUnexpectedEOF the whole chunks arrive, a strict prefix of the file; the reply ends in EOF exactly if the cut is at a frame boundary or inside a length header |
| Pipeline.DownloadTruncated | services/storage/internal/handlers/storage.go:991-997 | a file that is not empty, cut before the end of its first length header, is an empty reply with a clean EOF |
| Pipeline.DecryptTampered | services/storage/internal/handlers/storage.go:1011-1014 | of sound frames, one that does not open, and any bytes after it, the decryptor delivers exactly the chunks of the sound ones and then the error of a chunk that cannot be decrypted |
| Pipeline.DownloadTampered | services/storage/internal/handlers/storage.go:586-635 | so does a download; whatever error ends the connection, its reply is a prefix of those chunks and never ends in EOF |
| Pipeline.UploadThenDownload | services/storage/internal/handlers/storage.go:109-635 | a download of which everything arrives, after a successful upload, returns the file, of the recorded size and within the limit, for all patterns of reads on both sides |
| StorageSafety.StaysConsistent | services/storage/internal/handlers/storage.go:262-337 | if no INSERT that reports an error has been committed, every interleaving keeps: live records have their object, each record belongs to the upload of its key, and whoever is about to drop an object works for a deleted record |
| StorageSafety.NeverDangling | services/storage/internal/handlers/storage.go:326-337 | no reachable state has a live record without its object, exactly when no INSERT that reports an error has been committed |
| StorageSafety.LostInsertDangles | services/storage/internal/handlers/storage.go:326-337 | a committed INSERT that reports an error ends in a live record without its object |
| StorageSafety.DeleteKeeps | services/storage/internal/handlers/storage.go:434-459 | the steps of an owner's delete keep the store consistent, the object being dropped after the record is marked |
| StorageSafety.PurgeKeeps | services/storage/internal/cleanup/worker.go:134-177 | so do the steps of the worker's two passes and of the manual purge |
| StorageStray.NoStrayIff | services/storage/internal/handlers/storage.go:262-337 | in every run, each object belongs to a record or to an upload still at work exactly if no write that reported an error was carried out, and no rollback failed whose upload has no record |
| StorageStray.StrayForever | services/storage/internal/handlers/storage.go:262-337 | from every reachable state, an object without either stays in the store in every continuation |
| StorageStray.LostWriteStrays | services/storage/internal/handlers/storage.go:262-289 | a run in which the store keeps an upload that is reported as failed |
| StorageStray.FailedRollBackStrays | services/storage/internal/handlers/storage.go:326-337 | a run in which the INSERT of an upload fails, and then its rollback |
| StorageQuota.UsageFlip | services/storage/internal/repository/file_repo.go:153-164 | marking a file lowers its owner's usage by its size if it was live, and nobody else's |
| StorageQuota.QuotaHolds | services/storage/internal/handlers/storage.go:297-326 | from any table, in every interleaving, each owner's live bytes stay within the effective quota, or within what they were, if the quota is enforced: on, policy and usage readable, and overrides readable unless none is below the global limit |
| StorageQuota.QuotaSafety | services/storage/internal/handlers/storage.go:297-326 | the quota is respected in every reachable state exactly when it is so enforced |
| StorageQuota.QuotaCap | services/storage/internal/handlers/storage.go:300-306 | in every reachable state under an enforced quota, an owner's live bytes are at most the override, be it above or below the global limit, and at most the global limit if there is none |
| StorageQuota.QuotaIsReached | services/storage/internal/handlers/storage.go:300-306 | and a state is reachable in which they are exactly that |
| StorageQuota.UncheckedExceeds | services/storage/internal/handlers/storage.go:297-299 | with the quota off, or its policy unreadable, an owner gets past the effective quota |
| StorageQuota.UsageFailureExceeds | services/storage/internal/handlers/storage.go:304-306 | so does one whose usage cannot be read |
| StorageQuota.OverrideFailureExceeds | services/storage/internal/handlers/storage.go:300-304 | so does one whose override is below the global limit and cannot be read |
| StorageFreed.AdminFreedBytes | services/admin/cmd/server/main.go:1507-1533 | in every interleaving the admin handler's freed bytes are exactly those of the rows it marked itself |
| StorageFreed.WorkerFreedBytes | services/storage/internal/cleanup/worker.go:106-121 | in every interleaving the worker's freed bytes are at least those of the rows it marked itself, and equal to them exactly if nobody else marks a candidate that is not empty between the query and the worker's UPDATE for it |
| StorageLeak.WorkerOvercounts | services/storage/internal/cleanup/worker.go:106-116 | from every reachable state with retention on and a selected file that is not empty, a cycle can begin that counts bytes it did not free |
| StorageKeys.StaysKeyed | services/storage/internal/cleanup/worker.go:134-177 | every interleaving keeps, even if INSERTs get lost: no two records share an object key, a key belongs to an upload past its INSERT, and whoever is about to drop an object works for a deleted record |
| StorageRuns.CyclesDrop | services/storage/internal/cleanup/worker.go:65-152 | with a candidate for the first pass, and however many files are pending before it, some number of cycles removes the object of a pending file |
| StorageRuns.CandidatesRule | services/storage/internal/cleanup/worker.go:84-103 | a purge takes at most 500 of the selected files, without repetition, and all of them if they are fewer |
| StorageRuns.PendingRule | services/storage/internal/repository/file_repo.go:302-311 | the second pass takes the 200 latest of the rows that were deleted in the last 48 hours and are not logged, or all of them, latest first |
| StorageRuns.OneCycleAtATime | services/storage/internal/cleanup/worker.go:43-63 | with one worker, no two cycles are ever in progress at the same time |
| StorageLeak.SharedIsKept | services/storage/internal/repository/file_repo.go:244-263 | a file is not selected before a transfer that has just been created with it expires |
| StorageLeak.EndedIsOver | services/transfer/internal/repository/transfer_repo.go:169-180 | a transfer that is ended is not active at any later time, and nothing else changes |
| StorageLeak.HopelessForever | services/storage/internal/cleanup/worker.go:134-152 | a deleted file whose object no request in progress will drop, and which no later second pass can select, keeps its object in every continuation |
| StorageLeak.PurgeableIffChance | services/storage/internal/repository/file_repo.go:302-311 | once no request in progress will drop it, the object of a deleted file can still go in some continuation exactly when retention is on, the file is not in the purge log, and some file (live as shared now, or uploaded later) can be selected within 48 hours of the deletion, or an admin's UPDATE that renews those is still to come |
| StorageLeak.AdminDeleteLeaks | services/admin/cmd/server/main.go:1405-1439 | from every reachable state in which nobody works on a file, an admin's delete whose statements succeed leaves its object there in every continuation |
| StorageLeak.OwnerDeleteLeaks | services/storage/internal/handlers/storage.go:448-455 | so does an owner's delete whose detached drop fails, once 48 hours have passed without a second pass |
| UploadHandler.Handler.CheckQuota | services/storage/internal/handlers/storage.go:301-306 | the limit is the override, if there is one and it can be read, above or below the global one, else the global one; refuses exactly if the usage is read and, with the size, exceeds it |
| UploadHandler.Handler.Finish | services/storage/internal/handlers/storage.go:297-343 | the end of an upload is a run of the state machine that gives the mutex back; it is refused exactly if the check is made and overrun, recorded exactly if it is not and the INSERT works, and rolled back without a record |
| Cleanup.Service.DeleteFile | services/storage/internal/handlers/storage.go:434-459 | alone it is a run of the state machine: a live file is deleted exactly if its owner or an administrator asks and the UPDATE works, the row marked before the object goes; and nothing is logged |
| Cleanup.Service.AdminDeleteFile | services/admin/cmd/server/main.go:1405-1439 | alone it is a run of the state machine: a live file is deleted exactly if the UPDATE works, and logged; its object stays |
| Cleanup.UnionIsEligibleResult | services/storage/internal/repository/file_repo.go:237-270 | the query's two rules joined by UNION ALL return each file that the state machine's purges may begin with exactly once |
| Cleanup.Service.SoftDeleteByID | services/storage/internal/repository/file_repo.go:288-297 | marks the row once; the affected count tells whether it did |
| Cleanup.Service.PurgeFile | services/storage/internal/cleanup/worker.go:154-177 | mark, object, log, where only a failing mark stops it |
| Cleanup.Service.PurgeOrphanedObjects | services/storage/internal/cleanup/worker.go:134-152 | a run of the state machine's second pass: drops the objects of the selected rows where the store allows it, and logs them whether or not it did |
| Cleanup.Service.PurgeCandidates | services/storage/internal/cleanup/worker.go:106-116 | a run of its first pass: marks the candidates whose statement works, and live bytes and live files fall by exactly what it reports |
| Cleanup.Service.RunCycle | services/storage/internal/cleanup/worker.go:65-132 | a run of the state machine: the first pass over at most 500 candidates, then the second over what is pending after it; live bytes fall by exactly freedBytes, only objects of deleted rows go, and with retention off or without candidates nothing happens at all |
| Cleanup.Service.HandleTriggerPurge | services/admin/cmd/server/main.go:1507-1541 | a run of the state machine from its query on, for any candidates, live by now or not: counts exactly the files and bytes it marked itself, logs those, and leaves the objects alone |
| Cleanup.CycleDrains | services/storage/internal/cleanup/worker.go:84-121 | a cycle over N eligible files marks min(N, 500) of them |
| Cleanup.CyclesDrain | services/storage/internal/cleanup/worker.go:84-121 | k cycles at one instant over N eligible files leave max(0, N - 500k) |
| Retention.MaxCoalescedIs | services/storage/internal/repository/file_repo.go:244-253 | how the worker's maximum over the shares differs from the plain maximum of the expiries |
| Retention.WorkerRule | services/storage/internal/repository/file_repo.go:237-270 | the worker selects a live file exactly if it has no shares and is older than its days, or each of its shares has an expiry and that is longer ago than its days (90 and 30 if none are configured) |
| Retention.ListRule | services/admin/cmd/server/main.go:1325-1346 | the admin's flag, share by share: as the worker's, but shares without an expiry only have to be revoked, if one has an expiry |
| Retention.RetentionAgreement | services/admin/cmd/server/main.go:1325-1346 | the admin's flag and the worker's rule agree exactly unless a revoked share without an expiry sits next to shares that all expired long enough ago |
| Retention.NullShareDisagrees | services/admin/cmd/server/main.go:1337-1346 | a file on which they disagree |
| Retention.AgreementWithoutNulls | services/storage/internal/repository/file_repo.go:237-270 | with an expiry on every share they agree at every instant |
| Retention.ActiveShareProtects | services/storage/internal/handlers/storage.go:407-421 | a file with an active share is selected by no rule and has no date |
| Retention.DateRule | services/storage/internal/handlers/storage.go:403-427 | with retention on, a date is shown exactly if there are no shares, or each is revoked or past its expiry and some has one; it is the configured days after the upload or after the last expiry |
| Retention.SelectedIffPastDeadline | services/storage/internal/repository/file_repo.go:237-270 | with an expiry on every share, the worker's SQL selects a live file exactly after the one instant that its last expiry or its upload and the policy give |
| Retention.SelectedAfterDeadline | services/storage/internal/handlers/storage.go:403-427 | once a date is shown, with the shares unchanged, the worker selects the file exactly when the last expiry plus its retention is past and every share has an expiry |
| Retention.AutoDeleteIsKept | services/storage/internal/handlers/storage.go:403-427 | the date shown is the one the worker keeps at every later time exactly when every share has an expiry and the configured days are positive (or the deadline has passed) |
| Retention.SelectedHasDate | services/storage/internal/handlers/storage.go:403-427 | with an expiry on every share and positive days, every file the worker selects has a date shown, and it is past |
| Retention.ZeroDaysDisagree | services/storage/internal/handlers/storage.go:410-417 | a policy on which it is not |
| Retention.QueryExact | services/storage/internal/repository/file_repo.go:237-270 | the two rules joined by UNION ALL list each selected file once and no other |
| ShareRules.ListAgreesWithWorker | services/transfer/internal/service/transfer_service.go:87-122 | in every run of the transfers that creates them with an expiry, as Create does, the admin's list and the worker agree on every file at every instant |
| ShareRules.DateIsKept | services/admin/cmd/server/main.go:1213-1217 | and with days that the settings handler accepts, a date that is shown is the one the worker keeps |
| ShareRules.SharesAreTransfers | services/storage/internal/repository/file_repo.go:244-253 | the shares of a file are exactly the transfers that have it, with their revocation and expiry |
| Transfers.ExhaustedMeansRefused | services/transfer/internal/repository/transfer_repo.go:67-73 | is_exhausted holds exactly when the upsert would refuse every file of the limited transfer, missing counters included |
| Transfers.StatusOnlyRises | services/transfer/internal/domain/transfer.go:31-42 | in every run exhaustion is permanent and the status only moves up active, expired, exhausted, revoked |
| Transfers.RunFollows | services/transfer/internal/repository/transfer_repo.go:158-180 | in every run no revocation is taken back, no row or request changes otherwise, and no counter falls |
| Transfers.SucceedsIff | services/transfer/internal/service/transfer_service.go:290-356 | a request can still succeed in some continuation exactly if what it has not yet looked at allows it; so never if its snapshot comes after the revocation or its check after the expiry |
| TransferStops.NotServedAfterEnd | services/transfer/internal/repository/transfer_repo.go:169-180 | in every run, once the owner has revoked a transfer, or ExpireStale has come across it after its time, no request for it succeeds that begins later or had not read the row |
| TransferStops.NotServedAfterExpiry | services/transfer/internal/service/transfer_service.go:299-301 | in every run, once the clock is past the expiry, none succeeds that begins later or had not been checked |
| TransferStops.RevokeTouches | services/transfer/internal/repository/transfer_repo.go:169-180 | a revocation sets the flag of the row of this owner and changes nothing else |
| TransferStops.AloneIff | services/transfer/internal/service/transfer_service.go:290-356 | a request without interference is served exactly if the transfer is not revoked and not past its time, the password is right, and the file is one of its and has downloads left |
| TransferStops.StatusTells | services/transfer/internal/domain/transfer.go:31-42 | a transfer with files is active exactly if some such request would be served; otherwise the status is the first reason, revoked, exhausted or expired |
| TransferStops.StatusIsKept | services/transfer/internal/domain/transfer.go:31-42 | in every run a revoked transfer stays revoked, an exhausted one is never active or expired again, an expired one never active |
| TransferCounts.DownloadCap | services/transfer/internal/repository/transfer_repo.go:260-279 | in every interleaving the counter of a limited file is the number of upserts carried out for it, at least the allowed downloads of it, and within the limit; it is the allowed downloads if no answer is lost |
| TransferCounts.CounterIsAllowedIffAcknowledged | services/transfer/internal/repository/transfer_repo.go:260-279 | it is the allowed downloads in every run exactly if no answer is lost |
| TransferCounts.DownloadsConserved | services/transfer/internal/service/transfer_service.go:335-350 | in every interleaving the allowed downloads are download_count plus the increments pending and those without effect; under a limit the file counters add up to the upserts carried out, which are the allowed downloads if no answer is lost |
| TransferCounts.TotalIsAllowed | services/transfer/internal/repository/transfer_repo.go:158-167 | while every increment that is tried works, download_count is the allowed downloads but those whose increment is pending |
| TransferCounts.BalancedIffAcknowledged | services/transfer/internal/service/transfer_service.go:335-350 | download_count plus the increments pending and reported as failed are the allowed downloads in every run exactly if no answer is lost |
| TransferCounts.LostUpsert | services/transfer/internal/repository/transfer_repo.go:260-279 | a run in which a lost answer uses up a download that nobody gets |
| TransferCounts.LostIncrement | services/transfer/internal/service/transfer_service.go:335-350 | a run in which an increment is in the total and reported as failed |
| TransferCounts.OtherCountersUntouched | services/transfer/internal/repository/transfer_repo.go:260-279 | a counter changes only by one, by an upsert that a request for this very file has carried out |
| TransferCounts.StopsAfterRevocation | services/transfer/internal/repository/transfer_repo.go:169-180 | after a revocation at most the requests that had read the transfer before still succeed |
| TransferCounts.StopsAfterExpiry | services/transfer/internal/service/transfer_service.go:299-301 | after the expiry at most the requests already past their checks still succeed |
| TransferService.Service.Create | services/transfer/internal/service/transfer_service.go:80-133 | accepts exactly named, non-empty requests with distinct files and a duration in range; the transfer expires within 90 days, and is open without a password exactly if the given one is empty |
| TransferService.Service.AttemptFileDownload | services/transfer/internal/service/transfer_service.go:290-356 | a request without interference is served exactly if the row is not revoked, not past its expiry, the password is right and the file is one of its with downloads left, which is when the state machine says it may succeed; then file and transfer are counted once, else nothing changes, and the first failing check is reported |
| TransferService.TransferRepository.AttemptFileDownload | services/transfer/internal/repository/transfer_repo.go:260-279 | returns a row exactly if the counter is missing or below the limit, and then counts one |
| TransferService.TransferRepository.ExpireStale | services/transfer/internal/repository/transfer_repo.go:306-316 | revokes exactly the rows past their expiry, changes nothing else, and reports how many were not revoked before |
| TransferService.TransferRepository.Revoke | services/transfer/internal/repository/transfer_repo.go:169-180 | sets the flag of the row of this owner, changes nothing else, and reports whether there is one |
| Requests.SubmissionCap | services/transfer/internal/service/request_service.go:246-271 | with at most c calls in flight a request records at most MaxFiles + c - 1 submissions, and in some run that many |
| Requests.LimitHoldsIffSerial | services/transfer/internal/service/request_service.go:246-254 | the limit holds in every run exactly when the calls are serial |
| Requests.RequestService.Submit | services/transfer/internal/service/request_service.go:234-299 | a serial call records exactly if every check and call succeeds, and keeps the number within the limit |
| Lockout.StaysSpaced | services/auth/internal/repository/user_repo.go:252-280 | in every serial run the counter is the number of failures since the last reset, and from the threshold on each failure comes a lock duration after the one before |
| Lockout.RequestEffects | services/auth/internal/service/auth_service.go:284-325 | a request changes nothing while the lock lasts or if it stops at the second factor or an unverified address, adds one failure for a wrong password, and resets only when complete |
| Lockout.LockoutBound | services/auth/internal/service/auth_service.go:288-302 | the n-th failure since a reset comes at least (n - M) lock durations after the M-th |
| Lockout.LockoutTight | services/auth/internal/repository/user_repo.go:252-267 | for every n there is a serial run that is exactly that fast |
| LockoutRace.RaceBound | services/auth/internal/service/auth_service.go:288-302 | with at most c logins of an account in flight, each reading the account, checking the lock and recording its failure at different times, k * c failures beyond any from the threshold on take at least k lock durations |
| LockoutRace.RaceTight | services/auth/internal/repository/user_repo.go:252-267 | for every c and k there is a run in which they take exactly that, c failures at a time |
| LockoutRace.SerialLogin | services/auth/internal/service/auth_service.go:284-325 | a login of these steps that nobody interferes with is a request of the serial model |
| LockoutRace.SpacedIffSerial | services/auth/internal/service/auth_service.go:288-302 | from the threshold on each failure comes a lock duration after the one before, in every run, exactly if c is one or locks do not last |
| RateLimit.EventsNumbered | services/auth/internal/service/auth_service.go:702-715 | within a lifetime of a key the counter numbers its uses, and the next lifetime begins when the window is over |
| RateLimit.AdmittedPerLifetime | services/auth/internal/service/auth_service.go:702-715 | at most limit requests are admitted in one lifetime of a key |
| RateLimit.AdmittedPerInterval | services/auth/internal/service/auth_service.go:702-715 | at most 2 * limit - 1 requests are admitted in any half-open interval of the window's length |
| RateLimit.IntervalTight | services/auth/internal/service/auth_service.go:702-715 | and some list of requests reaches that number |
| RateLimit.LoginsPerLifetime | services/auth/internal/service/auth_service.go:686-729 | admitted logins and recorded failures of one address, serialised, are at most limit + 1 in one lifetime of the key |
| Auth.AuthService.CheckRateLimit | services/auth/internal/service/auth_service.go:686-700 | denies without a cache, passes if the increment fails, else admits within the limit and counts one use |
| Auth.AuthService.CheckRateLimitGeneric | services/auth/internal/service/auth_service.go:702-715 | passes without a cache or if the increment fails, else admits within the limit and counts one use |
| Auth.AuthService.RecordIPAttempt | services/auth/internal/service/auth_service.go:717-729 | counts one use of the address's key, if there are a cache and an address |
| Auth.AuthService.RecordFailedLogin | services/auth/internal/repository/user_repo.go:252-267 | one more failure, and a lock from now on at the threshold and beyond |
| Auth.AuthService.Authenticate | services/auth/internal/service/auth_service.go:278-345 | which check refuses a login, and what happens to the columns of an active account: a wrong password adds a failure and locks from the threshold on, a complete login resets both, and a lock, a second factor or an unverified address leave them alone; as the lockout model says |
| Auth.AuthService.Login | services/auth/internal/service/auth_service.go:259-351 | the limiter refuses exactly when a counter is past its limit or the address cannot be checked; past it the columns of the account change in the same way, and the address is charged once, or twice for invalid credentials |
| Auth.AuthService.LoginSeries | services/auth/internal/service/auth_service.go:259-351 | any series of logins, one after the other and with a cache that answers, moves the counter of an address and an account through steps that depend on the calls and their outcomes |
| Auth.SeriesCharges | services/auth/internal/service/auth_service.go:686-729 | so, from a key without uses on, at most 6 admitted logins and recorded failures of an address fit in one lifetime of 15 minutes of its key |
| Auth.SeriesFailures | services/auth/internal/service/auth_service.go:278-345 | and, from an account without failures on, the n-th counted failure comes at least (n - M) lock durations after the M-th |
| Mime.DecodeEncode | services/notification/internal/email/sender.go:300 | base64 decoding undoes encoding |
| Mime.StandardAlphabet | services/notification/internal/email/sender.go:300 | the digits are those of table 1 of RFC 4648 |
| Mime.EncodeThree | services/notification/internal/email/sender.go:300 | three bytes become the four digits of the number that they are, most significant first |
| Mime.EncodeTwo | services/notification/internal/email/sender.go:300 | two bytes become three digits of that number, shifted by two zero bits, and one padding character |
| Mime.EncodeOne | services/notification/internal/email/sender.go:300 | one byte becomes two digits of that number, shifted by four zero bits, and two padding characters |
| Mime.MimeBase64 | services/notification/internal/email/sender.go:299-311 | the loop writes the encoded text cut into lines, each with its CRLF |
| Mime.LineLengths | services/notification/internal/email/sender.go:302-309 | every line but the last has exactly 76 characters, and the last has at most that and is not empty |
| Mime.BoundaryAbsent | services/notification/internal/email/sender.go:274 | the boundary does not occur inside an encoded part |
| Mime.BoundaryText | services/notification/internal/email/sender.go:274 | the boundary is the text tenzoshare_ and the time in decimal |
| Mime.BuildBody | services/notification/internal/email/sender.go:263-295 | one part for a plain message, else two parts between delimiter lines, the text part first |
| Mime.MimeRoundTrip | services/notification/internal/email/sender.go:272-295 | a parser after section 5.1.1 of RFC 2046 gives back both bodies, the text first, under their content types, for all bodies and at any time |
| Mime.PlainRoundTrip | services/notification/internal/email/sender.go:263-270 | a plain message gives back its body |

## Left out

- AES, GCM, Argon2, SHA-256, JWT and TOTP: library code. The cipher is a pair of functions with the two facts the format needs; password checks are their result.
- What an HTTP server or client makes of a reply that ends before the announced size.
- HTTP routing, headers, JSON, multipart form parsing, content-type sniffing and the Content-Length pre-checks of an upload, which only reject early.
- NATS events, audit records, SMTP, and the inside of PostgreSQL, Redis and S3: each call has its atomic effect only.
- The single-block AES-GCM format of old objects: Download answers LegacyFormat.
- Streams: a Read returns the bytes that the code writes into the caller's buffer; what that buffer holds beyond them is not modelled, nor are reads into an empty buffer by the caller of a whole run. The part size is at least the store's minimum for parts, as it is in the service.
- Part numbers and byte counts are unbounded integers; the code uses 32 and 64 bits. Chunk lengths and the chunk index have their width.
- Storage state machine: the policy is fixed during a run and there is one service instance, as the code says of its mutex. The object store's delete either happens or not. A worker cycle may begin at any instant, as the service may be restarted at any: its hourly tick is not modelled, and a Config says whether cycles can overlap. A share may be given any length from the configured shortest on; its time runs from the INSERT, and the upper bound of 90 days plays no part there.
- Transfers: file lists, passwords and limits of a transfer do not change, as no statement of the code changes them.
- Retention: a day has 24 hours, and the date is not rounded to seconds; the overflow of a duration of more than 290 years is not modelled.
- Rate limiter: the bounds are for a cache that answers, as a request passes when INCR fails (`Auth.AuthService.CheckRateLimitGeneric`). INCR and EXPIRE are one step, so a key that never gets its expiry is not modelled; a key ends exactly when its window is over.
- Lockout: the threshold and the duration are fixed. A series of logins has a cache that answers, and an account keeps its second factor and its verification during it.
- The message headers before the content headers, and their encoding, which are not part of the body.
- The rest of the admin service, the web client, branding, settings and tusd: copying of fields without a hard invariant.
