# Stiva storage engine: a verified model

Stiva is an S3-compatible object store. Its storage engine keeps version history, data files and a replication
journal in step over a sorted key-value store (bbolt). This project models that engine in Dafny, together with the
two stream decoders of its upload and download paths, and proves what they are for.

`dafny verify dfyconfig.toml` checks everything.

## What is modelled

| module | models |
|---|---|
| `ByteOrder`, `Int64` | byte strings in bytewise order; signed 64-bit addition |
| `Records`, `MetadataStores` | the latest-version pointers and version records of a bucket, the metadata transactions on them, the stored object count and the journal marks |
| `Publication`, `Engine` | every request as a sequence of steps (rename, transaction, file removal) and the methods that perform them |
| `Effects` | what readers find after each operation |
| `CrashSafety` | a crash between any two steps; which files are left |
| `Locality`, `Interleaving` | what a request touches; requests on different keys, changes of versioning and crashes in any interleaving |
| `OverlappingReads` | reads, which look a record up and then open its file, among them |
| `History`, `EngineRuns` | the history list of a key and its refinement by the records, over runs of requests and crashes |
| `Versioning`, `VersionSurvival` | the versioning state machine; which versions survive while requests and changes of versioning are interleaved |
| `Expiration`, `SweepProgress` | current and noncurrent expiry; which due versions sweeps reach |
| `Outbox`, `Reconcile` | the durable replication protocol as interleaved steps; one reconcile pass over the journal |
| `RollUp`, `Listing`, `ListingPages`, `VersionListing`, `VersionPages` | the two cursor listings and what following their tokens yields |
| `ChangingPages` | following tokens while the bucket changes |
| `ConfigCache`, `LockTable`, `BucketDeletion`, `HandleCache` | the bucket-configuration cache, the on-demand locks, bucket deletion against writers, and the cache of open databases |
| `ChunkedDecoder`, `ChunkedEncoder`, `ChunkedReaders` | the aws-chunked upload format, its client side, and the decoder as a reader |
| `SignatureChain`, `TrailerLines` | what the chain of chunk and trailer signatures is for; which trailer lines and chunk sizes are accepted |
| `CtrReader` | counter arithmetic and random access into an encrypted file |
| `Multipart`, `MultipartRuns` | part records, completion, and one upload under concurrent calls |
| `Usage` | usage accounting |

Reading order: `Records`, `MetadataStore`, `Publication`, `CrashSafety`, `History`; every other group stands alone on
top of these or of `ByteOrder`.

## Conventions

* A Go string is a sequence of bytes, modelled as a `string` whose characters stand for byte values.
* A bbolt transaction is one atomic change of a map; a cursor is the set of keys ahead of it. The constant bucket
  prefix of raw keys is dropped, one bucket at a time being modelled.
* A request holds the lock of its key throughout. `CrashSafety` and `EngineRuns` run requests one after the other;
  `Interleaving` lets steps of requests on different keys, changes of versioning and crashes fall in any order and
  shows that nothing else can come of it. A delete acts on the status of versioning it read when it began.
* Blob IDs and version IDs are fresh. The data paths of objects stored under their key, from before blobs, are distinct
  constructors.
* Entity tags are a collision-free digest; HMAC, SHA-256, the trailer checksums and the AES block function are
  arbitrary functions passed in. `SignatureChain` asks of HMAC and SHA-256 that they have one output length each and do
  not collide on the strings that the client and the decoder sign and hash in the body at hand.
* Times, failures of single steps, crash points and the interleaving of steps are parameters, and every theorem holds
  for all of them.
* Concurrent protocols are state machines: `Enabled` and `Next` say what a step may do, `Runs` and `Final` what an
  interleaving leads to.

## Where the code and its description part

* Listing pages (`internal/storage/filesystem.go:954`, `internal/storage/listing.go:81`): a marker that ends in the
  delimiter is read as a rolled-up prefix. When a page ends on an object, or a version of an object, whose key ends in
  the delimiter, what lies below that key is skipped. The paging theorems state exactly when this loses entries, in
  terms of the request and the prefix as a key where the delimiter is one character, and two lemmas give buckets in
  which it does.
* The newest version is found by modification time (`internal/storage/object_metadata.go:235-253`). The history
  refinement holds where the write times of a key increase; `History.ExposesPreviousIff` states what holds without.
* A delete reads the status of versioning and commits under the lock of its key alone
  (`internal/storage/filesystem.go:742-751`), while versioning changes under the lock of the bucket
  (`internal/storage/versioning.go:13`). A delete that names no version and read "unversioned" or Suspended can commit
  after Enabled was set and acknowledged, and then erases the object from before versioning, or replaces the "null"
  version. `VersionSurvival.DeleteKeepsIff` and `TakeKeepsIff` state exactly when.
* A read looks its record up and then opens the data file with no lock (`internal/storage/filesystem.go:619-637`). A
  request on the key can remove the file in between, and the client is told there is no such key, also where the version
  is stored throughout: an object stored before blobs that a put promotes. `OverlappingReads` states exactly when a read
  fails and gives that run.
* A delete marker that other versions of its key keep from expiring is collected by every sweep
  (`internal/storage/lifecycle.go:173-200`). A batch of them at the front of the key order keeps later keys from
  expiring; `SweepProgress.SweepsReachIff` states exactly which versions sweeps reach.
* A version listing resumed at a version that was deleted in the meantime drops the other versions of its key
  (`internal/storage/listing.go:201-211`); `VersionPages.RestOfKeyIff` states exactly when.
* Bucket deletion (`internal/storage/filesystem.go:338-370`): the insertion of a delete marker takes no bucket lock, so
  a marker inserted between the emptiness check and the end of the deletion goes with the bucket.
  `BucketDeletion.LateMarkersAreLost` states exactly which markers are lost.
* The chunked decoder (`internal/auth/signature.go:903-966`) reads up to the empty line after the trailers and ignores
  what the body holds after it, and accepts a second trailer of a name whose first value was empty.
  `ChunkedDecoder.CleanEndIsStrictIff` states exactly when a body that decodes cleanly is a strict encoding.
* A chunk size near 2^63 wraps in the payload bound (`internal/auth/signature.go:857`); the chunk size bound that
  follows refuses it all the same, with another error (`ChunkedDecoder.OversizedIsRefused`).

## Model

| member | source | states |
|---|---|---|
| `Records.PutConsistent` | internal/storage/object_metadata.go:23-84 | storing a version keeps the invariant: a versioned pointer equals its own version record, exactly one record of a key is latest, and a key whose pointer is missing or unversioned has no version records |
| `Records.DeleteVersionConsistent` | internal/storage/object_metadata.go:149-233 | deleting a version keeps that invariant, the newest version left being exposed |
| `Records.DeleteKeyConsistent` | internal/storage/object_metadata.go:161-174 | deleting a whole key keeps it |
| `Records.PromotionConsistent` | internal/storage/metadata.go:1116-1146 | storing a record as given keeps it when it re-records an unversioned object as "null", the only way it is called |
| `Records.KeyVersionsAreStored` | internal/storage/metadata.go:1171-1212 | the list of a key's versions holds exactly its stored versions |
| `Records.NewestExists` | internal/storage/object_metadata.go:235-253 | among any versions left there is one that is newest, the first in key order among equals |
| `MetadataStores.MetadataStore.PutObjectMeta` | internal/storage/object_metadata.go:23-84 | the transaction leaves the table `Put` describes, marks the key for replication and keeps the stored count equal to the number of current keys |
| `MetadataStores.MetadataStore.DeleteObjectMeta` | internal/storage/object_metadata.go:149-233 | deletes a key, or a version, exposing the newest one left; journal and count stay in step |
| `MetadataStores.MetadataStore.DeleteOneVersion` | internal/storage/object_metadata.go:181-233 | the part that deletes one version |
| `MetadataStores.MetadataStore.FindNextNewestVersion` | internal/storage/object_metadata.go:235-253 | one pass over a key's records finds the newest version but the deleted one, or that there is none |
| `MetadataStores.MetadataStore.DeleteVersionRecords` | internal/storage/object_metadata.go:88-102 | removes every version record of a key and nothing else |
| `MetadataStores.MetadataStore.PutObjectMetaRaw` | internal/storage/metadata.go:1116-1146 | stores the record as given, keeps the stored count right, marks nothing |
| `MetadataStores.MetadataStore.GetObjectMeta` | internal/storage/object_metadata.go:105-145 | finds the current record, a version record, or for "null" an object stored before versioning |
| `MetadataStores.MetadataStore.GetObjectVersions` | internal/storage/metadata.go:1171-1212 | lists the current version and then the others in key order, each version ID once |
| `MetadataStores.MetadataStore.CountObjectMetas` | internal/storage/metadata.go:894-921 | answers the number of keys with a current record, by the stored count or by one scan |
| `MetadataStores.MetadataStore.MarkReplication` | internal/storage/outbox.go:22-37 | gives the key a revision above every one in the journal, and changes no other entry |
| `MetadataStores.PutChanges` | internal/storage/object_metadata.go:31-83 | a put makes the key current, so the count goes up exactly if it had no pointer |
| `MetadataStores.DeleteVersionChanges` | internal/storage/object_metadata.go:181-232 | a version delete takes the key away exactly if it removes its last version |
| `CrashSafety.PromotionSafe` | internal/storage/publication.go:99-179 | a promotion that is not needed does nothing, one that fails only cleans up, and one that succeeds re-records the object as "null"; it is safe at every step |
| `CrashSafety.CommitObjectSafe` | internal/storage/publication.go:20-49 | rename, sync, commit, removal, each of which may fail: at every step of a write each record has its data file, and afterwards exactly the files records name are left, unless a renamed file could not be made durable |
| `CrashSafety.DeleteObjectSafe` | internal/storage/filesystem.go:747-859 | the same for every kind of delete |
| `CrashSafety.RequestSafe` | internal/storage/publication.go:20-49 | after a crash between any two steps of any request every record that is not a delete marker names a file with the bytes it was committed with; run to its end, a request leaves exactly the files records name, unless a renamed file could not be made durable |
| `CrashSafety.RunSafe` | internal/storage/publication.go:183-196 | over any run of requests and crashes, one request after the other, the store is safe, and exact if no request was cut off |
| `Interleaving.InterleavingIsSerial` | internal/storage/filesystem.go:559-571 | requests on different keys, changes of versioning and crashes interleaved step by step: the state is that of running the requests one after the other in the order they began, each with the steps it has taken |
| `Interleaving.InterleavingSafe` | internal/storage/publication.go:20-49 | so at every point of every interleaving, and after a crash with any number of requests under way, every record that is not a delete marker has its data; once all have ended and none was cut off, exactly the files records name are left |
| `Interleaving.ReadsFollowHistory` | internal/storage/object_metadata.go:105-145 | reads during any interleaving follow the history of what the requests on the key have committed, if the times of its writes increase |
| `Locality.PlanOf` | internal/storage/publication.go:20-196 | a request touches nothing but the records and data files of its own key |
| `Locality.PlanUnmoved` | internal/storage/publication.go:20-196 | a step of a request on another key changes neither what a request does nor the freshness of its identifiers |
| `Locality.TxnsCommute` | internal/storage/object_metadata.go:23-253 | transactions on different keys commute |
| `CrashSafety.ReadableAfterRun` | internal/storage/filesystem.go:683-706 | whatever record a lookup finds after such a run has its data at that moment, unless it is a delete marker |
| `OverlappingReads.OpensFindCommittedBytes` | internal/storage/filesystem.go:619-640 | reads that overlap requests: over every interleaving an open that finds the file finds the bytes its record was committed with, and it fails if and only if a step since the lookup removed the file |
| `OverlappingReads.UndisturbedReadsSucceed` | internal/storage/filesystem.go:619-640 | so a read does not fail if no step of a request on its key falls between its lookup and its open |
| `OverlappingReads.SurvivingVersionsOpen` | internal/storage/filesystem.go:619-640 | nor if its version survives and has a blob: where no request is overtaken by a change of versioning, only a read of an object stored before blobs can fail |
| `OverlappingReads.PromotionOvertakesRead` | internal/storage/publication.go:170-179 | a run in which a read of a version that is stored throughout fails, as a put promotes the object in between |
| `OverlappingReads.PlanPublishes` | internal/storage/publication.go:20-49 | a request writes files under the blob IDs it drew, each at most once |
| `CrashSafety.SafeAtEveryCrash` | internal/storage/publication.go:20-49 | being safe throughout a plan is being safe after each of its prefixes |
| `CrashSafety.RemovalsSafe` | internal/storage/publication.go:183-196 | removing the files of records no longer stored disturbs no stored record |
| `Engine.FilesystemEngine.GetStoredRecord` | internal/storage/publication.go:75-87 | reads the record a delete or overwrite displaces; a missing one is not an error |
| `Engine.FilesystemEngine.RemoveRecordData` | internal/storage/publication.go:183-196 | removes the data file of a record that has one |
| `Engine.FilesystemEngine.PromoteLegacyNullVersion` | internal/storage/publication.go:99-179 | performs exactly the steps of the promotion plan, on the disk and the metadata |
| `Engine.FilesystemEngine.PrepareKeyForWrite` | internal/storage/publication.go:60-71 | promotes an unversioned object before a versioned write of its key, and reads what the write displaces |
| `Engine.FilesystemEngine.CommitNewObject` | internal/storage/publication.go:20-49 | performs exactly the steps of the commit plan, whichever of promotion, rename, sync and transaction fail, and answers whether none did |
| `Engine.FilesystemEngine.Publish` | internal/storage/publication.go:33-48 | renames a written file into place, commits its record and removes the data of what it replaces; after a failed rename nothing has changed, after a failed sync the file is left, after a failed transaction it is removed |
| `Engine.FilesystemEngine.CommitReplacingAll` | internal/storage/publication.go:31-49 | commits an unversioned write and then removes the data of every version it replaces |
| `Engine.FilesystemEngine.CommitReplacing` | internal/storage/publication.go:31-49 | commits a versioned write and then removes the data of the version it replaces |
| `Engine.FilesystemEngine.PutObject` | internal/storage/filesystem.go:555-616 | chooses the version ID by the bucket's status and performs the plan of the put; it answers true if and only if a read of the key then finds this upload, and if it does not every read is answered as before |
| `Engine.FilesystemEngine.DeleteObjectLocked` | internal/storage/filesystem.go:747-859 | performs the plan of a delete, whole key, version, or marker, on the status of versioning it read, which need not be the present one; if it answers true what it names is gone or hidden, otherwise every read is answered as before |
| `Engine.FilesystemEngine.DeleteVersionLocked` | internal/storage/filesystem.go:755-792 | deletes one version and then its data; it answers true if and only if nothing failed, and then the version is not found any more and its file is gone |
| `Engine.FilesystemEngine.InsertDeleteMarker` | internal/storage/filesystem.go:794-831 | inserts a delete marker, displacing a "null" version while suspended; if it answers true a read of the key finds the marker |
| `Engine.FilesystemEngine.DeleteWholeKey` | internal/storage/filesystem.go:833-859 | deletes every record of a key, then their data; if it answers true no version of the key is found and none of their files is left |
| `Engine.FilesystemEngine.SetBucketVersioning` | internal/storage/versioning.go:12-39 | accepts Enabled and Suspended only, and then that is the status |
| `Engine.FilesystemEngine.ExpireCurrentVersion` | internal/storage/expiration.go:11-39 | re-reads the key and deletes it only if the scanned version is still current |
| `Engine.FilesystemEngine.ExpireNoncurrentVersion` | internal/storage/expiration.go:41-74 | deletes the version if and only if it is noncurrent and was displaced long enough ago |
| `Effects.PutTakesEffect` | internal/storage/filesystem.go:559-616 | after a put of which nothing fails a read of the key finds a latest record of the version ID the status calls for, with the size, digest, attributes and time of the request, and the disk holds its bytes; versions it may not replace read as before; if something fails, every read is answered as before |
| `Effects.DeleteTakesEffect` | internal/storage/filesystem.go:747-859 | after a delete of which nothing fails the version it names is not found and its file is gone, every other version reads as before, and the key shows the newest version left; or, by the status, the key is hidden behind a delete marker or has no version and no file left |
| `Effects.VersionDeleteEffect` | internal/storage/filesystem.go:755-792 | the version delete by itself, for an object from before versioning deleted as "null" too |
| `Effects.MarkerEffect` | internal/storage/filesystem.go:794-831 | a delete marker hides the key under the version ID the status calls for; every other version reads as before |
| `Effects.WholeKeyEffect` | internal/storage/filesystem.go:833-859 | an unversioned delete leaves no version and no file of the key, and other keys as they were |
| `Effects.NoncurrentExpires` | internal/storage/expiration.go:41-74 | a version is gone after its expiration if and only if it is noncurrent and was displaced more than the cutoff ago, by the recorded time or else by some later version; otherwise nothing changes |
| `Effects.CurrentExpires` | internal/storage/expiration.go:11-39 | the expiration of a current version acts if and only if that is still current, and of a delete marker only if it is all that is left of its key; it removes or hides the object |
| `Effects.VersioningTakesEffect` | internal/storage/versioning.go:12-39 | the status is what was last asked for, but never unversioned again |
| `History.WriteRefines` | internal/storage/object_metadata.go:23-84 | a put on the records is a write on the history of the key |
| `History.DeleteRefines` | internal/storage/object_metadata.go:149-253 | a version delete on the records is a delete on the history, exposing the version written before |
| `History.PromotionRefines` | internal/storage/metadata.go:1116-1146 | a promotion leaves the history one version long, under the name "null" |
| `History.PreviousIsNewest` | internal/storage/object_metadata.go:235-253 | with increasing write times the newest record left is the one written just before |
| `History.RunTracks` | internal/storage/object_metadata.go:23-253 | over any run of transactions the records of a key are exactly those of its history, if the times of the writes of that key increase |
| `History.ReadsFollowHistory` | internal/storage/object_metadata.go:105-145 | a read without a version ID returns the most recently written surviving version, a read by version that version, and of one the history does not hold nothing |
| `History.ExposesPreviousIff` | internal/storage/object_metadata.go:235-253 | with no assumption on write times: deleting the current version exposes the one written before it if and only if that one has the newest time |
| `History.ClockSetBackExposesOlder` | internal/storage/object_metadata.go:235-253 | a concrete run with a clock set back, in which an older version comes back |
| `EngineRuns.EngineFollowsHistory` | internal/storage/filesystem.go:418-859 | the same for whole requests, with promotions, failures and crashes |
| `EngineRuns.RunFollowsTrace` | internal/storage/object_metadata.go:23-253 | the records after a run are those the transactions of its trace leave |
| `EngineRuns.TracePossible` | internal/storage/publication.go:99-179 | every transaction a run commits meets the conditions it is committed under |
| `Versioning.TableFollowsCommits` | internal/storage/publication.go:20-49 | only the commits among the steps of a plan change records |
| `Versioning.PlanCommits` | internal/storage/filesystem.go:747-859 | which transactions each request commits, after a promotion if one is needed |
| `Versioning.PutKeeps` | internal/storage/object_metadata.go:36-72 | a put under a version ID keeps size, entity tag, data and attributes of every other version |
| `Versioning.PromotionKeeps` | internal/storage/publication.go:99-179 | an object stored before versioning survives its promotion as "null" |
| `Versioning.MarkerDeleteKeeps` | internal/storage/object_metadata.go:181-232 | removing a current delete marker keeps every stored version |
| `Versioning.MainKeeps` | internal/storage/filesystem.go:794-831 | the main transaction of a request that names no version keeps every stored version but what it may replace under the status it read |
| `Versioning.NeverUnversionedAgain` | internal/storage/versioning.go:12-39 | over whole runs a versioned bucket is never unversioned again |
| `Versioning.StatusAfter` | internal/storage/versioning.go:12-39 | the status changes only by a request that sets it |
| `VersionSurvival.DeleteKeepsIff` | internal/storage/filesystem.go:747-831 | a delete that names no version and goes through keeps every version it may not replace, unless versioning is Enabled by the time it commits, it read another status, and the key has a "null" version that holds data: if and only if |
| `VersionSurvival.TakeKeepsIff` | internal/storage/filesystem.go:747-831 | the same for any step of any request that names no version, at any point of any interleaving |
| `VersionSurvival.VersionsSurvive` | internal/storage/versioning.go:12-39 | however such requests on different keys, changes of versioning and crashes are interleaved, every version stays stored with the same bytes if no request is overtaken by such a change: all of them while enabled, the object from before versioning included as "null"; all but "null" if suspended on the way |
| `VersionSurvival.WaitingSwitchesOvertakeNone` | internal/storage/versioning.go:12-39 | no request is overtaken if versioning changes only while none is under way |
| `VersionSurvival.OvertakenDeleteErases` | internal/storage/filesystem.go:742-751 | a delete begun before versioning is enabled erases an object from before versioning, without a marker, whenever it commits after that |
| `Expiration.DisplacementIsRecorded` | internal/storage/object_metadata.go:51-60 | a noncurrent version carries the time of its last displacement, also when it was current again in between |
| `Expiration.SweepRemovesOnlyExpired` | internal/storage/expiration.go:41-74 | a sweep removes only the noncurrent version it names, displaced longer ago than the cutoff if that was recorded, and changes no other record |
| `Expiration.SweptVersionsWereDisplacedLongAgo` | internal/storage/expiration.go:41-74 | counting from the most recent displacement in the run |
| `Expiration.UnrecordedNeedsSuccessor` | internal/storage/expiration.go:54-66 | a version without a recorded displacement goes only if some later version is old enough |
| `Expiration.FirstSuccessorIsLeast` | internal/storage/expiration.go:61-65 | what the loop computes is the earliest later modification |
| `Engine.EarliestSuccessor` | internal/storage/expiration.go:61-65 | the loop computes it |
| `Expiration.FoundAgain` | internal/storage/expiration.go:11-39 | a current version found again later under its ID and time is the very write that was there before, also under an ID that is used again, if the times of the writes of its key increase |
| `Expiration.ScanCurrent` | internal/storage/lifecycle.go:173-200 | the scan collects, in order and up to its batch bound, exactly the current versions under the prefix that were modified more than the cutoff ago |
| `SweepProgress.ScanIsBatch` | internal/storage/lifecycle.go:173-200 | that is, the due keys with fewer than a batch of due keys before them |
| `SweepProgress.SweepDoes` | internal/storage/lifecycle.go:173-209 | a sweep leaves no key of its batch due except delete markers that other versions of their key keep, and touches no other key |
| `SweepProgress.SweepsReachIff` | internal/storage/lifecycle.go:130-209 | a long enough sequence of sweeps expires a due version if and only if it is not such a marker and fewer than a batch of such markers come before it |
| `EngineRuns.ExpiryActsOnScannedWrite` | internal/storage/expiration.go:11-39 | from scan to expiry, over any run of requests and crashes: if expiring a current version does anything, what is current then is the write the scan saw, with its bytes and age, and a delete marker is the last version left |
| `EngineRuns.SweepsInRuns` | internal/storage/expiration.go:41-74 | the sweep property over whole runs of requests and crashes |
| `Outbox.VisibleChangesAreMarked` | internal/storage/outbox.go:22-37 | what a replica mirrors of a key changes only in a transaction that marks the key |
| `Outbox.TransactKeepsInv` | internal/storage/object_metadata.go:23-33 | a write during deliveries keeps the protocol invariant |
| `Outbox.DeliveryKeepsInv` | internal/storage/outbox.go:220-264 | so does every step of seeding and delivery |
| `Outbox.RestartKeepsInv` | internal/storage/outbox.go:46-87 | so does a restart, whichever sends had landed |
| `Outbox.NothingPendingMeansMirrored` | internal/storage/outbox.go:220-264 | in every interleaving a key that was written or seeded and has nothing pending is on the replica if and only if a read of it finds a record here that is no delete marker, and then with that record's digest |
| `Outbox.NewerWorkStaysPending` | internal/storage/outbox.go:254-263 | an acknowledgement after a newer write leaves that write pending |
| `Reconcile.Reconciler.SeedReplication` | internal/storage/outbox.go:89-117 | marks every key that has a current record, at revisions above all earlier ones |
| `Reconcile.Reconciler.ReadPage` | internal/storage/outbox.go:142-180 | reads the first pending entries after the cursor, in order, a full batch unless fewer are left |
| `Reconcile.Reconciler.SendPending` | internal/storage/outbox.go:220-253 | sends the key's current state, a delete if it has none or a marker |
| `Reconcile.Reconciler.AcknowledgePending` | internal/storage/outbox.go:254-263 | clears the entry only if its revision is the one that was read |
| `Reconcile.Reconciler.DeliverPage` | internal/storage/outbox.go:181-210 | delivers a page whose sends and acknowledgements overlap in any order: each key is sent exactly once, and none is pending afterwards |
| `Reconcile.Reconciler.ReconcilePending` | internal/storage/outbox.go:119-218 | one undisturbed pass sends each pending key exactly once, page before page in key order and in any order within a page, ends, and leaves the journal empty; of the keys that were pending the replica then holds exactly those a read finds an object for, with its digest |
| `Reconcile.SeekAfter` | internal/storage/outbox.go:150-165 | seeking to the last key and stepping over it lands right whether or not it is still there |
| `RollUp.Index` | internal/storage/filesystem.go:1006-1010 | the first occurrence of the delimiter |
| `RollUp.ListedUnder` | internal/storage/filesystem.go:1006-1027 | a key is listed under a common prefix exactly if it starts with it |
| `RollUp.NamesInOrder` | internal/storage/filesystem.go:1006-1027 | names come in the order of their keys |
| `RollUp.NextName` | internal/storage/filesystem.go:1025-1027 | the first remaining key names the next entry, and skipping what it stands for leaves the others |
| `Listing.ParseRawKey` | internal/storage/object_metadata.go:14-20 | a raw database key determines its record; only version records hold NUL |
| `Listing.SeekFindsKeysAfter` | internal/storage/filesystem.go:951-960 | the keys after a marker are exactly those at or past the seek key |
| `Listing.AdvanceTokenIsGreatest` | internal/storage/filesystem.go:1066-1071 | the token is the later of its two candidates |
| `Listing.CursorKey` | internal/storage/filesystem.go:979-1004 | the scan's tests pass exactly the keys of the listing |
| `Listing.TakeEntry` | internal/storage/filesystem.go:1006-1039 | listing the key under the cursor and moving on takes the first remaining entry |
| `Listing.ListObjects` | internal/storage/filesystem.go:919-1061 | the skip-scan over pointers interleaved with version records returns the page that filtering, rolling up and taking define: objects, common prefixes, truncation, token and count; objects and common prefixes are at most max-keys, or 1000, and just as many if truncated |
| `ListingPages.ListsEveryObject` | internal/storage/filesystem.go:919-1061 | a listing from the start holds exactly the keys under the prefix that a read finds an object for and in which no delimiter follows the prefix, with the record read |
| `ListingPages.ListsEveryPrefix` | internal/storage/filesystem.go:985-1005 | and one common prefix for each beginning of such keys up to the first delimiter after the prefix |
| `ListingPages.ObjectsAscend` | internal/storage/filesystem.go:919-1061 | objects come once each, in the order of their keys |
| `ListingPages.Resumes` | internal/storage/filesystem.go:951-960 | the listing from a page's token is what follows the page, less the entries below a key that ends in the delimiter |
| `ListingPages.TokenAdvances` | internal/storage/filesystem.go:1019-1038 | a truncated page leaves strictly less to list, so paging ends |
| `ListingPages.PagesAreTheListing` | internal/storage/filesystem.go:919-1061 | from any start the pages add up to the whole listing, each entry once and in order, if and only if no page ends on an object whose key ends in the delimiter while the next entry lies below it |
| `ListingPages.NothingHidden` | internal/storage/filesystem.go:951-960 | the pages add up whenever no listed object's key ends in the delimiter |
| `ListingPages.OnlyFolderMarkersHide` | internal/storage/filesystem.go:951-960 | with a one-character delimiter that fails exactly for one-entry pages under a prefix that ends in the delimiter and is itself an object's key, with another entry after it |
| `ListingPages.FolderMarkerHidesItsFolder` | internal/storage/filesystem.go:954-956 | a concrete bucket in which following the tokens misses an object |
| `ChangingPages.NoneIsShownTwice` | internal/storage/filesystem.go:919-1061 | while the bucket changes between pages in any way: entries ascend over all pages, so none is shown twice |
| `ChangingPages.PresentThroughoutIsShown` | internal/storage/filesystem.go:919-1061 | a key listable throughout is shown under its entry if and only if no page before that ends on an object whose key ends in the delimiter and below which it lies |
| `ChangingPages.ShownWasThere` | internal/storage/filesystem.go:919-1061 | what is shown was there when its page was made |
| `VersionListing.NewestFirstDescends` | internal/storage/listing.go:162-164 | sorting puts later modifications first |
| `VersionListing.NewestFirstIsStable` | internal/storage/listing.go:162-164 | and keeps the order of versions modified at one time |
| `VersionListing.SeekWholeKeys` | internal/storage/listing.go:88-122 | seeking to a string without NUL never lands inside a key's records |
| `VersionListing.GatherVersions` | internal/storage/listing.go:146-161 | gathering at the cursor collects every version of the key once and stops at the next key |
| `VersionListing.EmitVersions` | internal/storage/listing.go:170-182 | lists a key's versions until the page is full |
| `VersionListing.ListObjectVersions` | internal/storage/listing.go:51-190 | one cursor pass returns the page of the listing from the markers on, with the markers of its last entry if truncated; it holds at most max-keys entries, or 1000, just as many if truncated, and delete markers apart from versions |
| `VersionListing.ShownApart` | internal/storage/listing.go:134-182 | of the entries of a page each version is shown among the versions, each delete marker among the delete markers and each common prefix among the prefixes |
| `VersionPages.StoredVersions` | internal/storage/listing.go:201-220 | the versions of a key have distinct IDs as clients see them |
| `VersionPages.AfterVersionAt` | internal/storage/listing.go:201-211 | what comes after a listed version's marker |
| `VersionPages.RestOfKeyIff` | internal/storage/listing.go:192-211 | resuming among a key's versions lists more of them if and only if the marker's version is still there and not the oldest: once it is deleted, the rest of the key is dropped |
| `VersionPages.Resumes` | internal/storage/listing.go:78-93 | the listing from a page's markers is what follows the page, also in the middle of a key's versions |
| `VersionPages.PagesAreTheListing` | internal/storage/listing.go:51-190 | the pages add up to every version, delete marker and common prefix once, if and only if no page ends on a version of a key that ends in the delimiter while the next entry is at or below that key |
| `VersionPages.NothingHidden` | internal/storage/listing.go:78-93 | they do whenever no listed version's key ends in the delimiter |
| `VersionPages.OnlyFolderMarkersHide` | internal/storage/listing.go:78-93 | with a one-character delimiter they fail to exactly if the prefix ends in it, the first page ends on a version of the prefix as a key, and something follows |
| `VersionPages.EntriesInOrder` | internal/storage/listing.go:146-183 | keys ascend, and within a key versions come newest first, none twice |
| `VersionPages.ListsEveryVersion` | internal/storage/listing.go:51-190 | a listing without markers holds exactly the versions that reads by key and version ID find, of the keys under the prefix in which no delimiter follows it |
| `VersionPages.ListsEveryPrefix` | internal/storage/listing.go:124-145 | and exactly one common prefix for each name that keys under the prefix roll up into |
| `VersionPages.FolderMarkerHidesVersions` | internal/storage/listing.go:78-82 | a concrete bucket in which following the markers misses a version |
| `ConfigCache.BucketCache.FillBucketCache` | internal/storage/metadata.go:582-602 | a fill under an old generation changes nothing; otherwise only the entry of the bucket read can change, and only to what was read, so a failed read caches nothing new; the bound on entries is kept |
| `ConfigCache.BucketRegistry.GetBucketCached` | internal/storage/metadata.go:549-567 | a read that nothing overlaps answers what the database holds, or fails where its own read failed, and keeps the cache equal to the database |
| `ConfigCache.BucketRegistry.PutBucket` | internal/storage/metadata.go:499-517 | stores a configuration and keeps the cache equal to the database, also where the transaction fails |
| `ConfigCache.BucketRegistry.UpdateBucketInfo` | internal/storage/metadata.go:708-732 | so does changing one, which fails for a bucket that is not there |
| `ConfigCache.BucketRegistry.DeleteBucket` | internal/storage/metadata.go:613-627 | and deleting one |
| `ConfigCache.PublishKeepsInv` | internal/storage/metadata.go:605-610 | an update reaching the cache outdates every guarded read |
| `ConfigCache.FillKeepsInv` | internal/storage/metadata.go:582-602 | a fill under the generation of its read stores the configuration in force |
| `ConfigCache.CacheIsCoherent` | internal/storage/metadata.go:549-625 | in every interleaving a cached entry differs from the database only while a writer of that bucket is between its commit and the cache |
| `ConfigCache.ReadsSeeReturnedUpdates` | internal/storage/metadata.go:550-567 | a read begun after an update returned never answers with an older configuration, and answers with one that was in force while it ran |
| `ConfigCache.GuardStopsStaleFill` | internal/storage/metadata.go:577-587 | a concrete interleaving in which a fill without the guard would leave an old configuration in the cache for good |
| `LockTable.MutualExclusion` | internal/storage/multipart.go:713-744 | holders of one name's lock exclude each other although lock objects come and go |
| `LockTable.TableHoldsNamesInUse` | internal/storage/multipart.go:670-693 | the map holds a lock object for exactly the names somebody uses |
| `BucketDeletion.NothingCommittedIsLost` | internal/storage/filesystem.go:338-370 | no step but its own removal takes a committed object, its data file or an upload from a bucket, whatever the interleaving with deletion |
| `BucketDeletion.OnlyEmptyBucketsGo` | internal/storage/multipart.go:749-756 | a bucket goes only when a deletion commits, and then it holds no object and no upload |
| `BucketDeletion.LateMarkersAreLost` | internal/storage/filesystem.go:338-370 | in every interleaving a bucket that goes takes with it exactly the delete markers inserted after the check of its deletion and not removed since; it is empty if and only if there are none |
| `BucketDeletion.MarkerGoesWithBucket` | internal/storage/filesystem.go:733-745 | a run from an empty bucket in which an inserted delete marker goes with the bucket, as its insertion takes no bucket lock |
| `BucketDeletion.StepKeepsDataOk` | internal/storage/filesystem.go:555-607 | every object keeps its data file, and a file in place for a put not yet committed is left alone |
| `HandleCache.OneOpener` | internal/storage/metadata.go:274-300 | the initialization lock lets one caller at a time open a bucket's database |
| `HandleCache.HeldHandlesAreOpen` | internal/storage/metadata.go:200-243 | a handle somebody holds is open, whatever is evicted or removed meanwhile |
| `HandleCache.ClosedExactlyOnce` | internal/storage/metadata.go:200-376 | a handle is closed at most once, and exactly if it is neither cached, in use nor about to be cached |
| `HandleCache.NobodyElseWins` | internal/storage/metadata.go:334-347 | the branch for a handle another caller cached in the meantime is never taken |
| `ChunkedDecoder.ReadsRawLine` | internal/auth/signature.go:715-724 | a line on the wire is read back without its line end |
| `ChunkedDecoder.ChunkIsFrame` | internal/auth/signature.go:838-897 | a chunk that is returned is a well-formed frame with the right chained signature |
| `ChunkedDecoder.FrameIsChunk` | internal/auth/signature.go:838-897 | every such frame is returned as a chunk |
| `ChunkedDecoder.YieldsVerifiedFrames` | internal/auth/signature.go:838-897 | however decoding ends, all it yields is data of frames at the start of the body, well-formed and signed in a chain |
| `ChunkedDecoder.EofIsTail` | internal/auth/signature.go:903-966 | a clean end means the trailer section is complete: declared checksums sent and right, trailer signature right, length as declared |
| `ChunkedDecoder.TailIsEof` | internal/auth/signature.go:903-966 | every such trailer section ends cleanly |
| `ChunkedDecoder.ChecksumsAreChecked` | internal/auth/signature.go:948-960 | the final loop passes exactly if every declared trailer was sent with the right checksum |
| `ChunkedDecoder.DecodesExactlyCompleteEncodings` | internal/auth/signature.go:747-966 | a body decodes cleanly to some data if and only if it is, up to the empty line after its trailers, an encoding of that data: signed in a chain, within the payload bound, of the declared length, with the declared checksums of the data |
| `SignatureChain.OnlyTheClientsChunks` | internal/auth/signature.go:857-901 | a body whose chunk headers carry no signatures but those of a client's encoding under the same seed yields the client's chunks in the client's order and nothing else, and all of them if it is read to a clean end, as long as the strings signed and hashed here do not collide |
| `SignatureChain.OnlyTheClientsTrailers` | internal/auth/signature.go:903-946 | nor can it carry other trailers than the client's: the names and values read are those the client signed, in their order |
| `SignatureChain.LinksDiffer` | internal/auth/signature.go:878-893 | no signature comes twice in a chain, nor is one the seed |
| `SignatureChain.ClientPresentsChain` | internal/auth/signature.go:835-901 | what a client sends is such a body, carrying the whole chain |
| `SignatureChain.YieldedAreBounded` | internal/auth/signature.go:864-872 | no chunk handed out is empty or larger than 16 MiB |
| `TrailerLines.TakenExactly` | internal/auth/signature.go:907-936 | trailer lines are accepted if and only if each has a colon and follows those before it: trailers are expected, none before is a signature, and the line is the signature or gives a declared name no value was given for; what is kept is the last value of each name |
| `TrailerLines.CleanEndHasTrailers` | internal/auth/signature.go:903-964 | so a body read to a clean end has only such trailer lines, and for each declared checksum the last value given is that of the data |
| `TrailerLines.SizeExactly` | internal/auth/signature.go:853-856 | a chunk size is read exactly from hexadecimal digits after at most one sign, if it fits 64 bits |
| `TrailerLines.LineExactly` | internal/auth/signature.go:715-724 | a line is read exactly if it ends within 4096 bytes |
| `ChunkedDecoder.DecodesExactlyValidEncodings` | internal/auth/signature.go:747-966 | the same from any state of the decoder, in terms of what it has counted and hashed so far |
| `ChunkedDecoder.LengthsAreOfTheData` | internal/auth/signature.go:857-964 | however decoding ends no more data than the payload bound is handed out, and at a clean end as much as declared |
| `ChunkedDecoder.OversizedIsRefused` | internal/auth/signature.go:857-863 | a chunk that would pass the payload bound is refused as such, or, exactly where its size and what was decoded overflow 64 bits, as too large a chunk |
| `ChunkedDecoder.CleanEndIsStrictIff` | internal/auth/signature.go:903-937 | a body that decodes cleanly is a strict encoding, with nothing after its empty line and no trailer sent twice, if and only if nothing of it is left unread and no trailer name occurs twice |
| `ChunkedDecoder.SentTwiceIsEmptyFirst` | internal/auth/signature.go:917-935 | a trailer name is accepted again only after an empty value |
| `ChunkedDecoder.CleanEndIsStrict` | internal/auth/signature.go:903-937 | so a body without empty trailers and with nothing left unread decodes cleanly only as a strict encoding |
| `ChunkedEncoder.ParseHex` | internal/auth/signature.go:853-856 | the size in a chunk header reads back |
| `ChunkedEncoder.RoundTrip` | internal/auth/signature.go:747-755 | what a client sends decodes to its chunks, in all three modes, with checksum trailers, whatever bytes follow it |
| `ChunkedEncoder.SentIsStrictIff` | internal/auth/signature.go:903-937 | and is a strict encoding if and only if nothing follows and no trailer is sent twice |
| `ChunkedEncoder.SecondTrailerIsAccepted` | internal/auth/signature.go:931-935 | a body that sends a trailer with no value and then again with its checksum decodes cleanly |
| `ChunkedReaders.ChunkedReader.Read` | internal/auth/signature.go:813-823 | reads of any size hand out the decoded data in order and end as decoding ends; the end is sticky |
| `ChunkedReaders.ChunkedReader.NextChunk` | internal/auth/signature.go:838-897 | reads and verifies one chunk into the reused buffer, as the decoding function says |
| `ChunkedReaders.ChunkedReader.ReadChunk` | internal/auth/signature.go:857-897 | the part after the header: bounds, data, terminator, signature |
| `ChunkedReaders.ChunkedReader.Finish` | internal/auth/signature.go:903-937 | collects the trailer lines and verifies them |
| `ChunkedReaders.ChunkedReader.VerifyTrailers` | internal/auth/signature.go:939-966 | verifies trailer signature, checksums and declared length |
| `ChunkedReaders.Copy` | internal/storage/filesystem.go:520-545 | copying a body to its end through a buffer of any size gets exactly the decoded data |
| `CtrReader.AddCtr` | internal/storage/filesystem.go:1368-1374 | the carry loop adds in 64-bit arithmetic, digit by digit |
| `CtrReader.AddedIsSum` | internal/storage/filesystem.go:1368-1374 | for a 16-byte counter that is the sum modulo 2^128 if and only if the first addition does not overflow 64 bits |
| `CtrReader.BlockIndexFits` | internal/storage/filesystem.go:1338-1344 | which no block index of a file does |
| `CtrReader.DecryptsWhatWasEncrypted` | internal/storage/filesystem.go:1302-1312 | what was stored is what is read |
| `CtrReader.EncryptedInBlocks` | internal/storage/filesystem.go:501-504 | a stored file is the initial counter block and then each byte of the plaintext combined with the cipher block of the counter as many on as blocks precede it, modulo 2^128 |
| `CtrReader.XorIsBitwise` | internal/storage/filesystem.go:1308 | the combination is exclusive or, bit by bit |
| `CtrReader.PlaintextAt` | internal/storage/filesystem.go:1302-1312 | a stream in step with the file gives the plaintext at its position |
| `CtrReader.CtrReadSeeker.Read` | internal/storage/filesystem.go:1302-1312 | a read returns the plaintext at the current offset, also after failed seeks |
| `CtrReader.CtrReadSeeker.ReadFull` | internal/storage/filesystem.go:1355-1361 | reads a whole slice of the plaintext, or fails at its end |
| `CtrReader.CtrReadSeeker.Seek` | internal/storage/filesystem.go:1314-1366 | a seek that succeeds moves to its target; one that fails leaves offset, stream and file in step |
| `CtrReader.NewCtrReadSeeker` | internal/storage/filesystem.go:1289-1300 | a new reader starts at offset 0 |
| `Int64.OverflowIsNegative` | internal/storage/filesystem.go:1346-1349 | a seek position that overflows comes out negative, so the file refuses it |
| `Multipart.RecordPart` | internal/storage/multipart.go:268-284 | puts a part in the record, in place of an earlier upload of its number |
| `Multipart.RecordedFinds` | internal/storage/multipart.go:268-284 | that changes what is recorded under its number and nothing else |
| `Multipart.SelectParts` | internal/storage/multipart.go:344-388 | checks a completion request and selects recorded parts in ascending order of their numbers, one for each part of the request, with its number and entity tag, all but the last of at least 5 MiB; it refuses only what is no such request |
| `Multipart.RefusedExactly` | internal/storage/multipart.go:344-388 | a request is accepted if and only if its parts are listed once each, were uploaded with the entity tags given, and none but the last is too small |
| `Multipart.OnlyQuotesGo` | internal/storage/multipart.go:373-374 | comparing entity tags takes off quotes at both ends, all of them and nothing else |
| `Multipart.SortedByNumber` | internal/storage/multipart.go:346-348 | the parts come in ascending order of their numbers |
| `MultipartRuns.NoPartIsLost` | internal/storage/multipart.go:260-297 | in every interleaving each part number has the record and the data of the last upload recorded under it |
| `MultipartRuns.CompletedIsConcatenation` | internal/storage/multipart.go:482-526 | a completed upload is the concatenation, in strictly ascending part number, of the latest recorded data of the parts listed, as long as their sizes say |
| `MultipartRuns.CommitKeepsCalls` | internal/storage/multipart.go:260-297 | recording a part under the upload's lock disturbs no other call |
| `Usage.BucketUsage` | internal/storage/usage.go:86-140 | one pass counts current objects, stored versions and delete markers and sums their bytes |
| `Usage.CountsWhatReadsFind` | internal/storage/usage.go:86-140 | what is counted is what reads find: an object for each key whose current version is no delete marker, and a version or delete marker for each version ID that a read of the key finds |
| `Usage.PreviousBytes` | internal/storage/usage.go:138-139 | bytes of versions less bytes of current objects are the bytes of noncurrent versions |
| `Usage.SameBytes` | internal/storage/usage.go:118-130 | pointers and the version records they stand for have the same bytes |

## Left out

- File I/O, fsync, path confinement, temporary files: the disk is a map from paths to contents, a rename puts a whole file in place.
- SignatureChain.OnlyTheClientsChunks: what a client has signed is taken as the chain of one request; that nobody can sign without the key is the assumption that the body carries only signatures of that chain.
- ChunkedDecoder.DecodesExactlyCompleteEncodings: a body is at most 2^63-1 bytes long.
- SweepProgress.SweepsReachIff: the sweeps look at what is due at one time, and nothing else happens between them.
- ChangingPages.PresentThroughoutIsShown: of version listings only `VersionPages.RestOfKeyIff` is about a bucket that changes.
- CrashSafety.RequestSafe: a file removal that fails is only logged, and leaves a file that nothing names; removals succeed here.
- gzip compression: the identity; what is stored of an object is its payload.
- HTTP handlers, XML and JSON, routing, CORS, the web console, webhooks, metrics, access logs, configuration, TLS and backup: plumbing with no guarantee of its own.
- The best-effort sync queue (`internal/storage/sync.go`): it drops work when full; the journal is the protocol with a guarantee.
- Data files of versions stored under their key and version ID, an old layout whose names can collide: only unversioned objects stored under their key are modelled.
- ListMultipartUploads and ListParts: the same cursor paging over simpler records.
- AbortMultipartUpload: one step here; it removes data before metadata on purpose, so a crash inside it leaves a record without data.
- Crashes inside a multipart completion: its commit is the commit of a put, which `CrashSafety` covers; the cleanup after it may be left undone, and `MultipartRuns.Finish` allows that.
- The multipart entity tag: an MD5 of part entity tags and a count.
- Listing.ListObjects: keys hold neither NUL nor 0xff, which key validation and UTF-8 give.
- VersionListing.ListObjectVersions: key markers hold no NUL, as no page returns one that does.
- ChunkedReaders.ChunkedReader.Read: the body reader yields the whole body and then its end; a connection that breaks is not modelled. Trimming and lower-casing are those of ASCII.
- CtrReader.CtrReadSeeker.Read: a file is at most 2^63-1 bytes long and does not change while it is read.
- HandleCache.NobodyElseWins: a full cache evicts any idle handle, not the least recently used; closing the store at shutdown is not modelled.
- ConfigCache.CacheIsCoherent: no bound on the number of cached entries is claimed, since storing a bucket bypasses the one there is. The generation is not bounded to 64 bits.
- Reconcile.Reconciler.DeliverPage: the source has four workers; any number of deliveries may overlap here.
- Outbox.NothingPendingMeansMirrored: a send that failed has been applied or not by the time it fails, and is never applied later.
- BucketDeletion.OnlyEmptyBucketsGo: the emptiness check also looks at pending journal entries; a check that finds some is one of the failures a deletion can have.
- Usage.BucketUsage: sums are unbounded.
- Lifecycle rules, filters and their validation: a sweep takes a prefix and a cutoff.
- The sizes of sequence numbers and counts: unbounded.
