# Verification of the object-storage service

This Dafny project models the object-storage gateway and the agent that runs it, and proves what their design promises.
`dafny verify dfyconfig.toml` checks all of it. Each file is one module.

| files | what they model |
|---|---|
| `custody_tree`, `custody`, `custody_protocol`, `custody_promises`, `custody_undisturbed` | the custody directory of a local MinIO store: the tree on disk, one run's file-system calls, any number of runs with crashes, losses and containers started by others, what all behaviours promise, and the invariant when nothing outside interferes |
| `store`, `mem`, `answers`, `requests`, `atomicity`, `paging`, `listing` | the in-memory backend: operations on values, the methods of the backend object, what each answers case by case, runs of requests, conditional writes, listings page by page, and what a listing says in terms of the keys alone |
| `prefixed`, `normalize` | the wrapper that confines a backend to a key prefix, and the canonical form of that prefix |
| `readers`, `streaming`, `upload` | the byte paths: layered bounded readers, the Get and GetMany frames with the client's parser, and the streamed Put |
| `hub` | the write-event fan-out with its bounded channels |
| `egress`, `registry`, `guard`, `redact` | public addresses, the same by number, the dial guard of a bound call and its error policy, and the removal of secrets |
| `s3delete` | the batched delete over S3, through prefix and server |

Methods are proved against functions on values, and the theorems are about those functions or about all behaviours of a
state machine. File-system calls, sends, resolver answers, clocks, digests, random IDs and the store's answers are
parameters, so every theorem holds for all of them. The content digest is taken to be free of collisions where a theorem says so.

## What the proofs found

Where the code does not meet a promise on every input, the project keeps the code, shows an input or a behaviour, and proves
exactly when the promise holds.

- A comment at runtime.go:194 says a failed initialisation is rolled back inside the lock. A failed start gives the lock
  back first (runtime.go:255-259) and is rolled back after (runtime.go:191): `CustodyProtocol.RollbackOutsideTheLock`. Two
  runs are in Init exactly then (`CustodyPromises.TwoInInit`), Inits are serial exactly as long as no lock is taken
  meanwhile (`CustodyPromises.InitsAreSerial`), and such a rollback leaves the run inside the lock all it relies on
  (`CustodyPromises.RollbackLeavesTheHolder`).
- The custody record is read twice (minio_custody.go:200 and 165). If it is replaced in between by a pending one and the
  bucket is lost, a bucket is created in a store that held objects: `CustodyProtocol.WindowBetweenReads`.
- A container that others start between the inspection (minio_custody.go:149) and the claim (minio_custody.go:205) is not
  seen. If the directory is lost as well, a store is begun beside it: `CustodyProtocol.ContainerSlipsIn`.
- These two are the only ways to a second store: `CustodyPromises.NoSecondStore`. When faults only lose things the first is
  impossible, and without such a container nothing is ever created again: `CustodyPromises.NothingIsRecreated`. An object
  counts as written until the directory is bare with no container, or a bare directory is claimed. Faults may put anything
  on disk but a pending record together with an equal marker, which the checks cannot tell from a first run.
- A page that ends at the empty key carries no token (mem.go:232), so a listing with limit 1 and no prefix ends early on a
  store with an empty key and another one: `Paging.PagingCompleteness`, `Paging.StableKeyReturnedOnce` and
  `Prefixed.PrefixRefinement` hold exactly otherwise.
- `Offset+Length` is a 64-bit sum: a range whose sum overflows panics, `Atomicity.RangedRead`.
- A GetMany item of unknown size one byte over the cap whose store fails in the last read ends the stream instead of
  being TOO_LARGE: `Streaming.UnknownSizeAnswer`.
- In a batch delete the last thing said of a key counts. A failure reads as a success exactly when that is an empty text
  (`S3Delete.FailureReadsAsSuccess`), also after an earlier text (`S3Delete.LaterReportSilences`), and reports reach a
  repeated key only at its last place (`S3Delete.RepeatedKeyLooksDeleted`).
- Normalising a prefix is not idempotent when the trimmed core starts with white space, and the second pass may refuse what
  the first accepted: `Normalize.SecondPass`, `Normalize.TwoPassesDiffer`.
- A subscription made after the hub is closed is registered and open, and a second close is a no-op: `Hub.SubscriptionTrace`.
- A secret can survive redaction exactly if, laid somewhere over "[redacted]" so that they overlap, it agrees with it there:
  `Redact.SurvivesExactlyIfClashing`. Secrets without brackets that are no part of the word never do
  (`Redact.PlainSecretsAreApart`). Every other secret of the list is removed all the same.
- An all-zero IPv6 address with a zone is not unspecified to netip. A composed endpoint that resolves to one is admitted, and
  this is the only unspecified address a dial may reach: `Egress.UnspecifiedExactly`, `Guard.ZeroAcceptable`,
  `Guard.UnspecifiedDial`.
- The answer to a streamed Put may fail to reach the client after the object is stored and its event published:
  `Upload.UploadAtomicity`.

## Model

| member | source | states |
|---|---|---|
| `MinIOCustody.ValidateMinIOMount` | minio_custody.go:178-188 | An existing container is accepted exactly when its first mount at /data is a writable bind of the owned directory. |
| `MinIOCustody.Runtime.ClaimEmptyCustodyRoot` | minio_custody.go:26-49 | Succeeds only on an absent or empty plain directory (exactly then when system calls work); a failure changes nothing; at most the directory itself is created. |
| `MinIOCustody.Runtime.WriteCustodyRecord` | minio_custody.go:282-308 | Whatever call fails, every tree ever on disk is the old one, the old one with a temporary file, or the renamed one; success is the rename. |
| `MinIOCustody.Runtime.Check` | minio_custody.go:237-277 | With a record in hand: accepted exactly when bucket, version, owner, ID and phase fit, no path is a link or missing, and the marker is pending and equal up to the phase; it only reads. |
| `MinIOCustody.Runtime.MakeDirectories` | minio_custody.go:205-218 | The first two stages of an initialisation: the claimed directory, then an empty data directory in it. |
| `MinIOCustody.Runtime.Initialise` | minio_custody.go:205-232 | Every tree on disk during a first initialisation is one of six stages, in order; success is the last. |
| `MinIOCustody.Runtime.EnsureMinIOCustody` | minio_custody.go:196-278 | Outside the initialise branch nothing is written; the verdict is exactly the one the tree decides; in the branch only the six stages appear. |
| `MinIOCustody.Runtime.PrepareMinIOData` | minio_custody.go:126-176 | The lock is held afterwards exactly on success; success needs the lock, no legacy location, an owned mount and no refusal, and suffices when calls work; the store counts as new exactly when the record read last is pending. |
| `MinIOCustody.Runtime.PrepareLocked` | minio_custody.go:145-175 | What happens under the lock: succeeds exactly, when calls work, without a legacy location, with an owned mount or none, and without a refusal. |
| `MinIOCustody.Runtime.EnsureBucket` | runtime.go:362-393 | Creates the bucket at most once, also when a creation takes effect and reports an error, and only for a new store; a store in service is left alone and a missing bucket refused; with working calls it ends ready exactly when the store is new or the bucket is there. |
| `MinIOCustody.Runtime.CommitMinIOProvisioning` | minio_custody.go:310-330 | At every point the record is the old one or the same record committed, and the data beside it is untouched. |
| `CustodyTree.KindsDecide` | minio_custody.go:196-236 | Bare, half-initialised and recorded directories lead to initialise, refuse and adopt, each its own way. |
| `CustodyTree.AdoptsOnlyAgreement` | minio_custody.go:244-277 | Adoption implies a plain record of version 2 of this owner and bucket, with an ID and one of the two phases, and a marker equal to it but for the phase. |
| `CustodyTree.AdoptsExactly` | minio_custody.go:196-277 | A store is adopted exactly when a plain directory holds a plain record of version 2, of this owner and bucket, with an ID, pending or committed, and beside its data the same record pending. |
| `CustodyTree.InitialisesExactly` | minio_custody.go:196-214 | A store is begun exactly when no container is there and there is no directory or an empty plain one. |
| `CustodyTree.AcceptsExactly` | minio_custody.go:240-277 | With the record's text in hand the checks ask for exactly its version, owner, bucket, ID and phase, plain paths and the same record pending in the marker. |
| `CustodyProtocol.AlwaysSafe` | runtime.go:250-338 | Every reachable state of any interleaving of runs, crashes, losses and containers started by others keeps the lock exclusive and gives no run that may create a store a store in use. |
| `CustodyPromises.NoSecondStore` | minio_custody.go:196-276 | Once an object was written through a started gateway, a step that begins a store or makes a bucket is possible exactly in two cases: the record changed between its two reads, or a container came unseen over a directory that became bare. |
| `CustodyPromises.LossesRecreateNothing` | minio_custody.go:196-276 | When faults only lose things, no bucket is ever made over a store in use, and a claim is possible exactly under the unseen container. |
| `CustodyPromises.NothingIsRecreated` | minio_custody.go:196-276 | With losses only, and no container started by others while a run is inside the lock: once an object was written, no run ever creates a bucket or a store. |
| `CustodyPromises.AlwaysHonest` | minio_custody.go:162-173 | With losses only, the record a run verified is there or lost, and the one it read last is the one it verified. |
| `CustodyPromises.RecordReplaced` | minio_custody.go:162-173 | Behind a bucket made on another record there is a fault that put a readable record in the place of the verified one. |
| `CustodyPromises.BegunOnlyWhereBare` | minio_custody.go:201-207 | A store is begun only in an absent or empty directory; and no container is there exactly when none was started by others, and left, since the run looked. |
| `CustodyPromises.ContainerSinceInspect` | minio_custody.go:149-153 | For a run that saw no container: the act at which it looked, the lock held since, and exactly when there is no container now. |
| `CustodyPromises.OneRunInside` | minio_custody.go:125-140 | At most one run is between taking the lock and giving it back; a rollback after a failed start is outside and is the subject of the next rows. |
| `CustodyPromises.TwoInInit` | runtime.go:184-206 | Counting every rollback as part of Init: two runs are in Init exactly when one of them is rolling back a failed start beside another. |
| `CustodyPromises.FailedStartBehind` | runtime.go:255-259 | Behind every rollback outside the lock there is the failed start that gave the lock back. |
| `CustodyPromises.InitsAreSerial` | runtime.go:184-206 | Whole Inits, rollback included, come one after another exactly as long as no lock is taken during a rollback outside the lock. |
| `CustodyPromises.RollbackLeavesTheHolder` | runtime.go:482-513 | A rollback outside the lock leaves the run inside at its place, with lock and tree as before and all it relies on intact, whichever container the teardown takes. |
| `CustodyProtocol.WindowBetweenReads` | minio_custody.go:162-173 | A behaviour in which the record is overwritten between the two reads and the bucket is lost: a bucket is created over a store that held objects. |
| `CustodyProtocol.RollbackOutsideTheLock` | runtime.go:184-194 | A behaviour in which a failed start rolls back while another run holds the lock. |
| `CustodyProtocol.ContainerSlipsIn` | minio_custody.go:149-207 | A behaviour in which a container started after the run looked is not seen, and a store is begun in the lost directory. |
| `CustodyUndisturbed.StepKeeps` | minio_custody.go:205-232 | One step of any run, crash or container removal keeps the custody invariant: record and marker agree up to the phase, a committed record has its bucket. |
| `CustodyUndisturbed.CustodyEndures` | minio_custody.go:280-330 | Over whole undisturbed behaviours a record never disappears, keeps its ID and moves only from pending to committed. |
| `CustodyUndisturbed.CrashLeavesOneOfThree` | minio_custody.go:190-233 | Wherever runs stop, the next preflight finds exactly one of: bare, partial (refused), recorded (resumed), and tells which. |
| `Readers.Reader.Read` | internal/egress/egress.go:232-247 | The linked reader objects deliver what the layered value says: bounded, capped and limited reads over a transport that answers in any way. |
| `Readers.ReadFrom` | internal/egress/egress.go:232-247 | No read returns more bytes than the buffer holds. |
| `Readers.ReadProgresses` | internal/server/server.go:209-210 | A read that does not end the reading brings its end nearer, so relaying ends. |
| `Readers.BodyOf` | internal/egress/egress.go:232-247 | An error counts as arriving with the last bytes only if there are bytes. |
| `Readers.CappedReads` | internal/server/binding.go:246-252 | A chunk that crosses the cap is withheld whole; what came before is a prefix of the body. |
| `Readers.SteadyReads` | internal/egress/egress.go:232-247 | Whatever sizes a bounded or limited reader is read in, it delivers the one body, in front of its one end. |
| `Readers.BoundTripsExactly` | internal/egress/egress.go:232-247 | Up to the bound the store's bytes pass; the flag is set exactly when a byte past it is there, and that byte is withheld. |
| `Readers.LayeredReads` | internal/server/binding.go:246-252 | One read under the cap: what may follow completes what was delivered. |
| `Readers.GuardNeverTrips` | internal/server/binding.go:223 | With the guard one byte past the cap, the cap trips first and the guard records no overrun, for any chunks and read sizes. |
| `Readers.ReadAll` | internal/server/server.go:182 | A reader read to its end gives exactly its body, and its error unless that is EOF. |
| `Streaming.FrameStream.Send` | internal/server/server.go:150-152 | A sent frame is appended; a failed send leaves the stream. |
| `Streaming.ReadChunk` | internal/server/server.go:208-210 | One read of at most 256 KiB, with a completion of the body that agrees with all that was read. |
| `Streaming.SendOn` | internal/server/server.go:211-233 | Nothing past the promised size is sent, a read's bytes go out before its error counts, and the error decides how the stream ends. |
| `Streaming.RelayOnce` | internal/server/server.go:209-234 | One turn of the relay keeps what was sent a prefix of the body and ends only as the body or the size demands. |
| `Streaming.StreamBody` | internal/server/server.go:206-235 | Frames are non-empty chunks of at most 256 KiB that join to a prefix of the body; with a promised size never more than that, and success only on a body of exactly that size. |
| `Streaming.CapDecides` | internal/server/binding.go:241-252 | A bound read delivers a body within the cap whole and stops one over it with the cap's own error, never the guard's. |
| `Streaming.Get` | internal/server/server.go:85-120 | A bound Get relays at most 5 MiB: within the cap the whole body with its own end, over it OBJECT_TOO_LARGE; the response-too-large flag stays clear. |
| `Streaming.ParseChunks` | internal/server/server.go:210-220 | Data frames that do not overrun the declared size extend the parser's open block by exactly their bytes. |
| `Streaming.SendBrief` | internal/server/server.go:148-168 | A header alone is one block without bytes. |
| `Streaming.SendWhole` | internal/server/server.go:191-197 | A header with a size, then the body: the whole block on success, part of it otherwise. |
| `Streaming.GetManyObject` | internal/server/server.go:169-198 | An object that was opened: too large, measured first, or relayed at its declared size. |
| `Streaming.GetManyItem` | internal/server/server.go:148-198 | One item: a changed object is CHANGED, a missing one NOT_FOUND, a bound one over the cap TOO_LARGE, any other failure ends the call without a frame; its whole block on success, otherwise at most a prefix of it. |
| `Streaming.GetMany` | internal/server/server.go:128-198 | On success the parser recovers for every item in order what the store said of it, outcome or bytes; on an error the answered items before the failing one and at most part of that one. An open stream succeeds exactly when every item can be answered. |
| `Streaming.AnswerIsRight` | internal/server/server.go:148-198 | An item's answer is decided by the store's reply alone: missing bucket and other errors are none, CHANGED, NOT_FOUND and TOO_LARGE in their cases, else the body under its true length. |
| `Streaming.PartIsRight` | internal/server/server.go:191-197 | What a client may have of a broken item: a header with a size and a front part of the body no longer than that. |
| `Streaming.GrammarParses` | proto/codefly/storage/v0/storage.proto:186-203 | Header, then non-empty chunks up to its size when it has one, block after block: the parser reads back exactly the blocks that were printed. |
| `Streaming.ParsedIsGrammar` | proto/codefly/storage/v0/storage.proto:186-203 | And it accepts nothing else: what parses is such a printing. |
| `Streaming.UnknownSizeAnswer` | internal/server/server.go:178-190 | An item of unknown size is whole within the cap and TOO_LARGE over it, except exactly when a body one byte over fails in its last read. |
| `Streaming.KnownSizeAnswer` | internal/server/server.go:191-197 | An item of known size is delivered exactly when the body has that size and ends cleanly. |
| `Upload.AlwaysFaithful` | internal/server/server.go:247-266 | In every interleaving of receiving goroutine and backend reads no byte is lost, repeated or reordered, and EOF comes only behind a clean close. |
| `Upload.UploadStep` | internal/server/server.go:247-282 | The backend has read a prefix of the data frames; only a commit changes the store for this upload, after a clean close, and it puts exactly all frames. |
| `Upload.CommitsOnce` | internal/backend/mem/mem.go:116-145 | An upload commits at most once, and only one that was cleanly closed. |
| `Upload.AcceptedHasStored` | internal/backend/mem/mem.go:132-144 | Behind an accepted upload there is one commit, after which the key holds exactly the frames with their digest and length, and every other key what it held. |
| `Upload.UploadAtomicity` | internal/server/server.go:277-289 | A broken upload changes nothing and publishes nothing; an accepted one has committed its frames once, and its one event is out before the answer and stays out when the answer does not reach the client. |
| `Upload.CommitDecides` | internal/backend/mem/mem.go:121-144 | A commit stores the frames exactly when neither condition stands against it at that moment; refused, it fails the upload and leaves the store alone. |
| `Upload.AnsweredAfterCommit` | internal/server/server.go:247-282 | An upload is decided without a commit exactly when the client's stream broke. |
| `Upload.NeverStuck` | internal/server/server.go:246-266 | Until it is answered, some step of the upload itself is always possible. |
| `Mem.SearchStrings` | internal/backend/mem/mem.go:202 | The first position whose key is not below the token's. |
| `Mem.SortStrings` | internal/backend/mem/mem.go:181-192 | The keys in strictly ascending order, each once. |
| `Mem.SkipToken` | internal/backend/mem/mem.go:198-207 | The scan starts at the first key past the token's. |
| `Mem.ScanKey` | internal/backend/mem/mem.go:213-229 | One key adds its object, or its common prefix unless the page has it. |
| `Store.EtagIdentifiesContent` | internal/backend/mem/mem.go:68-71 | Two contents have the same validator exactly when they are equal. |
| `Store.Cut` | internal/backend/mem/mem.go:210-213 | A page consumes keys up to the first that fills it, or all. |
| `Store.EnumerationUnique` | internal/backend/mem/mem.go:192 | A set of keys has one ascending enumeration. |
| `Mem.Scan` | internal/backend/mem/mem.go:209-233 | The page that the listing specification names: objects, first-seen prefixes and token. |
| `Mem.Backend.Stat` | internal/backend/mem/mem.go:73-82 | The stored metadata or not found. |
| `Mem.Backend.Get` | internal/backend/mem/mem.go:84-114 | The specified reply: conditions in order, then the slice. |
| `Mem.Backend.Put` | internal/backend/mem/mem.go:116-145 | The specified new map and reply; a refused put leaves the map. |
| `Mem.Backend.Delete` | internal/backend/mem/mem.go:147-164 | The specified new map and reply, idempotent without a condition. |
| `Mem.Backend.DeleteMany` | internal/backend/mem/mem.go:166-177 | Every named key gone, one success per key in order. |
| `Mem.Backend.Copy` | internal/backend/mem/mem.go:237-254 | The specified copy under the destination's key. |
| `Mem.Backend.List` | internal/backend/mem/mem.go:179-235 | The specified page of the sorted, folded, token-resumed listing. |
| `Answers.PutExactly` | internal/backend/mem/mem.go:116-145 | A put succeeds exactly with a readable body, the key not taken under create-if-absent, and the ETag current under If-Match; the key then holds that body and its description, every other key what it held; each refusal has its code and changes nothing. |
| `Answers.GetExactly` | internal/backend/mem/mem.go:84-114 | Not found, not modified and precondition failed in exactly their cases, and otherwise the bytes, cut to the range if there is one. |
| `Answers.StatExactly` | internal/backend/mem/mem.go:73-82 | The stored description exactly when the key is there. |
| `Answers.DeleteExactly` | internal/backend/mem/mem.go:147-164 | Refused exactly when it names a validator that is not the key's; else the key is gone and nothing else. |
| `Answers.DeleteManyExactly` | internal/backend/mem/mem.go:166-177 | Exactly the named keys are gone, and each is answered for in order as deleted. |
| `Answers.CopyExactly` | internal/backend/mem/mem.go:237-254 | Succeeds exactly with a source and no taken destination under create-if-absent; content and validator are the source's, key and time new. |
| `Answers.QuotedDigest` | internal/backend/mem/mem.go:68-71 | The validator is the digest between double quotes. |
| `Answers.LessExactly` | internal/backend/mem/mem.go:192-205 | The listing's order is bytewise: the first difference decides, a proper prefix comes first. |
| `Atomicity.RunsStayCoherent` | internal/backend/mem/mem.go:132-143 | In every reachable state ETag is the digest of the data, size its length and key the map key, copies included. |
| `Atomicity.RangedRead` | internal/backend/mem/mem.go:100-111 | A ranged read is the asked window or a bounds error, and panics exactly when offset plus length overflows 64 bits. |
| `Atomicity.AcknowledgedIsVisible` | internal/backend/mem/mem.go:116-177 | Over any run the contents are exactly what a client's book of acknowledged requests says; refused requests have changed nothing. |
| `Atomicity.ReadsFollowTheBook` | internal/backend/mem/mem.go:73-114 | Every read of a run answers from that book as it stands then. |
| `Atomicity.AnswersFollowTheBook` | internal/backend/mem/mem.go:73-177 | In any run the book decides whether each conditional put, copy and delete succeeds and with what code it fails, and what a read without a date answers. |
| `Atomicity.NoLostUpdate` | internal/backend/mem/mem.go:121-131 | However clients interleave reads and conditional writes, the content is the fold of the successful edits in order. |
| `Atomicity.CompareAndSwap` | internal/backend/mem/mem.go:124-131 | From any coherent store: get then put-if-match by any clients loses no update. |
| `Atomicity.SwapWinsExactly` | internal/backend/mem/mem.go:127-144 | A put-if-match wins exactly when the content its client read last is the content now; else nothing changes. |
| `Atomicity.NoWinNoChange` | internal/backend/mem/mem.go:121-131 | Wins are never taken back, and without one between two moments the content and a fresh reader's view of it stay. |
| `Atomicity.FetchThenSwapWins` | internal/backend/mem/mem.go:121-144 | A client that reads and then swaps wins unless another has won in between. |
| `Atomicity.OneCreator` | internal/backend/mem/mem.go:124-126 | Of interleaved create-if-absent puts on an absent key exactly one succeeds, on a present key none. |
| `Paging.KeysStrictlyIncrease` | internal/backend/mem/mem.go:194-233 | Whatever is put and deleted between page calls, returned keys strictly increase: none twice. |
| `Paging.ReturnedAreReal` | internal/backend/mem/mem.go:210-230 | Every returned key matched the prefix, did not fold and existed at some call. |
| `Paging.StableKeyReturnedOnce` | internal/backend/mem/mem.go:194-233 | A key present throughout a completed traversal is returned exactly once, or its common prefix is reported, exactly unless the first page stops at the empty key and the key is another. |
| `Paging.EarlyTraversal` | internal/backend/mem/mem.go:231-233 | A first page that stops at the empty key is the whole traversal and returns that key alone. |
| `Paging.NextPageIsShorter` | internal/backend/mem/mem.go:231-233 | A page with a token leaves strictly fewer keys, so paging ends. |
| `Paging.StandingStore` | internal/backend/mem/mem.go:194-233 | On a standing store a client's calls collect exactly the pages of the finite traversal. |
| `Paging.PageWithinLimit` | internal/backend/mem/mem.go:194-230 | A page holds at most the limit of objects and prefixes together. |
| `Paging.EarlyIsIncomplete` | internal/backend/mem/mem.go:231-233 | A page that ends at the empty key gives no token, and the listing misses entries. |
| `Paging.PagingCompleteness` | internal/backend/mem/mem.go:179-235 | Following tokens gives all unfolded matches in order and all common prefixes exactly unless a page ends at the empty key; every page respects the limit. |
| `Listing.FoldExactly` | internal/backend/mem/mem.go:215-219 | A key folds into a common prefix exactly when that is its part through the first delimiter past the listing prefix. |
| `Listing.PageObjects` | internal/backend/mem/mem.go:227-229 | Every object of a page is a stored one that matches, past the token, without the delimiter past the listing prefix. |
| `Listing.PagePrefixes` | internal/backend/mem/mem.go:215-225 | Every common prefix of a page is a matching key's part through the first delimiter, and no two are equal. |
| `Listing.PageIsFull` | internal/backend/mem/mem.go:194-233 | A page holds at most the limit, a thousand by default, and exactly that many if it leaves keys behind. |
| `Listing.UndecodableIsNone` | internal/backend/mem/mem.go:199-207 | A token that does not decode lists like none. |
| `Listing.StableKeyListed` | internal/backend/mem/mem.go:194-233 | A key that stays while a listing is followed is returned once, or, if the delimiter divides it, covered by its common prefix. |
| `Listing.ListingExactly` | internal/backend/mem/mem.go:179-235 | A complete listing is exactly the matching keys without the delimiter past the prefix, ascending, with their metadata, and the parts of the others through their first delimiter. |
| `Prefixed.Wrapper.Get` | internal/backend/prefix.go:69-75 | The inner reply for the joined key, with the key stripped. |
| `Prefixed.Wrapper.Stat` | internal/backend/prefix.go:63-67 | The inner reply for the joined key, with the key stripped. |
| `Prefixed.Wrapper.Put` | internal/backend/prefix.go:77-79 | The inner put under the joined key. |
| `Prefixed.Wrapper.Delete` | internal/backend/prefix.go:81-83 | The inner delete of the joined key. |
| `Prefixed.Wrapper.Copy` | internal/backend/prefix.go:111-113 | The inner copy between the joined keys. |
| `Prefixed.Wrapper.DeleteMany` | internal/backend/prefix.go:85-95 | The inner batch over the joined keys, each entry stripped. |
| `Prefixed.Wrapper.List` | internal/backend/prefix.go:97-109 | The inner page under the joined prefix, every key and common prefix stripped. |
| `Prefixed.ListUnder` | internal/backend/prefix.go:97-109 | The wrapper's page is the smaller store's page, with the prefix inside the token. |
| `Prefixed.PutUnder` | internal/backend/prefix.go:77-79 | A put through the wrapper is the smaller store's put, and touches nothing outside. |
| `Prefixed.CopyUnder` | internal/backend/prefix.go:111-113 | A copy through the wrapper is the smaller store's copy, and touches nothing outside. |
| `Prefixed.DeleteUnder` | internal/backend/prefix.go:81-83 | A delete through the wrapper is the smaller store's delete, and touches nothing outside. |
| `Prefixed.DeleteManyStep` | internal/backend/prefix.go:85-95 | A batch delete in step with the smaller store's, entry by entry. |
| `Prefixed.ListStepUnder` | internal/backend/prefix.go:97-109 | The two listings answer alike exactly when the smaller one does not stop at its empty key. |
| `Prefixed.StepUnder` | internal/backend/prefix.go:63-113 | Wrapper and smaller store take any one request in step, and nothing outside the prefix changes. |
| `Prefixed.PrefixRefinement` | internal/backend/prefix.go:33-113 | Whole runs of put, get, stat, delete, copy, batch delete and paged list: same answers as the smaller store exactly when no listing stops at the empty relative key; outside keys never change. |
| `Normalize.NormalizePrefix` | internal/backend/prefix.go:19-31 | Computes the specified canonical form or refusal. |
| `Normalize.SplitIsPath` | internal/backend/prefix.go:24 | Splitting loses nothing: the segments hold no slash and joined give the text back. |
| `Normalize.OutputShape` | internal/backend/prefix.go:13-18 | A non-empty accepted prefix is usable segments with one slash after each. |
| `Normalize.SameKeySpace` | internal/backend/prefix.go:13-18 | Every padding of a path with outer white space and slashes gives that one prefix, and is refused exactly when a segment is unusable. |
| `Normalize.EverySpelling` | internal/backend/prefix.go:19-30 | Every configured text is such a padding of its core, or white space around slashes and nothing else. |
| `Normalize.BlankIsWholeBucket` | internal/backend/prefix.go:19-23 | A blank prefix, with or without slashes, is the empty one: the whole bucket. |
| `Normalize.NestedIffSegmentsNested` | internal/backend/prefix.go:13-31 | Two outputs are nested as strings exactly when their segment lists are. |
| `Normalize.OtherViewUnchanged` | internal/backend/prefix.go:33-42 | Of two prefixes that are not nested, a change under one leaves the view under the other. |
| `Normalize.TenantsApart` | internal/backend/prefix.go:33-42 | For outputs not nested by segments, no run through the one prefix changes what the other shows. |
| `Normalize.SecondPass` | internal/backend/prefix.go:20 | A second pass is the identity exactly when the core starts with no white space; another accepted pass is strictly shorter. |
| `Normalize.PassesSettle` | internal/backend/prefix.go:19-31 | Repeated passes end, at a fixed point or a refusal. |
| `Normalize.TwoPassesDiffer` | internal/backend/prefix.go:19-31 | A spelling that the first pass accepts and the second changes or refuses. |
| `Hub.Hub.Subscribe` | internal/events/events.go:91-99 | A fresh open subscription under the next ID, even after Close. |
| `Hub.Hub.Publish` | internal/events/events.go:103-108 | The event, stamped if it had no time, is dispatched. |
| `Hub.Hub.Dispatch` | internal/events/events.go:112-126 | Each matching subscription gets the event, or is dropped if its buffer is full. |
| `Hub.Hub.Offer` | internal/events/events.go:115-125 | One subscription's turn: passed over, sent to, or deleted and closed. |
| `Hub.Hub.Drop` | internal/events/events.go:122-123 | Deleted from the hub and its channel closed, once. |
| `Hub.Hub.Take` | internal/server/server.go:403-408 | A receive takes the oldest queued event; a closed channel still drains. |
| `Hub.Subscription.TrySend` | internal/events/events.go:119-124 | A non-blocking send succeeds exactly while fewer than 256 events are queued. |
| `Hub.Subscription.CloseChannel` | internal/events/events.go:86 | Only ever called on an open channel. |
| `Hub.Hub.CloseSubscription` | internal/events/events.go:81-88 | Closes a registered subscription once, otherwise nothing. |
| `Hub.Hub.Close` | internal/events/events.go:129-140 | Closes every registered subscription, the first time only. |
| `Hub.AlwaysSound` | internal/events/events.go:91-126 | IDs are never reused, a channel is open exactly while registered, and no buffer exceeds 256. |
| `Hub.CountsAndCloses` | internal/events/events.go:91-140 | Every Subscribe made one more subscription, also on a closed hub, and the hub is closed exactly once a Close was called. |
| `Hub.OpenStep` | internal/events/events.go:112-126 | One act on an open subscription adds the matching event to its stream or closes it, never both. |
| `Hub.ClosedStep` | internal/events/events.go:81-88 | After its close a channel only drains. |
| `Hub.SubscriptionTrace` | internal/events/events.go:81-140 | In every behaviour each subscription has received and queued exactly the matching events since it subscribed, cut at one closing act: its own close, the hub's first, or a matching event on a full buffer. |
| `Egress.CheckPublic` | internal/egress/egress.go:96-115 | True exactly for a public address. |
| `Egress.PrefixIsInterval` | internal/egress/egress.go:109-113 | Sharing a prefix's bits is lying in its interval of numbers. |
| `Egress.ValueInjective` | internal/egress/egress.go:109-113 | An address is its number: no two of one width share it. |
| `Egress.ListedIsUnion` | internal/egress/egress.go:109-113 | A registry lists an address exactly when its number is in the union of the entries' intervals. |
| `Egress.PublicIsComplement` | internal/egress/egress.go:96-115 | IsPublic is the complement of the union of registry and class intervals, within the unicast block for IPv6. |
| `Egress.ClassesAreIntervals` | internal/egress/egress.go:104-108 | netip's own classes are intervals and two single addresses. |
| `Egress.UnspecifiedExactly` | internal/egress/egress.go:104-106 | An all-zero address is never link-local or multicast, and escapes the check for unspecified ones exactly when it carries a zone. |
| `Egress.MappedVerdict` | internal/egress/egress.go:100 | An IPv4-mapped address gets the IPv4 verdict; a zoned one is refused. |
| `Egress.UnicastBlockDecides` | internal/egress/egress.go:81-83 | For IPv6 the address's own classes add nothing to block and registry. |
| `Egress.RedundantEntries` | internal/egress/egress.go:65-79 | Of the IPv6 registry four entries decide alone; the others lie outside 2000::/3. |
| `Registry.CidrIsInterval` | internal/egress/egress.go:42-91 | A dotted entry is the addresses whose big-endian number has its leading bits. |
| `Registry.RangesOfTable` | internal/egress/egress.go:42-59 | The sixteen IPv4 entries are these sixteen ranges of numbers. |
| `Registry.PublicV4Exactly` | internal/egress/egress.go:96-115 | An IPv4 address is public exactly when its number is outside those, loopback, link-local and multicast. |
| `Registry.PublicV6Exactly` | internal/egress/egress.go:96-115 | An IPv6 address that is not a mapped one is public exactly when its first 32 bits are in 2000::/3 and outside four ranges. |
| `Registry.PublicByNumber` | internal/egress/egress.go:96-115 | The verdict on every address by its number: IPv4, mapped and other IPv6, zoned and invalid ones. |
| `Registry.ScopedByNumber` | internal/egress/egress.go:402-431 | Link-local, multicast and unspecified addresses, which no composition may admit, by number. |
| `Guard.Qualify` | internal/egress/egress.go:402-431 | Admits exactly when every address is acceptable: unscoped for a composed endpoint, public otherwise; a composed admission is exactly the resolved address:port pairs. |
| `Guard.ZeroAcceptable` | internal/egress/egress.go:413-429 | Of the all-zero addresses a composed endpoint may resolve to exactly those with a zone, any other endpoint to none. |
| `Guard.Guard.AdmitsAddress` | internal/egress/egress.go:369-381 | True exactly for an admitted pair, IPv4-mapped forms included. |
| `Guard.Guard.Control` | internal/egress/egress.go:345-354 | Permits exactly an admitted address of the admitted authority or a public one; a refusal sets the flag. |
| `Guard.Guard.Dial` | internal/egress/egress.go:341-357 | Tries the answers in order to the first connection, each attempt judged. |
| `Guard.Guard.Record` | internal/egress/egress.go:258-266 | Adds exactly the credential with and without its scheme, never twice. |
| `Guard.Guard.RoundTrip` | internal/egress/egress.go:282-318 | Records the credential before the dial; a response comes back with credentials removed from headers and error bodies. |
| `Guard.Guard.Scrub` | internal/egress/egress.go:298-317 | Every header and the body of an error are redacted with all credentials sent so far; a successful body is untouched. |
| `Guard.RunTrips` | internal/egress/egress.go:341-366 | Over a whole call each dial is judged by the one admission, and the flag is the disjunction of the refusals. |
| `Guard.NothingLeaks` | internal/server/binding.go:129-133 | No recorded or bound secret that stands apart occurs in a redacted message, whatever the other secrets are. |
| `Guard.PermittedIsSafe` | internal/egress/egress.go:330-381 | An attempt is permitted exactly to a public address, or, for the composed endpoint at its port, to an unscoped address that it resolved to. |
| `Guard.SafeTargetClasses` | internal/egress/egress.go:393-401 | A safe target is never link-local or multicast, and unspecified only as a zoned all-zero address that the composed endpoint resolved to. |
| `Guard.UnspecifiedDial` | internal/egress/egress.go:345-354 | A dial to an all-zero address is permitted exactly when it is for the composed endpoint, at its port, and that resolved to it with a zone. |
| `Guard.BoundCall` | internal/egress/egress.go:330-431 | The endpoint is admitted exactly when every address of it is acceptable; for any requests, redirects and resolver answers an attempt is permitted exactly when it is safe; none is link-local or multicast or, but for the zoned all-zero form, unspecified; the refused flag is set exactly when one was refused; exactly the credentials sent are remembered, with and without their scheme. |
| `Guard.CallError` | internal/server/binding.go:104-138 | Refused dial over oversized response over deadline over the store's own code, reason and metadata; the message is the redacted one, and neither a secret of the binding nor a credential the guard recorded is in it if it stands apart. |
| `Guard.FailedCall` | internal/server/binding.go:104-138 | A whole bound call that fails: no Authorization value of any of its requests is in the message, with its scheme or without, if it stands apart; it is reported as a refused destination exactly when a dial was refused or the store's error says so. |
| `Guard.ScrubbedIsClean` | internal/egress/egress.go:298-317 | A scrubbed response has no credential that stands apart in a header, nor in the body of an error. |
| `Redact.Redact` | internal/egress/egress.go:321-328 | Sequential replacement of each non-empty secret. |
| `Redact.ReplacesOnlyTheSecret` | internal/egress/egress.go:324 | The text is secret-free pieces joined by the secret, and the result the same pieces joined by the replacement. |
| `Redact.FirstSecretFirst` | internal/egress/egress.go:321-328 | The first secret is replaced before the others are looked for. |
| `Redact.PlainSecretsAreApart` | internal/egress/egress.go:324 | A secret without brackets that is no part of the word cannot be spelled with the replacement's help. |
| `Redact.NoSecretSurvives` | internal/egress/egress.go:321-328 | In any order, nested or overlapping, and whatever the others are: a secret that stands apart does not occur in the result. |
| `Redact.SurvivesExactlyIfClashing` | internal/egress/egress.go:321-328 | A secret survives the redaction of some text by some list it is in exactly if it clashes with the replacement. |
| `Redact.ClashRight` | internal/egress/egress.go:324 | A secret that starts inside the replacement comes back from itself and its overhang. |
| `Redact.ClashLeft` | internal/egress/egress.go:322-326 | A secret that ends inside the replacement comes back when another secret stood between its two ends. |
| `Redact.ReplaceRemoves` | internal/egress/egress.go:324 | Replacing a secret removes it. |
| `Redact.ReplaceKeepsAbsent` | internal/egress/egress.go:322-326 | Replacing one secret brings back no other. |
| `Redact.RedactionIdempotent` | internal/egress/egress.go:321-328 | Redacting again changes nothing. |
| `Redact.ClashingSecretsSurvive` | internal/egress/egress.go:324 | Two such secrets: a part of the word, and one that the closing bracket lets straddle. |
| `S3Delete.DeleteMany` | internal/backend/s3/s3.go:396-448 | The requests sent are the keys in order, cut every thousand: each key is in exactly one; the texts are those the answers leave. |
| `S3Delete.BatchesAreKeys` | internal/backend/s3/s3.go:408-416 | Batches cut like that are never empty or too long and concatenate to the keys. |
| `S3Delete.BatchSizes` | internal/backend/s3/s3.go:407-416 | Every batch but the last holds exactly a thousand keys, the last one the rest. |
| `S3Delete.OneBatch` | internal/backend/s3/s3.go:407-446 | The keys gathered are the batch, they are what is sent, and the answer marks them: a failed one each key of the batch, an answered one the keys it reports. |
| `S3Delete.MarkReported` | internal/backend/s3/s3.go:429-445 | Reports mark the entry of their key, unknown and missing keys nothing, later reports over earlier ones. |
| `S3Delete.ThroughPrefix` | internal/backend/prefix.go:85-95 | Full keys go in, entries come out under the relative keys in the same order. |
| `S3Delete.MarkedExactly` | internal/backend/s3/s3.go:429-445 | The reports of one answer leave at a place the text of the last one that names it, or what was there. |
| `S3Delete.TextsExactly` | internal/backend/s3/s3.go:407-446 | Over all answers, whatever they are: a key ends with the text of the last one that speaks against it, with none if none does. |
| `S3Delete.ErrorsExactly` | internal/backend/s3/s3.go:407-446 | A key ends with an error exactly when some answer speaks against it and the last to do so says something. |
| `S3Delete.FailureReadsAsSuccess` | internal/backend/s3/s3.go:438-445 | A failure reads as a success exactly when the last answer to speak of the key has an empty text. |
| `S3Delete.SpokenErrors` | internal/backend/s3/s3.go:418-446 | When failures say something, a key ends with an error exactly when its batch failed or an answer names it and this is its last place. |
| `S3Delete.RepeatedKeyLooksDeleted` | internal/backend/s3/s3.go:401-405 | The error of an earlier place of a repeated key is the text of its own batch's failure, and none otherwise, whatever is reported of the key. |
| `S3Delete.LaterReportSilences` | internal/backend/s3/s3.go:429-445 | A report with a text is silenced by a later one of the same key with an empty message. |
| `S3Delete.SilentFailure` | internal/backend/s3/s3.go:438-440 | A failure with an empty message reads as a success. |
| `S3Delete.Request` | internal/server/server.go:304-317 | Outcome i is for request key i relative to the prefix, with exactly the text its answers leave; for distinct keys and spoken failures an error exactly when its batch or key failed; events are those of the successes. |
| `S3Delete.SuccessesInOrder` | internal/server/server.go:310-315 | The delete events stand in request order, one for each success. |
| `S3Delete.OnlySuccesses` | internal/server/server.go:310-315 | No delete event is published for a failed key. |

## Left out

- Power loss and the order in which syncs reach the disk: effects are durable in program order, as after a process crash.
- What MinIO or another process writes below the data directory other than buckets and objects, and a data directory replaced by a link while a container is attached to it.
- JSON and SHA-256 bytes: records are values with a case for undecodable text, and the custody directory is a function of the owner.
- The shared service network that a teardown removes by name, and which container a shutdown finds: a teardown may take any container or fail on either.
- Docker beyond a container being present, owned and removed; measuring the container user, the network, the tenant store, credential projection.
- Readiness polling, the health monitor, presigned URLs, Native, Ready and Capabilities: single-branch lookups or plumbing.
- The Azure, GCS and MinIO backends and the rest of S3: translations to SDKs that are not visible here.
- gRPC, protobuf conversion, deadlines as time, version IDs and generations of the backends that have them.
- Readers that never end: a transport is a finite script of answers, so what is proved about a prefix holds of any reader, and what is proved about an end of those that end.
- The base64 text of page tokens: a token is what its text decodes to, with a case for text that does not decode.
- The headers of a response and the conditions of a Get beyond ETag, modification time and range.
- Parsing of origins, authorities and addresses: functions of the text that may fail; only their results are judged. White space is any set of characters without the slash, and prefixes are sequences of characters, so text that is not valid UTF-8 is not covered.
- The metadata and the operation name of a bound call's error are passed on as they are, as the code does; only the message is redacted.
- A truncated error body is redacted after it was cut to 1 MiB, so a part of a secret at the cut may remain; only whole secrets are claimed absent.
- TLS, proxies, connection reuse and the parallel attempts of a dialer: the order of attempts does not matter to the guard.
- The Retry-After parser and the recording of the delay.
- Fetching the error body through the size bound: the body that is redacted is taken as read.
- A streamed Put without a header message: refused before anything is read. The backend's read loop is the in-memory store's, which reads to the end before it decides.
