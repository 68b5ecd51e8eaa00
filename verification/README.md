# S3Bender, verified

A Dafny model of an S3-like object server: the object layer with its index, the console's own SHA-256, and the
signing, presigning and credentials of buckets.

**Object layer.** Bytes live in a directory tree, metadata in a mirrored tree of sidecars, and a table keeps one row per
object as a cache. `Storage` and `Store` change these step by step, as classes; each method is proved equal to a function
on values (`ObjectState`). Those functions are proved to refine `Reference`, a server that is nothing but a map
from paths to objects: over every run, with index rows and ETags lost at arbitrary moments, no answer differs, except that a
listing of a bucket that lost rows is unspecified until the bucket is reindexed or the first page finds no row left.
The disk invariant is `DiskLaws.Managed`; the index invariants are `IndexLaws.Sound` (rows may be
missing, ETags may be missing) and `IndexLaws.Coherent` (rows exactly match the visible files). On disks the server
did not write, with sidecars missing or of an older form, the weaker `ReindexLaws.MatchesDisk` takes their place
(`LegacyDisks`). `Emptying` follows the deletion of a bucket's objects one by one.
`Answers` says field by field what a client is told about an object.

**SHA-256.** `Sha256Script` is the script's typed-array code over JavaScript numbers, proved against `Fips180`, which states
sections 4 to 6 of FIPS 180-4 and section 2 of RFC 2104. Word operations are defined on integers (`Words`); `Bits` says bit by bit what they do.

**Signing.** `Signing`, `Url`, `Patterns`, `Auth`, `Presign`, `HeaderAuth`, `Credentials` and `Admin` cover the string to sign, percent-encoding,
the three regular expressions, the filter, the router (`Routes` has its table on literal paths), and the life of a bucket's key pair. The server's MAC is a
parameter, and no result assumes anything of it: that a superseded pair stops working rests on access keys being
generated afresh. `HeaderAuth.StandardMac` is one instance, the HMAC of the standards; it does have collisions
(`HeaderAuth.ZeroExtendedSecretsAgree`).

Strings are byte strings: one `char` per byte. Keys, prefixes, headers and paths are arbitrary byte strings unless a
lemma says otherwise.

Where code and documentation differ, the model follows the code:

- `storage.go:331-335` says a forced reindex re-hashes every file; an ETag cached in a sidecar is kept
  (`ReindexLaws.ForcedEtagIsHashIff`, `Anomalies.StaleEtagSurvives`).
- `storage.go:270` says deleting a missing key is not an error; it is one when another key lies above or below it
  (`Anomalies.DeleteSucceedsIff`, `Anomalies.DeleteAboveFails`).
- `storage.go:506-507` says cleanup keeps directories from blocking a bucket's deletion; an upload that breaks off leaves its
  directories behind (`DiskLaws.AbortKeepsTidyIff`, `Anomalies.AbortBlocksBucketDeletion`).
- `storage.go:29-32` says the index can be rebuilt from disk; a legacy sidecar without ETag whose content type is unfit for
  a header makes two rebuilds differ (`ReindexLaws.ForcedIdempotentIff`).
- A key with empty or dot segments, or with a last segment that starts like an upload file, is accepted by PUT but
  indexed under a name no reindex gives it (`Anomalies.PutKeepsCoherentIff`, and the alias lemmas beside it).
- A key that cleans to white space is accepted by PUT, but its listed name is accepted by no request
  (`Emptying.PutKeepsAddressableIff`, `Anomalies.BlankWalkKeyIsRefused`).
- On a sidecar with a content type unfit for a header, an ACL change drops the type from the sidecar and keeps it in the
  row (`LegacyDisks.SetPublicKeepsMatchingIff`, `Anomalies.LegacyAclDisagrees`).
- A presigned URL for a key with a newline is printed and then always refused (`PresignLaws.PresignedUrlIsServed`).
- The header's skew is computed on 64-bit integers and wraps at one timestamp (`Auth.SkewIs`,
  `HeaderAuth.WrappedSkewPasses`).
- The message for a bad bucket name asks for 3 to 63 characters; the pattern also takes one (`Credentials.BucketName`).

## Model

| member | source | states |
|---|---|---|
| Storage.ObjectStore.PutObject | engine/internal/server/storage.go:132-172 | temp file, rename, sidecar, row: new state and answer are those of the value model on the old state, for complete and broken-off bodies, and no temporary file survives |
| Storage.ObjectStore.OpenObject | engine/internal/server/storage.go:175-197 | answer and new state of a GET, with every error case: invalid key, file in the way, missing key, directory |
| Storage.ObjectStore.StatIndexedFile | engine/internal/server/storage.go:201-227 | answers from the row, filling in a missing ETag or a missing row on the way |
| Storage.ObjectStore.SetPublic | engine/internal/server/storage.go:230-253 | the flag changes in the sidecar and in the row, which is derived first when it is missing; the bytes stay |
| Storage.ObjectStore.IsPublic | engine/internal/server/storage.go:256-268 | row first, then sidecar; an invalid key is never public |
| Storage.ObjectStore.DeleteObject | engine/internal/server/storage.go:271-286 | file, sidecar, empty parents in both trees and row go, in that order; a refused removal stops the rest |
| Storage.ObjectStore.ReindexBucket | engine/internal/server/storage.go:336-387 | fails exactly when a sidecar it must write does not fit, and then no row has changed and the sidecars are the old ones with missing ETags filled in for some of the refreshed files; otherwise the state is the rebuilt one and the answer is rows written plus rows removed; both trees stay well formed either way |
| Storage.ObjectStore.WalkFiles | engine/internal/server/storage.go:352-372 | walking the files in any order collects exactly the rows of the files that need refreshing, and sees every file; broken off, it has completed exactly the sidecars of the files seen |
| Storage.ObjectStore.IndexFromDiskFile | engine/internal/server/storage.go:391-411 | row derived from file and sidecar; a missing ETag is hashed once and written back |
| Storage.ObjectStore.WriteMetaFile | engine/internal/server/storage.go:413-427 | an all-default sidecar is removed, any other replaced; fails exactly when the path is blocked |
| Storage.ObjectStore.ListObjects | engine/internal/server/storage.go:298-329 | one page of the possibly healed index, with truncation flag and cursor; when the healing fails, no row has changed and the sidecars are the old ones with some missing ETags filled in |
| Storage.ObjectStore.CreateBucketDirectory | engine/internal/server/storage.go:101-103 | the directory is made, or nothing changes |
| Storage.ObjectStore.RemoveBucketDirectory | engine/internal/server/storage.go:105-111 | an empty directory goes, a missing one is no error, a full one is refused |
| Storage.RemoveEmptyParents | engine/internal/server/storage.go:508-515 | the loop stops with exactly those directories gone, strictly below the boundary, that held nothing but the way down to the start; nothing else changes |
| Storage.CollectDeletes | engine/internal/server/storage.go:377-382 | exactly the indexed keys the walk did not see, each once |
| Store.Tables.InsertBucket | engine/internal/server/store.go:142-149 | refused on a taken name or a taken access key, with the table unchanged; both constraints keep holding |
| Store.Tables.UpdateBucketKeys | engine/internal/server/store.go:176-180 | changes one known bucket, no row for an unknown one, and fails when another bucket owns the access key |
| Store.Tables.DeleteBucket | engine/internal/server/store.go:184-197 | the bucket row and all its index rows go together, no other |
| Store.Tables.IndexedObjects | engine/internal/server/store.go:312-327 | the scan yields exactly the rows of the bucket, under their keys |
| Store.Tables.ApplyIndexChanges | engine/internal/server/store.go:330-350 | upserts in order, later ones winning, then the deletions; nothing else |
| Paths.ResolvesStrictlyBelow | engine/internal/server/storage.go:89-99 | an accepted key names the file at its cleaned segments, strictly below the bucket directory and without climbing; refused exactly when a text check fails or nothing is left after cleaning |
| Paths.CanonicalRoundTrip | engine/internal/server/storage.go:356-360 | the walk reports a file under the key it was stored by if and only if the key has no empty or dot segment |
| Paths.WalkKeyAcceptableIff | engine/internal/server/storage.go:89-91 | the key the walk reports for a stored file is itself accepted if and only if it does not trim to nothing |
| Paths.ResolutionInjective | engine/internal/server/storage.go:83-99 | two plain paths never share a file |
| Paths.AcceptableIff | engine/internal/server/storage.go:90 | which keys pass the text checks, index by index: not blank, no leading slash, no two dots in a row, no zero byte |
| Paths.VisibleIff | engine/internal/server/storage.go:485 | which file names the walk skips, character by character |
| Text.LessIff | engine/internal/server/store.go:272 | the key order is the byte order: a proper prefix first, else the first differing byte decides |
| Text.ContainsIff | engine/internal/server/storage.go:90 | a string contains another exactly when it occurs at some index |
| FileTree.PrunedWf | engine/internal/server/storage.go:508-515 | removing empty parents keeps the tree well formed |
| FileTree.PrunedKeeps | engine/internal/server/storage.go:506-515 | pruning never takes a bucket root, a directory with a file beneath it, or one off the way down to its start |
| FileTree.DeleteTidy | engine/internal/server/storage.go:271-286 | unlinking a file and pruning leaves a file beneath every remaining directory |
| FileTree.PlaceTidy | engine/internal/server/storage.go:137-157 | creating a file with its parents leaves a file beneath every directory |
| FileTree.PlaceableByFiles | engine/internal/server/storage.go:137-157 | in a tidy tree, whether a file can be placed depends on the other files alone |
| WellFormed.PutWf | engine/internal/server/storage.go:132-172 | an upload, complete, broken off or refused, leaves both trees well formed |
| WellFormed.SetPublicWf | engine/internal/server/storage.go:230-253 | so does an ACL change, successful or not |
| WellFormed.DeleteWf | engine/internal/server/storage.go:271-286 | and a DELETE, at whichever step it stops |
| DiskLaws.PutRefines | engine/internal/server/storage.go:132-172 | a complete PUT does to the objects what a plain map of objects does, answers alike, keeps the disk invariant, and changes nothing when it fails |
| DiskLaws.DeleteRefines | engine/internal/server/storage.go:271-286 | the same for DELETE |
| DiskLaws.AbortKeepsTidyIff | engine/internal/server/storage.go:138-150 | a broken-off upload stores nothing, and keeps the disk invariant if and only if it created no directory below the bucket |
| DiskLaws.DeleteHealsAbort | engine/internal/server/storage.go:271-286 | deleting the key of a broken-off upload restores the disk invariant and ends where a DELETE without the upload ends |
| IndexLaws.OpenRefines | engine/internal/server/storage.go:175-227 | under any sound partial index, GET answers as with no index at all, and leaves one correct row |
| IndexLaws.StatAnswers | engine/internal/server/storage.go:201-227 | a lookup answers the row the object ought to have, whatever was missing |
| IndexLaws.IsPublicRefines | engine/internal/server/storage.go:256-268 | under any sound partial index the visibility check answers the sidecar's flag |
| IndexLaws.SetPublicRefines | engine/internal/server/storage.go:230-253 | an ACL change is the flag flip of the plain map, and rewrites one row |
| Answers.PutThenGet | engine/internal/server/storage.go:72-81 | a GET right after a successful PUT, in any state: the bytes, their number, the time, the MD5, the type or application/octet-stream, and the visibility asked for, which the visibility check confirms |
| Answers.PutThenList | engine/internal/server/storage.go:324-326 | a listing right after it shows the same five fields, first under the key as prefix |
| Answers.GetAnswersFile | engine/internal/server/storage.go:175-227 | every field of every answer to GET, from file and sidecar alone, under any sound partial index |
| Answers.GetMissing | engine/internal/server/storage.go:180-190 | which error a GET of no file gets: not found, unless an object lies above |
| Answers.ListAnswersFiles | engine/internal/server/storage.go:313-328 | every field of every listed object of a coherent bucket, from file and sidecar alone |
| Answers.AclThenGet | engine/internal/server/storage.go:230-253 | after an ACL change the flag is the one asked for, in GET and in the visibility check, and no other field differs |
| Answers.DeleteThenGet | engine/internal/server/storage.go:271-286 | after a DELETE the key is not found, not public and not indexed |
| IndexLaws.UpsertCoherentIff | engine/internal/server/storage.go:168-171 | writing the row of one object keeps a coherent bucket coherent if and only if the key is spelled as the walk spells it |
| IndexLaws.DropCoherentIff | engine/internal/server/storage.go:285 | dropping a row beside its object keeps coherence if and only if the key is so spelled or named no listed object |
| ReindexLaws.ReindexedKeys | engine/internal/server/storage.go:350-385 | from any rows, forced or not: one row for every walked file of the bucket, no other, and other buckets untouched |
| ReindexLaws.ReindexedRow | engine/internal/server/storage.go:363-370 | a non-forced pass keeps a hashed row of matching size, every other row is derived from file and sidecar |
| ReindexLaws.ReindexedRowIs | engine/internal/server/storage.go:363-410 | the same field by field, with the size comparison written out |
| ReindexLaws.ReindexedRowFits | engine/internal/server/storage.go:363-410 | from any rows, forced or not, every walked file ends with a hashed row of its own size |
| ReindexLaws.RefreshedIs | engine/internal/server/storage.go:363-386 | which files and rows the returned count counts: rows missing, unhashed or of the wrong size, and rows without a listed file |
| ReindexLaws.ForcedSidecar | engine/internal/server/storage.go:397-406 | after a forced pass every walked file has an ETag in its sidecar |
| ReindexLaws.ForcedEtagIsHashIff | engine/internal/server/storage.go:331-335 | the ETag a forced pass records is the hash of the bytes if and only if the sidecar held no other: a cached one is kept |
| ReindexLaws.ForcedMatchesDiskIff | engine/internal/server/storage.go:336-411 | from arbitrary rows a forced pass makes the bucket match its disk if and only if no sidecar without ETag has a content type that rewriting drops |
| ReindexLaws.ForcedIdempotentIff | engine/internal/server/storage.go:336-411 | a second forced pass changes nothing under the same condition, and only then |
| ReindexLaws.ReindexRestores | engine/internal/server/storage.go:336-387 | on a disk left by requests, a reindex writes no file and restores full coherence: from any rows when forced, from sound ones otherwise |
| ReindexLaws.ReindexKeepsOthers | engine/internal/server/storage.go:336-387 | soundness of the whole index and coherence of every other bucket survive |
| ReindexProgress.RefreshStep | engine/internal/server/storage.go:366-370 | one more file of a walk: fails if and only if its sidecar cannot be written, whatever was refreshed before |
| ListingLaws.PageFacts | engine/internal/server/storage.go:313-328 | one page: at most the limit, in order, after the cursor, each object the row of its key; a next cursor exactly when truncated, naming the last key; nothing skipped before it |
| ListingLaws.CrawlIsSafe | engine/internal/server/storage.go:298-329 | following the next cursor of each page while rows change arbitrarily between calls: strictly increasing keys, every object a row some visited index held, and at the end every matching key that was present throughout |
| ListingLaws.FixedCrawlEnumerates | engine/internal/server/storage.go:298-329 | on a fixed index the objects of the pages concatenate to the rows of the sorted matching keys, and the last page is call number Calls, not before |
| ListingLaws.CallsIsCeiling | engine/internal/server/storage.go:299-322 | that number is max(1, ceil(n / limit)) for the clamped limit |
| ListingLaws.ClampIs | engine/internal/server/storage.go:299 | a limit from 1 to 1000 is taken as it is, any other becomes the nearer of the two |
| ListingLaws.PageRefines | engine/internal/server/storage.go:313-328 | on a coherent bucket a page is the page of the plain map: keys, metadata, truncation, cursor |
| StatsLaws.StatsAreListingTotals | engine/internal/server/store.go:299-309 | the aggregate query equals count, byte sum, distinct top folders and slash-free count folded over the objects of all pages, for every prefix and limit, if and only if the query does not select a row under the empty key |
| StatsLaws.TopFolderIs | engine/internal/server/store.go:304-305 | the folder of a key is the text before its first slash |
| StatsLaws.NoEmptyKey | engine/internal/server/store.go:299-309 | no sound index has such a row |
| BucketLaws.RequestsAreIsolated | engine/internal/server/storage.go:132-286 | whatever key a request names, every other bucket keeps its files, sidecars, directories and rows |
| BucketLaws.ReindexIsIsolated | engine/internal/server/storage.go:336-387 | the same for a reindex, forced or not |
| BucketLaws.CreatedIs | engine/internal/server/storage.go:101-103 | a created bucket has its directory and nothing else has changed |
| BucketLaws.DeletableIffNoObjects | engine/internal/server/storage.go:113-127 | after completed requests a bucket can be deleted exactly when it holds no object |
| Emptying.PutKeepsAddressableIff | engine/internal/server/storage.go:89-99 | a successful PUT keeps every object deletable under its listed key if and only if its cleaned key does not trim to nothing |
| Emptying.DeletingAllEmpties | engine/internal/server/storage.go:113-127 | deleting the objects of a bucket in any order, with any other keys in between, leaves the bucket deletable and other buckets' objects in place |
| BucketLaws.RecreatedBucketIsBlank | engine/internal/server/handlers.go:115-135 | deleting and re-creating a name gives an empty listing, no public key and no readable object |
| Runs.StepSimulates | engine/internal/server/storage.go:132-411 | one request, reindex, bucket change or loss of index rows: same answer as the plain map, invariant kept |
| Runs.RunRefines | engine/internal/server/storage.go:29-32 | from an empty root, every run over canonical keys answers step by step as the plain map, with rows and ETags lost at any time |
| Runs.DriftReaches | engine/internal/server/storage.go:29-32 | the losses a run allows reach every partial index of a bucket: any rows gone, any ETags missing |
| Runs.RunsStayCoherent | engine/internal/server/storage.go:132-411 | at the end of any run each bucket that has not lost rows has exactly one row per file, with its size, MD5, content type and visibility |
| Runs.RunsLeaveDeletableBuckets | engine/internal/server/storage.go:506-515 | the same after any run, for any list that covers the keys the bucket lists |
| Runs.FirstListHeals | engine/internal/server/storage.go:295-311 | once no row of a bucket is left, the first unprefixed page is complete and the bucket coherent again |
| ReindexLaws.HealingIs | engine/internal/server/storage.go:301-311 | a listing reindexes exactly when it is unprefixed, starts at the beginning, and the bucket has a listed file but no row |
| LegacyDisks.PutKeepsMatchingIff | engine/internal/server/storage.go:132-172 | on any well-formed disk, legacy sidecars included, a successful PUT keeps every row derivable from file and sidecar if and only if the key is spelled as the walk spells it; a failed one changes nothing unless the sidecar was refused |
| LegacyDisks.RefusedPutMatchesIff | engine/internal/server/storage.go:155-163 | when the bytes were stored and the sidecar refused, the index is still right if and only if the file is not listed or its row would not have changed |
| LegacyDisks.GetKeepsMatchingIff | engine/internal/server/storage.go:175-227 | likewise a GET, which then changes nothing at all |
| LegacyDisks.SetPublicKeepsMatchingIff | engine/internal/server/storage.go:230-253 | likewise an ACL change, if and only if moreover the sidecar's content type survives rewriting |
| LegacyDisks.DeleteKeepsMatchingIff | engine/internal/server/storage.go:271-286 | likewise a DELETE, if and only if the key is canonical or named no walked file |
| LegacyDisks.RefusedDeleteMatchesIff | engine/internal/server/storage.go:277-283 | when the file is gone and its sidecar refused to go, the index is still right if and only if the file was not listed |
| LegacyDisks.TakenOverBucketStaysRight | engine/internal/server/storage.go:29-32 | from any files, sidecars and rows, after one forced reindex every run of such requests, mixed with arbitrary ones to other buckets, ends with exactly the derived rows |
| Anomalies.PutKeepsCoherentIff | engine/internal/server/storage.go:89-99 | a successful PUT keeps its bucket coherent if and only if the key is canonical and not an upload name |
| Anomalies.GetKeepsCoherentIff | engine/internal/server/storage.go:219-226 | so does a GET that finds its object |
| Anomalies.SetPublicKeepsCoherentIff | engine/internal/server/storage.go:242-252 | and an ACL change |
| Anomalies.DeleteKeepsCoherentIff | engine/internal/server/storage.go:271-286 | and a DELETE, unless it named no listed object |
| Anomalies.DoubleSlashBreaksCoherence | engine/internal/server/storage.go:94 | a concrete family of keys on which the index and the walk part |
| Anomalies.AliasGetBreaksCoherence | engine/internal/server/storage.go:219-226 | reading any object x/y as x//y |
| Anomalies.AliasAclBreaksCoherence | engine/internal/server/storage.go:242-252 | changing its visibility as x//y |
| Anomalies.AliasDeleteBreaksCoherence | engine/internal/server/storage.go:271-286 | deleting it as x//y: the file goes, its row stays |
| Anomalies.BlankWalkKeyIsRefused | engine/internal/server/storage.go:89-94 | a concrete key whose file is listed under a name every request refuses, so the bucket cannot be emptied by its listing |
| Anomalies.AbortBlocksBucketDeletion | engine/internal/server/storage.go:138-150 | a concrete upload that breaks off and leaves a bucket without objects that cannot be deleted |
| Anomalies.DeleteSucceedsIff | engine/internal/server/storage.go:270-286 | a DELETE of an acceptable key succeeds if and only if no other key lies above or below it |
| Anomalies.DeleteAboveFails | engine/internal/server/storage.go:270-279 | beside any object x/y, a DELETE of the absent key x fails |
| Anomalies.StaleEtagSurvives | engine/internal/server/storage.go:331-335 | a concrete sidecar whose stale ETag a forced reindex copies into the row |
| Anomalies.LegacyReindexNotIdempotent | engine/internal/server/storage.go:397-410 | a concrete legacy sidecar on which two forced passes disagree |
| Anomalies.LegacyAclDisagrees | engine/internal/server/storage.go:238-252 | a concrete legacy sidecar whose content type an ACL change drops and the row keeps |
| Words.BitwiseBit | engine/wwwroot/app.js:195-206 | each bit of a bitwise operation is the operation on the bits of its operands |
| Words.JsTruncate | engine/wwwroot/app.js:205-209 | truncation to 32 bits, read as a word, is the sum modulo 2^32 |
| Bits.BitIs | engine/wwwroot/app.js:195-206 | bit i of a number is the parity of its quotient by 2^i |
| Bits.LogicBits | engine/wwwroot/app.js:199-206 | and, or and exclusive-or, bit by bit |
| Bits.NotBit | engine/wwwroot/app.js:205 | the complement, bit by bit |
| Bits.ShrBit | engine/wwwroot/app.js:195-200 | a right shift by n moves bit i + n to bit i |
| Bits.ShlBit | engine/wwwroot/app.js:195 | a left shift by n moves bit i - n to bit i and fills with zeros |
| Bits.RotrBit | engine/wwwroot/app.js:195 | a rotation by n moves bit (i + n) mod 32 to bit i |
| Bits.SigmaBits | engine/wwwroot/app.js:199-206 | the four sigma functions by the three bits they add modulo two |
| Bits.ChBit | engine/wwwroot/app.js:205 | choice: the first word selects between the other two, bit by bit |
| Bits.MajBit | engine/wwwroot/app.js:206 | majority of three bits |
| Bits.SameBits | engine/wwwroot/app.js:195-206 | a word is determined by its bits, so these laws determine every operation |
| Bits.WordBytesValue | engine/wwwroot/app.js:190-214 | four bytes, most significant first, add up to the word |
| Fips180.PadLength | engine/wwwroot/app.js:186 | the standard's padding is the least multiple of 64 with room for marker and length |
| Fips180.LengthBlockValue | engine/wwwroot/app.js:190-191 | the two length words are high * 2^32 + low == 8 * length |
| Fips180.PadInjective | engine/wwwroot/app.js:185-191 | equal padded messages come from equal messages |
| Sha256Script.PaddedLengthIs | engine/wwwroot/app.js:186 | the shifts compute the standard's padded length for every length below the 32-bit limit |
| Sha256Script.PadBuffer | engine/wwwroot/app.js:185-191 | allocates the standard's padding of the input exactly when the length is below 2^31 - 72; a RangeError beyond |
| Sha256Script.FillSchedule | engine/wwwroot/app.js:197-202 | W is the message schedule of section 6.2.2 of FIPS 180-4, through signed intermediate values |
| Sha256Script.ScriptConstantsAre | engine/wwwroot/app.js:173-182 | the script's table is the table of section 4.2.2 of FIPS 180-4, entry for entry |
| Sha256Script.RoundIs | engine/wwwroot/app.js:204-209 | one iteration over signed and unsigned numbers is one round of the standard, modulo 2^32 |
| Sha256Script.Compress | engine/wwwroot/app.js:203-210 | sixty-four rounds and the addition into H are one block of the standard |
| Sha256Script.HashPadded | engine/wwwroot/app.js:196-211 | the block loop computes the hash value after all blocks |
| Sha256Script.Sha256Of | engine/wwwroot/app.js:184-216 | SHA-256 of FIPS 180-4 for every input below the limit, a RangeError at and above it |
| Sha256Script.FillPads | engine/wwwroot/app.js:222-226 | both pads are the zero-filled key combined with the constants of RFC 2104, for every key length up to 64 |
| Sha256Script.HmacSha256 | engine/wwwroot/app.js:218-230 | HMAC of RFC 2104 for every key and message within the limit, over-long keys hashed first; a RangeError exactly beyond |
| HeaderAuth.HexDigitsAgree | engine/wwwroot/app.js:166 | the script prints a code as the server does |
| HeaderAuth.BytesOfIs | engine/wwwroot/app.js:161-164 | secret and message are hashed byte by byte as they are |
| HeaderAuth.ZeroExtendedSecretsAgree | engine/internal/server/crypto.go:89-93 | the standard MAC gives a short secret and its extension by a zero byte the same codes, so no signature result rests on codes being different |
| HeaderAuth.HmacSha256Hex | engine/wwwroot/app.js:157-167 | the fallback yields the server's signature under the standard MAC |
| HeaderAuth.BuildAuthHeader | engine/wwwroot/app.js:232-237 | the header carries the server's signature of the same method, path and time |
| Decimal.ParseFormat | engine/internal/server/crypto.go:84-86 | printing and parsing an integer are inverse, within 64 bits and beyond |
| Decimal.FormatInjective | engine/internal/server/crypto.go:84-86 | two integers never print alike |
| Decimal.ParseSignedIs | engine/internal/server/auth.go:138 | a sign, then digits weighing in tens |
| Decimal.ParseIntIff | engine/internal/server/auth.go:138 | a number is an optional sign and at least one digit, within 64 bits |
| Signing.StringToSignInjective | engine/internal/server/crypto.go:84-86 | different method, path or time give different strings, for newline-free methods, any path and any integer |
| Signing.StringToSignSplits | engine/internal/server/crypto.go:84-86 | split at newlines it is the method, the pieces of the path, the time |
| Signing.HexInjective | engine/internal/server/crypto.go:89-93 | different codes print differently |
| Signing.LowerHexDigitIs | engine/internal/server/crypto.go:92 | the sixteen digits, in lower case |
| Signing.SameSignature | engine/internal/server/crypto.go:89-98 | two secrets give one signature exactly when their codes agree |
| Url.EscapeDataString | engine/internal/server/handlers.go:361-372 | the builder loop yields the percent-encoding |
| Url.UnescapeEscape | engine/internal/server/handlers.go:361-372 | decoding undoes encoding for every byte string, in a path and in a query |
| Url.UnreservedIff | engine/internal/server/handlers.go:365 | which bytes are printed as they are |
| Url.EscapeByteIs | engine/internal/server/handlers.go:366-369 | every other byte is a percent sign and two upper-case digits |
| Url.UnescapeRefuses | engine/internal/server/auth.go:65-68 | a percent sign without two digits after it is refused |
| Url.LookupIff | engine/internal/server/auth.go:94-124 | the first of several values of a parameter counts |
| Url.EscapedPathDecodes | engine/internal/server/handlers.go:346-350 | the path printed segment by segment decodes, once, to the path that was signed |
| Url.EscapedPathChars | engine/internal/server/handlers.go:346-350 | nothing printed for a path can end it early |
| Presign.PresignUrl | engine/internal/server/handlers.go:317-352 | which requests are refused and with which error; otherwise the printed URL expires the requested time from now |
| Presign.PresignRefusedIff | engine/internal/server/handlers.go:317-325 | exactly the requests with a key that is not blank, GET or PUT, and one second to seven days pass |
| Presign.PresignedTargetParses | engine/internal/server/handlers.go:350-352 | parsing a printed URL gives back the signed path and the three parameters |
| Presign.SignedPathMatches | engine/internal/server/auth.go:16-17 | an object path matches both patterns for its own bucket and key, and neither when the key has a newline |
| Patterns.BucketPatternIff | engine/internal/server/auth.go:16 | the bucket is found exactly when the whole path has the expression's form; the dot excludes newlines |
| Patterns.ObjectPatternIff | engine/internal/server/auth.go:17 | likewise for bucket and key |
| Patterns.HeaderPatternIff | engine/internal/server/auth.go:18 | likewise for the three header fields, white space included |
| Routes.SpaceIff | engine/internal/server/auth.go:18 | the white space of the header pattern, by character codes |
| Routes.TrimIs | engine/internal/server/auth.go:90 | trimming takes the white space of both ends and nothing else |
| Auth.RouteBucketIsPathBucket | engine/internal/server/server.go:103-127 | no handler runs for a bucket other than the one the filter reads off the path |
| Routes.CollectionRoutes | engine/internal/server/server.go:111-116 | listing, totals and presigning: one literal path and one method each |
| Routes.ObjectRoutes | engine/internal/server/server.go:117-121 | GET and HEAD read, PUT writes, DELETE deletes, nothing else, with the key everything after the slash |
| Routes.AclRoute | engine/internal/server/server.go:122-124 | PUT on an acl path reaches setACL for that key, any other method nothing |
| Routes.SetAclOnlyByPut | engine/internal/server/server.go:122-124 | setACL is reached by nothing else |
| Routes.NoOtherRoute | engine/internal/server/server.go:125-126 | any other path below a bucket is not found |
| Routes.TopRoutes | engine/internal/server/server.go:79-83 | health and the bucket collection, by method |
| Routes.AdminRoutes | engine/internal/server/server.go:85-101 | delete, rotate and reindex: one literal path and one method each |
| Routes.StaticRoute | engine/internal/server/server.go:129-130 | every other path belongs to the console |
| Routes.OnlyTheseAreUnguarded | engine/internal/server/handlers.go:169-178 | no handler that touches objects runs without the filter's bucket |
| Auth.ReadRoute | engine/internal/server/server.go:118-122 | a read of a path the object pattern matches reaches getObject for that very key |
| Auth.ActsIff | engine/internal/server/auth.go:66-135 | a handler acts exactly when its bucket exists, is the one the filter resolved, and the request reads a public object or authenticates as that bucket |
| Auth.PublicReachesOnlyGet | engine/internal/server/auth.go:77-86 | the bypass reaches only getObject, for the key whose visibility was checked |
| Routes.PublicMethods | engine/internal/server/auth.go:77 | the bypass is open to GET and HEAD and to nothing else |
| Routes.PresignedDeleteRefused | engine/internal/server/auth.go:121-132 | a presigned request with a method other than GET, PUT or HEAD is refused whatever its signature |
| Routes.QueryKeyWins | engine/internal/server/auth.go:92-98 | an access key in the query wins over one in the header |
| Auth.SkewIs | engine/internal/server/auth.go:153-159 | 64-bit skew is within the limit exactly when the true distance is, or when the timestamp lies exactly 2^63 seconds back |
| Gateway.AnonymousReadsExactlyPublic | engine/internal/server/auth.go:77-86 | without credentials a read is served exactly when its path names a public object of an existing bucket, with that object's bytes, under any sound partial index |
| HeaderAuth.HeaderParses | engine/internal/server/auth.go:18 | what the script prints is parsed back to the same three fields |
| HeaderAuth.SignedRequestIsFiltered | engine/internal/server/auth.go:88-133 | every outcome of a header-signed request under whatever credentials the bucket has by now |
| HeaderAuth.OwnHeaderWithinSkew | engine/internal/server/auth.go:145-161 | a header signed with the bucket's own pair passes if and only if its time is within the skew or exactly 2^63 seconds back |
| HeaderAuth.WrappedSkewPasses | engine/internal/server/auth.go:153-159 | the concrete timestamp on which the distance wraps, and the request signed for it that passes |
| PresignLaws.PresignedUrlIsServed | engine/internal/server/auth.go:66-143 | every outcome of following a presigned URL: status and handler, at any time and in any state of the credentials |
| PresignLaws.PresignedUntilExpiryOrRotation | engine/internal/server/handlers.go:330-352 | for every MAC, a URL of a private object or an upload works if and only if it has not expired and the bucket's pair is still the signer's, an access key never having been given out with two secrets |
| PresignLaws.SignatureBindsRequest | engine/internal/server/auth.go:137-143 | for every MAC, a request served on a presigned signature has the signed method, path, expiry and secret, or is itself a collision of the MAC |
| Admin.AdminApi.CreateBucket | engine/internal/server/handlers.go:46-89 | table, disk and answer after a creation, including the row taken back when the directory fails |
| Admin.AdminApi.RotateBucketKey | engine/internal/server/handlers.go:140-151 | one new pair in the table; files, sidecars and index rows unchanged |
| Admin.AdminApi.DeleteBucket | engine/internal/server/handlers.go:115-135 | refused unless the directory is empty; then the bucket row, its index rows and its directory go |
| Admin.DeletesEmptyBuckets | engine/internal/server/handlers.go:115-135 | after completed requests, a known bucket is deleted exactly when it holds no object, and otherwise nothing changes |
| Credentials.BucketNameIff | engine/internal/server/handlers.go:30 | a valid name is what the expression denotes, group by group |
| Credentials.CreateAnswers | engine/internal/server/handlers.go:57-86 | which answer a creation gets and what a refused one leaves |
| Credentials.RotateAnswers | engine/internal/server/handlers.go:141-148 | which answer a rotation gets; the object layer never changes |
| Credentials.DeleteAnswers | engine/internal/server/handlers.go:117-132 | which answer a deletion gets, and exactly what a successful one removes |
| Credentials.CurrentPairIsLastIssued | engine/internal/server/store.go:155-197 | over every run of creations, rotations, deletions and traffic, failures included, the table holds a pair exactly when it is the last one issued to the current incarnation |
| Credentials.SameKeySamePair | engine/internal/server/store.go:68-68 | over every run with fresh keys, a bucket that has a generated pair's access key has that very pair |
| Credentials.RunNamesAreBucketNames | engine/internal/server/handlers.go:57-58 | only valid bucket names ever reach the table |
| Credentials.CredentialHistory | engine/internal/server/auth.go:92-133 | over every run with fresh keys and for every MAC, a generated pair authenticates on the bucket's path if and only if it is the last pair issued to the bucket's current incarnation |
| Credentials.PresignHistory | engine/internal/server/handlers.go:137-139 | over every run with fresh keys and for every MAC, a presigned URL works if and only if it has not expired and its signer is that last pair |
| Credentials.FreshKeysSucceed | engine/internal/server/handlers.go:63-86 | with fresh keys a creation fails only for its name or its directory, a rotation only for an unknown name |
| Credentials.SupersededForGood | engine/internal/server/handlers.go:137-139 | with fresh keys a superseded access key never belongs to any bucket again |

## Left out

- Storage.ObjectStore.PutObject: the temporary file's name is a parameter assumed new in its directory and different from the target's, so a key that is itself spelled like the temporary file in flight is not modelled.
- Runs.RunRefines: keys of a run are canonical and not spelled like upload files; for other keys the exact condition is in `Anomalies`. Uploads of a run are complete; broken-off ones are in `DiskLaws.AbortKeepsTidyIff` and `DiskLaws.DeleteHealsAbort`.
- Url.EscapedPathDecodes: the decoder models percent-decoding only; other reasons for `net/http` to reject a request line (control characters, missing leading slash) do not arise for printed URLs and are not modelled.
- HeaderAuth.HeaderParses: only ASCII white space other than the vertical tab is trimmed from the header.
- Presign.PresignUrl: scheme and host, taken from configuration or request, precede the printed target and are not modelled.
- Credentials.CredentialHistory: encryption of secrets at rest is an inverse pair, so rows hold the plaintext; a decryption error is not modelled.
- Operations that interleave: a reindex or a second PUT beside an in-flight PUT or DELETE, and crashes between rename and sidecar write.
- Disk faults, permissions and full disks: system calls fail only where the tree makes them fail.
- MD5, "trims to nothing", "usable as a header", the clock and the server's MAC are parameters.
- SQLite, `net/http`, Range and conditional requests, the regular expression engine, JSON and AES-GCM are library code; tables are maps ordered by byte string, sidecars lossless records, and bare-string sidecars of older versions enter as the record they are read as.
- Timestamps are opaque integers; the 100 ns text form is not modelled.
- Descriptions and creation times of buckets, bucket listing, `adminAuth`, `cacheControl`, configuration, health and error bodies: no state and one branch each.
- Web Crypto in the browser, the console's user interface and `serveStatic`.
- A typed array's memory limit below 2^31 bytes, and messages of 2^61 bytes and more, on which the standard is silent.
