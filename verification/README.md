# Snapshot key-value store: model and proofs

The system serves fixed-size key-value pairs (64-byte keys, 256-byte values) out of snapshot
files. A builder collects pairs, builds a minimal perfect hash index over the keys, and lays out
one file: a 4096-byte header, the framed index, zero padding to a page boundary, and one 320-byte
record per slot. A store opens such a file and answers lookups through the index, checking the
stored key. A service answers gets and batches from the current snapshot while it may be replaced
at any moment. A validator samples lookups, checks expected pairs and compares two snapshots.

This project models that life cycle in Dafny and proves what it is for.

| file | content |
|---|---|
| `Wrappers.dfy`, `Seqs.dfy` | outcomes (`Done`, `Failed`, `Panicked`), facts about sequences, buffer writes |
| `Words.dfy` | 64-bit words: wrap-around, bit masks, little-endian bytes |
| `Records.dfy`, `Headers.dfy`, `Hex.dfy` | record blocks, header codec and layout arithmetic, hex text |
| `Mphfs.dfy` | the index, its framing, the contract of the hash crate, and a key table that meets it |
| `Stores.dfy` | opening, lookup, enumeration |
| `Builders.dfy`, `Snapshots.dfy` | the builder, and what a built file is worth once opened |
| `Imports.dfy` | raw, generated and textual input |
| `Validators.dfy`, `Diffs.dfy` | sampled check, expected pairs, comparison of two snapshots |
| `Servers.dfy` | the service object and the meaning of a call |
| `Interleavings.dfy`, `Runs.dfy` | the service as a transition system, and theorems over every run |
| `Lifecycle.dfy` | built snapshots served under reloads |

## How the model is set up

- Arithmetic on `usize`/`u64` wraps, as in the release profile (the workspace turns overflow checks
  on nowhere). `Outcome` separates an `Err` from a panic, so parsing and building are total.
- A hash function is what can be observed of it: the slot for a key and the bytes it writes. The
  crate is two arbitrary functions. `Mphfs.Contract` is the only assumption: on different build
  keys the function is defined, below their number and injective, and what it writes can be read
  back. Unknown and duplicate keys are left open. `KeyTables.TableMeetsContract` shows the
  assumption can be met.
- SHA-256 (section 6.2 of FIPS 180-4) is some function from bytes to 32 bytes.
- The current time, random draws, random sample positions and parsed rows of text are parameters.
- The service is modelled twice: as an object whose methods run one after the other, and as
  interleaved requests in which loading the cell, each lookup and each counter increment is a step
  of its own. `Servers.Meaning` and `Servers.Effect` say what a call answers and counts in one
  snapshot; both forms are proved against them.

## What turned out differently from the documentation or from what one would expect

- The documentation of `open` lists a checksum error. The code never compares the checksum.
  `Stores.OpenIgnoresRecords` proves that opening looks at the header and the index section only;
  by `Stores.OtherRecordsStillOpen` a file whose data section is replaced by one of the same length
  with another hash still opens, with all fields as before, while verifying its checksum fails.
- The size check in `open` can wrap. `Stores.OpenedSlices` proves that the records of an opened file
  are inside the file exactly when the data section ends below 2^64. For every index body that the
  crate reads, in particular every one it wrote for keys it serves, `Stores.WrappedSizeIsAccepted`
  gives an accepted file of 4104 bytes and the body for which this fails.
- A finished file that was cut short is not always reported as too small: when the cut is inside the
  index, opening panics (`Snapshots.CutFilesDoNotOpen`; `Stores.OpenOutcome` for every file).
- The builder accepts more than 10^10 records. Such a file is written whenever it fits and never
  opens (`Imports.TooManyNeverOpens`); `Imports.TooManyAreBuilt` shows inputs that fit.
- The hex reader accepts a plus sign before a single digit: re-encoding gives the lower-cased text
  exactly when there is no plus sign (`Hex.EncodeDecode`, `Hex.PlusIsAccepted`).
- A full passing check does not certify the index on its own: it needs pairwise different stored
  keys (`Validators.FullSampleCertifies`). Whichever two keys a crate serves,
  `Validators.PassAloneDoesNotCertify` gives an accepted file that passes every sample in full
  although its index is not right.
- An expected value longer than 256 bytes for a stored key stops the validator instead of counting
  as a failure (`Validators.JudgeMeaning`); `Validators.VerifyMeaning` gives the exact condition for
  getting through the list.
- A rejected batch has already counted the lookups before its first bad key, and is not counted as a
  request (`Servers.Effect`, `Runs.CountersAreConserved`).
- The architecture document gives another magic number than the code; the model has the code's.

## Model

| member | source | states |
|---|---|---|
| Snapshots.BuildThenOpen | crates/snapshot-builder/src/builder.rs:52-152 | for every non-empty list of pairs whose keys the crate serves (under its contract: whose keys are different), the built file opens exactly when it has at most 10^10 records; then the index is right, enumeration yields each pair once, and lookup finds exactly the pairs |
| Builders.SnapshotBuilder.Build | crates/snapshot-builder/src/builder.rs:52-152 | exactly when building fails and with which error, exactly when it panics, exactly when it finishes, and then every byte of the finished file: header with the checksum of the data section, framed index, zero padding, and in each slot the last pair sent there, or zeros |
| Builders.SnapshotBuilder.LayOut | crates/snapshot-builder/src/builder.rs:76-139 | the in-place layout: index, padding, records, header last |
| Builders.SnapshotBuilder.PlaceIndex | crates/snapshot-builder/src/builder.rs:98-112 | the zeroed file with the index behind the header and zeros up to the data section |
| Builders.SnapshotBuilder.WriteRecords | crates/snapshot-builder/src/builder.rs:116-123 | the slot loop fills every slot with the last pair sent there, leaves everything before the data section unchanged, and is incomplete exactly when some key has no slot |
| Builders.SnapshotBuilder.WriteRecord | crates/snapshot-builder/src/builder.rs:118-122 | writing one record changes its own slot and nothing else |
| Builders.SnapshotBuilder.Seal | crates/snapshot-builder/src/builder.rs:125-139 | the header is written over the first 4096 bytes with the checksum taken before |
| Builders.SealedIsSnapshot | crates/snapshot-builder/src/builder.rs:125-139 | the late header write leaves index, padding, records and the checksummed bytes as they were, for every index size |
| Builders.LastPairStays | crates/snapshot-builder/src/builder.rs:116-123 | for any index, a slot ends up with the last of the pairs sent to it |
| Builders.UnusedSlotIsZero | crates/snapshot-builder/src/builder.rs:93-123 | a slot no pair is sent to stays zero |
| Builders.SnapshotBuilder.AddRecord | crates/snapshot-builder/src/builder.rs:36-39 | appends the pair to the pairs collected |
| Builders.SnapshotBuilder.constructor | crates/snapshot-builder/src/builder.rs:20-25 | starts with no pairs |
| Builders.SnapshotBuilder.Len | crates/snapshot-builder/src/builder.rs:42-44 | the number of pairs collected |
| Builders.SnapshotBuilder.IsEmpty | crates/snapshot-builder/src/builder.rs:47-49 | whether no pair has been collected |
| Builders.LayoutTiles | crates/snapshot-builder/src/builder.rs:76-80 | with at most 10^10 records and an index of up to 2^62 bytes nothing overflows, the sections tile the file with less than a page of padding, and the size is the one opening demands |
| Snapshots.SlotKeepsItsPair | crates/snapshot-builder/src/builder.rs:117-123 | with a perfect function no pair is overwritten by another |
| Snapshots.BuiltPlacement | crates/snapshot-builder/src/builder.rs:117-123 | the slots of the keys are pairwise different and are all slots, so no zero-filled record is left |
| Snapshots.BuildNeverPanics | crates/snapshot-builder/src/builder.rs:117-118 | for keys the crate serves, every key has a slot, so the builder's `expect` is never reached |
| Snapshots.BuildUnderContract | crates/snapshot-builder/src/builder.rs:52-152 | under the crate's contract, building pairs with different keys never panics, and finishes exactly when there is a pair, the index can be written and the file fits |
| Snapshots.OpenSnapshot | crates/kv-store/src/store.rs:88-148 | opening a built file succeeds exactly up to 10^10 records and then gives the same slot for every key, known or not, and the builder's count, offset and timestamp |
| Snapshots.OpenedContent | crates/kv-store/src/store.rs:164-183 | an opened snapshot looks up and enumerates exactly the pairs it was built from |
| Snapshots.SnapshotBytes | crates/snapshot-builder/src/builder.rs:76-139 | a finished file byte by byte up to its records: magic, version, count, index size, data offset, timestamp and checksum at their offsets, reserved bytes zero, the count and the index body, zeros up to a 4096-byte boundary |
| Snapshots.PairBytes | crates/snapshot-builder/src/builder.rs:116-123 | the 320 bytes at the slot of a pair's key are its key and then its value |
| Snapshots.CutFilesDoNotOpen | crates/kv-store/src/store.rs:88-126 | no strict prefix of a finished file opens, and how each one fails |
| Snapshots.ChecksumHolds | crates/kv-store/src/header.rs:147-157 | the finished file parses exactly up to the record limit, and then its stored checksum verifies against its data section |
| Snapshots.OrderDoesNotMatter | crates/snapshot-builder/src/builder.rs:106-139 | with the same index and timestamp, any order of the same pairs gives byte-identical files |
| Snapshots.PerfectOnPermutation | crates/kv-store/src/mphf.rs:12-13 | a function perfect on some keys is perfect on them in any order |
| Stores.OpenedFields | crates/kv-store/src/store.rs:88-148 | every accepted file, whoever wrote it, has a valid header, an index with as many keys as records, and the size that was checked |
| Stores.OpenOutcome | crates/kv-store/src/store.rs:88-148 | for every file with a valid header, exactly when opening panics, each of its errors with its cause in the bytes, and success otherwise |
| Stores.OpenedSlices | crates/kv-store/src/store.rs:118-126 | all record slices of an accepted file are inside it exactly when the data section ends below 2^64 |
| Stores.WrappedSizeIsAccepted | crates/kv-store/src/store.rs:118-126 | around every index body the crate reads there is an accepted file whose first record slice is outside it |
| Stores.OpenCrafted | crates/kv-store/src/store.rs:88-148 | a file put together by hand is accepted, with the fields it claims, when the crate reads its index body and the wrapping size check passes |
| Stores.OpenIgnoresRecords | crates/kv-store/src/store.rs:78-148 | opening, and every field of the opened store but the file itself, depends on the size, the header and the index section only, not on the records or their checksum |
| Stores.OtherRecordsStillOpen | crates/kv-store/src/header.rs:147-157 | an accepted file with other records of another hash is still accepted, and verifying the checksum reports the mismatch |
| Stores.GetReads | crates/kv-store/src/store.rs:164-183 | for any file and any index, a lookup finds a value exactly when the record at the slot of the key starts with the key, and then the value is the rest of that record's bytes |
| Stores.IterBytes | crates/kv-store/src/store.rs:244-256 | enumeration yields the first 64 and the last 256 bytes of each record |
| Stores.GetIsSound | crates/kv-store/src/store.rs:164-183 | for any file and any hash function, a found value is stored under that very key |
| Stores.WellIndexedGet | crates/kv-store/src/store.rs:164-183 | with a right index, lookup is the linear scan of the records, for every key |
| Stores.WellIndexedIffScan | crates/kv-store/src/store.rs:164-183 | the index is right exactly when stored keys differ and lookup agrees with the linear scan on all keys |
| Stores.KvStore.Iter | crates/kv-store/src/store.rs:251-256 | the records of all slots in slot order |
| Stores.ScanRecords | crates/kv-store/src/store.rs:17-18 | the reference: finds a stored pair, and fails only for a key that is not stored |
| Headers.AlignTo4k | crates/kv-store/src/header.rs:162-164 | the bit mask computes the least multiple of 4096 not below the value, and 0 for exactly the values whose sum wraps |
| Headers.DecodeOutcome | crates/kv-store/src/header.rs:64-123 | which bytes are rejected and with which error, in the order of the checks, and which bytes each field is read from otherwise |
| Headers.DecodeEncode | crates/kv-store/src/header.rs:93-138 | parsing a written header gives it back for exactly the headers that validate, and the validation error otherwise |
| Headers.EncodeDecode | crates/kv-store/src/header.rs:93-138 | writing a parsed header keeps bytes 0..48 and 64..96 and zeroes the rest |
| Headers.EncodeSegments | crates/kv-store/src/header.rs:129-135 | which field is at which offset |
| Headers.Header.ToBytes | crates/kv-store/src/header.rs:126-138 | the array filled in place holds the header's layout |
| Words.LeDigit | crates/kv-store/src/header.rs:129-134 | byte i of a written word is its base-256 digit of weight 256^i, so the lowest byte comes first |
| Words.LeRoundTrip | crates/kv-store/src/header.rs:101-106 | reading the little-endian bytes of a word gives the word |
| Words.LeInverse | crates/kv-store/src/header.rs:129-134 | writing the value of eight bytes gives the bytes |
| Words.AndNotLow | crates/kv-store/src/header.rs:163 | masking with a complemented run of ones clears exactly the low bits |
| Mphfs.Mphf.Get | crates/kv-store/src/mphf.rs:80-90 | the inner function's own answer when it is below the key count, and otherwise absent |
| Mphfs.Mphf.Serialize | crates/kv-store/src/mphf.rs:110-121 | the buffer holds the framed index, or writing failed |
| Mphfs.DeserializeFramed | crates/kv-store/src/mphf.rs:110-140 | reading back gives the same count and the same slot for every key, unknown ones included |
| Mphfs.ContractServes | crates/kv-store/src/mphf.rs:28-66 | under the contract the crate serves a non-empty list of keys exactly when the keys are pairwise different |
| Mphfs.PerfectSlots | crates/kv-store/src/mphf.rs:12-13 | a perfect function has different keys and uses every slot once |
| KeyTables.TableMeetsContract | crates/kv-store/src/mphf.rs:28-66 | an explicit key table with its own bytes meets the assumption made about the hash crate |
| Records.RecordRoundTrip | crates/kv-store/src/record.rs:55-64 | reading and writing a record are inverse |
| Records.SpliceBlock | crates/snapshot-builder/src/builder.rs:119-122 | distinct slots are disjoint ranges |
| Imports.ReadBinary | crates/snapshot-builder/src/main.rs:209-239 | the input is rejected exactly when its size is no multiple of 320, and otherwise cut in order into records of 64 bytes of key and 256 bytes of value |
| Imports.BuildFromBinary | crates/snapshot-builder/src/main.rs:203-248 | exactly how importing ends: wrong size and empty input are errors, then the outcome of building the input's records, and a finished file is their snapshot; with different keys and under the crate's contract it never panics and finishes exactly when the file can be written |
| Imports.BuiltDataSection | crates/snapshot-builder/src/main.rs:203-248 | the data section of a built file is a block permutation of the pairs |
| Imports.ReimportKeepsLookups | crates/snapshot-builder/src/main.rs:203-248 | under the crate's contract, the data section of a file imported from records with different keys has a size the import accepts, holds the same records, and importing it gives a store with the same lookups |
| Imports.GeneratedKeysDistinct | crates/snapshot-builder/src/main.rs:271-277 | generated keys are pairwise different whatever was drawn |
| Imports.GenerateKey | crates/snapshot-builder/src/main.rs:272-277 | the first 8 bytes of the key are the index, the other 56 the drawn bytes |
| Imports.BuildRandom | crates/snapshot-builder/src/main.rs:250-291 | the file is the snapshot of the generated records; since their keys differ, under the crate's contract generating never panics and finishes exactly when there is a record and the file can be written |
| Imports.TooManyNeverOpens | crates/snapshot-builder/src/builder.rs:52-152 | more than 10^10 records with keys the crate serves are built exactly when the file can be written, and no such file opens |
| Imports.TooManyAreBuilt | crates/snapshot-builder/src/main.rs:250-291 | there are such inputs: any number of generated records above 10^10 and up to 2^53, with an explicit key table as index |
| Imports.Pad | crates/snapshot-builder/src/main.rs:361-375 | each leading byte of the text keeps its place, and zeros fill the rest of the fixed size |
| Imports.PaddedBytes | crates/snapshot-builder/src/main.rs:361-375 | the same of the padded text used in the other claims |
| Imports.SamePaddedIff | crates/snapshot-builder/src/main.rs:361-375 | two texts give the same key exactly when their cut prefixes agree after trailing zeros are stripped |
| Imports.BuildFromRows | crates/snapshot-builder/src/main.rs:171-197 | exactly how building the padded columns of the rows ends, and a finished file is their snapshot; when the padded keys differ, under the crate's contract it never panics and finishes exactly when the file can be written |
| Hex.DecodeEncode | crates/validator/src/main.rs:417-427 | decoding encoded bytes gives the bytes |
| Hex.DigitTable | crates/validator/src/main.rs:417-427 | the sixteen digits are the characters 0-9 and a-f in either case, and the lower-case ones are written |
| Hex.EncodeDigits | crates/validator/src/main.rs:417-419 | each byte is written as its high digit and then its low digit |
| Hex.DecodeBytes | crates/validator/src/main.rs:421-427 | each byte of accepted text is read from its own pair of characters |
| Hex.PairMeaning | crates/validator/src/main.rs:424 | two characters read as a byte exactly when they are its two digits, or a plus sign and its only digit |
| Hex.DecodeOutcome | crates/validator/src/main.rs:421-427 | by ranges of characters, which texts are accepted, which are errors, and which stop the program |
| Hex.EncodeDecode | crates/validator/src/main.rs:417-427 | re-encoding accepted text gives its lower-case form exactly when it has no plus sign |
| Hex.DigitsRoundTrip | crates/validator/src/main.rs:417-427 | even-length text of 0-9, a-f and A-F is accepted and re-encodes to its lower-case form |
| Hex.PlusIsAccepted | crates/validator/src/main.rs:421-427 | the text "+5" is accepted and does not survive the round trip |
| Validators.CheckSnapshot | crates/validator/src/main.rs:158-251 | the counts, the status and the result for any choice of sample positions |
| Validators.HitsMeaning | crates/validator/src/main.rs:197-213 | the number reported as passed is the number of sampled positions whose stored key is found |
| Validators.LookUpAll | crates/validator/src/main.rs:197-213 | the loop counts the sampled keys that are found and those that are not |
| Validators.FullSampleCertifies | crates/validator/src/main.rs:171-228 | a sample of full size passes exactly when every stored key is found; with different stored keys, exactly when the index is right |
| Validators.PassAloneDoesNotCertify | crates/validator/src/main.rs:200-228 | whichever two keys the crate serves, there is an accepted file that passes every sample in full with a wrong index |
| Validators.VerifyExpected | crates/validator/src/main.rs:253-315 | stops with the error of the first pair that cannot be judged, and counts matching and differing pairs |
| Validators.CountVerdicts | crates/validator/src/main.rs:265-303 | the counting loop over the pairs |
| Validators.JudgeMeaning | crates/validator/src/main.rs:268-300 | a pair of hex texts is judged exactly when it expects no more bytes of a stored value than there are, and otherwise stops the program; when it is judged, it matches exactly when its key is in the map with a value that starts with the expected bytes, and other key lengths are skipped |
| Validators.VerifyMeaning | crates/validator/src/main.rs:253-315 | verifying gets through the list exactly when every pair can be judged; then passed, failed and skipped are the numbers of pairs whose key maps to a value with the expected prefix, of the other pairs with a 64-byte key, and of the rest, and they add up |
| Validators.VerdictsPartition | crates/validator/src/main.rs:268-303 | matching, differing and skipped pairs add up to all pairs judged |
| Diffs.DiffSnapshots | crates/validator/src/main.rs:360-412 | the two loops compute the counts and print the first differences in slot order, for any two indexes |
| Diffs.CompareA | crates/validator/src/main.rs:374-393 | the first loop counts keys missing in the other store and keys with another value |
| Diffs.CompareB | crates/validator/src/main.rs:395-404 | the second loop counts keys missing in the first store |
| Diffs.DiffIsMapDifference | crates/validator/src/main.rs:369-412 | for right indexes the counts are the sizes of the map differences, the total is 0 exactly when the maps are equal, and both stores keep the same number of shared keys |
| Diffs.DiffMirrors | crates/validator/src/main.rs:360-412 | swapping the stores mirrors the counts |
| Diffs.ShownFromA | crates/validator/src/main.rs:374-393 | where the line of each difference in the first loop is printed, its kind and its key bytes |
| Diffs.ShownFromB | crates/validator/src/main.rs:395-404 | where the line of each key missing in the first store is printed |
| Diffs.ShownCount | crates/validator/src/main.rs:379-402 | as many lines are printed as there are differences, up to the limit |
| Servers.KvServiceImpl.Get | crates/kv-server/src/server.rs:43-91 | a key of another length is rejected and counted as an error; otherwise the reply says whether the store has the key and with which value, and exactly a hit or a miss, the latency and the request are counted |
| Servers.KvServiceImpl.BatchGet | crates/kv-server/src/server.rs:93-146 | the replies in request order, each with what the store has under its key, or rejection; the hits and misses among the keys before the first bad one, and the error or the request with its latency |
| Servers.KvServiceImpl.Health | crates/kv-server/src/server.rs:148-158 | the record count and the timestamp of the current snapshot, each in its own field |
| Servers.KvServiceImpl.Reload | crates/kv-server/src/server.rs:36-38 | replaces the snapshot and leaves the counters |
| Servers.KvServiceImpl.Increment | crates/kv-server/src/metrics.rs:92-118 | one counter grows by one |
| Servers.KvServiceImpl.constructor | crates/kv-server/src/server.rs:25-30 | starts with the given snapshot and counters at zero |
| Servers.ReplyMeaning | crates/kv-server/src/server.rs:43-158 | what every call replies in terms of what the snapshot has under its keys |
| Servers.EffectMeaning | crates/kv-server/src/server.rs:43-146 | what every call counts: as hits the keys the snapshot has, as misses those it has not, up to the first bad key |
| Servers.BatchOutcome | crates/kv-server/src/server.rs:107-145 | what a batch that handled all keys before its first bad one replies and has counted |
| Interleavings.ApplyKeepsValid | crates/kv-server/src/server.rs:36-158 | every arrival, reload and step keeps each request consistent with the one snapshot it loaded, and the counters equal to what the requests have added |
| Interleavings.AdvanceKeepsConsistent | crates/kv-server/src/server.rs:93-146 | a step extends the responses by the next key's lookup in the same snapshot |
| Interleavings.AdvanceCounts | crates/kv-server/src/server.rs:50-143 | a step counts exactly what it adds |
| Interleavings.RunIsValid | crates/kv-server/src/server.rs:36-158 | the invariant holds at every moment of every interleaving |
| Interleavings.RunExtends | crates/kv-server/src/server.rs:36-158 | every run goes on with any arrival, any reload and any step of an unfinished request, so the theorems exclude no interleaving |
| Runs.Linearizable | crates/kv-server/src/server.rs:36-158 | every finished get, batch and health call replied and counted as if executed as a whole at one instant between its start and its end, in the snapshot current then |
| Runs.LoadInstant | crates/kv-server/src/server.rs:65-103 | the instant at which a request loaded the cell |
| Runs.FinishedMeaning | crates/kv-server/src/server.rs:43-158 | step by step execution replies and counts what the whole call means |
| Runs.VersionsNeverGoBack | crates/kv-server/src/server.rs:32-38 | requests ordered in real time never see versions go backwards |
| Runs.RunIsLater | crates/kv-server/src/server.rs:32-38 | published snapshots never change, the cell only moves on, and a request keeps its snapshot |
| Runs.CurrentIsLastReload | crates/kv-server/src/server.rs:32-38 | at every moment the current snapshot is the one of the last reload, or the first one if there was none |
| Runs.RequestIsOfItsArrival | crates/kv-server/src/server.rs:43-158 | each request answers the very call that arrived for it |
| Runs.CountersAreConserved | crates/kv-server/src/server.rs:50-143 | at every moment errors are the rejected requests, hits are the counted lookups whose key the request's snapshot has and misses those whose key it has not, together they are the lookups performed up to those still to be counted, and the latency count is ahead of the request count by the requests between the two increments |
| Runs.WaitFree | crates/kv-server/src/server.rs:32-38 | whatever is interleaved, a request finishes after a number of its own steps fixed by the call, and can always take the next one |
| Lifecycle.PublishBuilt | crates/kv-server/src/server.rs:25-38 | a built, opened and published snapshot answers exactly its pairs and reports their number and its timestamp |
| Lifecycle.GetIsServedFromOneSnapshot | crates/kv-server/src/server.rs:43-91 | under any reloads, a finished get was rejected for its key's length or told what the pairs of one snapshot current during the get have under its key |
| Lifecycle.HealthIsOfOneSnapshot | crates/kv-server/src/server.rs:148-158 | under any reloads, a finished health call reported the number of pairs and the timestamp of one snapshot current during the call |
| Lifecycle.BatchIsServedFromOneSnapshot | crates/kv-server/src/server.rs:93-146 | under any reloads, an answered batch got every response from the pairs of one single snapshot that was current during the batch |

## Left out

- The internals of the hash function and its size, and SHA-256 itself: not in the repository.
- Files, memory maps, flushing and pointer casts: a file is its bytes, and a record is its first 64
  and last 256 bytes.
- Stores.KvStore.Get: requires that the records are inside the file; for an accepted file this fails
  exactly when the size check wrapped, and then the first slice panics (Stores.OpenedSlices).
- Builders.SnapshotBuilder.Build: requires that 320 bytes per collected pair fit `isize`, since the
  pairs are in memory; a file too large to be mapped, counting a whole page of padding, is reported
  as one I/O error.
- Hex.Decode: text of one-byte characters; slicing inside a longer character is not modelled.
- Interleavings.Advance: a reply is part of the last counter step of its request, which makes the
  interval of the request shorter and the claims about it stronger; the shared cell is an atomic
  register and old snapshots are never freed.
- The counters are unbounded; Prometheus encoding, latency values, the metrics endpoint, gRPC and the
  textual version of the health reply are not modelled.
- The random choice of sample positions, the random bytes of generated records and the clock are
  parameters.
- Printed text is modelled only as the list of differences, each with its kind and the first 16 key
  bytes; logging, progress bars, JSON output, the command line and the CSV reader are not modelled.
- `preload`, the benchmark, `print_info` and the second sampled check in the builder program: they
  would only add easy members.
- Deployment scripts and Terraform files.
