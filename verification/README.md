# A verified model of GoZip

GoZip reads, edits and writes ZIP archives. This project models the parts of it in which many pieces
have to agree, and proves that they do, or exactly when they do:

- the parallel write protocol: producer, workers, channels, collector, reorder map, cancellation
  (`ParallelWrite`), which files come through it (`ParallelOutcome`), and the archive such a run leaves
  behind (`ParallelArchive`);
- the archive index: the ordered list and the lookup map, kept closed under parent directories by
  adding, removing, renaming, moving and loading (`TreeIndex` over `Paths` and `CleanPaths`), and any
  sequence of these (`IndexRuns`), and what callers see of them (`IndexLaws`);
- the container: records and extra fields (`Bytes`, `Headers`, `ExtraField`), the state of an entry
  (`Snapshot`), all of these byte for byte (`Layouts`), the writer with its four ways of writing an entry,
  and what failing entries do to a run (`Writer`, `WriterLaws`), the end records and their backward search (`EndRecords`), reading a written archive back
  (`Archive` over `Repeat`), archives written out in full (`Instances`), reading from front to back
  (`Stream` over `SignatureReader`), where each entry ends for that reader (`StreamArchive`) and whether
  whole archives read that way as their directory says (`ForwardRead`, with examples written out in
  `ForwardInstances`), with the buffers in between (`Buffers`);
- the stream machines: traditional encryption (`ZipCrypto`, `CipherWords`), WinZip AES (`WinZipAes`), key derivation
  (`Pbkdf2`) and the chunked text search (`Search`);
- shared limits on extracted bytes (`SecureWriter`) and the orders of files (`SortFiles`).

Objects whose methods change fields are classes; loops over buffers work on arrays in place; each is
proved against a function of the inputs or of the old state, and the properties are lemmas about these
functions. The two concurrent parts are step systems: a run is any sequence of enabled atomic steps.
Compression, encryption primitives, CRC-32, the MAC and the pseudorandom function are parameters about
which nothing is assumed beyond the length of their outputs.

The format is that of PKWARE's APPNOTE 6.3, sections 4.3.7, 4.3.9, 4.3.12, 4.3.14 to 4.3.16, 4.5.1, 4.5.3
and 6.1; key derivation is that of RFC 2898, section 5.2.

`dafny verify dfyconfig.toml` checks everything.

## Where the code does not do what is meant

The model follows the code. Each of these has a lemma with an input that shows it, or an exact condition:

- Renaming a regular file also renames every entry whose name merely starts with its name; it can break
  the index although it is accepted (`NeighbourRenamed`, `NeighbourCollides`, `NewParentRenamed`,
  `RenamingExactIff`, `FileRenameTreeIff`; zip.go:1481).
- Adding a directory over an existing directory is not rejected, and loading does not look for an entry
  of the other kind (`DirectoryAddedTwice`, `AddLoadedFile`; zip.go:1332, zip.go:1507).
- Removing a directory by its name with the trailing slash removes the entry and leaves its contents
  (`ContentsLeftBehind`; zip.go:555).
- The length field of a central Zip64 block counts its own four bytes, so the block is lost when it
  stands alone and swallows what follows otherwise (`LoneZip64Lost`, `Zip64HidesAes`,
  `Zip64ReadsTimestamps`, `SingleFile`; internal/headers.go:459).
- NTFS time stamps are written in 32 bytes and read in 36, and the access time is read from the place of
  the write time (`NtfsNeverRead`, `NestedNtfs`; internal/headers.go:480,
  reader.go:171).
- The thresholds of writer and reader differ by one, so 65535 entries cannot be loaded (`EntryCountIff`,
  `SingleFile`; writer.go:119, reader.go:212), and with Zip64 records an archive comment beyond 65513
  bytes makes a 16-bit sum wrap around (`EndReadable` in `EndRoundTrip`; reader.go:301).
- The documentation promises a best effort when files fail (zip.go:777).  A streamed entry that fails
  after its first byte of data shifts all later offsets and the directory (`WriteArchive`,
  `OneByteShifts`; writer.go:172).  What it leaves, be it only its header, hides the next entry from the
  forward reader (`FailedHidesNextIff`, `HiddenFile`), and behind the last entry it is reported although
  the directory does not list it (`FailedLast`).
- A raw copy of declared size zero that is not empty makes the writer lose its position, or records a
  size without data (`WriteFile`, `ParallelSizeIff`; writer.go:164, writer.go:840).
- An AES block in the extra field of a loaded entry stays when its encryption is switched off, and an
  encryption or descriptor flag stays as well (`EncryptionComesBack`, `MethodReadsBackIff`,
  `SequentialSkipIff`; file.go:694, file.go:820).
- `SetExtraField` computes the wrapped block and stores the bare one (`BarePayloadLost`; file.go:524).
- Opening a stored entry from a stream takes its uncompressed size for its compressed one: too little of
  an encrypted entry, and everything that follows one of unknown size (`EncryptedNeverOpens`,
  `UnknownSizeNeverOpens`, `RawOpenedSkipIff`; reader.go:695).
- Skipping a streamed entry looks for the first signature, which its data may contain
  (`SequentialSkipIff`; reader.go:863), and an empty archive is malformed for the forward reader
  (`EmptyArchiveFails`; reader.go:632).
- A compressed size that is negative as a signed number makes the data of an entry reach to the end of
  the file (`RawDataGiven`; reader.go:451).
- A write that is refused because of its file, or that the destination cuts short, keeps its share of the
  total limit (`ShareLostIff`, `CounterRightIff`, `BudgetLost`; options.go:548), and while one write is
  being taken back another one can be refused in vain (`RefusedThoughItFits`).
- An entry encrypted with the traditional cipher whose descriptor flag is left from an earlier reading is
  refused with the right password, unless its CRC and its time agree in their highest bytes
  (`WrittenAccepted`; encryption.go:103, writer.go:454).
- A second read at the end of AES data looks for another MAC (`SealedReadsBack`; encryption.go:317).
- The chunked search misses or invents matches after short reads (`SearchRightIff`, `MatchInvented`).
- The documentation bounds the buffered results of a parallel write by twice the number of workers
  (zip.go:790); neither strategy keeps that bound (`DocumentedBoundIff`, `BufferBoundIsTight`).
- A cancelled ordered run can leave results unreleased (`MayLeakIff`; writer.go:710).
- The documentation of `SortFilesOptimized` promises a new slice (sort.go:25); most strategies sort the
  given one (`SortFilesOptimized`).

## Model

| member | source | states |
|---|---|---|
| ParallelWrite.OrderedWritesInOrder | writer.go:659-725 | in every reachable state of every interleaving, with any failures and a cancellation at any point, the ordered strategy has handled exactly 0, 1, 2, ... without gap or repeat |
| ParallelWrite.WrittenAtMostOnce | writer.go:665-726 | no strategy handles an index twice, handles one that was dropped, or invents one |
| ParallelWrite.CleanRunWritesAll | writer.go:623-728 | a run that returns without error or cancellation has handled every index exactly once (and every one of them successfully, by `CleanRunSucceeds`), in list order under the ordered strategy, and the reorder map is empty |
| ParallelOutcome.HandledSucceeded | writer.go:689-726 | in every reachable state of every run, an index that is handled, about to be handled or waiting in the reorder map is that of a file whose compression has succeeded |
| ParallelOutcome.CleanRunSucceeds | writer.go:640-728 | a run that returns without being cancelled has met no failure in a compression and, if it had a worker, has compressed every file successfully and handled it |
| ParallelOutcome.OneOutcome | writer.go:640-680 | no file is compressed with success once and with a failure another time |
| ParallelOutcome.CancelledIff | writer.go:689-726 | a run is cancelled if and only if it was from outside, or a failed result was received, or handling one failed |
| ParallelOutcome.NothingNewAfterCancel | writer.go:683-691 | after a cancellation no result is accepted any more: only one the collector already had is still handled |
| ParallelOutcome.NothingStartsAfterCancel | writer.go:646-652 | and no compression is started: a worker that still compresses did so before |
| ParallelOutcome.NobodyWaits | writer.go:640-680 | after a cancellation the producer can stop at once, and every worker can then go on without the collector |
| ParallelOutcome.ExitsIff | writer.go:643-663 | a worker exits exactly if it finds the run cancelled with a task in hand, or the task channel empty and closed |
| ParallelOutcome.TasksInOrder | writer.go:637-680 | the task channel always holds the last of the files sent so far, in the order of the list |
| ParallelOutcome.ResultsInOrder | writer.go:667-688 | over every run the collector receives the results in the order in which they were sent, each once |
| ParallelWrite.NoWorkersWriteNothing | writer.go:640-663 | without workers a run returns at once, without an error and with nothing written: why the previous row asks for a worker |
| ParallelWrite.StepConserves | writer.go:640-725 | one step moves a task between the channels, the workers, the reorder map and the results, and loses or doubles none |
| ParallelWrite.StepKeepsInv | writer.go:640-725 | every step of every goroutine keeps conservation, the channel bounds and the order of the collector |
| ParallelWrite.NeverDeadlocks | writer.go:637-725 | until `WriteFiles` returns some step other than cancelling is possible, before and after a cancellation |
| ParallelWrite.StepDecreases | writer.go:640-725 | every step decreases one measure over tasks, workers, queued and pending results |
| ParallelWrite.EveryRunEnds | writer.go:623-728 | so a run of n files and k workers has at most 8n + k + 3 steps |
| ParallelWrite.BufferBound | writer.go:630-728 | no interleaving holds more compressed results at once than this number: min(n, 3k + 1) for n files and k workers under the performance strategy or with one worker, n under the ordered strategy with two workers or more, none without workers |
| ParallelWrite.BufferBoundIsTight | writer.go:630-728 | for every number of files and workers and both strategies some run reaches that number |
| ParallelWrite.DocumentedBoundIff | zip.go:790-791 | the documented bound, twice the number of workers, holds in all reachable states if and only if there are no more files than that, or no worker |
| ParallelWrite.StepInTurn | writer.go:640-725 | with one worker the tasks on their way form an interval behind the collector, so no result ever waits in the reorder map |
| ParallelWrite.MayLeakIff | writer.go:665-725 | a run can return with a result left in the reorder map, neither written nor discarded, if and only if the strategy is ordered and there are two workers and two files or more |
| ParallelArchive.WriteHandled | writer.go:737-755 | handling results in any order leaves the writer valid and the records those of the files in that order |
| ParallelArchive.CleanRunWritesTheList | writer.go:693-724 | after a clean run the files handled are those of the list, each as often as it occurs there, and under the ordered strategy in its order |
| ParallelArchive.HandledFilesSucceeded | writer.go:689-724 | when outcomes are those of compressing the files of the list, every handled file is one that compresses without error |
| ParallelArchive.CleanRunMeansSuccess | writer.go:689-724 | and after a clean run all files of the list do |
| ParallelArchive.ParallelRoundTrip | writer.go:835-851 | loading the archive of a parallel run gives the files in the handled order, with sizes, offset, CRC, name, kind and comment; method and encryption exactly under the condition of `MethodShown`; the data found is the data written if and only if the recorded size was right |
| IndexRuns.Run | zip.go:539-653 | over every sequence of additions, removals, renamings, moves and loads, with every conflict handler: the index is valid at the end if and only if every operation is harmless for the names at its turn; otherwise it is invalid right after the first that is not. Which one that is, and the names after the run, are functions of the names before it and the operations alone |
| IndexRuns.Perform | zip.go:1296-1560 | one operation, successful or not, makes of the list of names what `AfterOp` says, and leaves the index valid if and only if it was harmless for those names |
| IndexRuns.DirectoryAddedTwice | zip.go:1328-1341 | for every one-part name: adding the directory where it exists is accepted, and the list has it twice |
| IndexRuns.ContentsLeftBehind | zip.go:555-575 | removing the directory `d` as `d/` leaves the file in it without its parent |
| IndexLaws.NameNormalized | zip.go:1384-1408 | a clean name is looked up as it is, with or without a slash in front, and with one behind for a directory |
| IndexLaws.NameCleaned | zip.go:1384-1408 | a name with a backslash or a doubled slash is looked up as its cleaned form |
| IndexLaws.ListedFound | zip.go:1411-1421 | in a valid index every listed entry is found by its own name, a directory with or without its slash, and what is found is that entry |
| IndexLaws.NotFoundIff | zip.go:1411-1421 | nothing is found if and only if no entry has the normalized name, with or without a slash behind it; what is found is listed and has one of the two |
| IndexLaws.RenamedBeside | zip.go:602-628 | renaming a listed entry, by its name without the slash, to a free sibling name succeeds: it and, for a directory, everything below it carries the new name, nothing else changes |
| IndexLaws.MovedBelow | zip.go:642-653 | moving it to a free name below existing directories succeeds in the same way |
| IndexLaws.RemovedSubtree | zip.go:539-586 | removing an entry by a name takes exactly the entries at or below that name from the list |
| IndexLaws.AddedBelow | zip.go:1312-1343 | adding a free clean name below existing directories appends exactly that entry |
| IndexLaws.NameLimit | zip.go:1312-1343 | a name is too long exactly when the two bytes for its length cannot hold it, and so is a comment |
| TreeIndex.Zip.AddEntry | zip.go:1312-1343 | the exact error (name, length, length of the comment, duplicate, parent that is a file), the exact new list, nothing changed on an error; the index invariant survives if and only if the entry is not a directory that exists already |
| TreeIndex.Zip.CreateMissingDirs | zip.go:1346-1380 | all missing parents are appended outermost first, or nothing when one of them is a file; the tree is closed afterwards |
| TreeIndex.Zip.FindMissing | zip.go:1346-1368 | the walk upwards gives the missing parents, and stops exactly when one of them is a file |
| TreeIndex.Zip.Compact | zip.go:556-575 | the list rewritten while it is scanned is the split into removed and kept entries, both in order, and the map loses exactly the removed names |
| TreeIndex.Zip.Remove | zip.go:539-586 | the subtree goes, the rest stays in order; the invariant survives if and only if the name is not that of a non-empty directory with its trailing slash |
| TreeIndex.Zip.ApplyPathTransform | zip.go:1472-1489 | deleting and inserting while iterating replaces the prefix in all names; list and map agree afterwards if and only if every new name was free at its turn |
| TreeIndex.LinkedAfterIff | zip.go:1472-1489 | that condition for the map the loop computes: a new name that is in use at its turn parts list and map for good |
| TreeIndex.Zip.CheckPathTransform | zip.go:1441-1470 | the error it reports is that of the specification of a renaming |
| TreeIndex.Zip.AtomicPathTransform | zip.go:1424-1438 | all or nothing: the exact error with nothing changed, or missing parents added and the prefix replaced, which is the intended renaming if and only if a directory is renamed or no other name starts with the file's; the index is valid afterwards if and only if a directory is renamed or nothing is in the way of the names changed along |
| TreeIndex.Zip.Rename | zip.go:602-628 | the error cases of the documentation, and otherwise that transformation to the sibling path, with the same exact condition |
| TreeIndex.Zip.Move | zip.go:642-653 | the same for the new directory |
| TreeIndex.RenamingExactIff | zip.go:1479-1486 | replacing a prefix in all names is the intended renaming if and only if a directory is renamed or no stray name has the prefix |
| TreeIndex.NeighbourRenamed | zip.go:1481-1484 | renaming the file `a` to `c` also renames its neighbour `ab`, and the index stays valid |
| TreeIndex.NeighbourCollides | zip.go:1441-1484 | next to a file `cb` the same renaming is accepted too; two entries get the name `cb`, which is not a free target |
| TreeIndex.NewParentRenamed | zip.go:1434-1486 | moving the file `a` into a new directory `ab` is accepted, renames that directory, and the moved file loses its parent |
| TreeIndex.DirectoryTargetFresh | zip.go:1442-1447 | for a directory, checking the target name alone rules out every collision below it |
| TreeIndex.InsertTreeIff | zip.go:1326-1341 | a new name below existing parents keeps the tree if and only if no entry of the other kind has it |
| TreeIndex.Zip.AddReplacing | zip.go:1551-1560 | the replaced entry keeps its place in the list, the map points to the new one, nothing else changes |
| TreeIndex.Zip.AddRenamed | zip.go:1529-1543 | the exact error with list and map unchanged, or the entry added under the other name with its parents; the invariant survives if and only if no entry of the other kind has the name |
| TreeIndex.Zip.AddLoadedFile | zip.go:1503-1547 | the effect for every answer of the conflict handler, and exactly when an addition keeps the invariant: the code does not look for an entry of the other kind |
| Paths.MoveKeepsTree | zip.go:1472-1489 | a directory moved outside itself to a free name below existing parents leaves a tree |
| Paths.FileRenameTreeIff | zip.go:1472-1489 | replacing the name of a file in all names that begin with it leaves a tree if and only if the parents of the new place are not among these, and no changed name meets an unchanged one of the other kind |
| Paths.RemoveKeepsTreeIff | zip.go:563-572 | what is left after a removal is a tree if and only if no directory is removed without its contents |
| Paths.MissingDirsComplete | zip.go:1346-1380 | with the missing parents the names form a tree in which the new path has all its parents |
| Paths.AddKeepsTree | zip.go:1326-1341 | a name whose parents exist and that is free for both kinds keeps the tree |
| CleanPaths.CleanIsCanonical | zip.go:1312-1312 | the cleaned form of any name is empty, or has no backslash, no empty component and no slash at either end; its components are resolved, and below the root none is `..` |
| CleanPaths.CleanIdempotentIff | zip.go:1312-1312 | cleaning twice is cleaning once for every name, if and only if the cleaned name is not empty |
| CleanPaths.CleanRules | zip.go:1312-1312 | inside a name an empty component, one that is a dot, and a name followed by two dots can be taken out without changing the result |
| CleanPaths.CleanFront | zip.go:1312-1312 | the same for the components at the front |
| CleanPaths.CleanFixed | zip.go:1312-1312 | and a name without such components is left alone: with the rules above that determines the cleaned form |
| CleanPaths.CleanRooted | zip.go:1312-1312 | a slash in front is taken off a name and stays in a path |
| CleanPaths.BackslashCleaned | zip.go:1312-1312 | a backslash counts as a slash |
| CleanPaths.PathJoinCanonical | zip.go:625-650 | the joined path of a renaming or a move is a clean name |
| Headers.LocalRoundTrip | internal/headers.go:56-121 | a local header in front of any bytes is read back, with exactly these bytes left |
| Headers.CentralRoundTrip | internal/headers.go:145-231 | the same for a central directory header |
| Headers.AppendLocal | internal/headers.go:93-121 | the bytes behind the slice are the encoding of the header, in place or after growing; the precondition is exactly what keeps the wrapped 16-bit sum from causing a panic |
| Headers.AppendCentral | internal/headers.go:196-231 | the same for a central directory header |
| Headers.NeededWraps | internal/headers.go:94-94 | that sum does wrap around |
| ExtraField.ParseExtraField | internal/headers.go:410-430 | the loop computes the block map of any bytes, malformed ones included |
| ExtraField.ExtraRoundTrip | internal/headers.go:410-430 | parsing the ordered concatenation of any map of well-formed blocks gives that map |
| ExtraField.KeyOrderUnique | file.go:911-916 | the order of the tags leaves no choice: equal maps give equal bytes |
| ExtraField.BuildExtraFieldBytes | file.go:905-923 | the bytes are the blocks in ascending order of their tags, and parse back to the map |
| ExtraField.SetExtraField | file.go:499-528 | the block is stored as given, or refused when all blocks with it would exceed the limit, a replaced one not counted |
| ExtraField.SetKeepsLimit | file.go:514-523 | the length checked is that of the extra field as it will be written |
| ExtraField.AcceptedIff | file.go:514-523 | a block is accepted if and only if the length of all blocks fits the two bytes of a header that hold it |
| ExtraField.WrappedOnce | file.go:499-512 | a block that has its tag and length in front is not wrapped again |
| ExtraField.SetKeepsBlocksIff | file.go:499-528 | after setting a block the map holds well-formed blocks if and only if the caller has wrapped it: the wrapped form is computed and then not stored |
| ExtraField.BarePayloadLost | file.go:499-528 | a bare payload is read back under another tag |
| ExtraField.ParseEntryConf | reader.go:143-185 | the walk over the extra field gives the configuration of the specification, its Zip64, NTFS and AES blocks in any order and number |
| ExtraField.NtfsNeverRead | internal/headers.go:472-497 | the NTFS block as it is written has four bytes less than the reader wants, and is never read |
| ExtraField.Zip64PayloadIff | reader.go:120-140 | the Zip64 payload parses back to all three values, in each over-limit combination, if and only if no value of exactly 0xFFFFFFFF precedes a stored one |
| ExtraField.Zip64ReadBackIff | internal/headers.go:432-461 | because the length field counts its own head, a large entry reads back if and only if at least four bytes of other blocks follow, besides that condition |
| ExtraField.LoneZip64Lost | internal/headers.go:459-460 | a large entry without other blocks loses its sizes, and even the mark that it has a Zip64 block |
| ExtraField.Zip64HidesAes | writer.go:488-493 | behind a Zip64 block the AES block is not seen |
| ExtraField.Zip64ReadsTimestamps | internal/headers.go:480-492 | behind a Zip64 block NTFS time stamps are read as sizes |
| ExtraField.LocalZip64Iff | internal/headers.go:463-470 | the local Zip64 block reads back if and only if the uncompressed size reaches the limit |
| EndRecords.TryReadSignature | reader.go:270-296 | one window: the last record that starts in it and whose comment reaches the end of the file |
| EndRecords.FindEocd | reader.go:225-268 | the overlapping backward windows find exactly the last such record of the whole file, and fail if and only if there is none |
| EndRecords.WrittenEocdReads | internal/headers.go:244-285 | the record written at the end is such a record and reads back as written, clamped |
| EndRecords.WrittenEocdFoundIff | reader.go:225-296 | it is the one found if and only if no self-consistent record starts behind its beginning |
| EndRecords.EmptyCommentIsSafe | reader.go:279-281 | with an empty comment none does |
| EndRecords.EndRoundTrip | reader.go:209-221 | the true count and offset are recovered for all 64-bit values that the reader understands, and for the others it fails unless a locator stands where it looks by accident |
| EndRecords.EndTellsOffset | writer.go:131-152 | end records that name different positions of the directory differ |
| Layouts.Signatures | internal/headers.go:19-28 | the six signatures as the bytes they are in a file |
| Layouts.EocdLayout | internal/headers.go:269-285 | the end record byte for byte: no other disks, both counts, size and offset saturated, the comment cut to 65535 bytes and its length |
| Layouts.Zip64EocdLayout | internal/headers.go:317-336 | the Zip64 end record: its own length less twelve bytes, version 4.5 twice, no other disks, both counts, size, offset |
| Layouts.LocatorLayout | writer.go:126-140 | behind it the locator with the place of that record, on the only disk, and then the end record |
| Layouts.EndRecordRead | internal/headers.go:244-267 | an end record of any archive, with any disks and counts, is read field by field |
| Layouts.Zip64EndRead | reader.go:299-328 | a Zip64 end record of any archive, found through its locator: the number of entries on all disks and the offset count |
| Layouts.LocalLayout | file.go:728-748 | a local header byte for byte: every number of the entry at its place, the name, and the blocks |
| Layouts.CentralLayout | file.go:750-782 | the same for a central header, with its maker, attributes, offset and comment |
| Layouts.LocalBlocks | file.go:891-903 | the blocks of a local header byte for byte |
| Layouts.AesLayout | internal/headers.go:560-570 | the AES block byte for byte: AE-2, the letters AE, 256 bits, the method |
| Layouts.NtfsLayout | internal/headers.go:480-492 | the NTFS block byte for byte, and where its three times stand |
| Layouts.NestedNtfs | reader.go:170-173 | the reader looks for them where they stand in a whole block and takes the write time for the access time: from a whole block as payload it reads (write, write, creation) |
| Layouts.OtherBlocks | writer.go:483-507 | blocks of other tags are kept in a central header |
| Layouts.AesBlockAdded | writer.go:483-507 | which AES block it has, and the method in it |
| Layouts.NtfsBlockAdded | writer.go:954-957 | which NTFS block, and the times in it |
| Layouts.Zip64BlockAdded | writer.go:483-507 | which Zip64 block: those sizes and that offset that need more than 32 bits |
| Layouts.AddsBlockIff | writer.go:483-507 | the assignment into a nil map comes if and only if a block would be added to an empty extra field |
| Layouts.MethodIs | file.go:835-843 | the method in both headers: 99 exactly for AES entries that are not empty |
| Layouts.TextRead | reader.go:366-386 | name and comment are the bytes in the header if flag 2048 is set, else what the decoder makes of them; a slash at the end of the name means a directory |
| Snapshot.SetBitExactly | file.go:820-833 | switching on a flag leaves the others alone |
| Snapshot.FlagBits | file.go:820-833 | which of the flags that the readers look at a header carries |
| Layouts.EveryFlag | file.go:820-833 | every one of the flags: which of them this writer sets, the level bits included, and that all others are as before |
| Snapshot.VersionIsGreatest | file.go:784-810 | the version in the headers is the greatest that a feature of the entry needs |
| StreamArchive.HeadersOfRecord | writer.go:156-222 | the local header of a written entry, made before its data unless a temporary file is used, agrees with its central header: name and time always, CRC and sizes without a descriptor, flags if it was known whether the entry is empty, the method exactly unless a compressed entry of unknown size has turned out empty |
| Writer.ZipWriter.WriteFileHeader | writer.go:463-480 | the header goes behind everything written, its offset is the old position, and the position advances by its length |
| Writer.ZipWriter.UpdateLocalHeader | writer.go:510-535 | patching 12 bytes gives the destination that would have been written with the final CRC and sizes |
| Writer.PatchAt | writer.go:517-528 | bytes 14 to 26 of an encoded header are its CRC and sizes |
| Writer.ZipWriter.WriteStream | writer.go:156-194 | header, data, and the patched sizes or a descriptor; after an error the header and any part of the data are in the destination, and the position counts the header only, unless the entry was found too large at its end |
| Writer.ZipWriter.WriteTemp | writer.go:198-222 | the header carries the sizes found by encoding; an error leaves nothing |
| Writer.ZipWriter.AddCentralDirEntry | writer.go:483-507 | one more listed record with its offset, the exact failure on an unparsed extra field, and nothing for a skipped directory |
| Writer.ZipWriter.WriteFile | writer.go:54-92 | one more record of this file, in its place, in the local section and in the directory, with the position as far behind as before if and only if the file was counted right; or the error of the file, nothing listed, exactly the bytes left behind, and how far the position is behind them |
| Writer.WrittenOk | writer.go:160-179 | the recorded compressed size of an entry is the length of its data if and only if it is no raw copy declared otherwise |
| WriterLaws.FailsWith | writer.go:54-92 | which error a file has in a sequential run, for every source, pipeline and destination; without one of the others a file is too large exactly if its sizes have to be patched and need more than 32 bits |
| WriterLaws.ParallelFailsWith | writer.go:758-833 | and in a parallel run: entries of declared size zero never fail, no other file is too large |
| WriterLaws.ContentsWritten | writer.go:225-264 | data, CRC and sizes in the record of a file with contents: in both headers, or in the descriptor for the local one |
| WriterLaws.DescriptorIff | writer.go:156-194 | a descriptor follows the data if and only if the destination cannot seek and the entry is no directory, not encrypted and not of Deflate64; the flag in both headers says so, unless it was on before |
| WriterLaws.LeavesNothingIff | writer.go:54-92 | a file that fails leaves nothing if and only if it goes through a temporary file |
| Writer.ZipWriter.WriteCentralDirAndEndRecords | writer.go:95-152 | directory and end records of the listed entries are appended, for the position the writer believes; if it is right the destination is the whole archive |
| Writer.ZipWriter.WriteArchive | zip.go:1053-1066 | a sequential run collects the errors of the files that fail, goes on, and lists exactly the others, in order, raw copies with a wrong size included; the end record names the place of the directory if and only if the bytes not counted add up to none, and every offset is right if they did behind every file; without failures nothing stands between the entries |
| Writer.LagIff | zip.go:1053-1066 | when no raw copy is recorded longer than it is, the positions end up right if and only if no failed entry has left data and no raw copy was recorded shorter; then they were right all the time |
| Instances.OneByteShifts | writer.go:172-175 | a file of one byte that fails in the compressor, and any small file after it: every offset is one too small and the archive cannot be loaded |
| Writer.ZipWriter.WriteCompressedFile | writer.go:835-851 | the position advances by what is copied, so it is right for every snapshot |
| Writer.ZipWriter.HandleResult | writer.go:737-755 | a buffered result becomes one more record, nothing in front of it; the writer stays valid |
| Writer.ParallelSizeIff | writer.go:758-851 | the recorded size of a file compressed in parallel is the length of its data if and only if nothing empty has a size: raw copies of declared size zero, and unknown sources that are empty, can break this |
| Archive.ReadCentralDir | reader.go:330-363 | the loop reads the entries one after the other from the offset, or fails |
| Archive.DirectoryRoundTrip | reader.go:330-363 | the directory reads back as the headers written, whatever follows it |
| Archive.RawDataIff | reader.go:432-452 | behind the listed offset the data of every entry comes out exactly, for its own size and for no other, negative ones included |
| Archive.RawDataGiven | reader.go:432-452 | for any file, offset and size: data is given exactly if there are 30 bytes with the signature; it begins where the lengths in the header say, and goes on for the size asked for or, if there is less or the size is negative, to the end |
| Archive.SizesReadBack | reader.go:366-386 | sizes and offset of an entry within the limits read back |
| Archive.LargeSizesReadBackIff | reader.go:366-400 | beyond them exactly under the conditions of the Zip64 block |
| Archive.Zip64FirstIff | writer.go:491-493 | the Zip64 block comes first in a written extra field, where the reader needs it, if and only if the entry has no block with tag zero |
| Archive.NameReadsBackIff | reader.go:366-386 | name, kind, CRC and comment read back if and only if the name of a file does not end in a slash |
| Archive.MethodReadsBackIff | reader.go:143-180 | for every entry, with parsed or unparsed extra field, with Zip64 or without: method and encryption read back if and only if the last AES block met in the extra field is the entry's own, an empty entry is stored, and no encryption flag is left from before |
| Archive.WrittenMethodIff | writer.go:483-507 | that condition before writing, without a Zip64 block: always for AES, otherwise exactly without an AES block from before, in the parsed map or in the raw bytes, besides the other two |
| Archive.LargeMethodIff | writer.go:483-507 | the same with a Zip64 block: what is met in the other blocks from their fourth byte on decides |
| Archive.LargeAesBehindTimes | writer.go:483-507 | with NTFS times in between a large AES entry is shown as such, by accident |
| Archive.LargeAesNotShown | writer.go:488-493 | a large AES entry without other blocks is not shown as such |
| Archive.EncryptionComesBack | file.go:694-696 | an entry loaded with an AES block, then stored without encryption: it reads back as encrypted and deflated |
| Archive.Load | zip.go:904-919 | finding the end record, the directory and its entries gives the listing of the file |
| Archive.WriteThenLoad | reader.go:209-363 | the archive of any list of records, with anything failed entries have left, loads as exactly the headers written, in order, if and only if its end records are readable |
| Archive.RoundTrip | writer.go:54-222 | every archive of a sequential run within the limits loads as the files that did not fail, in order: each listed offset and size gives exactly the bytes written for that file, and the method and the encryption are its own exactly under the condition above |
| Archive.EmptyIsStored | writer.go:58-60 | an entry of declared size zero is stored, whatever its options: both headers show method 0 and no encryption set by this writer, its contents go through the pipeline for storing, and it reads back as stored if nothing is left from an earlier reading |
| Archive.EmptyInParallel | writer.go:652-654 | the same in a parallel run |
| Archive.WriteAndLoad | zip.go:1053-1066 | a sequential run and loading its archive in one go, for every list of files: if the position was right behind every file and the limits are kept, the listing is that of the files that did not fail, each with its data, or nothing if the end records are not readable |
| Instances.SingleFile | writer.go:54-152 | a single stored file of any name and contents: its archive lists it, unless the directory begins at 0xFFFFFFFF, and its data is found if and only if it is no longer than 0xFFFFFFFF bytes |
| Instances.EntryCountIff | writer.go:119-123 | the archive of any number of empty files loads, except for exactly 65535 of them |
| Archive.ParallelEntryRecovered | writer.go:835-851 | the same for an entry of the parallel path, with the exact condition for its data |
| Repeat.ReadWrittenItems | reader.go:345-360 | items that read back one by one read back in sequence |
| SignatureReader.SignatureReader.Read | reader.go:939-980 | one read never passes the signature, makes progress, and ends exactly at the signature or with less than four bytes left |
| SignatureReader.Drain | reader.go:864-866 | for any positive buffer sizes the output is what stands before the first signature, and the stream is left at it |
| SignatureReader.WindowHit | reader.go:947-950 | the first signature in a peeked window is the first in the stream |
| Stream.StreamReader.ReadDataDescriptor | reader.go:882-919 | 12, 16, 20 or 24 bytes are taken, and their values given |
| Stream.StreamReader.OpenRaw | reader.go:690-713 | the raw reader of any entry, and the size it overwrites if the entry is stored |
| Stream.StreamReader.Open | reader.go:655-684 | an open stored entry, read up to its size or, if that is zero and a descriptor follows, up to the signature |
| Stream.StreamReader.Read | reader.go:480-499 | one read gives the next bytes of the data and no more; at the end the descriptor is read, once, and checksum and size are compared. Neither what that reports nor where the next header is looked for depends on how much is read at a time |
| Stream.StreamReader.ReadAll | reader.go:853-861 | any sequence of reads to the end gives all of the data and the same result of the comparison, and leaves the stream there |
| Stream.StreamReader.SkipRemainingData | reader.go:843-879 | what is left of the stream after an entry, unopened or opened and read in part, for any buffer sizes |
| Stream.StreamReader.Next | reader.go:621-649 | one call is one step of the specification |
| StreamArchive.SkipsExactlyIff | reader.go:863-876 | an entry is skipped exactly, whatever follows, if and only if the skip ends with its record |
| StreamArchive.OpensExactlyIff | reader.go:690-713 | the same for an entry opened and read to its end |
| StreamArchive.GivesPayloadIff | reader.go:690-713 | such an entry gives its data if and only if that ends where the reader sees the end |
| StreamArchive.LocalConf | file.go:891-903 | what a local header says, whatever sizes it was made for and patched with, encrypted or not: when it shows a Zip64 block, and which sizes are read from it |
| StreamArchive.SequentialSkipIff | writer.go:54-222 | the exact condition under which an entry of a sequential run is skipped exactly, for each way of writing it: flagged for a descriptor, it has to end at the first signature with the width its header shows; otherwise its header has to show the length of its data |
| StreamArchive.WithoutDescriptorIff | writer.go:67-92 | within the limits an entry without a descriptor is always skipped exactly, but for a header made for a stale size above the limit and patched with exactly the limit |
| StreamArchive.StreamedSkipsIff | writer.go:160-191 | a streamed entry whose data lacks the signature is skipped exactly if and only if its declared sizes exceed the limit just when the real ones do |
| StreamArchive.ParallelSkipIff | writer.go:835-851 | the exact condition for an entry of a parallel run |
| StreamArchive.ParallelSkipWithin | writer.go:835-851 | within the limits, without a flag from before: if and only if the recorded size was right |
| StreamArchive.SequentialOpenIff | reader.go:690-713 | the exact condition under which a stored entry of a sequential run can be opened and read, with or without a descriptor |
| StreamArchive.KnownSizeOpens | reader.go:695-709 | a streamed stored entry of known size always can, even if its data contains the signature |
| StreamArchive.UnknownSizeNeverOpens | reader.go:695-709 | one of unknown size cannot: the reader takes everything that follows |
| StreamArchive.DescriptorReads | reader.go:882-919 | a written descriptor is read back with its CRC and sizes, 32 bits or 64 |
| StreamArchive.VerdictIff | reader.go:667-680 | reading a streamed stored entry to its end reports nothing if and only if the data has the recorded checksum and size |
| StreamArchive.EncryptedNeverOpens | reader.go:695-709 | an encrypted stored entry never can: exactly what the encryption has added stays in the stream |
| StreamArchive.RawOpenedSkipIff | reader.go:695-697 | after `OpenRaw` alone the skip is right if and only if the uncompressed size shown is the length of the data |
| ForwardRead.SameEntry | reader.go:811-838 | the entry made from the local header has the name and kind of the one made from the directory |
| ForwardRead.UsableIff | reader.go:621-713 | an entry of a sequential run can be skipped, or opened and read with all its data, exactly under the conditions that the next row asks for |
| ForwardRead.SequentialStream | reader.go:621-649 | on the archive of a sequential run without failures forward reading, with any mixture of skipping and opening within these conditions, gives the entries that the directory lists, in order, with the same names and kinds, the opened ones with the data written for them, and then the end |
| ForwardRead.ParallelStream | reader.go:621-649 | the same for the archive of a parallel run, in any order of handling |
| ForwardRead.EmptyArchiveFails | reader.go:632-638 | an empty archive is reported as malformed instead of ended |
| ForwardRead.StreamOfArchive | reader.go:621-649 | with anything that failed entries have left: first what is seen of the records, when the leftovers in front of one look like one entry with it, and then what is seen of the bytes left behind the last one with the directory behind them |
| ForwardRead.FailedLast | reader.go:843-879 | a file that fails behind the last record, however it was streamed: its entry is reported though the directory does not list it, and then an error if the descriptor asked for is not there, or more data is shown than there is, or the end if the size shown is that of the data |
| ForwardRead.FailedHidesNextIff | reader.go:863-876 | a streamed entry that failed, whose data and that of the next one hold no signature: skipping it ends exactly behind the next entry if and only if the sizes of both exceed the limit or of neither |
| ForwardRead.UnreadableHidesNext | writer.go:160-175 | a file that cannot be opened, and another one: the directory lists only the second, and the forward reader reports only the first |
| ForwardInstances.SingleForward | reader.go:621-713 | the archive of a single small file of any name and contents: opened and read it gives that name and these contents, and the end; it can be skipped when no descriptor signature stands in it |
| ForwardInstances.HiddenFile | writer.go:160-175 | such a pair of files written out in full: the directory lists the second, the forward reader reports the first |
| ForwardInstances.HiddenRun | zip.go:1053-1066 | and a run over the two comes to that archive |
| ForwardRead.LegacyNeverOpens | reader.go:655-684 | under the cipher of section 6.1 of APPNOTE 6.3, for every password, header and content, twelve bytes stay, and the next call reports a malformed archive unless they happen to begin like a header |
| ZipCrypto.DecryptEncrypt | encryption.go:165-180 | decrypting inverts encrypting, for every key state and every word functions |
| ZipCrypto.EncryptDecrypt | encryption.go:165-180 | and the other way round |
| ZipCrypto.EncryptedBits | encryption.go:165-180 | every bit of every encrypted byte: that of the data, inverted exactly where the mask of the state after the bytes before it has a one |
| CipherWords.CrcStepIs | encryption.go:147-149 | the table step of the CRC register is eight steps of one bit with the polynomial 0xEDB88320 |
| CipherWords.Key1Is | encryption.go:151-153 | the linear congruential step modulo 2^32 |
| CipherWords.KeysNext | encryption.go:147-157 | the three keys, from the fixed numbers of section 6.1.5 on, after one more byte of the password |
| CipherWords.MaskIs | encryption.go:159-163 | the mask: the second byte of the product of the third key, with its second bit on, and its neighbour |
| ZipCrypto.Chunks | encryption.go:67-79 | encrypting in chunks is encrypting at once, with equal key states after it |
| ZipCrypto.DecryptChunks | encryption.go:122-128 | decrypting in chunks is decrypting at once |
| ZipCrypto.ZipCipher.Encrypt | encryption.go:165-171 | the loop over a slice, in place, with the final key state |
| ZipCrypto.ZipCipher.Decrypt | encryption.go:173-180 | the same for decryption |
| ZipCrypto.ZipCryptoWriter.Write | encryption.go:67-79 | everything written so far is one encryption of header and data; the caller's buffer is unchanged |
| ZipCrypto.ZipCryptoReader.Read | encryption.go:122-128 | each read gives the next part of one decryption, however many bytes the source gives |
| ZipCrypto.OpenReader | encryption.go:93-120 | accepts if and only if the last header byte decrypts to the expected one |
| ZipCrypto.ReadsBackIff | encryption.go:45-128 | what was written is accepted if and only if the check byte is the expected one, and then decrypts to the data |
| ZipCrypto.WrittenAccepted | encryption.go:103-110 | a written entry is accepted if and only if its check byte is the highest one of the CRC, or with a descriptor flag that of the time |
| WinZipAes.WinZipCounter.IncrementCounter | encryption.go:395-402 | the loop adds one with carry |
| WinZipAes.IncValue | encryption.go:395-402 | which is addition modulo 256 to the number of bytes |
| WinZipAes.NextCounter | encryption.go:366-372 | so block i uses the counter 1 + i modulo 2^128 |
| WinZipAes.WinZipCounter.XORKeyStream | encryption.go:374-392 | masks with the next bytes of the key stream, also in place, for any split of the input |
| WinZipAes.MaskedSplit | encryption.go:374-392 | masking in parts is masking at once |
| WinZipAes.MaskedTwice | encryption.go:307-313 | masking twice gives the data |
| WinZipAes.MaskedBits | encryption.go:374-392 | every bit of every masked byte: that of the data, inverted exactly where the block cipher has a one for its counter |
| WinZipAes.SealedLayout | encryption.go:199-257 | where salt, verification value, data and the ten bytes of the MAC stand in an entry |
| Bytes.XorIff | encryption.go:374-392 | the exclusive or, bit by bit |
| Bytes.SameBits | encryption.go:374-392 | which determines the byte |
| Bytes.BitIs | file.go:820-833 | bit k of a number is its binary digit of weight 2^k |
| WinZipAes.AesWriter.Write | encryption.go:229-244 | ciphertext and MAC input are the masked data so far |
| WinZipAes.AesWriter.Close | encryption.go:246-257 | the destination is the sealed entry |
| WinZipAes.AesReader.Read | encryption.go:307-333 | the next part of the data; at the end the next ten bytes are compared with the MAC of all ciphertext, at every read anew |
| WinZipAes.OpenReader | encryption.go:270-305 | accepts if and only if salt and verification value are there, match, and the size has room for the overhead |
| WinZipAes.SealedReadsBack | encryption.go:199-333 | what was sealed opens with its own size, reads back as the data for all chunkings, and verifies; another read at the end then fails |
| Pbkdf2.Pbkdf2 | encryption.go:405-440 | the nested in-place loops compute DK of section 5.2 of RFC 2898 for every iteration count and key length |
| Pbkdf2.Block | encryption.go:417-437 | one block, accumulated on the tail of the output array, is F of that section |
| Pbkdf2.IntIs | encryption.go:418-424 | the block number goes in with its most significant byte first: reversed it is the little-endian form, so read that way it is the number |
| Pbkdf2.FirstAndNext | encryption.go:418-430 | the first value is the PRF of salt and that number, every other one the PRF of the one before |
| Pbkdf2.BlockBits | encryption.go:417-437 | every bit of a block is on if and only if it is on in an odd number of these values |
| Pbkdf2.KeyByteOf | encryption.go:405-440 | byte q * h + r of the key is byte r of block q + 1 |
| Pbkdf2.ShorterKey | encryption.go:439-439 | a shorter key is the beginning of a longer one |
| Pbkdf2.DeriveAesKeys | encryption.go:343-355 | the 66 bytes are cut into the three keys |
| SecureWriter.NeverOverLimit | options.go:536-570 | in every interleaving of any number of writers the bytes written never exceed the total limit, and no file its own |
| SecureWriter.StepKeepsInv | options.go:540-546 | every atomic step keeps: the counter is what was granted plus what is still to be taken back |
| SecureWriter.CounterBound | options.go:541-544 | the counter exceeds the limit by at most one write for each writer, and is exact when none is to be taken back |
| SecureWriter.RefusedIff | options.go:540-546 | exactly when a reservation is refused |
| SecureWriter.RefusedThoughItFits | options.go:541-545 | a write that would fit can be refused while another one is being taken back |
| SecureWriter.ShareLostIff | options.go:548-570 | the last step of a write never touches the counter; the share of the total turns into written bytes if and only if both limits of the file hold and the destination takes everything, or nothing was asked |
| SecureWriter.RunLoses | options.go:536-570 | over any interleaving, from any state, the counter gains on the accounted bytes exactly what those steps lose, and nothing is lost if and only if there is no such step |
| SecureWriter.CounterRightIff | options.go:536-570 | so the counter is what is written, may still be written or is to be taken back, if and only if no write was refused for its file or cut short |
| SecureWriter.BudgetLost | options.go:548-552 | two files and ten bytes in all: after a refusal for its size no two bytes are left for the other file, although nothing was written |
| SecureWriter.RatioOkIff | options.go:554-565 | the ratio in floating point, sizes of any length converted first: beyond the space granted in any case a write is accepted if and only if the quotient lies below the middle between the limit and the next number of floating point, or on it if that tie goes down |
| SecureWriter.RatioNumbers | options.go:554-565 | without rounding: up to 10485760 bytes any ratio is accepted, beyond that exactly if the bytes are at most the limit times the compressed size and 4096 |
| SecureWriter.FillsExactly | options.go:548-552 | a file can be filled up to its limit exactly, and not by one byte more |
| SecureWriter.SecureWriter.Write | options.go:536-570 | the method is those steps in a row; when it accepts, exactly |
| SortFiles.StableSortUnique | sort.go:143-156 | a list has one stable sort only |
| SortFiles.OptimizedSortZip64Buckets | sort.go:101-141 | the bucket sort gives the very list that the comparison sort gives |
| SortFiles.BucketsAreStableSort | sort.go:101-156 | three buckets sorted by size, in a row, are the stable sort by priority and size, unknown sizes included |
| SortFiles.PartitionStable | sort.go:71-96 | the two passes give the stable sort that puts one group in front |
| SortFiles.PartitionIsStableSort | sort.go:66-96 | one group filtered after the other is that sort |
| SortFiles.StableSortIs | sort.go:143-156 | the specification is ordered and keeps the order of equal keys |
| SortFiles.SortFilesOptimized | sort.go:26-64 | every strategy gives the stable sort by its key, on both sides of the 1000 files; which of them sort the caller's slice |
| SortFiles.KeyMeans | sort.go:26-64 | what each key orders by, with the thresholds as numbers: small, large, unknown and very large files |
| SortFiles.ResultInOrder | sort.go:26-64 | so for every strategy and every two places of the result the file in front belongs there, and the result holds the files given |
| Search.SearchFile | archiver.go:431-464 | the loop computes the specification over the chunks read |
| Search.SearchRight | archiver.go:431-464 | when no short chunk is followed by data a match is reported if and only if the text occurs in the whole content |
| Search.SearchRightIff | archiver.go:431-464 | for which chunk lengths the search is right for all contents: exactly those, and those with less data than text |
| Search.TextMissed | archiver.go:454-457 | for all other lengths some content contains a text that is missed |
| Search.MatchInvented | archiver.go:440-446 | and a text can be reported that does not occur |
| Buffers.MemoryBuffer.Write | writer.go:891-919 | contents after a write at any position; what a gap behind the end holds |
| Buffers.OverwrittenParts | writer.go:913-918 | what was written reads back and the rest is as before |
| Buffers.StaleBytes | writer.go:913-951 | a reused buffer written behind its end shows bytes of its first use |
| Buffers.SpillBuffer.Write | writer.go:982-1003 | appends, in memory only up to the threshold |

## Left out

- Compression, CRC-32, AES, HMAC and SHA-1 themselves: they are parameters. That decompressing inverts
  compressing is therefore not part of the round trip, which ends at the stored bytes of an entry.
- TreeIndex.Zip.AddLoadedFile: names from a loaded archive and from the conflict handler are assumed to be
  clean; the code takes them as they are. Where such a name has dot components, the code resolves them in
  the names of its parents, and the model does not.
- TreeIndex.Zip.AddRenamed: likewise for the name that the conflict handler gives.
- TreeIndex.Zip.AddEntry: the compression and encryption options of the archive, and those given with the
  entry, are not part of the index.
- SecureWriter.RatioOkIff: floating point is a set of numbers and a rounding to the nearest of them, which
  may break ties either way; `SecureWriter.Write` takes any quotient.
- Stream.StreamReader.Open: opening is described for stored entries that are not encrypted; for other
  methods how much a decompressor takes from the stream in advance is up to it. What the raw reader leaves
  of an encrypted entry is `EncryptedNeverOpens`.
- Stream.StreamReader.Read: closing an opened entry, which compares size and checksum once more, is left
  out. That more is read than declared cannot happen to the entries described.
- Writer.ZipWriter.WriteFile: the sizes and the CRC written back into the caller's file object are in the
  snapshot only; errors of the destination itself do not occur.
- Writer.ZipWriter.WriteArchive: raw copies with a negative declared size are excluded, and so are, when
  headers are patched, those declared longer than they are; what one of them does is `WriteFile`. A run
  that is cancelled is the run of the files before.
- ForwardRead.SequentialStream: runs with failures are `StreamOfArchive` and `FailedLast`, for leftovers that
  look like one entry with the record behind them, or stand behind the last one.
- Archive.RoundTrip: with an archive comment it assumes that no self-consistent end record is hidden in it.
- The text decoders for names without the UTF-8 flag (a parameter), DOS times, mode bits and attributes
  (fields that are carried along), progress reports, callbacks and object pools.
- The directory buffer of the writer is a byte string; that the spill buffer behaves as one is
  `SpillBuffer.Write`.
- The lock that makes the index methods sequential; file system, HTTP, sources and sinks, extraction paths.
- Alphabetical order: the rank of a name is a parameter of the sort.
- The Zip64 extensible data sector, split archives and digital signatures, which the code ignores too.
