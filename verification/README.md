# Jansi native-library content check, modelled in Dafny

`JansiLoaderTest` reproduces a Jansi bug report: the native library `libjansi.so`
that Jansi extracts from its jar to the temporary folder seemed to differ from the
copy inside the jar. The test does the following:

- It builds the resource path of the library from the package name and the platform folder.
- It extracts the library the way Jansi does. It names the file `jansi-<version>-<uuid>-libjansi.so`, creates a `.lck` file beside it and copies the resource over the library file.
- It compares the extracted file byte by byte with the resource stream, and then with the entry of the same library read straight from the jar archive.

The comparison, `checkContentsEquals`, works like this:

- It reads both streams in lockstep, 8192 bytes per chunk, with the short-read tolerant `readNBytes`.
- It raises an error when one stream ends first or when the two chunk sizes differ.
- Otherwise it records every differing byte as a `DifferentByte(position, jarResourceByte, tmpFileByte)`.
- It also copies the bytes at positions 18961 to 18999 of both streams into two diagnostic sequences.

`getVersion` supplies the version in the file name. It reads the `version` property, trims it and keeps only digits and dots.

The model is organised like this:

- `ByteStream`: an input stream is the unread bytes plus a schedule of short-read counts. `Read` is `InputStream.read` and `ReadNBytes` is the loop over it.
- `ByteDiff`: the `DifferentByte` record and the two things the inner loop collects (`Differences`, `Window`).
- `ContentCheck`: `ScanChunks` is a recursive reference definition of the chunked comparison. The loop itself (`CompareStreams`, `ReadChunks`, `ScanChunk`) is proved equal to it. `Scanned` describes which bytes the loop actually compares. `LengthMismatchError` is a closed form of the error two streams of different lengths run into.
- `CheckContents`: the source's comparison as written, the corrected comparison, and the input on which the two part ways (see Findings).
- `Version`: `getVersion`, with the properties lookup and the I/O failure as inputs.
- `VersionExamples`: the snapshot version example.
- `Naming`: the resource path, the extracted file and lock names, and the zip entry name.
- `Extraction`: the file system is a map from path to bytes. `ExtractLibraryFile` is the lock-then-copy step and `TestJansiSoContent` is the whole test. The test takes the comparison's inner-loop bound as a parameter: `WholeBuffer` runs it as written, `BytesRead` with the loop corrected as described under Findings.

Buffers are sequences threaded through the loops. Java's freshly allocated arrays are zero-filled (`Zeros`), and a buffer keeps its old contents past the bytes a read stores.

## Model

| member | source | states |
|---|---|---|
| ByteStream.Read | src/test/java/org/acme/JansiLoaderTest.java:107 | a read of zero bytes returns 0 and changes nothing; at end of stream it returns -1; otherwise it stores between 1 and `min(len, remaining)` next stream bytes at the offset, leaves the other cells alone and advances the stream by that count |
| ByteStream.ReadNBytes | src/test/java/org/acme/JansiLoaderTest.java:102-114 | for every short-read schedule it returns `n = min(buffer length, remaining)`, fills the first `n` cells with exactly the next `n` stream bytes, leaves the rest of the buffer unchanged and advances the stream by `n`; it returns 0 exactly when the buffer is empty or the stream is at its end |
| ByteDiff.DifferencesExactly | src/test/java/org/acme/JansiLoaderTest.java:143-146 | a record is collected if and only if its position lies in the scanned range and holds two different bytes, and it carries those two bytes |
| ByteDiff.DifferencesIncreasing | src/test/java/org/acme/JansiLoaderTest.java:143-146 | the collected records come in strictly increasing position order |
| ByteDiff.DifferencesOrdered | src/test/java/org/acme/JansiLoaderTest.java:143-146 | every record shows two different bytes and lies in the scanned range, and the records are strictly increasing |
| ByteDiff.NoDifferencesInEqual | src/test/java/org/acme/JansiLoaderTest.java:143-146 | scanning two equal sequences collects no record |
| ByteDiff.DifferencesAppend | src/test/java/org/acme/JansiLoaderTest.java:143-153 | scanning two concatenations piece by piece, with positions advanced by the first piece's length, collects the same records as scanning them whole, so the scan does not stop at the first mismatch |
| ByteDiff.SingleDifference | src/test/java/org/acme/JansiLoaderTest.java:143-146 | two sequences that agree except at one index yield exactly one record, for that index |
| ByteDiff.WindowAppend | src/test/java/org/acme/JansiLoaderTest.java:147-153 | the window bytes of a concatenation are those of the first piece followed by those of the second, counted from where the first ends |
| ByteDiff.WindowIsSlice | src/test/java/org/acme/JansiLoaderTest.java:147-150 | counted from position 0, the window bytes are the slice between positions 18961 and 19000, cut off at the end of the sequence, so each position is captured at most once |
| ByteDiff.WindowOutside | src/test/java/org/acme/JansiLoaderTest.java:147 | a chunk wholly before or after the window contributes no window byte |
| ContentCheck.ScanChunk | src/test/java/org/acme/JansiLoaderTest.java:143-151 | the inner loop over the first `limit` cells appends to what was collected exactly the records and window bytes of those cells |
| ContentCheck.ScanChunks | src/test/java/org/acme/JansiLoaderTest.java:124-154 | the reference chunk-by-chunk comparison succeeds if and only if the two streams have the same length |
| ContentCheck.LengthMismatchError | src/test/java/org/acme/JansiLoaderTest.java:127-141 | for streams of different lengths: end of stream on the first stream exactly when it is the shorter one and ends on a chunk boundary; the same for the second stream; otherwise two different read sizes, each between 1 and 8192, the smaller of them the shorter stream's length modulo 8192 |
| ContentCheck.ZerosAreZero | src/test/java/org/acme/JansiLoaderTest.java:119-120 | both buffers start as 8192 zero bytes, the contents of `new byte[8192]` |
| ContentCheck.ReadChunks | src/test/java/org/acme/JansiLoaderTest.java:125-141 | reading one chunk from each stream ends the comparison when both are at their end, raises end of stream on the first or second stream or different read sizes exactly as the reference comparison does, and otherwise hands over a non-empty chunk that consumes part of the first stream |
| ContentCheck.CompareStreams | src/test/java/org/acme/JansiLoaderTest.java:116-155 | the loop over chunks, with either inner-loop bound, computes the reference chunk-by-chunk comparison of the two complete streams from zero-filled buffers |
| ContentCheck.ScannedExtendsStream | src/test/java/org/acme/JansiLoaderTest.java:119-143 | the bytes the loop compares begin with the stream itself; with the loop bounded by the bytes read they are exactly the stream |
| ContentCheck.WholeChunksScanNoStaleBytes | src/test/java/org/acme/JansiLoaderTest.java:143 | a stream of whole chunks leaves no stale bytes: the source's loop compares exactly its contents |
| ContentCheck.InspectChunk | src/test/java/org/acme/JansiLoaderTest.java:143-153 | scanning a whole chunk and then the next at position plus 8192 is one scan over both |
| ContentCheck.ScanMatchesScanned | src/test/java/org/acme/JansiLoaderTest.java:124-154 | the chunked comparison of two equally long streams succeeds and equals one scan over the two sequences of bytes the loop compares |
| ContentCheck.ScanFailsOnLengthMismatch | src/test/java/org/acme/JansiLoaderTest.java:127-141 | the comparison fails if and only if the streams differ in length, and then with end of stream on the first or second stream or different read sizes, as `LengthMismatchError` says from the two lengths |
| ContentCheck.LengthMismatchErrorShift | src/test/java/org/acme/JansiLoaderTest.java:153 | dropping a whole chunk from both streams does not change the error they run into |
| ContentCheck.ContinueJoin | src/test/java/org/acme/JansiLoaderTest.java:121-145 | carrying what was collected into one chunk's records and then into the outcome of the rest equals carrying both chunks' records at once into that outcome, whether it succeeds or throws |
| CheckContents.CheckContentsEquals | src/test/java/org/acme/JansiLoaderTest.java:116-155 | as written: the comparison fails exactly on a length mismatch, with the error `LengthMismatchError` gives. Records are strictly increasing, show different bytes and lie below the stream length rounded up to whole chunks. Every position where the streams differ is reported with its two bytes, and every record inside the streams carries the stream bytes at its position. Identical streams give no record and equal windows. Both windows hold 39 bytes once a third chunk is read and none otherwise, and they hold the stream bytes 18961 to 18999 when the streams reach that far |
| CheckContents.AsWrittenRecordsOrdered | src/test/java/org/acme/JansiLoaderTest.java:143-153 | for equally long streams the source's comparison succeeds, and its records are strictly increasing, show different bytes and lie below the rounded-up length |
| CheckContents.EveryDifferenceReported | src/test/java/org/acme/JansiLoaderTest.java:143-146 | with either inner-loop bound, the comparison of two equally long streams reports every position where they differ, with the two bytes found there, and every record at a position inside the streams carries the stream bytes at that position |
| CheckContents.PrefixDifferencesReported | src/test/java/org/acme/JansiLoaderTest.java:143-146 | scanning two sequences that begin with `a` and `b` records every difference between `a` and `b`, and every record inside them carries their bytes |
| CheckContents.AsWrittenIdenticalStreams | src/test/java/org/acme/JansiLoaderTest.java:124-154 | two streams with the same contents give no record and equal window sequences |
| CheckContents.WindowLengthAsWritten | src/test/java/org/acme/JansiLoaderTest.java:147-150 | the source's scan captures 39 window bytes when the stream holds more than two chunks and none otherwise |
| CheckContents.PaddedLengthThirdChunk | src/test/java/org/acme/JansiLoaderTest.java:143-153 | rounded up to whole chunks, a stream reaches into the third chunk exactly when it holds more than two chunks |
| CheckContents.AsWrittenWindow | src/test/java/org/acme/JansiLoaderTest.java:147-150 | both window sequences have the same length, 39 or 0, and for streams of at least 19000 bytes they are the stream bytes at positions 18961 to 18999 |
| CheckContents.WindowOfLongStream | src/test/java/org/acme/JansiLoaderTest.java:147-150 | for a stream reaching past the window, the window bytes are the stream's own bytes, whatever the buffer held before |
| CheckContents.CheckContentsEqualsFixed | src/test/java/org/acme/JansiLoaderTest.java:116-155 | corrected loop: fails exactly on a length mismatch, with the same errors. Otherwise a record is reported if and only if it is a real difference inside the streams, in increasing order. Identical streams give none. The windows are the stream slices between 18961 and 19000 |
| CheckContents.CheckContentsWith | src/test/java/org/acme/JansiLoaderTest.java:116-155 | the comparison with the inner loop's bound chosen by the caller. It fails exactly on a length mismatch, with the mismatch error. Identical streams give no record. Records show different bytes and lie below the rounded-up length. Every real difference is reported. With the corrected bound the result is exactly the real differences and the window slices |
| CheckContents.WholeChunksCompareAlike | src/test/java/org/acme/JansiLoaderTest.java:143 | for streams of whole chunks the source's comparison and the corrected one agree |
| CheckContents.ShortSecondChunkScan | src/test/java/org/acme/JansiLoaderTest.java:124-151 | for a stream of 8193 bytes, whatever the buffers held before, the source compares its first chunk, then its last byte followed by the stale bytes 1 to 8191 of the first chunk |
| CheckContents.StaleScan | src/test/java/org/acme/JansiLoaderTest.java:124-151 | the same stale layout, with the differing byte of the first chunk appearing a second time at 8192 plus its index |
| CheckContents.SingleDifferenceBeforeWindow | src/test/java/org/acme/JansiLoaderTest.java:143-150 | two sequences before the window that differ at one index give one record and no window byte |
| CheckContents.TwoChunksTwoRecords | src/test/java/org/acme/JansiLoaderTest.java:143-153 | a chunk with one record followed by a chunk with one record gives both records in order |
| CheckContents.StaleBytesReportedPastEnd | src/test/java/org/acme/JansiLoaderTest.java:143-146 | the source's loop reports, for two 8193-byte streams differing only at index `i` (1 ≤ i < 8192), the records at `i` and at `8192 + i`, the second lying past the end of the streams |
| CheckContents.StaleChunksCompared | src/test/java/org/acme/JansiLoaderTest.java:143-153 | the two scanned sequences of that stale layout yield the real record at `i` and its stale copy at `8192 + i`, and no window byte |
| CheckContents.StaleBytesIgnoredWhenFixed | src/test/java/org/acme/JansiLoaderTest.java:143-146 | on the same streams the corrected loop reports only the record at `i` |
| Version.GetVersion | src/test/java/org/acme/JansiLoaderTest.java:172-188 | the result is `"unknown"` exactly when the resource is missing or loading it throws; any other result holds only digits and dots; a missing `version` key gives `""`; a present value `v` gives exactly `v` with everything but digits and dots removed |
| Version.Trim | src/test/java/org/acme/JansiLoaderTest.java:181 | `trim()` is the contiguous middle of its input: everything before it and after it is at or below the space, and it neither starts nor ends with such a character |
| Version.TrimStart | src/test/java/org/acme/JansiLoaderTest.java:181 | the leading half of `trim()`: a suffix of the input whose removed prefix is all at or below the space and whose first character is not |
| Version.TrimEnd | src/test/java/org/acme/JansiLoaderTest.java:181 | the trailing half of `trim()`: a prefix of the input whose removed suffix is all at or below the space and whose last character is not |
| Version.NoVersionCharsSanitiseToNothing | src/test/java/org/acme/JansiLoaderTest.java:181 | a value holding no digit or dot becomes `""` after `trim().replaceAll("[^0-9.]", "")` |
| Version.KeepVersionChars | src/test/java/org/acme/JansiLoaderTest.java:181 | `replaceAll("[^0-9.]", "")` is no longer than its input and holds only digits and dots |
| Version.KeepCountsVersionChars | src/test/java/org/acme/JansiLoaderTest.java:181 | the sanitised string holds every digit and dot of its input, as often as the input does |
| Version.UnknownSanitisesToNothing | src/test/java/org/acme/JansiLoaderTest.java:180-181 | the fallback `"unknown"`, trimmed and sanitised, is empty |
| Version.KeepIsSubsequence | src/test/java/org/acme/JansiLoaderTest.java:181 | the sanitised version is an order-preserving subsequence of its input |
| Version.KeepAppend | src/test/java/org/acme/JansiLoaderTest.java:181 | sanitising a concatenation is concatenating the sanitised pieces |
| Version.KeepLeavesVersionStrings | src/test/java/org/acme/JansiLoaderTest.java:181 | a string of digits and dots is left unchanged |
| Version.KeepIdempotent | src/test/java/org/acme/JansiLoaderTest.java:181 | sanitising twice gives the same as sanitising once |
| Version.KeepDropsAll | src/test/java/org/acme/JansiLoaderTest.java:181 | a string with no digit or dot sanitises to the empty string |
| Version.TrimStartKeeps | src/test/java/org/acme/JansiLoaderTest.java:181 | removing leading characters at or below the space does not change the sanitised result |
| Version.TrimEndKeeps | src/test/java/org/acme/JansiLoaderTest.java:181 | removing trailing characters at or below the space does not change the sanitised result |
| Version.TrimIrrelevant | src/test/java/org/acme/JansiLoaderTest.java:181 | trimming before sanitising makes no difference to the result |
| VersionExamples.QualifierDropped | src/test/java/org/acme/JansiLoaderTest.java:181 | the qualifier `-SNAPSHOT` sanitises to nothing |
| VersionExamples.SnapshotSanitised | src/test/java/org/acme/JansiLoaderTest.java:181 | `"1.2.3-SNAPSHOT"` sanitises to `"1.2.3"` |
| VersionExamples.SnapshotVersion | src/test/java/org/acme/JansiLoaderTest.java:176-181 | a loaded `version` property `"1.2.3-SNAPSHOT"` gives the version `"1.2.3"` |
| Naming.Replace | src/test/java/org/acme/JansiLoaderTest.java:33 | `replace(from, to)` on characters keeps the length, turns exactly the occurrences of `from` into `to` and keeps every other character in place |
| Naming.PackagePath | src/test/java/org/acme/JansiLoaderTest.java:33 | the package path has the length of the package name, holds no dot and keeps every character of the name that is not a dot |
| Naming.NativeLibraryFolder | src/test/java/org/acme/JansiLoaderTest.java:34 | the folder is `/`, then the package path, then `/native/`, then the platform folder, each at its fixed position |
| Naming.ExtractedLibFileName | src/test/java/org/acme/JansiLoaderTest.java:48 | the extracted name starts with `jansi-`, ends with the library name, and is as long as its three parts plus the prefix and two dashes |
| Naming.LockFileName | src/test/java/org/acme/JansiLoaderTest.java:49 | the lock name is the library file name followed by `.lck`, so it differs from the library file name |
| Naming.ChildPath | src/test/java/org/acme/JansiLoaderTest.java:46-51 | a name inside a folder, both the resource path of line 46 and `new File(folder, name)` of lines 50-51, is the folder, a separator and the name, in that order |
| Naming.ZipEntryName | src/test/java/org/acme/JansiLoaderTest.java:85 | `substring(1)` succeeds exactly on a non-empty path, and its first character put back in front of the entry gives the path |
| Naming.PackagePathInverse | src/test/java/org/acme/JansiLoaderTest.java:33 | the package path holds no dot, and turns back into the package name when that name holds no separator |
| Naming.NativeEntryName | src/test/java/org/acme/JansiLoaderTest.java:85 | the library's resource path is absolute, and its zip entry name is `<package path>/native/<platform folder>/<library>` |
| Naming.ZipEntryRoundTrip | src/test/java/org/acme/JansiLoaderTest.java:85 | for an absolute path, putting the separator back in front of the entry name gives the path again |
| Naming.SplitAtFirst | src/test/java/org/acme/JansiLoaderTest.java:48 | splitting `a + c + b` at the first `c` gives `a` and `b` back when `a` holds no `c` |
| Naming.SplitNameParts | src/test/java/org/acme/JansiLoaderTest.java:48 | after the `jansi-` prefix, the first dash ends the version and the next one ends the uuid, when neither holds a dash |
| Naming.ExtractedNameRoundTrip | src/test/java/org/acme/JansiLoaderTest.java:48 | the version, the uuid and the library name can be read back from `jansi-<version>-<uuid>-<library>` when version and uuid hold no dash |
| Naming.ExtractedNamesDistinct | src/test/java/org/acme/JansiLoaderTest.java:48-49 | extractions that differ in version or uuid use different library names and different lock names |
| Naming.VersionHasNoDash | src/test/java/org/acme/JansiLoaderTest.java:48 | whatever `getVersion` returns holds no dash, so it never shifts the uuid in the file name |
| Naming.LockIsNotLibrary | src/test/java/org/acme/JansiLoaderTest.java:49-51 | the `.lck` file and the library file are different files |
| Extraction.ExtractLibraryFile | src/test/java/org/acme/JansiLoaderTest.java:53-59 | the lock file exists afterwards: it keeps its old contents or is new and empty. When the resource exists, the library file holds exactly the resource bytes. A missing resource fails after the lock file was created. No other file is created or changed |
| Extraction.ExtractIdempotent | src/test/java/org/acme/JansiLoaderTest.java:53-59 | extracting a second time with the same uuid leaves the file system as the first extraction left it |
| Extraction.CompareWithArchive | src/test/java/org/acme/JansiLoaderTest.java:84-97 | a jar that cannot be opened or a missing entry ends the test. Otherwise the entry is compared with the extracted file by the loop with the chosen bound. A length mismatch gives the mismatch error. Equal lengths give the reference comparison, which contains every real difference, with the stale records of the source's loop under `WholeBuffer` and exactly the real differences under `BytesRead`. An entry equal to the file gives no record |
| Extraction.TestJansiSoContent | src/test/java/org/acme/JansiLoaderTest.java:30-98 | a missing library resource fails before any file is touched. Otherwise the file system is the one extraction leaves, and the comparison with the resource finds no difference. The archive comparison fails exactly when the archive, the entry or equal lengths are missing. Otherwise it gives the reference comparison of entry and resource with the chosen bound: every real difference, plus the stale records of the loop as written, or exactly the real differences with the corrected loop |

## Left out

- Logging and report formatting: the `LOGGER` calls, the joined `DifferentByte` listing and `System.err.println` on an `IOException` in `getVersion`. They are diagnostics only.
- `JansiLoader` and `OSInfo`: they are not part of this model. The package name, the platform folder and the class-loader resources are inputs to `TestJansiSoContent`, and the resources are a map from resource path to bytes.
- `randomUUID`: `Random` is nondeterministic and `Long.toHexString` is library behaviour. The uuid is an input. The file-name lemmas assume only that it holds no dash, which a hexadecimal string never does. No uniqueness is claimed.
- `getTempDir` and the Maven repository path: the temporary folder and the archive's entries are inputs, and `None` stands for a jar that cannot be opened.
- `Properties.load`: the lookup result is an input. Resource missing, key missing and value present are `Option<Option<string>>`, and a thrown `IOException` is a flag.
- Real I/O faults: failures of `FileOutputStream`, `Files.copy` and `FileInputStream`, and an `IOException` while reading a stream. A read always makes progress or reports end of stream, as the `InputStream` contract demands for a non-empty request.
- Closing streams, try-with-resources, and other processes using the lock file concurrently.
- Java `int` arithmetic: positions and `bufferStart` are unbounded integers, so overflow for streams beyond 2 GiB is not modelled.
- Java `byte` is signed. Bytes are modelled as `bv8`; only their equality matters to the comparison.
- `new File(folder, name)` is the plain string `folder + "/" + name`, without path normalisation.
- An exception in the middle of a comparison leaves the caller's window lists partly filled. The model drops them with the exception, as the test does by propagating it.
- CheckContents.CheckContentsEquals: the window contents are stated only for streams of at least 19000 bytes. For shorter streams with a third chunk the window holds stale bytes, and only its length is stated.
- CheckContents.AsWrittenWindow: the window contents are stated only for streams of at least 19000 bytes, for the reason given above.

## Findings

| source | as written | input that shows it | evidently intended | confidence | as-written member | corrected member |
|---|---|---|---|---|---|---|
| src/test/java/org/acme/JansiLoaderTest.java:143 | the inner loop runs to `buffer1.length`, so on a short final chunk it also compares the bytes the previous chunk left in both buffers | two streams of 8193 bytes, equal except at index 5 (say 1 against 0): besides the real record at 5, a record `DifferentByte(8197, 1, 0)` is reported past the end of the streams | the loop runs to `numRead1`, so only bytes actually read are compared | high, not executed | CheckContents.StaleBytesReportedPastEnd | CheckContents.CheckContentsEqualsFixed |
