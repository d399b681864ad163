/** The extraction step of `extractAndLoadLibraryFile` and the test driver
    `testJansiSoContent` around it, over an abstract file system. */
module Extraction {
  import opened Wrappers
  import opened ByteStream
  import opened ByteDiff
  import opened ContentCheck
  import opened CheckContents
  import opened Version
  import opened Naming

  /** Files by path. */
  type FileSystem = map<string, seq<byte>>

  /** What the class loader finds, by absolute resource path. */
  type Resources = map<string, seq<byte>>

  /** Archive entries by entry name. */
  type Archive = map<string, seq<byte>>

  /** `Files.copy` handed the `null` stream that `getResourceAsStream` returns
      for a missing resource. */
  datatype ExtractError = NullResourceStream

  /** The file system after extraction and, when it succeeded, the path of the
      extracted library file. */
  datatype Extraction = Extraction(fs: FileSystem, outcome: Result<string, ExtractError>)

  /** The extracted file's name, built from the version `getVersion` reads. */
  function ExtractedName(versionSrc: VersionSource, uuid: string, libraryFileName: string): string
  {
    ExtractedLibFileName(GetVersion(versionSrc), uuid, libraryFileName)
  }

  function ExtractedLibPath(targetFolder: string, versionSrc: VersionSource, uuid: string, libraryFileName: string): string
  {
    ChildPath(targetFolder, ExtractedName(versionSrc, uuid, libraryFileName))
  }

  function ExtractedLckPath(targetFolder: string, versionSrc: VersionSource, uuid: string, libraryFileName: string): string
  {
    ChildPath(targetFolder, LockFileName(ExtractedName(versionSrc, uuid, libraryFileName)))
  }

  /** The copy in `extractAndLoadLibraryFile`: creates the lock file empty
      unless it exists, then copies the resource over the library file. A
      missing resource fails at the copy, after the lock file was created. No
      other file is touched. */
  function ExtractLibraryFile(fs: FileSystem, resources: Resources, libFolder: string, libraryFileName: string,
                              targetFolder: string, versionSrc: VersionSource, uuid: string): (e: Extraction)
    ensures var lck := ExtractedLckPath(targetFolder, versionSrc, uuid, libraryFileName);
      lck in e.fs && e.fs[lck] == (if lck in fs then fs[lck] else [])
    ensures var lib := ExtractedLibPath(targetFolder, versionSrc, uuid, libraryFileName);
      var resource := ChildPath(libFolder, libraryFileName);
      && (resource in resources ==> e.outcome == Success(lib) && lib in e.fs && e.fs[lib] == resources[resource])
      && (resource !in resources ==> e.outcome == Failure(NullResourceStream))
    ensures var lck := ExtractedLckPath(targetFolder, versionSrc, uuid, libraryFileName);
      var lib := ExtractedLibPath(targetFolder, versionSrc, uuid, libraryFileName);
      var copied := ChildPath(libFolder, libraryFileName) in resources;
      && e.fs.Keys == fs.Keys + {lck} + (if copied then {lib} else {})
      && forall p :: p in fs && p != lck && (p != lib || !copied) ==> e.fs[p] == fs[p]
  {
    var name := ExtractedName(versionSrc, uuid, libraryFileName);
    var lib := ChildPath(targetFolder, name);
    var lck := ChildPath(targetFolder, LockFileName(name));
    var resource := ChildPath(libFolder, libraryFileName);
    var locked := if lck in fs then fs else fs[lck := []];
    LockIsNotLibrary(targetFolder, name);
    if resource in resources then Extraction(locked[lib := resources[resource]], Success(lib))
    else Extraction(locked, Failure(NullResourceStream))
  }

  /** Extracting again with the same uuid leaves the file system as the first
      extraction left it: the lock file is kept and the copy is repeated. */
  lemma ExtractIdempotent(fs: FileSystem, resources: Resources, libFolder: string, libraryFileName: string,
                          targetFolder: string, versionSrc: VersionSource, uuid: string)
    ensures var once := ExtractLibraryFile(fs, resources, libFolder, libraryFileName, targetFolder, versionSrc, uuid);
      ExtractLibraryFile(once.fs, resources, libFolder, libraryFileName, targetFolder, versionSrc, uuid) == once
  {
    var once := ExtractLibraryFile(fs, resources, libFolder, libraryFileName, targetFolder, versionSrc, uuid);
    var twice := ExtractLibraryFile(once.fs, resources, libFolder, libraryFileName, targetFolder, versionSrc, uuid);
    assert twice.fs.Keys == once.fs.Keys;
    assert forall p :: p in once.fs ==> twice.fs[p] == once.fs[p];
  }

  /** How the test ends, in the order its steps can fail. */
  datatype TestError =
    | NativeLibraryNotFound(path: string)
    | ComparisonFailed(error: CompareError)
    | ArchiveNotOpened
    | ZipEntryMissing(entry: string)

  /** The two comparisons the test logs: the extracted file against the
      resource stream, then against the archive entry. */
  datatype TestReport = TestReport(viaResource: Comparison, viaArchive: Comparison)

  /** The first failure of the two comparisons, or both reports. */
  function Combine(viaResource: Result<Comparison, CompareError>, viaArchive: Result<Comparison, TestError>): Result<TestReport, TestError>
  {
    match viaResource
    case Failure(e) => Failure(ComparisonFailed(e))
    case Success(c1) =>
      match viaArchive
      case Failure(e) => Failure(e)
      case Success(c2) => Success(TestReport(c1, c2))
  }

  /** `testJansiSoContent`: finds the library resource, extracts it to the
      temporary folder and compares the extracted file with the resource and
      with the entry of the library archive. The platform folder, the package
      name, the temporary folder, the uuid and the archive's entries are
      inputs; `None` for the archive stands for a jar that cannot be opened.
      Each stream reads with its own short-read schedule. `bound` selects the
      comparison's inner loop: `WholeBuffer` is the test as written,
      `BytesRead` the corrected loop. */
  method TestJansiSoContent(resources: Resources, archive: Option<Archive>, fs: FileSystem,
                            tempFolder: string, packageName: string, osFolder: string,
                            versionSrc: VersionSource, uuid: string,
                            resourceGrants: seq<nat>, fileGrants: seq<nat>,
                            entryGrants: seq<nat>, fileAgainGrants: seq<nat>, bound: ScanBound)
    returns (outcome: Result<TestReport, TestError>, fsAfter: FileSystem)
    ensures var path := NativeResourcePath(packageName, osFolder, NativeLibraryName);
      path !in resources <==> outcome == Failure(NativeLibraryNotFound(path))
    ensures NativeResourcePath(packageName, osFolder, NativeLibraryName) !in resources ==> fsAfter == fs
    ensures outcome.Success? ==> outcome.value.viaResource.differentBytes == []
    ensures outcome.Success? ==>
      forall d :: d in outcome.value.viaArchive.differentBytes ==>
        0 <= d.position < PaddedLength(|resources[NativeResourcePath(packageName, osFolder, NativeLibraryName)]|)
    ensures var path := NativeResourcePath(packageName, osFolder, NativeLibraryName);
      path in resources && archive.None? ==> outcome == Failure(ArchiveNotOpened)
    ensures var path, entry := NativeResourcePath(packageName, osFolder, NativeLibraryName), NativeEntry(packageName, osFolder, NativeLibraryName);
      path in resources && archive.Some? && entry !in archive.value ==>
        outcome == Failure(ZipEntryMissing(entry))
    ensures var path, entry := NativeResourcePath(packageName, osFolder, NativeLibraryName), NativeEntry(packageName, osFolder, NativeLibraryName);
      path in resources && archive.Some? && entry in archive.value && |archive.value[entry]| != |resources[path]| ==>
        outcome == Failure(ComparisonFailed(LengthMismatchError(|archive.value[entry]|, |resources[path]|)))
    ensures var path, entry := NativeResourcePath(packageName, osFolder, NativeLibraryName), NativeEntry(packageName, osFolder, NativeLibraryName);
      path in resources && archive.Some? && entry in archive.value && |archive.value[entry]| == |resources[path]| ==>
        && outcome.Success?
        && outcome.value.viaArchive == ContentsCompared(archive.value[entry], resources[path], bound).value
    ensures var path, entry := NativeResourcePath(packageName, osFolder, NativeLibraryName), NativeEntry(packageName, osFolder, NativeLibraryName);
      path in resources && archive.Some? && entry in archive.value && |archive.value[entry]| == |resources[path]| && outcome.Success? ==>
        forall j :: 0 <= j < |resources[path]| && archive.value[entry][j] != resources[path][j] ==>
          DifferentByte(j, archive.value[entry][j], resources[path][j]) in outcome.value.viaArchive.differentBytes
    ensures var path, entry := NativeResourcePath(packageName, osFolder, NativeLibraryName), NativeEntry(packageName, osFolder, NativeLibraryName);
      path in resources && archive.Some? && entry in archive.value && |archive.value[entry]| == |resources[path]| && bound == BytesRead ==>
        outcome.Success? && outcome.value.viaArchive == Inspect(archive.value[entry], resources[path], 0)
    ensures var path, entry := NativeResourcePath(packageName, osFolder, NativeLibraryName), NativeEntry(packageName, osFolder, NativeLibraryName);
      path in resources && archive.Some? && entry in archive.value && archive.value[entry] == resources[path] ==>
        outcome.Success? && outcome.value.viaArchive.differentBytes == []
    ensures var entry := NativeEntry(packageName, osFolder, NativeLibraryName);
      outcome.Success? <==>
        && NativeResourcePath(packageName, osFolder, NativeLibraryName) in resources
        && archive.Some? && entry in archive.value
        && |archive.value[entry]| == |resources[NativeResourcePath(packageName, osFolder, NativeLibraryName)]|
    ensures NativeResourcePath(packageName, osFolder, NativeLibraryName) in resources ==>
      fsAfter == ExtractLibraryFile(fs, resources, NativeLibraryFolder(packageName, osFolder), NativeLibraryName,
                                    tempFolder, versionSrc, uuid).fs
  {
    var folder := NativeLibraryFolder(packageName, osFolder);
    var path := NativeResourcePath(packageName, osFolder, NativeLibraryName);
    if path !in resources {
      return Failure(NativeLibraryNotFound(path)), fs;
    }
    var extraction := ExtractLibraryFile(fs, resources, folder, NativeLibraryName, tempFolder, versionSrc, uuid);
    fsAfter := extraction.fs;
    var lib := ExtractedLibPath(tempFolder, versionSrc, uuid, NativeLibraryName);
    var viaResource := CheckContentsWith(Stream(resources[path], resourceGrants), Stream(fsAfter[lib], fileGrants), bound);

    NativeEntryName(packageName, osFolder, NativeLibraryName);
    var viaArchive := CompareWithArchive(archive, ZipEntryName(path).value, fsAfter[lib], entryGrants, fileAgainGrants, bound);
    outcome := Combine(viaResource, viaArchive);
  }

  /** The second half of the test: opens the archive, looks up the entry and
      compares it with the extracted file. A jar that cannot be opened and a
      missing entry (a `null` entry handed to `getInputStream`) end the test. */
  method CompareWithArchive(archive: Option<Archive>, entry: string, extracted: seq<byte>,
                            entryGrants: seq<nat>, fileGrants: seq<nat>, bound: ScanBound)
    returns (r: Result<Comparison, TestError>)
    ensures archive.None? ==> r == Failure(ArchiveNotOpened)
    ensures archive.Some? && entry !in archive.value ==> r == Failure(ZipEntryMissing(entry))
    ensures archive.Some? && entry in archive.value ==>
      && (|archive.value[entry]| != |extracted| ==>
            r == Failure(ComparisonFailed(LengthMismatchError(|archive.value[entry]|, |extracted|))))
      && (|archive.value[entry]| == |extracted| ==>
            && r == Success(ContentsCompared(archive.value[entry], extracted, bound).value)
            && (forall j :: 0 <= j < |extracted| && archive.value[entry][j] != extracted[j] ==>
                  DifferentByte(j, archive.value[entry][j], extracted[j]) in r.value.differentBytes)
            && (bound == BytesRead ==> r == Success(Inspect(archive.value[entry], extracted, 0))))
      && (archive.value[entry] == extracted ==> r.Success? && r.value.differentBytes == [])
    ensures r.Success? ==> forall d :: d in r.value.differentBytes ==> 0 <= d.position < PaddedLength(|extracted|)
  {
    match archive {
      case None =>
        r := Failure(ArchiveNotOpened);
      case Some(entries) =>
        if entry !in entries {
          r := Failure(ZipEntryMissing(entry));
        } else {
          var c := CheckContentsWith(Stream(entries[entry], entryGrants), Stream(extracted, fileGrants), bound);
          r := match c
            case Success(comparison) => Success(comparison)
            case Failure(e) => Failure(ComparisonFailed(e));
        }
    }
  }
}
