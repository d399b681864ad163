/** How the test names the packaged native library, the files it extracts the
    library to, and the archive entry it reads the library back from. */
module Naming {
  import opened Wrappers
  import opened Version

  /** The library the test looks for. */
  const NativeLibraryName: string := "libjansi.so"

  /** What every extracted library file name starts with. */
  const ExtractedPrefix: string := "jansi-"

  const LockSuffix: string := ".lck"

  /** `s.replace(from, to)` on single characters: every `from` becomes `to`,
      every other character stays. */
  function Replace(s: string, from: char, to: char): (r: string)
    ensures |r| == |s|
    ensures forall i :: 0 <= i < |s| ==> r[i] == (if s[i] == from then to else s[i])
    decreases |s|
  {
    if |s| == 0 then []
    else [if s[0] == from then to else s[0]] + Replace(s[1..], from, to)
  }

  /** The package name with its dots turned into path separators. */
  function PackagePath(packageName: string): (p: string)
    ensures |p| == |packageName|
    ensures '.' !in p
    ensures forall i :: 0 <= i < |p| && packageName[i] != '.' ==> p[i] == packageName[i]
  {
    Replace(packageName, '.', '/')
  }

  /** `String.format("/%s/native/%s", packagePath, osFolder)`. */
  function NativeLibraryFolder(packageName: string, osFolder: string): (f: string)
    ensures var n := |packageName|;
      && |f| == n + 9 + |osFolder|
      && f[0] == '/'
      && f[1..n + 1] == PackagePath(packageName)
      && f[n + 1..n + 9] == "/native/"
      && f[n + 9..] == osFolder
  {
    var f := "/" + PackagePath(packageName) + "/native/" + osFolder;
    assert f == "/" + (PackagePath(packageName) + ("/native/" + osFolder));
    f
  }

  /** `String.format("jansi-%s-%s-%s", version, uuid, libraryFileName)`. */
  function ExtractedLibFileName(version: string, uuid: string, libraryFileName: string): (name: string)
    ensures |name| == |ExtractedPrefix| + |version| + 1 + |uuid| + 1 + |libraryFileName|
    ensures name[..|ExtractedPrefix|] == ExtractedPrefix
    ensures name[|name| - |libraryFileName|..] == libraryFileName
  {
    ExtractedPrefix + version + "-" + uuid + "-" + libraryFileName
  }

  /** The lock file sits beside the library under the library's name plus `.lck`. */
  function LockFileName(extractedLibFileName: string): (lck: string)
    ensures |lck| == |extractedLibFileName| + |LockSuffix|
    ensures lck[..|extractedLibFileName|] == extractedLibFileName
    ensures lck[|extractedLibFileName|..] == LockSuffix
    ensures lck != extractedLibFileName
  {
    extractedLibFileName + LockSuffix
  }

  /** A name inside a folder: both the resource path `folder + "/" + name`
      and `new File(folder, name)` as a path string. */
  function ChildPath(folder: string, name: string): (path: string)
    ensures |path| == |folder| + 1 + |name|
    ensures path[..|folder|] == folder && path[|folder|] == '/' && path[|folder| + 1..] == name
  {
    folder + "/" + name
  }

  /** `path.substring(1)`, which throws on the empty string. */
  function ZipEntryName(path: string): (entry: Option<string>)
    ensures entry.Some? <==> |path| > 0
    ensures entry.Some? ==> [path[0]] + entry.value == path
  {
    if |path| == 0 then None else Some(path[1..])
  }

  /** The three parts an extracted library file name is made of. */
  datatype NameParts = NameParts(version: string, uuid: string, libraryFileName: string)

  /** Splits `s` at its first `c`: the part before it and the part after it. */
  function SplitAt(s: string, c: char): Option<(string, string)>
    decreases |s|
  {
    if |s| == 0 then None
    else if s[0] == c then Some(([], s[1..]))
    else match SplitAt(s[1..], c)
      case None => None
      case Some((before, after)) => Some(([s[0]] + before, after))
  }

  /** Reads the version, the uuid and the library name back out of an
      extracted library file name. */
  function ParseExtractedName(name: string): Option<NameParts>
  {
    if |name| < |ExtractedPrefix| || name[..|ExtractedPrefix|] != ExtractedPrefix then None
    else match SplitAt(name[|ExtractedPrefix|..], '-')
      case None => None
      case Some((version, rest)) =>
        match SplitAt(rest, '-')
        case None => None
        case Some((uuid, libraryFileName)) => Some(NameParts(version, uuid, libraryFileName))
  }

  /** The package path holds no dot, and it turns back into the package name
      when the name holds no separator, as Java package names never do. */
  lemma PackagePathInverse(packageName: string)
    ensures '.' !in PackagePath(packageName)
    ensures '/' !in packageName ==> Replace(PackagePath(packageName), '/', '.') == packageName
  {
    var p := PackagePath(packageName);
    if '/' !in packageName {
      assert forall i :: 0 <= i < |p| ==> Replace(p, '/', '.')[i] == packageName[i];
    }
  }

  /** Where the library lies among the resources: `<folder>/<library>`. */
  function NativeResourcePath(packageName: string, osFolder: string, libraryFileName: string): string
  {
    ChildPath(NativeLibraryFolder(packageName, osFolder), libraryFileName)
  }

  /** The library's entry in the archive: the resource path without its
      leading separator. */
  function NativeEntry(packageName: string, osFolder: string, libraryFileName: string): string
  {
    PackagePath(packageName) + "/native/" + osFolder + "/" + libraryFileName
  }

  /** The resource path is absolute, and dropping its leading separator gives
      the archive entry of the library below the package folder. */
  lemma NativeEntryName(packageName: string, osFolder: string, libraryFileName: string)
    ensures NativeResourcePath(packageName, osFolder, libraryFileName)[0] == '/'
    ensures ZipEntryName(NativeResourcePath(packageName, osFolder, libraryFileName))
      == Some(NativeEntry(packageName, osFolder, libraryFileName))
  {
    var rest := NativeEntry(packageName, osFolder, libraryFileName);
    assert NativeResourcePath(packageName, osFolder, libraryFileName) == "/" + rest;
  }

  /** For an absolute path, putting the separator back in front of the entry
      name gives the path again. */
  lemma ZipEntryRoundTrip(path: string)
    requires |path| > 0 && path[0] == '/'
    ensures ZipEntryName(path).Some?
    ensures "/" + ZipEntryName(path).value == path
  {
  }

  /** Splitting `a + [c] + b` at `c` gives `a` and `b` back when `a` holds no `c`. */
  lemma {:induction false} SplitAtFirst(a: string, c: char, b: string)
    requires c !in a
    ensures SplitAt(a + [c] + b, c) == Some((a, b))
    decreases |a|
  {
    if |a| == 0 {
      assert a + [c] + b == [c] + b;
    } else {
      assert (a + [c] + b)[1..] == a[1..] + [c] + b;
      SplitAtFirst(a[1..], c, b);
      assert [a[0]] + a[1..] == a;
    }
  }

  /** The extracted file name can be read back: the version and the uuid are
      separated by the first two dashes after the prefix, so they are
      recovered whenever they hold no dash themselves. */
  lemma ExtractedNameRoundTrip(version: string, uuid: string, libraryFileName: string)
    requires '-' !in version && '-' !in uuid
    ensures ParseExtractedName(ExtractedLibFileName(version, uuid, libraryFileName))
      == Some(NameParts(version, uuid, libraryFileName))
  {
    var name := ExtractedLibFileName(version, uuid, libraryFileName);
    var afterPrefix := version + "-" + uuid + "-" + libraryFileName;
    assert name == ExtractedPrefix + afterPrefix;
    assert name[|ExtractedPrefix|..] == afterPrefix;
    SplitNameParts(version, uuid, libraryFileName);
  }

  /** After the prefix, the first dash ends the version and the next one ends
      the uuid. */
  lemma SplitNameParts(version: string, uuid: string, libraryFileName: string)
    requires '-' !in version && '-' !in uuid
    ensures SplitAt(version + "-" + uuid + "-" + libraryFileName, '-') == Some((version, uuid + "-" + libraryFileName))
    ensures SplitAt(uuid + "-" + libraryFileName, '-') == Some((uuid, libraryFileName))
  {
    SplitAtFirst(version, '-', uuid + "-" + libraryFileName);
    assert version + "-" + uuid + "-" + libraryFileName == version + ['-'] + (uuid + "-" + libraryFileName);
    SplitAtFirst(uuid, '-', libraryFileName);
    assert uuid + "-" + libraryFileName == uuid + ['-'] + libraryFileName;
  }

  /** Two extractions that differ in version or uuid use different file names,
      and so different lock file names. */
  lemma ExtractedNamesDistinct(v1: string, u1: string, v2: string, u2: string, libraryFileName: string)
    requires '-' !in v1 && '-' !in u1 && '-' !in v2 && '-' !in u2
    requires v1 != v2 || u1 != u2
    ensures ExtractedLibFileName(v1, u1, libraryFileName) != ExtractedLibFileName(v2, u2, libraryFileName)
    ensures LockFileName(ExtractedLibFileName(v1, u1, libraryFileName))
      != LockFileName(ExtractedLibFileName(v2, u2, libraryFileName))
  {
    ExtractedNameRoundTrip(v1, u1, libraryFileName);
    ExtractedNameRoundTrip(v2, u2, libraryFileName);
    var n1, n2 := ExtractedLibFileName(v1, u1, libraryFileName), ExtractedLibFileName(v2, u2, libraryFileName);
    assert LockFileName(n1)[..|n1|] == n1;
    assert LockFileName(n2)[..|n2|] == n2;
  }

  /** Whatever `getVersion` returns holds no dash, so it never shifts the uuid
      in the extracted file name. */
  lemma VersionHasNoDash(src: VersionSource)
    ensures '-' !in GetVersion(src)
  {
    var v := GetVersion(src);
    if v == Unknown {
      assert forall i :: 0 <= i < |Unknown| ==> Unknown[i] != '-';
    } else {
      assert forall i :: 0 <= i < |v| ==> IsVersionChar(v[i]);
    }
  }

  /** The lock file and the library file are never the same file. */
  lemma LockIsNotLibrary(folder: string, extractedLibFileName: string)
    ensures ChildPath(folder, LockFileName(extractedLibFileName)) != ChildPath(folder, extractedLibFileName)
  {
    assert |ChildPath(folder, LockFileName(extractedLibFileName))| == |ChildPath(folder, extractedLibFileName)| + |LockSuffix|;
  }
}
