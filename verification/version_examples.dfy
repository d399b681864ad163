/** The version strings the sanitiser is expected to produce. */
module VersionExamples {
  import opened Wrappers
  import opened Version

  lemma ReleaseKept()
    ensures KeepVersionChars("1.2.3") == "1.2.3"
  {
  }

  lemma QualifierHeadDropped()
    ensures KeepVersionChars("-SNAP") == ""
  {
  }

  lemma QualifierTailDropped()
    ensures KeepVersionChars("SHOT") == ""
  {
  }

  /** The qualifier holds no digit or dot. */
  lemma QualifierDropped()
    ensures KeepVersionChars("-SNAPSHOT") == ""
  {
    var head, tail := "-SNAP", "SHOT";
    assert head + tail == "-SNAPSHOT";
    KeepAppend(head, tail);
    QualifierHeadDropped();
    QualifierTailDropped();
  }

  /** Sanitising a snapshot version keeps the release number only. */
  lemma SnapshotSanitised()
    ensures KeepVersionChars("1.2.3-SNAPSHOT") == "1.2.3"
  {
    var v, q := "1.2.3", "-SNAPSHOT";
    assert v + q == "1.2.3-SNAPSHOT";
    KeepAppend(v, q);
    ReleaseKept();
    QualifierDropped();
  }

  /** A snapshot version read from the properties loses its qualifier. */
  lemma SnapshotVersion()
    ensures GetVersion(VersionSource(Some(Some("1.2.3-SNAPSHOT")), false)) == "1.2.3"
  {
    TrimIrrelevant("1.2.3-SNAPSHOT");
    SnapshotSanitised();
  }
}
