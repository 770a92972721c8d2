/**
 * Locating and archiving the system log (`find_messages`,
 * `get_messages_archive_path`, `archive_messages`). Which files exist on
 * the mounted volumes is an input: the set of paths `os.path.exists` accepts.
 */
module ArtifactLocator {
  import opened Wrappers
  import opened PosixPath

  /**
   * The messages path of the first device, in list order, whose
   * `/mnt/<dev>/var/log/messages` exists; `None` when no device has one.
   */
  function FirstWithMessages(devices: seq<string>, present: set<string>): (r: Option<string>)
    ensures r.None? <==> forall d :: d in devices ==> MessagesPath(d) !in present
    ensures r.Some? ==>
      exists i :: 0 <= i < |devices| && r.value == MessagesPath(devices[i])
        && r.value in present
        && forall j :: 0 <= j < i ==> MessagesPath(devices[j]) !in present
  {
    if devices == [] then
      None
    else if MessagesPath(devices[0]) in present then
      Some(MessagesPath(devices[0]))
    else
      var r := FirstWithMessages(devices[1..], present);
      assert forall d :: d in devices <==> d == devices[0] || d in devices[1..];
      if r.Some? then
        var i :| 0 <= i < |devices[1..]| && r.value == MessagesPath(devices[1..][i])
          && forall j :: 0 <= j < i ==> MessagesPath(devices[1..][j]) !in present;
        assert forall j :: 0 <= j < i + 1 ==> MessagesPath(devices[j]) !in present by {
          forall j | 0 <= j < i + 1 ensures MessagesPath(devices[j]) !in present {
            if j > 0 { assert devices[j] == devices[1..][j - 1]; }
          }
        }
        assert r.value == MessagesPath(devices[i + 1]);
        r
      else
        r
  }

  /** `find_messages(sdc_devices)`: the search loop with its early return. */
  method FindMessages(devices: seq<string>, present: set<string>) returns (r: Option<string>)
    ensures r == FirstWithMessages(devices, present)
  {
    for i := 0 to |devices|
      invariant FirstWithMessages(devices, present) == FirstWithMessages(devices[i..], present)
    {
      var mntPath := MountPath(devices[i]);
      var messagesPath := Join(Join(Join(mntPath, "var"), "log"), "messages");
      if messagesPath in present {
        return Some(messagesPath);
      }
      assert devices[i..][1..] == devices[i + 1..];
    }
    return None;
  }

  lemma ExampleLogPaths()
    ensures MessagesPath("sdc2") == "/mnt/sdc2/var/log/messages"
    ensures MessagesPath("sdc1") != "/mnt/sdc2/var/log/messages"
  {
    ComponentPaths("sdc2");
    ComponentPathsInjective("sdc1", "sdc2");
  }

  /** Example: with `[sdc1, sdc2]` and only `sdc2` holding the log, the log of `sdc2` is found. */
  lemma SecondDeviceFound()
    ensures FirstWithMessages(["sdc1", "sdc2"], {"/mnt/sdc2/var/log/messages"})
         == Some("/mnt/sdc2/var/log/messages")
  {
    var devices, found := ["sdc1", "sdc2"], "/mnt/sdc2/var/log/messages";
    ExampleLogPaths();
    assert MessagesPath(devices[0]) !in {found};
    assert devices[1..] == ["sdc2"];
    assert FirstWithMessages(devices[1..], {found}) == Some(found);
  }

  /** `get_messages_archive_path()`: `os.path.join('/tmp', 'messages_archive.txt.gz')`. */
  function ArchivePath(): (p: string)
    ensures p == "/tmp/messages_archive.txt.gz"
  {
    Join("/tmp", "messages_archive.txt.gz")
  }

  /** A gzip copy of `source` written to `target`. */
  datatype Archive = Archive(source: string, target: string)

  /** `open(None, 'rb')` raises `TypeError`: the log was not found on any device. */
  datatype ArchiveError = NoMessagesPath

  /**
   * `archive_messages(messages_path)`: which file is compressed into which.
   * An absent path, which `main` passes on when no device has the log, fails.
   */
  function ArchiveMessages(messagesPath: Option<string>): (r: Result<Archive, ArchiveError>)
    ensures r.Failure? <==> messagesPath.None?
    ensures r.Success? ==> r.value.source == messagesPath.value && r.value.target == ArchivePath()
  {
    match messagesPath
    case None => Failure(NoMessagesPath)
    case Some(p) => Success(Archive(p, ArchivePath()))
  }

  /**
   * The sequence in `main`: archiving fails exactly when no device has the
   * log, and otherwise compresses the first device's log into the archive path.
   */
  lemma ArchiveOfFoundMessages(devices: seq<string>, present: set<string>)
    ensures var r := ArchiveMessages(FirstWithMessages(devices, present));
      && (r.Failure? <==> forall d :: d in devices ==> MessagesPath(d) !in present)
      && (r.Success? ==> r.value.source in present && r.value.target == ArchivePath())
      && (r.Success? ==> r.value.source == FirstWithMessages(devices, present).value)
  {
  }
}
