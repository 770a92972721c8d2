/**
 * The fixed paths of the script, built with Python's `os.path.join` on a
 * POSIX system.
 */
module PosixPath {

  /**
   * `os.path.join(a, b)`: an absolute `b` replaces `a`; otherwise `b` is
   * appended, with a `/` in between unless `a` is empty or already ends in one.
   */
  function Join(a: string, b: string): string
  {
    if |b| > 0 && b[0] == '/' then b
    else if |a| == 0 || a[|a| - 1] == '/' then a + b
    else a + "/" + b
  }

  /**
   * The layout of a join: an absolute `b` is the result; otherwise `a` comes
   * first and `b` last, a `/` stands just before `b` when `a` is non-empty,
   * and one is inserted exactly when `a` is non-empty without a trailing `/`.
   */
  lemma JoinLayout(a: string, b: string)
    ensures var r := Join(a, b);
      && (|b| > 0 && b[0] == '/' ==> r == b)
      && (!(|b| > 0 && b[0] == '/') ==>
        && |a| + |b| <= |r| <= |a| + |b| + 1
        && r[..|a|] == a
        && r[|r| - |b|..] == b
        && (|a| > 0 ==> r[|r| - |b| - 1] == '/')
        && (|r| == |a| + |b| + 1 <==> |a| > 0 && a[|a| - 1] != '/'))
  {
  }

  /** A single path component: non-empty and free of `/` (every `/dev` entry name is one). */
  predicate IsComponent(name: string)
  {
    |name| > 0 && '/' !in name
  }

  /** `os.path.join('/dev', dev)`: the raw device path handed to `mount`. */
  function DevPath(dev: string): string
  {
    Join("/dev", dev)
  }

  /** `os.path.join('/mnt', dev)`: where `dev` is mounted. */
  function MountPath(dev: string): string
  {
    Join("/mnt", dev)
  }

  /** `os.path.join(mnt_path, 'var', 'log', 'messages')` for the mount point of `dev`. */
  function MessagesPath(dev: string): string
  {
    Join(Join(Join(MountPath(dev), "var"), "log"), "messages")
  }

  /** For a plain component the three derived paths are the expected literal concatenations. */
  lemma ComponentPaths(dev: string)
    requires IsComponent(dev)
    ensures DevPath(dev) == "/dev/" + dev
    ensures MountPath(dev) == "/mnt/" + dev
    ensures MessagesPath(dev) == "/mnt/" + dev + "/var/log/messages"
  {
    var m := "/mnt/" + dev;
    assert m[|m| - 1] == dev[|dev| - 1];
    assert Join(m, "var") == m + "/var";
    assert Join(m + "/var", "log") == m + "/var/log";
  }

  /** Distinct devices get distinct mount points and distinct log paths. */
  lemma ComponentPathsInjective(d1: string, d2: string)
    requires IsComponent(d1) && IsComponent(d2) && d1 != d2
    ensures MountPath(d1) != MountPath(d2)
    ensures MessagesPath(d1) != MessagesPath(d2)
  {
    ComponentPaths(d1);
    ComponentPaths(d2);
    var m1, m2 := "/mnt/" + d1, "/mnt/" + d2;
    assert m1[5..] == d1 && m2[5..] == d2;
    var suffix := "/var/log/messages";
    assert (m1 + suffix)[..|m1|] == m1 && (m2 + suffix)[..|m2|] == m2;
  }
}
