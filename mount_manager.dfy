/**
 * Mount planning (`mount_sdc_devices`). For each device, in the order given,
 * the routine creates `/mnt/<dev>` if that path does not exist and asks the
 * OS to mount `/dev/<dev>` there unless the path is already a mount point.
 *
 * The host is abstract state: the set of existing paths (`os.path.exists`,
 * grown by `os.mkdir`), the set of current mount points (`os.path.ismount`)
 * and the log of `mount` commands issued. Whether a `mount` command succeeds
 * is not decided here: `takesEffect` is the set of targets for which the
 * outside mount service does make the path a mount point.
 */
module MountManager {
  import opened PosixPath
  import opened Text

  /** One `mount <device> <target>` command run through `subprocess.call`. */
  datatype MountCall = MountCall(device: string, target: string)

  /** The part of the host the routine observes and changes. */
  datatype HostState = HostState(existing: set<string>, mounted: set<string>, calls: seq<MountCall>)

  /** The mount point of every device in `devices`. */
  function MountPoints(devices: seq<string>): set<string>
  {
    set d | d in devices :: MountPath(d)
  }

  /** The command the routine issues for `dev`. */
  function CallFor(dev: string): MountCall
  {
    MountCall(DevPath(dev), MountPath(dev))
  }

  /** One iteration of the loop, for device `dev`. */
  function MountOne(h: HostState, dev: string, takesEffect: set<string>): (r: HostState)
    ensures r.existing == h.existing + {MountPath(dev)}
    ensures MountPath(dev) in h.mounted ==> r.mounted == h.mounted && r.calls == h.calls
    ensures MountPath(dev) !in h.mounted ==>
      && r.calls == h.calls + [MountCall(DevPath(dev), MountPath(dev))]
      && (r.mounted == h.mounted + {MountPath(dev)} <==> MountPath(dev) in takesEffect)
      && (r.mounted == h.mounted <==> MountPath(dev) !in takesEffect)
  {
    var p := MountPath(dev);
    var existing := if p !in h.existing then h.existing + {p} else h.existing;
    if p !in h.mounted then
      HostState(existing,
                if p in takesEffect then h.mounted + {p} else h.mounted,
                h.calls + [CallFor(dev)])
    else
      h.(existing := existing)
  }

  /** The whole loop over `devices`, in order. */
  function MountAll(h: HostState, devices: seq<string>, takesEffect: set<string>): (r: HostState)
    ensures h.existing <= r.existing
    ensures h.mounted <= r.mounted <= h.mounted + takesEffect
    ensures |r.calls| <= |h.calls| + |devices|
    decreases |devices|
  {
    if devices == [] then h
    else MountOne(MountAll(h, devices[..|devices| - 1], takesEffect), devices[|devices| - 1], takesEffect)
  }

  lemma MountPointsSnoc(devices: seq<string>)
    requires devices != []
    ensures MountPoints(devices)
         == MountPoints(devices[..|devices| - 1]) + {MountPath(devices[|devices| - 1])}
  {
    var init := devices[..|devices| - 1];
    assert devices == init + [devices[|devices| - 1]];
    assert forall d :: d in devices <==> d in init || d == devices[|devices| - 1];
  }

  /** Afterwards `/mnt/<dev>` exists for every device, and no other path was created. */
  lemma {:induction false} MountAllCreatesMountPoints(h: HostState, devices: seq<string>, takesEffect: set<string>)
    ensures MountAll(h, devices, takesEffect).existing == h.existing + MountPoints(devices)
    decreases |devices|
  {
    if devices != [] {
      MountAllCreatesMountPoints(h, devices[..|devices| - 1], takesEffect);
      MountPointsSnoc(devices);
    }
  }

  /**
   * A path becomes a mount point only through a mount that takes effect, and
   * every device's mount point that can be mounted is mounted afterwards.
   */
  lemma {:induction false} MountAllMounted(h: HostState, devices: seq<string>, takesEffect: set<string>)
    ensures MountAll(h, devices, takesEffect).mounted
         == h.mounted + (MountPoints(devices) * takesEffect)
    decreases |devices|
  {
    if devices != [] {
      MountAllMounted(h, devices[..|devices| - 1], takesEffect);
      MountPointsSnoc(devices);
    }
  }

  /** The log of mount calls only grows: the calls issued so far are kept in order. */
  lemma {:induction false} MountAllKeepsLog(h: HostState, devices: seq<string>, takesEffect: set<string>)
    ensures var r := MountAll(h, devices, takesEffect);
      |h.calls| <= |r.calls| && r.calls[..|h.calls|] == h.calls
    decreases |devices|
  {
    if devices != [] {
      MountAllKeepsLog(h, devices[..|devices| - 1], takesEffect);
    }
  }

  /** The calls a run adds to the log. */
  function NewCalls(h: HostState, devices: seq<string>, takesEffect: set<string>): seq<MountCall>
  {
    MountAllKeepsLog(h, devices, takesEffect);
    MountAll(h, devices, takesEffect).calls[|h.calls|..]
  }

  lemma NewCallsSnoc(h: HostState, devices: seq<string>, takesEffect: set<string>)
    requires devices != []
    ensures var init, dev := devices[..|devices| - 1], devices[|devices| - 1];
      NewCalls(h, devices, takesEffect)
      == NewCalls(h, init, takesEffect)
         + (if MountPath(dev) !in MountAll(h, init, takesEffect).mounted then [CallFor(dev)] else [])
  {
    var init := devices[..|devices| - 1];
    MountAllKeepsLog(h, init, takesEffect);
  }

  /** Each call a run issues is the one for a device whose mount point was not a mount point before. */
  lemma {:induction false} NewCallsAreForUnmounted(h: HostState, devices: seq<string>, takesEffect: set<string>)
    ensures forall c :: c in NewCalls(h, devices, takesEffect) ==>
      exists d :: d in devices && MountPath(d) !in h.mounted && c == CallFor(d)
    decreases |devices|
  {
    if devices != [] {
      var init, dev := devices[..|devices| - 1], devices[|devices| - 1];
      NewCallsAreForUnmounted(h, init, takesEffect);
      NewCallsSnoc(h, devices, takesEffect);
      MountAllMounted(h, init, takesEffect);
      assert forall d :: d in init ==> d in devices;
      assert dev in devices;
    }
  }

  /** Every device whose mount point was not a mount point before is the target of a call. */
  lemma {:induction false} UnmountedGetCalls(h: HostState, devices: seq<string>, takesEffect: set<string>)
    ensures forall d :: d in devices && MountPath(d) !in h.mounted ==>
      exists c :: c in NewCalls(h, devices, takesEffect) && c.target == MountPath(d)
    decreases |devices|
  {
    if devices != [] {
      var init, dev := devices[..|devices| - 1], devices[|devices| - 1];
      UnmountedGetCalls(h, init, takesEffect);
      NewCallsSnoc(h, devices, takesEffect);
      MountAllMounted(h, init, takesEffect);
      assert forall d :: d in devices <==> d in init || d == dev by {
        assert devices == init + [dev];
      }
      var h' := MountAll(h, init, takesEffect);
      if MountPath(dev) !in h.mounted {
        if MountPath(dev) !in h'.mounted {
          assert CallFor(dev) in NewCalls(h, devices, takesEffect);
        } else {
          var d' :| d' in init && MountPath(d') == MountPath(dev);
        }
      }
    }
  }

  /** When every device is already mounted, the routine issues no mount call and mounts nothing. */
  lemma AlreadyMountedIsSkipped(h: HostState, devices: seq<string>, takesEffect: set<string>)
    requires MountPoints(devices) <= h.mounted
    ensures MountAll(h, devices, takesEffect).calls == h.calls
    ensures MountAll(h, devices, takesEffect).mounted == h.mounted
  {
    var r := MountAll(h, devices, takesEffect);
    MountAllKeepsLog(h, devices, takesEffect);
    NewCallsAreForUnmounted(h, devices, takesEffect);
    MountAllMounted(h, devices, takesEffect);
    assert NewCalls(h, devices, takesEffect) == [];
    assert r.calls == r.calls[..|h.calls|];
  }

  /**
   * Once every mount of a run has taken effect, running the routine again on
   * the same devices changes nothing and issues no mount call.
   */
  lemma SecondRunIsNoOp(h: HostState, devices: seq<string>, takesEffect: set<string>)
    requires MountPoints(devices) <= takesEffect
    ensures var r := MountAll(h, devices, takesEffect);
      MountAll(r, devices, takesEffect) == r
  {
    var r := MountAll(h, devices, takesEffect);
    MountAllMounted(h, devices, takesEffect);
    MountAllCreatesMountPoints(h, devices, takesEffect);
    AlreadyMountedIsSkipped(r, devices, takesEffect);
    MountAllMounted(r, devices, takesEffect);
    MountAllCreatesMountPoints(r, devices, takesEffect);
  }

  /**
   * When every mount takes effect, no mount point is the target of two
   * calls in one run: a mount is never requested twice for the same path.
   */
  lemma {:induction false} MountAllNoRepeatedTarget(h: HostState, devices: seq<string>, takesEffect: set<string>)
    requires MountPoints(devices) <= takesEffect
    ensures var r := MountAll(h, devices, takesEffect);
      && |h.calls| <= |r.calls|
      && (forall i :: |h.calls| <= i < |r.calls| ==> r.calls[i].target in r.mounted)
      && (forall i, j :: |h.calls| <= i < j < |r.calls| ==> r.calls[i].target != r.calls[j].target)
    decreases |devices|
  {
    if devices != [] {
      var init, dev := devices[..|devices| - 1], devices[|devices| - 1];
      MountPointsSnoc(devices);
      MountAllNoRepeatedTarget(h, init, takesEffect);
      var h' := MountAll(h, init, takesEffect);
      var r := MountAll(h, devices, takesEffect);
      assert r == MountOne(h', dev, takesEffect);
      assert h'.mounted <= r.mounted;
    }
  }

  /**
   * For a list of distinct device names, as `get_sdc_devices` returns, no
   * mount point is the target of two commands in one run, whether or not the
   * mounts take effect.
   */
  lemma {:induction false} MountAllDistinctTargets(h: HostState, devices: seq<string>, takesEffect: set<string>)
    requires NoDuplicates(devices)
    requires forall d :: d in devices ==> IsComponent(d)
    ensures var r := MountAll(h, devices, takesEffect);
      && |h.calls| <= |r.calls|
      && (forall i, j :: |h.calls| <= i < j < |r.calls| ==> r.calls[i].target != r.calls[j].target)
    decreases |devices|
  {
    MountAllKeepsLog(h, devices, takesEffect);
    if devices != [] {
      var init, dev := devices[..|devices| - 1], devices[|devices| - 1];
      assert forall d :: d in init ==> d in devices;
      assert NoDuplicates(init) by {
        forall i, j | 0 <= i < j < |init| ensures init[i] != init[j] {
          assert init[i] == devices[i] && init[j] == devices[j];
        }
      }
      MountAllDistinctTargets(h, init, takesEffect);
      MountAllKeepsLog(h, init, takesEffect);
      NewCallsAreForUnmounted(h, init, takesEffect);
      var h' := MountAll(h, init, takesEffect);
      var r := MountAll(h, devices, takesEffect);
      assert r == MountOne(h', dev, takesEffect);
      if MountPath(dev) !in h'.mounted {
        var n := |h.calls|;
        forall i | n <= i < |h'.calls| ensures r.calls[i].target != MountPath(dev) {
          var c := NewCalls(h, init, takesEffect)[i - n];
          assert c in NewCalls(h, init, takesEffect);
          assert r.calls[i] == h'.calls[i] == c;
          var d :| d in init && MountPath(d) !in h.mounted && c == CallFor(d);
          var k :| 0 <= k < |init| && init[k] == d;
          assert devices[k] == d && k < |devices| - 1;
          ComponentPathsInjective(d, dev);
        }
      }
    }
  }

  /** The host, whose paths and mount table the routine changes in place. */
  class Host {
    var existing: set<string>
    var mounted: set<string>
    var calls: seq<MountCall>

    function State(): HostState
      reads this
    {
      HostState(existing, mounted, calls)
    }

    constructor (existing: set<string>, mounted: set<string>)
      ensures State() == HostState(existing, mounted, [])
    {
      this.existing := existing;
      this.mounted := mounted;
      this.calls := [];
    }

    /** `mount_sdc_devices(devices)`. */
    method MountSdcDevices(devices: seq<string>, takesEffect: set<string>)
      modifies this
      ensures State() == MountAll(old(State()), devices, takesEffect)
      ensures existing == old(existing) + MountPoints(devices)
    {
      for i := 0 to |devices|
        invariant State() == MountAll(old(State()), devices[..i], takesEffect)
      {
        assert devices[..i + 1][..i] == devices[..i];
        var mntPath := MountPath(devices[i]);
        if mntPath !in existing {
          existing := existing + {mntPath};
        }
        if mntPath !in mounted {
          calls := calls + [MountCall(DevPath(devices[i]), mntPath)];
          if mntPath in takesEffect {
            mounted := mounted + {mntPath};
          }
        }
      }
      assert devices[..|devices|] == devices;
      MountAllCreatesMountPoints(old(State()), devices, takesEffect);
    }
  }
}
