/**
 * Device discovery (`get_sdc_devices`): the entries of the `/dev` listing
 * whose name matches `sdc\d+` at its start, in ascending order. The listing
 * itself is an input: `os.listdir('/dev')` in whatever order the OS gives it.
 */
module DeviceScanner {
  import opened Text

  /**
   * `re.match(r'sdc\d+', name)` succeeds: the name starts with `sdc` and a
   * digit. `re.match` anchors only at the start, so anything may follow
   * (`sdc1x` matches, `sdc` and `xsdc1` do not).
   */
  predicate IsSdcDevice(name: string)
    ensures IsSdcDevice(name) <==> exists d, rest :: IsDigit(d) && name == "sdc" + [d] + rest
  {
    if |name| >= 4 && name[..3] == "sdc" && IsDigit(name[3]) then
      assert name == "sdc" + [name[3]] + name[4..];
      true
    else
      false
  }

  /**
   * The list comprehension: the matching entries of the listing, each as often
   * as it occurs there (their order is not observable, as `sorted` consumes
   * the list whole).
   */
  function Matching(listing: seq<string>): (r: seq<string>)
    ensures forall d :: d in r ==> IsSdcDevice(d)
    ensures forall d {:trigger multiset(r)[d]} ::
      multiset(r)[d] == if IsSdcDevice(d) then multiset(listing)[d] else 0
  {
    if listing == [] then
      []
    else
      assert listing == [listing[0]] + listing[1..];
      var rest := Matching(listing[1..]);
      if IsSdcDevice(listing[0]) then [listing[0]] + rest else rest
  }

  /** `sorted([d for d in os.listdir('/dev') if re.match(r'sdc\d+', d)])`. */
  function GetSdcDevices(listing: seq<string>): (r: seq<string>)
    ensures Sorted(r)
    ensures forall d :: d in r ==> IsSdcDevice(d)
    ensures forall d {:trigger multiset(r)[d]} ::
      multiset(r)[d] == if IsSdcDevice(d) then multiset(listing)[d] else 0
  {
    var m := Matching(listing);
    var r := Sort(m);
    assert forall d :: d in r ==> d in multiset(m);
    r
  }

  /** A device is returned exactly when the listing holds a matching entry of that name. */
  lemma GetSdcDevicesMembers(listing: seq<string>, d: string)
    ensures d in GetSdcDevices(listing) <==> d in listing && IsSdcDevice(d)
  {
    var r := GetSdcDevices(listing);
    assert d in r <==> multiset(r)[d] > 0;
    assert d in listing <==> multiset(listing)[d] > 0;
  }

  /** A directory listing names each entry once, and so does the result. */
  lemma GetSdcDevicesNoDuplicates(listing: seq<string>)
    requires NoDuplicates(listing)
    ensures NoDuplicates(GetSdcDevices(listing))
  {
    var r := GetSdcDevices(listing);
    NoDuplicatesMultiset(listing);
    assert forall d :: multiset(r)[d] <= multiset(listing)[d];
    NoDuplicatesMultiset(r);
  }

  /**
   * The result is the one ascending sequence holding exactly the matching
   * entries: whatever order `os.listdir` returns, the devices come out the same.
   */
  lemma GetSdcDevicesCharacterised(listing: seq<string>, devices: seq<string>)
    requires Sorted(devices)
    requires forall d {:trigger multiset(devices)[d]} ::
      multiset(devices)[d] == if IsSdcDevice(d) then multiset(listing)[d] else 0
    ensures devices == GetSdcDevices(listing)
  {
    var r := GetSdcDevices(listing);
    assert multiset(r) == multiset(devices);
    SortedUnique(r, devices);
  }

  /** Two listings with the same entries, in any order, give the same devices. */
  lemma GetSdcDevicesOrderIndependent(l1: seq<string>, l2: seq<string>)
    requires multiset(l1) == multiset(l2)
    ensures GetSdcDevices(l1) == GetSdcDevices(l2)
  {
    GetSdcDevicesCharacterised(l2, GetSdcDevices(l1));
  }
}
