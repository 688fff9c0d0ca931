/** Enumeration of removable block devices: `list_usb_block_devices`, `is_usb_storage_device`
    and `get_partitions`. A whole disk is a `/dev` entry named "sd" plus one character whose
    sysfs `removable` attribute reads "1"; it is listed followed by every `/dev` entry whose
    name extends its own. */
module Devices {
  import opened Base
  import opened Text
  import opened Host

  const DEV_DIR := "/dev"

  /** `format!("/dev/{}", name)`. */
  function DevicePath(name: string): string {
    DEV_DIR + "/" + name
  }

  predicate IsWholeDiskName(name: string) {
    StartsWith(name, "sd") && |name| == 3
  }

  function RemovableAttributePath(name: string): string {
    "/sys/block/" + name + "/removable"
  }

  /** `is_usb_storage_device`: the attribute could be read and trims to "1"; a read error
      means "not removable". */
  function IsUsbStorageDevice(env: Environment, name: string): (usb: bool)
    ensures var content := env.readToString(RemovableAttributePath(name));
      usb <==> content.Ok? && NonWhitespace(content.value) == "1"
  {
    var content := env.readToString(RemovableAttributePath(name));
    if content.Err? then false
    else
      TrimIsOne(content.value);
      Trim(content.value) == "1"
  }

  /** A whole disk the enumeration lists. */
  predicate IsSelectedDisk(env: Environment, name: string) {
    IsWholeDiskName(name) && IsUsbStorageDevice(env, name)
  }

  /** The test `get_partitions` applies to a `/dev` name. */
  predicate IsPartitionOf(name: string, disk: string) {
    StartsWith(name, disk) && |name| > |disk|
  }

  /** The paths of the partitions of `disk` among `names`, in listing order. */
  function PartitionPaths(names: seq<string>, disk: string): seq<string> {
    if names == [] then []
    else
      var last := names[|names| - 1];
      PartitionPaths(names[..|names| - 1], disk) + (if IsPartitionOf(last, disk) then [DevicePath(last)] else [])
  }

  /** What `get_partitions(disk)` returns. */
  function Partitions(env: Environment, disk: string): (r: Result<seq<string>, IoError>)
    ensures r.Err? <==> !FullyReadable(env.readDir(DEV_DIR))
    ensures r.Err? ==> r.error == FirstError(env.readDir(DEV_DIR))
    ensures r.Ok? ==> forall p :: p in r.value <==>
      exists name :: name in Names(env.readDir(DEV_DIR).value) && IsPartitionOf(name, disk) && p == DevicePath(name)
  {
    var listing := env.readDir(DEV_DIR);
    if !FullyReadable(listing) then Err(FirstError(listing))
    else
      PartitionPathsExactly(Names(listing.value), disk);
      Ok(PartitionPaths(Names(listing.value), disk))
  }

  /** What the loop of `list_usb_block_devices` contributes for one `/dev` name. */
  function DiskBlock(name: string, all: seq<string>, env: Environment): seq<string> {
    if IsSelectedDisk(env, name) then [DevicePath(name)] + PartitionPaths(all, name) else []
  }

  /** The blocks of the selected disks among `names`, in listing order; partitions are looked
      up among `all`. */
  function DiskPaths(names: seq<string>, all: seq<string>, env: Environment): seq<string> {
    if names == [] then []
    else DiskPaths(names[..|names| - 1], all, env) + DiskBlock(names[|names| - 1], all, env)
  }

  /** What `list_usb_block_devices` returns. Only the `/dev` listing can make it fail: an
      unreadable `removable` attribute just leaves the disk out. */
  function UsbBlockDevices(env: Environment): (r: Result<seq<string>, IoError>)
    ensures r.Err? <==> !FullyReadable(env.readDir(DEV_DIR))
    ensures r.Err? ==> r.error == FirstError(env.readDir(DEV_DIR))
  {
    var listing := env.readDir(DEV_DIR);
    if !FullyReadable(listing) then Err(FirstError(listing))
    else
      var names := Names(listing.value);
      Ok(DiskPaths(names, names, env))
  }

  // ---------------------------------------------------------------------------------------
  // The loops of the source

  /** `get_partitions`: reads `/dev` and collects the paths of the names extending `disk`. */
  method GetPartitions(env: Environment, disk: string) returns (r: Result<seq<string>, IoError>)
    ensures r == Partitions(env, disk)
  {
    var listing := env.readDir(DEV_DIR);
    if listing.Err? {
      return Err(listing.error);
    }
    var entries := listing.value;
    var partitions: seq<string> := [];
    for i := 0 to |entries|
      invariant forall j :: 0 <= j < i ==> entries[j].Entry?
      invariant partitions == PartitionPaths(Names(entries[..i]), disk)
    {
      match entries[i]
      case EntryError(e) =>
        return Err(e);
      case Entry(name) =>
        NamesStep(entries, i);
        if IsPartitionOf(name, disk) {
          partitions := partitions + [DevicePath(name)];
        }
    }
    assert entries[..|entries|] == entries;
    return Ok(partitions);
  }

  /** `list_usb_block_devices`: for every `/dev` name, in order, a selected disk is pushed
      and followed by its partitions; the first error aborts the whole listing. */
  method ListUsbBlockDevices(env: Environment) returns (r: Result<seq<string>, IoError>)
    ensures r == UsbBlockDevices(env)
  {
    var listing := env.readDir(DEV_DIR);
    if listing.Err? {
      return Err(listing.error);
    }
    var entries := listing.value;
    var devices: seq<string> := [];
    for i := 0 to |entries|
      invariant forall j :: 0 <= j < i ==> entries[j].Entry?
      invariant FullyReadable(listing) ==> devices == DiskPaths(Names(entries[..i]), Names(entries), env)
    {
      match entries[i]
      case EntryError(e) =>
        return Err(e);
      case Entry(name) =>
        var extended := AppendDisk(env, name, devices);
        if extended.Err? {
          return extended;
        }
        if FullyReadable(listing) {
          DiskPathsStep(entries, i, env);
        }
        devices := extended.value;
    }
    assert entries[..|entries|] == entries;
    return Ok(devices);
  }

  /** The body of the loop of `list_usb_block_devices` for one `/dev` name: a selected disk
      and its partitions are appended; a failure of `get_partitions` is the failure of the
      whole enumeration. */
  method AppendDisk(env: Environment, name: string, devices: seq<string>) returns (r: Result<seq<string>, IoError>)
    ensures r.Err? ==> r == UsbBlockDevices(env)
    ensures FullyReadable(env.readDir(DEV_DIR)) ==>
      r == Ok(devices + DiskBlock(name, Names(env.readDir(DEV_DIR).value), env))
  {
    if IsWholeDiskName(name) && IsUsbStorageDevice(env, name) {
      var partitions := GetPartitions(env, name);
      if partitions.Err? {
        return Err(partitions.error);
      }
      return Ok(devices + ([DevicePath(name)] + partitions.value));
    }
    assert devices + [] == devices;
    return Ok(devices);
  }

  /** One more readable `/dev` entry adds its block to the enumeration. */
  lemma DiskPathsStep(entries: seq<DirEntry>, i: nat, env: Environment)
    requires i < |entries| && forall j :: 0 <= j < |entries| ==> entries[j].Entry?
    ensures var all := Names(entries);
      DiskPaths(Names(entries[..i + 1]), all, env) == DiskPaths(Names(entries[..i]), all, env) + DiskBlock(entries[i].name, all, env)
  {
    NamesStep(entries, i);
    var names := Names(entries[..i + 1]);
    assert names[..|names| - 1] == Names(entries[..i]);
  }

  // ---------------------------------------------------------------------------------------
  // Properties of the enumeration

  lemma DevicePathInjective(a: string, b: string)
    requires DevicePath(a) == DevicePath(b)
    ensures a == b
  {
    assert a == DevicePath(a)[5..];
    assert b == DevicePath(b)[5..];
  }

  /** The partition paths of `disk` are the paths of exactly those names that extend it. */
  lemma {:induction false} PartitionPathsMember(names: seq<string>, disk: string, p: string)
    ensures p in PartitionPaths(names, disk) <==> exists q :: q in names && IsPartitionOf(q, disk) && p == DevicePath(q)
  {
    if names != [] {
      var pre := names[..|names| - 1];
      var last := names[|names| - 1];
      PartitionPathsMember(pre, disk, p);
      assert names == pre + [last];
    }
  }

  /** The partition paths are exactly the device paths of the listed partitions. */
  lemma PartitionPathsExactly(names: seq<string>, disk: string)
    ensures forall p :: p in PartitionPaths(names, disk) <==>
      exists name :: name in names && IsPartitionOf(name, disk) && p == DevicePath(name)
  {
    forall p {
      PartitionPathsMember(names, disk, p);
    }
  }

  /** Partition paths of a duplicate-free listing are duplicate-free. */
  lemma {:induction false} PartitionPathsDistinct(names: seq<string>, disk: string)
    requires Distinct(names)
    ensures Distinct(PartitionPaths(names, disk))
  {
    if names != [] {
      var pre := names[..|names| - 1];
      var last := names[|names| - 1];
      assert Distinct(pre);
      PartitionPathsDistinct(pre, disk);
      if IsPartitionOf(last, disk) {
        forall x | x in PartitionPaths(pre, disk)
          ensures x !in [DevicePath(last)]
        {
          PartitionPathsMember(pre, disk, x);
          var q :| q in pre && IsPartitionOf(q, disk) && x == DevicePath(q);
          if x == DevicePath(last) {
            DevicePathInjective(q, last);
          }
        }
        DistinctAppend(PartitionPaths(pre, disk), [DevicePath(last)]);
      }
    }
  }

  /** Every listed path is a selected disk or a partition of a selected disk, and conversely. */
  lemma {:induction false} DiskPathsMember(names: seq<string>, all: seq<string>, env: Environment, p: string)
    ensures p in DiskPaths(names, all, env) <==>
      exists d :: d in names && IsSelectedDisk(env, d) && (p == DevicePath(d) || p in PartitionPaths(all, d))
  {
    if names != [] {
      var pre := names[..|names| - 1];
      DiskPathsMember(pre, all, env, p);
      assert names == pre + [names[|names| - 1]];
    }
  }

  /** A partition path is longer than the path of any whole disk. */
  lemma PartitionPathLength(all: seq<string>, d: string, p: string)
    requires |d| == 3 && p in PartitionPaths(all, d)
    ensures |p| > |DevicePath(d)|
  {
    PartitionPathsMember(all, d, p);
  }

  /** Two different whole disks share no partition path. */
  lemma PartitionPathsDisjoint(all: seq<string>, d: string, e: string, p: string)
    requires |d| == 3 && |e| == 3 && d != e
    requires p in PartitionPaths(all, d)
    ensures p !in PartitionPaths(all, e)
  {
    PartitionPathsMember(all, d, p);
    var q :| q in all && IsPartitionOf(q, d) && p == DevicePath(q);
    if p in PartitionPaths(all, e) {
      PartitionPathsMember(all, e, p);
      var q' :| q' in all && IsPartitionOf(q', e) && p == DevicePath(q');
      DevicePathInjective(q, q');

    }
  }

  /** For a listing without repeated names the enumeration lists no path twice. */
  lemma {:induction false} DiskPathsDistinct(names: seq<string>, all: seq<string>, env: Environment)
    requires Distinct(names) && Distinct(all)
    ensures Distinct(DiskPaths(names, all, env))
  {
    if names != [] {
      var pre := names[..|names| - 1];
      var last := names[|names| - 1];
      assert Distinct(pre);
      DiskPathsDistinct(pre, all, env);
      if IsSelectedDisk(env, last) {
        var parts := PartitionPaths(all, last);
        PartitionPathsDistinct(all, last);
        forall x | x in parts ensures x !in [DevicePath(last)] {
          PartitionPathLength(all, last, x);
        }
        DistinctAppend([DevicePath(last)], parts);
        forall x | x in DiskPaths(pre, all, env)
          ensures x !in DiskBlock(last, all, env)
        {
          DiskPathsMember(pre, all, env, x);
          var d :| d in pre && IsSelectedDisk(env, d) && (x == DevicePath(d) || x in PartitionPaths(all, d));
          assert d != last;
          if x == DevicePath(d) {
            if x == DevicePath(last) {
              DevicePathInjective(d, last);
            }
            if x in parts {
              PartitionPathLength(all, last, x);
            }
          } else {
            PartitionPathLength(all, d, x);
            PartitionPathsDisjoint(all, d, last, x);
          }
        }
        DistinctAppend(DiskPaths(pre, all, env), DiskBlock(last, all, env));
      }
    }
  }

  /** A whole-disk path in the enumeration belongs to a selected disk of the listing and is
      followed immediately by all of that disk's partitions. */
  lemma {:induction false} DiskFollowedByPartitions(names: seq<string>, all: seq<string>, env: Environment, d: string, i: nat)
    requires |d| == 3
    requires i < |DiskPaths(names, all, env)| && DiskPaths(names, all, env)[i] == DevicePath(d)
    ensures d in names && IsSelectedDisk(env, d)
    ensures i + 1 + |PartitionPaths(all, d)| <= |DiskPaths(names, all, env)|
    ensures DiskPaths(names, all, env)[i + 1..i + 1 + |PartitionPaths(all, d)|] == PartitionPaths(all, d)
  {
    var pre := names[..|names| - 1];
    var last := names[|names| - 1];
    var head := DiskPaths(pre, all, env);
    var block := DiskBlock(last, all, env);
    var parts := PartitionPaths(all, d);
    assert DiskPaths(names, all, env) == head + block;
    if i < |head| {
      DiskFollowedByPartitions(pre, all, env, d, i);
      InPrefix(names, |names| - 1, d);
      SliceOfLeft(head, block, i + 1, i + 1 + |parts|);
    } else {
      BlockLeadsWithDisk(last, all, env, d, i - |head|);
      DropLeft(head, block, i + 1);
    }
  }

  /** Inside the block of one name, the only whole-disk path is that of the name itself, first. */
  lemma BlockLeadsWithDisk(name: string, all: seq<string>, env: Environment, d: string, j: nat)
    requires |d| == 3
    requires j < |DiskBlock(name, all, env)| && DiskBlock(name, all, env)[j] == DevicePath(d)
    ensures j == 0 && d == name && IsSelectedDisk(env, name)
    ensures DiskBlock(name, all, env)[1..] == PartitionPaths(all, name)
  {
    var block := DiskBlock(name, all, env);
    assert IsSelectedDisk(env, name) && block == [DevicePath(name)] + PartitionPaths(all, name);
    if j > 0 {
      assert block[j] in PartitionPaths(all, name);
      PartitionPathLength(all, name, block[j]);
      assert false;
    }
    DevicePathInjective(d, name);
  }

  /** The result of the enumeration, when it succeeds, is exactly the selected disks of `/dev`
      and the partitions of those disks. */
  lemma UsbBlockDevicesMember(env: Environment, p: string)
    requires UsbBlockDevices(env).Ok?
    ensures var names := Names(env.readDir(DEV_DIR).value);
      p in UsbBlockDevices(env).value <==>
        exists d :: d in names && IsSelectedDisk(env, d) &&
          (p == DevicePath(d) || exists q :: q in names && IsPartitionOf(q, d) && p == DevicePath(q))
  {
    var names := Names(env.readDir(DEV_DIR).value);
    DiskPathsMember(names, names, env, p);
    forall d | d in names {
      PartitionPathsMember(names, d, p);
    }
  }

  /** A whole disk whose `removable` attribute is unreadable, or does not trim to "1", is
      silently left out of a successful enumeration. */
  lemma NonRemovableDiskExcluded(env: Environment, d: string)
    requires UsbBlockDevices(env).Ok?
    requires IsWholeDiskName(d) && !IsUsbStorageDevice(env, d)
    ensures DevicePath(d) !in UsbBlockDevices(env).value
  {
    var names := Names(env.readDir(DEV_DIR).value);
    var r := DiskPaths(names, names, env);
    if DevicePath(d) in r {
      var i :| 0 <= i < |r| && r[i] == DevicePath(d);
      DiskFollowedByPartitions(names, names, env, d, i);
    }
  }

  /** A successful enumeration of a `/dev` without repeated names lists no device twice. */
  lemma UsbBlockDevicesDistinct(env: Environment)
    requires UsbBlockDevices(env).Ok?
    requires Distinct(Names(env.readDir(DEV_DIR).value))
    ensures Distinct(UsbBlockDevices(env).value)
  {
    var names := Names(env.readDir(DEV_DIR).value);
    DiskPathsDistinct(names, names, env);
  }
}
