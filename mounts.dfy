/** Mount state and the mount coordinator: `get_mount_info`, `create_usb_devices`,
    `mount_usb_device` and `unmount_usb_device`. The mount table is the text of
    `/proc/mounts`, one mount per line, whose whitespace-separated fields begin with the mounted
    source and the target directory. */
module Mounts {
  import opened Base
  import opened Text
  import opened Host

  const PROC_MOUNTS := "/proc/mounts"

  /** A device as the listing reports it. */
  datatype UsbDevice = UsbDevice(device_path: string, is_mounted: bool, mount_point: string) {
    /** A mount point is reported exactly for a mounted device. */
    predicate Valid() {
      is_mounted <==> mount_point != []
    }
  }

  /** A mount-table line describes `device` when it has a target field and its source field is `device`. */
  predicate Describes(line: string, device: string) {
    var fields := SplitWhitespace(line);
    |fields| >= 2 && fields[0] == device
  }

  /** The index of the first line describing `device`, or `|lines|` when there is none. */
  function FirstDescribing(lines: seq<string>, device: string): (k: nat)
    ensures k <= |lines|
    ensures forall j :: 0 <= j < k ==> !Describes(lines[j], device)
    ensures k < |lines| ==> Describes(lines[k], device)
  {
    if lines == [] || Describes(lines[0], device) then 0
    else 1 + FirstDescribing(lines[1..], device)
  }

  /** What `get_mount_info(device)` returns: whether a line of the mount table describes the
      device and, if so, the target field of the first such line. An unreadable table reads as
      "not mounted". */
  function MountInfo(env: Environment, device: string): (r: (bool, string))
    ensures r.0 <==> r.1 != []
  {
    match env.readToString(PROC_MOUNTS)
    case Err(_) => (false, "")
    case Ok(text) =>
      var lines := Lines(text);
      var k := FirstDescribing(lines, device);
      if k < |lines| then (true, SplitWhitespace(lines[k])[1]) else (false, "")
  }

  /** `get_mount_info`: scans the mount-table lines in order and stops at the first that
      describes the device. */
  method GetMountInfo(env: Environment, device: string) returns (mounted: bool, point: string)
    ensures (mounted, point) == MountInfo(env, device)
  {
    var text := env.readToString(PROC_MOUNTS);
    if text.Ok? {
      var lines := Lines(text.value);
      for i := 0 to |lines|
        invariant forall j :: 0 <= j < i ==> !Describes(lines[j], device)
      {
        var parts := SplitWhitespace(lines[i]);
        if |parts| >= 2 && parts[0] == device {
          return true, parts[1];
        }
      }
    }
    return false, "";
  }

  /** `create_usb_devices`: each path, in order, with the mount state of its device. */
  function UsbDevices(paths: seq<string>, env: Environment): (r: seq<UsbDevice>)
    ensures |r| == |paths|
    ensures forall i :: 0 <= i < |r| ==>
      r[i].device_path == paths[i] && r[i].Valid() && (r[i].is_mounted, r[i].mount_point) == MountInfo(env, paths[i])
  {
    seq(|paths|, i requires 0 <= i < |paths| =>
      var info := MountInfo(env, paths[i]);
      UsbDevice(paths[i], info.0, info.1))
  }

  /** A mounted device's reported mount point is the target of the first line of the mount
      table `lines` that describes it. */
  lemma MountedAtFirstEntry(env: Environment, device: string) returns (lines: seq<string>)
    requires MountInfo(env, device).0
    ensures env.readToString(PROC_MOUNTS).Ok? && lines == Lines(env.readToString(PROC_MOUNTS).value)
    ensures exists k :: (0 <= k < |lines| && Describes(lines[k], device) && SplitWhitespace(lines[k])[1] == MountInfo(env, device).1
      && forall j :: 0 <= j < k ==> !Describes(lines[j], device))
  {
    lines := Lines(env.readToString(PROC_MOUNTS).value);
    var k := FirstDescribing(lines, device);
    assert Describes(lines[k], device);
  }

  /** A device is reported unmounted exactly when the table is unreadable or no line describes it. */
  lemma UnmountedWhenUndescribed(env: Environment, device: string)
    ensures !MountInfo(env, device).0 <==>
      env.readToString(PROC_MOUNTS).Err? ||
      forall line :: line in Lines(env.readToString(PROC_MOUNTS).value) ==> !Describes(line, device)
  {
    if env.readToString(PROC_MOUNTS).Ok? {
      var lines := Lines(env.readToString(PROC_MOUNTS).value);
      var k := FirstDescribing(lines, device);
      if k < |lines| {
        assert lines[k] in lines;
      }
    }
  }

  // ---------------------------------------------------------------------------------------
  // Mounting and unmounting

  /** Length of `s` once its trailing separators are removed. */
  function SeparatorEnd(s: string): (k: nat)
    ensures k <= |s| && forall i :: k <= i < |s| ==> s[i] == '/'
    ensures k > 0 ==> s[k - 1] != '/'
  {
    if s == [] || s[|s| - 1] != '/' then |s| else SeparatorEnd(s[..|s| - 1])
  }

  /** `Path::parent` on a path made of separators and plain names: the path without its final
      component; none for a path that is only the root (or empty). */
  function Parent(path: string): (r: Option<string>)
    ensures r.None? <==> forall i :: 0 <= i < |path| ==> path[i] == '/'
    ensures r.Some? ==> |r.value| < |path| && StartsWith(path, r.value)
  {
    var n := SeparatorEnd(path);
    if n == 0 then None
    else
      var t := path[..n];
      var k := LastIndexOf(t, '/');
      if k < 0 then Some("")
      else
        var m := SeparatorEnd(t[..k]);
        if m == 0 then Some(path[..1]) else Some(t[..m])
  }

  /** `s` is one path component: a non-empty name without separators, possibly surrounded by
      separators. */
  predicate OneComponent(s: string) {
    && !(forall i :: 0 <= i < |s| ==> s[i] == '/')
    && forall i, j, k :: 0 <= i < j < k < |s| && s[i] != '/' && s[k] != '/' ==> s[j] != '/'
  }

  /** `p` is `path` without exactly its final component: a shorter prefix followed by one
      component that starts at a separator (unless `p` is empty or the root), and `p` ends in a
      separator only when it is the root. Only a relative path of one component drops to the
      empty path. */
  predicate DropsFinalComponent(path: string, p: string) {
    && StartsWith(path, p) && |p| < |path|
    && OneComponent(path[|p|..])
    && (p == [] || p == "/" || p[|p| - 1] != '/')
    && (p != [] && p != "/" ==> path[|p|] == '/')
    && (p == [] ==> path[0] != '/')
  }

  /** The parent drops exactly the final component. */
  lemma ParentDropsFinalComponent(path: string)
    requires Parent(path).Some?
    ensures DropsFinalComponent(path, Parent(path).value)
  {
    var n := SeparatorEnd(path);
    var t := path[..n];
    var k := LastIndexOf(t, '/');
    if k < 0 {
      OneComponentAfter(path, 0, 0, n);
    } else {
      var m := SeparatorEnd(t[..k]);
      var q := if m == 0 then 1 else m;
      assert Parent(path).value == path[..q];
      if m == 0 {
        assert path[0] == '/' && path[..q] == "/";
      } else {
        assert path[..q][q - 1] == t[..k][m - 1] != '/';
        assert m == k || t[..k][m] == '/';
      }
      forall i | q <= i <= k ensures path[i] == '/' {
        assert i == k || t[..k][i] == '/';
      }
      OneComponentAfter(path, q, k + 1, n);
    }
  }

  /** Dropping exactly the final component determines the result: any prefix that does so is
      the parent. */
  lemma OnlyParentDropsFinalComponent(path: string, p: string)
    requires DropsFinalComponent(path, p)
    ensures Parent(path) == Some(p)
  {
    var j := NameIn(path[|p|..]);
    assert path[|p| + j] != '/';
    ParentDropsFinalComponent(path);
    var parent := Parent(path).value;
    if |p| <= |parent| {
      DropsAtMostOneCut(path, p, parent);
    } else {
      DropsAtMostOneCut(path, parent, p);
    }
    assert p == path[..|p|] && parent == path[..|parent|];
  }

  /** Two prefixes that both drop exactly the final component have the same length. */
  lemma DropsAtMostOneCut(path: string, p1: string, p2: string)
    requires DropsFinalComponent(path, p1) && DropsFinalComponent(path, p2) && |p1| <= |p2|
    ensures |p1| == |p2|
  {
    var q1, q2 := |p1|, |p2|;
    var j := NameIn(path[q2..]);
    assert path[q2 + j] != '/';
    SeparatorBetweenNames(path, q1, q2, q2 + j);
    assert p2 == "/" ==> path[0] == '/';
  }

  /** A separator between two name characters after `q` makes what follows `q` more than one
      component. */
  lemma SeparatorBetweenNames(s: string, q: nat, b: nat, c: nat)
    requires q <= b <= c < |s|
    ensures q < b && s[b - 1] != '/' && s[b] == '/' && s[c] != '/' ==> !OneComponent(s[q..])
  {
    if q < b && s[b - 1] != '/' && s[b] == '/' && s[c] != '/' {
      var r := s[q..];
      assert r[b - 1 - q] != '/' && r[b - q] == '/' && r[c - q] != '/';
    }
  }

  /** The position of a name character in a component. */
  lemma NameIn(s: string) returns (j: nat)
    requires OneComponent(s)
    ensures j < |s| && s[j] != '/'
  {
    j :| 0 <= j < |s| && s[j] != '/';
  }

  /** What follows `q` in `s` is one component when `s[a..b]` is a name between separators. */
  lemma OneComponentAfter(s: string, q: nat, a: nat, b: nat)
    requires q <= a < b <= |s|
    requires forall i :: q <= i < a ==> s[i] == '/'
    requires forall i :: a <= i < b ==> s[i] != '/'
    requires forall i :: b <= i < |s| ==> s[i] == '/'
    ensures OneComponent(s[q..])
  {
    var r := s[q..];
    assert r[a - q] != '/';
    forall i, j, k | 0 <= i < j < k < |r| && r[i] != '/' && r[k] != '/' ensures r[j] != '/' {
      assert s[q + i] != '/' && s[q + k] != '/' && r[j] == s[q + j];
    }
  }

  /** `mount <device> <mountPoint>`: each operand passed verbatim, in its own argument. */
  function MountArgv(device: string, mountPoint: string): (r: seq<string>)
    ensures |r| == 3 && r[0] == "mount" && r[1] == device && r[2] == mountPoint
  {
    ["mount", device, mountPoint]
  }

  /** `umount <mountPoint>`: the target is the directory argument of the mount command. */
  function UnmountArgv(mountPoint: string): (r: seq<string>)
    ensures |r| == 2 && r[0] == "umount" && forall device :: r[1] == MountArgv(device, mountPoint)[2]
  {
    ["umount", mountPoint]
  }

  /** The directories `mount_usb_device` creates, in order: the parent of the mount point,
      when it has one, and the mount point itself. */
  function MountDirectories(mountPoint: string): (r: seq<string>)
    ensures 1 <= |r| <= 2 && r[|r| - 1] == mountPoint
  {
    match Parent(mountPoint)
    case Some(p) => [p, mountPoint]
    case None => [mountPoint]
  }

  /** The index of the first directory whose creation fails, or `|dirs|` when none does. */
  function FirstFailure(env: Environment, dirs: seq<string>): (k: nat)
    ensures k <= |dirs|
    ensures forall i :: 0 <= i < k ==> env.createDirAll(dirs[i]).Ok?
    ensures k < |dirs| ==> env.createDirAll(dirs[k]).Err?
  {
    if dirs == [] || env.createDirAll(dirs[0]).Err? then 0 else 1 + FirstFailure(env, dirs[1..])
  }

  /** Creates each directory in turn, stopping at the first failure. */
  function CreateDirectories(env: Environment, dirs: seq<string>): (r: Run<Result<(), IoError>>)
    ensures r.result.Ok? <==> forall i :: 0 <= i < |dirs| ==> env.createDirAll(dirs[i]).Ok?
    ensures r.result.Ok? ==> |r.effects| == |dirs|
    ensures |r.effects| <= |dirs| && forall i :: 0 <= i < |r.effects| ==> r.effects[i] == CreatedDirAll(dirs[i])
    ensures r.result.Err? ==> 0 < |r.effects| && env.createDirAll(dirs[|r.effects| - 1]) == Err(r.result.error)
    ensures r.result.Err? ==> forall i :: 0 <= i < |r.effects| - 1 ==> env.createDirAll(dirs[i]).Ok?
  {
    var k := FirstFailure(env, dirs);
    var attempted := if k < |dirs| then k + 1 else k;
    var effects := seq(attempted, i requires 0 <= i < attempted => CreatedDirAll(dirs[i]));
    if k < |dirs| then Run(effects, Err(env.createDirAll(dirs[k]).error)) else Run(effects, Ok(()))
  }

  /** What `mount_usb_device(device, mountPoint)` asks of the machine and what it returns. */
  function MountRun(env: Environment, device: string, mountPoint: string): (r: Run<Result<(), IoError>>)
    ensures 1 <= |r.effects| <= 3 && r.effects[0] == CreatedDirAll(MountDirectories(mountPoint)[0])
    ensures r.result.Ok? ==> r.effects[|r.effects| - 1] == Spawned(MountArgv(device, mountPoint))
    ensures r.result.Ok? <==>
      && CreateDirectories(env, MountDirectories(mountPoint)).result.Ok?
      && CommandResult(env.output(MountArgv(device, mountPoint))).Ok?
  {
    var dirs := CreateDirectories(env, MountDirectories(mountPoint));
    match dirs.result
    case Err(e) => Run(dirs.effects, Err(e))
    case Ok(_) =>
      var argv := MountArgv(device, mountPoint);
      Run(dirs.effects + [Spawned(argv)], CommandResult(env.output(argv)))
  }

  /** The mount point's own creation and the mount command, as `MountRun` performs them once
      the parent exists. */
  function MountTail(env: Environment, device: string, mountPoint: string): Run<Result<(), IoError>> {
    match env.createDirAll(mountPoint)
    case Err(e) => Run([CreatedDirAll(mountPoint)], Err(e))
    case Ok(_) =>
      var argv := MountArgv(device, mountPoint);
      Run([CreatedDirAll(mountPoint), Spawned(argv)], CommandResult(env.output(argv)))
  }

  lemma MountRunCases(env: Environment, device: string, mountPoint: string)
    ensures MountRun(env, device, mountPoint) ==
      match Parent(mountPoint)
      case None => MountTail(env, device, mountPoint)
      case Some(p) =>
        match env.createDirAll(p)
        case Err(e) => Run([CreatedDirAll(p)], Err(e))
        case Ok(_) =>
          var tail := MountTail(env, device, mountPoint);
          Run([CreatedDirAll(p)] + tail.effects, tail.result)
  {
    var dirs := MountDirectories(mountPoint);
    assert CreateDirectories(env, [mountPoint]) ==
      if env.createDirAll(mountPoint).Err? then Run([CreatedDirAll(mountPoint)], Err(env.createDirAll(mountPoint).error))
      else Run([CreatedDirAll(mountPoint)], Ok(()));
    if Parent(mountPoint).Some? {
      assert dirs[1..] == [mountPoint];
    }
  }

  /** `mount_usb_device`: creates the parent of the mount point (when it has one), then the
      mount point, then runs `mount device mountPoint`; a failed step ends the operation. */
  method MountUsbDevice(host: Host, device: string, mountPoint: string) returns (r: Result<(), IoError>)
    modifies host
    ensures host.effects == old(host.effects) + MountRun(host.env, device, mountPoint).effects
    ensures r == MountRun(host.env, device, mountPoint).result
  {
    MountRunCases(host.env, device, mountPoint);
    var parent := Parent(mountPoint);
    if parent.Some? {
      var created := host.CreateDirAll(parent.value);
      if created.Err? {
        return Err(created.error);
      }
    }
    r := CreateAndMount(host, device, mountPoint);
  }

  /** The end of `mount_usb_device`: creates the mount point, then runs the mount command. */
  method CreateAndMount(host: Host, device: string, mountPoint: string) returns (r: Result<(), IoError>)
    modifies host
    ensures host.effects == old(host.effects) + MountTail(host.env, device, mountPoint).effects
    ensures r == MountTail(host.env, device, mountPoint).result
  {
    var created := host.CreateDirAll(mountPoint);
    if created.Err? {
      return Err(created.error);
    }
    var output := host.Output(MountArgv(device, mountPoint));
    r := CommandResult(output);
  }

  /** `unmount_usb_device`: runs `umount mountPoint`. */
  method UnmountUsbDevice(host: Host, mountPoint: string) returns (r: Result<(), IoError>)
    modifies host
    ensures host.effects == old(host.effects) + [Spawned(UnmountArgv(mountPoint))]
    ensures r == CommandResult(host.env.output(UnmountArgv(mountPoint)))
  {
    var output := host.Output(UnmountArgv(mountPoint));
    r := CommandResult(output);
  }

  /** The mount command runs only after every directory was created, and then as the last
      action; a mount succeeds only if the directories were created and the command succeeded. */
  lemma MountCommandLast(env: Environment, device: string, mountPoint: string)
    ensures var run := MountRun(env, device, mountPoint);
      var dirs := MountDirectories(mountPoint);
      var created := forall i :: 0 <= i < |dirs| ==> env.createDirAll(dirs[i]).Ok?;
      && (Spawned(MountArgv(device, mountPoint)) in run.effects <==> created)
      && (created ==> run.effects == seq(|dirs|, i requires 0 <= i < |dirs| => CreatedDirAll(dirs[i])) + [Spawned(MountArgv(device, mountPoint))])
      && (!created ==> forall e :: e in run.effects ==> e.CreatedDirAll?)
      && (run.result.Ok? <==> created && env.output(MountArgv(device, mountPoint)).Ok? && env.output(MountArgv(device, mountPoint)).value.success)
  {
    var dirs := MountDirectories(mountPoint);
    var made := CreateDirectories(env, dirs);
    if !made.result.Ok? {
      forall e | e in made.effects ensures e.CreatedDirAll? {
        var i :| 0 <= i < |made.effects| && made.effects[i] == e;
      }
    }
  }
}
