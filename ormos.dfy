/** The `Ormos` gRPC service: each handler normalises its request, calls the operation behind
    it and maps the outcome to a response or a status. Mount, unmount, load and inspect report
    failure inside their response; listing devices or archives fails with a status. */
module Ormos {
  import opened Base
  import opened Host
  import Devices
  import Mounts
  import Archives

  /** The directory used when a request leaves its path empty. */
  const DEFAULT_PATH := "/mnt/usb"

  /** The gRPC status codes the handlers can produce. */
  datatype Code =
    | Internal | Unavailable | AlreadyExists | Aborted | DataLoss | InvalidArgument
    | NotFound | PermissionDenied | DeadlineExceeded | OutOfRange | Unknown

  datatype Status = Status(code: Code, message: string)

  /** The code tonic's `Status::from(io::Error)` gives an error of kind `kind`. */
  function KindCode(kind: ErrorKind): Code {
    match kind
    case BrokenPipe | WouldBlock | WriteZero | Interrupted => Internal
    case ConnectionRefused | ConnectionReset | NotConnected | AddrInUse | AddrNotAvailable => Unavailable
    case AlreadyExists => Code.AlreadyExists
    case ConnectionAborted => Aborted
    case InvalidData => DataLoss
    case InvalidInput => InvalidArgument
    case NotFound => Code.NotFound
    case PermissionDenied => Code.PermissionDenied
    case TimedOut => DeadlineExceeded
    case UnexpectedEof => OutOfRange
    case Other | Remaining => Unknown
  }

  /** `Status::from(io::Error)`: the error's text under the code of its kind. Only an
      interrupted or stalled transfer becomes `Internal`; the service's own command failures
      (kind `Other`) become `Unknown`. */
  function IoStatus(e: IoError): (r: Status)
    ensures r.message == e.message
    ensures r.code == Internal <==> e.kind in {BrokenPipe, WouldBlock, WriteZero, Interrupted}
    ensures e.kind == Other ==> r.code == Unknown
    ensures e.kind == ErrorKind.NotFound <==> r.code == Code.NotFound
    ensures e.kind == ErrorKind.PermissionDenied <==> r.code == Code.PermissionDenied
  {
    Status(KindCode(e.kind), e.message)
  }

  datatype MountUsbDeviceRequest = MountUsbDeviceRequest(device_path: string, mount_point: string)
  datatype UnmountUsbDeviceRequest = UnmountUsbDeviceRequest(mount_point: string)
  datatype ListImageArchivesRequest = ListImageArchivesRequest(path: string)
  datatype LoadImageArchiveRequest = LoadImageArchiveRequest(file_path: string, image_name: string, image_tag: string)
  datatype InspectImageArchiveRequest = InspectImageArchiveRequest(file_path: string)

  datatype ListUsbDevicesResponse = ListUsbDevicesResponse(devices: seq<Mounts.UsbDevice>)
  datatype ListImageArchivesResponse = ListImageArchivesResponse(image_archives: seq<Archives.ImageArchive>)

  /** The reply of mount, unmount and load: success, or failure with the error's text. */
  datatype CommandResponse = CommandResponse(is_success: bool, error_message: string)

  type MountUsbDeviceResponse = CommandResponse
  type UnmountUsbDeviceResponse = CommandResponse
  type LoadImageArchiveResponse = CommandResponse

  datatype InspectImageArchiveResponse = InspectImageArchiveResponse(is_success: bool, stdout: string, stderr: string)

  /** The path a request asks for, or the default when it leaves it empty. */
  function OrDefault(path: string): (r: string)
    ensures r != []
    ensures path != [] ==> r == path
    ensures path == [] ==> r == DEFAULT_PATH
  {
    if path == [] then DEFAULT_PATH else path
  }

  /** The response to an operation's outcome: a success carries no message, a failure carries
      the error's text. */
  function CommandResponseOf(outcome: Result<(), IoError>): (r: CommandResponse)
    ensures r.is_success <==> outcome.Ok?
    ensures r.is_success ==> r.error_message == []
    ensures outcome.Err? ==> r.error_message == outcome.error.message
  {
    match outcome
    case Ok(_) => CommandResponse(true, "")
    case Err(e) => CommandResponse(false, e.message)
  }

  /** The response to an inspection: its output on success, its error's text otherwise. */
  function InspectResponseOf(outcome: Result<string, IoError>): (r: InspectImageArchiveResponse)
    ensures r.is_success <==> outcome.Ok?
    ensures r.is_success ==> r.stdout == outcome.value && r.stderr == []
    ensures !r.is_success ==> r.stdout == [] && r.stderr == outcome.error.message
  {
    match outcome
    case Ok(out) => InspectImageArchiveResponse(true, out, "")
    case Err(e) => InspectImageArchiveResponse(false, "", e.message)
  }

  /** What `list_usb_devices` answers. */
  function ListUsbDevicesReply(env: Environment): (r: Result<ListUsbDevicesResponse, Status>)
    ensures r.Ok? <==> Devices.UsbBlockDevices(env).Ok?
    ensures r.Err? ==> r.error == Status(Internal, "Failed to list USB devices: " + Devices.UsbBlockDevices(env).error.message)
    ensures r.Ok? ==> var paths := Devices.UsbBlockDevices(env).value;
      |r.value.devices| == |paths| &&
      forall i :: 0 <= i < |paths| ==> r.value.devices[i].device_path == paths[i] && r.value.devices[i].Valid()
  {
    match Devices.UsbBlockDevices(env)
    case Err(e) => Err(Status(Internal, "Failed to list USB devices: " + e.message))
    case Ok(paths) => Ok(ListUsbDevicesResponse(Mounts.UsbDevices(paths, env)))
  }

  /** `list_usb_devices`. */
  method ListUsbDevices(env: Environment) returns (r: Result<ListUsbDevicesResponse, Status>)
    ensures r == ListUsbDevicesReply(env)
  {
    var paths := Devices.ListUsbBlockDevices(env);
    match paths
    case Err(e) =>
      r := Err(Status(Internal, "Failed to list USB devices: " + e.message));
    case Ok(paths) =>
      r := Ok(ListUsbDevicesResponse(Mounts.UsbDevices(paths, env)));
  }

  /** `mount_usb_device`: never fails as a call; the outcome of the mount is in the response. */
  method MountUsbDevice(host: Host, request: MountUsbDeviceRequest) returns (r: Result<MountUsbDeviceResponse, Status>)
    modifies host
    ensures var run := Mounts.MountRun(host.env, request.device_path, OrDefault(request.mount_point));
      host.effects == old(host.effects) + run.effects && r == Ok(CommandResponseOf(run.result))
  {
    var mountPoint := OrDefault(request.mount_point);
    var outcome := Mounts.MountUsbDevice(host, request.device_path, mountPoint);
    r := Ok(CommandResponseOf(outcome));
  }

  /** `unmount_usb_device`: never fails as a call; the outcome of `umount` is in the response. */
  method UnmountUsbDevice(host: Host, request: UnmountUsbDeviceRequest) returns (r: Result<UnmountUsbDeviceResponse, Status>)
    modifies host
    ensures var argv := Mounts.UnmountArgv(OrDefault(request.mount_point));
      host.effects == old(host.effects) + [Spawned(argv)] && r == Ok(CommandResponseOf(CommandResult(host.env.output(argv))))
  {
    var mountPoint := OrDefault(request.mount_point);
    var outcome := Mounts.UnmountUsbDevice(host, mountPoint);
    r := Ok(CommandResponseOf(outcome));
  }

  /** What `list_image_archives` answers once the archives of `dir` were discovered. */
  function ListImageArchivesReply(env: Environment, sha256: seq<byte> -> Archives.Digest, dir: string): (r: Result<ListImageArchivesResponse, Status>)
    ensures var found := Archives.Discovery(env, dir).result;
      && (found.Err? ==> r == Err(IoStatus(found.error)))
      && (found.Ok? ==> var catalog := Archives.Catalog(env, sha256, found.value);
        && (r.Ok? <==> catalog.Ok?)
        && (r.Ok? ==> r.value.image_archives == catalog.value)
        && (r.Err? ==> r.error == Status(Internal, "Failed to create image archive response: " + catalog.error.message)))
  {
    match Archives.Discovery(env, dir).result
    case Err(e) => Err(IoStatus(e))
    case Ok(paths) =>
      match Archives.Catalog(env, sha256, paths)
      case Err(e) => Err(Status(Internal, "Failed to create image archive response: " + e.message))
      case Ok(entries) => Ok(ListImageArchivesResponse(entries))
  }

  /** `list_image_archives`: discovers the archives of the requested directory and catalogues
      them; the digest function is an input. */
  method ListImageArchives(host: Host, sha256: seq<byte> -> Archives.Digest, request: ListImageArchivesRequest)
    returns (r: Result<ListImageArchivesResponse, Status>)
    modifies host
    ensures var dir := OrDefault(request.path);
      host.effects == old(host.effects) + Archives.Discovery(host.env, dir).effects &&
      r == ListImageArchivesReply(host.env, sha256, dir)
  {
    var dir := OrDefault(request.path);
    var found := Archives.ListContainerImageArchives(host, dir);
    match found
    case Err(e) =>
      r := Err(IoStatus(e));
    case Ok(paths) =>
      var catalog := Archives.Catalog(host.env, sha256, paths);
      match catalog
      case Err(e) =>
        r := Err(Status(Internal, "Failed to create image archive response: " + e.message));
      case Ok(entries) =>
        r := Ok(ListImageArchivesResponse(entries));
  }

  /** `load_image_archive`: never fails as a call; the outcome of the copy is in the response. */
  method LoadImageArchive(host: Host, request: LoadImageArchiveRequest) returns (r: Result<LoadImageArchiveResponse, Status>)
    modifies host
    ensures var argv := Archives.CopyArgv(request.file_path, request.image_name, request.image_tag);
      host.effects == old(host.effects) + [Spawned(argv)] && r == Ok(CommandResponseOf(CommandResult(host.env.output(argv))))
  {
    var outcome := Archives.LoadContainerImageArchive(host, request.file_path, request.image_name, request.image_tag);
    r := Ok(CommandResponseOf(outcome));
  }

  /** `inspect_image_archive`: never fails as a call; the inspection's output or error is in the response. */
  method InspectImageArchive(host: Host, request: InspectImageArchiveRequest) returns (r: Result<InspectImageArchiveResponse, Status>)
    modifies host
    ensures var argv := Archives.InspectArgv(request.file_path);
      host.effects == old(host.effects) + [Spawned(argv)] && r == Ok(InspectResponseOf(Archives.InspectResult(host.env.output(argv))))
  {
    var outcome := Archives.InspectContainerImageArchive(host, request.file_path);
    r := Ok(InspectResponseOf(outcome));
  }

  /** A mount reported as successful created both directories and ran `mount` successfully;
      one reported as failed either stopped at a directory or ran a failing `mount`. */
  lemma MountResponseMeaning(env: Environment, request: MountUsbDeviceRequest)
    ensures var mountPoint := OrDefault(request.mount_point);
      var response := CommandResponseOf(Mounts.MountRun(env, request.device_path, mountPoint).result);
      var dirs := Mounts.MountDirectories(mountPoint);
      var argv := Mounts.MountArgv(request.device_path, mountPoint);
      response.is_success <==>
        (forall i :: 0 <= i < |dirs| ==> env.createDirAll(dirs[i]).Ok?) && env.output(argv).Ok? && env.output(argv).value.success
  {
    Mounts.MountCommandLast(env, request.device_path, OrDefault(request.mount_point));
  }

  /** Every device the listing reports is a removable disk of `/dev` or one of its partitions,
      reported with a mount point exactly when it is mounted. */
  lemma ListedDevicesAreUsb(env: Environment, i: nat)
    requires ListUsbDevicesReply(env).Ok? && i < |ListUsbDevicesReply(env).value.devices|
    ensures var device := ListUsbDevicesReply(env).value.devices[i];
      var names := Names(env.readDir(Devices.DEV_DIR).value);
      device.Valid() &&
      exists d :: d in names && Devices.IsSelectedDisk(env, d) &&
        (device.device_path == Devices.DevicePath(d) ||
         exists q :: q in names && Devices.IsPartitionOf(q, d) && device.device_path == Devices.DevicePath(q))
  {
    var paths := Devices.UsbBlockDevices(env).value;
    assert paths[i] in paths;
    Devices.UsbBlockDevicesMember(env, paths[i]);
  }

  /** Every archive `list_image_archives` reports is an accepted `tar` entry of the directory,
      with the file's length as `i64` and the 64-digit hex form of its contents' digest. */
  lemma ListedArchivesAreValidated(env: Environment, sha256: seq<byte> -> Archives.Digest, dir: string, i: nat)
    requires ListImageArchivesReply(env, sha256, dir).Ok?
    requires i < |ListImageArchivesReply(env, sha256, dir).value.image_archives|
    ensures FullyReadable(env.readDir(dir))
    ensures var archive := ListImageArchivesReply(env, sha256, dir).value.image_archives[i];
      var entries := env.readDir(dir).value;
      && (exists j :: 0 <= j < |entries| && Archives.Accepted(env, dir, entries[j].name) &&
            archive.file_path == Archives.JoinPath(dir, entries[j].name))
      && env.fileLength(archive.file_path).Ok? && env.readFile(archive.file_path).Ok?
      && archive.file_size_bytes == Archives.AsI64(env.fileLength(archive.file_path).value)
      && |archive.sha256_checksum| == 64
      && Archives.HexDecode(archive.sha256_checksum) == Some(sha256(env.readFile(archive.file_path).value))
  {
    var paths := Archives.Discovery(env, dir).result.value;
    assert paths[i] in paths;
    Archives.DiscoveryMember(env, dir, paths[i]);
  }
}
