# Ormos (skopos) in Dafny

This project models the Ormos service of skopos. Ormos is a gRPC service that runs on a device
with USB ports. It does four things:

- lists the removable USB disks and their partitions, with their mount state;
- mounts and unmounts them;
- finds container image archives (`.tar` files that `skopeo inspect` accepts) on a mounted disk
  and catalogues them with size and SHA-256 checksum;
- loads an archive into the local registry at `localhost:5000`, or inspects it.

The model follows `src/main.rs` function by function.

**The machine.** `Host.Environment` stands for what the service reads and what its commands
answer. It holds one function per kind of read:

- directory listings, where each entry is a name or an error;
- text files;
- file lengths and file contents;
- the outcome of `create_dir_all`;
- the outcome of launching a command (an argument vector gives a launch error, or an exit status
  with standard output and error).

`Host.Host` is a class whose `effects` field records, in order, every directory creation and
every command the service launches. The methods that mount, unmount, validate, inspect and load
change that field. Their contracts give the new log and the result as functions of the
environment.

**Enumeration** (`Devices`). A whole disk is a `/dev` entry named `sd` plus one character whose
`/sys/block/<name>/removable` attribute trims to `1`. Its path is listed, followed by the path of
every `/dev` entry whose name extends the disk's name. A `removable` attribute that cannot be read
leaves the disk out. A `/dev` entry that cannot be read aborts the whole enumeration.

**Mount table** (`Mounts`). `get_mount_info` returns the target field of the first line of
`/proc/mounts` that has at least two fields and whose first field is the device path.
`mount_usb_device` creates the parent of the mount point, then the mount point, then runs
`mount`. It stops at the first failure.

**Archives** (`Archives`). Discovery scans a directory in listing order. Every entry with
extension `tar` is validated with `skopeo inspect`, and the accepted ones are kept. The catalogue
maps each path to its length (cast to `i64`) and to the lowercase hex form of its digest. It is
all-or-nothing.

**Handlers** (`Ormos`). An empty path in a request means `/mnt/usb`. Mount, unmount, load and
inspect always answer, and report failure inside the response. The two listings fail with a
gRPC status. A discovery error keeps its text, under the code tonic derives from its
`io::ErrorKind`.

A command that fails reports its standard error as the error text. So a failing command with
empty standard error gives `is_success = false` with an empty `error_message`.

## Model

| member | source | states |
|---|---|---|
| Text.Trim | src/main.rs:48 | the trimmed text neither starts nor ends with whitespace |
| Text.TrimKeepsText | src/main.rs:48 | trimming removes only whitespace: the non-whitespace characters are unchanged |
| Text.TrimIsInfix | src/main.rs:48 | the trimmed text is the slice of the text left after removing a whitespace prefix and a whitespace suffix |
| Text.TrimIsOne | src/main.rs:48 | an attribute trims to "1" exactly when "1" is its only non-whitespace character |
| Text.SplitWhitespace | src/main.rs:76 | every field is non-empty and contains no whitespace |
| Text.SplitWhitespaceKeepsText | src/main.rs:76 | the fields, concatenated, are exactly the non-whitespace characters of the line, in order |
| Text.SplitWhitespaceOfWord | src/main.rs:76 | a non-empty word without whitespace is exactly one field |
| Text.SplitWhitespaceOfBlank | src/main.rs:76 | a blank line has no fields |
| Text.SplitWhitespaceAround | src/main.rs:76 | a whitespace character separates fields: the fields of `a`, whitespace, `b` are those of `a` followed by those of `b`, so the fields are the maximal non-whitespace runs |
| Text.LinesHaveNoNewline | src/main.rs:75 | no line contains a newline |
| Text.LinesRoundTrip | src/main.rs:75 | the lines, each followed by a newline, are the text with every "\r\n" reduced to "\n" and a final newline added when missing, so nothing but line endings is lost |
| Host.CommandResult | src/main.rs:106-118 | success exactly when the command launched and exited successfully; a launch error is passed on; a failure carries standard error |
| Host.Host.CreateDirAll | src/main.rs:102 | records one directory creation and returns the machine's answer |
| Host.Host.Output | src/main.rs:106-109 | records one command launch and returns the machine's answer |
| Devices.IsUsbStorageDevice | src/main.rs:44-51 | removable exactly when the attribute can be read and "1" is its only non-whitespace text; a read error means not removable |
| Devices.Partitions | src/main.rs:54-71 | fails exactly when `/dev` or one of its entries cannot be read, with the first such error; otherwise lists exactly the paths of the names extending the disk |
| Devices.UsbBlockDevices | src/main.rs:20-42 | the enumeration fails exactly when `/dev` or one of its entries cannot be read, and then with the first such error |
| Devices.GetPartitions | src/main.rs:54-71 | the loop returns the paths of the names extending the disk, in listing order, or the first read error |
| Devices.ListUsbBlockDevices | src/main.rs:20-42 | the loop returns each selected disk followed by its partitions, in listing order, or the first read error |
| Devices.AppendDisk | src/main.rs:30-36 | one name of the loop: a selected disk's path and its partitions are appended; a failure of `get_partitions` is the failure of the whole enumeration |
| Devices.DevicePathInjective | src/main.rs:32 | different names give different device paths |
| Devices.PartitionPathsMember | src/main.rs:64-66 | a path is a partition path of a disk exactly when it is the path of a listed name that starts with the disk's name and is longer |
| Devices.PartitionPathsDistinct | src/main.rs:64-66 | a listing without repeated names gives no repeated partition path |
| Devices.PartitionPathLength | src/main.rs:64 | a partition path is longer than any whole-disk path, so no partition is a whole disk |
| Devices.PartitionPathsDisjoint | src/main.rs:64 | two different whole disks share no partition path |
| Devices.DiskPathsMember | src/main.rs:30-36 | a path is listed exactly when it is a selected disk's path or one of that disk's partition paths |
| Devices.DiskPathsDistinct | src/main.rs:30-36 | a listing without repeated names gives an enumeration without repeated paths |
| Devices.BlockLeadsWithDisk | src/main.rs:31-36 | in the block contributed by one name, the only whole-disk path is that name's, in first place, followed by its partitions |
| Devices.DiskFollowedByPartitions | src/main.rs:30-36 | a whole-disk path in the enumeration belongs to a selected disk and is immediately followed by all of that disk's partitions |
| Devices.UsbBlockDevicesMember | src/main.rs:20-42 | a successful enumeration lists exactly the selected disks of `/dev` and their partitions |
| Devices.NonRemovableDiskExcluded | src/main.rs:44-51 | a whole disk whose attribute is unreadable or does not trim to "1" is left out, without an error |
| Devices.UsbBlockDevicesDistinct | src/main.rs:20-42 | a `/dev` without repeated names gives an enumeration without repeated paths |
| Mounts.FirstDescribing | src/main.rs:75-80 | the index of the first line with at least two fields whose first field is the device; no earlier line qualifies |
| Mounts.MountInfo | src/main.rs:73-83 | the device is reported mounted exactly when the reported mount point is non-empty |
| Mounts.GetMountInfo | src/main.rs:73-83 | the loop with its early return computes `MountInfo` |
| Mounts.MountedAtFirstEntry | src/main.rs:75-79 | a mounted device's mount point is the target field of the first mount-table line for it |
| Mounts.UnmountedWhenUndescribed | src/main.rs:73-83 | not mounted exactly when the table is unreadable or no line describes the device |
| Mounts.UsbDevices | src/main.rs:85-98 | same length and order, each device path kept, each mount state that of `get_mount_info`, and a mount point exactly for mounted devices |
| Mounts.Parent | src/main.rs:101 | no parent exactly for a path made only of separators; a parent is a strictly shorter prefix of the path |
| Mounts.ParentDropsFinalComponent | src/main.rs:101 | the parent drops exactly the final component: it is a shorter prefix followed by one name with only separators around it, that remainder starts at a separator unless the parent is empty or the root, the parent ends in a separator only when it is the root, and only a relative one-component path has the empty parent |
| Mounts.OnlyParentDropsFinalComponent | src/main.rs:101 | any prefix that drops exactly the final component is the parent, so that description determines `Path::parent` |
| Mounts.MountArgv | src/main.rs:106-108 | `mount` with the device and the mount point as separate arguments, passed verbatim |
| Mounts.UnmountArgv | src/main.rs:122-123 | `umount` with the mount point, the same argument the mount command gets |
| Mounts.MountDirectories | src/main.rs:101-104 | one or two directories are created, the last being the mount point |
| Mounts.FirstFailure | src/main.rs:101-104 | the index of the first directory creation that fails; every earlier one succeeds |
| Mounts.CreateDirectories | src/main.rs:101-104 | directories are created in order up to the first failure; the result is Ok exactly when every creation succeeds; on an error, every earlier creation succeeded and the error is that of the last one attempted |
| Mounts.MountRun | src/main.rs:100-119 | the first action creates a directory, at most three actions happen, success ends with the `mount` command, and success means every directory was created and `mount` succeeded |
| Mounts.MountRunCases | src/main.rs:100-119 | mounting, spelled out: the parent's creation (when there is a parent), the mount point's creation, then `mount` |
| Mounts.MountUsbDevice | src/main.rs:100-119 | the method's actions and result are those of `MountRun` |
| Mounts.CreateAndMount | src/main.rs:104-118 | creates the mount point and, only if that succeeds, runs `mount` and reports its outcome |
| Mounts.UnmountUsbDevice | src/main.rs:121-135 | runs `umount <mount point>` once and reports its outcome |
| Mounts.MountCommandLast | src/main.rs:101-109 | `mount` runs exactly when both directories were created, and then as the last action; otherwise only directory creations happen; success means created and command succeeded |
| Archives.JoinPathShape | src/main.rs:154 | an entry's path is the directory, a separator unless the directory is empty or already ends with one, then the file name |
| Archives.Extension | src/main.rs:156 | an extension is the dot-free text after the last dot; there is none for "..", or when no dot follows the first character |
| Archives.ExtensionIsTar | src/main.rs:156 | an entry has extension `tar` exactly when its name is longer than ".tar" and ends with it |
| Archives.JoinPathInjective | src/main.rs:154 | different entries of a directory have different paths |
| Archives.InspectArgv | src/main.rs:138-140 | `skopeo inspect` with the path, verbatim, after `docker-archive:` |
| Archives.Validates | src/main.rs:137-147 | an archive is accepted exactly when the inspect command runs and succeeds |
| Archives.Scan | src/main.rs:152-163 | fails exactly when an entry cannot be read, with the first such error; every listed path was validated |
| Archives.Discovery | src/main.rs:149-164 | an unreadable directory fails with its error and runs nothing; every listed path was validated |
| Archives.ListedWereValidated | src/main.rs:156-159 | every found path had its validator run |
| Archives.DiscoveryFails | src/main.rs:149-164 | discovery fails exactly when the directory or one of its entries cannot be read, with the first such error |
| Archives.IsFileAContainerImageArchive | src/main.rs:137-147 | runs `skopeo inspect docker-archive:<path>` once; accepts exactly on a successful exit; a launch error rejects |
| Archives.ScanEntry | src/main.rs:155-160 | one entry of the scan: only a `tar` entry is validated, and it is kept exactly when accepted |
| Archives.ListContainerImageArchives | src/main.rs:149-164 | the method's validator runs and result are those of `Discovery` |
| Archives.ScanEntries | src/main.rs:152-163 | the loop over the entries: its validator runs and result are those of `Scan`, which stops at the first unreadable entry |
| Archives.ScanNext | src/main.rs:153-160 | one readable entry extends the found paths and the validator runs by that entry's own outcome |
| Archives.ScanStopsAt | src/main.rs:152-163 | a scan that stops at an unreadable entry fails with its error after the validator runs of the entries before it; one that reaches the end returns the accepted paths |
| Archives.ArchivePathsAppend | src/main.rs:152-161 | the archives found in two consecutive runs of entries are those of the first run followed by those of the second |
| Archives.ArchivePathsMember | src/main.rs:155-160 | a path is found exactly when it is the path of an entry with extension `tar` that the validator accepts |
| Archives.ArchivePathsSound | src/main.rs:155-160 | every found path is the path of an accepted entry, which it names |
| Archives.ArchivePathsComplete | src/main.rs:155-160 | every accepted entry's path is found |
| Archives.DiscoveryMember | src/main.rs:149-164 | a readable directory yields exactly the paths of its accepted entries |
| Archives.ValidationSpawnsMember | src/main.rs:155-157 | the validator runs exactly on the `tar` entries |
| Archives.ValidationSpawnsSound | src/main.rs:155-157 | every validator run is for a `tar` entry |
| Archives.ValidationSpawnsComplete | src/main.rs:155-157 | every `tar` entry is validated |
| Archives.AsI64 | src/main.rs:187 | the cast keeps the value modulo 2^64, lands in the `i64` range, and changes it exactly when it is 2^63 or more |
| Archives.HexEncode | src/main.rs:193 | two lowercase hex digits per byte |
| Archives.HexDecode | src/main.rs:193 | the inverse encoding accepts exactly the even-length texts of lowercase hex digits |
| Archives.HexRoundTrip | src/main.rs:193 | decoding an encoding gives back the bytes |
| Archives.HexDecodeRoundTrip | src/main.rs:193 | encoding a decoding gives back the text, so each digest has exactly one checksum text |
| Archives.CatalogEntry | src/main.rs:185-199 | fails exactly when the length or the contents cannot be read, with the length error first; otherwise the path is kept, the size is the length as `i64`, and the checksum is 64 digits that decode to the contents' digest |
| Archives.FirstUnreadable | src/main.rs:183-201 | the index of the first path whose entry fails; every earlier one succeeds |
| Archives.Catalog | src/main.rs:182-202 | all-or-nothing: one entry per path, in order, when every path can be read; otherwise the error of the first path that fails |
| Archives.CatalogChecksums | src/main.rs:182-202 | every catalogued entry keeps its path and has a 64-digit lowercase hex checksum |
| Archives.InspectResult | src/main.rs:166-180 | success exactly on a successful exit, with standard output; otherwise the same error as the command's failure |
| Archives.InspectContainerImageArchive | src/main.rs:166-180 | runs `skopeo inspect` once and reports standard output or the error |
| Archives.InspectAgreesWithValidation | src/main.rs:137-147 | inspection succeeds exactly when the validator accepts the same archive |
| Archives.CopyArgv | src/main.rs:205-208 | `skopeo copy` from the same archive reference that inspection uses, to `docker://localhost:5000/<name>:<tag>` |
| Archives.LoadContainerImageArchive | src/main.rs:204-220 | runs `skopeo copy docker-archive:<path> docker://localhost:5000/<name>:<tag>` once and reports its outcome |
| Archives.CopyReferenceInjective | src/main.rs:208 | when tags contain no ':', the registry reference determines both image name and tag |
| Ormos.IoStatus | src/main.rs:309 | an I/O error becomes a status that keeps its text; the code is internal exactly for a broken pipe, would-block, write-zero or interrupted error, unknown for the service's own command failures, and not-found and permission-denied exactly for those kinds |
| Ormos.OrDefault | src/main.rs:246-250 | an empty path becomes `/mnt/usb`, any other is used as given; the result is never empty |
| Ormos.CommandResponseOf | src/main.rs:252-266 | `is_success` exactly on success; an empty message on success, the error's text on failure |
| Ormos.InspectResponseOf | src/main.rs:350-366 | `is_success` exactly on success; the output and an empty `stderr` on success; an empty `stdout` and the error's text on failure |
| Ormos.ListUsbDevicesReply | src/main.rs:224-238 | fails, with an internal status naming the listing error, exactly when the enumeration fails; otherwise one valid device per enumerated path, in order |
| Ormos.ListUsbDevices | src/main.rs:224-238 | the handler answers `ListUsbDevicesReply` |
| Ormos.MountUsbDevice | src/main.rs:240-268 | always answers; the response reports the outcome of mounting at the requested or default mount point |
| Ormos.UnmountUsbDevice | src/main.rs:270-297 | always answers; the response reports the outcome of `umount` at the requested or default mount point |
| Ormos.ListImageArchivesReply | src/main.rs:299-316 | a discovery error becomes a status from the I/O error; a catalogue error becomes an internal status; otherwise the catalogue |
| Ormos.ListImageArchives | src/main.rs:299-316 | the handler's actions are discovery's, in the requested or default directory, and its answer is `ListImageArchivesReply` |
| Ormos.LoadImageArchive | src/main.rs:318-341 | always answers; the response reports the outcome of the copy into the registry |
| Ormos.InspectImageArchive | src/main.rs:343-368 | always answers; the response carries the inspection's output or error |
| Ormos.MountResponseMeaning | src/main.rs:240-268 | a mount response reports success exactly when both directories were created and `mount` succeeded |
| Ormos.ListedDevicesAreUsb | src/main.rs:224-238 | every listed device is a selected disk of `/dev` or one of its partitions, with a mount point exactly when mounted |
| Ormos.ListedArchivesAreValidated | src/main.rs:299-316 | every listed archive is an accepted `tar` entry of the directory, with the file's length as `i64` and a 64-digit checksum of its contents |

## Left out

- The tonic/tokio server, gRPC reflection and `main` (src/main.rs:372-389). They are transport and concurrency, with no selection or mapping logic.
- `println!` and `eprintln!` logging. It has no effect on results.
- The SHA-256 function (the `sha2` crate). It is a parameter, `sha256: seq<byte> -> Digest`, so only its 32-byte result shape is assumed.
- `to_string_lossy` and `from_utf8_lossy`. Names, file contents and command output are character sequences, and lengths count characters where Rust counts bytes. The two agree on the ASCII names that `/dev` and the archive directories use.
- Concurrent change of the filesystem. The environment is one snapshot, so the second read of `/dev` in `get_partitions` sees the same listing as the first.
- Mounts.Parent: it models `Path::parent` for paths of separators and plain names. It does not normalise `.` components.
- Archives.JoinPath: it models `Path::join` for file names without separators, which is what `read_dir` yields.
- Ormos.IoStatus: the code follows tonic's conversion from `io::Error` to `Status`, which is not part of this repository. `io::ErrorKind` variants that get no code of their own are one kind, `Remaining`.
- `File::open` and `io::copy` are one read of the contents (`readFile`). Their errors are not told apart.
- `fs::create_dir_all("")` succeeds in Rust without touching the filesystem. Here, as for every directory, the environment gives the outcome.
- Ormos.ListUsbDevices uses `Mounts.UsbDevices`, a pure map over `MountInfo`, because `create_usb_devices` is a map. `Mounts.GetMountInfo` is proved to compute `MountInfo`.
- build.rs. It generates protobuf code at build time and has no runtime logic.
