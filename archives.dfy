/** Container image archives: discovery in a directory (`list_container_image_archives`,
    validated by `is_file_a_container_image_archive`), cataloguing
    (`create_container_image_archives`), and the `skopeo` invocations that inspect an archive
    and copy it into the local registry. */
module Archives {
  import opened Base
  import opened Text
  import opened Host

  // ---------------------------------------------------------------------------------------
  // Paths

  /** What `Path::join` puts in front of a file name: nothing for an empty directory, the
      directory itself when it already ends with a separator, the directory and a separator
      otherwise. */
  function DirPrefix(dir: string): string {
    if dir == [] || dir[|dir| - 1] == '/' then dir else dir + "/"
  }

  /** The path of an entry of `dir`, as `entry.path()` displays it. */
  function JoinPath(dir: string, name: string): string {
    DirPrefix(dir) + name
  }

  /** `Path::extension` of a file name: the text after its last dot, unless there is no dot,
      the only dot starts the name, or the name is "..". An extension is the dot-free text
      after the last dot, and a name has none exactly when it is ".." or has no dot after its
      first character. */
  function Extension(name: string): (r: Option<string>)
    ensures r.Some? ==> |r.value| + 1 < |name| && name[|name| - |r.value| - 1..] == "." + r.value && '.' !in r.value
    ensures r.None? <==> name == ".." || forall i :: 0 < i < |name| ==> name[i] != '.'
  {
    if name == ".." then None
    else
      var k := LastIndexOf(name, '.');
      if k <= 0 then None
      else
        assert name[|name| - |name[k + 1..]| - 1..] == "." + name[k + 1..];
        Some(name[k + 1..])
  }

  // ---------------------------------------------------------------------------------------
  // Discovery

  /** `skopeo inspect docker-archive:<path>`: the path is passed verbatim, in one argument. */
  function InspectArgv(path: string): (r: seq<string>)
    ensures |r| == 3 && r[0] == "skopeo" && r[1] == "inspect"
    ensures StartsWith(r[2], "docker-archive:") && r[2][|"docker-archive:"|..] == path
  {
    ["skopeo", "inspect", "docker-archive:" + path]
  }

  /** `skopeo inspect` accepts the archive; a validator that cannot be launched rejects it. */
  function Validates(env: Environment, path: string): (valid: bool)
    ensures valid <==> CommandResult(env.output(InspectArgv(path))).Ok?
  {
    var o := env.output(InspectArgv(path));
    o.Ok? && o.value.success
  }

  /** An entry of `dir` is listed when its extension is `tar` and the validator accepts it. */
  predicate Accepted(env: Environment, dir: string, name: string) {
    Extension(name) == Some("tar") && Validates(env, JoinPath(dir, name))
  }

  /** The paths of the accepted entries among `names`, in listing order. */
  function ArchivePaths(env: Environment, dir: string, names: seq<string>): seq<string> {
    if names == [] then []
    else
      var last := names[|names| - 1];
      ArchivePaths(env, dir, names[..|names| - 1]) + if Accepted(env, dir, last) then [JoinPath(dir, last)] else []
  }

  /** The validator runs of a scan through `names`: one per `tar` entry, in listing order. */
  function ValidationSpawns(dir: string, names: seq<string>): seq<Effect> {
    if names == [] then []
    else
      var last := names[|names| - 1];
      ValidationSpawns(dir, names[..|names| - 1]) +
        if Extension(last) == Some("tar") then [Spawned(InspectArgv(JoinPath(dir, last)))] else []
  }

  /** What the scan of a listing runs and returns. It stops at the first entry that cannot be
      read, after validating the `tar` entries before it; every path it lists was validated. */
  function Scan(env: Environment, dir: string, entries: seq<DirEntry>): (r: Run<Result<seq<string>, IoError>>)
    ensures r.result.Err? <==> !(forall i :: 0 <= i < |entries| ==> entries[i].Entry?)
    ensures r.result.Err? ==> r.result.error == entries[ReadableCount(entries)].error
    ensures r.result.Ok? ==> forall p :: p in r.result.value ==> Spawned(InspectArgv(p)) in r.effects
  {
    var k := ReadableCount(entries);
    var names := Names(entries[..k]);
    var spawns := ValidationSpawns(dir, names);
    if k < |entries| then Run(spawns, Err(entries[k].error))
    else
      ListedWereValidated(env, dir, names);
      Run(spawns, Ok(ArchivePaths(env, dir, names)))
  }

  /** What `list_container_image_archives(dir)` runs and returns: nothing is run when the
      directory cannot be read, and every path listed was validated. */
  function Discovery(env: Environment, dir: string): (r: Run<Result<seq<string>, IoError>>)
    ensures env.readDir(dir).Err? ==> r.effects == [] && r.result == Err(env.readDir(dir).error)
    ensures r.result.Ok? ==> forall p :: p in r.result.value ==> Spawned(InspectArgv(p)) in r.effects
  {
    match env.readDir(dir)
    case Err(e) => Run([], Err(e))
    case Ok(entries) => Scan(env, dir, entries)
  }

  /** `is_file_a_container_image_archive`: runs `skopeo inspect` on the archive. */
  method IsFileAContainerImageArchive(host: Host, path: string) returns (valid: bool)
    modifies host
    ensures host.effects == old(host.effects) + [Spawned(InspectArgv(path))]
    ensures valid == Validates(host.env, path)
  {
    var output := host.Output(InspectArgv(path));
    match output
    case Ok(result) => valid := result.success;
    case Err(_) => valid := false;
  }

  /** `list_container_image_archives`: reads `dir`, then scans its entries. */
  method ListContainerImageArchives(host: Host, dir: string) returns (r: Result<seq<string>, IoError>)
    modifies host
    ensures host.effects == old(host.effects) + Discovery(host.env, dir).effects
    ensures r == Discovery(host.env, dir).result
  {
    var listing := host.env.readDir(dir);
    if listing.Err? {
      return Err(listing.error);
    }
    r := ScanEntries(host, dir, listing.value);
  }

  /** The loop of `list_container_image_archives`: in listing order, validates every `tar`
      entry and keeps the accepted ones; an entry that cannot be read ends the scan. */
  method ScanEntries(host: Host, dir: string, entries: seq<DirEntry>) returns (r: Result<seq<string>, IoError>)
    modifies host
    ensures host.effects == old(host.effects) + Scan(host.env, dir, entries).effects
    ensures r == Scan(host.env, dir, entries).result
  {
    var env := host.env;
    var images: seq<string> := [];
    ghost var seen: seq<string> := [];
    for i := 0 to |entries|
      invariant forall j :: 0 <= j < i ==> entries[j].Entry?
      invariant seen == Names(entries[..i])
      invariant images == ArchivePaths(env, dir, seen)
      invariant host.effects == old(host.effects) + ValidationSpawns(dir, seen)
    {
      if entries[i].EntryError? {
        ScanStopsAt(env, dir, entries, i);
        return Err(entries[i].error);
      }
      var name := entries[i].name;
      NamesStep(entries, i);
      images := ScanNext(host, dir, name, images, seen, old(host.effects));
      seen := seen + [name];
    }
    ScanStopsAt(env, dir, entries, |entries|);
    return Ok(images);
  }

  /** One step of the scan: the entry's outcome extends the paths and runs found so far. */
  method ScanNext(host: Host, dir: string, name: string, images: seq<string>, ghost seen: seq<string>, ghost base: seq<Effect>)
    returns (next: seq<string>)
    requires images == ArchivePaths(host.env, dir, seen)
    requires host.effects == base + ValidationSpawns(dir, seen)
    modifies host
    ensures next == ArchivePaths(host.env, dir, seen + [name])
    ensures host.effects == base + ValidationSpawns(dir, seen + [name])
  {
    ScanStep(host.env, dir, seen, name);
    var accepted := ScanEntry(host, dir, name);
    next := if accepted then images + [JoinPath(dir, name)] else images;
  }

  /** The body of the scan for one readable entry: a `tar` entry is validated. */
  method ScanEntry(host: Host, dir: string, name: string) returns (accepted: bool)
    modifies host
    ensures accepted == Accepted(host.env, dir, name)
    ensures host.effects == old(host.effects) +
      if Extension(name) == Some("tar") then [Spawned(InspectArgv(JoinPath(dir, name)))] else []
  {
    accepted := false;
    if Extension(name) == Some("tar") {
      accepted := IsFileAContainerImageArchive(host, JoinPath(dir, name));
    }
  }

  /** One more entry extends the scan by its own outcome. */
  lemma ScanStep(env: Environment, dir: string, seen: seq<string>, name: string)
    ensures ArchivePaths(env, dir, seen + [name]) ==
      ArchivePaths(env, dir, seen) + (if Accepted(env, dir, name) then [JoinPath(dir, name)] else [])
    ensures ValidationSpawns(dir, seen + [name]) ==
      ValidationSpawns(dir, seen) + (if Extension(name) == Some("tar") then [Spawned(InspectArgv(JoinPath(dir, name)))] else [])
  {
    assert (seen + [name])[..|seen|] == seen;
  }

  /** The outcome of a scan that stops at entry `i`, because it cannot be read or because it
      is past the end. */
  lemma ScanStopsAt(env: Environment, dir: string, entries: seq<DirEntry>, i: nat)
    requires i <= |entries| && (forall j :: 0 <= j < i ==> entries[j].Entry?) && (i < |entries| ==> entries[i].EntryError?)
    ensures var spawns := ValidationSpawns(dir, Names(entries[..i]));
      Scan(env, dir, entries) == if i < |entries| then Run(spawns, Err(entries[i].error))
        else Run(spawns, Ok(ArchivePaths(env, dir, Names(entries[..i]))))
  {
    assert ReadableCount(entries) == i;
  }

  // ---------------------------------------------------------------------------------------
  // Cataloguing

  /** Rust's `i64`. */
  type i64 = x: int | -0x8000_0000_0000_0000 <= x < 0x8000_0000_0000_0000

  /** `n as i64`: the two's-complement reinterpretation of a `u64`. */
  function AsI64(n: u64): (r: i64)
    ensures (r - n) % 0x1_0000_0000_0000_0000 == 0
    ensures n < 0x8000_0000_0000_0000 <==> r == n
  {
    if n < 0x8000_0000_0000_0000 then n else n - 0x1_0000_0000_0000_0000
  }

  /** A SHA-256 digest: 32 bytes. */
  type Digest = d: seq<byte> | |d| == 32 witness seq(32, _ => 0 as byte)

  predicate IsHexDigit(c: char) {
    '0' <= c <= '9' || 'a' <= c <= 'f'
  }

  /** The lowercase hexadecimal digit for a value below 16. */
  function HexDigit(v: int): (c: char)
    requires 0 <= v < 16
    ensures IsHexDigit(c)
  {
    if v < 10 then ('0' as int + v) as char else ('a' as int + v - 10) as char
  }

  /** The value of a hexadecimal digit. */
  function DigitValue(c: char): (v: int)
    requires IsHexDigit(c)
    ensures 0 <= v < 16 && HexDigit(v) == c
  {
    if c <= '9' then c as int - '0' as int else c as int - 'a' as int + 10
  }

  /** `hex::encode`: two lowercase digits per byte, high half first. */
  function HexEncode(bytes: seq<byte>): (r: string)
    ensures |r| == 2 * |bytes| && forall i :: 0 <= i < |r| ==> IsHexDigit(r[i])
  {
    seq(2 * |bytes|, i requires 0 <= i < 2 * |bytes| =>
      var b := bytes[i / 2] as int;
      HexDigit(if i % 2 == 0 then b / 16 else b % 16))
  }

  /** The inverse of `HexEncode`: defined on even-length texts of lowercase digits. */
  function HexDecode(s: string): (r: Option<seq<byte>>)
    ensures r.Some? <==> |s| % 2 == 0 && forall i :: 0 <= i < |s| ==> IsHexDigit(s[i])
    ensures r.Some? ==> 2 * |r.value| == |s|
  {
    if |s| % 2 == 0 && forall i :: 0 <= i < |s| ==> IsHexDigit(s[i]) then
      Some(seq(|s| / 2, i requires 0 <= i < |s| / 2 => (16 * DigitValue(s[2 * i]) + DigitValue(s[2 * i + 1])) as byte))
    else None
  }

  /** An entry of the image archive listing. */
  datatype ImageArchive = ImageArchive(file_path: string, file_size_bytes: i64, sha256_checksum: string)

  /** The catalogue entry of one archive: its path, its length as `i64`, and the hex-encoded
      SHA-256 digest of its contents. Reading the length is attempted before the contents. */
  function CatalogEntry(env: Environment, sha256: seq<byte> -> Digest, path: string): (r: Result<ImageArchive, IoError>)
    ensures r.Ok? <==> env.fileLength(path).Ok? && env.readFile(path).Ok?
    ensures r.Err? ==> r.error == if env.fileLength(path).Err? then env.fileLength(path).error else env.readFile(path).error
    ensures r.Ok? ==>
      && r.value.file_path == path
      && r.value.file_size_bytes == AsI64(env.fileLength(path).value)
      && |r.value.sha256_checksum| == 64
      && HexDecode(r.value.sha256_checksum) == Some(sha256(env.readFile(path).value))
  {
    match env.fileLength(path)
    case Err(e) => Err(e)
    case Ok(length) =>
      match env.readFile(path)
      case Err(e) => Err(e)
      case Ok(contents) =>
        var digest := sha256(contents);
        HexRoundTrip(digest);
        Ok(ImageArchive(path, AsI64(length), HexEncode(digest)))
  }

  /** The index of the first path whose catalogue entry fails, or `|paths|` when none does. */
  function FirstUnreadable(env: Environment, sha256: seq<byte> -> Digest, paths: seq<string>): (k: nat)
    ensures k <= |paths|
    ensures forall i :: 0 <= i < k ==> CatalogEntry(env, sha256, paths[i]).Ok?
    ensures k < |paths| ==> CatalogEntry(env, sha256, paths[k]).Err?
  {
    if paths == [] || CatalogEntry(env, sha256, paths[0]).Err? then 0
    else 1 + FirstUnreadable(env, sha256, paths[1..])
  }

  /** `create_container_image_archives`: one entry per path, in order, or the error of the
      first path that fails, and then no entries at all. */
  function Catalog(env: Environment, sha256: seq<byte> -> Digest, paths: seq<string>): (r: Result<seq<ImageArchive>, IoError>)
    ensures r.Ok? <==> forall i :: 0 <= i < |paths| ==> CatalogEntry(env, sha256, paths[i]).Ok?
    ensures r.Ok? ==> |r.value| == |paths| && forall i :: 0 <= i < |paths| ==> r.value[i] == CatalogEntry(env, sha256, paths[i]).value
    ensures r.Err? ==> var k := FirstUnreadable(env, sha256, paths);
      k < |paths| && CatalogEntry(env, sha256, paths[k]) == Err(r.error)
  {
    if paths == [] then Ok([])
    else
      match CatalogEntry(env, sha256, paths[0])
      case Err(e) => Err(e)
      case Ok(entry) =>
        match Catalog(env, sha256, paths[1..])
        case Err(e) =>
          assert paths[1..][FirstUnreadable(env, sha256, paths[1..])] == paths[FirstUnreadable(env, sha256, paths)];
          Err(e)
        case Ok(entries) => Ok([entry] + entries)
  }

  // ---------------------------------------------------------------------------------------
  // Inspecting and loading

  /** What `inspect_container_image_archive` makes of the command's outcome: its standard output
      on success, its standard error (or the launch error) otherwise. */
  function InspectResult(o: Result<Output, IoError>): (r: Result<string, IoError>)
    ensures r.Ok? <==> o.Ok? && o.value.success
    ensures r.Ok? ==> r.value == o.value.stdout
    ensures r.Err? ==> Err(r.error) == CommandResult(o)
  {
    match o
    case Err(e) => Err(e)
    case Ok(out) => if out.success then Ok(out.stdout) else Err(IoError(Other, out.stderr))
  }

  /** `inspect_container_image_archive`. */
  method InspectContainerImageArchive(host: Host, path: string) returns (r: Result<string, IoError>)
    modifies host
    ensures host.effects == old(host.effects) + [Spawned(InspectArgv(path))]
    ensures r == InspectResult(host.env.output(InspectArgv(path)))
  {
    var output := host.Output(InspectArgv(path));
    r := InspectResult(output);
  }

  const REGISTRY := "docker://localhost:5000/"

  /** The `skopeo copy` command that pushes an archive into the local registry as `name:tag`. */
  function CopyArgv(path: string, name: string, tag: string): (r: seq<string>)
    ensures |r| == 4 && r[0] == "skopeo" && r[1] == "copy"
    ensures r[2] == InspectArgv(path)[2]
    ensures StartsWith(r[3], REGISTRY) && r[3][|REGISTRY|..] == name + ":" + tag
  {
    ["skopeo", "copy", "docker-archive:" + path, REGISTRY + name + ":" + tag]
  }

  /** `load_container_image_archive`. */
  method LoadContainerImageArchive(host: Host, path: string, name: string, tag: string) returns (r: Result<(), IoError>)
    modifies host
    ensures host.effects == old(host.effects) + [Spawned(CopyArgv(path, name, tag))]
    ensures r == CommandResult(host.env.output(CopyArgv(path, name, tag)))
  {
    var output := host.Output(CopyArgv(path, name, tag));
    r := CommandResult(output);
  }

  // ---------------------------------------------------------------------------------------
  // Lemmas

  /** An entry has the `tar` extension exactly when its name is longer than ".tar" and ends with it. */
  lemma ExtensionIsTar(name: string)
    ensures Extension(name) == Some("tar") <==> |name| > 4 && name[|name| - 4..] == ".tar"
  {
    if |name| > 4 && name[|name| - 4..] == ".tar" {
      var k := |name| - 4;
      assert name[k] == '.';
      assert name[k + 1..] == "tar";
      assert LastIndexOf(name, '.') == k;
    }
  }

  /** A joined path is the directory, a separator unless the directory is empty or already
      ends with one, then the file name. */
  lemma JoinPathShape(dir: string, name: string)
    ensures var r := JoinPath(dir, name);
      && StartsWith(r, dir) && |r| >= |name| && r[|r| - |name|..] == name
      && |r| == |dir| + |name| + (if dir != [] && dir[|dir| - 1] != '/' then 1 else 0)
      && (dir != [] ==> r[|r| - |name| - 1] == '/')
  {
    var r := JoinPath(dir, name);
    assert r[|r| - |name|..] == name;
  }

  /** Joining is injective in the file name. */
  lemma JoinPathInjective(dir: string, a: string, b: string)
    requires JoinPath(dir, a) == JoinPath(dir, b)
    ensures a == b
  {
    var n := |DirPrefix(dir)|;
    assert a == JoinPath(dir, a)[n..];
  }

  /** Discovery fails exactly when the directory or one of its entries cannot be read, and
      then with the first such error. */
  lemma DiscoveryFails(env: Environment, dir: string)
    ensures var r := Discovery(env, dir).result;
      && (r.Err? <==> !FullyReadable(env.readDir(dir)))
      && (r.Err? ==> r.error == FirstError(env.readDir(dir)))
  {
  }

  /** The discovered paths of `a + b` are those of `a` followed by those of `b`. */
  lemma {:induction false} ArchivePathsAppend(env: Environment, dir: string, a: seq<string>, b: seq<string>)
    ensures ArchivePaths(env, dir, a + b) == ArchivePaths(env, dir, a) + ArchivePaths(env, dir, b)
  {
    if b != [] {
      var pre := b[..|b| - 1];
      var last := b[|b| - 1];
      var tail := if Accepted(env, dir, last) then [JoinPath(dir, last)] else [];
      assert (a + b)[..|a + b| - 1] == a + pre && (a + b)[|a + b| - 1] == last;
      assert ArchivePaths(env, dir, a + b) == ArchivePaths(env, dir, a + pre) + tail;
      assert ArchivePaths(env, dir, b) == ArchivePaths(env, dir, pre) + tail;
      ArchivePathsAppend(env, dir, a, pre);
      Regroup(ArchivePaths(env, dir, a + b), ArchivePaths(env, dir, a + pre), ArchivePaths(env, dir, a),
        ArchivePaths(env, dir, pre), tail, ArchivePaths(env, dir, b));
    } else {
      assert a + b == a;
    }
  }

  /** A path is discovered exactly when it is the path of an accepted entry. */
  lemma ArchivePathsMember(env: Environment, dir: string, names: seq<string>, p: string)
    ensures p in ArchivePaths(env, dir, names) <==>
      exists i :: 0 <= i < |names| && Accepted(env, dir, names[i]) && p == JoinPath(dir, names[i])
  {
    if p in ArchivePaths(env, dir, names) {
      var i := ArchivePathsSound(env, dir, names, p);
    }
    if exists i :: 0 <= i < |names| && Accepted(env, dir, names[i]) && p == JoinPath(dir, names[i]) {
      var i :| 0 <= i < |names| && Accepted(env, dir, names[i]) && p == JoinPath(dir, names[i]);
      ArchivePathsComplete(env, dir, names, i);
    }
  }

  /** Every discovered path comes from an accepted entry. */
  lemma {:induction false} ArchivePathsSound(env: Environment, dir: string, names: seq<string>, p: string) returns (i: nat)
    requires p in ArchivePaths(env, dir, names)
    ensures i < |names| && Accepted(env, dir, names[i]) && p == JoinPath(dir, names[i])
  {
    var init := names[..|names| - 1];
    var last := names[|names| - 1];
    var tail := if Accepted(env, dir, last) then [JoinPath(dir, last)] else [];
    assert ArchivePaths(env, dir, names) == ArchivePaths(env, dir, init) + tail;
    if p in ArchivePaths(env, dir, init) {
      i := ArchivePathsSound(env, dir, init, p);
      assert names[i] == init[i];
    } else {
      i := |names| - 1;
    }
  }

  /** Every accepted entry is discovered. */
  lemma {:induction false} ArchivePathsComplete(env: Environment, dir: string, names: seq<string>, i: nat)
    requires i < |names| && Accepted(env, dir, names[i])
    ensures JoinPath(dir, names[i]) in ArchivePaths(env, dir, names)
  {
    var init := names[..|names| - 1];
    var last := names[|names| - 1];
    var tail := if Accepted(env, dir, last) then [JoinPath(dir, last)] else [];
    assert ArchivePaths(env, dir, names) == ArchivePaths(env, dir, init) + tail;
    if i < |init| {
      assert init[i] == names[i];
      ArchivePathsComplete(env, dir, init, i);
    } else {
      assert JoinPath(dir, names[i]) in tail;
    }
  }

  /** Discovery lists exactly the accepted entries of a fully readable directory; a validator
      that cannot be launched rejects the entry. */
  lemma DiscoveryMember(env: Environment, dir: string, p: string)
    requires FullyReadable(env.readDir(dir))
    ensures var entries := env.readDir(dir).value;
      p in Discovery(env, dir).result.value <==>
        exists i :: 0 <= i < |entries| && Accepted(env, dir, entries[i].name) && p == JoinPath(dir, entries[i].name)
  {
    var entries := env.readDir(dir).value;
    ScanStopsAt(env, dir, entries, |entries|);
    assert entries[..|entries|] == entries;
    ArchivePathsMember(env, dir, Names(entries), p);
  }

  /** The validator runs only on `tar` entries, each of them once, in listing order. */
  lemma ValidationSpawnsMember(dir: string, names: seq<string>, e: Effect)
    ensures e in ValidationSpawns(dir, names) <==>
      exists i :: 0 <= i < |names| && Extension(names[i]) == Some("tar") && e == Spawned(InspectArgv(JoinPath(dir, names[i])))
  {
    if e in ValidationSpawns(dir, names) {
      var i := ValidationSpawnsSound(dir, names, e);
    }
    if exists i :: 0 <= i < |names| && Extension(names[i]) == Some("tar") && e == Spawned(InspectArgv(JoinPath(dir, names[i]))) {
      var i :| 0 <= i < |names| && Extension(names[i]) == Some("tar") && e == Spawned(InspectArgv(JoinPath(dir, names[i])));
      ValidationSpawnsComplete(dir, names, i);
    }
  }

  /** Every listed path was validated. */
  lemma ListedWereValidated(env: Environment, dir: string, names: seq<string>)
    ensures forall p :: p in ArchivePaths(env, dir, names) ==> Spawned(InspectArgv(p)) in ValidationSpawns(dir, names)
  {
    forall p | p in ArchivePaths(env, dir, names)
      ensures Spawned(InspectArgv(p)) in ValidationSpawns(dir, names)
    {
      var i := ArchivePathsSound(env, dir, names, p);
      ValidationSpawnsComplete(dir, names, i);
    }
  }

  /** Every validator run is for a `tar` entry. */
  lemma {:induction false} ValidationSpawnsSound(dir: string, names: seq<string>, e: Effect) returns (i: nat)
    requires e in ValidationSpawns(dir, names)
    ensures i < |names| && Extension(names[i]) == Some("tar") && e == Spawned(InspectArgv(JoinPath(dir, names[i])))
  {
    var init := names[..|names| - 1];
    var last := names[|names| - 1];
    var tail := if Extension(last) == Some("tar") then [Spawned(InspectArgv(JoinPath(dir, last)))] else [];
    assert ValidationSpawns(dir, names) == ValidationSpawns(dir, init) + tail;
    if e in ValidationSpawns(dir, init) {
      i := ValidationSpawnsSound(dir, init, e);
      assert names[i] == init[i];
    } else {
      i := |names| - 1;
    }
  }

  /** Every `tar` entry is validated. */
  lemma {:induction false} ValidationSpawnsComplete(dir: string, names: seq<string>, i: nat)
    requires i < |names| && Extension(names[i]) == Some("tar")
    ensures Spawned(InspectArgv(JoinPath(dir, names[i]))) in ValidationSpawns(dir, names)
  {
    var init := names[..|names| - 1];
    var last := names[|names| - 1];
    var tail := if Extension(last) == Some("tar") then [Spawned(InspectArgv(JoinPath(dir, last)))] else [];
    assert ValidationSpawns(dir, names) == ValidationSpawns(dir, init) + tail;
    if i < |init| {
      assert init[i] == names[i];
      ValidationSpawnsComplete(dir, init, i);
    } else {
      assert names[i] == last;
      assert tail == [Spawned(InspectArgv(JoinPath(dir, last)))];
    }
  }

  lemma DigitRoundTrip(v: int)
    requires 0 <= v < 16
    ensures DigitValue(HexDigit(v)) == v
  {
  }

  /** Decoding an encoding gives back the bytes. */
  lemma HexRoundTrip(bytes: seq<byte>)
    ensures HexDecode(HexEncode(bytes)) == Some(bytes)
  {
    var s := HexEncode(bytes);
    var d := HexDecode(s).value;
    forall i | 0 <= i < |bytes| ensures d[i] == bytes[i] {
      var b := bytes[i] as int;
      assert (2 * i) / 2 == i && (2 * i) % 2 == 0 && (2 * i + 1) / 2 == i && (2 * i + 1) % 2 == 1;
      assert s[2 * i] == HexDigit(b / 16);
      assert s[2 * i + 1] == HexDigit(b % 16);
      DigitRoundTrip(b / 16);
      DigitRoundTrip(b % 16);
    }
    assert d == bytes;
  }

  /** Encoding a decoding gives back the text: every digest text has exactly one form. */
  lemma HexDecodeRoundTrip(s: string)
    requires HexDecode(s).Some?
    ensures HexEncode(HexDecode(s).value) == s
  {
    var d := HexDecode(s).value;
    var t := HexEncode(d);
    forall i | 0 <= i < |s| ensures t[i] == s[i] {
      var j := i / 2;
      var hi := DigitValue(s[2 * j]);
      var lo := DigitValue(s[2 * j + 1]);
      assert d[j] as int == 16 * hi + lo;
      assert (16 * hi + lo) / 16 == hi && (16 * hi + lo) % 16 == lo;
    }
  }

  /** The catalogue lists exactly the archives given to it, in order, when every one of them
      can be read; each checksum is 64 lowercase hexadecimal digits. */
  lemma CatalogChecksums(env: Environment, sha256: seq<byte> -> Digest, paths: seq<string>)
    requires Catalog(env, sha256, paths).Ok?
    ensures var entries := Catalog(env, sha256, paths).value;
      forall i :: 0 <= i < |entries| ==>
        entries[i].file_path == paths[i] && |entries[i].sha256_checksum| == 64 &&
        forall j :: 0 <= j < 64 ==> IsHexDigit(entries[i].sha256_checksum[j])
  {
    var entries := Catalog(env, sha256, paths).value;
    forall i | 0 <= i < |entries|
      ensures forall j :: 0 <= j < 64 ==> IsHexDigit(entries[i].sha256_checksum[j])
    {
      assert HexDecode(entries[i].sha256_checksum).Some?;
    }
  }

  /** Inspecting an archive and validating it run the same command and agree. */
  lemma InspectAgreesWithValidation(env: Environment, path: string)
    ensures InspectResult(env.output(InspectArgv(path))).Ok? <==> Validates(env, path)
  {
  }

  /** The last ':' of `x + ":" + t` is the one before `t` when `t` has none. */
  lemma LastColon(x: string, t: string)
    requires ':' !in t
    ensures LastIndexOf(x + ":" + t, ':') == |x|
  {
    var s := x + ":" + t;
    var k := LastIndexOf(s, ':');
    assert s[|x|] == ':';
  }

  /** The registry reference names the image and tag it was built from, when the tag has no ':'. */
  lemma CopyReferenceInjective(name1: string, tag1: string, name2: string, tag2: string)
    requires ':' !in tag1 && ':' !in tag2
    requires REGISTRY + name1 + ":" + tag1 == REGISTRY + name2 + ":" + tag2
    ensures name1 == name2 && tag1 == tag2
  {
    var s := REGISTRY + name1 + ":" + tag1;
    LastColon(REGISTRY + name1, tag1);
    LastColon(REGISTRY + name2, tag2);
    assert s[..|REGISTRY + name1|] == REGISTRY + name1;
    assert s[..|REGISTRY + name2|] == REGISTRY + name2;
    assert name1 == (REGISTRY + name1)[|REGISTRY|..];
    assert name2 == (REGISTRY + name2)[|REGISTRY|..];
    assert tag1 == s[|REGISTRY + name1| + 1..];
    assert tag2 == s[|REGISTRY + name2| + 1..];
  }
}
