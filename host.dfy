/** The machine the service runs on. What the service reads (directory listings, text files,
    file lengths and contents) and what its external commands answer are inputs; what it asks
    the machine to do (create directories, launch processes) is recorded, in order. */
module Host {
  import opened Base

  /** One item yielded by `fs::read_dir`: a file name, or the error reading that entry. */
  datatype DirEntry = Entry(name: string) | EntryError(error: IoError)

  /** What `fs::read_dir` returns. */
  type Listing = Result<seq<DirEntry>, IoError>

  /** The listing was read and so was every entry of it. */
  predicate FullyReadable(listing: Listing) {
    listing.Ok? && forall i :: 0 <= i < |listing.value| ==> listing.value[i].Entry?
  }

  /** The number of entries a loop over the listing gets through before its first failing entry. */
  function ReadableCount(entries: seq<DirEntry>): (k: nat)
    ensures k <= |entries|
    ensures forall i :: 0 <= i < k ==> entries[i].Entry?
    ensures k < |entries| ==> entries[k].EntryError?
  {
    if entries == [] || entries[0].EntryError? then 0 else 1 + ReadableCount(entries[1..])
  }

  /** The error a loop that stops at the first failure reports: the failure of `read_dir`
      itself, or else that of the first failing entry. */
  function FirstError(listing: Listing): IoError
    requires !FullyReadable(listing)
  {
    if listing.Err? then listing.error else listing.value[ReadableCount(listing.value)].error
  }

  /** The file names of entries that were all read. */
  function Names(entries: seq<DirEntry>): (r: seq<string>)
    requires forall i :: 0 <= i < |entries| ==> entries[i].Entry?
    ensures |r| == |entries| && forall i :: 0 <= i < |entries| ==> r[i] == entries[i].name
  {
    if entries == [] then []
    else Names(entries[..|entries| - 1]) + [entries[|entries| - 1].name]
  }

  /** One more readable entry adds its name. */
  lemma NamesStep(entries: seq<DirEntry>, i: nat)
    requires i < |entries| && forall j :: 0 <= j <= i ==> entries[j].Entry?
    ensures Names(entries[..i + 1]) == Names(entries[..i]) + [entries[i].name]
  {
    assert entries[..i + 1][..i] == entries[..i];
  }

  /** What `Command::output` captures from a process that ran: whether its exit status was a
      success, and its standard output and error (bytes taken as text). */
  datatype Output = Output(success: bool, stdout: string, stderr: string)

  /** The answers the machine gives: `readDir` (`fs::read_dir`), `readToString`
      (`fs::read_to_string`), `fileLength` (`fs::metadata(..).len()`), `readFile`
      (`File::open` followed by `io::copy` of the whole file), `createDirAll`
      (`fs::create_dir_all`) and `output` (`Command::output` for an argument vector whose
      first element is the program; `Err` when the process cannot be launched). */
  datatype Environment = Environment(
    readDir: string -> Listing,
    readToString: string -> Result<string, IoError>,
    fileLength: string -> Result<u64, IoError>,
    readFile: string -> Result<seq<byte>, IoError>,
    createDirAll: string -> Result<(), IoError>,
    output: seq<string> -> Result<Output, IoError>)

  /** An action the service asked the machine to perform. */
  datatype Effect = CreatedDirAll(path: string) | Spawned(argv: seq<string>)

  /** What an operation asks of the machine, in order, and what it returns. */
  datatype Run<+T> = Run(effects: seq<Effect>, result: T)

  /** A command that ran reports success through its exit status and failure through its
      standard error; one that could not be launched reports the launch error. */
  function CommandResult(o: Result<Output, IoError>): (r: Result<(), IoError>)
    ensures r.Ok? <==> o.Ok? && o.value.success
    ensures o.Err? ==> r == Err(o.error)
    ensures o.Ok? && !o.value.success ==> r == Err(IoError(Other, o.value.stderr))
  {
    match o
    case Err(e) => Err(e)
    case Ok(out) => if out.success then Ok(()) else Err(IoError(Other, out.stderr))
  }

  class Host {
    const env: Environment
    /** Everything asked of the machine so far, oldest first. */
    var effects: seq<Effect>

    constructor (env: Environment)
      ensures this.env == env && effects == []
    {
      this.env := env;
      effects := [];
    }

    /** `fs::create_dir_all(path)`. */
    method CreateDirAll(path: string) returns (r: Result<(), IoError>)
      modifies this
      ensures effects == old(effects) + [CreatedDirAll(path)]
      ensures r == env.createDirAll(path)
    {
      effects := effects + [CreatedDirAll(path)];
      r := env.createDirAll(path);
    }

    /** `Command::new(argv[0]).args(argv[1..]).output()`. */
    method Output(argv: seq<string>) returns (r: Result<Output, IoError>)
      modifies this
      ensures effects == old(effects) + [Spawned(argv)]
      ensures r == env.output(argv)
    {
      effects := effects + [Spawned(argv)];
      r := env.output(argv);
    }
  }
}
