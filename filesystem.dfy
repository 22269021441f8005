/**
 * The filesystem capability the resolver is handed (`@parcel/fs`'s
 * `FileSystem`), as a value: the resolver only queries it, so every
 * operation here is a function of the filesystem and a path.
 */
module FileSystems {
  import opened Wrappers
  import opened Paths

  datatype FsError = NoSuchEntry | IsADirectory | PermissionDenied

  datatype Kind = RegularFile | Directory

  /** An entry that exists: a file with its content, a directory, or one that cannot be stat'ed or read. */
  datatype Entry = FileEntry(content: string) | DirectoryEntry | Inaccessible(error: FsError)

  datatype FileSystem = FileSystem(entries: map<Path, Entry>)

  /** `fs.exists`: never fails. */
  predicate Exists(fs: FileSystem, p: Path) {
    p in fs.entries
  }

  /** `fs.stat` / `fs.statSync`. */
  function Stat(fs: FileSystem, p: Path): (r: Result<Kind, FsError>)
    ensures r.Ok? <==> p in fs.entries && !fs.entries[p].Inaccessible?
    ensures r == Err(NoSuchEntry) <== p !in fs.entries
  {
    if p !in fs.entries then Err(NoSuchEntry)
    else match fs.entries[p]
      case FileEntry(_) => Ok(RegularFile)
      case DirectoryEntry => Ok(Directory)
      case Inaccessible(e) => Err(e)
  }

  /** `fs.readFile` / `fs.readFileSync`. */
  function ReadFile(fs: FileSystem, p: Path): (r: Result<string, FsError>)
    ensures r.Ok? <==> p in fs.entries && fs.entries[p].FileEntry?
    ensures r.Ok? ==> r.value == fs.entries[p].content
  {
    if p !in fs.entries then Err(NoSuchEntry)
    else match fs.entries[p]
      case FileEntry(c) => Ok(c)
      case DirectoryEntry => Err(IsADirectory)
      case Inaccessible(e) => Err(e)
  }
}
