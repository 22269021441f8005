/**
 * The resolver facade of packages/core/utils/src/resolve.js: `loadPackage`,
 * the asynchronous `resolve` and the synchronous `resolveSync`, and the
 * adapters through which the classic resolver sees the filesystem.
 *
 * The two resolution back-ends are not part of this model: the classic
 * `resolve` package and Yarn's `pnpapi.resolveRequest` are oracle functions
 * carried by a `Backend` value, and the `process.versions.pnp` check becomes
 * the choice of its constructor.
 */
module Resolver {
  import opened Wrappers
  import opened Paths
  import opened FileSystems
  import opened PackageFolder

  /** A parsed `package.json`. The resolver never looks inside it. */
  datatype Json =
    | JNull
    | JBool(b: bool)
    | JNumber(n: int)
    | JString(s: string)
    | JArray(items: seq<Json>)
    | JObject(members: map<string, Json>)

  type Manifest = Json

  datatype ParseError = SyntaxError(position: nat)

  /** `JSON.parse`, supplied by the caller. */
  type Parser = string -> Result<Manifest, ParseError>

  datatype LoadError = ReadFailed(fsError: FsError) | InvalidManifest(parseError: ParseError)

  // ---------------------------------------------------------------------
  // loadPackage (resolve.js:19-27)
  // ---------------------------------------------------------------------

  /** Some directory from `dir` up to the root holds a `package.json`. */
  predicate ManifestOnPath(fs: FileSystem, dir: Path) {
    exists n :: 0 <= n <= |dir| && HasManifest(fs, dir[..n])
  }

  /** Reads and parses the `package.json` directly inside `dir`. */
  function ReadManifest(fs: FileSystem, parse: Parser, dir: Path): (r: Result<Manifest, LoadError>)
    ensures r.Ok? <==> ReadFile(fs, Join(dir, PackageJson)).Ok? && parse(ReadFile(fs, Join(dir, PackageJson)).value).Ok?
    ensures r.Ok? ==> r.value == parse(ReadFile(fs, Join(dir, PackageJson)).value).value
    ensures ReadFile(fs, Join(dir, PackageJson)).Err? ==> r == Err(ReadFailed(ReadFile(fs, Join(dir, PackageJson)).error))
    ensures ReadFile(fs, Join(dir, PackageJson)).Ok? && parse(ReadFile(fs, Join(dir, PackageJson)).value).Err? ==>
      r == Err(InvalidManifest(parse(ReadFile(fs, Join(dir, PackageJson)).value).error))
  {
    match ReadFile(fs, Join(dir, PackageJson))
    case Err(e) => Err(ReadFailed(e))
    case Ok(content) =>
      match parse(content)
      case Err(pe) => Err(InvalidManifest(pe))
      case Ok(m) => Ok(m)
  }

  /** One call of `loadPackage` on `dir`: read here, or call again on the parent. */
  datatype LoadStep = ReadHere | CallOn(next: Path)

  function Step(fs: FileSystem, dir: Path): LoadStep {
    if HasManifest(fs, dir) then ReadHere else CallOn(Dirname(dir))
  }

  /**
   * `loadPackage` as written, allowing at most `fuel` nested calls; `None`
   * means the calls have not finished by then.
   */
  function Run(fs: FileSystem, parse: Parser, dir: Path, fuel: nat): Option<Result<Manifest, LoadError>>
    decreases fuel
  {
    match Step(fs, dir)
    case ReadHere => Some(ReadManifest(fs, parse, dir))
    case CallOn(next) => if fuel == 0 then None else Run(fs, parse, next, fuel - 1)
  }

  /**
   * `loadPackage` where it finishes. It has no root check, so it finishes
   * exactly when some directory on the way up holds a `package.json`
   * (see RunFinishes and RunNeverFinishes).
   */
  function LoadPackage(fs: FileSystem, parse: Parser, dir: Path): Result<Manifest, LoadError>
    requires ManifestOnPath(fs, dir)
    decreases |dir|
  {
    if HasManifest(fs, dir) then ReadManifest(fs, parse, dir)
    else
      ParentHasManifestOnPath(fs, dir);
      LoadPackage(fs, parse, Dirname(dir))
  }

  lemma ParentHasManifestOnPath(fs: FileSystem, dir: Path)
    requires ManifestOnPath(fs, dir) && !HasManifest(fs, dir)
    ensures dir != Root && ManifestOnPath(fs, Dirname(dir))
  {
    var n :| 0 <= n <= |dir| && HasManifest(fs, dir[..n]);
    assert dir[..|dir|] == dir;
    assert Dirname(dir)[..n] == dir[..n];
  }

  /**
   * The nearest-first rule: `loadPackage` returns the parse of the
   * `package.json` in the deepest directory from `dir` up that has one.
   */
  lemma {:induction false} LoadPackageIsNearest(fs: FileSystem, parse: Parser, dir: Path, n: nat)
    requires n <= |dir| && HasManifest(fs, dir[..n])
    requires forall m :: n < m <= |dir| ==> !HasManifest(fs, dir[..m])
    ensures ManifestOnPath(fs, dir)
    ensures LoadPackage(fs, parse, dir) == ReadManifest(fs, parse, dir[..n])
    decreases |dir|
  {
    if n == |dir| {
      assert dir[..n] == dir;
    } else {
      assert dir[..|dir|] == dir;
      var parent := Dirname(dir);
      assert parent[..n] == dir[..n];
      forall m | n < m <= |parent| ensures !HasManifest(fs, parent[..m]) {
        assert parent[..m] == dir[..m];
      }
      LoadPackageIsNearest(fs, parse, parent, n);
    }
  }

  /** With a `package.json` on the way up, `loadPackage` finishes within `|dir|` nested calls, with LoadPackage's result. */
  lemma {:induction false} RunFinishes(fs: FileSystem, parse: Parser, dir: Path, fuel: nat)
    requires ManifestOnPath(fs, dir) && fuel >= |dir|
    ensures Run(fs, parse, dir, fuel) == Some(LoadPackage(fs, parse, dir))
    decreases |dir|
  {
    if !HasManifest(fs, dir) {
      ParentHasManifestOnPath(fs, dir);
      RunFinishes(fs, parse, Dirname(dir), fuel - 1);
    }
  }

  /**
   * Without a `package.json` on the way up, `loadPackage` never finishes:
   * once at the root it calls itself on the root again, since the parent of
   * the root is the root.
   */
  lemma {:induction false} RunNeverFinishes(fs: FileSystem, parse: Parser, dir: Path, fuel: nat)
    requires !ManifestOnPath(fs, dir)
    ensures Run(fs, parse, dir, fuel) == None
    decreases fuel
  {
    assert dir[..|dir|] == dir;
    assert !HasManifest(fs, dir);
    if fuel > 0 {
      var parent := Dirname(dir);
      forall n | 0 <= n <= |parent| ensures !HasManifest(fs, parent[..n]) {
        assert parent[..n] == dir[..n];
      }
      RunNeverFinishes(fs, parse, parent, fuel - 1);
    }
  }

  // ---------------------------------------------------------------------
  // The adapters handed to the classic resolver (resolve.js:47-70, 107-125)
  // ---------------------------------------------------------------------

  /** `isFile`: a failed stat reads as "not a file"; it never reports an error. */
  function IsFile(fs: FileSystem, p: Path): (b: bool)
    ensures b <==> p in fs.entries && fs.entries[p].FileEntry?
    ensures Stat(fs, p).Err? ==> !b
  {
    match Stat(fs, p)
    case Ok(kind) => kind == RegularFile
    case Err(_) => false
  }

  /** `isDirectory`: a failed stat reads as "not a directory"; it never reports an error. */
  function IsDirectory(fs: FileSystem, p: Path): (b: bool)
    ensures b <==> p in fs.entries && fs.entries[p].DirectoryEntry?
    ensures Stat(fs, p).Err? ==> !b
  {
    match Stat(fs, p)
    case Ok(kind) => kind == Directory
    case Err(_) => false
  }

  /** `readFile` / `readFileSync`: the content, or the filesystem's own error unchanged. */
  function ReadFileAdapter(fs: FileSystem, p: Path): (r: Result<string, FsError>)
    ensures r.Ok? <==> p in fs.entries && fs.entries[p].FileEntry?
    ensures r.Ok? ==> r.value == fs.entries[p].content
    ensures r.Err? ==> r == ReadFile(fs, p)
  {
    match ReadFile(fs, p)
    case Ok(content) => Ok(content)
    case Err(e) => Err(e)
  }

  /** The filesystem as the classic resolver sees it: these three hooks and nothing else. */
  datatype Host = Host(isFile: Path -> bool, isDirectory: Path -> bool, readFile: Path -> Result<string, FsError>)

  function HostOf(fs: FileSystem): Host {
    Host(p => IsFile(fs, p), p => IsDirectory(fs, p), p => ReadFileAdapter(fs, p))
  }

  // ---------------------------------------------------------------------
  // Back-ends, options and results
  // ---------------------------------------------------------------------

  /** The options a caller passes: `basedir` and `extensions` are the ones this file reads. */
  datatype ResolveOptions = ResolveOptions(basedir: Option<string>, extensions: Option<seq<string>>)

  /** The arguments of `pnpapi.resolveRequest(request, issuer, {extensions, considerBuiltins})`. */
  datatype PnpRequest = PnpRequest(request: string, issuer: Option<string>, extensions: Option<seq<string>>, considerBuiltins: bool)

  /** The error a back-end throws (for instance "module not found"), passed on as it is. */
  datatype BackendError = BackendError(code: string)

  /** What the callback of the classic asynchronous resolver delivers: a path, or a path and its package. */
  datatype ClassicResult = Bare(path: string) | WithPackage(path: string, pkg: Option<Manifest>)

  datatype ClassicResolver = ClassicResolver(
    resolveAsync: (string, ResolveOptions, Host) -> Result<ClassicResult, BackendError>,
    resolveSync: (string, ResolveOptions, Host) -> Result<string, BackendError>)

  /**
   * The resolution mode, fixed for the process: classic `node_modules`
   * resolution, or Plug'n'Play when `process.versions.pnp` is set. A PnP
   * oracle answers `None` where `resolveRequest` returns `null`.
   */
  datatype Backend =
    | Classic(classic: ClassicResolver)
    | Pnp(resolveRequest: PnpRequest -> Result<Option<string>, BackendError>)

  /** `{resolved, pkg?}`; an absent `pkg` and an undefined one are both `None`. */
  datatype ResolveResult = ResolveResult(resolved: string, pkg: Option<Manifest>)

  datatype ResolveError =
    | ResolutionFailed(backendError: BackendError)
    | ManifestFailed(loadError: LoadError)
    | NullDereference  // the TypeError of indexing `null`

  /** The promise `resolve` returns: settled with a result or an error, or pending for ever. */
  datatype ResolveOutcome = Settled(result: Result<ResolveResult, ResolveError>) | NeverSettles

  /** The local `res` of `resolve` just before it is normalised. */
  datatype RawResult = RawNull | RawString(s: string) | RawPair(path: string, pkg: Option<Manifest>)

  /** JavaScript truthiness of what `resolveRequest` returned: neither `null` nor `""`. */
  predicate Truthy(res: Option<string>) {
    res.Some? && res.value != ""
  }

  /**
   * Normalisation (resolve.js:74-83): a string becomes a result without a
   * package, a pair becomes a result carrying its second half; `null` fails
   * the string test and is then indexed, which throws.
   */
  function Normalize(raw: RawResult): (r: Result<ResolveResult, ResolveError>)
    ensures r.Err? <==> raw.RawNull?
    ensures r.Err? ==> r.error == NullDereference
    ensures raw.RawString? ==> r == Ok(ResolveResult(raw.s, None))
    ensures raw.RawPair? ==> r == Ok(ResolveResult(raw.path, raw.pkg))
  {
    match raw
    case RawNull => Err(NullDereference)
    case RawString(s) => Ok(ResolveResult(s, None))
    case RawPair(p, m) => Ok(ResolveResult(p, m))
  }

  // ---------------------------------------------------------------------
  // resolve (resolve.js:29-84)
  // ---------------------------------------------------------------------

  /** The PnP request of `resolve`: `basedir || null` drops an empty `basedir` too. */
  function AsyncPnpRequest(id: string, opts: ResolveOptions): (q: PnpRequest)
    ensures q.request == id && q.extensions == opts.extensions && q.considerBuiltins
    ensures q.issuer.Some? <==> opts.basedir.Some? && opts.basedir.value != ""
    ensures q.issuer.Some? ==> q.issuer == opts.basedir
  {
    PnpRequest(id, if opts.basedir.Some? && opts.basedir.value != "" then opts.basedir else None, opts.extensions, true)
  }

  function Resolve(backend: Backend, fs: FileSystem, parse: Parser, id: string, opts: ResolveOptions): (r: ResolveOutcome)
    // PnP: the oracle is the only resolver consulted; its error is passed on, its null is dereferenced.
    ensures backend.Pnp? && backend.resolveRequest(AsyncPnpRequest(id, opts)).Err? ==>
      r == Settled(Err(ResolutionFailed(backend.resolveRequest(AsyncPnpRequest(id, opts)).error)))
    ensures backend.Pnp? && backend.resolveRequest(AsyncPnpRequest(id, opts)) == Ok(None) ==>
      r == Settled(Err(NullDereference))
    ensures backend.Pnp? && backend.resolveRequest(AsyncPnpRequest(id, opts)) == Ok(Some("")) ==>
      r == Settled(Ok(ResolveResult("", None)))
    // PnP: a non-empty path gets loadPackage's answer for its directory, a manifest or its error.
    ensures (backend.Pnp? && backend.resolveRequest(AsyncPnpRequest(id, opts)).Ok? &&
             Truthy(backend.resolveRequest(AsyncPnpRequest(id, opts)).value) &&
             ManifestOnPath(fs, Dirname(Parse(backend.resolveRequest(AsyncPnpRequest(id, opts)).value.value)))) ==>
      r == Settled(
        var file := backend.resolveRequest(AsyncPnpRequest(id, opts)).value.value;
        match LoadPackage(fs, parse, Dirname(Parse(file)))
        case Ok(m) => Ok(ResolveResult(file, Some(m)))
        case Err(e) => Err(ManifestFailed(e)))
    // PnP: a result carries the oracle's path, and a package exactly when that path is not empty.
    ensures backend.Pnp? && r.Settled? && r.result.Ok? ==>
      backend.resolveRequest(AsyncPnpRequest(id, opts)) == Ok(Some(r.result.value.resolved)) &&
      (r.result.value.pkg.Some? <==> r.result.value.resolved != "")
    // Only loadPackage's missing root check can keep the promise pending.
    ensures r == NeverSettles <==>
      backend.Pnp? && backend.resolveRequest(AsyncPnpRequest(id, opts)).Ok? &&
      Truthy(backend.resolveRequest(AsyncPnpRequest(id, opts)).value) &&
      !ManifestOnPath(fs, Dirname(Parse(backend.resolveRequest(AsyncPnpRequest(id, opts)).value.value)))
    // Classic: the classic resolver's answer, seen through the adapters, normalised.
    ensures backend.Classic? ==>
      (r.Settled? && (r.result.Ok? <==> backend.classic.resolveAsync(id, opts, HostOf(fs)).Ok?))
    ensures backend.Classic? && backend.classic.resolveAsync(id, opts, HostOf(fs)).Err? ==>
      r == Settled(Err(ResolutionFailed(backend.classic.resolveAsync(id, opts, HostOf(fs)).error)))
    ensures backend.Classic? && r.Settled? && r.result.Ok? ==>
      r.result.value.resolved == backend.classic.resolveAsync(id, opts, HostOf(fs)).value.path &&
      r.result.value.pkg == (var c := backend.classic.resolveAsync(id, opts, HostOf(fs)).value; if c.Bare? then None else c.pkg)
    // Only the PnP branch loads a manifest, so only it can fail on one.
    ensures r.Settled? && r.result.Err? && r.result.error.ManifestFailed? ==> backend.Pnp?
  {
    match backend
    case Pnp(resolveRequest) =>
      (match resolveRequest(AsyncPnpRequest(id, opts))
       case Err(e) => Settled(Err(ResolutionFailed(e)))
       case Ok(res) =>
         if Truthy(res) then
           var dir := Dirname(Parse(res.value));
           if ManifestOnPath(fs, dir) then
             match LoadPackage(fs, parse, dir)
             case Err(e) => Settled(Err(ManifestFailed(e)))
             case Ok(m) => Settled(Normalize(RawPair(res.value, Some(m))))
           else NeverSettles
         else if res.None? then Settled(Normalize(RawNull))
         else Settled(Normalize(RawString(res.value))))
    case Classic(classic) =>
      match classic.resolveAsync(id, opts, HostOf(fs))
      case Err(e) => Settled(Err(ResolutionFailed(e)))
      case Ok(Bare(p)) => Settled(Normalize(RawString(p)))
      case Ok(WithPackage(p, m)) => Settled(Normalize(RawPair(p, m)))
  }

  /**
   * In PnP mode a found path comes with the package of the nearest directory
   * above it that holds a `package.json` (index `n` of the path of its
   * directory), and the promise rejects with that manifest's read or parse
   * error when it cannot be loaded.
   */
  lemma PnpAttachesNearestPackage(pnp: PnpRequest -> Result<Option<string>, BackendError>, fs: FileSystem, parse: Parser,
                                  id: string, opts: ResolveOptions, file: string, n: nat)
    requires pnp(AsyncPnpRequest(id, opts)) == Ok(Some(file)) && file != ""
    requires n <= |Dirname(Parse(file))| && HasManifest(fs, Dirname(Parse(file))[..n])
    requires forall k :: n < k <= |Dirname(Parse(file))| ==> !HasManifest(fs, Dirname(Parse(file))[..k])
    ensures ReadManifest(fs, parse, Dirname(Parse(file))[..n]).Ok? ==>
      Resolve(Pnp(pnp), fs, parse, id, opts) ==
        Settled(Ok(ResolveResult(file, Some(ReadManifest(fs, parse, Dirname(Parse(file))[..n]).value))))
    ensures ReadManifest(fs, parse, Dirname(Parse(file))[..n]).Err? ==>
      Resolve(Pnp(pnp), fs, parse, id, opts) ==
        Settled(Err(ManifestFailed(ReadManifest(fs, parse, Dirname(Parse(file))[..n]).error)))
  {
    LoadPackageIsNearest(fs, parse, Dirname(Parse(file)), n);
  }

  /**
   * In PnP mode, a found path with no `package.json` anywhere above it leaves
   * the promise pending: the `loadPackage` calls it starts never finish.
   */
  lemma PnpPendingWithoutPackage(pnp: PnpRequest -> Result<Option<string>, BackendError>, fs: FileSystem, parse: Parser,
                                 id: string, opts: ResolveOptions, file: string, fuel: nat)
    requires pnp(AsyncPnpRequest(id, opts)) == Ok(Some(file)) && file != ""
    requires forall k :: 0 <= k <= |Dirname(Parse(file))| ==> !HasManifest(fs, Dirname(Parse(file))[..k])
    ensures Resolve(Pnp(pnp), fs, parse, id, opts) == NeverSettles
    ensures Run(fs, parse, Dirname(Parse(file)), fuel) == None
  {
    RunNeverFinishes(fs, parse, Dirname(Parse(file)), fuel);
  }

  // ---------------------------------------------------------------------
  // resolveSync (resolve.js:86-132)
  // ---------------------------------------------------------------------

  /** The PnP request of `resolveSync`: a given `basedir` gets a trailing `/`, even an empty one. */
  function SyncPnpRequest(id: string, opts: ResolveOptions): (q: PnpRequest)
    ensures q.request == id && q.extensions == opts.extensions && q.considerBuiltins
    ensures q.issuer.Some? <==> opts.basedir.Some?
    ensures q.issuer.Some? ==> q.issuer.value == opts.basedir.value + "/"
  {
    PnpRequest(id, if opts.basedir.Some? then Some(opts.basedir.value + "/") else None, opts.extensions, true)
  }

  function ResolveSync(backend: Backend, fs: FileSystem, id: string, opts: ResolveOptions): (r: Result<ResolveResult, ResolveError>)
    // Never a package, whichever back-end answered.
    ensures r.Ok? ==> r.value.pkg == None
    // Errors are the back-end's own, passed on unchanged.
    ensures backend.Pnp? && backend.resolveRequest(SyncPnpRequest(id, opts)).Err? ==>
      r == Err(ResolutionFailed(backend.resolveRequest(SyncPnpRequest(id, opts)).error))
    ensures backend.Classic? && backend.classic.resolveSync(id, opts, HostOf(fs)).Err? ==>
      r == Err(ResolutionFailed(backend.classic.resolveSync(id, opts, HostOf(fs)).error))
    // PnP: an answer is kept, `null` (and `""`) fall back to the specifier itself.
    ensures backend.Pnp? ==>
      (r.Ok? <==> backend.resolveRequest(SyncPnpRequest(id, opts)).Ok?)
    ensures backend.Pnp? && backend.resolveRequest(SyncPnpRequest(id, opts)).Ok? ==>
      (!Truthy(backend.resolveRequest(SyncPnpRequest(id, opts)).value) ==> r.value.resolved == id) &&
      (Truthy(backend.resolveRequest(SyncPnpRequest(id, opts)).value) ==>
         r.value.resolved == backend.resolveRequest(SyncPnpRequest(id, opts)).value.value)
    // Classic: the classic resolver's path, seen through the adapters.
    ensures backend.Classic? ==>
      (r.Ok? <==> backend.classic.resolveSync(id, opts, HostOf(fs)).Ok?) &&
      (r.Ok? ==> r.value.resolved == backend.classic.resolveSync(id, opts, HostOf(fs)).value)
  {
    var res: Result<string, BackendError> :=
      match backend
      case Pnp(resolveRequest) =>
        (match resolveRequest(SyncPnpRequest(id, opts))
         case Err(e) => Err(e)
         case Ok(found) => Ok(if Truthy(found) then found.value else id))
      case Classic(classic) => classic.resolveSync(id, opts, HostOf(fs));
    match res
    case Err(e) => Err(ResolutionFailed(e))
    case Ok(p) => Ok(ResolveResult(p, None))
  }

  /**
   * The two entry points ask the PnP oracle the same question except for the
   * issuer: `resolveSync` appends a `/` to a given `basedir`, and `resolve`
   * turns an empty one into `null` where `resolveSync` sends `"/"`. So the
   * issuers differ exactly when a `basedir` is given.
   */
  lemma PnpRequestsDiffer(id: string, opts: ResolveOptions)
    ensures AsyncPnpRequest(id, opts).(issuer := None) == SyncPnpRequest(id, opts).(issuer := None)
    ensures AsyncPnpRequest(id, opts).considerBuiltins
    ensures AsyncPnpRequest(id, opts).issuer != SyncPnpRequest(id, opts).issuer <==> opts.basedir.Some?
    ensures AsyncPnpRequest(id, opts).issuer.Some? ==>
      SyncPnpRequest(id, opts).issuer == Some(AsyncPnpRequest(id, opts).issuer.value + "/")
    ensures opts.basedir == Some("") ==>
      AsyncPnpRequest(id, opts).issuer == None && SyncPnpRequest(id, opts).issuer == Some("/")
  {
    if opts.basedir.Some? {
      assert |SyncPnpRequest(id, opts).issuer.value| == |opts.basedir.value| + 1;
      assert "" + "/" == "/";
    }
  }
}
