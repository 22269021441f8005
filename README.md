# Parcel module-resolution glue and runtime error overlay, in Dafny

This project models three small pieces of Parcel and proves properties of them:

- **`findPackageFolder`** (`packages/core/utils/src/findPackageFolder.js`). It walks up from a start
  directory to the nearest directory that holds a `package.json`. It never probes the root and never
  goes past a directory named `node_modules`. It is modelled as a method with a `while` loop. Its
  contract says which directories are probed, in which order, and that the first match wins.
- **The resolver facade** (`packages/core/utils/src/resolve.js`). This covers `loadPackage`, the
  asynchronous `resolve`, the synchronous `resolveSync`, the normalisation of results into
  `{resolved, pkg?}`, and the `isFile`/`isDirectory`/`readFile` adapters handed to the classic
  resolver. The resolution back-end is an explicit `Backend` value: `Classic` carries the classic
  `resolve` package as oracle functions, and `Pnp` carries `pnpapi.resolveRequest`. This value
  replaces the `process.versions.pnp` test.
- **The runtime error overlay state** (`packages/utils/error-overlay/src/index.js`). The file's
  module-level variables become the fields of a `Reporter` object, and its exported functions
  become methods. `update()` is reduced to "the overlay is shown exactly when there are records".

Files:
- `wrappers.dfy`: `Option` and `Result`.
- `paths.dfy`: paths as segment sequences.
- `filesystem.dfy`: the filesystem capability as a value.
- `package_folder.dfy`: `findPackageFolder`.
- `resolver.dfy`: `resolve.js`.
- `error_overlay.dfy`: the overlay state.

Two modelling facts shape the contracts:
- A path is a sequence of segments. The root `/` is the empty sequence, `dirname` drops the last
  segment (the parent of the root is the root), `basename` is the last segment (the empty string for
  the root), and `join(dir, name)` appends a segment.
- The filesystem is a map from paths to entries. Each entry is a file with its content, a directory,
  or an entry whose stat and read fail with an error. It is a value and nothing is written to it, so
  no modelled operation can change it.

Behaviour of the code as written that the model keeps:
- `loadPackage` has no root check, and the parent of `/` is `/`. With no `package.json` anywhere up
  to the root it calls itself for ever. `Run` models the calls with a bound. `RunNeverFinishes`
  proves they never finish in that case, and `RunFinishes` proves they finish with `LoadPackage`'s
  result otherwise. In PnP mode `resolve` therefore returns a promise that never settles
  (`NeverSettles`) for such a path.
- In PnP mode, when `resolveRequest` returns `null`, async `resolve` indexes `null` and throws a
  TypeError (`NullDereference`). When it returns `""`, the result is `{resolved: ""}`.
  `resolveSync` falls back to the specifier in both cases (`|| id`).
- The issuer passed to `resolveRequest` differs between the two entry points. Async `resolve`
  passes `basedir || null`, so an empty `basedir` becomes `null`. `resolveSync` passes `basedir + '/'`
  whenever `basedir` is given, so an empty one becomes `"/"`.
- In `handleRuntimeError`, the `return` inside `finally` discards an exception thrown by `onError`
  when the record is a duplicate. Otherwise the record is added and the exception propagates.
- Nothing in `index.js` ever sets `iframe`, so `setEditorHandler` never reaches `update()`. The field
  is kept anyway, and the contract holds either way because the overlay already matches the records.

## Model

| member | source | states |
|---|---|---|
| Paths.Dirname | packages/core/utils/src/findPackageFolder.js:15 | the parent of the root is the root; any other path loses exactly its last segment and its parent is a prefix of it |
| Paths.FormatAtLastSlash | packages/core/utils/src/findPackageFolder.js:10-15 | the string form of a non-root path is the string form of its dirname, a `/`, and its basename, so `Dirname` and `Basename` split a path string at its last `/` as `path.dirname` and `path.basename` do |
| Paths.Join | packages/core/utils/src/findPackageFolder.js:11 | joining a name onto a directory gives a path whose dirname is that directory and whose basename is that name |
| Paths.ParseFormat | packages/core/utils/src/resolve.js:42 | reading the string form of a path back yields the same segments, so taking `dirname` of a resolved path string is taking the parent of its path |
| FileSystems.Stat | packages/core/utils/src/resolve.js:57 | stat succeeds exactly for existing entries that are not inaccessible, and a missing path fails with "no such entry" |
| FileSystems.ReadFile | packages/core/utils/src/resolve.js:49 | reading succeeds exactly for existing files and returns their content |
| PackageFolder.FindPackageFolder | packages/core/utils/src/findPackageFolder.js:6-19 | probes `start`, then each parent in turn, nearest first; the probed directories are exactly the non-root ancestors-or-self not at or above a `node_modules` directory (down to the found one); a found directory holds `package.json` and no nearer probed directory does; nothing is found exactly when no probed directory holds one; the loop terminates on the absolute paths modelled |
| Resolver.ReadManifest | packages/core/utils/src/resolve.js:20-23 | loading succeeds exactly when `package.json` can be read and parses, and then yields the parse of its content; a read failure is passed on as the filesystem's error, and invalid content as the parser's error |
| Resolver.LoadPackageIsNearest | packages/core/utils/src/resolve.js:19-27 | `loadPackage(dir)` is the parse of the `package.json` in the deepest directory from `dir` up that has one, `dir` itself included, with no `node_modules` stop |
| Resolver.RunFinishes | packages/core/utils/src/resolve.js:19-27 | when some directory up to the root holds `package.json`, the recursion finishes within `|dir|` nested calls with the nearest-manifest result |
| Resolver.RunNeverFinishes | packages/core/utils/src/resolve.js:20-26 | when no directory up to the root holds `package.json`, no bound on the number of nested calls is enough: the recursion never finishes |
| Resolver.IsFile | packages/core/utils/src/resolve.js:55-62 | true exactly for existing regular files; any stat error reads as false and is never reported (the synchronous adapter at lines 110-117 is the same) |
| Resolver.IsDirectory | packages/core/utils/src/resolve.js:63-70 | true exactly for existing directories; any stat error reads as false and is never reported (the synchronous adapter at lines 118-125 is the same) |
| Resolver.ReadFileAdapter | packages/core/utils/src/resolve.js:47-54 | the file's content, or the filesystem's error passed on unchanged (as `readFileSync` at lines 107-109 does) |
| Resolver.Resolve | packages/core/utils/src/resolve.js:29-84 | PnP: oracle errors are passed on unchanged, a null answer throws, a `""` answer gives `{resolved: ""}` with no package, a non-empty path gets `loadPackage`'s manifest for its directory or is rejected with that manifest's read or parse error, and the promise stays pending exactly when no `package.json` lies above the found file; every PnP result carries the oracle's path. Classic: the classic resolver's error is passed on unchanged, and its answer, seen only through the adapters, is normalised into path and package. Only PnP can fail on a manifest |
| Resolver.PnpAttachesNearestPackage | packages/core/utils/src/resolve.js:35-43 | in PnP mode a found file comes with the package of the nearest directory above it that holds `package.json`; when that manifest cannot be read or parsed, the promise rejects with that error |
| Resolver.PnpPendingWithoutPackage | packages/core/utils/src/resolve.js:41-42 | in PnP mode a found file with no `package.json` anywhere above it leaves the promise pending, because `loadPackage` never finishes |
| Resolver.PnpRequestsDiffer | packages/core/utils/src/resolve.js:35-102 | `resolve` and `resolveSync` give the PnP oracle the same specifier, the same caller extensions and `considerBuiltins: true`; their issuers differ exactly when a basedir is given: the sync one is the async one with a `/` appended, and an empty basedir becomes null for `resolve` but `"/"` for `resolveSync` |
| Resolver.ResolveSync | packages/core/utils/src/resolve.js:86-132 | never attaches a package; each back-end's error is passed on unchanged; PnP: a truthy answer is the result and `null` or `""` falls back to the specifier; Classic: the classic resolver's path, seen only through the adapters |
| ErrorOverlay.WithRecord | packages/utils/error-overlay/src/index.js:66-78 | a record is appended at the end exactly when no record has the identical error; existing records keep their order; the set of errors grows by exactly the new one; distinctness is preserved |
| ErrorOverlay.HandleAllKeepsDistinct | packages/utils/error-overlay/src/index.js:66-78 | after any sequence of records is handled, no two records share an error, the old records are a prefix, and the errors present are exactly the old ones plus the incoming ones |
| ErrorOverlay.HandleAllKnownErrors | packages/utils/error-overlay/src/index.js:66-75 | records whose errors are all already present leave the list unchanged |
| ErrorOverlay.HandleAllIdempotent | packages/utils/error-overlay/src/index.js:66-75 | delivering the same records a second time leaves the list unchanged |
| ErrorOverlay.Reporter.constructor | packages/utils/error-overlay/src/index.js:30-34 | the initial state has no handler, no records, no subscription and no overlay |
| ErrorOverlay.Reporter.Update | packages/utils/error-overlay/src/index.js:102-128 | afterwards the overlay is shown exactly when the record list is non-empty |
| ErrorOverlay.Reporter.SetEditorHandler | packages/utils/error-overlay/src/index.js:36-41 | only the handler changes; the records, the subscription and the overlay stay as they are |
| ErrorOverlay.Reporter.StartReportingRuntimeErrors | packages/utils/error-overlay/src/index.js:50-57 | throws "Already listening" and changes nothing while subscribed; otherwise subscribes with the given options |
| ErrorOverlay.Reporter.StopReportingRuntimeErrors | packages/utils/error-overlay/src/index.js:88-97 | throws "Not currently listening" when not subscribed; otherwise ends unsubscribed even when the unsubscribe callback throws, and passes that exception on |
| ErrorOverlay.Reporter.HandleRuntimeError | packages/utils/error-overlay/src/index.js:59-81 | the record list becomes `WithRecord` of the old one even when `onError` throws; the overlay is shown afterwards; an `onError` exception propagates only when the record was new |
| ErrorOverlay.Reporter.DismissRuntimeErrors | packages/utils/error-overlay/src/index.js:83-86 | the record list is emptied and the overlay removed |

## Left out

- The classic resolution algorithm of the `resolve` package (the `node_modules` search, extension probing, `main` lookup). It is an external library, so it is an oracle function that sees the filesystem only through `HostOf`.
- `pnpapi.resolveRequest` and `process.versions.pnp`. The first is an oracle function and the second is the choice of `Backend` constructor. A throwing `resolveRequest` is an oracle error.
- `promisify`, callbacks, `async`/`await` and concurrency. Operations are sequential functions, and a promise is either settled or `NeverSettles`.
- `JSON.parse` is a `Parser` function parameter. The `'utf8'` string read and the Buffer read are the same here.
- Option keys other than `basedir` and `extensions`, which the code spreads into the classic resolver's options unread, are not modelled. Neither is the overwriting of caller-supplied hooks by the adapters.
- Paths are absolute POSIX paths. Windows roots, relative paths, `.`/`..` segments and trailing-slash handling are not modelled. `Paths.Parse` drops empty segments.
- Leaving out relative paths hides a non-termination of the source. For a relative path the root from `path.parse` is `''`, and `dirname` and `basename` of `'.'` are both `'.'`. So `findPackageFolder` loops for ever on a relative start when no `package.json` is on the way up, and `loadPackage` cycles at `'.'` rather than at `/`. On the absolute paths modelled, `findPackageFolder` always terminates, and `loadPackage` diverges only at the root.
- `reportRuntimeError` (index.js:43-48) is not modelled: it only hands `handleRuntimeError` to `crashWithFrames`, which is not part of this model.
- `listenToRuntimeErrors` is not modelled. Its unsubscribe callback is reduced to whether it throws, and `onError` is reduced to whether it is absent, returns or throws. Side effects of those callbacks on the overlay state are not modelled.
- The DOM, shadow root and React rendering in `update()` and `ErrorOverlay()` are reduced to the `overlayShown` flag. The production `console.warn` is left out.
- packages/utils/rsc/src/server.tsx, packages/utils/rsc/src/node.tsx and packages/transformers/posthtml/src/PostHTMLTransformer.js are not part of this model.
