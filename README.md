# binding-tool, modelled in Dafny

`bt` materialises service bindings: a binding is a directory
`<bindings root>/<name>/` holding a `type` file and one file per key. This
project models the core of that tool:

- the binding store (`BindingProcessor`, `BindingWriter` and the three
  confirmers in `src/command.rs`, with the same logic in the older
  `src/lib.rs`): adding `key=value` pairs, where an existing key is only
  overwritten once the confirmer agrees and a value `@path` copies another
  file; deleting keys one confirmation at a time, or the whole binding;
- the buildpack manifest reader (`transform` in `src/deps.rs`), the buildpack
  id to manifest address mapping, and `Dependency::filename`;
- the checksum short-circuit and the download of one dependency
  (`checksum_matches`, `download`) and the draining of the dependency list
  by one worker (`download_dependencies`);
- the pure builders of the command layer: `Command::from_str` (both copies)
  and the `key=value` pairs built by the `ca-certs` and
  `dependency-mapping` commands.

Files:

- `base.dfy` (module `Base`): `Option`, `Result`, `Outcome`, bytes and the
  string operations of Rust's standard library the core relies on
  (`split_once`, `splitn(2, ..)`, `trim`, `to_lowercase` on ASCII,
  `trim_start_matches`, UTF-8 encoding).
- `fs.dfy` (module `Fs`): an abstract filesystem. The `Disk` value holds
  files, directories and the current directory. Path texts are joined as
  `Path::join` joins them and resolved as the kernel walks them: from the
  root or the current directory, one `/`-separated piece at a time, each
  piece looked up in a directory that exists. Each `std::fs` call is a
  pure step function on a `Disk`, and also a method of the `FileSystem`
  class proved to perform that step.
- `confirm.dfy` (module `Confirm`): the `Confirmer` datatype, with the
  terminal as a `Tty` value and as a `Terminal` object.
- `bindings.dfy` (module `Bindings`): `BindingWriter` and `BindingProcessor`.
  Each operation has a specification function over `Disk` and `Tty`, and an
  imperative method over `FileSystem` and `Terminal` whose postcondition
  says it has exactly that effect.
- `binding_props.dfy` (module `BindingProps`): what adding and deleting
  guarantee, as lemmas on those specifications.
- `manifest.dfy` (module `Manifest`): the TOML value, `transform` as a loop
  proved against a per-entry function, and the manifest address.
- `download.dfy` and `download_props.dfy` (modules `Download`,
  `DownloadProps`): file names, the checksum check, the download and the
  drain loop, and their properties.
- `commands.dfy` (module `Commands`): subcommand parsing and the pair
  builders.

Things passed in as parameters rather than modelled: the bindings root
(the process reads it from `SERVICE_BINDING_ROOT` or the current directory),
the confirmer (chosen from `--force` by the command handlers), the lines
standard input will yield, the URL parser and SHA-256 (a `Library` value of
two functions), the binding directory text downloads go to, the HTTP server (a function from URI to response, held by
the `Network` object, which records every request), and the already parsed
TOML value.

Behaviour worth knowing; the model follows the code:

- The overwrite question is asked before anything is written, so a declined
  overwrite leaves the `type` file as it was. The question is spelled "The
  binding alread exists, do you wish to continue?", as the program prints it.
- A pair is split at its first `=`. A value may hold more `=` characters;
  only a pair with no `=` at all is malformed.
- The two fatal manifest conditions (both or neither of `sha256` and
  `checksum`; a checksum algorithm other than `sha256`) are panics in the
  code. They are modelled as errors, and `ManifestError.IsPanic` marks them.
- A `checksum` is accepted whatever follows `sha256:`; the digest is not
  checked to be hex.
- Binding directories and key paths are built with `Path::join`. An
  absolute name or key replaces what comes before it, a key starting with
  `../` leaves the binding, a key `x/y` needs a directory `x` inside the
  binding, and the empty key (`=v`) names the binding directory itself, so
  adding it asks the overwrite question and then fails.
- The deletion question prints the path text as the program built it,
  relative when the bindings root is relative.
- Under `Never`, deleting keys fails only when some listed key exists. When
  none exists it succeeds and changes nothing
  (`BindingProps.DeleteUnderNeverRemovesNothing`).

## Model

| member | source | states |
|---|---|---|
| `Base.SplitOnce` | src/command.rs:185 | `split_once`: no split exactly when the character is absent; otherwise the text is `a + [c] + b` with no `c` in `a`, so the split is at the first occurrence |
| `Base.SplitOnceJoin` | src/command.rs:185 | when `a` has no `c`, `a + [c] + b` splits back into `(a, b)` |
| `Base.SplitN2` | src/deps.rs:88 | `splitn(2, c)`: one or two parts; one part, equal to the input, exactly when `c` is absent; with two parts the split is at the first `c` |
| `Base.TrimStartMatches` | src/command.rs:254 | the result is a suffix of the input, everything removed is the character, and the result does not start with it |
| `Base.Trim` | src/command.rs:85 | the result has no white space at either end |
| `Base.TrimPadded` | src/command.rs:85 | trimming white space around an already trimmed text gives that text back |
| `Base.Lower` | src/command.rs:85 | lower-casing keeps the length and maps each character through the ASCII lower-case map |
| `Base.Utf8` | src/command.rs:248 | `as_bytes`: at least one byte per character; empty exactly for the empty text |
| `Base.NatToString` | src/command.rs:411 | the decimal form of an index is non-empty and made of digits |
| `Base.NatToStringRoundTrip` | src/command.rs:411 | reading the decimal form back as a number gives the index |
| `Base.NatToStringInjective` | src/command.rs:411 | different indices have different decimal forms |
| `Fs.JoinTextResolves` | src/command.rs:227-229 | joining a relative text to a non-empty base walks it from where the base leads, and the kernel reaches the join exactly when it reaches the base and can walk the rest from there |
| `Fs.NameJoin` | src/command.rs:227-229 | a single name joined to a base names the entry of that name in the base's location, reached exactly when the base is a directory |
| `Fs.Canonicalize` | src/command.rs:254-257 | a source text resolves exactly when the kernel reaches it and something is there, and then to the location it names |
| `Fs.CanonicalizeNeedsDirectories` | src/command.rs:254-257 | a text `x/y` does not resolve unless `x` is a directory, even when `y` starts with `..` or is empty |
| `Fs.CanonicalizeName` | src/command.rs:254-257 | a single name resolves to its entry in the current directory when that entry exists, and otherwise not at all |
| `Fs.CreateFileStep` | src/deps.rs:66 | `File::create` plus `write_all` on a location succeeds exactly when it is not a directory and its parent is one; the file then holds exactly the bytes; on failure nothing changes |
| `Fs.CreateFileAtStep` | src/command.rs:246-250 | the same on a text, which must also be reached by the kernel; the error names the location |
| `Fs.CopyStep` | src/command.rs:258 | `fs::copy` succeeds exactly when the source is a file and the destination can be created; the destination then holds the source's bytes, or nothing when it is the source |
| `Fs.CopyToStep` | src/command.rs:258 | the same onto a text the kernel must reach; only the destination changes |
| `Fs.RemoveFileStep` | src/command.rs:148 | `remove_file` succeeds exactly on a regular file and removes only it |
| `Fs.RemoveFileAtStep` | src/command.rs:148 | the same on a text the kernel must reach |
| `Fs.RemoveDirAllStep` | src/command.rs:159 | `remove_dir_all` succeeds exactly on a directory; everything below it disappears and everything else is kept |
| `Fs.RemoveDirAllAtStep` | src/command.rs:159 | on a text: fails and changes nothing unless it names a directory; otherwise everything below is removed and the rest is kept, and the directory itself goes, with success, exactly when the text ends in a name |
| `Fs.JoinNameEndsInName` | src/command.rs:137 | a text built by joining a single name ends in that name |
| `Fs.TrailingSlash` | src/deps.rs:47 | a text joined with the empty name ends in `/`: it names the same location, and the kernel reaches it only when that location is a directory |
| `Fs.ReadAtStep` | src/deps.rs:52-55 | `File::open` and reading on a text yield bytes exactly when the kernel reaches a regular file, and they are that file's bytes |
| `Fs.MakeDirs` | src/command.rs:231-232 | each component is made a directory in turn; files and the current directory are untouched, only locations on the walk are added, and on success the walk reaches a directory and meets no file |
| `Fs.CreateDirAllStep` | src/command.rs:231-232 | `create_dir_all` of a text leaves files and the current directory alone and adds only directories on the text's walk |
| `Fs.CreateDirAllMakesTheDirectory` | src/command.rs:231-232 | after a successful `create_dir_all` the text names a directory the kernel reaches, and every location on the walk is a directory |
| `Fs.CreateDirAllPasses` | src/command.rs:231-232 | on a tree, `create_dir_all` succeeds exactly when the walk starts from a directory and no location on it is a regular file, and the result is a tree |
| `Fs.MakeDirsPasses` | src/command.rs:231-232 | on a tree, the component walk succeeds exactly when no location on it is a file, and keeps the disk a tree |
| `Fs.MadeAreAncestors` | src/command.rs:231-232 | without a `..` component, `create_dir_all` creates only the directory the text names and its ancestors below the starting point |
| `Fs.MakeDirsIdle` | src/command.rs:231-232 | when every location on the walk is already a directory, `create_dir_all` changes nothing |
| `Fs.ComponentsWalk` | src/command.rs:231-232 | dropping the `""` and `.` pieces changes neither where a walk ends nor whether the kernel gets there |
| `Fs.RemoveDirAllKeepsTree` | src/command.rs:159 | removing a directory tree keeps the filesystem a tree |
| `Fs.FileSystem.CreateDirAll` | src/command.rs:231-232 | the loop performs `CreateDirAllStep` on the object's state |
| `Fs.FileSystem.CreateFile` | src/deps.rs:66 | the method performs `CreateFileStep` |
| `Fs.FileSystem.CreateFileAt` | src/command.rs:246-250 | the method performs `CreateFileAtStep` |
| `Fs.FileSystem.Read` | src/deps.rs:52-55 | reading a file yields its bytes; anything else is an error naming the path |
| `Fs.FileSystem.ReadAt` | src/deps.rs:52-55 | the method performs `ReadAtStep` on the object's state |
| `Fs.FileSystem.WriteThrough` | src/deps.rs:71-72 | streaming a body into an open file replaces that file's bytes and nothing else |
| `Fs.FileSystem.CopyTo` | src/command.rs:258 | the method performs `CopyToStep` |
| `Fs.FileSystem.RemoveFileAt` | src/command.rs:148 | the method performs `RemoveFileAtStep` |
| `Fs.FileSystem.RemoveDirAllAt` | src/command.rs:159 | the method performs `RemoveDirAllAtStep` |
| `Confirm.Confirmer.Decide` | src/command.rs:63-106 | `Always` approves and `Never` declines without touching the terminal; `Console` prints the question followed by " (yes or no)", consumes one line and approves what `ConsoleAccepts` approves |
| `Confirm.Confirmer.Confirm` | src/command.rs:69-77 | the method's decision and terminal afterwards are those of `Decide` |
| `Confirm.ConsoleAccepts` | src/command.rs:85-88 | a failed read is never an approval |
| `Confirm.ConsoleAcceptsExactly` | src/command.rs:87-88 | the console approves exactly the lines whose trimmed text is "y" or "yes" in any case |
| `Confirm.LowerIsYes` | src/command.rs:87-88 | a text lower-cases to "y" or "yes" exactly when it is one of them in some mix of cases |
| `Confirm.ConsoleAcceptsPadded` | src/command.rs:87-88 | white space around the answer, the line terminator included, does not change an approval |
| `Confirm.DecisionIgnoresMessage` | src/lib.rs:55-69 | no confirmer's decision depends on the question's text |
| `Confirm.Terminal.ReadLine` | src/command.rs:86 | `read_line` yields the next input line (an empty line at end of input) and consumes it |
| `Confirm.Terminal.PrintLine` | src/command.rs:83 | printing appends one line to the output |
| `Bindings.FromFs` | src/command.rs:245-251 | a write succeeds exactly when its filesystem call does, with the same disk |
| `Bindings.BindingWriter.WriteType` | src/command.rs:245-251 | writes the type's bytes to `<dir>/type`, as `WriteTypeSpec` says |
| `Bindings.BindingWriter.WriteKeyAsValue` | src/command.rs:267-282 | writes the value's bytes to `<dir>/<key>`, as `WriteKeyAsValueSpec` says |
| `Bindings.BindingWriter.WriteKeyAsFile` | src/command.rs:253-265 | strips every leading `@`, resolves the source and copies it onto the key, or fails with the unresolved source |
| `Bindings.BindingWriter.Write` | src/command.rs:230-243 | creates the directory, writes `type`, then writes the key as a copy for a value starting with `@` and as text otherwise, stopping at the first failure |
| `Bindings.BindingProcessor.AddBinding` | src/command.rs:176-203 | has exactly the effect of `AddBindingSpec`: type required, split at the first `=`, confirmation before overwriting an existing key, then the write |
| `Bindings.BindingProcessor.AddBindings` | src/command.rs:165-174 | has exactly the effect of `AddBindingsSpec`: the pairs in order, stopping at the first error |
| `Bindings.BindingProcessor.DeleteBindings` | src/command.rs:130-163 | has exactly the effect of `DeleteBindingsSpec`: root must be a directory, then each existing key is confirmed and removed, or for an empty list the whole binding |
| `BindingProps.WriterOfPair` | src/command.rs:185-186 | a pair `k=v` with no `=` in `k` gives a writer for key `k` and value `v` |
| `BindingProps.AddRejectsBeforeAnyEffect` | src/command.rs:177-180 | without a type, or with a pair without `=`, the call fails with that error, nothing is asked and the disk is unchanged |
| `BindingProps.BindingDirectory` | src/command.rs:182-183 | the binding directory is the root joined with the name, or with the type when there is no name; an absolute name replaces the root; a single name is that entry of the root's location, reached exactly when the root is a directory |
| `BindingProps.AddDeclinedKeepsDisk` | src/command.rs:188-194 | an existing key and a declined confirmation: the call fails and the disk, `type` and key included, is exactly as before |
| `BindingProps.AddUnfolds` | src/command.rs:185-196 | adding a split pair is the overwrite gate followed by the write |
| `BindingProps.WriteUnfolds` | src/command.rs:230-243 | once the directory is made and `type` can be written, the write gets past `type`, and what remains is the key write |
| `BindingProps.AddWritesTypeAndValue` | src/command.rs:604-623 | on success with a literal value, `type` holds the type, the key holds the value's bytes, no other file changes, and the directories are those `create_dir_all` left |
| `BindingProps.AddCopiesSourceFile` | src/command.rs:729-791 | with a value `@src` resolving to a file, the key holds a copy of that file's bytes |
| `BindingProps.TypeWrittenBeforeKey` | src/command.rs:230-237 | when the `@` source is not there, the call fails but `type` has already been written |
| `BindingProps.KeyWriteFails` | src/command.rs:253-282 | writing the key fails when the kernel cannot reach it or a directory is there |
| `BindingProps.WriteFailsAtTheKey` | src/command.rs:230-243 | so does the whole write, when that holds once the binding directory is made |
| `BindingProps.EmptyKeyNamesTheBinding` | src/command.rs:185-196 | with the binding directory present, the pair `=v` is refused under `Never` with nothing changed, and fails under any confirmer |
| `BindingProps.NestedKeyNeedsItsDirectory` | src/command.rs:185-196 | a key `x/y` whose `x` is not a directory inside the binding (and is not made by `create_dir_all`) fails without a question |
| `BindingProps.NestedKeyUnreachable` | src/command.rs:227-229 | the kernel reaches `<binding>/x/y` only through a directory `x` |
| `BindingProps.WriteTouchesOnlyTypeAndKey` | src/command.rs:230-283 | a write changes no file but those `type` and the key name, removes nothing, adds only directories on the binding directory's walk, and keeps the current directory |
| `BindingProps.KeyWriteFrame` | src/command.rs:253-282 | writing the key, as text or as a copy, changes no file but the one the key names, and no directory |
| `BindingProps.AddTouchesOnlyTypeAndKey` | src/command.rs:176-203 | whatever the outcome, adding one pair changes no other file and adds only directories on the binding directory's walk |
| `BindingProps.AddStaysInTheBinding` | src/command.rs:176-203 | for a single-name key and a binding directory reached without `..`, only `<binding>/type` and `<binding>/<key>` may change, and every new directory is the binding directory or an ancestor of it |
| `BindingProps.AfterWriteStillWritable` | src/command.rs:650-674 | after a successful write, `create_dir_all` of the binding directory changes nothing, so the directory accepts another key |
| `BindingProps.DistinctKeysCoexist` | src/command.rs:650-674 | two different keys added one after the other both succeed without a question, and both files and `type` hold their values |
| `BindingProps.ReAddSameKey` | src/command.rs:676-701 | re-adding a key: under `Always` the key gets the new value; under `Never` the call fails and key, `type` and disk keep their contents |
| `BindingProps.AddBindingsAppend` | src/command.rs:169-173 | adding `a + b` is adding `a` and then, only if that succeeded, adding `b` on the resulting state |
| `BindingProps.AddBindingsStopsAtFirstError` | src/command.rs:169-173 | the first failing pair ends the batch with its error; later pairs are not attempted and earlier writes persist |
| `BindingProps.DeleteRequiresRootDirectory` | src/command.rs:134-135 | when the root is not a directory nothing is asked or removed |
| `BindingProps.DeleteKeysRemovesAPrefix` | src/command.rs:139-150 | deleting keys removes what the listed keys name up to some point and nothing else: all of them on success; on a refusal the refused key is still there and the later ones are untouched |
| `BindingProps.PrefixAfterSkip` | src/command.rs:141 | skipping an absent first key extends the removed prefix by that key without removing anything |
| `BindingProps.PrefixAfterRemove` | src/command.rs:141-148 | removing an existing first key extends the removed prefix by exactly what that key names |
| `BindingProps.KeyLocationsIgnoreFiles` | src/command.rs:140 | where the keys lead depends on the directories and the current directory, not on the files |
| `BindingProps.DeleteUnderAlwaysRemovesExactlyTheKeys` | src/command.rs:841-868 | under `Always`, when no key names a directory, exactly what the listed keys name is removed, with no question, and other files such as `type` stay |
| `BindingProps.DeleteUnderNeverRemovesNothing` | src/command.rs:870-897 | under `Never` nothing is removed; the call fails exactly when some listed key exists |
| `BindingProps.DeleteAsksOncePerExistingKey` | src/command.rs:139-150 | on the console, a successful deletion asks exactly one question per distinct existing location the keys name, after what was printed before |
| `BindingProps.DeleteAsksOnlyAboutExistingKeys` | src/command.rs:141-145 | every question a successful console deletion asks names the joined text of a listed key that existed |
| `BindingProps.KeyQuestionsShrink` | src/command.rs:141-145 | after a removal, the questions the rest of the list may ask are among those the whole list may ask |
| `BindingProps.DeleteKeysPrefix` | src/command.rs:139-150 | a deletion only appends to what the terminal shows |
| `BindingProps.DeleteKeysStep` | src/command.rs:139-150 | one step of a successful deletion: an absent key is skipped, an existing one is confirmed and removed |
| `BindingProps.ExistingKeysRemove` | src/command.rs:148 | removing an existing key takes exactly its location out of the set of existing listed locations |
| `BindingProps.DeleteSkipsAbsentKeys` | src/command.rs:141 | keys that are not on disk are skipped without a question and the call succeeds |
| `BindingProps.ParentKeyLeavesTheBinding` | src/command.rs:140 | a key `../x` names the entry `x` beside the binding directory, not inside it |
| `BindingProps.DeleteEmptyListRemovesBinding` | src/command.rs:152-160 | an empty list asks once about the binding's text; declined, nothing changes; not a directory, an error and nothing changes; approved, everything below disappears and the directory too exactly when its text ends in a name (always, for a single name), the contents of every file outside the binding, every directory outside it and the current directory stay |
| `Manifest.DependencyArray` | src/deps.rs:188-202 | the dependency array is found exactly when the root is a table whose `metadata` is a table whose `dependencies` is an array, and it is that array |
| `Manifest.ChecksumDigest` | src/deps.rs:236-241 | a checksum text names a digest exactly when it is `sha256:` followed by that digest |
| `Manifest.ParseEntry` | src/deps.rs:206-249 | an accepted element is a table with the string `uri` and exactly one of a string `sha256` equal to the digest or a `checksum` equal to `sha256:` plus the digest |
| `Manifest.Transform` | src/deps.rs:187-253 | the loop returns what `Transformed` says: the header's error, or the elements parsed in order with the first bad element's error |
| `Manifest.ParseAllExactly` | src/deps.rs:204-252 | the array is accepted exactly when every element is; then there is one dependency per element in order; otherwise the error is the first bad element's and there is no partial result |
| `Manifest.TransformNeedsTheHeader` | src/deps.rs:188-202 | a bad header gives its own error and no dependencies |
| `Manifest.ChecksumOfDigest` | src/deps.rs:241 | `sha256:<h>` names the digest `h` |
| `Manifest.EntriesRoundTrip` | src/deps.rs:225-245 | both spellings of an entry read back as the dependency they were built from |
| `Manifest.TransformRoundTrip` | src/deps.rs:187-253 | a manifest written from a list of dependencies, in either spelling per entry, transforms back into that list |
| `Manifest.EntryErrors` | src/deps.rs:207-248 | each entry-level error arises exactly in its own situation, in the source's order of checks |
| `Manifest.TestHeaderErrors` | src/deps.rs:286-335 | the repository's malformed-header manifests meet the errors its tests expect |
| `Manifest.TestEntryErrors` | src/deps.rs:337-434 | the repository's malformed entries meet the errors its tests expect |
| `Manifest.TestOtherAlgorithm` | src/deps.rs:394-406 | a checksum with algorithm `1` is refused |
| `Manifest.OtherAlgorithmRefused` | src/deps.rs:236-248 | a checksum whose algorithm part is anything but `sha256` is refused as an unsupported algorithm |
| `Manifest.OneBadEntrySpoilsAll` | src/deps.rs:206-216 | one bad element anywhere after good ones fails the whole manifest with that element's error |
| `Manifest.BuildpackUri` | src/deps.rs:88-93 | an id without `@` is fetched from the `main` branch |
| `Manifest.BuildpackUriVersioned` | src/deps.rs:94-96 | `b@v` is fetched from the ref `v`, whatever `v` holds |
| `Download.Filename` | src/deps.rs:35-44 | the file name is the last path segment of the parsed `uri`, and fails exactly when the `uri` does not parse, has no path segments, or an empty list of them |
| `Download.FilenameExamples` | src/deps.rs:259-284 | `https://example.com/filename` names `filename`; a `data:` URL has no path segments |
| `Download.Hex` | src/deps.rs:56 | two lower-case hex digits per byte |
| `Download.HexInjective` | src/deps.rs:56 | different digests have different hex texts |
| `Download.ChecksumMatchesSpec` | src/deps.rs:46-59 | only a dependency with a file name can match; the destination is the text `<binding>/binaries/<name>`, joined as `Path::join` joins |
| `Download.ChecksumMatches` | src/deps.rs:46-59 | the method returns what `ChecksumMatchesSpec` says and changes nothing |
| `Download.Network.Get` | src/deps.rs:69 | a GET answers with the server's response and records the request |
| `Download.DownloadOne` | src/deps.rs:61-74 | the download has exactly the effect of `DownloadSpec` on disk and on the requests made |
| `Download.DownloadAll` | src/deps.rs:114-152 | the drain loop has exactly the effect of `DownloadAllSpec`: one worker pops from the back; its first failure is reported as a panic naming the `uri`; no worker means nothing is fetched |
| `DownloadProps.ChecksumMatchesExactly` | src/deps.rs:46-59 | the check holds exactly when the destination text leads to a regular file whose lower-case hex digest is the stored one; it is false when the kernel reaches nothing there or the file differs; it is an error naming the text when the text leads to a directory, and the `uri`'s error when it names no file |
| `DownloadProps.EmptyFilenameNeverDownloads` | src/deps.rs:46-74 | a `uri` whose last segment is empty has the destination `<binding>/binaries/`: the check is false when `binaries` is not a directory and a read error when it is one, so on a disk where no location is both a file and a directory the download fails with the disk and the requests unchanged |
| `DownloadProps.NonHexDigestNeverMatches` | src/deps.rs:56-58 | a digest that is not lower-case hex of even length never matches, so such a dependency is fetched every time |
| `DownloadProps.SkipWhenMatching` | src/deps.rs:62-64 | a matching file reached by the destination text short-circuits: no request, nothing on disk changes |
| `DownloadProps.TruncatedBeforeGet` | src/deps.rs:66-69 | otherwise, when `File::create` can open the destination text, the file it names is created or truncated before the GET: a refused request leaves it empty |
| `DownloadProps.NoDigestCheckAfterDownload` | src/deps.rs:71-73 | a delivered body is kept whatever its digest; whether it matches shows only on the next check |
| `DownloadProps.SecondDownload` | src/deps.rs:61-74 | a second download right after one is a no-op when the body matched, and fetches the same `uri` again when it did not |
| `DownloadProps.DownloadShape` | src/deps.rs:61-74 | a download either leaves the disk and the requests as they were, succeeding only on a matching file, or opens the destination with `File::create`, makes one request for its `uri` and leaves the destination holding what arrived |
| `DownloadProps.DownloadFrame` | src/deps.rs:61-74 | one download makes at most one request, for its own `uri`, changes no directory and no file but the one its destination text names, and on success the text reaches that file |
| `DownloadProps.ZeroWorkersFetchNothing` | src/deps.rs:128-151 | with no worker nothing is fetched and the call succeeds |
| `DownloadProps.DrainFetchesEverything` | src/deps.rs:133-139 | a drain that succeeds leaves every dependency's file in place, reached by its destination text; no file or directory is removed; a failure names the `uri` of a listed dependency |
| `Commands.ParseCommand` | src/command.rs:298-318 | a recognised name is the name of the command returned; an unrecognised one names no command |
| `Commands.ParseLegacyCommand` | src/lib.rs:260-277 | the same for the five commands of the earlier copy, which has no `init` |
| `Commands.ParseCommandRoundTrip` | src/command.rs:301-317 | every command is recognised by its own name and by no other text |
| `Commands.LegacyAgreesButInit` | src/lib.rs:263-276 | the two parsers agree on every text except `init` |
| `Commands.FileName` | src/command.rs:409 | `Path::file_name` is a non-empty component with no `/` that is neither `.` nor `..` |
| `Commands.FileNameOfJoin` | src/command.rs:409 | the file name of `<dir>/<name>` is `name` |
| `Commands.CertArgs` | src/command.rs:406-413 | one pair per certificate, in order: the file name (or `cert-<i>`) then `=@` then the path |
| `Commands.CertPairSplits` | src/command.rs:406-415 | when the file name has no `=`, the pair splits back into that file name and `@` plus the path; without a file name into `cert-<i>` and `@` plus the path |
| `Commands.CertPairWithEqualsIsMisSplit` | src/command.rs:406-413 | a certificate named `a=b` is mis-split: the key becomes `a` and the value is a literal text with no leading `@` unless `b` has one |
| `Commands.CertKey` | src/command.rs:409-411 | the corrected key is never empty and never holds `=` |
| `Commands.CertKeyDistinct` | src/command.rs:409-411 | two certificates at different positions that both fall back to `cert-<i>` get different keys |
| `Commands.CertArgsFixed` | src/command.rs:406-413 | the corrected pairs: one per certificate, in order, key then `=@` then the path |
| `Commands.CertArgsFixedSplits` | src/command.rs:406-415 | every corrected pair splits back into its key and `@` plus the path, and agrees with the source's pair whenever the source's was right |
| `Commands.DepsArgs` | src/command.rs:461-473 | at most one pair per dependency; which pairs, and in what order, `DepsArgsOne` and `DepsArgsAppend` state |
| `Commands.DepsArgsOne` | src/command.rs:463-471 | one dependency contributes `<sha256>=file:///bindings/<name>/binaries/<file>` when its `uri` names a file, and nothing otherwise |
| `Commands.DepsArgsAppend` | src/command.rs:461-473 | the pairs of `a + b` are the pairs of `a` followed by those of `b`, so each named dependency contributes its pair in its own place |
| `Commands.DepsArgsAllNamed` | src/command.rs:461-473 | when every `uri` names a file, there is exactly one pair per dependency, in order |
| `Commands.DepsArgsNoneNamed` | src/command.rs:461-473 | when no `uri` names a file, there are no pairs |
| `Commands.DepsArgsExactly` | src/command.rs:461-473 | every pair comes from a dependency; when every `uri` names a file there is one pair per dependency in order; when none does there are none |
| `Commands.MappingPairSplits` | src/command.rs:464-468 | a digest without `=` splits back as the key, and the value is the `file://` address, written as text |

## Left out

- Reading `SERVICE_BINDING_ROOT` and the current directory
  (`service_binding_root`): the bindings root is a text parameter, used and
  printed as given.
- Argument extraction with clap, the `--force` choice of confirmer, the
  `BT::exec` dispatch, `src/args.rs`, `src/bin/bt.rs` and `src/main.rs`:
  the confirmer and the arguments are parameters. The oldest entry point,
  `src/main.rs`, is superseded by the binding store modelled here.
- The `args` and `init` handlers (directory listing and shell scripts) and
  `configure_agent` (timeouts, proxy and TLS from the environment).
- The HTTP GET of the manifest and the disk read in the two
  `parse_buildpack_toml_*` functions, and TOML text parsing: the model starts
  from a parsed TOML value. Only the address construction is kept.
- The thread pool of `download_dependencies`: the model has one worker
  popping from the back of the list. In the code, the lock guard taken in the
  `while let` condition lives to the end of the loop body, so every download
  runs with the lock held. Any number of workers therefore downloads one
  dependency at a time, from the back, as the model does. After a failed
  download the lock is poisoned, and every other worker panics in
  `expect("unable to get lock")` at its next attempt, so nothing more is
  fetched. The join loop returns the panic of the first failed handle in
  spawn order. That can be a poisoned-lock panic rather than the download's
  own; the model always reports the download's. This reading of the code is
  not backed by a run. Reading `BT_MAX_SIMULTANEOUS` (default 5) is not
  modelled; the number of workers is a parameter, and only zero versus more
  than zero matters.
- SHA-256, URL parsing and the HTTP client are functions passed in; partial
  reads, and timeouts other than a refused request or a body cut short, are
  not modelled.
- Symbolic links and permissions: `canonicalize`, `exists` and `is_dir`
  walk a text through the abstract filesystem's directories, but there are
  no links to follow and every directory can be searched and written.
- Fs.MakeDirs: `create_dir_all` is modelled as a forward walk that makes
  each component a directory; the library instead tries the whole path,
  recurses on its lexical parent and retries. Both end in the same
  directories when nothing else changes the disk meanwhile; races are not
  modelled.
- `to_lowercase` is modelled on ASCII letters only; other characters are left
  as they are.
- `write_all` failing half way: a write either succeeds or changes nothing.
- Bindings.BindingProcessor.DeleteBindings: requires a binding name, where
  the source unwraps it and panics without one; the delete handler always
  supplies one.
- Download.DownloadAll: states the effect of one worker. With several
  workers the disk and the requests are the same, but the reported error may
  be another worker's poisoned-lock panic (see the thread-pool line above).
- The `dependency-mapping` handler is not one member: its steps are modelled
  separately. These are the download (given the binding directory as the text
  `<root>/<name>`, as the handler builds it), `DepsArgs` and `AddBindings`.
  The `create_dir_all` of `binaries/` that the handler runs before
  downloading is `Fs.CreateDirAllStep`.

## Findings

| source | as written | input that shows it | evidently intended | confidence | as-written member | corrected member |
|---|---|---|---|---|---|---|
| src/command.rs:406-413 | the `ca-certs` pair is `<file name>=@<path>`, and `add_binding` splits it at the first `=` | a certificate `/certs/a=b.pem`: the key becomes `a` and the key file receives the literal text `b.pem=@/certs/a=b.pem` instead of the certificate | every certificate is copied into the binding under a key without `=` | medium, not executed | `Commands.CertPairWithEqualsIsMisSplit` | `Commands.CertArgsFixedSplits` |

The same pair builder appears in `src/lib.rs:362-369`.
