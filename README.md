# sushibox launcher, modelled in Dafny

sushibox ships a set of programs as assets embedded in one launcher
binary. Started as `sushibox cmd args...`, or through a link named after
the command, the launcher works in four steps:

1. It makes sure `~/.sushibox/versions` exists (`initDirs`).
2. It reads the command and its arguments (`parseArgs`).
3. It compares the unpacked copy of this version's assets,
   `~/.sushibox/versions/<Version>`, with the assets by size, mode and
   modification time (`checkFilesInfo`).
4. When that comparison fails, it unpacks the assets again into a
   temporary directory, renames that directory onto the version directory
   and checks again (`restoreFiles`). Finally it replaces itself with
   `bin/<cmd>` of the version directory (`execCmd`).

The asset accessors modelled are the development ones of
`sushibox/mock.go`, which read a directory named by `SUSHIBOX_MOCK`.

The model has nine modules, one file each:

- `Wrappers`: `Option` and `Result`.
- `Paths`: `filepath.Join`/`Clean` on cleaned absolute paths (`seq<string>`). Also `strings.Split`, `strings.Replace`, `strings.TrimPrefix`, `path.Dir`, `filepath.Base`, and `_filePath`.
- `Fs`: the filesystem as a map from paths to nodes. The `os` calls are functions of that map, with the structural errno each one fails with. A `Disk` class applies them in place.
- `Errors`: the errors the launcher can return or print.
- `Assets`: the asset source as an immutable tree. It holds `Asset`, `AssetInfo`, `AssetNames` (a `filepath.Walk`) and `AssetDir`.
- `Restore`: `RestoreAsset` and `RestoreAssets`, as methods on the disk proved against functions of the filesystem.
- `Check`: what `checkFilesInfo` decides.
- `Args`: `parseArgs`, with the part of the `flag` package it uses.
- `Launcher`: `initDirs`, `restoreFiles`, `execCmd`, `main`. The class `Launcher` holds the four directory variables, which `InitDirs` assigns.

Inputs the program takes from its environment become parameters:

- the home directory;
- `Version`;
- the `SUSHIBOX_MOCK` tree;
- `os.Args`;
- `os.Environ()`;
- the clock (`Disk.clock`), which stamps written files;
- the name `ioutil.TempDir` picks.

The program's effect is the final filesystem together with an `Ending`: an exit code, or the `syscall.Exec` call the process turns into.

Two behaviours of the code are worth knowing. Where the code and its test file disagree, the model follows the code:

- **A corrupted cache is not repaired.** The code ignores every `os.Rename` error except not-exist. When a non-empty version directory fails the check, the rename onto it fails with ENOTEMPTY, the stale copy stays, and the second check returns the same error. `RestoreFilesExisting` and `SettleRenameIgnored` state this.
- **The test file targets a different version of the code.** `sushibox_test.go` calls a three-result `parseArgs` and a `realMain`, neither of which this `sushibox.go` has. It also expects `foo -version` to pass `-version` through to `foo`. The code instead lets `flag.Parse` consume `-version` under any name and prints the version; `ParseArgsExamples` proves that.

## Model

| member | source | states |
|---|---|---|
| Paths.Split | sushibox/mock.go:141 | `strings.Split` yields at least one piece, and no piece contains the separator |
| Paths.JoinSplit | sushibox/mock.go:141 | Joining the pieces of a split with the separator gives back the original string |
| Paths.SplitJoin | sushibox/mock.go:141 | Splitting a join of separator-free pieces gives back the pieces |
| Paths.ReplaceAllTwice | sushibox/mock.go:140 | Replacing backslashes is idempotent |
| Paths.FilePathCanonical | sushibox/mock.go:139-142 | `_filePath` gives the same path for a name and for its backslash-free form |
| Paths.FilePathInside | sushibox/mock.go:139-142 | A name without ".." components lands at or below `dir` |
| Paths.FilePathOfJoined | sushibox/mock.go:139-142 | `_filePath(dir, name)` of a slash-join of clean, backslash-free components is `dir` followed by those components |
| Paths.FilePathOfDirName | sushibox/mock.go:108 | `_filePath(dir, path.Dir(name))` is `dir` followed by all but the last component of `name` |
| Paths.FilePathOfDot | sushibox/mock.go:108 | `_filePath(dir, ".")`, the parent of a top-level name, is `dir` itself |
| Paths.CleanFromProper | sushibox/sushibox.go:46-47 | Joining proper components appends them unchanged |
| Paths.CleanFromInside | sushibox/mock.go:139-142 | Without "..", `filepath.Join` never climbs above its base |
| Paths.CleanFromIsClean | sushibox/sushibox.go:58 | A clean base joined with separator-free parts stays clean |
| Paths.CleanFromAppend | sushibox/mock.go:141 | Joining `xs + ys` equals joining `xs` and then `ys` |
| Paths.JoinProper | sushibox/sushibox.go:141 | `filepath.Join(dir, c)` of a proper name appends one component |
| Paths.JoinOfJoined | sushibox/sushibox.go:99 | `filepath.Join(base, name)` of a slash-joined clean path appends that path |
| Paths.JoinOfPathJoin | sushibox/mock.go:130 | Joining `path.Join(name, child)` equals joining `name` and then appending `child` |
| Paths.BaseOfRender | sushibox/sushibox.go:66 | `filepath.Base` of a rendered path is its last component |
| Paths.BaseOfName | sushibox/sushibox.go:66 | `filepath.Base` of a plain name is the name |
| Paths.TrimPrefix | sushibox/mock.go:66 | `strings.TrimPrefix` removes `pre` exactly when `s` starts with it, and otherwise returns `s` unchanged |
| Paths.TrimPrefixAbsent | sushibox/mock.go:92 | A name without '/' is left alone by trimming a prefix that contains '/' |
| Paths.JoinOfRelative | sushibox/mock.go:66 | A walked path with the source-directory prefix trimmed, joined onto `base`, is `base` followed by the path's relative components |
| Fs.InfoOf | sushibox/sushibox.go:100 | Stat reports a directory exactly for a directory node |
| Fs.StatFs | sushibox/sushibox.go:100-103 | `os.Stat` succeeds exactly on existing paths, reports that node's info, and fails with an error naming the path |
| Fs.StatMissing | sushibox/sushibox_test.go:103-105 | A missing path with no regular file on the way to it fails with ENOENT |
| Fs.AncestorsAreDirs | sushibox/sushibox.go:49 | In a valid tree every proper prefix of an existing path is a directory |
| Fs.NothingBelowMissing | sushibox/sushibox.go:132 | Nothing exists below a missing path |
| Fs.StatLocal | sushibox/sushibox.go:100 | Stat depends only on the nodes at the prefixes of its path |
| Fs.MkdirAllSucceeds | sushibox/sushibox.go:49-56 | `os.MkdirAll(p)` succeeds exactly when no prefix of `p` is a regular file |
| Fs.MkdirAllFailure | sushibox/sushibox.go:49-56 | A failing `MkdirAll` changes nothing and reports ENOTDIR |
| Fs.MkdirAllGrows | sushibox/sushibox.go:49-56 | A successful `MkdirAll` keeps every node and adds only directories at or above `p`; afterwards every prefix of `p` is a directory |
| Fs.MkdirAllValid | sushibox/sushibox.go:49 | `MkdirAll` keeps the filesystem a tree |
| Fs.MkdirValid | sushibox/sushibox.go:119 | `Mkdir` keeps the filesystem a tree |
| Fs.WriteFileValid | sushibox/mock.go:112 | `ioutil.WriteFile` keeps the filesystem a tree |
| Fs.ChtimesValid | sushibox/mock.go:116 | `os.Chtimes` keeps the filesystem a tree |
| Fs.RemoveAllValid | sushibox/sushibox.go:123-125 | `os.RemoveAll` keeps the filesystem a tree |
| Fs.RemoveAllEffect | sushibox/sushibox.go:123-125 | `os.RemoveAll(p)` removes exactly `p` and what lies below it, and keeps every other node |
| Fs.MoveAt | sushibox/sushibox.go:132 | After a rename, what was at `from + s` is at `to + s` |
| Fs.MoveKeeps | sushibox/sushibox.go:132 | A rename keeps every node outside both `from` and `to` |
| Fs.MoveKeys | sushibox/sushibox.go:132 | Every node after a rename either came from below `from` or was already there outside both trees |
| Fs.MoveValid | sushibox/sushibox.go:132 | Moving a subtree to a place whose parent is a directory outside it keeps the tree valid |
| Fs.RenameValid | sushibox/sushibox.go:132-135 | `os.Rename`, with every rename(2) error it can return, keeps the filesystem a tree |
| Fs.Disk.Stat | sushibox/sushibox.go:100 | The method returns what `StatFs` says |
| Fs.Disk.MkdirAll | sushibox/sushibox.go:49 | The new disk and the error are those of `MkdirAllFs`, and the disk stays valid |
| Fs.Disk.Mkdir | sushibox/sushibox.go:119 | The new disk and the error are those of `MkdirFs`, and the disk stays valid |
| Fs.Disk.WriteFile | sushibox/mock.go:112 | The new disk and the error are those of `WriteFileFs`, stamped with the disk's clock |
| Fs.Disk.Chtimes | sushibox/mock.go:116 | The new disk and the error are those of `ChtimesFs` |
| Fs.Disk.Rename | sushibox/sushibox.go:132 | The new disk and the error are those of `RenameFs` |
| Fs.Disk.RemoveAll | sushibox/sushibox.go:124 | The new disk is that of `RemoveAllFs` |
| Assets.NodeOf | sushibox/mock.go:112-116 | A restored entry is a directory node exactly when it is a directory |
| Assets.Find | sushibox/mock.go:33 | Lookup of a child by name fails exactly when no child has that name, and otherwise returns that child's entry |
| Assets.LookupIn | sushibox/mock.go:34 | A failed lookup below a tree fails with ENOTDIR or ENOENT |
| Assets.Asset | sushibox/mock.go:28-39 | With SUSHIBOX_MOCK unset, Asset fails with the "please specify" error. Otherwise it succeeds exactly on a regular file at `filepath.Join(mockDir, name)` and returns its bytes; any other outcome is a read error carrying the name and the path |
| Assets.AssetInfo | sushibox/mock.go:41-52 | With SUSHIBOX_MOCK unset, AssetInfo fails with the "please specify" error. Otherwise it succeeds exactly when something is at the joined path and returns its info; on failure it carries the name, the path and the errno |
| Assets.AssetNames | sushibox/mock.go:54-75 | `AssetNames` exits on an unset SUSHIBOX_MOCK and on a missing source directory (ENOENT), succeeds otherwise, and lists one name per walked file |
| Assets.AssetNamesExact | sushibox/mock.go:59-70 | The names listed are exactly the relative paths of the regular files of the tree: each listed name is one, and each file is listed |
| Assets.AssetsOfNames | sushibox/mock.go:28-52 | The i-th listed name joins back to the i-th walked file, and Asset and AssetInfo of it succeed with that file's bytes and info |
| Assets.AssetDir | sushibox/mock.go:77-96 | The method returns what `AssetDirSpec` says |
| Assets.AssetDirChildren | sushibox/mock.go:77-96 | For a missing path, AssetDir returns the Stat error. For a regular file it returns the "file <path>" error. For a directory it returns the children's names in listing order |
| Assets.WalkFiles | sushibox/mock.go:59-70 | Every walked path lies below the start, is clean and backslash-free, and names a regular file; directories are skipped |
| Assets.WalkComplete | sushibox/mock.go:70 | Every regular file of the tree is walked |
| Assets.WalkChildrenMember | sushibox/mock.go:70 | A path is walked below a directory exactly when it is walked below one of its children |
| Assets.FindDistinct | sushibox/mock.go:87 | With distinct child names, finding a child's name returns that child |
| Assets.LookupSnoc | sushibox/mock.go:130 | Looking up `rel + [c]` is looking up `c` in what `rel` denotes |
| Restore.RestoreAsset | sushibox/mock.go:99-121 | The method's disk and error are those of `RestoreAssetFs`, and the disk stays valid |
| Restore.RestoreAssets | sushibox/mock.go:124-137 | The method's disk and error are those of `RestoreTreeFs`, following the recursion over `AssetDir`, and the disk stays valid |
| Restore.ChildOfListing | sushibox/mock.go:129-130 | Each name AssetDir lists is a child of that directory, so the recursion terminates |
| Restore.AssetOfFile | sushibox/mock.go:100-107 | Asset and AssetInfo of a file's relative name return its bytes and info |
| Restore.PlaceFileOk | sushibox/mock.go:108-120 | Below a path with no regular file on it, MkdirAll of the parent, WriteFile and Chtimes all succeed. Together they add the file with its data, mode and mtime, plus directories on the way, and keep the tree valid |
| Restore.RestoreAssetOk | sushibox/mock.go:99-121 | Restoring a file of the source into a place that has no file on its way succeeds. It leaves a node with the file's bytes, mode and time, and adds nothing outside that place except directories on the way |
| Restore.RestoreTreeOk | sushibox/mock.go:124-137 | Restoring any entry of a well-formed source into a free place succeeds. Every file of that entry is then in its place with its bytes, mode and time, and nothing else changes except directories added on the way |
| Restore.RestoreChildrenOk | sushibox/mock.go:129-134 | The loop over a directory's children from the i-th on succeeds, and restores each remaining child's files without disturbing earlier ones |
| Restore.ChildStep | sushibox/mock.go:130 | One turn of that loop restores the child named by `path.Join(name, child)` completely |
| Restore.ChildrenPreserved | sushibox/mock.go:129-134 | Restoring one child leaves the later children's places free |
| Restore.DoneMono | sushibox/mock.go:129-134 | Files already restored stay restored when later steps only add nodes |
| Restore.DoneDir | sushibox/mock.go:129-134 | A directory is restored once each of its children is |
| Restore.GrowsTrans | sushibox/mock.go:129-134 | "only adds below" composes across consecutive children |
| Restore.BackslashNameFails | sushibox/mock.go:108-112 | A source whose only file is named `a\b` cannot be unpacked. path.Dir of the name is ".", so MkdirAll makes only `t`, while `_filePath` sends the write to `t/a/b`, and RestoreAssets fails with ENOENT |
| Restore.BackslashNameEscapes | sushibox/mock.go:139-142 | A source whose only file is named `..\x` is unpacked without error, but the file is written as `x` in the parent of the restore directory `t`, outside `t`, so removing `t` leaves it in place |
| Restore.RestoreAllOk | sushibox/mock.go:124-137 | `RestoreAssets(t, "")` into an empty directory succeeds. It places every file of the source below `t` with its bytes, mode and time, keeps the rest of the disk, and adds only nodes below `t` |
| Check.CheckNames | sushibox/sushibox.go:93-115 | The loop passes exactly when every one of its turns passes |
| Check.CheckNamesFirst | sushibox/sushibox.go:93-115 | A failing loop returns the error of its first failing turn, and every earlier turn passed |
| Check.CheckOneAt | sushibox/sushibox.go:94-113 | The i-th name's turn passes exactly when a node exists at its place below `base` and agrees with the asset in size, mode and mtime |
| Check.CheckIntact | sushibox/sushibox.go:92-116 | The check passes exactly when every file of the source has a node at its place below `base` with the same size, mode and mtime |
| Check.CheckOneMissing | sushibox/sushibox.go:100-103 | A file missing below `base`, with no regular file on the way to it, makes its turn return the not-exist error |
| Check.DoneIntact | sushibox/sushibox_test.go:98-101 | Files holding the assets' bytes, mode and time pass the comparison |
| Check.TruncationDetected | sushibox/sushibox_test.go:107-111 | Truncating any file of an intact copy makes the check fail |
| Check.CheckIgnoresContents | sushibox/sushibox.go:105-113 | Rewriting a file with other bytes of the same length does not change the verdict, because contents are never compared |
| Check.CheckLocal | sushibox/sushibox.go:99-100 | Changes at or below a path apart from `base`, such as the temporary directory, do not change the verdict |
| Check.StatSameInfo | sushibox/sushibox.go:100 | Stat depends only on which paths exist and on their info |
| Args.FirstEquals | sushibox/sushibox.go:73 | The flag parser's split point is the first '=' of the name, or its end |
| Args.Classify | sushibox/sushibox.go:73 | An argument is a non-flag exactly when it is not a dash followed by at least one character, and ends the flags exactly when it is "--" |
| Args.ClassifyVersion | sushibox/sushibox.go:63 | "-version" and "--version" both set the flag |
| Args.ParseFlags | sushibox/sushibox.go:73-74 | The arguments left after `flag.Parse` are a suffix of the command line |
| Args.ParseFlagsStops | sushibox/sushibox.go:73-74 | Parsing stops at the first non-flag, which is kept, or right after a "--", which is dropped |
| Args.ParseArgsDispatch | sushibox/sushibox.go:65-90 | A dispatched command gets a suffix of the arguments. Under the name "sushibox", the command is the argument just before that suffix; under any other name, the command is that name |
| Args.ParseArgsPlain | sushibox/sushibox.go:81-87 | Without a leading flag: started as "sushibox" with arguments, the first one is the command; started as "sushibox" alone, it prints usage and exits 1; started under another name, that name is the command with every argument |
| Args.VersionFlag | sushibox/sushibox.go:76-79 | A leading `-version` prints the version and exits 0, whatever the launcher is called |
| Args.ParseArgsExamples | sushibox/sushibox_test.go:57-96 | The test file's command lines: `sushibox foo bar baz`, `a b c`, bare `sushibox`, `sushibox -version`, and `foo -version` (which prints the version) |
| Args.ParseArgsByPath | sushibox/sushibox.go:66 | Started through any path ending in `sushibox`, the launcher behaves as `sushibox` |
| Launcher.LayoutJoins | sushibox/sushibox.go:46-59 | `~/.sushibox`, `versions` and `bin` are each `filepath.Join` of their parent with the fixed name |
| Launcher.Layout | sushibox/sushibox.go:58-59 | For a plain version name, the version directory sits directly in `versions`, and the bin directory is `~/.sushibox/versions/<Version>/bin` |
| Launcher.InitDirsEffect | sushibox/sushibox.go:45-61 | `initDirs` succeeds exactly when no prefix of the versions directory is a regular file. On success, both directories exist, every node is kept, and only directories on the way are added; on failure nothing changes |
| Launcher.InitDirsOk | sushibox/sushibox.go:49-56 | With no file in the way, both MkdirAll calls succeed with the effect above |
| Launcher.InitDirsFails | sushibox/sushibox.go:49-56 | With a file in the way, `initDirs` fails and leaves the disk as it was |
| Launcher.InitDirsNoBase | sushibox/sushibox_test.go:45-55 | `initDirs` creates neither the version directory nor its bin directory |
| Launcher.UnpackFresh | sushibox/sushibox.go:119-130 | `TempDir` creates the fresh directory, and unpacking into it succeeds and places every file below it without touching anything else |
| Launcher.CheckNeverExits | sushibox/mock.go:54-75 | With a source directory present, the check never takes `AssetNames`' exit path |
| Launcher.RestoreAllChecked | sushibox/sushibox_test.go:98-101 | `RestoreAssets(dir, "")` succeeds and `checkFilesInfo` of `dir` then passes, whether `dir` is an empty directory or missing (as the version directory is right after `initDirs`) |
| Launcher.UnpackNeedsSource | sushibox/mock.go:28-31 | Unpacking succeeds only when SUSHIBOX_MOCK is set and names an existing directory |
| Launcher.SettleRenameIgnored | sushibox/sushibox.go:132-137 | A rename error other than not-exist is ignored: the result is the check of the version directory as it stands |
| Launcher.SettleChecked | sushibox/sushibox.go:132-137 | When renaming and checking report success, the version directory passes the check on the final disk, after the temporary directory is removed |
| Launcher.RestoreFilesChecked | sushibox/sushibox.go:118-138 | `restoreFiles` returns nil only when the version directory it leaves passes the check |
| Launcher.SettleCleans | sushibox/sushibox.go:123-125 | After the rename and check, nothing is left at or below the temporary directory |
| Launcher.RestoreFilesCleans | sushibox/sushibox.go:118-138 | After `restoreFiles`, when the temporary directory did not exist before, nothing remains at or below it, whatever the outcome and whatever the source |
| Launcher.RenameFresh | sushibox/sushibox.go:132 | Renaming the temporary directory onto a missing version directory succeeds and moves exactly that subtree |
| Launcher.MoveDone | sushibox/sushibox.go:132 | Files unpacked below the temporary directory are below the version directory after the rename |
| Launcher.SettleFresh | sushibox/sushibox.go:132-137 | With no version directory, the rename and check succeed. The version directory then holds every asset with its bytes, mode and time, and the temporary directory is gone |
| Launcher.RestoreFilesFresh | sushibox/sushibox.go:118-138 | On first use, `restoreFiles` succeeds. It leaves every asset in the version directory with its bytes, mode and time, keeps all other nodes, and adds nothing outside the version directory |
| Launcher.SettleExisting | sushibox/sushibox.go:132-137 | When the version directory exists and is non-empty, the rename fails with ENOTEMPTY, which is ignored. The result is the check of the old directory, and the temporary directory is removed |
| Launcher.RestoreFilesExisting | sushibox/sushibox.go:118-138 | When the version directory exists and is non-empty, `restoreFiles` leaves the disk exactly as it was and returns the check of the old copy |
| Launcher.RemoveUnpacked | sushibox/sushibox.go:123-125 | Removing the temporary directory undoes everything the unpack added |
| Launcher.RestoreFilesIdempotent | sushibox/sushibox_test.go:113-119 | A second `restoreFiles` after a successful first one succeeds and leaves the disk unchanged, so the files keep their identity |
| Launcher.ExecFor | sushibox/sushibox.go:140-145 | `execCmd` execs `filepath.Join(BinDir, cmd)`, with argv[0] being that path, then the arguments, and the environment unchanged. A plain command name lands directly in the bin directory and is the base name of argv[0] |
| Launcher.ProperCommand | sushibox/sushibox.go:141 | A plain command name is one more component below the bin directory and the base name of its own path |
| Launcher.DispatchChecked | sushibox/sushibox.go:26-34 | main reaches the exec only with a version directory that passes the check, and then with the call `execCmd` builds |
| Launcher.DispatchCached | sushibox/sushibox.go:26-34 | With an intact version directory, main execs the command right away without touching the disk |
| Launcher.DispatchFresh | sushibox/sushibox.go:26-34 | With no version directory, main unpacks every asset into it and then execs the command |
| Launcher.RunCached | sushibox/sushibox.go:19-35 | A full run with an intact cache: `initDirs`, then straight to the exec of `bin/<cmd>` with the parsed arguments |
| Launcher.RunFirstTime | sushibox/sushibox.go:19-35 | A first run: the exec of `bin/<cmd>` follows. Every asset is then in the version directory, the old nodes are kept, and new nodes lie only on the way to `versions` or below the version directory |
| Launcher.Launcher.constructor | sushibox/sushibox.go:13-17 | The launcher starts with the four directory variables unset |
| Launcher.Launcher.InitDirs | sushibox/sushibox.go:45-61 | The disk and the error are those of `InitDirsFs`. `SushiBoxDir` and `VersionsDir` are always assigned; `BaseDir` and `BinDir` are assigned only on success |
| Launcher.Launcher.CheckFilesInfo | sushibox/sushibox.go:92-116 | The loop returns what `CheckFs` says: nil or the first failing turn's error |
| Launcher.Launcher.RestoreFiles | sushibox/sushibox.go:118-138 | The disk and the error are those of `RestoreFilesFs` |
| Launcher.Launcher.ExecCmd | sushibox/sushibox.go:140-145 | The call built is `ExecFor` of the bin directory |
| Launcher.Launcher.Dispatch | sushibox/sushibox.go:26-34 | The disk and the ending are those of `DispatchFs` |
| Launcher.Launcher.Run | sushibox/sushibox.go:19-35 | The disk and the ending are those of `RunFs`; the four directory fields hold the layout of `initDirs` for `home` and `version`, except that a failed `initDirs` leaves base and bin as they were |

## Left out

- `homeDir` (`go-homedir`): the home directory is a parameter. A failure to find it is not modelled.
- `ioutil.TempDir`: the random name and its retry on collision are not modelled. The name it picks is a parameter, and the model performs the `Mkdir` that TempDir does.
- `syscall.Exec`: the run ends in an `Exec` value naming the call. The exit 1 that follows a failed exec, and the program that runs afterwards, are not modelled.
- `execMockFunc` (sushibox/mock.go:18-26) is used only by tests, and runs a subprocess.
- Printing: message texts, the usage text and `flag.PrintDefaults` are not modelled. Errors are values that carry what the messages are formatted from.
- Directory modes and times: the 0755 of `MkdirAll` is a fixed mode; umask and directory times are not modelled.
- The directory variables start as `[]` rather than Go's empty string. They are read only after `initDirs` succeeds.
- Args.ParseFlags: of the `flag` package, only the boolean `-version` flag, `--`, `-h`/`-help` and errors are modelled. The exit code after `-h` is taken as 0, which depends on the Go version.
- Assets.AssetDirSpec: with SUSHIBOX_MOCK unset, `AssetDir` looks the name up relative to the working directory. The model reports `NoWorkingDirectory` instead, because it has no working directory.
- Assets.Source: SUSHIBOX_MOCK is modelled as an already cleaned absolute path. The code uses the raw string: `filepath.Walk` cleans the paths it visits, but AssetNames (sushibox/mock.go:66) trims the raw `mockDir + "/"`. With a value such as "test/" or "./test", the prefix is not removed. AssetNames then yields names such as "test/bin/foo", AssetInfo of them fails, and every check and restore fails. AssetNamesExact, AssetsOfNames, CheckIntact, RestoreFilesFresh and RunFirstTime hold only for a clean SUSHIBOX_MOCK.
- Assets.WellFormed: the restore theorems (RestoreTreeOk, RestoreAllOk, RestoreFilesFresh, RunFirstTime and those built on them) assume that no name in the source contains a backslash. Unix allows such names, and `_filePath` turns the backslash into a separator. A lone `a\b` makes RestoreAssets fail, as BackslashNameFails shows. A source holding both `a/b` and `a\b` restores both to the same file, so the check afterwards fails. A name such as `..\x` climbs out of the restore directory: RestoreAssets succeeds and writes `x` beside it, in its parent, and the deferred RemoveAll of the temporary directory never removes that file, as BackslashNameEscapes shows.
- Assets.Lookup: a name that leaves the source directory (such as "../x") is reported missing. The code would read the file beside the source. No name that AssetNames or AssetDir produces reaches this case.
- Fs.RenameFs: follows rename(2), where a directory may replace an empty directory. Later Go releases' `os.Rename` on Unix refuses any existing directory target with EEXIST. Under those releases, an empty stale version directory is not replaced either. Its outcome is the same as the non-empty case: the rename error is ignored and the check decides.
- Fs.Errno: only the errors that follow from the shape of the tree are modelled: ENOENT, ENOTDIR, EISDIR, EEXIST, ENOTEMPTY, EINVAL and EBUSY. Errors of permission, space and I/O (EACCES, EPERM, ENOSPC, EROFS, EIO) never occur, so `ReadFile`, `WriteFile`, `Mkdir` and `Rename` on `~/.sushibox` or the temporary directory cannot fail for those reasons. The source tree can always be read. An unreadable subdirectory of SUSHIBOX_MOCK, which reaches the error branch of the `filepath.Walk` callback (sushibox/mock.go:60-62) and makes AssetNames call `errorExit` (sushibox/mock.go:71-73), is not modelled. AssetNames ("succeeds otherwise"), RestoreAllOk, RestoreFilesFresh, DispatchFresh and RunFirstTime hold only on a disk without such errors.
- Fs.WriteFileFs: a new file keeps the asset's full mode. `ioutil.WriteFile` (sushibox/mock.go:112) creates the file with that mode minus the process umask. Under umask 022, an asset that is group- or other-writable would be restored with a different mode. Its check would then fail on every run, and `restoreFiles` would call `errorExit`. RestoreAssetOk, RestoreAllOk, RestoreFilesFresh, DispatchFresh and RunFirstTime assume a umask that keeps every asset's mode.
- Fs.Node: modification times are integers at one fixed precision. Filesystem timestamp granularity and Go's `time.Time` comparison are not modelled.
- Launcher.RestoreFilesIdempotent: assumes the source holds at least one file. An empty bundle is not covered.
- Concurrency: other processes changing the disk, and cross-device renames (EXDEV), are not modelled.
- Symbolic links, and sizes that overflow 64 bits, are not modelled.
- main.go and bindata_test.go are not part of this model, and neither is the generated bindata asset code. Only the mock accessors are modelled.
