/** The launcher (sushibox.go): lay out ~/.sushibox/versions/<Version>,
    check the unpacked files of this version against the assets, unpack
    them again through a temporary directory when the check fails, and
    exec the command from the version's bin directory. */
module Launcher {
  import opened Wrappers
  import opened Paths
  import opened Fs
  import opened Errors
  import opened Assets
  import opened Restore
  import opened Check
  import opened Args

  // ---------------------------------------------------------------------
  // The directory layout initDirs sets up

  const DotSushibox: string := ".sushibox"
  const VersionsName: string := "versions"
  const BinName: string := "bin"

  /** The directories initDirs names. The three fixed names are plain
      components, so their filepath.Join is one more component (lemma
      Layout); the version is joined as filepath.Join would. */
  function SushiBoxDirOf(home: Path): Path { home + [DotSushibox] }
  function VersionsDirOf(home: Path): Path { SushiBoxDirOf(home) + [VersionsName] }
  function BaseDirOf(home: Path, version: string): Path { Join(VersionsDirOf(home), version) }
  function BinDirOf(home: Path, version: string): Path { BaseDirOf(home, version) + [BinName] }

  /** Each fixed name is one plain component, so filepath.Join of it is
      one more component. */
  lemma LayoutJoins(home: Path, version: string)
    ensures SushiBoxDirOf(home) == Join(home, DotSushibox)
    ensures VersionsDirOf(home) == Join(SushiBoxDirOf(home), VersionsName)
    ensures BinDirOf(home, version) == Join(BaseDirOf(home, version), BinName)
  {
    JoinProper(home, DotSushibox);
    JoinProper(SushiBoxDirOf(home), VersionsName);
    JoinProper(BaseDirOf(home, version), BinName);
  }

  /** For a version that is one plain name the layout nests:
      ~/.sushibox/versions/<version>/bin. */
  lemma Layout(home: Path, version: string)
    requires ProperName(version)
    ensures BaseDirOf(home, version) == VersionsDirOf(home) + [version]
    ensures Parent(BaseDirOf(home, version)) == VersionsDirOf(home)
    ensures BinDirOf(home, version) == home + [DotSushibox, VersionsName, version, BinName]
  {
    JoinProper(VersionsDirOf(home), version);
  }

  /** initDirs on the disk: MkdirAll of ~/.sushibox, then of its versions directory. */
  function InitDirsFs(fs: FileSystem, home: Path): (FileSystem, Option<FsError>) {
    var (fs1, e1) := MkdirAllFs(fs, SushiBoxDirOf(home));
    if e1.Some? then (fs1, e1) else MkdirAllFs(fs1, VersionsDirOf(home))
  }

  /** initDirs succeeds exactly when no prefix of the versions directory is
      a regular file; then both directories exist, every node is kept and
      only directories on the way to the versions directory are added;
      otherwise nothing changes. */
  lemma InitDirsEffect(fs: FileSystem, home: Path)
    requires IsTree(fs)
    ensures var (fs', err) := InitDirsFs(fs, home);
      var vd := VersionsDirOf(home);
      && IsTree(fs')
      && (err.None? <==> NoFileOnPath(fs, vd))
      && (err.Some? ==> fs' == fs)
      && (err.None? ==>
            && SushiBoxDirOf(home) in fs' && fs'[SushiBoxDirOf(home)] == Dir
            && vd in fs' && fs'[vd] == Dir
            && (forall q :: q in fs ==> q in fs' && fs'[q] == fs[q])
            && (forall q :: q in fs' && q !in fs ==> q <= vd && fs'[q] == Dir))
  {
    var vd := VersionsDirOf(home);
    MkdirAllValid(fs, SushiBoxDirOf(home));
    if NoFileOnPath(fs, vd) {
      InitDirsOk(fs, home);
    } else {
      InitDirsFails(fs, home);
    }
  }

  /** With no file on the way, both MkdirAll calls succeed. */
  lemma InitDirsOk(fs: FileSystem, home: Path)
    requires IsTree(fs) && NoFileOnPath(fs, VersionsDirOf(home))
    ensures var (fs', err) := InitDirsFs(fs, home);
      var vd := VersionsDirOf(home);
      && err.None? && IsTree(fs')
      && SushiBoxDirOf(home) in fs' && fs'[SushiBoxDirOf(home)] == Dir
      && vd in fs' && fs'[vd] == Dir
      && (forall q :: q in fs ==> q in fs' && fs'[q] == fs[q])
      && (forall q :: q in fs' && q !in fs ==> q <= vd && fs'[q] == Dir)
  {
    var sb := SushiBoxDirOf(home);
    var vd := VersionsDirOf(home);
    assert sb == vd[..|sb|];
    assert NoFileOnPath(fs, sb) by {
      forall k | 0 <= k <= |sb| && sb[..k] in fs ensures fs[sb[..k]] == Dir { assert sb[..k] == vd[..k]; }
    }
    MkdirAllSucceeds(fs, sb);
    MkdirAllGrows(fs, sb);
    MkdirAllValid(fs, sb);
    var fs1 := MkdirAllFs(fs, sb).0;
    assert NoFileOnPath(fs1, vd) by {
      forall k | 0 <= k <= |vd| && vd[..k] in fs1 ensures fs1[vd[..k]] == Dir {
        if k <= |sb| { assert vd[..k] == sb[..k]; }
      }
    }
    MkdirAllSucceeds(fs1, vd);
    MkdirAllGrows(fs1, vd);
    MkdirAllValid(fs1, vd);
    assert vd == vd[..|vd|];
  }

  /** With a file on the way one of the MkdirAll calls fails, and nothing changes. */
  lemma InitDirsFails(fs: FileSystem, home: Path)
    requires IsTree(fs) && !NoFileOnPath(fs, VersionsDirOf(home))
    ensures InitDirsFs(fs, home).1.Some? && InitDirsFs(fs, home).0 == fs
  {
    var sb := SushiBoxDirOf(home);
    var vd := VersionsDirOf(home);
    MkdirAllSucceeds(fs, sb);
    MkdirAllFailure(fs, sb);
    var (fs1, e1) := MkdirAllFs(fs, sb);
    if e1.None? {
      MkdirAllGrows(fs, sb);
      MkdirAllValid(fs, sb);
      var k :| 0 <= k <= |vd| && vd[..k] in fs && fs[vd[..k]] != Dir;
      assert vd[..k] in fs1 && fs1[vd[..k]] != Dir;
      MkdirAllSucceeds(fs1, vd);
      MkdirAllFailure(fs1, vd);
    }
  }

  /** initDirs creates neither the version's own directory nor its bin
      directory: each exists afterwards exactly when it existed before. */
  lemma InitDirsNoBase(fs: FileSystem, home: Path, version: string)
    requires IsTree(fs) && ProperName(version)
    ensures BaseDirOf(home, version) in InitDirsFs(fs, home).0 <==> BaseDirOf(home, version) in fs
    ensures BinDirOf(home, version) in InitDirsFs(fs, home).0 <==> BinDirOf(home, version) in fs
  {
    InitDirsEffect(fs, home);
    Layout(home, version);
    var vd := VersionsDirOf(home);
    var bin := BinDirOf(home, version);
    assert !(BaseDirOf(home, version) <= vd) by {
      assert |BaseDirOf(home, version)| > |vd|;
    }
    assert !(bin <= vd) by {
      assert |bin| > |vd|;
    }
  }

  // ---------------------------------------------------------------------
  // restoreFiles

  /** restoreFiles on the disk: make the temporary directory, unpack the
      assets into it (removing it again when that fails), then settle it. */
  function RestoreFilesFs(src: Source, fs: FileSystem, now: int, temp: Path, base: Path): (FileSystem, Option<Error>) {
    var (fs1, e1) := MkdirFs(fs, temp);
    if e1.Some? then (fs1, Some(Os(e1.value)))
    else
      var (fs2, e2) := RestoreTreeFs(src, fs1, now, temp, "");
      if e2.Some? then (RemoveAllFs(fs2, temp), e2) else SettleFs(src, fs2, temp, base)
  }

  /** The rest of restoreFiles once the assets are unpacked into `temp`:
      rename it onto the version directory (only a not-exist error of the
      rename is returned), check the version directory, and remove the
      temporary directory on the way out. An errorExit inside the check
      ends the process before the deferred removal runs. */
  function SettleFs(src: Source, fs: FileSystem, temp: Path, base: Path): (FileSystem, Option<Error>) {
    var (fs3, e3) := RenameFs(fs, temp, base);
    if e3.Some? && e3.value.IsNotExist() then (RemoveAllFs(fs3, temp), Some(Os(e3.value)))
    else
      var r := CheckFs(src, fs3, base);
      if r.Some? && r.value.Exit? then (fs3, r) else (RemoveAllFs(fs3, temp), r)
  }

  /** Making a fresh temporary directory below an existing one and
      unpacking a well-formed source into it succeeds: every file of the
      source is below it, every old node is kept, and nothing is added
      outside it. */
  lemma UnpackFresh(src: Source, fs: FileSystem, now: int, temp: Path)
    requires ValidSource(src) && IsTree(fs)
    requires temp !in fs && temp != [] && Parent(temp) in fs && fs[Parent(temp)] == Dir
    ensures MkdirFs(fs, temp) == (fs[temp := Dir], None)
    ensures var (fs2, e2) := RestoreTreeFs(src, fs[temp := Dir], now, temp, "");
      && e2.None? && IsTree(fs2) && temp in fs2 && fs2[temp] == Dir
      && Done(fs2, temp, src.root.value)
      && (forall q :: q in fs ==> q in fs2 && fs2[q] == fs[q])
      && (forall q :: q in fs2 && q !in fs ==> temp <= q)
  {
    MkdirValid(fs, temp);
    NothingBelowMissing(fs, temp);
    RestoreAllOk(src, fs[temp := Dir], now, temp);
  }

  /** With a source directory in place the check never ends the process. */
  lemma CheckNeverExits(src: Source, fs: FileSystem, base: Path)
    requires src.Src? && src.root.Some?
    ensures CheckFs(src, fs, base).None? || !CheckFs(src, fs, base).value.Exit?
  {
    var names := AssetNames(src).value;
    if CheckNames(src, fs, base, names).Some? {
      CheckNamesFirst(src, fs, base, names);
    }
  }

  /** After RestoreAssets(t, "") of a well-formed source, the check of `t`
      passes, whether `t` is an empty directory or missing (as the version
      directory is right after initDirs): RestoreAsset's MkdirAll creates it. */
  lemma RestoreAllChecked(src: Source, fs: FileSystem, now: int, t: Path)
    requires ValidSource(src)
    requires IsTree(fs) && NoFileOnPath(fs, t) && (forall q :: q in fs ==> !(t < q))
    ensures RestoreTreeFs(src, fs, now, t, "").1.None?
    ensures CheckFs(src, RestoreTreeFs(src, fs, now, t, "").0, t).None?
  {
    assert t + [] == t;
    assert JoinWith([], Slash) == "";
    RestoreTreeOk(src, fs, now, t, []);
    var fs' := RestoreTreeFs(src, fs, now, t, "").0;
    DoneIntact(fs', t, src.root.value);
    CheckIntact(src, fs', t);
  }

  /** A rename error other than not-exist is swallowed: the disk is left as
      it was and the verdict is the check's on the directory as it is. */
  lemma SettleRenameIgnored(src: Source, fs: FileSystem, temp: Path, base: Path)
    requires RenameFs(fs, temp, base).1.Some? && !RenameFs(fs, temp, base).1.value.IsNotExist()
    ensures SettleFs(src, fs, temp, base).1 == CheckFs(src, fs, base)
  {
  }

  /** Settling reports success only when the version directory it leaves
      behind passes the check. */
  lemma SettleChecked(src: Source, fs: FileSystem, temp: Path, base: Path)
    requires ValidSource(src) && Apart(temp, base)
    ensures var (fs', err) := SettleFs(src, fs, temp, base);
      err.None? ==> CheckFs(src, fs', base).None?
  {
    var fs3 := RenameFs(fs, temp, base).0;
    if SettleFs(src, fs, temp, base).1.None? {
      assert SettleFs(src, fs, temp, base).0 == RemoveAllFs(fs3, temp);
      assert temp != [];
      RemoveAllEffect(fs3, temp);
      CheckLocal(src, fs3, RemoveAllFs(fs3, temp), base, temp);
    }
  }

  /** restoreFiles reports success only when the version directory it
      leaves behind passes the check. */
  lemma RestoreFilesChecked(src: Source, fs: FileSystem, now: int, temp: Path, base: Path)
    requires ValidSource(src) && Apart(temp, base)
    ensures var (fs', err) := RestoreFilesFs(src, fs, now, temp, base);
      err.None? ==> CheckFs(src, fs', base).None?
  {
    var (fs1, e1) := MkdirFs(fs, temp);
    if e1.None? {
      var fs2 := RestoreTreeFs(src, fs1, now, temp, "").0;
      SettleChecked(src, fs2, temp, base);
    }
  }

  /** Settling leaves nothing at or below the temporary directory: the
      check cannot exit, so the deferred removal always runs. */
  lemma SettleCleans(src: Source, fs: FileSystem, temp: Path, base: Path)
    requires src.Src? && src.root.Some? && temp != []
    ensures forall q :: q in SettleFs(src, fs, temp, base).0 ==> !(temp <= q)
  {
    var fs3 := RenameFs(fs, temp, base).0;
    CheckNeverExits(src, fs3, base);
    assert SettleFs(src, fs, temp, base).0 == RemoveAllFs(fs3, temp);
    RemoveAllEffect(fs3, temp);
  }

  /** Nothing remains at or below a fresh temporary directory afterwards,
      on every path. What a source writes outside it is another matter
      (see BackslashNameEscapes). */
  lemma RestoreFilesCleans(src: Source, fs: FileSystem, now: int, temp: Path, base: Path)
    requires IsTree(fs) && temp !in fs
    ensures forall q :: q in RestoreFilesFs(src, fs, now, temp, base).0 ==> !(temp <= q)
  {
    NothingBelowMissing(fs, temp);
    UnpackNeedsSource(src, MkdirFs(fs, temp).0, now, temp);
    var (fs1, e1) := MkdirFs(fs, temp);
    if e1.None? {
      assert temp != [];
      var (fs2, e2) := RestoreTreeFs(src, fs1, now, temp, "");
      if e2.Some? {
        RemoveAllEffect(fs2, temp);
      } else {
        SettleCleans(src, fs2, temp, base);
      }
    }
  }

  /** Unpacking succeeds only from a source directory that exists: with
      SUSHIBOX_MOCK unset or naming nothing, Asset fails on the first name. */
  lemma UnpackNeedsSource(src: Source, fs: FileSystem, now: int, temp: Path)
    ensures RestoreTreeFs(src, fs, now, temp, "").1.None? ==> src.Src? && src.root.Some?
  {
  }

  /** Renaming a directory onto a missing path below an existing directory,
      apart from it, moves the subtree: nothing stays at or below the old
      place, nodes elsewhere are kept, and new nodes lie below the new place. */
  lemma RenameFresh(fs: FileSystem, temp: Path, base: Path)
    requires IsTree(fs) && temp in fs && fs[temp] == Dir
    requires base !in fs && base != [] && Parent(base) in fs && fs[Parent(base)] == Dir
    requires Apart(temp, base)
    ensures RenameFs(fs, temp, base) == (Move(fs, temp, base), None)
    ensures IsTree(Move(fs, temp, base))
    ensures forall q :: q in Move(fs, temp, base) ==> !(temp <= q) && (q in fs || base <= q)
    ensures forall q :: q in fs && !(temp <= q) ==> q in Move(fs, temp, base) && Move(fs, temp, base)[q] == fs[q]
  {
    var fs3 := Move(fs, temp, base);
    RenameValid(fs, temp, base);
    forall q | q in fs3 ensures !(temp <= q) && (q in fs || base <= q) {
      MoveKeys(fs, temp, base, q);
      PrefixesComparable(temp, base, q);
    }
    NothingBelowMissing(fs, base);
    forall q | q in fs && !(temp <= q) ensures q in fs3 && fs3[q] == fs[q] {
      MoveKeeps(fs, temp, base, q);
    }
  }

  /** A move carries the files restored below `temp` to the same places below `base`. */
  lemma MoveDone(fs: FileSystem, temp: Path, base: Path, e: Entry)
    requires Done(fs, temp, e)
    ensures Done(Move(fs, temp, base), base, e)
  {
    forall r | IsFileAt(e, r) ensures base + r in Move(fs, temp, base) && Move(fs, temp, base)[base + r] == NodeOf(LookupIn(e, r).value) {
      MoveAt(fs, temp, base, r);
    }
  }

  /** Settling an unpacked tree onto a missing version directory below an
      existing directory moves it there, passes the check, and removes
      nothing but the temporary directory. */
  lemma SettleFresh(src: Source, fs: FileSystem, temp: Path, base: Path)
    requires ValidSource(src) && IsTree(fs) && temp in fs && fs[temp] == Dir && Done(fs, temp, src.root.value)
    requires base !in fs && base != [] && Parent(base) in fs && fs[Parent(base)] == Dir
    requires Apart(temp, base)
    ensures var (fs', err) := SettleFs(src, fs, temp, base);
      && err.None? && IsTree(fs')
      && Done(fs', base, src.root.value)
      && (forall q :: q in fs && !(temp <= q) ==> q in fs' && fs'[q] == fs[q])
      && (forall q :: q in fs' ==> !(temp <= q) && (q in fs || base <= q))
  {
    var e := src.root.value;
    RenameFresh(fs, temp, base);
    var fs3 := Move(fs, temp, base);
    MoveDone(fs, temp, base, e);
    DoneIntact(fs3, base, e);
    CheckIntact(src, fs3, base);
    assert CheckFs(src, fs3, base).None?;
    RemoveAllEffect(fs3, temp);
    assert RemoveAllFs(fs3, temp) == fs3;
    assert SettleFs(src, fs, temp, base) == (fs3, None);
  }

  /** First start of a version: with the version directory missing below
      an existing directory, restoreFiles succeeds, every file of the
      source is then in the version directory with its bytes, mode and
      time, every other node is as it was, and nothing is added elsewhere. */
  lemma RestoreFilesFresh(src: Source, fs: FileSystem, now: int, temp: Path, base: Path)
    requires ValidSource(src) && IsTree(fs)
    requires temp !in fs && temp != [] && Parent(temp) in fs && fs[Parent(temp)] == Dir
    requires base !in fs && base != [] && Parent(base) in fs && fs[Parent(base)] == Dir
    requires Apart(temp, base)
    ensures var (fs', err) := RestoreFilesFs(src, fs, now, temp, base);
      && err.None? && IsTree(fs')
      && Done(fs', base, src.root.value)
      && (forall q :: q in fs ==> q in fs' && fs'[q] == fs[q])
      && (forall q :: q in fs' && q !in fs ==> base <= q)
  {
    UnpackFresh(src, fs, now, temp);
    NothingBelowMissing(fs, temp);
    var fs2 := RestoreTreeFs(src, fs[temp := Dir], now, temp, "").0;
    assert base !in fs2;
    SettleFresh(src, fs2, temp, base);
  }

  /** Settling onto a non-empty version directory leaves it as it was (the
      rename fails with ENOTEMPTY, which is ignored), returns the verdict of
      the check on it, and removes the temporary directory. */
  lemma SettleExisting(src: Source, fs: FileSystem, temp: Path, base: Path)
    requires ValidSource(src) && IsTree(fs) && temp in fs && fs[temp] == Dir
    requires base in fs && fs[base] == Dir && HasChildren(fs, base)
    requires Apart(temp, base)
    ensures SettleFs(src, fs, temp, base) == (RemoveAllFs(fs, temp), CheckFs(src, fs, base))
  {
    assert base != [];
    AncestorsAreDirs(fs, base);
    assert RenameFs(fs, temp, base) == (fs, Some(FsError(ENOTEMPTY, base)));
    CheckNeverExits(src, fs, base);
  }

  /** With a non-empty version directory in place, restoreFiles changes
      nothing at all and returns the verdict of the check on the directory
      as it is: an intact directory stays and passes, and a damaged one is
      not replaced. */
  lemma RestoreFilesExisting(src: Source, fs: FileSystem, now: int, temp: Path, base: Path)
    requires ValidSource(src) && IsTree(fs)
    requires temp !in fs && temp != [] && Parent(temp) in fs && fs[Parent(temp)] == Dir
    requires base in fs && fs[base] == Dir && HasChildren(fs, base)
    requires Apart(temp, base)
    ensures RestoreFilesFs(src, fs, now, temp, base) == (fs, CheckFs(src, fs, base))
  {
    UnpackFresh(src, fs, now, temp);
    NothingBelowMissing(fs, temp);
    var fs2 := RestoreTreeFs(src, fs[temp := Dir], now, temp, "").0;
    var c :| c in fs && base < c;
    assert c in fs2;
    SettleExisting(src, fs2, temp, base);
    RemoveUnpacked(fs, fs2, temp);
    CheckLocal(src, fs2, fs, base, temp);
  }

  /** Removing the temporary directory again undoes an unpacking that
      added nodes only at or below it. */
  lemma RemoveUnpacked(fs: FileSystem, fs2: FileSystem, temp: Path)
    requires temp != []
    requires forall q :: q in fs ==> !(temp <= q) && q in fs2 && fs2[q] == fs[q]
    requires forall q :: q in fs2 && q !in fs ==> temp <= q
    ensures AgreeOutside(fs2, fs, temp) && RemoveAllFs(fs2, temp) == fs
  {
    RemoveAllEffect(fs2, temp);
    assert forall q :: q in RemoveAllFs(fs2, temp) <==> q in fs;
  }

  /** A second restoreFiles after a first one on a fresh version changes
      nothing and succeeds. */
  lemma RestoreFilesIdempotent(src: Source, fs: FileSystem, now: int, now2: int, t1: Path, t2: Path, base: Path)
    requires ValidSource(src) && IsTree(fs) && exists rel :: IsFileAt(src.root.value, rel)
    requires t1 !in fs && t1 != [] && Parent(t1) in fs && fs[Parent(t1)] == Dir && Apart(t1, base)
    requires t2 !in fs && t2 != [] && Parent(t2) in fs && fs[Parent(t2)] == Dir && Apart(t2, base)
    requires base !in fs && base != [] && Parent(base) in fs && fs[Parent(base)] == Dir
    ensures var fs' := RestoreFilesFs(src, fs, now, t1, base).0;
      RestoreFilesFs(src, fs', now2, t2, base) == (fs', None)
  {
    RestoreFilesFresh(src, fs, now, t1, base);
    var fs' := RestoreFilesFs(src, fs, now, t1, base).0;
    var e := src.root.value;
    var rel :| IsFileAt(e, rel);
    assert rel != [];
    AncestorsAreDirs(fs', base + rel);
    assert (base + rel)[..|base|] == base;
    assert HasChildren(fs', base);
    assert t2 !in fs';
    DoneIntact(fs', base, e);
    CheckIntact(src, fs', base);
    RestoreFilesExisting(src, fs', now2, t2, base);
  }

  // ---------------------------------------------------------------------
  // execCmd and main

  /** The syscall.Exec call the launcher ends in. */
  datatype ExecCall = ExecCall(path: Path, argv: seq<string>, env: seq<string>)

  /** execCmd: the command below the bin directory, argv[0] its path, then
      the arguments, and the environment unchanged. */
  function ExecFor(binDir: Path, cmd: string, args: seq<string>, env: seq<string>): (r: ExecCall)
    ensures |r.argv| == |args| + 1 && r.argv[0] == Render(r.path) && r.argv[1..] == args && r.env == env
    ensures Clean(binDir) && ProperName(cmd) ==> r.path == binDir + [cmd] && Base(r.argv[0]) == cmd
  {
    var path := Join(binDir, cmd);
    ProperCommand(binDir, cmd);
    var argv := [Render(path)] + args;
    assert argv[1..] == args;
    ExecCall(path, argv, env)
  }

  /** A plain command name lands directly below the bin directory and is
      the base name of its own path. */
  lemma ProperCommand(binDir: Path, cmd: string)
    ensures Clean(binDir) && ProperName(cmd) ==> Join(binDir, cmd) == binDir + [cmd] && Base(Render(Join(binDir, cmd))) == cmd
  {
    if Clean(binDir) && ProperName(cmd) {
      JoinProper(binDir, cmd);
      BaseOfRender(binDir + [cmd]);
    }
  }

  /** How a run of the launcher ends. */
  datatype Ending =
    /** the process exits with `code`; `reason` is what errorExit printed */
    | Exited(code: int, reason: Option<Error>)
    /** the process image is replaced by `call` */
    | Exec(call: ExecCall)

  /** main, on the disk: initDirs, parseArgs, then the dispatch. */
  function RunFs(src: Source, fs: FileSystem, now: int, home: Path, version: string,
                 argv0: string, tail: seq<string>, env: seq<string>, temp: Path): (FileSystem, Ending)
  {
    var (fs1, e1) := InitDirsFs(fs, home);
    if e1.Some? then (fs1, Exited(1, Some(Os(e1.value))))
    else
      match ParseArgs(argv0, tail)
      case ShowVersion => (fs1, Exited(0, None))
      case ShowUsage(_, code) => (fs1, Exited(code, None))
      case FlagFailure(_, _) => (fs1, Exited(2, None))
      case Dispatch(cmd, args) =>
        DispatchFs(src, fs1, now, temp, BaseDirOf(home, version), ExecFor(BinDirOf(home, version), cmd, args, env))
  }

  /** The end of main for a command: checkFilesInfo and, when it fails,
      restoreFiles, then the exec `call`. An errorExit inside the check
      ends the process at once. */
  function DispatchFs(src: Source, fs: FileSystem, now: int, temp: Path, base: Path, call: ExecCall): (FileSystem, Ending) {
    match CheckFs(src, fs, base)
    case None => (fs, Exec(call))
    case Some(e) =>
      if e.Exit? then (fs, Exited(1, Some(e)))
      else
        var (fs2, e2) := RestoreFilesFs(src, fs, now, temp, base);
        if e2.Some? then (fs2, Exited(1, Some(e2.value))) else (fs2, Exec(call))
  }

  /** A dispatch ends in the exec only with a version directory that passes
      the check, and then with the call it was given. */
  lemma DispatchChecked(src: Source, fs: FileSystem, now: int, temp: Path, base: Path, call: ExecCall)
    requires ValidSource(src) && Apart(temp, base)
    ensures var (fs', end) := DispatchFs(src, fs, now, temp, base, call);
      end.Exec? ==> end.call == call && CheckFs(src, fs', base).None?
  {
    if CheckFs(src, fs, base).Some? {
      RestoreFilesChecked(src, fs, now, temp, base);
    }
  }

  /** Dispatching with the version directory intact writes nothing and execs. */
  lemma DispatchCached(src: Source, fs: FileSystem, now: int, temp: Path, base: Path, call: ExecCall)
    requires ValidSource(src) && Intact(fs, base, src.root.value)
    ensures DispatchFs(src, fs, now, temp, base, call) == (fs, Exec(call))
  {
    CheckIntact(src, fs, base);
  }

  /** Dispatching with the version directory missing below an existing
      directory unpacks every file of the source there, keeps every node,
      adds nothing elsewhere, and execs. */
  lemma DispatchFresh(src: Source, fs: FileSystem, now: int, temp: Path, base: Path, call: ExecCall)
    requires ValidSource(src) && IsTree(fs)
    requires temp !in fs && temp != [] && Parent(temp) in fs && fs[Parent(temp)] == Dir
    requires base !in fs && base != [] && Parent(base) in fs && fs[Parent(base)] == Dir
    requires Apart(temp, base)
    ensures var (fs', end) := DispatchFs(src, fs, now, temp, base, call);
      && end == Exec(call) && IsTree(fs')
      && Done(fs', base, src.root.value)
      && (forall q :: q in fs ==> q in fs' && fs'[q] == fs[q])
      && (forall q :: q in fs' && q !in fs ==> base <= q)
  {
    var e := src.root.value;
    if CheckFs(src, fs, base).None? {
      CheckIntact(src, fs, base);
      NothingBelowMissing(fs, base);
    } else {
      CheckNeverExits(src, fs, base);
      RestoreFilesFresh(src, fs, now, temp, base);
    }
  }

  /** With the version directory intact, a run writes nothing but the
      layout and execs the command from the bin directory. */
  lemma RunCached(src: Source, fs: FileSystem, now: int, home: Path, version: string,
                  argv0: string, tail: seq<string>, env: seq<string>, temp: Path)
    requires ValidSource(src) && IsTree(fs)
    requires InitDirsFs(fs, home).1.None?
    requires Intact(InitDirsFs(fs, home).0, BaseDirOf(home, version), src.root.value)
    requires ParseArgs(argv0, tail).Dispatch?
    ensures var r := ParseArgs(argv0, tail);
      RunFs(src, fs, now, home, version, argv0, tail, env, temp) ==
        (InitDirsFs(fs, home).0, Exec(ExecFor(BinDirOf(home, version), r.cmd, r.args, env)))
  {
    var r := ParseArgs(argv0, tail);
    DispatchCached(src, InitDirsFs(fs, home).0, now, temp, BaseDirOf(home, version), ExecFor(BinDirOf(home, version), r.cmd, r.args, env));
  }

  /** The first run of a version on a home directory without a file in the
      way: it unpacks every file of the source into the version directory,
      touches nothing outside the layout, and execs the command. */
  lemma RunFirstTime(src: Source, fs: FileSystem, now: int, home: Path, version: string,
                     argv0: string, tail: seq<string>, env: seq<string>, temp: Path)
    requires ValidSource(src) && IsTree(fs) && ProperName(version)
    requires NoFileOnPath(fs, VersionsDirOf(home)) && BaseDirOf(home, version) !in fs
    requires temp !in fs && temp != [] && Parent(temp) in fs && fs[Parent(temp)] == Dir
    requires Apart(temp, BaseDirOf(home, version))
    requires ParseArgs(argv0, tail).Dispatch?
    ensures var r := ParseArgs(argv0, tail);
      var (fs', end) := RunFs(src, fs, now, home, version, argv0, tail, env, temp);
      && end == Exec(ExecFor(BinDirOf(home, version), r.cmd, r.args, env))
      && Done(fs', BaseDirOf(home, version), src.root.value)
      && IsTree(fs')
      && (forall q :: q in fs ==> q in fs' && fs'[q] == fs[q])
      && (forall q :: q in fs' && q !in fs ==> q <= VersionsDirOf(home) || BaseDirOf(home, version) <= q)
  {
    var r := ParseArgs(argv0, tail);
    var base := BaseDirOf(home, version);
    var call := ExecFor(BinDirOf(home, version), r.cmd, r.args, env);
    InitDirsEffect(fs, home);
    Layout(home, version);
    var fs1 := InitDirsFs(fs, home).0;
    assert RunFs(src, fs, now, home, version, argv0, tail, env, temp) == DispatchFs(src, fs1, now, temp, base, call);
    assert base !in fs1;
    assert temp !in fs1;
    DispatchFresh(src, fs1, now, temp, base, call);
  }

  // ---------------------------------------------------------------------
  // The launcher's state

  /** The package variables of sushibox.go over one disk: the home
      directory and Version are fixed, the four directories are set by
      initDirs. */
  class Launcher {
    const home: Path
    const version: string
    const src: Source
    const disk: Disk
    var sushiBoxDir: Path
    var versionsDir: Path
    var baseDir: Path
    var binDir: Path

    constructor (home: Path, version: string, src: Source, disk: Disk)
      ensures this.home == home && this.version == version && this.src == src && this.disk == disk
      ensures sushiBoxDir == [] && versionsDir == [] && baseDir == [] && binDir == []
    {
      this.home := home;
      this.version := version;
      this.src := src;
      this.disk := disk;
      sushiBoxDir, versionsDir, baseDir, binDir := [], [], [], [];
    }

    method InitDirs() returns (err: Option<FsError>)
      requires disk.Valid()
      modifies this, disk
      ensures (disk.nodes, err) == InitDirsFs(old(disk.nodes), home) && disk.Valid()
      ensures sushiBoxDir == SushiBoxDirOf(home) && versionsDir == VersionsDirOf(home)
      ensures err.None? ==> baseDir == BaseDirOf(home, version) && binDir == BinDirOf(home, version)
      ensures err.Some? ==> baseDir == old(baseDir) && binDir == old(binDir)
    {
      sushiBoxDir := SushiBoxDirOf(home);
      versionsDir := VersionsDirOf(home);
      err := disk.MkdirAll(sushiBoxDir);
      if err.Some? {
        return;
      }
      err := disk.MkdirAll(versionsDir);
      if err.Some? {
        return;
      }
      baseDir := BaseDirOf(home, version);
      binDir := BinDirOf(home, version);
    }

    method CheckFilesInfo() returns (err: Option<Error>)
      ensures err == CheckFs(src, disk.nodes, baseDir)
    {
      var names := AssetNames(src);
      if names.Failure? {
        return Some(names.error);
      }
      var list := names.value;
      var i := 0;
      while i < |list|
        invariant 0 <= i <= |list|
        invariant CheckNames(src, disk.nodes, baseDir, list[i..]) == CheckFs(src, disk.nodes, baseDir)
      {
        assert list[i..][1..] == list[i + 1..];
        var asset := AssetInfo(src, list[i]);
        if asset.Failure? {
          return Some(asset.error);
        }
        var path := Join(baseDir, list[i]);
        var found := disk.Stat(path);
        if found.Failure? {
          return Some(Os(found.error));
        }
        if asset.value.size != found.value.size {
          return Some(SizeDiffers(path));
        }
        if asset.value.mode != found.value.mode {
          return Some(ModeDiffers(path));
        }
        if asset.value.mtime != found.value.mtime {
          return Some(MtimeDiffers(path));
        }
        i := i + 1;
      }
      return None;
    }

    /** `temp` is the fresh name ioutil.TempDir chose. */
    method RestoreFiles(temp: Path) returns (err: Option<Error>)
      requires disk.Valid()
      modifies disk
      ensures (disk.nodes, err) == RestoreFilesFs(src, old(disk.nodes), disk.clock, temp, baseDir)
      ensures disk.Valid()
    {
      var e := disk.Mkdir(temp);
      if e.Some? {
        return Some(Os(e.value));
      }
      err := RestoreAssets(src, disk, temp, "");
      if err.Some? {
        disk.RemoveAll(temp);
        return;
      }
      e := disk.Rename(temp, baseDir);
      if e.Some? && e.value.IsNotExist() {
        disk.RemoveAll(temp);
        return Some(Os(e.value));
      }
      err := CheckFilesInfo();
      if err.Some? && err.value.Exit? {
        return;
      }
      disk.RemoveAll(temp);
    }

    method ExecCmd(cmd: string, args: seq<string>, env: seq<string>) returns (call: ExecCall)
      ensures call == ExecFor(binDir, cmd, args, env)
    {
      var cmdPath := Join(binDir, cmd);
      var argv := [Render(cmdPath)] + args;
      call := ExecCall(cmdPath, argv, env);
    }

    /** main; `env` is os.Environ() and `temp` the name TempDir would choose. */
    method Run(argv0: string, tail: seq<string>, env: seq<string>, temp: Path) returns (end: Ending)
      requires disk.Valid()
      modifies this, disk
      ensures (disk.nodes, end) == RunFs(src, old(disk.nodes), disk.clock, home, version, argv0, tail, env, temp)
      ensures disk.Valid()
      ensures sushiBoxDir == SushiBoxDirOf(home) && versionsDir == VersionsDirOf(home)
      ensures InitDirsFs(old(disk.nodes), home).1.None? ==> baseDir == BaseDirOf(home, version) && binDir == BinDirOf(home, version)
      ensures InitDirsFs(old(disk.nodes), home).1.Some? ==> baseDir == old(baseDir) && binDir == old(binDir)
    {
      var e := InitDirs();
      if e.Some? {
        return Exited(1, Some(Os(e.value)));
      }
      var cmd: string, args: seq<string>;
      match ParseArgs(argv0, tail) {
        case ShowVersion => return Exited(0, None);
        case ShowUsage(_, code) => return Exited(code, None);
        case FlagFailure(_, _) => return Exited(2, None);
        case Dispatch(c, a) => cmd, args := c, a;
      }
      end := Dispatch(cmd, args, env, temp);
    }

    /** The end of main for a command: check, restore when the check
        fails, then exec. */
    method Dispatch(cmd: string, args: seq<string>, env: seq<string>, temp: Path) returns (end: Ending)
      requires disk.Valid()
      modifies disk
      ensures (disk.nodes, end) == DispatchFs(src, old(disk.nodes), disk.clock, temp, baseDir, ExecFor(binDir, cmd, args, env))
      ensures disk.Valid()
    {
      var err := CheckFilesInfo();
      if err.Some? {
        if err.value.Exit? {
          return Exited(1, err);
        }
        err := RestoreFiles(temp);
        if err.Some? {
          return Exited(1, err);
        }
      }
      var call := ExecCmd(cmd, args, env);
      return Exec(call);
    }
  }
}
