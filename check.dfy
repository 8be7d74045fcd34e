/** What checkFilesInfo (sushibox.go) decides: for every name AssetNames
    lists, in order, it compares the asset's size, mode and modification
    time with os.Stat of the same name below the version directory, and
    returns the first disagreement. File contents are never read. */
module Check {
  import opened Wrappers
  import opened Paths
  import opened Fs
  import opened Errors
  import opened Assets

  /** A source the launcher can restore: a directory holding a well-formed tree. */
  predicate ValidSource(src: Source) {
    src.Src? && src.root.Some? && src.root.value.DirEntry? && WellFormed(src.root.value)
  }

  /** The three fields checkFilesInfo compares. */
  predicate Matches(found: Info, asset: Info) {
    found.size == asset.size && found.mode == asset.mode && found.mtime == asset.mtime
  }

  /** One turn of the loop: None when the file at filepath.Join(base, name)
      agrees with the asset, otherwise the error the loop returns. */
  function CheckOne(src: Source, fs: FileSystem, base: Path, name: string): Option<Error> {
    match AssetInfo(src, name)
    case Failure(e) => Some(e)
    case Success(asset) =>
      var path := Join(base, name);
      match StatFs(fs, path)
      case Failure(e) => Some(Os(e))
      case Success(found) =>
        if asset.size != found.size then Some(SizeDiffers(path))
        else if asset.mode != found.mode then Some(ModeDiffers(path))
        else if asset.mtime != found.mtime then Some(MtimeDiffers(path))
        else None
  }

  /** The loop over `names`: it passes when every turn passes, and
      otherwise returns the error of the first turn that fails. */
  function CheckNames(src: Source, fs: FileSystem, base: Path, names: seq<string>): (r: Option<Error>)
    ensures r.None? <==> forall i :: 0 <= i < |names| ==> CheckOne(src, fs, base, names[i]).None?
    decreases |names|
  {
    if names == [] then None
    else
      var e := CheckOne(src, fs, base, names[0]);
      if e.Some? then e
      else
        var r := CheckNames(src, fs, base, names[1..]);
        assert forall i :: 0 < i < |names| ==> names[i] == names[1..][i - 1];
        r
  }

  /** A failing loop returns the error of its first failing turn. */
  lemma {:induction false} CheckNamesFirst(src: Source, fs: FileSystem, base: Path, names: seq<string>)
    requires CheckNames(src, fs, base, names).Some?
    ensures exists i :: 0 <= i < |names| && CheckNames(src, fs, base, names) == CheckOne(src, fs, base, names[i]) &&
                        forall k :: 0 <= k < i ==> CheckOne(src, fs, base, names[k]).None?
    decreases |names|
  {
    if CheckOne(src, fs, base, names[0]).None? {
      CheckNamesFirst(src, fs, base, names[1..]);
      var i :| 0 <= i < |names[1..]| && CheckNames(src, fs, base, names[1..]) == CheckOne(src, fs, base, names[1..][i]) &&
               forall k :: 0 <= k < i ==> CheckOne(src, fs, base, names[1..][k]).None?;
      assert forall k :: 0 < k <= i ==> names[k] == names[1..][k - 1];
      assert names[i + 1] == names[1..][i];
    }
  }

  /** checkFilesInfo: AssetNames (whose failures end the process), then the loop. */
  function CheckFs(src: Source, fs: FileSystem, base: Path): Option<Error> {
    match AssetNames(src)
    case Failure(e) => Some(e)
    case Success(names) => CheckNames(src, fs, base, names)
  }

  /** Every regular file of `e` has a node at its place below `base` whose
      size, mode and modification time are the file's. */
  ghost predicate Intact(fs: FileSystem, base: Path, e: Entry) {
    forall rel :: IsFileAt(e, rel) ==>
      base + rel in fs && Matches(InfoOf(fs[base + rel]), EntryInfo(LookupIn(e, rel).value))
  }

  /** `fs1` and `fs2` hold the same nodes everywhere except at or below `t`. */
  ghost predicate AgreeOutside(fs1: FileSystem, fs2: FileSystem, t: Path) {
    forall q :: !(t <= q) ==> (q in fs1 <==> q in fs2) && (q in fs1 ==> fs1[q] == fs2[q])
  }

  /** Neither path lies at or below the other. */
  predicate Apart(a: Path, b: Path) {
    !(a <= b) && !(b <= a)
  }

  // ---------------------------------------------------------------------
  // The check compares exactly the metadata of the source's files

  /** The i-th listed name is the regular file at `rel` below the source
      directory, and its turn of the loop passes exactly when the node at
      `base + rel` matches it. */
  lemma CheckOneAt(src: Source, fs: FileSystem, base: Path, i: int)
    requires ValidSource(src) && 0 <= i < |AssetNames(src).value|
    ensures var w := Walk(src.root.value, src.dir)[i];
      src.dir <= w && var rel := w[|src.dir|..];
      && src.dir + rel == w && IsFileAt(src.root.value, rel)
      && Join(base, AssetNames(src).value[i]) == base + rel
      && (CheckOne(src, fs, base, AssetNames(src).value[i]).None? <==>
            base + rel in fs && Matches(InfoOf(fs[base + rel]), EntryInfo(LookupIn(src.root.value, rel).value)))
  {
    var e := src.root.value;
    var w := Walk(e, src.dir);
    var name := AssetNames(src).value[i];
    AssetsOfNames(src, i);
    assert w[i] in w;
    WalkFiles(e, src.dir, w[i]);
    var rel := w[i][|src.dir|..];
    assert src.dir + rel == w[i];
    assert name == RelativeTo(src.dir, src.dir + rel);
    JoinOfRelative(base, src.dir, rel);
  }

  /** The check passes exactly when every file of the source is intact
      below `base`. */
  lemma CheckIntact(src: Source, fs: FileSystem, base: Path)
    requires ValidSource(src)
    ensures CheckFs(src, fs, base).None? <==> Intact(fs, base, src.root.value)
  {
    var e := src.root.value;
    var w := Walk(e, src.dir);
    var names := AssetNames(src).value;
    if CheckFs(src, fs, base).None? {
      forall rel | IsFileAt(e, rel)
        ensures base + rel in fs && Matches(InfoOf(fs[base + rel]), EntryInfo(LookupIn(e, rel).value))
      {
        WalkComplete(e, src.dir, rel);
        var i :| 0 <= i < |w| && w[i] == src.dir + rel;
        CheckOneAt(src, fs, base, i);
        assert w[i][|src.dir|..] == rel;
      }
    }
    if Intact(fs, base, e) {
      forall i | 0 <= i < |names| ensures CheckOne(src, fs, base, names[i]).None? {
        CheckOneAt(src, fs, base, i);
      }
    }
  }

  /** A listed file missing below `base`, with no regular file on the way
      to it, makes its turn fail with the not-exist error of os.Stat. */
  lemma CheckOneMissing(src: Source, fs: FileSystem, base: Path, i: int)
    requires ValidSource(src) && 0 <= i < |AssetNames(src).value|
    requires var w := Walk(src.root.value, src.dir)[i];
      src.dir <= w && base + w[|src.dir|..] !in fs && NoFileOnPath(fs, base + w[|src.dir|..])
    ensures var p := base + Walk(src.root.value, src.dir)[i][|src.dir|..];
      CheckOne(src, fs, base, AssetNames(src).value[i]) == Some(Os(FsError(ENOENT, p)))
  {
    CheckOneAt(src, fs, base, i);
    AssetsOfNames(src, i);
    var w := Walk(src.root.value, src.dir)[i];
    StatMissing(fs, base + w[|src.dir|..]);
  }

  /** Files holding the source's bytes, mode and time pass the check. */
  lemma DoneIntact(fs: FileSystem, base: Path, e: Entry)
    requires forall rel :: IsFileAt(e, rel) ==> base + rel in fs && fs[base + rel] == NodeOf(LookupIn(e, rel).value)
    ensures Intact(fs, base, e)
  {
  }

  /** A file of the source cut short below `base` makes the check fail. */
  lemma TruncationDetected(src: Source, fs: FileSystem, base: Path, rel: Path, k: nat)
    requires ValidSource(src) && Intact(fs, base, src.root.value) && IsFileAt(src.root.value, rel)
    requires fs[base + rel].File? && k < |fs[base + rel].data|
    ensures var f := fs[base + rel];
      CheckFs(src, fs[base + rel := File(f.data[..k], f.mode, f.mtime)], base).Some?
  {
    var f := fs[base + rel];
    var fs' := fs[base + rel := File(f.data[..k], f.mode, f.mtime)];
    CheckIntact(src, fs', base);
    assert InfoOf(fs'[base + rel]).size == k;
    assert !Intact(fs', base, src.root.value);
  }

  // ---------------------------------------------------------------------
  // The check sees only the metadata of the paths it looks at

  /** Stat sees only which paths exist and their Info. */
  lemma {:induction false} StatSameInfo(fs1: FileSystem, fs2: FileSystem, p: Path)
    requires forall q :: q in fs1 <==> q in fs2
    requires forall q :: q in fs1 ==> InfoOf(fs1[q]) == InfoOf(fs2[q])
    ensures StatFs(fs1, p) == StatFs(fs2, p)
    decreases |p|
  {
    if p !in fs1 && p != [] {
      StatSameInfo(fs1, fs2, Parent(p));
    }
  }

  lemma {:induction false} CheckNamesAgree(src: Source, fs1: FileSystem, fs2: FileSystem, base: Path, names: seq<string>)
    requires forall i :: 0 <= i < |names| ==> CheckOne(src, fs1, base, names[i]) == CheckOne(src, fs2, base, names[i])
    ensures CheckNames(src, fs1, base, names) == CheckNames(src, fs2, base, names)
    decreases |names|
  {
    if names != [] {
      assert forall i :: 0 < i < |names| ==> names[i] == names[1..][i - 1];
      CheckNamesAgree(src, fs1, fs2, base, names[1..]);
    }
  }

  /** Rewriting a file with other bytes of the same length leaves the
      verdict as it was: the check never reads contents. */
  lemma CheckIgnoresContents(src: Source, fs: FileSystem, base: Path, q: Path, data: seq<Byte>)
    requires q in fs && fs[q].File? && |data| == |fs[q].data|
    ensures CheckFs(src, fs[q := fs[q].(data := data)], base) == CheckFs(src, fs, base)
  {
    var fs' := fs[q := fs[q].(data := data)];
    forall p ensures StatFs(fs', p) == StatFs(fs, p) {
      StatSameInfo(fs', fs, p);
    }
    if AssetNames(src).Success? {
      CheckNamesAgree(src, fs', fs, base, AssetNames(src).value);
    }
  }

  /** A path that starts with `base` is not at or below a path apart from `base`. */
  lemma ApartPrefix(t: Path, base: Path, p: Path, k: nat)
    requires Apart(t, base) && k <= |base + p|
    ensures !(t <= (base + p)[..k])
  {
    var s := base + p;
    PrefixesComparable(t, base, s);
  }

  /** Two prefixes of one path are prefixes of each other. */
  lemma PrefixesComparable(a: Path, b: Path, s: Path)
    ensures a <= s && b <= s ==> a <= b || b <= a
  {
    if a <= s && b <= s && |a| <= |b| {
      assert a == s[..|a|] == b[..|a|];
    }
  }

  /** Changes at or below a path apart from `base` do not change the verdict. */
  lemma CheckLocal(src: Source, fs1: FileSystem, fs2: FileSystem, base: Path, t: Path)
    requires ValidSource(src) && Apart(t, base) && AgreeOutside(fs1, fs2, t)
    ensures CheckFs(src, fs1, base) == CheckFs(src, fs2, base)
  {
    var names := AssetNames(src).value;
    forall i | 0 <= i < |names|
      ensures CheckOne(src, fs1, base, names[i]) == CheckOne(src, fs2, base, names[i])
    {
      CheckOneAt(src, fs1, base, i);
      var w := Walk(src.root.value, src.dir)[i];
      var p := base + w[|src.dir|..];
      forall k | 0 <= k <= |p| ensures !(t <= p[..k]) {
        ApartPrefix(t, base, w[|src.dir|..], k);
      }
      StatLocal(fs1, fs2, p);
    }
    CheckNamesAgree(src, fs1, fs2, base, names);
  }
}
