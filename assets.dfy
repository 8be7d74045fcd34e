/** The asset accessors of sushibox/mock.go: Asset, AssetInfo, AssetNames
    and AssetDir read the source tree named by SUSHIBOX_MOCK.

    The source tree is an immutable value: the launcher only ever reads it.
    A directory lists its children in the order ioutil.ReadDir and
    filepath.Walk visit them (sorted by name), and a child's name is what a
    directory listing can hold: non-empty, not "." or "..", without '/'. */
module Assets {
  import opened Wrappers
  import opened Paths
  import opened Fs
  import opened Errors

  /** A directory entry's name. */
  type Name = s: string | ProperName(s) witness "a"

  /** The FileMode of a regular file never carries the directory bit. */
  type FileMode = m: int | 0 <= m < ModeDir

  datatype Entry =
    | FileEntry(data: seq<Byte>, mode: FileMode, mtime: int)
    | DirEntry(children: seq<Child>)

  datatype Child = Child(name: Name, entry: Entry)

  /** SUSHIBOX_MOCK: unset (the empty string), or a cleaned absolute
      directory together with what is found there (None: nothing). */
  datatype Source = Unset | Src(dir: Path, root: Option<Entry>)

  function NodeOf(e: Entry): (n: Node)
    ensures n == Dir <==> e.DirEntry?
  {
    match e
    case FileEntry(data, mode, mtime) => File(data, mode, mtime)
    case DirEntry(_) => Dir
  }

  /** What os.Stat reports for an entry of the source tree. */
  function EntryInfo(e: Entry): (i: Info)
    ensures e.FileEntry? ==> i == Info(|e.data|, e.mode, e.mtime, false)
    ensures e.DirEntry? ==> i.isDir
  {
    InfoOf(NodeOf(e))
  }

  /** A tree whose siblings have distinct names and whose names hold no
      backslash, at every level. */
  predicate WellFormed(e: Entry)
    decreases e
  {
    match e
    case FileEntry(_, _, _) => true
    case DirEntry(cs) =>
      && (forall i, j :: 0 <= i < j < |cs| ==> cs[i].name != cs[j].name)
      && (forall i :: 0 <= i < |cs| ==> Backslash !in cs[i].name && WellFormed(cs[i].entry))
  }

  // ---------------------------------------------------------------------
  // Looking paths up in the source tree

  /** The first child called `n`. */
  function Find(cs: seq<Child>, n: string): (r: Option<Entry>)
    ensures r.None? <==> forall i :: 0 <= i < |cs| ==> cs[i].name != n
    ensures r.Some? ==> exists i :: 0 <= i < |cs| && cs[i].name == n && cs[i].entry == r.value
    decreases |cs|
  {
    if cs == [] then None
    else if cs[0].name == n then Some(cs[0].entry)
    else
      var r := Find(cs[1..], n);
      assert r.Some? ==> exists i :: 0 <= i < |cs| && cs[i].name == n && cs[i].entry == r.value by {
        if r.Some? {
          var i :| 0 <= i < |cs[1..]| && cs[1..][i].name == n && cs[1..][i].entry == r.value;
          assert cs[i + 1] == cs[1..][i];
        }
      }
      assert r.None? ==> forall i :: 0 <= i < |cs| ==> cs[i].name != n by {
        if r.None? {
          forall i | 0 <= i < |cs| ensures cs[i].name != n {
            if i > 0 { assert cs[i] == cs[1..][i - 1]; }
          }
        }
      }
      r
  }

  /** os.Stat of the components `rel` below entry `e`: ENOTDIR when the
      walk meets a regular file, ENOENT when a name is missing. */
  function LookupIn(e: Entry, rel: Path): (r: Result<Entry, Errno>)
    ensures r.Failure? ==> rel != [] && (r.error == ENOTDIR || r.error == ENOENT)
    decreases |rel|
  {
    if rel == [] then Success(e)
    else match e
      case FileEntry(_, _, _) => Failure(ENOTDIR)
      case DirEntry(cs) =>
        match Find(cs, rel[0])
        case None => Failure(ENOENT)
        case Some(c) => LookupIn(c, rel[1..])
  }

  /** os.Stat of an absolute path against the source: only what lies at or
      below the source directory is seen. */
  function Lookup(src: Source, p: Path): (r: Result<Entry, Errno>)
    requires src.Src?
    ensures r.Success? ==> src.root.Some? && src.dir <= p
    ensures src.root.Some? && src.dir <= p ==> r == LookupIn(src.root.value, p[|src.dir|..])
  {
    if src.root.None? || !(src.dir <= p) then Failure(ENOENT)
    else LookupIn(src.root.value, p[|src.dir|..])
  }

  predicate IsFileAt(e: Entry, rel: Path) {
    LookupIn(e, rel).Success? && LookupIn(e, rel).value.FileEntry?
  }

  // ---------------------------------------------------------------------
  // Asset and AssetInfo

  /** Asset(name): the bytes of the file at filepath.Join(mockDir, name). */
  function Asset(src: Source, name: string): (r: Result<seq<Byte>, Error>)
    ensures src.Unset? ==> r == Failure(MockUnset)
    ensures src.Src? ==>
      var found := Lookup(src, Join(src.dir, name));
      && (r.Success? <==> found.Success? && found.value.FileEntry?)
      && (r.Success? ==> r.value == found.value.data)
      && (r.Failure? ==> r.error.ReadAssetFailed? && r.error.name == name && r.error.path == Join(src.dir, name))
  {
    if src.Unset? then Failure(MockUnset)
    else
      var path := Join(src.dir, name);
      match Lookup(src, path)
      case Failure(errno) => Failure(ReadAssetFailed(name, path, errno))
      case Success(FileEntry(data, _, _)) => Success(data)
      case Success(DirEntry(_)) => Failure(ReadAssetFailed(name, path, EISDIR))
  }

  /** AssetInfo(name): os.Stat of filepath.Join(mockDir, name). */
  function AssetInfo(src: Source, name: string): (r: Result<Info, Error>)
    ensures src.Unset? ==> r == Failure(MockUnset)
    ensures src.Src? ==>
      var found := Lookup(src, Join(src.dir, name));
      && (r.Success? <==> found.Success?)
      && (r.Success? ==> r.value == EntryInfo(found.value))
      && (r.Failure? ==> r.error == AssetInfoFailed(name, Join(src.dir, name), found.error))
  {
    if src.Unset? then Failure(MockUnset)
    else
      var path := Join(src.dir, name);
      match Lookup(src, path)
      case Failure(errno) => Failure(AssetInfoFailed(name, path, errno))
      case Success(e) => Success(EntryInfo(e))
  }

  // ---------------------------------------------------------------------
  // AssetNames: filepath.Walk over the source

  /** The paths filepath.Walk hands to its callback that are not
      directories, in visiting order; `at` is the path of `e`. */
  function Walk(e: Entry, at: Path): seq<Path>
    decreases e, 1
  {
    match e
    case FileEntry(_, _, _) => [at]
    case DirEntry(cs) => WalkChildren(cs, at)
  }

  function WalkChildren(cs: seq<Child>, at: Path): seq<Path>
    decreases cs, 0
  {
    if cs == [] then [] else Walk(cs[0].entry, at + [cs[0].name]) + WalkChildren(cs[1..], at)
  }

  /** AssetNames(): every non-directory path of the walk, relative to the
      source directory. An unset source, or nothing at the source directory
      (the walk's lstat fails), ends the process through errorExit. */
  function AssetNames(src: Source): (r: Result<seq<string>, Error>)
    ensures src.Unset? ==> r == Failure(Exit(MockUnset))
    ensures src.Src? && src.root.None? ==> r == Failure(Exit(Os(FsError(ENOENT, src.dir))))
    ensures r.Success? <==> src.Src? && src.root.Some?
    ensures r.Success? ==> |r.value| == |Walk(src.root.value, src.dir)|
  {
    if src.Unset? then Failure(Exit(MockUnset))
    else if src.root.None? then Failure(Exit(Os(FsError(ENOENT, src.dir))))
    else
      var w := Walk(src.root.value, src.dir);
      Success(seq(|w|, i requires 0 <= i < |w| => RelativeTo(src.dir, w[i])))
  }

  // ---------------------------------------------------------------------
  // AssetDir

  /** AssetDir(name): the names ioutil.ReadDir lists for the directory at
      filepath.Join(mockDir, name), each with "mockDir/" trimmed off. */
  function AssetDirSpec(src: Source, name: string): Result<seq<string>, Error> {
    if src.Unset? then Failure(NoWorkingDirectory(name))
    else
      var path := Join(src.dir, name);
      match Lookup(src, path)
      case Failure(errno) => Failure(Os(FsError(errno, path)))
      case Success(FileEntry(_, _, _)) => Failure(NotADirectory(path))
      case Success(DirEntry(cs)) =>
        Success(seq(|cs|, i requires 0 <= i < |cs| => TrimPrefix(cs[i].name, Render(src.dir) + [Slash])))
  }

  method AssetDir(src: Source, name: string) returns (r: Result<seq<string>, Error>)
    ensures r == AssetDirSpec(src, name)
  {
    if src.Unset? {
      return Failure(NoWorkingDirectory(name));
    }
    var path := Join(src.dir, name);
    var info := Lookup(src, path);
    if info.Failure? {
      return Failure(Os(FsError(info.error, path)));
    }
    if info.value.FileEntry? {
      return Failure(NotADirectory(path));
    }
    var list := info.value.children;
    var prefix := Render(src.dir) + [Slash];
    var names: seq<string> := [];
    var i := 0;
    while i < |list|
      invariant 0 <= i <= |list|
      invariant names == seq(i, k requires 0 <= k < i => TrimPrefix(list[k].name, prefix))
    {
      names := names + [TrimPrefix(list[i].name, prefix)];
      i := i + 1;
    }
    return Success(names);
  }

  // ---------------------------------------------------------------------
  // Properties

  /** Among distinct siblings a child's name finds that child. */
  lemma FindDistinct(cs: seq<Child>, j: int)
    requires 0 <= j < |cs|
    requires forall i, k :: 0 <= i < k < |cs| ==> cs[i].name != cs[k].name
    ensures Find(cs, cs[j].name) == Some(cs[j].entry)
  {
    var r := Find(cs, cs[j].name);
    var i :| 0 <= i < |cs| && cs[i].name == cs[j].name && cs[i].entry == r.value;
    assert i == j;
  }

  /** Looking up below a directory goes through the named child. */
  lemma LookupChild(cs: seq<Child>, j: int, rel: Path)
    requires 0 <= j < |cs|
    requires forall i, k :: 0 <= i < k < |cs| ==> cs[i].name != cs[k].name
    ensures LookupIn(DirEntry(cs), [cs[j].name] + rel) == LookupIn(cs[j].entry, rel)
  {
    FindDistinct(cs, j);
    assert ([cs[j].name] + rel)[1..] == rel;
  }

  /** Looking one component deeper continues from what the shorter path found. */
  lemma {:induction false} LookupSnoc(e: Entry, rel: Path, c: string)
    requires LookupIn(e, rel).Success?
    ensures LookupIn(e, rel + [c]) == LookupIn(LookupIn(e, rel).value, [c])
    decreases |rel|
  {
    if rel != [] {
      assert (rel + [c])[0] == rel[0] && (rel + [c])[1..] == rel[1..] + [c];
      var f := Find(e.children, rel[0]);
      LookupSnoc(f.value, rel[1..], c);
    }
  }

  /** A path of the walk of the children is a path of the walk of one child. */
  lemma {:induction false} WalkChildrenMember(cs: seq<Child>, at: Path, w: Path)
    ensures w in WalkChildren(cs, at) <==>
      exists j :: 0 <= j < |cs| && w in Walk(cs[j].entry, at + [cs[j].name])
    decreases |cs|
  {
    if cs != [] {
      WalkChildrenMember(cs[1..], at, w);
      if w in WalkChildren(cs[1..], at) {
        var j :| 0 <= j < |cs[1..]| && w in Walk(cs[1..][j].entry, at + [cs[1..][j].name]);
        assert cs[j + 1] == cs[1..][j];
      }
      if exists j :: 0 <= j < |cs| && w in Walk(cs[j].entry, at + [cs[j].name]) {
        var j :| 0 <= j < |cs| && w in Walk(cs[j].entry, at + [cs[j].name]);
        if j > 0 { assert cs[j] == cs[1..][j - 1]; }
      }
    }
  }

  /** Every path of the walk lies below its start, by clean components, and
      names a regular file of the tree; below a directory it is longer. */
  lemma {:induction false} WalkFiles(e: Entry, at: Path, w: Path)
    requires WellFormed(e) && w in Walk(e, at)
    ensures at <= w && Clean(w[|at|..]) && IsFileAt(e, w[|at|..])
    ensures e.DirEntry? ==> |w| > |at|
    ensures forall i :: 0 <= i < |w[|at|..]| ==> Backslash !in w[|at|..][i]
    decreases e
  {
    match e
    case FileEntry(_, _, _) =>
      assert w == at;
      assert w[|at|..] == [];
    case DirEntry(cs) =>
      WalkChildrenMember(cs, at, w);
      var j :| 0 <= j < |cs| && w in Walk(cs[j].entry, at + [cs[j].name]);
      var at' := at + [cs[j].name];
      WalkFiles(cs[j].entry, at', w);
      var r := w[|at'|..];
      assert w == at + [cs[j].name] + r;
      StepDown(at, cs[j].name, r);
      LookupChild(cs, j, r);
  }

  /** Putting a backslash-free name in front of a clean, backslash-free
      path keeps it so, and it is what follows `at` in `at + [n] + r`. */
  lemma StepDown(at: Path, n: Name, r: Path)
    requires Backslash !in n && Clean(r) && forall i :: 0 <= i < |r| ==> Backslash !in r[i]
    ensures (at + [n] + r)[|at|..] == [n] + r
    ensures Clean([n] + r) && forall i :: 0 <= i < |[n] + r| ==> Backslash !in ([n] + r)[i]
  {
    assert forall i :: 0 <= i < |r| ==> ([n] + r)[i + 1] == r[i];
  }

  /** ... and every regular file of the tree is a path of the walk. */
  lemma {:induction false} WalkComplete(e: Entry, at: Path, rel: Path)
    requires IsFileAt(e, rel)
    ensures at + rel in Walk(e, at)
    decreases |rel|
  {
    if rel == [] {
      assert at + rel == at;
    } else {
      var cs := e.children;
      var c := Find(cs, rel[0]).value;
      var j :| 0 <= j < |cs| && cs[j].name == rel[0] && cs[j].entry == c;
      WalkComplete(c, at + [rel[0]], rel[1..]);
      assert at + [rel[0]] + rel[1..] == at + rel;
      WalkChildrenMember(cs, at, at + rel);
    }
  }

  /** AssetNames lists exactly the regular files of the source, by their
      paths relative to the source directory: each listed name is one, and
      each one is listed. (The source directory itself being a regular file
      is not covered here.) */
  lemma AssetNamesExact(src: Source)
    requires src.Src? && src.root.Some? && src.root.value.DirEntry? && WellFormed(src.root.value)
    ensures forall i :: 0 <= i < |AssetNames(src).value| ==>
      exists rel :: |rel| >= 1 && Clean(rel) && IsFileAt(src.root.value, rel) &&
        AssetNames(src).value[i] == RelativeTo(src.dir, src.dir + rel)
    ensures forall rel :: IsFileAt(src.root.value, rel) ==>
      RelativeTo(src.dir, src.dir + rel) in AssetNames(src).value
  {
    var e := src.root.value;
    var w := Walk(e, src.dir);
    var names := AssetNames(src).value;
    forall i | 0 <= i < |names|
      ensures exists rel :: |rel| >= 1 && Clean(rel) && IsFileAt(e, rel) && names[i] == RelativeTo(src.dir, src.dir + rel)
    {
      assert w[i] in w;
      WalkFiles(e, src.dir, w[i]);
      var rel := w[i][|src.dir|..];
      assert src.dir + rel == w[i];
    }
    forall rel | IsFileAt(e, rel) ensures RelativeTo(src.dir, src.dir + rel) in names {
      WalkComplete(e, src.dir, rel);
      var i :| 0 <= i < |w| && w[i] == src.dir + rel;
      assert names[i] == RelativeTo(src.dir, src.dir + rel);
    }
  }

  /** Every name AssetNames lists reads back, through Asset and AssetInfo,
      as the file the walk found there. */
  lemma AssetsOfNames(src: Source, i: int)
    requires src.Src? && src.root.Some? && src.root.value.DirEntry? && WellFormed(src.root.value)
    requires 0 <= i < |AssetNames(src).value|
    ensures var w := Walk(src.root.value, src.dir)[i];
      var name := AssetNames(src).value[i];
      && Join(src.dir, name) == w
      && Lookup(src, w).Success? && Lookup(src, w).value.FileEntry?
      && Asset(src, name) == Success(Lookup(src, w).value.data)
      && AssetInfo(src, name) == Success(EntryInfo(Lookup(src, w).value))
  {
    var e := src.root.value;
    var w := Walk(e, src.dir);
    assert w[i] in w;
    WalkFiles(e, src.dir, w[i]);
    var rel := w[i][|src.dir|..];
    assert src.dir + rel == w[i];
    JoinOfRelative(src.dir, src.dir, rel);
  }

  /** AssetDir fails on a regular file and otherwise lists the names of the
      directory's children, in order; "mockDir/" is never a prefix of a
      child's name, so the trimming changes nothing. */
  lemma AssetDirChildren(src: Source, name: string)
    requires src.Src?
    ensures var found := Lookup(src, Join(src.dir, name));
      && (found.Success? && found.value.FileEntry? ==>
            AssetDirSpec(src, name) == Failure(NotADirectory(Join(src.dir, name))))
      && (found.Failure? ==>
            AssetDirSpec(src, name) == Failure(Os(FsError(found.error, Join(src.dir, name)))))
      && (found.Success? && found.value.DirEntry? ==>
            AssetDirSpec(src, name) ==
              Success(seq(|found.value.children|, i requires 0 <= i < |found.value.children| => found.value.children[i].name)))
  {
    var found := Lookup(src, Join(src.dir, name));
    if found.Success? && found.value.DirEntry? {
      var cs := found.value.children;
      var pre := Render(src.dir) + [Slash];
      assert pre[|pre| - 1] == Slash;
      forall i | 0 <= i < |cs| ensures TrimPrefix(cs[i].name, pre) == cs[i].name {
        TrimPrefixAbsent(cs[i].name, pre, Slash);
      }
      var listed := seq(|cs|, i requires 0 <= i < |cs| => TrimPrefix(cs[i].name, pre));
      var plain := seq(|cs|, i requires 0 <= i < |cs| => cs[i].name);
      assert listed == plain;
      assert AssetDirSpec(src, name) == Success(listed);
    }
  }
}
