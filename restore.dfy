/** RestoreAsset and RestoreAssets of sushibox/mock.go: extracting the source
    tree, file by file, below a directory of the disk. Each operation is a
    method on the `Disk`; a function of the filesystem says what it yields,
    and the lemmas below are proved about that function. */
module Restore {
  import opened Wrappers
  import opened Paths
  import opened Fs
  import opened Errors
  import opened Assets

  // ---------------------------------------------------------------------
  // What the operations yield

  /** RestoreAsset(dir, name): read the asset and its info, create the
      parent directory, write the bytes with the asset's mode, then set the
      modification time. The first failing step's error is returned and no
      later step runs. */
  function RestoreAssetFs(src: Source, fs: FileSystem, now: int, dir: Path, name: string): (FileSystem, Option<Error>) {
    match Asset(src, name)
    case Failure(e) => (fs, Some(e))
    case Success(data) =>
      match AssetInfo(src, name)
      case Failure(e) => (fs, Some(e))
      case Success(info) =>
        var (fs1, e1) := MkdirAllFs(fs, FilePath(dir, DirName(name)));
        if e1.Some? then (fs1, Some(Os(e1.value)))
        else
          var target := FilePath(dir, name);
          var (fs2, e2) := WriteFileFs(fs1, target, data, info.mode, now);
          if e2.Some? then (fs2, Some(Os(e2.value)))
          else
            var (fs3, e3) := ChtimesFs(fs2, target, info.mtime);
            if e3.Some? then (fs3, Some(Os(e3.value))) else (fs3, None)
  }

  /** The source entry `name` denotes; a dummy file when there is none. It
      only measures the depth of the recursion below. */
  function EntryAt(src: Source, name: string): Entry {
    if src.Unset? then FileEntry([], 0, 0)
    else match Lookup(src, Join(src.dir, name))
      case Success(e) => e
      case Failure(_) => FileEntry([], 0, 0)
  }

  /** A name AssetDir lists denotes a child of the directory. */
  lemma ChildOfListing(src: Source, name: string, i: int)
    requires AssetDirSpec(src, name).Success? && 0 <= i < |AssetDirSpec(src, name).value|
    ensures EntryAt(src, name).DirEntry?
    ensures var cs := EntryAt(src, name).children;
      exists j :: 0 <= j < |cs| && EntryAt(src, PathJoin(name, AssetDirSpec(src, name).value[i])) == cs[j].entry
  {
    AssetDirChildren(src, name);
    var p := Join(src.dir, name);
    var e := Lookup(src, p).value;
    var cs := e.children;
    var c := cs[i].name;
    assert AssetDirSpec(src, name).value[i] == c;
    JoinOfPathJoin(src.dir, name, c);
    var rel := p[|src.dir|..];
    assert (p + [c])[|src.dir|..] == rel + [c];
    LookupSnoc(src.root.value, rel, c);
    assert LookupIn(e, [c]) == LookupIn(Find(cs, c).value, []);
  }

  /** RestoreAssets(dir, name): a name AssetDir cannot list is restored as a
      file; a directory's children are restored in listed order, stopping
      at the first error. */
  function RestoreTreeFs(src: Source, fs: FileSystem, now: int, dir: Path, name: string): (FileSystem, Option<Error>)
    decreases EntryAt(src, name), 1
  {
    if AssetDirSpec(src, name).Failure? then RestoreAssetFs(src, fs, now, dir, name)
    else RestoreChildrenFs(src, fs, now, dir, name, 0)
  }

  /** The children of `name` from the `i`-th on. */
  function RestoreChildrenFs(src: Source, fs: FileSystem, now: int, dir: Path, name: string, i: nat): (FileSystem, Option<Error>)
    requires AssetDirSpec(src, name).Success?
    decreases EntryAt(src, name), 0, |AssetDirSpec(src, name).value| - i
  {
    var children := AssetDirSpec(src, name).value;
    if i >= |children| then (fs, None)
    else
      ChildOfListing(src, name, i);
      var (fs1, e1) := RestoreTreeFs(src, fs, now, dir, PathJoin(name, children[i]));
      if e1.Some? then (fs1, e1) else RestoreChildrenFs(src, fs1, now, dir, name, i + 1)
  }

  // ---------------------------------------------------------------------
  // The operations on the disk

  method RestoreAsset(src: Source, disk: Disk, dir: Path, name: string) returns (err: Option<Error>)
    requires disk.Valid()
    modifies disk
    ensures (disk.nodes, err) == RestoreAssetFs(src, old(disk.nodes), disk.clock, dir, name)
    ensures disk.Valid()
  {
    var data := Asset(src, name);
    if data.Failure? {
      return Some(data.error);
    }
    var info: Info;
    match AssetInfo(src, name) {
      case Failure(e) => return Some(e);
      case Success(i) => info := i;
    }
    var e := disk.MkdirAll(FilePath(dir, DirName(name)));
    if e.Some? {
      return Some(Os(e.value));
    }
    var target := FilePath(dir, name);
    e := disk.WriteFile(target, data.value, info.mode);
    if e.Some? {
      return Some(Os(e.value));
    }
    e := disk.Chtimes(target, info.mtime);
    if e.Some? {
      return Some(Os(e.value));
    }
    return None;
  }

  method RestoreAssets(src: Source, disk: Disk, dir: Path, name: string) returns (err: Option<Error>)
    requires disk.Valid()
    modifies disk
    ensures (disk.nodes, err) == RestoreTreeFs(src, old(disk.nodes), disk.clock, dir, name)
    ensures disk.Valid()
    decreases EntryAt(src, name)
  {
    var children := AssetDir(src, name);
    if children.Failure? {
      err := RestoreAsset(src, disk, dir, name);
      return;
    }
    var list := children.value;
    var i := 0;
    while i < |list|
      invariant 0 <= i <= |list| && disk.Valid()
      invariant RestoreChildrenFs(src, disk.nodes, disk.clock, dir, name, i) ==
                RestoreTreeFs(src, old(disk.nodes), disk.clock, dir, name)
    {
      ChildOfListing(src, name, i);
      err := RestoreAssets(src, disk, dir, PathJoin(name, list[i]));
      if err.Some? {
        return;
      }
      i := i + 1;
    }
    return None;
  }

  // ---------------------------------------------------------------------
  // Restoring a source succeeds and reproduces it

  /** Below `p`, the disk holds every regular file of `e` with its bytes,
      mode and modification time. */
  ghost predicate Done(fs: FileSystem, p: Path, e: Entry) {
    forall r :: IsFileAt(e, r) ==> p + r in fs && fs[p + r] == NodeOf(LookupIn(e, r).value)
  }

  /** `fs'` keeps every node of `fs` as it was; what it adds lies at or below
      `p`, or is a directory on the way to `p`. */
  predicate Grows(fs: FileSystem, fs': FileSystem, p: Path) {
    && (forall q :: q in fs ==> q in fs' && fs'[q] == fs[q])
    && (forall q :: q in fs' && q !in fs ==> (q < p && fs'[q] == Dir) || p <= q)
  }

  lemma {:induction false} LookupWellFormed(e: Entry, rel: Path)
    requires WellFormed(e) && LookupIn(e, rel).Success?
    ensures WellFormed(LookupIn(e, rel).value)
    decreases |rel|
  {
    if rel != [] {
      var cs := e.children;
      var c := Find(cs, rel[0]).value;
      var j :| 0 <= j < |cs| && cs[j].name == rel[0] && cs[j].entry == c;
      LookupWellFormed(c, rel[1..]);
    }
  }

  lemma DoneMono(fs: FileSystem, fs': FileSystem, p: Path, e: Entry)
    requires Done(fs, p, e)
    requires forall q :: q in fs ==> q in fs' && fs'[q] == fs[q]
    ensures Done(fs', p, e)
  {
  }

  /** A directory is done once each of its children is. */
  lemma DoneDir(fs: FileSystem, p: Path, cs: seq<Child>)
    requires forall i, k :: 0 <= i < k < |cs| ==> cs[i].name != cs[k].name
    requires forall j :: 0 <= j < |cs| ==> Done(fs, p + [cs[j].name], cs[j].entry)
    ensures Done(fs, p, DirEntry(cs))
  {
    forall r | IsFileAt(DirEntry(cs), r)
      ensures p + r in fs && fs[p + r] == NodeOf(LookupIn(DirEntry(cs), r).value)
    {
      var c := Find(cs, r[0]).value;
      var j :| 0 <= j < |cs| && cs[j].name == r[0] && cs[j].entry == c;
      var n: string := cs[j].name;
      assert r == [n] + r[1..];
      LookupChild(cs, j, r[1..]);
      assert IsFileAt(cs[j].entry, r[1..]);
      assert p + [cs[j].name] + r[1..] == p + r;
    }
  }

  lemma GrowsTrans(fs: FileSystem, fs1: FileSystem, fs2: FileSystem, p: Path, c: string)
    requires Grows(fs, fs1, p + [c]) && Grows(fs1, fs2, p)
    ensures Grows(fs, fs2, p)
  {
    forall q | q in fs2 && q !in fs ensures (q < p && fs2[q] == Dir) || p <= q {
      if q in fs1 {
        if q < p + [c] && !(p <= q) {
          assert q[..|q|] == (p + [c])[..|q|];
          assert |q| <= |p|;
          assert q == p[..|q|];
        }
      } else {
        assert (q < p && fs2[q] == Dir) || p <= q;
      }
    }
  }

  /** The names below the source directory that the restore recursion
      passes: the slash-joins of clean paths of the tree. */
  lemma NameOfPath(src: Source, rel: Path)
    requires src.Src? && src.root.Some? && Clean(rel)
    ensures Join(src.dir, JoinWith(rel, Slash)) == src.dir + rel
    ensures Lookup(src, src.dir + rel) == LookupIn(src.root.value, rel)
  {
    JoinOfJoined(src.dir, rel);
    assert (src.dir + rel)[|src.dir|..] == rel;
  }

  /** RestoreAsset of a file of the source into a place that is free. */
  lemma RestoreAssetOk(src: Source, fs: FileSystem, now: int, t: Path, rel: Path)
    requires src.Src? && src.root.Some?
    requires |rel| >= 1 && Clean(rel) && (forall i :: 0 <= i < |rel| ==> Backslash !in rel[i])
    requires IsFileAt(src.root.value, rel)
    requires IsTree(fs) && NoFileOnPath(fs, t + rel) && t + rel !in fs
    ensures var (fs', err) := RestoreAssetFs(src, fs, now, t, JoinWith(rel, Slash));
      && err.None? && IsTree(fs')
      && Done(fs', t + rel, LookupIn(src.root.value, rel).value)
      && Grows(fs, fs', t + rel)
  {
    var name := JoinWith(rel, Slash);
    var f := LookupIn(src.root.value, rel).value;
    AssetOfFile(src, rel);
    var target := t + rel;
    FilePathOfDirName(t, rel);
    FilePathOfJoined(t, rel);
    assert t + rel[..|rel| - 1] == Parent(target);
    PlaceFileOk(fs, target, f.data, f.mode, f.mtime, now);
    var fs3 := MkdirAllFs(fs, Parent(target)).0[target := NodeOf(f)];
    assert RestoreAssetFs(src, fs, now, t, name) == (fs3, None);
    DoneFile(fs3, target, f);
  }

  /** Asset and AssetInfo of the slash-join of a file's path give the
      file's bytes and info. */
  lemma AssetOfFile(src: Source, rel: Path)
    requires src.Src? && src.root.Some? && Clean(rel) && IsFileAt(src.root.value, rel)
    ensures var f := LookupIn(src.root.value, rel).value;
      && Asset(src, JoinWith(rel, Slash)) == Success(f.data)
      && AssetInfo(src, JoinWith(rel, Slash)) == Success(EntryInfo(f))
  {
    NameOfPath(src, rel);
  }

  /** A file is done once its node is in place. */
  lemma DoneFile(fs: FileSystem, p: Path, f: Entry)
    requires f.FileEntry? && p in fs && fs[p] == NodeOf(f)
    ensures Done(fs, p, f)
  {
    forall r | IsFileAt(f, r) ensures p + r in fs && fs[p + r] == NodeOf(LookupIn(f, r).value) {
      assert r == [];
      assert p + r == p;
    }
  }

  /** Creating the parent directories of a free place, writing a file there
      and setting its time leaves exactly that file, with the given bytes,
      mode and time, besides the directories on the way to it. */
  lemma PlaceFileOk(fs: FileSystem, target: Path, data: seq<Byte>, mode: int, mtime: int, now: int)
    requires IsTree(fs) && target != [] && NoFileOnPath(fs, target) && target !in fs
    ensures var fs1 := MkdirAllFs(fs, Parent(target)).0;
      && MkdirAllFs(fs, Parent(target)).1.None?
      && WriteFileFs(fs1, target, data, mode, now) == (fs1[target := File(data, mode, now)], None)
      && ChtimesFs(fs1[target := File(data, mode, now)], target, mtime) == (fs1[target := File(data, mode, mtime)], None)
      && IsTree(fs1[target := File(data, mode, mtime)])
      && Grows(fs, fs1[target := File(data, mode, mtime)], target)
  {
    MakeParent(fs, target);
    var fs1 := MkdirAllFs(fs, Parent(target)).0;
    WriteNew(fs1, target, data, mode, mtime, now);
  }

  /** MkdirAll of the parent of a free place on a path without files
      succeeds, keeps the place free and adds only directories on the way. */
  lemma MakeParent(fs: FileSystem, target: Path)
    requires IsTree(fs) && target != [] && NoFileOnPath(fs, target) && target !in fs
    ensures var fs1 := MkdirAllFs(fs, Parent(target)).0;
      && MkdirAllFs(fs, Parent(target)).1.None?
      && IsTree(fs1) && target !in fs1 && Parent(target) in fs1 && fs1[Parent(target)] == Dir
      && (forall q :: q in fs ==> q in fs1 && fs1[q] == fs[q])
      && (forall q :: q in fs1 && q !in fs ==> q < target && fs1[q] == Dir)
  {
    var pp := Parent(target);
    assert NoFileOnPath(fs, pp) by {
      forall k | 0 <= k <= |pp| ensures pp[..k] == target[..k] { }
    }
    MkdirAllSucceeds(fs, pp);
    MkdirAllGrows(fs, pp);
    MkdirAllValid(fs, pp);
    assert pp[..|pp|] == pp;
    var fs1 := MkdirAllFs(fs, pp).0;
    forall q | q in fs1 && q !in fs ensures q < target {
      assert q <= pp;
    }
  }

  /** Writing a new file below an existing directory and setting its time. */
  lemma WriteNew(fs: FileSystem, target: Path, data: seq<Byte>, mode: int, mtime: int, now: int)
    requires IsTree(fs) && target != [] && target !in fs && Parent(target) in fs && fs[Parent(target)] == Dir
    ensures WriteFileFs(fs, target, data, mode, now) == (fs[target := File(data, mode, now)], None)
    ensures ChtimesFs(fs[target := File(data, mode, now)], target, mtime) == (fs[target := File(data, mode, mtime)], None)
    ensures IsTree(fs[target := File(data, mode, mtime)])
  {
    var fs2 := fs[target := File(data, mode, now)];
    WriteFileValid(fs, target, data, mode, now);
    ChtimesValid(fs2, target, mtime);
    assert fs2[target := File(data, mode, mtime)] == fs[target := File(data, mode, mtime)];
  }

  /** RestoreAssets of an entry of the source into a place where nothing
      is below it yet (and, for a file, where nothing is). */
  lemma {:induction false} RestoreTreeOk(src: Source, fs: FileSystem, now: int, t: Path, rel: Path)
    requires src.Src? && src.root.Some? && src.root.value.DirEntry? && WellFormed(src.root.value)
    requires Clean(rel) && (forall i :: 0 <= i < |rel| ==> Backslash !in rel[i])
    requires LookupIn(src.root.value, rel).Success?
    requires IsTree(fs) && NoFileOnPath(fs, t + rel) && (forall q :: q in fs ==> !(t + rel < q))
    requires LookupIn(src.root.value, rel).value.FileEntry? ==> t + rel !in fs
    ensures var (fs', err) := RestoreTreeFs(src, fs, now, t, JoinWith(rel, Slash));
      && err.None? && IsTree(fs')
      && Done(fs', t + rel, LookupIn(src.root.value, rel).value)
      && Grows(fs, fs', t + rel)
    decreases LookupIn(src.root.value, rel).value, 1, 0, 0
  {
    var name := JoinWith(rel, Slash);
    var e := LookupIn(src.root.value, rel).value;
    NameOfPath(src, rel);
    AssetDirChildren(src, name);
    if e.FileEntry? {
      assert rel != [];
      RestoreAssetOk(src, fs, now, t, rel);
    } else {
      LookupWellFormed(src.root.value, rel);
      RestoreChildrenOk(src, fs, now, t, rel, 0);
      var fs' := RestoreChildrenFs(src, fs, now, t, name, 0).0;
      DoneDir(fs', t + rel, e.children);
    }
  }

  lemma {:induction false} RestoreChildrenOk(src: Source, fs: FileSystem, now: int, t: Path, rel: Path, i: nat)
    requires src.Src? && src.root.Some? && src.root.value.DirEntry? && WellFormed(src.root.value)
    requires Clean(rel) && (forall k :: 0 <= k < |rel| ==> Backslash !in rel[k])
    requires LookupIn(src.root.value, rel).Success? && LookupIn(src.root.value, rel).value.DirEntry?
    requires AssetDirSpec(src, JoinWith(rel, Slash)).Success?
    requires i <= |LookupIn(src.root.value, rel).value.children|
    requires IsTree(fs) && NoFileOnPath(fs, t + rel)
    requires forall q, j :: q in fs && i <= j < |LookupIn(src.root.value, rel).value.children| ==>
      !(t + rel + [LookupIn(src.root.value, rel).value.children[j].name] <= q)
    ensures var cs := LookupIn(src.root.value, rel).value.children;
      var (fs', err) := RestoreChildrenFs(src, fs, now, t, JoinWith(rel, Slash), i);
      && err.None? && IsTree(fs')
      && (forall j :: i <= j < |cs| ==> Done(fs', t + rel + [cs[j].name], cs[j].entry))
      && Grows(fs, fs', t + rel)
    decreases LookupIn(src.root.value, rel).value, 0, |LookupIn(src.root.value, rel).value.children| - i, 1
  {
    var name := JoinWith(rel, Slash);
    var cs := LookupIn(src.root.value, rel).value.children;
    NameOfPath(src, rel);
    AssetDirChildren(src, name);
    if i < |cs| {
      LookupWellFormed(src.root.value, rel);
      var c := cs[i];
      var relc := rel + [c.name];
      ChildStep(src, fs, now, t, rel, i);
      var fs1 := RestoreTreeFs(src, fs, now, t, JoinWith(relc, Slash)).0;
      assert RestoreChildrenFs(src, fs, now, t, name, i) == RestoreChildrenFs(src, fs1, now, t, name, i + 1);
      ChildrenPreserved(fs, fs1, t + rel, cs, i);
      RestoreChildrenOk(src, fs1, now, t, rel, i + 1);
      var fs' := RestoreChildrenFs(src, fs1, now, t, name, i + 1).0;
      DoneMono(fs1, fs', t + rel + [c.name], c.entry);
      GrowsTrans(fs, fs1, fs', t + rel, c.name);
    }
  }

  /** Restoring the `i`-th child of a directory whose later children have
      free places. */
  lemma {:induction false} ChildStep(src: Source, fs: FileSystem, now: int, t: Path, rel: Path, i: nat)
    requires src.Src? && src.root.Some? && src.root.value.DirEntry? && WellFormed(src.root.value)
    requires Clean(rel) && (forall k :: 0 <= k < |rel| ==> Backslash !in rel[k])
    requires LookupIn(src.root.value, rel).Success? && LookupIn(src.root.value, rel).value.DirEntry?
    requires AssetDirSpec(src, JoinWith(rel, Slash)).Success?
    requires i < |LookupIn(src.root.value, rel).value.children|
    requires IsTree(fs) && NoFileOnPath(fs, t + rel)
    requires forall q, j :: q in fs && i <= j < |LookupIn(src.root.value, rel).value.children| ==>
      !(t + rel + [LookupIn(src.root.value, rel).value.children[j].name] <= q)
    ensures var c := LookupIn(src.root.value, rel).value.children[i];
      && i < |AssetDirSpec(src, JoinWith(rel, Slash)).value|
      && PathJoin(JoinWith(rel, Slash), AssetDirSpec(src, JoinWith(rel, Slash)).value[i]) == JoinWith(rel + [c.name], Slash)
      && var (fs1, err) := RestoreTreeFs(src, fs, now, t, JoinWith(rel + [c.name], Slash));
      && err.None? && IsTree(fs1)
      && Done(fs1, t + rel + [c.name], c.entry)
      && Grows(fs, fs1, t + rel + [c.name])
    decreases LookupIn(src.root.value, rel).value, 0, |LookupIn(src.root.value, rel).value.children| - i, 0
  {
    var cs := LookupIn(src.root.value, rel).value.children;
    var relc := rel + [cs[i].name];
    ChildFacts(src, rel, i);
    assert t + rel + [cs[i].name] == t + relc;
    NoFileOnChild(fs, t + rel, cs[i].name);
    RestoreTreeOk(src, fs, now, t, relc);
  }

  /** The `i`-th child of a directory of the source: AssetDir lists it as the
      `i`-th name, its path.Join name is the slash-join of its path, and
      the path leads to it. */
  lemma ChildFacts(src: Source, rel: Path, i: nat)
    requires src.Src? && src.root.Some? && src.root.value.DirEntry? && WellFormed(src.root.value)
    requires Clean(rel) && (forall k :: 0 <= k < |rel| ==> Backslash !in rel[k])
    requires LookupIn(src.root.value, rel).Success? && LookupIn(src.root.value, rel).value.DirEntry?
    requires AssetDirSpec(src, JoinWith(rel, Slash)).Success?
    requires i < |LookupIn(src.root.value, rel).value.children|
    ensures var c := LookupIn(src.root.value, rel).value.children[i];
      var relc := rel + [c.name];
      && i < |AssetDirSpec(src, JoinWith(rel, Slash)).value|
      && PathJoin(JoinWith(rel, Slash), AssetDirSpec(src, JoinWith(rel, Slash)).value[i]) == JoinWith(relc, Slash)
      && Clean(relc) && (forall k :: 0 <= k < |relc| ==> Backslash !in relc[k])
      && LookupIn(src.root.value, relc) == Success(c.entry)
  {
    var cs := LookupIn(src.root.value, rel).value.children;
    ChildListed(src, rel, i);
    PathJoinSnoc(rel, cs[i].name);
    LookupWellFormed(src.root.value, rel);
    ChildLookup(src.root.value, rel, i);
    ChildPath(rel, cs[i].name);
  }

  /** Extending a clean, backslash-free path by a backslash-free name keeps it so. */
  lemma ChildPath(rel: Path, n: Name)
    requires Clean(rel) && (forall k :: 0 <= k < |rel| ==> Backslash !in rel[k]) && Backslash !in n
    ensures Clean(rel + [n]) && (forall k :: 0 <= k < |rel + [n]| ==> Backslash !in (rel + [n])[k])
  {
    assert forall k :: 0 <= k < |rel| ==> (rel + [n])[k] == rel[k];
  }

  /** AssetDir lists the children of a directory of the source by name, in order. */
  lemma ChildListed(src: Source, rel: Path, i: nat)
    requires src.Src? && src.root.Some? && Clean(rel)
    requires LookupIn(src.root.value, rel).Success? && LookupIn(src.root.value, rel).value.DirEntry?
    requires i < |LookupIn(src.root.value, rel).value.children|
    ensures AssetDirSpec(src, JoinWith(rel, Slash)).Success? && i < |AssetDirSpec(src, JoinWith(rel, Slash)).value|
    ensures AssetDirSpec(src, JoinWith(rel, Slash)).value[i] == LookupIn(src.root.value, rel).value.children[i].name
  {
    NameOfPath(src, rel);
    AssetDirChildren(src, JoinWith(rel, Slash));
  }

  /** The path to a child of a directory of a well-formed tree leads to it. */
  lemma ChildLookup(root: Entry, rel: Path, i: nat)
    requires LookupIn(root, rel).Success? && LookupIn(root, rel).value.DirEntry?
    requires i < |LookupIn(root, rel).value.children|
    requires forall a, b :: 0 <= a < b < |LookupIn(root, rel).value.children| ==>
      LookupIn(root, rel).value.children[a].name != LookupIn(root, rel).value.children[b].name
    ensures var c := LookupIn(root, rel).value.children[i];
      LookupIn(root, rel + [c.name]) == Success(c.entry)
  {
    var e := LookupIn(root, rel).value;
    var c := e.children[i];
    LookupSnoc(root, rel, c.name);
    FindDistinct(e.children, i);
    assert LookupIn(e, [c.name]) == LookupIn(c.entry, []);
  }

  /** A path that holds no file and has nothing at or below its child
      `name` gives a child path that holds no file either. */
  lemma NoFileOnChild(fs: FileSystem, p: Path, name: string)
    requires NoFileOnPath(fs, p) && forall q :: q in fs ==> !(p + [name] <= q)
    ensures NoFileOnPath(fs, p + [name])
  {
    forall k | 0 <= k <= |p + [name]| && (p + [name])[..k] in fs ensures fs[(p + [name])[..k]] == Dir {
      if k <= |p| {
        assert (p + [name])[..k] == p[..k];
      }
    }
  }

  /** After child `i` is restored, the later children still have free places
      and the directory's path still holds no file. */
  lemma ChildrenPreserved(fs: FileSystem, fs1: FileSystem, p: Path, cs: seq<Child>, i: nat)
    requires 0 <= i < |cs|
    requires forall a, b :: 0 <= a < b < |cs| ==> cs[a].name != cs[b].name
    requires NoFileOnPath(fs, p)
    requires forall q, j :: q in fs && i <= j < |cs| ==> !(p + [cs[j].name] <= q)
    requires Grows(fs, fs1, p + [cs[i].name])
    ensures NoFileOnPath(fs1, p)
    ensures forall q, j :: q in fs1 && i + 1 <= j < |cs| ==> !(p + [cs[j].name] <= q)
  {
    var pc := p + [cs[i].name];
    forall k | 0 <= k <= |p| && p[..k] in fs1 ensures fs1[p[..k]] == Dir {
      if p[..k] !in fs {
        assert !(pc <= p[..k]);
      }
    }
    forall q, j | q in fs1 && i + 1 <= j < |cs| ensures !(p + [cs[j].name] <= q) {
      if q !in fs {
        if pc <= q {
          assert q[|p|] == cs[i].name;
          assert cs[i].name != cs[j].name;
        } else {
          assert q < pc;
          assert |q| <= |p|;
        }
      }
    }
  }

  /** Below an existing directory of a tree, growing adds nodes only strictly below it. */
  lemma GrowsBelow(fs: FileSystem, fs': FileSystem, t: Path)
    requires IsTree(fs) && t in fs && Grows(fs, fs', t)
    ensures forall q :: q in fs' && q !in fs ==> t < q
  {
    forall q | q in fs' && q !in fs ensures t < q {
      if q < t {
        PrefixExists(fs, q, t);
      } else {
        assert t != q;
        StrictPrefix(t, q);
      }
    }
  }

  /** Restoring a well-formed source directory into an existing directory
      `t` with nothing below it succeeds, holds every file of the source at
      its place below `t` afterwards, keeps every node that was there,
      and adds nodes only below `t`. */
  lemma RestoreAllOk(src: Source, fs: FileSystem, now: int, t: Path)
    requires src.Src? && src.root.Some? && src.root.value.DirEntry? && WellFormed(src.root.value)
    requires IsTree(fs) && t in fs && fs[t] == Dir && (forall q :: q in fs ==> !(t < q))
    ensures var (fs', err) := RestoreTreeFs(src, fs, now, t, "");
      && err.None? && IsTree(fs')
      && Done(fs', t, src.root.value)
      && (forall q :: q in fs ==> q in fs' && fs'[q] == fs[q])
      && (forall q :: q in fs' && q !in fs ==> t < q)
  {
    AncestorsAreDirs(fs, t);
    assert JoinWith([], Slash) == "";
    assert t + [] == t;
    assert NoFileOnPath(fs, t) by {
      assert t[..|t|] == t;
    }
    RestoreTreeOk(src, fs, now, t, []);
    var fs' := RestoreTreeFs(src, fs, now, t, "").0;
    GrowsBelow(fs, fs', t);
  }

  // ---------------------------------------------------------------------
  // A file name holding a backslash

  /** The name a backslash-free source tree excludes: Unix allows '\\' in a
      file name, AssetNames and AssetDir list it, but `_filePath` turns it
      into a separator. A source whose only file is `a\\b` is therefore
      unpacked to `a/b` below `t`, whose parent `a` path.Dir never asked
      MkdirAll for, and RestoreAssets fails with ENOENT. */
  lemma BackslashNameFails(dir: Path, f: Entry, fs: FileSystem, now: int, t: Path)
    requires f.FileEntry?
    requires t in fs && fs[t] == Dir && (forall q :: q in fs ==> !(t < q))
    ensures var src := Src(dir, Some(DirEntry([Child("a\\b", f)])));
      && !WellFormed(src.root.value)
      && RestoreTreeFs(src, fs, now, t, "") == (fs, Some(Os(FsError(ENOENT, t + ["a", "b"]))))
  {
    var name := "a\\b";
    var src := Src(dir, Some(DirEntry([Child(name, f)])));
    assert Backslash in name;
    SingleFileListing(dir, name, f);
    assert PathJoin("", name) == name;
    BackslashTarget(t);
    WriteMissingParent(fs, t, f.data, f.mode, now);
    assert RestoreAssetFs(src, fs, now, t, name) == (fs, Some(Os(FsError(ENOENT, t + ["a", "b"]))));
    assert RestoreChildrenFs(src, fs, now, t, "", 0) == RestoreTreeFs(src, fs, now, t, name);
  }

  /** AssetDir lists a lone proper file name unchanged, backslashes and
      all, and the name denotes the file. */
  lemma SingleFileListing(dir: Path, name: string, f: Entry)
    requires f.FileEntry? && ProperName(name)
    ensures var src := Src(dir, Some(DirEntry([Child(name, f)])));
      && AssetDirSpec(src, "") == Success([name])
      && AssetDirSpec(src, name).Failure?
      && Asset(src, name) == Success(f.data)
      && AssetInfo(src, name) == Success(EntryInfo(f))
  {
    var src := Src(dir, Some(DirEntry([Child(name, f)])));
    assert Split("", Slash) == [""];
    assert [""][1..] == [];
    assert CleanFrom(dir, [""]) == CleanFrom(dir, []);
    assert Join(dir, "") == dir;
    assert dir[|dir|..] == [];
    TrimPrefixAbsent(name, Render(dir) + [Slash], Slash);
    assert Lookup(src, dir) == Success(DirEntry([Child(name, f)]));
    assert AssetDirSpec(src, "").Success?;
    var listed := AssetDirSpec(src, "").value;
    assert |listed| == 1 && listed[0] == TrimPrefix(name, Render(dir) + [Slash]);
    assert listed == [name];
    JoinProper(dir, name);
    assert (dir + [name])[|dir|..] == [name];
    assert LookupIn(src.root.value, [name]) == Success(f);
  }

  /** path.Dir of the name is ".", so MkdirAll is asked for `t` alone, while
      the file goes to `t/a/b`. */
  lemma BackslashTarget(t: Path)
    ensures FilePath(t, DirName("a\\b")) == t
    ensures FilePath(t, "a\\b") == t + ["a", "b"]
  {
    var name := "a\\b";
    SplitNoSep(name, Slash);
    assert DirName(name) == ".";
    FilePathOfDot(t);
    assert ReplaceAll(name, Backslash, Slash) == "a/b";
    SplitNoSep("b", Slash);
    SplitAtSep("a", "b", Slash);
    assert "a/b" == "a" + [Slash] + "b";
    CleanFromProper(t, ["a", "b"]);
  }

  /** Writing `t/a/b` into an empty directory `t` finds no `a`. */
  lemma WriteMissingParent(fs: FileSystem, t: Path, data: seq<Byte>, mode: int, now: int)
    requires t in fs && fs[t] == Dir && (forall q :: q in fs ==> !(t < q))
    ensures MkdirAllFs(fs, t) == (fs, None)
    ensures WriteFileFs(fs, t + ["a", "b"], data, mode, now) == (fs, Some(FsError(ENOENT, t + ["a", "b"])))
  {
    assert t < t + ["a"] && t < t + ["a", "b"];
    assert Parent(t + ["a", "b"]) == t + ["a"] && Parent(t + ["a"]) == t;
    assert StatFs(fs, t + ["a"]) == Failure(FsError(ENOENT, t + ["a"]));
  }

  /** A backslash name can also climb out of `t`: `..\\x` is listed as a
      proper name, path.Dir of it is ".", and `_filePath` reads it as
      `../x`. RestoreAssets then succeeds, but the file lands beside `t`,
      in its parent, where removing `t` afterwards does not reach it. */
  lemma BackslashNameEscapes(dir: Path, f: Entry, fs: FileSystem, now: int, t: Path)
    requires f.FileEntry?
    requires t != [] && t in fs && fs[t] == Dir
    requires Parent(t) in fs && fs[Parent(t)] == Dir && Parent(t) + ["x"] !in fs
    ensures var src := Src(dir, Some(DirEntry([Child("..\\x", f)])));
      var out := Parent(t) + ["x"];
      && !WellFormed(src.root.value)
      && RestoreTreeFs(src, fs, now, t, "") == (fs[out := NodeOf(f)], None)
      && !(t <= out)
      && out in RemoveAllFs(fs[out := NodeOf(f)], t)
  {
    var name := "..\\x";
    var src := Src(dir, Some(DirEntry([Child(name, f)])));
    var out := Parent(t) + ["x"];
    assert Backslash in name;
    SingleFileListing(dir, name, f);
    assert PathJoin("", name) == name;
    EscapeTarget(t);
    assert Parent(out) == Parent(t);
    WriteBeside(fs, t, out, f.data, f.mode, now, f.mtime);
    assert NodeOf(f) == File(f.data, f.mode, f.mtime);
    assert RestoreAssetFs(src, fs, now, t, name) == (fs[out := NodeOf(f)], None);
    assert RestoreChildrenFs(src, fs, now, t, "", 0) == RestoreTreeFs(src, fs, now, t, name);
    assert |out| == |t| && out != t;
  }

  /** path.Dir of `..\\x` is ".", and `_filePath` sends it to `x` in the
      parent of `t`. */
  lemma EscapeTarget(t: Path)
    requires t != []
    ensures FilePath(t, DirName("..\\x")) == t
    ensures FilePath(t, "..\\x") == Parent(t) + ["x"]
  {
    var name := "..\\x";
    SplitNoSep(name, Slash);
    assert DirName(name) == ".";
    FilePathOfDot(t);
    assert ReplaceAll(name, Backslash, Slash) == "../x";
    SplitNoSep("x", Slash);
    SplitAtSep("..", "x", Slash);
    assert "../x" == ".." + [Slash] + "x";
    assert Components(name) == ["..", "x"];
    CleanFromProper(Parent(t), ["x"]);
    assert ["..", "x"][1..] == ["x"];
  }

  /** Writing a new file into an existing directory succeeds, and Chtimes
      then sets its time. */
  lemma WriteBeside(fs: FileSystem, t: Path, out: Path, data: seq<Byte>, mode: FileMode, now: int, mtime: int)
    requires t in fs && fs[t] == Dir
    requires out != [] && Parent(out) in fs && fs[Parent(out)] == Dir && out !in fs
    ensures MkdirAllFs(fs, t) == (fs, None)
    ensures WriteFileFs(fs, out, data, mode, now) == (fs[out := File(data, mode, now)], None)
    ensures ChtimesFs(fs[out := File(data, mode, now)], out, mtime) == (fs[out := File(data, mode, mtime)], None)
  {
    assert StatFs(fs, Parent(out)) == Success(InfoOf(Dir));
    var written := fs[out := File(data, mode, now)];
    assert written[out].(mtime := mtime) == File(data, mode, mtime);
    assert written[out := File(data, mode, mtime)] == fs[out := File(data, mode, mtime)];
  }
}
