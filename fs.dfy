/** The part of a POSIX filesystem the launcher touches, as a map from
    cleaned absolute paths to nodes, with the `os` calls it makes (Stat,
    MkdirAll, Mkdir, WriteFile, Chtimes, Rename, RemoveAll) as functions on
    that map, and a `Disk` object whose methods apply them in place. */
module Fs {
  import opened Paths
  import opened Wrappers

  type Byte = b: int | 0 <= b < 256

  /** os.ModeDir: the type bit Go's FileMode carries for a directory. */
  const ModeDir: int := 0x8000_0000
  /** The permission bits of a directory (0755). */
  const DirPerm: int := 0x1ED
  /** The size Stat reports for a directory. */
  const DirSize: int := 4096

  datatype Node = Dir | File(data: seq<Byte>, mode: int, mtime: int)

  /** The fields of os.FileInfo that the launcher compares. */
  datatype Info = Info(size: int, mode: int, mtime: int, isDir: bool)

  function InfoOf(n: Node): (i: Info)
    ensures i.isDir <==> n == Dir
  {
    match n
    case Dir => Info(DirSize, ModeDir + DirPerm, 0, true)
    case File(data, mode, mtime) => Info(|data|, mode, mtime, false)
  }

  /** The errnos that follow from the shape of the tree. Permission, space
      and I/O errors are not modelled. */
  datatype Errno = ENOENT | ENOTDIR | EISDIR | EEXIST | ENOTEMPTY | EINVAL | EBUSY

  /** An *os.PathError / *os.LinkError: the errno and the path it is about. */
  datatype FsError = FsError(errno: Errno, path: Path) {
    /** os.IsNotExist */
    predicate IsNotExist() { errno == ENOENT }
  }

  type FileSystem = map<Path, Node>

  function Parent(p: Path): Path
    requires p != []
  {
    p[..|p| - 1]
  }

  /** A tree: the root is a directory and every other node sits in a directory. */
  predicate IsTree(fs: FileSystem) {
    && [] in fs && fs[[]] == Dir
    && forall p :: p in fs && p != [] ==> Parent(p) in fs && fs[Parent(p)] == Dir
  }

  /** No prefix of `p` (p itself included) that exists is a regular file. */
  predicate NoFileOnPath(fs: FileSystem, p: Path) {
    forall k :: 0 <= k <= |p| && p[..k] in fs ==> fs[p[..k]] == Dir
  }

  /** `d` is a directory with something below it. */
  predicate HasChildren(fs: FileSystem, d: Path) {
    exists q :: q in fs && d < q
  }

  // ---------------------------------------------------------------------
  // The os calls, as functions of the filesystem

  /** os.Stat: the node's info, ENOTDIR when a prefix is a file, ENOENT otherwise. */
  function StatFs(fs: FileSystem, p: Path): (r: Result<Info, FsError>)
    ensures r.Success? <==> p in fs
    ensures r.Success? ==> r.value == InfoOf(fs[p])
    ensures r.Failure? ==> r.error.path == p
    decreases |p|
  {
    if p in fs then Success(InfoOf(fs[p]))
    else if p == [] then Failure(FsError(ENOENT, p))
    else match StatFs(fs, Parent(p))
      case Success(i) => Failure(FsError(if i.isDir then ENOENT else ENOTDIR, p))
      case Failure(e) => Failure(FsError(e.errno, p))
  }

  /** os.MkdirAll: succeed when `p` is already a directory, fail with
      ENOTDIR at the first prefix that is a file, otherwise create the
      missing prefixes from the top down. */
  function MkdirAllFs(fs: FileSystem, p: Path): (FileSystem, Option<FsError>)
    decreases |p|
  {
    if p in fs then (fs, if fs[p] == Dir then None else Some(FsError(ENOTDIR, p)))
    else if p == [] then (fs[p := Dir], None)
    else
      var (fs1, e) := MkdirAllFs(fs, Parent(p));
      if e.Some? then (fs1, e) else (fs1[p := Dir], None)
  }

  /** os.Mkdir, as ioutil.TempDir uses it: EEXIST when `p` exists, the
      parent's lookup error, ENOTDIR when the parent is a file. */
  function MkdirFs(fs: FileSystem, p: Path): (FileSystem, Option<FsError>) {
    if p in fs || p == [] then (fs, Some(FsError(EEXIST, p)))
    else match StatFs(fs, Parent(p))
      case Failure(e) => (fs, Some(FsError(e.errno, p)))
      case Success(i) => if !i.isDir then (fs, Some(FsError(ENOTDIR, p))) else (fs[p := Dir], None)
  }

  /** ioutil.WriteFile: open with O_CREATE|O_TRUNC and write. An existing
      file keeps its mode (the permission only applies on creation); the
      write stamps the modification time `now`. */
  function WriteFileFs(fs: FileSystem, p: Path, data: seq<Byte>, mode: int, now: int): (FileSystem, Option<FsError>) {
    if p in fs then
      if fs[p] == Dir then (fs, Some(FsError(EISDIR, p)))
      else (fs[p := File(data, fs[p].mode, now)], None)
    else if p == [] then (fs, Some(FsError(ENOENT, p)))
    else match StatFs(fs, Parent(p))
      case Failure(e) => (fs, Some(FsError(e.errno, p)))
      case Success(i) => if !i.isDir then (fs, Some(FsError(ENOTDIR, p))) else (fs[p := File(data, mode, now)], None)
  }

  /** os.Chtimes: set the modification time (directories' times are not modelled). */
  function ChtimesFs(fs: FileSystem, p: Path, mtime: int): (FileSystem, Option<FsError>) {
    if p !in fs then (fs, Some(StatFs(fs, p).error))
    else if fs[p] == Dir then (fs, None)
    else (fs[p := fs[p].(mtime := mtime)], None)
  }

  /** os.RemoveAll: drop `p` and everything below it. The root itself
      stays; no caller reaches that case, since the launcher removes only a
      temporary directory that os.Mkdir has just created, and Mkdir refuses
      the root. */
  function RemoveAllFs(fs: FileSystem, p: Path): FileSystem {
    if p == [] then map[[] := Dir]
    else map q | q in fs && !(p <= q) :: fs[q]
  }

  /** The tree after moving the subtree at `from` to `to`. */
  function Move(fs: FileSystem, from: Path, to: Path): FileSystem {
    (map q | q in fs && !(from <= q) && !(to <= q) :: fs[q]) + Shift(fs, from, to)
  }

  /** Where the subtree at `from` lands below `to`. */
  function ShiftedKeys(fs: FileSystem, from: Path, to: Path): set<Path> {
    set q | q in fs && from <= q :: to + q[|from|..]
  }

  lemma ShiftedKey(fs: FileSystem, from: Path, to: Path, k: Path)
    requires k in ShiftedKeys(fs, from, to)
    ensures to <= k && from + k[|to|..] in fs
  {
    var q :| q in fs && from <= q && k == to + q[|from|..];
    assert k[|to|..] == q[|from|..];
    assert from + k[|to|..] == q;
  }

  /** The subtree at `from`, re-rooted at `to`. */
  function Shift(fs: FileSystem, from: Path, to: Path): FileSystem {
    map k | k in ShiftedKeys(fs, from, to) :: ShiftedKey(fs, from, to, k); fs[from + k[|to|..]]
  }

  /** os.Rename, with rename(2)'s rules: a directory may only replace an
      empty directory, and never one of its own descendants. */
  function RenameFs(fs: FileSystem, from: Path, to: Path): (FileSystem, Option<FsError>) {
    if from !in fs then (fs, Some(FsError(StatFs(fs, from).error.errno, from)))
    else if from == to then (fs, None)
    else if to == [] then (fs, Some(FsError(EBUSY, to)))
    else if Parent(to) !in fs then (fs, Some(FsError(StatFs(fs, Parent(to)).error.errno, to)))
    else if fs[Parent(to)] != Dir then (fs, Some(FsError(ENOTDIR, to)))
    else if from < to then (fs, Some(FsError(EINVAL, to)))
    else if to in fs && fs[from] == Dir && fs[to] != Dir then (fs, Some(FsError(ENOTDIR, to)))
    else if to in fs && fs[from] == Dir && HasChildren(fs, to) then (fs, Some(FsError(ENOTEMPTY, to)))
    else if to in fs && fs[from] != Dir && fs[to] == Dir then (fs, Some(FsError(EISDIR, to)))
    else (Move(fs, from, to), None)
  }

  // ---------------------------------------------------------------------
  // Properties of the calls

  /** In a tree every prefix of an existing path is an existing directory. */
  lemma {:induction false} AncestorsAreDirs(fs: FileSystem, p: Path)
    requires IsTree(fs) && p in fs
    ensures forall k :: 0 <= k < |p| ==> p[..k] in fs && fs[p[..k]] == Dir
    decreases |p|
  {
    if p != [] {
      AncestorsAreDirs(fs, Parent(p));
      forall k | 0 <= k < |p| ensures p[..k] in fs && fs[p[..k]] == Dir {
        if k < |p| - 1 { assert p[..k] == Parent(p)[..k]; }
      }
    }
  }

  /** In a tree every prefix of an existing path exists. */
  lemma PrefixExists(fs: FileSystem, p: Path, q: Path)
    requires IsTree(fs) && q in fs && p <= q
    ensures p in fs
  {
    if |p| < |q| {
      AncestorsAreDirs(fs, q);
      assert q[..|p|] == p;
    } else {
      assert p == q;
    }
  }

  /** In a tree nothing lies below a path that does not exist. */
  lemma NothingBelowMissing(fs: FileSystem, p: Path)
    requires IsTree(fs) && p !in fs
    ensures forall q :: q in fs ==> !(p <= q)
  {
    forall q | q in fs ensures !(p <= q) {
      if p <= q { PrefixExists(fs, p, q); }
    }
  }

  /** A missing path under directories only is reported as ENOENT. */
  lemma {:induction false} StatMissing(fs: FileSystem, p: Path)
    requires p !in fs && NoFileOnPath(fs, p)
    ensures StatFs(fs, p) == Failure(FsError(ENOENT, p))
    decreases |p|
  {
    if p != [] {
      var q := Parent(p);
      assert q == p[..|p| - 1];
      if q !in fs {
        assert NoFileOnPath(fs, q) by {
          forall k | 0 <= k <= |q| && q[..k] in fs ensures fs[q[..k]] == Dir { assert q[..k] == p[..k]; }
        }
        StatMissing(fs, q);
      }
    }
  }

  /** Stat looks only at the path and its prefixes. */
  lemma {:induction false} StatLocal(fs1: FileSystem, fs2: FileSystem, p: Path)
    requires forall k :: 0 <= k <= |p| ==> (p[..k] in fs1 <==> p[..k] in fs2)
    requires forall k :: 0 <= k <= |p| && p[..k] in fs1 ==> fs1[p[..k]] == fs2[p[..k]]
    ensures StatFs(fs1, p) == StatFs(fs2, p)
    decreases |p|
  {
    assert p[..|p|] == p;
    if p !in fs1 && p != [] {
      var q := Parent(p);
      forall k | 0 <= k <= |q| ensures q[..k] == p[..k] { }
      StatLocal(fs1, fs2, q);
    }
  }

  /** MkdirAll succeeds exactly when no prefix of the path is a file. */
  lemma {:induction false} MkdirAllSucceeds(fs: FileSystem, p: Path)
    requires IsTree(fs)
    ensures MkdirAllFs(fs, p).1.None? <==> NoFileOnPath(fs, p)
    decreases |p|
  {
    assert p[..|p|] == p;
    if p in fs {
      AncestorsAreDirs(fs, p);
    } else {
      var q := Parent(p);
      MkdirAllSucceeds(fs, q);
      forall k | 0 <= k <= |q| ensures q[..k] == p[..k] { }
    }
  }

  /** A failing MkdirAll reports ENOTDIR and changes nothing. */
  lemma {:induction false} MkdirAllFailure(fs: FileSystem, p: Path)
    ensures var (fs', e) := MkdirAllFs(fs, p);
      e.Some? ==> fs' == fs && e.value.errno == ENOTDIR
    decreases |p|
  {
    if p !in fs && p != [] {
      MkdirAllFailure(fs, Parent(p));
    }
  }

  /** A successful MkdirAll keeps every node and adds only directories on
      the path, after which every prefix of the path is a directory. */
  lemma {:induction false} MkdirAllGrows(fs: FileSystem, p: Path)
    requires IsTree(fs) && NoFileOnPath(fs, p)
    ensures var fs' := MkdirAllFs(fs, p).0;
      && (forall q :: q in fs ==> q in fs' && fs'[q] == fs[q])
      && (forall q :: q in fs' && q !in fs ==> q <= p && fs'[q] == Dir)
      && (forall k :: 0 <= k <= |p| ==> p[..k] in fs' && fs'[p[..k]] == Dir)
    decreases |p|
  {
    assert p[..|p|] == p;
    if p in fs {
      AncestorsAreDirs(fs, p);
    } else {
      var q := Parent(p);
      forall k | 0 <= k <= |q| ensures q[..k] == p[..k] { }
      assert NoFileOnPath(fs, q);
      MkdirAllGrows(fs, q);
      MkdirAllSucceeds(fs, q);
      var fs1 := MkdirAllFs(fs, q).0;
      var fs' := fs1[p := Dir];
      assert MkdirAllFs(fs, p).0 == fs';
      forall r | r in fs' && r !in fs ensures r <= p {
        if r != p { assert r <= q; }
      }
    }
  }

  lemma MkdirAllValid(fs: FileSystem, p: Path)
    requires IsTree(fs)
    ensures IsTree(MkdirAllFs(fs, p).0)
  {
    MkdirAllSucceeds(fs, p);
    MkdirAllFailure(fs, p);
    var (fs', e) := MkdirAllFs(fs, p);
    if e.None? {
      MkdirAllGrows(fs, p);
      forall q | q in fs' && q != [] ensures Parent(q) in fs' && fs'[Parent(q)] == Dir {
        if q !in fs {
          assert q <= p;
          assert Parent(q) == p[..|q| - 1];
        }
      }
    }
  }

  lemma MkdirValid(fs: FileSystem, p: Path)
    requires IsTree(fs)
    ensures IsTree(MkdirFs(fs, p).0)
  {
  }

  lemma WriteFileValid(fs: FileSystem, p: Path, data: seq<Byte>, mode: int, now: int)
    requires IsTree(fs)
    ensures IsTree(WriteFileFs(fs, p, data, mode, now).0)
  {
    var fs' := WriteFileFs(fs, p, data, mode, now).0;
    forall q | q in fs' && q != [] ensures Parent(q) in fs' && fs'[Parent(q)] == Dir {
      if q != p && Parent(q) == p {
        assert fs[p] == Dir;
      }
    }
  }

  lemma ChtimesValid(fs: FileSystem, p: Path, mtime: int)
    requires IsTree(fs)
    ensures IsTree(ChtimesFs(fs, p, mtime).0)
  {
    var fs' := ChtimesFs(fs, p, mtime).0;
    forall q | q in fs' && q != [] ensures Parent(q) in fs' && fs'[Parent(q)] == Dir {
      if Parent(q) == p {
        assert fs[p] == Dir;
      }
    }
  }

  lemma RemoveAllValid(fs: FileSystem, p: Path)
    requires IsTree(fs)
    ensures IsTree(RemoveAllFs(fs, p))
  {
    var fs' := RemoveAllFs(fs, p);
    if p != [] {
      forall q | q in fs' && q != [] ensures Parent(q) in fs' && fs'[Parent(q)] == Dir {
        assert !(p <= q);
      }
    }
  }

  /** What RemoveAll leaves: everything not below `p`, unchanged. */
  lemma RemoveAllEffect(fs: FileSystem, p: Path)
    requires p != []
    ensures forall q :: q in RemoveAllFs(fs, p) <==> q in fs && !(p <= q)
    ensures forall q :: q in RemoveAllFs(fs, p) ==> RemoveAllFs(fs, p)[q] == fs[q]
  {
    var fs' := RemoveAllFs(fs, p);
    assert fs' == map q | q in fs && !(p <= q) :: fs[q];
  }

  /** A moved node lands at the same suffix below `to`. */
  lemma MoveAt(fs: FileSystem, from: Path, to: Path, s: Path)
    requires from + s in fs
    ensures to + s in Move(fs, from, to) && Move(fs, from, to)[to + s] == fs[from + s]
  {
    var q := from + s;
    assert from <= q && q[|from|..] == s;
    assert to + s in ShiftedKeys(fs, from, to);
    assert (to + s)[|to|..] == s;
  }

  /** A node below neither end of the move stays where it is. */
  lemma MoveKeeps(fs: FileSystem, from: Path, to: Path, q: Path)
    requires q in fs && !(from <= q) && !(to <= q)
    ensures q in Move(fs, from, to) && Move(fs, from, to)[q] == fs[q]
  {
  }

  /** The keys of a move: below `to`, from a node below `from`; elsewhere, an old node. */
  lemma MoveKeys(fs: FileSystem, from: Path, to: Path, k: Path)
    requires k in Move(fs, from, to)
    ensures to <= k ==> from + k[|to|..] in fs && Move(fs, from, to)[k] == fs[from + k[|to|..]]
    ensures !(to <= k) ==> k in fs && !(from <= k) && Move(fs, from, to)[k] == fs[k]
  {
    if k in Shift(fs, from, to) {
      ShiftedKey(fs, from, to, k);
    }
  }

  /** The parent of a moved node below `to` is the moved parent of its source. */
  lemma MoveParentShifted(fs: FileSystem, from: Path, to: Path, s: Path)
    requires s != [] && from + s in fs
    requires Parent(from + s) in fs && fs[Parent(from + s)] == Dir
    ensures Parent(to + s) in Move(fs, from, to) && Move(fs, from, to)[Parent(to + s)] == Dir
  {
    var s' := s[..|s| - 1];
    assert Parent(from + s) == from + s';
    assert Parent(to + s) == to + s';
    MoveAt(fs, from, to, s');
  }

  lemma MoveValidKept(fs: FileSystem, from: Path, to: Path, k: Path)
    requires IsTree(fs) && to != []
    requires k in Move(fs, from, to) && !(to <= k) && k != []
    ensures Parent(k) in Move(fs, from, to) && Move(fs, from, to)[Parent(k)] == Dir
  {
    MoveKeys(fs, from, to, k);
    MoveKeeps(fs, from, to, Parent(k));
  }

  lemma MoveValid(fs: FileSystem, from: Path, to: Path)
    requires IsTree(fs) && from != [] && to != []
    requires Parent(to) in fs && fs[Parent(to)] == Dir && !(from <= Parent(to))
    ensures IsTree(Move(fs, from, to))
  {
    var fs' := Move(fs, from, to);
    MoveKeeps(fs, from, to, []);
    forall k | k in fs' && k != [] ensures Parent(k) in fs' && fs'[Parent(k)] == Dir {
      if to <= k {
        MoveKeys(fs, from, to, k);
        var s := k[|to|..];
        assert k == to + s;
        if s == [] {
          MoveKeeps(fs, from, to, Parent(to));
          assert Parent(k) == Parent(to);
        } else {
          assert from + s != [];
          MoveParentShifted(fs, from, to, s);
          assert Parent(k) == Parent(to + s);
        }
      } else {
        MoveValidKept(fs, from, to, k);
      }
    }
  }

  lemma RenameValid(fs: FileSystem, from: Path, to: Path)
    requires IsTree(fs)
    ensures IsTree(RenameFs(fs, from, to).0)
  {
    var (fs', e) := RenameFs(fs, from, to);
    if e.None? && from != to {
      MoveValid(fs, from, to);
    }
  }

  // ---------------------------------------------------------------------
  // The disk the launcher runs on

  /** The filesystem as one mutable object: each `os` call the launcher
      makes is a method that replaces `nodes` by what the call's function
      above yields. `clock` is the time a write stamps on a file. */
  class Disk {
    var nodes: FileSystem
    const clock: int

    predicate Valid()
      reads this
    {
      IsTree(nodes)
    }

    constructor (init: FileSystem, now: int)
      requires IsTree(init)
      ensures nodes == init && clock == now && Valid()
    {
      nodes := init;
      clock := now;
    }

    method Stat(p: Path) returns (r: Result<Info, FsError>)
      ensures r == StatFs(nodes, p)
    {
      r := StatFs(nodes, p);
    }

    method MkdirAll(p: Path) returns (err: Option<FsError>)
      requires Valid()
      modifies this
      ensures (nodes, err) == MkdirAllFs(old(nodes), p) && Valid()
    {
      MkdirAllValid(nodes, p);
      var (n, e) := MkdirAllFs(nodes, p);
      nodes, err := n, e;
    }

    method Mkdir(p: Path) returns (err: Option<FsError>)
      requires Valid()
      modifies this
      ensures (nodes, err) == MkdirFs(old(nodes), p) && Valid()
    {
      MkdirValid(nodes, p);
      var (n, e) := MkdirFs(nodes, p);
      nodes, err := n, e;
    }

    method WriteFile(p: Path, data: seq<Byte>, mode: int) returns (err: Option<FsError>)
      requires Valid()
      modifies this
      ensures (nodes, err) == WriteFileFs(old(nodes), p, data, mode, clock) && Valid()
    {
      WriteFileValid(nodes, p, data, mode, clock);
      var (n, e) := WriteFileFs(nodes, p, data, mode, clock);
      nodes, err := n, e;
    }

    method Chtimes(p: Path, mtime: int) returns (err: Option<FsError>)
      requires Valid()
      modifies this
      ensures (nodes, err) == ChtimesFs(old(nodes), p, mtime) && Valid()
    {
      ChtimesValid(nodes, p, mtime);
      var (n, e) := ChtimesFs(nodes, p, mtime);
      nodes, err := n, e;
    }

    method Rename(from: Path, to: Path) returns (err: Option<FsError>)
      requires Valid()
      modifies this
      ensures (nodes, err) == RenameFs(old(nodes), from, to) && Valid()
    {
      RenameValid(nodes, from, to);
      var (n, e) := RenameFs(nodes, from, to);
      nodes, err := n, e;
    }

    /** os.RemoveAll; its error is never looked at by the launcher, and in
        this model it cannot fail. */
    method RemoveAll(p: Path)
      requires Valid()
      modifies this
      ensures nodes == RemoveAllFs(old(nodes), p) && Valid()
    {
      RemoveAllValid(nodes, p);
      nodes := RemoveAllFs(nodes, p);
    }
  }
}
