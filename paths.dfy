/** Path strings as the launcher builds them: Go's `strings.Split`,
    `strings.Join`, `strings.Replace`, `filepath.Join` (which cleans its
    result), `filepath.Base`, `path.Dir`, `path.Join`, and the `_filePath`
    helper of sushibox/mock.go.

    A cleaned absolute path is kept as its list of components: "/" is [],
    "/home/u/.sushibox" is ["home", "u", ".sushibox"]. */
module Paths {

  type Path = seq<string>

  const Slash: char := '/'
  const Backslash: char := '\\'

  /** A component that filepath.Clean keeps unchanged and that holds no separator. */
  predicate ProperName(c: string) {
    c != "" && c != "." && c != ".." && Slash !in c
  }

  /** A path every component of which is proper: what filepath.Clean returns. */
  predicate Clean(p: Path) {
    forall i :: 0 <= i < |p| ==> ProperName(p[i])
  }

  // ---------------------------------------------------------------------
  // strings.Split, strings.Join, strings.Replace

  /** strings.Split(s, string(sep)): the pieces between separators; "" gives [""]. */
  function Split(s: string, sep: char): (r: seq<string>)
    ensures |r| >= 1
    ensures forall i :: 0 <= i < |r| ==> sep !in r[i]
    decreases |s|
  {
    if s == [] then [[]]
    else
      var t := Split(s[1..], sep);
      if s[0] == sep then [[]] + t else [[s[0]] + t[0]] + t[1..]
  }

  /** strings.Join(ps, string(sep)). */
  function JoinWith(ps: seq<string>, sep: char): string
    decreases |ps|
  {
    if |ps| == 0 then []
    else if |ps| == 1 then ps[0]
    else ps[0] + [sep] + JoinWith(ps[1..], sep)
  }

  /** strings.Replace(s, string(a), string(b), -1). */
  function ReplaceAll(s: string, a: char, b: char): (r: string)
    ensures |r| == |s|
    ensures forall i :: 0 <= i < |s| ==> r[i] == (if s[i] == a then b else s[i])
  {
    seq(|s|, i requires 0 <= i < |s| => if s[i] == a then b else s[i])
  }

  /** Joining the pieces of a split gives back the string. */
  lemma {:induction false} JoinSplit(s: string, sep: char)
    ensures JoinWith(Split(s, sep), sep) == s
    decreases |s|
  {
    if s != [] {
      var t := Split(s[1..], sep);
      JoinSplit(s[1..], sep);
      if s[0] == sep {
        assert Split(s, sep) == [[]] + t;
        assert ([[]] + t)[1..] == t;
      } else if |t| == 1 {
        assert Split(s, sep) == [[s[0]] + t[0]];
      } else {
        var r := [[s[0]] + t[0]] + t[1..];
        assert Split(s, sep) == r;
        assert r[1..] == t[1..];
        assert JoinWith(t, sep) == t[0] + [sep] + JoinWith(t[1..], sep);
      }
    }
  }

  lemma {:induction false} SplitNoSep(x: string, sep: char)
    requires sep !in x
    ensures Split(x, sep) == [x]
    decreases |x|
  {
    if x != [] {
      assert sep !in x[1..] by {
        forall i | 0 <= i < |x[1..]| ensures x[1..][i] != sep { assert x[1..][i] == x[i + 1]; }
      }
      SplitNoSep(x[1..], sep);
      assert [x[0]] + x[1..] == x;
    }
  }

  lemma {:induction false} SplitAtSep(x: string, y: string, sep: char)
    requires sep !in x
    ensures Split(x + [sep] + y, sep) == [x] + Split(y, sep)
    decreases |x|
  {
    var s := x + [sep] + y;
    if x == [] {
      assert s[0] == sep && s[1..] == y;
    } else {
      assert s[0] == x[0] && s[1..] == x[1..] + [sep] + y;
      assert sep !in x[1..] by {
        forall i | 0 <= i < |x[1..]| ensures x[1..][i] != sep { assert x[1..][i] == x[i + 1]; }
      }
      SplitAtSep(x[1..], y, sep);
      assert [x[0]] + x[1..] == x;
    }
  }

  /** Splitting a join of separator-free pieces gives back the pieces. */
  lemma {:induction false} SplitJoin(ps: seq<string>, sep: char)
    requires |ps| >= 1
    requires forall i :: 0 <= i < |ps| ==> sep !in ps[i]
    ensures Split(JoinWith(ps, sep), sep) == ps
    decreases |ps|
  {
    if |ps| == 1 {
      SplitNoSep(ps[0], sep);
    } else {
      SplitJoin(ps[1..], sep);
      SplitAtSep(ps[0], JoinWith(ps[1..], sep), sep);
      assert [ps[0]] + ps[1..] == ps;
    }
  }

  lemma {:induction false} JoinWithSnoc(ps: seq<string>, x: string, sep: char)
    requires |ps| >= 1
    ensures JoinWith(ps + [x], sep) == JoinWith(ps, sep) + [sep] + x
    decreases |ps|
  {
    if |ps| == 1 {
      assert (ps + [x])[1..] == [x];
    } else {
      assert (ps + [x])[1..] == ps[1..] + [x];
      JoinWithSnoc(ps[1..], x, sep);
    }
  }

  lemma {:induction false} JoinWithFree(ps: seq<string>, sep: char, c: char)
    requires c != sep
    requires forall i :: 0 <= i < |ps| ==> c !in ps[i]
    ensures c !in JoinWith(ps, sep)
    decreases |ps|
  {
    if |ps| > 1 {
      JoinWithFree(ps[1..], sep, c);
    }
  }

  // ---------------------------------------------------------------------
  // filepath.Join / filepath.Clean on rooted paths

  /** What filepath.Clean does to a rooted path whose components, after the
      cleaned prefix `acc`, are `parts`: empty and "." components vanish, ".."
      removes the previous component, and ".." at the root stays at the root. */
  function CleanFrom(acc: Path, parts: seq<string>): Path
    decreases |parts|
  {
    if parts == [] then acc
    else if parts[0] == "" || parts[0] == "." then CleanFrom(acc, parts[1..])
    else if parts[0] == ".." then CleanFrom(if acc == [] then [] else acc[..|acc| - 1], parts[1..])
    else CleanFrom(acc + [parts[0]], parts[1..])
  }

  /** filepath.Join(base, elem) for a cleaned absolute `base`. */
  function Join(base: Path, elem: string): Path {
    CleanFrom(base, Split(elem, Slash))
  }

  /** The string filepath.Join returns for a cleaned absolute path. */
  function Render(p: Path): string {
    [Slash] + JoinWith(p, Slash)
  }

  /** The components `_filePath` splits a name into. */
  function Components(name: string): seq<string> {
    Split(ReplaceAll(name, Backslash, Slash), Slash)
  }

  /** `_filePath(dir, name)` of sushibox/mock.go: every backslash of `name`
      becomes a slash, and `dir` is joined with the resulting components. */
  function FilePath(dir: Path, name: string): Path {
    CleanFrom(dir, Components(name))
  }

  /** path.Dir(name): all but the last slash-separated element, or "." when
      there is a single element. path.Dir also cleans its result, which this
      function does not. The two agree on a slash-join of proper names, the
      only names RestoreAssets passes (FilePathOfDirName); they can differ
      once `name` holds "..", "." or empty elements, as for "a\\b/../c/d". */
  function DirName(name: string): string {
    var parts := Split(name, Slash);
    if |parts| == 1 then "." else JoinWith(parts[..|parts| - 1], Slash)
  }

  /** path.Join(name, child) for the arguments RestoreAssets passes: `name`
      is "" or a join of proper names and `child` a proper name, which are
      already clean, so path.Join's own cleaning changes nothing. */
  function PathJoin(name: string, child: string): string {
    if name == "" then child else name + [Slash] + child
  }

  lemma {:induction false} CleanFromProper(acc: Path, parts: seq<string>)
    requires forall i :: 0 <= i < |parts| ==> ProperName(parts[i])
    ensures CleanFrom(acc, parts) == acc + parts
    decreases |parts|
  {
    if parts != [] {
      CleanFromProper(acc + [parts[0]], parts[1..]);
      assert acc + [parts[0]] + parts[1..] == acc + parts;
    }
  }

  lemma {:induction false} CleanFromAppend(acc: Path, xs: seq<string>, ys: seq<string>)
    ensures CleanFrom(acc, xs + ys) == CleanFrom(CleanFrom(acc, xs), ys)
    decreases |xs|
  {
    if xs != [] {
      assert (xs + ys)[0] == xs[0] && (xs + ys)[1..] == xs[1..] + ys;
      var acc' := if xs[0] == "" || xs[0] == "." then acc
                  else if xs[0] == ".." then (if acc == [] then [] else acc[..|acc| - 1])
                  else acc + [xs[0]];
      CleanFromAppend(acc', xs[1..], ys);
    } else {
      assert xs + ys == ys;
    }
  }

  /** Without ".." components, cleaning never climbs out of the prefix. */
  lemma {:induction false} CleanFromInside(acc: Path, parts: seq<string>)
    requires forall i :: 0 <= i < |parts| ==> parts[i] != ".."
    ensures acc <= CleanFrom(acc, parts)
    decreases |parts|
  {
    if parts != [] {
      if parts[0] == "" || parts[0] == "." {
        CleanFromInside(acc, parts[1..]);
      } else {
        CleanFromInside(acc + [parts[0]], parts[1..]);
      }
    }
  }

  /** Cleaning a separator-free list onto a clean prefix gives a clean path. */
  lemma {:induction false} CleanFromIsClean(acc: Path, parts: seq<string>)
    requires Clean(acc)
    requires forall i :: 0 <= i < |parts| ==> Slash !in parts[i]
    ensures Clean(CleanFrom(acc, parts))
    decreases |parts|
  {
    if parts != [] {
      if parts[0] == "" || parts[0] == "." {
        CleanFromIsClean(acc, parts[1..]);
      } else if parts[0] == ".." {
        CleanFromIsClean(if acc == [] then [] else acc[..|acc| - 1], parts[1..]);
      } else {
        CleanFromIsClean(acc + [parts[0]], parts[1..]);
      }
    }
  }

  /** filepath.Join(base, name) of a proper name appends that one component. */
  lemma JoinProper(base: Path, name: string)
    requires ProperName(name)
    ensures Join(base, name) == base + [name]
  {
    SplitNoSep(name, Slash);
    CleanFromProper(base, [name]);
  }

  lemma ReplaceAllAbsent(s: string, a: char, b: char)
    requires a !in s
    ensures ReplaceAll(s, a, b) == s
  {
  }

  /** `_filePath` of the slash-join of clean, backslash-free components is
      the directory extended by those components. */
  lemma FilePathOfJoined(dir: Path, p: Path)
    requires |p| >= 1 && Clean(p)
    requires forall i :: 0 <= i < |p| ==> Backslash !in p[i]
    ensures FilePath(dir, JoinWith(p, Slash)) == dir + p
  {
    var name := JoinWith(p, Slash);
    JoinWithFree(p, Slash, Backslash);
    ReplaceAllAbsent(name, Backslash, Slash);
    SplitJoin(p, Slash);
    CleanFromProper(dir, p);
  }

  /** ... and `_filePath` of its path.Dir is the directory extended by all
      but the last component. */
  lemma FilePathOfDirName(dir: Path, p: Path)
    requires |p| >= 1 && Clean(p)
    requires forall i :: 0 <= i < |p| ==> Backslash !in p[i]
    ensures FilePath(dir, DirName(JoinWith(p, Slash))) == dir + p[..|p| - 1]
  {
    DirNameOfJoined(p);
    if |p| == 1 {
      FilePathOfDot(dir);
      assert dir + p[..0] == dir;
    } else {
      FilePathOfJoined(dir, p[..|p| - 1]);
    }
  }

  /** path.Dir of a slash-join of proper names drops the last one. */
  lemma DirNameOfJoined(p: Path)
    requires |p| >= 1 && Clean(p)
    ensures DirName(JoinWith(p, Slash)) == if |p| == 1 then "." else JoinWith(p[..|p| - 1], Slash)
  {
    SplitJoin(p, Slash);
  }

  /** `_filePath(dir, ".")` is `dir`. */
  lemma FilePathOfDot(dir: Path)
    ensures FilePath(dir, ".") == dir
  {
    SplitNoSep(".", Slash);
    ReplaceAllAbsent(".", Backslash, Slash);
    assert Components(".") == ["."];
    assert ["."][1..] == [];
  }

  lemma ReplaceAllTwice(s: string, a: char, b: char)
    ensures ReplaceAll(ReplaceAll(s, a, b), a, b) == ReplaceAll(s, a, b)
  {
  }

  /** `_filePath` first canonicalises the name, so a name already in
      canonical (slash) form lands on the same path. */
  lemma FilePathCanonical(dir: Path, name: string)
    ensures FilePath(dir, ReplaceAll(name, Backslash, Slash)) == FilePath(dir, name)
  {
    ReplaceAllTwice(name, Backslash, Slash);
  }

  /** A name none of whose components is ".." stays inside `dir`. */
  lemma FilePathInside(dir: Path, name: string)
    requires forall i :: 0 <= i < |Components(name)| ==> Components(name)[i] != ".."
    ensures dir <= FilePath(dir, name)
  {
    CleanFromInside(dir, Components(name));
  }

  /** Splitting after a last separator-free piece: that piece comes last. */
  lemma {:induction false} SplitSnoc(x: string, y: string, sep: char)
    requires sep !in y
    ensures Split(x + [sep] + y, sep) == Split(x, sep) + [y]
    decreases |x|
  {
    var s := x + [sep] + y;
    if x == [] {
      assert s[0] == sep && s[1..] == y;
      SplitNoSep(y, sep);
    } else {
      assert s[0] == x[0] && s[1..] == x[1..] + [sep] + y;
      SplitSnoc(x[1..], y, sep);
      var t := Split(x[1..], sep);
      assert Split(s[1..], sep) == t + [y];
      if x[0] != sep {
        assert (t + [y])[0] == t[0] && (t + [y])[1..] == t[1..] + [y];
      }
    }
  }

  /** filepath.Join of a cleaned absolute path and the join of clean
      components extends the path by those components ("" adds nothing). */
  lemma JoinOfJoined(base: Path, p: Path)
    requires Clean(p)
    ensures Join(base, JoinWith(p, Slash)) == base + p
  {
    if p == [] {
      assert Split("", Slash) == [""];
      assert [""][1..] == [];
      assert base + p == base;
    } else {
      SplitJoin(p, Slash);
      CleanFromProper(base, p);
    }
  }

  /** filepath.Join(base, path.Join(name, c)) for a proper `c` is one
      component deeper than filepath.Join(base, name), whatever `name` is. */
  lemma JoinOfPathJoin(base: Path, name: string, c: string)
    requires ProperName(c)
    ensures Join(base, PathJoin(name, c)) == Join(base, name) + [c]
  {
    if name == "" {
      JoinProper(base, c);
      assert Split("", Slash) == [""];
      assert [""][1..] == [];
    } else {
      SplitSnoc(name, c, Slash);
      CleanFromAppend(base, Split(name, Slash), [c]);
      CleanFromProper(Join(base, name), [c]);
    }
  }

  /** A prefix that is not the whole path is a proper prefix. */
  lemma StrictPrefix(a: Path, b: Path)
    requires a <= b && a != b
    ensures a < b
  {
  }

  /** path.Join of a join of components and one more proper name is the
      join of the longer list. */
  lemma PathJoinSnoc(p: Path, c: string)
    requires Clean(p)
    ensures PathJoin(JoinWith(p, Slash), c) == JoinWith(p + [c], Slash)
  {
    if |p| == 0 {
      assert p + [c] == [c];
    } else {
      JoinWithSnoc(p, c, Slash);
      assert JoinWith(p, Slash) != "" by {
        if |p| > 1 { assert JoinWith(p, Slash) == p[0] + [Slash] + JoinWith(p[1..], Slash); }
      }
    }
  }

  // ---------------------------------------------------------------------
  // filepath.Base

  function TrimTrailingSlashes(s: string): string
    decreases |s|
  {
    if s != [] && s[|s| - 1] == Slash then TrimTrailingSlashes(s[..|s| - 1]) else s
  }

  /** The part of `s` after its last slash. */
  function LastElem(s: string): string
    decreases |s|
  {
    if s == [] || s[|s| - 1] == Slash then [] else LastElem(s[..|s| - 1]) + [s[|s| - 1]]
  }

  /** filepath.Base(s) on a Unix system. */
  function Base(s: string): string {
    if s == "" then "."
    else
      var t := TrimTrailingSlashes(s);
      if t == "" then [Slash] else LastElem(t)
  }

  lemma {:induction false} LastElemFree(s: string)
    requires Slash !in s
    ensures LastElem(s) == s
    decreases |s|
  {
    if s != [] {
      LastElemFree(s[..|s| - 1]);
    }
  }

  lemma {:induction false} LastElemAfterSlash(x: string, y: string)
    requires Slash !in y
    ensures LastElem(x + [Slash] + y) == y
    decreases |y|
  {
    var s := x + [Slash] + y;
    if y == [] {
      assert s[|s| - 1] == Slash;
    } else {
      assert s[..|s| - 1] == x + [Slash] + y[..|y| - 1];
      LastElemAfterSlash(x, y[..|y| - 1]);
      assert y[..|y| - 1] + [y[|y| - 1]] == y;
    }
  }

  /** The base name of a rendered path is its last component: the name a
      command would see as argv[0]'s basename. */
  lemma BaseOfRender(p: Path)
    requires |p| >= 1 && Clean(p)
    ensures Base(Render(p)) == p[|p| - 1]
  {
    var last := p[|p| - 1];
    var init := p[..|p| - 1];
    var s := Render(p);
    if |p| == 1 {
      assert s == [Slash] + last;
      assert [] + [Slash] + last == [Slash] + last;
      LastElemAfterSlash([], last);
      assert LastElem(s) == last;
    } else {
      assert p == init + [last];
      JoinWithSnoc(init, last, Slash);
      assert s == ([Slash] + JoinWith(init, Slash)) + [Slash] + last;
      LastElemAfterSlash([Slash] + JoinWith(init, Slash), last);
      assert LastElem(s) == last;
    }
    assert s[|s| - 1] == last[|last| - 1];
    assert TrimTrailingSlashes(s) == s;
  }

  /** A plain name is its own base name. */
  lemma BaseOfName(s: string)
    requires s != "" && Slash !in s
    ensures Base(s) == s
  {
    LastElemFree(s);
  }

  // ---------------------------------------------------------------------
  // strings.TrimPrefix, and the relative names the asset walk produces

  /** strings.TrimPrefix(s, pre). */
  function TrimPrefix(s: string, pre: string): (r: string)
    ensures pre <= s ==> pre + r == s
    ensures !(pre <= s) ==> r == s
  {
    if pre <= s then s[|pre|..] else s
  }

  /** A string without a character that the prefix holds is left alone. */
  lemma TrimPrefixAbsent(s: string, pre: string, c: char)
    requires c in pre && c !in s
    ensures TrimPrefix(s, pre) == s
  {
  }

  lemma {:induction false} JoinWithAppend(a: seq<string>, b: seq<string>, sep: char)
    requires |a| >= 1 && |b| >= 1
    ensures JoinWith(a + b, sep) == JoinWith(a, sep) + [sep] + JoinWith(b, sep)
    decreases |a|
  {
    if |a| == 1 {
      assert (a + b)[1..] == b;
    } else {
      assert (a + b)[1..] == a[1..] + b;
      JoinWithAppend(a[1..], b, sep);
    }
  }

  /** The name of `p` relative to `dir` as the asset walk derives it: the
      rendered path with the rendered `dir` and a separator trimmed off. */
  function RelativeTo(dir: Path, p: Path): string {
    TrimPrefix(Render(p), Render(dir) + [Slash])
  }

  /** The first character of a join of clean components is not a separator. */
  lemma JoinWithHead(p: Path)
    requires |p| >= 1 && Clean(p)
    ensures |JoinWith(p, Slash)| >= 1 && JoinWith(p, Slash)[0] != Slash
  {
    if |p| > 1 {
      assert JoinWith(p, Slash) == p[0] + [Slash] + JoinWith(p[1..], Slash);
    }
    assert p[0][0] in p[0];
  }

  /** Joining a directory with the relative name of `dir + rel` lands on the
      directory extended by `rel`. Below the root the name is the slash-join
      of `rel`; below "/" it keeps its leading slash, which Join drops again. */
  lemma JoinOfRelative(base: Path, dir: Path, rel: Path)
    requires |rel| >= 1 && Clean(rel)
    ensures Join(base, RelativeTo(dir, dir + rel)) == base + rel
  {
    if dir == [] {
      assert dir + rel == rel;
      JoinOfRelativeRoot(base, rel);
    } else {
      JoinOfRelativeBelow(base, dir, rel);
    }
  }

  lemma JoinOfRelativeRoot(base: Path, rel: Path)
    requires |rel| >= 1 && Clean(rel)
    ensures Join(base, RelativeTo([], rel)) == base + rel
  {
    var j := JoinWith(rel, Slash);
    JoinWithHead(rel);
    var pre := [Slash] + JoinWith([], Slash) + [Slash];
    assert pre == [Slash, Slash];
    assert Render(rel)[1] == j[0];
    assert RelativeTo([], rel) == [] + [Slash] + j;
    SplitAtSep([], j, Slash);
    SplitJoin(rel, Slash);
    CleanFromProper(base, rel);
  }

  lemma JoinOfRelativeBelow(base: Path, dir: Path, rel: Path)
    requires |rel| >= 1 && Clean(rel) && dir != []
    ensures Join(base, RelativeTo(dir, dir + rel)) == base + rel
  {
    var j := JoinWith(rel, Slash);
    JoinWithHead(rel);
    JoinWithAppend(dir, rel, Slash);
    assert Render(dir + rel) == (Render(dir) + [Slash]) + j;
    assert RelativeTo(dir, dir + rel) == j;
    JoinOfJoined(base, rel);
  }
}
