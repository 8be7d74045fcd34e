/** parseArgs (sushibox.go): the command is the base name the launcher was
    started under; the flag package reads the one flag, -version, off the
    front of the arguments; started as "sushibox" the first remaining
    argument names the command. */
module Args {
  import opened Wrappers
  import opened Paths

  /** strconv.ParseBool */
  function ParseBool(s: string): Option<bool> {
    if s in ["1", "t", "T", "TRUE", "true", "True"] then Some(true)
    else if s in ["0", "f", "F", "FALSE", "false", "False"] then Some(false)
    else None
  }

  /** An argument the flag package reads as a flag: a dash and at least one more character. */
  predicate LooksLikeFlag(s: string) {
    |s| >= 2 && s[0] == '-'
  }

  /** The index of the first '=' in `s` at or after `i`, or |s|. */
  function FirstEquals(s: string, i: nat): (j: nat)
    requires i <= |s|
    ensures i <= j <= |s| && (j < |s| ==> s[j] == '=')
    ensures forall k :: i <= k < j ==> s[k] != '='
    decreases |s| - i
  {
    if i == |s| || s[i] == '=' then i else FirstEquals(s, i + 1)
  }

  /** What flag.Parse makes of the command line: the -version value and the
      arguments after the flags, or a request for help, or a bad flag. */
  datatype Flags = Parsed(version: bool, rest: seq<string>) | HelpRequested | BadFlag(arg: string)

  /** How the flag package reads one argument. */
  datatype Token = NotAFlag | EndOfFlags | SetVersion(value: bool) | AskHelp | Invalid

  /** flag.FlagSet.parseOne for a set holding only the boolean flag
      "version": "--" ends the flags; one or two dashes then the name;
      "-version" sets it, "-version=v" sets it to strconv.ParseBool(v);
      "-h" and "-help" ask for help; any other name, a bad value, or a name
      starting with '-' or '=' is an error. */
  function Classify(s: string): (t: Token)
    ensures t == NotAFlag <==> !LooksLikeFlag(s)
    ensures t == EndOfFlags <==> s == "--"
  {
    if !LooksLikeFlag(s) then NotAFlag
    else if s == "--" then EndOfFlags
    else
      var name := if s[1] == '-' then s[2..] else s[1..];
      if name[0] == '-' || name[0] == '=' then Invalid
      else
        var j := FirstEquals(name, 1);
        var key := name[..j];
        if key != "version" then
          if key == "help" || key == "h" then AskHelp else Invalid
        else if j == |name| then SetVersion(true)
        else match ParseBool(name[j + 1..])
          case None => Invalid
          case Some(b) => SetVersion(b)
  }

  /** flag.Parse: read flags off the front until an argument that is not a
      flag (which stays) or a "--" (which is dropped). */
  function ParseFlags(args: seq<string>, version: bool): (r: Flags)
    ensures r.Parsed? ==> |r.rest| <= |args| && r.rest == args[|args| - |r.rest|..]
    decreases |args|
  {
    if args == [] then Parsed(version, [])
    else match Classify(args[0])
      case NotAFlag => Parsed(version, args)
      case EndOfFlags => Parsed(version, args[1..])
      case SetVersion(b) => ParseFlags(args[1..], b)
      case AskHelp => HelpRequested
      case Invalid => BadFlag(args[0])
  }

  /** Parsing stops either at an argument that is not a flag, which stays,
      or right after a "--", which is dropped. */
  lemma {:induction false} ParseFlagsStops(args: seq<string>, version: bool)
    requires ParseFlags(args, version).Parsed?
    ensures var rest := ParseFlags(args, version).rest;
      rest == [] || !LooksLikeFlag(rest[0]) || (|rest| < |args| && args[|args| - |rest| - 1] == "--")
    decreases |args|
  {
    if args == [] {
    } else if Classify(args[0]) == NotAFlag {
    } else if Classify(args[0]) == EndOfFlags {
    } else if Classify(args[0]).SetVersion? {
      var b := Classify(args[0]).value;
      assert ParseFlags(args, version) == ParseFlags(args[1..], b);
      ParseFlagsStops(args[1..], b);
      var rest := ParseFlags(args, version).rest;
      if |rest| < |args[1..]| {
        assert args[|args| - |rest| - 1] == args[1..][|args[1..]| - |rest| - 1];
      }
    }
  }

  /** "-version" and "--version" set the flag. */
  lemma ClassifyVersion()
    ensures Classify("-version") == SetVersion(true)
    ensures Classify("--version") == SetVersion(true)
  {
    var name := "version";
    assert "-version"[1..] == name && "--version"[2..] == name;
    assert '=' !in name;
    FirstEqualsAbsent(name, 1);
    assert name[..|name|] == name;
  }

  lemma {:induction false} FirstEqualsAbsent(s: string, i: nat)
    requires i <= |s| && '=' !in s
    ensures FirstEquals(s, i) == |s|
    decreases |s| - i
  {
    if i < |s| {
      assert s[i] in s;
      FirstEqualsAbsent(s, i + 1);
    }
  }

  /** What the launcher does after parsing its arguments. */
  datatype Outcome =
    /** -version: print Version and exit 0 */
    | ShowVersion
    /** print the usage line naming `cmd`, exit with `code` (0 after -h, 1 without a command) */
    | ShowUsage(cmd: string, code: int)
    /** the flag package's error and the usage line, exit 2 */
    | FlagFailure(cmd: string, arg: string)
    /** run command `cmd` with `args` */
    | Dispatch(cmd: string, args: seq<string>)

  /** parseArgs, from os.Args[0] and the arguments after it. */
  function ParseArgs(argv0: string, tail: seq<string>): Outcome {
    var cmd := Base(argv0);
    match ParseFlags(tail, false)
    case HelpRequested => ShowUsage(cmd, 0)
    case BadFlag(arg) => FlagFailure(cmd, arg)
    case Parsed(version, args) =>
      if version then ShowVersion
      else if cmd == "sushibox" then
        if |args| == 0 then ShowUsage(cmd, 1) else Dispatch(args[0], args[1..])
      else Dispatch(cmd, args)
  }

  /** A dispatched command gets a suffix of the arguments: under its own
      name (a link to the launcher) all arguments after the flags, under
      the name "sushibox" those after the one naming the command. */
  lemma ParseArgsDispatch(argv0: string, tail: seq<string>)
    requires ParseArgs(argv0, tail).Dispatch?
    ensures var r := ParseArgs(argv0, tail);
      exists k :: 0 <= k <= |tail| && r.args == tail[k..] &&
        (Base(argv0) == "sushibox" ==> k >= 1 && r.cmd == tail[k - 1]) &&
        (Base(argv0) != "sushibox" ==> r.cmd == Base(argv0))
  {
    var r := ParseArgs(argv0, tail);
    var rest := ParseFlags(tail, false).rest;
    var k := |tail| - |rest|;
    if Base(argv0) == "sushibox" {
      assert r.args == tail[k + 1..] && r.cmd == tail[k];
    } else {
      assert r.args == tail[k..];
    }
  }

  /** Without a leading flag the arguments pass through unread: started as
      "sushibox" the first one is the command, started under another name
      that name is, and "sushibox" alone prints the usage and exits 1. */
  lemma ParseArgsPlain(argv0: string, tail: seq<string>)
    requires tail == [] || !LooksLikeFlag(tail[0])
    ensures Base(argv0) == "sushibox" && tail != [] ==> ParseArgs(argv0, tail) == Dispatch(tail[0], tail[1..])
    ensures Base(argv0) == "sushibox" && tail == [] ==> ParseArgs(argv0, tail) == ShowUsage("sushibox", 1)
    ensures Base(argv0) != "sushibox" ==> ParseArgs(argv0, tail) == Dispatch(Base(argv0), tail)
  {
  }

  /** A leading -version prints the version, whatever the launcher is called. */
  lemma VersionFlag(argv0: string, rest: seq<string>)
    requires rest == [] || !LooksLikeFlag(rest[0])
    ensures ParseArgs(argv0, ["-version"] + rest) == ShowVersion
  {
    ClassifyVersion();
    var a := ["-version"] + rest;
    assert a[0] == "-version" && a[1..] == rest;
    assert ParseFlags(a, false) == ParseFlags(rest, true);
  }

  /** The invocations of the launcher's own test file. */
  lemma ParseArgsExamples()
    ensures ParseArgs("sushibox", ["foo", "bar", "baz"]) == Dispatch("foo", ["bar", "baz"])
    ensures ParseArgs("a", ["b", "c"]) == Dispatch("a", ["b", "c"])
    ensures ParseArgs("sushibox", []) == ShowUsage("sushibox", 1)
    ensures ParseArgs("sushibox", ["-version"]) == ShowVersion
    ensures ParseArgs("foo", ["-version"]) == ShowVersion
  {
    BaseOfName("sushibox");
    BaseOfName("a");
    VersionFlag("sushibox", []);
    VersionFlag("foo", []);
    assert ["foo", "bar", "baz"][1..] == ["bar", "baz"];
  }

  /** Started through a path, the launcher goes by that path's last component. */
  lemma ParseArgsByPath(dir: Path, tail: seq<string>)
    requires Clean(dir + ["sushibox"]) && tail != [] && !LooksLikeFlag(tail[0])
    ensures ParseArgs(Render(dir + ["sushibox"]), tail) == Dispatch(tail[0], tail[1..])
  {
    BaseOfRender(dir + ["sushibox"]);
  }
}
