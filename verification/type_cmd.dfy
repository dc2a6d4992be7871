/** The `type` builtin and the search-path resolver `get_executable` (src/type_cmd.rs).

    The environment and the filesystem are parameters: `path` is the value of
    `PATH`, and a `FileSystem` says which paths exist and which metadata query
    succeeds with which permission mode. */
module TypeCmd {
  import opened Wrappers
  import opened Text

  /** The names `check_type` reports as builtins. */
  const BuiltinCommands: seq<string> := ["echo", "exit", "type"]

  /** A Unix permission mode, as `PermissionsExt::mode` returns it. */
  type Mode = bv32

  /** What the resolver can observe: `Path::exists` is membership in `existing`,
      and `fs::metadata` succeeds exactly for the paths in `metadata`. Since
      `Path::exists` is itself a successful metadata query, the two agree unless
      the filesystem changes between the two calls; keeping them apart lets a
      `FileSystem` describe the outcome of that race. */
  datatype FileSystem = FileSystem(existing: set<string>, metadata: map<string, Mode>)

  /** The mask 0o111: the owner, group and other execute bits. */
  const ExecuteBits: Mode := 0x49

  predicate IsExecutable(mode: Mode) {
    mode & ExecuteBits != 0
  }

  /** A candidate the resolver accepts: it exists, its metadata can be read, and
      some execute bit is set. */
  predicate Runnable(fs: FileSystem, p: string) {
    p in fs.existing && p in fs.metadata && IsExecutable(fs.metadata[p])
  }

  /** `format!("{}/{}", entry, cmd)`: joined as text, never canonicalised. */
  function Candidate(entry: string, cmd: string): string {
    entry + "/" + cmd
  }

  /** The first entry, from the left, whose candidate is runnable. */
  function FirstExecutable(entries: seq<string>, cmd: string, fs: FileSystem): (r: Option<string>)
    ensures r.Some? ==> Runnable(fs, r.value)
    ensures r.Some? ==> exists i :: 0 <= i < |entries| && r.value == Candidate(entries[i], cmd)
    ensures r.None? <==> forall e :: e in entries ==> !Runnable(fs, Candidate(e, cmd))
  {
    if entries == [] then None
    else if Runnable(fs, Candidate(entries[0], cmd)) then Some(Candidate(entries[0], cmd))
    else
      var r := FirstExecutable(entries[1..], cmd, fs);
      assert r.Some? ==> exists i :: 0 <= i < |entries| && r.value == Candidate(entries[i], cmd) by {
        if r.Some? {
          var i :| 0 <= i < |entries[1..]| && r.value == Candidate(entries[1..][i], cmd);
          assert entries[1..][i] == entries[i + 1];
        }
      }
      assert forall e :: e in entries ==> e == entries[0] || e in entries[1..];
      r
  }

  /** `get_executable`: search the `:`-separated entries of `path`. A result is a
      runnable candidate built from one of the entries, and there is none exactly
      when no entry provides a runnable candidate. */
  function GetExecutable(cmd: string, path: string, fs: FileSystem): (r: Option<string>)
    ensures r.Some? ==> Runnable(fs, r.value)
    ensures r.Some? ==> exists i :: 0 <= i < |SplitOn(path, ':')| && r.value == Candidate(SplitOn(path, ':')[i], cmd)
    ensures r.None? <==> forall e :: e in SplitOn(path, ':') ==> !Runnable(fs, Candidate(e, cmd))
  {
    FirstExecutable(SplitOn(path, ':'), cmd, fs)
  }

  /** The leftmost runnable entry wins: every entry before it, existing or not,
      executable or not, is passed over. */
  lemma {:induction false} FirstExecutableLeftmost(entries: seq<string>, cmd: string, fs: FileSystem, i: nat)
    requires i < |entries| && Runnable(fs, Candidate(entries[i], cmd))
    requires forall j :: 0 <= j < i ==> !Runnable(fs, Candidate(entries[j], cmd))
    ensures FirstExecutable(entries, cmd, fs) == Some(Candidate(entries[i], cmd))
  {
    if i > 0 {
      assert !Runnable(fs, Candidate(entries[0], cmd));
      forall j | 0 <= j < i - 1 ensures !Runnable(fs, Candidate(entries[1..][j], cmd)) {
        assert entries[1..][j] == entries[j + 1];
      }
      FirstExecutableLeftmost(entries[1..], cmd, fs, i - 1);
    }
  }

  /** What `get_executable` returns, entry by entry of `PATH`: the candidate
      built from the leftmost `:`-separated entry that is runnable. */
  lemma GetExecutableLeftmost(cmd: string, path: string, fs: FileSystem, i: nat)
    requires i < |SplitOn(path, ':')|
    requires Runnable(fs, Candidate(SplitOn(path, ':')[i], cmd))
    requires forall j :: 0 <= j < i ==> !Runnable(fs, Candidate(SplitOn(path, ':')[j], cmd))
    ensures GetExecutable(cmd, path, fs) == Some(SplitOn(path, ':')[i] + "/" + cmd)
  {
    FirstExecutableLeftmost(SplitOn(path, ':'), cmd, fs, i);
  }

  /** An earlier candidate that exists but has no execute bit, or whose metadata
      cannot be read, is skipped for a runnable one further along `PATH`. */
  lemma NonExecutableSkipped(cmd: string, first: string, second: string, fs: FileSystem)
    requires ':' !in first && ':' !in second
    requires Candidate(first, cmd) in fs.existing
    requires Candidate(first, cmd) !in fs.metadata || !IsExecutable(fs.metadata[Candidate(first, cmd)])
    requires Runnable(fs, Candidate(second, cmd))
    ensures GetExecutable(cmd, first + ":" + second, fs) == Some(second + "/" + cmd)
  {
    var entries := SplitOn(first + ":" + second, ':');
    SplitOnTwo(first, second, ':');
    FirstExecutableLeftmost(entries, cmd, fs, 1);
  }

  lemma {:induction false} DelimPiecesAppend(x: string, y: string, d: char)
    ensures DelimPieces(x + y, d) == DelimPieces(x, d) + DelimPieces(y, d)
  {
    if x == [] {
      assert x + y == y;
    } else {
      assert (x + y)[1..] == x[1..] + y;
      DelimPiecesAppend(x[1..], y, d);
    }
  }

  /** Two delimiter-free parts joined by one delimiter split back into exactly those parts. */
  lemma SplitOnTwo(x: string, y: string, d: char)
    requires d !in x && d !in y
    ensures SplitOn(x + [d] + y, d) == [x, y]
  {
    DelimPiecesAppend(x + [d], y, d);
    DelimPiecesAppend(x, [d], d);
    assert DelimPieces([d], d) == [Sep];
    DelimPiecesNoDelim(x, d);
    DelimPiecesNoDelim(y, d);
    FieldsAppendSep(KeepAll(x), KeepAll(y));
    KeepAllKept(x);
    KeepAllKept(y);
    FieldsNoSep(KeepAll(x));
    FieldsNoSep(KeepAll(y));
  }

  /** An empty `PATH` entry yields the candidate `/<cmd>`: when it is the first
      entry to give a runnable candidate, that is what is found. */
  lemma EmptyEntryMeansRoot(cmd: string, path: string, fs: FileSystem, i: nat)
    requires i < |SplitOn(path, ':')| && SplitOn(path, ':')[i] == ""
    requires Runnable(fs, "/" + cmd)
    requires forall j :: 0 <= j < i ==> !Runnable(fs, Candidate(SplitOn(path, ':')[j], cmd))
    ensures GetExecutable(cmd, path, fs) == Some("/" + cmd)
  {
    assert Candidate("", cmd) == "/" + cmd;
    GetExecutableLeftmost(cmd, path, fs, i);
  }

  /** A `PATH` starting with `:` searches the root directory first. */
  lemma LeadingColonSearchesRoot(cmd: string, fs: FileSystem)
    requires Runnable(fs, "/" + cmd)
    ensures GetExecutable(cmd, ":/bin", fs) == Some("/" + cmd)
  {
    assert ":/bin" == "" + [':'] + "/bin";
    SplitOnTwo("", "/bin", ':');
    EmptyEntryMeansRoot(cmd, ":/bin", fs, 0);
  }

  // ---------------------------------------------------------------------------
  // `check_type`

  /** The name that `type` is asked about: what follows the `type` prefix of the
      trimmed line, trimmed again. */
  function TypeArgument(command: string): string
    requires "type" <= Trim(command)
  {
    Trim(Trim(command)[4..])
  }

  /** `check_type`: the line it prints, or `None` when the trimmed input does not
      start with `type`. */
  function CheckType(command: string, path: string, fs: FileSystem): (r: Option<string>)
    ensures r.None? <==> !("type" <= Trim(command))
  {
    var line := Trim(command);
    if "type" <= line then
      var cmd := Trim(line[4..]);
      if cmd in BuiltinCommands then Some(cmd + " is a shell builtin")
      else
        match GetExecutable(cmd, path, fs)
        case Some(p) => Some(cmd + " is " + p)
        case None => Some(cmd + ": not found")
    else None
  }

  /** Builtins shadow the search path: for `echo`, `exit` and `type` the report
      does not depend on `PATH` or on the filesystem at all. */
  lemma BuiltinIgnoresSearchPath(command: string, path: string, fs: FileSystem, path': string, fs': FileSystem)
    requires "type" <= Trim(command) && TypeArgument(command) in BuiltinCommands
    ensures CheckType(command, path, fs) == CheckType(command, path', fs')
    ensures CheckType(command, path, fs) == Some(TypeArgument(command) + " is a shell builtin")
  {
  }

  /** Every other name, `cd` and `pwd` included, is looked up on the search path:
      found, it is reported with the resolver's own first match; not found, as
      such. */
  lemma ExternalReportsResolver(command: string, path: string, fs: FileSystem)
    requires "type" <= Trim(command) && TypeArgument(command) !in BuiltinCommands
    ensures var cmd := TypeArgument(command);
      CheckType(command, path, fs) ==
        if GetExecutable(cmd, path, fs).Some? then Some(cmd + " is " + GetExecutable(cmd, path, fs).value)
        else Some(cmd + ": not found")
  {
  }

  /** `cd` and `pwd` are not in the builtin list of this file. */
  lemma CdAndPwdAreNotBuiltins()
    ensures "cd" !in BuiltinCommands && "pwd" !in BuiltinCommands
  {
  }

  /** The report calls a name a shell builtin exactly when it is one: a found
      program's path always holds a `/`, and a miss ends in `: not found`. */
  lemma BuiltinReportOnlyForBuiltins(command: string, path: string, fs: FileSystem)
    requires "type" <= Trim(command)
    ensures var cmd := TypeArgument(command);
      CheckType(command, path, fs) == Some(cmd + " is a shell builtin") <==> cmd in BuiltinCommands
  {
    var cmd := TypeArgument(command);
    if cmd !in BuiltinCommands {
      ExternalReportsResolver(command, path, fs);
      match GetExecutable(cmd, path, fs)
      case Some(p) =>
        var i :| 0 <= i < |SplitOn(path, ':')| && p == Candidate(SplitOn(path, ':')[i], cmd);
        PathReportIsNotBuiltin(cmd, SplitOn(path, ':')[i]);
      case None =>
        NotFoundIsNotBuiltin(cmd);
    }
  }

  /** The report of a found path holds the `/` of the candidate, which the
      builtin report lacks. */
  lemma PathReportIsNotBuiltin(cmd: string, e: string)
    ensures cmd + " is " + Candidate(e, cmd) != cmd + " is a shell builtin"
  {
    var report := cmd + " is " + Candidate(e, cmd);
    var claim := cmd + " is a shell builtin";
    var k := |cmd| + 4 + |e|;
    assert report[k] == '/';
    if |report| == |claim| {
      var tail := " is a shell builtin";
      assert forall j :: 0 <= j < |tail| ==> tail[j] != '/';
      assert claim[k] == tail[k - |cmd|];
    }
  }

  lemma NotFoundIsNotBuiltin(cmd: string)
    ensures cmd + ": not found" != cmd + " is a shell builtin"
  {
    var report, claim := cmd + ": not found", cmd + " is a shell builtin";
    assert report[|cmd|] == ':' && claim[|cmd|] == ' ';
  }

  /** A found name is reported as the path of the leftmost runnable entry, and a
      name no entry provides as not found. */
  lemma TypeReportsFirstMatch(command: string, path: string, fs: FileSystem, i: nat)
    requires "type" <= Trim(command) && TypeArgument(command) !in BuiltinCommands
    requires i < |SplitOn(path, ':')|
    requires Runnable(fs, Candidate(SplitOn(path, ':')[i], TypeArgument(command)))
    requires forall j :: 0 <= j < i ==> !Runnable(fs, Candidate(SplitOn(path, ':')[j], TypeArgument(command)))
    ensures CheckType(command, path, fs) ==
      Some(TypeArgument(command) + " is " + Candidate(SplitOn(path, ':')[i], TypeArgument(command)))
  {
    var cmd := TypeArgument(command);
    GetExecutableLeftmost(cmd, path, fs, i);
    ExternalReportsResolver(command, path, fs);
  }

  lemma TypeReportsNotFound(command: string, path: string, fs: FileSystem)
    requires "type" <= Trim(command) && TypeArgument(command) !in BuiltinCommands
    requires forall e :: e in SplitOn(path, ':') ==> !Runnable(fs, Candidate(e, TypeArgument(command)))
    ensures CheckType(command, path, fs) == Some(TypeArgument(command) + ": not found")
  {
  }

  /** A bare `type` asks about the empty name: its candidates are the `PATH`
      entries followed by `/`, the directories themselves. */
  lemma BareTypeLooksUpEmptyName(command: string, path: string, fs: FileSystem)
    requires Trim(command) == "type"
    ensures TypeArgument(command) == ""
    ensures CheckType(command, path, fs) ==
      if GetExecutable("", path, fs).Some? then Some(" is " + GetExecutable("", path, fs).value)
      else Some(": not found")
  {
    var line := Trim(command);
    assert "type" <= line && line[4..] == "";
    assert TrimStart("") == "" && TrimEnd("") == "";
    assert Trim(line[4..]) == "";
    assert "" !in BuiltinCommands;
    ExternalReportsResolver(command, path, fs);
    match GetExecutable("", path, fs)
    case Some(p) =>
      assert "" + " is " + p == " is " + p;
    case None =>
      assert "" + ": not found" == ": not found";
  }

  /** Nothing checks that a candidate is a file: a bare `type` with a single
      `PATH` entry reports the entry's directory itself when it has an execute
      bit. */
  lemma BareTypeFindsDirectory(command: string, dir: string, fs: FileSystem)
    requires Trim(command) == "type" && ':' !in dir
    requires Runnable(fs, dir + "/")
    ensures CheckType(command, dir, fs) == Some(" is " + dir + "/")
  {
    BareTypeLooksUpEmptyName(command, dir, fs);
    assert Candidate(dir, "") == dir + "/";
    FirstExecutableLeftmost([dir], "", fs, 0);
    assert " is " + (dir + "/") == " is " + dir + "/";
  }

  /** `type` alone, with `PATH` set to `/usr/bin`, reports ` is /usr/bin/`. */
  lemma BareTypeExample(fs: FileSystem)
    requires Runnable(fs, "/usr/bin/")
    ensures CheckType("type", "/usr/bin", fs) == Some(" is /usr/bin/")
  {
    var command, dir := "type", "/usr/bin";
    assert " is " + dir + "/" == " is /usr/bin/";
    assert dir + "/" == "/usr/bin/";
    assert ':' !in dir;
    assert Trim(command) == command by {
      TrimmedUnchanged(command);
    }
    BareTypeFindsDirectory(command, dir, fs);
  }
}
