/** The `cd` builtin `change_directory` (src/cd_cmd.rs): tilde expansion, then a
    change of the working directory or a diagnostic.

    `HOME` is a parameter that may be unset. Whether the operating system accepts
    a directory change is abstract: a set of the targets it would accept. */
module CdCmd {
  import opened Wrappers

  /** `s.replacen(pat, rep, 1)` for a one-character pattern: only the first
      occurrence of `pat` is replaced. */
  function ReplaceFirst(s: string, pat: char, rep: string): (r: string)
    ensures |r| == |s| || |r| == |s| - 1 + |rep|
  {
    if s == [] then s
    else if s[0] == pat then rep + s[1..]
    else [s[0]] + ReplaceFirst(s[1..], pat, rep)
  }

  /** Without an occurrence of `pat` nothing is replaced. */
  lemma {:induction false} ReplaceFirstAbsent(s: string, pat: char, rep: string)
    requires pat !in s
    ensures ReplaceFirst(s, pat, rep) == s
  {
    if s != [] {
      assert s[0] in s;
      assert pat !in s[1..] by {
        assert forall c :: c in s[1..] ==> c in s;
      }
      ReplaceFirstAbsent(s[1..], pat, rep);
      assert s == [s[0]] + s[1..];
    }
  }

  /** Only the first occurrence of `pat` is replaced: a prefix `u` without it is
      kept, and so is everything after it, later occurrences included. */
  lemma {:induction false} ReplaceFirstAt(u: string, pat: char, rep: string, w: string)
    requires pat !in u
    ensures ReplaceFirst(u + [pat] + w, pat, rep) == u + rep + w
  {
    if u == [] {
      assert u + [pat] + w == [pat] + w;
      assert ([pat] + w)[1..] == w;
    } else {
      assert u[0] in u;
      assert pat !in u[1..] by {
        assert forall c :: c in u[1..] ==> c in u;
      }
      ReplaceFirstAt(u[1..], pat, rep, w);
      var s := u + [pat] + w;
      assert s[0] == u[0] && s[1..] == u[1..] + [pat] + w;
      assert u + rep + w == [u[0]] + (u[1..] + rep + w);
    }
  }

  /** `HOME`, or `/` when it is unset. */
  function HomeDir(home: Option<string>): string {
    home.GetOr("/")
  }

  /** Expansion is triggered only by `~` alone or a leading `~/`. */
  predicate Expands(arg: string) {
    arg == "~" || "~/" <= arg
  }

  /** The target `cd` tries: the leading `~` replaced by the home directory when
      expansion is triggered, the argument unchanged otherwise. */
  function ExpandTilde(arg: string, home: Option<string>): (r: string)
    ensures Expands(arg) ==> r == HomeDir(home) + arg[1..]
    ensures !Expands(arg) ==> r == arg
  {
    if Expands(arg) then ReplaceFirst(arg, '~', HomeDir(home)) else arg
  }

  /** A `~` anywhere after the first character survives expansion. */
  lemma LaterTildesKept(arg: string, home: Option<string>, k: nat)
    requires Expands(arg) && 0 < k < |arg| && arg[k] == '~'
    ensures |ExpandTilde(arg, home)| == |HomeDir(home)| + |arg| - 1
    ensures ExpandTilde(arg, home)[|HomeDir(home)| + k - 1] == '~'
  {
  }

  /** Examples of the rule: the home directory falls back to `/`, so `~/x`
      becomes `//x`; `foo~bar` and `~user` are left alone. */
  lemma ExpansionExamples(h: string)
    ensures ExpandTilde("~", Some(h)) == h
    ensures ExpandTilde("~/x", None) == "//x"
    ensures ExpandTilde("~/a~b", Some("/home/u")) == "/home/u/a~b"
    ensures ExpandTilde("foo~bar", Some(h)) == "foo~bar"
    ensures ExpandTilde("~user", Some(h)) == "~user"
  {
    assert "~"[1..] == [];
    assert h + [] == h;
    assert "~/x"[1..] == "/x";
    assert "~/a~b"[1..] == "/a~b";
    assert !("~/" <= "~user") by {
      assert "~user"[1] == 'u';
    }
  }

  /** The diagnostic for a failed change; it names the argument as typed. */
  function CdDiagnostic(arg: string): string {
    "cd: " + arg + ": No such file or directory"
  }

  /** The last target handed to `set_current_dir` that it accepted, as it was
      passed. The directory `get_pwd` reports is that target resolved by the
      operating system; the two agree for absolute targets without `..`,
      `.` or symbolic links. */
  class WorkingDirectory {
    var current: string

    constructor (start: string)
      ensures current == start
    {
      current := start;
    }

    /** `change_directory`: expand the argument, then change to the target if the
        operating system accepts it (`accepted`), or print the diagnostic and
        leave the working directory as it was. */
    method ChangeDirectory(arg: string, home: Option<string>, accepted: set<string>) returns (printed: Option<string>)
      modifies this
      ensures ExpandTilde(arg, home) in accepted ==>
        current == ExpandTilde(arg, home) && printed == None
      ensures ExpandTilde(arg, home) !in accepted ==>
        current == old(current) && printed == Some(CdDiagnostic(arg))
    {
      var pathExpanded: string;
      if arg == "~" || "~/" <= arg {
        var h := HomeDir(home);
        pathExpanded := ReplaceFirst(arg, '~', h);
      } else {
        pathExpanded := arg;
      }
      if pathExpanded in accepted {
        current := pathExpanded;
        printed := None;
      } else {
        printed := Some(CdDiagnostic(arg));
      }
    }
  }
}
