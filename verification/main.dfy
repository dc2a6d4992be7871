/** One iteration of the read-eval-print loop in src/main.rs: what the shell does
    with one line of input. Reading the line, printing the prompt and flushing are
    left to the caller; the printed line is returned. */
module Shell {
  import opened Text
  import TypeCmd

  /** The builtin list main.rs keeps for itself. */
  const BuiltinCommands: seq<string> := ["echo", "exit", "type"]

  /** The effect of one line: leave the loop, or print one line and read the next. */
  datatype Outcome = Terminate | Print(line: string)

  /** The report for a line that is not a command the loop knows. */
  function UnknownCommand(line: string): string {
    line + ": command not found"
  }

  /** The branch on the trimmed line, tried in order: exactly `exit 0`, a line
      starting with `echo`, a line starting with `type`, anything else. */
  function Dispatch(line: string): (r: Outcome)
    ensures r.Terminate? <==> line == "exit 0"
  {
    if line == "exit 0" then Terminate
    else if "echo" <= line then Print(Trim(line[4..]))
    else if "type" <= line then
      var cmd := Trim(line[4..]);
      if cmd in BuiltinCommands then Print(cmd + " is a shell builtin")
      else Print(cmd + ": not found")
    else Print(UnknownCommand(line))
  }

  /** The loop body: the line as read (its newline included) is trimmed first.
      Only a line that trims to exactly `exit 0` ends the loop; every other line
      prints one line. */
  function HandleLine(input: string): (r: Outcome)
    ensures r.Terminate? <==> Trim(input) == "exit 0"
  {
    Dispatch(Trim(input))
  }

  /** Whitespace around the line makes no difference. */
  lemma PaddingIgnored(pre: string, line: string, post: string)
    requires AllWhitespace(pre) && AllWhitespace(post) && Trimmed(line)
    ensures HandleLine(pre + line + post) == Dispatch(line)
  {
    TrimPadded(pre, line, post);
  }

  /** `exit` alone is neither `exit 0` nor an echo or type line. */
  lemma ExitAloneFallsThrough()
    ensures Dispatch("exit") == Print(UnknownCommand("exit"))
  {
    var line := "exit";
    assert line != "exit 0" by { assert |line| == 4; }
    assert !("echo" <= line) by { assert line[1] == 'x'; }
    assert !("type" <= line) by { assert line[0] == 'e'; }
  }

  /** Nor is `exit 1`: another exit code is an unknown command. */
  lemma ExitOneFallsThrough()
    ensures Dispatch("exit 1") == Print(UnknownCommand("exit 1"))
  {
    var line := "exit 1";
    assert line != "exit 0" by { assert line[5] == '1'; }
    assert !("echo" <= line) by { assert line[1] == 'x'; }
    assert !("type" <= line) by { assert line[0] == 'e'; }
  }

  /** `exit` without `0`, or with another code, is an unknown command; `exit 0`
      terminates whatever whitespace surrounds it. */
  lemma OtherExitsAreUnknown(pre: string, post: string)
    requires AllWhitespace(pre) && AllWhitespace(post)
    ensures HandleLine(pre + "exit" + post) == Print(UnknownCommand("exit"))
    ensures HandleLine(pre + "exit 1" + post) == Print(UnknownCommand("exit 1"))
    ensures HandleLine(pre + "exit 0" + post) == Terminate
  {
    ExitAloneFallsThrough();
    ExitOneFallsThrough();
    PaddingIgnored(pre, "exit", post);
    PaddingIgnored(pre, "exit 1", post);
    PaddingIgnored(pre, "exit 0", post);
  }

  /** After `echo`, the text is printed without the whitespace around it and
      with the spacing inside it kept. */
  lemma EchoLine(gap: string, text: string)
    requires AllWhitespace(gap) && Trimmed(text)
    ensures Dispatch("echo" + gap + text) == Print(text)
  {
    var line := "echo" + gap + text;
    assert line[4..] == gap + text;
    TrimPadded(gap, text, []);
    assert gap + text + [] == gap + text;
    assert line != "exit 0" by {
      assert line[1] == 'c';
    }
  }

  /** `echo` prints the rest of the line, outer whitespace removed. */
  lemma EchoPrintsText(pre: string, gap: string, text: string, post: string)
    requires AllWhitespace(pre) && AllWhitespace(gap) && AllWhitespace(post) && Trimmed(text)
    ensures HandleLine(pre + "echo" + gap + text + post) == Print(text)
  {
    if text == "" {
      assert pre + "echo" + gap + text + post == pre + "echo" + (gap + post);
      assert AllWhitespace(gap + post);
      PaddingIgnored(pre, "echo", gap + post);
      EchoLine([], []);
      assert "echo" + [] + [] == "echo";
    } else {
      var line := "echo" + gap + text;
      assert pre + "echo" + gap + text + post == pre + line + post;
      assert Trimmed(line) by {
        assert line[|line| - 1] == text[|text| - 1];
      }
      PaddingIgnored(pre, line, post);
      EchoLine(gap, text);
    }
  }

  /** `echo` with nothing after it prints an empty line. */
  lemma BareEcho()
    ensures Dispatch("echo") == Print("")
  {
    var line := "echo";
    assert line != "exit 0" by { assert |line| == 4; }
    assert line[4..] == [];
    TrimmedUnchanged([]);
  }

  /** So does the line as read, its newline or any other trailing whitespace included. */
  lemma BareEchoPrintsEmptyLine(post: string)
    requires AllWhitespace(post)
    ensures HandleLine("echo" + post) == Print("")
  {
    PaddingIgnored([], "echo", post);
    var echo: string := "echo";
    assert [] + echo == echo;
    BareEcho();
  }

  /** The echo test is a prefix test: `echoes` prints `es`. */
  lemma EchoIsAPrefixTest()
    ensures Dispatch("echoes") == Print("es")
  {
    var line := "echoes";
    assert line != "exit 0" by { assert line[4] == 'e'; }
    assert "echo" <= line;
    assert line[4..] == "es";
    TrimmedUnchanged("es");
  }

  /** Spacing inside the echoed text survives: `echo   a  b` prints `a  b`. */
  lemma EchoKeepsInnerSpacing()
    ensures Dispatch("echo   a  b") == Print("a  b")
  {
    var line := "echo   a  b";
    assert line != "exit 0";
    assert "echo" <= line;
    assert line[4..] == "   a  b";
    assert Trim("   a  b") == "a  b" by {
      TrimPadded("   ", "a  b", []);
      assert "   " + "a  b" + [] == "   a  b";
    }
  }

  /** The type branch here never searches `PATH`: it agrees with `check_type`
      exactly when the name is a builtin or the resolver finds nothing, and
      reports a found program as not found. */
  lemma TypeBranchVersusCheckType(input: string, path: string, fs: TypeCmd.FileSystem)
    requires "type" <= Trim(input)
    ensures var cmd := TypeCmd.TypeArgument(input);
      (cmd in BuiltinCommands || TypeCmd.GetExecutable(cmd, path, fs).None?) ==>
        HandleLine(input) == Print(TypeCmd.CheckType(input, path, fs).value)
    ensures var cmd := TypeCmd.TypeArgument(input);
      cmd !in BuiltinCommands ==> HandleLine(input) == Print(cmd + ": not found")
  {
    var line := Trim(input);
    assert line != "exit 0" && !("echo" <= line) by {
      assert line[0] == 't';
    }
  }

  /** Anything else is reported as an unknown command named by the whole trimmed
      line; a blank line gives `: command not found`. */
  lemma FallbackNamesWholeLine(input: string)
    requires var line := Trim(input);
      line != "exit 0" && !("echo" <= line) && !("type" <= line)
    ensures HandleLine(input) == Print(UnknownCommand(Trim(input)))
  {
  }

  lemma BlankLineIsUnknownCommand(input: string)
    requires AllWhitespace(input)
    ensures HandleLine(input) == Print(": command not found")
  {
    PaddingIgnored(input, [], []);
    assert input + [] + [] == input;
    assert [] + ": command not found" == ": command not found";
  }
}
