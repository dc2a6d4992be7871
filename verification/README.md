# shell-rust: a verified model of the interpreter's core

This project models the core of `shell-rust`, a small interactive command
interpreter written in Rust. It covers four source files:

- `src/utils.rs`, the quote-aware tokenizer `parse_args`. It has a fast path for
  input without quotes and a character loop over three quote states.
- `src/type_cmd.rs`, the `type` builtin `check_type` and the search-path resolver
  `get_executable`.
- `src/cd_cmd.rs`, the `cd` builtin `change_directory`, with its tilde expansion.
- `src/main.rs`, what the read-eval-print loop does with one line of input.

The modules follow those files:

| module | file | models |
|---|---|---|
| `Wrappers` | `wrappers.dfy` | `Option` |
| `Text` | `text.dfy` | Rust's `trim`, `split(':')` and `split_whitespace`, over ASCII whitespace |
| `Utils` | `utils.dfy` | `parse_args` |
| `TypeCmd` | `type_cmd.dfy` | `get_executable`, `check_type` |
| `CdCmd` | `cd_cmd.dfy` | `change_directory`, and the working directory it changes |
| `Shell` | `main.dfy` | one iteration of `main`'s loop |

The tokenizer has a compositional specification. Each character is classified
by the quote state in force when it is read. It is dropped if it is a quote that
opens or closes a quotation. It is a separator if it is a space outside quotes.
Otherwise it is kept. The kept characters are cut into fields at the separators,
and empty fields are thrown away. `Utils.ParseArgs` is the source's loop. It is
proved to compute exactly that specification. The lemmas beside it state what
quoting does.

The environment and the filesystem are parameters:

- `PATH` is a string.
- `HOME` is an `Option<string>`.
- A `TypeCmd.FileSystem` gives the set of paths that exist, and the permission
  mode of each path whose metadata can be read.
- The directories `set_current_dir` would accept are given as a set.

A printed line is returned as a value, without its newline.

## Behaviour worth knowing

Each of these follows from the code, and the model keeps it:

- Only a line that trims to exactly `exit 0` ends the loop. `exit`, `exit 1` and
  `exit abc` are reported as unknown commands (`src/main.rs:15`).
- `echo` and `type` are recognised by a prefix test, not by exact name. So
  `echoes` prints `es` (`src/main.rs:17-18`, `src/type_cmd.rs:9`).
- `echo` prints the rest of the line, trimmed, with its inner spacing kept. It
  does not rejoin tokens with single spaces (`src/main.rs:19`).
- A blank line is not skipped. It prints `: command not found` (`src/main.rs:34`).
- At end of input `read_line` leaves the line empty and the loop has no other
  exit. So it prints `: command not found` again and again and never ends
  (`src/main.rs:6-14`, `src/main.rs:34`).
- `cd` stores nothing itself: it hands the expanded target to `set_current_dir`.
  `pwd` then reports the directory the operating system resolved. For a relative
  target, or one with `..` or a symbolic link, that differs from the text given
  to `cd` (`src/cd_cmd.rs:12`, `src/pwd_cmd.rs:4`).
- The builtin list is `echo`, `exit`, `type`. `cd` and `pwd` are not in it
  (`src/type_cmd.rs:6`, `src/main.rs:4`).
- The `type` branch of `main` never searches `PATH`. It reports every
  non-builtin as not found (`src/main.rs:21-29`). `check_type` does search it.
- The `cd` diagnostic names the argument as typed, before expansion
  (`src/cd_cmd.rs:14`).
- `check_type` on a bare `type` looks up the empty name. Its candidates are the
  `PATH` entries followed by `/`, which are the directories themselves. Nothing
  checks that a candidate is a file, so a directory with an execute bit is
  reported as found, as in ` is /usr/bin/` (`src/type_cmd.rs:9-15`,
  `src/type_cmd.rs:26-33`).
- The quoted path of `parse_args` separates only at the ASCII space. The
  quote-free path separates at any whitespace (`src/utils.rs:9`, `src/utils.rs:40`).

## Model

| member | source | states |
|---|---|---|
| Text.TrimStartDropsWhitespace | src/main.rs:15 | `trim_start` removes a prefix made only of whitespace and keeps the rest |
| Text.TrimEndDropsWhitespace | src/main.rs:15 | `trim_end` removes a suffix made only of whitespace and keeps the rest |
| Text.Trim | src/main.rs:15 | the trimmed line neither starts nor ends with whitespace |
| Text.TrimStart | src/main.rs:15 | `trim_start` never lengthens the text, and what it returns does not start with whitespace |
| Text.TrimEnd | src/main.rs:15 | `trim_end` never lengthens the text, and what it returns does not end with whitespace |
| Text.TrimPadded | src/main.rs:15 | trimming whitespace-padded text gives back exactly the text |
| Text.TrimmedUnchanged | src/type_cmd.rs:10 | text that is already trimmed is left unchanged |
| Text.SplitOn | src/type_cmd.rs:25 | `split(':')` yields at least one entry, and text without `:` is the single entry itself |
| Text.JoinSplitOn | src/type_cmd.rs:25 | splitting `PATH` at `:` and joining with `:` gives the original string back |
| Text.SplitOnFieldsLackDelimiter | src/type_cmd.rs:25 | no entry produced by `split(':')` contains `:` |
| Text.SplitWhitespace | src/utils.rs:9 | `split_whitespace` never yields an empty token |
| Text.SplitWhitespaceCut | src/utils.rs:9 | any whitespace character cuts: the tokens of `x c y` are the tokens of `x` followed by those of `y` |
| Text.SplitWhitespaceWord | src/utils.rs:9 | a non-empty word without whitespace is exactly one token, itself |
| Text.SplitWhitespaceTokensLackWhitespace | src/utils.rs:9 | no token holds a whitespace character |
| Text.SplitWhitespaceIgnoresTrim | src/utils.rs:9 | the `trim` before `split_whitespace` does not change the tokens |
| Utils.ParseArgs | src/utils.rs:7-57 | the loop returns exactly the tokens of the compositional specification, and no token is empty |
| Utils.QuotedTokens | src/utils.rs:11-55 | the quoted path never yields an empty token |
| Utils.Tokens | src/utils.rs:7-57 | `parse_args` never yields an empty token, on either path |
| Utils.PendingAdvance | src/utils.rs:29-48 | one loop step keeps "tokens so far + tokens still to come" equal to the whole result, for each of the drop, keep and separate cases |
| Utils.QuotedTokensConcat | src/utils.rs:29-53 | on the quoted path the tokens, concatenated, are the input with the delimiting quotes and unquoted spaces removed, in order |
| Utils.OnlySpaceSeparates | src/utils.rs:40-47 | on the quoted path, input without an ASCII space gives at most one token |
| Utils.QuotedPathAgreesWithFastPath | src/utils.rs:8-9 | on quote-free input whose only whitespace is the space, the quote loop and `split_whitespace` give the same tokens |
| Utils.SpaceSeparates | src/utils.rs:40-47 | an unquoted space ends a token: when the text before it leaves no quotation open, the tokens of the whole are the tokens before the space followed by the tokens after it |
| Utils.PlainWord | src/utils.rs:40-47 | on the quoted path, non-empty text without quotes or spaces is one token and leaves no quotation open |
| Utils.WholeQuotation | src/utils.rs:29-47 | a non-empty quotation standing alone is one token, its quotes dropped |
| Utils.WordThenQuotation | src/utils.rs:8-53 | a word, an unquoted space and a quotation are two tokens: the word and the quoted text |
| Utils.SpaceThenQuotation | src/utils.rs:8-53 | `a 'b c'` is the two tokens `a` and `b c` |
| Utils.ClassifyAppend | src/utils.rs:15-49 | reading a concatenation is reading the first part, then the second part from the state the first part left |
| Utils.QuotationJoinsNeighbours | src/utils.rs:29-47 | a quotation and the unquoted text right next to it form one token; the quotes are dropped and everything between them is kept |
| Utils.UnterminatedQuotationKept | src/utils.rs:51-53 | text after a quote that is never closed still ends up in the last token |
| Utils.AdjacentPiecesMerge | src/utils.rs:29-47 | `a'b c'd` is the single token `ab cd` |
| Utils.SingleQuoteInsideDoubleQuotes | src/utils.rs:35-39 | inside double quotes a single quote is an ordinary character: `"it's"` is `it's` |
| Utils.UnterminatedQuoteExample | src/utils.rs:51-53 | `'abc` is the token `abc` |
| Utils.TabSeparatesOnlyWithoutQuotes | src/utils.rs:40-47 | once a quote is present, a tab stays inside its token |
| Utils.TabSeparatesOnFastPath | src/utils.rs:8-9 | without quotes, a tab separates tokens |
| TypeCmd.GetExecutable | src/type_cmd.rs:23-39 | a returned path is runnable and is `<entry>/<cmd>` for some `PATH` entry; `None` is returned exactly when no entry gives a runnable candidate |
| TypeCmd.FirstExecutable | src/type_cmd.rs:25-38 | the result is a runnable candidate built from some entry; it is `None` exactly when no entry's candidate is runnable |
| TypeCmd.FirstExecutableLeftmost | src/type_cmd.rs:25-33 | the leftmost entry with a runnable candidate wins |
| TypeCmd.GetExecutableLeftmost | src/type_cmd.rs:23-38 | `get_executable` returns `<entry>/<cmd>` for the leftmost `PATH` entry with a runnable candidate |
| TypeCmd.NonExecutableSkipped | src/type_cmd.rs:28-34 | a candidate that exists but has no execute bit, or has unreadable metadata, is skipped for a runnable one later in `PATH` |
| TypeCmd.SplitOnTwo | src/type_cmd.rs:25 | two entries joined by one `:` split back into exactly those two entries |
| TypeCmd.EmptyEntryMeansRoot | src/type_cmd.rs:25-33 | an empty `PATH` entry gives the candidate `/<cmd>`, which is found when it is the first runnable candidate |
| TypeCmd.LeadingColonSearchesRoot | src/type_cmd.rs:25-33 | with `PATH` set to `:/bin`, a runnable `/<cmd>` is found before `/bin` is searched |
| TypeCmd.CheckType | src/type_cmd.rs:8-21 | a line prints something exactly when, trimmed, it starts with `type` |
| TypeCmd.BuiltinIgnoresSearchPath | src/type_cmd.rs:9-14 | for a builtin name the report is "is a shell builtin" and depends on neither `PATH` nor the filesystem |
| TypeCmd.ExternalReportsResolver | src/type_cmd.rs:15-19 | for any other name the report is the resolver's result, or "not found" |
| TypeCmd.TypeReportsFirstMatch | src/type_cmd.rs:15-17 | a found name is reported with the leftmost runnable entry's path |
| TypeCmd.TypeReportsNotFound | src/type_cmd.rs:19 | a name that no entry provides is reported as not found |
| TypeCmd.BuiltinReportOnlyForBuiltins | src/type_cmd.rs:11-19 | the report "is a shell builtin" appears exactly for the three builtin names; no path found by the resolver and no "not found" report can look like it |
| TypeCmd.BareTypeLooksUpEmptyName | src/type_cmd.rs:9-19 | `type` alone asks about the empty name, which is not a builtin, so the report is the resolver's result for it or `: not found` |
| TypeCmd.BareTypeFindsDirectory | src/type_cmd.rs:9-33 | with a single `PATH` entry, `type` alone reports the entry's directory followed by `/` when that directory has an execute bit |
| TypeCmd.BareTypeExample | src/type_cmd.rs:9-33 | `type` with `PATH` set to `/usr/bin` reports ` is /usr/bin/` when `/usr/bin/` has an execute bit |
| TypeCmd.CdAndPwdAreNotBuiltins | src/type_cmd.rs:6 | `cd` and `pwd` are not in the builtin list |
| CdCmd.ReplaceFirst | src/cd_cmd.rs:8 | the result is as long as the input, or as long as the input with one character swapped for the replacement (which occurrence is replaced is fixed by `CdCmd.ReplaceFirstAt` and `CdCmd.ReplaceFirstAbsent`) |
| CdCmd.ReplaceFirstAbsent | src/cd_cmd.rs:8 | a string without the pattern is left unchanged |
| CdCmd.ReplaceFirstAt | src/cd_cmd.rs:8 | only the first occurrence is replaced: the text before it and the text after it are kept, later occurrences included |
| CdCmd.ExpandTilde | src/cd_cmd.rs:5-11 | `~` or a leading `~/` becomes the home directory (`/` when `HOME` is unset) followed by the rest of the argument; any other argument is used as typed |
| CdCmd.LaterTildesKept | src/cd_cmd.rs:6-8 | a `~` after the first character survives expansion, at its shifted position |
| CdCmd.ExpansionExamples | src/cd_cmd.rs:6-11 | `~/x` with `HOME` unset is `//x`; `~/a~b` keeps its second `~`; `foo~bar` and `~user` are not expanded |
| CdCmd.WorkingDirectory.ChangeDirectory | src/cd_cmd.rs:4-16 | an accepted target becomes the working directory and nothing is printed; otherwise the working directory is unchanged and the diagnostic names the unexpanded argument |
| Shell.PaddingIgnored | src/main.rs:15-34 | whitespace around the input line makes no difference |
| Shell.Dispatch | src/main.rs:15-35 | on a trimmed line the loop ends exactly when the line is `exit 0` |
| Shell.HandleLine | src/main.rs:14-35 | the loop ends exactly when the line read, trimmed, is `exit 0` |
| Shell.ExitAloneFallsThrough | src/main.rs:15-34 | `exit` is reported as an unknown command |
| Shell.ExitOneFallsThrough | src/main.rs:15-34 | `exit 1` is reported as an unknown command |
| Shell.OtherExitsAreUnknown | src/main.rs:15-34 | with any surrounding whitespace, `exit` and `exit 1` are unknown and `exit 0` terminates |
| Shell.EchoLine | src/main.rs:17-19 | `echo`, whitespace, then text prints the text |
| Shell.EchoPrintsText | src/main.rs:17-19 | an echo line, however padded, prints its text without the surrounding whitespace |
| Shell.BareEcho | src/main.rs:17-19 | `echo` alone prints an empty line |
| Shell.BareEchoPrintsEmptyLine | src/main.rs:14-19 | `echo` followed by its newline, or by any other trailing whitespace, prints an empty line |
| Shell.EchoIsAPrefixTest | src/main.rs:17-19 | `echoes` prints `es` |
| Shell.EchoKeepsInnerSpacing | src/main.rs:19 | `echo   a  b` prints `a  b` |
| Shell.TypeBranchVersusCheckType | src/main.rs:21-29 | the loop's `type` branch agrees with `check_type` for builtins and for names the resolver does not find; any other name is reported as not found |
| Shell.FallbackNamesWholeLine | src/main.rs:33-34 | any other line is reported as an unknown command, named by the whole trimmed line |
| Shell.BlankLineIsUnknownCommand | src/main.rs:33-34 | a blank line prints `: command not found` |

## Left out

- The prompt, the flush, `read_line` and `println!` in `src/main.rs:5-14` are I/O. One loop iteration is modelled on the line that was read, and it returns the line it would print.
- `run_executable` (`src/executable_cmd.rs`) spawns a process. Nothing in the modelled files calls it, and spawning a process cannot be modelled.
- `get_pwd` (`src/pwd_cmd.rs:4`) asks the operating system for the resolved current directory. Path resolution is not modelled, so `get_pwd` is not modelled either, nor its panic on a path that is not valid Unicode.
- CdCmd.WorkingDirectory.ChangeDirectory: `current` is the target as passed to `set_current_dir`. It is what `get_pwd` would report only for an absolute target without `.`, `..` or symbolic links.
- Panic when `PATH` is unset (`src/type_cmd.rs:24`): not modelled, because `PATH` is a string parameter.
- Reading `HOME`: an unset `HOME` and a `HOME` that is not valid Unicode both become `None`.
- What `set_current_dir` accepts: how it resolves relative paths and symbolic links, and how it checks permissions, is not modelled. The accepted targets are a parameter.
- Timing in `get_executable`: the filesystem could change between `exists` and `metadata`, and one `FileSystem` value answers both checks. `Path::exists` is itself a metadata query, so without that race `existing` and the paths in `metadata` agree. A `FileSystem` where they differ stands for the outcome of the race; the unreadable-metadata case of `TypeCmd.NonExecutableSkipped` arises only that way.
- Text.IsWhitespace: Rust's `trim` and `split_whitespace` also treat non-ASCII Unicode whitespace as whitespace. The model uses only the ASCII whitespace characters.
- Strings are sequences of characters, not UTF-8 bytes. Every prefix the source strips is ASCII, so stripping bytes and stripping characters give the same result.
