/** The quote-aware argument tokenizer `parse_args` (src/utils.rs).

    Its meaning is given compositionally: each character is classified, by the
    quote state in force when it is read, as dropped (a quote that opens or
    closes a quotation), a separator (a space outside quotes) or kept; the
    kept characters are cut into fields at the separators and the empty fields
    are discarded. The method `ParseArgs` is the source's character loop and is
    proved to compute exactly that. */
module Utils {
  import opened Text

  datatype QuoteState = None | Single | Double

  /** The quote state after reading `ch` in state `q`. */
  function After(q: QuoteState, ch: char): QuoteState {
    if ch == '\'' then
      match q
      case None => Single
      case Single => None
      case Double => Double
    else if ch == '"' then
      match q
      case None => Double
      case Double => None
      case Single => Single
    else q
  }

  /** What reading `ch` in state `q` contributes: a quote that changes the state
      is dropped, a space outside quotes separates, everything else is kept. */
  function PieceOf(q: QuoteState, ch: char): Piece {
    if ch == '\'' then (if q == Double then Keep(ch) else Drop)
    else if ch == '"' then (if q == Single then Keep(ch) else Drop)
    else if ch == ' ' && q == None then Sep
    else Keep(ch)
  }

  /** The pieces of `s`, read from quote state `q`. */
  function Classify(q: QuoteState, s: string): (ps: seq<Piece>)
    ensures |ps| == |s|
    decreases s
  {
    if s == [] then [] else [PieceOf(q, s[0])] + Classify(After(q, s[0]), s[1..])
  }

  /** The tokens of the quoted path: the non-empty fields of the classified input. */
  function QuotedTokens(s: string): (r: seq<string>)
    ensures forall t :: t in r ==> t != ""
  {
    var fs := Fields(Classify(QuoteState.None, s));
    assert forall t :: t in NonEmpty(fs) ==> t != "" by {
      forall t | t in NonEmpty(fs) ensures t != "" {
        NonEmptyMembers(fs, t);
      }
    }
    NonEmpty(fs)
  }

  predicate HasQuote(s: string) {
    '\'' in s || '"' in s
  }

  /** What `parse_args` returns: a plain whitespace split when there is no quote
      character at all. On either path no token is empty. */
  function Tokens(s: string): (r: seq<string>)
    ensures forall t :: t in r ==> t != ""
  {
    if !HasQuote(s) then SplitWhitespace(Trim(s)) else QuotedTokens(s)
  }

  /** `cur` prefixed to the first of the fields `fs`. */
  function Prepend(cur: string, fs: seq<string>): seq<string>
    requires fs != []
  {
    [cur + fs[0]] + fs[1..]
  }

  /** The tokens still to come when the loop holds the unfinished token `cur`
      in quote state `q` and has `rest` left to read. */
  function Pending(q: QuoteState, cur: string, rest: string): seq<string> {
    NonEmpty(Prepend(cur, Fields(Classify(q, rest))))
  }

  /** Reading one character: a dropped quote only changes the state, a kept
      character extends the unfinished token, and a separator emits the
      unfinished token if it is not empty and starts a new one. */
  lemma PendingAdvance(done: seq<string>, q: QuoteState, cur: string, rest: string)
    requires rest != []
    ensures PieceOf(q, rest[0]) == Drop ==>
      done + Pending(q, cur, rest) == done + Pending(After(q, rest[0]), cur, rest[1..])
    ensures PieceOf(q, rest[0]) == Keep(rest[0]) ==>
      done + Pending(q, cur, rest) == done + Pending(After(q, rest[0]), cur + [rest[0]], rest[1..])
    ensures PieceOf(q, rest[0]) == Sep && cur == "" ==>
      done + Pending(q, cur, rest) == done + Pending(After(q, rest[0]), "", rest[1..])
    ensures PieceOf(q, rest[0]) == Sep && cur != "" ==>
      done + Pending(q, cur, rest) == (done + [cur]) + Pending(After(q, rest[0]), "", rest[1..])
  {
    var ps := Classify(q, rest);
    var tail := Classify(After(q, rest[0]), rest[1..]);
    var fs := Fields(tail);
    assert ps == [PieceOf(q, rest[0])] + tail;
    FieldsCons(PieceOf(q, rest[0]), tail);
    match PieceOf(q, rest[0])
    case Drop =>
    case Keep(c) =>
      assert Prepend(cur, Fields(ps)) == Prepend(cur + [c], fs) by {
        assert cur + ([c] + fs[0]) == cur + [c] + fs[0];
      }
    case Sep =>
      var xs := Prepend(cur, Fields(ps));
      assert xs == [cur] + fs by {
        assert cur + "" == cur;
      }
      assert xs[1..] == fs;
      assert Prepend("", fs) == fs by {
        assert "" + fs[0] == fs[0];
      }
      assert done + ([cur] + Pending(After(q, rest[0]), "", rest[1..])) == (done + [cur]) + Pending(After(q, rest[0]), "", rest[1..]);
  }

  /** `parse_args`: the quote-free fast path, or the character loop over three quote states. */
  method ParseArgs(s: string) returns (tokens: seq<string>)
    ensures tokens == Tokens(s)
    ensures forall t :: t in tokens ==> t != ""
  {
    if !('\'' in s) && !('"' in s) {
      return SplitWhitespace(Trim(s));
    }
    var quoteState := QuoteState.None;
    var currentToken: string := "";
    tokens := [];
    assert Prepend("", Fields(Classify(quoteState, s))) == Fields(Classify(quoteState, s)) by {
      var fs := Fields(Classify(quoteState, s));
      assert "" + fs[0] == fs[0];
    }
    assert s[0..] == s;
    for i := 0 to |s|
      invariant tokens + Pending(quoteState, currentToken, s[i..]) == QuotedTokens(s)
    {
      var ch := s[i];
      ghost var next := After(quoteState, ch);
      PendingAdvance(tokens, quoteState, currentToken, s[i..]);
      assert s[i..][1..] == s[i + 1..];
      match ch {
        case '\'' =>
          match quoteState {
            case None => quoteState := Single;
            case Single => quoteState := None;
            case Double => currentToken := currentToken + [ch];
          }
        case '"' =>
          match quoteState {
            case None => quoteState := Double;
            case Double => quoteState := None;
            case Single => currentToken := currentToken + [ch];
          }
        case ' ' =>
          match quoteState {
            case None =>
              if currentToken != "" {
                tokens := tokens + [currentToken];
                currentToken := "";
              }
            case _ => currentToken := currentToken + [ch];
          }
        case _ => currentToken := currentToken + [ch];
      }
      assert quoteState == next;
    }
    assert Pending(quoteState, currentToken, s[|s|..]) == NonEmpty([currentToken]) by {
      assert s[|s|..] == [];
      assert currentToken + "" == currentToken;
    }
    if currentToken != "" {
      tokens := tokens + [currentToken];
    }
    assert tokens == Tokens(s);
  }

  // ---------------------------------------------------------------------------
  // Properties of the tokenizer

  /** On the quoted path the tokens, concatenated, are the input with the
      delimiting quotes and the unquoted spaces deleted, in the original order. */
  lemma QuotedTokensConcat(s: string)
    ensures Concat(QuotedTokens(s)) == Kept(Classify(QuoteState.None, s))
  {
    ConcatNonEmpty(Fields(Classify(QuoteState.None, s)));
    ConcatFields(Classify(QuoteState.None, s));
  }

  lemma {:induction false} NoSpaceNoSep(q: QuoteState, s: string)
    requires ' ' !in s
    ensures SepCount(Classify(q, s)) == 0
    decreases s
  {
    if s != [] {
      assert s[0] in s;
      NoSpaceNoSep(After(q, s[0]), s[1..]);
      assert Classify(q, s)[1..] == Classify(After(q, s[0]), s[1..]);
    }
  }

  /** On the quoted path only the ASCII space separates tokens: input without a
      space gives at most one token, whatever tabs or newlines it holds. */
  lemma OnlySpaceSeparates(s: string)
    requires ' ' !in s
    ensures |QuotedTokens(s)| <= 1
  {
    NoSpaceNoSep(QuoteState.None, s);
    FieldsLength(Classify(QuoteState.None, s));
  }

  lemma {:induction false} ClassifyQuoteFree(s: string)
    requires !HasQuote(s)
    requires forall i :: 0 <= i < |s| && IsWhitespace(s[i]) ==> s[i] == ' '
    ensures Classify(QuoteState.None, s) == WhitespacePieces(s)
  {
    if s != [] {
      assert s[0] in s;
      assert !HasQuote(s[1..]) by {
        assert forall c :: c in s[1..] ==> c in s;
      }
      ClassifyQuoteFree(s[1..]);
    }
  }

  /** The two paths agree on quote-free input whose only whitespace is the space:
      the quote machine then splits exactly like `split_whitespace`. */
  lemma QuotedPathAgreesWithFastPath(s: string)
    requires !HasQuote(s)
    requires forall i :: 0 <= i < |s| && IsWhitespace(s[i]) ==> s[i] == ' '
    ensures QuotedTokens(s) == Tokens(s)
  {
    ClassifyQuoteFree(s);
    SplitWhitespaceIgnoresTrim(s);
  }

  /** The quote state after reading all of `s` from state `q`. */
  function StateAfter(q: QuoteState, s: string): QuoteState
    decreases s
  {
    if s == [] then q else StateAfter(After(q, s[0]), s[1..])
  }

  /** Classification reads a concatenation piece by piece. */
  lemma {:induction false} ClassifyAppend(q: QuoteState, x: string, y: string)
    ensures Classify(q, x + y) == Classify(q, x) + Classify(StateAfter(q, x), y)
    ensures StateAfter(q, x + y) == StateAfter(StateAfter(q, x), y)
    decreases x
  {
    if x == [] {
      assert x + y == y;
    } else {
      assert (x + y)[0] == x[0];
      assert (x + y)[1..] == x[1..] + y;
      ClassifyAppend(After(q, x[0]), x[1..], y);
    }
  }

  /** In state `q`, every character of `s` is kept and leaves the state alone. */
  predicate Plain(q: QuoteState, s: string) {
    forall i :: 0 <= i < |s| ==> PieceOf(q, s[i]) == Keep(s[i]) && After(q, s[i]) == q
  }

  lemma {:induction false} ClassifyPlain(q: QuoteState, s: string)
    requires Plain(q, s)
    ensures Classify(q, s) == KeepAll(s) && StateAfter(q, s) == q
    decreases s
  {
    if s != [] {
      assert Plain(q, s[1..]) by {
        forall i | 0 <= i < |s[1..]| ensures PieceOf(q, s[1..][i]) == Keep(s[1..][i]) && After(q, s[1..][i]) == q {
          assert s[1..][i] == s[i + 1];
        }
      }
      ClassifyPlain(q, s[1..]);
    }
  }

  /** A space read outside quotes ends a token: the quoted path splits there, and
      the tokens on each side are those of each side alone. */
  lemma SpaceSeparates(x: string, y: string)
    requires StateAfter(QuoteState.None, x) == QuoteState.None
    ensures QuotedTokens(x + " " + y) == QuotedTokens(x) + QuotedTokens(y)
  {
    assert [' '][1..] == [];
    assert Classify(QuoteState.None, [' ']) == [Sep];
    assert StateAfter(QuoteState.None, [' ']) == QuoteState.None;
    ClassifyAppend(QuoteState.None, x, [' ']);
    ClassifyAppend(QuoteState.None, x + [' '], y);
    assert x + " " + y == x + [' '] + y;
    var cx, cy := Classify(QuoteState.None, x), Classify(QuoteState.None, y);
    assert Classify(QuoteState.None, x + " " + y) == cx + [Sep] + cy;
    FieldsAppendSep(cx, cy);
    NonEmptyAppend(Fields(cx), Fields(cy));
  }

  /** The quote state that the quote character `qc` opens. */
  function Opened(qc: char): QuoteState
    requires qc == '\'' || qc == '"'
  {
    if qc == '\'' then Single else Double
  }

  lemma OpenQuote(u: string, qc: char, m: string)
    requires qc == '\'' || qc == '"'
    requires Plain(QuoteState.None, u) && Plain(Opened(qc), m)
    ensures Classify(QuoteState.None, u + [qc] + m) == KeepAll(u) + [Drop] + KeepAll(m)
    ensures StateAfter(QuoteState.None, u + [qc] + m) == Opened(qc)
  {
    ClassifyPlain(QuoteState.None, u);
    ClassifyPlain(Opened(qc), m);
    assert [qc][1..] == [];
    assert Classify(QuoteState.None, [qc]) == [Drop];
    assert StateAfter(QuoteState.None, [qc]) == Opened(qc);
    ClassifyAppend(QuoteState.None, u, [qc]);
    ClassifyAppend(QuoteState.None, u + [qc], m);
  }

  /** Input that classifies to kept characters and dropped quotes only is a
      single token holding the kept characters, or no token when there are none. */
  lemma SingleToken(s: string, ps: seq<Piece>, t: string)
    requires HasQuote(s) && Classify(QuoteState.None, s) == ps
    requires SepCount(ps) == 0 && Kept(ps) == t
    ensures Tokens(s) == if t == "" then [] else [t]
  {
    FieldsNoSep(ps);
  }

  lemma CloseQuote(u: string, qc: char, m: string, w: string)
    requires qc == '\'' || qc == '"'
    requires Plain(QuoteState.None, u) && Plain(Opened(qc), m) && Plain(QuoteState.None, w)
    ensures Classify(QuoteState.None, u + [qc] + m + [qc] + w) == KeepAll(u) + [Drop] + KeepAll(m) + [Drop] + KeepAll(w)
  {
    var x := u + [qc] + m;
    OpenQuote(u, qc, m);
    assert [qc][1..] == [];
    assert Classify(Opened(qc), [qc]) == [Drop];
    assert StateAfter(Opened(qc), [qc]) == QuoteState.None;
    ClassifyAppend(QuoteState.None, x, [qc]);
    ClassifyPlain(QuoteState.None, w);
    ClassifyAppend(QuoteState.None, x + [qc], w);
  }

  lemma KeptOfQuotation(u: string, m: string, w: string)
    ensures var ps := KeepAll(u) + [Drop] + KeepAll(m) + [Drop] + KeepAll(w);
      SepCount(ps) == 0 && Kept(ps) == u + m + w
  {
    assert [Drop][1..] == [];
    assert Kept([Drop]) == [] && SepCount([Drop]) == 0;
    KeepAllKept(u);
    KeepAllKept(m);
    KeepAllKept(w);
    var a := KeepAll(u) + [Drop];
    KeptAppend(KeepAll(u), [Drop]);
    assert Kept(a) == u && SepCount(a) == 0;
    var b := a + KeepAll(m);
    KeptAppend(a, KeepAll(m));
    assert Kept(b) == u + m && SepCount(b) == 0;
    var c := b + [Drop];
    KeptAppend(b, [Drop]);
    assert Kept(c) == u + m && SepCount(c) == 0;
    KeptAppend(c, KeepAll(w));
  }

  /** A quotation and the unquoted text directly around it merge into one token:
      the delimiting quotes are dropped, and every character between them,
      spaces and the other kind of quote included, is kept. */
  lemma QuotationJoinsNeighbours(u: string, qc: char, m: string, w: string)
    requires qc == '\'' || qc == '"'
    requires Plain(QuoteState.None, u) && Plain(Opened(qc), m) && Plain(QuoteState.None, w)
    ensures Tokens(u + [qc] + m + [qc] + w) == if u + m + w == "" then [] else [u + m + w]
  {
    var s := u + [qc] + m + [qc] + w;
    assert s[|u|] == qc;
    CloseQuote(u, qc, m, w);
    KeptOfQuotation(u, m, w);
    SingleToken(s, KeepAll(u) + [Drop] + KeepAll(m) + [Drop] + KeepAll(w), u + m + w);
  }

  /** An unterminated quotation loses no text: what follows the opening quote
      ends the last token. */
  lemma UnterminatedQuotationKept(u: string, qc: char, m: string)
    requires qc == '\'' || qc == '"'
    requires Plain(QuoteState.None, u) && Plain(Opened(qc), m)
    ensures Tokens(u + [qc] + m) == if u + m == "" then [] else [u + m]
  {
    var s := u + [qc] + m;
    assert s[|u|] == qc;
    OpenQuote(u, qc, m);
    assert [Drop][1..] == [];
    assert Kept([Drop]) == [] && SepCount([Drop]) == 0;
    KeepAllKept(u);
    KeepAllKept(m);
    var a := KeepAll(u) + [Drop];
    KeptAppend(KeepAll(u), [Drop]);
    assert Kept(a) == u && SepCount(a) == 0;
    var ps := a + KeepAll(m);
    KeptAppend(a, KeepAll(m));
    assert Kept(ps) == u + m && SepCount(ps) == 0;
    SingleToken(s, ps, u + m);
  }

  /** `a'b c'd` is the single token `ab cd`. */
  lemma AdjacentPiecesMerge()
    ensures Tokens("a'b c'd") == ["ab cd"]
  {
    QuotationJoinsNeighbours("a", '\'', "b c", "d");
    assert "a" + ['\''] + "b c" + ['\''] + "d" == "a'b c'd";
    assert "a" + "b c" + "d" == "ab cd";
  }

  /** Inside double quotes a single quote is an ordinary character. */
  lemma SingleQuoteInsideDoubleQuotes()
    ensures Tokens("\"it's\"") == ["it's"]
  {
    QuotationJoinsNeighbours("", '"', "it's", "");
    assert [] + ['"'] + "it's" + ['"'] + [] == "\"it's\"";
    assert [] + "it's" + [] == "it's";
  }

  /** An unterminated quotation still ends the line's last token: `echo 'abc`
      style input keeps `abc`. */
  lemma UnterminatedQuoteExample()
    ensures Tokens("'abc") == ["abc"]
  {
    UnterminatedQuotationKept("", '\'', "abc");
    assert [] + ['\''] + "abc" == "'abc";
    assert [] + "abc" == "abc";
  }

  /** A tab separates tokens only on the quote-free path: once a quote is present,
      the tab is kept inside the token. */
  lemma TabSeparatesOnlyWithoutQuotes()
    ensures Tokens("a\tb''") == ["a\tb"]
  {
    QuotationJoinsNeighbours("a\tb", '\'', "", "");
    assert "a\tb" + ['\''] + [] + ['\''] + [] == "a\tb''";
    assert "a\tb" + [] + [] == "a\tb";
  }

  /** Without quotes the same tab does separate: `a<TAB>b` is two tokens. */
  lemma TabSeparatesOnFastPath()
    ensures Tokens("a\tb") == ["a", "b"]
  {
    assert !HasQuote("a\tb");
    assert Trim("a\tb") == "a\tb";
    assert WhitespacePieces("a\tb") == [Keep('a'), Sep, Keep('b')];
    var b := [Keep('b')];
    assert b[1..] == [];
    assert Fields(b) == [['b'] + ""];
    assert ['b'] + "" == "b" && ['a'] + "" == "a";
    var sb := [Sep] + b;
    assert sb[1..] == b;
    assert Fields(sb) == ["", "b"];
    var asb := [Keep('a')] + sb;
    assert asb[1..] == sb;
    assert Fields(asb) == [['a'] + ""] + ["b"];
    assert [Keep('a'), Sep, Keep('b')] == asb;
    var ab := ["a", "b"];
    assert ab[1..] == ["b"] && ["b"][1..] == [];
    assert NonEmpty(["b"]) == ["b"];
    assert NonEmpty(ab) == ["a"] + ["b"];
  }

  /** On the quoted path, unquoted text without spaces is a single token. */
  lemma PlainWord(w: string)
    requires w != "" && Plain(QuoteState.None, w)
    ensures QuotedTokens(w) == [w] && StateAfter(QuoteState.None, w) == QuoteState.None
  {
    ClassifyPlain(QuoteState.None, w);
    KeepAllKept(w);
    FieldsNoSep(KeepAll(w));
  }

  /** A word, a space and then a quotation are two tokens: the word and the
      quoted text. */
  lemma WordThenQuotation(w: string, qc: char, m: string)
    requires qc == '\'' || qc == '"'
    requires w != "" && Plain(QuoteState.None, w)
    requires m != "" && Plain(Opened(qc), m)
    ensures Tokens(w + " " + ([qc] + m + [qc])) == [w, m]
  {
    var y := [qc] + m + [qc];
    var s := w + " " + y;
    assert QuotedTokens(s) == [w, m] by {
      PlainWord(w);
      WholeQuotation(qc, m);
      SpaceSeparates(w, y);
    }
    assert HasQuote(s) by {
      assert s[|w| + 1] == qc;
    }
  }

  /** An unquoted space separates on the quoted path too: `a 'b c'` is the two
      tokens `a` and `b c`. */
  lemma SpaceThenQuotation()
    ensures Tokens("a 'b c'") == ["a", "b c"]
  {
    WordThenQuotation("a", '\'', "b c");
    assert "a" + " " + (['\''] + "b c" + ['\'']) == "a 'b c'";
  }

  /** On the quoted path, a quotation standing alone is one token, its quotes
      dropped. */
  lemma WholeQuotation(qc: char, m: string)
    requires qc == '\'' || qc == '"'
    requires m != "" && Plain(Opened(qc), m)
    ensures QuotedTokens([qc] + m + [qc]) == [m]
  {
    var y := [qc] + m + [qc];
    assert Tokens(y) == [m] by {
      QuotationJoinsNeighbours("", qc, m, "");
      assert [] + [qc] + m + [qc] + [] == y;
      assert [] + m + [] == m;
    }
    assert HasQuote(y) by {
      assert y[0] == qc;
    }
  }
}
