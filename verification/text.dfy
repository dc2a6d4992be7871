/** String operations the shell relies on from Rust's `str`: `trim`, `split`,
    `split_whitespace`, over an ASCII whitespace set. Splitting is expressed once,
    as a sequence of classified pieces cut into fields at the separators. */
module Text {

  /** Rust's `char::is_whitespace` restricted to ASCII: space, tab, line feed,
      vertical tab, form feed and carriage return. */
  predicate IsWhitespace(c: char) {
    c == ' ' || '\t' <= c <= '\r'
  }

  predicate AllWhitespace(s: string) {
    forall i :: 0 <= i < |s| ==> IsWhitespace(s[i])
  }

  /** Neither begins nor ends with whitespace: what `trim` leaves. */
  predicate Trimmed(s: string) {
    s == [] || (!IsWhitespace(s[0]) && !IsWhitespace(s[|s| - 1]))
  }

  /** `str::trim_start`: the longest suffix that does not begin with whitespace. */
  function TrimStart(s: string): (r: string)
    ensures |r| <= |s|
    ensures r == [] || !IsWhitespace(r[0])
  {
    if s != [] && IsWhitespace(s[0]) then TrimStart(s[1..]) else s
  }

  /** `trim_start` removes a whitespace prefix and nothing else. */
  lemma {:induction false} TrimStartDropsWhitespace(s: string)
    ensures var k := |s| - |TrimStart(s)|;
      s == s[..k] + TrimStart(s) && AllWhitespace(s[..k])
  {
    if s != [] && IsWhitespace(s[0]) {
      TrimStartDropsWhitespace(s[1..]);
      var r := TrimStart(s[1..]);
      var k := |s| - |r|;
      assert s[1..][..k - 1] == s[1..k];
      assert s[..k] == [s[0]] + s[1..k];
    } else {
      assert s == s[..0] + s;
    }
  }

  /** `str::trim_end`: the longest prefix that does not end with whitespace. */
  function TrimEnd(s: string): (r: string)
    ensures |r| <= |s|
    ensures r == [] || !IsWhitespace(r[|r| - 1])
  {
    if s != [] && IsWhitespace(s[|s| - 1]) then TrimEnd(s[..|s| - 1]) else s
  }

  /** `trim_end` removes a whitespace suffix and nothing else. */
  lemma {:induction false} TrimEndDropsWhitespace(s: string)
    ensures var r := TrimEnd(s);
      s == r + s[|r|..] && AllWhitespace(s[|r|..])
  {
    if s != [] && IsWhitespace(s[|s| - 1]) {
      var front := s[..|s| - 1];
      TrimEndDropsWhitespace(front);
      var r := TrimEnd(front);
      assert s == front + [s[|s| - 1]];
      assert s[|r|..] == front[|r|..] + [s[|s| - 1]];
    } else {
      assert s == s + s[|s|..];
    }
  }

  /** `str::trim`. */
  function Trim(s: string): (r: string)
    ensures Trimmed(r)
  {
    var t := TrimStart(s);
    TrimEndDropsWhitespace(t);
    assert TrimEnd(t) != [] ==> TrimEnd(t)[0] == t[0];
    TrimEnd(t)
  }

  lemma {:induction false} TrimStartSkips(pre: string, rest: string)
    requires AllWhitespace(pre)
    requires rest == [] || !IsWhitespace(rest[0])
    ensures TrimStart(pre + rest) == rest
  {
    if pre == [] {
      assert pre + rest == rest;
    } else {
      assert (pre + rest)[1..] == pre[1..] + rest;
      TrimStartSkips(pre[1..], rest);
    }
  }

  lemma {:induction false} TrimEndSkips(rest: string, post: string)
    requires AllWhitespace(post)
    requires rest == [] || !IsWhitespace(rest[|rest| - 1])
    ensures TrimEnd(rest + post) == rest
  {
    if post == [] {
      assert rest + post == rest;
    } else {
      var n := |rest + post|;
      assert (rest + post)[n - 1] == post[|post| - 1];
      assert (rest + post)[..n - 1] == rest + post[..|post| - 1];
      TrimEndSkips(rest, post[..|post| - 1]);
    }
  }

  /** Trimming removes exactly the surrounding whitespace and nothing inside. */
  lemma TrimPadded(pre: string, x: string, post: string)
    requires AllWhitespace(pre) && AllWhitespace(post) && Trimmed(x)
    ensures Trim(pre + x + post) == x
  {
    if x == [] {
      assert pre + x + post == pre + post;
      TrimStartSkips(pre + post, []);
      assert pre + post + [] == pre + post;
    } else {
      assert pre + x + post == pre + (x + post);
      TrimStartSkips(pre, x + post);
      TrimEndSkips(x, post);
    }
  }

  /** Text that is already trimmed is left alone. */
  lemma TrimmedUnchanged(x: string)
    requires Trimmed(x)
    ensures Trim(x) == x
  {
    TrimPadded([], x, []);
    assert [] + x + [] == x;
  }

  // ---------------------------------------------------------------------------
  // Splitting

  /** How a splitter sees one character: dropped, a separator, or kept in the current field. */
  datatype Piece = Drop | Sep | Keep(c: char)

  function SepCount(ps: seq<Piece>): nat {
    if ps == [] then 0 else (if ps[0] == Sep then 1 else 0) + SepCount(ps[1..])
  }

  /** The kept characters, in order. */
  function Kept(ps: seq<Piece>): string {
    if ps == [] then [] else (if ps[0].Keep? then [ps[0].c] else []) + Kept(ps[1..])
  }

  /** The fields of `ps`: the runs of kept characters between consecutive separators,
      empty runs included; there is always at least one. */
  function Fields(ps: seq<Piece>): (fs: seq<string>)
    ensures fs != []
  {
    if ps == [] then [""]
    else
      var rest := Fields(ps[1..]);
      match ps[0]
      case Drop => rest
      case Sep => [""] + rest
      case Keep(c) => [[c] + rest[0]] + rest[1..]
  }

  /** There is one more field than there are separators. */
  lemma {:induction false} FieldsLength(ps: seq<Piece>)
    ensures |Fields(ps)| == SepCount(ps) + 1
  {
    if ps != [] {
      FieldsLength(ps[1..]);
    }
  }

  function Concat(ss: seq<string>): string {
    if ss == [] then "" else ss[0] + Concat(ss[1..])
  }

  /** The non-empty strings of `ss`, in order. */
  function NonEmpty(ss: seq<string>): (r: seq<string>)
    ensures |r| <= |ss|
  {
    if ss == [] then []
    else if ss[0] == "" then NonEmpty(ss[1..])
    else [ss[0]] + NonEmpty(ss[1..])
  }

  /** Exactly the non-empty strings survive, each of them. */
  lemma {:induction false} NonEmptyMembers(ss: seq<string>, t: string)
    ensures t in NonEmpty(ss) <==> t in ss && t != ""
  {
    if ss != [] {
      NonEmptyMembers(ss[1..], t);
      assert t in ss <==> t == ss[0] || t in ss[1..];
    }
  }

  /** Discarding empty strings does not change the concatenation. */
  lemma {:induction false} ConcatNonEmpty(ss: seq<string>)
    ensures Concat(NonEmpty(ss)) == Concat(ss)
  {
    if ss != [] {
      ConcatNonEmpty(ss[1..]);
      var rest := NonEmpty(ss[1..]);
      assert Concat(ss) == ss[0] + Concat(ss[1..]);
      if ss[0] == "" {
        assert NonEmpty(ss) == rest;
        assert ss[0] + Concat(ss[1..]) == Concat(ss[1..]);
      } else {
        var r := [ss[0]] + rest;
        assert NonEmpty(ss) == r;
        assert r[0] == ss[0] && r[1..] == rest;
        assert Concat(r) == ss[0] + Concat(rest);
      }
    }
  }

  /** Joining the fields back together gives exactly the kept characters. */
  lemma {:induction false} ConcatFields(ps: seq<Piece>)
    ensures Concat(Fields(ps)) == Kept(ps)
  {
    if ps != [] {
      var rest := Fields(ps[1..]);
      ConcatFields(ps[1..]);
      assert Concat(rest) == rest[0] + Concat(rest[1..]);
      match ps[0]
      case Drop =>
      case Sep =>
        assert ([""] + rest)[1..] == rest;
      case Keep(c) =>
        var fs := [[c] + rest[0]] + rest[1..];
        assert fs[1..] == rest[1..];
        assert Concat(fs) == [c] + rest[0] + Concat(rest[1..]);
    }
  }

  /** Every character of `s` kept. */
  function KeepAll(s: string): (ps: seq<Piece>)
    ensures |ps| == |s|
  {
    if s == [] then [] else [Keep(s[0])] + KeepAll(s[1..])
  }

  lemma {:induction false} KeepAllKept(s: string)
    ensures Kept(KeepAll(s)) == s && SepCount(KeepAll(s)) == 0
  {
    if s != [] {
      KeepAllKept(s[1..]);
      assert KeepAll(s)[1..] == KeepAll(s[1..]);
    }
  }

  lemma {:induction false} KeptAppend(xs: seq<Piece>, ys: seq<Piece>)
    ensures Kept(xs + ys) == Kept(xs) + Kept(ys)
    ensures SepCount(xs + ys) == SepCount(xs) + SepCount(ys)
  {
    if xs == [] {
      assert xs + ys == ys;
    } else {
      var zs := xs + ys;
      assert zs[0] == xs[0] && zs[1..] == xs[1..] + ys;
      KeptAppend(xs[1..], ys);
      var head := if xs[0].Keep? then [xs[0].c] else [];
      assert Kept(zs) == head + Kept(zs[1..]);
      assert Kept(xs) == head + Kept(xs[1..]);
    }
  }

  /** Without a separator there is exactly one field: everything kept. */
  lemma {:induction false} FieldsNoSep(ps: seq<Piece>)
    requires SepCount(ps) == 0
    ensures Fields(ps) == [Kept(ps)]
  {
    if ps != [] {
      FieldsNoSep(ps[1..]);
      if ps[0].Keep? {
        assert Kept(ps) == [ps[0].c] + Kept(ps[1..]);
        assert Fields(ps) == [[ps[0].c] + Kept(ps[1..])];
      } else {
        assert ps[0] == Drop;
        assert Kept(ps) == [] + Kept(ps[1..]) == Kept(ps[1..]);
      }
    }
  }

  /** The fields of a piece followed by more pieces, one step of `Fields`. */
  lemma FieldsCons(p: Piece, ps: seq<Piece>)
    ensures Fields([p] + ps) ==
      match p
      case Drop => Fields(ps)
      case Sep => [""] + Fields(ps)
      case Keep(c) => [[c] + Fields(ps)[0]] + Fields(ps)[1..]
  {
    assert ([p] + ps)[0] == p && ([p] + ps)[1..] == ps;
  }

  /** Extending the first of some strings, then appending more, is appending,
      then extending the first. */
  lemma ExtendFirstAppend(h: string, front: seq<string>, back: seq<string>)
    requires front != []
    ensures ([h + front[0]] + front[1..]) + back == [h + (front + back)[0]] + (front + back)[1..]
  {
    assert (front + back)[0] == front[0];
    assert (front + back)[1..] == front[1..] + back;
  }

  /** One more piece in front of both sides keeps a cut at a separator a cut. */
  lemma FieldsAppendSepStep(p: Piece, xs: seq<Piece>, ys: seq<Piece>)
    requires Fields(xs + [Sep] + ys) == Fields(xs) + Fields(ys)
    ensures Fields([p] + (xs + [Sep] + ys)) == Fields([p] + xs) + Fields(ys)
  {
    FieldsCons(p, xs + [Sep] + ys);
    FieldsCons(p, xs);
    match p
    case Drop =>
    case Sep =>
      assert ([""] + Fields(xs)) + Fields(ys) == [""] + (Fields(xs) + Fields(ys));
    case Keep(c) =>
      ExtendFirstAppend([c], Fields(xs), Fields(ys));
  }

  /** A separator cuts the fields in two: those before it and those after it. */
  lemma {:induction false} FieldsAppendSep(xs: seq<Piece>, ys: seq<Piece>)
    ensures Fields(xs + [Sep] + ys) == Fields(xs) + Fields(ys)
  {
    if xs == [] {
      assert xs + [Sep] + ys == [Sep] + ys;
      FieldsCons(Sep, ys);
    } else {
      FieldsAppendSep(xs[1..], ys);
      FieldsAppendSepStep(xs[0], xs[1..], ys);
      assert xs == [xs[0]] + xs[1..];
      assert xs + [Sep] + ys == [xs[0]] + (xs[1..] + [Sep] + ys);
    }
  }

  /** A field holds only characters that the pieces keep. */
  lemma {:induction false} FieldsChars(ps: seq<Piece>, f: string, k: nat)
    requires f in Fields(ps) && k < |f|
    ensures Keep(f[k]) in ps
  {
    var rest := Fields(ps[1..]);
    match ps[0]
    case Drop =>
      FieldsChars(ps[1..], f, k);
    case Sep =>
      FieldsChars(ps[1..], f, k);
    case Keep(c) =>
      if f == [c] + rest[0] {
        if k > 0 {
          FieldsChars(ps[1..], rest[0], k - 1);
        }
      } else {
        assert f in rest[1..];
        FieldsChars(ps[1..], f, k);
      }
  }

  // --- `str::split` on a single-character delimiter

  function DelimPieces(s: string, d: char): (ps: seq<Piece>)
    ensures |ps| == |s|
  {
    if s == [] then [] else [if s[0] == d then Sep else Keep(s[0])] + DelimPieces(s[1..], d)
  }

  lemma {:induction false} DelimPiecesNoDelim(s: string, d: char)
    requires d !in s
    ensures DelimPieces(s, d) == KeepAll(s)
  {
    if s != [] {
      assert s[0] in s;
      assert d !in s[1..] by {
        assert forall c :: c in s[1..] ==> c in s;
      }
      DelimPiecesNoDelim(s[1..], d);
    }
  }

  /** `s.split(d)`: never empty, and a string without `d` is its own single
      field (an empty string gives one empty field). */
  function SplitOn(s: string, d: char): (r: seq<string>)
    ensures r != []
    ensures d !in s ==> r == [s]
  {
    if d in s then Fields(DelimPieces(s, d))
    else
      DelimPiecesNoDelim(s, d);
      KeepAllKept(s);
      FieldsNoSep(KeepAll(s));
      Fields(DelimPieces(s, d))
  }

  /** `fields.join(d)`, the inverse of `SplitOn`. */
  function Join(fs: seq<string>, d: char): string {
    if fs == [] then ""
    else if |fs| == 1 then fs[0]
    else fs[0] + [d] + Join(fs[1..], d)
  }

  /** Splitting on `d` and joining with `d` gives back the original string. */
  lemma {:induction false} JoinSplitOn(s: string, d: char)
    ensures Join(SplitOn(s, d), d) == s
  {
    if s != [] {
      var rest := SplitOn(s[1..], d);
      JoinSplitOn(s[1..], d);
      assert DelimPieces(s, d)[1..] == DelimPieces(s[1..], d);
      if s[0] == d {
        assert SplitOn(s, d) == [""] + rest;
        assert ([""] + rest)[1..] == rest;
      } else {
        var fs := [[s[0]] + rest[0]] + rest[1..];
        assert SplitOn(s, d) == fs;
        assert fs[1..] == rest[1..];
        if |rest| == 1 {
          assert Join(fs, d) == [s[0]] + rest[0];
        } else {
          assert Join(rest, d) == rest[0] + [d] + Join(rest[1..], d);
        }
      }
    }
  }

  lemma {:induction false} DelimPiecesKeep(s: string, d: char, c: char)
    requires Keep(c) in DelimPieces(s, d)
    ensures c in s && c != d
  {
    if s != [] {
      var ps := DelimPieces(s, d);
      if ps[0] != Keep(c) {
        assert Keep(c) in ps[1..];
        DelimPiecesKeep(s[1..], d, c);
      }
    }
  }

  /** No field of `s.split(d)` contains `d`. */
  lemma SplitOnFieldsLackDelimiter(s: string, d: char, f: string)
    requires f in SplitOn(s, d)
    ensures d !in f
  {
    if d in f {
      var k :| 0 <= k < |f| && f[k] == d;
      FieldsChars(DelimPieces(s, d), f, k);
      DelimPiecesKeep(s, d, d);
    }
  }

  // --- `str::split_whitespace`

  function WhitespacePieces(s: string): (ps: seq<Piece>)
    ensures |ps| == |s|
  {
    if s == [] then [] else [if IsWhitespace(s[0]) then Sep else Keep(s[0])] + WhitespacePieces(s[1..])
  }

  /** `s.split_whitespace()`: the maximal runs of non-whitespace characters. */
  function SplitWhitespace(s: string): (r: seq<string>)
    ensures forall t :: t in r ==> t != ""
  {
    var fs := Fields(WhitespacePieces(s));
    assert forall t :: t in NonEmpty(fs) ==> t != "" by {
      forall t | t in NonEmpty(fs) ensures t != "" {
        NonEmptyMembers(fs, t);
      }
    }
    NonEmpty(fs)
  }

  lemma {:induction false} NonEmptyAppend(xs: seq<string>, ys: seq<string>)
    ensures NonEmpty(xs + ys) == NonEmpty(xs) + NonEmpty(ys)
  {
    if xs == [] {
      assert xs + ys == ys;
    } else {
      assert (xs + ys)[1..] == xs[1..] + ys;
      NonEmptyAppend(xs[1..], ys);
    }
  }

  lemma {:induction false} FieldsSnocSep(ps: seq<Piece>)
    ensures Fields(ps + [Sep]) == Fields(ps) + [""]
  {
    if ps == [] {
      assert ps + [Sep] == [Sep];
      assert Fields([Sep][1..]) == [""];
    } else {
      assert (ps + [Sep])[1..] == ps[1..] + [Sep];
      FieldsSnocSep(ps[1..]);
      var rest := Fields(ps[1..]);
      match ps[0]
      case Drop =>
      case Sep =>
      case Keep(c) =>
        assert (rest + [""])[0] == rest[0];
        assert (rest + [""])[1..] == rest[1..] + [""];
    }
  }

  lemma {:induction false} WhitespacePiecesAppend(s: string, t: string)
    ensures WhitespacePieces(s + t) == WhitespacePieces(s) + WhitespacePieces(t)
  {
    if s == [] {
      assert s + t == t;
    } else {
      assert (s + t)[1..] == s[1..] + t;
      WhitespacePiecesAppend(s[1..], t);
    }
  }

  lemma {:induction false} SplitWhitespaceDropsLeading(w: string, t: string)
    requires AllWhitespace(w)
    ensures SplitWhitespace(w + t) == SplitWhitespace(t)
  {
    if w == [] {
      assert w + t == t;
    } else {
      assert (w + t)[1..] == w[1..] + t;
      SplitWhitespaceDropsLeading(w[1..], t);
      var ps := WhitespacePieces(w + t);
      assert ps[1..] == WhitespacePieces(w[1..] + t);
      assert Fields(ps) == [""] + Fields(ps[1..]);
      assert ([""] + Fields(ps[1..]))[1..] == Fields(ps[1..]);
    }
  }

  lemma {:induction false} SplitWhitespaceDropsTrailing(t: string, w: string)
    requires AllWhitespace(w)
    ensures SplitWhitespace(t + w) == SplitWhitespace(t)
  {
    if w == [] {
      assert t + w == t;
    } else {
      var front := w[..|w| - 1];
      assert t + w == (t + front) + [w[|w| - 1]];
      SplitWhitespaceDropsTrailing(t, front);
      WhitespacePiecesAppend(t + front, [w[|w| - 1]]);
      assert WhitespacePieces([w[|w| - 1]]) == [Sep];
      FieldsSnocSep(WhitespacePieces(t + front));
      NonEmptyAppend(Fields(WhitespacePieces(t + front)), [""]);
    }
  }

  lemma SplitWhitespaceTrimStart(s: string)
    ensures SplitWhitespace(TrimStart(s)) == SplitWhitespace(s)
  {
    var u := TrimStart(s);
    var k := |s| - |u|;
    TrimStartDropsWhitespace(s);
    SplitWhitespaceDropsLeading(s[..k], u);
  }

  lemma SplitWhitespaceTrimEnd(u: string)
    ensures SplitWhitespace(TrimEnd(u)) == SplitWhitespace(u)
  {
    var v := TrimEnd(u);
    TrimEndDropsWhitespace(u);
    SplitWhitespaceDropsTrailing(v, u[|v|..]);
  }

  /** The `trim` before `split_whitespace` changes nothing: splitting ignores outer whitespace. */
  lemma SplitWhitespaceIgnoresTrim(s: string)
    ensures SplitWhitespace(Trim(s)) == SplitWhitespace(s)
  {
    SplitWhitespaceTrimStart(s);
    SplitWhitespaceTrimEnd(TrimStart(s));
  }

  /** Holds no whitespace character at all. */
  predicate NoWhitespace(s: string) {
    forall i :: 0 <= i < |s| ==> !IsWhitespace(s[i])
  }

  /** Any whitespace character cuts: the tokens of the whole are the tokens
      before it followed by the tokens after it. */
  lemma SplitWhitespaceCut(x: string, c: char, y: string)
    requires IsWhitespace(c)
    ensures SplitWhitespace(x + [c] + y) == SplitWhitespace(x) + SplitWhitespace(y)
  {
    WhitespacePiecesAppend(x, [c]);
    WhitespacePiecesAppend(x + [c], y);
    assert WhitespacePieces([c]) == [Sep];
    FieldsAppendSep(WhitespacePieces(x), WhitespacePieces(y));
    NonEmptyAppend(Fields(WhitespacePieces(x)), Fields(WhitespacePieces(y)));
  }

  lemma {:induction false} WhitespacePiecesWord(w: string)
    requires NoWhitespace(w)
    ensures WhitespacePieces(w) == KeepAll(w)
  {
    if w != [] {
      assert !IsWhitespace(w[0]);
      assert NoWhitespace(w[1..]) by {
        forall i | 0 <= i < |w[1..]| ensures !IsWhitespace(w[1..][i]) {
          assert w[1..][i] == w[i + 1];
        }
      }
      WhitespacePiecesWord(w[1..]);
    }
  }

  /** A non-empty word without whitespace is one token, itself. */
  lemma SplitWhitespaceWord(w: string)
    requires w != "" && NoWhitespace(w)
    ensures SplitWhitespace(w) == [w]
  {
    WhitespacePiecesWord(w);
    KeepAllKept(w);
    FieldsNoSep(KeepAll(w));
    assert [w][1..] == [];
  }

  lemma {:induction false} WhitespacePiecesKeep(s: string, c: char)
    requires Keep(c) in WhitespacePieces(s)
    ensures c in s && !IsWhitespace(c)
  {
    if s != [] {
      var ps := WhitespacePieces(s);
      if ps[0] != Keep(c) {
        assert Keep(c) in ps[1..];
        WhitespacePiecesKeep(s[1..], c);
      }
    }
  }

  /** No token of `split_whitespace` holds a whitespace character. */
  lemma SplitWhitespaceTokensLackWhitespace(s: string, t: string)
    requires t in SplitWhitespace(s)
    ensures NoWhitespace(t)
  {
    var ps := WhitespacePieces(s);
    NonEmptyMembers(Fields(ps), t);
    forall k | 0 <= k < |t| ensures !IsWhitespace(t[k]) {
      FieldsChars(ps, t, k);
      WhitespacePiecesKeep(s, t[k]);
    }
  }
}
