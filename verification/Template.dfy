/** argv templates: {{name}} tokens replaced in place, and elements that are exactly {{name...}}
    split into words. */
module Template {

  predicate NameChar(c: char) {
    'a' <= c <= 'z' || 'A' <= c <= 'Z' || '0' <= c <= '9' || c == '_'
  }

  predicate ValidName(name: string) {
    name != "" && forall i | 0 <= i < |name| :: NameChar(name[i])
  }

  function Token(name: string): string {
    "{{" + name + "}}"
  }

  function SplitToken(name: string): string {
    "{{" + name + "...}}"
  }

  /** The length of the run of name characters that `s` begins with. */
  function NameLength(s: string): (n: nat)
    ensures n <= |s| && (forall i | 0 <= i < n :: NameChar(s[i])) && (n < |s| ==> !NameChar(s[n]))
  {
    if s == "" || !NameChar(s[0]) then 0 else NameLength(s[1..]) + 1
  }

  /** The name of the token that `s` begins with, "" if it begins with none: the match of
      {{([a-zA-Z0-9_]+)}} at the start of `s`. */
  function TokenAt(s: string): (name: string)
    ensures name != "" ==> ValidName(name) && Token(name) <= s
  {
    if |s| < 2 || s[..2] != "{{" then "" else
      var n := NameLength(s[2..]);
      if n > 0 && n + 4 <= |s| && s[2 + n..4 + n] == "}}" then
        var name := s[2..2 + n];
        assert s[..2] + name + s[2 + n..4 + n] == s[..4 + n];
        name
      else ""
  }

  /** There is no other token at the start. */
  lemma TokenAtUnique(name: string, rest: string)
    requires ValidName(name)
    ensures TokenAt(Token(name) + rest) == name
  {
    var s := Token(name) + rest;
    assert s[2..] == name + "}}" + rest;
    assert s[2..2 + |name|] == name;
    assert forall i | 0 <= i < |name| :: s[2..][i] == name[i];
    assert s[2..][|name|] == '}';
    var n := NameLength(s[2..]);
    assert n == |name|;
    assert s[2 + n..4 + n] == "}}";
  }

  // ---- scanning ----

  datatype Piece = Lit(c: char) | Tok(name: string)

  function Text(p: Piece): string {
    match p
    case Lit(c) => [c]
    case Tok(name) => Token(name)
  }

  function Source(pieces: seq<Piece>): string {
    if pieces == [] then "" else Text(pieces[0]) + Source(pieces[1..])
  }

  /** Leftmost non-overlapping tokens, scanning on behind each. */
  function Scan(s: string): seq<Piece>
    decreases |s|
  {
    if s == "" then [] else
      var name := TokenAt(s);
      if name != "" then [Tok(name)] + Scan(s[|name| + 4..]) else [Lit(s[0])] + Scan(s[1..])
  }

  /** Where the pieces say "literal" no token begins, and the tokens are tokens. */
  ghost predicate Leftmost(pieces: seq<Piece>) {
    pieces != [] ==>
      && (match pieces[0]
          case Lit(_) => TokenAt(Source(pieces)) == ""
          case Tok(name) => ValidName(name))
      && Leftmost(pieces[1..])
  }

  /** Scanning cuts the text into pieces, in order and without loss, and takes every leftmost token. */
  lemma {:induction false} ScanCuts(s: string)
    ensures Source(Scan(s)) == s && Leftmost(Scan(s))
    decreases |s|
  {
    hide TokenAt, ValidName;
    if s != "" {
      var name := TokenAt(s);
      if name != "" {
        var n := |name| + 4;
        ScanCuts(s[n..]);
        assert s == Token(name) + s[n..];
        assert Scan(s)[1..] == Scan(s[n..]);
      } else {
        ScanCuts(s[1..]);
        assert s == [s[0]] + s[1..];
        assert Scan(s)[1..] == Scan(s[1..]);
      }
    }
  }

  /** And it is the only such cutting. */
  lemma {:induction false} ScanUnique(pieces: seq<Piece>)
    requires Leftmost(pieces)
    ensures Scan(Source(pieces)) == pieces
  {
    if pieces != [] {
      var rest := Source(pieces[1..]);
      ScanUnique(pieces[1..]);
      match pieces[0] {
        case Lit(c) =>
          assert Source(pieces)[1..] == rest;
        case Tok(name) =>
          TokenAtUnique(name, rest);
          assert Source(pieces)[|name| + 4..] == rest;
      }
      assert pieces == [pieces[0]] + pieces[1..];
    }
  }

  // ---- expansion ----

  type Values = map<string, string>

  function Get(vals: Values, name: string): string {
    if name in vals then vals[name] else ""
  }

  /** The value of a token in a command: the per-run output path, or an input. */
  function Value(vals: Values, outfile: string, name: string): string {
    if name == "outfile" then outfile else Get(vals, name)
  }

  /** Replaces each token by `f` of its name and copies the rest. */
  function Replaced(f: string -> string, pieces: seq<Piece>): string {
    if pieces == [] then "" else Shown(f, pieces[0]) + Replaced(f, pieces[1..])
  }

  function Shown(f: string -> string, p: Piece): string {
    match p
    case Lit(c) => [c]
    case Tok(name) => f(name)
  }

  function ExpandString(tmpl: string, vals: Values): string {
    Replaced(name => Get(vals, name), Scan(tmpl))
  }

  function Filler(vals: Values, outfile: string): string -> string {
    name => Value(vals, outfile, name)
  }

  function Filled(el: string, vals: Values, outfile: string): string {
    Replaced(Filler(vals, outfile), Scan(el))
  }

  function Names(pieces: seq<Piece>): set<string> {
    set p | p in pieces && p.Tok? :: p.name
  }

  /** Expansion depends on the tokens present and on nothing else. */
  lemma {:induction false} ReplacedAgrees(f: string -> string, g: string -> string, pieces: seq<Piece>)
    requires forall name <- Names(pieces) :: f(name) == g(name)
    ensures Replaced(f, pieces) == Replaced(g, pieces)
  {
    if pieces != [] {
      assert pieces[0] in pieces;
      assert pieces[0].Tok? ==> pieces[0].name in Names(pieces);
      assert forall name <- Names(pieces[1..]) :: name in Names(pieces);
      ReplacedAgrees(f, g, pieces[1..]);
    }
  }

  lemma {:induction false} ReplacedAppend(f: string -> string, a: seq<Piece>, b: seq<Piece>)
    ensures Replaced(f, a + b) == Replaced(f, a) + Replaced(f, b)
  {
    hide Shown;
    if a == [] {
      assert a + b == b;
    } else {
      ReplacedAppend(f, a[1..], b);
      assert (a + b)[1..] == a[1..] + b && (a + b)[0] == a[0];
      var head, x, y := Shown(f, a[0]), Replaced(f, a[1..]), Replaced(f, b);
      assert Replaced(f, a + b) == head + (x + y) && Replaced(f, a) == head + x;
      hide Replaced;
      assert head + (x + y) == (head + x) + y;
    }
  }

  ghost predicate TokenFree(el: string) {
    forall p <- Scan(el) :: p.Lit?
  }

  lemma {:induction false} ReplacedLiterals(f: string -> string, pieces: seq<Piece>)
    requires forall p <- pieces :: p.Lit?
    ensures Replaced(f, pieces) == Source(pieces)
  {
    if pieces != [] {
      assert pieces[0] in pieces;
      ReplacedLiterals(f, pieces[1..]);
    }
  }

  /** Each token's value goes in as it is, tokens inside it included; what stands before and after
      the token is expanded on its own. */
  lemma ValueVerbatim(before: seq<Piece>, name: string, after: seq<Piece>, vals: Values, outfile: string)
    requires Leftmost(before + [Tok(name)] + after)
    ensures var f := Filler(vals, outfile);
            Filled(Source(before + [Tok(name)] + after), vals, outfile)
            == Replaced(f, before)
               + (if name == "outfile" then outfile else if name in vals then vals[name] else "")
               + Replaced(f, after)
  {
    hide Source, Leftmost, Scan, Value, Get;
    var f := Filler(vals, outfile);
    ValueIs(name, vals, outfile);
    ScanUnique(before + [Tok(name)] + after);
    ReplacedAppend(f, before + [Tok(name)], after);
    ReplacedAppend(f, before, [Tok(name)]);
    assert Replaced(f, [Tok(name)]) == f(name) + "" == Value(vals, outfile, name);
  }

  // ---- words ----

  /** Unicode white space. */
  predicate IsSpace(c: char) {
    '\t' <= c <= '\r' || c == ' ' || c == '\U{0085}' || c == '\U{00A0}' || c == '\U{1680}'
    || '\U{2000}' <= c <= '\U{200A}' || c == '\U{2028}' || c == '\U{2029}' || c == '\U{202F}'
    || c == '\U{205F}' || c == '\U{3000}'
  }

  predicate IsWord(w: string) {
    w != "" && forall i | 0 <= i < |w| :: !IsSpace(w[i])
  }

  function WordLength(s: string): (n: nat)
    ensures n <= |s| && (forall i | 0 <= i < n :: !IsSpace(s[i])) && (n < |s| ==> IsSpace(s[n]))
  {
    if s == "" || IsSpace(s[0]) then 0 else WordLength(s[1..]) + 1
  }

  /** strings.Fields */
  function Fields(s: string): seq<string>
    decreases |s|
  {
    if s == "" then []
    else if IsSpace(s[0]) then Fields(s[1..])
    else var n := WordLength(s); [s[..n]] + Fields(s[n..])
  }

  /** Words one after the other, whatever white space stands between them. */
  ghost predicate Spaced(s: string, words: seq<string>)
    decreases |s|
  {
    if s == "" then words == []
    else if IsSpace(s[0]) then Spaced(s[1..], words)
    else words != [] && IsWord(words[0]) && words[0] <= s
         && (|words[0]| == |s| || IsSpace(s[|words[0]|]))
         && Spaced(s[|words[0]|..], words[1..])
  }

  /** Splitting finds the words, */
  lemma {:induction false} FieldsSpaced(s: string)
    ensures Spaced(s, Fields(s))
    decreases |s|
  {
    if s != "" {
      if IsSpace(s[0]) {
        FieldsSpaced(s[1..]);
      } else {
        FieldsSpaced(s[WordLength(s)..]);
      }
    }
  }

  /** and there is no other way to read them. */
  lemma {:induction false} SpacedUnique(s: string, words: seq<string>)
    requires Spaced(s, words)
    ensures words == Fields(s)
    decreases |s|
  {
    if s != "" {
      if IsSpace(s[0]) {
        SpacedUnique(s[1..], words);
      } else {
        var n := WordLength(s);
        assert words[0] == s[..|words[0]|];
        assert forall i | 0 <= i < |words[0]| :: s[i] == words[0][i];
        assert |words[0]| == n;
        SpacedUnique(s[n..], words[1..]);
        assert words == [words[0]] + words[1..];
      }
    }
  }

  // ---- Substitute ----

  /** The name in an element that is exactly {{name...}}, "" for every other element. */
  function SplitName(el: string): (name: string)
    ensures name != "" ==> ValidName(name) && el == SplitToken(name)
  {
    if |el| < 2 || el[..2] != "{{" then "" else
      var n := NameLength(el[2..]);
      if n > 0 && el[2 + n..] == "...}}" then
        var name := el[2..2 + n];
        assert el == el[..2] + name + el[2 + n..] == SplitToken(name);
        name
      else ""
  }

  lemma SplitNameOf(name: string)
    requires ValidName(name)
    ensures SplitName(SplitToken(name)) == name
  {
    var el := SplitToken(name);
    assert forall i | 0 <= i < |name| :: el[2..][i] == name[i];
    assert el[2..][|name|] == '.';
    assert NameLength(el[2..]) == |name|;
    assert el[2 + |name|..] == "...}}" && el[2..2 + |name|] == name;
  }

  /** The arguments that one element becomes. */
  function Arguments(el: string, vals: Values, outfile: string): seq<string> {
    var name := SplitName(el);
    if name != "" then Fields(Get(vals, name)) else [Filled(el, vals, outfile)]
  }

  function Substituted(argv: seq<string>, vals: Values, outfile: string): seq<string> {
    if argv == [] then [] else
      var n := |argv| - 1;
      Substituted(argv[..n], vals, outfile) + Arguments(argv[n], vals, outfile)
  }

  method Substitute(argv: seq<string>, vals: Values, outfile: string) returns (out: seq<string>)
    ensures out == Substituted(argv, vals, outfile)
  {
    out := [];
    for i := 0 to |argv|
      invariant out == Substituted(argv[..i], vals, outfile)
    {
      assert argv[..i + 1][..i] == argv[..i];
      var name := SplitName(argv[i]);
      if name != "" {
        out := out + Fields(Get(vals, name));
        continue;
      }
      out := out + [Filled(argv[i], vals, outfile)];
    }
    assert argv[..|argv|] == argv;
  }

  /** One argument per element, except that a split element gives as many as its value has words. */
  function Count(argv: seq<string>, vals: Values): nat {
    if argv == [] then 0 else
      var n := |argv| - 1;
      Count(argv[..n], vals)
      + if SplitName(argv[n]) == "" then 1 else |Fields(Get(vals, SplitName(argv[n])))|
  }

  lemma {:induction false} SubstitutedCount(argv: seq<string>, vals: Values, outfile: string)
    ensures |Substituted(argv, vals, outfile)| == Count(argv, vals)
  {
    if argv != [] {
      SubstitutedCount(argv[..|argv| - 1], vals, outfile);
    }
  }

  ghost predicate Unsplit(argv: seq<string>, k: nat) {
    k <= |argv| && forall i | 0 <= i < k :: SplitName(argv[i]) == ""
  }

  /** Later elements only append. */
  lemma {:induction false} SubstitutedPrefix(argv: seq<string>, vals: Values, outfile: string, k: nat)
    requires k <= |argv|
    ensures Substituted(argv[..k], vals, outfile) <= Substituted(argv, vals, outfile)
  {
    hide Arguments;
    var n := |argv| - 1;
    if k <= n {
      SubstitutedPrefix(argv[..n], vals, outfile, k);
      assert argv[..n][..k] == argv[..k];
    } else {
      assert argv[..k] == argv;
    }
  }

  /** What comes from element `i` stands behind what the elements before it count for. */
  lemma Located(argv: seq<string>, vals: Values, outfile: string, i: nat)
    requires i < |argv|
    ensures var at, end := Count(argv[..i], vals), Count(argv[..i + 1], vals);
            && at <= end <= |Substituted(argv, vals, outfile)|
            && Substituted(argv, vals, outfile)[at..end] == Arguments(argv[i], vals, outfile)
  {
    var upTo := argv[..i + 1];
    SubstitutedPrefix(argv, vals, outfile, i + 1);
    SubstitutedCount(argv[..i], vals, outfile);
    SubstitutedCount(upTo, vals, outfile);
    SubstitutedLast(upTo, vals, outfile);
    assert upTo[..i] == argv[..i];
    hide Arguments, Substituted, Count;
    Slice(Substituted(argv[..i], vals, outfile), Arguments(argv[i], vals, outfile), Substituted(argv, vals, outfile));
  }

  lemma SubstitutedLast(argv: seq<string>, vals: Values, outfile: string)
    requires argv != []
    ensures var n := |argv| - 1;
            Substituted(argv, vals, outfile)
            == Substituted(argv[..n], vals, outfile) + Arguments(argv[n], vals, outfile)
  {}

  lemma Slice(a: seq<string>, b: seq<string>, s: seq<string>)
    requires a + b <= s
    ensures s[|a|..|a + b|] == b
  {}

  lemma {:induction false} CountUnsplit(argv: seq<string>, vals: Values)
    requires Unsplit(argv, |argv|)
    ensures Count(argv, vals) == |argv|
  {
    if argv != [] {
      CountUnsplit(argv[..|argv| - 1], vals);
    }
  }

  /** Before the first split element each element is one argument, at its own position. */
  lemma Positions(argv: seq<string>, vals: Values, outfile: string, k: nat, i: nat)
    requires Unsplit(argv, k) && i < k
    ensures i < |Substituted(argv, vals, outfile)|
    ensures Substituted(argv, vals, outfile)[i] == Filled(argv[i], vals, outfile)
    ensures k == |argv| ==> |Substituted(argv, vals, outfile)| == k
  {
    hide Filled, Substituted, Count;
    CountUnsplit(argv[..i], vals);
    CountUnsplit(argv[..i + 1], vals);
    Located(argv, vals, outfile, i);
    SubstitutedCount(argv, vals, outfile);
    if k == |argv| {
      CountUnsplit(argv, vals);
    }
  }

  /** Two runs with any two sets of values: before the first split element the arguments are in the
      same places, and one differs only if a token in it other than {{outfile}} has two values. */
  lemma Independence(argv: seq<string>, v: Values, w: Values, outfile: string, k: nat, i: nat)
    requires Unsplit(argv, k) && i < k
    ensures i < |Substituted(argv, v, outfile)| && i < |Substituted(argv, w, outfile)|
    ensures (forall name <- Names(Scan(argv[i])) | name != "outfile" :: Get(v, name) == Get(w, name)) ==>
              Substituted(argv, v, outfile)[i] == Substituted(argv, w, outfile)[i]
  {
    Positions(argv, v, outfile, k, i);
    Positions(argv, w, outfile, k, i);
    if forall name <- Names(Scan(argv[i])) | name != "outfile" :: Get(v, name) == Get(w, name) {
      ReplacedAgrees(Filler(v, outfile), Filler(w, outfile), Scan(argv[i]));
    }
  }

  /** A command name without tokens is argv[0] of every run. */
  lemma CommandFixed(argv: seq<string>, vals: Values, outfile: string)
    requires argv != [] && TokenFree(argv[0]) && SplitName(argv[0]) == ""
    ensures Substituted(argv, vals, outfile) != [] && Substituted(argv, vals, outfile)[0] == argv[0]
  {
    assert Unsplit(argv, 1);
    Positions(argv, vals, outfile, 1, 0);
    ReplacedLiterals(Filler(vals, outfile), Scan(argv[0]));
    ScanCuts(argv[0]);
  }

  // ---- where the per-run output path goes ----

  /** The element has an {{outfile}} token, and is not a split element as a whole. */
  ghost predicate TakesOutfile(el: string) {
    SplitName(el) == "" && "outfile" in Names(Scan(el))
  }

  /** A longer output path makes a longer text if there is an {{outfile}} token. */
  lemma {:induction false} LongerOutfile(pieces: seq<Piece>, vals: Values)
    ensures var short, long := |Replaced(Filler(vals, ""), pieces)|, |Replaced(Filler(vals, "x"), pieces)|;
            short <= long && ("outfile" in Names(pieces) ==> short < long)
  {
    if pieces != [] {
      LongerOutfile(pieces[1..], vals);
      assert pieces == [pieces[0]] + pieces[1..];
      assert "outfile" in Names(pieces) ==> pieces[0] == Tok("outfile") || "outfile" in Names(pieces[1..]);
    }
  }

  lemma SameArguments(el: string, vals: Values, o: string, p: string)
    requires !TakesOutfile(el)
    ensures Arguments(el, vals, o) == Arguments(el, vals, p)
  {
    if SplitName(el) == "" {
      ReplacedAgrees(Filler(vals, o), Filler(vals, p), Scan(el));
    }
  }

  lemma {:induction false} SameSubstituted(argv: seq<string>, vals: Values, o: string, p: string)
    requires forall el <- argv :: !TakesOutfile(el)
    ensures Substituted(argv, vals, o) == Substituted(argv, vals, p)
  {
    hide TakesOutfile;
    if argv != [] {
      var n := |argv| - 1;
      SameSubstituted(argv[..n], vals, o, p);
      SameArguments(argv[n], vals, o, p);
    }
  }

  lemma OutfileSeen(argv: seq<string>, vals: Values, i: nat)
    requires i < |argv| && TakesOutfile(argv[i])
    ensures Substituted(argv, vals, "") != Substituted(argv, vals, "x")
  {
    hide Substituted, Count, Replaced, Scan, Names, SplitName;
    Located(argv, vals, "", i);
    Located(argv, vals, "x", i);
    LongerOutfile(Scan(argv[i]), vals);
    assert Arguments(argv[i], vals, "")[0] != Arguments(argv[i], vals, "x")[0];
  }

  /** The output path reaches {{outfile}} tokens and nothing else: the arguments are the same for every
      output path exactly when each element is a split element or has no such token. */
  lemma OutfileIff(argv: seq<string>, vals: Values)
    ensures (forall o, p :: Substituted(argv, vals, o) == Substituted(argv, vals, p))
       <==> forall el <- argv :: SplitName(el) != "" || "outfile" !in Names(Scan(el))
  {
    if i: nat :| i < |argv| && TakesOutfile(argv[i]) {
      OutfileSeen(argv, vals, i);
    } else {
      assert forall el <- argv :: !TakesOutfile(el);
      forall o, p
        ensures Substituted(argv, vals, o) == Substituted(argv, vals, p)
      {
        SameSubstituted(argv, vals, o, p);
      }
    }
  }

  /** A display header expands as a command argument does, {{outfile}} apart. */
  lemma ExpandStringFilled(tmpl: string, vals: Values, outfile: string)
    ensures "outfile" !in Names(Scan(tmpl)) || outfile == Get(vals, "outfile") ==>
              ExpandString(tmpl, vals) == Filled(tmpl, vals, outfile)
  {
    if "outfile" !in Names(Scan(tmpl)) || outfile == Get(vals, "outfile") {
      ReplacedAgrees(name => Get(vals, name), Filler(vals, outfile), Scan(tmpl));
    }
  }

  // ---- what the texts and arguments are, told by the values themselves ----

  /** `text` is the pieces with each {{outfile}} token replaced by `outfile` and each other token by the value of
      that name, by nothing if there is none. */
  ghost predicate Expands(pieces: seq<Piece>, vals: Values, outfile: string, text: string) {
    if pieces == [] then text == "" else
      match pieces[0]
      case Lit(c) => text != "" && text[0] == c && Expands(pieces[1..], vals, outfile, text[1..])
      case Tok(name) =>
        if name == "outfile" then outfile <= text && Expands(pieces[1..], vals, outfile, text[|outfile|..])
        else if name in vals then vals[name] <= text && Expands(pieces[1..], vals, outfile, text[|vals[name]|..])
        else Expands(pieces[1..], vals, outfile, text)
  }

  lemma {:induction false} ReplacedExpands(pieces: seq<Piece>, vals: Values, outfile: string, text: string)
    ensures Expands(pieces, vals, outfile, text) <==> text == Replaced(Filler(vals, outfile), pieces)
  {
    if pieces != [] {
      var f := Filler(vals, outfile);
      var shown, rest := Shown(f, pieces[0]), Replaced(f, pieces[1..]);
      if shown <= text {
        ReplacedExpands(pieces[1..], vals, outfile, text[|shown|..]);
        assert text == shown + text[|shown|..];
      }
      assert (shown + rest)[|shown|..] == rest;
    }
  }

  /** Every argument of an ordinary element is its text with the values in it. */
  lemma FilledIs(el: string, vals: Values, outfile: string, text: string)
    ensures text == Filled(el, vals, outfile) <==> Expands(Scan(el), vals, outfile, text)
  {
    ReplacedExpands(Scan(el), vals, outfile, text);
  }

  /** And of a display header; there {{outfile}} is a name like any other. */
  lemma ExpandStringIs(tmpl: string, vals: Values, text: string)
    ensures text == ExpandString(tmpl, vals)
       <==> Expands(Scan(tmpl), vals, if "outfile" in vals then vals["outfile"] else "", text)
  {
    var o := if "outfile" in vals then vals["outfile"] else "";
    ReplacedAgrees(name => Get(vals, name), Filler(vals, o), Scan(tmpl));
    ReplacedExpands(Scan(tmpl), vals, o, text);
  }

  lemma NotSplitToken(name: string, other: string)
    requires ValidName(name) && ValidName(other)
    ensures Token(name) != SplitToken(other)
  {
    var t, u := Token(name), SplitToken(other);
    assert t[|t| - 3] == name[|name| - 1] && NameChar(name[|name| - 1]);
    assert u[|u| - 3] == '.';
  }

  lemma TokenIsNoSplit(name: string)
    requires ValidName(name)
    ensures SplitName(Token(name)) == "" && Scan(Token(name)) == [Tok(name)]
  {
    TokenAtUnique(name, "");
    assert Token(name) + "" == Token(name) && Token(name)[|name| + 4..] == "";
    if SplitName(Token(name)) != "" {
      NotSplitToken(name, SplitName(Token(name)));
    }
  }

  lemma OneElement(el: string, vals: Values, outfile: string)
    ensures Substituted([el], vals, outfile) == Arguments(el, vals, outfile)
  {
    hide Arguments;
    assert [el][..0] == [];
    assert Substituted([el][..0], vals, outfile) == [];
  }

  lemma ValueIs(name: string, vals: Values, outfile: string)
    ensures Value(vals, outfile, name)
         == if name == "outfile" then outfile else if name in vals then vals[name] else ""
    ensures Get(vals, name) == if name in vals then vals[name] else ""
  {}

  /** An element that is one token is the value, or the output path. */
  lemma OneToken(name: string, vals: Values, outfile: string)
    requires ValidName(name)
    ensures Substituted(["{{" + name + "}}"], vals, outfile)
         == [if name == "outfile" then outfile else if name in vals then vals[name] else ""]
  {
    assert Token(name) == "{{" + name + "}}";
    hide Scan, SplitName, Token, Value, Get, Substituted;
    TokenIsNoSplit(name);
    OneElement(Token(name), vals, outfile);
    ValueIs(name, vals, outfile);
    var v := Value(vals, outfile, name);
    assert Replaced(Filler(vals, outfile), [Tok(name)]) == v + "" == v;
    assert Arguments(Token(name), vals, outfile) == [Filled(Token(name), vals, outfile)] == [v];
  }

  /** A split element is the words of the value, however they are spaced in it. */
  lemma OneSplit(name: string, vals: Values, outfile: string)
    requires ValidName(name)
    ensures Spaced(if name in vals then vals[name] else "", Substituted(["{{" + name + "...}}"], vals, outfile))
  {
    assert SplitToken(name) == "{{" + name + "...}}";
    hide SplitName, SplitToken, Spaced, Fields, Substituted, Get;
    SplitNameOf(name);
    OneElement(SplitToken(name), vals, outfile);
    ValueIs(name, vals, outfile);
    FieldsSpaced(Get(vals, name));
  }

  /** The characters of names, and the white space that separates words, by number. */
  lemma Characters(c: char)
    ensures var n := c as int;
            && (NameChar(c) <==> 48 <= n <= 57 || 65 <= n <= 90 || 97 <= n <= 122 || n == 95)
            && (IsSpace(c) <==> 9 <= n <= 13 || 0x2000 <= n <= 0x200a
                                || n in {32, 0x85, 0xa0, 0x1680, 0x2028, 0x2029, 0x202f, 0x205f, 0x3000})
  {}
}
