/** The placeholder grammar of url-lib (src/lib/url/constants.js).

    A placeholder is the marker `:` followed by one or more characters of the name alphabet
    `[A-Za-z0-9_]`. The library finds placeholders with a global regular expression, scanning
    left to right and taking the longest name at each match. Here a template is scanned
    once, by the same maximal-munch rule, into a sequence of tokens: a literal character or
    a placeholder with its name. */
module Grammar {
  import opened Results
  import opened Collections

  /** The placeholder marker. */
  const Marker: char := ':'

  /** The placeholder-name alphabet: ASCII letters, digits and underscore. */
  predicate IsNameChar(c: char) {
    ('a' <= c <= 'z') || ('A' <= c <= 'Z') || ('0' <= c <= '9') || c == '_'
  }

  predicate AllNameChars(s: string) {
    forall i :: 0 <= i < |s| ==> IsNameChar(s[i])
  }

  /** A non-empty run of name characters: what a placeholder name is, and what a
      placeholder can capture. */
  predicate ValidName(s: string) {
    |s| > 0 && AllNameChars(s)
  }

  /** The separators of a URL are not name characters: `:`, `-`, `.` and `/` all end a
      placeholder name. */
  lemma NameAlphabet()
    ensures !IsNameChar(':') && !IsNameChar('-') && !IsNameChar('.') && !IsNameChar('/')
  {
  }

  /** `k` is a strict prefix of `n`. */
  predicate ProperPrefix(k: string, n: string) {
    |k| < |n| && n[..|k|] == k
  }

  /** The characters a `RegExp` source gives a meaning of their own. */
  const RegexSpecial: string := "\\^$.|?*+()[]{}"

  datatype Token = Lit(c: char) | Var(name: string)

  /** The text a token stands for. */
  function RenderToken(t: Token): string {
    match t
    case Lit(c) => [c]
    case Var(n) => [Marker] + n
  }

  function Render(ts: seq<Token>): string {
    if |ts| == 0 then "" else RenderToken(ts[0]) + Render(ts[1..])
  }

  /** The first token is a literal name character. */
  predicate StartsWithNameChar(ts: seq<Token>) {
    |ts| > 0 && ts[0].Lit? && IsNameChar(ts[0].c)
  }

  /** The token sequences the scanner can produce: names are valid, and neither a
      placeholder nor a literal marker is directly followed by a literal name character
      (the scanner would have taken it into a name). */
  predicate WellFormed(ts: seq<Token>) {
    |ts| == 0 ||
    (&& (ts[0].Var? ==> ValidName(ts[0].name))
     && (ts[0].Var? || ts[0] == Lit(Marker) ==> !StartsWithNameChar(ts[1..]))
     && WellFormed(ts[1..]))
  }

  /** No placeholder directly follows another, as in `:a:b`. */
  predicate NoAdjacentVars(ts: seq<Token>) {
    |ts| < 2 || (!(ts[0].Var? && ts[1].Var?) && NoAdjacentVars(ts[1..]))
  }

  /** No literal marker directly precedes a placeholder, as in `::a`. */
  predicate NoMarkerBeforeVar(ts: seq<Token>) {
    |ts| < 2 || (!(ts[0] == Lit(Marker) && ts[1].Var?) && NoMarkerBeforeVar(ts[1..]))
  }

  /** The names of all placeholders, left to right, duplicates kept. */
  function Names(ts: seq<Token>): seq<string> {
    if |ts| == 0 then []
    else (if ts[0].Var? then [ts[0].name] else []) + Names(ts[1..])
  }

  lemma NamesCons(t: Token, rest: seq<Token>)
    ensures Names([t] + rest) == (if t.Var? then [t.name] else []) + Names(rest)
  {
    assert ([t] + rest)[1..] == rest;
  }

  lemma {:induction false} NamesConcat(a: seq<Token>, b: seq<Token>)
    ensures Names(a + b) == Names(a) + Names(b)
  {
    if |a| == 0 {
      assert a + b == b;
    } else {
      assert (a + b)[0] == a[0] && (a + b)[1..] == a[1..] + b;
      NamesConcat(a[1..], b);
    }
  }

  /** Length of the longest prefix of `s` made of name characters. */
  function RunLength(s: string): (n: nat)
    ensures n <= |s|
    ensures AllNameChars(s[..n])
    ensures n < |s| ==> !IsNameChar(s[n])
  {
    if |s| == 0 || !IsNameChar(s[0]) then 0 else 1 + RunLength(s[1..])
  }

  /** Rendering distributes over a leading token. */
  lemma RenderCons(t: Token, rest: seq<Token>)
    ensures Render([t] + rest) == RenderToken(t) + Render(rest)
  {
    assert ([t] + rest)[1..] == rest;
  }

  /** Well-formedness of a sequence with a leading token, stated on the parts. */
  lemma WellFormedCons(t: Token, rest: seq<Token>)
    ensures WellFormed([t] + rest) <==>
              && (t.Var? ==> ValidName(t.name))
              && (t.Var? || t == Lit(Marker) ==> !StartsWithNameChar(rest))
              && WellFormed(rest)
  {
    assert ([t] + rest)[1..] == rest;
  }

  /** A text read as literal characters only. */
  function Lits(p: string): (ts: seq<Token>)
    ensures |ts| == |p| && forall i :: 0 <= i < |p| ==> ts[i] == Lit(p[i])
  {
    seq(|p|, i requires 0 <= i < |p| => Lit(p[i]))
  }

  lemma LitsCons(p: string)
    requires |p| > 0
    ensures Lits(p) == [Lit(p[0])] + Lits(p[1..])
  {
    var a, b := Lits(p), [Lit(p[0])] + Lits(p[1..]);
    assert |a| == |b|;
    forall i | 0 <= i < |a| ensures a[i] == b[i] {
      if i > 0 {
        assert b[i] == Lits(p[1..])[i - 1];
      }
    }
  }

  /** Literal text renders as itself in front of any sequence. */
  lemma {:induction false} RenderLiteralPrefix(p: string, ts: seq<Token>)
    ensures Render(Lits(p) + ts) == p + Render(ts)
  {
    if |p| > 0 {
      var tail := p[1..];
      var rest := Lits(tail) + ts;
      var whole := Lits(p) + ts;
      LitsCons(p);
      assert whole == [Lit(p[0])] + rest;
      RenderLiteralPrefix(tail, ts);
      RenderCons(Lit(p[0]), rest);
      calc {
        Render(whole);
        RenderToken(Lit(p[0])) + Render(rest);
        [p[0]] + (tail + Render(ts));
        { assert [p[0]] + tail == p; }
        p + Render(ts);
      }
    } else {
      assert Lits(p) + ts == ts;
    }
  }

  /** Literal text holds no placeholder. */
  lemma {:induction false} NamesOfLits(p: string)
    ensures Names(Lits(p)) == []
  {
    if |p| > 0 {
      LitsCons(p);
      NamesOfLits(p[1..]);
      assert Lits(p)[1..] == Lits(p[1..]);
    }
  }

  /** Marker-free literal text in front of a well-formed sequence keeps it well formed. */
  lemma {:induction false} WellFormedLiteralPrefix(p: string, ts: seq<Token>)
    requires Marker !in p && WellFormed(ts)
    ensures WellFormed(Lits(p) + ts)
  {
    if |p| > 0 {
      var tail := p[1..];
      assert Marker !in tail by {
        assert forall c :: c in tail ==> c in p;
      }
      var rest := Lits(tail) + ts;
      LitsCons(p);
      assert Lits(p) + ts == [Lit(p[0])] + rest;
      WellFormedLiteralPrefix(tail, ts);
      WellFormedCons(Lit(p[0]), rest);
    } else {
      assert Lits(p) + ts == ts;
    }
  }

  /** Marker-free literal text in front of a sequence adds no placeholder, no adjacent
      placeholders and no literal marker before a placeholder. */
  lemma {:induction false} LiteralPrefixShape(p: string, ts: seq<Token>)
    requires Marker !in p
    requires NoAdjacentVars(ts) && NoMarkerBeforeVar(ts)
    ensures NoAdjacentVars(Lits(p) + ts) && NoMarkerBeforeVar(Lits(p) + ts)
    ensures Names(Lits(p) + ts) == Names(ts)
  {
    if |p| > 0 {
      var tail := p[1..];
      assert Marker !in tail by {
        assert forall c :: c in tail ==> c in p;
      }
      var rest := Lits(tail) + ts;
      LitsCons(p);
      assert Lits(p) + ts == [Lit(p[0])] + rest;
      LiteralPrefixShape(tail, ts);
      NamesCons(Lit(p[0]), rest);
      ConsParts(Lit(p[0]), rest);
    } else {
      assert Lits(p) + ts == ts;
    }
  }

  /** The maximal-munch scanner behind `VARIABLE_REGEX`: a marker followed by a name
      character starts a placeholder whose name is the longest run of name characters;
      every other character is literal text. */
  function Tokenize(s: string): (ts: seq<Token>)
    ensures Render(ts) == s
    ensures WellFormed(ts)
    ensures StartsWithNameChar(ts) <==> |s| > 0 && IsNameChar(s[0])
    decreases |s|
  {
    if |s| == 0 then []
    else if s[0] == Marker && |s| > 1 && IsNameChar(s[1]) then
      var n := RunLength(s[1..]);
      var rest := Tokenize(s[1 + n..]);
      ScanPlaceholderStep(s, n, rest);
      [Var(s[1..1 + n])] + rest
    else
      var rest := Tokenize(s[1..]);
      ScanLiteralStep(s, rest);
      [Lit(s[0])] + rest
  }

  /** The placeholder step of the scanner keeps its three promises. */
  lemma ScanPlaceholderStep(s: string, n: nat, rest: seq<Token>)
    requires |s| > 1 && s[0] == Marker && IsNameChar(s[1])
    requires n == RunLength(s[1..])
    requires Render(rest) == s[1 + n..] && WellFormed(rest)
    requires StartsWithNameChar(rest) <==> 1 + n < |s| && IsNameChar(s[1 + n])
    ensures Render([Var(s[1..1 + n])] + rest) == s
    ensures WellFormed([Var(s[1..1 + n])] + rest)
    ensures !StartsWithNameChar([Var(s[1..1 + n])] + rest)
  {
    var name := s[1..1 + n];
    ScanPlaceholderName(s, n);
    RenderCons(Var(name), rest);
    WellFormedCons(Var(name), rest);
  }

  /** The name a placeholder scan takes: a non-empty run that ends the text or stops before
      a non-name character. */
  lemma ScanPlaceholderName(s: string, n: nat)
    requires |s| > 1 && s[0] == Marker && IsNameChar(s[1])
    requires n == RunLength(s[1..])
    ensures 1 <= n && 1 + n <= |s|
    ensures ValidName(s[1..1 + n])
    ensures 1 + n < |s| ==> !IsNameChar(s[1 + n])
    ensures s == [Marker] + s[1..1 + n] + s[1 + n..]
  {
    var t := s[1..];
    assert t[0] == s[1];
    assert s[1..1 + n] == t[..n];
    assert 1 + n < |s| ==> s[1 + n] == t[n];
    assert s == [s[0]] + s[1..1 + n] + s[1 + n..];
  }

  lemma ScanLiteralStep(s: string, rest: seq<Token>)
    requires |s| > 0 && !(s[0] == Marker && |s| > 1 && IsNameChar(s[1]))
    requires Render(rest) == s[1..] && WellFormed(rest)
    requires StartsWithNameChar(rest) <==> |s| > 1 && IsNameChar(s[1])
    ensures Render([Lit(s[0])] + rest) == s
    ensures WellFormed([Lit(s[0])] + rest)
    ensures StartsWithNameChar([Lit(s[0])] + rest) <==> IsNameChar(s[0])
  {
    RenderCons(Lit(s[0]), rest);
    WellFormedCons(Lit(s[0]), rest);
    assert s == [s[0]] + s[1..];
  }

  /** The first character of a rendering is a name character exactly when the first
      token is a literal name character. */
  lemma RenderHead(ts: seq<Token>)
    requires |ts| > 0
    ensures |Render(ts)| > 0
    ensures IsNameChar(Render(ts)[0]) <==> StartsWithNameChar(ts)
  {
    assert Render(ts) == RenderToken(ts[0]) + Render(ts[1..]);
  }

  /** A name followed by a non-name character (or nothing) is scanned in full. */
  lemma {:induction false} RunLengthOfName(n: string, rest: string)
    requires AllNameChars(n)
    requires |rest| == 0 || !IsNameChar(rest[0])
    ensures RunLength(n + rest) == |n|
  {
    if |n| > 0 {
      assert (n + rest)[1..] == n[1..] + rest;
      RunLengthOfName(n[1..], rest);
    } else {
      assert n + rest == rest;
    }
  }

  /** A name run at the front of a string is at most as long as the maximal run there. */
  lemma {:induction false} RunLengthCovers(n: string, rest: string)
    requires AllNameChars(n)
    ensures RunLength(n + rest) >= |n|
  {
    if |n| > 0 {
      assert (n + rest)[1..] == n[1..] + rest;
      RunLengthCovers(n[1..], rest);
    }
  }

  /** Scanning is the inverse of rendering on well-formed token sequences, so a well-formed
      token sequence is the one and only scan of its text. */
  lemma {:induction false} TokenizeRender(ts: seq<Token>)
    requires WellFormed(ts)
    ensures Tokenize(Render(ts)) == ts
  {
    if |ts| > 0 {
      var rest := ts[1..];
      TokenizeRender(rest);
      HeadTail(ts);
      RenderCons(ts[0], rest);
      match ts[0]
      case Lit(c) =>
        ScanLiteralBack(c, Render(rest), rest);
      case Var(n) =>
        ScanPlaceholderBack(n, Render(rest), rest);
    }
  }

  /** A literal in front of text the scanner reads as `rest` is read back as that literal,
      unless it is a marker followed by a name character. */
  lemma ScanLiteralBack(c: char, r: string, rest: seq<Token>)
    requires Tokenize(r) == rest
    requires c == Marker ==> !StartsWithNameChar(rest)
    ensures Tokenize([c] + r) == [Lit(c)] + rest
  {
    var s := [c] + r;
    assert s[1..] == r;
    assert |s| > 1 ==> s[1] == r[0];
  }

  /** A placeholder in front of text the scanner reads as `rest`, which does not start with
      a name character, is read back as that placeholder. */
  lemma ScanPlaceholderBack(n: string, r: string, rest: seq<Token>)
    requires ValidName(n) && Tokenize(r) == rest && !StartsWithNameChar(rest)
    ensures Tokenize([Marker] + n + r) == [Var(n)] + rest
  {
    var t := n + r;
    var s := [Marker] + t;
    AppendAssoc([Marker], n, r);
    ConsParts(Marker, t);
    assert s[1] == n[0] by { assert t[0] == n[0]; }
    RunLengthOfName(n, r);
    var k := |n|;
    SliceOfTail(s, k);
    AppendParts(n, r);
    assert Tokenize(s) == [Var(s[1..1 + k])] + Tokenize(s[1 + k..]);
  }

  /** No placeholder-shaped text: every marker is followed by a non-name character or
      ends the string. */
  predicate NoPlaceholder(s: string) {
    forall i :: 0 <= i < |s| - 1 && s[i] == Marker ==> !IsNameChar(s[i + 1])
  }

  lemma NoPlaceholderCons(c: char, t: string)
    ensures NoPlaceholder([c] + t) <==>
              (c == Marker && |t| > 0 ==> !IsNameChar(t[0])) && NoPlaceholder(t)
  {
    var s := [c] + t;
    assert forall i :: 0 <= i < |t| ==> s[i + 1] == t[i];
    if (c == Marker && |t| > 0 ==> !IsNameChar(t[0])) && NoPlaceholder(t) {
      forall i | 0 <= i < |s| - 1 && s[i] == Marker
        ensures !IsNameChar(s[i + 1])
      {
        if i > 0 {
          assert t[i - 1] == Marker;
        }
      }
    }
    if NoPlaceholder(s) {
      if c == Marker && |t| > 0 {
        assert s[0] == Marker && s[1] == t[0];
      }
      forall i | 0 <= i < |t| - 1 && t[i] == Marker
        ensures !IsNameChar(t[i + 1])
      {
        assert s[i + 1] == Marker;
      }
    }
  }

  /** A string holds placeholder-shaped text exactly when its scan has a placeholder:
      the scanner sees every occurrence. */
  lemma {:induction false} NoPlaceholderIffNoVar(s: string)
    ensures NoPlaceholder(s) <==> |Names(Tokenize(s))| == 0
    decreases |s|
  {
    if |s| > 0 {
      var ts := Tokenize(s);
      if s[0] == Marker && |s| > 1 && IsNameChar(s[1]) {
        assert ts[0].Var?;
        assert Names(ts) == [ts[0].name] + Names(ts[1..]);
      } else {
        assert ts[0] == Lit(s[0]) && ts[1..] == Tokenize(s[1..]);
        NoPlaceholderIffNoVar(s[1..]);
        NoPlaceholderCons(s[0], s[1..]);
        assert [s[0]] + s[1..] == s;
      }
    }
  }

  /** `getParamsFromTemplate`: the names of all placeholders, left to right, duplicates kept,
      marker removed; a template without placeholders makes the source call `.map` on
      `null`, which throws. */
  function ParamsFromTemplate(template: string): (r: Result<seq<string>>)
    ensures r.Failure? <==> NoPlaceholder(template)
    ensures r.Failure? ==> r.error == NoPlaceholders
    ensures r.Success? ==> |r.value| > 0 && forall i :: 0 <= i < |r.value| ==> ValidName(r.value[i])
    ensures r.Success? ==> r.value == Names(Tokenize(template))
  {
    var names := Names(Tokenize(template));
    NoPlaceholderIffNoVar(template);
    NamesValid(Tokenize(template));
    if |names| == 0 then Failure(NoPlaceholders) else Success(names)
  }

  /** Names of a well-formed sequence are valid names. */
  lemma {:induction false} NamesValid(ts: seq<Token>)
    requires WellFormed(ts)
    ensures forall i :: 0 <= i < |Names(ts)| ==> ValidName(Names(ts)[i])
  {
    if |ts| > 0 {
      NamesValid(ts[1..]);
    }
  }
}
