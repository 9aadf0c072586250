/** The compiled matcher (src/lib/url/util.js `templateToRegExp`, `getKwargsFromUrl`).

    The source escapes `?` and `.` in the template, turns each placeholder into the group
    `([a-zA-Z0-9_]+)` and anchors the result at both ends. For a template with no other
    character a `RegExp` treats specially, that pattern is a chain of exact characters and
    greedy name-character groups; `Match` runs it the way a backtracking engine does, and
    `Accepts` says declaratively which URLs it accepts. */
module Matcher {
  import opened Results
  import opened Grammar
  import opened Substitution
  import opened Collections

  /** Templates whose pattern the model covers: the only special characters they may hold
      are `?` and `.`, which the source escapes. */
  predicate RegexSafe(template: string) {
    forall i :: 0 <= i < |template| ==>
      template[i] == '?' || template[i] == '.' || template[i] !in RegexSpecial
  }

  /** The URLs the anchored pattern accepts: the template with each placeholder replaced
      by a non-empty run of name characters. */
  ghost predicate Accepts(ts: seq<Token>, url: string) {
    exists vs :: |vs| == |Names(ts)| && ValidValues(vs) && Fill(ts, vs) == url
  }

  /** Runs the pattern of `ts` against the whole of `url`, returning the captures. A group
      first takes the longest name run and gives characters back one at a time until the
      rest of the pattern matches, as JavaScript's greedy `+` does. */
  function Match(ts: seq<Token>, url: string): (m: Option<seq<string>>)
    ensures m.Some? ==> |m.value| == |Names(ts)| && ValidValues(m.value) && Fill(ts, m.value) == url
    decreases |ts|, 1, 0
  {
    if |ts| == 0 then (if |url| == 0 then Some([]) else None)
    else match ts[0]
      case Lit(c) => if |url| > 0 && url[0] == c then Match(ts[1..], url[1..]) else None
      case Var(_) => TryRun(ts[1..], url, RunLength(url))
  }

  /** The group at the front of `url` tries the lengths `k`, `k - 1`, ..., `1`. */
  function TryRun(rest: seq<Token>, url: string, k: nat): (m: Option<seq<string>>)
    requires k <= RunLength(url)
    ensures m.Some? ==>
              && |m.value| == 1 + |Names(rest)| && ValidValues(m.value)
              && m.value[0] + Fill(rest, m.value[1..]) == url
    ensures m.None? ==> forall j :: 0 < j <= k ==> Match(rest, url[j..]).None?
    decreases |rest| + 1, 0, k
  {
    if k == 0 then None
    else match Match(rest, url[k..])
      case Some(vs) =>
        CaptureFront(url, k, vs);
        Some([url[..k]] + vs)
      case None => TryRun(rest, url, k - 1)
  }

  /** A group that takes the first `k` characters of its name run captures a valid name. */
  lemma CaptureFront(url: string, k: nat, vs: seq<string>)
    requires 0 < k <= RunLength(url) && ValidValues(vs)
    ensures ValidValues([url[..k]] + vs)
    ensures ([url[..k]] + vs)[0] == url[..k] && ([url[..k]] + vs)[1..] == vs
    ensures url[..k] + url[k..] == url
  {
    RunPrefixValid(url, k);
    ValidCons(url[..k], vs);
    TakeDrop(url, k);
  }

  lemma RunPrefixValid(url: string, k: nat)
    requires 0 < k <= RunLength(url)
    ensures ValidName(url[..k])
  {
    assert url[..k] == url[..RunLength(url)][..k];
  }

  lemma ValidCons(v: string, vs: seq<string>)
    requires ValidName(v) && ValidValues(vs)
    ensures ValidValues([v] + vs)
    ensures ([v] + vs)[0] == v && ([v] + vs)[1..] == vs
  {
    assert forall i :: 1 <= i < |[v] + vs| ==> ([v] + vs)[i] == vs[i - 1];
  }

  /** Every URL the declarative reading accepts is matched. */
  lemma {:induction false} MatchComplete(ts: seq<Token>, vs: seq<string>)
    requires |vs| == |Names(ts)| && ValidValues(vs)
    ensures Match(ts, Fill(ts, vs)).Some?
  {
    if |ts| > 0 {
      var url := Fill(ts, vs);
      match ts[0]
      case Lit(c) =>
        MatchComplete(ts[1..], vs);
        assert url[1..] == Fill(ts[1..], vs);
      case Var(_) =>
        var rest := Fill(ts[1..], vs[1..]);
        assert ValidValues(vs[1..]);
        MatchComplete(ts[1..], vs[1..]);
        RunLengthCovers(vs[0], rest);
        assert url == vs[0] + rest;
        assert url[|vs[0]|..] == rest;
        assert Match(ts[1..], url[|vs[0]|..]).Some?;
    }
  }

  /** The matcher and the declarative reading agree on every URL. */
  lemma MatchIffAccepts(ts: seq<Token>, url: string)
    ensures Match(ts, url).Some? <==> Accepts(ts, url)
  {
    if Accepts(ts, url) {
      var vs :| |vs| == |Names(ts)| && ValidValues(vs) && Fill(ts, vs) == url;
      MatchComplete(ts, vs);
    }
  }

  /** Without adjacent placeholders every capture is the maximal name run at its place, so
      the captures are exactly the values the URL was built from. */
  lemma {:induction false} MatchDeterministic(ts: seq<Token>, vs: seq<string>)
    requires WellFormed(ts) && NoAdjacentVars(ts)
    requires |vs| == |Names(ts)| && ValidValues(vs)
    ensures Match(ts, Fill(ts, vs)) == Some(vs)
  {
    if |ts| > 0 {
      var url := Fill(ts, vs);
      match ts[0]
      case Lit(c) =>
        MatchDeterministic(ts[1..], vs);
        assert url[1..] == Fill(ts[1..], vs);
      case Var(_) =>
        var rest := Fill(ts[1..], vs[1..]);
        assert ValidValues(vs[1..]);
        MatchDeterministic(ts[1..], vs[1..]);
        if |ts| > 1 {
          assert ts[1..][0] == ts[1];
          assert rest[0] == ts[1].c;
        }
        RunLengthOfName(vs[0], rest);
        assert url == vs[0] + rest;
        assert url[|vs[0]|..] == rest;
        assert url[..|vs[0]|] == vs[0];
        assert [vs[0]] + vs[1..] == vs;
    }
  }

  /** `templateToRegExp(template).test(url)`. */
  function TemplateTest(template: string, url: string): (ok: bool)
    requires RegexSafe(template)
    ensures ok <==> Accepts(Tokenize(template), url)
  {
    MatchIffAccepts(Tokenize(template), url);
    Match(Tokenize(template), url).Some?
  }

  /** `getKwargsFromUrl`: one capture per placeholder occurrence, in template order; a URL
      the pattern rejects makes the source call `.slice` on `null`, which throws. */
  function KwargsFromUrl(template: string, url: string): (r: Result<seq<string>>)
    requires RegexSafe(template)
    ensures r.Success? <==> Accepts(Tokenize(template), url)
    ensures r.Failure? ==> r.error == NoMatch
    ensures r.Success? ==>
              && |r.value| == |Names(Tokenize(template))| && ValidValues(r.value)
              && Fill(Tokenize(template), r.value) == url
  {
    MatchIffAccepts(Tokenize(template), url);
    match Match(Tokenize(template), url)
    case Some(vs) => Success(vs)
    case None => Failure(NoMatch)
  }

  /** Without adjacent placeholders the captures of a URL built from valid values are those
      values. */
  lemma KwargsFromUrlRecovers(template: string, vs: seq<string>)
    requires RegexSafe(template) && NoAdjacentVars(Tokenize(template))
    requires |vs| == |Names(Tokenize(template))| && ValidValues(vs)
    ensures KwargsFromUrl(template, Fill(Tokenize(template), vs)) == Success(vs)
  {
    MatchDeterministic(Tokenize(template), vs);
  }

  /** The scan of `/blah/:blah`: six literal characters and the placeholder `blah`. */
  lemma ScanBlahTemplate(template: string)
    requires template == "/blah/:blah"
    ensures Tokenize(template) == Lits("/blah/") + [Var("blah")]
  {
    var p := "/blah/";
    var v := [Var("blah")];
    assert ValidName("blah");
    assert WellFormed(v) && Render(v) == ":blah";
    assert Marker !in p;
    WellFormedLiteralPrefix(p, v);
    RenderLiteralPrefix(p, v);
    assert p + ":blah" == template;
    TokenizeRender(Lits(p) + v);
  }

  lemma BlahNames()
    ensures Names(Lits("/blah/") + [Var("blah")]) == ["blah"]
  {
    NamesConcat(Lits("/blah/"), [Var("blah")]);
    NamesOfLits("/blah/");
  }

  lemma BlahFill(vs: seq<string>)
    requires |vs| == 1
    ensures Fill(Lits("/blah/") + [Var("blah")], vs) == "/blah/" + vs[0]
  {
    var p := "/blah/";
    var lits := Lits(p);
    FillConcat(lits, [Var("blah")], vs);
    NamesOfLits(p);
    FillPlainText(lits, vs);
    RenderLiteralPrefix(p, []);
    assert lits + [] == lits;
    assert p + [] == p;
  }

  /** Whatever `/blah/:blah` accepts is `/blah/` followed by a name run. */
  lemma BlahCapture(ts: seq<Token>, url: string)
    requires ts == Lits("/blah/") + [Var("blah")]
    requires Accepts(ts, url)
    ensures |url| >= 6 && ValidName(url[6..])
  {
    BlahNames();
    var vs :| |vs| == |Names(ts)| && ValidValues(vs) && Fill(ts, vs) == url;
    BlahFill(vs);
    assert url[6..] == vs[0];
  }

  /** No URL built from `/blah/:blah` holds a hyphen after `/blah/`. */
  lemma BlahRejectsHyphen(ts: seq<Token>, url: string)
    requires ts == Lits("/blah/") + [Var("blah")]
    requires url == "/blah/blah-blah"
    ensures !Accepts(ts, url)
  {
    assert !ValidName(url[6..]) by {
      assert url[6..][4] == '-';
    }
    if Accepts(ts, url) {
      BlahCapture(ts, url);
    }
  }

  lemma BlahIsPlain(template: string)
    requires template == "/blah/:blah"
    ensures RegexSafe(template)
  {
    forall i | 0 <= i < |template|
      ensures template[i] == '?' || template[i] == '.' || template[i] !in RegexSpecial
    {
      assert template[i] in "/blah:";
    }
  }

  /** A hyphen is not a name character, so `/blah/:blah` does not accept `/blah/blah-blah`. */
  lemma HyphenNeverCaptured(template: string, url: string)
    requires template == "/blah/:blah" && url == "/blah/blah-blah"
    ensures RegexSafe(template)
    ensures !TemplateTest(template, url)
  {
    BlahIsPlain(template);
    ScanBlahTemplate(template);
    BlahRejectsHyphen(Tokenize(template), url);
  }
}
