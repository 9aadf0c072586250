/** The template engine (src/lib/url/index.js): the registry of named templates and the
    three public operations `generateUrl`, `test` and `reverseUrl`.

    The registry is the module-level variable `TEMPLATES`; here it is an explicit value that
    every operation receives, and `ImportTemplates` returns the registry that replaces it. */
module Engine {
  import opened Results
  import opened Collections
  import opened Grammar
  import opened Substitution
  import opened Matcher

  /** Symbolic template name -> template. */
  type Registry = map<string, string>

  /** `TEMPLATES` before any import. */
  const InitialRegistry: Registry := map[]

  /** `TEMPLATES[template] || template`: `generateUrl` uses a registered template only when
      it is a non-empty string. */
  function ResolveForGenerate(reg: Registry, name: string): (template: string)
    ensures name !in reg ==> template == name
    ensures name in reg && reg[name] != "" ==> template == reg[name]
    ensures name in reg && reg[name] == "" ==> template == name
    ensures template == "" ==> name == ""
  {
    if name in reg && reg[name] != "" then reg[name] else name
  }

  /** `template in TEMPLATES ? TEMPLATES[template] : template`: `test` and `reverseUrl` use
      any registered template, even the empty one. */
  function ResolveByKey(reg: Registry, name: string): (template: string)
    ensures name in reg ==> template == reg[name]
    ensures name !in reg ==> template == name
  {
    if name in reg then reg[name] else name
  }

  /** The two resolution rules disagree exactly on a non-empty name registered to `''`. */
  lemma ResolutionDiffers(reg: Registry, name: string)
    ensures ResolveForGenerate(reg, name) != ResolveByKey(reg, name) <==>
              name in reg && reg[name] == "" && name != ""
  {
  }

  /** `importTemplates`: the new mapping replaces the registry wholesale, so resolution
      depends on it alone and a name it lacks resolves to itself. */
  function ImportTemplates(current: Registry, templates: map<string, string>): (r: Registry)
    ensures forall name :: ResolveByKey(r, name) == if name in templates then templates[name] else name
    ensures forall name :: name !in templates ==> ResolveForGenerate(r, name) == name
  {
    templates
  }

  /** A name registered by an earlier import and missing from the latest one no longer
      resolves. */
  lemma ImportForgetsEarlier(current: Registry, first: map<string, string>, second: map<string, string>, name: string)
    requires name in first && name !in second
    ensures ResolveByKey(ImportTemplates(ImportTemplates(current, first), second), name) == name
    ensures ResolveForGenerate(ImportTemplates(ImportTemplates(current, first), second), name) == name
  {
  }

  /** The arguments of `generateUrl`: positional values, or one object of keyword values
      given as its entries in `Object.entries` order. No arguments at all is
      `Positional([])`. */
  datatype Args = Positional(values: seq<string>) | Keyword(entries: seq<(string, string)>)

  /** `generateUrl`: resolves the template, substitutes the arguments, then deletes every
      placeholder that remains. The result never holds placeholder-shaped text, whichever
      arguments were given and whatever the values held. */
  function GenerateUrl(reg: Registry, name: string, args: Args): (url: string)
    requires args.Keyword? ==> KwargsSafe(args.entries)
    ensures NoPlaceholder(url)
    ensures args.Positional? && NoPlaceholder(ResolveForGenerate(reg, name)) ==>
              url == ResolveForGenerate(reg, name)
  {
    var template := ResolveForGenerate(reg, name);
    var filled := match args
      case Positional(vs) => if |vs| > 0 then SubstituteIndexedArgs(template, vs) else template
      case Keyword(kv) => SubstituteKwargs(template, kv);
    StripPlaceholders(filled)
  }

  /** `test`: whether the resolved template's anchored pattern accepts the URL, i.e. whether
      the URL is the template with each placeholder replaced by a non-empty name run. */
  function Test(reg: Registry, name: string, url: string): (ok: bool)
    requires RegexSafe(ResolveByKey(reg, name))
    ensures ok <==> Accepts(Tokenize(ResolveByKey(reg, name)), url)
  {
    TemplateTest(ResolveByKey(reg, name), url)
  }

  /** `reverseUrl`: `{}` when `test` fails; otherwise the de-duplicated placeholder names
      paired with the de-duplicated captures. `test` is handed the already resolved
      template and resolves it through the registry once more. A template without
      placeholders fails, as `getParamsFromTemplate` throws on it. */
  function ReverseUrl(reg: Registry, name: string, url: string): (r: Result<seq<(string, string)>>)
    requires RegexSafe(ResolveByKey(reg, name))
    requires RegexSafe(ResolveByKey(reg, ResolveByKey(reg, name)))
    ensures !Test(reg, ResolveByKey(reg, name), url) ==> r == Success([])
    ensures Test(reg, ResolveByKey(reg, name), url) && NoPlaceholder(ResolveByKey(reg, name)) ==>
              r == Failure(NoPlaceholders)
    ensures r.Success? ==>
              && Distinct(KeysOf(r.value))
              && forall i :: 0 <= i < |r.value| ==> ValidName(r.value[i].0) && ValidName(r.value[i].1)
    ensures r.Success? && |r.value| > 0 ==> Accepts(Tokenize(ResolveByKey(reg, name)), url)
    ensures var template := ResolveByKey(reg, name);
            Test(reg, template, url) && !NoPlaceholder(template) && !Accepts(Tokenize(template), url) ==>
              r == Failure(NoMatch)
    ensures var template := ResolveByKey(reg, name);
            Test(reg, template, url) && !NoPlaceholder(template) && Accepts(Tokenize(template), url) ==>
              var keys := Uniq(Names(Tokenize(template)));
              var values := Uniq(KwargsFromUrl(template, url).value);
              && r.Success?
              && |r.value| == (if |keys| <= |values| then |keys| else |values|)
              && forall i :: 0 <= i < |r.value| ==> r.value[i] == (keys[i], values[i])
  {
    var template := ResolveByKey(reg, name);
    if !Test(reg, template, url) then Success([]) else ReverseMatched(template, url)
  }

  /** The part of `reverseUrl` after `test` has passed: the de-duplicated names of the
      template paired position by position with the de-duplicated captures of the URL. */
  function ReverseMatched(template: string, url: string): (r: Result<seq<(string, string)>>)
    requires RegexSafe(template)
    ensures NoPlaceholder(template) ==> r == Failure(NoPlaceholders)
    ensures !NoPlaceholder(template) && !Accepts(Tokenize(template), url) ==> r == Failure(NoMatch)
    ensures !NoPlaceholder(template) && Accepts(Tokenize(template), url) ==>
              var keys := Uniq(Names(Tokenize(template)));
              var values := Uniq(KwargsFromUrl(template, url).value);
              && r.Success?
              && |r.value| == (if |keys| <= |values| then |keys| else |values|)
              && forall i :: 0 <= i < |r.value| ==> r.value[i] == (keys[i], values[i])
    ensures r.Success? ==>
              && Accepts(Tokenize(template), url)
              && Distinct(KeysOf(r.value))
              && forall i :: 0 <= i < |r.value| ==> ValidName(r.value[i].0) && ValidName(r.value[i].1)
  {
    var names := ParamsFromTemplate(template);
    if names.Failure? then Failure(names.error)
    else
      var values := KwargsFromUrl(template, url);
      if values.Failure? then Failure(values.error)
      else
        ReversePairs(names.value, values.value);
        Success(ZipObject(Uniq(names.value), Uniq(values.value)))
  }

  /** Pairing de-duplicated names with de-duplicated name runs gives distinct keys, and
      every key and value is a name run. */
  lemma ReversePairs(names: seq<string>, values: seq<string>)
    requires ValidValues(names) && ValidValues(values)
    ensures var z := ZipObject(Uniq(names), Uniq(values));
            && Distinct(KeysOf(z))
            && forall i :: 0 <= i < |z| ==> ValidName(z[i].0) && ValidName(z[i].1)
  {
    ZipUniqPairs(names, values);
    var z := ZipObject(Uniq(names), Uniq(values));
    forall i | 0 <= i < |z| ensures ValidName(z[i].0) && ValidName(z[i].1) {
      assert z[i].0 in names && z[i].1 in values;
    }
  }

  // ---------------------------------------------------------------------------
  // Round trips

  /** Positional generation of a template whose own scan has no literal marker before a
      placeholder: the URL is the template filled with the first values. */
  lemma GeneratePositionalFills(reg: Registry, name: string, vs: seq<string>)
    requires NoMarkerBeforeVar(Tokenize(ResolveForGenerate(reg, name)))
    requires |vs| >= |Names(Tokenize(ResolveForGenerate(reg, name)))|
    requires ValidValues(vs[..|Names(Tokenize(ResolveForGenerate(reg, name)))|])
    ensures GenerateUrl(reg, name, Positional(vs)) ==
              Fill(Tokenize(ResolveForGenerate(reg, name)), vs[..|Names(Tokenize(ResolveForGenerate(reg, name)))|])
  {
    var template := ResolveForGenerate(reg, name);
    var ts := Tokenize(template);
    var n := |Names(ts)|;
    var used := vs[..n];
    assert AllNameValues(used) by {
      forall i | 0 <= i < |used| ensures AllNameChars(used[i]) {
        assert ValidName(used[i]);
      }
    }
    FillNoPlaceholder(ts, used);
    if |vs| > 0 {
      calc {
        GenerateUrl(reg, name, Positional(vs));
        StripPlaceholders(SubstituteIndexedArgs(template, vs));
        { IndexedArgsFill(template, vs); }
        StripPlaceholders(Fill(ts, vs));
        { TakeDrop(vs, n); FillIgnoresExtra(ts, used, vs[n..]); }
        StripPlaceholders(Fill(ts, used));
        Fill(ts, used);
      }
    } else {
      assert used == vs;
      FillPlainText(ts, vs);
      calc {
        GenerateUrl(reg, name, Positional(vs));
        StripPlaceholders(template);
        { NoPlaceholderIffNoVar(template); }
        template;
        Fill(ts, used);
      }
    }
  }

  /** A URL generated from enough positional non-empty name values passes `test`, given a
      name both resolution rules agree on and no literal marker before a placeholder. */
  lemma TestAcceptsGenerated(reg: Registry, name: string, vs: seq<string>)
    requires name !in reg || reg[name] != ""
    requires RegexSafe(ResolveByKey(reg, name))
    requires NoMarkerBeforeVar(Tokenize(ResolveByKey(reg, name)))
    requires |vs| >= |Names(Tokenize(ResolveByKey(reg, name)))|
    requires ValidValues(vs[..|Names(Tokenize(ResolveByKey(reg, name)))|])
    ensures Test(reg, name, GenerateUrl(reg, name, Positional(vs)))
  {
    var ts := Tokenize(ResolveByKey(reg, name));
    GeneratePositionalFills(reg, name, vs);
    MatchComplete(ts, vs[..|Names(ts)|]);
    MatchIffAccepts(ts, GenerateUrl(reg, name, Positional(vs)));
  }

  /** Distinct placeholder names in a template that is not registered, with no adjacent
      placeholders and no literal marker before one. */
  predicate Reversible(reg: Registry, template: string) {
    && template !in reg
    && RegexSafe(template)
    && NoAdjacentVars(Tokenize(template)) && NoMarkerBeforeVar(Tokenize(template))
    && |Names(Tokenize(template))| > 0
    && Distinct(Names(Tokenize(template)))
  }

  /** Reversing the fill of a reversible template with distinct values yields each name
      paired with its value. */
  lemma ReverseOfFill(reg: Registry, template: string, vs: seq<string>)
    requires Reversible(reg, template)
    requires |vs| == |Names(Tokenize(template))| && ValidValues(vs) && Distinct(vs)
    ensures ReverseUrl(reg, template, Fill(Tokenize(template), vs)) ==
              Success(ZipObject(Names(Tokenize(template)), vs))
  {
    var ts := Tokenize(template);
    var url := Fill(ts, vs);
    MatchComplete(ts, vs);
    MatchIffAccepts(ts, url);
    NoPlaceholderIffNoVar(template);
    KwargsFromUrlRecovers(template, vs);
  }

  /** `reverseUrl(T, generateUrl(T, v1, ..., vn))` maps the i-th name to `vi`. */
  lemma ReverseOfGeneratePositional(reg: Registry, template: string, vs: seq<string>)
    requires Reversible(reg, template)
    requires |vs| == |Names(Tokenize(template))| && ValidValues(vs) && Distinct(vs)
    ensures ReverseUrl(reg, template, GenerateUrl(reg, template, Positional(vs))) ==
              Success(ZipObject(Names(Tokenize(template)), vs))
  {
    assert vs[..|vs|] == vs;
    GeneratePositionalFills(reg, template, vs);
    ReverseOfFill(reg, template, vs);
  }

  /** No placeholder name is a strict prefix of another. */
  predicate PrefixFree(names: seq<string>) {
    forall i, j :: 0 <= i < |names| && 0 <= j < |names| ==> !ProperPrefix(names[i], names[j])
  }

  /** Keyword entries listed in template order, with non-empty name values, fit the
      template: their keys are its names, so none is a strict prefix of another. */
  lemma EntriesFit(ts: seq<Token>, kv: seq<(string, string)>)
    requires WellFormed(ts)
    requires PrefixFree(Names(ts))
    requires KeysOf(kv) == Names(ts)
    requires ValidValues(ValuesOf(kv))
    ensures KeysFit(ts, kv) && KwargsSafe(kv)
  {
    var names := Names(ts);
    var vs := ValuesOf(kv);
    NamesValid(ts);
    forall i | 0 <= i < |kv|
      ensures ValidName(kv[i].0) && AllNameChars(kv[i].1)
      ensures forall n :: n in names ==> !ProperPrefix(kv[i].0, n)
      ensures NoRegexSpecial(kv[i].0) && '$' !in kv[i].1
    {
      assert kv[i].0 == names[i] && kv[i].1 == vs[i];
    }
  }

  /** Keyword generation from entries that fit the template fills it with their values. */
  lemma GenerateKeywordFills(reg: Registry, template: string, kv: seq<(string, string)>)
    requires Reversible(reg, template)
    requires PrefixFree(Names(Tokenize(template)))
    requires KeysOf(kv) == Names(Tokenize(template))
    requires ValidValues(ValuesOf(kv)) && Distinct(KeysOf(kv))
    ensures KwargsSafe(kv)
    ensures GenerateUrl(reg, template, Keyword(kv)) == Fill(Tokenize(template), ValuesOf(kv))
  {
    var ts := Tokenize(template);
    var names := Names(ts);
    var vs := ValuesOf(kv);
    EntriesFit(ts, kv);
    forall i | 0 <= i < |vs| ensures Lookup(kv, names[i]) == Some(vs[i]) {
      LookupDistinct(kv, i);
    }
    SubstituteKwargsFills(template, kv, vs);
    FillNoPlaceholder(ts, vs);
  }

  /** Keyword generation with entries that fit the template, some names possibly missing:
      each placeholder receives the value of its name's first entry, and a placeholder
      whose name has no entry is deleted, i.e. receives `''`. */
  lemma GenerateKeywordDefaults(reg: Registry, name: string, kv: seq<(string, string)>)
    requires NoAdjacentVars(Tokenize(ResolveForGenerate(reg, name)))
    requires NoMarkerBeforeVar(Tokenize(ResolveForGenerate(reg, name)))
    requires KeysFit(Tokenize(ResolveForGenerate(reg, name)), kv) && KwargsSafe(kv)
    ensures var ts := Tokenize(ResolveForGenerate(reg, name));
            GenerateUrl(reg, name, Keyword(kv)) == Fill(ts, EntryValues(Names(ts), kv))
  {
    var template := ResolveForGenerate(reg, name);
    var ts := Tokenize(template);
    var replaced := Substituted(ts, kv);
    assert NameValues(kv);
    SubstitutedWellFormed(ts, kv);
    TokenizeRender(replaced);
    RenderWithNothing(ts);
    assert [] + kv == kv;
    calc {
      GenerateUrl(reg, name, Keyword(kv));
      StripPlaceholders(SubstituteKwargs(template, kv));
      { SubstituteKwargsTokens(ts, [], kv); }
      StripPlaceholders(RenderWith(ts, kv));
      { RenderSubstituted(ts, kv); }
      StripPlaceholders(Render(replaced));
      Literals(replaced);
      { LiteralsSubstituted(ts, kv); }
      Fill(ts, EntryValues(Names(ts), kv));
    }
  }

  /** `reverseUrl(T, generateUrl(T, kwargs))` gives back the keyword entries, when they are
      listed in template order with distinct non-empty name values and no placeholder name
      is a strict prefix of another (replacement has no name boundary). */
  lemma ReverseOfGenerateKeyword(reg: Registry, template: string, kv: seq<(string, string)>)
    requires Reversible(reg, template)
    requires PrefixFree(Names(Tokenize(template)))
    requires KeysOf(kv) == Names(Tokenize(template))
    requires ValidValues(ValuesOf(kv)) && Distinct(ValuesOf(kv))
    ensures KwargsSafe(kv)
    ensures ReverseUrl(reg, template, GenerateUrl(reg, template, Keyword(kv))) == Success(kv)
  {
    var ts := Tokenize(template);
    var vs := ValuesOf(kv);
    GenerateKeywordFills(reg, template, kv);
    ReverseOfFill(reg, template, vs);
    ZipKeysValues(kv);
  }

  // ---------------------------------------------------------------------------
  // Examples

  lemma ScanSlash(template: string)
    requires template == "/"
    ensures Tokenize(template) == [Lit('/')]
    ensures RegexSafe(template) && NoPlaceholder(template)
  {
    var ts := [Lit('/')];
    WellFormedCons(Lit('/'), []);
    RenderCons(Lit('/'), []);
    assert ts == [Lit('/')] + [];
    TokenizeRender(ts);
    assert template[0] !in RegexSpecial;
  }

  /** The template `/` accepts the URL `/`. */
  lemma SlashAcceptsSlash(ts: seq<Token>, url: string)
    requires ts == [Lit('/')] && url == "/"
    ensures Accepts(ts, url)
  {
    var vs: seq<string> := [];
    assert Names(ts) == [];
    FillPlainText(ts, vs);
    assert Render(ts) == url;
  }

  /** `reverseUrl('/', '/')` passes `test` and then fails because `/` has no placeholder;
      it does not give `{}`. */
  lemma ReverseSlashFails(template: string, url: string)
    requires template == "/" && url == "/"
    ensures RegexSafe(template)
    ensures ReverseUrl(InitialRegistry, template, url) == Failure(NoPlaceholders)
  {
    ScanSlash(template);
    SlashAcceptsSlash(Tokenize(template), url);
  }

  /** The tokens of `/:id/:name`, built from the back so that each suffix is at hand. */
  lemma UserTokens() returns (t0: seq<Token>, t1: seq<Token>, t2: seq<Token>, t3: seq<Token>)
    ensures t3 == [Var("name")] && t2 == [Lit('/')] + t3 && t1 == [Var("id")] + t2 && t0 == [Lit('/')] + t1
    ensures t0[1..] == t1 && t1[1..] == t2 && t2[1..] == t3 && t3[1..] == []
    ensures t0 == [Lit('/'), Var("id"), Lit('/'), Var("name")]
  {
    t3 := [Var("name")];
    t2 := [Lit('/')] + t3;
    t1 := [Var("id")] + t2;
    t0 := [Lit('/')] + t1;
  }

  lemma UserWellFormed()
    ensures WellFormed([Lit('/'), Var("id"), Lit('/'), Var("name")])
  {
    var t0, t1, t2, t3 := UserTokens();
    assert ValidName("id") && ValidName("name");
    assert WellFormed(t3);
    WellFormedCons(Lit('/'), t3);
    WellFormedCons(Var("id"), t2);
    WellFormedCons(Lit('/'), t1);
  }

  lemma UserRender(template: string)
    requires template == "/:id/:name"
    ensures Render([Lit('/'), Var("id"), Lit('/'), Var("name")]) == template
  {
    var t0, t1, t2, t3 := UserTokens();
    calc {
      Render(t0);
      { RenderCons(Lit('/'), t1); }
      "/" + Render(t1);
      { RenderCons(Var("id"), t2); }
      "/" + (":id" + Render(t2));
      { RenderCons(Lit('/'), t3); }
      "/" + (":id" + ("/" + Render(t3)));
      { RenderCons(Var("name"), []); assert [Var("name")] + [] == t3; }
      "/" + (":id" + ("/" + ":name"));
      { UserText(template); }
      template;
    }
  }

  lemma UserText(template: string)
    requires template == "/:id/:name"
    ensures "/" + (":id" + ("/" + ":name")) == template
  {
  }

  lemma ScanUserTemplate(template: string)
    requires template == "/:id/:name"
    ensures Tokenize(template) == [Lit('/'), Var("id"), Lit('/'), Var("name")]
  {
    UserWellFormed();
    UserRender(template);
    TokenizeRender([Lit('/'), Var("id"), Lit('/'), Var("name")]);
  }

  lemma UserTemplatePlain(template: string)
    requires template == "/:id/:name"
    ensures RegexSafe(template)
  {
    forall i | 0 <= i < |template|
      ensures template[i] == '?' || template[i] == '.' || template[i] !in RegexSpecial
    {
      assert template[i] in "/:idname";
    }
  }

  /** The scan of `/:id/:name` has two distinct names, neither adjacent to the other nor
      after a literal marker. */
  lemma UserTokensShape()
    ensures var ts := [Lit('/'), Var("id"), Lit('/'), Var("name")];
            NoAdjacentVars(ts) && NoMarkerBeforeVar(ts) && Names(ts) == ["id", "name"]
  {
    var t0, t1, t2, t3 := UserTokens();
    assert NoAdjacentVars(t3) && NoMarkerBeforeVar(t3) && Names(t3) == ["name"];
    assert NoAdjacentVars(t2) && NoMarkerBeforeVar(t2) && Names(t2) == ["name"];
    assert NoAdjacentVars(t1) && NoMarkerBeforeVar(t1) && Names(t1) == ["id", "name"];
    assert NoAdjacentVars(t0) && NoMarkerBeforeVar(t0) && Names(t0) == ["id", "name"];
  }

  lemma UserTemplateReversible(template: string)
    requires template == "/:id/:name"
    ensures Reversible(InitialRegistry, template)
    ensures Names(Tokenize(template)) == ["id", "name"]
  {
    ScanUserTemplate(template);
    UserTemplatePlain(template);
    UserTokensShape();
    UserNamesDistinct(["id", "name"]);
  }

  lemma UserNamesDistinct(names: seq<string>)
    requires names == ["id", "name"]
    ensures Distinct(names)
  {
    assert names[0] != names[1];
  }

  lemma UserFill(vs: seq<string>)
    requires vs == ["7", "ann"]
    ensures Fill([Lit('/'), Var("id"), Lit('/'), Var("name")], vs) == "/7/ann"
  {
    var t0, t1, t2, t3 := UserTokens();
    assert vs[1..] == ["ann"] && vs[1..][1..] == [];
    assert Fill(t3, vs[1..]) == "ann";
    assert Fill(t2, vs[1..]) == "/ann";
    assert Fill(t1, vs) == "7/ann";
  }

  /** `generateUrl('/:id/:name', '7', 'ann')` is `/7/ann`. */
  lemma UserGenerate(template: string, vs: seq<string>)
    requires template == "/:id/:name" && vs == ["7", "ann"]
    ensures GenerateUrl(InitialRegistry, template, Positional(vs)) == "/7/ann"
  {
    UserTemplateReversible(template);
    ScanUserTemplate(template);
    UserValues(vs);
    assert vs[..2] == vs;
    GeneratePositionalFills(InitialRegistry, template, vs);
    UserFill(vs);
  }

  /** `reverseUrl('/:id/:name', '/7/ann')` maps `id` to `7` and `name` to `ann`. */
  lemma UserZip(vs: seq<string>)
    requires vs == ["7", "ann"]
    ensures ZipObject(["id", "name"], vs) == [("id", "7"), ("name", "ann")]
  {
    var z := ZipObject(["id", "name"], vs);
    assert z == [z[0], z[1]];
  }

  lemma UserValues(vs: seq<string>)
    requires vs == ["7", "ann"]
    ensures ValidValues(vs) && Distinct(vs)
  {
    assert ValidName(vs[0]) && ValidName(vs[1]);
    assert vs[0] != vs[1];
  }

  lemma UserReverse(template: string, url: string)
    requires template == "/:id/:name" && url == "/7/ann"
    ensures ReverseUrl(InitialRegistry, template, url) == Success([("id", "7"), ("name", "ann")])
  {
    var vs := ["7", "ann"];
    UserTemplateReversible(template);
    ScanUserTemplate(template);
    UserValues(vs);
    UserFill(vs);
    ReverseOfFill(InitialRegistry, template, vs);
    UserZip(vs);
  }

  /** A template `p:a/:b`: marker-free literal text, then the placeholders `a` and `b`
      separated by a slash. */
  lemma ScanTwoPlaceholders(template: string, p: string, a: string, b: string)
    requires template == p + ":" + a + "/:" + b
    requires Marker !in p && ValidName(a) && ValidName(b)
    ensures Tokenize(template) == Lits(p) + [Var(a), Lit('/'), Var(b)]
    ensures Names(Tokenize(template)) == [a, b]
    ensures NoAdjacentVars(Tokenize(template)) && NoMarkerBeforeVar(Tokenize(template))
  {
    var t3 := [Var(b)];
    var t2 := [Lit('/')] + t3;
    var t1 := [Var(a)] + t2;
    assert t1 == [Var(a), Lit('/'), Var(b)];
    ConsParts(Var(a), t2);
    ConsParts(Lit('/'), t3);
    NameAlphabet();
    assert WellFormed(t3) && Render(t3) == ":" + b;
    WellFormedCons(Lit('/'), t3);
    WellFormedCons(Var(a), t2);
    WellFormedLiteralPrefix(p, t1);
    RenderCons(Lit('/'), t3);
    RenderCons(Var(a), t2);
    RenderLiteralPrefix(p, t1);
    calc {
      Render(Lits(p) + t1);
      p + (":" + a + ("/" + (":" + b)));
      { TwoPlaceholderText(template, p, a, b); }
      template;
    }
    TokenizeRender(Lits(p) + t1);
    assert NoAdjacentVars(t3) && NoMarkerBeforeVar(t3) && Names(t3) == [b];
    assert NoAdjacentVars(t2) && NoMarkerBeforeVar(t2) && Names(t2) == [b];
    assert NoAdjacentVars(t1) && NoMarkerBeforeVar(t1) && Names(t1) == [a, b];
    LiteralPrefixShape(p, t1);
  }

  lemma TwoPlaceholderText(template: string, p: string, a: string, b: string)
    requires template == p + ":" + a + "/:" + b
    ensures p + (":" + a + ("/" + (":" + b))) == template
  {
  }

  /** Filling `p:a/:b` with two values. */
  lemma FillTwoPlaceholders(p: string, a: string, b: string, x: string, y: string)
    ensures Fill(Lits(p) + [Var(a), Lit('/'), Var(b)], [x, y]) == p + x + "/" + y
  {
    var t3 := [Var(b)];
    var t2 := [Lit('/')] + t3;
    var t1 := [Var(a)] + t2;
    assert t1 == [Var(a), Lit('/'), Var(b)];
    FillLiteralPrefix(p, t1, [x, y]);
    FillConsVar(a, t2, [x, y]);
    FillConsLit('/', t3, [y]);
    FillConsVar(b, [], [y]);
    assert [Var(b)] + [] == t3;
    assert Tail([x, y]) == [y] && Tail([y]) == [];
    calc {
      Fill(Lits(p) + t1, [x, y]);
      p + (x + ("/" + (y + "")));
      { assert y + "" == y; }
      p + x + "/" + y;
    }
  }

  /** A template made of slashes, markers and name characters gives the pattern no
      special character. */
  lemma PlainTemplate(template: string)
    requires forall i :: 0 <= i < |template| ==> template[i] in "/:" || IsNameChar(template[i])
    ensures RegexSafe(template)
  {
  }

  /** A template `p:a/:b` whose literal text is slashes and name characters gives the
      pattern no special character. */
  lemma TwoPlaceholdersSafe(template: string, p: string, a: string, b: string)
    requires template == p + ":" + a + "/:" + b
    requires forall i :: 0 <= i < |p| ==> p[i] == '/' || IsNameChar(p[i])
    requires ValidName(a) && ValidName(b)
    ensures RegexSafe(template)
  {
    var k := |p| + 1 + |a|;
    forall i | 0 <= i < |template| ensures template[i] in "/:" || IsNameChar(template[i]) {
      if i < |p| {
        assert template[i] == p[i];
      } else if |p| < i < k {
        assert template[i] == a[i - |p| - 1];
      } else if k + 1 < i {
        assert template[i] == b[i - k - 2];
      }
    }
    PlainTemplate(template);
  }

  /** `reverseUrl` on a URL built from a template `p:a/:b` that is not registered, where
      `p` is made of `/` and name characters: the distinct names paired with the distinct
      captures. */
  lemma ReverseTwoPlaceholders(template: string, url: string, p: string, a: string, b: string, x: string, y: string)
    requires template == p + ":" + a + "/:" + b && url == p + x + "/" + y
    requires forall i :: 0 <= i < |p| ==> p[i] == '/' || IsNameChar(p[i])
    requires ValidName(a) && ValidName(b) && ValidName(x) && ValidName(y)
    ensures RegexSafe(template)
    ensures ReverseUrl(InitialRegistry, template, url) == Success(ZipObject(Uniq([a, b]), Uniq([x, y])))
  {
    var vs := [x, y];
    TwoPlaceholdersSafe(template, p, a, b);
    NameAlphabet();
    ScanTwoPlaceholders(template, p, a, b);
    NoPlaceholderIffNoVar(template);
    FillTwoPlaceholders(p, a, b, x, y);
    assert ValidValues(vs);
    KwargsFromUrlRecovers(template, vs);
    assert ResolveByKey(InitialRegistry, template) == template;
    assert Test(InitialRegistry, template, url);
    assert ParamsFromTemplate(template) == Success([a, b]);
    assert ReverseUrl(InitialRegistry, template, url) == ReverseMatched(template, url);
  }

  /** `reverseUrl('/:a/:a', '/x/y')` is `{a: 'x'}`, for any names and distinct captures:
      the repeated name is kept once and paired with the first capture, and the second
      capture is dropped. */
  lemma ReverseRepeatedName(a: string, x: string, y: string)
    requires ValidName(a) && ValidName(x) && ValidName(y) && x != y
    ensures RegexSafe("/:" + a + "/:" + a)
    ensures ReverseUrl(InitialRegistry, "/:" + a + "/:" + a, "/" + x + "/" + y) == Success([(a, x)])
  {
    var template, url := "/:" + a + "/:" + a, "/" + x + "/" + y;
    SlashTemplateText(a, a);
    ReverseTwoPlaceholders(template, url, "/", a, a, x, y);
    UniqRepeat(a);
    UniqPair(x, y);
    ZipOne([a], [x, y]);
  }

  lemma SlashTemplateText(a: string, b: string)
    ensures "/:" + a + "/:" + b == "/" + ":" + a + "/:" + b
  {
  }

  /** `reverseUrl('/:a/:b', '/x/x')` is `{a: 'x'}`, for any distinct names and any capture:
      the repeated capture is kept once, so the second name finds no value. */
  lemma ReverseRepeatedValue(a: string, b: string, x: string)
    requires ValidName(a) && ValidName(b) && ValidName(x) && a != b
    ensures RegexSafe("/:" + a + "/:" + b)
    ensures ReverseUrl(InitialRegistry, "/:" + a + "/:" + b, "/" + x + "/" + x) == Success([(a, x)])
  {
    var template, url := "/:" + a + "/:" + b, "/" + x + "/" + x;
    SlashTemplateText(a, b);
    ReverseTwoPlaceholders(template, url, "/", a, b, x, x);
    UniqRepeat(x);
    UniqPair(a, b);
    ZipOne([a, b], [x]);
  }

  /** The literal instances `reverseUrl('/:a/:a', '/x/y')` and `reverseUrl('/:a/:b', '/x/x')`,
      both `{a: 'x'}`. */
  lemma ReverseLetterExamples(t1: string, u1: string, t2: string, u2: string)
    requires t1 == "/:a/:a" && u1 == "/x/y" && t2 == "/:a/:b" && u2 == "/x/x"
    ensures RegexSafe(t1) && ReverseUrl(InitialRegistry, t1, u1) == Success([("a", "x")])
    ensures RegexSafe(t2) && ReverseUrl(InitialRegistry, t2, u2) == Success([("a", "x")])
  {
    LetterTexts(t1, u1, t2, u2);
    ReverseRepeatedName("a", "x", "y");
    ReverseRepeatedValue("a", "b", "x");
  }

  lemma LetterTexts(t1: string, u1: string, t2: string, u2: string)
    requires t1 == "/:a/:a" && u1 == "/x/y" && t2 == "/:a/:b" && u2 == "/x/x"
    ensures t1 == "/:" + "a" + "/:" + "a" && u1 == "/" + "x" + "/" + "y"
    ensures t2 == "/:" + "a" + "/:" + "b" && u2 == "/" + "x" + "/" + "x"
    ensures ValidName("a") && ValidName("b") && ValidName("x") && ValidName("y")
    ensures "a" != "b" && "x" != "y"
  {
  }

  /** `generateUrl` with keyword entries on a template `p:a/:b` that is not registered: each
      placeholder shows its entry's value, or nothing. */
  lemma GenerateTwoPlaceholdersKeyword(template: string, p: string, a: string, b: string, kv: seq<(string, string)>)
    requires template == p + ":" + a + "/:" + b
    requires Marker !in p && ValidName(a) && ValidName(b)
    requires KwargsSafe(kv)
    requires forall i :: 0 <= i < |kv| ==>
               && ValidName(kv[i].0) && AllNameChars(kv[i].1)
               && !ProperPrefix(kv[i].0, a) && !ProperPrefix(kv[i].0, b)
    ensures GenerateUrl(InitialRegistry, template, Keyword(kv)) == p + EntryValue(kv, a) + "/" + EntryValue(kv, b)
  {
    ScanTwoPlaceholders(template, p, a, b);
    var ts := Tokenize(template);
    assert ResolveForGenerate(InitialRegistry, template) == template;
    assert KeysFit(ts, kv);
    GenerateKeywordDefaults(InitialRegistry, template, kv);
    var vs := EntryValues(Names(ts), kv);
    assert vs == [EntryValue(kv, a), EntryValue(kv, b)];
    FillTwoPlaceholders(p, a, b, vs[0], vs[1]);
  }

  /** `generateUrl('/u/:id/:name', {id: v})` is `/u/v/`: the placeholder without an entry
      is deleted. The names differ, `id` is not a strict prefix of `name` and has no regex
      metacharacters, and `v` is made of name characters without `$`. */
  lemma GenerateMissingKeyword(id: string, name: string, v: string)
    requires ValidName(id) && ValidName(name) && id != name && !ProperPrefix(id, name)
    requires NoRegexSpecial(id) && AllNameChars(v) && '$' !in v
    ensures KwargsSafe([(id, v)])
    ensures GenerateUrl(InitialRegistry, "/u/:" + id + "/:" + name, Keyword([(id, v)])) == "/u/" + v + "/"
  {
    var template, kv := "/u/:" + id + "/:" + name, [(id, v)];
    OneEntry(id, name, v, kv);
    UserPrefixText(id, name, v);
    GenerateTwoPlaceholdersKeyword(template, "/u/", id, name, kv);
  }

  /** The literal instance: `generateUrl('/u/:id/:name', {id: '7'})` is `/u/7/`. */
  lemma GenerateUserWithoutName(template: string, kv: seq<(string, string)>)
    requires template == "/u/:id/:name" && kv == [("id", "7")]
    ensures KwargsSafe(kv)
    ensures GenerateUrl(InitialRegistry, template, Keyword(kv)) == "/u/7/"
  {
    UserWithoutNameFacts(template);
    IdPlain();
    GenerateMissingKeyword("id", "name", "7");
  }

  lemma UserWithoutNameFacts(template: string)
    requires template == "/u/:id/:name"
    ensures template == "/u/:" + "id" + "/:" + "name" && "/u/7/" == "/u/" + "7" + "/"
    ensures ValidName("id") && ValidName("name") && "id" != "name" && !ProperPrefix("id", "name")
    ensures AllNameChars("7") && '$' !in "7"
  {
    assert "name"[..2] == "na";
  }

  lemma IdPlain()
    ensures NoRegexSpecial("id")
  {
    forall i | 0 <= i < 2 ensures "id"[i] !in RegexSpecial {
      assert "id"[i] in "id";
    }
  }

  /** A single entry keyed by the first of two different names. */
  lemma OneEntry(id: string, name: string, v: string, kv: seq<(string, string)>)
    requires kv == [(id, v)] && id != name
    requires ValidName(id) && NoRegexSpecial(id) && AllNameChars(v) && '$' !in v
    ensures KwargsSafe(kv)
    ensures EntryValue(kv, id) == v && EntryValue(kv, name) == ""
  {
    assert kv[0] == (id, v) && kv[1..] == [];
  }

  lemma UserPrefixText(id: string, name: string, v: string)
    ensures "/u/:" + id + "/:" + name == "/u/" + ":" + id + "/:" + name
    ensures "/u/" + v + "/" + "" == "/u/" + v + "/"
    ensures Marker !in "/u/"
  {
  }

  lemma ScanPlaceholderX(template: string)
    requires template == "/:x"
    ensures Tokenize(template) == [Lit('/'), Var("x")]
  {
    var tail := [Var("x")];
    var ts := [Lit('/')] + tail;
    assert ValidName("x");
    assert WellFormed(tail);
    WellFormedCons(Lit('/'), tail);
    RenderCons(Lit('/'), tail);
    assert Render(tail) == ":x";
    TokenizeRender(ts);
  }

  lemma PlaceholderXPlain(template: string)
    requires template == "/:x"
    ensures RegexSafe(template) && !NoPlaceholder(template)
  {
    forall i | 0 <= i < |template|
      ensures template[i] == '?' || template[i] == '.' || template[i] !in RegexSpecial
    {
      assert template[i] in "/:x";
    }
    assert template[1] == Marker && IsNameChar(template[2]);
  }

  /** `/:x` does not accept `/`: a placeholder takes at least one character. */
  lemma PlaceholderXRejectsSlash(ts: seq<Token>, url: string)
    requires ts == [Lit('/'), Var("x")] && url == "/"
    ensures !Accepts(ts, url)
  {
    var tail := [Var("x")];
    assert ts[1..] == tail && tail[1..] == [];
    assert Names(tail) == ["x"];
    assert Names(ts) == ["x"];
    forall vs | |vs| == |Names(ts)| && ValidValues(vs) ensures Fill(ts, vs) != url {
      assert Fill(tail, vs) == vs[0] + Fill([], Tail(vs));
      assert Fill(ts, vs) == "/" + vs[0];
    }
  }

  /** `test` resolves the template `reverseUrl` already resolved: with `a` registered to
      `/:x` and `/:x` registered to `/`, `reverseUrl('a', '/')` passes `test` against `/`
      and then fails to match `/:x`. */
  lemma ReverseResolvesTwice(reg: Registry, url: string)
    requires reg == map["a" := "/:x", "/:x" := "/"] && url == "/"
    ensures RegexSafe(ResolveByKey(reg, "a")) && RegexSafe(ResolveByKey(reg, ResolveByKey(reg, "a")))
    ensures ReverseUrl(reg, "a", url) == Failure(NoMatch)
  {
    var tpl := ResolveByKey(reg, "a");
    assert tpl == "/:x";
    var again := ResolveByKey(reg, tpl);
    assert again == "/";
    ScanSlash(again);
    SlashAcceptsSlash(Tokenize(again), url);
    ScanPlaceholderX(tpl);
    PlaceholderXPlain(tpl);
    PlaceholderXRejectsSlash(Tokenize(tpl), url);
  }
}
