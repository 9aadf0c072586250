/** Forward substitution (src/lib/url/util.js `substituteIndexedArgs`, `substituteKwargs`)
    and the final strip of leftover placeholders in `generateUrl` (src/lib/url/index.js). */
module Substitution {
  import opened Results
  import opened Grammar
  import opened Collections

  /** The value a placeholder receives from a positional list: the first one, or `''`
      once the list has run out. */
  function Head(vs: seq<string>): string {
    if |vs| > 0 then vs[0] else ""
  }

  function Tail(vs: seq<string>): seq<string> {
    if |vs| > 0 then vs[1..] else []
  }

  /** The text of a token sequence with its i-th placeholder replaced by `vs[i]`, or by
      `''` when `vs` has fewer than i + 1 entries. */
  function Fill(ts: seq<Token>, vs: seq<string>): string {
    if |ts| == 0 then ""
    else match ts[0]
      case Lit(c) => [c] + Fill(ts[1..], vs)
      case Var(_) => Head(vs) + Fill(ts[1..], Tail(vs))
  }

  /** The literal text of a token sequence, placeholders dropped. */
  function Literals(ts: seq<Token>): string {
    if |ts| == 0 then ""
    else (if ts[0].Lit? then [ts[0].c] else "") + Literals(ts[1..])
  }

  /** Every value is made of name characters (and may be empty). */
  predicate AllNameValues(vs: seq<string>) {
    forall i :: 0 <= i < |vs| ==> AllNameChars(vs[i])
  }

  /** Every value is a non-empty run of name characters, i.e. something a placeholder
      can capture. */
  predicate ValidValues(vs: seq<string>) {
    forall i :: 0 <= i < |vs| ==> ValidName(vs[i])
  }

  function Blanks(k: nat): (b: seq<string>)
    ensures |b| == k && forall i :: 0 <= i < k ==> b[i] == ""
  {
    seq(k, _ => "")
  }

  // ---------------------------------------------------------------------------
  // The final strip: `url.replace(VARIABLE_REGEX, '')`

  /** Deleting the placeholders of a well-formed sequence leaves no placeholder-shaped
      text, and a sequence that does not start with a literal name character leaves text
      that does not start with one either. */
  lemma {:induction false} LiteralsNoPlaceholder(ts: seq<Token>)
    requires WellFormed(ts)
    ensures NoPlaceholder(Literals(ts))
    ensures !StartsWithNameChar(ts) ==> Literals(ts) == "" || !IsNameChar(Literals(ts)[0])
  {
    if |ts| > 0 {
      LiteralsNoPlaceholder(ts[1..]);
      if ts[0].Lit? {
        NoPlaceholderCons(ts[0].c, Literals(ts[1..]));
      }
    }
  }

  /** Without placeholders, the literal text is the whole rendering. */
  lemma {:induction false} LiteralsOfPlainText(ts: seq<Token>)
    requires |Names(ts)| == 0
    ensures Literals(ts) == Render(ts)
  {
    if |ts| > 0 {
      LiteralsOfPlainText(ts[1..]);
    }
  }

  /** `url.replace(VARIABLE_REGEX, '')`: deletes every placeholder found by the scanner.
      Nothing placeholder-shaped survives, not even text formed by the deletion itself,
      and text without placeholders is returned unchanged. The literal characters are kept
      in order: by `FillNoArgs` the result is the template with every placeholder filled
      by `''`, and `SubstituteIndexedArgsAt` shows a fill keeps the text around each
      placeholder in place. */
  function StripPlaceholders(s: string): (r: string)
    ensures NoPlaceholder(r)
    ensures NoPlaceholder(s) ==> r == s
  {
    var ts := Tokenize(s);
    LiteralsNoPlaceholder(ts);
    NoPlaceholderIffNoVar(s);
    if |Names(ts)| == 0 then LiteralsOfPlainText(ts); Literals(ts) else Literals(ts)
  }

  // ---------------------------------------------------------------------------
  // Positional substitution

  lemma {:induction false} FillNoArgs(ts: seq<Token>)
    ensures Fill(ts, []) == Literals(ts)
  {
    if |ts| > 0 {
      FillNoArgs(ts[1..]);
    }
  }

  lemma {:induction false} FillPlainText(ts: seq<Token>, vs: seq<string>)
    requires |Names(ts)| == 0
    ensures Fill(ts, vs) == Render(ts)
  {
    if |ts| > 0 {
      FillPlainText(ts[1..], vs);
    }
  }

  /** Literal text in front is copied and consumes no value. */
  lemma FillLiteralPrefix(p: string, ts: seq<Token>, vs: seq<string>)
    ensures Fill(Lits(p) + ts, vs) == p + Fill(ts, vs)
  {
    var lits := Lits(p);
    FillConcat(lits, ts, vs);
    NamesOfLits(p);
    FillPlainText(lits, vs);
    RenderLiteralPrefix(p, []);
    assert lits + [] == lits && p + [] == p;
    assert Drop(vs, 0) == vs;
  }

  /** `substituteIndexedArgs`: the i-th placeholder occurrence receives the i-th argument.
      A template without placeholders comes back unchanged, and with no arguments every
      placeholder is removed. */
  function SubstituteIndexedArgs(url: string, args: seq<string>): (r: string)
    ensures NoPlaceholder(url) ==> r == url
    ensures |args| == 0 ==> r == StripPlaceholders(url)
  {
    var ts := Tokenize(url);
    NoPlaceholderIffNoVar(url);
    FillNoArgs(ts);
    if |Names(ts)| == 0 then FillPlainText(ts, args); Fill(ts, args) else Fill(ts, args)
  }

  function Drop(vs: seq<string>, k: nat): seq<string> {
    if k <= |vs| then vs[k..] else []
  }

  /** Filling a concatenation fills the second part with the values the first part left. */
  lemma {:induction false} FillConcat(a: seq<Token>, b: seq<Token>, vs: seq<string>)
    ensures Fill(a + b, vs) == Fill(a, vs) + Fill(b, Drop(vs, |Names(a)|))
  {
    if |a| == 0 {
      assert a + b == b;
    } else {
      var t, tail := a[0], a[1..];
      assert a == [t] + tail;
      match t
      case Var(n) =>
        FillConcat(tail, b, Tail(vs));
        FillConcatVar(n, tail, b, vs);
      case Lit(c) =>
        FillConcat(tail, b, vs);
        FillConcatLit(c, tail, b, vs);
    }
  }

  lemma FillConcatVar(n: string, tail: seq<Token>, b: seq<Token>, vs: seq<string>)
    requires Fill(tail + b, Tail(vs)) == Fill(tail, Tail(vs)) + Fill(b, Drop(Tail(vs), |Names(tail)|))
    ensures Fill([Var(n)] + tail + b, vs) ==
              Fill([Var(n)] + tail, vs) + Fill(b, Drop(vs, |Names([Var(n)] + tail)|))
  {
    var front := [Var(n)] + tail;
    var k := |Names(tail)|;
    calc {
      Fill(front + b, vs);
      { AppendAssoc([Var(n)], tail, b); }
      Fill([Var(n)] + (tail + b), vs);
      { FillConsVar(n, tail + b, vs); }
      Head(vs) + Fill(tail + b, Tail(vs));
      { DropTail(vs, k); }
      Head(vs) + (Fill(tail, Tail(vs)) + Fill(b, Drop(vs, 1 + k)));
      { AppendAssoc(Head(vs), Fill(tail, Tail(vs)), Fill(b, Drop(vs, 1 + k))); }
      (Head(vs) + Fill(tail, Tail(vs))) + Fill(b, Drop(vs, 1 + k));
      { FillConsVar(n, tail, vs); }
      Fill(front, vs) + Fill(b, Drop(vs, 1 + k));
      { NamesCons(Var(n), tail); }
      Fill(front, vs) + Fill(b, Drop(vs, |Names(front)|));
    }
  }

  lemma DropTail(vs: seq<string>, k: nat)
    ensures Drop(Tail(vs), k) == Drop(vs, 1 + k)
  {
  }

  lemma FillConcatLit(c: char, tail: seq<Token>, b: seq<Token>, vs: seq<string>)
    requires Fill(tail + b, vs) == Fill(tail, vs) + Fill(b, Drop(vs, |Names(tail)|))
    ensures Fill([Lit(c)] + tail + b, vs) ==
              Fill([Lit(c)] + tail, vs) + Fill(b, Drop(vs, |Names([Lit(c)] + tail)|))
  {
    var front := [Lit(c)] + tail;
    var k := |Names(tail)|;
    calc {
      Fill(front + b, vs);
      { AppendAssoc([Lit(c)], tail, b); }
      Fill([Lit(c)] + (tail + b), vs);
      { FillConsLit(c, tail + b, vs); }
      [c] + Fill(tail + b, vs);
      [c] + (Fill(tail, vs) + Fill(b, Drop(vs, k)));
      { AppendAssoc([c], Fill(tail, vs), Fill(b, Drop(vs, k))); }
      ([c] + Fill(tail, vs)) + Fill(b, Drop(vs, k));
      { FillConsLit(c, tail, vs); }
      Fill(front, vs) + Fill(b, Drop(vs, k));
      { NamesCons(Lit(c), tail); }
      Fill(front, vs) + Fill(b, Drop(vs, |Names(front)|));
    }
  }

  lemma FillConsVar(name: string, rest: seq<Token>, vs: seq<string>)
    ensures Fill([Var(name)] + rest, vs) == Head(vs) + Fill(rest, Tail(vs))
  {
    assert ([Var(name)] + rest)[1..] == rest;
  }

  lemma FillConsLit(c: char, rest: seq<Token>, vs: seq<string>)
    ensures Fill([Lit(c)] + rest, vs) == [c] + Fill(rest, vs)
  {
    assert ([Lit(c)] + rest)[1..] == rest;
  }

  /** The placeholder preceded by k others receives argument k, and the text before and
      after it is filled in order around it. */
  lemma SubstituteIndexedArgsAt(url: string, args: seq<string>, before: seq<Token>, name: string, after: seq<Token>)
    requires Tokenize(url) == before + [Var(name)] + after
    requires |Names(before)| < |args|
    ensures SubstituteIndexedArgs(url, args) ==
              Fill(before, args) + args[|Names(before)|] + Fill(after, args[|Names(before)| + 1..])
  {
    IndexedArgsFill(url, args);
    FillAt(before, name, after, args);
  }

  lemma IndexedArgsFill(url: string, args: seq<string>)
    ensures SubstituteIndexedArgs(url, args) == Fill(Tokenize(url), args)
  {
  }

  lemma FillAt(before: seq<Token>, name: string, after: seq<Token>, args: seq<string>)
    requires |Names(before)| < |args|
    ensures Fill(before + [Var(name)] + after, args) ==
              Fill(before, args) + args[|Names(before)|] + Fill(after, args[|Names(before)| + 1..])
  {
    var k := |Names(before)|;
    var tail := [Var(name)] + after;
    assert before + [Var(name)] + after == before + tail;
    FillConcat(before, tail, args);
    FillPlaceholderFirst(name, after, args[k..]);
    assert args[k..][1..] == args[k + 1..];
  }

  lemma FillPlaceholderFirst(name: string, after: seq<Token>, vs: seq<string>)
    requires |vs| > 0
    ensures Fill([Var(name)] + after, vs) == vs[0] + Fill(after, vs[1..])
  {
    assert ([Var(name)] + after)[1..] == after;
  }

  /** Arguments beyond the number of placeholders are ignored. */
  lemma {:induction false} FillIgnoresExtra(ts: seq<Token>, vs: seq<string>, extra: seq<string>)
    requires |vs| >= |Names(ts)|
    ensures Fill(ts, vs + extra) == Fill(ts, vs)
  {
    if |ts| > 0 {
      assert Names(ts) == (if ts[0].Var? then [ts[0].name] else []) + Names(ts[1..]);
      if ts[0].Var? {
        assert Head(vs + extra) == Head(vs);
        assert Tail(vs + extra) == Tail(vs) + extra;
        FillIgnoresExtra(ts[1..], Tail(vs), extra);
      } else {
        FillIgnoresExtra(ts[1..], vs, extra);
      }
    }
  }

  /** Running out of arguments is the same as being given empty strings. */
  lemma {:induction false} FillRunsOut(ts: seq<Token>, vs: seq<string>, k: nat)
    ensures Fill(ts, vs + Blanks(k)) == Fill(ts, vs)
  {
    if |ts| > 0 {
      if ts[0].Var? {
        if |vs| > 0 {
          assert Tail(vs + Blanks(k)) == Tail(vs) + Blanks(k);
          FillRunsOut(ts[1..], Tail(vs), k);
        } else if k > 0 {
          assert vs + Blanks(k) == Blanks(k);
          assert Tail(Blanks(k)) == [] + Blanks(k - 1);
          FillRunsOut(ts[1..], [], k - 1);
          FillRunsOut(ts[1..], [], 0);
          assert [] + Blanks(0) == [];
        } else {
          assert vs + Blanks(k) == vs;
        }
      } else {
        FillRunsOut(ts[1..], vs, k);
      }
    }
  }

  lemma NoPlaceholderAfterName(v: string, x: string)
    requires AllNameChars(v) && NoPlaceholder(x)
    ensures NoPlaceholder(v + x)
    decreases |v|
  {
    if |v| > 0 {
      NoPlaceholderAfterName(v[1..], x);
      NoPlaceholderCons(v[0], v[1..] + x);
      assert v + x == [v[0]] + (v[1..] + x);
    }
  }

  /** Filling name-character values into a template with no literal marker before a
      placeholder forms no placeholder-shaped text. */
  lemma {:induction false} FillNoPlaceholder(ts: seq<Token>, vs: seq<string>)
    requires WellFormed(ts) && NoMarkerBeforeVar(ts)
    requires AllNameValues(vs)
    ensures NoPlaceholder(Fill(ts, vs))
  {
    if |ts| > 0 {
      match ts[0]
      case Lit(c) =>
        FillNoPlaceholder(ts[1..], vs);
        NoPlaceholderCons(c, Fill(ts[1..], vs));
      case Var(_) =>
        assert AllNameValues(Tail(vs));
        FillNoPlaceholder(ts[1..], Tail(vs));
        NoPlaceholderAfterName(Head(vs), Fill(ts[1..], Tail(vs)));
    }
  }

  // ---------------------------------------------------------------------------
  // Keyword substitution

  /** A string without characters a `RegExp` source gives meaning to. */
  predicate NoRegexSpecial(s: string) {
    forall i :: 0 <= i < |s| ==> s[i] !in RegexSpecial
  }

  /** The keyword entries the model covers: keys build a pattern of plain characters and
      values carry no `$` replacement patterns. */
  predicate KwargsSafe(entries: seq<(string, string)>) {
    forall i :: 0 <= i < |entries| ==> NoRegexSpecial(entries[i].0) && '$' !in entries[i].1
  }

  /** `s.replace(new RegExp(pat, 'g'), val)` for a pattern of plain characters: occurrences of
      `pat` are replaced left to right without overlapping, and inserted text is not scanned
      again. */
  function ReplaceAll(s: string, pat: string, val: string): (r: string)
    requires |pat| > 0
    ensures NoOccurrence(s, pat) ==> r == s
    ensures OccursAt(s, pat, 0) ==> |val| <= |r| && r[..|val|] == val
    ensures |s| > 0 && !OccursAt(s, pat, 0) ==> |r| > 0 && r[0] == s[0]
    decreases |s|
  {
    if |s| == 0 then ""
    else if |pat| <= |s| && s[..|pat|] == pat then
      assert OccursAt(s, pat, 0);
      AppendParts(val, ReplaceAll(s[|pat|..], pat, val));
      val + ReplaceAll(s[|pat|..], pat, val)
    else
      assert !OccursAt(s, pat, 0);
      OccursShift(s, pat);
      HeadTail(s);
      [s[0]] + ReplaceAll(s[1..], pat, val)
  }

  /** The global rule: when the first occurrence of `pat` starts right after `a`, the text
      up to it is kept, that occurrence becomes `val`, and replacement resumes after it.
      With `NoOccurrence(s, pat) ==> ReplaceAll(s, pat, val) == s` this determines the
      result on every text: leftmost occurrences first, none overlapping, all of them. */
  lemma ReplaceAllAtFirst(a: string, pat: string, b: string, val: string)
    requires |pat| > 0
    requires forall i :: 0 <= i < |a| ==> !OccursAt(a + pat + b, pat, i)
    ensures ReplaceAll(a + pat + b, pat, val) == a + val + ReplaceAll(b, pat, val)
  {
    AppendAssoc(a, pat, b);
    ReplaceSkipsPrefix(a, pat + b, pat, val);
    ReplaceFrontOccurrence(pat, b, val);
    AppendAssoc(a, val, ReplaceAll(b, pat, val));
  }

  /** An occurrence at the front is replaced and the rest is handled after it. */
  lemma ReplaceFrontOccurrence(pat: string, b: string, val: string)
    requires |pat| > 0
    ensures ReplaceAll(pat + b, pat, val) == val + ReplaceAll(b, pat, val)
  {
    var s := pat + b;
    assert s[..|pat|] == pat && s[|pat|..] == b;
  }

  /** Text in which no occurrence starts is kept as it is. */
  lemma {:induction false} ReplaceSkipsPrefix(a: string, rest: string, pat: string, val: string)
    requires |pat| > 0
    requires forall i :: 0 <= i < |a| ==> !OccursAt(a + rest, pat, i)
    ensures ReplaceAll(a + rest, pat, val) == a + ReplaceAll(rest, pat, val)
  {
    if |a| > 0 {
      var s, c, t := a + rest, a[0], a[1..];
      HeadTail(a);
      AppendAssoc([c], t, rest);
      ConsParts(c, t + rest);
      assert !OccursAt(s, pat, 0);
      ReplaceSkipFront(s, pat, val);
      OccursShift(s, pat);
      assert forall i :: 0 <= i < |t| ==> !OccursAt(t + rest, pat, i);
      ReplaceSkipsPrefix(t, rest, pat, val);
      AppendAssoc([c], t, ReplaceAll(rest, pat, val));
    } else {
      assert a + rest == rest;
    }
  }

  /** `pat` occurs nowhere in `s`. */
  predicate NoOccurrence(s: string, pat: string) {
    forall i :: 0 <= i < |s| ==> !OccursAt(s, pat, i)
  }

  /** `pat` occurs in `s` starting at position `i`. */
  predicate OccursAt(s: string, pat: string, i: int) {
    0 <= i && i + |pat| <= |s| && s[i..i + |pat|] == pat
  }

  /** An occurrence in the tail is an occurrence in the whole, one position later. */
  lemma OccursShift(s: string, pat: string)
    requires |s| > 0
    ensures forall i :: 0 <= i < |s| - 1 && OccursAt(s[1..], pat, i) ==> OccursAt(s, pat, i + 1)
  {
    forall i | 0 <= i < |s| - 1 && OccursAt(s[1..], pat, i) ensures OccursAt(s, pat, i + 1) {
      assert s[1..][i..i + |pat|] == s[i + 1..i + 1 + |pat|];
    }
  }

  /** `substituteKwargs`: the entries are applied in order, each one replacing every
      occurrence of `':' + key` by its value, with no check that the name ends there. */
  function SubstituteKwargs(url: string, entries: seq<(string, string)>): (r: string)
    requires KwargsSafe(entries)
    ensures |entries| == 0 ==> r == url
    decreases |entries|
  {
    if |entries| == 0 then url
    else SubstituteKwargs(ReplaceAll(url, [Marker] + entries[0].0, entries[0].1), entries[1..])
  }

  /** Text of name characters is never the start of a marker pattern and passes through. */
  lemma {:induction false} ReplaceSkipsName(a: string, b: string, pat: string, val: string)
    requires |pat| > 0 && pat[0] == Marker
    requires AllNameChars(a)
    ensures ReplaceAll(a + b, pat, val) == a + ReplaceAll(b, pat, val)
  {
    if |a| > 0 {
      var c, t := a[0], a[1..];
      assert a == [c] + t;
      ReplaceSkipsName(t, b, pat, val);
      calc {
        ReplaceAll(a + b, pat, val);
        { AppendAssoc([c], t, b); }
        ReplaceAll([c] + (t + b), pat, val);
        { ReplaceCharFirst(c, t + b, pat, val); }
        [c] + ReplaceAll(t + b, pat, val);
        [c] + (t + ReplaceAll(b, pat, val));
        { AppendAssoc([c], t, ReplaceAll(b, pat, val)); }
        a + ReplaceAll(b, pat, val);
      }
    } else {
      assert a + b == b;
    }
  }

  /** The text of a template after keyword replacement: a placeholder whose name has an
      entry shows that entry's value (the first one), any other placeholder shows itself. */
  function RenderWith(ts: seq<Token>, kv: seq<(string, string)>): string {
    if |ts| == 0 then ""
    else
      var head := match ts[0]
        case Lit(c) => [c]
        case Var(n) => (match Lookup(kv, n) case Some(v) => v case None => [Marker] + n);
      head + RenderWith(ts[1..], kv)
  }

  lemma {:induction false} RenderWithNothing(ts: seq<Token>)
    ensures RenderWith(ts, []) == Render(ts)
  {
    if |ts| > 0 {
      RenderWithNothing(ts[1..]);
    }
  }

  lemma {:induction false} LookupAppend(kv: seq<(string, string)>, k: string, v: string, n: string)
    ensures Lookup(kv + [(k, v)], n) ==
              if Lookup(kv, n).Some? then Lookup(kv, n) else if n == k then Some(v) else None
  {
    if |kv| == 0 {
      assert kv + [(k, v)] == [(k, v)];
    } else {
      assert (kv + [(k, v)])[1..] == kv[1..] + [(k, v)];
      LookupAppend(kv[1..], k, v, n);
    }
  }

  /** Keys build patterns that cannot reach past a placeholder's name, and values carry no
      marker. */
  predicate KeysFit(ts: seq<Token>, kv: seq<(string, string)>) {
    forall i :: 0 <= i < |kv| ==>
      && ValidName(kv[i].0) && AllNameChars(kv[i].1)
      && forall n :: n in Names(ts) ==> !ProperPrefix(kv[i].0, n)
  }

  /** Text after a placeholder or a literal marker begins with a non-name character. */
  lemma SeparatedRest(ts: seq<Token>, kv: seq<(string, string)>)
    requires |ts| > 0 && WellFormed(ts) && NoAdjacentVars(ts) && NoMarkerBeforeVar(ts)
    requires ts[0].Var? || ts[0] == Lit(Marker)
    ensures RenderWith(ts[1..], kv) == "" || !IsNameChar(RenderWith(ts[1..], kv)[0])
  {
    if |ts| > 1 {
      assert ts[1..][0] == ts[1];
    }
  }

  /** The replacement does not fire at a literal character. */
  lemma ReplaceAtLiteral(c: char, R: string, k: string, v: string)
    requires ValidName(k)
    requires c == Marker ==> R == "" || !IsNameChar(R[0])
    ensures ReplaceAll([c] + R, [Marker] + k, v) == [c] + ReplaceAll(R, [Marker] + k, v)
  {
    var pat := [Marker] + k;
    var s := [c] + R;
    assert s[1..] == R;
    assert !(|pat| <= |s| && s[..|pat|] == pat);
  }

  /** The replacement fires at the placeholder named by the key. */
  lemma ReplaceAtOwnPlaceholder(R: string, k: string, v: string)
    requires ValidName(k)
    ensures ReplaceAll([Marker] + k + R, [Marker] + k, v) == v + ReplaceAll(R, [Marker] + k, v)
  {
    var pat := [Marker] + k;
    var s := pat + R;
    assert s[..|pat|] == pat;
    assert s[|pat|..] == R;
  }

  /** The replacement does not fire at a placeholder with another name, provided the key is
      not a strict prefix of that name and the name is followed by a non-name character. */
  lemma ReplaceAtOtherPlaceholder(n: string, R: string, k: string, v: string)
    requires ValidName(k) && AllNameChars(n) && n != k && !ProperPrefix(k, n)
    requires R == "" || !IsNameChar(R[0])
    ensures ReplaceAll([Marker] + n + R, [Marker] + k, v) == [Marker] + n + ReplaceAll(R, [Marker] + k, v)
  {
    var pat := [Marker] + k;
    var s := [Marker] + n + R;
    OtherPlaceholderMisses(n, R, k);
    assert s[0] == Marker && s[1..] == n + R;
    calc {
      ReplaceAll(s, pat, v);
      { ReplaceSkipFront(s, pat, v); }
      [Marker] + ReplaceAll(n + R, pat, v);
      { ReplaceSkipsName(n, R, pat, v); }
      [Marker] + (n + ReplaceAll(R, pat, v));
      { AppendAssoc([Marker], n, ReplaceAll(R, pat, v)); }
      [Marker] + n + ReplaceAll(R, pat, v);
    }
  }

  /** The pattern `:k` does not occur at the front of `:n` followed by a non-name character. */
  lemma OtherPlaceholderMisses(n: string, R: string, k: string)
    requires ValidName(k) && AllNameChars(n) && n != k && !ProperPrefix(k, n)
    requires R == "" || !IsNameChar(R[0])
    ensures var pat, s := [Marker] + k, [Marker] + n + R;
            !(|pat| <= |s| && s[..|pat|] == pat)
  {
    var pat := [Marker] + k;
    var s := [Marker] + n + R;
    if |pat| <= |s| {
      if |k| <= |n| {
        assert s[..|pat|][1..] == n[..|k|];
        assert n[..|k|] != k;
      } else {
        assert s[1 + |n|] == R[0];
        assert s[..|pat|][1 + |n|] != pat[1 + |n|];
      }
    }
  }

  /** One step of `ReplaceAll` where the pattern does not occur at the front: the first
      character is kept. */
  lemma ReplaceSkipFront(s: string, pat: string, val: string)
    requires |pat| > 0 && |s| > 0 && !(|pat| <= |s| && s[..|pat|] == pat)
    ensures ReplaceAll(s, pat, val) == [s[0]] + ReplaceAll(s[1..], pat, val)
  {
  }

  /** One keyword replacement, seen on the tokens: the placeholders named by the key take
      the value and the rest of the text is untouched. */
  lemma {:induction false} ReplaceOneKey(ts: seq<Token>, kv: seq<(string, string)>, k: string, v: string)
    requires WellFormed(ts) && NoAdjacentVars(ts) && NoMarkerBeforeVar(ts)
    requires KeysFit(ts, kv + [(k, v)])
    ensures ReplaceAll(RenderWith(ts, kv), [Marker] + k, v) == RenderWith(ts, kv + [(k, v)])
  {
    var pat := [Marker] + k;
    assert (kv + [(k, v)])[|kv|] == (k, v);
    if |ts| > 0 {
      var rest := ts[1..];
      assert Names(ts) == (if ts[0].Var? then [ts[0].name] else []) + Names(rest);
      assert KeysFit(rest, kv + [(k, v)]) by {
        assert forall n :: n in Names(rest) ==> n in Names(ts);
      }
      ReplaceOneKey(rest, kv, k, v);
      var R := RenderWith(rest, kv);
      match ts[0]
      case Lit(c) =>
        if c == Marker { SeparatedRest(ts, kv); }
        ReplaceAtLiteral(c, R, k, v);
      case Var(n) =>
        LookupAppend(kv, k, v, n);
        assert n in Names(ts);
        match Lookup(kv, n)
        case Some(w) =>
          var j :| 0 <= j < |kv| && kv[j] == (n, w);
          assert (kv + [(k, v)])[j] == kv[j];
          ReplaceSkipsName(w, R, pat, v);
        case None =>
          if n == k {
            ReplaceAtOwnPlaceholder(R, k, v);
          } else {
            SeparatedRest(ts, kv);
            ReplaceAtOtherPlaceholder(n, R, k, v);
          }
    }
  }

  /** Applying entries one after another, seen on the tokens. */
  lemma {:induction false} SubstituteKwargsTokens(ts: seq<Token>, done: seq<(string, string)>, todo: seq<(string, string)>)
    requires WellFormed(ts) && NoAdjacentVars(ts) && NoMarkerBeforeVar(ts)
    requires KeysFit(ts, done + todo)
    requires KwargsSafe(todo)
    ensures SubstituteKwargs(RenderWith(ts, done), todo) == RenderWith(ts, done + todo)
    decreases |todo|
  {
    if |todo| == 0 {
      assert done + todo == done;
    } else {
      var next := done + [todo[0]];
      assert next + todo[1..] == done + todo;
      assert next == (done + todo)[..|done| + 1];
      assert KeysFit(ts, next) by {
        forall i | 0 <= i < |next| ensures next[i] == (done + todo)[i] { }
      }
      ReplaceOneKey(ts, done, todo[0].0, todo[0].1);
      SubstituteKwargsTokens(ts, next, todo[1..]);
    }
  }

  /** When every placeholder name finds its value among the entries, the keyword
      rendering is the positional fill with those values. */
  lemma {:induction false} RenderWithAll(ts: seq<Token>, kv: seq<(string, string)>, vs: seq<string>)
    requires |vs| == |Names(ts)|
    requires forall i :: 0 <= i < |vs| ==> Lookup(kv, Names(ts)[i]) == Some(vs[i])
    ensures RenderWith(ts, kv) == Fill(ts, vs)
  {
    if |ts| > 0 {
      var t, tail := ts[0], ts[1..];
      assert ts == [t] + tail;
      NamesCons(t, tail);
      match t
      case Var(n) =>
        assert Lookup(kv, Names(ts)[0]) == Some(vs[0]);
        forall i | 0 <= i < |vs| - 1
          ensures Lookup(kv, Names(tail)[i]) == Some(vs[1..][i])
        {
          assert Names(ts)[i + 1] == Names(tail)[i];
        }
        RenderWithAll(tail, kv, vs[1..]);
        RenderWithVarStep(n, tail, kv, vs);
      case Lit(c) =>
        RenderWithAll(tail, kv, vs);
        RenderWithLitStep(c, tail, kv, vs);
    }
  }

  lemma RenderWithVarStep(n: string, tail: seq<Token>, kv: seq<(string, string)>, vs: seq<string>)
    requires |vs| > 0 && Lookup(kv, n) == Some(vs[0])
    requires RenderWith(tail, kv) == Fill(tail, vs[1..])
    ensures RenderWith([Var(n)] + tail, kv) == Fill([Var(n)] + tail, vs)
  {
    assert ([Var(n)] + tail)[1..] == tail;
    FillConsVar(n, tail, vs);
  }

  lemma RenderWithLitStep(c: char, tail: seq<Token>, kv: seq<(string, string)>, vs: seq<string>)
    requires RenderWith(tail, kv) == Fill(tail, vs)
    ensures RenderWith([Lit(c)] + tail, kv) == Fill([Lit(c)] + tail, vs)
  {
    assert ([Lit(c)] + tail)[1..] == tail;
    FillConsLit(c, tail, vs);
  }

  /** Keyword substitution fills each placeholder with the value keyed by its name,
      provided no key is a strict prefix of a placeholder name, the template has neither
      adjacent placeholders nor a literal marker before one, and values are name text. */
  lemma SubstituteKwargsFills(template: string, kv: seq<(string, string)>, vs: seq<string>)
    requires NoAdjacentVars(Tokenize(template)) && NoMarkerBeforeVar(Tokenize(template))
    requires KeysFit(Tokenize(template), kv) && KwargsSafe(kv)
    requires |vs| == |Names(Tokenize(template))|
    requires forall i :: 0 <= i < |vs| ==> Lookup(kv, Names(Tokenize(template))[i]) == Some(vs[i])
    ensures SubstituteKwargs(template, kv) == Fill(Tokenize(template), vs)
  {
    var ts := Tokenize(template);
    RenderWithNothing(ts);
    assert [] + kv == kv;
    SubstituteKwargsTokens(ts, [], kv);
    RenderWithAll(ts, kv, vs);
  }

  /** What keyword generation leaves for a placeholder: the value of its first entry, or
      `''` once the final strip has deleted a placeholder without one. */
  function EntryValue(kv: seq<(string, string)>, n: string): (v: string)
    ensures Lookup(kv, n).Some? ==> v == Lookup(kv, n).value
    ensures Lookup(kv, n).None? ==> v == ""
  {
    match Lookup(kv, n)
    case Some(v) => v
    case None => ""
  }

  /** The entry values for a list of placeholder names, position by position. */
  function EntryValues(names: seq<string>, kv: seq<(string, string)>): (vs: seq<string>)
    ensures |vs| == |names|
    ensures forall i :: 0 <= i < |names| ==> vs[i] == EntryValue(kv, names[i])
  {
    seq(|names|, i requires 0 <= i < |names| => EntryValue(kv, names[i]))
  }

  lemma EntryValuesCons(n: string, names: seq<string>, kv: seq<(string, string)>)
    ensures EntryValues([n] + names, kv) == [EntryValue(kv, n)] + EntryValues(names, kv)
  {
    var a, b := EntryValues([n] + names, kv), [EntryValue(kv, n)] + EntryValues(names, kv);
    forall i | 0 <= i < |a| ensures a[i] == b[i] {
      if i > 0 {
        assert ([n] + names)[i] == names[i - 1];
      }
    }
  }

  /** The tokens of a template after keyword replacement: a placeholder with an entry has
      become that value as literal text, any other placeholder is still there. */
  function Substituted(ts: seq<Token>, kv: seq<(string, string)>): seq<Token> {
    if |ts| == 0 then []
    else
      var head := match ts[0]
        case Lit(c) => [Lit(c)]
        case Var(n) => (match Lookup(kv, n) case Some(v) => Lits(v) case None => [Var(n)]);
      head + Substituted(ts[1..], kv)
  }

  /** The replaced tokens render as the replaced text. */
  lemma {:induction false} RenderSubstituted(ts: seq<Token>, kv: seq<(string, string)>)
    ensures Render(Substituted(ts, kv)) == RenderWith(ts, kv)
  {
    if |ts| > 0 {
      var rest := Substituted(ts[1..], kv);
      RenderSubstituted(ts[1..], kv);
      match ts[0]
      case Lit(c) => RenderCons(Lit(c), rest);
      case Var(n) =>
        match Lookup(kv, n)
        case Some(v) => RenderLiteralPrefix(v, rest);
        case None => RenderCons(Var(n), rest);
    }
  }

  /** Every value is name text. */
  predicate NameValues(kv: seq<(string, string)>) {
    forall i :: 0 <= i < |kv| ==> AllNameChars(kv[i].1)
  }

  /** The first replaced token is the first token when that is literal. */
  lemma SubstitutedStart(ts: seq<Token>, kv: seq<(string, string)>)
    requires WellFormed(ts) && (|ts| == 0 || ts[0].Lit?)
    ensures StartsWithNameChar(Substituted(ts, kv)) <==> StartsWithNameChar(ts)
  {
    if |ts| > 0 {
      assert Substituted(ts, kv) == [ts[0]] + Substituted(ts[1..], kv);
    }
  }

  /** Keyword replacement of a template with neither adjacent placeholders nor a literal
      marker before one, by name-text values, leaves tokens the scanner reads back. */
  lemma {:induction false} SubstitutedWellFormed(ts: seq<Token>, kv: seq<(string, string)>)
    requires WellFormed(ts) && NoAdjacentVars(ts) && NoMarkerBeforeVar(ts)
    requires NameValues(kv)
    ensures WellFormed(Substituted(ts, kv))
  {
    if |ts| > 0 {
      var tail := ts[1..];
      var rest := Substituted(tail, kv);
      SubstitutedWellFormed(tail, kv);
      assert |tail| > 0 ==> tail[0] == ts[1];
      NameAlphabet();
      match ts[0]
      case Lit(c) =>
        if c == Marker {
          SubstitutedStart(tail, kv);
        }
        WellFormedCons(Lit(c), rest);
      case Var(n) =>
        match Lookup(kv, n)
        case Some(v) =>
          assert Marker !in v by {
            var i :| 0 <= i < |kv| && kv[i] == (n, v);
            assert AllNameChars(kv[i].1);
          }
          WellFormedLiteralPrefix(v, rest);
        case None =>
          SubstitutedStart(tail, kv);
          WellFormedCons(Var(n), rest);
    }
  }

  /** Literal text in front stays in the literal text. */
  lemma {:induction false} LiteralsLiteralPrefix(p: string, ts: seq<Token>)
    ensures Literals(Lits(p) + ts) == p + Literals(ts)
  {
    if |p| > 0 {
      var rest := Lits(p[1..]) + ts;
      LitsCons(p);
      assert Lits(p) + ts == [Lit(p[0])] + rest;
      ConsParts(Lit(p[0]), rest);
      LiteralsLiteralPrefix(p[1..], ts);
      AppendAssoc([p[0]], p[1..], Literals(ts));
      HeadTail(p);
    } else {
      assert Lits(p) + ts == ts;
    }
  }

  /** Deleting the placeholders left after keyword replacement gives the template filled
      with the entry values, `''` where a name has no entry. */
  lemma {:induction false} LiteralsSubstituted(ts: seq<Token>, kv: seq<(string, string)>)
    ensures Literals(Substituted(ts, kv)) == Fill(ts, EntryValues(Names(ts), kv))
  {
    if |ts| > 0 {
      LiteralsSubstituted(ts[1..], kv);
      if ts[0].Lit? {
        LiteralsSubstitutedLit(ts, kv);
      } else {
        LiteralsSubstitutedVar(ts, kv);
      }
    }
  }

  /** `LiteralsSubstituted` for a sequence starting with a literal, given it for the rest. */
  lemma LiteralsSubstitutedLit(ts: seq<Token>, kv: seq<(string, string)>)
    requires |ts| > 0 && ts[0].Lit?
    requires Literals(Substituted(ts[1..], kv)) == Fill(ts[1..], EntryValues(Names(ts[1..]), kv))
    ensures Literals(Substituted(ts, kv)) == Fill(ts, EntryValues(Names(ts), kv))
  {
    var c, tail := ts[0].c, ts[1..];
    var rest := Substituted(tail, kv);
    calc {
      Literals(Substituted(ts, kv));
      { ConsParts(Lit(c), rest); }
      [c] + Literals(rest);
      { assert Names(ts) == [] + Names(tail) == Names(tail); }
      [c] + Fill(tail, EntryValues(Names(ts), kv));
      Fill(ts, EntryValues(Names(ts), kv));
    }
  }

  /** `LiteralsSubstituted` for a sequence starting with a placeholder, given it for the
      rest: the placeholder's text is its name's entry value, or `''` without an entry. */
  lemma LiteralsSubstitutedVar(ts: seq<Token>, kv: seq<(string, string)>)
    requires |ts| > 0 && ts[0].Var?
    requires Literals(Substituted(ts[1..], kv)) == Fill(ts[1..], EntryValues(Names(ts[1..]), kv))
    ensures Literals(Substituted(ts, kv)) == Fill(ts, EntryValues(Names(ts), kv))
  {
    var n, tail := ts[0].name, ts[1..];
    var rest := Substituted(tail, kv);
    var all := EntryValues(Names(ts), kv);
    assert Names(ts) == [n] + Names(tail);
    EntryValuesCons(n, Names(tail), kv);
    ConsParts(EntryValue(kv, n), EntryValues(Names(tail), kv));
    assert Fill(ts, all) == EntryValue(kv, n) + Literals(rest);
    match Lookup(kv, n)
    case Some(v) =>
      LiteralsLiteralPrefix(v, rest);
    case None =>
      ConsParts(Var(n), rest);
  }

  /** Replacing `:id` by `7` in `/:id/:idx`. */
  lemma ReplaceIdInIdx(url: string, pat: string)
    requires url == "/:id/:idx" && pat == ":id"
    ensures ReplaceAll(url, pat, "7") == "/7/7x"
  {
    IdIdxTexts(url, pat);
    ReplaceBothOccurrences('/', pat, "7", 'x');
  }

  /** The two texts, cut at the occurrences of `:id`. */
  lemma IdIdxTexts(url: string, pat: string)
    requires url == "/:id/:idx" && pat == ":id"
    ensures url == ['/'] + (pat + (['/'] + (pat + ['x'])))
    ensures "/7/7x" == ['/'] + ("7" + (['/'] + ("7" + ['x'])))
  {
  }

  /** In `c pat c pat x`, where neither `c` nor `x` starts the pattern, both occurrences
      are replaced and the rest is kept. */
  lemma ReplaceBothOccurrences(c: char, pat: string, val: string, x: char)
    requires |pat| > 0 && c != pat[0] && x != pat[0]
    ensures ReplaceAll([c] + (pat + ([c] + (pat + [x]))), pat, val) == [c] + (val + ([c] + (val + [x])))
  {
    var s1 := pat + ([c] + (pat + [x]));
    ReplaceCharFirst(c, s1, pat, val);
    ReplacePatternFirst(pat, val, c, pat + [x]);
    ReplaceCharFirst(c, pat + [x], pat, val);
    ReplacePatternFirst(pat, val, x, []);
    ReplaceCharFirst(x, [], pat, val);
    assert [x] + [] == [x];
  }

  /** A first character that does not start the pattern is kept. */
  lemma ReplaceCharFirst(c: char, rest: string, pat: string, val: string)
    requires |pat| > 0 && c != pat[0]
    ensures ReplaceAll([c] + rest, pat, val) == [c] + ReplaceAll(rest, pat, val)
  {
    var s := [c] + rest;
    assert s[0] == c && s[1..] == rest;
    assert |pat| <= |s| ==> s[..|pat|][0] == c;
  }

  /** An occurrence of the pattern at the front is replaced. */
  lemma ReplacePatternFirst(pat: string, val: string, c: char, rest: string)
    requires |pat| > 0
    ensures ReplaceAll(pat + ([c] + rest), pat, val) == val + ReplaceAll([c] + rest, pat, val)
  {
    var s := pat + ([c] + rest);
    assert s[..|pat|] == pat && s[|pat|..] == [c] + rest;
  }

  /** Keyword replacement has no name boundary: the entry for `id` also rewrites the start
      of the placeholder `:idx`. */
  lemma KeywordReplacesNamePrefix(url: string, entries: seq<(string, string)>)
    requires url == "/:id/:idx" && entries == [("id", "7")]
    ensures KwargsSafe(entries)
    ensures SubstituteKwargs(url, entries) == "/7/7x"
  {
    var pat := [Marker] + entries[0].0;
    assert pat == ":id";
    assert NoRegexSpecial(entries[0].0) by {
      assert entries[0].0 == "id";
    }
    ReplaceIdInIdx(url, pat);
    assert entries[1..] == [];
  }
}
