# url-lib templating engine in Dafny

url-lib builds and parses application URLs from named templates such as `/users/:id/posts/:slug`.
A placeholder is `:` followed by the longest run of `[A-Za-z0-9_]`. The library does three things:

- `generateUrl` fills placeholders from positional or keyword arguments and then deletes any
  placeholder left over.
- `test` checks whether a URL could have come from a template.
- `reverseUrl` recovers the placeholder values from a URL.

The same module also has a flat query-string codec, and `booleanify` coerces decoded values.

This project models that core as pure functions over immutable values and proves what the
code promises about them. The modules are:

- `Results`: the `Option` and `Result` types, and the three ways the code throws.
- `Collections`: first-occurrence de-duplication (`uniq`), positional pairing (`zipObject`),
  first-match lookup, and `split`/`join` on one separator character.
- `Grammar` (constants.js, `getParamsFromTemplate`):
  - a template is scanned by maximal munch into a sequence of tokens, each `Lit(c)` or
    `Var(name)`;
  - `Render` is the scanner's exact inverse.
- `Substitution` (`substituteIndexedArgs`, `substituteKwargs` and the final strip in
  `generateUrl`):
  - positional fill, with `''` once the values run out;
  - keyword fill as repeated global textual replacement;
  - placeholder deletion.
- `Matcher` (`templateToRegExp`, `getKwargsFromUrl`): the anchored pattern is modelled in two
  ways, proved to agree:
  - `Match`, an executable matcher with JavaScript's greedy backtracking;
  - `Accepts`, a declarative reading: the URL is the template with each placeholder replaced
    by a non-empty name run.
- `Engine` (index.js): the template registry, the two resolution rules, `generateUrl`, `test`
  and `reverseUrl`, with their round trips.
- `Transformers`: `booleanify`, plus `numberify` built on a numeric test that is a parameter.
- `QueryString`: `objectToQueryString`, `queryStringToObject` and `toString`.

The registry (the module variable `TEMPLATES`) is passed to every operation as a value, and
`ImportTemplates` returns the registry that replaces it. Platform services are function
parameters:

- `encodeURIComponent`;
- `decodeURIComponent`, which returns `None` where it would throw;
- `isNumeric`, whose one stated fact is that `''` is not numeric.

Where the code throws, the model returns `Failure`:

- `NoPlaceholders` when `getParamsFromTemplate` calls `.map` on `null`;
- `NoMatch` when `getKwargsFromUrl` calls `.slice` on `null`;
- `MalformedEncoding` when decoding fails.

Two behaviours of the code differ from what the repository's test file expects. The model
follows the code in both:

- `reverseUrl('/', '/')` passes `test`, then fails because `/` has no placeholder.
  `Engine.ReverseSlashFails` shows this.
- `test('/blah/:blah', '/blah/blah-blah')` is false, because `-` is not a name character.
  `Matcher.HyphenNeverCaptured` shows this.

`reverseUrl` resolves the template through the registry and hands the result to `test`, which
resolves it a second time. The model does the same. `Engine.ReverseResolvesTwice` shows a
registry where the second resolution makes `test` pass while the match it then runs fails.

## Model

| member | source | states |
|---|---|---|
| Grammar.NameAlphabet | src/lib/url/constants.js:1 | `:`, `-`, `.` and `/` are not placeholder-name characters |
| Grammar.Tokenize | src/lib/url/constants.js:2-3 | The scan renders back to exactly the template. The tokens are well formed: every name is non-empty, and no name character follows a placeholder or a literal marker, so names are maximal. The scan starts with a literal name character exactly when the text does |
| Grammar.TokenizeRender | src/lib/url/constants.js:2-3 | Scanning the text of any well-formed token sequence gives that sequence back, so the scan is the unique maximal-munch reading |
| Grammar.NoPlaceholderIffNoVar | src/lib/url/constants.js:2-3 | A text has no `:` directly followed by a name character exactly when its scan has no placeholder |
| Grammar.ParamsFromTemplate | src/lib/url/util.js:8-12 | Fails with `NoPlaceholders` exactly when the template has no placeholder. Otherwise returns every placeholder name left to right, duplicates kept, each non-empty and without the `:` |
| Substitution.StripPlaceholders | src/lib/url/index.js:38-39 | The result contains no placeholder-shaped text, not even text formed by the deletion itself. Text without placeholders is returned unchanged |
| Substitution.SubstituteIndexedArgs | src/lib/url/util.js:51-62 | A template without placeholders comes back unchanged. With no arguments, every placeholder is deleted |
| Substitution.SubstituteIndexedArgsAt | src/lib/url/util.js:51-62 | The placeholder preceded by k others receives argument k. The text before and after it keeps its order |
| Substitution.FillIgnoresExtra | src/lib/url/util.js:56-60 | Arguments beyond the number of placeholders do not change the result |
| Substitution.FillRunsOut | src/lib/url/util.js:58-60 | Running out of arguments gives the same result as passing `''` for the missing ones |
| Substitution.FillConcat | src/lib/url/util.js:53-61 | Filling proceeds left to right: the second part of a template takes the arguments the first part did not use |
| Substitution.FillNoPlaceholder | src/lib/url/util.js:51-62 | When values are name runs and no literal `:` precedes a placeholder, a positional fill that uses every placeholder leaves no placeholder-shaped text |
| Substitution.ReplaceAll | src/lib/url/util.js:37 | `url.replace(new RegExp(pattern, 'g'), val)`: text with no occurrence of the pattern is unchanged. An occurrence at the start becomes the value, and otherwise the first character is kept |
| Substitution.ReplaceAllAtFirst | src/lib/url/util.js:37 | The `g` flag: the text before the first occurrence is kept, that occurrence becomes the value, and replacement goes on after it. With the no-occurrence case this fixes the result on every text: all occurrences, leftmost first, none overlapping |
| Substitution.LiteralsSubstituted | src/lib/url/util.js:34-41 | On the scanned template: putting each entry's value in place of the placeholders it names, then dropping the placeholders left over, equals filling every placeholder with its name's first entry, or `''` when the name has no entry |
| Substitution.SubstituteKwargs | src/lib/url/util.js:34-41 | With no entries the template is returned unchanged |
| Substitution.SubstituteKwargsFills | src/lib/url/util.js:34-41 | Conditions: the template has no adjacent placeholders and no literal `:` before a placeholder; keys are names free of regex metacharacters, values are name runs without `$`, no key is a strict prefix of a placeholder name, and every placeholder name has an entry. Then the entry-by-entry global replacement equals filling each placeholder with its name's first entry |
| Substitution.KeywordReplacesNamePrefix | src/lib/url/util.js:37 | There is no name boundary: `{id: '7'}` turns `/:id/:idx` into `/7/7x` |
| Matcher.Match | src/lib/url/util.js:69-75 | Sound: the captures are one non-empty name run per placeholder, and filling them back in rebuilds the URL |
| Matcher.MatchIffAccepts | src/lib/url/util.js:69-75 | The backtracking matcher succeeds exactly when the URL is the template with each placeholder replaced by a non-empty name run |
| Matcher.MatchDeterministic | src/lib/url/util.js:20-24 | With no adjacent placeholders, matching a URL built from valid values captures exactly those values, i.e. each capture is the maximal name run at its place |
| Matcher.TemplateTest | src/lib/url/util.js:69-75 | For templates whose only regex metacharacters are `?` and `.`: the anchored pattern accepts a URL exactly when the declarative reading does |
| Matcher.KwargsFromUrl | src/lib/url/util.js:20-24 | Succeeds exactly when the pattern accepts the URL, and fails with `NoMatch` otherwise. On success there is one capture per placeholder, in template order, and the captures rebuild the URL |
| Matcher.KwargsFromUrlRecovers | src/lib/url/util.js:20-24 | With no adjacent placeholders, the captures of a URL generated from valid values are those values |
| Matcher.HyphenNeverCaptured | src/lib/url/constants.js:1 | `/blah/:blah` does not accept `/blah/blah-blah` |
| Engine.ResolveForGenerate | src/lib/url/index.js:29 | A name registered to a non-empty template resolves to it. A name with no registered template, or one registered to `''`, stands for itself (inherited object keys are not modelled). The result is `''` only for the name `''` |
| Engine.ResolveByKey | src/lib/url/index.js:88 | A registered name resolves to its template, even `''`. An unregistered name stands for itself. `test` resolves the same way at index.js:110 |
| Engine.ResolutionDiffers | src/lib/url/index.js:29 | Resolution by truthiness (`generateUrl`) and resolution by key membership (`test`, `reverseUrl`) differ exactly for a non-empty name registered to `''` |
| Engine.ImportTemplates | src/lib/url/index.js:13-15 | After an import, a name resolves through the new mapping only. A name the mapping lacks resolves to itself under both rules |
| Engine.ImportForgetsEarlier | src/lib/url/index.js:13-15 | A name registered by an earlier import and absent from the latest one no longer resolves |
| Engine.GenerateUrl | src/lib/url/index.js:27-40 | The URL never contains placeholder-shaped text, whether arguments are positional, keyword or absent. A placeholder-free template given positional arguments comes back unchanged |
| Engine.GeneratePositionalFills | src/lib/url/index.js:27-40 | With at least as many positional name-run values as placeholders, and no literal `:` before a placeholder, the URL is the template filled with the first values |
| Engine.Test | src/lib/url/index.js:109-113 | `test` is true exactly when the resolved template's pattern accepts the URL |
| Engine.GenerateKeywordFills | src/lib/url/index.js:27-40 | Conditions: the template is reversible (unregistered, only `?` and `.` as regex metacharacters, no adjacent placeholders, no literal `:` before a placeholder, at least one placeholder, distinct names); no placeholder name is a strict prefix of another; the keyword entries are listed in template order with distinct keys and name-run values. Then the URL is the template filled with the entries' values |
| Engine.GenerateKeywordDefaults | src/lib/url/index.js:27-40 | Conditions: the template has no adjacent placeholders and no literal `:` before one; entry keys are names free of regex metacharacters and no strict prefix of a placeholder name; values are name runs. Then each placeholder receives its name's first entry, and a placeholder whose name has no entry receives `''` |
| Engine.GenerateMissingKeyword | src/lib/url/index.js:27-40 | `generateUrl('/u/:id/:name', {id: v})` is `/u/v/` when `id` and `name` are different names, `id` is not a strict prefix of `name` and has no regex metacharacters, and `v` is made of name characters without `$`: the placeholder without an entry is deleted |
| Engine.GenerateUserWithoutName | src/lib/url/index.js:27-40 | `generateUrl('/u/:id/:name', {id: '7'})` is `/u/7/` |
| Engine.TestAcceptsGenerated | src/lib/url/index.js:27-40 | Conditions: the name resolves the same way under both rules, the template has only `?` and `.` as regex metacharacters, no literal `:` precedes a placeholder, and there are enough positional name-run values. Then `test` accepts the generated URL |
| Engine.ReverseUrl | src/lib/url/index.js:87-100 | Gives `{}` whenever `test` (run on the already resolved template) fails. Once `test` passes: it fails with `NoPlaceholders` on a placeholder-free template, and with `NoMatch` when the template itself does not accept the URL. Otherwise pair i is the i-th distinct placeholder name (first occurrences, in template order) with the i-th distinct capture, as far as the shorter list goes. Keys are distinct, and every key and value is a non-empty name run |
| Engine.ReverseMatched | src/lib/url/index.js:94-99 | After `test` has passed: `NoPlaceholders` for a placeholder-free template, `NoMatch` when the template does not accept the URL, and otherwise the distinct names paired position by position with the distinct captures |
| Engine.ReverseTwoPlaceholders | src/lib/url/index.js:87-100 | For an unregistered template `p:a/:b` with `p` made of `/` and name characters, names a and b, and a URL `p` + x + `/` + y with name runs x and y, the result pairs `uniq([a, b])` with `uniq([x, y])` |
| Engine.ReverseRepeatedName | src/lib/url/index.js:94-99 | `reverseUrl('/:a/:a', '/x/y')` is `{a: x}` for distinct captures x and y: the second capture is dropped, because only one key remains |
| Engine.ReverseRepeatedValue | src/lib/url/index.js:94-99 | `reverseUrl('/:a/:b', '/x/x')` is `{a: x}` for distinct names: `uniq` merges the equal captures, so `b` gets no value |
| Engine.ReverseLetterExamples | src/lib/url/index.js:94-99 | `reverseUrl('/:a/:a', '/x/y')` and `reverseUrl('/:a/:b', '/x/x')` are both `{a: 'x'}` |
| Engine.ReverseOfFill | src/lib/url/index.js:87-100 | Conditions: the template is reversible, i.e. unregistered, with only `?` and `.` as regex metacharacters, no adjacent placeholders, no literal `:` before a placeholder, at least one placeholder, and distinct names. Then reversing its fill with one distinct name-run value per placeholder pairs each name with its value |
| Engine.ReverseOfGeneratePositional | src/lib/url/index.js:94-99 | Under the same conditions, `reverseUrl(T, generateUrl(T, v1..vn))` maps the i-th name to vi |
| Engine.ReverseOfGenerateKeyword | src/lib/url/index.js:94-99 | For a reversible template (as for `Engine.ReverseOfFill`) in which no placeholder name is a strict prefix of another, and keyword entries listed in template order with distinct name-run values: `reverseUrl(T, generateUrl(T, kwargs))` gives the entries back |
| Engine.ReverseSlashFails | src/lib/url/index.js:91-94 | `reverseUrl('/', '/')` passes `test` and then fails with `NoPlaceholders` |
| Engine.UserGenerate | src/lib/url/index.js:27-40 | `generateUrl('/:id/:name', '7', 'ann')` is `/7/ann` |
| Engine.UserReverse | src/lib/url/index.js:87-100 | `reverseUrl('/:id/:name', '/7/ann')` maps `id` to `7` and `name` to `ann` |
| Engine.ReverseResolvesTwice | src/lib/url/index.js:88-96 | With `a` registered to `/:x` and `/:x` registered to `/`, `reverseUrl('a', '/')` passes `test` against `/` and then fails with `NoMatch` |
| Collections.Uniq | src/lib/url/index.js:94-96 | The result has no duplicates and holds exactly the input's elements, ordered by first occurrence in the input. A duplicate-free input comes back unchanged |
| Collections.ZipObject | src/lib/url/index.js:99 | Pairs keys and values by position, as far as the shorter list goes |
| Collections.ZipUniqPairs | src/lib/url/index.js:94-99 | `zipObject(uniq(keys), uniq(values))` has distinct keys, and every pair is drawn from the two lists |
| Collections.SplitJoin | src/lib/url/index.js:58 | Splitting a join of separator-free parts gives the parts back |
| Collections.Split | src/lib/url/index.js:70 | Splitting gives at least one part, no part holds the separator, and joining the parts rebuilds the text |
| QueryString.PresentEntries | src/lib/url/index.js:53 | An order-preserving filter: its length is the number of entries whose value exists, and the entry with k present entries before it lands at position k. Empty exactly when no value exists |
| QueryString.ObjectToQueryString | src/lib/url/index.js:49-59 | The query string is `''` exactly when no entry has a value. When no encoding holds `&`, splitting a non-empty result at `&` gives the encoded `key=value` pairs of the present entries, in order |
| QueryString.SplitPair | src/lib/url/index.js:72 | The key is the text before the first `=`. The value is the text between the first and second `=`, or `undefined` when there is no `=` |
| QueryString.DecodePieces | src/lib/url/index.js:69-75 | Succeeds exactly when every key and value decodes, and fails with `MalformedEncoding` otherwise. On success each entry is the decoded key and value of its piece |
| QueryString.Collect | src/lib/url/index.js:71-78 | The keys are exactly the pieces' keys. A key's value is the coerced value of its last occurrence |
| QueryString.QueryStringToObject | src/lib/url/index.js:66-79 | The empty string gives `{}`. Otherwise it succeeds exactly when every piece decodes, and fails with `MalformedEncoding` otherwise. On success the keys are exactly the decoded keys, and each key holds the coerced value of the last piece with that key |
| QueryString.QueryStringRoundTrip | src/lib/url/index.js:49-79 | For an encoder that never emits `&` or `=` and that the decoder inverts: decoding the encoded object gives every present entry with its value coerced, the last one winning for a repeated key |
| QueryString.ParamToString | src/lib/url/util.js:82-88 | An array becomes `(`, its encoded items joined by `,`, then `)`. Any other value is just encoded |
| QueryString.ListItemsRecoverable | src/lib/url/util.js:82-88 | For a non-empty array whose encodings hold no `,`, splitting the text inside the parentheses gives back the encoded items |
| Transformers.Booleanify | src/lib/transformers/booleanify.js:8-13 | The result is a boolean exactly when the input is `'true'`, `'false'` or already a boolean. It is `true` exactly for `'true'` and `true`. Everything else passes through unchanged |
| Transformers.BooleanifyIdempotent | src/lib/transformers/booleanify.js:8-13 | Applying `booleanify` twice is the same as applying it once |
| Transformers.BooleanifyPassesThrough | src/lib/transformers/booleanify.js:12 | The comparison is exact and case-sensitive: `'True'`, `'1'`, `''` and numbers pass through |
| Transformers.Numberify | src/lib/transformers/numberify.js:10-12 | Numeric text becomes a number, and any other text is kept as it is |
| Transformers.Coerce | src/lib/url/index.js:75 | Numeric coercion comes first, then boolean coercion. `''` stays a string |

## Left out

- Host location defaults: the `window.location` default arguments of `queryStringToObject`,
  `reverseUrl` and `test` are host I/O. The URL and the query string are required arguments.
- Number parsing: `isNumeric` rests on JavaScript's `Number()` and `NaN`. It is a parameter
  whose one stated fact is that `''` is not numeric. A number keeps the text it was read from.
- Percent-encoding: `encodeURIComponent` and `decodeURIComponent` are parameters. No lemma
  depends on their internals beyond the stated inverse and separator conditions.
- Engine.Test, Engine.ReverseUrl, Engine.ReverseMatched, Engine.TestAcceptsGenerated,
  Matcher.TemplateTest, Matcher.KwargsFromUrl: they require templates whose only
  regex metacharacters are `?` and `.`. Other metacharacters need a regular-expression engine.
- Engine.GenerateUrl, Substitution.SubstituteKwargs: they require keyword keys free of regex
  metacharacters and values free of `$` replacement patterns.
- Engine.GenerateUrl: arguments are `Positional` or `Keyword`. Some JavaScript typing rules
  are not modelled:
  - `typeof null` and arrays count as objects;
  - falsy non-string positional values become `''`;
  - keyword order follows `Object.entries`, where integer-like keys come first.
- Engine.ImportTemplates: the code keeps a reference to the caller's object, so later
  changes to that object show through. The registry here is an immutable value copied at
  import time.
- Engine.GenerateMissingKeyword: requires the two names to differ, `id` not to be a strict
  prefix of `name` (replacement has no name boundary: `generateUrl('/u/:na/:name', {na: 'v'})`
  is `/u/v/vme`), `id` to be free of regex metacharacters and the value to be name characters
  without `$`. With a repeated name, `generateUrl('/u/:id/:id', {id: '7'})` is `/u/7/7`.
  `Engine.GenerateKeywordDefaults` covers all of these cases.
- Engine.ResolveByKey, Engine.ResolveForGenerate: `in` and `TEMPLATES[template]` also see
  inherited prototype keys such as `toString`. The registry is a plain map.
- Collections.Uniq, Collections.ZipObject: the `uniq` and `zipObject` helpers are not part of
  this model. They are taken to be first-occurrence de-duplication and positional pairing that
  stops at the shorter list. `Uniq` keeps first occurrences in order and `ZipObject` pairs by
  position; the round-trip lemmas use lists of equal length only. Engine.ReverseRepeatedValue
  and Engine.ReverseLetterExamples pair two keys with one value, so they rest on the stop at
  the shorter list; a `zipObject` that filled missing values with `undefined` would give
  `{a: x, b: undefined}` there.
- QueryString.PresentEntries: the `exists` helper is not part of this model. It is taken to mean
  "not `null` or `undefined`". A value is present as the text string interpolation gives it.
- QueryString.Collect: a key such as `__proto__` is an ordinary key here.
- Engine.ReverseUrl: the result is a list of pairs in template order. The object `zipObject`
  builds lists integer-like keys first (`/:b/:1` gives `{1: …, b: …}`), and a placeholder
  named `__proto__` does not become an ordinary key; neither effect is modelled.
- Characters are Dafny characters, not UTF-16 code units.
- The `arrayify` re-export in src/lib/transformers/index.js is not part of this model, and
  babel.config.js is build configuration.
