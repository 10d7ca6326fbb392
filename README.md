# inlay: a verified model of the template and macro inliner

inlay rewrites JavaScript sources by inlining templates and macros.

- A **template** is a function literal exported by a `.jst` file. Its body may
  mention its parameters as `${name}` and may invoke other templates as
  `@other(...)`.
- A **macro** is a function from an argument list to text. It is invoked as
  `$$name(...)`.
- **Loading** normalises each template file (`prep`). The three surface
  syntaxes become canonical markers: `__macro__[name][args]`,
  `__template__[name][args]` and `__args__(name)`.
- **Resolution** turns every exported function text into a `Template`. The
  state moves UNRESOLVED → RESOLVED → ACTIVE. A template waits for the
  templates it invokes, through one-time listeners on
  `template.<id>.resolved` events. When a dependency resolves, its expansion
  is inlined in place of every marker that names it. Once no template
  marker is left, the template's callable is registered and its own event is
  emitted, which may resolve the templates waiting on it in turn.
- **Validation** flips RESOLVED to ACTIVE, or reports the templates that
  never resolved.
- **Processing** rewrites each source text: template invocations first,
  then macro invocations, then a check that no canonical marker is left.

The model has six modules, one per concern:

| file | module | what it holds |
|---|---|---|
| text.dfy | `Results`, `Text` | `Option`/`Result`/`Outcome`; the JavaScript string built-ins the engine uses (`trim`, `indexOf`, `replace` with a string, `replace` with a global pattern) |
| tokenizer.dfy | `Tokenizer` | `escape`, `parseArgs`, `csvToArray` (lib/re.js) |
| scan.dfy | `Scan` | the token variables and their setters; one scanner per pattern; the `BaseRe` iterator as the `Matcher` class |
| objects.dfy | `Objects` | insertion-ordered dictionaries and `exportDefs` |
| expansion.dfy | `Expansion` | `assert*`, `applyMacros`, `prep`, and the expansion that `use` computes |
| resolution.dfy | `Resolution` | the module state of lib/templates.js as the `Inliner` class: options, raw exports, macros, the template registry, listeners and the warning/event log; `cacheRaw`, `resolve`, `dependencyResolved`, `resolved`, `createInstance`, `validate`, `processSrc` |

**Imperative code stays imperative.** Each loop of the source is a Dafny
loop, proved against a specification function:

- `Escape`, `ParseArgs`, `Matcher.Each`, `ExportDefs`, `ApplyMacros`,
  `RewritePass`/`Prep`, `Use`, `InlineUses`, `ExpandInvocations`,
  `Activate`, `ResolveAll`/`VisitDependencies`.

Module state that the source updates in place is held in classes:

- the token variables: `Scan.Tokens`;
- `BaseRe`: `Scan.Matcher`;
- everything in lib/templates.js: `Resolution.Inliner`.

Listeners are modelled as one FIFO sequence of (event, waiter) pairs.
Emitting an event removes all its listeners first, then runs their waiters
in order (Node drops each one only as it runs; this differs only after a
waiter fails, see "Left out"). The cascade terminates because each emit removes at least the
listeners it runs, and new listeners are only queued by `resolve`. So the
methods decrease `|pending|`.

**What the registry invariant states.** `Resolution.Inv` holds before and
after every resolution step:

- each template is filed under its own id;
- a template that is not UNRESOLVED has no `__template__[..][..]` marker left
  and has its callable registered;
- every registered callable belongs to such a template;
- listeners wait on word ids for known templates;
- the registry lists known templates once each;
- an event is emitted only once its callable is registered.

`Resolution.Progress` is the "states only move forward" relation. Under it,
ids and parameters are fixed, the rank of the state never drops, and a body
that has left UNRESOLVED never changes. Every method of `Inliner` ensures
`Progress(old(objs), objs)`.

## Model

| member | source | states |
|---|---|---|
| Text.Trim | lib/re.js:49 | the result has no white space at either end, and a string without any is returned unchanged |
| Text.TrimRemovesOnlyEnds | lib/re.js:49 | the input is the trimmed result with only white space before it and only white space after it |
| Text.IndexFrom | lib/templates.js:159 | the result is the first occurrence of the pattern at or after the start; there is no occurrence before it; none means there is no occurrence at all |
| Text.ReplaceAllAbsent | lib/templates.js:231-233 | a global replace of a text that does not occur leaves the string unchanged |
| Tokenizer.Escape | lib/re.js:25-36 | the loop builds `Escaped(s)`: each RE_CHARS character gets one backslash in front, and every other character is copied, left to right |
| Tokenizer.EscapedLength | lib/re.js:3-36 | the escaped length is the input length plus the number of RE_CHARS characters |
| Tokenizer.UnescapeEscaped | lib/re.js:25-36 | removing the added backslashes gives back the input exactly |
| Tokenizer.ParseArgs | lib/re.js:42-79 | array mode returns the depth-1 comma split of the argument span, trimmed, with empty pieces dropped. String mode returns the untrimmed span up to the first `)` that brings the depth to 0, or the whole input if there is none |
| Tokenizer.CsvToArray | lib/re.js:38-40 | the result is the array-mode result of `parseArgs` |
| Tokenizer.SpanEndIsFirstClose | lib/re.js:56-72 | the depth stays at least 1 until the span ends. When the span ends before the text does, the character there is `)` and the depth after it is 0 |
| Tokenizer.SpanEndCloses | lib/re.js:60-72 | a span that closes stops at its `)`, and the string result is exactly the text before that `)` |
| Tokenizer.ArgsIgnoreTrailingText | lib/re.js:67-72 | after the closing `)`, any text changes neither the string result nor the array result |
| Tokenizer.ArgsTrimmedNonEmpty | lib/re.js:48-54 | every argument of the array is non-empty, has no white space at either end, and is the trimmed text of one of the depth-1 pieces. When no piece is blank, the arguments are exactly the trimmed pieces, one for one and in order |
| Tokenizer.PiecesKeepNested | lib/re.js:56-66 | a stretch in which every comma is read at a depth other than 1 goes whole into the current argument, and the depth moves by that stretch's balance |
| Tokenizer.JoinPieces | lib/re.js:56-74 | joining the depth-1 pieces with commas gives back the scanned text, so the split loses no character |
| Tokenizer.NestedCommaExample | lib/re.js:56-66 | `csvToArray("g(1,2),3)")` is `["g(1,2)", "3"]` |
| Scan.Tokens.constructor | lib/re.js:4-7 | the defaults: tokens `@` and `$$`, fragments `\@` and `\$\$`; the macro fragment is the escape of its token |
| Scan.Tokens.SetTemplateToken | lib/re.js:9-15 | afterwards the getter returns `t`, the invoke fragment is `escape(t)`, and the macro token and fragment are unchanged |
| Scan.Tokens.SetMacroToken | lib/re.js:17-23 | afterwards the getter returns `t`, the macro fragment is `escape(t)`, and the invoke token and fragment are unchanged |
| Scan.InvokeAt | lib/re.js:163-164 | an invocation match starts at the scan point, ends inside the text, is the text it spans, and has two groups |
| Scan.ArgumentAtShape | lib/re.js:198-203 | an argument match is `${`, then a word (its one group), then `}` |
| Scan.ArgumentAtFromText | lib/re.js:198-203 | conversely, `${` + word + `}` anywhere is an argument match there, capturing the word |
| Scan.MarkerAtShape | lib/re.js:205-219 | a `__macro__`/`__template__` marker match is the prefix, a word (group 0), `][`, a text without `]` (group 1), then `]` |
| Scan.NamedAtShape | lib/re.js:221-227 | a marker match for a given id is `__template__[` + id + `][`, a text without `]` (its one group), then `]` |
| Scan.NamedAtFromText | lib/re.js:221-227 | conversely, that prefix, a text without `]` and `]` anywhere is a match for the id there, capturing the text |
| Scan.MarkerIsNamed | lib/re.js:214-227 | a template-marker match naming an id is a match for that id at the same place, with the same text, capturing the same arguments |
| Scan.FunctionAtShape | lib/re.js:146-147 | a function-literal match is `function`, white space, `(`, a parameter text without `)` (group 0), `)`, white space, `{`, carriage returns, line feeds, then the rest of the text (group 1) |
| Scan.FunctionAtFromText | lib/re.js:146-147 | conversely, `function`, white space, `(`, a text without `)`, `)`, white space and `{` anywhere is a function-literal match there, with that text as its parameter group |
| Scan.InvokeAtShape | lib/re.js:164 | an invocation match is the token, then a word (group 0), then `(`, and group 1 is the whole rest of the text |
| Scan.Find | lib/re.js:114-124 | `exec` from a scan position returns the leftmost match at or after it, and no position before it matches. None means no position matches |
| Scan.AllMatches | lib/re.js:136-144 | the matches come in order without overlap, each is the match at its own start, the list is empty iff the first `exec` fails, and the first element is the leftmost match |
| Scan.Matcher.constructor | lib/re.js:81-115 | construction runs `exec` once from position 0: the current match is the leftmost, and the scan position is its end, or 0 when there is none |
| Scan.Matcher.Next | lib/re.js:121-124 | the current match becomes the leftmost one at or after the old scan position. The position moves to its end, or back to 0 when `exec` fails |
| Scan.Matcher.Reset | lib/re.js:126-134 | afterwards there is no current match and the scan position is 0 |
| Scan.Matcher.Each | lib/re.js:136-144 | the visits are exactly the successive matches, from position 0 (or from the current position), until `exec` fails. Afterwards there is no current match and the position is 0 |
| Scan.FunctionBody | lib/re.js:149-158 | a body text ending in `}` gives that text without exactly its last two characters, and one shorter than two characters gives null. Any other text throws a ReferenceError naming `i`, the undeclared variable the scan decrements |
| Scan.InvocationVisitsAtMostOnce | lib/re.js:163-196 | an invocation pass visits at most one match, and that match ends at the end of the text |
| Scan.InvocationVisitsOnly | lib/re.js:163-196 | when there is an invocation, the pass visits exactly the leftmost one |
| Scan.InvokeTextIsSource | lib/re.js:172-177 | when the parentheses balance, the rebuilt `match()` (token + name + `(` + raw arguments + `)`) is the source text at the match |
| Scan.InvokeAtFromText | lib/re.js:164 | token + word + `(` anywhere in the text is an invocation match there |
| Scan.InvocationFirstOccurrence | lib/re.js:163-196 | for both invocation kinds, the rebuilt text of the leftmost balanced invocation first occurs at the match itself, so `replace` rewrites that invocation |
| Scan.LeftmostInvocation | lib/re.js:163-196 | a balanced leftmost invocation is the only visit, and its rebuilt text first occurs where it was matched |
| Scan.NamedIsMarker | lib/re.js:214-227 | a marker match for a word id is also a generic template-marker match |
| Scan.NoMarkerNoNamedUse | lib/re.js:214-227 | a body with no template marker has no marker for any id |
| Scan.NoTemplateTextNoMarker | lib/re.js:214-220 | text without `__template__` has no template marker |
| Scan.MarkerAtFromText | lib/re.js:206-220 | prefix + word + `][` + text without `]` + `]` is a marker match naming that word |
| Objects.EmptyDict | lib/templates.js:39 | the empty dictionary is well formed and has no keys |
| Objects.AbsentMembers | lib/templates.js:97-105 | the keys that are new to the destination are exactly the source keys it lacks |
| Objects.PresentMembers | lib/templates.js:100-102 | the overwritten keys are exactly the source keys the destination already has |
| Objects.ExportDefs | lib/templates.js:97-105 | after the merge: every source key carries the source value; destination keys absent from the source are unchanged; new keys are appended in source order; the warnings name exactly the keys that were already present, in order |
| Expansion.CheckMarker | lib/templates.js:157-179 | the check passes iff the marker text does not occur. A failure names the marker and reports its first index |
| Expansion.CheckBody | lib/templates.js:181-185 | the check passes iff none of `__macro__`, `__template__`, `__args__` occurs. They are checked in that order, and the failure reports the first index of the first one that occurs |
| Expansion.ApplyMacros | lib/templates.js:204-214 | the loop computes the macro pass over the matches of the original text, replacing in the working copy |
| Expansion.MacroPassFails | lib/templates.js:204-214 | the pass fails iff validation is on and some visited macro is unknown. The failure names the first unknown macro |
| Expansion.MacroPassFirstUnknown | lib/templates.js:206-207 | when validating, the first unknown macro visited is the one reported |
| Expansion.MacroPassKeepsUnknown | lib/templates.js:206-211 | with validation off, unknown macros leave the text untouched |
| Expansion.MacroInvocationInPlace | lib/templates.js:208-210 | a known macro whose invocation text first occurs at its match is replaced there by its output on the tokenized arguments |
| Expansion.MacroPassOne | lib/templates.js:208-210 | a known macro replaces the first occurrence of its match text with its output |
| Expansion.RewritePass | lib/templates.js:127-142 | one normalising pass replaces each visited match by its canonical marker, by first occurrence |
| Expansion.Prep | lib/templates.js:126-145 | `prep` runs the macro pass, then the template pass, then the argument pass, each on the previous output. In the output every `${name}` of the template pass's output has become `__args__(name)` and no `${name}` is left |
| Expansion.ArgumentPassReplacesAll | lib/templates.js:139-142 | the argument pass replaces every `${name}`, left to right, with `__args__(name)` and keeps every other character, so its output holds no `${name}` |
| Expansion.RewriteArgsFrom | lib/templates.js:139-142 | from any visit on, the pass appends the rewriting of the rest of the text to the part already rewritten, and no `${name}` starts anywhere in the result |
| Expansion.PrepKeepsPlainText | lib/templates.js:126-145 | text with none of the three surface forms is returned unchanged |
| Expansion.InvocationPassInPlace | lib/templates.js:127-137 | a balanced invocation is replaced in place by its canonical marker (name and raw arguments) |
| Expansion.RewriteSingle | lib/templates.js:139-142 | a match whose text first occurs at its start is rewritten in place |
| Expansion.CanonicalIsMarker | lib/templates.js:133-137 | the canonical form of a template invocation with no `]` in its arguments is recognised as a template marker naming the same template |
| Expansion.ExpandedActiveIsClean | lib/templates.js:238-240 | an ACTIVE template's successful expansion contains none of the three marker texts |
| Expansion.SubstitutedTotal | lib/templates.js:227-234 | with validation off, argument substitution never fails |
| Expansion.ExpandedTotal | lib/templates.js:224-242 | with validation off, `use` on a non-ACTIVE template never fails |
| Expansion.SubstitutedPlain | lib/templates.js:227-234 | a body with no `__args__` is unchanged by substitution |
| Resolution.Use | lib/templates.js:224-242 | the loop computes the expansion: each argument is macro-expanded and substituted for all occurrences of its placeholder, in parameter order, then canonical macros are expanded, then the body is checked only when ACTIVE. The template is taken by value, so its body is not changed |
| Resolution.InlineUses | lib/templates.js:264-268 | the loop replaces every marker naming the dependency with the dependency's expansion on its arguments; it fails exactly when an expansion fails, with that error |
| Resolution.ExpandInvocations | lib/templates.js:354-361 | the loop computes the template pass over the visited invocations: unknown when validating is an error; a registered template is expanded in place; an unregistered one is otherwise skipped |
| Resolution.ProcessSource | lib/templates.js:354-367 | the rewrite of one source is the template pass, then the macro pass, then the marker check when validating |
| Resolution.ProcessSources | lib/templates.js:347-381 | on success each output is the rewrite of its source. On failure, the error is the one of the first source whose rewrite fails |
| Resolution.InvocationExpandedInPlace | lib/templates.js:357-359 | a registered template's invocation is replaced in place by its expansion |
| Resolution.ProcessedIsClean | lib/templates.js:365-367 | a successful validated rewrite contains none of the three marker texts |
| Resolution.ProcessedUnknownTemplate | lib/templates.js:355-356 | when validating, an invocation of an unregistered template fails with that template's name |
| Resolution.Waiters | lib/templates.js:201 | every waiter returned is one listening on that event |
| Resolution.Remaining | lib/templates.js:201 | the listeners left after an emit are those on other events, and together with the waiters they account for every listener |
| Resolution.WaitersListed | lib/templates.js:201 | each waiter comes from a queued listener on the event |
| Resolution.WaitersOnWords | lib/templates.js:290 | an event with listeners is a word id |
| Resolution.Queue | lib/templates.js:280-291 | one listener per dependency occurrence, in order; a dependency named twice queues two |
| Resolution.Dependencies | lib/templates.js:280-281 | every dependency id read from a body is a word |
| Resolution.MarkerNameIsWord | lib/re.js:215 | a template-marker match names a word |
| Resolution.Warnings | lib/templates.js:100-102 | one `already defined` warning per key, in order |
| Resolution.ProgressTrans | lib/templates.js:254 | moving forward is transitive |
| Resolution.ResolvedKeepsInv | lib/templates.js:253-256 | marking a settled template RESOLVED and registering it keeps the invariant and moves forward |
| Resolution.BodyKeepsInv | lib/templates.js:266 | rewriting an UNRESOLVED body keeps the invariant |
| Resolution.EmitKeepsInv | lib/templates.js:201 | emitting a registered id and dropping its listeners keeps the invariant |
| Resolution.QueueKeepsInv | lib/templates.js:290 | queuing a listener for a known waiter on a word id keeps the invariant |
| Resolution.WarningsKeepInv | lib/templates.js:100-102 | logging warnings keeps the invariant |
| Resolution.LogKeepsInv | lib/templates.js:189 | logging any non-emit event keeps the invariant |
| Resolution.NewKeepsInv | lib/templates.js:216-221 | filing a fresh UNRESOLVED template keeps the invariant |
| Resolution.FileKeepsInv | lib/templates.js:311-312 | listing a known id in the registry keeps the invariant |
| Resolution.ActivatedKeepsInv | lib/templates.js:400-407 | activating the registry keeps the invariant and moves forward with the same ids |
| Resolution.ReadyUnaffected | lib/templates.js:285-312 | a template under construction is not in the registry, so adding it changes no readiness: a template never sees itself there |
| Resolution.ProgressExtend | lib/templates.js:216-222 | progress from the map extended by a new template is progress from the original map |
| Resolution.ActivatedStep | lib/templates.js:400-407 | visiting one more id activates it iff it is RESOLVED |
| Resolution.Activate | lib/templates.js:397-407 | the loop computes the activated registry and the ids that are not RESOLVED, in key order |
| Resolution.UnfinishedMembers | lib/templates.js:402-403 | the reported ids are exactly the listed ids whose template is not RESOLVED |
| Resolution.ValidatedAllActive | lib/templates.js:397-412 | when nothing is unfinished, every template is ACTIVE afterwards |
| Resolution.ActivatedProgress | lib/templates.js:402-406 | activation only moves states forward, and a template that is not RESOLVED is untouched |
| Resolution.FiledStep | lib/templates.js:310-313 | one more iteration of `resolve` files one more id, in key order |
| Resolution.FiledAll | lib/templates.js:306-314 | after all keys, the registry is extended by the keys in order, and the templates are the old ones plus one per key |
| Resolution.CompleteAfter | lib/templates.js:306-314 | after `resolve`, every constructed template is in the registry |
| Resolution.SettledHasNoUses | lib/templates.js:264-268 | a body with no template marker uses no dependency, and inlining leaves it unchanged |
| Resolution.InlinedTotal | lib/templates.js:264-268 | with validation off and a non-ACTIVE dependency, inlining never fails |
| Resolution.SubstitutedSticks | lib/templates.js:227-234 | once substituting an argument fails, so does substituting all of them, with the same error |
| Resolution.Inliner.constructor | lib/templates.js:26-33 | the default options and tokens, with no macros, exports, templates, listeners or log |
| Resolution.Inliner.SetOption | lib/templates.js:54-61 | the key gets the new value and other keys are unchanged. `invoke` and `macro` also set the matching token and its escaped fragment; nothing else changes |
| Resolution.Inliner.CacheRaw | lib/templates.js:107-124 | macros and raw exports are each merged last-writer-wins. The log gains one warning per overwritten macro, then one per overwritten export; the registry is untouched |
| Resolution.Inliner.MarkResolved | lib/templates.js:187-202 | the template becomes RESOLVED with its body and callable registered. An overwrite warning is logged when it was registered already, then its event is emitted; the invariant is kept |
| Resolution.Inliner.Emit | lib/templates.js:201 | the emit is logged, the invariant is kept and no listener is added; with no waiter nothing else changes |
| Resolution.Inliner.DependencyResolved | lib/templates.js:261-277 | the body is replaced by its inlining. A failed expansion is an error. If `__template__` text remains, nothing else changes. Otherwise the template becomes RESOLVED with the inlined body, and the log gains an overwrite warning when its callable was registered already, then its emit. The state is never checked, so this can resolve a template twice |
| Resolution.Inliner.Recheck | lib/templates.js:269-276 | with `__template__` text left nothing changes; otherwise the template becomes RESOLVED with its body, and the log gains an overwrite warning when its callable was registered already, then its emit |
| Resolution.Inliner.Resolve | lib/templates.js:244-294 | a template that is not UNRESOLVED only logs a warning. A settled body becomes RESOLVED. When no dependency is ready, one listener per dependency occurrence is queued and nothing else changes. When every dependency is ready and nobody waits on the template, each is inlined at once, in order: a failing expansion fails the whole inlining with its error, and otherwise the body is the successive inlining, the template is RESOLVED and registered iff no `__template__` text is left, and no other template, listener or registration changes |
| Resolution.Inliner.VisitDependencies | lib/templates.js:280-292 | with no dependency ready, exactly one listener per occurrence is queued, in order, and nothing else changes. With all ready, no listener is added; when moreover the template is UNRESOLVED and nobody waits on it, each dependency is inlined at once as `Resolve` states |
| Resolution.Inliner.NewTemplate | lib/templates.js:216-222 | the new template starts UNRESOLVED with the given parameters and body, and is resolved at once: settled bodies become RESOLVED |
| Resolution.Inliner.CreateInstance | lib/templates.js:296-304 | text that is not a function literal is an invalid definition and changes nothing. A literal whose body scan throws fails with that ReferenceError and changes nothing. Otherwise the template is built UNRESOLVED with the split parameters and the scanned body (the body text without its last two characters, or null), then resolved. A settled body becomes RESOLVED and registered. A body whose dependencies are all not ready is filed exactly as built, with one listener queued per dependency occurrence, and nothing else changes |
| Resolution.Inliner.AddTemplate | lib/templates.js:311-312 | on success, the id is appended to the registry after its template was constructed from the raw text: its body scan did not throw, its parameters are the literal's split parameter text, and its body is null iff the text after `{` is shorter than two characters |
| Resolution.Inliner.ResolveAll | lib/templates.js:306-314 | on success, every raw key is appended to the registry, in key order, and its template is built from its raw text without a throwing body scan: the literal's split parameters, and a null body exactly for a text after `{` shorter than two characters |
| Resolution.Inliner.Validate | lib/templates.js:397-412 | every RESOLVED template becomes ACTIVE and nothing else changes. The result fails iff some template is not RESOLVED, listing exactly those ids in key order |
| Resolution.Inliner.ProcessText | lib/templates.js:354-367 | the in-memory rewrite of one source under the current registry, macros, tokens and validation option |
| Resolution.Inliner.Prepare | lib/templates.js:428-445 | after `resolve` (and `validate` when validating) succeeds, every raw key is registered in order, and every template is ACTIVE when validating |
| Resolution.Inliner.ProcessAll | lib/templates.js:347-381 | each source is rewritten in turn; the first failure stops processing and is reported |

## Left out

- File system and process plumbing: `mkdirs`, `visit`, `load`, `loadTemplate`, and the file reads and writes in `processSrc`. Lists of source texts stand in for directories.
- Timing, `console` output and `debug`: these do not affect the result. `warn` is modelled as events in the `trace` log.
- `Module._compile` and `js-beautify`: these are foreign calls. Raw exports enter as `(id, function text)` pairs through `CacheRaw`, and outputs are the texts before beautifying.
- The `errors` library: TemplateErrors are the `Failure` results of the methods.
- The Node `EventEmitter`: it is the FIFO listener queue described above.
- Macro bodies: they are total functions from an argument list to text.
- `exports.macros` starts as an empty dictionary, rather than being undefined until a file defines macros.
- `rawExports` starts as an empty dictionary. In the source it stays undefined until a template module is loaded, so `resolve()` then throws a TypeError at `Object.keys` (lib/templates.js:307); the model's `ResolveAll` and `Prepare` pass.
- Lookups in plain JavaScript objects also find `Object.prototype` members. The registries are modelled as maps that hold only what was defined:
  - `exports.macros[name]` (lib/templates.js:206-210): `$$toString(x)` calls `Object.prototype.toString` in the source, while the model reports an unknown macro when validating and leaves the marker otherwise;
  - `exports.templates[name]` (lib/templates.js:188, 355-358): an invocation of `@constructor(...)` in a source calls `Object` on the argument array in the source, while the model treats it as unregistered: an error when validating, left in place otherwise;
  - `templates[dependId]` (lib/templates.js:285): a template that invokes `@constructor()` finds a truthy entry that is not UNRESOLVED, so the source calls `dependencyResolved` at once, which inlines nothing, and queues no listener; the model queues one.
- General JavaScript regular expressions: each pattern has a hand-written scanner instead.
  - The invocation scanners match their token literally. The source builds a regular expression from the escaped token, so a token holding a special character that RE_CHARS lacks (`|` or `\`) would be read as pattern syntax there.
  - For the same reason, parameter names and dependency ids are matched as literal text.
- `String.prototype.replace` treats `$` patterns in the replacement text specially. The model treats replacement text as literal.
- The dynamic installation of accessor methods on `BaseRe` prototypes: accessors are functions on a match.
- `VariableRe`, `isTemplate`, the `each` helper's array dispatch, and the implicit globals `flags` and `template`.
- Expansion.CheckMarker, Expansion.CheckBody: strings are sequences of Unicode code points, so the reported index counts code points. JavaScript's `indexOf` counts UTF-16 code units, which differs after any character outside the Basic Multilingual Plane. Lone surrogates cannot occur in the model's strings.
- Integer-like template ids: JavaScript `Object.keys` lists them first. The model uses insertion order.
- Scan.FunctionBody: a body text shorter than two characters gives null (`None`). Such a template has `isNull` set: `Use` fails with `NullBody` when it is ACTIVE or called with arguments, where the source throws a TypeError (`null.indexOf` in `assertBody`, `null.replace` after the first argument's macros). Otherwise its body reads as the text "null", which is what `replace` inserts for it.
- Resolution.Inliner.CreateInstance, Resolution.Inliner.AddTemplate, Resolution.Inliner.ResolveAll, Resolution.Inliner.Prepare: each requires raw ids that are not already templates. The source runs `resolve()` once per process.
- Resolution.Inliner.ResolveAll, Resolution.Inliner.Prepare: on failure the contract states only the invariant and forward progress, not which templates were constructed before the error.
- Resolution.Inliner.Resolve, Resolution.Inliner.VisitDependencies: when some dependencies are ready and others are not, or when all are ready but some template already waits on this one, the contract keeps the invariant but does not describe the exact result.
- Resolution.Inliner.Resolve, Resolution.Inliner.VisitDependencies: when every dependency is ready and nobody waits on the template, the log is not stated. The source logs an emit on the visit that resolves the template, then an overwrite warning and another emit on each later visit, because `dependencyResolved` does not check the state.
- Resolution.Inliner.CreateInstance: when some or all dependencies are ready, the body the template is left with is not stated, for the same reasons as for `Resolve` and `NewTemplate`.
- Resolution.Inliner.NewTemplate: when every dependency is ready, the contract keeps the invariant and moves forward; the inlining itself is stated by `Resolve`, which it calls.
- Resolution.Inliner.ResolveAll: of each new template's body, only whether it is null is stated, because inlining rewrites it while later keys are constructed. `CreateInstance` states the body a template starts with when it is settled or none of its dependencies is ready.
- Resolution.Inliner.Emit: all listeners of the event are dropped before the first waiter runs. Node's `once` removes each listener only just before calling it, so after a waiter throws, the waiters not yet run stay registered in the source. The error ends `process()` either way.
- Resolution.Inliner.Emit, Resolution.Inliner.MarkResolved: when the event has waiters, the contract states that the emit is logged and the invariant is kept, not the waiters' effects.
- Resolution.Inliner.DependencyResolved: the inlining works on a copy of the body that is then stored. The source assigns `self.body` after each replacement, with the same net result.
- Resolution.Use: `use` is given the template value. The callable that `resolved` registers is not a separate closure: it is `Use` on the registry's current template.

**Behaviour of the code worth noting:**

- Canonical-marker arguments go through `csvToArray`, whose nesting counter counts parentheses, not brackets.
- String-mode `parseArgs` returns the span untrimmed.
- The invocation patterns end in `([^]*)`. So each normalising pass and each processing pass visits at most one invocation, the leftmost, rather than every one.
