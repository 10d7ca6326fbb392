/** The text transforms of lib/templates.js that do not depend on the
    template registry: the
    completeness checks `assert*`, the macro expander `applyMacros`, the
    normaliser `prep`, and the expansion a template's `use` performs. */
module Expansion {
  import opened Results
  import opened Text
  import Tokenizer
  import opened Scan
  import opened Objects

  /** The TemplateErrors the engine raises, the TypeError of a string
      method called on a null template body (`NullBody`), and the
      ReferenceError of a variable declared nowhere (`Undefined`). */
  datatype Failure =
    | UnknownMacro(name: string)
    | UnknownTemplate(name: string)
    | Unreplaced(marker: string, index: nat)
    | InvalidDefinition(text: string)
    | UnresolvedTemplates(ids: seq<string>)
    | NullBody
    | Undefined(name: string)

  /** A macro: any total function from an argument list to text. */
  type Macro = seq<string> -> string

  // ---------------------------------------------------------------------
  // Completeness checks
  // ---------------------------------------------------------------------

  const MacroMarkerText: string := "__macro__"
  const TemplateMarkerText: string := "__template__"
  const ArgsMarkerText: string := "__args__"

  /** `assertMacroUse`, `assertTemplateUse`, `assertArgUse`: fail at the first
      occurrence of the marker text. */
  function CheckMarker(body: string, marker: string): (r: Outcome<Failure>)
    ensures r.Pass? <==> !Contains(body, marker)
    ensures r.Fail? ==>
      && r.error.Unreplaced? && r.error.marker == marker
      && StartsAt(body, r.error.index, marker)
      && forall j :: 0 <= j < r.error.index ==> !StartsAt(body, j, marker)
  {
    match IndexOf(body, marker)
    case Some(i) => Fail(Unreplaced(marker, i))
    case None => Pass
  }

  /** `assertBody`: passes iff no marker of any kind is left; otherwise it
      reports the first kind found, checking macros, then templates, then
      arguments. */
  function CheckBody(body: string): (r: Outcome<Failure>)
    ensures r.Pass? <==>
      !Contains(body, MacroMarkerText) && !Contains(body, TemplateMarkerText) && !Contains(body, ArgsMarkerText)
    ensures r.Fail? ==> r.error.Unreplaced? && StartsAt(body, r.error.index, r.error.marker)
    ensures r.Fail? && Contains(body, MacroMarkerText) ==> r == Fail(Unreplaced(MacroMarkerText, IndexOf(body, MacroMarkerText).value))
    ensures r.Fail? && !Contains(body, MacroMarkerText) && Contains(body, TemplateMarkerText) ==>
      r == Fail(Unreplaced(TemplateMarkerText, IndexOf(body, TemplateMarkerText).value))
    ensures r.Fail? && !Contains(body, MacroMarkerText) && !Contains(body, TemplateMarkerText) ==>
      r == Fail(Unreplaced(ArgsMarkerText, IndexOf(body, ArgsMarkerText).value))
  {
    var m := CheckMarker(body, MacroMarkerText);
    if m.Fail? then m
    else
      var t := CheckMarker(body, TemplateMarkerText);
      if t.Fail? then t
      else CheckMarker(body, ArgsMarkerText)
  }

  // ---------------------------------------------------------------------
  // Macro expansion
  // ---------------------------------------------------------------------

  /** The visits of `applyMacros` over the matches `ms` of the original text,
      with `out` the progressively rewritten copy. */
  function MacroPass(out: string, k: Kind, ms: seq<Match>, macros: Dict<Macro>, validate: bool): Result<string, Failure>
    decreases |ms|
  {
    if ms == [] then Ok(out)
    else
      var name := Name(ms[0]);
      if name !in macros.vals && validate then Err(UnknownMacro(name))
      else if name in macros.vals then
        MacroPass(ReplaceFirst(out, MatchText(k, ms[0]), macros.vals[name](Params(k, ms[0]))), k, ms[1..], macros, validate)
      else MacroPass(out, k, ms[1..], macros, validate)
  }

  lemma MacroPassStep(out: string, k: Kind, ms: seq<Match>, i: nat, macros: Dict<Macro>, validate: bool)
    requires i < |ms|
    ensures MacroPass(out, k, ms[i..], macros, validate) ==
      var name := Name(ms[i]);
      if name !in macros.vals && validate then Err(UnknownMacro(name))
      else if name in macros.vals then
        MacroPass(ReplaceFirst(out, MatchText(k, ms[i]), macros.vals[name](Params(k, ms[i]))), k, ms[i + 1..], macros, validate)
      else MacroPass(out, k, ms[i + 1..], macros, validate)
  {
    SuffixStep(ms, i);
  }

  /** The first match whose macro is not registered. */
  predicate UnknownAt(ms: seq<Match>, macros: Dict<Macro>, i: nat) {
    i < |ms| && Name(ms[i]) !in macros.vals && forall j :: 0 <= j < i ==> Name(ms[j]) in macros.vals
  }

  /** `applyMacros(src, Macro)`: matches are taken from the original text;
      each known macro replaces the first occurrence of its match text. */
  method ApplyMacros(src: string, k: Kind, macros: Dict<Macro>, validate: bool) returns (r: Result<string, Failure>)
    ensures r == MacroPass(src, k, AllMatches(k, src, 0), macros, validate)
  {
    var matcher := new Matcher(k, src);
    var visits := matcher.Each(false);
    var out := src;
    for i := 0 to |visits|
      invariant MacroPass(out, k, visits[i..], macros, validate) == MacroPass(src, k, visits, macros, validate)
    {
      var m := visits[i];
      MacroPassStep(out, k, visits, i, macros, validate);
      var name := Name(m);
      if name !in macros.vals && validate {
        return Err(UnknownMacro(name));
      } else if name in macros.vals {
        out := ReplaceFirst(out, MatchText(k, m), macros.vals[name](Params(k, m)));
      }
    }
    return Ok(out);
  }

  /** A pass fails iff validation is on and some visited macro is unknown,
      and then it names the first such macro. */
  lemma {:induction false} MacroPassFails(out: string, k: Kind, ms: seq<Match>, macros: Dict<Macro>, validate: bool)
    ensures MacroPass(out, k, ms, macros, validate).Err? <==>
      validate && exists i :: 0 <= i < |ms| && Name(ms[i]) !in macros.vals
    ensures forall i: nat :: UnknownAt(ms, macros, i) && validate ==>
      MacroPass(out, k, ms, macros, validate) == Err(UnknownMacro(Name(ms[i])))
    decreases |ms|
  {
    if ms != [] {
      var name := Name(ms[0]);
      var next := if name in macros.vals then ReplaceFirst(out, MatchText(k, ms[0]), macros.vals[name](Params(k, ms[0]))) else out;
      MacroPassFails(next, k, ms[1..], macros, validate);
      UnknownCons(ms, macros);
    }
    forall i: nat | UnknownAt(ms, macros, i) && validate
      ensures MacroPass(out, k, ms, macros, validate) == Err(UnknownMacro(Name(ms[i])))
    {
      MacroPassFirstUnknown(out, k, ms, macros, i);
    }
  }

  /** Some match of a non-empty list names an unknown macro iff the first
      one does or one of the rest does. */
  lemma UnknownCons(ms: seq<Match>, macros: Dict<Macro>)
    requires ms != []
    ensures (exists i :: 0 <= i < |ms| && Name(ms[i]) !in macros.vals) <==>
      Name(ms[0]) !in macros.vals || exists i :: 0 <= i < |ms[1..]| && Name(ms[1..][i]) !in macros.vals
  {
    if exists i :: 0 <= i < |ms| && Name(ms[i]) !in macros.vals {
      var i :| 0 <= i < |ms| && Name(ms[i]) !in macros.vals;
      if i > 0 {
        assert Name(ms[1..][i - 1]) !in macros.vals;
      }
    }
    if exists i :: 0 <= i < |ms[1..]| && Name(ms[1..][i]) !in macros.vals {
      var i :| 0 <= i < |ms[1..]| && Name(ms[1..][i]) !in macros.vals;
      assert Name(ms[i + 1]) !in macros.vals;
    }
  }

  /** With validation on, a pass stops at the first unknown macro and names it. */
  lemma {:induction false} MacroPassFirstUnknown(out: string, k: Kind, ms: seq<Match>, macros: Dict<Macro>, i: nat)
    requires UnknownAt(ms, macros, i)
    ensures MacroPass(out, k, ms, macros, true) == Err(UnknownMacro(Name(ms[i])))
    decreases i
  {
    if i > 0 {
      UnknownAtTail(ms, macros, i);
      var next := MacroPassKnownHead(out, k, ms, macros);
      MacroPassFirstUnknown(next, k, ms[1..], macros, i - 1);
      assert ms[1..][i - 1] == ms[i];
    } else {
      MacroPassStep(out, k, ms, 0, macros, true);
      assert ms[0..] == ms;
    }
  }

  /** A pass whose first macro is registered goes on with the text that macro's expansion yields. */
  lemma MacroPassKnownHead(out: string, k: Kind, ms: seq<Match>, macros: Dict<Macro>) returns (next: string)
    requires ms != [] && Name(ms[0]) in macros.vals
    ensures next == ReplaceFirst(out, MatchText(k, ms[0]), macros.vals[Name(ms[0])](Params(k, ms[0])))
    ensures MacroPass(out, k, ms, macros, true) == MacroPass(next, k, ms[1..], macros, true)
  {
    next := ReplaceFirst(out, MatchText(k, ms[0]), macros.vals[Name(ms[0])](Params(k, ms[0])));
  }

  lemma UnknownAtTail(ms: seq<Match>, macros: Dict<Macro>, i: nat)
    requires UnknownAt(ms, macros, i) && i > 0
    ensures Name(ms[0]) in macros.vals && UnknownAt(ms[1..], macros, i - 1)
  {
    assert forall j :: 0 <= j < i - 1 ==> ms[1..][j] == ms[j + 1];
  }

  /** With validation off, markers of unknown macros are left untouched. */
  lemma {:induction false} MacroPassKeepsUnknown(out: string, k: Kind, ms: seq<Match>, macros: Dict<Macro>)
    requires forall i :: 0 <= i < |ms| ==> Name(ms[i]) !in macros.vals
    ensures MacroPass(out, k, ms, macros, false) == Ok(out)
    decreases |ms|
  {
    if ms != [] {
      MacroPassKeepsUnknown(out, k, ms[1..], macros);
    }
  }

  /** The macro pass over a single visit `m`, when it is the first
      occurrence of its text and its macro is registered, replaces it in
      place with the macro's output. `LeftmostInvocation` shows that the
      leftmost balanced invocation is such a single visit. */
  lemma MacroInvocationInPlace(src: string, k: Kind, ms: seq<Match>, m: Match, macros: Dict<Macro>, validate: bool)
    requires ms == [m] && Name(m) in macros.vals
    requires IndexOf(src, MatchText(k, m)) == Some(m.start)
    ensures m.start + |MatchText(k, m)| <= |src|
    ensures MacroPass(src, k, ms, macros, validate) ==
      Ok(src[..m.start] + macros.vals[Name(m)](Params(k, m)) + src[m.start + |MatchText(k, m)|..])
  {
    var text := MatchText(k, m);
    var output := macros.vals[Name(m)](Params(k, m));
    ReplaceFirstAt(src, text, output, m.start);
    MacroPassOne(src, k, m, macros, validate);
  }

  lemma MacroPassOne(out: string, k: Kind, m: Match, macros: Dict<Macro>, validate: bool)
    requires Name(m) in macros.vals
    ensures MacroPass(out, k, [m], macros, validate) == Ok(ReplaceFirst(out, MatchText(k, m), macros.vals[Name(m)](Params(k, m))))
  {
    assert [m][1..] == [];
  }

  // ---------------------------------------------------------------------
  // Normalisation (prep)
  // ---------------------------------------------------------------------

  /** The canonical marker `prep` writes for one visit. */
  function Canonical(k: Kind, m: Match): string {
    match k
    case MacroInvoke(_) => MacroPrefix + Name(m) + "][" + RawParams(m) + "]"
    case Invoke(_) => TemplatePrefix + Name(m) + "][" + RawParams(m) + "]"
    case _ => ArgMarker(Name(m))
  }

  /** The placeholder `__args__(name)` a parameter is substituted into. */
  function ArgMarker(name: string): string {
    ArgsMarkerText + "(" + name + ")"
  }

  /** One `prep` pass over visits `ms`: each replaces the first occurrence of
      its match text with its canonical marker. */
  function Rewrite(out: string, k: Kind, ms: seq<Match>): string
    decreases |ms|
  {
    if ms == [] then out
    else Rewrite(ReplaceFirst(out, MatchText(k, ms[0]), Canonical(k, ms[0])), k, ms[1..])
  }

  lemma RewriteStep(out: string, k: Kind, ms: seq<Match>, i: nat)
    requires i < |ms|
    ensures Rewrite(out, k, ms[i..]) == Rewrite(ReplaceFirst(out, MatchText(k, ms[i]), Canonical(k, ms[i])), k, ms[i + 1..])
  {
    SuffixStep(ms, i);
  }

  function RewriteAll(s: string, k: Kind): string {
    Rewrite(s, k, AllMatches(k, s, 0))
  }

  /** What `prep` returns: macro invocations, then template invocations, then
      argument placeholders, each pass scanning the output of the one before. */
  function Normalised(s: string, macroToken: string, invokeToken: string): string {
    RewriteAll(RewriteAll(RewriteAll(s, MacroInvoke(macroToken)), Invoke(invokeToken)), Arguments)
  }

  method RewritePass(s: string, k: Kind) returns (r: string)
    ensures r == RewriteAll(s, k)
  {
    var matcher := new Matcher(k, s);
    var visits := matcher.Each(false);
    r := s;
    for i := 0 to |visits|
      invariant Rewrite(r, k, visits[i..]) == RewriteAll(s, k)
    {
      RewriteStep(r, k, visits, i);
      r := ReplaceFirst(r, MatchText(k, visits[i]), Canonical(k, visits[i]));
    }
  }

  /** `prep(str)`. */
  method Prep(s: string, macroToken: string, invokeToken: string) returns (r: string)
    ensures r == Normalised(s, macroToken, invokeToken)
    ensures r == ArgsFrom(RewriteAll(RewriteAll(s, MacroInvoke(macroToken)), Invoke(invokeToken)), 0)
    ensures Find(Arguments, r, 0).None?
  {
    r := RewritePass(s, MacroInvoke(macroToken));
    r := RewritePass(r, Invoke(invokeToken));
    ArgumentPassReplacesAll(r);
    r := RewritePass(r, Arguments);
  }

  /** Text with none of the three surface forms is returned unchanged. */
  lemma PrepKeepsPlainText(s: string, macroToken: string, invokeToken: string)
    requires Find(MacroInvoke(macroToken), s, 0).None?
    requires Find(Invoke(invokeToken), s, 0).None?
    requires Find(Arguments, s, 0).None?
    ensures Normalised(s, macroToken, invokeToken) == s
  {
  }

  /** The visited invocation of a pass, when its parentheses balance, becomes
      its canonical marker in place; nothing else in the text changes. */
  lemma InvocationPassInPlace(k: Kind, s: string, m: Match)
    requires k.Invoke? || k.MacroInvoke?
    requires Find(k, s, 0) == Some(m) && Closes(m)
    ensures m.start + |MatchText(k, m)| <= |s|
    ensures RewriteAll(s, k) == s[..m.start] + Canonical(k, m) + s[m.start + |MatchText(k, m)|..]
  {
    LeftmostInvocation(k, s, m);
    RewriteSingle(s, k, m);
  }

  /** A pass with a single visit, found at its first occurrence. */
  lemma RewriteSingle(s: string, k: Kind, m: Match)
    requires IndexOf(s, MatchText(k, m)) == Some(m.start)
    ensures m.start + |MatchText(k, m)| <= |s|
    ensures Rewrite(s, k, [m]) == s[..m.start] + Canonical(k, m) + s[m.start + |MatchText(k, m)|..]
  {
    var out := ReplaceFirst(s, MatchText(k, m), Canonical(k, m));
    ReplaceFirstAt(s, MatchText(k, m), Canonical(k, m), m.start);
    assert [m][1..] == [];
    assert Rewrite(s, k, [m]) == Rewrite(out, k, []) == out;
  }

  /** The argument pass as the text promises it: scanning from `i`, each
      `${w}` becomes `__args__(w)` and every other character is kept. */
  function ArgsFrom(s: string, i: nat): string
    requires i <= |s|
    decreases |s| - i
  {
    if i == |s| then []
    else match ArgumentAt(s, i)
      case Some(m) => ArgMarker(Name(m)) + ArgsFrom(s, m.end)
      case None => [s[i]] + ArgsFrom(s, i + 1)
  }

  /** No argument match starts in `t` before position `n`. */
  predicate SettledBefore(t: string, n: nat) {
    forall j :: 0 <= j <= |t| && j < n ==> ArgumentAt(t, j).None?
  }

  /** The argument pass replaces every `${w}` of its input by `__args__(w)`,
      left to right, and no `${w}` is left in its output. */
  lemma ArgumentPassReplacesAll(s: string)
    ensures RewriteAll(s, Arguments) == ArgsFrom(s, 0)
    ensures Find(Arguments, RewriteAll(s, Arguments), 0).None?
  {
    assert [] + s[0..] == s;
    RewriteArgsFrom([], s, 0);
    var r := RewriteAll(s, Arguments);
    forall j | 0 <= j <= |r| ensures MatchAt(Arguments, r, j).None? {
      assert ArgumentAt(r, j).None?;
    }
    FindNone(Arguments, r, 0);
  }

  /** The pass from the visit at `from` on, over a text whose rewritten part
      `P` holds no argument match. */
  lemma {:induction false} RewriteArgsFrom(P: string, s: string, from: nat)
    requires from <= |s| && SettledBefore(P + s[from..], |P|)
    decreases |s| - from
    ensures var r := Rewrite(P + s[from..], Arguments, AllMatches(Arguments, s, from));
      r == P + ArgsFrom(s, from) && SettledBefore(r, |r| + 1)
  {
    match Find(Arguments, s, from)
    case None =>
      RewriteArgsLast(P, s, from);
    case Some(m) =>
      var P' := RewriteArgsStep(P, s, from, m);
      RewriteArgsFrom(P', s, m.end);
  }

  /** With no visit left, the text is settled and `ArgsFrom` copies the rest. */
  lemma RewriteArgsLast(P: string, s: string, from: nat)
    requires from <= |s| && SettledBefore(P + s[from..], |P|)
    requires Find(Arguments, s, from).None?
    ensures AllMatches(Arguments, s, from) == []
    ensures P + s[from..] == P + ArgsFrom(s, from) && SettledBefore(P + s[from..], |P + s[from..]| + 1)
  {
    var t := P + s[from..];
    ArgsFromRest(s, from);
    forall j | 0 <= j <= |t| && |P| <= j ensures ArgumentAt(t, j).None? {
      ArgumentInTail(P, s, from, j);
    }
  }

  /** One visit: its `${w}` first occurs where it was found, becomes
      `__args__(w)`, and the rewritten part `P'` grows past it. */
  lemma RewriteArgsStep(P: string, s: string, from: nat, m: Match) returns (P': string)
    requires from <= |s| && SettledBefore(P + s[from..], |P|)
    requires Find(Arguments, s, from) == Some(m)
    ensures m.end <= |s| && SettledBefore(P' + s[m.end..], |P'|)
    ensures Rewrite(P + s[from..], Arguments, AllMatches(Arguments, s, from))
      == Rewrite(P' + s[m.end..], Arguments, AllMatches(Arguments, s, m.end))
    ensures P + ArgsFrom(s, from) == P' + ArgsFrom(s, m.end)
  {
    ArgsClearBefore(P, s, from, m);
    assert ArgumentAt(s, m.start) == Some(m);
    ArgumentAtShape(s, m.start);
    var a := ArgsVisitText(P, s, from, m);
    ArgsVisitSettled(P, s, from, m, a);
    P' := P + s[from..m.start] + a;
    var rest := AllMatches(Arguments, s, m.end);
    assert AllMatches(Arguments, s, from) == [m] + rest;
    RewriteHead(P + s[from..], Arguments, m, rest);
    ArgsFromVisit(s, from, m);
    ConcatAssoc(P, s[from..m.start], a, ArgsFrom(s, m.end));
  }

  /** The text one visit leaves: its `${w}` is replaced where it was found. */
  lemma ArgsVisitText(P: string, s: string, from: nat, m: Match) returns (a: string)
    requires from <= m.start <= m.end <= |s| && m.whole == s[m.start..m.end]
    requires |m.groups| == 1 && IsWord(m.groups[0]) && m.whole == "${" + m.groups[0] + "}"
    requires SettledBefore(P + s[from..], |P| + m.start - from)
    ensures a == ArgMarker(Name(m)) && a == Canonical(Arguments, m)
    ensures ReplaceFirst(P + s[from..], MatchText(Arguments, m), a) == (P + s[from..m.start] + a) + s[m.end..]
  {
    a := ArgMarker(m.groups[0]);
    TailSplice(P, s, from, m.start, m.end, a);
    ArgsSplice(P + s[from..], |P| + m.start - from, m.groups[0], m.whole, m.end - m.start);
  }

  /** ... and the text up to the end of the new `__args__(w)` holds no argument match. */
  lemma ArgsVisitSettled(P: string, s: string, from: nat, m: Match, a: string)
    requires from <= m.start <= m.end <= |s| && m.whole == s[m.start..m.end]
    requires |m.groups| == 1 && IsWord(m.groups[0]) && a == ArgMarker(m.groups[0])
    requires SettledBefore(P + s[from..], |P| + m.start - from)
    ensures SettledBefore((P + s[from..m.start] + a) + s[m.end..], |P + s[from..m.start] + a|)
  {
    var t, p := P + s[from..], |P| + m.start - from;
    TailSplice(P, s, from, m.start, m.end, a);
    ArgsSpliceSettled(t, p, m.end - m.start, m.groups[0], (P + s[from..m.start] + a) + s[m.end..], |P + s[from..m.start] + a|);
  }

  /** Replacing a `${w}` that starts at `p` in a text with no `${...}` before `p`
      rewrites that occurrence. */
  lemma ArgsSplice(t: string, p: nat, w: string, whole: string, n: nat)
    requires IsWord(w) && whole == "${" + w + "}" && n == |whole|
    requires StartsAt(t, p, whole) && SettledBefore(t, p)
    ensures p + n <= |t| && ReplaceFirst(t, whole, ArgMarker(w)) == t[..p] + ArgMarker(w) + t[p + n..]
  {
    ArgsFirstAt(t, p, w, whole);
    ReplaceFirstAt(t, whole, ArgMarker(w), p);
  }

  lemma TailSplice<T>(P: seq<T>, s: seq<T>, from: nat, st: nat, en: nat, a: seq<T>)
    requires from <= st <= en <= |s|
    ensures var t, p := P + s[from..], |P| + st - from;
      && p + (en - st) <= |t| && t[p..p + (en - st)] == s[st..en]
      && t[..p] + a + t[p + (en - st)..] == (P + s[from..st] + a) + s[en..]
  {
    var t, p := P + s[from..], |P| + st - from;
    assert t[..p] == P + s[from..st];
    assert t[p + (en - st)..] == s[en..];
    assert t[p..p + (en - st)] == s[st..en];
  }

  lemma ConcatAssoc<T>(a: seq<T>, b: seq<T>, c: seq<T>, d: seq<T>)
    ensures a + (b + c + d) == (a + b + c) + d
  {
  }

  /** A pass whose first visit is `m` goes on from the text `m` rewrote. */
  lemma RewriteHead(out: string, k: Kind, m: Match, rest: seq<Match>)
    ensures Rewrite(out, k, [m] + rest) == Rewrite(ReplaceFirst(out, MatchText(k, m), Canonical(k, m)), k, rest)
  {
    assert ([m] + rest)[1..] == rest;
  }

  /** Up to the next argument match, `ArgsFrom` copies the text; the match
      itself becomes its `__args__` marker. */
  lemma ArgsFromVisit(s: string, from: nat, m: Match)
    requires from <= |s| && Find(Arguments, s, from) == Some(m)
    ensures from <= m.start && ArgsFrom(s, from) == s[from..m.start] + ArgMarker(Name(m)) + ArgsFrom(s, m.end)
  {
    forall j | from <= j < m.start ensures ArgumentAt(s, j).None? {
      assert MatchAt(Arguments, s, j).None?;
    }
    ArgsFromCopies(s, from, m.start);
    assert ArgumentAt(s, m.start) == Some(m);
  }

  /** With no argument match left, `ArgsFrom` copies the rest of the text. */
  lemma ArgsFromRest(s: string, from: nat)
    requires from <= |s| && Find(Arguments, s, from).None?
    ensures ArgsFrom(s, from) == s[from..]
  {
    forall j | from <= j < |s| ensures ArgumentAt(s, j).None? {
      assert MatchAt(Arguments, s, j).None?;
    }
    ArgsFromCopies(s, from, |s|);
  }

  /** Over a stretch without argument matches, `ArgsFrom` copies the text. */
  lemma {:induction false} ArgsFromCopies(s: string, from: nat, stop: nat)
    requires from <= stop <= |s| && forall j :: from <= j < stop ==> ArgumentAt(s, j).None?
    decreases stop - from
    ensures ArgsFrom(s, from) == s[from..stop] + ArgsFrom(s, stop)
  {
    if from < stop {
      ArgsFromCopies(s, from + 1, stop);
      ArgsFromPlain(s, from);
      SliceCons(s, from, stop, ArgsFrom(s, stop));
    }
  }

  /** Where no argument match starts, `ArgsFrom` keeps the character. */
  lemma ArgsFromPlain(s: string, i: nat)
    requires i < |s| && ArgumentAt(s, i).None?
    ensures ArgsFrom(s, i) == [s[i]] + ArgsFrom(s, i + 1)
  {
  }

  /** A slice is its first element followed by the rest. */
  lemma SliceCons<T>(s: seq<T>, i: nat, j: nat, rest: seq<T>)
    requires i < j <= |s|
    ensures s[i..j] + rest == [s[i]] + (s[i + 1..j] + rest)
  {
    assert s[i..j] == [s[i]] + s[i + 1..j];
  }

  /** An argument match in the unchanged tail of `P + s[from..]` is one in `s`. */
  lemma ArgumentInTail(P: string, s: string, from: nat, j: nat)
    requires from <= |s| && |P| <= j <= |P| + |s| - from
    ensures ArgumentAt(P + s[from..], j).Some? ==> MatchAt(Arguments, s, j - |P| + from).Some?
  {
    var t := P + s[from..];
    if ArgumentAt(t, j).Some? {
      var m := ArgumentAt(t, j).value;
      ArgumentAtShape(t, j);
      var w := m.groups[0];
      var j', n := j - |P| + from, m.end - j;
      forall x | 0 <= x < n ensures t[j..m.end][x] == s[j'..j' + n][x] {
        assert t[j + x] == s[j' + x];
      }
      ArgumentAtFromText(s, j', w);
    }
  }

  /** Before the visit at `m`, the text being rewritten holds no argument match. */
  lemma ArgsClearBefore(P: string, s: string, from: nat, m: Match)
    requires from <= |s| && SettledBefore(P + s[from..], |P|)
    requires Find(Arguments, s, from) == Some(m)
    ensures SettledBefore(P + s[from..], |P| + m.start - from)
  {
    var t := P + s[from..];
    forall j | 0 <= j <= |t| && |P| <= j < |P| + m.start - from ensures ArgumentAt(t, j).None? {
      ArgumentInTail(P, s, from, j);
    }
  }

  /** `${w}` anywhere is an argument match there. */
  lemma ArgumentWherever(t: string, j: nat, w: string)
    requires IsWord(w)
    ensures StartsAt(t, j, "${" + w + "}") ==> ArgumentAt(t, j).Some?
  {
    if StartsAt(t, j, "${" + w + "}") {
      ArgumentAtFromText(t, j, w);
    }
  }

  /** `${w}` at `p`, with no argument match before it, first occurs at `p`. */
  lemma ArgsFirstAt(t: string, p: nat, w: string, whole: string)
    requires IsWord(w) && whole == "${" + w + "}"
    requires StartsAt(t, p, whole) && SettledBefore(t, p)
    ensures IndexOf(t, whole) == Some(p)
  {
    forall j | 0 <= j < p ensures !StartsAt(t, j, whole) {
      ArgumentWherever(t, j, w);
    }
    FirstOccurrence(t, whole, p);
  }

  /** Splicing `__args__(w)` in at `p` creates no argument match up to its end. */
  lemma ArgsSpliceSettled(t: string, p: nat, len: nat, w: string, t': string, bound: nat)
    requires p + len <= |t| && IsWord(w) && SettledBefore(t, p)
    requires t' == t[..p] + ArgMarker(w) + t[p + len..] && bound == p + |ArgMarker(w)|
    ensures SettledBefore(t', bound)
  {
    var a := ArgMarker(w);
    forall j | 0 <= j <= |t'| && j < p + |a| ensures ArgumentAt(t', j).None? {
      if j < p {
        SpliceKeepsBefore(t, p, len, w, j);
      } else {
        assert t'[j] == a[j - p];
        assert a[j - p] != '$' by {
          if 9 <= j - p < 9 + |w| {
            assert a[j - p] == w[j - p - 9];
          }
        }
      }
    }
  }

  /** A match before the splice point of `__args__(w)` was a match before the splice. */
  lemma SpliceKeepsBefore(t: string, p: nat, len: nat, w: string, j: nat)
    requires p + len <= |t| && IsWord(w) && j < p
    ensures var t' := t[..p] + ArgMarker(w) + t[p + len..];
      ArgumentAt(t', j).Some? ==> ArgumentAt(t, j).Some?
  {
    var a := ArgMarker(w);
    var t' := t[..p] + a + t[p + len..];
    if ArgumentAt(t', j).Some? {
      var m' := ArgumentAt(t', j).value;
      assert t'[p..p + |a|] == a;
      assert t'[p..p + 9] == a[..9] == "__args__(";
      NoArgAcross(t', p, j);
      ArgumentAtShape(t', j);
      forall x | 0 <= x < m'.end - j ensures t[j..m'.end][x] == m'.whole[x] {
        assert t[j + x] == t'[j + x];
      }
      ArgumentAtFromText(t, j, m'.groups[0]);
    }
  }

  /** A match starting before `__args__(` at `p` ends before it: the `_`s
      would have to continue its word, and `(` can neither do so nor close it. */
  lemma NoArgAcross(t: string, p: nat, j: nat)
    requires j < p && p + 9 <= |t| && t[p..p + 9] == "__args__(" && ArgumentAt(t, j).Some?
    ensures ArgumentAt(t, j).value.end <= p
  {
    var m := ArgumentAt(t, j).value;
    ArgumentAtShape(t, j);
    var w := m.groups[0];
    var q := m.end - 1;
    assert t[j..m.end] == "${" + w + "}";
    assert t[q] == '}' by {
      assert t[j..m.end][q - j] == t[q];
    }
    forall x | j + 2 <= x < q ensures IsWordChar(t[x]) {
      assert t[x] == t[j..m.end][x - j] == w[x - j - 2];
    }
    forall x | p <= x < p + 9 ensures t[x] != '}' {
      assert t[x] == t[p..p + 9][x - p];
    }
    assert t[p + 8] == t[p..p + 9][8] == '(';
  }

  /** The canonical marker of a visited template invocation is itself a
      template-marker match, naming the same template. */
  lemma CanonicalIsMarker(t: string, m: Match, pre: string, post: string)
    requires IsWord(Name(m)) && !Contains(RawParams(m), "]")
    ensures var s := pre + Canonical(Invoke(t), m) + post;
      MatchAt(TemplateMarker, s, |pre|).Some? && Name(MatchAt(TemplateMarker, s, |pre|).value) == Name(m)
  {
    var n := Name(m);
    var raw := RawParams(m);
    forall x | 0 <= x < |raw| ensures raw[x] != ']' {
      if raw[x] == ']' {
        StartsAtChar(raw, x, ']');
        ContainsAt(raw, "]", x);
      }
    }
    StartsAtMiddle(pre, Canonical(Invoke(t), m), post);
    MarkerAtFromText(TemplatePrefix, pre + Canonical(Invoke(t), m) + post, |pre|, n, raw);
  }

  // ---------------------------------------------------------------------
  // Expansion (use)
  // ---------------------------------------------------------------------

  /** The declared name of parameter `i`; past the declared list it is
      `undefined`, which the pattern built from it makes literal. */
  function ParamName(params: seq<string>, i: nat): string {
    if i < |params| then params[i] else "undefined"
  }

  /** The body after the first `|args|` arguments have been macro-expanded and
      substituted for their placeholders, in order. */
  function Substituted(body: string, params: seq<string>, args: seq<string>, macros: Dict<Macro>,
                       macroToken: string, validate: bool): Result<string, Failure>
    decreases |args|
  {
    if args == [] then Ok(body)
    else
      var i := |args| - 1;
      var t :- Substituted(body, params, args[..i], macros, macroToken, validate);
      var a :- MacroPass(args[i], MacroInvoke(macroToken), AllMatches(MacroInvoke(macroToken), args[i], 0), macros, validate);
      Ok(ReplaceAll(t, ArgMarker(ParamName(params, i)), a))
  }

  /** What `use` returns: the substituted body with its canonical macros
      expanded, checked for leftover markers when the template is active. */
  function Expanded(body: string, params: seq<string>, active: bool, args: seq<string>,
                    macros: Dict<Macro>, macroToken: string, validate: bool): Result<string, Failure>
  {
    var t :- Substituted(body, params, args, macros, macroToken, validate);
    var u :- MacroPass(t, MacroMarker, AllMatches(MacroMarker, t, 0), macros, validate);
    if active && CheckBody(u).Fail? then Err(CheckBody(u).error) else Ok(u)
  }

  /** An active template's expansion never leaves a marker behind. */
  lemma ExpandedActiveIsClean(body: string, params: seq<string>, args: seq<string>,
                              macros: Dict<Macro>, macroToken: string, validate: bool)
    requires Expanded(body, params, true, args, macros, macroToken, validate).Ok?
    ensures var s := Expanded(body, params, true, args, macros, macroToken, validate).value;
      !Contains(s, MacroMarkerText) && !Contains(s, TemplateMarkerText) && !Contains(s, ArgsMarkerText)
  {
  }

  /** Without validation, an expansion that is not active cannot fail. */
  lemma {:induction false} SubstitutedTotal(body: string, params: seq<string>, args: seq<string>,
                                           macros: Dict<Macro>, macroToken: string)
    ensures Substituted(body, params, args, macros, macroToken, false).Ok?
    decreases |args|
  {
    if args != [] {
      var i := |args| - 1;
      SubstitutedTotal(body, params, args[..i], macros, macroToken);
      MacroPassFails(args[i], MacroInvoke(macroToken), AllMatches(MacroInvoke(macroToken), args[i], 0), macros, false);
    }
  }

  lemma ExpandedTotal(body: string, params: seq<string>, args: seq<string>,
                      macros: Dict<Macro>, macroToken: string)
    ensures Expanded(body, params, false, args, macros, macroToken, false).Ok?
  {
    SubstitutedTotal(body, params, args, macros, macroToken);
    var t := Substituted(body, params, args, macros, macroToken, false).value;
    MacroPassFails(t, MacroMarker, AllMatches(MacroMarker, t, 0), macros, false);
  }

  /** A body with no `__args__` text is unchanged by a successful substitution. */
  lemma {:induction false} SubstitutedPlain(body: string, params: seq<string>, args: seq<string>,
                                           macros: Dict<Macro>, macroToken: string, validate: bool)
    requires !Contains(body, ArgsMarkerText)
    requires Substituted(body, params, args, macros, macroToken, validate).Ok?
    ensures Substituted(body, params, args, macros, macroToken, validate) == Ok(body)
    decreases |args|
  {
    if args != [] {
      var i := |args| - 1;
      SubstitutedPlain(body, params, args[..i], macros, macroToken, validate);
      var p := ArgMarker(ParamName(params, i));
      assert p == ArgsMarkerText + ("(" + ParamName(params, i) + ")");
      if Contains(body, p) {
        var at := IndexOf(body, p).value;
        StartsAtSplit(body, at, ArgsMarkerText, "(" + ParamName(params, i) + ")");
        ContainsAt(body, ArgsMarkerText, at);
      }
      ReplaceAllAbsent(body, p, MacroPass(args[i], MacroInvoke(macroToken), AllMatches(MacroInvoke(macroToken), args[i], 0), macros, validate).value);
    }
  }
}
