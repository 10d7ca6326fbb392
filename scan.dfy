/** The match iterator (BaseRe) and the marker recognisers of lib/re.js,
    with one hand-written scanner per pattern. */
module Scan {
  import opened Results
  import opened Text
  import Tokenizer

  // ---------------------------------------------------------------------
  // Configurable tokens
  // ---------------------------------------------------------------------

  /** The module variables `invokeToken`/`invoke` and `macroToken`/`macro`:
      each token with the pattern fragment built from it. */
  class Tokens {
    var invokeToken: string
    var invoke: string
    var macroToken: string
    var macro: string

    /** The defaults. The default fragment `\@` is not `escape("@")` (which is
        `@`, since `@` is not in RE_CHARS); both match the literal `@`. */
    constructor ()
      ensures invokeToken == "@" && invoke == "\\@"
      ensures macroToken == "$$" && macro == "\\$\\$" && macro == Tokenizer.Escaped(macroToken)
    {
      invokeToken, invoke := "@", "\\@";
      macroToken, macro := "$$", "\\$\\$";
      assert "$$"[..1] == "$";
      assert "$"[..0] == [];
    }

    /** `templateToken()` with no argument. */
    function TemplateToken(): string
      reads this
    {
      invokeToken
    }

    /** `macroToken()` with no argument. */
    function MacroToken(): string
      reads this
    {
      macroToken
    }

    /** `templateToken(t)`. */
    method SetTemplateToken(t: string)
      modifies this
      ensures TemplateToken() == t && invoke == Tokenizer.Escaped(t)
      ensures macroToken == old(macroToken) && macro == old(macro)
    {
      invokeToken := t;
      invoke := Tokenizer.Escape(t);
    }

    /** `macroToken(t)`. */
    method SetMacroToken(t: string)
      modifies this
      ensures MacroToken() == t && macro == Tokenizer.Escaped(t)
      ensures invokeToken == old(invokeToken) && invoke == old(invoke)
    {
      macroToken := t;
      macro := Tokenizer.Escape(t);
    }
  }

  // ---------------------------------------------------------------------
  // Patterns and their scanners
  // ---------------------------------------------------------------------

  /** The pattern kinds: InvokeRe, MacroInvokeRe, ArgumentsRe, MacroRe,
      TemplateRe, NamedTemplateRe and FunctionRe. An invocation kind carries
      the token its pattern was built from. */
  datatype Kind =
    | Invoke(token: string)
    | MacroInvoke(token: string)
    | Arguments
    | MacroMarker
    | TemplateMarker
    | NamedTemplate(id: string)
    | FunctionLit

  /** One `exec` result: where it starts and ends, the matched text and the capture groups. */
  datatype Match = Match(start: nat, end: nat, whole: string, groups: seq<string>)

  /** The number of capture groups of a kind. */
  function Arity(k: Kind): nat {
    match k
    case Arguments => 1
    case NamedTemplate(_) => 1
    case _ => 2
  }

  /** Character classes the patterns repeat. */
  datatype Class = Word | Space | Is(c: char) | Not(c: char)

  predicate InClass(cls: Class, c: char) {
    match cls
    case Word => IsWordChar(c)
    case Space => IsSpace(c)
    case Is(d) => c == d
    case Not(d) => c != d
  }

  /** The end of the longest run of `cls` characters starting at `i` (a greedy `*`). */
  function Skip(s: string, i: nat, cls: Class): (e: nat)
    requires i <= |s|
    decreases |s| - i
    ensures i <= e <= |s|
    ensures forall j :: i <= j < e ==> InClass(cls, s[j])
    ensures e < |s| ==> !InClass(cls, s[e])
  {
    if i < |s| && InClass(cls, s[i]) then Skip(s, i + 1, cls) else i
  }

  /** A match found at `i` covers the text from `i` on, with `n` groups. */
  predicate Spans(r: Option<Match>, s: string, i: nat, n: nat) {
    r.Some? ==> r.value.start == i < r.value.end <= |s| && r.value.whole == s[i..r.value.end] && |r.value.groups| == n
  }

  /** `token(\w+)\(([^]*)`: the token, a name, `(`, then the rest of the text. */
  function InvokeAt(token: string, s: string, i: nat): (r: Option<Match>)
    requires i <= |s|
    ensures Spans(r, s, i, 2)
  {
    if !StartsAt(s, i, token) then None
    else
      var j := i + |token|;
      var e := Skip(s, j, Word);
      if j < e && e < |s| && s[e] == '(' then Some(Match(i, |s|, s[i..], [s[j..e], s[e + 1..]]))
      else None
  }

  /** `\$\{(\w+)\}`. */
  function ArgumentAt(s: string, i: nat): (r: Option<Match>)
    requires i <= |s|
    ensures Spans(r, s, i, 1)
  {
    if !StartsAt(s, i, "${") then None
    else
      var j := i + 2;
      var e := Skip(s, j, Word);
      if j < e && e < |s| && s[e] == '}' then Some(Match(i, e + 1, s[i..e + 1], [s[j..e]]))
      else None
  }

  /** `<prefix>(\w+)\]\[([^\]]*)\]`, where the prefix ends in `[`. */
  function MarkerAt(prefix: string, s: string, i: nat): (r: Option<Match>)
    requires i <= |s|
    ensures Spans(r, s, i, 2)
  {
    if !StartsAt(s, i, prefix) then None
    else
      var j := i + |prefix|;
      var e := Skip(s, j, Word);
      if j < e && e + 1 < |s| && s[e] == ']' && s[e + 1] == '[' then
        var q := Skip(s, e + 2, Not(']'));
        if q < |s| then Some(Match(i, q + 1, s[i..q + 1], [s[j..e], s[e + 2..q]])) else None
      else None
  }

  /** `__template__\[<id>\]\[([^\]]*)\]`. */
  function NamedAt(id: string, s: string, i: nat): (r: Option<Match>)
    requires i <= |s|
    ensures Spans(r, s, i, 1)
  {
    var prefix := NamedPrefix(id);
    if !StartsAt(s, i, prefix) then None
    else
      var p := i + |prefix|;
      var q := Skip(s, p, Not(']'));
      if q < |s| then Some(Match(i, q + 1, s[i..q + 1], [s[p..q]])) else None
  }

  function NamedPrefix(id: string): string {
    TemplatePrefix + id + "]["
  }

  const MacroPrefix: string := "__macro__["
  const TemplatePrefix: string := "__template__["

  /** `function\s*\(([^)]*)\)\s*\{\r*\n*([^]*)`, read piece by piece:
      `function` and white space, then the rest from `FunctionParen`. */
  function FunctionAt(s: string, i: nat): (r: Option<Match>)
    requires i <= |s|
    ensures Spans(r, s, i, 2)
  {
    if !StartsAt(s, i, "function") then None else FunctionParen(s, i, Skip(s, i + 8, Space))
  }

  /** At `a`, after `function\s*`: `(` and the parameter text. */
  function FunctionParen(s: string, i: nat, a: nat): (r: Option<Match>)
    requires i + 8 <= a <= |s|
    ensures Spans(r, s, i, 2)
  {
    if a < |s| && s[a] == '(' then FunctionClose(s, i, a, Skip(s, a + 1, Not(')'))) else None
  }

  /** At `q`, after the parameter text: `)` and white space. */
  function FunctionClose(s: string, i: nat, a: nat, q: nat): (r: Option<Match>)
    requires i + 8 <= a < q <= |s|
    ensures Spans(r, s, i, 2)
  {
    if q < |s| then FunctionBrace(s, i, a, q, Skip(s, q + 1, Space)) else None
  }

  /** At `b`, after `)\s*`: `{`, carriage returns, line feeds, and the rest of the text. */
  function FunctionBrace(s: string, i: nat, a: nat, q: nat, b: nat): (r: Option<Match>)
    requires i + 8 <= a < q < b <= |s|
    ensures Spans(r, s, i, 2)
  {
    if b < |s| && s[b] == '{' then
      var d := Skip(s, Skip(s, b + 1, Is('\r')), Is('\n'));
      Some(Match(i, |s|, s[i..], [s[a + 1..q], s[d..]]))
    else None
  }

  /** The match of kind `k` that starts exactly at `i`, if any. */
  function MatchAt(k: Kind, s: string, i: nat): (r: Option<Match>)
    requires i <= |s|
    ensures r.Some? ==> r.value.start == i < r.value.end <= |s| && r.value.whole == s[i..r.value.end]
    ensures r.Some? ==> |r.value.groups| == Arity(k)
  {
    match k
    case Invoke(t) => InvokeAt(t, s, i)
    case MacroInvoke(t) => InvokeAt(t, s, i)
    case Arguments => ArgumentAt(s, i)
    case MacroMarker => MarkerAt(MacroPrefix, s, i)
    case TemplateMarker => MarkerAt(TemplatePrefix, s, i)
    case NamedTemplate(id) => NamedAt(id, s, i)
    case FunctionLit => FunctionAt(s, i)
  }

  /** What `exec` finds from scan position `from`: the leftmost match at or after it. */
  function Find(k: Kind, s: string, from: nat): (r: Option<Match>)
    requires from <= |s|
    decreases |s| - from
    ensures r.Some? ==> from <= r.value.start <= |s| && MatchAt(k, s, r.value.start) == r
    ensures forall j :: from <= j <= |s| && (r.None? || j < r.value.start) ==> MatchAt(k, s, j).None?
  {
    var m := MatchAt(k, s, from);
    if m.Some? then m
    else if from == |s| then None
    else Find(k, s, from + 1)
  }

  /** The successive matches a global pattern yields from `from` until none remains. */
  function AllMatches(k: Kind, s: string, from: nat): (ms: seq<Match>)
    requires from <= |s|
    decreases |s| - from
    ensures forall i :: 0 <= i < |ms| ==> from <= ms[i].start <= |s| && MatchAt(k, s, ms[i].start) == Some(ms[i])
    ensures forall i :: 0 < i < |ms| ==> ms[i - 1].end <= ms[i].start
    ensures ms == [] <==> Find(k, s, from).None?
    ensures ms != [] ==> Some(ms[0]) == Find(k, s, from)
  {
    match Find(k, s, from)
    case None => []
    case Some(m) => [m] + AllMatches(k, s, m.end)
  }

  /** One more `exec` moves its match from the pending visits to the done ones. */
  lemma VisitNext(k: Kind, s: string, from: nat, m: Match, visits: seq<Match>, all: seq<Match>)
    requires from <= |s| && Find(k, s, from) == Some(m) && visits + AllMatches(k, s, from) == all
    ensures m.end <= |s| && (visits + [m]) + AllMatches(k, s, m.end) == all
  {
    SnocConcat(visits, m, AllMatches(k, s, m.end));
  }

  /** No match at any position means `exec` finds nothing. */
  lemma FindNone(k: Kind, s: string, from: nat)
    requires from <= |s|
    requires forall j :: from <= j <= |s| ==> MatchAt(k, s, j).None?
    ensures Find(k, s, from).None?
  {
  }

  // ---------------------------------------------------------------------
  // The iterator
  // ---------------------------------------------------------------------

  /** BaseRe: a fixed text, a compiled global pattern with its scan position
      (`lastIndex`), and the current match (`result`). */
  class Matcher {
    const kind: Kind
    const text: string
    var lastIndex: nat
    var result: Option<Match>

    ghost predicate Valid()
      reads this
    {
      lastIndex <= |text|
    }

    /** Construction compiles the pattern and runs it once. */
    constructor (kind: Kind, text: string)
      ensures Valid() && this.kind == kind && this.text == text
      ensures result == Find(kind, text, 0)
      ensures lastIndex == if result.Some? then result.value.end else 0
    {
      this.kind := kind;
      this.text := text;
      var m := Find(kind, text, 0);
      result := m;
      lastIndex := if m.Some? then m.value.end else 0;
    }

    /** `none()`: there is no current match. */
    predicate None()
      reads this
    {
      result.None?
    }

    /** `next()`: one `exec` from the scan position. A failing `exec` puts
        the scan position back to 0. */
    method Next()
      requires Valid()
      modifies this
      ensures Valid()
      ensures result == Find(kind, text, old(lastIndex))
      ensures lastIndex == if result.Some? then result.value.end else 0
    {
      var m := Find(kind, text, lastIndex);
      result := m;
      lastIndex := if m.Some? then m.value.end else 0;
    }

    /** `reset()`: a fresh pattern (scan position 0) and no current match. */
    method Reset()
      modifies this
      ensures Valid() && result.None? && lastIndex == 0
    {
      result := Option.None;
      lastIndex := 0;
    }

    /** `each(fn, fromCurrent)`: unless `fromCurrent`, reset; then run the
        pattern until it fails. The visits are returned in order; the
        callers run their callbacks over them. */
    method Each(fromCurrent: bool) returns (visits: seq<Match>)
      requires Valid()
      modifies this
      ensures Valid() && result.None? && lastIndex == 0
      ensures visits == AllMatches(kind, text, if fromCurrent then old(lastIndex) else 0)
    {
      if !fromCurrent {
        Reset();
      }
      ghost var from := lastIndex;
      visits := [];
      var stop := false;
      while !stop
        invariant Valid()
        invariant !stop ==> visits + AllMatches(kind, text, lastIndex) == AllMatches(kind, text, from)
        invariant stop ==> visits == AllMatches(kind, text, from) && result.None? && lastIndex == 0
        decreases if stop then 0 else 1, |text| - lastIndex
      {
        ghost var before := lastIndex;
        Next();
        if result.None? {
          stop := true;
        } else {
          VisitNext(kind, text, before, result.value, visits, AllMatches(kind, text, from));
          visits := visits + [result.value];
        }
      }
    }
  }

  // ---------------------------------------------------------------------
  // Accessors of a match
  // ---------------------------------------------------------------------

  function Group(m: Match, i: nat): string {
    if i < |m.groups| then m.groups[i] else ""
  }

  /** `name()` / `template()` / `args()`: the first group. */
  function Name(m: Match): string {
    Group(m, 0)
  }

  /** The capture a `params` accessor receives. */
  function ParamText(k: Kind, m: Match): string {
    if k.NamedTemplate? then Group(m, 0) else Group(m, 1)
  }

  /** `params(true)`: the argument array, through `csvToArray`/`parseArgs(…, true)`. */
  function Params(k: Kind, m: Match): seq<string> {
    Tokenizer.ArgList(ParamText(k, m))
  }

  /** `params()` of an invocation: the raw argument text, through `parseArgs(…, false)`. */
  function RawParams(m: Match): string {
    Tokenizer.SpanText(Group(m, 1))
  }

  /** The argument span of an invocation reaches its closing `)`. */
  predicate Closes(m: Match) {
    Tokenizer.SpanEnd(Group(m, 1)) < |Group(m, 1)|
  }

  /** `match()`: the matched text; for the two invocation kinds it is rebuilt
      as token + name + `(` + raw arguments + `)`. */
  function MatchText(k: Kind, m: Match): string {
    match k
    case Invoke(t) => t + Name(m) + "(" + RawParams(m) + ")"
    case MacroInvoke(t) => t + Name(m) + "(" + RawParams(m) + ")"
    case _ => m.whole
  }

  /** `args()` of a function literal: the depth-1 comma split of its parameter text. */
  function FunctionArgs(m: Match): seq<string> {
    Tokenizer.ArgList(Group(m, 0))
  }

  /** A body text of at least two characters ends in `}`. */
  predicate BraceClosed(rest: string) {
    |rest| >= 2 ==> rest[|rest| - 1] == '}'
  }

  /** `body()` of a function literal, given the text after `{` and its line
      breaks. The loop there tests the last character, then decrements `i`,
      a variable declared nowhere, instead of its cursor: a text ending in `}`
      gives all but its last two characters, a text of at most one character
      gives null (`None`), and any other text throws a ReferenceError naming
      `i` (`Err`). */
  function FunctionBody(rest: string): (b: Result<Option<string>, string>)
    ensures b.Err? <==> !BraceClosed(rest)
    ensures b.Err? ==> b.error == "i"
    ensures b == Ok(None) <==> |rest| < 2
    ensures b.Ok? && b.value.Some? ==> |b.value.value| + 2 == |rest| && rest == b.value.value + rest[|rest| - 2..]
  {
    if |rest| < 2 then Ok(None)
    else if rest[|rest| - 1] == '}' then Ok(Some(rest[..|rest| - 2]))
    else Err("i")
  }

  /** A body as string operations see it: JavaScript converts null to "null". */
  function BodyText(b: Option<string>): string {
    if b.Some? then b.value else "null"
  }

  // ---------------------------------------------------------------------
  // Properties
  // ---------------------------------------------------------------------

  /** A word that is followed by a non-word character is exactly the run `Skip` finds. */
  lemma SkipWord(s: string, j: nat, w: string)
    requires IsWord(w) && StartsAt(s, j, w) && (j + |w| == |s| || !IsWordChar(s[j + |w|]))
    ensures Skip(s, j, Word) == j + |w|
  {
    var e := Skip(s, j, Word);
    forall k | j <= k < j + |w| ensures IsWordChar(s[k]) {
      assert s[k] == s[j..j + |w|][k - j];
    }
  }

  /** A run of `cls` characters that is followed by none is exactly the run `Skip` finds. */
  lemma SkipRun(s: string, j: nat, w: string, cls: Class)
    requires StartsAt(s, j, w) && (forall x :: 0 <= x < |w| ==> InClass(cls, w[x]))
    requires j + |w| == |s| || !InClass(cls, s[j + |w|])
    ensures Skip(s, j, cls) == j + |w|
  {
    forall x | j <= x < j + |w| ensures InClass(cls, s[x]) {
      assert s[x] == s[j..j + |w|][x - j];
    }
  }

  /** `prefix` + word + `][` + text without `]` + `]` is a marker match there, naming the word. */
  lemma MarkerAtFromText(prefix: string, s: string, i: nat, n: string, raw: string)
    requires IsWord(n) && (forall x :: 0 <= x < |raw| ==> raw[x] != ']')
    requires StartsAt(s, i, prefix + n + "][" + raw + "]")
    ensures MarkerAt(prefix, s, i).Some? && Name(MarkerAt(prefix, s, i).value) == n
  {
    var j := i + |prefix|;
    var e := j + |n|;
    var head := prefix + n + "][";
    StartsAtSplit(s, i, head + raw, "]");
    StartsAtSplit(s, i, head, raw);
    StartsAtSplit(s, i, prefix + n, "][");
    StartsAtSplit(s, i, prefix, n);
    StartsAtRest(s, i, prefix, n);
    StartsAtIndex(s, i, head, |prefix| + |n|);
    StartsAtIndex(s, i, head, |prefix| + |n| + 1);
    StartsAtRest(s, i, head, raw);
    StartsAtIndex(s, i, head + raw + "]", |head| + |raw|);
    SkipWord(s, j, n);
    SkipRun(s, e + 2, raw, Not(']'));
  }

  /** What an invocation match captures: a word name right after the token,
      followed by `(`, and the rest of the text. */
  lemma InvokeAtShape(t: string, s: string, i: nat)
    requires i <= |s| && InvokeAt(t, s, i).Some?
    ensures var m := InvokeAt(t, s, i).value;
      var n := m.groups[0];
      StartsAt(s, i, t) && IsWord(n) && StartsAt(s, i + |t|, n) &&
      i + |t| + |n| < |s| && s[i + |t| + |n|] == '(' && m.groups[1] == s[i + |t| + |n| + 1..]
  {
  }

  /** Conversely, token + word + `(` anywhere is an invocation match there. */
  lemma InvokeAtFromText(t: string, s: string, p: nat, n: string)
    requires IsWord(n) && StartsAt(s, p, t + n + "(")
    ensures InvokeAt(t, s, p).Some?
  {
    var j := p + |t|;
    StartsAtSplit(s, p, t + n, "(");
    StartsAtSplit(s, p, t, n);
    StartsAtRest(s, p, t, n);
    StartsAtIndex(s, p, t + n + "(", |t| + |n|);
    SkipWord(s, j, n);
  }

  /** When the parentheses balance, the rebuilt `match()` of an invocation is
      the source text at the match. */
  lemma InvokeTextIsSource(t: string, s: string, i: nat)
    requires i <= |s| && InvokeAt(t, s, i).Some?
    requires Closes(InvokeAt(t, s, i).value)
    ensures StartsAt(s, i, MatchText(Invoke(t), InvokeAt(t, s, i).value))
  {
    var m := InvokeAt(t, s, i).value;
    InvokeAtShape(t, s, i);
    InvokeTextAt(s, i, t, m.groups[0], m.groups[1]);
  }

  /** Token, name, `(`, and an argument span that reaches its `)`, read off
      the text in that order. */
  lemma InvokeTextAt(s: string, i: nat, t: string, n: string, rest: string)
    requires StartsAt(s, i, t) && StartsAt(s, i + |t|, n)
    requires i + |t| + |n| < |s| && s[i + |t| + |n|] == '(' && rest == s[i + |t| + |n| + 1..]
    requires Tokenizer.SpanEnd(rest) < |rest|
    ensures StartsAt(s, i, t + n + "(" + Tokenizer.SpanText(rest) + ")")
  {
    var e := i + |t| + |n|;
    var q := Tokenizer.SpanEnd(rest);
    Tokenizer.SpanEndCloses(rest);
    var raw := Tokenizer.SpanText(rest);
    StartsAtChar(s, e, '(');
    StartsAtPrefixOfRest(s, e + 1, raw);
    StartsAtChar(s, e + 1 + q, ')');
    StartsAtConcat(s, i, t, n);
    StartsAtConcat(s, i, t + n, "(");
    StartsAtConcat(s, i, t + n + "(", raw);
    StartsAtConcat(s, i, t + n + "(" + raw, ")");
  }

  /** The rebuilt text of the leftmost invocation does not occur earlier:
      an earlier occurrence would itself be an invocation match. So replacing
      its first occurrence rewrites the invocation in place. */
  lemma InvokeFirstOccurrence(t: string, s: string, m: Match)
    requires Find(Invoke(t), s, 0) == Some(m) && Closes(m)
    ensures IndexOf(s, MatchText(Invoke(t), m)) == Some(m.start)
  {
    assert InvokeAt(t, s, m.start) == Some(m);
    InvokeTextIsSource(t, s, m.start);
    forall p | 0 <= p < m.start ensures InvokeAt(t, s, p).None? {
      assert MatchAt(Invoke(t), s, p).None?;
    }
    NoEarlierInvokeText(t, s, m);
    FirstOccurrence(s, MatchText(Invoke(t), m), m.start);
  }

  /** Before the leftmost invocation its rebuilt text does not occur. */
  lemma NoEarlierInvokeText(t: string, s: string, m: Match)
    requires m.start <= |s| && InvokeAt(t, s, m.start) == Some(m)
    requires forall p :: 0 <= p < m.start ==> InvokeAt(t, s, p).None?
    ensures forall p :: 0 <= p < m.start ==> !StartsAt(s, p, MatchText(Invoke(t), m))
  {
    InvokeAtShape(t, s, m.start);
    var n := m.groups[0];
    var text := MatchText(Invoke(t), m);
    assert text == (t + n + "(") + (RawParams(m) + ")");
    forall p | 0 <= p < m.start ensures !StartsAt(s, p, text) {
      if StartsAt(s, p, text) {
        StartsAtSplit(s, p, t + n + "(", RawParams(m) + ")");
        InvokeAtFromText(t, s, p, n);
      }
    }
  }

  /** The two invocation kinds share one scanner. */
  lemma {:induction false} InvocationFindsAlike(k: Kind, s: string, from: nat)
    requires k.MacroInvoke? && from <= |s|
    decreases |s| - from
    ensures Find(k, s, from) == Find(Invoke(k.token), s, from)
  {
    if MatchAt(k, s, from).None? && from < |s| {
      InvocationFindsAlike(k, s, from + 1);
    }
  }

  /** For either invocation kind: the leftmost invocation, when its
      parentheses balance, is the first occurrence of its rebuilt text. */
  lemma InvocationFirstOccurrence(k: Kind, s: string, m: Match)
    requires k.Invoke? || k.MacroInvoke?
    requires Find(k, s, 0) == Some(m) && Closes(m)
    ensures IndexOf(s, MatchText(k, m)) == Some(m.start)
  {
    if k.MacroInvoke? {
      InvocationFindsAlike(k, s, 0);
    }
    InvokeFirstOccurrence(k.token, s, m);
  }

  /** An invocation pattern consumes the rest of the text: its match ends
      at the end, so `each` visits at most one invocation. */
  lemma InvocationVisitsAtMostOnce(k: Kind, s: string)
    requires k.Invoke? || k.MacroInvoke?
    ensures |AllMatches(k, s, 0)| <= 1
    ensures forall i :: 0 <= i < |AllMatches(k, s, 0)| ==> AllMatches(k, s, 0)[i].end == |s|
  {
    match Find(k, s, 0)
    case None =>
    case Some(m) =>
      assert AllMatches(k, s, m.end) == [];
  }

  /** When there is an invocation, `each` visits exactly the leftmost one. */
  lemma InvocationVisitsOnly(k: Kind, s: string, m: Match)
    requires k.Invoke? || k.MacroInvoke?
    requires Find(k, s, 0) == Some(m)
    ensures AllMatches(k, s, 0) == [m]
  {
    assert AllMatches(k, s, m.end) == [];
  }

  /** The leftmost invocation, when its parentheses balance, is the only
      visit of `each` and the first occurrence of its rebuilt text. */
  lemma LeftmostInvocation(k: Kind, s: string, m: Match)
    requires k.Invoke? || k.MacroInvoke?
    requires Find(k, s, 0) == Some(m) && Closes(m)
    ensures AllMatches(k, s, 0) == [m]
    ensures IndexOf(s, MatchText(k, m)) == Some(m.start)
  {
    InvocationVisitsOnly(k, s, m);
    InvocationFirstOccurrence(k, s, m);
  }

  /** A named-template match at `i` is a template-marker match there, when the
      id is a word. */
  lemma NamedIsMarker(id: string, s: string, i: nat)
    requires IsWord(id) && i <= |s| && NamedAt(id, s, i).Some?
    ensures MarkerAt(TemplatePrefix, s, i).Some?
  {
    var j := i + |TemplatePrefix|;
    var h := |TemplatePrefix|;
    var pre := NamedPrefix(id);
    StartsAtSplit(s, i, TemplatePrefix + id, "][");
    StartsAtSplit(s, i, TemplatePrefix, id);
    StartsAtRest(s, i, TemplatePrefix, id);
    StartsAtIndex(s, i, pre, h + |id|);
    StartsAtIndex(s, i, pre, h + |id| + 1);
    SkipWord(s, j, id);
  }

  /** A body with no template marker uses no named template. */
  lemma NoMarkerNoNamedUse(id: string, s: string)
    requires IsWord(id) && Find(TemplateMarker, s, 0).None?
    ensures Find(NamedTemplate(id), s, 0).None?
  {
    forall j | 0 <= j <= |s| ensures MatchAt(NamedTemplate(id), s, j).None? {
      assert MatchAt(TemplateMarker, s, j).None?;
      if NamedAt(id, s, j).Some? {
        NamedIsMarker(id, s, j);
      }
    }
    FindNone(NamedTemplate(id), s, 0);
  }

  /** Text without `__template__` has no template marker. */
  lemma NoTemplateTextNoMarker(s: string)
    requires !Contains(s, "__template__")
    ensures Find(TemplateMarker, s, 0).None?
  {
    forall j | 0 <= j <= |s| ensures MatchAt(TemplateMarker, s, j).None? {
      if StartsAt(s, j, TemplatePrefix) {
        assert TemplatePrefix == "__template__" + "[";
        StartsAtSplit(s, j, "__template__", "[");
      }
    }
    FindNone(TemplateMarker, s, 0);
  }

  // ---------------------------------------------------------------------
  // What each recogniser accepts
  // ---------------------------------------------------------------------

  /** No character of `s` is `c`. */
  predicate Lacks(s: string, c: char) {
    forall x :: 0 <= x < |s| ==> s[x] != c
  }

  /** Every character of `s` is `c`. */
  predicate AllOf(s: string, c: char) {
    forall x :: 0 <= x < |s| ==> s[x] == c
  }

  /** A slice splits at any point between its ends. */
  lemma SliceSplit(s: string, a: nat, b: nat, c: nat)
    requires a <= b <= c <= |s|
    ensures s[a..c] == s[a..b] + s[b..c]
  {
  }

  /** The characters of a run `Skip` found all belong to its class. */
  lemma SkipSlice(s: string, j: nat, cls: Class)
    requires j <= |s|
    ensures forall x :: 0 <= x < |s[j..Skip(s, j, cls)]| ==> InClass(cls, s[j..Skip(s, j, cls)][x])
  {
  }

  /** What an argument match is: `${`, a word (its group), then `}`. */
  lemma ArgumentAtShape(s: string, i: nat)
    requires i <= |s| && ArgumentAt(s, i).Some?
    ensures var m := ArgumentAt(s, i).value;
      |m.groups| == 1 && IsWord(m.groups[0]) && m.whole == "${" + m.groups[0] + "}"
  {
    var j := i + 2;
    var e := Skip(s, j, Word);
    SkipSlice(s, j, Word);
    SliceSplit(s, i, j, e);
    SliceSplit(s, i, e, e + 1);
    assert s[e..e + 1] == "}";
  }

  /** Conversely, `${` + word + `}` anywhere is an argument match there, capturing the word. */
  lemma ArgumentAtFromText(s: string, i: nat, n: string)
    requires IsWord(n) && StartsAt(s, i, "${" + n + "}")
    ensures ArgumentAt(s, i) == Some(Match(i, i + |n| + 3, "${" + n + "}", [n]))
  {
    StartsAtSplit(s, i, "${" + n, "}");
    StartsAtSplit(s, i, "${", n);
    StartsAtRest(s, i, "${", n);
    StartsAtIndex(s, i, "${" + n + "}", |n| + 2);
    SkipWord(s, i + 2, n);
  }

  /** What a marker match is: the prefix, a word (group 0), `][`, a text
      without `]` (group 1), then `]`. */
  lemma MarkerAtShape(prefix: string, s: string, i: nat)
    requires i <= |s| && MarkerAt(prefix, s, i).Some?
    ensures var m := MarkerAt(prefix, s, i).value;
      && |m.groups| == 2 && IsWord(m.groups[0]) && Lacks(m.groups[1], ']')
      && m.whole == prefix + m.groups[0] + "][" + m.groups[1] + "]"
  {
    var j := i + |prefix|;
    var e := Skip(s, j, Word);
    var q := Skip(s, e + 2, Not(']'));
    MarkerAtValue(prefix, s, i, j, e, q);
    MarkerRuns(s, j, e, q);
    MarkerPieces(prefix, s, i, j, e, q);
  }

  /** The match a marker yields, given the ends of its runs. */
  lemma MarkerAtValue(prefix: string, s: string, i: nat, j: nat, e: nat, q: nat)
    requires i <= |s| && MarkerAt(prefix, s, i).Some?
    requires j == i + |prefix| && e == Skip(s, j, Word) && q == Skip(s, e + 2, Not(']'))
    ensures StartsAt(s, i, prefix) && j < e && e + 2 <= q < |s| && s[e] == ']' && s[e + 1] == '['
    ensures MarkerAt(prefix, s, i) == Some(Match(i, q + 1, s[i..q + 1], [s[j..e], s[e + 2..q]]))
  {
  }

  /** The runs of a marker: a word, then a text without `]` that stops at `]`. */
  lemma MarkerRuns(s: string, j: nat, e: nat, q: nat)
    requires j < e && e + 2 <= q < |s| && e == Skip(s, j, Word) && q == Skip(s, e + 2, Not(']'))
    ensures IsWord(s[j..e]) && Lacks(s[e + 2..q], ']') && s[q] == ']'
  {
    SkipSlice(s, j, Word);
    SkipOthers(s, e + 2, ']', q);
    SkipStops(s, e + 2, ']');
  }

  /** The text of a marker, cut at the ends of its runs. */
  lemma MarkerPieces(prefix: string, s: string, i: nat, j: nat, e: nat, q: nat)
    requires StartsAt(s, i, prefix) && j == i + |prefix| && j < e && e + 2 <= q < |s|
    requires s[e] == ']' && s[e + 1] == '[' && s[q] == ']'
    ensures s[i..q + 1] == prefix + s[j..e] + "][" + s[e + 2..q] + "]"
  {
    SliceSplit(s, i, j, e);
    SliceSplit(s, i, e, e + 2);
    SliceSplit(s, i, e + 2, q);
    SliceSplit(s, i, q, q + 1);
    assert s[e..e + 2] == "][";
    assert s[q..q + 1] == "]";
  }

  /** What a named-template match is: the prefix for its id, a text without
      `]` (its group), then `]`. */
  lemma NamedAtShape(id: string, s: string, i: nat)
    requires i <= |s| && NamedAt(id, s, i).Some?
    ensures var m := NamedAt(id, s, i).value;
      |m.groups| == 1 && Lacks(m.groups[0], ']') && m.whole == NamedPrefix(id) + m.groups[0] + "]"
  {
    var p := i + |NamedPrefix(id)|;
    var q := Skip(s, p, Not(']'));
    SkipSlice(s, p, Not(']'));
    SliceSplit(s, i, p, q);
    SliceSplit(s, i, q, q + 1);
    assert s[q..q + 1] == "]";
  }

  /** Conversely, the prefix for `id`, a text without `]` and `]` is a named-template match there. */
  lemma NamedAtFromText(id: string, s: string, i: nat, raw: string)
    requires Lacks(raw, ']') && StartsAt(s, i, NamedPrefix(id) + raw + "]")
    ensures NamedAt(id, s, i) == Some(Match(i, i + |NamedPrefix(id)| + |raw| + 1, NamedPrefix(id) + raw + "]", [raw]))
  {
    var pre := NamedPrefix(id);
    StartsAtSplit(s, i, pre + raw, "]");
    StartsAtSplit(s, i, pre, raw);
    StartsAtRest(s, i, pre, raw);
    StartsAtIndex(s, i, pre + raw + "]", |pre| + |raw|);
    SkipRun(s, i + |pre|, raw, Not(']'));
  }

  /** A template marker naming `id` is a named-template match for `id`,
      capturing the marker's argument text: the converse of `NamedIsMarker`. */
  lemma MarkerIsNamed(id: string, s: string, i: nat)
    requires i <= |s| && MarkerAt(TemplatePrefix, s, i).Some? && Name(MarkerAt(TemplatePrefix, s, i).value) == id
    ensures var m := MarkerAt(TemplatePrefix, s, i).value;
      NamedAt(id, s, i) == Some(Match(i, m.end, m.whole, [m.groups[1]]))
  {
    var m := MarkerAt(TemplatePrefix, s, i).value;
    MarkerAtShape(TemplatePrefix, s, i);
    var raw := m.groups[1];
    assert m.whole == NamedPrefix(id) + raw + "]";
    assert StartsAt(s, i, m.whole);
    NamedAtFromText(id, s, i, raw);
  }

  /** What a function-literal match is: `function`, white space, `(`, a
      parameter text without `)` (group 0), `)`, white space, `{`, carriage
      returns, then line feeds, and the rest of the text (group 1). */
  lemma FunctionAtShape(s: string, i: nat)
    requires i <= |s| && FunctionAt(s, i).Some?
    ensures var m := FunctionAt(s, i).value;
      && |m.groups| == 2 && Lacks(m.groups[0], ')') && m.end == |s|
      && exists sp, sp', cr, lf ::
        && AllSpace(sp) && AllSpace(sp') && AllOf(cr, '\r') && AllOf(lf, '\n')
        && m.whole == "function" + sp + "(" + m.groups[0] + ")" + sp' + "{" + cr + lf + m.groups[1]
  {
    var a := Skip(s, i + 8, Space);
    var q := Skip(s, a + 1, Not(')'));
    var b := Skip(s, q + 1, Space);
    var c := Skip(s, b + 1, Is('\r'));
    var d := Skip(s, c, Is('\n'));
    FunctionAtValue(s, i, a, q, b, c, d);
    FunctionRunsShape(s, i, a, q, b, c, d, FunctionAt(s, i).value);
  }

  /** The shape of a function-literal match, from the ends of its runs. */
  lemma FunctionRunsShape(s: string, i: nat, a: nat, q: nat, b: nat, c: nat, d: nat, m: Match)
    requires StartsAt(s, i, "function") && i + 8 <= a < q < b < c <= d <= |s|
    requires s[a] == '(' && s[b] == '{'
    requires a == Skip(s, i + 8, Space) && q == Skip(s, a + 1, Not(')')) && b == Skip(s, q + 1, Space)
    requires c == Skip(s, b + 1, Is('\r')) && d == Skip(s, c, Is('\n'))
    requires m == Match(i, |s|, s[i..], [s[a + 1..q], s[d..]])
    ensures && |m.groups| == 2 && Lacks(m.groups[0], ')') && m.end == |s|
      && exists sp, sp', cr, lf ::
        && AllSpace(sp) && AllSpace(sp') && AllOf(cr, '\r') && AllOf(lf, '\n')
        && m.whole == "function" + sp + "(" + m.groups[0] + ")" + sp' + "{" + cr + lf + m.groups[1]
  {
    FunctionRuns(s, i, a, q, b, c, d);
    FunctionShapeOf(s, i, a, q, b, c, d, m);
  }

  /** What lies between the ends of a function literal's runs. */
  lemma FunctionRuns(s: string, i: nat, a: nat, q: nat, b: nat, c: nat, d: nat)
    requires i + 8 <= a < q < b < c <= d <= |s|
    requires a == Skip(s, i + 8, Space) && q == Skip(s, a + 1, Not(')')) && b == Skip(s, q + 1, Space)
    requires c == Skip(s, b + 1, Is('\r')) && d == Skip(s, c, Is('\n'))
    ensures s[q] == ')' && AllSpace(s[i + 8..a]) && Lacks(s[a + 1..q], ')') && AllSpace(s[q + 1..b])
    ensures AllOf(s[b + 1..c], '\r') && AllOf(s[c..d], '\n')
  {
    SkipStops(s, a + 1, ')');
    HeadRunsOf(s, i, a, q);
    SkipSpaces(s, q + 1, b);
    BraceRunsOf(s, b, c, d);
  }

  /** The runs before and inside a function literal's parentheses. */
  lemma HeadRunsOf(s: string, i: nat, a: nat, q: nat)
    requires i + 8 <= a < q <= |s| && a == Skip(s, i + 8, Space) && q == Skip(s, a + 1, Not(')'))
    ensures AllSpace(s[i + 8..a]) && Lacks(s[a + 1..q], ')')
  {
    SkipSpaces(s, i + 8, a);
    SkipOthers(s, a + 1, ')', q);
  }

  /** The runs of line breaks after a function literal's `{`. */
  lemma BraceRunsOf(s: string, b: nat, c: nat, d: nat)
    requires b < c <= d <= |s| && c == Skip(s, b + 1, Is('\r')) && d == Skip(s, c, Is('\n'))
    ensures AllOf(s[b + 1..c], '\r') && AllOf(s[c..d], '\n')
  {
    SkipSame(s, b + 1, '\r', c);
    SkipSame(s, c, '\n', d);
  }

  /** The shape of a function-literal match, from the ends of its runs. */
  lemma FunctionShapeOf(s: string, i: nat, a: nat, q: nat, b: nat, c: nat, d: nat, m: Match)
    requires StartsAt(s, i, "function") && i + 8 <= a < q < b < c <= d <= |s|
    requires s[a] == '(' && s[b] == '{'
    requires s[q] == ')' && AllSpace(s[i + 8..a]) && Lacks(s[a + 1..q], ')') && AllSpace(s[q + 1..b])
    requires AllOf(s[b + 1..c], '\r') && AllOf(s[c..d], '\n')
    requires m == Match(i, |s|, s[i..], [s[a + 1..q], s[d..]])
    ensures && |m.groups| == 2 && Lacks(m.groups[0], ')') && m.end == |s|
      && exists sp, sp', cr, lf ::
        && AllSpace(sp) && AllSpace(sp') && AllOf(cr, '\r') && AllOf(lf, '\n')
        && m.whole == "function" + sp + "(" + m.groups[0] + ")" + sp' + "{" + cr + lf + m.groups[1]
  {
    FunctionPieces(s, i, a, q, b, c, d);
    FunctionShapeFrom(m, s[i + 8..a], s[q + 1..b], s[b + 1..c], s[c..d]);
  }

  /** The match a function literal yields, given the ends of its runs. */
  lemma FunctionAtValue(s: string, i: nat, a: nat, q: nat, b: nat, c: nat, d: nat)
    requires i <= |s| && FunctionAt(s, i).Some?
    requires a == Skip(s, i + 8, Space) && q == Skip(s, a + 1, Not(')')) && b == Skip(s, q + 1, Space)
    requires c == Skip(s, b + 1, Is('\r')) && d == Skip(s, c, Is('\n'))
    ensures StartsAt(s, i, "function") && i + 8 <= a < q < b < c <= d <= |s|
    ensures s[a] == '(' && s[b] == '{'
    ensures FunctionAt(s, i) == Some(Match(i, |s|, s[i..], [s[a + 1..q], s[d..]]))
  {
    AtStep(s, i, a);
    ParenStep(s, i, a, q);
    CloseStep(s, i, a, q, b);
    BraceStep(s, i, a, q, b, c, d);
  }

  /** Each stage of `FunctionAt` that succeeds hands over to the next. */
  lemma AtStep(s: string, i: nat, a: nat)
    requires i <= |s| && FunctionAt(s, i).Some? && a == Skip(s, i + 8, Space)
    ensures StartsAt(s, i, "function") && i + 8 <= a <= |s| && FunctionAt(s, i) == FunctionParen(s, i, a)
  {
  }

  lemma ParenStep(s: string, i: nat, a: nat, q: nat)
    requires i + 8 <= a <= |s| && FunctionParen(s, i, a).Some?
    requires a < |s| ==> q == Skip(s, a + 1, Not(')'))
    ensures a < |s| && s[a] == '(' && a < q <= |s| && FunctionParen(s, i, a) == FunctionClose(s, i, a, q)
  {
  }

  lemma CloseStep(s: string, i: nat, a: nat, q: nat, b: nat)
    requires i + 8 <= a < q <= |s| && FunctionClose(s, i, a, q).Some?
    requires q < |s| ==> b == Skip(s, q + 1, Space)
    ensures q < b <= |s| && FunctionClose(s, i, a, q) == FunctionBrace(s, i, a, q, b)
  {
  }

  lemma BraceStep(s: string, i: nat, a: nat, q: nat, b: nat, c: nat, d: nat)
    requires i + 8 <= a < q < b <= |s| && FunctionBrace(s, i, a, q, b).Some?
    requires b < |s| ==> c == Skip(s, b + 1, Is('\r'))
    requires c <= |s| && d == Skip(s, c, Is('\n'))
    ensures b < c <= d <= |s| && s[b] == '{'
    ensures FunctionBrace(s, i, a, q, b) == Some(Match(i, |s|, s[i..], [s[a + 1..q], s[d..]]))
  {
  }

  /** A run of characters other than `c` that stops inside the text stops at `c`. */
  lemma SkipStops(s: string, j: nat, c: char)
    requires j <= |s| && Skip(s, j, Not(c)) < |s|
    ensures s[Skip(s, j, Not(c))] == c
  {
  }

  /** Witnesses for the shape of a function-literal match. */
  lemma FunctionShapeFrom(m: Match, sp: string, sp': string, cr: string, lf: string)
    requires AllSpace(sp) && AllSpace(sp') && AllOf(cr, '\r') && AllOf(lf, '\n') && |m.groups| == 2
    requires m.whole == "function" + sp + "(" + m.groups[0] + ")" + sp' + "{" + cr + lf + m.groups[1]
    ensures exists sp, sp', cr, lf ::
      && AllSpace(sp) && AllSpace(sp') && AllOf(cr, '\r') && AllOf(lf, '\n')
      && m.whole == "function" + sp + "(" + m.groups[0] + ")" + sp' + "{" + cr + lf + m.groups[1]
  {
  }

  lemma SkipSpaces(s: string, j: nat, e: nat)
    requires j <= |s| && e == Skip(s, j, Space)
    ensures AllSpace(s[j..e])
  {
    SkipSlice(s, j, Space);
  }

  lemma SkipOthers(s: string, j: nat, c: char, e: nat)
    requires j <= |s| && e == Skip(s, j, Not(c))
    ensures Lacks(s[j..e], c)
  {
    SkipSlice(s, j, Not(c));
  }

  lemma SkipSame(s: string, j: nat, c: char, e: nat)
    requires j <= |s| && e == Skip(s, j, Is(c))
    ensures AllOf(s[j..e], c)
  {
    SkipSlice(s, j, Is(c));
  }

  /** The text from a function literal's start, cut at the ends of its runs. */
  lemma FunctionPieces(s: string, i: nat, a: nat, q: nat, b: nat, c: nat, d: nat)
    requires StartsAt(s, i, "function") && i + 8 <= a < q < b < c <= d <= |s|
    requires s[a] == '(' && s[q] == ')' && s[b] == '{'
    ensures s[i..] == "function" + s[i + 8..a] + "(" + s[a + 1..q] + ")" + s[q + 1..b] + "{" + s[b + 1..c] + s[c..d] + s[d..]
  {
    var w1 := "function" + s[i + 8..a];
    StartsAtConcat(s, i, "function", s[i + 8..a]);
    StartsAtChar(s, a, '(');
    StartsAtConcat(s, i, w1, "(");
    var w2 := w1 + "(" + s[a + 1..q];
    StartsAtConcat(s, i, w1 + "(", s[a + 1..q]);
    StartsAtChar(s, q, ')');
    StartsAtConcat(s, i, w2, ")");
    var w3 := w2 + ")" + s[q + 1..b];
    StartsAtConcat(s, i, w2 + ")", s[q + 1..b]);
    StartsAtChar(s, b, '{');
    StartsAtConcat(s, i, w3, "{");
    var w4 := w3 + "{" + s[b + 1..c];
    StartsAtConcat(s, i, w3 + "{", s[b + 1..c]);
    StartsAtConcat(s, i, w4, s[c..d]);
    StartsAtConcat(s, i, w4 + s[c..d], s[d..]);
  }

  /** A function literal's head, located by its runs, is a match there whose
      parameter group lies between the parentheses. */
  lemma FunctionHead(s: string, i: nat, a: nat, q: nat, b: nat)
    requires i + 8 <= |s| && StartsAt(s, i, "function")
    requires Skip(s, i + 8, Space) == a && a < |s| && s[a] == '('
    requires Skip(s, a + 1, Not(')')) == q && q < |s|
    requires Skip(s, q + 1, Space) == b && b < |s| && s[b] == '{'
    ensures FunctionAt(s, i).Some? && FunctionAt(s, i).value.groups[0] == s[a + 1..q]
  {
  }

  /** Conversely, `function`, white space, `(`, a text without `)`, `)`,
      white space and `{` anywhere start a function-literal match there, whose
      parameter group is that text. */
  lemma FunctionAtFromText(s: string, i: nat, sp: string, params: string, sp': string)
    requires AllSpace(sp) && AllSpace(sp') && Lacks(params, ')')
    requires StartsAt(s, i, "function" + sp + "(" + params + ")" + sp' + "{")
    ensures FunctionAt(s, i).Some? && FunctionAt(s, i).value.groups[0] == params
  {
    var a := i + 8 + |sp|;
    var q := a + 1 + |params|;
    var b := q + 1 + |sp'|;
    HeadAt(s, i, sp, params, sp');
    HeadRuns(s, i, sp, params, sp', a, q, b);
    FunctionHead(s, i, a, q, b);
  }

  /** The runs of a function literal's head end where its pieces do. */
  lemma HeadRuns(s: string, i: nat, sp: string, params: string, sp': string, a: nat, q: nat, b: nat)
    requires AllSpace(sp) && AllSpace(sp') && Lacks(params, ')')
    requires a == i + 8 + |sp| && q == a + 1 + |params| && b == q + 1 + |sp'| && b < |s|
    requires StartsAt(s, i + 8, sp) && s[a] == '(' && StartsAt(s, a + 1, params) && s[q] == ')'
    requires StartsAt(s, q + 1, sp') && s[b] == '{'
    ensures Skip(s, i + 8, Space) == a && Skip(s, a + 1, Not(')')) == q && Skip(s, q + 1, Space) == b
  {
    SkipRun(s, i + 8, sp, Space);
    SkipRun(s, a + 1, params, Not(')'));
    SkipRun(s, q + 1, sp', Space);
  }

  /** The pieces of a function literal's head, each at its own position. */
  lemma HeadAt(s: string, i: nat, sp: string, params: string, sp': string)
    requires StartsAt(s, i, "function" + sp + "(" + params + ")" + sp' + "{")
    ensures var a := i + 8 + |sp|; var q := a + 1 + |params|; var b := q + 1 + |sp'|;
      && b < |s| && StartsAt(s, i, "function") && StartsAt(s, i + 8, sp) && s[a] == '('
      && StartsAt(s, a + 1, params) && s[q] == ')' && StartsAt(s, q + 1, sp') && s[b] == '{'
  {
    var w1 := "function" + sp;
    var w2 := w1 + "(" + params;
    var w3 := w2 + ")" + sp';
    StartsAtIndex(s, i, w3 + "{", |w3|);
    StartsAtSplit(s, i, w3, "{");
    StartsAtRest(s, i, w2 + ")", sp');
    StartsAtSplit(s, i, w2 + ")", sp');
    StartsAtIndex(s, i, w2 + ")", |w2|);
    StartsAtSplit(s, i, w2, ")");
    StartsAtRest(s, i, w1 + "(", params);
    StartsAtSplit(s, i, w1 + "(", params);
    StartsAtIndex(s, i, w1 + "(", |w1|);
    StartsAtSplit(s, i, w1, "(");
    StartsAtRest(s, i, "function", sp);
    StartsAtSplit(s, i, "function", sp);
  }
}
