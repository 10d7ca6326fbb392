/** The template registry of lib/templates.js: `options`, `cacheRaw`, the
    `Template` objects with `use` and `resolve`, `resolved`, `createInstance`,
    `resolve`, `validate`, and the in-memory rewrite `processSrc` performs on
    one source text. */
module Resolution {
  import opened Results
  import opened Text
  import Tokenizer
  import opened Scan
  import opened Objects
  import opened Expansion

  // ---------------------------------------------------------------------
  // Templates, listeners and the log
  // ---------------------------------------------------------------------

  /** UNRESOLVED, RESOLVED and ACTIVE. */
  datatype State = Unresolved | Resolved | Active

  /** The object `new Template(id, args, body)` builds before it resolves itself. */
  function Constructed(id: string, params: seq<string>, body: Option<string>): (t: Template)
    ensures t.id == id && t.params == params && t.state == Unresolved
    ensures t.isNull <==> body.None?
    ensures t.body == if body.Some? then body.value else "null"
  {
    Template(id, params, BodyText(body), Unresolved, body.None?)
  }

  /** States only move forward. */
  function Rank(s: State): nat {
    match s
    case Unresolved => 0
    case Resolved => 1
    case Active => 2
  }

  /** A `Template` object: its id, declared parameter names, body and state.
      `isNull` marks a body that is JavaScript null; `body` is then "null",
      the text string conversion gives it. */
  datatype Template = Template(id: string, params: seq<string>, body: string, state: State, isNull: bool)

  /** A one-time listener on `template.<event>.resolved`, run as the
      `dependencyResolved` of template `waiter`. */
  datatype Listener = Listener(event: string, waiter: string)

  /** The warnings printed and the resolution events emitted, in order. */
  datatype Event =
    | Redefined(key: string)
    | AlreadyResolved(id: string)
    | Overwritten(id: string)
    | Emitted(id: string)

  /** An option value: a flag or a string. */
  datatype OptValue = Flag(b: bool) | Str(s: string)

  /** JavaScript truthiness of an option value. */
  predicate Truthy(v: OptValue) {
    match v
    case Flag(b) => b
    case Str(s) => s != ""
  }

  /** A body with no `__template__[id][…]` marker left: what lets `resolve`
      mark it resolved at once. */
  predicate Settled(body: string) {
    Find(TemplateMarker, body, 0).None?
  }

  /** The ids of the waiters on `event`, in the order they were queued. */
  function Waiters(ps: seq<Listener>, event: string): (ws: seq<string>)
    ensures forall i :: 0 <= i < |ws| ==> Listener(event, ws[i]) in ps
  {
    if ps == [] then []
    else (if ps[0].event == event then [ps[0].waiter] else []) + Waiters(ps[1..], event)
  }

  /** The listeners on other events, in order. */
  function Remaining(ps: seq<Listener>, event: string): (rs: seq<Listener>)
    ensures forall i :: 0 <= i < |rs| ==> rs[i] in ps && rs[i].event != event
    ensures |rs| + |Waiters(ps, event)| == |ps|
  {
    if ps == [] then []
    else (if ps[0].event == event then [] else [ps[0]]) + Remaining(ps[1..], event)
  }

  /** The listeners `resolve` queues for template `w`, one per dependency visited. */
  function Queue(ds: seq<string>, w: string): (q: seq<Listener>)
    ensures |q| == |ds|
    ensures forall i :: 0 <= i < |ds| ==> q[i] == Listener(ds[i], w)
  {
    seq(|ds|, i requires 0 <= i < |ds| => Listener(ds[i], w))
  }

  /** The ids the matches name. */
  function Ids(ms: seq<Match>): (ids: seq<string>)
    ensures |ids| == |ms| && forall i :: 0 <= i < |ms| ==> ids[i] == Name(ms[i])
  {
    seq(|ms|, i requires 0 <= i < |ms| => Name(ms[i]))
  }

  /** The dependencies of a body: the ids of its template markers, in order
      and with repetitions. Each is a word. */
  function Dependencies(body: string): (ds: seq<string>)
    ensures forall i :: 0 <= i < |ds| ==> IsWord(ds[i])
  {
    var ms := AllMatches(TemplateMarker, body, 0);
    assert forall i :: 0 <= i < |ms| ==> IsWord(Name(ms[i])) by {
      forall i | 0 <= i < |ms| ensures IsWord(Name(ms[i])) {
        MarkerNameIsWord(body, ms[i].start);
      }
    }
    Ids(ms)
  }

  /** A dependency is ready when it is in the registry and not UNRESOLVED. */
  predicate Ready(d: string, registry: seq<string>, objs: map<string, Template>) {
    d in registry && d in objs && objs[d].state != Unresolved
  }

  /** Between two moments of resolution no template is lost, its id and
      parameters are fixed, its state only moves forward, and a body that is
      no longer UNRESOLVED does not change. */
  ghost predicate Progress(a: map<string, Template>, b: map<string, Template>) {
    && a.Keys <= b.Keys
    && forall id :: id in a ==>
      && b[id].id == a[id].id && b[id].params == a[id].params && b[id].isNull == a[id].isNull
      && Rank(a[id].state) <= Rank(b[id].state)
      && (a[id].state != Unresolved ==> b[id].body == a[id].body)
  }

  lemma ProgressTrans(a: map<string, Template>, b: map<string, Template>, c: map<string, Template>)
    requires Progress(a, b) && Progress(b, c)
    ensures Progress(a, c)
  {
  }

  // ---------------------------------------------------------------------
  // Specifications of the rewrites that call templates
  // ---------------------------------------------------------------------

  /** `use` on template `t` with arguments `args`. A null body fails at the
      first string method called on it: `replace` after the first
      argument's macros are applied, or the ACTIVE check; otherwise it is
      returned as it is, and the callers' `replace` inserts "null". */
  function UseSpec(t: Template, args: seq<string>, macros: Dict<Macro>, macroToken: string, validate: bool): Result<string, Failure> {
    if t.isNull && args != [] then
      var k := MacroInvoke(macroToken);
      var _ :- MacroPass(args[0], k, AllMatches(k, args[0], 0), macros, validate);
      Err(NullBody)
    else if t.isNull && t.state == Active then Err(NullBody)
    else Expanded(t.body, t.params, t.state == Active, args, macros, macroToken, validate)
  }

  /** The visits of `dependencyResolved`: every marker naming dependency
      `dep` is replaced, by first occurrence, with `dep`'s expansion on the
      marker's arguments. */
  function Inlined(body: string, dep: Template, ms: seq<Match>, macros: Dict<Macro>, macroToken: string, validate: bool): Result<string, Failure>
    decreases |ms|
  {
    if ms == [] then Ok(body)
    else
      var k := NamedTemplate(dep.id);
      var out :- UseSpec(dep, Params(k, ms[0]), macros, macroToken, validate);
      Inlined(ReplaceFirst(body, MatchText(k, ms[0]), out), dep, ms[1..], macros, macroToken, validate)
  }

  lemma InlinedStep(body: string, dep: Template, ms: seq<Match>, i: nat, macros: Dict<Macro>, macroToken: string, validate: bool)
    requires i < |ms|
    ensures Inlined(body, dep, ms[i..], macros, macroToken, validate) ==
      var k := NamedTemplate(dep.id);
      var u := UseSpec(dep, Params(k, ms[i]), macros, macroToken, validate);
      if u.Err? then Err(u.error)
      else Inlined(ReplaceFirst(body, MatchText(k, ms[i]), u.value), dep, ms[i + 1..], macros, macroToken, validate)
  {
    SuffixStep(ms, i);
  }

  /** The visits of `dependencyResolved` for the dependencies `ds`, each
      already resolved, one after the other on the body; the first failing
      use stops the sequence. */
  function InlineEach(body: string, ds: seq<string>, objs: map<string, Template>, macros: Dict<Macro>,
                      macroToken: string, validate: bool): Result<string, Failure>
    requires forall j :: 0 <= j < |ds| ==> ds[j] in objs
    decreases |ds|
  {
    if ds == [] then Ok(body)
    else
      var i := |ds| - 1;
      var b :- InlineEach(body, ds[..i], objs, macros, macroToken, validate);
      Inlined(b, objs[ds[i]], AllMatches(NamedTemplate(ds[i]), b, 0), macros, macroToken, validate)
  }

  lemma InlineEachStep(body: string, ds: seq<string>, i: nat, objs: map<string, Template>, macros: Dict<Macro>,
                       macroToken: string, validate: bool)
    requires forall j :: 0 <= j < |ds| ==> ds[j] in objs
    requires i < |ds|
    ensures InlineEach(body, ds[..i + 1], objs, macros, macroToken, validate) ==
      var b := InlineEach(body, ds[..i], objs, macros, macroToken, validate);
      if b.Err? then b
      else Inlined(b.value, objs[ds[i]], AllMatches(NamedTemplate(ds[i]), b.value, 0), macros, macroToken, validate)
  {
    assert ds[..i + 1][..i] == ds[..i];
  }

  /** Once a visit has failed, the later dependencies change nothing: the
      sequence ends with that failure. */
  lemma {:induction false} InlineEachSticks(body: string, ds: seq<string>, objs: map<string, Template>, macros: Dict<Macro>,
                                            macroToken: string, validate: bool, k: nat)
    requires forall j :: 0 <= j < |ds| ==> ds[j] in objs
    requires k <= |ds| && InlineEach(body, ds[..k], objs, macros, macroToken, validate).Err?
    ensures InlineEach(body, ds, objs, macros, macroToken, validate) == InlineEach(body, ds[..k], objs, macros, macroToken, validate)
    decreases |ds|
  {
    if k == |ds| {
      assert ds[..k] == ds;
    } else {
      var i := |ds| - 1;
      assert ds[..i][..k] == ds[..k];
      InlineEachSticks(body, ds[..i], objs, macros, macroToken, validate, k);
      InlineEachStep(body, ds, i, objs, macros, macroToken, validate);
      assert ds[..i + 1] == ds;
    }
  }

  /** The state of `resolve`'s visits after the first `i` dependencies
      when every dependency was already resolved and nobody waits on `self`:
      the body is the successive inlining of those dependencies, and nothing
      but `self` changes, which is RESOLVED (and registered) once no
      `__template__` text is left. */
  ghost predicate Alone(self: string, o: Template, ds: seq<string>, i: nat, objs0: map<string, Template>,
                        pending0: seq<Listener>, exported0: set<string>,
                        objs: map<string, Template>, pending: seq<Listener>, exported: set<string>,
                        macros: Dict<Macro>, macroToken: string, validate: bool) {
    && i <= |ds| && (forall j :: 0 <= j < |ds| ==> ds[j] in objs0) && self in objs
    && InlineEach(o.body, ds[..i], objs0, macros, macroToken, validate) == Ok(objs[self].body)
    && var done := i > 0 && !Contains(objs[self].body, TemplateMarkerText);
       && pending == pending0
       && objs == objs0[self := o.(body := objs[self].body, state := if done then Resolved else Unresolved)]
       && exported == exported0 + (if done then {self} else {})
  }

  /** How `resolve` ends for template `self` (value `o` beforehand) when
      every dependency in `ds` was already resolved and nobody waits on
      `self`: a failing use fails the whole successive inlining with its
      error; otherwise `Alone` holds after all of `ds`. */
  ghost predicate InlinedAlone(self: string, o: Template, ds: seq<string>, objs0: map<string, Template>,
                               pending0: seq<Listener>, exported0: set<string>,
                               objs: map<string, Template>, pending: seq<Listener>, exported: set<string>,
                               macros: Dict<Macro>, macroToken: string, validate: bool, r: Outcome<Failure>) {
    && (forall j :: 0 <= j < |ds| ==> ds[j] in objs0)
    && (r.Fail? ==> InlineEach(o.body, ds, objs0, macros, macroToken, validate) == Err(r.error))
    && (r.Pass? ==> Alone(self, o, ds, |ds|, objs0, pending0, exported0, objs, pending, exported, macros, macroToken, validate))
  }

  /** One visit of a resolved dependency `ds[i]` keeps `Alone`, or fails
      with the failure of the whole sequence of visits. */
  lemma AloneVisit(self: string, o: Template, ds: seq<string>, i: nat, objs0: map<string, Template>,
                   pending0: seq<Listener>, exported0: set<string>,
                   objs1: map<string, Template>, exported1: set<string>, trace1: seq<Event>,
                   objs2: map<string, Template>, pending2: seq<Listener>, exported2: set<string>, trace2: seq<Event>,
                   r: Outcome<Failure>, macros: Dict<Macro>, macroToken: string, validate: bool)
    requires Alone(self, o, ds, i, objs0, pending0, exported0, objs1, pending0, exported1, macros, macroToken, validate)
    requires i < |ds| && self in objs0 && o == objs0[self] && o.state == Unresolved && Waiters(pending0, self) == []
    requires objs0[ds[i]].state != Unresolved && objs0[ds[i]].id == ds[i] && IsWord(ds[i])
    requires objs1[self].state != Unresolved ==> Settled(objs1[self].body)
    requires var b := objs1[self].body;
      var out := Inlined(b, objs1[ds[i]], AllMatches(NamedTemplate(ds[i]), b, 0), macros, macroToken, validate);
      && (out.Err? ==> r == Fail(out.error))
      && (out.Ok? ==> Rechecked(self, objs1[self := objs1[self].(body := out.value)], pending0, exported1, trace1,
                                objs2, pending2, exported2, trace2, r))
    ensures r.Fail? ==> InlineEach(o.body, ds, objs0, macros, macroToken, validate) == Err(r.error)
    ensures r.Pass? ==> Alone(self, o, ds, i + 1, objs0, pending0, exported0, objs2, pending2, exported2, macros, macroToken, validate)
  {
    var b, st := objs1[self].body, objs1[self].state;
    var dep := objs1[ds[i]];
    assert dep == objs0[ds[i]];
    var out := Inlined(b, dep, AllMatches(NamedTemplate(ds[i]), b, 0), macros, macroToken, validate);
    InlineEachStep(o.body, ds, i, objs0, macros, macroToken, validate);
    assert InlineEach(o.body, ds[..i + 1], objs0, macros, macroToken, validate) == out;
    if out.Err? {
      InlineEachSticks(o.body, ds, objs0, macros, macroToken, validate, i + 1);
      return;
    }
    var v := out.value;
    if st != Unresolved {
      SettledHasNoUses(b, dep, macros, macroToken, validate);
      assert v == b;
    }
    var t1 := o.(body := v, state := st);
    assert objs1[self].(body := v) == t1;
    Overwrite(objs0, self, objs1[self], t1);
    if !Contains(v, TemplateMarkerText) {
      Overwrite(objs0, self, t1, t1.(state := Resolved));
    }
  }

  lemma Overwrite(m: map<string, Template>, k: string, a: Template, b: Template)
    ensures m[k := a][k := b] == m[k := b]
  {
  }

  ghost predicate NoneReady(ds: seq<string>, registry: seq<string>, objs: map<string, Template>) {
    forall j :: 0 <= j < |ds| ==> !Ready(ds[j], registry, objs)
  }

  ghost predicate AllReady(ds: seq<string>, registry: seq<string>, objs: map<string, Template>) {
    forall j :: 0 <= j < |ds| ==> Ready(ds[j], registry, objs)
  }

  /** What `resolve`'s visits of the first `i` dependencies of `self` have
      done to the state `(objs0, pending0, exported0, trace0)`: when none
      was ready, one listener per dependency is queued and nothing else
      changes; when all were ready, the queue does not grow, and when
      moreover nobody waits on an UNRESOLVED `self`, `Alone` holds. */
  ghost predicate Visits(self: string, ds: seq<string>, i: nat, registry: seq<string>, objs0: map<string, Template>,
                         pending0: seq<Listener>, exported0: set<string>, trace0: seq<Event>,
                         objs: map<string, Template>, pending: seq<Listener>, exported: set<string>, trace: seq<Event>,
                         macros: Dict<Macro>, macroToken: string, validate: bool) {
    && i <= |ds| && self in objs0
    && (NoneReady(ds, registry, objs0) ==>
          objs == objs0 && pending == pending0 + Queue(ds[..i], self) && exported == exported0 && trace == trace0)
    && (AllReady(ds, registry, objs0) ==> |pending| <= |pending0|)
    && (AllReady(ds, registry, objs0) && objs0[self].state == Unresolved && Waiters(pending0, self) == [] ==>
          Alone(self, objs0[self], ds, i, objs0, pending0, exported0, objs, pending, exported, macros, macroToken, validate))
  }

  /** A visit failed with `r`: so some dependency was ready, the queue has
      not grown when all were, and in the `Alone` case the whole sequence
      of visits fails with `r`'s failure. */
  ghost predicate VisitsFailed(self: string, ds: seq<string>, registry: seq<string>, objs0: map<string, Template>,
                               pending0: seq<Listener>, pending: seq<Listener>,
                               macros: Dict<Macro>, macroToken: string, validate: bool, r: Outcome<Failure>) {
    && r.Fail? && self in objs0 && !NoneReady(ds, registry, objs0)
    && (AllReady(ds, registry, objs0) ==> |pending| <= |pending0|)
    && (AllReady(ds, registry, objs0) && objs0[self].state == Unresolved && Waiters(pending0, self) == [] ==>
          InlineEach(objs0[self].body, ds, objs0, macros, macroToken, validate) == Err(r.error))
  }

  /** Before any visit, `Visits` holds of the untouched state. */
  lemma VisitsStart(self: string, ds: seq<string>, registry: seq<string>, objs0: map<string, Template>,
                    pending0: seq<Listener>, exported0: set<string>, trace0: seq<Event>,
                    macros: Dict<Macro>, macroToken: string, validate: bool)
    requires self in objs0
    ensures Visits(self, ds, 0, registry, objs0, pending0, exported0, trace0, objs0, pending0, exported0, trace0,
                   macros, macroToken, validate)
  {
    assert Queue(ds[..0], self) == [] && pending0 + [] == pending0;
    var o := objs0[self];
    if AllReady(ds, registry, objs0) && o.state == Unresolved {
      assert objs0 == objs0[self := o.(body := o.body, state := Unresolved)];
    }
  }

  /** How `resolve`'s visits of all of `ds` end, from the state `(objs0,
      pending0, exported0, trace0)`: when no dependency was ready, they
      pass after queueing one listener per dependency and changing nothing
      else; when all were ready, the queue has not grown, and when
      moreover nobody waited on an UNRESOLVED `self`, `InlinedAlone` says
      what became of it. */
  ghost predicate Visited(self: string, ds: seq<string>, registry: seq<string>, objs0: map<string, Template>,
                          pending0: seq<Listener>, exported0: set<string>, trace0: seq<Event>,
                          objs: map<string, Template>, pending: seq<Listener>, exported: set<string>, trace: seq<Event>,
                          macros: Dict<Macro>, macroToken: string, validate: bool, r: Outcome<Failure>) {
    && (NoneReady(ds, registry, objs0) ==>
          r == Pass && objs == objs0 && pending == pending0 + Queue(ds, self) && exported == exported0 && trace == trace0)
    && (AllReady(ds, registry, objs0) ==> |pending| <= |pending0|)
    && (AllReady(ds, registry, objs0) && self in objs0 && objs0[self].state == Unresolved && Waiters(pending0, self) == [] ==>
          InlinedAlone(self, objs0[self], ds, objs0, pending0, exported0, objs, pending, exported, macros, macroToken, validate, r))
  }

  /** After visits of every dependency, the loop passes as `Visited` says. */
  lemma VisitsComplete(self: string, ds: seq<string>, registry: seq<string>, objs0: map<string, Template>,
                       pending0: seq<Listener>, exported0: set<string>, trace0: seq<Event>,
                       objs: map<string, Template>, pending: seq<Listener>, exported: set<string>, trace: seq<Event>,
                       macros: Dict<Macro>, macroToken: string, validate: bool)
    requires Visits(self, ds, |ds|, registry, objs0, pending0, exported0, trace0, objs, pending, exported, trace,
                    macros, macroToken, validate)
    ensures Visited(self, ds, registry, objs0, pending0, exported0, trace0, objs, pending, exported, trace,
                    macros, macroToken, validate, Pass)
  {
    assert ds[..|ds|] == ds;
  }

  /** A failed visit ends `resolve`'s loop as `Visited` says: some
      dependency was ready, and when all were and nobody waited on `self`,
      the successive inlining fails as the visit did. */
  lemma VisitsFailedComplete(self: string, ds: seq<string>, registry: seq<string>, objs0: map<string, Template>,
                             pending0: seq<Listener>, exported0: set<string>, trace0: seq<Event>,
                             objs: map<string, Template>, pending: seq<Listener>, exported: set<string>, trace: seq<Event>,
                             macros: Dict<Macro>, macroToken: string, validate: bool, r: Outcome<Failure>)
    requires VisitsFailed(self, ds, registry, objs0, pending0, pending, macros, macroToken, validate, r)
    ensures Visited(self, ds, registry, objs0, pending0, exported0, trace0, objs, pending, exported, trace,
                    macros, macroToken, validate, r)
  {
  }

  /** Visit `i` of a ready dependency, through `dependencyResolved`. */
  lemma VisitsReady(self: string, ds: seq<string>, i: nat, registry: seq<string>, objs0: map<string, Template>,
                    pending0: seq<Listener>, exported0: set<string>, trace0: seq<Event>,
                    objs1: map<string, Template>, pending1: seq<Listener>, exported1: set<string>, trace1: seq<Event>,
                    objs2: map<string, Template>, pending2: seq<Listener>, exported2: set<string>, trace2: seq<Event>,
                    r: Outcome<Failure>, macros: Dict<Macro>, macroToken: string, validate: bool)
    requires Visits(self, ds, i, registry, objs0, pending0, exported0, trace0, objs1, pending1, exported1, trace1,
                    macros, macroToken, validate)
    requires i < |ds| && IsWord(ds[i]) && ds[i] in registry && ds[i] in objs1
    requires objs1[ds[i]].state != Unresolved && objs1[ds[i]].id == ds[i]
    requires self in objs1 && (objs1[self].state != Unresolved ==> Settled(objs1[self].body))
    requires |pending2| <= |pending1|
    requires var b := objs1[self].body;
      var out := Inlined(b, objs1[ds[i]], AllMatches(NamedTemplate(ds[i]), b, 0), macros, macroToken, validate);
      && (out.Err? ==> r == Fail(out.error))
      && (out.Ok? ==> Rechecked(self, objs1[self := objs1[self].(body := out.value)], pending1, exported1, trace1,
                                objs2, pending2, exported2, trace2, r))
    ensures r.Pass? ==> Visits(self, ds, i + 1, registry, objs0, pending0, exported0, trace0, objs2, pending2, exported2, trace2,
                               macros, macroToken, validate)
    ensures r.Fail? ==> VisitsFailed(self, ds, registry, objs0, pending0, pending2, macros, macroToken, validate, r)
  {
    assert !NoneReady(ds, registry, objs0);
    if AllReady(ds, registry, objs0) && objs0[self].state == Unresolved && Waiters(pending0, self) == [] {
      assert Ready(ds[i], registry, objs0);
      AloneVisit(self, objs0[self], ds, i, objs0, pending0, exported0, objs1, exported1, trace1,
                 objs2, pending2, exported2, trace2, r, macros, macroToken, validate);
    }
  }

  /** Visit `i` of a dependency that is not ready: a listener is queued. */
  lemma VisitsQueued(self: string, ds: seq<string>, i: nat, registry: seq<string>, objs0: map<string, Template>,
                     pending0: seq<Listener>, exported0: set<string>, trace0: seq<Event>,
                     objs1: map<string, Template>, pending1: seq<Listener>, exported1: set<string>, trace1: seq<Event>,
                     macros: Dict<Macro>, macroToken: string, validate: bool)
    requires Visits(self, ds, i, registry, objs0, pending0, exported0, trace0, objs1, pending1, exported1, trace1,
                    macros, macroToken, validate)
    requires i < |ds| && Progress(objs0, objs1) && !Ready(ds[i], registry, objs1)
    ensures Visits(self, ds, i + 1, registry, objs0, pending0, exported0, trace0,
                   objs1, pending1 + [Listener(ds[i], self)], exported1, trace1, macros, macroToken, validate)
  {
    assert Queue(ds[..i + 1], self) == Queue(ds[..i], self) + [Listener(ds[i], self)];
    assert !AllReady(ds, registry, objs0);
  }

  /** The template-invocation pass of `processSrc`: a registered template
      replaces the first occurrence of the invocation text with its
      expansion; an unregistered one is an error when validating and is
      left in place otherwise. */
  function InvokePass(out: string, k: Kind, ms: seq<Match>, objs: map<string, Template>, exported: set<string>,
                      macros: Dict<Macro>, macroToken: string, validate: bool): Result<string, Failure>
    decreases |ms|
  {
    if ms == [] then Ok(out)
    else
      var name := Name(ms[0]);
      if name !in exported && validate then Err(UnknownTemplate(name))
      else if name in exported && name in objs then
        var v :- UseSpec(objs[name], Params(k, ms[0]), macros, macroToken, validate);
        InvokePass(ReplaceFirst(out, MatchText(k, ms[0]), v), k, ms[1..], objs, exported, macros, macroToken, validate)
      else InvokePass(out, k, ms[1..], objs, exported, macros, macroToken, validate)
  }

  lemma InvokePassStep(out: string, k: Kind, ms: seq<Match>, i: nat, objs: map<string, Template>, exported: set<string>,
                       macros: Dict<Macro>, macroToken: string, validate: bool)
    requires i < |ms|
    ensures InvokePass(out, k, ms[i..], objs, exported, macros, macroToken, validate) ==
      var name := Name(ms[i]);
      if name !in exported && validate then Err(UnknownTemplate(name))
      else if name in exported && name in objs then
        var u := UseSpec(objs[name], Params(k, ms[i]), macros, macroToken, validate);
        if u.Err? then Err(u.error)
        else InvokePass(ReplaceFirst(out, MatchText(k, ms[i]), u.value), k, ms[i + 1..], objs, exported, macros, macroToken, validate)
      else InvokePass(out, k, ms[i + 1..], objs, exported, macros, macroToken, validate)
  {
    SuffixStep(ms, i);
  }

  /** What `processSrc` writes for one source text, before beautifying:
      template invocations, then macro invocations, then the completeness
      check when validating. */
  function Processed(src: string, objs: map<string, Template>, exported: set<string>, macros: Dict<Macro>,
                     invokeToken: string, macroToken: string, validate: bool): Result<string, Failure>
  {
    var k := Invoke(invokeToken);
    var a :- InvokePass(src, k, AllMatches(k, src, 0), objs, exported, macros, macroToken, validate);
    var m := MacroInvoke(macroToken);
    var b :- MacroPass(a, m, AllMatches(m, a, 0), macros, validate);
    if validate && CheckBody(b).Fail? then Err(CheckBody(b).error) else Ok(b)
  }

  /** The ids of `ids` whose template is not RESOLVED, in order: what
      `validate` reports. */
  function Unfinished(objs: map<string, Template>, ids: seq<string>): seq<string>
    decreases |ids|
  {
    if ids == [] then []
    else
      var i := |ids| - 1;
      Unfinished(objs, ids[..i]) + (if ids[i] in objs && objs[ids[i]].state != Resolved then [ids[i]] else [])
  }

  /** The registry after `validate` has visited `ids`: each RESOLVED one is ACTIVE. */
  function Activated(objs: map<string, Template>, ids: seq<string>): map<string, Template> {
    map id | id in objs :: if id in ids && objs[id].state == Resolved then objs[id].(state := Active) else objs[id]
  }

  /** A template with parameter names `params` and a body that is null iff
      `isNull` was built from function text `text`: the text is a function
      literal whose body scan does not throw, `params` are its split
      parameter names, and the body is null exactly when the text after `{`
      is shorter than two characters. Resolution changes neither. */
  predicate Built(text: string, params: seq<string>, isNull: bool) {
    match Find(FunctionLit, text, 0)
    case None => false
    case Some(m) => params == FunctionArgs(m) && BraceClosed(Group(m, 1)) && (isNull <==> |Group(m, 1)| < 2)
  }

  // ---------------------------------------------------------------------
  // The registry invariant and the updates that keep it
  // ---------------------------------------------------------------------

  /** What resolution maintains: each template is filed under its id; a
      template that is no longer UNRESOLVED has no dependency marker left and
      its callable is registered; a registered callable belongs to such a
      template; listeners wait on word ids for known templates; the
      registry lists known templates once each; and an event is emitted only
      once its callable is registered. */
  ghost predicate Inv(objs: map<string, Template>, exported: set<string>, pending: seq<Listener>,
                      registry: seq<string>, trace: seq<Event>) {
    && (forall id :: id in objs ==> objs[id].id == id)
    && (forall id :: id in objs && objs[id].state != Unresolved ==> Settled(objs[id].body) && id in exported)
    && (forall id :: id in exported ==> id in objs && objs[id].state != Unresolved)
    && (forall i :: 0 <= i < |pending| ==> pending[i].waiter in objs && IsWord(pending[i].event))
    && Distinct(registry) && (forall i :: 0 <= i < |registry| ==> registry[i] in objs)
    && (forall i :: 0 <= i < |trace| && trace[i].Emitted? ==> trace[i].id in exported)
  }

  /** What `assertTemplateUse` followed by resolution does to the state
      `(objs0, pending0, exported0, trace0)` of template `self`, giving
      `(objs, pending, exported, trace)` and the outcome `r`: a body with
      `__template__` text left keeps waiting and nothing changes; otherwise
      the template ends RESOLVED and registered, with its events logged, and
      when nobody waits on it that is all that changes. */
  ghost predicate Rechecked(self: string, objs0: map<string, Template>, pending0: seq<Listener>,
                            exported0: set<string>, trace0: seq<Event>,
                            objs: map<string, Template>, pending: seq<Listener>,
                            exported: set<string>, trace: seq<Event>, r: Outcome<Failure>) {
    self in objs0 && self in objs &&
    if Contains(objs0[self].body, TemplateMarkerText) then
      r == Pass && objs == objs0 && pending == pending0 && exported == exported0 && trace == trace0
    else
      && objs[self].state == Resolved && objs[self].body == objs0[self].body && self in exported
      && trace0 + (if self in exported0 then [Overwritten(self)] else []) + [Emitted(self)] <= trace
      && (Waiters(pending0, self) == [] ==>
            r == Pass && objs == objs0[self := objs0[self].(state := Resolved)] && pending == pending0
            && exported == exported0 + {self})
  }

  predicate NoActive(objs: map<string, Template>) {
    forall id :: id in objs ==> objs[id].state != Active
  }

  /** Marking a settled template RESOLVED and registering its callable. */
  lemma ResolvedKeepsInv(objs: map<string, Template>, exported: set<string>, pending: seq<Listener>,
                         registry: seq<string>, trace: seq<Event>, self: string, extra: seq<Event>)
    requires Inv(objs, exported, pending, registry, trace) && NoActive(objs)
    requires self in objs && Settled(objs[self].body)
    requires forall i :: 0 <= i < |extra| ==> !extra[i].Emitted?
    ensures var objs' := objs[self := objs[self].(state := Resolved)];
      && Inv(objs', exported + {self}, pending, registry, trace + extra)
      && NoActive(objs') && Progress(objs, objs') && objs'.Keys == objs.Keys
  {
    var objs' := objs[self := objs[self].(state := Resolved)];
    var t := trace + extra;
    assert forall i :: |trace| <= i < |t| ==> t[i] == extra[i - |trace|];
  }

  /** Rewriting the body of an UNRESOLVED template. */
  lemma BodyKeepsInv(objs: map<string, Template>, exported: set<string>, pending: seq<Listener>,
                     registry: seq<string>, trace: seq<Event>, self: string, body: string)
    requires Inv(objs, exported, pending, registry, trace) && NoActive(objs)
    requires self in objs && objs[self].state == Unresolved
    ensures var objs' := objs[self := objs[self].(body := body)];
      && Inv(objs', exported, pending, registry, trace)
      && NoActive(objs') && Progress(objs, objs') && objs'.Keys == objs.Keys
  {
  }

  /** Taking the waiters of a registered id off the queue and logging its event. */
  lemma EmitKeepsInv(objs: map<string, Template>, exported: set<string>, pending: seq<Listener>,
                     registry: seq<string>, trace: seq<Event>, id: string)
    requires Inv(objs, exported, pending, registry, trace) && id in exported
    ensures Inv(objs, exported, Remaining(pending, id), registry, trace + [Emitted(id)])
  {
    var rs := Remaining(pending, id);
    forall i | 0 <= i < |rs| ensures rs[i].waiter in objs && IsWord(rs[i].event) {
      var j :| 0 <= j < |pending| && pending[j] == rs[i];
    }
  }

  /** Queueing a listener of a known template on a word id. */
  lemma QueueKeepsInv(objs: map<string, Template>, exported: set<string>, pending: seq<Listener>,
                      registry: seq<string>, trace: seq<Event>, l: Listener)
    requires Inv(objs, exported, pending, registry, trace)
    requires l.waiter in objs && IsWord(l.event)
    ensures Inv(objs, exported, pending + [l], registry, trace)
  {
  }

  /** Logging warnings. */
  lemma WarningsKeepInv(objs: map<string, Template>, exported: set<string>, pending: seq<Listener>,
                        registry: seq<string>, trace: seq<Event>, keys: seq<string>)
    requires Inv(objs, exported, pending, registry, trace)
    ensures Inv(objs, exported, pending, registry, trace + Warnings(keys))
  {
    var t := trace + Warnings(keys);
    assert forall i :: |trace| <= i < |t| ==> t[i] == Redefined(keys[i - |trace|]);
  }

  /** Logging something other than an emission. */
  lemma LogKeepsInv(objs: map<string, Template>, exported: set<string>, pending: seq<Listener>,
                    registry: seq<string>, trace: seq<Event>, e: Event)
    requires Inv(objs, exported, pending, registry, trace) && !e.Emitted?
    ensures Inv(objs, exported, pending, registry, trace + [e])
  {
  }

  // ---------------------------------------------------------------------
  // The engine
  // ---------------------------------------------------------------------

  /** `use(args…)` on template `t` (`Template.prototype.use`): each
      argument has its macros applied and replaces its parameter's marker,
      then the macro markers are expanded, and an ACTIVE template is checked
      for leftover markers. The template itself is not changed. */
  method Use(t: Template, args: seq<string>, macros: Dict<Macro>, macroToken: string, validate: bool)
    returns (r: Result<string, Failure>)
    requires macros.Valid()
    ensures r == UseSpec(t, args, macros, macroToken, validate)
  {
    if t.isNull && args != [] {
      var a := ApplyMacros(args[0], MacroInvoke(macroToken), macros, validate);
      if a.Err? {
        return Err(a.error);
      }
      return Err(NullBody);
    }
    if t.isNull && t.state == Active {
      return Err(NullBody);
    }
    var body := t.body;
    for i := 0 to |args|
      invariant Substituted(t.body, t.params, args[..i], macros, macroToken, validate) == Ok(body)
    {
      assert args[..i + 1][..i] == args[..i];
      var a := ApplyMacros(args[i], MacroInvoke(macroToken), macros, validate);
      if a.Err? {
        SubstitutedSticks(t.body, t.params, args, i + 1, macros, macroToken, validate);
        return Err(a.error);
      }
      body := ReplaceAll(body, ArgMarker(ParamName(t.params, i)), a.value);
    }
    assert args[..|args|] == args;
    var u := ApplyMacros(body, MacroMarker, macros, validate);
    if u.Err? {
      return Err(u.error);
    }
    if t.state == Active {
      var c := CheckBody(u.value);
      if c.Fail? {
        return Err(c.error);
      }
    }
    r := Ok(u.value);
  }

  /** The visits of `dependencyResolved`: each marker naming `dep` in
      `body` is replaced, by first occurrence, with `dep`'s expansion, in a
      working copy. On failure the copy holds the replacements made so far. */
  method InlineUses(body: string, dep: Template, macros: Dict<Macro>, macroToken: string, validate: bool)
    returns (out: string, r: Outcome<Failure>)
    requires macros.Valid()
    ensures var spec := Inlined(body, dep, AllMatches(NamedTemplate(dep.id), body, 0), macros, macroToken, validate);
      && (r.Fail? <==> spec.Err?)
      && (r.Fail? ==> r.error == spec.error)
      && (r.Pass? ==> out == spec.value)
  {
    var k := NamedTemplate(dep.id);
    var uses := new Matcher(k, body);
    var visits := uses.Each(false);
    ghost var spec := Inlined(body, dep, visits, macros, macroToken, validate);
    out := body;
    for i := 0 to |visits|
      invariant Inlined(out, dep, visits[i..], macros, macroToken, validate) == spec
    {
      InlinedStep(out, dep, visits, i, macros, macroToken, validate);
      var u := Use(dep, Params(k, visits[i]), macros, macroToken, validate);
      if u.Err? {
        return out, Fail(u.error);
      }
      out := ReplaceFirst(out, MatchText(k, visits[i]), u.value);
    }
    r := Pass;
  }

  /** The template-invocation loop of `processSrc`: every visited
      invocation of a registered template is replaced, by first occurrence,
      with its expansion. */
  method ExpandInvocations(src: string, k: Kind, objs: map<string, Template>, exported: set<string>,
                           macros: Dict<Macro>, macroToken: string, validate: bool)
    returns (r: Result<string, Failure>)
    requires macros.Valid() && exported <= objs.Keys
    ensures r == InvokePass(src, k, AllMatches(k, src, 0), objs, exported, macros, macroToken, validate)
  {
    var invokes := new Matcher(k, src);
    var visits := invokes.Each(false);
    ghost var spec := InvokePass(src, k, visits, objs, exported, macros, macroToken, validate);
    var out := src;
    for i := 0 to |visits|
      invariant InvokePass(out, k, visits[i..], objs, exported, macros, macroToken, validate) == spec
    {
      InvokePassStep(out, k, visits, i, objs, exported, macros, macroToken, validate);
      var name := Name(visits[i]);
      if name !in exported && validate {
        return Err(UnknownTemplate(name));
      } else if name in exported {
        var v := Use(objs[name], Params(k, visits[i]), macros, macroToken, validate);
        if v.Err? {
          return Err(v.error);
        }
        out := ReplaceFirst(out, MatchText(k, visits[i]), v.value);
      }
    }
    r := Ok(out);
  }

  /** The in-memory rewrite `processSrc` performs on one source text. */
  method ProcessSource(src: string, objs: map<string, Template>, exported: set<string>, macros: Dict<Macro>,
                       invokeToken: string, macroToken: string, validate: bool)
    returns (r: Result<string, Failure>)
    requires macros.Valid() && exported <= objs.Keys
    ensures r == Processed(src, objs, exported, macros, invokeToken, macroToken, validate)
  {
    var out :- ExpandInvocations(src, Invoke(invokeToken), objs, exported, macros, macroToken, validate);
    var a := ApplyMacros(out, MacroInvoke(macroToken), macros, validate);
    if a.Err? {
      return a;
    }
    if validate {
      var c := CheckBody(a.value);
      if c.Fail? {
        return Err(c.error);
      }
    }
    r := a;
  }

  /** Every source rewritten in turn; the first failure is reported. */
  method ProcessSources(sources: seq<string>, objs: map<string, Template>, exported: set<string>, macros: Dict<Macro>,
                        invokeToken: string, macroToken: string, validate: bool)
    returns (r: Result<seq<string>, Failure>)
    requires macros.Valid() && exported <= objs.Keys
    ensures r.Ok? ==> |r.value| == |sources| && forall i :: 0 <= i < |sources| ==>
      Processed(sources[i], objs, exported, macros, invokeToken, macroToken, validate) == Ok(r.value[i])
    ensures r.Err? ==>
      exists i :: 0 <= i < |sources| &&
        Processed(sources[i], objs, exported, macros, invokeToken, macroToken, validate) == Err(r.error) &&
        forall j :: 0 <= j < i ==> Processed(sources[j], objs, exported, macros, invokeToken, macroToken, validate).Ok?
  {
    var outs: seq<string> := [];
    for i := 0 to |sources|
      invariant |outs| == i
      invariant forall j :: 0 <= j < i ==> Processed(sources[j], objs, exported, macros, invokeToken, macroToken, validate) == Ok(outs[j])
    {
      var out := ProcessSource(sources[i], objs, exported, macros, invokeToken, macroToken, validate);
      if out.Err? {
        return Err(out.error);
      }
      outs := outs + [out.value];
    }
    r := Ok(outs);
  }

  /** The module state of lib/templates.js: the options, the pattern tokens
      of lib/re.js, `exports.macros`, `rawExports`, the `templates`
      registry with its key order, the callables of `exports.templates`
      (by id), the listeners waiting on resolution events, and the log. */
  class Inliner {
    var opts: map<string, OptValue>
    const tokens: Tokens
    var macros: Dict<Macro>
    var raw: Dict<string>
    var objs: map<string, Template>
    var registry: seq<string>
    var exported: set<string>
    var pending: seq<Listener>
    var trace: seq<Event>

    ghost predicate Valid()
      reads this
    {
      macros.Valid() && raw.Valid() && Inv(objs, exported, pending, registry, trace)
    }

    /** No template is ACTIVE yet: resolution runs before `validate`. */
    predicate NoneActive()
      reads this
    {
      NoActive(objs)
    }

    /** Every constructed template is in the registry. */
    predicate Complete()
      reads this
    {
      forall id :: id in objs ==> id in registry
    }

    /** The defaults of `opts` and of the tokens; nothing loaded yet. */
    constructor ()
      ensures Valid() && NoneActive() && Complete()
      ensures opts == map["src" := Str("./src"), "out" := Str("./lib"), "templates" := Str("./templates"),
                          "validate" := Flag(true), "debug" := Flag(false), "beautify" := Flag(true)]
      ensures tokens.invokeToken == "@" && tokens.macroToken == "$$"
      ensures macros == EmptyDict() && raw == EmptyDict()
      ensures objs == map[] && registry == [] && exported == {} && pending == [] && trace == []
    {
      opts := map["src" := Str("./src"), "out" := Str("./lib"), "templates" := Str("./templates"),
                  "validate" := Flag(true), "debug" := Flag(false), "beautify" := Flag(true)];
      tokens := new Tokens();
      macros, raw := EmptyDict(), EmptyDict();
      objs, registry, exported, pending, trace := map[], [], {}, [], [];
    }

    /** `options(key)`. */
    function GetOption(key: string): Option<OptValue>
      reads this
    {
      if key in opts then Some(opts[key]) else None
    }

    /** `options(OPT_VALIDATE)` as a condition. */
    predicate Validating()
      reads this
    {
      "validate" in opts && Truthy(opts["validate"])
    }

    /** `options(key, value)`: sets the option; `invoke` and `macro` also set
        the pattern token. */
    method SetOption(key: string, v: OptValue)
      requires key == "invoke" || key == "macro" ==> v.Str?
      modifies this, tokens
      ensures GetOption(key) == Some(v)
      ensures forall k :: k != key ==> GetOption(k) == old(GetOption(k))
      ensures key == "invoke" ==> tokens.TemplateToken() == v.s && tokens.invoke == Tokenizer.Escaped(v.s)
      ensures key != "invoke" ==> tokens.invokeToken == old(tokens.invokeToken) && tokens.invoke == old(tokens.invoke)
      ensures key == "macro" ==> tokens.MacroToken() == v.s && tokens.macro == Tokenizer.Escaped(v.s)
      ensures key != "macro" ==> tokens.macroToken == old(tokens.macroToken) && tokens.macro == old(tokens.macro)
      ensures macros == old(macros) && raw == old(raw) && objs == old(objs) && registry == old(registry)
      ensures exported == old(exported) && pending == old(pending) && trace == old(trace)
    {
      opts := opts[key := v];
      if key == "invoke" {
        tokens.SetTemplateToken(v.s);
      } else if key == "macro" {
        tokens.SetMacroToken(v.s);
      }
    }

    /** `cacheRaw`: a module's macros are merged into `exports.macros`, its
        template texts into `rawExports`, each key already present
        producing a warning. */
    method CacheRaw(exports: Dict<string>, macroDefs: Option<Dict<Macro>>)
      requires Valid() && exports.Valid() && (macroDefs.Some? ==> macroDefs.value.Valid())
      modifies this
      ensures Valid()
      ensures macroDefs.None? ==> macros == old(macros)
      ensures macroDefs.Some? ==>
        && macros.keys == old(macros).keys + Absent(macroDefs.value.keys, old(macros))
        && (forall k :: k in macros.vals <==> k in macroDefs.value.vals || k in old(macros).vals)
        && (forall k :: k in macroDefs.value.vals ==> macros.vals[k] == macroDefs.value.vals[k])
        && (forall k :: k in old(macros).vals && k !in macroDefs.value.vals ==> macros.vals[k] == old(macros).vals[k])
      ensures raw.keys == old(raw).keys + Absent(exports.keys, old(raw))
      ensures forall k :: k in raw.vals <==> k in exports.vals || k in old(raw).vals
      ensures forall k :: k in exports.vals ==> raw.vals[k] == exports.vals[k]
      ensures forall k :: k in old(raw).vals && k !in exports.vals ==> raw.vals[k] == old(raw).vals[k]
      ensures trace == old(trace) + Warnings(if macroDefs.Some? then Present(macroDefs.value.keys, old(macros)) else [])
                                   + Warnings(Present(exports.keys, old(raw)))
      ensures opts == old(opts) && objs == old(objs) && registry == old(registry)
      ensures exported == old(exported) && pending == old(pending)
    {
      if macroDefs.Some? {
        var merged, warned := ExportDefs(macroDefs.value, macros);
        WarningsKeepInv(objs, exported, pending, registry, trace, warned);
        macros := merged;
        trace := trace + Warnings(warned);
      } else {
        assert trace + Warnings([]) == trace;
      }
      var merged, warned := ExportDefs(exports, raw);
      WarningsKeepInv(objs, exported, pending, registry, trace, warned);
      raw := merged;
      trace := trace + Warnings(warned);
    }

    // -------------------------------------------------------------------
    // Resolution: `resolved`, the emitter, `dependencyResolved`, `resolve`
    // -------------------------------------------------------------------

    /** `resolved(template)`, with the caller's `state = RESOLVED` folded in:
        the callable is registered (a warning if one was there), then the
        resolution event is emitted. */
    method MarkResolved(self: string) returns (r: Outcome<Failure>)
      requires Valid() && NoneActive() && self in objs && Settled(objs[self].body)
      modifies this
      decreases |pending|, 1
      ensures Valid() && NoneActive() && Progress(old(objs), objs) && objs.Keys == old(objs).Keys
      ensures |pending| <= old(|pending|) && old(exported) <= exported
      ensures registry == old(registry) && macros == old(macros) && raw == old(raw) && opts == old(opts)
      ensures objs[self].state == Resolved && objs[self].body == old(objs[self].body) && self in exported
      ensures old(trace) + (if self in old(exported) then [Overwritten(self)] else []) + [Emitted(self)] <= trace
      ensures Waiters(old(pending), self) == [] ==>
        && r == Pass && objs == old(objs)[self := old(objs[self]).(state := Resolved)]
        && pending == old(pending) && exported == old(exported) + {self}
        && trace == old(trace) + (if self in old(exported) then [Overwritten(self)] else []) + [Emitted(self)]
    {
      var extra := if self in exported then [Overwritten(self)] else [];
      ResolvedKeepsInv(objs, exported, pending, registry, trace, self, extra);
      objs := objs[self := objs[self].(state := Resolved)];
      trace := trace + extra;
      exported := exported + {self};
      ghost var mid := objs;
      r := Emit(self);
      ProgressTrans(old(objs), mid, objs);
    }

    /** `emitter.emit('template.<id>.resolved')` for `once` listeners: the
        waiters on the event are taken off the queue, then each runs its
        `dependencyResolved` in the order it was queued. An error stops the
        emission and propagates. */
    method Emit(id: string) returns (r: Outcome<Failure>)
      requires Valid() && NoneActive() && id in exported
      modifies this
      decreases |pending|, 0
      ensures Valid() && NoneActive() && Progress(old(objs), objs) && objs.Keys == old(objs).Keys
      ensures |pending| <= old(|pending|) && old(exported) <= exported
      ensures registry == old(registry) && macros == old(macros) && raw == old(raw) && opts == old(opts)
      ensures old(trace) + [Emitted(id)] <= trace
      ensures Waiters(old(pending), id) == [] ==>
        r == Pass && objs == old(objs) && exported == old(exported) && pending == old(pending) && trace == old(trace) + [Emitted(id)]
    {
      var ws := Waiters(pending, id);
      WaitersListed(pending, id);
      if ws != [] {
        WaitersOnWords(pending, id);
      }
      EmitKeepsInv(objs, exported, pending, registry, trace, id);
      pending := Remaining(pending, id);
      trace := trace + [Emitted(id)];
      ghost var head := trace;
      for i := 0 to |ws|
        invariant Valid() && NoneActive() && Progress(old(objs), objs) && objs.Keys == old(objs).Keys
        invariant |pending| + |ws| <= old(|pending|) && old(exported) <= exported
        invariant registry == old(registry) && macros == old(macros) && raw == old(raw) && opts == old(opts)
        invariant head <= trace
        invariant i == 0 ==> objs == old(objs) && exported == old(exported) && pending == Remaining(old(pending), id) && trace == head
      {
        ghost var mid := objs;
        r := DependencyResolved(ws[i], id);
        ProgressTrans(old(objs), mid, objs);
        if r.Fail? {
          return;
        }
      }
      if ws == [] {
        NoWaitersRemain(old(pending), id);
      }
      r := Pass;
    }

    /** `dependencyResolved(dep)` for template `self`: the markers naming
        `dep` are inlined; then the template is resolved iff no
        `__template__` text is left. */
    method DependencyResolved(self: string, dep: string) returns (r: Outcome<Failure>)
      requires Valid() && NoneActive() && self in objs && dep in exported && IsWord(dep)
      modifies this
      decreases |pending|, 3
      ensures Valid() && NoneActive() && Progress(old(objs), objs) && objs.Keys == old(objs).Keys
      ensures |pending| <= old(|pending|) && old(exported) <= exported && old(trace) <= trace
      ensures registry == old(registry) && macros == old(macros) && raw == old(raw) && opts == old(opts)
      ensures var body := old(objs[self].body);
        var out := Inlined(body, old(objs[dep]), AllMatches(NamedTemplate(dep), body, 0), macros, tokens.macroToken, Validating());
        && (out.Err? ==> r == Fail(out.error))
        && (out.Ok? ==> Rechecked(self, old(objs)[self := old(objs[self]).(body := out.value)], old(pending), old(exported), old(trace),
                                  objs, pending, exported, trace, r))
    {
      ghost var out := Inlined(objs[self].body, objs[dep], AllMatches(NamedTemplate(dep), objs[self].body, 0), macros, tokens.macroToken, Validating());
      r := InlineInto(self, dep);
      if r.Fail? {
        return;
      }
      ghost var mid := objs;
      assert mid == old(objs)[self := old(objs[self]).(body := out.value)];
      r := Recheck(self);
      ProgressTrans(old(objs), mid, objs);
    }

    /** The first half of `dependencyResolved`: the markers of `self` naming
        `dep` are replaced by uses of `dep`; a failing use leaves the part
        inlined so far in the body. */
    method InlineInto(self: string, dep: string) returns (r: Outcome<Failure>)
      requires Valid() && NoneActive() && self in objs && dep in exported && IsWord(dep)
      modifies this
      ensures Valid() && NoneActive() && Progress(old(objs), objs) && objs.Keys == old(objs).Keys
      ensures pending == old(pending) && exported == old(exported) && trace == old(trace)
      ensures registry == old(registry) && macros == old(macros) && raw == old(raw) && opts == old(opts)
      ensures objs == old(objs)[self := old(objs[self]).(body := objs[self].body)]
      ensures var body := old(objs[self].body);
        var out := Inlined(body, old(objs[dep]), AllMatches(NamedTemplate(dep), body, 0), macros, tokens.macroToken, Validating());
        && (out.Err? ==> r == Fail(out.error))
        && (out.Ok? ==> r == Pass && objs[self].body == out.value)
    {
      var body, inlined := InlineUses(objs[self].body, objs[dep], macros, tokens.macroToken, Validating());
      if objs[self].state != Unresolved {
        SettledHasNoUses(objs[self].body, objs[dep], macros, tokens.macroToken, Validating());
        assert objs == objs[self := objs[self].(body := objs[self].body)];
        return Pass;
      }
      BodyKeepsInv(objs, exported, pending, registry, trace, self, body);
      objs := objs[self := objs[self].(body := body)];
      r := inlined;
    }

    /** The end of `dependencyResolved`: `assertTemplateUse` on the body;
        when it passes the template is resolved, otherwise it keeps waiting. */
    method Recheck(self: string) returns (r: Outcome<Failure>)
      requires Valid() && NoneActive() && self in objs
      modifies this
      decreases |pending|, 2
      ensures Valid() && NoneActive() && Progress(old(objs), objs) && objs.Keys == old(objs).Keys
      ensures |pending| <= old(|pending|) && old(exported) <= exported && old(trace) <= trace
      ensures registry == old(registry) && macros == old(macros) && raw == old(raw) && opts == old(opts)
      ensures Rechecked(self, old(objs), old(pending), old(exported), old(trace), objs, pending, exported, trace, r)
    {
      if Contains(objs[self].body, TemplateMarkerText) {
        return Pass;
      }
      NoTemplateTextNoMarker(objs[self].body);
      r := MarkResolved(self);
    }

    /** `resolve()` of template `self`, which is not in the registry yet:
        nothing but a warning unless UNRESOLVED; resolved at once when no
        dependency marker is left; otherwise each dependency is visited. */
    method Resolve(self: string) returns (r: Outcome<Failure>)
      requires Valid() && NoneActive() && self in objs
      modifies this
      ensures Valid() && NoneActive() && Progress(old(objs), objs) && objs.Keys == old(objs).Keys
      ensures old(exported) <= exported && old(trace) <= trace
      ensures registry == old(registry) && macros == old(macros) && raw == old(raw) && opts == old(opts)
      ensures old(objs[self].state) != Unresolved ==>
        r == Pass && objs == old(objs) && pending == old(pending) && exported == old(exported)
        && trace == old(trace) + [AlreadyResolved(self)]
      ensures old(objs[self].state) == Unresolved && Settled(old(objs[self].body)) ==>
        objs[self].state == Resolved && objs[self].body == old(objs[self].body) && self in exported
      ensures var ds := Dependencies(old(objs[self].body));
        old(objs[self].state) == Unresolved && ds != [] && (forall j :: 0 <= j < |ds| ==> !Ready(ds[j], registry, old(objs))) ==>
          r == Pass && objs == old(objs) && pending == old(pending) + Queue(ds, self)
          && exported == old(exported) && trace == old(trace)
      ensures var ds := Dependencies(old(objs[self].body));
        old(objs[self].state) == Unresolved && (forall j :: 0 <= j < |ds| ==> Ready(ds[j], registry, old(objs))) ==>
          |pending| <= old(|pending|)
      ensures var ds := Dependencies(old(objs[self].body));
        old(objs[self].state) == Unresolved && ds != [] && AllReady(ds, registry, old(objs)) && Waiters(old(pending), self) == [] ==>
          InlinedAlone(self, old(objs[self]), ds, old(objs), old(pending), old(exported), objs, pending, exported,
                       macros, tokens.macroToken, Validating(), r)
    {
      if objs[self].state != Unresolved {
        LogKeepsInv(objs, exported, pending, registry, trace, AlreadyResolved(self));
        trace := trace + [AlreadyResolved(self)];
        return Pass;
      }
      var unresolved := new Matcher(TemplateMarker, objs[self].body);
      if unresolved.None() {
        r := MarkResolved(self);
        return;
      }
      var deps := unresolved.Each(false);
      assert Dependencies(objs[self].body) == Ids(deps);
      r := VisitDependencies(self, Ids(deps));
    }

    /** The callback `resolve` runs on each dependency id in turn: a ready
        dependency is inlined at once, any other is waited for with a
        one-time listener. */
    method VisitDependencies(self: string, ds: seq<string>) returns (r: Outcome<Failure>)
      requires Valid() && NoneActive() && self in objs
      requires forall j :: 0 <= j < |ds| ==> IsWord(ds[j])
      modifies this
      ensures Valid() && NoneActive() && Progress(old(objs), objs) && objs.Keys == old(objs).Keys
      ensures old(exported) <= exported && old(trace) <= trace
      ensures registry == old(registry) && macros == old(macros) && raw == old(raw) && opts == old(opts)
      ensures Visited(self, ds, registry, old(objs), old(pending), old(exported), old(trace), objs, pending, exported, trace,
                      macros, tokens.macroToken, Validating(), r)
    {
      VisitsStart(self, ds, registry, objs, pending, exported, trace, macros, tokens.macroToken, Validating());
      for i := 0 to |ds|
        invariant Valid() && NoneActive() && Progress(old(objs), objs) && objs.Keys == old(objs).Keys
        invariant old(exported) <= exported && old(trace) <= trace
        invariant registry == old(registry) && macros == old(macros) && raw == old(raw) && opts == old(opts)
        invariant Visits(self, ds, i, registry, old(objs), old(pending), old(exported), old(trace), objs, pending, exported, trace,
                         macros, tokens.macroToken, Validating())
      {
        ghost var mid := objs;
        r := Visit(self, ds[i], ds, i, old(objs), old(pending), old(exported), old(trace));
        ProgressTrans(old(objs), mid, objs);
        if r.Fail? {
          VisitsFailedComplete(self, ds, registry, old(objs), old(pending), old(exported), old(trace), objs, pending, exported,
                               trace, macros, tokens.macroToken, Validating(), r);
          return;
        }
      }
      VisitsComplete(self, ds, registry, old(objs), old(pending), old(exported), old(trace), objs, pending, exported, trace,
                     macros, tokens.macroToken, Validating());
      r := Pass;
    }

    /** The callback `resolve` runs on one dependency `d`: a dependency
        that is registered and no longer UNRESOLVED is inlined at once by
        `dependencyResolved`; for any other a one-time listener is queued.
        As visit `i` of `ds` from the state `(objs0, pending0, exported0,
        trace0)`, it extends `Visits` by one dependency or fails as
        `VisitsFailed` says. */
    method Visit(self: string, d: string, ghost ds: seq<string>, ghost i: nat, ghost objs0: map<string, Template>,
                 ghost pending0: seq<Listener>, ghost exported0: set<string>, ghost trace0: seq<Event>)
      returns (r: Outcome<Failure>)
      requires Valid() && NoneActive() && self in objs && IsWord(d)
      modifies this
      ensures Valid() && NoneActive() && Progress(old(objs), objs) && objs.Keys == old(objs).Keys
      ensures old(exported) <= exported && old(trace) <= trace
      ensures registry == old(registry) && macros == old(macros) && raw == old(raw) && opts == old(opts)
      ensures i < |ds| && ds[i] == d && Progress(objs0, old(objs))
              && Visits(self, ds, i, registry, objs0, pending0, exported0, trace0, old(objs), old(pending), old(exported), old(trace),
                        macros, tokens.macroToken, Validating()) ==>
        if r.Pass? then
          Visits(self, ds, i + 1, registry, objs0, pending0, exported0, trace0, objs, pending, exported, trace,
                 macros, tokens.macroToken, Validating())
        else VisitsFailed(self, ds, registry, objs0, pending0, pending, macros, tokens.macroToken, Validating(), r)
    {
      ghost var step := i < |ds| && ds[i] == d && Progress(objs0, objs)
        && Visits(self, ds, i, registry, objs0, pending0, exported0, trace0, objs, pending, exported, trace,
                  macros, tokens.macroToken, Validating());
      if d in registry && objs[d].state != Unresolved {
        ghost var objs1, pending1, exported1, trace1 := objs, pending, exported, trace;
        r := DependencyResolved(self, d);
        if step {
          VisitsReady(self, ds, i, registry, objs0, pending0, exported0, trace0, objs1, pending1, exported1, trace1,
                      objs, pending, exported, trace, r, macros, tokens.macroToken, Validating());
        }
      } else {
        if step {
          VisitsQueued(self, ds, i, registry, objs0, pending0, exported0, trace0, objs, pending, exported, trace,
                       macros, tokens.macroToken, Validating());
        }
        QueueKeepsInv(objs, exported, pending, registry, trace, Listener(d, self));
        pending := pending + [Listener(d, self)];
        r := Pass;
      }
    }

    // -------------------------------------------------------------------
    // Construction, `resolve()`, `validate`, `processSrc`
    // -------------------------------------------------------------------

    /** `new Template(id, args, body)`: filed UNRESOLVED, then `resolve()`.
        The registry entry is written by the caller afterwards. */
    method NewTemplate(id: string, params: seq<string>, body: Option<string>) returns (r: Outcome<Failure>)
      requires Valid() && NoneActive() && id !in objs
      modifies this
      ensures Valid() && NoneActive() && objs.Keys == old(objs).Keys + {id}
      ensures Progress(old(objs), objs) && Progress(old(objs)[id := Constructed(id, params, body)], objs)
      ensures old(exported) <= exported && old(trace) <= trace
      ensures registry == old(registry) && macros == old(macros) && raw == old(raw) && opts == old(opts)
      ensures Settled(BodyText(body)) ==> objs[id] == Constructed(id, params, body).(state := Resolved) && id in exported
      ensures var ds := Dependencies(BodyText(body));
        ds != [] && (forall j :: 0 <= j < |ds| ==> !Ready(ds[j], registry, old(objs))) ==>
          r == Pass && objs == old(objs)[id := Constructed(id, params, body)]
          && pending == old(pending) + Queue(ds, id) && exported == old(exported) && trace == old(trace)
    {
      var t := Constructed(id, params, body);
      NewKeepsInv(objs, exported, pending, registry, trace, t);
      objs := objs[id := t];
      ReadyUnaffected(old(objs), id, t, registry);
      r := Resolve(id);
      ProgressExtend(old(objs), id, t, objs);
    }

    /** `Template.createInstance(id, fn)`: the function text is parsed into
        its parameter names and body; text that is not a function literal
        is an error. */
    method CreateInstance(id: string, text: string) returns (r: Outcome<Failure>)
      requires Valid() && NoneActive() && id !in objs
      modifies this
      ensures Valid() && NoneActive() && Progress(old(objs), objs)
      ensures old(exported) <= exported && old(trace) <= trace
      ensures registry == old(registry) && macros == old(macros) && raw == old(raw) && opts == old(opts)
      ensures match Find(FunctionLit, text, 0)
        case None =>
          r == Fail(InvalidDefinition(text)) && objs == old(objs) && pending == old(pending)
          && exported == old(exported) && trace == old(trace)
        case Some(m) =>
          match FunctionBody(Group(m, 1))
          case Err(name) =>
            r == Fail(Undefined(name)) && objs == old(objs) && pending == old(pending)
            && exported == old(exported) && trace == old(trace)
          case Ok(body) =>
            var t := Constructed(id, FunctionArgs(m), body);
            && objs.Keys == old(objs).Keys + {id} && Progress(old(objs)[id := t], objs)
            && (Settled(t.body) ==> objs[id] == t.(state := Resolved) && id in exported)
            && (var ds := Dependencies(t.body);
                ds != [] && (forall j :: 0 <= j < |ds| ==> !Ready(ds[j], registry, old(objs))) ==>
                  r == Pass && objs == old(objs)[id := t]
                  && pending == old(pending) + Queue(ds, id) && exported == old(exported) && trace == old(trace))
    {
      var fnre := new Matcher(FunctionLit, text);
      if fnre.None() {
        r := Fail(InvalidDefinition(text));
      } else {
        var m := fnre.result.value;
        var body := FunctionBody(Group(m, 1));
        if body.Err? {
          r := Fail(Undefined(body.error));
        } else {
          r := NewTemplate(id, FunctionArgs(m), body.value);
        }
      }
    }

    /** One step of `resolve()`: the template for a raw key is constructed
        and, when construction succeeds, filed in the registry. */
    method AddTemplate(id: string) returns (r: Outcome<Failure>)
      requires Valid() && NoneActive() && id in raw.vals && id !in objs
      modifies this
      ensures Valid() && NoneActive() && Progress(old(objs), objs)
      ensures old(exported) <= exported && old(trace) <= trace
      ensures macros == old(macros) && raw == old(raw) && opts == old(opts)
      ensures r.Pass? ==> registry == old(registry) + [id] && objs.Keys == old(objs).Keys + {id}
      ensures r.Pass? ==> Built(raw.vals[id], objs[id].params, objs[id].isNull)
    {
      r := CreateInstance(id, raw.vals[id]);
      if r.Pass? {
        FileKeepsInv(objs, exported, pending, registry, trace, id);
        registry := registry + [id];
      }
    }

    /** `resolve()`: a template for every key of `rawExports`, in key order;
        each is filed in the registry once constructed. */
    method ResolveAll() returns (r: Outcome<Failure>)
      requires Valid() && NoneActive()
      requires forall i :: 0 <= i < |raw.keys| ==> raw.keys[i] !in objs
      modifies this
      ensures Valid() && NoneActive() && Progress(old(objs), objs)
      ensures old(exported) <= exported && old(trace) <= trace
      ensures macros == old(macros) && raw == old(raw) && opts == old(opts)
      ensures r.Pass? ==> registry == old(registry) + raw.keys
      ensures r.Pass? ==> objs.Keys == old(objs).Keys + (set k | k in raw.keys)
      ensures r.Pass? ==> forall k :: k in raw.keys ==> k in objs && Built(raw.vals[k], objs[k].params, objs[k].isNull)
    {
      var names := raw.keys;
      ghost var reg0, objs0 := registry, objs;
      for i := 0 to |names|
        invariant Valid() && NoneActive() && Progress(objs0, objs)
        invariant Filed(objs0, reg0, names, i, objs, registry)
        invariant AllBuilt(raw, i, objs, Built)
        invariant old(exported) <= exported && old(trace) <= trace
        invariant macros == old(macros) && raw == old(raw) && opts == old(opts)
      {
        ghost var mid, midReg := objs, registry;
        r := AddTemplate(names[i]);
        ProgressTrans(objs0, mid, objs);
        if r.Fail? {
          return;
        }
        FiledStep(objs0, reg0, names, i, mid, midReg, objs);
        BuiltKept(raw, i, mid, objs, Built);
      }
      FiledAll(objs0, reg0, names, objs, registry);
      AllBuiltKeys(raw, objs);
      r := Pass;
    }

    /** `validate()`: in registry order, each RESOLVED template becomes
        ACTIVE and every other one is reported. */
    method Validate() returns (r: Outcome<Failure>)
      requires Valid()
      modifies this
      ensures Valid() && Progress(old(objs), objs) && objs.Keys == old(objs).Keys
      ensures objs == Activated(old(objs), registry)
      ensures var u := Unfinished(old(objs), registry);
        r == if u == [] then Pass else Fail(UnresolvedTemplates(u))
      ensures registry == old(registry) && macros == old(macros) && raw == old(raw) && opts == old(opts)
      ensures exported == old(exported) && pending == old(pending) && trace == old(trace)
    {
      var states, unresolved := Activate(objs, registry);
      ActivatedKeepsInv(objs, exported, pending, registry, trace);
      objs := states;
      r := if unresolved == [] then Pass else Fail(UnresolvedTemplates(unresolved));
    }

    /** The in-memory part of `processSrc` for one source text: template
        invocations are expanded (an unknown one is an error when
        validating), then macro invocations, then the text is checked for
        leftover markers when validating. */
    method ProcessText(src: string) returns (r: Result<string, Failure>)
      requires Valid()
      ensures r == Processed(src, objs, exported, macros, tokens.invokeToken, tokens.macroToken, Validating())
    {
      r := ProcessSource(src, objs, exported, macros, tokens.invokeToken, tokens.macroToken, Validating());
    }

    /** The first half of `process()`: resolve the raw templates, then
        validate when validating. */
    method Prepare() returns (r: Outcome<Failure>)
      requires Valid() && NoneActive() && Complete()
      requires forall i :: 0 <= i < |raw.keys| ==> raw.keys[i] !in objs
      modifies this
      ensures Valid() && Progress(old(objs), objs)
      ensures r.Pass? ==> registry == old(registry) + old(raw.keys)
      ensures r.Pass? && Validating() ==> forall id :: id in objs ==> objs[id].state == Active
    {
      ghost var objs0, reg0 := objs, registry;
      r := ResolveAll();
      if r.Fail? {
        return;
      }
      CompleteAfter(objs0, reg0, raw.keys, objs, registry);
      if !Validating() {
        return;
      }
      ghost var before := objs;
      r := Validate();
      ProgressTrans(old(objs), before, objs);
      if r.Pass? {
        ValidatedAllActive(before, registry);
      }
    }

    /** The second half of `process()`: every source is rewritten in turn,
        and the first failure is reported. */
    method ProcessAll(sources: seq<string>) returns (r: Result<seq<string>, Failure>)
      requires Valid()
      ensures r.Ok? ==> |r.value| == |sources| && forall i :: 0 <= i < |sources| ==>
        Processed(sources[i], objs, exported, macros, tokens.invokeToken, tokens.macroToken, Validating()) == Ok(r.value[i])
      ensures r.Err? ==>
        exists i :: 0 <= i < |sources| &&
          Processed(sources[i], objs, exported, macros, tokens.invokeToken, tokens.macroToken, Validating()) == Err(r.error) &&
          forall j :: 0 <= j < i ==>
            Processed(sources[j], objs, exported, macros, tokens.invokeToken, tokens.macroToken, Validating()).Ok?
    {
      r := ProcessSources(sources, objs, exported, macros, tokens.invokeToken, tokens.macroToken, Validating());
    }
  }

  /** Filing a new UNRESOLVED template under a fresh id. */
  lemma NewKeepsInv(objs: map<string, Template>, exported: set<string>, pending: seq<Listener>,
                    registry: seq<string>, trace: seq<Event>, t: Template)
    requires Inv(objs, exported, pending, registry, trace) && NoActive(objs)
    requires t.id !in objs && t.state == Unresolved
    ensures Inv(objs[t.id := t], exported, pending, registry, trace) && NoActive(objs[t.id := t])
  {
  }

  /** Writing a constructed template's id into the registry. */
  lemma FileKeepsInv(objs: map<string, Template>, exported: set<string>, pending: seq<Listener>,
                     registry: seq<string>, trace: seq<Event>, id: string)
    requires Inv(objs, exported, pending, registry, trace)
    requires id in objs && id !in registry
    ensures Inv(objs, exported, pending, registry + [id], trace)
  {
    DistinctSnoc(registry, id);
  }

  /** Marking RESOLVED templates ACTIVE keeps the invariant and moves every
      template forward. */
  lemma ActivatedKeepsInv(objs: map<string, Template>, exported: set<string>, pending: seq<Listener>,
                          registry: seq<string>, trace: seq<Event>)
    requires Inv(objs, exported, pending, registry, trace)
    ensures var objs' := Activated(objs, registry);
      Inv(objs', exported, pending, registry, trace) && Progress(objs, objs') && objs'.Keys == objs.Keys
  {
  }

  /** Adding a template under a fresh id changes no dependency's readiness. */
  lemma ReadyUnaffected(objs: map<string, Template>, id: string, t: Template, registry: seq<string>)
    requires id !in objs
    requires forall i :: 0 <= i < |registry| ==> registry[i] in objs
    ensures forall d :: Ready(d, registry, objs[id := t]) == Ready(d, registry, objs)
  {
  }

  /** Progress from a registry extended by a fresh id is progress from the registry. */
  lemma ProgressExtend(a: map<string, Template>, id: string, t: Template, b: map<string, Template>)
    requires id !in a && Progress(a[id := t], b)
    ensures Progress(a, b)
  {
    forall x | x in a ensures a[id := t][x] == a[x] {
    }
  }

  /** One step of `validate`'s loop: the template at `ids[i]` has not been
      visited yet, and visiting it activates it iff it is RESOLVED. */
  lemma ActivatedStep(objs: map<string, Template>, ids: seq<string>, i: nat)
    requires Distinct(ids) && i < |ids| && ids[i] in objs
    ensures var x := ids[i];
      && Activated(objs, ids[..i])[x] == objs[x]
      && (objs[x].state == Resolved ==> Activated(objs, ids[..i + 1]) == Activated(objs, ids[..i])[x := objs[x].(state := Active)])
      && (objs[x].state != Resolved ==> Activated(objs, ids[..i + 1]) == Activated(objs, ids[..i]))
  {
    var x := ids[i];
    assert x !in ids[..i];
    assert forall y :: y in ids[..i + 1] <==> y in ids[..i] || y == x;
  }

  /** The loop of `validate`: in `ids` order, each RESOLVED template is
      marked ACTIVE and each other one is collected. */
  method Activate(objs: map<string, Template>, ids: seq<string>) returns (states: map<string, Template>, unresolved: seq<string>)
    requires Distinct(ids) && forall i :: 0 <= i < |ids| ==> ids[i] in objs
    ensures states == Activated(objs, ids) && unresolved == Unfinished(objs, ids)
  {
    states := objs;
    unresolved := [];
    for i := 0 to |ids|
      invariant states == Activated(objs, ids[..i])
      invariant unresolved == Unfinished(objs, ids[..i])
    {
      var id := ids[i];
      ActivatedStep(objs, ids, i);
      assert ids[..i + 1][..i] == ids[..i];
      var t := states[id];
      if t.state != Resolved {
        unresolved := unresolved + [id];
      } else {
        states := states[id := t.(state := Active)];
      }
    }
    assert ids[..|ids|] == ids;
  }

  /** The bookkeeping of `resolve()` after the first `i` names: they are
      filed in the registry and in the map, and the rest are still absent. */
  ghost predicate Filed(objs0: map<string, Template>, reg0: seq<string>, names: seq<string>, i: nat,
                        objs: map<string, Template>, registry: seq<string>)
  {
    && i <= |names|
    && registry == reg0 + names[..i]
    && (forall x :: x in objs <==> x in objs0 || x in names[..i])
    && (forall j :: i <= j < |names| ==> names[j] !in objs)
  }

  lemma FiledStep(objs0: map<string, Template>, reg0: seq<string>, names: seq<string>, i: nat,
                  objs: map<string, Template>, registry: seq<string>, objs': map<string, Template>)
    requires Distinct(names) && i < |names| && Filed(objs0, reg0, names, i, objs, registry)
    requires objs'.Keys == objs.Keys + {names[i]}
    ensures Filed(objs0, reg0, names, i + 1, objs', registry + [names[i]])
  {
    assert names[..i + 1] == names[..i] + [names[i]];
  }

  /** The templates for the first `i` raw keys stand in relation `P` to
      their texts through their parameters and null-ness (`Built`, for
      `resolveAll`). */
  ghost predicate AllBuilt(raw: Dict<string>, i: nat, objs: map<string, Template>,
                           P: (string, seq<string>, bool) -> bool) {
    && i <= |raw.keys|
    && forall j :: 0 <= j < i ==>
      var k := raw.keys[j];
      k in raw.vals && k in objs && P(raw.vals[k], objs[k].params, objs[k].isNull)
  }

  /** What the templates were built as survives the next construction,
      which keeps every parameter list and null-ness. */
  lemma BuiltKept(raw: Dict<string>, i: nat, a: map<string, Template>, b: map<string, Template>,
                  P: (string, seq<string>, bool) -> bool)
    requires AllBuilt(raw, i, a, P) && i < |raw.keys| && Progress(a, b)
    requires var k := raw.keys[i]; k in raw.vals && k in b && P(raw.vals[k], b[k].params, b[k].isNull)
    ensures AllBuilt(raw, i + 1, b, P)
  {
    forall j | 0 <= j < i + 1
      ensures var k := raw.keys[j]; k in raw.vals && k in b && P(raw.vals[k], b[k].params, b[k].isNull)
    {
      if j < i {
        var k := raw.keys[j];
        assert k in a && P(raw.vals[k], a[k].params, a[k].isNull);
        assert b[k].params == a[k].params && b[k].isNull == a[k].isNull;
      }
    }
  }

  /** Once every raw key is done, each has its template built from its text. */
  lemma AllBuiltKeys(raw: Dict<string>, objs: map<string, Template>)
    requires AllBuilt(raw, |raw.keys|, objs, Built)
    ensures forall k :: k in raw.keys ==> k in objs && Built(raw.vals[k], objs[k].params, objs[k].isNull)
  {
    forall k | k in raw.keys ensures k in objs && Built(raw.vals[k], objs[k].params, objs[k].isNull) {
      var j :| 0 <= j < |raw.keys| && raw.keys[j] == k;
    }
  }

  lemma FiledAll(objs0: map<string, Template>, reg0: seq<string>, names: seq<string>,
                 objs: map<string, Template>, registry: seq<string>)
    requires Filed(objs0, reg0, names, |names|, objs, registry)
    ensures registry == reg0 + names && objs.Keys == objs0.Keys + (set k | k in names)
  {
    assert names[..|names|] == names;
  }

  /** A registry that listed every template still does once the new keys
      are both filed and listed. */
  lemma CompleteAfter(objs0: map<string, Template>, reg0: seq<string>, keys: seq<string>,
                      objs: map<string, Template>, registry: seq<string>)
    requires forall id :: id in objs0 ==> id in reg0
    requires registry == reg0 + keys && objs.Keys == objs0.Keys + (set k | k in keys)
    ensures forall id :: id in objs ==> id in registry
  {
  }

  /** `validate` reports exactly the templates of `ids` that are not RESOLVED. */
  lemma {:induction false} UnfinishedMembers(objs: map<string, Template>, ids: seq<string>)
    ensures forall x :: x in Unfinished(objs, ids) <==> x in ids && x in objs && objs[x].state != Resolved
    decreases |ids|
  {
    if ids != [] {
      var i := |ids| - 1;
      UnfinishedMembers(objs, ids[..i]);
      assert ids == ids[..i] + [ids[i]];
    }
  }

  /** When nothing is reported and the registry lists every template, every
      template is ACTIVE afterwards. */
  lemma ValidatedAllActive(objs: map<string, Template>, ids: seq<string>)
    requires Unfinished(objs, ids) == []
    requires forall id :: id in objs ==> id in ids
    ensures forall id :: id in objs ==> id in Activated(objs, ids) && Activated(objs, ids)[id].state == Active
  {
    UnfinishedMembers(objs, ids);
  }

  /** `validate` only moves RESOLVED templates forward. */
  lemma ActivatedProgress(objs: map<string, Template>, ids: seq<string>)
    ensures Progress(objs, Activated(objs, ids))
    ensures forall id :: id in objs && objs[id].state != Resolved ==> Activated(objs, ids)[id] == objs[id]
  {
  }

  /** A settled body uses no template, so inlining into it changes nothing:
      a template resolved a second time keeps its body. */
  lemma SettledHasNoUses(body: string, dep: Template, macros: Dict<Macro>, macroToken: string, validate: bool)
    requires Settled(body) && IsWord(dep.id)
    ensures AllMatches(NamedTemplate(dep.id), body, 0) == []
    ensures Inlined(body, dep, AllMatches(NamedTemplate(dep.id), body, 0), macros, macroToken, validate) == Ok(body)
  {
    NoMarkerNoNamedUse(dep.id, body);
  }

  /** Without validation, inlining a dependency that is not ACTIVE and whose
      body is not null never fails. */
  lemma {:induction false} InlinedTotal(body: string, dep: Template, ms: seq<Match>, macros: Dict<Macro>, macroToken: string)
    requires dep.state != Active && !dep.isNull
    ensures Inlined(body, dep, ms, macros, macroToken, false).Ok?
    decreases |ms|
  {
    if ms != [] {
      var k := NamedTemplate(dep.id);
      ExpandedTotal(dep.body, dep.params, Params(k, ms[0]), macros, macroToken);
      var out := UseSpec(dep, Params(k, ms[0]), macros, macroToken, false).value;
      InlinedTotal(ReplaceFirst(body, MatchText(k, ms[0]), out), dep, ms[1..], macros, macroToken);
    }
  }

  /** With validation on, a rewritten source has no marker of any kind left. */
  lemma ProcessedIsClean(src: string, objs: map<string, Template>, exported: set<string>, macros: Dict<Macro>,
                         invokeToken: string, macroToken: string)
    requires Processed(src, objs, exported, macros, invokeToken, macroToken, true).Ok?
    ensures var out := Processed(src, objs, exported, macros, invokeToken, macroToken, true).value;
      !Contains(out, MacroMarkerText) && !Contains(out, TemplateMarkerText) && !Contains(out, ArgsMarkerText)
  {
  }

  /** With validation on, invoking a template that is not registered is an error naming it. */
  lemma ProcessedUnknownTemplate(src: string, objs: map<string, Template>, exported: set<string>, macros: Dict<Macro>,
                                 invokeToken: string, macroToken: string, m: Match)
    requires Find(Invoke(invokeToken), src, 0) == Some(m) && Name(m) !in exported
    ensures Processed(src, objs, exported, macros, invokeToken, macroToken, true) == Err(UnknownTemplate(Name(m)))
  {
    var k := Invoke(invokeToken);
    assert AllMatches(k, src, 0)[0] == m;
  }

  /** The template-invocation pass over a single visit `m`, when it is the
      first occurrence of its text, replaces it in place with the template's
      expansion. `LeftmostInvocation` shows that the leftmost invocation
      whose parentheses balance is such a single visit. */
  lemma InvocationExpandedInPlace(src: string, k: Kind, ms: seq<Match>, m: Match, objs: map<string, Template>,
                                  exported: set<string>, macros: Dict<Macro>, macroToken: string, validate: bool, v: string)
    requires ms == [m] && IndexOf(src, MatchText(k, m)) == Some(m.start)
    requires Name(m) in exported && Name(m) in objs
    requires UseSpec(objs[Name(m)], Params(k, m), macros, macroToken, validate) == Ok(v)
    ensures m.start + |MatchText(k, m)| <= |src|
    ensures InvokePass(src, k, ms, objs, exported, macros, macroToken, validate) ==
      Ok(src[..m.start] + v + src[m.start + |MatchText(k, m)|..])
  {
    ReplaceFirstAt(src, MatchText(k, m), v, m.start);
    assert ms[1..] == [];
  }

  /** Taking the waiters of an event nobody waits on off the queue leaves it as it was. */
  lemma {:induction false} NoWaitersRemain(ps: seq<Listener>, event: string)
    requires Waiters(ps, event) == []
    ensures Remaining(ps, event) == ps
    decreases |ps|
  {
    if ps != [] {
      assert ps[0].event != event;
      NoWaitersRemain(ps[1..], event);
      assert ps == [ps[0]] + ps[1..];
    }
  }

  /** Every waiter on an event was queued. */
  lemma WaitersListed(ps: seq<Listener>, event: string)
    ensures forall i :: 0 <= i < |Waiters(ps, event)| ==> exists j :: 0 <= j < |ps| && ps[j] == Listener(event, Waiters(ps, event)[i])
  {
    var ws := Waiters(ps, event);
    forall i | 0 <= i < |ws| ensures exists j :: 0 <= j < |ps| && ps[j] == Listener(event, ws[i]) {
      var l := Listener(event, ws[i]);
      assert l in ps;
      var j :| 0 <= j < |ps| && ps[j] == l;
    }
  }

  /** An event someone waits on is one of the queued events. */
  lemma WaitersOnWords(ps: seq<Listener>, event: string)
    requires forall i :: 0 <= i < |ps| ==> IsWord(ps[i].event)
    requires Waiters(ps, event) != []
    ensures IsWord(event)
  {
    WaitersListed(ps, event);
    var j :| 0 <= j < |ps| && ps[j] == Listener(event, Waiters(ps, event)[0]);
    assert ps[j].event == event && IsWord(ps[j].event);
  }

  /** The id a template marker names is a word. */
  lemma MarkerNameIsWord(s: string, i: nat)
    requires i <= |s| && MatchAt(TemplateMarker, s, i).Some?
    ensures IsWord(Name(MatchAt(TemplateMarker, s, i).value))
  {
  }

  /** The warnings for keys being overwritten. */
  function Warnings(keys: seq<string>): (ws: seq<Event>)
    ensures |ws| == |keys| && forall i :: 0 <= i < |keys| ==> ws[i] == Redefined(keys[i])
  {
    seq(|keys|, i requires 0 <= i < |keys| => Redefined(keys[i]))
  }

  /** Once an argument's macros fail, the whole substitution fails the same way. */
  lemma {:induction false} SubstitutedSticks(body: string, params: seq<string>, args: seq<string>, n: nat,
                                             macros: Dict<Macro>, macroToken: string, validate: bool)
    requires n <= |args|
    requires Substituted(body, params, args[..n], macros, macroToken, validate).Err?
    ensures Substituted(body, params, args, macros, macroToken, validate) == Substituted(body, params, args[..n], macros, macroToken, validate)
    decreases |args|
  {
    if n < |args| {
      var i := |args| - 1;
      assert args[..i][..n] == args[..n];
      SubstitutedSticks(body, params, args[..i], n, macros, macroToken, validate);
      var pre := Substituted(body, params, args[..i], macros, macroToken, validate);
      assert pre == Substituted(body, params, args[..n], macros, macroToken, validate);
      assert Substituted(body, params, args, macros, macroToken, validate) == Err(pre.error);
    } else {
      assert args[..n] == args;
    }
  }
}
