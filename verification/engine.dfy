/**
  `RuleEngine`: a registry of accessors and a set of ignored parameter names,
  and the evaluation pipeline that parses a ruleset, collects what it asks of
  each accessor, resolves the accessors' values and evaluates the ruleset
  against them.
 */
module RuleEngine {
  import opened Wrappers
  import opened Values
  import opened Errors
  import opened Strings
  import opened Constraints
  import opened EvalResults
  import opened Collector
  import opened Parameters
  import opened Definitions

  datatype Engine = Engine(registry: Registry, ignored: set<string>)

  /**
    The state after a registering call, and the error it ended with, if any.
    A call that fails part way keeps what it registered before failing.
   */
  datatype Step = Step(engine: Engine, error: Option<Error>)

  /** The getter of the built-in accessor `pass`. */
  const PassGetter: Getter := (params: JVal, q: Request) => Bool(true)

  /** `new RuleEngine()`: nothing ignored, and `pass` already answers true. */
  function NewEngine(): (e: Engine)
    ensures e.ignored == {} && e.registry.Keys == {"pass"}
    ensures forall p, q :: e.registry["pass"](p, q) == Bool(true)
  {
    Engine(map["pass" := PassGetter], {})
  }

  /** The fresh engine is what registering `pass` on an empty registry gives. */
  lemma NewEngineRegistersPass()
    ensures DefineAccessor(map[], Str("pass"), Callable(PassGetter)) == Success(NewEngine().registry)
  {
  }

  /**
    `defineParameter(name, getter)`: an array of names registers the getter
    under each element in turn (arrays nest), stopping at the first rejected
    element; any other name is registered on its own.
   */
  function DefineParameter(e: Engine, name: JVal, g: GetterArg): (s: Step)
    decreases name, 1
    ensures s.engine.ignored == e.ignored
    ensures e.registry.Keys <= s.engine.registry.Keys
    ensures s.error.Some? ==> s.error.value == ParameterErr
    ensures !name.Arr? ==> (s.error.None? <==> AcceptedName(name) && g.Callable?)
    ensures !name.Arr? && s.error.None? ==>
      s.engine.registry == e.registry[name.s := g.fn]
    ensures !name.Arr? && s.error.Some? ==> s.engine == e
  {
    match name
    case Arr(xs) => DefineEach(e, xs, g)
    case _ =>
      match DefineAccessor(e.registry, name, g)
      case Success(reg) => Step(e.(registry := reg), None)
      case Failure(err) => Step(e, Some(err))
  }

  function DefineEach(e: Engine, xs: seq<JVal>, g: GetterArg): (s: Step)
    decreases xs, 0
    ensures s.engine.ignored == e.ignored
    ensures e.registry.Keys <= s.engine.registry.Keys
    ensures s.error.Some? ==> s.error.value == ParameterErr
  {
    if |xs| == 0 then Step(e, None)
    else
      var s := DefineParameter(e, xs[0], g);
      if s.error.Some? then s else DefineEach(s.engine, xs[1..], g)
  }

  /**
    `defineParameter` as `src/index.mjs:23` is written: it calls a
    `defineParameter` method that `ParameterDefinitions` does not have, so
    every non-array name raises a TypeError and registers nothing. An array
    raises at its first non-array element, at any depth.
   */
  function DefineParameterAsWritten(e: Engine, name: JVal, g: GetterArg): (s: Step)
    decreases name, 1
    ensures s.engine == e
    ensures !name.Arr? ==> s.error == Some(HostTypeErr)
    ensures s.error.Some? ==> s.error.value == HostTypeErr
  {
    match name
    case Arr(xs) => DefineEachAsWritten(e, xs, g)
    case _ => Step(e, Some(HostTypeErr))
  }

  function DefineEachAsWritten(e: Engine, xs: seq<JVal>, g: GetterArg): (s: Step)
    decreases xs, 0
    ensures s.engine == e
    ensures s.error.Some? ==> s.error.value == HostTypeErr
    ensures |xs| > 0 && !xs[0].Arr? ==> s.error == Some(HostTypeErr)
  {
    if |xs| == 0 then Step(e, None)
    else
      var s := DefineParameterAsWritten(e, xs[0], g);
      if s.error.Some? then s else DefineEachAsWritten(s.engine, xs[1..], g)
  }

  /**
    As written, `new RuleEngine()` throws: its registration of `pass` raises
    the TypeError, where the intended registration yields the fresh engine.
   */
  lemma ConstructorAsWrittenThrows()
    ensures DefineParameterAsWritten(Engine(map[], {}), Str("pass"), Callable(PassGetter)).error == Some(HostTypeErr)
    ensures DefineParameter(Engine(map[], {}), Str("pass"), Callable(PassGetter)) == Step(NewEngine(), None)
  {
  }

  /**
    Registering a flat array of accepted names registers the getter under
    every one of them and leaves every other name as it was.
   */
  lemma FanOutRegistersEach(e: Engine, xs: seq<JVal>, g: Getter)
    requires forall i :: 0 <= i < |xs| ==> AcceptedName(xs[i])
    ensures DefineEach(e, xs, Callable(g)).error.None?
    ensures forall i :: 0 <= i < |xs| ==>
      xs[i].Str? && xs[i].s in DefineEach(e, xs, Callable(g)).engine.registry &&
      DefineEach(e, xs, Callable(g)).engine.registry[xs[i].s] == g
    ensures forall a :: a in e.registry && (forall i :: 0 <= i < |xs| ==> xs[i] != Str(a)) ==>
      DefineEach(e, xs, Callable(g)).engine.registry[a] == e.registry[a]
  {
    FanOutNoError(e, xs, g);
    forall i | 0 <= i < |xs|
      ensures xs[i].Str? && xs[i].s in DefineEach(e, xs, Callable(g)).engine.registry
      ensures DefineEach(e, xs, Callable(g)).engine.registry[xs[i].s] == g
    {
      FanOutRegisters(e, xs, g, i);
    }
    forall a | a in e.registry && (forall i :: 0 <= i < |xs| ==> xs[i] != Str(a))
      ensures a in DefineEach(e, xs, Callable(g)).engine.registry
      ensures DefineEach(e, xs, Callable(g)).engine.registry[a] == e.registry[a]
    {
      FanOutKeepsOthers(e, xs, g, a);
    }
  }

  /** Registering an accepted name first, then the rest of the fan-out. */
  lemma DefineEachStep(e: Engine, xs: seq<JVal>, g: Getter)
    requires |xs| > 0 && AcceptedName(xs[0])
    ensures DefineEach(e, xs, Callable(g)) == DefineEach(e.(registry := e.registry[xs[0].s := g]), xs[1..], Callable(g))
  {
  }

  /** A fan-out over accepted names raises nothing. */
  lemma {:induction false} FanOutNoError(e: Engine, xs: seq<JVal>, g: Getter)
    requires forall i :: 0 <= i < |xs| ==> AcceptedName(xs[i])
    decreases |xs|
    ensures DefineEach(e, xs, Callable(g)).error.None?
  {
    if |xs| > 0 {
      DefineEachStep(e, xs, g);
      assert forall i :: 0 <= i < |xs[1..]| ==> xs[1..][i] == xs[i + 1];
      FanOutNoError(e.(registry := e.registry[xs[0].s := g]), xs[1..], g);
    }
  }

  /** Every name of a fan-out over accepted names ends up registered to the shared getter. */
  lemma {:induction false} FanOutRegisters(e: Engine, xs: seq<JVal>, g: Getter, i: nat)
    requires forall k :: 0 <= k < |xs| ==> AcceptedName(xs[k])
    requires i < |xs|
    decreases i
    ensures xs[i].Str? && xs[i].s in DefineEach(e, xs, Callable(g)).engine.registry
    ensures DefineEach(e, xs, Callable(g)).engine.registry[xs[i].s] == g
  {
    DefineEachStep(e, xs, g);
    var e1 := e.(registry := e.registry[xs[0].s := g]);
    assert forall k :: 0 <= k < |xs[1..]| ==> xs[1..][k] == xs[k + 1];
    if i == 0 {
      FanOutKeeps(e1, xs[1..], g, xs[0].s);
    } else {
      FanOutRegisters(e1, xs[1..], g, i - 1);
    }
  }

  /** A name already registered to `g` stays registered to `g` through a fan-out of accepted names. */
  lemma {:induction false} FanOutKeeps(e: Engine, xs: seq<JVal>, g: Getter, a: string)
    requires forall k :: 0 <= k < |xs| ==> AcceptedName(xs[k])
    requires a in e.registry && e.registry[a] == g
    decreases |xs|
    ensures a in DefineEach(e, xs, Callable(g)).engine.registry
    ensures DefineEach(e, xs, Callable(g)).engine.registry[a] == g
  {
    if |xs| > 0 {
      DefineEachStep(e, xs, g);
      assert forall k :: 0 <= k < |xs[1..]| ==> xs[1..][k] == xs[k + 1];
      FanOutKeeps(e.(registry := e.registry[xs[0].s := g]), xs[1..], g, a);
    }
  }

  /** A name the fan-out does not list keeps its getter. */
  lemma {:induction false} FanOutKeepsOthers(e: Engine, xs: seq<JVal>, g: Getter, a: string)
    requires forall k :: 0 <= k < |xs| ==> AcceptedName(xs[k])
    requires a in e.registry && forall k :: 0 <= k < |xs| ==> xs[k] != Str(a)
    decreases |xs|
    ensures a in DefineEach(e, xs, Callable(g)).engine.registry
    ensures DefineEach(e, xs, Callable(g)).engine.registry[a] == e.registry[a]
  {
    if |xs| > 0 {
      DefineEachStep(e, xs, g);
      assert forall k :: 0 <= k < |xs[1..]| ==> xs[1..][k] == xs[k + 1];
      assert xs[0] != Str(a);
      FanOutKeepsOthers(e.(registry := e.registry[xs[0].s := g]), xs[1..], g, a);
    }
  }

  /**
    A rejected element stops the fan-out with a parameter error; the names
    before it stay registered.
   */
  lemma {:induction false} FanOutStopsAtRejected(e: Engine, xs: seq<JVal>, g: Getter, i: nat)
    requires i < |xs|
    requires forall k :: 0 <= k < i ==> AcceptedName(xs[k])
    requires !AcceptedName(xs[i]) && !xs[i].Arr?
    decreases i
    ensures DefineEach(e, xs, Callable(g)).error == Some(ParameterErr)
    ensures forall k :: 0 <= k < i ==>
      xs[k].Str? && xs[k].s in DefineEach(e, xs, Callable(g)).engine.registry &&
      DefineEach(e, xs, Callable(g)).engine.registry[xs[k].s] == g
    ensures forall a :: a in e.registry && (forall k :: 0 <= k < i ==> xs[k] != Str(a)) ==>
      a in DefineEach(e, xs, Callable(g)).engine.registry &&
      DefineEach(e, xs, Callable(g)).engine.registry[a] == e.registry[a]
  {
    forall a | a in e.registry && (forall k :: 0 <= k < i ==> xs[k] != Str(a))
      ensures a in DefineEach(e, xs, Callable(g)).engine.registry
      ensures DefineEach(e, xs, Callable(g)).engine.registry[a] == e.registry[a]
    {
      FanOutStoppedKeepsOthers(e, xs, g, i, a);
    }
    if i > 0 {
      var e1 := DefineParameter(e, xs[0], Callable(g)).engine;
      assert forall k :: 1 <= k < |xs| ==> xs[k] == xs[1..][k - 1];
      FanOutStopsAtRejected(e1, xs[1..], g, i - 1);
      var s := DefineEach(e, xs, Callable(g));
      assert s == DefineEach(e1, xs[1..], Callable(g));
      forall k | 0 <= k < i
        ensures xs[k].s in s.engine.registry && s.engine.registry[xs[k].s] == g
      {
        if k > 0 {
          assert xs[k] == xs[1..][k - 1];
        } else {
          FanOutPrefixKept(e1, xs[1..], g, i - 1, xs[0].s);
        }
      }
    }
  }

  /** A fan-out that stops at a rejected name leaves every name it did not reach alone. */
  lemma {:induction false} FanOutStoppedKeepsOthers(e: Engine, xs: seq<JVal>, g: Getter, i: nat, a: string)
    requires i < |xs|
    requires forall k :: 0 <= k < i ==> AcceptedName(xs[k])
    requires !AcceptedName(xs[i]) && !xs[i].Arr?
    requires a in e.registry && forall k :: 0 <= k < i ==> xs[k] != Str(a)
    decreases i
    ensures a in DefineEach(e, xs, Callable(g)).engine.registry
    ensures DefineEach(e, xs, Callable(g)).engine.registry[a] == e.registry[a]
  {
    if i > 0 {
      var e1 := DefineParameter(e, xs[0], Callable(g)).engine;
      assert forall k :: 1 <= k < |xs| ==> xs[k] == xs[1..][k - 1];
      FanOutStoppedKeepsOthers(e1, xs[1..], g, i - 1, a);
    }
  }

  /** A name registered to `g` before a fan-out of accepted names stays registered to `g`. */
  lemma {:induction false} FanOutPrefixKept(e: Engine, xs: seq<JVal>, g: Getter, i: nat, a: string)
    requires i < |xs|
    requires forall k :: 0 <= k < i ==> AcceptedName(xs[k])
    requires !AcceptedName(xs[i]) && !xs[i].Arr?
    requires a in e.registry && e.registry[a] == g
    decreases i
    ensures a in DefineEach(e, xs, Callable(g)).engine.registry
    ensures DefineEach(e, xs, Callable(g)).engine.registry[a] == g
  {
    if i > 0 {
      var e1 := DefineParameter(e, xs[0], Callable(g)).engine;
      assert forall k :: 1 <= k < |xs| ==> xs[k] == xs[1..][k - 1];
      FanOutPrefixKept(e1, xs[1..], g, i - 1, a);
    }
  }

  /**
    `ignoreParameter(name)`: a reserved name is a parameter error and changes
    nothing; any other name joins the ignore set.
   */
  function IgnoreParameter(e: Engine, name: string): (s: Step)
    ensures s.error.Some? <==> name in ReservedNames
    ensures s.error.Some? ==> s.error.value == ParameterErr && s.engine == e
    ensures s.error.None? ==> s.engine.ignored == e.ignored + {name} && s.engine.registry == e.registry
  {
    if name in ReservedNames then Step(e, Some(ParameterErr)) else Step(e.(ignored := e.ignored + {name}), None)
  }

  /** An omitted getter-parameter argument defaults to an empty object. */
  function DefaultParams(params: JVal): (p: JVal)
    ensures params == Undefined ==> p == Obj([])
    ensures params != Undefined ==> p == params
  {
    if params == Undefined then Obj([]) else params
  }

  /** The requests a parsed ruleset makes of the accessors. */
  function RequestsOf(l: ParameterList): seq<Request> {
    Requests(CollectParams(l, Empty))
  }

  /**
    `evaluateWithReason(ruleset, params)`: parse, collect, resolve, evaluate;
    each stage runs only if the one before it succeeded.
   */
  function EvaluateWithReason(e: Engine, ruleset: JVal, params: JVal): (r: Result<EvalResult, Error>)
    ensures r.Success? ==> ParseParams(ruleset, e.ignored).Success?
    ensures r.Success? && r.value.value ==> r.value == Pass
    ensures r.Success? && !r.value.value ==> r.value.parameterName.Some?
  {
    var l :- ParseParams(ruleset, e.ignored);
    var values :- GetCurrentValues(e.registry, RequestsOf(l), DefaultParams(params));
    EvalParams(l, values)
  }

  /** `evaluate(ruleset, params)`: the verdict of `evaluateWithReason`, without the reason. */
  function Evaluate(e: Engine, ruleset: JVal, params: JVal): (r: Result<bool, Error>)
  {
    var res :- EvaluateWithReason(e, ruleset, params);
    Success(res.value)
  }

  // ---------------------------------------------------------------------------
  // Pipeline properties
  // ---------------------------------------------------------------------------

  /** `evaluate` agrees with `evaluateWithReason`: same errors, and the verdict is its `.value`. */
  lemma EvaluateIsVerdict(e: Engine, ruleset: JVal, params: JVal)
    ensures Evaluate(e, ruleset, params).Success? <==> EvaluateWithReason(e, ruleset, params).Success?
    ensures Evaluate(e, ruleset, params).Failure? ==>
      Evaluate(e, ruleset, params).error == EvaluateWithReason(e, ruleset, params).error
    ensures Evaluate(e, ruleset, params) == Success(true) <==> EvaluateWithReason(e, ruleset, params) == Success(Pass)
  {
  }

  /**
    A malformed ruleset is reported before any accessor is consulted: the
    outcome is the same rule-syntax error whatever the registry and the getter
    parameters.
   */
  lemma ParseErrorFirst(e1: Engine, e2: Engine, ruleset: JVal, p1: JVal, p2: JVal)
    requires e1.ignored == e2.ignored
    requires !ValidRuleset(ruleset, e1.ignored)
    ensures EvaluateWithReason(e1, ruleset, p1) == Failure(RuleSyntax)
    ensures EvaluateWithReason(e2, ruleset, p2) == Failure(RuleSyntax)
  {
    ParseParamsSucceedsIff(ruleset, e1.ignored);
  }

  /** A Single node found in a parsed tree is well-formed and not ignored. */
  lemma {:induction false} SingleInherits(l: ParameterList, n: Node, ignore: set<string>)
    requires WellFormedParams(l) && AvoidsNames(l, ignore) && HasSingle(l, n)
    decreases l, 1
    ensures WellFormedNode(n) && n.Single? && n.name !in ignore
  {
    var i :| 0 <= i < |l.nodes| && HasSingleNode(l.nodes[i], n);
    assert WellFormedNode(l.nodes[i]) && AvoidsNamesNode(l.nodes[i], ignore);
    match l.nodes[i]
    case Single(_, _, _, _) =>
    case OrNode(ls) =>
      var j :| 0 <= j < |ls| && HasSingle(ls[j], n);
      SingleInherits(ls[j], n, ignore);
  }

  /** A key in the ignore set never names a Single node of the parsed tree, at any depth. */
  lemma IgnoredNeverParsed(e: Engine, ruleset: JVal, n: Node)
    requires ParseParams(ruleset, e.ignored).Success? && HasSingle(ParseParams(ruleset, e.ignored).value, n)
    ensures n.Single? && n.name !in e.ignored
  {
    SingleInherits(ParseParams(ruleset, e.ignored).value, n, e.ignored);
  }

  /** An entry whose key is ignored makes no difference to the outcome. */
  lemma IgnoredEntryIrrelevant(e: Engine, m: Member, ms: seq<Member>, params: JVal)
    requires m.key in e.ignored
    ensures EvaluateWithReason(e, Obj([m] + ms), params) == EvaluateWithReason(e, Obj(ms), params)
  {
    IgnoredEntryDropped(m, ms, e.ignored);
  }

  /** The collector built from a parsed tree satisfies its representation invariant. */
  lemma CollectedValid(l: ParameterList)
    ensures Valid(CollectParams(l, Empty))
  {
    CollectIsAddAll(l, Empty);
    AddAllValid(Empty, Data(l));
  }

  /**
    There is one request per distinct accessor: an accessor is asked for
    exactly when some Single node anywhere in the tree, OR branches included,
    reads it.
   */
  lemma RequestsCoverSingles(l: ParameterList, a: string)
    ensures forall i, j :: 0 <= i < j < |RequestsOf(l)| ==> RequestsOf(l)[i].accessorName != RequestsOf(l)[j].accessorName
    ensures (exists i :: 0 <= i < |RequestsOf(l)| && RequestsOf(l)[i].accessorName == a) <==>
      (exists n :: HasSingle(l, n) && n.Single? && n.accessor == a)
  {
    var c := CollectParams(l, Empty);
    CollectedValid(l);
    ChildrenAreSingleAccessors(l, a);
    var qs := Requests(c);
    assert RequestsOf(l) == qs;
    assert a in c.children <==> exists i :: 0 <= i < |qs| && qs[i].accessorName == a;
  }

  /** The collector records an accessor exactly when some Single node reads it. */
  lemma ChildrenAreSingleAccessors(l: ParameterList, a: string)
    ensures a in CollectParams(l, Empty).children <==> exists n :: HasSingle(l, n) && n.Single? && n.accessor == a
  {
    var ds := Data(l);
    CollectIsAddAll(l, Empty);
    AddAllKeySet(Empty, ds);
    AccessorsReadIff(ds, a);
    if exists i :: 0 <= i < |ds| && ds[i].accessor == a {
      var i :| 0 <= i < |ds| && ds[i].accessor == a;
      DataIsSingles(l, ds[i]);
    }
    if exists n :: HasSingle(l, n) && n.Single? && n.accessor == a {
      var n :| HasSingle(l, n) && n.Single? && n.accessor == a;
      DataIsSingles(l, DatumOf(n));
      var i :| 0 <= i < |ds| && ds[i] == DatumOf(n);
    }
  }

  /**
    The request for a Single node's accessor carries every constraint value
    of that node: under the accessor itself for a direct read, under the
    joined path for a dotted one.
   */
  lemma RequestCarriesConstraintValues(l: ParameterList, n: Node, ignore: set<string>)
    requires WellFormedParams(l) && AvoidsNames(l, ignore) && HasSingle(l, n)
    ensures n.Single?
    ensures n.path == [] ==> ValueSet(n.constraints) <= RequestFor(CollectParams(l, Empty), n.accessor).constraintValues
    ensures Join(n.path) != "" ==>
      var q := RequestFor(CollectParams(l, Empty), n.accessor);
      Join(n.path) in q.childrenConstraintValues && ValueSet(n.constraints) <= q.childrenConstraintValues[Join(n.path)]
  {
    SingleInherits(l, n, ignore);
    NameJoinsPath(n);
    var c := CollectParams(l, Empty);
    var ds := Data(l);
    CollectIsAddAll(l, Empty);
    DataIsSingles(l, DatumOf(n));
    var i :| 0 <= i < |ds| && ds[i] == DatumOf(n);
    assert ds[i].parameterName == n.name && ds[i].accessor == n.accessor && ds[i].accessedChild == Join(n.path);
    AddAllValueSets(Empty, ds, n.name);
    ValuesNamedHas(ds, i);
    assert ValueSet(n.constraints) <= Get(c.constraintValues, n.name);
    AddAllPaths(Empty, ds, n.accessor, Join(n.path));
    PathsReadHas(ds, i);
    assert Join(n.path) in ChildrenOf(c, n.accessor);
    if Join(n.path) != "" {
      assert n.path != [];
      assert n.name == n.accessor + "." + Join(n.path);
    }
  }

  /**
    When the ruleset parses but some Single node's accessor has no getter,
    the outcome is a missing-accessor error for an accessor the ruleset reads,
    and no constraint is evaluated.
   */
  lemma MissingAccessorBeforeEvaluation(e: Engine, ruleset: JVal, params: JVal, n: Node)
    requires ParseParams(ruleset, e.ignored).Success?
    requires HasSingle(ParseParams(ruleset, e.ignored).value, n) && n.Single? && n.accessor !in e.registry
    ensures EvaluateWithReason(e, ruleset, params).Failure?
    ensures EvaluateWithReason(e, ruleset, params).error.MissingAccessor?
    ensures EvaluateWithReason(e, ruleset, params).error.accessorName !in e.registry
    ensures exists m :: (HasSingle(ParseParams(ruleset, e.ignored).value, m) && m.Single? &&
                         m.accessor == EvaluateWithReason(e, ruleset, params).error.accessorName)
  {
    var l := ParseParams(ruleset, e.ignored).value;
    var qs := RequestsOf(l);
    var p := DefaultParams(params);
    RequestsCoverSingles(l, n.accessor);
    assert GetCurrentValues(e.registry, qs, p).Failure?;
    var i := FirstMissingInPrefix(e.registry, qs, |qs|, p);
    RequestsCoverSingles(l, qs[i].accessorName);
  }

  /**
    An error raised while evaluating the tree (the engine's type error, a
    missing field on a path, or the runtime's TypeError) comes only after the
    ruleset parsed and every accessor a Single node reads was resolved.
   */
  lemma EvaluationErrorAfterResolution(e: Engine, ruleset: JVal, params: JVal)
    requires EvaluateWithReason(e, ruleset, params).Failure?
    requires EvaluateWithReason(e, ruleset, params).error == TypeErr ||
             EvaluateWithReason(e, ruleset, params).error == HostTypeErr ||
             EvaluateWithReason(e, ruleset, params).error.MissingField?
    ensures ParseParams(ruleset, e.ignored).Success?
    ensures forall n :: HasSingle(ParseParams(ruleset, e.ignored).value, n) && n.Single? ==> n.accessor in e.registry
  {
    var l := ParseParams(ruleset, e.ignored).value;
    var qs := RequestsOf(l);
    if GetCurrentValues(e.registry, qs, DefaultParams(params)).Failure? {
      FirstMissingReported(e.registry, qs, DefaultParams(params));
      assert false;
    }
    forall n | HasSingle(l, n) && n.Single?
      ensures n.accessor in e.registry
    {
      RequestsCoverSingles(l, n.accessor);
      var i :| 0 <= i < |qs| && qs[i].accessorName == n.accessor;
    }
  }

  /**
    When every accessor resolves, the value map holds exactly the accessors
    the ruleset reads, each the output of its getter on the defaulted getter
    parameters and its own request.
   */
  lemma ResolvedValues(e: Engine, l: ParameterList, params: JVal, a: string)
    requires GetCurrentValues(e.registry, RequestsOf(l), DefaultParams(params)).Success?
    ensures a in GetCurrentValues(e.registry, RequestsOf(l), DefaultParams(params)).value <==>
      exists n :: HasSingle(l, n) && n.Single? && n.accessor == a
    ensures a in GetCurrentValues(e.registry, RequestsOf(l), DefaultParams(params)).value ==>
      a in e.registry &&
      GetCurrentValues(e.registry, RequestsOf(l), DefaultParams(params)).value[a] ==
        e.registry[a](DefaultParams(params), RequestFor(CollectParams(l, Empty), a))
  {
    var qs := RequestsOf(l);
    RequestsCoverSingles(l, a);
    ResolvedDistinct(e.registry, qs, DefaultParams(params));
    if exists i :: 0 <= i < |qs| && qs[i].accessorName == a {
      var i :| 0 <= i < |qs| && qs[i].accessorName == a;
      assert qs[i] == RequestFor(CollectParams(l, Empty), CollectParams(l, Empty).accessors[i]);
    }
  }

  // ---------------------------------------------------------------------------
  // Worked examples on a fresh engine
  // ---------------------------------------------------------------------------

  /** `{ is: x }` is a single equality test. */
  lemma OneTestConstraint(x: JVal)
    requires IsPrimitive(x)
    ensures ParseList(Obj([Member("is", x)])) == Success(ConstraintList([Primitive(Is, x)]))
  {
    var limits := [Member("is", x)];
    assert limits[1..] == [] && limits[0] == Member("is", x);
    assert ParseConstraint("is", x) == Success(Primitive(Is, x));
    assert ParseMembers(limits[1..]) == Success([]);
    assert [Primitive(Is, x)] + [] == [Primitive(Is, x)];
    assert ParseMembers(limits) == Success([Primitive(Is, x)]);
  }

  lemma OneTestRuleset(key: string, x: JVal, ignore: set<string>)
    requires key !in ignore && key != OrKey && Split(key) == [key] && IsPrimitive(x)
    ensures ParseParams(Obj([Member(key, Obj([Member("is", x)]))]), ignore)
         == Success(ParameterList([Single(key, key, [], ConstraintList([Primitive(Is, x)]))]))
    ensures CollectParams(ParameterList([Single(key, key, [], ConstraintList([Primitive(Is, x)]))]), Empty)
         == AddData(Empty, DatumOf(Single(key, key, [], ConstraintList([Primitive(Is, x)]))))
  {
    var limits := [Member("is", x)];
    OneTestConstraint(x);
    var cl := ConstraintList([Primitive(Is, x)]);
    var n := Single(key, key, [], cl);
    assert ParseNode(key, Obj(limits), ignore) == Success(n);
    var ms := [Member(key, Obj(limits))];
    assert ms[1..] == [] && ms[0] == Member(key, Obj(limits));
    assert ParseNodes(ms[1..], ignore) == Success([]);
    assert [n] + [] == [n];
    assert ParseNodes(ms, ignore) == Success([n]);
    assert [n][1..] == [];
    assert CollectNodes([n], Empty) == CollectNodes([], CollectNode(n, Empty));
  }

  /** The single request a one-test ruleset on a dot-free key makes. */
  lemma OneTestRequest(key: string, x: JVal)
    ensures var n := Single(key, key, [], ConstraintList([Primitive(Is, x)]));
      RequestsOf(ParameterList([n])) == [Request(key, {x}, [], map[])]
  {
    var n := Single(key, key, [], ConstraintList([Primitive(Is, x)]));
    var c := CollectParams(ParameterList([n]), Empty);
    assert c == AddData(Empty, DatumOf(n)) by {
      assert [n][1..] == [] && [n][0] == n;
      assert CollectNode(n, Empty) == AddData(Empty, DatumOf(n));
      assert CollectNodes([n], Empty) == CollectNodes([], CollectNode(n, Empty));
    }
    assert ValueSet(n.constraints) == {x} by {
      var cs := [Primitive(Is, x)];
      assert cs[..0] == [] && cs[0] == Primitive(Is, x);
      assert ItemsValueSet(cs) == ItemsValueSet([]) + ValueSetOne(Primitive(Is, x));
    }
    assert c.accessors == [key];
    assert ChildrenOf(c, key) == [""];
    assert SkipEmpty([""]) == [] by {
      assert [""][1..] == [];
    }
    assert Get(c.constraintValues, key) == {x};
    var q := RequestFor(c, key);
    assert q == Request(key, {x}, [], map[]);
  }

  /** The pipeline unfolded past a successful parse, for the worked examples below. */
  lemma PipelineAfterParse(e: Engine, ruleset: JVal, params: JVal, l: ParameterList)
    requires ParseParams(ruleset, e.ignored) == Success(l)
    ensures GetCurrentValues(e.registry, RequestsOf(l), DefaultParams(params)).Failure? ==>
      EvaluateWithReason(e, ruleset, params) == Failure(GetCurrentValues(e.registry, RequestsOf(l), DefaultParams(params)).error)
    ensures GetCurrentValues(e.registry, RequestsOf(l), DefaultParams(params)).Success? ==>
      EvaluateWithReason(e, ruleset, params) == EvalParams(l, GetCurrentValues(e.registry, RequestsOf(l), DefaultParams(params)).value)
  {
  }

  lemma PassResolution(b: bool)
    ensures var n := Single("pass", "pass", [], ConstraintList([Primitive(Is, Bool(b))]));
      GetCurrentValues(NewEngine().registry, RequestsOf(ParameterList([n])), Obj([]))
        == Success(map["pass" := Bool(true)])
  {
    OneTestRequest("pass", Bool(b));
    var qs := [Request("pass", {Bool(b)}, [], map[])];
    assert ResolvePrefix(NewEngine().registry, qs, 0, Obj([])) == Success(map[]);
  }

  lemma PassEvaluation(b: bool)
    ensures var n := Single("pass", "pass", [], ConstraintList([Primitive(Is, Bool(b))]));
      EvalParams(ParameterList([n]), map["pass" := Bool(true)])
        == Success(if b then Pass else EvalResult(false, Some("pass")))
  {
    var cl := ConstraintList([Primitive(Is, Bool(b))]);
    var n := Single("pass", "pass", [], cl);
    var values := map["pass" := Bool(true)];
    assert WalkPath(Lookup(values, "pass"), [], "pass") == Success(Bool(true));
    assert AllHold(cl, Bool(true)) == b by {
      assert cl.items[0] == Primitive(Is, Bool(b));
    }
    assert IsPrimitive(Bool(true));
    assert EvalList(cl, Bool(true)) == Success(b);
    assert EvalNode(n, values) == Success(Done(EvalResult(b, if b then None else Some("pass"))));
    assert [n][1..] == [] && [n][0] == n;
    assert EvalNodes([n][1..], values) == Success(Pass);
  }

  /** `{ pass: { is: true } }` holds, and `{ pass: { is: false } }` fails naming `pass`. */
  lemma PassExamples(b: bool)
    ensures EvaluateWithReason(NewEngine(), Obj([Member("pass", Obj([Member("is", Bool(b))]))]), Undefined)
         == Success(if b then Pass else EvalResult(false, Some("pass")))
  {
    SplitDotFree("pass");
    OneTestRuleset("pass", Bool(b), {});
    PassResolution(b);
    PassEvaluation(b);
    var n := Single("pass", "pass", [], ConstraintList([Primitive(Is, Bool(b))]));
    PipelineAfterParse(NewEngine(), Obj([Member("pass", Obj([Member("is", Bool(b))]))]), Undefined, ParameterList([n]));
  }

  lemma MissingV9Resolution()
    ensures var n := Single("v9", "v9", [], ConstraintList([Primitive(Is, Num(1))]));
      GetCurrentValues(NewEngine().registry, RequestsOf(ParameterList([n])), Obj([]))
        == Failure(MissingAccessor("v9", ["'v9'"]))
  {
    OneTestRequest("v9", Num(1));
    var qs := [Request("v9", {Num(1)}, [], map[])];
    assert ResolvePrefix(NewEngine().registry, qs, 0, Obj([])) == Success(map[]);
    assert Quote("v9") == "'v9'";
  }

  /** A ruleset reading an accessor nobody registered fails with that accessor's name. */
  lemma MissingAccessorExample()
    ensures EvaluateWithReason(NewEngine(), Obj([Member("v9", Obj([Member("is", Num(1))]))]), Undefined)
         == Failure(MissingAccessor("v9", ["'v9'"]))
  {
    SplitDotFree("v9");
    OneTestRuleset("v9", Num(1), {});
    MissingV9Resolution();
    var n := Single("v9", "v9", [], ConstraintList([Primitive(Is, Num(1))]));
    PipelineAfterParse(NewEngine(), Obj([Member("v9", Obj([Member("is", Num(1))]))]), Undefined, ParameterList([n]));
  }
}
