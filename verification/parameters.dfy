/**
  The parameter tree of a ruleset: an object such as
  `{ v1: { max: 2 }, 'o.a.b': { is: 3 }, OR: [{ v2: { min: 1 } }, { pass: {} }] }`
  parsed into an AND-list of nodes. A Single node tests the value reached
  through an accessor and a dotted field path against a constraint tree; an
  `OR` node holds nested rulesets.
 */
module Parameters {
  import opened Wrappers
  import opened Values
  import opened Errors
  import opened Strings
  import opened Constraints
  import opened EvalResults
  import opened SafeAccess
  import opened Collector

  /** Names that can be neither accessors nor ignored parameters. */
  const ReservedNames: set<string> := {"or", "and", "OR", "AND"}

  /** An AND-list of nodes, in the key order of the ruleset object. */
  datatype ParameterList = ParameterList(nodes: seq<Node>)

  datatype Node =
    /**
      A dotted key `accessor.p1.p2`: `name` is the whole key, `accessor` its
      first segment and `path` the remaining segments.
     */
    | Single(name: string, accessor: string, path: seq<string>, constraints: ConstraintList)
    /** `OR: [ruleset, ...]` */
    | OrNode(lists: seq<ParameterList>)

  // ---------------------------------------------------------------------------
  // Parsing
  // ---------------------------------------------------------------------------

  /** What a ruleset must look like for parsing to succeed; ignored keys are never looked at. */
  ghost predicate ValidRuleset(v: JVal, ignore: set<string>)
    decreases v, 1
  {
    match v
    case Obj(ms) => forall i :: 0 <= i < |ms| ==> ms[i].key in ignore || ValidNode(ms[i].key, ms[i].value, ignore)
    case _ => false
  }

  ghost predicate ValidNode(key: string, value: JVal, ignore: set<string>)
    decreases value, 0
  {
    if key == OrKey then value.Arr? && forall j :: 0 <= j < |value.elems| ==> ValidRuleset(value.elems[j], ignore)
    else IsObject(value) && ValidList(value)
  }

  /**
    The shape parsing guarantees: a Single node's key is not `OR`, splits into
    its accessor and path, and owns a well-formed constraint tree.
   */
  ghost predicate WellFormedParams(l: ParameterList)
    decreases l, 1
  {
    forall i :: 0 <= i < |l.nodes| ==> WellFormedNode(l.nodes[i])
  }

  ghost predicate WellFormedNode(n: Node)
    decreases n, 0
  {
    match n
    case Single(name, accessor, path, cl) => name != OrKey && Split(name) == [accessor] + path && WellFormed(cl)
    case OrNode(ls) => forall j :: 0 <= j < |ls| ==> WellFormedParams(ls[j])
  }

  /** No Single node anywhere in the tree is named by a key of `ignore`. */
  ghost predicate AvoidsNames(l: ParameterList, ignore: set<string>)
    decreases l, 1
  {
    forall i :: 0 <= i < |l.nodes| ==> AvoidsNamesNode(l.nodes[i], ignore)
  }

  ghost predicate AvoidsNamesNode(n: Node, ignore: set<string>)
    decreases n, 0
  {
    match n
    case Single(name, _, _, _) => name !in ignore
    case OrNode(ls) => forall j :: 0 <= j < |ls| ==> AvoidsNames(ls[j], ignore)
  }

  /**
    `new ParameterListObject(v, ignore)`: `v` must be a plain object; keys in
    `ignore` are dropped before their values are looked at, and every other
    entry becomes one node, in enumeration order.
   */
  function ParseParams(v: JVal, ignore: set<string>): (r: Result<ParameterList, Error>)
    decreases v, 2
    ensures r.Failure? ==> r.error == RuleSyntax
    ensures !IsPlainObject(v) ==> r == Failure(RuleSyntax)
    ensures r.Success? ==> WellFormedParams(r.value) && AvoidsNames(r.value, ignore)
  {
    match v
    case Obj(ms) => var nodes :- ParseNodes(ms, ignore); Success(ParameterList(nodes))
    case _ => Failure(RuleSyntax)
  }

  function ParseNodes(ms: seq<Member>, ignore: set<string>): (r: Result<seq<Node>, Error>)
    decreases ms, 0
    ensures r.Failure? ==> r.error == RuleSyntax
    ensures r.Success? ==> WellFormedParams(ParameterList(r.value)) && AvoidsNames(ParameterList(r.value), ignore)
  {
    if |ms| == 0 then Success([])
    else if ms[0].key in ignore then ParseNodes(ms[1..], ignore)
    else
      var n :- ParseNode(ms[0].key, ms[0].value, ignore);
      var rest :- ParseNodes(ms[1..], ignore);
      Success([n] + rest)
  }

  /**
    `new ParameterObject(key, value)`: exactly the key `OR` makes an OR node,
    whose value must be an array of rulesets; any other key makes a Single
    node, whose value must be a non-null object holding constraints.
   */
  function ParseNode(key: string, value: JVal, ignore: set<string>): (r: Result<Node, Error>)
    requires key !in ignore
    decreases value, 1
    ensures r.Failure? ==> r.error == RuleSyntax
    ensures r.Success? ==> WellFormedNode(r.value) && AvoidsNamesNode(r.value, ignore)
    ensures r.Success? ==> (r.value.OrNode? <==> key == OrKey)
    ensures r.Success? && key == OrKey ==> value.Arr? && |r.value.lists| == |value.elems|
    ensures r.Success? && key != OrKey ==> r.value.name == key && ParseList(value) == Success(r.value.constraints)
  {
    if key == OrKey then
      if value.Arr? then
        var ls :- ParseBranches(value.elems, ignore);
        Success(OrNode(ls))
      else Failure(RuleSyntax)
    else if !IsObject(value) then Failure(RuleSyntax)
    else
      var segments := Split(key);
      var cl :- ParseList(value);
      Success(Single(key, segments[0], segments[1..], cl))
  }

  function ParseBranches(xs: seq<JVal>, ignore: set<string>): (r: Result<seq<ParameterList>, Error>)
    decreases xs, 0
    ensures r.Failure? ==> r.error == RuleSyntax
    ensures r.Success? ==> |r.value| == |xs|
    ensures r.Success? ==> forall j :: 0 <= j < |xs| ==> ParseParams(xs[j], ignore) == Success(r.value[j])
  {
    if |xs| == 0 then Success([])
    else
      var l :- ParseParams(xs[0], ignore);
      var rest :- ParseBranches(xs[1..], ignore);
      assert forall j :: 1 <= j < |xs| ==> xs[j] == xs[1..][j - 1];
      Success([l] + rest)
  }

  /** Ruleset entries a tree stands for: one key per node, in order. */
  function RenderParams(l: ParameterList): JVal
    decreases l, 1
  {
    Obj(RenderNodes(l.nodes))
  }

  function RenderNodes(ns: seq<Node>): (ms: seq<Member>)
    decreases ns, 0
    ensures |ms| == |ns|
  {
    if |ns| == 0 then [] else [RenderNode(ns[0])] + RenderNodes(ns[1..])
  }

  function RenderNode(n: Node): Member
    decreases n, 1
  {
    match n
    case Single(name, _, _, cl) => Member(name, Render(cl))
    case OrNode(ls) => Member(OrKey, Arr(RenderLists(ls)))
  }

  function RenderLists(ls: seq<ParameterList>): (xs: seq<JVal>)
    decreases ls, 0
    ensures |xs| == |ls|
  {
    if |ls| == 0 then [] else [RenderParams(ls[0])] + RenderLists(ls[1..])
  }

  // ---------------------------------------------------------------------------
  // Parsing properties
  // ---------------------------------------------------------------------------

  /** Parsing a ruleset fails exactly when a non-ignored entry breaks one of the rules of `ValidRuleset`. */
  lemma {:induction false} ParseParamsSucceedsIff(v: JVal, ignore: set<string>)
    decreases v, 2
    ensures ParseParams(v, ignore).Success? <==> ValidRuleset(v, ignore)
  {
    match v
    case Obj(ms) => ParseNodesSucceedsIff(ms, ignore);
    case _ =>
  }

  lemma {:induction false} ParseNodesSucceedsIff(ms: seq<Member>, ignore: set<string>)
    decreases ms, 0
    ensures ParseNodes(ms, ignore).Success? <==>
      forall i :: 0 <= i < |ms| ==> ms[i].key in ignore || ValidNode(ms[i].key, ms[i].value, ignore)
  {
    if |ms| > 0 {
      if ms[0].key !in ignore {
        ParseNodeSucceedsIff(ms[0].key, ms[0].value, ignore);
      }
      ParseNodesSucceedsIff(ms[1..], ignore);
      assert forall i :: 1 <= i < |ms| ==> ms[i] == ms[1..][i - 1];
    }
  }

  lemma {:induction false} ParseNodeSucceedsIff(key: string, value: JVal, ignore: set<string>)
    requires key !in ignore
    decreases value, 1
    ensures ParseNode(key, value, ignore).Success? <==> ValidNode(key, value, ignore)
  {
    if key == OrKey && value.Arr? {
      ParseBranchesSucceedsIff(value.elems, ignore);
    } else if key != OrKey {
      ParseListSucceedsIff(value);
    }
  }

  lemma {:induction false} ParseBranchesSucceedsIff(xs: seq<JVal>, ignore: set<string>)
    decreases xs, 0
    ensures ParseBranches(xs, ignore).Success? <==> forall j :: 0 <= j < |xs| ==> ValidRuleset(xs[j], ignore)
  {
    if |xs| > 0 {
      ParseParamsSucceedsIff(xs[0], ignore);
      ParseBranchesSucceedsIff(xs[1..], ignore);
      assert forall j :: 1 <= j < |xs| ==> xs[j] == xs[1..][j - 1];
    }
  }

  /** An ignored key is dropped whatever its value: an otherwise malformed entry does no harm. */
  lemma IgnoredEntryDropped(m: Member, ms: seq<Member>, ignore: set<string>)
    requires m.key in ignore
    ensures ParseParams(Obj([m] + ms), ignore) == ParseParams(Obj(ms), ignore)
  {
    assert ([m] + ms)[1..] == ms;
  }

  /** A Single node's name is its accessor, then a dot and the joined path when there is a path. */
  lemma NameJoinsPath(n: Node)
    requires n.Single? && WellFormedNode(n)
    ensures n.path == [] ==> n.name == n.accessor
    ensures n.path != [] ==> n.name == n.accessor + [Dot] + Join(n.path)
    ensures n.name == n.accessor + Dotted(n.path)
  {
    SplitHeadRest(n.name);
    var segments := Split(n.name);
    assert segments[0] == n.accessor && segments[1..] == n.path;
  }

  /** The accessor and the path segments are exactly the dot-free pieces of the name. */
  lemma SingleFromName(key: string, value: JVal, ignore: set<string>)
    requires key !in ignore && key != OrKey
    requires ParseNode(key, value, ignore).Success?
    ensures ParseNode(key, value, ignore).value.accessor == Split(key)[0]
    ensures ParseNode(key, value, ignore).value.path == Split(key)[1..]
    ensures Join([ParseNode(key, value, ignore).value.accessor] + ParseNode(key, value, ignore).value.path) == key
  {
    var segments := Split(key);
    assert segments == [segments[0]] + segments[1..];
    JoinSplit(key);
  }

  /**
    Rendering a well-formed tree and parsing the result gives back the same
    tree, as long as neither its names nor `OR` are ignored.
   */
  lemma {:induction false} ParseRenderParams(l: ParameterList, ignore: set<string>)
    requires WellFormedParams(l) && AvoidsNames(l, ignore) && OrKey !in ignore
    decreases l, 1
    ensures ParseParams(RenderParams(l), ignore) == Success(l)
  {
    ParseRenderNodes(l.nodes, ignore);
  }

  lemma {:induction false} ParseRenderNodes(ns: seq<Node>, ignore: set<string>)
    requires WellFormedParams(ParameterList(ns)) && AvoidsNames(ParameterList(ns), ignore) && OrKey !in ignore
    decreases ns, 0
    ensures ParseNodes(RenderNodes(ns), ignore) == Success(ns)
  {
    if |ns| > 0 {
      var ms := RenderNodes(ns);
      assert ms[0] == RenderNode(ns[0]) && ms[1..] == RenderNodes(ns[1..]);
      assert WellFormedNode(ns[0]) && AvoidsNamesNode(ns[0], ignore);
      ParseRenderNode(ns[0], ignore);
      assert forall i :: 1 <= i < |ns| ==> ns[i] == ns[1..][i - 1];
      ParseRenderNodes(ns[1..], ignore);
      assert ns == [ns[0]] + ns[1..];
    }
  }

  lemma {:induction false} ParseRenderNode(n: Node, ignore: set<string>)
    requires WellFormedNode(n) && AvoidsNamesNode(n, ignore) && OrKey !in ignore
    decreases n, 1
    ensures RenderNode(n).key !in ignore
    ensures ParseNode(RenderNode(n).key, RenderNode(n).value, ignore) == Success(n)
  {
    match n
    case Single(name, accessor, path, cl) =>
      ParseRender(cl);
      assert Split(name)[0] == accessor && Split(name)[1..] == path;
    case OrNode(ls) =>
      ParseRenderLists(ls, ignore);
  }

  lemma {:induction false} ParseRenderLists(ls: seq<ParameterList>, ignore: set<string>)
    requires forall j :: 0 <= j < |ls| ==> WellFormedParams(ls[j]) && AvoidsNames(ls[j], ignore)
    requires OrKey !in ignore
    decreases ls, 0
    ensures ParseBranches(RenderLists(ls), ignore) == Success(ls)
  {
    if |ls| > 0 {
      var xs := RenderLists(ls);
      assert xs[0] == RenderParams(ls[0]) && xs[1..] == RenderLists(ls[1..]);
      ParseRenderParams(ls[0], ignore);
      assert forall j :: 0 <= j < |ls[1..]| ==> ls[1..][j] == ls[j + 1];
      ParseRenderLists(ls[1..], ignore);
      assert ParseParams(xs[0], ignore) == Success(ls[0]);
      assert ParseBranches(xs[1..], ignore) == Success(ls[1..]);
      assert ParseBranches(xs, ignore) == Success([ls[0]] + ls[1..]);
      assert ls == [ls[0]] + ls[1..];
    }
  }

  // ---------------------------------------------------------------------------
  // Evaluation
  // ---------------------------------------------------------------------------

  /** `parameterValues.get(a)`: the resolved value of accessor `a`, undefined when there is none. */
  function Lookup(values: map<string, JVal>, a: string): JVal {
    if a in values then values[a] else Undefined
  }

  /** The dotted text of the first `k` segments of `path` is the first segment's, then the rest's. */
  lemma DottedPrefixCons(path: seq<string>, k: nat)
    requires 1 <= k <= |path|
    ensures Dotted(path[..k]) == Dotted([path[0]]) + Dotted(path[1..][..k - 1])
  {
    assert path[..k][1..] == path[1..][..k - 1];
    assert [path[0]][1..] == [];
  }

  /**
    Follows `path` from `v` with `safeKeyAccess`, one segment at a time; `at`
    is the accessor plus the segments consumed so far. A step that finds
    nothing is a rule-syntax error naming the path up to and including that
    step; a step from null or undefined with an ordinary key makes the
    runtime's own-property test throw.
   */
  function WalkPath(v: JVal, path: seq<string>, at: string): (r: Result<JVal, Error>)
    decreases |path|
    ensures |path| == 0 ==> r == Success(v)
    ensures r.Success? && |path| > 0 ==> r.value != Undefined
    ensures r.Failure? ==>
      (r.error == HostTypeErr || exists k :: 1 <= k <= |path| && r.error == MissingField(at + Dotted(path[..k])))
  {
    if |path| == 0 then Success(v)
    else if !Accessible(v, path[0]) then Failure(HostTypeErr)
    else
      var next := SafeKeyAccess(v, path[0]);
      var here := at + Dotted([path[0]]);
      if next == Undefined then
        assert path[..1] == [path[0]];
        Failure(MissingField(here))
      else
        var r := WalkPath(next, path[1..], here);
        assert r.Failure? && r.error != HostTypeErr ==>
          exists k :: 1 <= k <= |path| && r.error == MissingField(at + Dotted(path[..k])) by {
          if r.Failure? && r.error != HostTypeErr {
            var k :| 1 <= k <= |path[1..]| && r.error == MissingField(here + Dotted(path[1..][..k]));
            MissingFieldStep(path, at, k);
          }
        }
        r
  }

  lemma MissingFieldStep(path: seq<string>, at: string, k: nat)
    requires 1 <= k < |path|
    ensures at + Dotted([path[0]]) + Dotted(path[1..][..k]) == at + Dotted(path[..k + 1])
  {
    DottedPrefixCons(path, k + 1);
  }

  /** What evaluating a node gives: a result, or nothing at all (an OR node without branches). */
  datatype Outcome = Done(result: EvalResult) | NoResult

  /**
    `ParameterListObject.evaluate`: nodes in order, returning the first false
    result; reading `.value` of a node that gave nothing raises the runtime's
    TypeError.
   */
  function EvalParams(l: ParameterList, values: map<string, JVal>): (r: Result<EvalResult, Error>)
    decreases l, 2
    ensures r.Success? && r.value.value ==> r.value == Pass
    ensures r.Success? && !r.value.value ==> r.value.parameterName.Some?
  {
    EvalNodes(l.nodes, values)
  }

  function EvalNodes(ns: seq<Node>, values: map<string, JVal>): (r: Result<EvalResult, Error>)
    decreases ns, 1
    ensures r.Success? && r.value.value ==> r.value == Pass
    ensures r.Success? && !r.value.value ==> r.value.parameterName.Some?
  {
    if |ns| == 0 then Success(Pass)
    else
      var o :- EvalNode(ns[0], values);
      if o.NoResult? then Failure(HostTypeErr)
      else if !o.result.value then Success(o.result)
      else EvalNodes(ns[1..], values)
  }

  /**
    A Single node walks its path from the accessor's value and tests what it
    reaches, naming itself only when the test is false; an OR node defers to
    its branches.
   */
  function EvalNode(n: Node, values: map<string, JVal>): (r: Result<Outcome, Error>)
    decreases n, 1
    ensures r.Success? && r.value.Done? && r.value.result.value ==> r.value.result == Pass
    ensures r.Success? && r.value.Done? && !r.value.result.value ==> r.value.result.parameterName.Some?
    ensures r == Success(NoResult) <==> n == OrNode([])
  {
    match n
    case Single(name, accessor, path, cl) =>
      var v :- WalkPath(Lookup(values, accessor), path, accessor);
      var b :- EvalList(cl, v);
      Success(Done(EvalResult(b, if b then None else Some(name))))
    case OrNode(ls) => EvalBranches(ls, values)
  }

  /**
    `ParameterObjectOr.evaluate`: the first passing branch's result; otherwise
    the last branch's failing result, or nothing when there are no branches.
   */
  function EvalBranches(ls: seq<ParameterList>, values: map<string, JVal>): (r: Result<Outcome, Error>)
    decreases ls, 0
    ensures r.Success? && r.value.Done? && r.value.result.value ==> r.value.result == Pass
    ensures r.Success? && r.value.Done? && !r.value.result.value ==> r.value.result.parameterName.Some?
    ensures r == Success(NoResult) <==> |ls| == 0
  {
    if |ls| == 0 then Success(NoResult)
    else
      var first :- EvalParams(ls[0], values);
      if first.value then Success(Done(first))
      else
        var rest :- EvalBranches(ls[1..], values);
        if rest.NoResult? then Success(Done(first)) else Success(rest)
  }

  // ---------------------------------------------------------------------------
  // Evaluation properties
  // ---------------------------------------------------------------------------

  /** A list passes exactly when every one of its nodes passes. */
  lemma {:induction false} ListPassIff(ns: seq<Node>, values: map<string, JVal>)
    ensures EvalNodes(ns, values) == Success(Pass) <==>
      forall i :: 0 <= i < |ns| ==> EvalNode(ns[i], values) == Success(Done(Pass))
  {
    if |ns| > 0 {
      ListPassIff(ns[1..], values);
      assert forall i :: 1 <= i < |ns| ==> ns[i] == ns[1..][i - 1];
    }
  }

  /**
    The first node that does not pass decides the list: its error, its false
    result, or the runtime's TypeError when it gave nothing. Later nodes are
    never evaluated.
   */
  lemma {:induction false} FirstNonPassDecides(ns: seq<Node>, values: map<string, JVal>, i: nat)
    requires i < |ns|
    requires forall k :: 0 <= k < i ==> EvalNode(ns[k], values) == Success(Done(Pass))
    requires EvalNode(ns[i], values) != Success(Done(Pass))
    ensures EvalNode(ns[i], values).Failure? ==> EvalNodes(ns, values) == Failure(EvalNode(ns[i], values).error)
    ensures EvalNode(ns[i], values) == Success(NoResult) ==> EvalNodes(ns, values) == Failure(HostTypeErr)
    ensures EvalNode(ns[i], values).Success? && EvalNode(ns[i], values).value.Done? ==>
      !EvalNode(ns[i], values).value.result.value &&
      EvalNodes(ns, values) == Success(EvalNode(ns[i], values).value.result)
  {
    if i > 0 {
      FirstNonPassDecides(ns[1..], values, i - 1);
      assert forall k :: 1 <= k < |ns| ==> ns[k] == ns[1..][k - 1];
    }
  }

  /** A false list result is the false result of some node, and every node before it passed. */
  lemma {:induction false} ListFailsAtFirst(ns: seq<Node>, values: map<string, JVal>)
    requires EvalNodes(ns, values).Success? && !EvalNodes(ns, values).value.value
    ensures exists i :: (0 <= i < |ns| && EvalNode(ns[i], values) == Success(Done(EvalNodes(ns, values).value)) &&
                         forall k :: 0 <= k < i ==> EvalNode(ns[k], values) == Success(Done(Pass)))
  {
    var r := EvalNodes(ns, values).value;
    var o := EvalNode(ns[0], values);
    if o == Success(Done(r)) {
      assert 0 < |ns|;
    } else {
      assert o.value.Done? && o.value.result.value;
      ListFailsAtFirst(ns[1..], values);
      var i :| 0 <= i < |ns[1..]| && EvalNode(ns[1..][i], values) == Success(Done(r)) &&
        forall k :: 0 <= k < i ==> EvalNode(ns[1..][k], values) == Success(Done(Pass));
      assert forall k :: 1 <= k < |ns| ==> ns[k] == ns[1..][k - 1];
      assert EvalNode(ns[i + 1], values) == Success(Done(r));
    }
  }

  /** An OR node passes exactly when some branch passes after all earlier branches failed without error. */
  lemma OrPassIff(ls: seq<ParameterList>, values: map<string, JVal>)
    ensures EvalBranches(ls, values) == Success(Done(Pass)) <==>
      exists j :: 0 <= j < |ls| && EvalParams(ls[j], values) == Success(Pass) &&
        forall k :: 0 <= k < j ==> EvalParams(ls[k], values).Success? && !EvalParams(ls[k], values).value.value
  {
    if EvalBranches(ls, values) == Success(Done(Pass)) {
      var j := OrPassFound(ls, values);
    }
    if exists j :: 0 <= j < |ls| && EvalParams(ls[j], values) == Success(Pass) &&
         forall k :: 0 <= k < j ==> EvalParams(ls[k], values).Success? && !EvalParams(ls[k], values).value.value {
      var j :| 0 <= j < |ls| && EvalParams(ls[j], values) == Success(Pass) &&
        forall k :: 0 <= k < j ==> EvalParams(ls[k], values).Success? && !EvalParams(ls[k], values).value.value;
      OrPassReached(ls, values, j);
    }
  }

  /** The branch that made an OR node pass, with every earlier branch failing without error. */
  lemma {:induction false} OrPassFound(ls: seq<ParameterList>, values: map<string, JVal>) returns (j: nat)
    requires EvalBranches(ls, values) == Success(Done(Pass))
    ensures j < |ls| && EvalParams(ls[j], values) == Success(Pass)
    ensures forall k :: 0 <= k < j ==> EvalParams(ls[k], values).Success? && !EvalParams(ls[k], values).value.value
  {
    OrPassStep(ls, values);
    if EvalParams(ls[0], values) == Success(Pass) {
      j := 0;
    } else {
      var j' := OrPassFound(ls[1..], values);
      j := j' + 1;
      assert forall k :: 1 <= k <= j ==> ls[k] == ls[1..][k - 1];
    }
  }

  /** A passing branch reached after branches that all failed without error makes the OR node pass. */
  lemma {:induction false} OrPassReached(ls: seq<ParameterList>, values: map<string, JVal>, j: nat)
    requires j < |ls| && EvalParams(ls[j], values) == Success(Pass)
    requires forall k :: 0 <= k < j ==> EvalParams(ls[k], values).Success? && !EvalParams(ls[k], values).value.value
    ensures EvalBranches(ls, values) == Success(Done(Pass))
  {
    OrPassStep(ls, values);
    if j > 0 {
      assert forall k :: 0 <= k < j - 1 ==> ls[1..][k] == ls[k + 1];
      OrPassReached(ls[1..], values, j - 1);
    }
  }

  /** An OR node passes when its first branch passes, or that branch fails without error and the rest pass. */
  lemma OrPassStep(ls: seq<ParameterList>, values: map<string, JVal>)
    requires |ls| > 0
    ensures EvalBranches(ls, values) == Success(Done(Pass)) <==>
      (EvalParams(ls[0], values) == Success(Pass) ||
       (EvalParams(ls[0], values).Success? && !EvalParams(ls[0], values).value.value &&
        EvalBranches(ls[1..], values) == Success(Done(Pass))))
  {
  }

  /** When every branch fails without error, the OR node gives the last branch's failing result. */
  lemma {:induction false} OrAllFailLast(ls: seq<ParameterList>, values: map<string, JVal>)
    requires |ls| > 0
    requires forall j :: 0 <= j < |ls| ==> EvalParams(ls[j], values).Success? && !EvalParams(ls[j], values).value.value
    ensures EvalBranches(ls, values) == Success(Done(EvalParams(ls[|ls| - 1], values).value))
  {
    if |ls| > 1 {
      assert forall k :: 1 <= k < |ls| ==> ls[k] == ls[1..][k - 1];
      OrAllFailLast(ls[1..], values);
    }
  }

  /** An OR without branches gives nothing, and a list that reaches it raises the runtime's TypeError. */
  lemma EmptyOrIsHostError(rest: seq<Node>, values: map<string, JVal>)
    ensures EvalNode(OrNode([]), values) == Success(NoResult)
    ensures EvalParams(ParameterList([OrNode([])] + rest), values) == Failure(HostTypeErr)
  {
    assert ([OrNode([])] + rest)[0] == OrNode([]);
  }

  /** A forbidden first path segment is reported as a missing field, whatever the accessor resolved to. */
  lemma ForbiddenSegmentIsMissingField(n: Node, values: map<string, JVal>)
    requires n.Single? && |n.path| > 0 && n.path[0] in ForbiddenKeys
    ensures EvalNode(n, values) == Failure(MissingField(n.accessor + [Dot] + n.path[0]))
  {
    var v := Lookup(values, n.accessor);
    assert Dotted([n.path[0]]) == [Dot] + n.path[0];
    assert Accessible(v, n.path[0]) && SafeKeyAccess(v, n.path[0]) == Undefined;
    assert n.accessor + Dotted([n.path[0]]) == n.accessor + [Dot] + n.path[0];
    assert WalkPath(v, n.path, n.accessor) == Failure(MissingField(n.accessor + [Dot] + n.path[0]));
  }

  /** The missing field an evaluation reports is the node's own name cut after one of its path segments. */
  lemma MissingFieldIsNamePrefix(n: Node, values: map<string, JVal>)
    requires n.Single? && WellFormedNode(n)
    requires EvalNode(n, values).Failure? && EvalNode(n, values).error.MissingField?
    ensures |n.accessor| < |EvalNode(n, values).error.path|
    ensures EvalNode(n, values).error.path <= n.name
  {
    var p := EvalNode(n, values).error.path;
    var w := WalkPath(Lookup(values, n.accessor), n.path, n.accessor);
    assert w.Failure? && w.error == MissingField(p);
    var k :| 1 <= k <= |n.path| && p == n.accessor + Dotted(n.path[..k]);
    DottedPrefixIsPrefix(n.accessor, n.path, k);
    NameJoinsPath(n);
  }

  lemma DottedPrefixIsPrefix(head: string, path: seq<string>, k: nat)
    requires 1 <= k <= |path|
    ensures |head| < |head + Dotted(path[..k])|
    ensures head + Dotted(path[..k]) <= head + Dotted(path)
  {
    DottedAppend(path[..k], path[k..]);
    assert path == path[..k] + path[k..];
    DottedPrefixCons(path, k);
  }

  /** Walking two runs of segments is walking the first and then the second from where the first ended. */
  lemma {:induction false} WalkPathAppend(v: JVal, p: seq<string>, q: seq<string>, at: string)
    decreases |p|
    ensures WalkPath(v, p, at).Failure? ==> WalkPath(v, p + q, at) == WalkPath(v, p, at)
    ensures WalkPath(v, p, at).Success? ==>
      WalkPath(v, p + q, at) == WalkPath(WalkPath(v, p, at).value, q, at + Dotted(p))
  {
    if |p| == 0 {
      assert p + q == q;
      assert at + Dotted(p) == at;
    } else {
      var p0 := p[0];
      assert (p + q)[0] == p0 && (p + q)[1..] == p[1..] + q;
      WalkPathStep(v, p, at);
      WalkPathStep(v, p + q, at);
      if Accessible(v, p0) && SafeKeyAccess(v, p0) != Undefined {
        var here := at + Dotted([p0]);
        WalkPathAppend(SafeKeyAccess(v, p0), p[1..], q, here);
        DottedHead(at, p);
      }
    }
  }

  /** The text of a path is its first dotted segment followed by the text of the rest. */
  lemma DottedHead(at: string, p: seq<string>)
    requires |p| > 0
    ensures at + Dotted([p[0]]) + Dotted(p[1..]) == at + Dotted(p)
  {
    DottedCons(p);
    ConcatAssoc(at, Dotted([p[0]]), Dotted(p[1..]));
  }


  /** One step of a walk: the first segment fails it or hands the rest to the value it reaches. */
  lemma WalkPathStep(v: JVal, p: seq<string>, at: string)
    requires |p| > 0
    ensures !Accessible(v, p[0]) ==> WalkPath(v, p, at) == Failure(HostTypeErr)
    ensures Accessible(v, p[0]) && SafeKeyAccess(v, p[0]) == Undefined ==>
      WalkPath(v, p, at) == Failure(MissingField(at + Dotted([p[0]])))
    ensures Accessible(v, p[0]) && SafeKeyAccess(v, p[0]) != Undefined ==>
      WalkPath(v, p, at) == WalkPath(SafeKeyAccess(v, p[0]), p[1..], at + Dotted([p[0]]))
  {
  }


  /**
    Once the path reaches a primitive value, a Single node's verdict is the
    declarative meaning of its constraint tree, and a false verdict names the
    node.
   */
  lemma SingleVerdict(n: Node, values: map<string, JVal>, w: JVal)
    requires n.Single? && WalkPath(Lookup(values, n.accessor), n.path, n.accessor) == Success(w)
    requires IsPrimitive(w)
    ensures EvalNode(n, values).Success? && EvalNode(n, values).value.Done?
    ensures EvalNode(n, values).value.result.value == AllHold(n.constraints, w)
    ensures EvalNode(n, values).value.result.parameterName == if AllHold(n.constraints, w) then None else Some(n.name)
  {
  }

  /** `n` is a Single node somewhere in the tree, under any depth of OR branches. */
  ghost predicate HasSingle(l: ParameterList, n: Node)
    decreases l, 1
  {
    exists i :: 0 <= i < |l.nodes| && HasSingleNode(l.nodes[i], n)
  }

  ghost predicate HasSingleNode(m: Node, n: Node)
    decreases m, 0
  {
    match m
    case Single(_, _, _, _) => m == n
    case OrNode(ls) => exists j :: 0 <= j < |ls| && HasSingle(ls[j], n)
  }

  /** A false result always blames a Single node of the evaluated tree, by its full dotted name. */
  lemma {:induction false} BlameIsASingle(l: ParameterList, values: map<string, JVal>)
    requires EvalParams(l, values).Success? && !EvalParams(l, values).value.value
    decreases l, 2
    ensures exists n :: HasSingle(l, n) && n.Single? && EvalParams(l, values).value.parameterName == Some(n.name)
  {
    BlameIsASingleNodes(l.nodes, values);
  }

  lemma {:induction false} BlameIsASingleNodes(ns: seq<Node>, values: map<string, JVal>)
    requires EvalNodes(ns, values).Success? && !EvalNodes(ns, values).value.value
    decreases ns, 1
    ensures exists n :: HasSingle(ParameterList(ns), n) && n.Single? && EvalNodes(ns, values).value.parameterName == Some(n.name)
  {
    var r := EvalNodes(ns, values).value;
    var o := EvalNode(ns[0], values);
    if o == Success(Done(r)) {
      BlameIsASingleNode(ns[0], values);
      var n :| HasSingleNode(ns[0], n) && n.Single? && r.parameterName == Some(n.name);
      assert HasSingle(ParameterList(ns), n);
    } else {
      BlameIsASingleNodes(ns[1..], values);
      var n :| HasSingle(ParameterList(ns[1..]), n) && n.Single? && r.parameterName == Some(n.name);
      var i :| 0 <= i < |ns[1..]| && HasSingleNode(ns[1..][i], n);
      assert ns[i + 1] == ns[1..][i];
      assert HasSingle(ParameterList(ns), n);
    }
  }

  lemma {:induction false} BlameIsASingleNode(m: Node, values: map<string, JVal>)
    requires EvalNode(m, values).Success? && EvalNode(m, values).value.Done?
    requires !EvalNode(m, values).value.result.value
    decreases m, 0
    ensures exists n :: HasSingleNode(m, n) && n.Single? && EvalNode(m, values).value.result.parameterName == Some(n.name)
  {
    match m
    case Single(_, _, _, _) =>
      assert HasSingleNode(m, m);
    case OrNode(ls) =>
      BlameIsASingleBranches(ls, values);
  }

  lemma {:induction false} BlameIsASingleBranches(ls: seq<ParameterList>, values: map<string, JVal>)
    requires EvalBranches(ls, values).Success? && EvalBranches(ls, values).value.Done?
    requires !EvalBranches(ls, values).value.result.value
    decreases ls
    ensures exists n :: ((exists j :: 0 <= j < |ls| && HasSingle(ls[j], n)) && n.Single? &&
                         EvalBranches(ls, values).value.result.parameterName == Some(n.name))
  {
    var r := EvalBranches(ls, values).value.result;
    var first := EvalParams(ls[0], values);
    var rest := EvalBranches(ls[1..], values);
    if rest == Success(NoResult) {
      assert first == Success(r);
      BlameIsASingle(ls[0], values);
      var n :| HasSingle(ls[0], n) && n.Single? && r.parameterName == Some(n.name);
      assert exists j :: 0 <= j < |ls| && HasSingle(ls[j], n);
    } else {
      assert rest == Success(Done(r));
      BlameIsASingleBranches(ls[1..], values);
      var n :| (exists j :: 0 <= j < |ls[1..]| && HasSingle(ls[1..][j], n)) && n.Single? && r.parameterName == Some(n.name);
      var j :| 0 <= j < |ls[1..]| && HasSingle(ls[1..][j], n);
      assert ls[j + 1] == ls[1..][j];
      assert exists j :: 0 <= j < |ls| && HasSingle(ls[j], n);
    }
  }

  // ---------------------------------------------------------------------------
  // Collection
  // ---------------------------------------------------------------------------

  /** What a Single node tells the collector: its name, accessor, constraint values and joined path. */
  function DatumOf(n: Node): Datum
    requires n.Single?
  {
    Datum(n.name, n.accessor, ValueSet(n.constraints), Join(n.path))
  }

  /** The data of every Single node in the tree, in depth-first key order. */
  function Data(l: ParameterList): seq<Datum>
    decreases l, 2
  {
    DataNodes(l.nodes)
  }

  function DataNodes(ns: seq<Node>): seq<Datum>
    decreases ns, 1
  {
    if |ns| == 0 then [] else DataNode(ns[0]) + DataNodes(ns[1..])
  }

  function DataNode(n: Node): seq<Datum>
    decreases n, 1
  {
    match n
    case Single(_, _, _, _) => [DatumOf(n)]
    case OrNode(ls) => DataLists(ls)
  }

  function DataLists(ls: seq<ParameterList>): seq<Datum>
    decreases ls, 0
  {
    if |ls| == 0 then [] else Data(ls[0]) + DataLists(ls[1..])
  }

  /**
    `collectParameterData`: every node in key order, and every branch of every
    OR node, adds its data; nothing is evaluated.
   */
  function CollectParams(l: ParameterList, c: Collector): Collector
    decreases l, 2
  {
    CollectNodes(l.nodes, c)
  }

  function CollectNodes(ns: seq<Node>, c: Collector): Collector
    decreases ns, 1
  {
    if |ns| == 0 then c else CollectNodes(ns[1..], CollectNode(ns[0], c))
  }

  function CollectNode(n: Node, c: Collector): Collector
    decreases n, 1
  {
    match n
    case Single(_, _, _, _) => AddData(c, DatumOf(n))
    case OrNode(ls) => CollectLists(ls, c)
  }

  function CollectLists(ls: seq<ParameterList>, c: Collector): Collector
    decreases ls, 0
  {
    if |ls| == 0 then c else CollectLists(ls[1..], CollectParams(ls[0], c))
  }

  /** Collecting a tree adds the data of its Single nodes, in order. */
  lemma {:induction false} CollectIsAddAll(l: ParameterList, c: Collector)
    decreases l, 2
    ensures CollectParams(l, c) == AddAll(c, Data(l))
  {
    CollectNodesIsAddAll(l.nodes, c);
  }

  lemma {:induction false} CollectNodesIsAddAll(ns: seq<Node>, c: Collector)
    decreases ns, 1
    ensures CollectNodes(ns, c) == AddAll(c, DataNodes(ns))
  {
    if |ns| > 0 {
      var c1 := CollectNode(ns[0], c);
      CollectNodeIsAddAll(ns[0], c);
      CollectNodesIsAddAll(ns[1..], c1);
      AddAllAppend(c, DataNode(ns[0]), DataNodes(ns[1..]));
    }
  }

  lemma {:induction false} CollectNodeIsAddAll(n: Node, c: Collector)
    decreases n, 0
    ensures CollectNode(n, c) == AddAll(c, DataNode(n))
  {
    match n
    case Single(_, _, _, _) =>
      assert AddAll(c, [DatumOf(n)]) == AddAll(AddData(c, DatumOf(n)), []);
    case OrNode(ls) => CollectListsIsAddAll(ls, c);
  }

  lemma {:induction false} CollectListsIsAddAll(ls: seq<ParameterList>, c: Collector)
    decreases ls, 0
    ensures CollectLists(ls, c) == AddAll(c, DataLists(ls))
  {
    if |ls| > 0 {
      var c1 := CollectParams(ls[0], c);
      CollectIsAddAll(ls[0], c);
      CollectListsIsAddAll(ls[1..], c1);
      AddAllAppend(c, Data(ls[0]), DataLists(ls[1..]));
    }
  }

  /** The collected data are exactly the data of the tree's Single nodes, OR branches included. */
  lemma {:induction false} DataIsSingles(l: ParameterList, d: Datum)
    decreases l, 2
    ensures d in Data(l) <==> exists n :: HasSingle(l, n) && n.Single? && d == DatumOf(n)
  {
    DataNodesIsSingles(l.nodes, d);
  }

  lemma {:induction false} DataNodesIsSingles(ns: seq<Node>, d: Datum)
    decreases ns, 1
    ensures d in DataNodes(ns) <==> exists n :: HasSingle(ParameterList(ns), n) && n.Single? && d == DatumOf(n)
  {
    if |ns| > 0 {
      DataNodeIsSingles(ns[0], d);
      DataNodesIsSingles(ns[1..], d);
      assert forall i :: 1 <= i < |ns| ==> ns[i] == ns[1..][i - 1];
      if d in DataNodes(ns) {
        if d in DataNode(ns[0]) {
          var n :| HasSingleNode(ns[0], n) && n.Single? && d == DatumOf(n);
          assert HasSingle(ParameterList(ns), n);
        } else {
          var n :| HasSingle(ParameterList(ns[1..]), n) && n.Single? && d == DatumOf(n);
          var i :| 0 <= i < |ns[1..]| && HasSingleNode(ns[1..][i], n);
          assert HasSingleNode(ns[i + 1], n);
          assert HasSingle(ParameterList(ns), n);
        }
      }
      if exists n :: HasSingle(ParameterList(ns), n) && n.Single? && d == DatumOf(n) {
        var n :| HasSingle(ParameterList(ns), n) && n.Single? && d == DatumOf(n);
        var i :| 0 <= i < |ns| && HasSingleNode(ns[i], n);
        if i > 0 {
          assert HasSingle(ParameterList(ns[1..]), n);
        }
      }
    }
  }

  lemma {:induction false} DataNodeIsSingles(m: Node, d: Datum)
    decreases m, 0
    ensures d in DataNode(m) <==> exists n :: HasSingleNode(m, n) && n.Single? && d == DatumOf(n)
  {
    match m
    case Single(_, _, _, _) =>
      assert HasSingleNode(m, m);
    case OrNode(ls) =>
      DataListsIsSingles(ls, d);
  }

  lemma {:induction false} DataListsIsSingles(ls: seq<ParameterList>, d: Datum)
    decreases ls, 0
    ensures d in DataLists(ls) <==>
      exists n :: (exists j :: 0 <= j < |ls| && HasSingle(ls[j], n)) && n.Single? && d == DatumOf(n)
  {
    if |ls| > 0 {
      DataIsSingles(ls[0], d);
      DataListsIsSingles(ls[1..], d);
      assert forall j :: 1 <= j < |ls| ==> ls[j] == ls[1..][j - 1];
      if d in DataLists(ls) && d !in Data(ls[0]) {
        var n :| (exists j :: 0 <= j < |ls[1..]| && HasSingle(ls[1..][j], n)) && n.Single? && d == DatumOf(n);
        var j :| 0 <= j < |ls[1..]| && HasSingle(ls[1..][j], n);
        assert HasSingle(ls[j + 1], n);
      }
      if exists n :: (exists j :: 0 <= j < |ls| && HasSingle(ls[j], n)) && n.Single? && d == DatumOf(n) {
        var n :| (exists j :: 0 <= j < |ls| && HasSingle(ls[j], n)) && n.Single? && d == DatumOf(n);
        var j :| 0 <= j < |ls| && HasSingle(ls[j], n);
        if j > 0 {
          assert HasSingle(ls[1..][j - 1], n);
        }
      }
    }
  }
}
