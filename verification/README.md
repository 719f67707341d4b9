# mini-rule-engine, modelled in Dafny

This project models the rule engine's core. A **ruleset** is a plain object. Each key names a
**parameter** such as `v1` or `o.v2`, or is `OR`. Each value is a **constraints object** such as
`{ min: 1, under: 5 }`, or an array of alternative constraints objects.

`RuleEngine.evaluateWithReason` runs in four stages:

- it parses the ruleset into a parameter tree, dropping ignored keys at every depth;
- it collects what the tree asks of each **accessor** (the part of a parameter name before the
  first dot);
- it resolves every accessor through its registered getter;
- it evaluates the tree against the resolved values.

The result is an `EvalResult`: the verdict, and for a false verdict the name of the parameter
that failed.

The modules follow the source files:

| module | file | models |
|---|---|---|
| `Values` | — | JavaScript values: primitives, arrays, plain objects (ordered own-key lists), functions, other objects |
| `Errors` | `src/errors.mjs` | the engine's three error kinds (rule syntax, with its missing-field and missing-accessor forms; type; parameter), plus a TypeError raised by the runtime |
| `EvalResults` | `src/utils.mjs` | `EvalResult` and its `toString` |
| `SafeAccess` | `src/utils.mjs` | `safeKeyAccess` |
| `Strings` | `src/parameter-manager.mjs` | `split('.')`, `join('.')`, and the decimal keys of array indices |
| `Constraints` | `src/constraint-manager.mjs` | the operator table; `ConstraintList`, `ConstraintPrimitive` and `ConstraintOr`: parse, evaluate, value set |
| `Parameters` | `src/parameter-manager.mjs` | `ParameterListObject`, `ParameterObjectSingle` and `ParameterObjectOr`: parse, evaluate, collect |
| `Collector` | `src/utils.mjs` | `ParameterDataCollector` with `addData` and `getAccessorDataIterator`, and `skipEmpty` |
| `Definitions` | `src/utils.mjs` | `ParameterDefinitions`: registration, `#getValueByName`, `getCurrentValues` |
| `RuleEngine` | `src/index.mjs` | the engine: the `pass` accessor, the registration fan-out over arrays, `ignoreParameter`, the pipeline, `evaluate` |

Each parser is paired with a declarative validity predicate and a renderer. The lemmas prove two
things:

- parsing succeeds exactly on valid input;
- rendering a well-formed tree and parsing the result gives the tree back.

Each evaluator is paired with a declarative meaning (`AllHold`, `Satisfies`) that it agrees with on
every primitive value. Collection is shown equal to adding the data of the tree's Single nodes, and
those data are characterised exactly.

In two places the code as written cannot run, and the model substitutes its evident intent:

- `isPlainObject` is imported by `src/parameter-manager.mjs:2` but is not exported by
  `src/utils.mjs`. As written, the module graph fails to link with a SyntaxError, so no operation
  of the engine runs at all. The model takes `isPlainObject` to accept exactly plain objects
  (`Values.IsPlainObject`); arrays, other objects, functions, null and primitives are all rejected.
- `src/index.mjs:23` calls `defineParameter` on `ParameterDefinitions`. That class defines only
  `defineParameterAccessor` (`src/utils.mjs:89-103`). As written, the call raises a TypeError, so
  `new RuleEngine()` throws at its registration of `pass` (`src/index.mjs:16`). The model registers
  through the validation of `defineParameterAccessor` (`Definitions.DefineAccessor`), reached
  through the array fan-out of `src/index.mjs:19-25`. The as-written behaviour is modelled too, under
  "Findings" below.

Where the code and its surrounding description disagree, the model follows the code:

- A missing accessor's error lists the **raw** child paths that were asked of it, as
  `Object.keys(meta.childrenConstraintValues)` gives them. Only the message text quotes them. When
  there are no child paths, the list is the quoted accessor name alone (`src/utils.mjs:109-115`).
- `src/constraint-manager.mjs:21` accepts every non-null object as a constraints object. An object
  with no own enumerable keys is therefore the empty constraint list. This holds even for an object
  whose prototype is a `String`.

## Model

| member | source | states |
|---|---|---|
| EvalResults.ToString | src/utils.mjs:20-24 | a passing result prints "true"; a failing one prints "false (reason: " followed by text and a closing parenthesis |
| EvalResults.ReasonOfToString | src/utils.mjs:20-24 | a failing result's text carries the blamed parameter name (or "undefined"), and it can be read back exactly |
| EvalResults.ToStringDistinguishesVerdicts | src/utils.mjs:20-24 | a passing result and a failing result never print the same text |
| SafeAccess.SafeKeyAccess | src/utils.mjs:141-149 | `__proto__`, `constructor` and `prototype` give undefined whatever the object holds, as does any key that is not an own property; otherwise the result is the own property's value: the first member of that key, the array element or string character at that index, or the length |
| SafeAccess.LengthIsNoIndex | src/utils.mjs:145-148 | "length" is never an index key, so the length of an array or string never shadows an element |
| Values.FindMember | src/utils.mjs:145-148 | an object has a property exactly when some member has that key, and the value found is that of the first such member |
| Values.FindIndex | src/utils.mjs:145-148 | a key names at most one index below the length, and the index found is that one |
| Values.IndexKeyInjective | src/constraint-manager.mjs:25 | different array indices give different entry keys |
| Values.IndexKeyStartsWithDigit | src/constraint-manager.mjs:67-70 | an array's entry key starts with a digit, so it names no operator and is never `OR` |
| Strings.Split | src/parameter-manager.mjs:65 | splitting on dots gives at least one segment, and no segment contains a dot |
| Strings.JoinSplit | src/parameter-manager.mjs:65-69 | joining the split segments with dots gives back the original parameter name |
| Strings.SplitJoin | src/parameter-manager.mjs:100 | splitting a joined run of dot-free segments gives back the segments |
| Strings.SplitDotFree | src/parameter-manager.mjs:65-67 | a name without dots is its own accessor, with an empty path |
| Strings.SplitHeadRest | src/parameter-manager.mjs:65-69 | a parameter name is its accessor followed by a dot before each path segment |
| Strings.DottedAppend | src/parameter-manager.mjs:78-79 | the consumed-key text of two runs of segments is the two texts one after the other |
| Strings.NatToString | src/constraint-manager.mjs:25 | an index key is a non-empty run of decimal digits |
| Strings.NatToStringInjective | src/constraint-manager.mjs:25 | distinct indices have distinct decimal keys |
| Constraints.OperatorOf | src/constraint-manager.mjs:4-11 | the table knows exactly the six operator names, and each one maps to the operator it names |
| Constraints.OperatorNames | src/constraint-manager.mjs:4-16 | every operator is found under its own name, and no operator is named `OR` |
| Constraints.OrIsNotAnOperator | src/constraint-manager.mjs:13-16 | `OR` is dispatched to the OR-group, never to the primitive table |
| Constraints.ParseList | src/constraint-manager.mjs:19-28 | a constraints value that is not a non-null object (primitive, null, function) is a rule-syntax error; every failure is a rule-syntax error; a parsed tree holds only primitive limits |
| Constraints.ParseMembers | src/constraint-manager.mjs:25-27 | a constraints object parses to one constraint per entry, in entry order, each the parse of its own entry |
| Constraints.ParseIndexed | src/constraint-manager.mjs:25-27 | an array's entries are keyed "0", "1", …, one constraint each, in index order |
| Constraints.ParseConstraint | src/constraint-manager.mjs:46-103 | key `OR` gives an OR-group with one branch per array element; any other key gives the primitive test named by the key, with the value as its limit; failures are rule-syntax errors |
| Constraints.ParseBranches | src/constraint-manager.mjs:100-102 | an OR-group has one branch per array element, each the parse of its element |
| Constraints.ParseListSucceedsIff | src/constraint-manager.mjs:19-28 | parsing succeeds exactly when the value is a non-null object each of whose entries is valid: an operator with a primitive limit, or `OR` with an array of valid constraints objects |
| Constraints.ParseMembersSucceedsIff | src/constraint-manager.mjs:25-27 | an entry list parses exactly when every entry is valid |
| Constraints.ParseIndexedSucceedsIff | src/constraint-manager.mjs:25-27 | an array's entries parse exactly when every index-keyed entry is valid |
| Constraints.ParseConstraintSucceedsIff | src/constraint-manager.mjs:46-103 | a single entry parses exactly when it is valid |
| Constraints.ParseBranchesSucceedsIff | src/constraint-manager.mjs:97-102 | an OR-group's array parses exactly when every element is a valid constraints object |
| Constraints.UnknownKeyRejected | src/constraint-manager.mjs:67-70 | a key that is neither `OR` nor an operator makes the whole constraints object a rule-syntax error |
| Constraints.NonPrimitiveLimitRejected | src/constraint-manager.mjs:72-73 | an object, array or function limit is a rule-syntax error at parse time |
| Constraints.OrWithoutArrayRejected | src/constraint-manager.mjs:97-98 | an `OR` whose value is not an array is a rule-syntax error |
| Constraints.ArrayConstraints | src/constraint-manager.mjs:21-27 | an array passes as a constraints object only when it is empty |
| Constraints.ParseRender | src/constraint-manager.mjs:19-28 | rendering a well-formed constraint tree as an object and parsing it gives back the same tree |
| Constraints.ParseRenderItems | src/constraint-manager.mjs:25-27 | the entries rendered from a list of constraints parse back to that list |
| Constraints.ParseRenderOne | src/constraint-manager.mjs:46-103 | the entry rendered from one constraint parses back to that constraint |
| Constraints.ParseRenderBranches | src/constraint-manager.mjs:100-102 | the array rendered from OR branches parses back to those branches |
| Constraints.LexCompareLt | src/constraint-manager.mjs:9 | `<` on two strings holds exactly when the first is a proper prefix of the second or is smaller at the first difference |
| Constraints.LexCompareEq | src/constraint-manager.mjs:5-10 | two strings compare equal exactly when they are the same string |
| Constraints.LexCompareFlip | src/constraint-manager.mjs:5-10 | swapping two strings reverses their order |
| Constraints.CompareFlip | src/constraint-manager.mjs:5-10 | swapping any two values reverses their order, and incomparable values stay incomparable |
| Constraints.NumberOperators | src/constraint-manager.mjs:4-11 | on numbers, max, min, is, not, under and over are exactly ≤, ≥, =, ≠, < and > |
| Constraints.StringOperators | src/constraint-manager.mjs:4-11 | on strings, under, over, max and min follow lexicographic precedence, and is is equality |
| Constraints.OperatorDuality | src/constraint-manager.mjs:4-11 | max/min and under/over are mirror images; not is the negation of is; max is under-or-equal; on comparable values max is not-over; undefined satisfies no ordering operator |
| Constraints.EvalList | src/constraint-manager.mjs:30-32 | on a primitive value the verdict is exactly whether every constraint holds; the only failure is the engine's type error, and only for a non-primitive value |
| Constraints.EvalItems | src/constraint-manager.mjs:31 | the `every` over a list's constraints agrees with the declarative meaning on primitive values |
| Constraints.EvalOne | src/constraint-manager.mjs:80-85 | on a primitive value a constraint gives its declarative verdict (an OR-group holds when some branch holds); a primitive test on a non-primitive value is a type error, and a type error arises only from a non-primitive value |
| Constraints.EvalAny | src/constraint-manager.mjs:105-107 | an OR-group holds on a primitive value exactly when at least one branch holds, so no branches never holds |
| Constraints.EmptyListAcceptsAll | src/constraint-manager.mjs:30-32 | `{}` accepts every value, non-primitive ones included |
| Constraints.EmptyOrRejectsAll | src/constraint-manager.mjs:105-107 | an OR-group with no branches is false for every value and never raises |
| Constraints.TypeErrorAtReachedPrimitive | src/constraint-manager.mjs:80-82 | an object, array or function value that reaches a primitive test raises the engine's type error |
| Constraints.ShortCircuitOnFalse | src/constraint-manager.mjs:30-32 | once a constraint is false, the rest of the list is not evaluated, so later tests cannot raise |
| Constraints.NonPrimitiveUninspected | src/constraint-manager.mjs:80-82 | any two non-primitive values get the same outcome from a tree: such a value is never looked into |
| Constraints.NonPrimitiveUninspectedItems | src/constraint-manager.mjs:31 | the same for a run of constraints |
| Constraints.NonPrimitiveUninspectedOne | src/constraint-manager.mjs:80-82 | the same for one constraint |
| Constraints.NonPrimitiveUninspectedAny | src/constraint-manager.mjs:105-107 | the same for the branches of an OR-group |
| Constraints.ValueSetIsMentionedLimits | src/constraint-manager.mjs:34-42 | a tree's value set holds exactly the limits of the primitive tests anywhere in it, OR branches included |
| Constraints.ItemsValueSetMentions | src/constraint-manager.mjs:36-39 | the union over a list holds exactly the values some constraint mentions |
| Constraints.ValueSetOneMentions | src/constraint-manager.mjs:87-89 | a primitive test contributes its limit, and an OR-group the limits of its branches |
| Constraints.BranchValueSetMentions | src/constraint-manager.mjs:109-115 | an OR-group's value set is the union over all its branches |
| Constraints.WellFormedLimitsArePrimitive | src/constraint-manager.mjs:72-73 | every value collected from a parsed tree is a primitive |
| Parameters.ParseParams | src/parameter-manager.mjs:9-24 | a ruleset that is not a plain object is a rule-syntax error, and so is every failure; a parsed tree is well-formed and no Single node in it bears an ignored name |
| Parameters.ParseNodes | src/parameter-manager.mjs:14-23 | the non-ignored entries parse to well-formed nodes, none of them named by an ignored key |
| Parameters.ParseNode | src/parameter-manager.mjs:49-115 | only the exact key `OR` makes an OR node, with one branch per array element; any other key makes a Single node named by the key, whose constraint tree is the parse of its value |
| Parameters.ParseBranches | src/parameter-manager.mjs:112-114 | an OR node has one parameter list per array element, each parsed with the same ignore set |
| Parameters.ParseParamsSucceedsIff | src/parameter-manager.mjs:9-24 | a ruleset parses exactly when it is a plain object whose non-ignored entries are all valid |
| Parameters.ParseNodesSucceedsIff | src/parameter-manager.mjs:16-23 | the entries parse exactly when every entry is ignored or valid |
| Parameters.ParseNodeSucceedsIff | src/parameter-manager.mjs:49-115 | an entry parses exactly when it is `OR` with an array of valid rulesets, or another key with a valid constraints object |
| Parameters.ParseBranchesSucceedsIff | src/parameter-manager.mjs:106-115 | an `OR` array parses exactly when every element is a valid ruleset |
| Parameters.IgnoredEntryDropped | src/parameter-manager.mjs:16-19 | an ignored entry is dropped before its value is looked at, so even a malformed value does no harm |
| Parameters.NameJoinsPath | src/parameter-manager.mjs:65-69 | a Single node's name is its accessor, followed by a dot and the joined path when there is a path |
| Parameters.SingleFromName | src/parameter-manager.mjs:65-68 | the accessor is the first dot-separated piece of the key, the path is the remaining pieces, and rejoining them gives the key |
| Parameters.ParseRenderParams | src/parameter-manager.mjs:9-24 | rendering a well-formed parameter tree that avoids the ignored names and parsing it gives back the same tree |
| Parameters.ParseRenderNodes | src/parameter-manager.mjs:14-23 | the entries rendered from a node list parse back to it |
| Parameters.ParseRenderNode | src/parameter-manager.mjs:49-71 | a rendered node's key is not ignored, and the node parses back unchanged |
| Parameters.ParseRenderLists | src/parameter-manager.mjs:112-114 | the array rendered from OR branches parses back to those branches |
| Parameters.WalkPath | src/parameter-manager.mjs:74-86 | no path gives the accessor's own value; a successful walk over a non-empty path never ends at undefined; a failure is either the runtime's TypeError or a missing field named by the accessor and the segments consumed so far |
| Parameters.WalkPathAppend | src/parameter-manager.mjs:78-86 | walking two runs of segments is walking the first, then the second from where the first ended, with the consumed key carried over; a failure in the first run is final |
| Parameters.ForbiddenSegmentIsMissingField | src/parameter-manager.mjs:78-85 | a first path segment of `__proto__`, `constructor` or `prototype` is reported as a missing field, whatever the accessor resolved to |
| Parameters.MissingFieldIsNamePrefix | src/parameter-manager.mjs:76-85 | a reported missing field is the node's name cut after one of its path segments, and is longer than the accessor |
| Parameters.SingleVerdict | src/parameter-manager.mjs:88-90 | a Single node whose path leads to a primitive gets exactly its tree's declarative verdict, and a false verdict names the node's full name |
| Parameters.EvalParams | src/parameter-manager.mjs:26-34 | a true list result names no parameter, and a false one always names one |
| Parameters.EvalNodes | src/parameter-manager.mjs:27-33 | the same holds of the loop over a list's nodes |
| Parameters.EvalNode | src/parameter-manager.mjs:73-131 | a node gives true with no name, or false with a name, or no result at all exactly when it is an OR node without branches |
| Parameters.EvalBranches | src/parameter-manager.mjs:117-131 | an OR node gives no result exactly when it has no branches; otherwise true with no name or false with a name |
| Parameters.ListPassIff | src/parameter-manager.mjs:26-34 | a list passes exactly when every node in it passes |
| Parameters.FirstNonPassDecides | src/parameter-manager.mjs:27-31 | the first node that does not pass decides the list: its error, its false result, or the runtime's TypeError when it gave no result |
| Parameters.ListFailsAtFirst | src/parameter-manager.mjs:27-31 | a false list result is the false result of some node, and every node before it passed |
| Parameters.OrPassIff | src/parameter-manager.mjs:117-131 | an OR node passes exactly when some branch passes after every earlier branch failed without raising |
| Parameters.OrAllFailLast | src/parameter-manager.mjs:120-130 | when every branch fails, the OR node gives the last branch's failing result |
| Parameters.EmptyOrIsHostError | src/parameter-manager.mjs:29 | an OR node without branches gives no result, and the enclosing list then raises the runtime's TypeError reading `.value` of undefined |
| Parameters.BlameIsASingle | src/parameter-manager.mjs:89-90 | a false result always names the full dotted name of a Single node of the evaluated tree, at any depth of OR branches |
| Parameters.BlameIsASingleNodes | src/parameter-manager.mjs:27-30 | the same for a node list |
| Parameters.BlameIsASingleNode | src/parameter-manager.mjs:73-91 | the same for one node |
| Parameters.BlameIsASingleBranches | src/parameter-manager.mjs:117-131 | the same for the branches of an OR node, naming a node in one of the branches |
| Parameters.CollectIsAddAll | src/parameter-manager.mjs:36-45 | collecting a tree adds the data of its Single nodes, in depth-first key order, whatever evaluation would do |
| Parameters.CollectNodesIsAddAll | src/parameter-manager.mjs:40-42 | the same for a node list |
| Parameters.CollectNodeIsAddAll | src/parameter-manager.mjs:93-102 | a Single node adds its own datum, and an OR node the data of its branches |
| Parameters.CollectListsIsAddAll | src/parameter-manager.mjs:133-137 | an OR node collects every branch, in order |
| Parameters.DataIsSingles | src/parameter-manager.mjs:93-101 | the collected data are exactly the name, accessor, value set and joined path of each Single node in the tree, OR branches included |
| Parameters.DataNodesIsSingles | src/parameter-manager.mjs:40-42 | the same for a node list |
| Parameters.DataNodeIsSingles | src/parameter-manager.mjs:133-137 | the same for one node |
| Parameters.DataListsIsSingles | src/parameter-manager.mjs:134-136 | the same for the branches of an OR node |
| Collector.AddData | src/utils.mjs:34-48 | the parameter's value set becomes the union of the old and new sets, and no other parameter's set changes; the accessor's child paths gain the accessed child ("" for direct access), and no other accessor's paths change; the accessor is recorded once, at first sight; the representation invariant is kept |
| Collector.AddDataIdempotent | src/utils.mjs:34-48 | adding the same datum twice is the same as adding it once |
| Collector.AddAllContents | src/utils.mjs:34-48 | after a run of data, a value is under a parameter exactly when it was before or some datum for that parameter carries it; likewise for child paths and recorded accessors |
| Collector.AddAllValueSets | src/utils.mjs:41-43 | each parameter's value set grows by exactly the values the run tests against it |
| Collector.AddAllPaths | src/utils.mjs:45 | each accessor's child paths grow by exactly the paths the run reads from it |
| Collector.AddAllKeySet | src/utils.mjs:45 | the recorded accessors grow by exactly the accessors the run reads |
| Collector.AddAllValid | src/utils.mjs:28-48 | the collector's invariant (accessor order lists each recorded accessor once, child paths without repeats) survives any run of data |
| Collector.AddAllAppend | src/utils.mjs:34-48 | adding two runs one after the other is adding their concatenation |
| Collector.SkipEmpty | src/utils.mjs:76-81 | keeps exactly the non-empty paths, never lengthens the list and keeps it free of repeats |
| Collector.AddDataChildList | src/utils.mjs:45 | adding a node appends the accessed child to the accessor's path list when it is new, and otherwise leaves the list as it was |
| Collector.SkipEmptyAppend | src/utils.mjs:76-81 | dropping empty paths from a concatenation is dropping them from each part, so the surviving paths keep their order |
| Collector.AddDataChildKeyOrder | src/utils.mjs:45-54 | after a node is added, the accessor's request lists a new non-empty child path last and otherwise lists its paths as before |
| Collector.RequestFor | src/utils.mjs:51-64 | a request carries the accessor's name, the values tested against the bare accessor, and for each non-empty child path the values tested against `accessor.path`; its keys are those paths, in the order the accessor first saw them |
| Collector.Requests | src/utils.mjs:50-68 | one request per recorded accessor, in first-seen order, with distinct names covering exactly the recorded accessors |
| Definitions.DefineAccessor | src/utils.mjs:89-103 | registration succeeds exactly for a non-empty, non-reserved string name with a function getter, and otherwise raises a parameter error; on success the name maps to the getter, and every other entry is kept |
| Definitions.RedefineOverwrites | src/utils.mjs:102 | registering a name twice keeps only the second getter |
| Definitions.GetValueByName | src/utils.mjs:105-122 | a registered accessor gives its getter's value on the getter parameters and the request; an unregistered one is a rule-syntax error naming it and listing its child paths, or its quoted name when it has none |
| Definitions.GetCurrentValues | src/utils.mjs:124-137 | resolution succeeds exactly when every requested accessor is registered, and then its keys are exactly the requested names |
| Definitions.FirstMissingReported | src/utils.mjs:124-134 | a failed resolution reports the first request, in order, whose accessor is missing |
| Definitions.LaterRequestWins | src/utils.mjs:134 | each resolved value is its request's getter output, and of two requests for one name the later wins |
| Definitions.ResolvedDistinct | src/utils.mjs:124-137 | with distinct request names, every request is answered by its own getter |
| RuleEngine.NewEngine | src/index.mjs:13-17 | a fresh engine ignores nothing and has exactly the accessor `pass`, which answers true |
| RuleEngine.NewEngineRegistersPass | src/index.mjs:16 | the fresh registry is what registering `pass` with a constant-true getter gives |
| RuleEngine.DefineParameter | src/index.mjs:19-25 | a single name registers exactly when accepted, replacing any earlier getter, and a rejected single name changes nothing; errors are parameter errors; nothing is ever unregistered and the ignore set is untouched |
| RuleEngine.DefineParameterAsWritten | src/index.mjs:19-25 | as written, registration never changes the engine, and every single name raises the runtime's TypeError |
| RuleEngine.DefineEachAsWritten | src/index.mjs:20-21 | as written, a fan-out never changes the engine and raises the TypeError at its first non-array element |
| RuleEngine.ConstructorAsWrittenThrows | src/index.mjs:16 | as written, the constructor's registration of `pass` raises the TypeError, where the intended registration yields the fresh engine |
| RuleEngine.DefineEach | src/index.mjs:20-21 | a fan-out keeps every earlier registration and the ignore set, and fails only with a parameter error |
| RuleEngine.FanOutRegistersEach | src/index.mjs:20-21 | a fan-out over accepted names raises nothing, registers the getter under every listed name and leaves every other name's getter alone |
| RuleEngine.FanOutStopsAtRejected | src/index.mjs:20-21 | a fan-out stops with a parameter error at the first rejected name, keeping the names it registered before it, and every name it did not reach keeps its getter |
| RuleEngine.FanOutStoppedKeepsOthers | src/index.mjs:20-21 | a fan-out that stops at a rejected name leaves the getter of every name outside the registered prefix as it was |
| RuleEngine.FanOutPrefixKept | src/index.mjs:20-21 | a fan-out that stops at a rejected name keeps names already registered to the same getter |
| RuleEngine.IgnoreParameter | src/index.mjs:27-32 | ignoring fails with a parameter error exactly for a reserved name, changing nothing; otherwise it adds the name to the ignore set and leaves the registry alone |
| RuleEngine.DefaultParams | src/index.mjs:34 | omitted getter parameters become the empty object `{}`, and given ones are passed on unchanged |
| RuleEngine.EvaluateWithReason | src/index.mjs:34-42 | a result comes only from a ruleset that parses; a true result names no parameter and a false one names one |
| RuleEngine.EvaluateIsVerdict | src/index.mjs:44-47 | `evaluate` fails exactly when `evaluateWithReason` does, with the same error, and is true exactly when that passes |
| RuleEngine.ParseErrorFirst | src/index.mjs:35 | a malformed ruleset is a rule-syntax error whatever accessors are registered and whatever getter parameters are passed: no accessor is consulted |
| RuleEngine.SingleInherits | src/parameter-manager.mjs:16-23 | every Single node of a parsed tree, at any depth, is well-formed and not ignored |
| RuleEngine.IgnoredNeverParsed | src/index.mjs:35 | an ignored name never names a Single node of the parsed tree, at any depth |
| RuleEngine.IgnoredEntryIrrelevant | src/parameter-manager.mjs:16-19 | adding an ignored entry to a ruleset does not change the outcome |
| RuleEngine.CollectedValid | src/index.mjs:37 | the collector built from a parsed tree satisfies its representation invariant |
| RuleEngine.RequestsCoverSingles | src/index.mjs:37-39 | the requests have distinct names, and an accessor is requested exactly when some Single node reads it |
| RuleEngine.ChildrenAreSingleAccessors | src/parameter-manager.mjs:96-101 | the collector records an accessor exactly when some Single node reads it |
| RuleEngine.RequestCarriesConstraintValues | src/utils.mjs:51-59 | the request for a Single node's accessor carries every value its constraints test: under the accessor for direct access, under the joined path otherwise |
| RuleEngine.MissingAccessorBeforeEvaluation | src/index.mjs:39-41 | if any Single node reads an unregistered accessor, evaluation fails with a missing-accessor error, naming an unregistered accessor that the tree reads, and no constraint is evaluated |
| RuleEngine.ResolvedValues | src/index.mjs:39 | after resolution, an accessor has a value exactly when some Single node reads it, and the value is its getter's output for the collected request |
| RuleEngine.EvaluationErrorAfterResolution | src/index.mjs:35-41 | the engine's type error, a missing field and the runtime's TypeError arise only after the ruleset parsed and every accessor read by a Single node resolved |
| RuleEngine.OneTestConstraint | src/constraint-manager.mjs:25-26 | `{ is: x }` with a primitive `x` is a single equality test |
| RuleEngine.OneTestRuleset | src/parameter-manager.mjs:14-23 | a one-entry ruleset on a dot-free key parses to one Single node, whose collection is one datum |
| RuleEngine.OneTestRequest | src/utils.mjs:50-68 | that ruleset makes exactly one request, for the key, with the single tested value and no child paths |
| RuleEngine.PassResolution | src/index.mjs:16 | on a fresh engine, the accessor `pass` resolves to true |
| RuleEngine.PassEvaluation | src/parameter-manager.mjs:88-90 | `{ is: true }` on `pass` holds, and `{ is: false }` fails naming `pass` |
| RuleEngine.PassExamples | src/index.mjs:34-42 | on a fresh engine, `{ pass: { is: true } }` passes and `{ pass: { is: false } }` fails with reason `pass` |
| RuleEngine.MissingV9Resolution | src/utils.mjs:113-118 | on a fresh engine, a request for the unregistered `v9` fails, listing the quoted name `'v9'` |
| RuleEngine.MissingAccessorExample | src/utils.mjs:105-118 | evaluating `{ v9: { is: 1 } }` on a fresh engine fails with the missing-accessor error for `v9` |

## Findings

| source | as written | input that shows it | evidently intended | confidence | as-written member | corrected member |
|---|---|---|---|---|---|---|
| src/index.mjs:23 | calls `this.#parameterDefinitions.defineParameter`, a method `ParameterDefinitions` does not define, so every registration raises a TypeError | `new RuleEngine()`, whose constructor registers `pass` | call `defineParameterAccessor`, which validates the name and registers the getter | not executed | RuleEngine.DefineParameterAsWritten (shown by RuleEngine.ConstructorAsWrittenThrows) | RuleEngine.DefineParameter (proved by RuleEngine.NewEngineRegistersPass and RuleEngine.FanOutRegistersEach) |

## Left out

- Asynchrony. `getCurrentValues` resolves all requests through `Promise.all`. Here resolution is a
  pure fold in request order. When several accessors are missing, the first one in request order is
  reported. That is the rejection `Promise.all` sees first, because a missing accessor rejects
  before any await.
- Getters. A getter is a pure function of the getter parameters and the request. A getter that
  throws, returns a rejected promise or has side effects is not modelled. Neither is the count of
  calls to it ("once per request").
- Strings are sequences of Unicode code points, as Dafny's `char` is; JavaScript strings are
  sequences of UTF-16 code units. Characters beyond U+FFFF are one character here but two code
  units there, and lone surrogates cannot be written at all.
- Constraints.LexCompareLt: orders strings by code point, not by UTF-16 code unit as JavaScript's
  `<` does. The two orders differ when a character beyond U+FFFF meets one in U+E000–U+FFFF
  (`"😀" < "\uFFFF"` is true in JavaScript and false here).
- Constraints.StringOperators: under, over, max and min on strings follow the same code-point
  order, with the same difference from JavaScript.
- SafeAccess.SafeKeyAccess: a string's `length` and its index keys count code points, not UTF-16
  code units (`"😀".length` is 2 in JavaScript and 1 here), and indexing yields whole characters,
  never half of a surrogate pair.
- Numbers are integers. Floating-point limits, NaN and `-0` are not modelled.
- Constraints.Compare: null, booleans and numbers are compared numerically with each other, as
  JavaScript does (null as 0, booleans as 0 and 1). Any other mixed pair, such as a string with a
  number, is modelled as incomparable. JavaScript coerces such pairs and may find them ordered.
- Objects are ordered lists of own enumerable keys. Prototype chains, non-enumerable properties,
  `Object.create`, Maps, and the integer-key reordering of `Object.keys`, `Object.entries` and
  `Object.fromEntries` are not modelled. A request's child keys are therefore in first-seen order
  even when some paths look like array indices.
- Symbol and BigInt primitives are not modelled. A Symbol limit passes the primitive test of
  `src/constraint-manager.mjs` (lines 76-78), and an ordering operator on it makes JavaScript throw a
  TypeError.
- `Symbol.toPrimitive` on `EvalResult` is not modelled. Neither are error message text,
  `JSON.stringify`, nor the message prefix of the error classes.
- `@github/multimap` is a library whose code is not part of this model. It is modelled as maps from
  names to sets, with insertion-ordered, repeat-free lists of child paths.
- `getConstraintsArrayfor` (`src/utils.mjs:70-72`) is unused by the pipeline and left out.
- Ignored names are strings. `ignoreParameter` with a non-string name cannot match any key, so that
  case is left out.
- Object.hasOwn on null or undefined throws a TypeError. `SafeAccess.SafeKeyAccess` excludes that
  case with a precondition. The path walk that calls it reports that case as the runtime's TypeError.
- Test files and test tooling are not part of this model.
