/**
  `ParameterDefinitions`: the registry of accessor getters, and the step that
  turns the collector's requests into the map of current values.
 */
module Definitions {
  import opened Wrappers
  import opened Values
  import opened Errors
  import opened Collector
  import Parameters

  /**
    A getter is handed the caller's getter parameters and the request for its
    accessor, and yields the accessor's current value.
   */
  type Getter = (JVal, Request) -> JVal

  /** The second argument of a registration: a function, or anything else. */
  datatype GetterArg = Callable(fn: Getter) | NotCallable(v: JVal)

  type Registry = map<string, Getter>

  /** The names a registration accepts: non-empty strings that are not reserved. */
  predicate AcceptedName(name: JVal) {
    name.Str? && |name.s| > 0 && name.s !in Parameters.ReservedNames
  }

  /**
    `defineParameterAccessor(name, getter)`: rejects, in this order, a name
    that is not a non-empty string, a reserved name, and a getter that is not
    a function; otherwise maps the name to the getter, replacing any earlier
    one.
   */
  function DefineAccessor(reg: Registry, name: JVal, g: GetterArg): (r: Result<Registry, Error>)
    ensures r.Success? <==> AcceptedName(name) && g.Callable?
    ensures r.Failure? ==> r.error == ParameterErr
    ensures r.Success? ==> r.value.Keys == reg.Keys + {name.s}
    ensures r.Success? ==> r.value[name.s] == g.fn
    ensures r.Success? ==> forall a :: a in reg && a != name.s ==> a in r.value && r.value[a] == reg[a]
  {
    if !name.Str? || |name.s| == 0 then Failure(ParameterErr)
    else if name.s in Parameters.ReservedNames then Failure(ParameterErr)
    else if !g.Callable? then Failure(ParameterErr)
    else Success(reg[name.s := g.fn])
  }

  /** Registering a name twice keeps only the second getter. */
  lemma RedefineOverwrites(reg: Registry, name: JVal, g1: Getter, g2: Getter)
    requires AcceptedName(name)
    ensures DefineAccessor(DefineAccessor(reg, name, Callable(g1)).value, name, Callable(g2))
         == DefineAccessor(reg, name, Callable(g2))
  {
    var r1 := DefineAccessor(reg, name, Callable(g1)).value;
    assert r1[name.s := g2] == reg[name.s := g2];
  }

  /** How an accessor's own name is quoted when the error has no child path to list. */
  function Quote(s: string): string {
    "'" + s + "'"
  }

  /** The error for a request whose accessor has no getter. */
  function MissingError(q: Request): Error {
    MissingAccessor(q.accessorName, if |q.childKeys| == 0 then [Quote(q.accessorName)] else q.childKeys)
  }

  /**
    `#getValueByName`: the registered getter applied to the getter parameters
    and the request; an unregistered accessor is a rule-syntax error listing
    the child paths it was asked for, or its own quoted name when it was
    accessed directly only.
   */
  function GetValueByName(reg: Registry, q: Request, params: JVal): (r: Result<JVal, Error>)
    ensures r.Success? <==> q.accessorName in reg
    ensures r.Success? ==> r.value == reg[q.accessorName](params, q)
    ensures r.Failure? ==> r.error.IsRuleSyntax() && r.error.MissingAccessor? && r.error.accessorName == q.accessorName
    ensures r.Failure? && |q.childKeys| == 0 ==> r.error.parameters == [Quote(q.accessorName)]
    ensures r.Failure? && |q.childKeys| > 0 ==> r.error.parameters == q.childKeys
  {
    if q.accessorName !in reg then Failure(MissingError(q))
    else Success(reg[q.accessorName](params, q))
  }

  /**
    `getCurrentValues`: one value per request, keyed by accessor name; the
    whole resolution fails when any accessor is missing.
   */
  function GetCurrentValues(reg: Registry, qs: seq<Request>, params: JVal): (r: Result<map<string, JVal>, Error>)
    ensures r.Success? <==> forall i :: 0 <= i < |qs| ==> qs[i].accessorName in reg
    ensures r.Success? ==> forall a :: a in r.value <==> exists i :: 0 <= i < |qs| && qs[i].accessorName == a
  {
    ResolvedKeys(reg, qs, |qs|, params);
    ResolvePrefix(reg, qs, |qs|, params)
  }

  /** Resolution of the first `n` requests, in order. */
  function ResolvePrefix(reg: Registry, qs: seq<Request>, n: nat, params: JVal): (r: Result<map<string, JVal>, Error>)
    requires n <= |qs|
    ensures r.Success? <==> forall i :: 0 <= i < n ==> qs[i].accessorName in reg
  {
    if n == 0 then Success(map[])
    else
      var m :- ResolvePrefix(reg, qs, n - 1, params);
      var v :- GetValueByName(reg, qs[n - 1], params);
      Success(m[qs[n - 1].accessorName := v])
  }

  /** A resolved prefix holds one key per request name in it, and nothing else. */
  lemma {:induction false} ResolvedKeys(reg: Registry, qs: seq<Request>, n: nat, params: JVal)
    requires n <= |qs|
    ensures ResolvePrefix(reg, qs, n, params).Success? ==>
      forall a :: a in ResolvePrefix(reg, qs, n, params).value <==> exists i :: 0 <= i < n && qs[i].accessorName == a
  {
    if n > 0 && ResolvePrefix(reg, qs, n, params).Success? {
      ResolvedKeys(reg, qs, n - 1, params);
      var m := ResolvePrefix(reg, qs, n - 1, params).value;
      var q := qs[n - 1];
      assert ResolvePrefix(reg, qs, n, params).value == m[q.accessorName := reg[q.accessorName](params, q)];
    }
  }

  /** The error is the one for the first request, in order, whose accessor is missing. */
  lemma FirstMissingReported(reg: Registry, qs: seq<Request>, params: JVal)
    requires GetCurrentValues(reg, qs, params).Failure?
    ensures exists i :: (0 <= i < |qs| && qs[i].accessorName !in reg &&
                         GetCurrentValues(reg, qs, params).error == MissingError(qs[i]) &&
                         forall k :: 0 <= k < i ==> qs[k].accessorName in reg)
  {
    var i := FirstMissingInPrefix(reg, qs, |qs|, params);
  }

  /** The position of the first missing accessor among the first `n` requests, and the error it gives. */
  lemma {:induction false} FirstMissingInPrefix(reg: Registry, qs: seq<Request>, n: nat, params: JVal) returns (i: nat)
    requires n <= |qs| && ResolvePrefix(reg, qs, n, params).Failure?
    ensures i < n && qs[i].accessorName !in reg
    ensures ResolvePrefix(reg, qs, n, params).error == MissingError(qs[i])
    ensures forall k :: 0 <= k < i ==> qs[k].accessorName in reg
  {
    var prev := ResolvePrefix(reg, qs, n - 1, params);
    if prev.Failure? {
      i := FirstMissingInPrefix(reg, qs, n - 1, params);
    } else {
      i := n - 1;
    }
  }

  /** Each value is its request's getter output; of two requests for one name the later wins. */
  lemma LaterRequestWins(reg: Registry, qs: seq<Request>, params: JVal, i: nat)
    requires GetCurrentValues(reg, qs, params).Success?
    requires i < |qs|
    requires forall k :: i < k < |qs| ==> qs[k].accessorName != qs[i].accessorName
    ensures GetCurrentValues(reg, qs, params).value[qs[i].accessorName] == reg[qs[i].accessorName](params, qs[i])
  {
    LaterRequestWinsInPrefix(reg, qs, |qs|, params, i);
  }

  /** Within the first `n` requests, a request no later one shares a name with supplies that name's value. */
  lemma {:induction false} LaterRequestWinsInPrefix(reg: Registry, qs: seq<Request>, n: nat, params: JVal, i: nat)
    requires n <= |qs| && ResolvePrefix(reg, qs, n, params).Success?
    requires i < n
    requires forall k :: i < k < n ==> qs[k].accessorName != qs[i].accessorName
    ensures qs[i].accessorName in ResolvePrefix(reg, qs, n, params).value
    ensures ResolvePrefix(reg, qs, n, params).value[qs[i].accessorName] == reg[qs[i].accessorName](params, qs[i])
  {
    var prev := ResolvePrefix(reg, qs, n - 1, params);
    var q := qs[n - 1];
    assert ResolvePrefix(reg, qs, n, params).value == prev.value[q.accessorName := reg[q.accessorName](params, q)];
    if i < n - 1 {
      LaterRequestWinsInPrefix(reg, qs, n - 1, params, i);
    }
  }

  /** When the request names are distinct, every request is answered by its own getter. */
  lemma ResolvedDistinct(reg: Registry, qs: seq<Request>, params: JVal)
    requires forall i, j :: 0 <= i < j < |qs| ==> qs[i].accessorName != qs[j].accessorName
    requires GetCurrentValues(reg, qs, params).Success?
    ensures forall i :: 0 <= i < |qs| ==>
      GetCurrentValues(reg, qs, params).value[qs[i].accessorName] == reg[qs[i].accessorName](params, qs[i])
  {
    forall i | 0 <= i < |qs|
      ensures GetCurrentValues(reg, qs, params).value[qs[i].accessorName] == reg[qs[i].accessorName](params, qs[i])
    {
      LaterRequestWins(reg, qs, params, i);
    }
  }
}
