/**
  `ParameterDataCollector`: while the parameter tree is walked it records, per
  parameter name, every constraint value tested against it and, per accessor,
  every child path read from it. It then turns that record into one fetch
  request per accessor.
 */
module Collector {
  import opened Values

  /** What one Single node contributes to the collector. */
  datatype Datum = Datum(parameterName: string, accessor: string, valueSet: set<JVal>, accessedChild: string)

  /**
    Two multimaps: `constraintValues` (parameter name to value set) and
    `children` (accessor to the set of child paths, kept in insertion order);
    `accessors` is the insertion order of the accessor keys.
   */
  datatype Collector = Collector(
    constraintValues: map<string, set<JVal>>,
    children: map<string, seq<string>>,
    accessors: seq<string>)

  predicate NoDuplicates(xs: seq<string>) {
    forall i, j :: 0 <= i < j < |xs| ==> xs[i] != xs[j]
  }

  /** The representation invariant: the accessor order lists each key of `children` once. */
  ghost predicate Valid(c: Collector) {
    && NoDuplicates(c.accessors)
    && (forall a :: a in c.children <==> a in c.accessors)
    && (forall a :: a in c.children ==> NoDuplicates(c.children[a]))
  }

  const Empty: Collector := Collector(map[], map[], [])

  /** `MultiMap.get`: the set stored under `key`, or the empty set. */
  function Get(m: map<string, set<JVal>>, key: string): set<JVal> {
    if key in m then m[key] else {}
  }

  /** Child paths recorded under accessor `a`. */
  function ChildrenOf(c: Collector, a: string): seq<string> {
    if a in c.children then c.children[a] else []
  }

  /**
    `addData`: the parameter's value set grows by the node's values and the
    accessor's child set gains the accessed child; nothing else changes.
   */
  function AddData(c: Collector, d: Datum): (c': Collector)
    ensures Valid(c) ==> Valid(c')
    ensures Get(c'.constraintValues, d.parameterName) == Get(c.constraintValues, d.parameterName) + d.valueSet
    ensures forall n :: n != d.parameterName ==> Get(c'.constraintValues, n) == Get(c.constraintValues, n)
    ensures forall p :: p in ChildrenOf(c', d.accessor) <==> p in ChildrenOf(c, d.accessor) || p == d.accessedChild
    ensures forall a :: a != d.accessor ==> ChildrenOf(c', a) == ChildrenOf(c, a)
    ensures c'.children.Keys == c.children.Keys + {d.accessor}
    ensures c'.accessors == if d.accessor in c.children then c.accessors else c.accessors + [d.accessor]
  {
    var cv := c.constraintValues[d.parameterName := d.valueSet + Get(c.constraintValues, d.parameterName)];
    if d.accessor in c.children then
      var kids := c.children[d.accessor];
      var kids' := if d.accessedChild in kids then kids else kids + [d.accessedChild];
      Collector(cv, c.children[d.accessor := kids'], c.accessors)
    else
      Collector(cv, c.children[d.accessor := [d.accessedChild]], c.accessors + [d.accessor])
  }

  /** Adding the same datum twice is the same as adding it once. */
  lemma AddDataIdempotent(c: Collector, d: Datum)
    ensures AddData(AddData(c, d), d) == AddData(c, d)
  {
    var c1 := AddData(c, d);
    assert d.accessedChild in c1.children[d.accessor];
    assert c1.children[d.accessor := c1.children[d.accessor]] == c1.children;
    var cv := c1.constraintValues[d.parameterName := d.valueSet + Get(c1.constraintValues, d.parameterName)];
    assert cv == c1.constraintValues;
  }

  /** Adds a run of data in order. */
  function AddAll(c: Collector, ds: seq<Datum>): (c': Collector)
    decreases |ds|
  {
    if |ds| == 0 then c else AddAll(AddData(c, ds[0]), ds[1..])
  }

  /**
    After adding a run of data the collector holds exactly what it held before
    plus what the data brought: value sets by parameter name, child paths by
    accessor.
   */
  lemma AddAllContents(c: Collector, ds: seq<Datum>)
    ensures forall n, x :: x in Get(AddAll(c, ds).constraintValues, n) <==>
      x in Get(c.constraintValues, n) || exists i :: 0 <= i < |ds| && ds[i].parameterName == n && x in ds[i].valueSet
    ensures forall a, p :: p in ChildrenOf(AddAll(c, ds), a) <==>
      p in ChildrenOf(c, a) || exists i :: 0 <= i < |ds| && ds[i].accessor == a && ds[i].accessedChild == p
    ensures forall a :: a in AddAll(c, ds).children <==>
      a in c.children || exists i :: 0 <= i < |ds| && ds[i].accessor == a
  {
    forall n, x
      ensures x in Get(AddAll(c, ds).constraintValues, n) <==>
        x in Get(c.constraintValues, n) || exists i :: 0 <= i < |ds| && ds[i].parameterName == n && x in ds[i].valueSet
    {
      AddAllValueSets(c, ds, n);
      ValuesNamedIff(ds, n, x);
    }
    forall a, p
      ensures p in ChildrenOf(AddAll(c, ds), a) <==>
        p in ChildrenOf(c, a) || exists i :: 0 <= i < |ds| && ds[i].accessor == a && ds[i].accessedChild == p
    {
      AddAllPaths(c, ds, a, p);
      PathsReadIff(ds, a, p);
    }
    forall a
      ensures a in AddAll(c, ds).children <==> a in c.children || exists i :: 0 <= i < |ds| && ds[i].accessor == a
    {
      AddAllKeySet(c, ds);
      AccessorsReadIff(ds, a);
    }
  }

  /** The values a run of data tests against parameter `n`. */
  function ValuesNamed(ds: seq<Datum>, n: string): set<JVal>
    decreases |ds|
  {
    if |ds| == 0 then {}
    else (if ds[0].parameterName == n then ds[0].valueSet else {}) + ValuesNamed(ds[1..], n)
  }

  /** The child paths a run of data reads from accessor `a`. */
  function PathsRead(ds: seq<Datum>, a: string): set<string>
    decreases |ds|
  {
    if |ds| == 0 then {}
    else (if ds[0].accessor == a then {ds[0].accessedChild} else {}) + PathsRead(ds[1..], a)
  }

  /** The accessors a run of data reads from. */
  function AccessorsRead(ds: seq<Datum>): set<string>
    decreases |ds|
  {
    if |ds| == 0 then {} else {ds[0].accessor} + AccessorsRead(ds[1..])
  }

  /** Each datum contributes its values to its own parameter name. */
  lemma {:induction false} ValuesNamedHas(ds: seq<Datum>, i: nat)
    requires i < |ds|
    decreases i
    ensures ds[i].valueSet <= ValuesNamed(ds, ds[i].parameterName)
  {
    if i > 0 {
      ValuesNamedHas(ds[1..], i - 1);
    }
  }

  /** Each datum's accessed child is among the paths read from its accessor. */
  lemma {:induction false} PathsReadHas(ds: seq<Datum>, i: nat)
    requires i < |ds|
    decreases i
    ensures ds[i].accessedChild in PathsRead(ds, ds[i].accessor)
  {
    if i > 0 {
      PathsReadHas(ds[1..], i - 1);
    }
  }

  /** A value is tested against `n` exactly when some datum for `n` carries it. */
  lemma {:induction false} ValuesNamedIff(ds: seq<Datum>, n: string, x: JVal)
    decreases |ds|
    ensures x in ValuesNamed(ds, n) <==> exists i :: 0 <= i < |ds| && ds[i].parameterName == n && x in ds[i].valueSet
  {
    if |ds| > 0 {
      ValuesNamedIff(ds[1..], n, x);
      if x in ValuesNamed(ds[1..], n) {
        var i :| 0 <= i < |ds[1..]| && ds[1..][i].parameterName == n && x in ds[1..][i].valueSet;
        assert ds[i + 1] == ds[1..][i];
      }
      if exists i :: 0 <= i < |ds| && ds[i].parameterName == n && x in ds[i].valueSet {
        var i :| 0 <= i < |ds| && ds[i].parameterName == n && x in ds[i].valueSet;
        if i > 0 {
          assert ds[1..][i - 1] == ds[i];
        }
      }
    }
  }

  /** A path is read from `a` exactly when some datum for `a` accesses it. */
  lemma {:induction false} PathsReadIff(ds: seq<Datum>, a: string, p: string)
    decreases |ds|
    ensures p in PathsRead(ds, a) <==> exists i :: 0 <= i < |ds| && ds[i].accessor == a && ds[i].accessedChild == p
  {
    if |ds| > 0 {
      PathsReadIff(ds[1..], a, p);
      if p in PathsRead(ds[1..], a) {
        var i :| 0 <= i < |ds[1..]| && ds[1..][i].accessor == a && ds[1..][i].accessedChild == p;
        assert ds[i + 1] == ds[1..][i];
      }
      if exists i :: 0 <= i < |ds| && ds[i].accessor == a && ds[i].accessedChild == p {
        var i :| 0 <= i < |ds| && ds[i].accessor == a && ds[i].accessedChild == p;
        if i > 0 {
          assert ds[1..][i - 1] == ds[i];
        }
      }
    }
  }

  /** An accessor is read exactly when some datum names it. */
  lemma {:induction false} AccessorsReadIff(ds: seq<Datum>, a: string)
    decreases |ds|
    ensures a in AccessorsRead(ds) <==> exists i :: 0 <= i < |ds| && ds[i].accessor == a
  {
    if |ds| > 0 {
      AccessorsReadIff(ds[1..], a);
      if a in AccessorsRead(ds[1..]) {
        var i :| 0 <= i < |ds[1..]| && ds[1..][i].accessor == a;
        assert ds[i + 1] == ds[1..][i];
      }
      if exists i :: 0 <= i < |ds| && ds[i].accessor == a {
        var i :| 0 <= i < |ds| && ds[i].accessor == a;
        if i > 0 {
          assert ds[1..][i - 1] == ds[i];
        }
      }
    }
  }


  /** Adding a run of data grows each parameter's value set by the values the run tests against it. */
  lemma {:induction false} AddAllValueSets(c: Collector, ds: seq<Datum>, n: string)
    decreases |ds|
    ensures Get(AddAll(c, ds).constraintValues, n) == Get(c.constraintValues, n) + ValuesNamed(ds, n)
  {
    if |ds| > 0 {
      AddAllValueSets(AddData(c, ds[0]), ds[1..], n);
    }
  }


  /** Adding a run of data grows each accessor's child paths by the paths the run reads from it. */
  lemma {:induction false} AddAllPaths(c: Collector, ds: seq<Datum>, a: string, p: string)
    decreases |ds|
    ensures p in ChildrenOf(AddAll(c, ds), a) <==> p in ChildrenOf(c, a) || p in PathsRead(ds, a)
  {
    if |ds| > 0 {
      AddAllPaths(AddData(c, ds[0]), ds[1..], a, p);
    }
  }


  /** Adding a run of data records exactly the accessors the run reads, besides the ones already there. */
  lemma {:induction false} AddAllKeySet(c: Collector, ds: seq<Datum>)
    decreases |ds|
    ensures AddAll(c, ds).children.Keys == c.children.Keys + AccessorsRead(ds)
  {
    if |ds| > 0 {
      AddAllKeySet(AddData(c, ds[0]), ds[1..]);
    }
  }

  /** Every collector built from the empty one by adding data keeps the representation invariant. */
  lemma {:induction false} AddAllValid(c: Collector, ds: seq<Datum>)
    requires Valid(c)
    decreases |ds|
    ensures Valid(AddAll(c, ds))
  {
    if |ds| > 0 {
      AddAllValid(AddData(c, ds[0]), ds[1..]);
    }
  }

  /** Adding two runs one after the other is adding their concatenation. */
  lemma {:induction false} AddAllAppend(c: Collector, ds: seq<Datum>, es: seq<Datum>)
    decreases |ds|
    ensures AddAll(c, ds + es) == AddAll(AddAll(c, ds), es)
  {
    if |ds| > 0 {
      var c1 := AddData(c, ds[0]);
      var tail := ds[1..] + es;
      assert (ds + es)[1..] == tail;
      assert (ds + es)[0] == ds[0];
      calc {
        AddAll(c, ds + es);
        AddAll(c1, tail);
        { AddAllAppend(c1, ds[1..], es); }
        AddAll(AddAll(c1, ds[1..]), es);
        AddAll(AddAll(c, ds), es);
      }
    } else {
      assert ds + es == es;
    }
  }

  // ---------------------------------------------------------------------------
  // Fetch requests
  // ---------------------------------------------------------------------------

  /**
    What the getter of one accessor is told: the values tested against the
    accessor itself and, per child path, the values tested against that child.
    `childKeys` is the key order of `childrenConstraintValues`.
   */
  datatype Request = Request(
    accessorName: string,
    constraintValues: set<JVal>,
    childKeys: seq<string>,
    childrenConstraintValues: map<string, set<JVal>>)

  /** `skipEmpty`: drops the empty path that stands for direct access, keeping the order of the rest. */
  function SkipEmpty(xs: seq<string>): (r: seq<string>)
    ensures forall p :: p in r <==> p in xs && p != ""
    ensures |r| <= |xs|
    ensures NoDuplicates(xs) ==> NoDuplicates(r)
  {
    if |xs| == 0 then []
    else
      var rest := SkipEmpty(xs[1..]);
      assert forall p :: p in xs[1..] ==> p in xs;
      assert NoDuplicates(xs) ==> xs[0] !in xs[1..];
      if xs[0] == "" then rest else [xs[0]] + rest
  }

  /** Dropping empty paths commutes with appending, so child keys keep their first-appearance order. */
  lemma {:induction false} SkipEmptyAppend(xs: seq<string>, ys: seq<string>)
    ensures SkipEmpty(xs + ys) == SkipEmpty(xs) + SkipEmpty(ys)
  {
    if |xs| > 0 {
      assert (xs + ys)[1..] == xs[1..] + ys;
      SkipEmptyAppend(xs[1..], ys);
    } else {
      assert xs + ys == ys;
    }
  }

  /** `addData` appends a child path the accessor has not seen, and keeps the list otherwise. */
  lemma AddDataChildList(c: Collector, d: Datum)
    ensures ChildrenOf(AddData(c, d), d.accessor) ==
      if d.accessedChild in ChildrenOf(c, d.accessor) then ChildrenOf(c, d.accessor)
      else ChildrenOf(c, d.accessor) + [d.accessedChild]
  {
  }

  /**
    Adding a node appends its child path to the request's key order when the
    path is new and not the direct-access path; otherwise the order is unchanged.
   */
  lemma AddDataChildKeyOrder(c: Collector, d: Datum)
    ensures RequestFor(AddData(c, d), d.accessor).childKeys ==
      if d.accessedChild in ChildrenOf(c, d.accessor) || d.accessedChild == "" then RequestFor(c, d.accessor).childKeys
      else RequestFor(c, d.accessor).childKeys + [d.accessedChild]
  {
    var before := ChildrenOf(c, d.accessor);
    AddDataChildList(c, d);
    if d.accessedChild !in before {
      SkipEmptyAppend(before, [d.accessedChild]);
      assert SkipEmpty([d.accessedChild]) == if d.accessedChild == "" then [] else [d.accessedChild];
    }
  }

  function RequestFor(c: Collector, a: string): (q: Request)
    ensures q.accessorName == a
    ensures q.constraintValues == Get(c.constraintValues, a)
    ensures forall p :: p in q.childrenConstraintValues <==> p in ChildrenOf(c, a) && p != ""
    ensures forall p :: p in q.childrenConstraintValues ==> q.childrenConstraintValues[p] == Get(c.constraintValues, a + "." + p)
    ensures forall p :: p in q.childKeys <==> p in q.childrenConstraintValues
    ensures q.childKeys == SkipEmpty(ChildrenOf(c, a))
  {
    var keys := SkipEmpty(ChildrenOf(c, a));
    Request(a, Get(c.constraintValues, a), keys,
      map p | p in keys :: Get(c.constraintValues, a + "." + p))
  }

  /** `getAccessorDataIterator()`: one request per recorded accessor, in first-seen order. */
  function Requests(c: Collector): (qs: seq<Request>)
    ensures |qs| == |c.accessors|
    ensures forall i :: 0 <= i < |qs| ==> qs[i] == RequestFor(c, c.accessors[i])
    ensures Valid(c) ==> forall i, j :: 0 <= i < j < |qs| ==> qs[i].accessorName != qs[j].accessorName
    ensures Valid(c) ==> forall a :: a in c.children <==> exists i :: 0 <= i < |qs| && qs[i].accessorName == a
  {
    var qs := seq(|c.accessors|, i requires 0 <= i < |c.accessors| => RequestFor(c, c.accessors[i]));
    assert Valid(c) ==> forall a :: a in c.children ==> exists i :: 0 <= i < |qs| && qs[i].accessorName == a by {
      if Valid(c) {
        forall a | a in c.children
          ensures exists i :: 0 <= i < |qs| && qs[i].accessorName == a
        {
          var i :| 0 <= i < |c.accessors| && c.accessors[i] == a;
          assert qs[i].accessorName == a;
        }
      }
    }
    qs
  }
}
