/**
  JavaScript values as the engine sees them: rulesets, constraint limits,
  accessor results and getter parameters are all values of this type.
  Objects are lists of their own string-keyed properties in the order
  `Object.entries` enumerates them.
 */
module Values {
  import opened Wrappers
  import Strings

  datatype JVal =
    | Undefined
    | Null
    | Bool(b: bool)
    | Num(n: int)
    | Str(s: string)
    | Arr(elems: seq<JVal>)
    /**
      A plain object literal such as `{ max: 2 }`. A JavaScript object has
      no duplicate keys; lookups here take the first member with a key, so
      a later duplicate carries no meaning.
     */
    | Obj(members: seq<Member>)
    /** A function object with its own properties. */
    | Func(props: seq<Member>)
    /** Any other object: a Date, Map, Set, boxed String or class instance. */
    | Other(props: seq<Member>)

  datatype Member = Member(key: string, value: JVal)

  /** A value that is neither an object nor a function; null counts as primitive. */
  predicate IsPrimitive(v: JVal) {
    !(v.Arr? || v.Obj? || v.Func? || v.Other?)
  }

  /** A value whose `typeof` is "object", null excluded: arrays, plain and other objects. */
  predicate IsObject(v: JVal) {
    v.Arr? || v.Obj? || v.Other?
  }

  /**
    Plain-object test the ruleset parser applies: arrays, Maps and other
    class instances, null and primitives are all rejected.
   */
  predicate IsPlainObject(v: JVal) {
    v.Obj?
  }

  /** The property key of array (and string) index `i`. */
  function IndexKey(i: nat): string {
    Strings.NatToString(i)
  }

  lemma IndexKeyInjective()
    ensures forall i: nat, j: nat :: IndexKey(i) == IndexKey(j) ==> i == j
  {
    forall i: nat, j: nat | IndexKey(i) == IndexKey(j)
      ensures i == j
    {
      Strings.NatToStringInjective(i, j);
    }
  }

  /** The own properties of a keyed object (a plain object, function or other object). */
  function Props(v: JVal): seq<Member> {
    match v
    case Obj(ms) => ms
    case Func(ms) => ms
    case Other(ms) => ms
    case _ => []
  }

  /** An index key never starts with a letter, so it is never an operator or a reserved name. */
  lemma IndexKeyStartsWithDigit(i: nat)
    ensures |IndexKey(i)| > 0 && Strings.IsDigit(IndexKey(i)[0])
  {
  }

  /** The first member called `key`, if any. */
  function FindMember(ms: seq<Member>, key: string): (r: Option<JVal>)
    ensures r.Some? <==> exists i :: 0 <= i < |ms| && ms[i].key == key
    ensures r.Some? ==> exists i :: 0 <= i < |ms| && ms[i].key == key && ms[i].value == r.value
                                   && forall j :: 0 <= j < i ==> ms[j].key != key
  {
    if |ms| == 0 then None
    else if ms[0].key == key then Some(ms[0].value)
    else
      var r := FindMember(ms[1..], key);
      assert forall i :: 1 <= i < |ms| ==> ms[i] == ms[1..][i - 1];
      r
  }

  /** The index `i < n` whose key is `key`, if any. */
  function FindIndex(key: string, n: nat): (r: Option<nat>)
    ensures r.Some? ==> r.value < n && IndexKey(r.value) == key
    ensures r.Some? ==> forall i :: 0 <= i < n && IndexKey(i) == key ==> i == r.value
    ensures r.None? ==> forall i :: 0 <= i < n ==> IndexKey(i) != key
  {
    IndexKeyInjective();
    if n == 0 then None
    else if IndexKey(n - 1) == key then Some(n - 1)
    else FindIndex(key, n - 1)
  }
}
