/**
  The constraint tree of one parameter: a constraints object such as
  `{ max: 2, not: 1, OR: [{ is: 5 }, { under: 0 }] }` parsed into an AND-list
  whose elements are primitive tests or OR-groups of nested lists.
 */
module Constraints {
  import opened Wrappers
  import opened Values
  import opened Errors
  import Strings

  /** The six primitive operators: <=, >=, ===, !==, <, >. */
  datatype Op = Max | Min | Is | Not | Under | Over

  const OrKey: string := "OR"

  /** The key that names `op` in a constraints object. */
  function OpName(op: Op): string {
    match op
    case Max => "max"
    case Min => "min"
    case Is => "is"
    case Not => "not"
    case Under => "under"
    case Over => "over"
  }

  /** Lookup in the primitive operator table: exactly the six operator names are known. */
  function OperatorOf(key: string): (r: Option<Op>)
    ensures r.Some? ==> OpName(r.value) == key
    ensures r.None? ==> forall op: Op :: OpName(op) != key
  {
    if key == "max" then Some(Max)
    else if key == "min" then Some(Min)
    else if key == "is" then Some(Is)
    else if key == "not" then Some(Not)
    else if key == "under" then Some(Under)
    else if key == "over" then Some(Over)
    else None
  }

  lemma OrIsNotAnOperator()
    ensures OperatorOf(OrKey).None?
  {
  }

  // ---------------------------------------------------------------------------
  // Relational comparison
  // ---------------------------------------------------------------------------

  datatype Ordering = Lt | Eq | Gt {
    function Flip(): Ordering {
      match this
      case Lt => Gt
      case Eq => Eq
      case Gt => Lt
    }
  }

  function CompareInt(a: int, b: int): Ordering {
    if a < b then Lt else if a == b then Eq else Gt
  }

  /**
    String comparison character by character, as `<` does on two strings.
    Characters here are Unicode code points, where JavaScript compares UTF-16
    code units; the two orders differ only for characters beyond U+FFFF.
   */
  function LexCompare(a: string, b: string): Ordering
  {
    if |a| == 0 then (if |b| == 0 then Eq else Lt)
    else if |b| == 0 then Gt
    else if a[0] < b[0] then Lt
    else if a[0] > b[0] then Gt
    else LexCompare(a[1..], b[1..])
  }

  /** `a` precedes `b`: `a` is a proper prefix of `b`, or they first differ at a smaller character of `a`. */
  ghost predicate StrictlyPrecedes(a: string, b: string) {
    exists k :: 0 <= k <= |a| && k <= |b| && a[..k] == b[..k] &&
      ((k == |a| && k < |b|) || (k < |a| && k < |b| && a[k] < b[k]))
  }

  /** The numeric value a comparison converts null, booleans and numbers to. */
  function NumericValue(v: JVal): Option<int> {
    match v
    case Num(n) => Some(n)
    case Bool(b) => Some(if b then 1 else 0)
    case Null => Some(0)
    case _ => None
  }

  /**
    The outcome of comparing `v` with `c`: two strings compare as strings,
    numbers, booleans and null compare numerically, and anything else is
    incomparable (undefined converts to NaN, and every comparison with NaN is
    false).
   */
  function Compare(v: JVal, c: JVal): Option<Ordering> {
    if v.Str? && c.Str? then Some(LexCompare(v.s, c.s))
    else
      match (NumericValue(v), NumericValue(c))
      case (Some(a), Some(b)) => Some(CompareInt(a, b))
      case _ => None
  }

  /** `operatorFn(v, c)` for each operator of the table. */
  function Holds(op: Op, v: JVal, c: JVal): bool {
    match op
    case Max => Compare(v, c) == Some(Lt) || Compare(v, c) == Some(Eq)
    case Min => Compare(v, c) == Some(Gt) || Compare(v, c) == Some(Eq)
    case Is => v == c
    case Not => v != c
    case Under => Compare(v, c) == Some(Lt)
    case Over => Compare(v, c) == Some(Gt)
  }

  // ---------------------------------------------------------------------------
  // The constraint tree
  // ---------------------------------------------------------------------------

  /** An AND-list of constraints, in the key order of its constraints object. */
  datatype ConstraintList = ConstraintList(items: seq<Constraint>)

  datatype Constraint =
    | Primitive(op: Op, limit: JVal)
    /** OR over nested AND-lists. */
    | Or(branches: seq<ConstraintList>)

  /** Every limit anywhere in the tree is a primitive, as parsing guarantees. */
  ghost predicate WellFormed(l: ConstraintList)
    decreases l, 1
  {
    forall i :: 0 <= i < |l.items| ==> WellFormedOne(l.items[i])
  }

  ghost predicate WellFormedOne(c: Constraint)
    decreases c, 0
  {
    match c
    case Primitive(_, limit) => IsPrimitive(limit)
    case Or(bs) => forall j :: 0 <= j < |bs| ==> WellFormed(bs[j])
  }

  // ---------------------------------------------------------------------------
  // Parsing
  // ---------------------------------------------------------------------------

  /** What a constraints object must look like for parsing to succeed. */
  ghost predicate ValidList(v: JVal)
    decreases v, 1
  {
    match v
    case Obj(ms) => forall i :: 0 <= i < |ms| ==> ValidEntry(ms[i].key, ms[i].value)
    case Other(ms) => forall i :: 0 <= i < |ms| ==> ValidEntry(ms[i].key, ms[i].value)
    case Arr(xs) => forall i :: 0 <= i < |xs| ==> ValidEntry(IndexKey(i), xs[i])
    case _ => false
  }

  ghost predicate ValidEntry(key: string, value: JVal)
    decreases value, 0
  {
    if key == OrKey then value.Arr? && forall j :: 0 <= j < |value.elems| ==> ValidList(value.elems[j])
    else OperatorOf(key).Some? && IsPrimitive(value)
  }

  /**
    `new ConstraintList(v)`: `v` must be a non-null object; each own entry
    becomes one constraint, in enumeration order, and the first bad entry
    raises a rule-syntax error.
   */
  function ParseList(v: JVal): (r: Result<ConstraintList, Error>)
    decreases v, 2
    ensures r.Failure? ==> r.error == RuleSyntax
    ensures !IsObject(v) ==> r == Failure(RuleSyntax)
    ensures r.Success? ==> WellFormed(r.value)
  {
    match v
    case Obj(ms) => var items :- ParseMembers(ms); Success(ConstraintList(items))
    case Other(ms) => var items :- ParseMembers(ms); Success(ConstraintList(items))
    case Arr(xs) => var items :- ParseIndexed(xs, 0); Success(ConstraintList(items))
    case _ => Failure(RuleSyntax)
  }

  function ParseMembers(ms: seq<Member>): (r: Result<seq<Constraint>, Error>)
    decreases ms, 0
    ensures r.Failure? ==> r.error == RuleSyntax
    ensures r.Success? ==> |r.value| == |ms| && WellFormed(ConstraintList(r.value))
    ensures r.Success? ==> forall i :: 0 <= i < |ms| ==> ParseConstraint(ms[i].key, ms[i].value) == Success(r.value[i])
  {
    if |ms| == 0 then Success([])
    else
      var c :- ParseConstraint(ms[0].key, ms[0].value);
      var rest :- ParseMembers(ms[1..]);
      assert forall i :: 1 <= i < |ms| ==> ms[i] == ms[1..][i - 1];
      Success([c] + rest)
  }

  /** The entries of an array: key `"i"` for element `i`. */
  function ParseIndexed(xs: seq<JVal>, from: nat): (r: Result<seq<Constraint>, Error>)
    requires from <= |xs|
    decreases xs, |xs| - from
    ensures r.Failure? ==> r.error == RuleSyntax
    ensures r.Success? ==> |r.value| == |xs| - from && WellFormed(ConstraintList(r.value))
    ensures r.Success? ==> forall i :: from <= i < |xs| ==> ParseConstraint(IndexKey(i), xs[i]) == Success(r.value[i - from])
  {
    if from == |xs| then Success([])
    else
      var c :- ParseConstraint(IndexKey(from), xs[from]);
      var rest :- ParseIndexed(xs, from + 1);
      Success([c] + rest)
  }

  /** `new Constraint(key, value)`: `OR` dispatches to an OR-group, every other key must name an operator. */
  function ParseConstraint(key: string, value: JVal): (r: Result<Constraint, Error>)
    decreases value, 1
    ensures r.Failure? ==> r.error == RuleSyntax
    ensures r.Success? ==> WellFormedOne(r.value)
    ensures r.Success? && key == OrKey ==> r.value.Or? && value.Arr? && |r.value.branches| == |value.elems|
    ensures r.Success? && key != OrKey ==>
      r.value.Primitive? && OperatorOf(key) == Some(r.value.op) && r.value.limit == value
  {
    if key == OrKey then
      if value.Arr? then
        var bs :- ParseBranches(value.elems);
        Success(Or(bs))
      else Failure(RuleSyntax)
    else
      match OperatorOf(key)
      case None => Failure(RuleSyntax)
      case Some(op) => if IsPrimitive(value) then Success(Primitive(op, value)) else Failure(RuleSyntax)
  }

  function ParseBranches(xs: seq<JVal>): (r: Result<seq<ConstraintList>, Error>)
    decreases xs, 0
    ensures r.Failure? ==> r.error == RuleSyntax
    ensures r.Success? ==> |r.value| == |xs|
    ensures r.Success? ==> forall j :: 0 <= j < |xs| ==> ParseList(xs[j]) == Success(r.value[j])
  {
    if |xs| == 0 then Success([])
    else
      var b :- ParseList(xs[0]);
      var rest :- ParseBranches(xs[1..]);
      assert forall j :: 1 <= j < |xs| ==> xs[j] == xs[1..][j - 1];
      Success([b] + rest)
  }

  // ---------------------------------------------------------------------------
  // Evaluation
  // ---------------------------------------------------------------------------

  /** Declarative meaning of a list: every constraint in it is satisfied. */
  ghost predicate AllHold(l: ConstraintList, v: JVal)
    decreases l, 1
  {
    forall i :: 0 <= i < |l.items| ==> Satisfies(l.items[i], v)
  }

  /** A primitive test holds, or some branch of an OR-group holds. */
  ghost predicate Satisfies(c: Constraint, v: JVal)
    decreases c, 0
  {
    match c
    case Primitive(op, limit) => Holds(op, v, limit)
    case Or(bs) => exists j :: 0 <= j < |bs| && AllHold(bs[j], v)
  }

  /**
    `ConstraintList.evaluate(v)`: `every` over the list, stopping at the first
    constraint that does not hold. A primitive test reached with a non-primitive
    value raises a type error; on a primitive value the result is exactly the
    declarative meaning.
   */
  function EvalList(l: ConstraintList, v: JVal): (r: Result<bool, Error>)
    decreases l, 2
    ensures r.Failure? ==> r.error == TypeErr && !IsPrimitive(v)
    ensures IsPrimitive(v) ==> r == Success(AllHold(l, v))
  {
    EvalItems(l.items, v)
  }

  function EvalItems(cs: seq<Constraint>, v: JVal): (r: Result<bool, Error>)
    decreases cs, 1
    ensures r.Failure? ==> r.error == TypeErr && !IsPrimitive(v)
    ensures IsPrimitive(v) ==> r == Success(AllHold(ConstraintList(cs), v))
  {
    if |cs| == 0 then Success(true)
    else
      var b :- EvalOne(cs[0], v);
      if !b then Success(false)
      else
        var rest := EvalItems(cs[1..], v);
        assert forall i :: 1 <= i < |cs| ==> cs[i] == cs[1..][i - 1];
        rest
  }

  function EvalOne(c: Constraint, v: JVal): (r: Result<bool, Error>)
    decreases c, 1
    ensures r.Failure? ==> r.error == TypeErr && !IsPrimitive(v)
    ensures IsPrimitive(v) ==> r == Success(Satisfies(c, v))
    ensures c.Primitive? && !IsPrimitive(v) ==> r == Failure(TypeErr)
  {
    match c
    case Primitive(op, limit) =>
      if !IsPrimitive(v) then Failure(TypeErr) else Success(Holds(op, v, limit))
    case Or(bs) => EvalAny(bs, v)
  }

  /** `some` over the branches of an OR-group: no branches means false. */
  function EvalAny(bs: seq<ConstraintList>, v: JVal): (r: Result<bool, Error>)
    decreases bs, 0
    ensures r.Failure? ==> r.error == TypeErr && !IsPrimitive(v)
    ensures IsPrimitive(v) ==> r == Success(exists j :: 0 <= j < |bs| && AllHold(bs[j], v))
  {
    if |bs| == 0 then Success(false)
    else
      var b :- EvalList(bs[0], v);
      if b then Success(true)
      else
        var rest := EvalAny(bs[1..], v);
        assert forall j :: 1 <= j < |bs| ==> bs[j] == bs[1..][j - 1];
        rest
  }

  // ---------------------------------------------------------------------------
  // Constraint values
  // ---------------------------------------------------------------------------

  /** `x` is the limit of some primitive test somewhere in the tree. */
  ghost predicate Mentions(l: ConstraintList, x: JVal)
    decreases l, 1
  {
    exists i :: 0 <= i < |l.items| && MentionsOne(l.items[i], x)
  }

  ghost predicate MentionsOne(c: Constraint, x: JVal)
    decreases c, 0
  {
    match c
    case Primitive(_, limit) => limit == x
    case Or(bs) => exists j :: 0 <= j < |bs| && Mentions(bs[j], x)
  }

  /** `getConstraintValueSet()`: the union of the value sets of the list's constraints. */
  function ValueSet(l: ConstraintList): set<JVal>
    decreases l, 2
  {
    ItemsValueSet(l.items)
  }

  function ItemsValueSet(cs: seq<Constraint>): set<JVal>
    decreases cs, 1
  {
    if |cs| == 0 then {} else ItemsValueSet(cs[..|cs| - 1]) + ValueSetOne(cs[|cs| - 1])
  }

  function ValueSetOne(c: Constraint): set<JVal>
    decreases c, 0
  {
    match c
    case Primitive(_, limit) => {limit}
    case Or(bs) => BranchValueSet(bs)
  }

  function BranchValueSet(bs: seq<ConstraintList>): set<JVal>
    decreases bs, 0
  {
    if |bs| == 0 then {} else BranchValueSet(bs[..|bs| - 1]) + ValueSet(bs[|bs| - 1])
  }

  // ---------------------------------------------------------------------------
  // Rendering a tree back as a constraints object
  // ---------------------------------------------------------------------------

  /** The constraints object a tree stands for: one key per constraint, in order. */
  function Render(l: ConstraintList): JVal
    decreases l, 1
  {
    Obj(RenderItems(l.items))
  }

  function RenderItems(cs: seq<Constraint>): (ms: seq<Member>)
    decreases cs, 0
    ensures |ms| == |cs|
  {
    if |cs| == 0 then [] else [RenderOne(cs[0])] + RenderItems(cs[1..])
  }

  function RenderOne(c: Constraint): Member
    decreases c, 1
  {
    match c
    case Primitive(op, limit) => Member(OpName(op), limit)
    case Or(bs) => Member(OrKey, Arr(RenderBranches(bs)))
  }

  function RenderBranches(bs: seq<ConstraintList>): (xs: seq<JVal>)
    decreases bs, 0
    ensures |xs| == |bs|
  {
    if |bs| == 0 then [] else [Render(bs[0])] + RenderBranches(bs[1..])
  }

  // ---------------------------------------------------------------------------
  // Properties
  // ---------------------------------------------------------------------------

  /** Operator names and the operator table agree both ways, and `OR` is none of them. */
  lemma OperatorNames(op: Op)
    ensures OperatorOf(OpName(op)) == Some(op)
    ensures OpName(op) != OrKey
  {
  }

  /** Parsing fails exactly when the object breaks one of the rules of `ValidList`. */
  lemma {:induction false} ParseListSucceedsIff(v: JVal)
    decreases v, 2
    ensures ParseList(v).Success? <==> ValidList(v)
  {
    match v
    case Obj(ms) => ParseMembersSucceedsIff(ms);
    case Other(ms) => ParseMembersSucceedsIff(ms);
    case Arr(xs) => ParseIndexedSucceedsIff(xs, 0);
    case _ =>
  }

  lemma {:induction false} ParseMembersSucceedsIff(ms: seq<Member>)
    decreases ms, 0
    ensures ParseMembers(ms).Success? <==> forall i :: 0 <= i < |ms| ==> ValidEntry(ms[i].key, ms[i].value)
  {
    if |ms| > 0 {
      ParseMembersStep(ms);
      ParseConstraintSucceedsIff(ms[0].key, ms[0].value);
      ParseMembersSucceedsIff(ms[1..]);
      assert forall i :: 1 <= i < |ms| ==> ms[i] == ms[1..][i - 1];
    }
  }

  /** A member list parses when its first entry and the rest do, into the first constraint and the rest's. */
  lemma ParseMembersStep(ms: seq<Member>)
    requires |ms| > 0
    ensures ParseMembers(ms).Success? <==>
      ParseConstraint(ms[0].key, ms[0].value).Success? && ParseMembers(ms[1..]).Success?
    ensures ParseMembers(ms).Success? ==>
      ParseMembers(ms).value == [ParseConstraint(ms[0].key, ms[0].value).value] + ParseMembers(ms[1..]).value
  {
  }

  /** An OR-group's branches parse when the first and the rest do, into the first list and the rest's. */
  lemma ParseBranchesStep(xs: seq<JVal>)
    requires |xs| > 0
    ensures ParseBranches(xs).Success? <==> ParseList(xs[0]).Success? && ParseBranches(xs[1..]).Success?
    ensures ParseBranches(xs).Success? ==>
      ParseBranches(xs).value == [ParseList(xs[0]).value] + ParseBranches(xs[1..]).value
  {
  }

  /** An array's entries from `from` on parse when entry `from` and the later ones do. */
  lemma ParseIndexedStep(xs: seq<JVal>, from: nat)
    requires from < |xs|
    ensures ParseIndexed(xs, from).Success? <==>
      ParseConstraint(IndexKey(from), xs[from]).Success? && ParseIndexed(xs, from + 1).Success?
  {
  }

  lemma {:induction false} ParseIndexedSucceedsIff(xs: seq<JVal>, from: nat)
    requires from <= |xs|
    decreases xs, |xs| - from
    ensures ParseIndexed(xs, from).Success? <==> forall i :: from <= i < |xs| ==> ValidEntry(IndexKey(i), xs[i])
  {
    if from < |xs| {
      ParseIndexedStep(xs, from);
      ParseConstraintSucceedsIff(IndexKey(from), xs[from]);
      ParseIndexedSucceedsIff(xs, from + 1);
    }
  }

  lemma {:induction false} ParseConstraintSucceedsIff(key: string, value: JVal)
    decreases value, 1
    ensures ParseConstraint(key, value).Success? <==> ValidEntry(key, value)
  {
    if key == OrKey && value.Arr? {
      ParseBranchesSucceedsIff(value.elems);
    }
  }

  lemma {:induction false} ParseBranchesSucceedsIff(xs: seq<JVal>)
    decreases xs, 0
    ensures ParseBranches(xs).Success? <==> forall j :: 0 <= j < |xs| ==> ValidList(xs[j])
  {
    if |xs| > 0 {
      ParseListSucceedsIff(xs[0]);
      ParseBranchesSucceedsIff(xs[1..]);
      assert forall j :: 1 <= j < |xs| ==> xs[j] == xs[1..][j - 1];
    }
  }

  /** A key that is neither `OR` nor one of the six operators makes the whole object a syntax error. */
  lemma UnknownKeyRejected(ms: seq<Member>, i: nat)
    requires i < |ms|
    requires ms[i].key != OrKey && OperatorOf(ms[i].key).None?
    ensures ParseList(Obj(ms)) == Failure(RuleSyntax)
  {
    ParseListSucceedsIff(Obj(ms));
  }

  /** A non-primitive limit (object, array, function) is a syntax error at parse time. */
  lemma NonPrimitiveLimitRejected(ms: seq<Member>, i: nat)
    requires i < |ms|
    requires OperatorOf(ms[i].key).Some? && !IsPrimitive(ms[i].value)
    ensures ParseList(Obj(ms)) == Failure(RuleSyntax)
  {
    ParseListSucceedsIff(Obj(ms));
  }

  /** An `OR` whose value is not an array is a syntax error. */
  lemma OrWithoutArrayRejected(ms: seq<Member>, i: nat)
    requires i < |ms|
    requires ms[i].key == OrKey && !ms[i].value.Arr?
    ensures ParseList(Obj(ms)) == Failure(RuleSyntax)
  {
    ParseListSucceedsIff(Obj(ms));
  }

  /** An array is a constraints object only when empty: its first key `"0"` names no operator. */
  lemma ArrayConstraints(xs: seq<JVal>)
    ensures ParseList(Arr(xs)).Success? <==> |xs| == 0
  {
    ParseListSucceedsIff(Arr(xs));
    if |xs| > 0 {
      assert IndexKey(0) == "0";
      assert !ValidEntry(IndexKey(0), xs[0]);
    }
  }

  /** Rendering a well-formed tree and parsing the result gives back the same tree. */
  lemma {:induction false} ParseRender(l: ConstraintList)
    requires WellFormed(l)
    decreases l, 1
    ensures ParseList(Render(l)) == Success(l)
  {
    ParseRenderItems(l.items);
  }

  lemma {:induction false} ParseRenderItems(cs: seq<Constraint>)
    requires WellFormed(ConstraintList(cs))
    decreases cs, 0
    ensures ParseMembers(RenderItems(cs)) == Success(cs)
  {
    if |cs| > 0 {
      var ms := RenderItems(cs);
      assert ms[0] == RenderOne(cs[0]) && ms[1..] == RenderItems(cs[1..]);
      assert WellFormedOne(cs[0]);
      ParseRenderOne(cs[0]);
      assert WellFormed(ConstraintList(cs[1..])) by {
        assert forall i :: 1 <= i < |cs| ==> cs[i] == cs[1..][i - 1];
      }
      ParseRenderItems(cs[1..]);
      ParseMembersStep(ms);
      assert cs == [cs[0]] + cs[1..];
    }
  }

  lemma {:induction false} ParseRenderOne(c: Constraint)
    requires WellFormedOne(c)
    decreases c, 1
    ensures ParseConstraint(RenderOne(c).key, RenderOne(c).value) == Success(c)
  {
    match c
    case Primitive(op, limit) => OperatorNames(op);
    case Or(bs) => ParseRenderBranches(bs);
  }

  lemma {:induction false} ParseRenderBranches(bs: seq<ConstraintList>)
    requires forall j :: 0 <= j < |bs| ==> WellFormed(bs[j])
    decreases bs, 0
    ensures ParseBranches(RenderBranches(bs)) == Success(bs)
  {
    if |bs| > 0 {
      var xs := RenderBranches(bs);
      assert xs[0] == Render(bs[0]) && xs[1..] == RenderBranches(bs[1..]);
      ParseRender(bs[0]);
      ParseRenderBranches(bs[1..]);
      ParseBranchesStep(xs);
      assert bs == [bs[0]] + bs[1..];
    }
  }

  lemma {:induction false} LexCompareFlip(a: string, b: string)
    ensures LexCompare(b, a) == LexCompare(a, b).Flip()
  {
    if |a| > 0 && |b| > 0 && a[0] == b[0] {
      LexCompareFlip(a[1..], b[1..]);
    }
  }

  lemma {:induction false} LexCompareEq(a: string, b: string)
    ensures LexCompare(a, b) == Eq <==> a == b
  {
    if |a| > 0 && |b| > 0 && a[0] == b[0] {
      LexCompareEq(a[1..], b[1..]);
      assert a == [a[0]] + a[1..] && b == [b[0]] + b[1..];
    }
  }

  /** String comparison is exactly lexicographic precedence. */
  lemma {:induction false} LexCompareLt(a: string, b: string)
    ensures LexCompare(a, b) == Lt <==> StrictlyPrecedes(a, b)
  {
    if |a| == 0 {
      if |b| > 0 {
        assert a[..0] == b[..0];
      }
    } else if |b| == 0 {
    } else if a[0] < b[0] {
      assert a[..0] == b[..0];
    } else if a[0] > b[0] {
      forall k | 0 <= k <= |a| && k <= |b| && a[..k] == b[..k]
        ensures !((k == |a| && k < |b|) || (k < |a| && k < |b| && a[k] < b[k]))
      {
        if k > 0 {
          assert false;
        }
      }
    } else {
      LexCompareLt(a[1..], b[1..]);
      PrecedesTail(a, b);
    }
  }

  /** Strings that share a first character are ordered as their tails are. */
  lemma PrecedesTail(a: string, b: string)
    requires |a| > 0 && |b| > 0 && a[0] == b[0]
    ensures StrictlyPrecedes(a, b) <==> StrictlyPrecedes(a[1..], b[1..])
  {
    if StrictlyPrecedes(a, b) {
      PrecedesDropHead(a, b);
    }
    if StrictlyPrecedes(a[1..], b[1..]) {
      PrecedesAddHead(a, b);
    }
  }

  lemma PrecedesDropHead(a: string, b: string)
    requires |a| > 0 && |b| > 0 && a[0] == b[0] && StrictlyPrecedes(a, b)
    ensures StrictlyPrecedes(a[1..], b[1..])
  {
    var k :| 0 <= k <= |a| && k <= |b| && a[..k] == b[..k] &&
      ((k == |a| && k < |b|) || (k < |a| && k < |b| && a[k] < b[k]));
    assert k > 0;
    assert a[1..][..k - 1] == a[..k][1..] == b[..k][1..] == b[1..][..k - 1];
    assert (k - 1 == |a[1..]| && k - 1 < |b[1..]|) || (k - 1 < |a[1..]| && k - 1 < |b[1..]| && a[1..][k - 1] < b[1..][k - 1]);
  }

  lemma PrecedesAddHead(a: string, b: string)
    requires |a| > 0 && |b| > 0 && a[0] == b[0] && StrictlyPrecedes(a[1..], b[1..])
    ensures StrictlyPrecedes(a, b)
  {
    var k :| 0 <= k <= |a[1..]| && k <= |b[1..]| && a[1..][..k] == b[1..][..k] &&
      ((k == |a[1..]| && k < |b[1..]|) || (k < |a[1..]| && k < |b[1..]| && a[1..][k] < b[1..][k]));
    assert a[..k + 1] == [a[0]] + a[1..][..k];
    assert b[..k + 1] == [b[0]] + b[1..][..k];
    assert (k + 1 == |a| && k + 1 < |b|) || (k + 1 < |a| && k + 1 < |b| && a[k + 1] < b[k + 1]);
  }



  lemma CompareFlip(v: JVal, c: JVal)
    ensures Compare(c, v) == (if Compare(v, c).Some? then Some(Compare(v, c).value.Flip()) else None)
  {
    if v.Str? && c.Str? {
      LexCompareFlip(v.s, c.s);
    }
  }

  /** On numbers the six operators are exactly <=, >=, ===, !==, < and >. */
  lemma NumberOperators(a: int, b: int)
    ensures Holds(Max, Num(a), Num(b)) <==> a <= b
    ensures Holds(Min, Num(a), Num(b)) <==> a >= b
    ensures Holds(Is, Num(a), Num(b)) <==> a == b
    ensures Holds(Not, Num(a), Num(b)) <==> a != b
    ensures Holds(Under, Num(a), Num(b)) <==> a < b
    ensures Holds(Over, Num(a), Num(b)) <==> a > b
  {
  }

  /** On strings the ordering operators follow lexicographic precedence. */
  lemma StringOperators(a: string, b: string)
    ensures Holds(Under, Str(a), Str(b)) <==> StrictlyPrecedes(a, b)
    ensures Holds(Over, Str(a), Str(b)) <==> StrictlyPrecedes(b, a)
    ensures Holds(Max, Str(a), Str(b)) <==> StrictlyPrecedes(a, b) || a == b
    ensures Holds(Min, Str(a), Str(b)) <==> StrictlyPrecedes(b, a) || a == b
    ensures Holds(Is, Str(a), Str(b)) <==> a == b
  {
    LexCompareLt(a, b);
    LexCompareLt(b, a);
    LexCompareFlip(a, b);
    LexCompareEq(a, b);
  }

  /** How the operators relate to one another on any pair of values. */
  lemma OperatorDuality(v: JVal, c: JVal)
    ensures Holds(Max, v, c) <==> Holds(Min, c, v)
    ensures Holds(Under, v, c) <==> Holds(Over, c, v)
    ensures Holds(Not, v, c) <==> !Holds(Is, v, c)
    ensures Holds(Max, v, c) <==> Holds(Under, v, c) || Compare(v, c) == Some(Eq)
    ensures Compare(v, c).Some? ==> (Holds(Max, v, c) <==> !Holds(Over, v, c))
    ensures v == Undefined || c == Undefined ==>
      !Holds(Max, v, c) && !Holds(Min, v, c) && !Holds(Under, v, c) && !Holds(Over, v, c)
  {
    CompareFlip(v, c);
  }

  /** The empty list accepts every value, primitive or not. */
  lemma EmptyListAcceptsAll(v: JVal)
    ensures EvalList(ConstraintList([]), v) == Success(true)
  {
  }

  /** An OR-group with no branches rejects every value and never raises. */
  lemma EmptyOrRejectsAll(v: JVal)
    ensures EvalOne(Or([]), v) == Success(false)
  {
  }

  /** A primitive test reached with an object, array or function raises the type error. */
  lemma TypeErrorAtReachedPrimitive(op: Op, limit: JVal, rest: seq<Constraint>, v: JVal)
    requires !IsPrimitive(v)
    ensures EvalList(ConstraintList([Primitive(op, limit)] + rest), v) == Failure(TypeErr)
  {
    var cs := [Primitive(op, limit)] + rest;
    assert cs[0] == Primitive(op, limit);
    assert EvalOne(cs[0], v) == Failure(TypeErr);
    assert EvalItems(cs, v) == Failure(TypeErr);
  }

  /** Short-circuit: once a constraint is false, the rest of the list is never evaluated. */
  lemma ShortCircuitOnFalse(c: Constraint, rest: seq<Constraint>, v: JVal)
    requires EvalOne(c, v) == Success(false)
    ensures EvalList(ConstraintList([c] + rest), v) == Success(false)
  {
  }

  /** A non-primitive value is never inspected: all of them give the same outcome. */
  lemma {:induction false} NonPrimitiveUninspected(l: ConstraintList, v: JVal, w: JVal)
    requires !IsPrimitive(v) && !IsPrimitive(w)
    decreases l, 2
    ensures EvalList(l, v) == EvalList(l, w)
  {
    NonPrimitiveUninspectedItems(l.items, v, w);
  }

  lemma {:induction false} NonPrimitiveUninspectedItems(cs: seq<Constraint>, v: JVal, w: JVal)
    requires !IsPrimitive(v) && !IsPrimitive(w)
    decreases cs, 1
    ensures EvalItems(cs, v) == EvalItems(cs, w)
  {
    if |cs| > 0 {
      NonPrimitiveUninspectedOne(cs[0], v, w);
      NonPrimitiveUninspectedItems(cs[1..], v, w);
    }
  }

  lemma {:induction false} NonPrimitiveUninspectedOne(c: Constraint, v: JVal, w: JVal)
    requires !IsPrimitive(v) && !IsPrimitive(w)
    decreases c, 1
    ensures EvalOne(c, v) == EvalOne(c, w)
  {
    match c
    case Primitive(_, _) =>
    case Or(bs) => NonPrimitiveUninspectedAny(bs, v, w);
  }

  lemma {:induction false} NonPrimitiveUninspectedAny(bs: seq<ConstraintList>, v: JVal, w: JVal)
    requires !IsPrimitive(v) && !IsPrimitive(w)
    decreases bs, 0
    ensures EvalAny(bs, v) == EvalAny(bs, w)
  {
    if |bs| > 0 {
      NonPrimitiveUninspected(bs[0], v, w);
      NonPrimitiveUninspectedAny(bs[1..], v, w);
    }
  }

  /** The value set holds exactly the limits mentioned anywhere in the tree. */
  lemma {:induction false} ValueSetIsMentionedLimits(l: ConstraintList, x: JVal)
    decreases l, 2
    ensures x in ValueSet(l) <==> Mentions(l, x)
  {
    ItemsValueSetMentions(l.items, x);
  }

  lemma {:induction false} ItemsValueSetMentions(cs: seq<Constraint>, x: JVal)
    decreases cs, 1
    ensures x in ItemsValueSet(cs) <==> exists i :: 0 <= i < |cs| && MentionsOne(cs[i], x)
  {
    if |cs| > 0 {
      var n := |cs| - 1;
      ItemsValueSetMentions(cs[..n], x);
      ValueSetOneMentions(cs[n], x);
      assert forall i :: 0 <= i < n ==> cs[..n][i] == cs[i];
    }
  }

  lemma {:induction false} ValueSetOneMentions(c: Constraint, x: JVal)
    decreases c, 1
    ensures x in ValueSetOne(c) <==> MentionsOne(c, x)
  {
    match c
    case Primitive(_, _) =>
    case Or(bs) => BranchValueSetMentions(bs, x);
  }

  lemma {:induction false} BranchValueSetMentions(bs: seq<ConstraintList>, x: JVal)
    decreases bs, 0
    ensures x in BranchValueSet(bs) <==> exists j :: 0 <= j < |bs| && Mentions(bs[j], x)
  {
    if |bs| > 0 {
      var n := |bs| - 1;
      BranchValueSetMentions(bs[..n], x);
      ValueSetIsMentionedLimits(bs[n], x);
      assert forall j :: 0 <= j < n ==> bs[..n][j] == bs[j];
    }
  }

  /** In a parsed tree every collected constraint value is a primitive. */
  lemma {:induction false} WellFormedLimitsArePrimitive(l: ConstraintList, x: JVal)
    requires WellFormed(l) && Mentions(l, x)
    decreases l, 1
    ensures IsPrimitive(x)
  {
    var i :| 0 <= i < |l.items| && MentionsOne(l.items[i], x);
    assert WellFormedOne(l.items[i]);
    match l.items[i]
    case Primitive(_, _) =>
    case Or(bs) =>
      var j :| 0 <= j < |bs| && Mentions(bs[j], x);
      WellFormedLimitsArePrimitive(bs[j], x);
  }
}
