/**
  `safeKeyAccess(obj, key)`: field lookup for dotted parameter paths that only
  sees an object's own properties and never the three keys through which a
  prototype chain can be reached.
 */
module SafeAccess {
  import opened Wrappers
  import opened Values
  import Strings

  const ForbiddenKeys: set<string> := {"__proto__", "constructor", "prototype"}

  /**
    `Object.hasOwn` throws on null and undefined; the forbidden-key test comes
    first, so it is only reached for other keys.
   */
  predicate Accessible(obj: JVal, key: string) {
    key in ForbiddenKeys || !(obj.Null? || obj.Undefined?)
  }

  /**
    Which keys `obj` holds as own properties. A string's length and index keys
    count its characters, which are Unicode code points here (JavaScript counts
    UTF-16 code units).
   */
  ghost predicate HasOwn(obj: JVal, key: string) {
    match obj
    case Obj(ms) => exists i :: 0 <= i < |ms| && ms[i].key == key
    case Func(ms) => exists i :: 0 <= i < |ms| && ms[i].key == key
    case Other(ms) => exists i :: 0 <= i < |ms| && ms[i].key == key
    case Arr(xs) => key == "length" || exists i :: 0 <= i < |xs| && IndexKey(i) == key
    case Str(s) => key == "length" || exists i :: 0 <= i < |s| && IndexKey(i) == key
    case _ => false
  }

  /** The value of `obj`'s own property `key`, or nothing when `obj` has no such own property. */
  function OwnProperty(obj: JVal, key: string): Option<JVal> {
    match obj
    case Obj(ms) => FindMember(ms, key)
    case Func(ms) => FindMember(ms, key)
    case Other(ms) => FindMember(ms, key)
    case Arr(xs) =>
      if key == "length" then Some(Num(|xs|))
      else
        (match FindIndex(key, |xs|)
         case Some(i) => Some(xs[i])
         case None => None)
    case Str(s) =>
      if key == "length" then Some(Num(|s|))
      else
        (match FindIndex(key, |s|)
         case Some(i) => Some(Str([s[i]]))
         case None => None)
    case _ => None
  }

  function SafeKeyAccess(obj: JVal, key: string): (r: JVal)
    requires Accessible(obj, key)
    ensures key in ForbiddenKeys ==> r == Undefined
    ensures !HasOwn(obj, key) ==> r == Undefined
    ensures key !in ForbiddenKeys && (obj.Obj? || obj.Func? || obj.Other?) ==>
      forall i :: (0 <= i < |Props(obj)| && Props(obj)[i].key == key &&
                  forall j :: 0 <= j < i ==> Props(obj)[j].key != key) ==> r == Props(obj)[i].value
    ensures key !in ForbiddenKeys && obj.Arr? ==>
      (key == "length" ==> r == Num(|obj.elems|)) &&
      forall i :: 0 <= i < |obj.elems| && IndexKey(i) == key ==> r == obj.elems[i]
    ensures key !in ForbiddenKeys && obj.Str? ==>
      (key == "length" ==> r == Num(|obj.s|)) &&
      forall i :: 0 <= i < |obj.s| && IndexKey(i) == key ==> r == Str([obj.s[i]])
  {
    LengthIsNoIndex();
    if key in ForbiddenKeys then Undefined
    else
      match OwnProperty(obj, key)
      case Some(v) => v
      case None => Undefined
  }

  lemma LengthIsNoIndex()
    ensures forall i: nat :: IndexKey(i) != "length"
  {
    forall i: nat
      ensures IndexKey(i) != "length"
    {
      IndexKeyStartsWithDigit(i);
    }
  }
}
