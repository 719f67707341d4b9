/**
  The few string operations the engine relies on: `String.prototype.split('.')`,
  `Array.prototype.join('.')`, and the decimal spelling of array indices that
  `Object.entries` and `Object.hasOwn` use for array and string keys.
 */
module Strings {

  const Dot: char := '.'

  /** `s.split('.')`: the dot-free segments of `s`, always at least one. */
  function Split(s: string): (r: seq<string>)
    ensures |r| >= 1
    ensures forall i :: 0 <= i < |r| ==> Dot !in r[i]
  {
    if |s| == 0 then [""]
    else
      var rest := Split(s[1..]);
      if s[0] == Dot then [""] + rest
      else [[s[0]] + rest[0]] + rest[1..]
  }

  /** Each segment preceded by a dot: the text a path adds after its head. */
  function Dotted(segments: seq<string>): string
  {
    if |segments| == 0 then "" else [Dot] + segments[0] + Dotted(segments[1..])
  }

  /** `parts.join('.')`; the empty array joins to the empty string. */
  function Join(parts: seq<string>): string
  {
    if |parts| == 0 then "" else parts[0] + Dotted(parts[1..])
  }

  /** Splitting and joining again gives back the original key. */
  lemma {:induction false} JoinSplit(s: string)
    ensures Join(Split(s)) == s
  {
    if |s| > 0 {
      var rest := Split(s[1..]);
      JoinSplit(s[1..]);
      assert Join(rest) == s[1..];
      if s[0] == Dot {
        assert Join(Split(s)) == [Dot] + rest[0] + Dotted(rest[1..]);
      } else {
        assert Join(Split(s)) == [s[0]] + rest[0] + Dotted(rest[1..]);
      }
      assert s == [s[0]] + s[1..];
    }
  }

  lemma {:induction false} SplitDotFreePrefix(a: string, t: string)
    requires Dot !in a
    ensures Split(a + t) == [a + Split(t)[0]] + Split(t)[1..]
  {
    var st := Split(t);
    if |a| > 0 {
      SplitDotFreePrefix(a[1..], t);
      var r := Split(a[1..] + t);
      assert r[0] == a[1..] + st[0] && r[1..] == st[1..];
      assert (a + t)[1..] == a[1..] + t;
      assert (a + t)[0] == a[0] && a[0] != Dot;
      assert Split(a + t) == [[a[0]] + r[0]] + r[1..];
      assert [a[0]] + (a[1..] + st[0]) == a + st[0];
    } else {
      assert a + t == t;
      assert a + st[0] == st[0];
      assert st == [st[0]] + st[1..];
    }
  }

  /** A key without dots is a single segment. */
  lemma SplitDotFree(s: string)
    requires Dot !in s
    ensures Split(s) == [s]
  {
    SplitDotFreePrefix(s, "");
    assert s + "" == s;
  }

  /** Joining dot-free segments and splitting again gives back the segments. */
  lemma {:induction false} SplitJoin(parts: seq<string>)
    requires |parts| >= 1
    requires forall i :: 0 <= i < |parts| ==> Dot !in parts[i]
    ensures Split(Join(parts)) == parts
  {
    var rest := parts[1..];
    if |rest| == 0 {
      SplitDotFreePrefix(parts[0], "");
      assert parts[0] + "" == parts[0];
      assert parts == [parts[0]];
    } else {
      assert forall i :: 0 <= i < |rest| ==> rest[i] == parts[i + 1];
      SplitJoin(rest);
      assert Join(parts) == parts[0] + ([Dot] + Join(rest));
      SplitSegmentDot(parts[0], Join(rest));
      assert parts == [parts[0]] + rest;
    }
  }

  /** A dot-free segment followed by a dot splits off as a segment of its own. */
  lemma SplitSegmentDot(a: string, t: string)
    requires Dot !in a
    ensures Split(a + ([Dot] + t)) == [a] + Split(t)
  {
    SplitDotFreePrefix(a, [Dot] + t);
    SplitAfterDot(t);
    assert a + "" == a;
  }

  /** A leading dot splits off an empty first segment. */
  lemma SplitAfterDot(t: string)
    ensures Split([Dot] + t) == [""] + Split(t)
  {
    assert ([Dot] + t)[1..] == t;
  }

  /** Appending one segment to a path appends one dotted segment. */
  lemma {:induction false} DottedSnoc(segments: seq<string>, s: string)
    ensures Dotted(segments + [s]) == Dotted(segments) + [Dot] + s
  {
    if |segments| > 0 {
      DottedSnoc(segments[1..], s);
      assert (segments + [s])[1..] == segments[1..] + [s];
    } else {
      assert segments + [s] == [s];
    }
  }

  /** The dotted text of a path is its first segment's, then the rest's. */
  lemma DottedCons(p: seq<string>)
    requires |p| > 0
    ensures Dotted(p) == Dotted([p[0]]) + Dotted(p[1..])
  {
    assert [p[0]][1..] == [];
    assert [Dot] + p[0] + "" == [Dot] + p[0];
  }

  lemma ConcatAssoc(a: string, b: string, c: string)
    ensures a + b + c == a + (b + c)
  {
  }

  /** The dotted text of two runs of segments is the two texts one after the other. */
  lemma {:induction false} DottedAppend(a: seq<string>, b: seq<string>)
    ensures Dotted(a + b) == Dotted(a) + Dotted(b)
  {
    if |a| > 0 {
      DottedAppend(a[1..], b);
      assert (a + b)[1..] == a[1..] + b;
      assert (a + b)[0] == a[0];
    } else {
      assert a + b == b;
    }
  }

  /** A dotted key is its head joined with the dotted rest. */
  lemma SplitHeadRest(s: string)
    ensures s == Split(s)[0] + Dotted(Split(s)[1..])
  {
    JoinSplit(s);
  }

  predicate IsDigit(c: char) {
    '0' <= c <= '9'
  }

  function DigitChar(d: nat): (c: char)
    requires d < 10
    ensures IsDigit(c)
  {
    "0123456789"[d]
  }

  /** The decimal spelling of `n` (the property key of array index `n`). */
  function NatToString(n: nat): (r: string)
    ensures |r| > 0
    ensures forall k :: 0 <= k < |r| ==> IsDigit(r[k])
  {
    if n < 10 then [DigitChar(n)] else NatToString(n / 10) + [DigitChar(n % 10)]
  }

  lemma DigitCharInjective(a: nat, b: nat)
    requires a < 10 && b < 10
    ensures DigitChar(a) == DigitChar(b) ==> a == b
  {
  }

  lemma {:induction false} NatToStringLength(n: nat)
    ensures n < 10 <==> |NatToString(n)| == 1
  {
    if n >= 10 {
      assert |NatToString(n / 10)| >= 1;
    }
  }

  /** Distinct indices have distinct keys. */
  lemma {:induction false} NatToStringInjective(a: nat, b: nat)
    ensures NatToString(a) == NatToString(b) ==> a == b
  {
    if NatToString(a) == NatToString(b) {
      NatToStringLength(a);
      NatToStringLength(b);
      if a < 10 {
        DigitCharInjective(a, b);
      } else {
        var sa, sb := NatToString(a), NatToString(b);
        assert sa[..|sa| - 1] == NatToString(a / 10);
        assert sb[..|sb| - 1] == NatToString(b / 10);
        NatToStringInjective(a / 10, b / 10);
        DigitCharInjective(a % 10, b % 10);
      }
    }
  }
}
