/**
  Python's default ordering on `str`: two strings are compared code point by
  code point, the first differing code point decides, and a proper prefix
  comes before any of its extensions. The comparison is case-sensitive, so
  every upper-case ASCII letter sorts before every lower-case one.

  Dafny's own `<` on sequences means "proper prefix", so the order is defined
  here explicitly and proved to be a strict total order, which is what
  `sorted` relies on.
 */
module StringOrder {

  /** Python's `a < b` on strings. `char` comparison in Dafny is by code point. */
  predicate Less(a: string, b: string)
    decreases |a|
  {
    if |a| == 0 then |b| > 0
    else if |b| == 0 then false
    else if a[0] != b[0] then a[0] < b[0]
    else Less(a[1..], b[1..])
  }

  /** The same order stated without recursion: `a` is a proper prefix of `b`,
      or the strings agree up to some position where `a` has the smaller code
      point. */
  ghost predicate LessAt(a: string, b: string)
  {
    (|a| < |b| && a == b[..|a|])
    || exists k :: 0 <= k < |a| && k < |b| && a[..k] == b[..k] && a[k] < b[k]
  }

  lemma {:induction false} LessImpliesLessAt(a: string, b: string)
    requires Less(a, b)
    ensures LessAt(a, b)
    decreases |a|
  {
    if |a| == 0 {
      assert a == b[..0];
    } else if a[0] != b[0] {
      assert a[..0] == b[..0];
    } else {
      var a', b' := a[1..], b[1..];
      LessImpliesLessAt(a', b');
      if |a'| < |b'| && a' == b'[..|a'|] {
        assert a == [a[0]] + a';
        assert b[..|a|] == [b[0]] + b'[..|a'|];
      } else {
        var k :| 0 <= k < |a'| && k < |b'| && a'[..k] == b'[..k] && a'[k] < b'[k];
        assert a[..k + 1] == [a[0]] + a'[..k];
        assert b[..k + 1] == [b[0]] + b'[..k];
      }
    }
  }

  lemma {:induction false} LessAtImpliesLess(a: string, b: string)
    requires LessAt(a, b)
    ensures Less(a, b)
    decreases |a|
  {
    if |a| > 0 {
      var a', b' := a[1..], b[1..];
      if |a| < |b| && a == b[..|a|] {
        assert a[0] == b[..|a|][0];
        assert a' == b'[..|a'|];
        LessAtImpliesLess(a', b');
      } else {
        var k :| 0 <= k < |a| && k < |b| && a[..k] == b[..k] && a[k] < b[k];
        if k > 0 {
          assert a[0] == a[..k][0] && b[0] == b[..k][0];
          assert a'[..k - 1] == a[..k][1..] && b'[..k - 1] == b[..k][1..];
          LessAtImpliesLess(a', b');
        }
      }
    }
  }

  lemma LessMeansLessAt(a: string, b: string)
    ensures Less(a, b) <==> LessAt(a, b)
  {
    if Less(a, b) {
      LessImpliesLessAt(a, b);
    }
    if LessAt(a, b) {
      LessAtImpliesLess(a, b);
    }
  }

  lemma {:induction false} LessIrreflexive(a: string)
    ensures !Less(a, a)
    decreases |a|
  {
    if |a| > 0 {
      LessIrreflexive(a[1..]);
    }
  }

  lemma {:induction false} LessAsymmetric(a: string, b: string)
    ensures Less(a, b) ==> !Less(b, a)
    decreases |a|
  {
    if |a| > 0 && |b| > 0 && a[0] == b[0] {
      LessAsymmetric(a[1..], b[1..]);
    }
  }

  lemma {:induction false} LessTransitive(a: string, b: string, c: string)
    ensures Less(a, b) && Less(b, c) ==> Less(a, c)
    decreases |a|
  {
    if |a| > 0 && |b| > 0 && |c| > 0 && a[0] == b[0] && b[0] == c[0] {
      LessTransitive(a[1..], b[1..], c[1..]);
    }
  }

  /** Any two different strings are ordered one way or the other. */
  lemma {:induction false} LessTotal(a: string, b: string)
    ensures a != b ==> Less(a, b) || Less(b, a)
    decreases |a|
  {
    if |a| > 0 && |b| > 0 && a[0] == b[0] {
      LessTotal(a[1..], b[1..]);
      if a[1..] == b[1..] {
        assert a == [a[0]] + a[1..] && b == [b[0]] + b[1..];
      }
    }
  }

  /** Case sensitivity: "B" sorts before "a", and "a" before "ab". */
  lemma UpperCaseBeforeLowerCase()
    ensures Less("B", "a") && !Less("a", "B")
    ensures Less("a", "ab") && !Less("ab", "a")
  {
  }
}
