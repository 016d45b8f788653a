/** Operations on Python `str` values, modelled as sequences of code points. */
module Text {

  /** Python's `a < b` on `str`: lexicographic by code point, a proper prefix being smaller. */
  predicate Less(a: string, b: string)
  {
    if b == [] then false
    else if a == [] then true
    else if a[0] != b[0] then a[0] < b[0]
    else Less(a[1..], b[1..])
  }

  lemma {:induction false} LessIrreflexive(a: string)
    ensures !Less(a, a)
  {
    if a != [] {
      LessIrreflexive(a[1..]);
    }
  }

  lemma {:induction false} LessTransitive(a: string, b: string, c: string)
    requires Less(a, b) && Less(b, c)
    ensures Less(a, c)
  {
    if a != [] && a[0] == b[0] && b[0] == c[0] {
      LessTransitive(a[1..], b[1..], c[1..]);
    }
  }

  /** Any two different strings are ordered one way or the other. */
  lemma {:induction false} LessTotal(a: string, b: string)
    requires a != b
    ensures Less(a, b) || Less(b, a)
  {
    if a != [] && b != [] && a[0] == b[0] {
      assert a == [a[0]] + a[1..] && b == [b[0]] + b[1..];
      LessTotal(a[1..], b[1..]);
    }
  }

  lemma {:induction false} LessAsymmetric(a: string, b: string)
    requires Less(a, b)
    ensures !Less(b, a)
  {
    if a != [] && a[0] == b[0] {
      LessAsymmetric(a[1..], b[1..]);
    }
  }

  /** `c.lower()` for an ASCII upper-case letter; every other character is left as it is. */
  function LowerChar(c: char): (l: char)
    ensures 'A' <= c <= 'Z' ==> 'a' <= l <= 'z' && l as int - c as int == 32
    ensures !('A' <= c <= 'Z') ==> l == c
  {
    if 'A' <= c <= 'Z' then (c as int + 32) as char else c
  }

  /** `s.lower()`, character by character. */
  function Lower(s: string): (l: string)
    ensures |l| == |s|
    ensures forall i :: 0 <= i < |s| ==> l[i] == LowerChar(s[i])
  {
    seq(|s|, i requires 0 <= i < |s| => LowerChar(s[i]))
  }

  predicate StartsWith(s: string, prefix: string)
  {
    |prefix| <= |s| && s[..|prefix|] == prefix
  }

  /** `t` occurs in `s` starting at index `i`. */
  ghost predicate OccursAt(s: string, t: string, i: int)
  {
    0 <= i && i + |t| <= |s| && s[i..i + |t|] == t
  }

  /** Python's `t in s` on two strings: a substring test. */
  predicate Contains(s: string, t: string)
    decreases |s|
  {
    StartsWith(s, t) || (s != [] && Contains(s[1..], t))
  }

  lemma {:induction false} ContainsIff(s: string, t: string)
    ensures Contains(s, t) <==> exists i :: OccursAt(s, t, i)
    decreases |s|
  {
    if StartsWith(s, t) {
      assert OccursAt(s, t, 0);
    } else if s != [] {
      ContainsIff(s[1..], t);
      if i :| OccursAt(s[1..], t, i) {
        assert s[1..][i..i + |t|] == s[i + 1..i + 1 + |t|];
        assert OccursAt(s, t, i + 1);
      }
      forall i | OccursAt(s, t, i) ensures OccursAt(s[1..], t, i - 1) {
        assert i != 0;
        assert s[1..][i - 1..i - 1 + |t|] == s[i..i + |t|];
      }
    }
  }

  /** The lower-case word `t` occurs at index `i` of `s` when case is ignored. */
  ghost predicate OccursAtIgnoringCase(s: string, t: string, i: int)
  {
    0 <= i && i + |t| <= |s| && forall k :: 0 <= k < |t| ==> LowerChar(s[i + k]) == t[k]
  }

  lemma LowerOccursAt(s: string, t: string, i: int)
    ensures OccursAt(Lower(s), t, i) <==> OccursAtIgnoringCase(s, t, i)
  {
    if OccursAtIgnoringCase(s, t, i) {
      assert Lower(s)[i..i + |t|] == t;
    }
    if OccursAt(Lower(s), t, i) {
      forall k | 0 <= k < |t| ensures LowerChar(s[i + k]) == t[k] {
        assert Lower(s)[i..i + |t|][k] == t[k];
      }
    }
  }

  /** `t in s.lower()` holds exactly when `t` occurs in `s` ignoring the case of ASCII letters. */
  lemma ContainsLowerIff(s: string, t: string)
    ensures Contains(Lower(s), t) <==> exists i :: OccursAtIgnoringCase(s, t, i)
  {
    ContainsIff(Lower(s), t);
    if i :| OccursAt(Lower(s), t, i) {
      LowerOccursAt(s, t, i);
    }
    if i :| OccursAtIgnoringCase(s, t, i) {
      LowerOccursAt(s, t, i);
    }
  }
}
