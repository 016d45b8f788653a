/** Python's `sorted(...)` applied to a directory listing: the names in ascending `str` order. */
module Listing {
  import opened Text

  predicate StrictlySorted(names: seq<string>)
  {
    forall i, j :: 0 <= i < j < |names| ==> Less(names[i], names[j])
  }

  /** `m` is the smallest name of `s`. */
  predicate IsLeast(m: string, s: set<string>)
  {
    m in s && forall x :: x in s ==> x == m || Less(m, x)
  }

  lemma {:induction false} LeastExists(s: set<string>)
    requires s != {}
    ensures exists m :: IsLeast(m, s)
    decreases |s|
  {
    var x :| x in s;
    if s == {x} {
      assert IsLeast(x, s);
    } else {
      LeastExists(s - {x});
      var m :| IsLeast(m, s - {x});
      if Less(m, x) {
        assert IsLeast(m, s);
      } else {
        LessTotal(m, x);
        forall y | y in s ensures y == x || Less(x, y) {
          if y != x && y != m {
            LessTransitive(x, m, y);
          }
        }
        assert IsLeast(x, s);
      }
    }
  }

  lemma LeastUnique(s: set<string>)
    ensures forall m, m' :: IsLeast(m, s) && IsLeast(m', s) ==> m == m'
  {
    forall m, m' | IsLeast(m, s) && IsLeast(m', s) ensures m == m' {
      if m != m' {
        LessAsymmetric(m, m');
      }
    }
  }

  /** The names of `s` in ascending order, each once. */
  function SortedList(s: set<string>): (r: seq<string>)
    ensures StrictlySorted(r)
    ensures forall x :: x in r <==> x in s
    ensures |r| == |s|
    decreases |s|
  {
    if s == {} then []
    else
      LeastExists(s);
      LeastUnique(s);
      var m :| m in s && IsLeast(m, s);
      var rest := SortedList(s - {m});
      PrependLeast(m, s, rest);
      [m] + rest
  }

  lemma PrependLeast(m: string, s: set<string>, rest: seq<string>)
    requires IsLeast(m, s)
    requires StrictlySorted(rest)
    requires forall x :: x in rest <==> x in s - {m}
    ensures StrictlySorted([m] + rest)
    ensures forall x :: x in [m] + rest <==> x in s
  {
    forall i, j | 0 <= i < j < |[m] + rest| ensures Less(([m] + rest)[i], ([m] + rest)[j]) {
      if i == 0 {
        assert rest[j - 1] in s - {m};
      }
    }
  }

  /** However a listing of `s` was enumerated, once sorted it is the one sequence `SortedList(s)`. */
  lemma {:induction false} SortedListUnique(names: seq<string>, s: set<string>)
    requires StrictlySorted(names)
    requires forall x :: x in names <==> x in s
    ensures names == SortedList(s)
    decreases |names|
  {
    if names == [] {
      assert s == {};
    } else {
      var m := names[0];
      forall x | x in s ensures x == m || Less(m, x) {
        var j :| 0 <= j < |names| && names[j] == x;
      }
      assert IsLeast(m, s);
      LeastUnique(s);
      assert m !in names[1..] by {
        forall j | 1 <= j < |names| ensures names[j] != m {
          LessIrreflexive(m);
        }
      }
      assert forall x :: x in names[1..] <==> x in s - {m} by {
        assert names == [m] + names[1..];
      }
      SortedListUnique(names[1..], s - {m});
    }
  }
}
