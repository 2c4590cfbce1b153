/** Python's ordering of `str` values (lexicographic by code point) and `sorted()`
    applied to a set of strings. */
module StringOrder {

  /** `a < b` for Python strings: compare code points left to right; a proper
      prefix is smaller. */
  predicate LexLess(a: string, b: string) {
    if |a| == 0 then |b| > 0
    else if |b| == 0 then false
    else a[0] < b[0] || (a[0] == b[0] && LexLess(a[1..], b[1..]))
  }

  lemma {:induction false} LexLessIrreflexive(a: string)
    ensures !LexLess(a, a)
  {
    if |a| > 0 {
      LexLessIrreflexive(a[1..]);
    }
  }

  lemma {:induction false} LexLessTransitive(a: string, b: string, c: string)
    requires LexLess(a, b) && LexLess(b, c)
    ensures LexLess(a, c)
  {
    if |a| > 0 && a[0] == b[0] && b[0] == c[0] {
      LexLessTransitive(a[1..], b[1..], c[1..]);
    }
  }

  /** Any two different strings are ordered one way or the other. */
  lemma {:induction false} LexLessTotal(a: string, b: string)
    requires a != b
    ensures LexLess(a, b) || LexLess(b, a)
  {
    if |a| > 0 && |b| > 0 && a[0] == b[0] {
      assert a == [a[0]] + a[1..] && b == [b[0]] + b[1..];
      LexLessTotal(a[1..], b[1..]);
    }
  }

  /** `m` is below every other element of `s`. */
  predicate IsLeast(m: string, s: set<string>) {
    m in s && forall y | y in s && y != m :: LexLess(m, y)
  }

  /** Every finite non-empty set of strings has a least element. */
  lemma {:induction false} LeastExists(s: set<string>)
    requires s != {}
    ensures exists m :: IsLeast(m, s)
    decreases |s|
  {
    var x :| x in s;
    var rest := s - {x};
    if rest == {} {
      assert s == {x};
      assert IsLeast(x, s);
    } else {
      LeastExists(rest);
      var m :| IsLeast(m, rest);
      if LexLess(x, m) {
        forall y | y in s && y != x
          ensures LexLess(x, y)
        {
          if y != m {
            LexLessTransitive(x, m, y);
          }
        }
        assert IsLeast(x, s);
      } else {
        if x != m {
          LexLessTotal(x, m);
        }
        assert IsLeast(m, s);
      }
    }
  }

  /** Strictly increasing, as the list `sorted()` returns for a set. */
  predicate StrictlySorted(xs: seq<string>) {
    forall i, j | 0 <= i < j < |xs| :: LexLess(xs[i], xs[j])
  }

  /** Python's `sorted(s)` for a set of strings: the elements of `s`, each once, in
      increasing order. */
  method SortSet(s: set<string>) returns (r: seq<string>)
    ensures StrictlySorted(r)
    ensures forall x :: x in r <==> x in s
    ensures |r| == |s|
  {
    r := [];
    var rest := s;
    while rest != {}
      invariant StrictlySorted(r)
      invariant forall x :: x in s <==> x in r || x in rest
      invariant forall i, y | 0 <= i < |r| && y in rest :: LexLess(r[i], y)
      invariant |r| + |rest| == |s|
      invariant forall x | x in r :: x !in rest
      decreases |rest|
    {
      LeastExists(rest);
      var m :| IsLeast(m, rest);
      r := r + [m];
      rest := rest - {m};
    }
  }
}
