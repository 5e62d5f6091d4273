/** The lexicographic order of strings, and sequences without repetition. */
module Ordering {

  predicate LexLeq(a: string, b: string)
  {
    |a| == 0 || (|b| > 0 && (a[0] < b[0] || (a[0] == b[0] && LexLeq(a[1..], b[1..]))))
  }

  lemma {:induction false} LexTotal(a: string, b: string)
    ensures LexLeq(a, b) || LexLeq(b, a)
  {
    if |a| > 0 && |b| > 0 && a[0] == b[0] { LexTotal(a[1..], b[1..]); }
  }

  lemma {:induction false} LexAntisymmetric(a: string, b: string)
    ensures LexLeq(a, b) && LexLeq(b, a) ==> a == b
  {
    if |a| > 0 && |b| > 0 && a[0] == b[0] {
      LexAntisymmetric(a[1..], b[1..]);
      assert a == [a[0]] + a[1..] && b == [b[0]] + b[1..];
    }
  }

  lemma {:induction false} LexTransitive(a: string, b: string, c: string)
    requires LexLeq(a, b) && LexLeq(b, c)
    ensures LexLeq(a, c)
  {
    if |a| > 0 && a[0] == b[0] && b[0] == c[0] { LexTransitive(a[1..], b[1..], c[1..]); }
  }

  /** The first difference decides; a prefix comes first. */
  lemma {:induction false} FirstDifference(p: string, a: string, b: string)
    ensures LexLeq(p, p + b)
    ensures |a| > 0 && |b| > 0 && a[0] < b[0] ==> LexLeq(p + a, p + b) && !LexLeq(p + b, p + a)
  {
    if |p| > 0 {
      FirstDifference(p[1..], a, b);
      assert (p + a)[1..] == p[1..] + a && (p + b)[1..] == p[1..] + b;
    } else {
      assert p + a == a && p + b == b;
    }
  }

  ghost predicate Distinct<T>(s: seq<T>)
  {
    forall i, j :: 0 <= i < j < |s| ==> s[i] != s[j]
  }

  lemma {:induction false} DistinctCount<T>(s: seq<T>, elems: set<T>)
    requires Distinct(s) && forall x :: x in s <==> x in elems
    ensures |elems| == |s|
  {
    if |s| > 0 {
      var init, last := s[..|s|-1], s[|s|-1];
      forall i, j | 0 <= i < j < |init| ensures init[i] != init[j] { assert s[i] != s[j]; }
      forall k | 0 <= k < |init| ensures init[k] != last { assert s[k] != s[|s|-1]; }
      forall x ensures x in init <==> x in elems - {last} { assert x in s <==> x in init || x == last; }
      DistinctCount(init, elems - {last});
      assert elems == (elems - {last}) + {last};
    } else {
      assert elems == {};
    }
  }

  lemma {:induction false} DistinctIffSingles<T>(s: seq<T>)
    ensures Distinct(s) <==> forall x :: x in s ==> multiset(s)[x] == 1
  {
    if |s| > 0 {
      var init, last := s[..|s|-1], s[|s|-1];
      assert s == init + [last];
      DistinctIffSingles(init);
      assert multiset(s) == multiset(init) + multiset{last};
      if Distinct(s) {
        forall i, j | 0 <= i < j < |init| ensures init[i] != init[j] { assert s[i] != s[j]; }
        forall i | 0 <= i < |init| ensures init[i] != last { assert s[i] != s[|s|-1]; }
      }
      if forall x :: x in s ==> multiset(s)[x] == 1 {
        forall x | x in init ensures multiset(init)[x] == 1 { assert x in s && multiset(init)[x] > 0; }
        assert multiset(s)[last] == 1;
        assert last !in init;
      }
    }
  }

  lemma DistinctPermutes<T>(a: seq<T>, b: seq<T>)
    requires Distinct(a) && multiset(a) == multiset(b)
    ensures Distinct(b) && forall x :: x in b <==> x in a
  {
    forall x ensures x in b <==> x in a { assert x in multiset(a) <==> x in multiset(b); }
    DistinctIffSingles(a);
    DistinctIffSingles(b);
  }
}
