/** Order-preserving selection from a sequence. */
module Seqs {

  function Filter<T>(s: seq<T>, keep: T -> bool): seq<T>
  {
    if |s| == 0 then []
    else Filter(s[..|s|-1], keep) + (if keep(s[|s|-1]) then [s[|s|-1]] else [])
  }

  lemma FilterAppend<T>(s: seq<T>, x: T, keep: T -> bool)
    ensures Filter(s + [x], keep) == Filter(s, keep) + (if keep(x) then [x] else [])
  {
    assert (s + [x])[..|s + [x]|-1] == s;
  }

  lemma {:induction false} FilterConcat<T>(s: seq<T>, t: seq<T>, keep: T -> bool)
    ensures Filter(s + t, keep) == Filter(s, keep) + Filter(t, keep)
  {
    if |t| == 0 {
      assert s + t == s;
    } else {
      var init := t[..|t|-1];
      FilterConcat(s, init, keep);
      assert s + t == (s + init) + [t[|t|-1]];
      FilterAppend(s + init, t[|t|-1], keep);
    }
  }

  lemma {:induction false} FilterMember<T>(s: seq<T>, keep: T -> bool, x: T)
    ensures x in Filter(s, keep) <==> x in s && keep(x)
  {
    if |s| > 0 {
      FilterMember(s[..|s|-1], keep, x);
      assert s == s[..|s|-1] + [s[|s|-1]];
    }
  }

  lemma {:induction false} FilterAll<T>(s: seq<T>, keep: T -> bool)
    requires forall x :: x in s ==> keep(x)
    ensures Filter(s, keep) == s
  {
    if |s| > 0 {
      FilterAll(s[..|s|-1], keep);
      assert s == s[..|s|-1] + [s[|s|-1]];
    }
  }

  lemma {:induction false} FilterNone<T>(s: seq<T>, keep: T -> bool)
    requires forall x :: x in s ==> !keep(x)
    ensures Filter(s, keep) == []
  {
    if |s| > 0 { FilterNone(s[..|s|-1], keep); }
  }

  /** Two selections in a row are one by the conjunction. */
  lemma {:induction false} FilterTwice<T>(s: seq<T>, first: T -> bool, second: T -> bool, both: T -> bool)
    requires forall x :: x in s ==> (both(x) <==> first(x) && second(x))
    ensures Filter(Filter(s, first), second) == Filter(s, both)
  {
    if |s| > 0 {
      var x := s[|s|-1];
      FilterTwice(s[..|s|-1], first, second, both);
      assert x in s;
      if first(x) {
        FilterAppend(Filter(s[..|s|-1], first), x, second);
        assert Filter(s, first) == Filter(s[..|s|-1], first) + [x];
      } else {
        assert Filter(s, first) == Filter(s[..|s|-1], first);
      }
    }
  }

  lemma {:induction false} FilterSame<T>(s: seq<T>, p: T -> bool, q: T -> bool)
    requires forall x :: x in s ==> (p(x) <==> q(x))
    ensures Filter(s, p) == Filter(s, q)
  {
    if |s| > 0 { FilterSame(s[..|s|-1], p, q); }
  }

  /** The last element of a sequence sits somewhere in each of its permutations. */
  lemma TakeOut<T>(a: seq<T>, b: seq<T>) returns (l: seq<T>, r: seq<T>)
    requires |a| > 0 && multiset(a) == multiset(b)
    ensures b == l + [a[|a|-1]] + r
    ensures multiset(a[..|a|-1]) == multiset(l + r)
  {
    var init, x := a[..|a|-1], a[|a|-1];
    assert a == init + [x];
    assert x in multiset(a);
    var k :| 0 <= k < |b| && b[k] == x;
    l, r := b[..k], b[k+1..];
    assert b == l + [x] + r;
    assert multiset(b) == multiset(l + r) + multiset{x};
    assert multiset(a) == multiset(init) + multiset{x};
    assert multiset(init) == multiset(a) - multiset{x};
    assert multiset(l + r) == multiset(b) - multiset{x};
  }

  /** Selecting from a permutation gives a permutation of the selection. */
  lemma {:induction false} FilterPermutes<T>(a: seq<T>, b: seq<T>, keep: T -> bool)
    requires multiset(a) == multiset(b)
    ensures multiset(Filter(a, keep)) == multiset(Filter(b, keep))
    decreases |a|
  {
    if |a| == 0 {
      assert |multiset(b)| == 0;
    } else {
      var l, r := TakeOut(a, b);
      FilterPermutes(a[..|a|-1], l + r, keep);
      FilterConcat(l, r, keep);
      FilterAppend(l, a[|a|-1], keep);
      FilterConcat(l + [a[|a|-1]], r, keep);
    }
  }

  /** A sequence in three parts of which the outer two are kept whole. */
  lemma FilterMiddle<T>(a: seq<T>, b: seq<T>, c: seq<T>, keep: T -> bool, b': seq<T>)
    requires Filter(a, keep) == a && Filter(b, keep) == b' && Filter(c, keep) == c
    ensures Filter(a + (b + c), keep) == a + b' + c
  {
    hide Filter;
    FilterConcat(a, b + c, keep);
    FilterConcat(b, c, keep);
    Regroup(a, b', c);
  }

  lemma SplitLast<T>(s: seq<T>)
    requires |s| > 0
    ensures s == s[..|s|-1] + [s[|s|-1]]
  {
  }

  lemma Regroup<T>(a: seq<T>, b: seq<T>, c: seq<T>)
    ensures a + b + c == a + (b + c)
  {
  }
}
