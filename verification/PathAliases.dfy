/** Resolving an import through the `paths` aliases of a tsconfig: entries sorted by how
    specific their prefix is, first match wins. Joining with the base URL is left out. */
module PathAliases {
  /** `prefix` is the pattern up to its first `*`, or all of it. */
  datatype AliasEntry = AliasEntry(pattern: string, replacements: seq<string>)
  {
    predicate IsWildcard() { '*' in pattern }

    function Prefix(): string { UpToStar(pattern) }
  }

  function UpToStar(s: string): (r: string)
    ensures r <= s && '*' !in r
  {
    if |s| == 0 || s[0] == '*' then "" else [s[0]] + UpToStar(s[1..])
  }

  function TrimStars(s: string): string
  {
    if |s| >= 2 && s[|s|-2..] == "/*" then TrimStars(s[..|s|-2]) else s
  }

  /** The template with its first `*` replaced. */
  function Substitute(template: string, captured: string): string
  {
    if |template| == 0 then ""
    else if template[0] == '*' then captured + template[1..]
    else [template[0]] + Substitute(template[1..], captured)
  }

  predicate Matches(e: AliasEntry, path: string)
  {
    if e.IsWildcard() then e.Prefix() <= path else path == e.pattern
  }

  function Expand(e: AliasEntry, path: string): seq<string>
    requires Matches(e, path)
  {
    seq(|e.replacements|, i requires 0 <= i < |e.replacements| =>
      if e.IsWildcard() then Substitute(e.replacements[i], path[|e.Prefix()|..]) else TrimStars(e.replacements[i]))
  }

  /** Longer prefixes first; at the same length literals before wildcards. */
  predicate MoreSpecific(a: AliasEntry, b: AliasEntry)
  {
    |a.Prefix()| > |b.Prefix()| || (|a.Prefix()| == |b.Prefix()| && (!a.IsWildcard() || b.IsWildcard()))
  }

  ghost predicate Sorted(entries: seq<AliasEntry>)
  {
    forall i, j :: 0 <= i < j < |entries| ==> MoreSpecific(entries[i], entries[j])
  }

  /** The entry resolution uses. */
  ghost predicate Wins(entries: seq<AliasEntry>, path: string, k: nat)
  {
    k < |entries| && Matches(entries[k], path) && forall i :: 0 <= i < k ==> !Matches(entries[i], path)
  }

  method Resolve(entries: seq<AliasEntry>, path: string) returns (results: seq<string>)
    ensures forall k: nat :: Wins(entries, path, k) ==> results == Expand(entries[k], path)
    ensures (forall e :: e in entries ==> !Matches(e, path)) ==> results == []
  {
    for i := 0 to |entries|
      invariant forall j :: 0 <= j < i ==> !Matches(entries[j], path)
    {
      var e := entries[i];
      assert e in entries;
      if e.IsWildcard() {
        if e.Prefix() <= path {
          var captured := path[|e.Prefix()|..];
          results := [];
          for t := 0 to |e.replacements|
            invariant results == Expand(e, path)[..t]
          {
            results := results + [Substitute(e.replacements[t], captured)];
          }
          assert results == Expand(e, path);
          return results;
        }
      } else if path == e.pattern {
        results := [];
        for t := 0 to |e.replacements|
          invariant results == Expand(e, path)[..t]
        {
          results := results + [TrimStars(e.replacements[t])];
        }
        assert results == Expand(e, path);
        return results;
      }
    }
    return [];
  }

  lemma {:induction false} LiteralPrefix(s: string)
    requires '*' !in s
    ensures UpToStar(s) == s
  {
    if |s| > 0 { LiteralPrefix(s[1..]); }
  }

  lemma MatchingPrefix(e: AliasEntry, path: string)
    requires Matches(e, path)
    ensures e.Prefix() <= path && (!e.IsWildcard() ==> e.Prefix() == path == e.pattern)
  {
    if !e.IsWildcard() { LiteralPrefix(e.pattern); }
  }

  /** The most specific match wins: its prefix is the longest of all that match, and an
      exact pattern beats every wildcard. */
  lemma MostSpecificWins(entries: seq<AliasEntry>, path: string, k: nat, i: nat)
    requires Sorted(entries) && Wins(entries, path, k) && i < |entries| && Matches(entries[i], path)
    ensures entries[i].Prefix() <= entries[k].Prefix()
    ensures !entries[i].IsWildcard() ==> entries[k].pattern == entries[i].pattern
  {
    MatchingPrefix(entries[i], path);
    MatchingPrefix(entries[k], path);
    assert i >= k;
    if i > k { assert MoreSpecific(entries[k], entries[i]); }
  }

  /** Patterns that matching and sorting cannot tell apart: what follows a star is never
      looked at. */
  predicate Tied(a: AliasEntry, b: AliasEntry)
  {
    a.IsWildcard() == b.IsWildcard() && a.Prefix() == b.Prefix()
  }

  lemma WinnersAreTied(a: seq<AliasEntry>, b: seq<AliasEntry>, path: string, k: nat, l: nat)
    requires multiset(a) == multiset(b) && Sorted(a) && Sorted(b) && Wins(a, path, k) && Wins(b, path, l)
    ensures Tied(a[k], b[l]) && b[l] in a
  {
    assert a[k] in multiset(a) && b[l] in multiset(b);
    assert a[k] in b && b[l] in a;
    var i :| 0 <= i < |a| && a[i] == b[l];
    var j :| 0 <= j < |b| && b[j] == a[k];
    MostSpecificWins(a, path, k, i);
    MostSpecificWins(b, path, l, j);
    MatchingPrefix(a[k], path);
    MatchingPrefix(b[l], path);
  }

  function Swapped(a: seq<AliasEntry>, k: nat, i: nat): seq<AliasEntry>
    requires k < |a| && i < |a|
  {
    a[k := a[i]][i := a[k]]
  }

  /** A tied entry put in the place of the winner wins. */
  lemma TiedEntryWins(a: seq<AliasEntry>, path: string, k: nat, i: nat)
    requires Sorted(a) && Wins(a, path, k) && i < |a| && Tied(a[i], a[k])
    ensures var b := Swapped(a, k, i);
            multiset(a) == multiset(b) && Sorted(b) && Wins(b, path, k) && b[k] == a[i]
  {
    var b := Swapped(a, k, i);
    TiedMatch(a[i], a[k], path);
    assert i >= k;
    forall m, n | 0 <= m < n < |b| ensures MoreSpecific(b[m], b[n]) {
      assert MoreSpecific(a[m], a[n]);
      assert Tied(b[m], a[m]) && Tied(b[n], a[n]);
    }
  }

  lemma TiedMatch(a: AliasEntry, b: AliasEntry, path: string)
    requires Tied(a, b)
    ensures Matches(a, path) <==> Matches(b, path)
  {
    if !a.IsWildcard() {
      LiteralPrefix(a.pattern);
      LiteralPrefix(b.pattern);
    }
  }

  /** For one path, the order in which the file lists its aliases does not matter if and
      only if the winner is tied with no other entry. */
  lemma ListingOrderIsIrrelevantIff(a: seq<AliasEntry>, path: string, k: nat)
    requires Sorted(a) && Wins(a, path, k)
    ensures (forall b, l: nat :: multiset(a) == multiset(b) && Sorted(b) && Wins(b, path, l) ==> b[l] == a[k])
            <==> (forall e :: e in a && Tied(e, a[k]) ==> e == a[k])
  {
    if forall e :: e in a && Tied(e, a[k]) ==> e == a[k] {
      forall b, l: nat | multiset(a) == multiset(b) && Sorted(b) && Wins(b, path, l) ensures b[l] == a[k] {
        WinnersAreTied(a, b, path, k, l);
      }
    }
    if e :| e in a && Tied(e, a[k]) && e != a[k] {
      var i :| 0 <= i < |a| && a[i] == e;
      TiedEntryWins(a, path, k, i);
    }
  }

  /** Of two tied wildcards the one listed first wins. */
  lemma SharedPrefixDependsOnOrder(a: AliasEntry, b: AliasEntry, path: string)
    requires a != b && a.IsWildcard() && b.IsWildcard() && a.Prefix() == b.Prefix() <= path
    ensures Sorted([a, b]) && Sorted([b, a]) && multiset([a, b]) == multiset([b, a])
    ensures Wins([a, b], path, 0) && Wins([b, a], path, 0) && [a, b][0] != [b, a][0]
  {
    assert MoreSpecific(a, b) && MoreSpecific(b, a);
  }

  // ----- what a match expands to ---------------------------------------------------------------

  lemma {:induction false} UpToStarIs(pre: string, post: string)
    requires '*' !in pre
    ensures UpToStar(pre + "*" + post) == pre
  {
    if |pre| > 0 {
      UpToStarIs(pre[1..], post);
      assert (pre + "*" + post)[1..] == pre[1..] + "*" + post;
    }
  }

  lemma FirstOff(a: string, b: string, c: string)
    requires |a| > 0
    ensures (a + b + c)[1..] == a[1..] + b + c && a + b + c == [a[0]] + (a[1..] + b + c)
  {
  }

  lemma {:induction false} SubstituteIs(a: string, b: string, captured: string)
    requires '*' !in a
    ensures Substitute(a, captured) == a && Substitute(a + "*" + b, captured) == a + captured + b
  {
    if |a| > 0 {
      SubstituteIs(a[1..], b, captured);
      FirstOff(a, "*", b);
      FirstOff(a, captured, b);
      assert (a + "*" + b)[0] == a[0] && a == [a[0]] + a[1..];
    } else {
      assert ("" + "*" + b)[1..] == b;
    }
  }

  /** A wildcard matches exactly the paths with its prefix, and what follows the prefix in the
      path replaces the first star of the template. */
  lemma WildcardExpands(e: AliasEntry, pre: string, post: string, path: string, t: nat, a: string, b: string)
    requires e.pattern == pre + "*" + post && '*' !in pre
    requires t < |e.replacements| && e.replacements[t] == a + "*" + b && '*' !in a
    ensures Matches(e, path) <==> exists captured :: path == pre + captured
    ensures forall captured :: path == pre + captured ==> Expand(e, path)[t] == a + captured + b
  {
    UpToStarIs(pre, post);
    assert e.pattern[|pre|] == '*' && e.IsWildcard() && e.Prefix() == pre;
    if pre <= path { assert path == pre + path[|pre|..]; }
    forall captured | path == pre + captured ensures Expand(e, path)[t] == a + captured + b {
      SubstituteIs(a, b, captured);
      assert path[|e.Prefix()|..] == captured && Substitute(e.replacements[t], captured) == a + captured + b;
    }
  }

  /** An exact pattern matches itself only, and loses a star directory at the end. */
  lemma ExactExpands(e: AliasEntry, path: string, t: nat, dir: string)
    requires '*' !in e.pattern && t < |e.replacements| && '*' !in dir
    ensures Matches(e, path) <==> path == e.pattern
    ensures path == e.pattern && e.replacements[t] == dir ==> Expand(e, path)[t] == dir
    ensures path == e.pattern && e.replacements[t] == dir + "/*" ==> Expand(e, path)[t] == dir
  {
    var starred := dir + "/*";
    assert starred[|starred|-2..] == "/*" && starred[..|starred|-2] == dir;
    if |dir| >= 2 { assert dir[|dir|-2..][1] == dir[|dir|-1]; }
    assert TrimStars(dir) == dir && TrimStars(starred) == TrimStars(dir);
  }
}
