/** What each tier of the name matcher finds, by the nodes and files of the graph. A tier is
    only asked when those before it find nothing, so each law here also orders the tiers. */
module MatchLaws {
  import opened Graph
  import opened Seqs
  import opened NameMatcher
  import opened NameIndex

  // ----- strings -----------------------------------------------------------------------------

  ghost predicate NoColons(s: string) { forall i :: 0 <= i < |s| - 1 ==> !(s[i] == ':' && s[i+1] == ':') }

  lemma {:induction false} FirstColonsFrom(s: string, i: nat, k: nat)
    requires i <= k && k + 1 < |s| && s[k] == ':' && s[k+1] == ':'
    requires forall j :: i <= j < k ==> !(s[j] == ':' && s[j+1] == ':')
    ensures FirstColons(s, i) == Some(k)
    decreases k - i
  {
    if i < k { FirstColonsFrom(s, i + 1, k); }
  }

  lemma {:induction false} NoFirstColons(s: string, i: nat)
    requires NoColons(s)
    ensures FirstColons(s, i).None?
    decreases |s| - i
  {
    if i < |s| { NoFirstColons(s, i + 1); }
  }

  /** The two colons stand where no colons stand before. */
  lemma SplitAtColons(a: string, b: string)
    requires NoColons(a + ":")
    ensures FirstColons(a + "::" + b, 0) == Some(|a|) && (a + "::" + b)[..|a|] == a && (a + "::" + b)[|a|+2..] == b
  {
    var s := a + "::" + b;
    forall j | 0 <= j < |a| ensures !(s[j] == ':' && s[j+1] == ':') {
      assert (a + ":")[j] == s[j] && (a + ":")[j+1] == s[j+1];
    }
    FirstColonsFrom(s, 0, |a|);
  }

  lemma {:induction false} LastIndexIs(a: string, c: char, b: string)
    requires c !in b
    ensures LastIndex(a + [c] + b, c) == Some(|a|)
  {
    var s := a + [c] + b;
    if |b| > 0 {
      LastIndexIs(a, c, b[..|b|-1]);
      assert s[..|s|-1] == a + [c] + b[..|b|-1];
    } else {
      assert s == a + [c];
    }
  }

  lemma {:induction false} NoLastIndex(s: string, c: char)
    requires c !in s
    ensures LastIndex(s, c).None?
  {
    if |s| > 0 { NoLastIndex(s[..|s|-1], c); }
  }

  lemma {:induction false} FirstIndexIs(s: string, i: nat, c: char, k: nat)
    requires i <= k < |s| && s[k] == c && forall j :: i <= j < k ==> s[j] != c
    ensures FirstIndex(s, i, c) == Some(k)
    decreases k - i
  {
    if i < k { FirstIndexIs(s, i + 1, c, k); }
  }

  lemma {:induction false} NoFirstIndex(s: string, i: nat, c: char)
    requires c !in s
    ensures FirstIndex(s, i, c).None?
    decreases |s| - i
  {
    if i < |s| { NoFirstIndex(s, i + 1, c); }
  }

  /** The last component after two colons. */
  lemma {:induction false} LastComponent(a: string, b: string, i: nat)
    requires NoColons(":" + b) && |a| + 1 <= i <= |a + "::" + b|
    ensures AfterLastColons(a + "::" + b, i) == b
    decreases i
  {
    var s := a + "::" + b;
    assert s[|a|] == ':' && s[|a|+1] == ':';
    if i == |a| + 1 {
      assert ColonsAt(s, |a|);
      assert s[|a|+2..] == b;
    } else {
      var t := ":" + b;
      if i < |s| { assert s[i-1] == t[i-1-(|a|+1)] && s[i] == t[i-|a|-1]; }
      LastComponent(a, b, i - 1);
    }
  }

  lemma {:induction false} NoLastComponent(s: string, i: nat)
    requires NoColons(s) && i <= |s|
    ensures AfterLastColons(s, i) == s
  {
    if i > 0 { NoLastComponent(s, i - 1); }
  }

  /** The file name is what follows the last slash. */
  lemma FileNameIs(a: string, b: string)
    requires '/' !in b
    ensures FileNameOf(b) == b && FileNameOf(a + "/" + b) == b
  {
    NoLastIndex(b, '/');
    LastIndexIs(a, '/', b);
    assert (a + "/" + b)[|a|+1..] == b;
  }

  // ----- selections ----------------------------------------------------------------------------

  lemma {:induction false} FirstSelected<T>(s: seq<T>, keep: T -> bool, k: nat)
    requires k < |s| && keep(s[k]) && forall i :: 0 <= i < k ==> !keep(s[i])
    ensures |Filter(s, keep)| > 0 && Filter(s, keep)[0] == s[k]
    decreases |s|
  {
    var init := s[..|s|-1];
    if k < |init| {
      FirstSelected(init, keep, k);
    } else {
      FilterNone(init, keep);
    }
  }

  lemma {:induction false} OnlySelected<T>(s: seq<T>, keep: T -> bool, k: nat)
    requires k < |s| && keep(s[k]) && forall i :: 0 <= i < |s| && i != k ==> !keep(s[i])
    ensures Filter(s, keep) == [s[k]]
    decreases |s|
  {
    var init := s[..|s|-1];
    if k < |init| { OnlySelected(init, keep, k); } else { FilterNone(init, keep); }
  }

  /** The k-th node is the first of the file. */
  predicate FirstIn(nodes: seq<NodeRef>, path: string, k: nat)
  {
    k < |nodes| && nodes[k].filePath == path && forall i :: 0 <= i < k ==> nodes[i].filePath != path
  }

  // ----- files ---------------------------------------------------------------------------------

  predicate LooksLikePath(name: string)
  {
    '/' in name || ('.' in name && forall i :: 0 <= i < |name| - 1 ==> !(name[i] == ':' && name[i+1] == ':'))
  }

  lemma PathsAreTried(name: string)
    requires LooksLikePath(name)
    ensures '/' in name || ('.' in name && !HasColons(name))
  {
    if '/' !in name { NoFirstColons(name, 0); }
  }

  ghost predicate EndsIn(path: string, name: string) { exists front :: path == front + name }

  lemma SuffixIs(path: string, name: string)
    ensures PathSuffix(name)(path) <==> EndsIn(path, name)
  {
    if EndsWith(path, name) { assert path == path[..|path|-|name|] + name; }
    if EndsWith(path, "/" + name) {
      var front := path[..|path|-|name|-1];
      assert path == front + ("/" + name) == (front + "/") + name;
    }
    if front :| path == front + name { assert path[|path|-|name|..] == name; }
  }

  /** What the first tier finds is the match. */
  lemma FileTierFirst(c: Casing, u: Ref, x: Ctx)
    requires FilePathMatch(u.name, x).Some?
    ensures MatchReference(c, u, x) == FilePathMatch(u.name, x)
  {
    hide FilePathMatch;
  }

  lemma FirstInFile(nodes: seq<NodeRef>, files: seq<string>, path: string, k: nat)
    requires FirstIn(nodes, path, k)
    ensures First(InFile(Scan(nodes, files), path)) == Some(nodes[k])
  {
    FirstSelected(nodes, InPath(path), k);
    hide Filter;
  }

  lemma PathChoice(name: string, x: Ctx, n: NodeRef)
    requires LooksLikePath(name) && name in x.files && First(InFile(x, name)) == Some(n)
    ensures FilePathMatch(name, x) == Some(Match(n, 0.95))
  {
    PathsAreTried(name);
    hide HasColons, InFile, InOnlyFile;
  }

  lemma SuffixChoice(name: string, x: Ctx, file: string, n: NodeRef)
    requires LooksLikePath(name) && name !in x.files && Filter(x.files, PathSuffix(name)) == [file]
    requires First(InFile(x, file)) == Some(n)
    ensures FilePathMatch(name, x) == Some(Match(n, 0.85))
  {
    PathsAreTried(name);
    hide HasColons, InFile, Filter, PathSuffix, FileNamed, FileNameOf;
  }

  lemma FileNameChoice(name: string, x: Ctx, file: string, n: NodeRef)
    requires LooksLikePath(name) && name !in x.files && Filter(x.files, PathSuffix(name)) == []
    requires Filter(x.files, FileNamed(FileNameOf(name))) == [file] && First(InFile(x, file)) == Some(n)
    ensures FilePathMatch(name, x) == Some(Match(n, 0.70))
  {
    PathsAreTried(name);
    hide HasColons, InFile, Filter, PathSuffix, FileNamed, FileNameOf;
  }

  /** A reference by the path of a file finds the first node of the file. */
  lemma PathIsMatched(c: Casing, u: Ref, nodes: seq<NodeRef>, files: seq<string>, k: nat)
    requires LooksLikePath(u.name) && u.name in files && FirstIn(nodes, u.name, k)
    ensures MatchReference(c, u, Scan(nodes, files)) == Some(Match(nodes[k], 0.95))
  {
    assert k < |nodes|;
    hide *;
    var x := Scan(nodes, files);
    FirstInFile(nodes, files, u.name, k);
    PathChoice(u.name, x, nodes[k]);
    FileTierFirst(c, u, x);
  }

  /** A part of a path at its end finds the only file that ends in it. */
  lemma PathSuffixIsMatched(c: Casing, u: Ref, nodes: seq<NodeRef>, files: seq<string>, f: nat, k: nat)
    requires LooksLikePath(u.name) && u.name !in files && f < |files| && EndsIn(files[f], u.name)
    requires forall g :: 0 <= g < |files| && g != f ==> !EndsIn(files[g], u.name)
    requires FirstIn(nodes, files[f], k)
    ensures MatchReference(c, u, Scan(nodes, files)) == Some(Match(nodes[k], 0.85))
  {
    assert k < |nodes|;
    hide *;
    var x := Scan(nodes, files);
    forall g | 0 <= g < |files| ensures PathSuffix(u.name)(files[g]) <==> EndsIn(files[g], u.name) { SuffixIs(files[g], u.name); }
    OnlySelected(files, PathSuffix(u.name), f);
    FirstInFile(nodes, files, files[f], k);
    SuffixChoice(u.name, x, files[f], nodes[k]);
    FileTierFirst(c, u, x);
  }

  /** Otherwise the only file whose own name begins with the last part is taken. */
  lemma FileNameIsMatched(c: Casing, u: Ref, nodes: seq<NodeRef>, files: seq<string>, dir: string, file: string, f: nat,
                          fileDir: string, rest: string, k: nat)
    requires LooksLikePath(u.name) && '/' !in file && (u.name == file || u.name == dir + "/" + file)
    requires forall g :: 0 <= g < |files| ==> !EndsIn(files[g], u.name)
    requires f < |files| && '/' !in rest && (files[f] == file + rest || files[f] == fileDir + "/" + (file + rest))
    requires forall g :: 0 <= g < |files| && g != f ==> !(file <= FileNameOf(files[g]))
    requires FirstIn(nodes, files[f], k)
    ensures MatchReference(c, u, Scan(nodes, files)) == Some(Match(nodes[k], 0.70))
  {
    assert k < |nodes|;
    hide *;
    var x := Scan(nodes, files);
    FileNameIs(dir, file);
    FileNameIs(fileDir, file + rest);
    forall g | 0 <= g < |files| ensures !PathSuffix(u.name)(files[g]) { SuffixIs(files[g], u.name); }
    NotListed(u.name, files);
    FilterNone(files, PathSuffix(u.name));
    forall g | 0 <= g < |files| ensures FileNamed(file)(files[g]) <==> file <= FileNameOf(files[g]) { FileNamedIs(file, files[g]); }
    assert file <= file + rest;
    OnlySelected(files, FileNamed(file), f);
    FirstInFile(nodes, files, files[f], k);
    FileNameChoice(u.name, x, files[f], nodes[k]);
    FileTierFirst(c, u, x);
  }

  lemma NotListed(name: string, files: seq<string>)
    requires forall g :: 0 <= g < |files| ==> !EndsIn(files[g], name)
    ensures name !in files
  {
    assert name == "" + name;
    assert EndsIn(name, name);
  }

  lemma FileNamedIs(file: string, path: string)
    ensures FileNamed(file)(path) <==> file <= FileNameOf(path)
  {
  }

  // ----- qualified names -------------------------------------------------------------------------

  predicate LooksQualified(name: string)
  {
    '.' in name || exists i :: 0 <= i < |name| - 1 && name[i] == ':' && name[i+1] == ':'
  }

  lemma {:induction false} ColonsFound(s: string, i: nat, k: nat)
    requires i <= k && k + 1 < |s| && s[k] == ':' && s[k+1] == ':'
    ensures FirstColons(s, i).Some?
    decreases k - i
  {
    if i < k { ColonsFound(s, i + 1, k); }
  }

  lemma QualifiedAreTried(name: string)
    requires LooksQualified(name)
    ensures HasColons(name) || '.' in name
  {
    if '.' !in name {
      var k :| 0 <= k < |name| - 1 && name[k] == ':' && name[k+1] == ':';
      ColonsFound(name, 0, k);
    }
  }

  lemma QualifiedTierNext(c: Casing, u: Ref, x: Ctx)
    requires FilePathMatch(u.name, x).None? && QualifiedNameMatch(u.name, x).Some?
    ensures MatchReference(c, u, x) == QualifiedNameMatch(u.name, x)
  {
    hide FilePathMatch, QualifiedNameMatch;
  }

  /** No file: the first node with that qualified name. */
  lemma QualifiedNameIsMatched(c: Casing, u: Ref, nodes: seq<NodeRef>, files: seq<string>, k: nat)
    requires FilePathMatch(u.name, Scan(nodes, files)).None? && LooksQualified(u.name)
    requires k < |nodes| && nodes[k].qualifiedName == u.name && forall i :: 0 <= i < k ==> nodes[i].qualifiedName != u.name
    ensures MatchReference(c, u, Scan(nodes, files)) == Some(Match(nodes[k], 0.95))
  {
    QualifiedAreTried(u.name);
    FirstSelected(nodes, QualifiedAs(u.name), k);
    hide FilePathMatch, HasColons, AfterLastColons, Filter, MethodCallMatch, ExactNameMatch, FuzzyMatch, LooksQualified;
    QualifiedTierNext(c, u, Scan(nodes, files));
  }

  /** None with the whole name: the first node of the last component whose qualified name
      ends in it. */
  lemma QualifiedSuffixIsMatched(c: Casing, u: Ref, nodes: seq<NodeRef>, files: seq<string>, a: string, b: string, k: nat)
    requires FilePathMatch(u.name, Scan(nodes, files)).None? && u.name == a + "::" + b && NoColons(":" + b)
    requires forall n :: n in nodes ==> n.qualifiedName != u.name
    requires k < |nodes| && nodes[k].name == b && EndsIn(nodes[k].qualifiedName, u.name)
    requires forall i :: 0 <= i < k && nodes[i].name == b ==> !EndsIn(nodes[i].qualifiedName, u.name)
    ensures MatchReference(c, u, Scan(nodes, files)) == Some(Match(nodes[k], 0.85))
  {
    var x, both := Scan(nodes, files), (n: NodeRef) => n.name == b && QualifiedSuffix(u.name)(n);
    assert u.name[|a|] == ':' && u.name[|a|+1] == ':';
    ColonsFound(u.name, 0, |a|);
    LastComponent(a, b, |u.name|);
    FilterNone(nodes, QualifiedAs(u.name));
    forall n ensures QualifiedSuffix(u.name)(n) <==> EndsIn(n.qualifiedName, u.name) { QualifiedSuffixMeans(n, u.name); }
    FilterTwice(nodes, Named(b), QualifiedSuffix(u.name), both);
    FirstSelected(nodes, both, k);
    hide FilePathMatch, AfterLastColons, Filter, QualifiedSuffix, EndsIn, NoColons, FirstColons;
    assert QualifiedNameMatch(u.name, x) == Some(Match(nodes[k], 0.85));
    QualifiedTierNext(c, u, x);
  }

  lemma QualifiedSuffixMeans(n: NodeRef, name: string)
    ensures QualifiedSuffix(name)(n) <==> EndsIn(n.qualifiedName, name)
  {
    ColonSuffixIs(n.qualifiedName, name);
    hide EndsWith, EndsIn;
  }

  lemma ColonSuffixIs(q: string, name: string)
    ensures EndsWith(q, name) || EndsWith(q, "::" + name) <==> EndsIn(q, name)
  {
    if EndsWith(q, name) { assert q == q[..|q|-|name|] + name; }
    if EndsWith(q, "::" + name) {
      var front := q[..|q|-|name|-2];
      assert q == front + ("::" + name) == (front + "::") + name;
    }
    if front :| q == front + name { assert q[|q|-|name|..] == name; }
  }

  // ----- method calls ----------------------------------------------------------------------------

  /** `receiver.method` with no dot in the method and no colons, or `Receiver::method` split
      at the first colons. */
  ghost predicate IsCallOf(name: string, receiver: string, called: string)
  {
    && receiver != "" && called != ""
    && ((name == receiver + "." + called && '.' !in called && NoColons(name))
        || (name == receiver + "::" + called && NoColons(receiver + ":")))
  }

  lemma CallIsSplit(name: string, receiver: string, called: string)
    requires IsCallOf(name, receiver, called)
    ensures SplitCall(name) == Some((receiver, called))
  {
    if name == receiver + "." + called && '.' !in called && NoColons(name) {
      NoFirstColons(name, 0);
      LastIndexIs(receiver, '.', called);
      assert name[..|receiver|] == receiver && name[|receiver|+1..] == called;
    } else {
      SplitAtColons(receiver, called);
    }
  }

  predicate IsCallableKind(n: NodeRef) { n.kind == NodeKind.Function || n.kind == NodeKind.Method }

  predicate IsTypeKind(c: NodeRef) { c.kind == Class || c.kind == Struct || c.kind == NodeKind.Interface }

  /** The file of some node of this name holds a callable of that one; with `typesOnly` the
      node must be a class, struct or interface. */
  ghost predicate Beside(nodes: seq<NodeRef>, owner: string, called: string, typesOnly: bool, m: NodeRef)
  {
    && m in nodes && m.name == called && IsCallableKind(m)
    && exists c :: c in nodes && c.name == owner && c.filePath == m.filePath
                   && (typesOnly ==> IsTypeKind(c))
  }

  lemma {:induction false} BesideFinds(nodes: seq<NodeRef>, files: seq<string>, classes: seq<NodeRef>, called: string, anyKind: bool)
    ensures var m := MethodBeside(Scan(nodes, files), classes, called, anyKind);
            && (m.Some? ==> m.value in nodes && m.value.name == called && IsCallableKind(m.value)
                            && exists c :: c in classes && c.filePath == m.value.filePath && (anyKind || IsTypeKind(c)))
            && (m.None? ==> forall c, n ::
                  c in classes && (anyKind || IsTypeKind(c)) && n in nodes && n.filePath == c.filePath && n.name == called ==>
                    !IsCallableKind(n))
    decreases |classes|
  {
    if |classes| > 0 {
      var c := classes[0];
      CallablesInFile(nodes, files, c.filePath, called);
      BesideFinds(nodes, files, classes[1..], called, anyKind);
      hide Filter, InFile, MethodNamed;
    }
  }

  lemma CallablesInFile(nodes: seq<NodeRef>, files: seq<string>, path: string, called: string)
    ensures var found := Filter(InFile(Scan(nodes, files), path), MethodNamed(called));
            && (forall n :: n in found <==> n in nodes && n.filePath == path && n.name == called && IsCallableKind(n))
  {
    forall n ensures n in Filter(InFile(Scan(nodes, files), path), MethodNamed(called))
                     <==> n in nodes && n.filePath == path && n.name == called && IsCallableKind(n)
    {
      FilterMember(InFile(Scan(nodes, files), path), MethodNamed(called), n);
      FilterMember(nodes, InPath(path), n);
    }
  }

  lemma OwnersAre(nodes: seq<NodeRef>, files: seq<string>, owner: string, called: string, typesOnly: bool)
    ensures var m := MethodBeside(Scan(nodes, files), ByName(Scan(nodes, files), owner), called, !typesOnly);
            && (m.Some? ==> Beside(nodes, owner, called, typesOnly, m.value))
            && (m.None? ==> forall n :: !Beside(nodes, owner, called, typesOnly, n))
  {
    var owners := ByName(Scan(nodes, files), owner);
    BesideFinds(nodes, files, owners, called, !typesOnly);
    forall c ensures c in owners <==> c in nodes && c.name == owner { FilterMember(nodes, Named(owner), c); }
    hide Filter, MethodBeside, ByName;
  }

  lemma MethodTierNext(c: Casing, u: Ref, x: Ctx)
    requires FilePathMatch(u.name, x).None? && QualifiedNameMatch(u.name, x).None? && MethodCallMatch(c, u.name, u, x).Some?
    ensures MatchReference(c, u, x) == MethodCallMatch(c, u.name, u, x)
  {
    hide FilePathMatch, QualifiedNameMatch, MethodCallMatch;
  }

  /** The three choices of the tier. */
  lemma MethodChoice(c: Casing, name: string, u: Ref, x: Ctx, receiver: string, called: string)
    requires IsCallOf(name, receiver, called)
    ensures var cap := c.upper(receiver[0]) + receiver[1..];
            var direct := MethodBeside(x, ByName(x, receiver), called, false);
            var capital := MethodBeside(x, ByName(x, cap), called, true);
            var any := FindBest(Filter(ByName(x, called), OnlyCallable()), u);
            MethodCallMatch(c, name, u, x) ==
              (if direct.Some? then Some(Match(direct.value, 0.85))
               else if cap != receiver && capital.Some? then Some(Match(capital.value, 0.75))
               else if any.Some? then Some(Match(any.value, 0.65)) else None)
  {
    CallIsSplit(name, receiver, called);
    hide SplitCall, MethodBeside, FindBest, ByName, Filter, NoColons;
  }

  /** A callable beside a class, struct or interface named like the receiver. */
  lemma DirectCallIsMatched(c: Casing, u: Ref, nodes: seq<NodeRef>, files: seq<string>, receiver: string, called: string, m: NodeRef)
    requires FilePathMatch(u.name, Scan(nodes, files)).None? && QualifiedNameMatch(u.name, Scan(nodes, files)).None?
    requires IsCallOf(u.name, receiver, called) && Beside(nodes, receiver, called, true, m)
    ensures var r := MatchReference(c, u, Scan(nodes, files));
            r.Some? && r.value.confidence == 0.85 && Beside(nodes, receiver, called, true, r.value.node)
  {
    hide *;
    var x := Scan(nodes, files);
    OwnersAre(nodes, files, receiver, called, true);
    MethodChoice(c, u.name, u, x, receiver, called);
    MethodTierNext(c, u, x);
  }

  /** Else beside any node named like the receiver with a capital. */
  lemma CapitalCallIsMatched(c: Casing, u: Ref, nodes: seq<NodeRef>, files: seq<string>, receiver: string, called: string, m: NodeRef)
    requires FilePathMatch(u.name, Scan(nodes, files)).None? && QualifiedNameMatch(u.name, Scan(nodes, files)).None?
    requires IsCallOf(u.name, receiver, called) && (forall n :: !Beside(nodes, receiver, called, true, n))
    requires var cap := c.upper(receiver[0]) + receiver[1..]; cap != receiver && Beside(nodes, cap, called, false, m)
    ensures var r, cap := MatchReference(c, u, Scan(nodes, files)), c.upper(receiver[0]) + receiver[1..];
            r.Some? && r.value.confidence == 0.75 && Beside(nodes, cap, called, false, r.value.node)
  {
    assert receiver != "";
    hide *;
    var x, cap := Scan(nodes, files), c.upper(receiver[0]) + receiver[1..];
    OwnersAre(nodes, files, receiver, called, true);
    OwnersAre(nodes, files, cap, called, false);
    MethodChoice(c, u.name, u, x, receiver, called);
    MethodTierNext(c, u, x);
  }

  /** Else the last of the callables of that name that score highest. */
  lemma CalledNameIsMatched(c: Casing, u: Ref, nodes: seq<NodeRef>, files: seq<string>, receiver: string, called: string, m: NodeRef)
    requires FilePathMatch(u.name, Scan(nodes, files)).None? && QualifiedNameMatch(u.name, Scan(nodes, files)).None?
    requires IsCallOf(u.name, receiver, called) && (forall n :: !Beside(nodes, receiver, called, true, n))
    requires forall n :: !Beside(nodes, c.upper(receiver[0]) + receiver[1..], called, false, n)
    requires m in nodes && m.name == called && IsCallableKind(m)
    ensures var r := MatchReference(c, u, Scan(nodes, files));
            && r.Some? && r.value.confidence == 0.65
            && r.value.node in nodes && r.value.node.name == called && IsCallableKind(r.value.node)
            && Score(m, u) <= Score(r.value.node, u)
  {
    assert receiver != "";
    CallablesNamed(nodes, files, called);
    hide *;
    var x, cap := Scan(nodes, files), c.upper(receiver[0]) + receiver[1..];
    var found := Filter(ByName(x, called), OnlyCallable());
    OwnersAre(nodes, files, receiver, called, true);
    OwnersAre(nodes, files, cap, called, false);
    assert m in found;
    var k := BestIsLastOfTheHighest(found, u);
    assert found[k] in found;
    MethodChoice(c, u.name, u, x, receiver, called);
    MethodTierNext(c, u, x);
  }

  lemma CallablesNamed(nodes: seq<NodeRef>, files: seq<string>, called: string)
    ensures forall n :: n in Filter(ByName(Scan(nodes, files), called), OnlyCallable())
                        <==> n in nodes && n.name == called && IsCallableKind(n)
  {
    forall n ensures n in Filter(ByName(Scan(nodes, files), called), OnlyCallable())
                     <==> n in nodes && n.name == called && IsCallableKind(n)
    {
      FilterMember(ByName(Scan(nodes, files), called), OnlyCallable(), n);
      FilterMember(nodes, Named(called), n);
    }
  }

  // ----- names as they are -----------------------------------------------------------------------

  ghost predicate NoQualifiedTier(c: Casing, u: Ref, x: Ctx)
  {
    FilePathMatch(u.name, x).None? && QualifiedNameMatch(u.name, x).None? && MethodCallMatch(c, u.name, u, x).None?
  }

  /** The only node of the name, surer when it is of the language of the reference. */
  lemma OnlyNodeIsMatched(c: Casing, u: Ref, nodes: seq<NodeRef>, files: seq<string>, k: nat)
    requires NoQualifiedTier(c, u, Scan(nodes, files)) && k < |nodes| && nodes[k].name == u.name
    requires forall i :: 0 <= i < |nodes| && i != k ==> nodes[i].name != u.name
    ensures MatchReference(c, u, Scan(nodes, files)) == Some(Match(nodes[k], if LanguageMatches(nodes[k], u) then 0.9 else 0.5))
  {
    OnlySelected(nodes, Named(u.name), k);
    hide FilePathMatch, QualifiedNameMatch, MethodCallMatch, Filter, LanguageMatches;
  }

  /** No node of the name scores higher. */
  ghost predicate ScoresHighest(nodes: seq<NodeRef>, u: Ref, best: NodeRef)
  {
    best in nodes && best.name == u.name && forall n :: n in nodes && n.name == u.name ==> Score(n, u) <= Score(best, u)
  }

  function UpToNineTenths(score: int): real { if score < 100 then 0.4 + score as real / 200.0 else 0.9 }

  /** Of several nodes one that scores highest; its confidence grows with the score up to 0.9. */
  lemma BestNodeIsMatched(c: Casing, u: Ref, nodes: seq<NodeRef>, files: seq<string>, i: nat, j: nat)
    requires NoQualifiedTier(c, u, Scan(nodes, files)) && i < j < |nodes| && nodes[i].name == u.name == nodes[j].name
    ensures exists best :: ScoresHighest(nodes, u, best)
              && MatchReference(c, u, Scan(nodes, files)) == Some(Match(best, UpToNineTenths(Score(best, u))))
  {
    TwoSelected(nodes, Named(u.name), i, j);
    assert ByName(Scan(nodes, files), u.name) == Filter(nodes, Named(u.name));
    hide *;
    var found := Filter(nodes, Named(u.name));
    var b := BestIsLastOfTheHighest(found, u);
    HighestOf(nodes, u, found, b);
    BestChoice(c, u, Scan(nodes, files), found[b]);
  }

  lemma HighestOf(nodes: seq<NodeRef>, u: Ref, found: seq<NodeRef>, b: nat)
    requires found == Filter(nodes, Named(u.name)) && b < |found|
    requires forall i :: 0 <= i < |found| ==> Score(found[i], u) <= Score(found[b], u)
    ensures ScoresHighest(nodes, u, found[b])
  {
    hide Score, Filter;
    forall n ensures n in found <==> n in nodes && n.name == u.name { NamedMember(nodes, u.name, n); }
  }

  lemma BestChoice(c: Casing, u: Ref, x: Ctx, best: NodeRef)
    requires NoQualifiedTier(c, u, x) && |ByName(x, u.name)| >= 2 && FindBest(ByName(x, u.name), u) == Some(best)
    ensures MatchReference(c, u, x) == Some(Match(best, UpToNineTenths(Score(best, u))))
  {
    hide FilePathMatch, QualifiedNameMatch, MethodCallMatch, ByName, FindBest, Score;
  }

  lemma NamedMember(nodes: seq<NodeRef>, name: string, n: NodeRef)
    ensures n in Filter(nodes, Named(name)) <==> n in nodes && n.name == name
  {
    FilterMember(nodes, Named(name), n);
  }

  lemma {:induction false} TwoSelected<T>(s: seq<T>, keep: T -> bool, i: nat, j: nat)
    requires i < j < |s| && keep(s[i]) && keep(s[j])
    ensures |Filter(s, keep)| >= 2
    decreases |s|
  {
    var init := s[..|s|-1];
    if j < |init| {
      TwoSelected(init, keep, i, j);
    } else {
      FilterMember(init, keep, s[i]);
    }
  }

  /** No node of the name: the first function, method or class that has it in another case. */
  lemma OtherCaseIsMatched(c: Casing, u: Ref, nodes: seq<NodeRef>, files: seq<string>, k: nat)
    requires NoQualifiedTier(c, u, Scan(nodes, files)) && forall n :: n in nodes ==> n.name != u.name
    requires k < |nodes| && c.lower(nodes[k].name) == c.lower(u.name) && (IsCallableKind(nodes[k]) || nodes[k].kind == Class)
    requires forall i :: 0 <= i < k && c.lower(nodes[i].name) == c.lower(u.name) ==>
               !IsCallableKind(nodes[i]) && nodes[i].kind != Class
    ensures MatchReference(c, u, Scan(nodes, files)) == Some(Match(nodes[k], if LanguageMatches(nodes[k], u) then 0.5 else 0.3))
  {
    var lower, both := c.lower(u.name), (n: NodeRef) => c.lower(n.name) == c.lower(u.name) && FuzzyKind()(n);
    FilterNone(nodes, Named(u.name));
    FilterTwice(nodes, LowerNamed(c, lower), FuzzyKind(), both);
    FirstSelected(nodes, both, k);
    hide FilePathMatch, QualifiedNameMatch, MethodCallMatch, Filter, LanguageMatches;
  }

  // ----- what the score prefers --------------------------------------------------------------------

  /** The same file beats another one, whatever the kind, for nodes that agree on language. */
  lemma SameFileIsPreferred(m: NodeRef, n: NodeRef, u: Ref)
    requires m.filePath == u.filePath != n.filePath && LanguageMatches(m, u) == LanguageMatches(n, u)
    ensures Score(m, u) > Score(n, u)
  {
    hide LanguageMatches;
  }

  /** The same language beats another one, whatever the kind, line and visibility. */
  lemma SameLanguageIsPreferred(m: NodeRef, n: NodeRef, u: Ref)
    requires LanguageMatches(m, u) && !LanguageMatches(n, u) && (n.filePath == u.filePath ==> m.filePath == u.filePath)
    requires SaneLines(m, u) && SaneLines(n, u)
    ensures Score(m, u) > Score(n, u)
  {
    ProximityIsSmall(m, u);
    ProximityIsSmall(n, u);
    hide LanguageMatches, Proximity;
  }

  /** No line is beyond two to the 31st; the difference of lines is cast to 32 bits. */
  predicate SaneLines(n: NodeRef, u: Ref)
  {
    n.startLine < 0x8000_0000 && (u.line.Some? ==> u.line.value < 0x8000_0000)
  }

  lemma ProximityIsSmall(n: NodeRef, u: Ref)
    requires SaneLines(n, u)
    ensures 0 <= Proximity(n, u) <= 20
  {
  }

  /** Alike in file, line and language. */
  predicate Alike(m: NodeRef, n: NodeRef)
  {
    m.filePath == n.filePath && m.startLine == n.startLine && m.language == n.language
  }

  /** Otherwise the kind the reference asks for counts, and more than being exported. */
  lemma WantedKindIsPreferred(m: NodeRef, n: NodeRef, u: Ref)
    requires Alike(m, n)
    ensures u.kind == "calls" && IsCallableKind(m) && !IsCallableKind(n) ==> Score(m, u) > Score(n, u)
    ensures u.kind == "instantiates" && (m.kind == Class || m.kind == Struct) && n.kind != Class && n.kind != Struct ==>
              Score(m, u) > Score(n, u)
    ensures u.kind == "decorates" && m.kind == NodeKind.Function && n.kind != NodeKind.Function && n.isExported == m.isExported ==>
              Score(m, u) > Score(n, u)
    ensures u.kind == "decorates" && m.kind == Class && n.kind != NodeKind.Function && n.kind != Class ==>
              Score(m, u) > Score(n, u)
    ensures (u.kind != "calls" && u.kind != "instantiates" && u.kind != "decorates") || m.kind == n.kind ==>
              (m.isExported && !n.isExported ==> Score(m, u) == Score(n, u) + 10)
              && (m.isExported == n.isExported ==> Score(m, u) == Score(n, u))
  {
    assert LanguageMatches(m, u) == LanguageMatches(n, u) && Proximity(m, u) == Proximity(n, u);
    hide LanguageMatches, Proximity;
  }

  /** In the file of the reference the nearer line counts, within twenty lines. */
  lemma NearerLineIsPreferred(m: NodeRef, n: NodeRef, u: Ref, near: nat, far: nat)
    requires m == n.(startLine := m.startLine) && m.filePath == u.filePath && u.line.Some? && near < far <= 20
    requires m.startLine == u.line.value + near || u.line.value == m.startLine + near
    requires n.startLine == u.line.value + far || u.line.value == n.startLine + far
    ensures Score(m, u) == Score(n, u) + (far - near)
  {
    hide LanguageGroup, GroupOfFile;
  }

  /** The value of a plain case: a callable of another file and language scores -55 for a
      call, one of the same file and language without a line 175. */
  lemma ScoreValues(n: NodeRef, u: Ref)
    requires u.kind == "calls" && u.line.None? && IsCallableKind(n) && !n.isExported
    ensures n.filePath != u.filePath && !LanguageMatches(n, u) ==> Score(n, u) == -55
    ensures n.filePath == u.filePath && LanguageMatches(n, u) ==> Score(n, u) == 175
  {
    hide LanguageMatches;
  }

  /** Which languages a file speaks, by its extension; references without a file accept all. */
  lemma LanguagesOfFiles(n: NodeRef, u: Ref)
    ensures u.filePath == "" ==> LanguageMatches(n, u)
    ensures (EndsIn(u.filePath, ".ts") || EndsIn(u.filePath, ".tsx") || EndsIn(u.filePath, ".js") || EndsIn(u.filePath, ".jsx")) ==>
              (LanguageMatches(n, u) <==> n.language == TypeScript || n.language == JavaScript)
    ensures EndsIn(u.filePath, ".py") ==> (LanguageMatches(n, u) <==> n.language == Python)
    ensures EndsIn(u.filePath, ".go") ==> (LanguageMatches(n, u) <==> n.language == Go)
    ensures EndsIn(u.filePath, ".rs") ==> (LanguageMatches(n, u) <==> n.language == Rust)
    ensures (EndsIn(u.filePath, ".java") || EndsIn(u.filePath, ".kt")) ==>
              (LanguageMatches(n, u) <==> n.language == Java || n.language == Kotlin)
    ensures (EndsIn(u.filePath, ".cs") || EndsIn(u.filePath, ".razor")) ==>
              (LanguageMatches(n, u) <==> n.language == CSharp || n.language == Razor)
    ensures EndsIn(u.filePath, ".rb") ==> (LanguageMatches(n, u) <==> n.language == Language.Ruby)
    ensures EndsIn(u.filePath, ".php") ==> (LanguageMatches(n, u) <==> n.language == Language.Php)
  {
    GroupsOfFiles(u.filePath);
    hide GroupOfFile, EndsIn;
  }

  lemma GroupsOfFiles(path: string)
    ensures (EndsIn(path, ".ts") || EndsIn(path, ".tsx") || EndsIn(path, ".js") || EndsIn(path, ".jsx")) ==> GroupOfFile(path) == 0
    ensures EndsIn(path, ".py") ==> GroupOfFile(path) == 1
    ensures EndsIn(path, ".go") ==> GroupOfFile(path) == 2
    ensures EndsIn(path, ".rs") ==> GroupOfFile(path) == 3
    ensures (EndsIn(path, ".java") || EndsIn(path, ".kt")) ==> GroupOfFile(path) == 4
    ensures (EndsIn(path, ".cs") || EndsIn(path, ".razor")) ==> GroupOfFile(path) == 5
    ensures EndsIn(path, ".rb") ==> GroupOfFile(path) == 6
    ensures EndsIn(path, ".php") ==> GroupOfFile(path) == 7
    ensures path == "" ==> GroupOfFile(path) == 255
  {
    hide EndsIn, EndsWith;
    Extension(path, ".ts");
    Extension(path, ".tsx");
    Extension(path, ".js");
    Extension(path, ".jsx");
    Extension(path, ".py");
    Extension(path, ".go");
    Extension(path, ".rs");
    Extension(path, ".java");
    Extension(path, ".kt");
    Extension(path, ".cs");
    Extension(path, ".razor");
    Extension(path, ".rb");
    Extension(path, ".php");
  }

  /** An extension, by its last three characters. */
  lemma Extension(path: string, e: string)
    requires |e| >= 3
    ensures EndsWith(path, e) <==> EndsIn(path, e)
    ensures EndsWith(path, e) ==> |path| >= |e| && path[|path|-1] == e[|e|-1] && path[|path|-2] == e[|e|-2] && path[|path|-3] == e[|e|-3]
  {
    if EndsWith(path, e) {
      assert path == path[..|path|-|e|] + e;
    }
    if front :| path == front + e { assert path[|path|-|e|..] == e; }
  }

  // ----- the pre-filter ----------------------------------------------------------------------------

  /** A dotted name passes when a node or an import has it, its receiver, with or without a
      capital, or what follows the first dot. */
  lemma DottedNamePasses(c: Casing, known: set<string>, receiver: string, member: string, imported: bool)
    requires '.' !in receiver && receiver != "" && '/' !in receiver + member && NoColons(receiver + "." + member)
    ensures PassesGuard(c, known, receiver + "." + member, imported)
            <==> imported || receiver + "." + member in known || receiver in known || member in known
                 || c.upper(receiver[0]) + receiver[1..] in known
  {
    var name := receiver + "." + member;
    FirstIndexIs(name, 0, '.', |receiver|);
    assert name[..|receiver|] == receiver && name[|receiver|+1..] == member;
    NoFirstColons(name, 0);
    NoLastIndex(name, '/');
    hide NoColons;
  }

  /** A name with colons passes when a node or an import has it, or what stands before or
      after the first colons. */
  lemma ColonNamePasses(c: Casing, known: set<string>, receiver: string, member: string, imported: bool)
    requires NoColons(receiver + ":") && '.' !in receiver + member && '/' !in receiver + member
    ensures PassesGuard(c, known, receiver + "::" + member, imported)
            <==> imported || receiver + "::" + member in known || receiver in known || member in known
  {
    var name := receiver + "::" + member;
    SplitAtColons(receiver, member);
    NoFirstIndex(name, 0, '.');
    NoLastIndex(name, '/');
    hide NoColons;
  }

  /** A path passes when a node or an import has it or its last part. */
  lemma PathNamePasses(c: Casing, known: set<string>, dir: string, file: string, imported: bool)
    requires '/' !in file && '.' !in dir + file && NoColons(dir + "/" + file)
    ensures PassesGuard(c, known, dir + "/" + file, imported) <==> imported || dir + "/" + file in known || file in known
  {
    var name := dir + "/" + file;
    LastIndexIs(dir, '/', file);
    assert name[|dir|+1..] == file;
    NoFirstIndex(name, 0, '.');
    NoFirstColons(name, 0);
    hide NoColons;
  }

  /** Farther apart the difference of lines, cast to 32 bits, turns negative and counts: a
      node of another language wins by a line that is nowhere near. */
  lemma FarLineOutweighsLanguage(m: NodeRef, n: NodeRef, u: Ref)
    requires u.line == Some(0) && m.startLine == 0 && n.startLine == 0xFFFF_FF00
    requires m.filePath == u.filePath == n.filePath && LanguageMatches(m, u) && !LanguageMatches(n, u)
    requires m.kind == n.kind && m.isExported == n.isExported
    ensures Score(n, u) == Score(m, u) + 126
  {
    hide LanguageMatches;
  }
}
