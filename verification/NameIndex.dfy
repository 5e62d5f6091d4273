/** Warming the resolver: one pass over the node list builds four indexes, which the name
    matcher then reads instead of scanning; and the pre-filter in front of the matcher. */
module NameIndex {
  import opened Graph
  import opened Seqs
  import opened NameMatcher

  /** `entry(key).or_default().push(n)` */
  function Add(index: Index, key: string, n: NodeRef): Index { index[key := Get(index, key) + [n]] }

  /** The index holds, for every key, the nodes with that key in list order, and no key
      without nodes. `key` gives a node's key and `indexed` leaves nodes out. */
  ghost predicate IndexOf(index: Index, nodes: seq<NodeRef>, key: NodeRef -> string, indexed: NodeRef -> bool)
  {
    && (forall s :: Get(index, s) == Filter(nodes, Under(key, indexed, s)))
    && (forall s :: s in index ==> index[s] != [])
  }

  function Under(key: NodeRef -> string, indexed: NodeRef -> bool, s: string): NodeRef -> bool
  {
    (n: NodeRef) => indexed(n) && key(n) == s
  }

  function NameKey(): NodeRef -> string { (n: NodeRef) => n.name }

  function LowerKey(c: Casing): NodeRef -> string { (n: NodeRef) => c.lower(n.name) }

  function QualifiedKey(): NodeRef -> string { (n: NodeRef) => n.qualifiedName }

  function PathKey(): NodeRef -> string { (n: NodeRef) => n.filePath }

  function Every(): NodeRef -> bool { (n: NodeRef) => true }

  function HasQualifiedName(): NodeRef -> bool { (n: NodeRef) => n.qualifiedName != "" }

  lemma AddKeepsIndex(index: Index, nodes: seq<NodeRef>, n: NodeRef, key: NodeRef -> string, indexed: NodeRef -> bool)
    requires IndexOf(index, nodes, key, indexed)
    ensures IndexOf(if indexed(n) then Add(index, key(n), n) else index, nodes + [n], key, indexed)
  {
    var after := if indexed(n) then Add(index, key(n), n) else index;
    forall s ensures Get(after, s) == Filter(nodes + [n], Under(key, indexed, s)) {
      FilterAppend(nodes, n, Under(key, indexed, s));
    }
  }

  datatype Warm = Warm(
    known: set<string>, names: Index, lowerNames: Index, qualifiedNames: Index, inFile: Index)

  ghost predicate WarmFor(c: Casing, w: Warm, nodes: seq<NodeRef>)
  {
    && w.known == (set n | n in nodes :: n.name)
    && IndexOf(w.names, nodes, NameKey(), Every())
    && IndexOf(w.lowerNames, nodes, LowerKey(c), Every())
    && IndexOf(w.qualifiedNames, nodes, QualifiedKey(), HasQualifiedName())
    && IndexOf(w.inFile, nodes, PathKey(), Every())
  }

  function WarmStep(c: Casing, w: Warm, n: NodeRef): Warm
  {
    Warm(w.known + {n.name}, Add(w.names, n.name, n), Add(w.lowerNames, c.lower(n.name), n),
         if n.qualifiedName != "" then Add(w.qualifiedNames, n.qualifiedName, n) else w.qualifiedNames,
         Add(w.inFile, n.filePath, n))
  }

  lemma WarmStepKeeps(c: Casing, w: Warm, nodes: seq<NodeRef>, n: NodeRef)
    requires WarmFor(c, w, nodes)
    ensures WarmFor(c, WarmStep(c, w, n), nodes + [n])
  {
    AddKeepsIndex(w.names, nodes, n, NameKey(), Every());
    AddKeepsIndex(w.lowerNames, nodes, n, LowerKey(c), Every());
    AddKeepsIndex(w.qualifiedNames, nodes, n, QualifiedKey(), HasQualifiedName());
    AddKeepsIndex(w.inFile, nodes, n, PathKey(), Every());
    hide IndexOf, Add;
    assert forall m :: m in nodes + [n] <==> m in nodes || m == n;
  }

  /** The build loop. Interning replaces a path by an equal one. */
  method WarmCaches(c: Casing, nodes: seq<NodeRef>) returns (w: Warm)
    ensures WarmFor(c, w, nodes)
  {
    hide IndexOf, Add;
    var known, names, lowerNames, qualifiedNames, inFile := {}, map[], map[], map[], map[];
    var interned: map<string, string> := map[];
    NothingIndexed(c);
    for i := 0 to |nodes|
      invariant forall p :: p in interned ==> interned[p] == p
      invariant WarmFor(c, Warm(known, names, lowerNames, qualifiedNames, inFile), nodes[..i])
    {
      var n := nodes[i];
      if n.filePath !in interned {
        interned := interned[n.filePath := n.filePath];
      }
      n := n.(filePath := interned[n.filePath]);
      WarmStepKeeps(c, Warm(known, names, lowerNames, qualifiedNames, inFile), nodes[..i], n);
      assert nodes[..i+1] == nodes[..i] + [nodes[i]];
      known := known + {n.name};
      names := Add(names, n.name, n);
      lowerNames := Add(lowerNames, c.lower(n.name), n);
      if n.qualifiedName != "" {
        qualifiedNames := Add(qualifiedNames, n.qualifiedName, n);
      }
      inFile := Add(inFile, n.filePath, n);
    }
    assert nodes[..|nodes|] == nodes;
    w := Warm(known, names, lowerNames, qualifiedNames, inFile);
  }

  lemma NothingIndexed(c: Casing)
    ensures WarmFor(c, Warm({}, map[], map[], map[], map[]), [])
  {
  }

  // ----- indexed lookups are scans ---------------------------------------------------------

  /** The keys of the file index in some order. */
  ghost predicate ListsKeys(files: seq<string>, index: Index)
  {
    multiset(files) == multiset(index.Keys)
  }

  /** The scanned file list: each path that has a node, once. */
  ghost predicate ListsPaths(files: seq<string>, nodes: seq<NodeRef>)
  {
    multiset(files) == multiset(set n | n in nodes :: n.filePath)
  }

  lemma {:induction false} FilterSameOn(nodes: seq<NodeRef>, a: NodeRef -> bool, b: NodeRef -> bool)
    requires forall n :: n in nodes ==> a(n) == b(n)
    ensures Filter(nodes, a) == Filter(nodes, b)
  {
    if |nodes| > 0 { FilterSameOn(nodes[..|nodes|-1], a, b); }
  }

  lemma KeysAreKeys(index: Index, nodes: seq<NodeRef>, key: NodeRef -> string, s: string)
    requires IndexOf(index, nodes, key, Every())
    ensures s in index <==> exists n :: n in nodes && key(n) == s
  {
    var under := Under(key, Every(), s);
    if s in index {
      var n := index[s][0];
      assert index[s] == Get(index, s) == Filter(nodes, under);
      FilterMember(nodes, under, n);
    }
    forall n | n in nodes && key(n) == s ensures s in index {
      FilterMember(nodes, under, n);
      assert n in Get(index, s);
    }
  }

  lemma LookupsAgree(c: Casing, w: Warm, nodes: seq<NodeRef>, s: string)
    requires WarmFor(c, w, nodes)
    ensures Get(w.names, s) == Filter(nodes, Named(s))
    ensures Get(w.lowerNames, s) == Filter(nodes, LowerNamed(c, s))
    ensures s != "" ==> Get(w.qualifiedNames, s) == Filter(nodes, QualifiedAs(s))
    ensures Get(w.inFile, s) == Filter(nodes, InPath(s))
  {
    FilterSameOn(nodes, Under(NameKey(), Every(), s), Named(s));
    FilterSameOn(nodes, Under(LowerKey(c), Every(), s), LowerNamed(c, s));
    if s != "" { FilterSameOn(nodes, Under(QualifiedKey(), HasQualifiedName(), s), QualifiedAs(s)); }
    FilterSameOn(nodes, Under(PathKey(), Every(), s), InPath(s));
    hide Filter;
  }

  /** Matching through the warm indexes is matching by scans of the node list: same node,
      same confidence, whatever order the maps yield their keys in. */
  lemma IndexedMatchIsScanMatch(c: Casing, w: Warm, nodes: seq<NodeRef>, keys: seq<string>, paths: seq<string>, u: Ref)
    requires WarmFor(c, w, nodes) && ListsKeys(keys, w.inFile) && ListsPaths(paths, nodes)
    ensures MatchReference(c, u, Indexed(w.names, w.lowerNames, w.qualifiedNames, w.inFile, keys))
         == MatchReference(c, u, Scan(nodes, paths))
  {
    var x, y := Indexed(w.names, w.lowerNames, w.qualifiedNames, w.inFile, keys), Scan(nodes, paths);
    forall s ensures ByName(x, s) == ByName(y, s) && ByLowerName(c, x, s) == ByLowerName(c, y, s)
                     && (s != "" ==> ByQualifiedName(x, s) == ByQualifiedName(y, s)) && InFile(x, s) == InFile(y, s)
    {
      LookupsAgree(c, w, nodes, s);
    }
    forall s ensures s in w.inFile <==> s in set n | n in nodes :: n.filePath { KeysAreKeys(w.inFile, nodes, PathKey(), s); }
    assert w.inFile.Keys == set n | n in nodes :: n.filePath;
    AgreeingContextsMatchAlike(c, u, x, y);
  }

  /** A scan context lists the rows of the files table, which may name a file without nodes.
      One more file that qualifies hides a match the indexed context finds. */
  lemma OneMoreFileHidesMatch(name: string, nodes: seq<NodeRef>, files: seq<string>, only: string, extra: string)
    requires ('/' in name || ('.' in name && !HasColons(name))) && name !in files && name != extra
    requires Filter(files, PathSuffix(name)) == [only] && InFile(Scan(nodes, files), only) != []
    requires FileNamed(FileNameOf(name))(only)
    requires PathSuffix(name)(extra) && FileNamed(FileNameOf(name))(extra)
    ensures FilePathMatch(name, Scan(nodes, files)) == Some(Match(InFile(Scan(nodes, files), only)[0], 0.85))
    ensures FilePathMatch(name, Scan(nodes, files + [extra])).None?
  {
    FilterAppend(files, extra, PathSuffix(name));
    FilterAppend(files, extra, FileNamed(FileNameOf(name)));
    FilterMember(files, PathSuffix(name), only);
    FilterMember(files, FileNamed(FileNameOf(name)), only);
    hide Filter, FileNameOf, HasColons, PathSuffix, FileNamed;
    assert |Filter(files, FileNamed(FileNameOf(name)))| > 0;
  }

  // ----- the pre-filter -----------------------------------------------------------------------

  /** The name, or a part of it around `.`, `::` or the last `/`, is the name of a node. */
  predicate HasAnyPossibleMatch(c: Casing, known: set<string>, name: string)
  {
    || name in known
    || (match FirstIndex(name, 0, '.')
        case Some(k) => name[..k] in known || name[k+1..] in known || Capitalize(c, name[..k]) in known
        case None => false)
    || (match FirstColons(name, 0) case Some(k) => name[..k] in known || name[k+2..] in known case None => false)
    || (match LastIndex(name, '/') case Some(k) => name[k+1..] in known case None => false)
  }

  /** The guard of a resolution; `imported` says that an import of the reference's file,
      taken from the cache of file texts, brings the name in. */
  predicate PassesGuard(c: Casing, known: set<string>, name: string, imported: bool)
  {
    HasAnyPossibleMatch(c, known, name) || imported
  }

  /** A plain name, without `.`, `::` or `/`, passes the guard exactly when some node has
      it or it is imported. When a node has it, it is matched by the exact-name tier: the
      case-insensitive tier sees a plain name only by an import. */
  lemma PlainNamesAreMatchedExactly(c: Casing, w: Warm, nodes: seq<NodeRef>, u: Ref, paths: seq<string>, imported: bool)
    requires WarmFor(c, w, nodes) && '.' !in u.name && '/' !in u.name && ':' !in u.name
    ensures PassesGuard(c, w.known, u.name, imported) <==> imported || exists n :: n in nodes && n.name == u.name
    ensures (exists n :: n in nodes && n.name == u.name) ==>
              MatchReference(c, u, Scan(nodes, paths)) == ExactNameMatch(u.name, u, Scan(nodes, paths))
              && MatchReference(c, u, Scan(nodes, paths)).Some?
              && MatchReference(c, u, Scan(nodes, paths)).value.node.name == u.name
  {
    if n :| n in nodes && n.name == u.name {
      var found := Filter(nodes, Named(u.name));
      FilterMember(nodes, Named(u.name), n);
      var k := BestIsLastOfTheHighest(found, u);
      FilterMember(nodes, Named(u.name), found[k]);
      FilterMember(nodes, Named(u.name), found[0]);
      hide FindBest, Filter, Score;
    }
  }
}
