/** Structural `implements` edges for Go: an inventory of exported interfaces and concrete
    types with their method sets per package, and the edges of every type that covers an
    interface. What the regexes find in each file is an input. */
module GoInterfaces {
  import opened Graph

  datatype MethodSig = MethodSig(name: string, arity: nat)

  datatype NodeRef = NodeRef(id: string, name: string, kind: NodeKind, isGo: bool, filePath: string, isExported: bool)

  type MethodSets = map<string, set<MethodSig>>

  /** The exported methods of one file, by receiver type and by interface. */
  datatype ParsedGoFile = ParsedGoFile(receivers: MethodSets, interfaces: MethodSets)

  datatype TypeInfo = TypeInfo(id: string, name: string, methods: set<MethodSig>)

  datatype Index = Index(interfaces: seq<TypeInfo>, concreteTypes: seq<TypeInfo>)

  datatype ImplementsEdge = ImplementsEdge(source: string, target: string, confidence: real)

  const CONFIDENCE_MULTI_METHOD: real := 0.75
  const CONFIDENCE_SINGLE_METHOD: real := 0.55

  // ----- what an edge means -----------------------------------------------------------------

  /** The directory of a file: everything before its last separator. */
  function PackageDir(path: string): string
  {
    if |path| == 0 then ""
    else if path[|path|-1] == '/' || path[|path|-1] == '\\' then path[..|path|-1]
    else PackageDir(path[..|path|-1])
  }

  predicate IsInterface(n: NodeRef) { n.isGo && n.isExported && n.kind.Interface? }

  predicate IsConcrete(n: NodeRef) { n.isGo && n.isExported && (n.kind.Struct? || n.kind.Enum? || n.kind.Type?) }

  predicate IsGoFile(nodes: seq<NodeRef>, file: string) { exists n :: n in nodes && n.isGo && n.filePath == file }

  function Has(sets: MethodSets, ty: string): set<MethodSig> { if ty in sets then sets[ty] else {} }

  function SetsOf(p: ParsedGoFile, ofInterfaces: bool): MethodSets { if ofInterfaces then p.interfaces else p.receivers }

  /** The methods of a type over a set of files of its package. */
  function MethodsIn(files: map<string, ParsedGoFile>, pkg: string, ty: string, ofInterfaces: bool): set<MethodSig>
  {
    set f, m | f in files && PackageDir(f) == pkg && m in Has(SetsOf(files[f], ofInterfaces), ty) :: m
  }

  /** The Go files of the graph that could be read. */
  function GoFiles(nodes: seq<NodeRef>, sources: map<string, ParsedGoFile>): map<string, ParsedGoFile>
  {
    map f | f in sources && IsGoFile(nodes, f) :: sources[f]
  }

  function MethodsOf(nodes: seq<NodeRef>, sources: map<string, ParsedGoFile>, n: NodeRef): set<MethodSig>
  {
    MethodsIn(GoFiles(nodes, sources), PackageDir(n.filePath), n.name, n.kind.Interface?)
  }

  /** The type covers the interface: every method it asks for, and it asks for one. */
  predicate Covers(nodes: seq<NodeRef>, sources: map<string, ParsedGoFile>, ty: NodeRef, iface: NodeRef)
  {
    && IsConcrete(ty) && IsInterface(iface) && ty.id != iface.id
    && MethodsOf(nodes, sources, iface) != {}
    && MethodsOf(nodes, sources, iface) <= MethodsOf(nodes, sources, ty)
  }

  function Confidence(methods: set<MethodSig>): real
  {
    if |methods| >= 2 then CONFIDENCE_MULTI_METHOD else CONFIDENCE_SINGLE_METHOD
  }

  function EdgeOf(nodes: seq<NodeRef>, sources: map<string, ParsedGoFile>, ty: NodeRef, iface: NodeRef): ImplementsEdge
  {
    ImplementsEdge(ty.id, iface.id, Confidence(MethodsOf(nodes, sources, iface)))
  }

  // ----- what the index and the edges are -----------------------------------------------------

  function InfoOf(nodes: seq<NodeRef>, sources: map<string, ParsedGoFile>, n: NodeRef): TypeInfo
  {
    TypeInfo(n.id, n.name, MethodsOf(nodes, sources, n))
  }

  /** The inventory of a list of nodes, in order, without those that have no method. */
  function Infos(nodes: seq<NodeRef>, sources: map<string, ParsedGoFile>, some: seq<NodeRef>): seq<TypeInfo>
  {
    if |some| == 0 then []
    else
      var n := some[|some|-1];
      Infos(nodes, sources, some[..|some|-1])
      + if MethodsOf(nodes, sources, n) == {} then [] else [InfoOf(nodes, sources, n)]
  }

  function Pick(nodes: seq<NodeRef>, interfaces: bool): seq<NodeRef>
  {
    if |nodes| == 0 then []
    else
      var n := nodes[|nodes|-1];
      Pick(nodes[..|nodes|-1], interfaces) + if (if interfaces then IsInterface(n) else IsConcrete(n)) then [n] else []
  }

  function IndexOf(nodes: seq<NodeRef>, sources: map<string, ParsedGoFile>): Index
  {
    if Pick(nodes, true) == [] || Pick(nodes, false) == [] then Index([], [])
    else Index(Infos(nodes, sources, Pick(nodes, true)), Infos(nodes, sources, Pick(nodes, false)))
  }

  function EdgesTo(iface: TypeInfo, types: seq<TypeInfo>): seq<ImplementsEdge>
  {
    if |types| == 0 then []
    else
      var ty := types[|types|-1];
      EdgesTo(iface, types[..|types|-1])
      + if ty.id != iface.id && iface.methods <= ty.methods
        then [ImplementsEdge(ty.id, iface.id, Confidence(iface.methods))] else []
  }

  function EdgesOf(interfaces: seq<TypeInfo>, types: seq<TypeInfo>): seq<ImplementsEdge>
  {
    if |interfaces| == 0 then []
    else EdgesOf(interfaces[..|interfaces|-1], types) + EdgesTo(interfaces[|interfaces|-1], types)
  }

  // ----- the code ------------------------------------------------------------------------------

  type PackageMethods = map<(string, string), set<MethodSig>>

  function Got(agg: PackageMethods, pkg: string, ty: string): set<MethodSig>
  {
    if (pkg, ty) in agg then agg[(pkg, ty)] else {}
  }

  method GatherNodes(nodes: seq<NodeRef>)
    returns (interfaces: seq<NodeRef>, concrete: seq<NodeRef>, goFiles: set<string>)
    ensures interfaces == Pick(nodes, true) && concrete == Pick(nodes, false)
    ensures forall f :: f in goFiles <==> IsGoFile(nodes, f)
  {
    interfaces, concrete, goFiles := [], [], {};
    for i := 0 to |nodes|
      invariant interfaces == Pick(nodes[..i], true) && concrete == Pick(nodes[..i], false)
      invariant forall f :: f in goFiles <==> IsGoFile(nodes[..i], f)
    {
      var n := nodes[i];
      assert nodes[..i+1][..i] == nodes[..i];
      GoFilePush(nodes[..i], n);
      assert nodes[..i+1] == nodes[..i] + [n];
      if n.isGo {
        goFiles := goFiles + {n.filePath};
        if n.kind.Interface? && n.isExported {
          interfaces := interfaces + [n];
        } else if (n.kind.Struct? || n.kind.Enum? || n.kind.Type?) && n.isExported {
          concrete := concrete + [n];
        }
      }
    }
    assert nodes[..|nodes|] == nodes;
  }

  lemma GoFilePush(nodes: seq<NodeRef>, n: NodeRef)
    ensures forall f :: IsGoFile(nodes + [n], f) <==> IsGoFile(nodes, f) || (n.isGo && n.filePath == f)
  {
    assert forall m :: m in nodes + [n] <==> m in nodes || m == n;
  }

  /** Reads each Go file once, in any order. */
  method ParseFiles(goFiles: set<string>, sources: map<string, ParsedGoFile>) returns (parsed: map<string, ParsedGoFile>)
    ensures parsed == map f | f in sources && f in goFiles :: sources[f]
  {
    parsed := map[];
    var rest := goFiles;
    while rest != {}
      invariant rest <= goFiles
      invariant parsed == map f | f in sources && f in goFiles && f !in rest :: sources[f]
      decreases |rest|
    {
      var f :| f in rest;
      rest := rest - {f};
      if f in sources {
        parsed := parsed[f := sources[f]];
      }
    }
  }

  lemma GotAfter(agg: PackageMethods, pkg: string, ty: string, more: set<MethodSig>)
    ensures forall p, t :: Got(agg[(pkg, ty) := Got(agg, pkg, ty) + more], p, t)
                        == Got(agg, p, t) + if p == pkg && t == ty then more else {}
  {
  }

  /** Adds one file's sets to the sets of its package. */
  method AddFile(agg: PackageMethods, pkg: string, sets: MethodSets) returns (r: PackageMethods)
    ensures forall p, ty :: Got(r, p, ty) == Got(agg, p, ty) + if p == pkg then Has(sets, ty) else {}
  {
    hide Got;
    r := agg;
    var rest := sets.Keys;
    while rest != {}
      invariant rest <= sets.Keys
      invariant forall p, ty ::
                  Got(r, p, ty) == Got(agg, p, ty) + if p == pkg && ty !in rest then Has(sets, ty) else {}
      decreases |rest|
    {
      var ty :| ty in rest;
      rest := rest - {ty};
      GotAfter(r, pkg, ty, sets[ty]);
      r := r[(pkg, ty) := Got(r, pkg, ty) + sets[ty]];
    }
  }

  lemma MethodsGrow(files: map<string, ParsedGoFile>, done: set<string>, f: string, pkg: string, ty: string, ofInterfaces: bool)
    requires f in files
    ensures MethodsIn(Restrict(files, done + {f}), pkg, ty, ofInterfaces)
         == MethodsIn(Restrict(files, done), pkg, ty, ofInterfaces)
            + if pkg == PackageDir(f) then Has(SetsOf(files[f], ofInterfaces), ty) else {}
  {
    var all := MethodsIn(Restrict(files, done + {f}), pkg, ty, ofInterfaces);
    var some := MethodsIn(Restrict(files, done), pkg, ty, ofInterfaces);
    var more := if pkg == PackageDir(f) then Has(SetsOf(files[f], ofInterfaces), ty) else {};
    forall m | m in all ensures m in some + more {
      var g :| g in Restrict(files, done + {f}) && PackageDir(g) == pkg && m in Has(SetsOf(files[g], ofInterfaces), ty);
      assert g != f ==> g in Restrict(files, done);
    }
    forall m | m in some + more ensures m in all {
      if m in some {
        var g :| g in Restrict(files, done) && PackageDir(g) == pkg && m in Has(SetsOf(files[g], ofInterfaces), ty);
        assert g in Restrict(files, done + {f});
      } else {
        assert f in Restrict(files, done + {f});
      }
    }
  }

  function Restrict(files: map<string, ParsedGoFile>, done: set<string>): map<string, ParsedGoFile>
  {
    map f | f in files && f in done :: files[f]
  }

  ghost predicate Aggregates(agg: PackageMethods, files: map<string, ParsedGoFile>, ofInterfaces: bool)
  {
    forall pkg, ty :: Got(agg, pkg, ty) == MethodsIn(files, pkg, ty, ofInterfaces)
  }

  lemma AggregateStep(agg: PackageMethods, more: PackageMethods, files: map<string, ParsedGoFile>, done: set<string>,
                      f: string, ofInterfaces: bool)
    requires f in files && Aggregates(agg, Restrict(files, done), ofInterfaces)
    requires forall p, ty :: Got(more, p, ty)
                          == Got(agg, p, ty) + if p == PackageDir(f) then Has(SetsOf(files[f], ofInterfaces), ty) else {}
    ensures Aggregates(more, Restrict(files, done + {f}), ofInterfaces)
  {
    forall p, ty ensures Got(more, p, ty) == MethodsIn(Restrict(files, done + {f}), p, ty, ofInterfaces) {
      MethodsGrow(files, done, f, p, ty, ofInterfaces);
    }
  }

  /** Methods may be spread over the files of a package: they are merged in any order. */
  method AggregatePackages(parsed: map<string, ParsedGoFile>) returns (receivers: PackageMethods, interfaces: PackageMethods)
    ensures Aggregates(receivers, parsed, false) && Aggregates(interfaces, parsed, true)
  {
    receivers, interfaces := map[], map[];
    ghost var done := {};
    var rest := parsed.Keys;
    while rest != {}
      invariant rest !! done && rest + done == parsed.Keys
      invariant Aggregates(receivers, Restrict(parsed, done), false) && Aggregates(interfaces, Restrict(parsed, done), true)
      decreases |rest|
    {
      var f :| f in rest;
      rest := rest - {f};
      var r := AddFile(receivers, PackageDir(f), parsed[f].receivers);
      var i := AddFile(interfaces, PackageDir(f), parsed[f].interfaces);
      AggregateStep(receivers, r, parsed, done, f, false);
      AggregateStep(interfaces, i, parsed, done, f, true);
      receivers, interfaces, done := r, i, done + {f};
    }
    assert Restrict(parsed, done) == parsed;
  }

  method TakeInventory(nodes: seq<NodeRef>, sources: map<string, ParsedGoFile>, some: seq<NodeRef>, agg: PackageMethods,
                       ofInterfaces: bool) returns (infos: seq<TypeInfo>)
    requires Aggregates(agg, GoFiles(nodes, sources), ofInterfaces)
    requires forall n :: n in some ==> n.kind.Interface? == ofInterfaces
    ensures infos == Infos(nodes, sources, some)
  {
    infos := [];
    for i := 0 to |some|
      invariant infos == Infos(nodes, sources, some[..i])
    {
      var n := some[i];
      assert n in some && some[..i+1][..i] == some[..i];
      var methods := Got(agg, PackageDir(n.filePath), n.name);
      if methods != {} {
        infos := infos + [TypeInfo(n.id, n.name, methods)];
      }
    }
    assert some[..|some|] == some;
  }

  /** The index does not depend on the order in which files are parsed or merged. */
  method Build(nodes: seq<NodeRef>, sources: map<string, ParsedGoFile>) returns (index: Index)
    ensures index == IndexOf(nodes, sources)
  {
    var interfaces, concrete, goFiles := GatherNodes(nodes);
    if |interfaces| == 0 || |concrete| == 0 {
      return Index([], []);
    }
    var parsed := ParseFiles(goFiles, sources);
    assert parsed == GoFiles(nodes, sources);
    var receivers, requirements := AggregatePackages(parsed);
    PickedAre(nodes, true);
    PickedAre(nodes, false);
    var required := TakeInventory(nodes, sources, interfaces, requirements, true);
    var provided := TakeInventory(nodes, sources, concrete, receivers, false);
    return Index(required, provided);
  }

  method Synthesize(index: Index) returns (edges: seq<ImplementsEdge>)
    ensures edges == EdgesOf(index.interfaces, index.concreteTypes)
  {
    edges := [];
    for i := 0 to |index.interfaces|
      invariant edges == EdgesOf(index.interfaces[..i], index.concreteTypes)
    {
      var iface := index.interfaces[i];
      assert index.interfaces[..i+1][..i] == index.interfaces[..i];
      ghost var before := edges;
      for j := 0 to |index.concreteTypes|
        invariant edges == before + EdgesTo(iface, index.concreteTypes[..j])
      {
        var ty := index.concreteTypes[j];
        assert index.concreteTypes[..j+1][..j] == index.concreteTypes[..j];
        if ty.id != iface.id {
          if iface.methods <= ty.methods {
            edges := edges + [ImplementsEdge(ty.id, iface.id, Confidence(iface.methods))];
          }
        }
      }
      assert index.concreteTypes[..|index.concreteTypes|] == index.concreteTypes;
    }
    assert index.interfaces[..|index.interfaces|] == index.interfaces;
  }

  method SynthesizeFromNodes(nodes: seq<NodeRef>, sources: map<string, ParsedGoFile>) returns (edges: seq<ImplementsEdge>)
    ensures forall e :: e in edges <==>
              exists ty, iface :: ty in nodes && iface in nodes && Covers(nodes, sources, ty, iface)
                                  && e == EdgeOf(nodes, sources, ty, iface)
    ensures (forall i, j :: 0 <= i < j < |nodes| ==> nodes[i].id != nodes[j].id) ==>
              forall i, j :: 0 <= i < j < |edges| ==>
                edges[i].source != edges[j].source || edges[i].target != edges[j].target
  {
    var index := Build(nodes, sources);
    edges := Synthesize(index);
    forall e ensures e in edges <==> exists ty, iface :: ty in nodes && iface in nodes && Covers(nodes, sources, ty, iface)
                                                         && e == EdgeOf(nodes, sources, ty, iface)
    {
      SoundAndComplete(nodes, sources, e);
    }
    if forall i, j :: 0 <= i < j < |nodes| ==> nodes[i].id != nodes[j].id {
      OnceForEachPair(nodes, sources);
    }
  }

  // ----- sound and complete ------------------------------------------------------------------------

  lemma {:induction false} PickedAre(nodes: seq<NodeRef>, interfaces: bool)
    ensures forall n :: n in Pick(nodes, interfaces) <==> n in nodes && if interfaces then IsInterface(n) else IsConcrete(n)
  {
    if |nodes| > 0 {
      PickedAre(nodes[..|nodes|-1], interfaces);
      assert nodes == nodes[..|nodes|-1] + [nodes[|nodes|-1]];
    }
  }

  lemma {:induction false} InfosAre(nodes: seq<NodeRef>, sources: map<string, ParsedGoFile>, some: seq<NodeRef>, info: TypeInfo)
    ensures info in Infos(nodes, sources, some) <==>
            exists n :: n in some && info == InfoOf(nodes, sources, n) && info.methods != {}
  {
    if |some| > 0 {
      InfosAre(nodes, sources, some[..|some|-1], info);
      assert some == some[..|some|-1] + [some[|some|-1]];
    }
  }

  lemma {:induction false} EdgesToAre(iface: TypeInfo, types: seq<TypeInfo>, e: ImplementsEdge)
    ensures e in EdgesTo(iface, types) <==>
            exists ty :: ty in types && ty.id != iface.id && iface.methods <= ty.methods
                         && e == ImplementsEdge(ty.id, iface.id, Confidence(iface.methods))
  {
    if |types| > 0 {
      EdgesToAre(iface, types[..|types|-1], e);
      assert types == types[..|types|-1] + [types[|types|-1]];
    }
  }

  lemma {:induction false} EdgesAre(interfaces: seq<TypeInfo>, types: seq<TypeInfo>, e: ImplementsEdge)
    ensures e in EdgesOf(interfaces, types) <==> exists iface :: iface in interfaces && e in EdgesTo(iface, types)
  {
    if |interfaces| > 0 {
      var init, last := interfaces[..|interfaces|-1], interfaces[|interfaces|-1];
      EdgesAre(init, types, e);
      assert forall i :: i in interfaces <==> i in init || i == last by { assert interfaces == init + [last]; }
      assert e in EdgesOf(interfaces, types) <==> e in EdgesOf(init, types) || e in EdgesTo(last, types);
      hide EdgesOf, EdgesTo;
      if e in EdgesOf(init, types) {
        var i :| i in init && e in EdgesTo(i, types);
        assert i in interfaces;
      } else if e in EdgesTo(last, types) {
        assert last in interfaces;
      }
    }
  }

  /** An edge is synthesized exactly for a covering pair. */
  lemma SoundAndComplete(nodes: seq<NodeRef>, sources: map<string, ParsedGoFile>, e: ImplementsEdge)
    ensures var index := IndexOf(nodes, sources);
            e in EdgesOf(index.interfaces, index.concreteTypes) <==>
            exists ty, iface :: ty in nodes && iface in nodes && Covers(nodes, sources, ty, iface)
                                && e == EdgeOf(nodes, sources, ty, iface)
  {
    var index := IndexOf(nodes, sources);
    PickedAre(nodes, true);
    PickedAre(nodes, false);
    EdgesAre(index.interfaces, index.concreteTypes, e);
    if e in EdgesOf(index.interfaces, index.concreteTypes) {
      var i :| i in index.interfaces && e in EdgesTo(i, index.concreteTypes);
      EdgesToAre(i, index.concreteTypes, e);
      var t :| t in index.concreteTypes && t.id != i.id && i.methods <= t.methods
               && e == ImplementsEdge(t.id, i.id, Confidence(i.methods));
      InfosAre(nodes, sources, Pick(nodes, true), i);
      InfosAre(nodes, sources, Pick(nodes, false), t);
      var iface :| iface in Pick(nodes, true) && i == InfoOf(nodes, sources, iface);
      var ty :| ty in Pick(nodes, false) && t == InfoOf(nodes, sources, ty);
      assert Covers(nodes, sources, ty, iface);
    }
    forall ty, iface | ty in nodes && iface in nodes && Covers(nodes, sources, ty, iface)
                       && e == EdgeOf(nodes, sources, ty, iface)
      ensures e in EdgesOf(index.interfaces, index.concreteTypes)
    {
      CoveredIsFound(nodes, sources, ty, iface);
    }
  }

  lemma CoveredIsFound(nodes: seq<NodeRef>, sources: map<string, ParsedGoFile>, ty: NodeRef, iface: NodeRef)
    requires ty in nodes && iface in nodes && Covers(nodes, sources, ty, iface)
    ensures var index := IndexOf(nodes, sources);
            EdgeOf(nodes, sources, ty, iface) in EdgesOf(index.interfaces, index.concreteTypes)
  {
    var index, e := IndexOf(nodes, sources), EdgeOf(nodes, sources, ty, iface);
    var i, t := InfoOf(nodes, sources, iface), InfoOf(nodes, sources, ty);
    PickedAre(nodes, true);
    PickedAre(nodes, false);
    InfosAre(nodes, sources, Pick(nodes, true), i);
    InfosAre(nodes, sources, Pick(nodes, false), t);
    EdgesToAre(i, index.concreteTypes, e);
    EdgesAre(index.interfaces, index.concreteTypes, e);
  }

  // ----- once for each pair --------------------------------------------------------------------------

  ghost predicate DistinctInfos(infos: seq<TypeInfo>)
  {
    forall i, j :: 0 <= i < j < |infos| ==> infos[i].id != infos[j].id
  }

  ghost predicate DistinctNodes(nodes: seq<NodeRef>)
  {
    forall i, j :: 0 <= i < j < |nodes| ==> nodes[i].id != nodes[j].id
  }

  ghost predicate DistinctPairs(edges: seq<ImplementsEdge>)
  {
    forall i, j :: 0 <= i < j < |edges| ==> edges[i].source != edges[j].source || edges[i].target != edges[j].target
  }

  lemma {:induction false} PickDistinct(nodes: seq<NodeRef>, interfaces: bool)
    requires DistinctNodes(nodes)
    ensures DistinctNodes(Pick(nodes, interfaces))
  {
    if |nodes| > 0 {
      var init := nodes[..|nodes|-1];
      PickDistinct(init, interfaces);
      PickedAre(init, interfaces);
      forall k | 0 <= k < |Pick(init, interfaces)| ensures Pick(init, interfaces)[k].id != nodes[|nodes|-1].id {
        assert Pick(init, interfaces)[k] in init;
      }
    }
  }

  lemma {:induction false} InfosDistinct(nodes: seq<NodeRef>, sources: map<string, ParsedGoFile>, some: seq<NodeRef>)
    requires DistinctNodes(some)
    ensures DistinctInfos(Infos(nodes, sources, some))
  {
    if |some| > 0 {
      var init := some[..|some|-1];
      InfosDistinct(nodes, sources, init);
      var infos := Infos(nodes, sources, init);
      forall k | 0 <= k < |infos| ensures infos[k].id != some[|some|-1].id {
        InfosAre(nodes, sources, init, infos[k]);
        assert infos[k] in infos;
      }
    }
  }

  lemma {:induction false} EdgesToDistinct(iface: TypeInfo, types: seq<TypeInfo>)
    requires DistinctInfos(types)
    ensures DistinctPairs(EdgesTo(iface, types)) && forall e :: e in EdgesTo(iface, types) ==> e.target == iface.id
  {
    if |types| > 0 {
      var init := types[..|types|-1];
      EdgesToDistinct(iface, init);
      var edges := EdgesTo(iface, init);
      forall k | 0 <= k < |edges| ensures edges[k].source != types[|types|-1].id {
        EdgesToAre(iface, init, edges[k]);
        assert edges[k] in edges;
      }
    }
  }

  lemma {:induction false} EdgesDistinct(interfaces: seq<TypeInfo>, types: seq<TypeInfo>)
    requires DistinctInfos(interfaces) && DistinctInfos(types)
    ensures DistinctPairs(EdgesOf(interfaces, types))
  {
    if |interfaces| > 0 {
      var init, last := interfaces[..|interfaces|-1], interfaces[|interfaces|-1];
      EdgesDistinct(init, types);
      EdgesToDistinct(last, types);
      var edges := EdgesOf(init, types);
      forall k | 0 <= k < |edges| ensures edges[k].target != last.id {
        EdgesAre(init, types, edges[k]);
        assert edges[k] in edges;
        var i :| i in init && edges[k] in EdgesTo(i, types);
        EdgesToDistinct(i, types);
      }
    }
  }

  /** With distinct node ids no pair is synthesized twice. */
  lemma OnceForEachPair(nodes: seq<NodeRef>, sources: map<string, ParsedGoFile>)
    requires DistinctNodes(nodes)
    ensures DistinctPairs(EdgesOf(IndexOf(nodes, sources).interfaces, IndexOf(nodes, sources).concreteTypes))
  {
    PickDistinct(nodes, true);
    PickDistinct(nodes, false);
    InfosDistinct(nodes, sources, Pick(nodes, true));
    InfosDistinct(nodes, sources, Pick(nodes, false));
    EdgesDistinct(IndexOf(nodes, sources).interfaces, IndexOf(nodes, sources).concreteTypes);
  }

  // ----- by the files themselves -------------------------------------------------------------------

  predicate NoSeparator(s: string) { '/' !in s && '\\' !in s }

  /** The package of a file is the part of its path before the last separator. */
  lemma {:induction false} PackageDirIs(dir: string, file: string)
    requires NoSeparator(file)
    ensures PackageDir(dir + "/" + file) == dir && PackageDir(dir + "\\" + file) == dir && PackageDir(file) == ""
  {
    if |file| > 0 {
      var init := file[..|file|-1];
      PackageDirIs(dir, init);
      assert (dir + "/" + file)[..|dir + "/" + file|-1] == dir + "/" + init;
      assert (dir + "\\" + file)[..|dir + "\\" + file|-1] == dir + "\\" + init;
    } else {
      assert (dir + "/")[..|dir|] == dir && (dir + "\\")[..|dir|] == dir;
      assert dir + "/" + "" == dir + "/" && dir + "\\" + "" == dir + "\\";
    }
  }

  /** A Go file of this package gives the type this method. */
  ghost predicate GivesMethod(nodes: seq<NodeRef>, sources: map<string, ParsedGoFile>, f: string, n: NodeRef, m: MethodSig)
  {
    && f in sources && (exists g :: g in nodes && g.isGo && g.filePath == f) && PackageDir(f) == PackageDir(n.filePath)
    && if n.kind == NodeKind.Interface then n.name in sources[f].interfaces && m in sources[f].interfaces[n.name]
       else n.name in sources[f].receivers && m in sources[f].receivers[n.name]
  }

  ghost predicate HasMethod(nodes: seq<NodeRef>, sources: map<string, ParsedGoFile>, n: NodeRef, m: MethodSig)
  {
    exists f :: GivesMethod(nodes, sources, f, n, m)
  }

  lemma MethodsAre(nodes: seq<NodeRef>, sources: map<string, ParsedGoFile>, n: NodeRef, m: MethodSig)
    ensures m in MethodsOf(nodes, sources, n) <==> HasMethod(nodes, sources, n, m)
  {
    hide PackageDir;
    if m in MethodsOf(nodes, sources, n) {
      var f :| f in GoFiles(nodes, sources) && PackageDir(f) == PackageDir(n.filePath)
               && m in Has(SetsOf(GoFiles(nodes, sources)[f], n.kind.Interface?), n.name);
      assert GivesMethod(nodes, sources, f, n, m);
    }
    if f :| GivesMethod(nodes, sources, f, n, m) {
      assert f in GoFiles(nodes, sources);
      assert m in Has(SetsOf(GoFiles(nodes, sources)[f], n.kind.Interface?), n.name);
    }
  }

  /** A type implements an interface, in the files of their packages. */
  ghost predicate Satisfies(nodes: seq<NodeRef>, sources: map<string, ParsedGoFile>, ty: NodeRef, iface: NodeRef)
  {
    && ty.isGo && ty.isExported && (ty.kind == Struct || ty.kind == NodeKind.Enum || ty.kind == NodeKind.Type)
    && iface.isGo && iface.isExported && iface.kind == NodeKind.Interface && ty.id != iface.id
    && (exists m :: HasMethod(nodes, sources, iface, m))
    && (forall m :: HasMethod(nodes, sources, iface, m) ==> HasMethod(nodes, sources, ty, m))
  }

  lemma CoversIs(nodes: seq<NodeRef>, sources: map<string, ParsedGoFile>, ty: NodeRef, iface: NodeRef)
    ensures Covers(nodes, sources, ty, iface) <==> Satisfies(nodes, sources, ty, iface)
  {
    hide MethodsOf, HasMethod;
    forall m ensures m in MethodsOf(nodes, sources, ty) <==> HasMethod(nodes, sources, ty, m) {
      MethodsAre(nodes, sources, ty, m);
    }
    forall m ensures m in MethodsOf(nodes, sources, iface) <==> HasMethod(nodes, sources, iface, m) {
      MethodsAre(nodes, sources, iface, m);
    }
  }

  /** The edge of a type that satisfies an interface, surer for two methods or more. */
  ghost predicate JoinsBoth(nodes: seq<NodeRef>, sources: map<string, ParsedGoFile>, ty: NodeRef, iface: NodeRef, e: ImplementsEdge)
  {
    && ty in nodes && iface in nodes && Satisfies(nodes, sources, ty, iface) && e.source == ty.id && e.target == iface.id
    && e.confidence == if |MethodsOf(nodes, sources, iface)| >= 2 then 0.75 else 0.55
  }

  /** An edge is synthesized exactly from a type that satisfies an interface to it. */
  lemma EdgesAreSatisfied(nodes: seq<NodeRef>, sources: map<string, ParsedGoFile>, e: ImplementsEdge)
    ensures var index := IndexOf(nodes, sources);
            e in EdgesOf(index.interfaces, index.concreteTypes) <==> exists ty, iface :: JoinsBoth(nodes, sources, ty, iface, e)
  {
    SoundAndComplete(nodes, sources, e);
    hide IndexOf, EdgesOf, MethodsOf, Covers, Satisfies;
    forall ty, iface ensures Covers(nodes, sources, ty, iface) <==> Satisfies(nodes, sources, ty, iface) {
      CoversIs(nodes, sources, ty, iface);
    }
    if ty, iface :| JoinsBoth(nodes, sources, ty, iface, e) {
      assert Covers(nodes, sources, ty, iface) && e == EdgeOf(nodes, sources, ty, iface);
    }
    if ty, iface :| ty in nodes && iface in nodes && Covers(nodes, sources, ty, iface) && e == EdgeOf(nodes, sources, ty, iface) {
      assert JoinsBoth(nodes, sources, ty, iface, e);
    }
  }
}
