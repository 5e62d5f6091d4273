/** What the coverage of a walk says of calls, and what impl blocks do to names. */
module WalkCases {
  import opened Graph
  import opened WalkNames
  import opened WalkSpec
  import opened Walker

  // ----- only impl blocks leave something on the scope --------------------------------------

  lemma {:induction false} KidsNoLeak(s: Source, o: Output, d: Tree, except: set<string>, scope: seq<string>, k: nat, end: seq<string>)
    requires k <= |d.children| && KidsUpTo(s, o, d, except, scope, k, end)
    requires forall c :: c in d.children ==> NoBareImpl(c)
    ensures end == scope
    ensures forall i :: 0 <= i < k ==> KidCovered(s, o, d.children[i], except, scope, scope)
    decreases d, 0, k
  {
    hide KidCovered, NoBareImpl;
    if k > 0 {
      var mid :| KidsVia(s, o, d, except, scope, k, mid, end);
      KidsNoLeak(s, o, d, except, scope, k - 1, mid);
      KidNoLeak(s, o, d.children[k-1], except, mid, end);
    }
  }

  lemma {:induction false} KidNoLeak(s: Source, o: Output, d: Tree, except: set<string>, scope: seq<string>, end: seq<string>)
    requires NoBareImpl(d) && KidCovered(s, o, d, except, scope, end)
    ensures end == scope
    decreases d, 6
  {
    hide Covered, NoBareImpl;
    if d.named && d.kind !in except { NoLeak(s, o, d, scope, end); }
  }

  lemma {:induction false} ChildrenNoLeak(s: Source, o: Output, d: Tree, except: set<string>, scope: seq<string>, end: seq<string>)
    requires NoBareImpl(d) && KidsCovered(s, o, d, except, scope, end)
    ensures end == scope
    decreases d, 1
  {
    assert forall c :: c in d.children ==> NoBareImpl(c);
    hide KidsUpTo, NoBareImpl;
    KidsNoLeak(s, o, d, except, scope, |d.children|, end);
  }

  lemma {:induction false} BodyNoLeak(s: Source, o: Output, d: Tree, field: string, scope: seq<string>, end: seq<string>)
    requires (forall c :: c in d.children ==> NoBareImpl(c)) && BodyCovered(s, o, d, field, scope, end)
    ensures end == scope
    decreases d, 0
  {
    hide KidsCovered, NoBareImpl;
    if d.Field(field).Some? { ChildrenNoLeak(s, o, d.Field(field).value, {}, scope, end); }
  }

  lemma {:induction false} EnumNoLeak(s: Source, o: Output, d: Tree, scope: seq<string>, k: nat, end: seq<string>)
    requires k <= |d.children| && EnumUpTo(s, o, d, scope, k, end) && forall c :: c in d.children ==> NoBareImpl(c)
    ensures end == scope
    ensures forall i :: 0 <= i < k ==> EnumKidCovered(s, o, d.children[i], scope, scope)
    decreases d, 0, k
  {
    hide EnumKidCovered, NoBareImpl;
    if k > 0 {
      var mid :| EnumVia(s, o, d, scope, k, mid, end);
      EnumNoLeak(s, o, d, scope, k - 1, mid);
      EnumKidNoLeak(s, o, d.children[k-1], mid, end);
    }
  }

  lemma {:induction false} EnumKidNoLeak(s: Source, o: Output, d: Tree, scope: seq<string>, end: seq<string>)
    requires NoBareImpl(d) && EnumKidCovered(s, o, d, scope, end)
    ensures end == scope
    decreases d, 7
  {
    hide KidsCovered, Covered, NoBareImpl, Emitted;
    if d.named {
      if d.kind in ENUM_BODIES {
        ChildrenNoLeak(s, o, d, {}, scope, end);
      } else if d.kind !in s.config.enumMemberTypes {
        NoLeak(s, o, d, scope, end);
      }
    }
  }

  lemma {:induction false} InnerNoLeak(s: Source, o: Output, d: Tree, kind: NodeKind, scope: seq<string>, end: seq<string>)
    requires NoBareImpl(d) && InnerCovered(s, o, d, kind, scope, end)
    ensures end == scope
    decreases d, 2
  {
    assert forall c :: c in d.children ==> NoBareImpl(c);
    hide KidsCovered, BodyCovered, EnumUpTo, NoBareImpl;
    match kind
    case Namespace =>
      var body := NamespaceBody(d);
      if body.Some? { ChildrenNoLeak(s, o, body.value, {}, scope, end); }
      else { ChildrenNoLeak(s, o, d, NAMESPACE_NAMES, scope, end); }
    case Function => BodyNoLeak(s, o, d, s.config.bodyField, scope, end);
    case Method => BodyNoLeak(s, o, d, s.config.bodyField, scope, end);
    case Enum => EnumNoLeak(s, o, d, scope, |d.children|, end);
    case _ => ChildrenNoLeak(s, o, d, {}, scope, end);
  }

  lemma PopPushed(scope: seq<string>, id: string)
    ensures Popped(scope + [id]) == scope
  {
  }

  lemma {:induction false} DeclarationNoLeak(s: Source, o: Output, d: Tree, kind: NodeKind, name: string, scope: seq<string>,
                                             end: seq<string>)
    requires |scope| > 0 && NoBareImpl(d) && DeclarationCovered(s, o, d, kind, name, scope, end)
    ensures end == scope
    decreases d, 4
  {
    hide EmittedAs, InnerCovered, PlaceOf, NoBareImpl, Popped;
    var n, inner :| EmittedAs(s, o, d, PlaceOf(o.nodes, scope), kind, name, n)
                    && InnerCovered(s, o, d, kind, scope + [n.id], inner) && end == Popped(inner);
    InnerNoLeak(s, o, d, kind, scope + [n.id], inner);
    PopPushed(scope, n.id);
  }

  lemma {:induction false} ImplNoLeak(s: Source, o: Output, d: Tree, scope: seq<string>, end: seq<string>)
    requires d.kind == "impl_item" && NoBareImpl(d) && ImplCovered(s, o, d, scope, end)
    ensures end == scope
    decreases d, 3
  {
    assert ImplType(d) != "" && forall c :: c in d.children ==> NoBareImpl(c);
    hide IsImplTarget, BodyCovered, ImplementsRecorded, NoBareImpl, ImplType, Popped;
    var id :| IsImplTarget(s, o, d, id) && ImplCoveredOn(s, o, d, id, scope, end);
    var inner :| BodyCovered(s, o, d, "body", scope + [id], inner) && end == if ImplType(d) != "" then Popped(inner) else inner;
    BodyNoLeak(s, o, d, "body", scope + [id], inner);
    PopPushed(scope, id);
  }

  /** A visit leaves the scope as it was unless the subtree holds an impl block whose Self
      type is no plain identifier. */
  lemma {:induction false} NoLeak(s: Source, o: Output, d: Tree, scope: seq<string>, end: seq<string>)
    requires NoBareImpl(d) && Covered(s, o, d, scope, end)
    ensures end == scope
    decreases d, 5
  {
    hide HasId, PlaceOf, EmittedKind, DeclaredName, Emitted, Recorded, KidsCovered, VariablesEmitted, ImplCovered,
      DeclarationCovered, NoBareImpl, ModuleName, CalleeName;
    if KidsCovered(s, o, d, {}, scope, end) { ChildrenNoLeak(s, o, d, {}, scope, end); }
    match EmittedKind(s.config, d, PlaceOf(o.nodes, scope))
    case Some(kind) =>
      var name := DeclaredName(s.config, d, kind);
      if kind !in {Property, NodeKind.Field} && !kind.Type? && Usable(name) {
        DeclarationNoLeak(s, o, d, kind, name, scope, end);
      }
    case None =>
      if d.kind == "impl_item" && ImplCovered(s, o, d, scope, end) { ImplNoLeak(s, o, d, scope, end); }
  }

  lemma BareImplLeaves(s: Source, o: Output, d: Tree, scope: seq<string>, end: seq<string>)
    requires ImplType(d) == "" && (forall c :: c in d.children ==> NoBareImpl(c)) && ImplCovered(s, o, d, scope, end)
    ensures |o.nodes| > 0 && end == scope + [o.nodes[0].id]
  {
    hide IsImplTarget, BodyCovered, ImplementsRecorded, NoBareImpl, ImplType;
    var id :| IsImplTarget(s, o, d, id) && ImplCoveredOn(s, o, d, id, scope, end);
    assert BodyCovered(s, o, d, "body", scope + [id], end);
    BodyNoLeak(s, o, d, "body", scope + [id], end);
    BareTarget(s, o, d, id);
  }

  lemma BareTarget(s: Source, o: Output, d: Tree, id: string)
    requires IsImplTarget(s, o, d, id) && ImplType(d) == ""
    ensures |o.nodes| > 0 && id == o.nodes[0].id
  {
  }

  /** For a block with no such block inside this is exact: it leaves the scope as it was if
      and only if its own Self type is a plain identifier, and otherwise the file on it. */
  lemma ImplLeavesEntryIff(s: Source, o: Output, d: Tree, scope: seq<string>, end: seq<string>)
    requires d.kind == "impl_item" && (forall c :: c in d.children ==> NoBareImpl(c)) && ImplCovered(s, o, d, scope, end)
    ensures end == scope <==> ImplType(d) != ""
    ensures ImplType(d) == "" ==> |o.nodes| > 0 && end == scope + [o.nodes[0].id]
  {
    hide ImplCovered, ImplType;
    if ImplType(d) != "" { ImplNoLeak(s, o, d, scope, end); } else { BareImplLeaves(s, o, d, scope, end); }
  }

  // ----- a call belongs to the callable around it -----------------------------------------

  /** Visiting d at p goes on to all its named children at the same place. */
  predicate Through(c: LanguageConfig, d: Tree, p: Place)
  {
    match EmittedKind(c, d, p)
    case Some(kind) => kind.Type?
    case None =>
      && d.kind !in c.namespaceTypes && !IsVariable(c, d, p)
      && (d.kind in c.importTypes + c.callTypes || d.kind != "impl_item")
  }

  /** e lies below d without a declaration in between. */
  predicate Reaches(c: LanguageConfig, d: Tree, e: Tree, p: Place)
  {
    || d == e
    || (Through(c, d, p) && exists i :: 0 <= i < |d.children| && d.children[i].named && Reaches(c, d.children[i], e, p))
  }

  lemma {:induction false} CoveredBelow(s: Source, o: Output, d: Tree, e: Tree, scope: seq<string>, end: seq<string>)
    requires NoBareImpl(d) && Covered(s, o, d, scope, end) && Reaches(s.config, d, e, PlaceOf(o.nodes, scope))
    ensures Covered(s, o, e, scope, if d == e then end else scope)
    decreases d
  {
    if d != e {
      var i :| 0 <= i < |d.children| && d.children[i].named && Reaches(s.config, d.children[i], e, PlaceOf(o.nodes, scope));
      assert forall c :: c in d.children ==> NoBareImpl(c);
      assert KidsUpTo(s, o, d, {}, scope, |d.children|, end);
      hide EmittedKind, NoBareImpl, Reaches, Through, PlaceOf, At, KidsUpTo;
      KidsNoLeak(s, o, d, {}, scope, |d.children|, end);
      assert KidCovered(s, o, d.children[i], {}, scope, scope);
      CoveredBelow(s, o, d.children[i], e, scope, scope);
    }
  }

  predicate IsCall(c: LanguageConfig, d: Tree, p: Place)
  {
    && EmittedKind(c, d, p).None? && d.kind !in c.namespaceTypes + c.importTypes && !IsVariable(c, d, p)
    && d.kind in c.callTypes
  }

  lemma DeclarationIsCovered(s: Source, o: Output, d: Tree, scope: seq<string>, end: seq<string>, kind: NodeKind)
    requires Covered(s, o, d, scope, end) && EmittedKind(s.config, d, PlaceOf(o.nodes, scope)) == Some(kind)
    requires kind in DECLARING && Usable(DeclaredName(s.config, d, kind))
    ensures At(o, scope) && DeclarationCovered(s, o, d, kind, DeclaredName(s.config, d, kind), scope, end)
  {
    hide EmittedKind, DeclaredName, KidsUpTo, PlaceOf, At;
  }

  /** The call is a reference from this place by the name its callee ends in. */
  ghost predicate CallRecorded(s: Source, o: Output, e: Tree, p: Place)
  {
    forall name :: IsCall(s.config, e, p) && CallsName(e, name) && name != "" && name != "new" ==>
      UnresolvedRef(0, p.owner, name, "calls", s.filePath) in o.refs
  }

  lemma CallIsRecorded(s: Source, o: Output, e: Tree, scope: seq<string>, end: seq<string>)
    requires Covered(s, o, e, scope, end)
    ensures At(o, scope) && CallRecorded(s, o, e, PlaceOf(o.nodes, scope))
  {
    hide EmittedKind, CalleeName, ModuleName, KidsUpTo, PlaceOf, At, CallsName, KidsCovered;
    forall name | CallsName(e, name) ensures CalleeName(e) == name { CalleeNameIs(e, name); }
  }

  /** The calls below the named children of a body, as far as no declaration is in between. */
  ghost predicate CallsRecorded(s: Source, o: Output, body: Tree, p: Place)
  {
    forall i, e :: 0 <= i < |body.children| && body.children[i].named && Reaches(s.config, body.children[i], e, p) ==>
      CallRecorded(s, o, e, p)
  }

  lemma CallsBelow(s: Source, o: Output, body: Tree, scope: seq<string>, end: seq<string>)
    requires |scope| > 0 && NoBareImpl(body) && KidsCovered(s, o, body, {}, scope, end)
    ensures CallsRecorded(s, o, body, PlaceOf(o.nodes, scope))
  {
    assert forall c :: c in body.children ==> NoBareImpl(c);
    KidsNoLeak(s, o, body, {}, scope, |body.children|, end);
    forall i, e | 0 <= i < |body.children| && body.children[i].named
                  && Reaches(s.config, body.children[i], e, PlaceOf(o.nodes, scope))
      ensures CallRecorded(s, o, e, PlaceOf(o.nodes, scope))
    {
      assert KidCovered(s, o, body.children[i], {}, scope, scope);
      CoveredBelow(s, o, body.children[i], e, scope, scope);
      hide Covered, CallRecorded, KidsUpTo, Reaches, PlaceOf;
      CallIsRecorded(s, o, e, scope, scope);
    }
  }

  /** Every call in the body of a function or method, however deep below statements and
      expressions, is a reference of the node emitted for exactly that callable. */
  lemma CallsBelongToCallable(s: Source, o: Output, d: Tree, scope: seq<string>, end: seq<string>, kind: NodeKind)
    requires NoBareImpl(d) && Covered(s, o, d, scope, end) && EmittedKind(s.config, d, PlaceOf(o.nodes, scope)) == Some(kind)
    requires kind in {Function, Method} && Usable(NameOf(d, s.config.nameField)) && d.Field(s.config.bodyField).Some?
    ensures exists n :: EmittedAs(s, o, d, PlaceOf(o.nodes, scope), kind, NameOf(d, s.config.nameField), n)
              && CallsRecorded(s, o, d.Field(s.config.bodyField).value, PlaceOf(o.nodes, scope + [n.id]))
              && PlaceOf(o.nodes, scope + [n.id]).owner == n.id
  {
    var name, body := NameOf(d, s.config.nameField), d.Field(s.config.bodyField).value;
    assert body in d.children && NoBareImpl(body);
    DeclarationIsCovered(s, o, d, scope, end, kind);
    hide EmittedAs, EmittedKind, Covered, KidsCovered, CallsRecorded, NoBareImpl;
    var n, inner :| EmittedAs(s, o, d, PlaceOf(o.nodes, scope), kind, name, n)
                    && InnerCovered(s, o, d, kind, scope + [n.id], inner) && end == Popped(inner);
    assert BodyCovered(s, o, d, s.config.bodyField, scope + [n.id], inner);
    CallsBelow(s, o, body, scope + [n.id], inner);
  }

  // ----- impl blocks and names ---------------------------------------------------------------

  lemma SameTail(a: string, b: string, tail: string)
    ensures a + "::" + tail == b + "::" + tail <==> a == b
  {
    var s, t := a + "::" + tail, b + "::" + tail;
    if s == t { assert a == s[..|s| - |tail| - 2] && b == t[..|t| - |tail| - 2]; }
  }

  /** What is emitted inside an impl block is named after its target if and only if the
      target is qualified by the scope the block stands in. */
  lemma ImplNamesFollowIff(nodes: seq<Node>, scope: seq<string>, target: Node, name: string)
    requires DistinctIds(nodes) && target in nodes && !target.kind.File?
    ensures Join(ScopeNames(nodes, scope + [target.id]) + [name]) == Under(nodes, target.id, name)
            <==> target.qualifiedName == Join(ScopeNames(nodes, scope) + [target.name])
  {
    FoundIsOnly(nodes, target);
    assert Under(nodes, target.id, name) == target.qualifiedName + "::" + name;
    hide *;
    NamesPush(nodes, scope, target.id);
    var names := ScopeNames(nodes, scope) + [target.name];
    JoinPush(names, name);
    SameTail(Join(names), target.qualifiedName, name);
  }

  lemma {:induction false} Misnamed(nodes: seq<Node>, edges: seq<Edge>, parent: string, n: Node)
    requires TreeShaped(nodes, edges) && DistinctIds(nodes) && n in nodes && Edge(parent, n.id, Contains) in edges
    requires n.qualifiedName != Under(nodes, parent, n.name)
    ensures !NamedByParent(nodes, edges)
  {
    var k :| 0 <= k < |edges| && edges[k] == Edge(parent, n.id, Contains);
    var j :| 0 <= j < |nodes| && nodes[j] == n;
    assert nodes[k+1].id == nodes[j].id;
    assert k + 1 == j;
  }

  function Leaf(kind: string, text: string, row: nat): Tree { Tree(kind, text, true, row, false, map[], []) }

  const RUST: LanguageConfig :=
    LanguageConfig({"function_item"}, {}, {}, {}, {}, {"struct_item"}, {}, {}, {}, {}, {}, {}, {}, {}, {}, "name", "body")

  const STRUCT: Tree := Tree("struct_item", "", true, 1, false, map["name" := 0], [Leaf("type_identifier", "S", 1)])

  const FN_BODY: Tree := Tree("block", "", true, 0, false, map[], [STRUCT])

  /** `fn f() { struct S; }` */
  const OUTER: Tree :=
    Tree("function_item", "", true, 0, false, map["name" := 0, "body" := 1], [Leaf("identifier", "f", 0), FN_BODY])

  const INNER: Tree := Tree("function_item", "", true, 4, false, map["name" := 0], [Leaf("identifier", "g", 4)])

  const IMPL_BODY: Tree := Tree("declaration_list", "", true, 3, false, map[], [INNER])

  /** `impl S { fn g() {} }` */
  const BLOCK: Tree := Tree("impl_item", "", true, 3, false, map["body" := 1], [Leaf("type_identifier", "S", 3), IMPL_BODY])

  const FILE: Tree := Tree("source_file", "", true, 0, false, map[], [OUTER, BLOCK])

  lemma Names()
    ensures NameOf(OUTER, "name") == "f" && NameOf(STRUCT, "name") == "S" && NameOf(INNER, "name") == "g" && ImplType(BLOCK) == "S"
  {
    assert TypeIdents([IMPL_BODY]) == TypeIdents([IMPL_BODY][1..]) == [];
    assert BLOCK.children[1..] == [IMPL_BODY];
    assert TypeIdents(BLOCK.children) == ["S"];
  }

  lemma NothingIsBare()
    ensures NoBareImpl(FILE) && NoBareImpl(OUTER) && NoBareImpl(BLOCK)
  {
    Names();
    forall k: string, x: string, r: nat ensures k != "impl_item" ==> NoBareImpl(Leaf(k, x, r)) {}
    assert NoBareImpl(STRUCT) && NoBareImpl(FN_BODY) && NoBareImpl(INNER) && NoBareImpl(IMPL_BODY);
  }

  lemma InsideLeaf(kind: string, text: string, row: nat, d: Tree)
    requires Inside(Leaf(kind, text, row), d)
    ensures d == Leaf(kind, text, row)
  {
  }

  lemma InsideOuter(d: Tree)
    requires Inside(OUTER, d)
    ensures d.kind == "struct_item" ==> d == STRUCT
  {
    if d != OUTER && d != FN_BODY && d != STRUCT {
      var c :| c in OUTER.children && Inside(c, d);
      if c == FN_BODY {
        assert Inside(STRUCT, d);
        InsideLeaf("type_identifier", "S", 1, d);
      } else {
        InsideLeaf("identifier", "f", 0, d);
      }
    }
  }

  lemma InsideBlock(d: Tree)
    requires Inside(BLOCK, d)
    ensures d.kind != "struct_item"
  {
    if d != BLOCK && d != IMPL_BODY && d != INNER {
      var c :| c in BLOCK.children && Inside(c, d);
      if c == IMPL_BODY {
        assert Inside(INNER, d);
        InsideLeaf("identifier", "g", 4, d);
      } else {
        InsideLeaf("type_identifier", "S", 3, d);
      }
    }
  }

  lemma TheOnlyStruct(d: Tree)
    requires Inside(FILE, d) && d.kind == "struct_item"
    ensures d == STRUCT
  {
    var c :| c in FILE.children && Inside(c, d);
    hide Inside;
    if c == OUTER {
      InsideOuter(d);
    } else {
      assert c == BLOCK;
      InsideBlock(d);
    }
  }

  lemma OnlyKid(s: Source, o: Output, d: Tree, scope: seq<string>, end: seq<string>)
    requires |d.children| == 1 && d.children[0].named && KidsCovered(s, o, d, {}, scope, end)
    ensures Covered(s, o, d.children[0], scope, end)
  {
    hide Covered;
    assert KidsUpTo(s, o, d, {}, scope, 1, end);
    var mid :| KidsVia(s, o, d, {}, scope, 1, mid, end);
    OneKid(s, o, d, scope, mid, end);
  }

  lemma OneKid(s: Source, o: Output, d: Tree, scope: seq<string>, mid: seq<string>, end: seq<string>)
    requires |d.children| == 1 && d.children[0].named && KidsVia(s, o, d, {}, scope, 1, mid, end)
    ensures Covered(s, o, d.children[0], scope, end)
  {
    hide Covered;
    assert KidsUpTo(s, o, d, {}, scope, 0, mid) && KidCovered(s, o, d.children[0], {}, mid, end);
    assert mid == scope;
  }

  lemma OuterEmits(s: Source, o: Output, scope: seq<string>, end: seq<string>)
    requires s.config == RUST && DistinctIds(o.nodes) && Covered(s, o, OUTER, scope, end) && ScopeNames(o.nodes, scope) == []
    ensures exists n :: n in o.nodes && n.kind.Struct? && n.name == "S" && Explains(s, STRUCT, n) && n.qualifiedName == "f::S"
  {
    Names();
    DeclarationIsCovered(s, o, OUTER, scope, end, Function);
    hide Explains, NameOf, InClassScope, InFunctionScope, ScopeNames;
    var f, inner :| EmittedAs(s, o, OUTER, PlaceOf(o.nodes, scope), Function, "f", f)
                    && InnerCovered(s, o, OUTER, Function, scope + [f.id], inner) && end == Popped(inner);
    FoundIsOnly(o.nodes, f);
    NamesPush(o.nodes, scope, f.id);
    assert OUTER.Field("body") == Some(FN_BODY) && BodyCovered(s, o, OUTER, "body", scope + [f.id], inner);
    OnlyKid(s, o, FN_BODY, scope + [f.id], inner);
    StructEmitted(s, o, scope + [f.id], inner);
  }

  lemma StructIs(p: Place)
    ensures EmittedKind(RUST, STRUCT, p) == Some(Struct) && DeclaredName(RUST, STRUCT, Struct) == "S" && Struct in DECLARING
  {
    Names();
  }

  lemma StructEmitted(s: Source, o: Output, scope: seq<string>, end: seq<string>)
    requires s.config == RUST && Covered(s, o, STRUCT, scope, end) && ScopeNames(o.nodes, scope) == ["f"]
    ensures exists n :: n in o.nodes && n.kind.Struct? && n.name == "S" && Explains(s, STRUCT, n) && n.qualifiedName == "f::S"
  {
    hide Explains, NameOf, InnerCovered, InClassScope, InFunctionScope, ScopeNames, EmittedKind, DeclaredName;
    StructIs(PlaceOf(o.nodes, scope));
    DeclarationIsCovered(s, o, STRUCT, scope, end, Struct);
    hide Covered;
    var n, inner :| EmittedAs(s, o, STRUCT, PlaceOf(o.nodes, scope), Struct, "S", n)
                    && InnerCovered(s, o, STRUCT, Struct, scope + [n.id], inner) && end == Popped(inner);
    JoinTwo("f", "S");
  }

  lemma JoinTwo(a: string, b: string)
    ensures Join([a] + [b]) == a + "::" + b
  {
    assert ([a] + [b])[1..] == [b] && Join([b]) == b;
  }

  lemma BlockEmits(s: Source, o: Output, scope: seq<string>, end: seq<string>, id: string)
    requires s.config == RUST && ImplCoveredOn(s, o, BLOCK, id, scope, end)
    ensures exists n :: n in o.nodes && n.name == "g" && n.qualifiedName == Join(ScopeNames(o.nodes, scope + [id]) + ["g"])
                        && Edge(id, n.id, Contains) in o.edges
  {
    Names();
    hide Explains, NameOf, InClassScope, InFunctionScope, ScopeNames, Covered;
    var inner :| BodyCovered(s, o, BLOCK, "body", scope + [id], inner);
    assert BLOCK.Field("body") == Some(IMPL_BODY);
    OnlyKid(s, o, IMPL_BODY, scope + [id], inner);
    DeclarationIsCovered(s, o, INNER, scope + [id], inner, Function);
    var n :| EmittedAs(s, o, INNER, PlaceOf(o.nodes, scope + [id]), Function, "g", n);
  }

  /** An impl block at file level for a type that a function declares: walking the two
      declarations of the file leaves the method of the block under a name that is not its
      container's. */
  method ImplOfNestedTypeMisnames(filePath: string, fileName: string, makeId: IdMaker) returns (ctx: ExtractCtx)
    requires forall k, n, l :: makeId(k, n, l) != ""
    ensures fresh(ctx) && (DistinctIds(ctx.nodes) ==> !NamedByParent(ctx.nodes, ctx.edges))
  {
    ctx := new ExtractCtx(filePath, RUST, makeId, fileName, FILE);
    InFile();
    NothingIsBare();
    ghost var s := ctx.Src();
    NoNamesInFile(ctx.nodes[0]);
    hide *;
    OuterThenBlock(ctx, s);
  }

  method OuterThenBlock(ctx: ExtractCtx, ghost s: Source)
    requires ctx.Valid() && (forall k, n, l :: ctx.makeId(k, n, l) != "")
    requires s == ctx.Src() && s.root == FILE && s.config == RUST && ScopeNames(ctx.nodes, ctx.scope) == []
    modifies ctx
    ensures DistinctIds(ctx.nodes) ==> !NamedByParent(ctx.nodes, ctx.edges)
  {
    InFile();
    NothingIsBare();
    hide WellWalked, NoBareImpl, Covered, ImplCovered, ImplCoveredOn, Inside, Fits, TopTypes, NamedByParent,
      DistinctIds, ScopeNames, InClassScope, InFunctionScope, TargetId;
    ghost var scope := ctx.scope;
    ghost var _ := ctx.WalkNode(OUTER);
    ctx.PlaceKept();
    ctx.StandsSomewhere();
    ghost var middle := ctx.Out();
    ghost var _, _ := ctx.ExtractRustImpl(BLOCK);
    ctx.Accounted();
    if DistinctIds(ctx.nodes) { BreaksNames(s, middle, ctx.Out(), scope, ctx.scope); }
  }

  lemma NoNamesInFile(file: Node)
    requires file.kind.File?
    ensures ScopeNames([file], [file.id]) == []
  {
    assert [file.id][1..] == [] && FindNode([file], file.id) == Some(file);
    assert ScopeNames([file], [file.id][1..]) == [];
  }

  lemma InFile()
    ensures Inside(FILE, OUTER) && Inside(FILE, BLOCK)
  {
    assert Inside(OUTER, OUTER) && Inside(BLOCK, BLOCK) && OUTER in FILE.children && BLOCK in FILE.children;
  }

  lemma BreaksNames(s: Source, o: Output, o': Output, scope: seq<string>, end: seq<string>)
    requires s.root == FILE && s.config == RUST && GrowsTo(o, o') && DistinctIds(o'.nodes)
    requires TreeShaped(o'.nodes, o'.edges) && Explained(s, o'.nodes, o'.refs)
    requires At(o, scope) && ScopeNames(o.nodes, scope) == [] && Covered(s, o, OUTER, scope, scope)
    requires ImplCoveredOn(s, o', BLOCK, TargetId(s, o.nodes, BLOCK), scope, end)
    ensures !NamedByParent(o'.nodes, o'.edges)
  {
    hide Covered, ImplCoveredOn, TreeShaped, Explained, NamedByParent, Explains, ImplType, InClassScope,
      InFunctionScope, ScopeNames;
    Names();
    DistinctBefore(o.nodes, o'.nodes);
    OuterEmits(s, o, scope, scope);
    var n :| n in o.nodes && n.kind.Struct? && n.name == "S" && Explains(s, STRUCT, n) && n.qualifiedName == "f::S";
    TypeIsFound(o.nodes, n);
    var t := FoundType(o.nodes, "S");
    TheOnlyS(s, o', t);
    OneForOneId(s, o'.nodes, t, n);
    BlockEmits(s, o', scope, end, t.id);
    AtGrows(o, o', scope);
    ImplNamesFollowIff(o'.nodes, scope, t, "g");
    assert Join([] + ["S"]) == "S";
    var g :| g in o'.nodes && g.name == "g" && g.qualifiedName == Join(ScopeNames(o'.nodes, scope + [t.id]) + ["g"])
             && Edge(t.id, g.id, Contains) in o'.edges;
    Misnamed(o'.nodes, o'.edges, t.id, g);
  }

  lemma DistinctBefore(nodes: seq<Node>, more: seq<Node>)
    requires nodes <= more && DistinctIds(more)
    ensures DistinctIds(nodes)
  {
    forall i, j | 0 <= i < j < |nodes| ensures nodes[i].id != nodes[j].id { assert more[i].id != more[j].id; }
  }

  lemma {:induction false} TypeIsFound(nodes: seq<Node>, n: Node)
    requires n in nodes && n.kind in TARGET_KINDS
    ensures FindType(nodes, n.name).Some?
  {
    if nodes[0] != n { TypeIsFound(nodes[1..], n); }
  }

  lemma TheOnlyS(s: Source, o: Output, t: Node)
    requires s.root == FILE && s.config == RUST && TreeShaped(o.nodes, o.edges) && Explained(s, o.nodes, o.refs)
    requires t in o.nodes && t.kind in TARGET_KINDS && t.name == "S"
    ensures t.kind.Struct? && Explains(s, STRUCT, t)
  {
    var k :| 0 <= k < |o.nodes| && o.nodes[k] == t;
    assert NodeFrom(s, o.nodes[k]);
    var d :| Inside(s.root, d) && Explains(s, d, t);
    hide Inside, NameOf;
    TheOnlyStruct(d);
  }

  lemma OneForOneId(s: Source, nodes: seq<Node>, a: Node, b: Node)
    requires DistinctIds(nodes) && a in nodes && b in nodes && a.kind == b.kind && a.name == b.name
    requires Explains(s, STRUCT, a) && Explains(s, STRUCT, b)
    ensures a == b
  {
    assert a.id == b.id by { hide DistinctIds; }
    FoundIsOnly(nodes, a);
    FoundIsOnly(nodes, b);
  }

  /** The ordinary case fits: a type at file level and its impl block. */
  lemma OrdinaryImplFits(s: Source)
    requires s.root == Tree("source_file", "", true, 0, false, map[], [STRUCT, BLOCK]) && s.config == RUST && IdsApart(s)
    ensures ImplsFit(s, s.root, TopLevel(s))
  {
    Names();
    NothingIsBare();
    hide IdsApart, NameOf, ImplType;
    PlainLeaf(s, "identifier", "g", 4);
    PlainLeaf(s, "type_identifier", "S", 1);
    PlainLeaf(s, "type_identifier", "S", 3);
    assert !Nests(RUST, INNER, false, "S") && ImplsFit(s, INNER, false);
    assert !Nests(RUST, IMPL_BODY, false, "S") && ImplsFit(s, IMPL_BODY, false);
    assert !Nests(RUST, BLOCK, true, "S");
    TypeAtTop(s);
    assert !NestedSomewhere(s, "S");
    assert ImplsFit(s, STRUCT, true) && ImplsFit(s, BLOCK, true);
  }

  lemma PlainLeaf(s: Source, kind: string, text: string, row: nat)
    requires s.config == RUST && kind in {"identifier", "type_identifier"}
    ensures forall top :: !Nests(RUST, Leaf(kind, text, row), top, "S") && ImplsFit(s, Leaf(kind, text, row), top)
  {
  }

  lemma TypeAtTop(s: Source)
    requires s.config == RUST
    ensures !Nests(RUST, STRUCT, true, "S")
  {
    PlainLeaf(s, "type_identifier", "S", 1);
    assert !Transparent(RUST, STRUCT) && STRUCT.children == [Leaf("type_identifier", "S", 1)];
    forall t | t in STRUCT.children ensures !Nests(RUST, t, false, "S") {}
  }
}
