/** The extraction walk: a recursive pass over a syntax tree that emits nodes, contains
    edges and unresolved references while pushing and popping a scope stack. The tree is
    an abstract labelled tree; language hooks are the default ones, which do nothing. */
module Walker {
  import opened Graph
  import opened Store
  import opened StoreInvariants
  import opened WalkSpec

  // ----- the walk --------------------------------------------------------------------------

  class ExtractCtx {
    const filePath: string
    const config: LanguageConfig
    const makeId: IdMaker
    ghost const root: Tree
    ghost var plain: bool
    var nodes: seq<Node>
    var edges: seq<Edge>
    var unresolved: seq<UnresolvedRef>
    var scope: seq<string>

    ghost function Src(): Source { Source(filePath, config, makeId, root) }

    ghost predicate Valid()
      reads this
    {
      |scope| > 0 && WellWalked(Src(), nodes, edges, unresolved, scope, plain)
    }

    /** Output is only ever appended to. */
    twostate predicate Grows()
      reads this
    {
      old(nodes) <= nodes && old(edges) <= edges && old(unresolved) <= unresolved
    }

    ghost function Out(): Output
      reads this
    {
      Output(nodes, edges, unresolved)
    }

    ghost function Here(): Place
      requires |scope| > 0
      reads this
    {
      PlaceOf(nodes, scope)
    }

    /** What visiting a subtree does: the output grows, and the scope is back to where it
        was unless `leaks` impl blocks left their entry on it. */
    twostate predicate Visited(leaks: nat)
      reads this
    {
      && Valid() && Grows() && |scope| == |old(scope)| + leaks
      && (leaks == 0 ==> scope == old(scope)) && (plain ==> old(plain))
    }

    /** The output grew and the walk stands where it stood. */
    twostate predicate Still()
      reads this
    {
      Visited(0) && plain == old(plain) && old(|scope| > 0) && Here() == old(Here())
    }

    /** Emitting a node of this kind and name leaves types that are nested nowhere bare. */
    twostate predicate TypesStay(kind: NodeKind, name: string)
      reads this
    {
      old(TypesBare(kind, name)) ==> TopTypes(Src(), nodes)
    }

    ghost predicate TypesBare(kind: NodeKind, name: string)
      reads this
    {
      TopTypes(Src(), nodes) && (kind in TARGET_KINDS + {NodeKind.Type} && |scope| > 1 ==> NestedSomewhere(Src(), name))
    }

    /** The last node stands for `from` and hangs below the innermost scope. */
    twostate predicate Emits(kind: NodeKind, name: string, from: Tree, id: string)
      requires |scope| > 0
      reads this
    {
      && id == makeId(kind, name, from.row + 1) && HasId(nodes, id)
      && |nodes| == |old(nodes)| + 1 && nodes[|nodes|-1].id == id
      && EmittedAs(Src(), Out(), from, Here(), kind, name, nodes[|nodes|-1])
      && edges == old(edges) + [Edge(scope[|scope|-1], id, Contains)]
      && LinksOn(id)
    }

    /** The scope may be extended by the node without disturbing names. */
    ghost predicate LinksOn(id: string)
      reads this
    {
      plain && DistinctIds(nodes) ==> Link(nodes, scope, id)
    }

    /** The node as the walk makes it here for the tree node `from`. */
    ghost predicate IsMadeHere(n: Node, from: Tree)
      reads this
    {
      && n.id != "" && !n.kind.File? && Inside(root, from) && Explains(Src(), from, n)
      && n.id == makeId(n.kind, n.name, from.row + 1) && n.qualifiedName == Join(ScopeNames(nodes, scope) + [n.name])
    }

    /** The impl blocks of the subtree, visited here, leave names undisturbed. */
    ghost predicate FitsHere(node: Tree)
      reads this
    {
      TopTypes(Src(), nodes) && Fits(Src(), node, |scope| == 1)
    }

    ghost predicate KidsFitHere(node: Tree)
      reads this
    {
      TopTypes(Src(), nodes) && forall c :: c in node.children ==> Fits(Src(), c, |scope| == 1) && NoBareImpl(c)
    }

    twostate predicate Walked(node: Tree, leaks: nat)
      reads this
    {
      && Visited(leaks) && (NoBareImpl(node) ==> leaks == 0)
      && (old(FitsHere(node)) ==> plain == old(plain) && TopTypes(Src(), nodes))
    }

    /** The node is done with, or did its own part and the walk stands where it stood. */
    twostate predicate Outcome(node: Tree, skip: bool, leaks: nat)
      reads this
    {
      && old(|scope| > 0) && Walked(node, leaks)
      && if skip then Covered(Src(), Out(), node, old(scope), scope) else leaks == 0 && Asked(Src(), Out(), node, old(Here()))
    }

    twostate predicate KidsWalked(node: Tree, leaks: nat)
      reads this
    {
      && Visited(leaks) && ((forall c :: c in node.children ==> NoBareImpl(c)) ==> leaks == 0)
      && (old(KidsFitHere(node)) ==> plain == old(plain) && TopTypes(Src(), nodes))
    }

    constructor (filePath: string, config: LanguageConfig, makeId: IdMaker, fileName: string, ghost root: Tree)
      ensures Valid() && plain && nodes == [FileNode(filePath, fileName)] && edges == [] && unresolved == []
      ensures scope == ["file:" + filePath] && TopTypes(Src(), nodes)
      ensures this.filePath == filePath && this.config == config && this.makeId == makeId && this.root == root
    {
      this.filePath := filePath;
      this.config := config;
      this.makeId := makeId;
      this.root := root;
      plain := true;
      nodes := [FileNode(filePath, fileName)];
      edges := [];
      unresolved := [];
      scope := ["file:" + filePath];
      new;
      assert nodes[0].id == "file:" + filePath;
    }

    method Push(id: string)
      requires Valid() && HasId(nodes, id) && LinksOn(id)
      modifies this`scope
      ensures Valid() && scope == old(scope) + [id]
    {
      GoodPush(Src(), nodes, edges, unresolved, scope, plain, id);
      scope := scope + [id];
    }

    method Pop()
      requires Valid() && |scope| > 1
      modifies this`scope
      ensures Valid() && scope == old(scope)[..|old(scope)|-1]
    {
      GoodPop(Src(), nodes, edges, unresolved, scope, plain, |scope| - 1);
      scope := scope[..|scope|-1];
    }

    /** Appends a node and the edge that contains it in the innermost scope. The tree node
        `from` is the declaration it stands for. */
    method EmitNode(kind: NodeKind, name: string, from: Tree, isExported: bool) returns (id: Option<string>)
      requires Valid() && (forall k, n, l :: makeId(k, n, l) != "") && !kind.File?
      requires Inside(root, from)
      requires Explains(Src(), from, Node(makeId(kind, name, from.row + 1), name, "", kind, filePath, from.row + 1, isExported, None, None))
      modifies this`nodes, this`edges
      ensures Still()
      ensures id.Some? <==> Usable(name)
      ensures id.None? ==> nodes == old(nodes) && edges == old(edges)
      ensures id.Some? ==> Emits(kind, name, from, id.value)
      ensures TypesStay(kind, name)
    {
      InnermostExists();
      if name == "" || name == "<anonymous>" {
        return None;
      }
      var newId := makeId(kind, name, from.row + 1);
      var n := Node(newId, name, Join(ScopeNames(nodes, scope) + [name]), kind, filePath, from.row + 1, isExported, None, None);
      assert Explains(Src(), from, n);
      hide WellWalked, Explains, Inside, HasId, Link, Join, ScopeNames, InClassScope, InFunctionScope, TopTypes,
        NestedSomewhere;
      AppendInScope(n, from);
      return Some(newId);
    }

    method AppendInScope(n: Node, ghost from: Tree)
      requires Valid() && IsMadeHere(n, from)
      modifies this`nodes, this`edges
      ensures Still() && TypesStay(n.kind, n.name) && nodes == old(nodes) + [n] && Emits(n.kind, n.name, from, n.id)
    {
      hide WellWalked, Explains, Inside, HasId, Link, TopTypes, TypesBare, Join, ScopeNames, InClassScope,
        InFunctionScope, Under, DistinctIds, IsMadeHere, EmittedAs;
      BeforeAppend(n, from);
      TypesBeforeAppend(n, from);
      Append(n, scope[|scope|-1], from);
      PlaceKept();
      LastIsEmitted(n, from);
    }

    lemma LastIsEmitted(n: Node, from: Tree)
      requires |scope| > 0 && |nodes| > 0 && nodes[|nodes|-1] == n && Explains(Src(), from, n)
      requires |edges| > 0 && edges[|edges|-1] == Edge(scope[|scope|-1], n.id, Contains)
      requires n.qualifiedName == Join(Here().names + [n.name])
      ensures EmittedAs(Src(), Out(), from, Here(), n.kind, n.name, n)
    {
      assert n in nodes && edges[|edges|-1] in edges;
      hide Explains, Join, ScopeNames;
    }

    /** What a node made here brings along. */
    lemma BeforeAppend(n: Node, from: Tree)
      requires Valid() && IsMadeHere(n, from)
      ensures n.id != "" && Inside(root, from) && Explains(Src(), from, n) && HasId(nodes, scope[|scope|-1])
      ensures n.id == makeId(n.kind, n.name, from.row + 1) && n.qualifiedName == Join(Here().names + [n.name])
      ensures plain && DistinctIds(nodes) ==> n.qualifiedName == Under(nodes, scope[|scope|-1], n.name)
      ensures plain && DistinctIds(nodes + [n]) ==> Link(nodes + [n], scope, n.id)
    {
      InnermostExists();
      hide WellWalked, Explains, Inside, HasId, Link, Join, ScopeNames, InClassScope, InFunctionScope, Under,
        DistinctIds;
      if plain && DistinctIds(nodes) { NamedHere(n); }
      if plain && DistinctIds(nodes + [n]) { LinksHere(n); }
    }

    lemma TypesBeforeAppend(n: Node, from: Tree)
      requires Valid() && IsMadeHere(n, from)
      ensures TypesBare(n.kind, n.name) ==> TopTypes(Src(), nodes + [n])
    {
      FirstIsFile();
      hide WellWalked, Explains, Inside, TopTypes, NestedSomewhere, Join, ScopeNames;
      if TypesBare(n.kind, n.name) { TopTypesAppend(Src(), nodes, scope, n); }
    }

    lemma NamedHere(n: Node)
      requires Valid() && plain && DistinctIds(nodes) && n.qualifiedName == Join(ScopeNames(nodes, scope) + [n.name])
      ensures n.qualifiedName == Under(nodes, scope[|scope|-1], n.name)
    {
      NameInScope(nodes, scope, n.name);
    }

    lemma LinksHere(n: Node)
      requires Valid() && plain && DistinctIds(nodes + [n]) && n.qualifiedName == Join(ScopeNames(nodes, scope) + [n.name])
      requires !n.kind.File?
      ensures Link(nodes + [n], scope, n.id)
    {
      DistinctPrefix(nodes, n);
      NewNodeLinks(nodes, scope, n);
    }

    lemma FirstIsFile()
      requires Valid()
      ensures |nodes| > 0 && nodes[0].kind.File? && |scope| > 0 && scope[0] == nodes[0].id && nodes[0].id == "file:" + filePath
      ensures HasId(nodes, nodes[0].id)
    {
    }

    lemma Accounted()
      requires Valid()
      ensures TreeShaped(nodes, edges) && Explained(Src(), nodes, unresolved)
    {
    }

    /** Where the walk stands does not change while the output grows. */
    twostate lemma PlaceKept()
      requires old(Valid()) && Grows() && scope == old(scope)
      ensures |scope| > 0 && Here() == old(Here())
    {
      PlaceStays(old(nodes), nodes, scope);
    }

    method Append(n: Node, parent: string, ghost from: Tree)
      requires Valid() && n.id != "" && HasId(nodes, parent)
      requires Inside(root, from) && Explains(Src(), from, n)
      requires plain && DistinctIds(nodes) ==> n.qualifiedName == Under(nodes, parent, n.name)
      modifies this`nodes, this`edges
      ensures Visited(0) && plain == old(plain) && HasId(nodes, n.id)
      ensures nodes == old(nodes) + [n] && edges == old(edges) + [Edge(parent, n.id, Contains)]
    {
      hide Explains, Inside;
      assert NodeFrom(Src(), n);
      GoodAppend(Src(), nodes, edges, unresolved, scope, plain, n, parent);
      nodes := nodes + [n];
      edges := edges + [Edge(parent, n.id, Contains)];
    }

    /** A call or an import becomes a reference of the innermost scope. */
    method EmitRef(name: string, kind: string, fromNode: string, ghost from: Tree)
      requires Valid() && HasId(nodes, fromNode)
      requires name != "" ==> Inside(root, from) && Refers(Src(), from, UnresolvedRef(0, fromNode, name, kind, filePath))
      modifies this`unresolved
      ensures Visited(0) && plain == old(plain) && Recorded(Src(), Out(), fromNode, name, kind)
      ensures unresolved == if name == "" then old(unresolved)
                            else old(unresolved) + [UnresolvedRef(0, fromNode, name, kind, filePath)]
    {
      if name != "" {
        var r := UnresolvedRef(0, fromNode, name, kind, filePath);
        assert RefFrom(Src(), r);
        GoodRef(Src(), nodes, edges, unresolved, scope, plain, r);
        unresolved := unresolved + [r];
      }
    }

    method WalkNode(node: Tree) returns (ghost leaks: nat)
      requires Valid() && (forall k, n, l :: makeId(k, n, l) != "") && Inside(root, node)
      modifies this
      ensures Walked(node, leaks) && Covered(Src(), Out(), node, old(scope), scope)
      decreases node, 5
    {
      hide WellWalked, Covered, Asked, KidsCovered, NoBareImpl, Fits, TopTypes, InClassScope, InFunctionScope,
        ScopeNames;
      ghost var fits := FitsHere(node);
      var skip;
      skip, leaks := Dispatch(node);
      if !skip {
        PlaceKept();
        StandsSomewhere();
        if fits { KidsFit(Src(), node, |scope| == 1, |scope| == 1); }
        ghost var o, sc := Out(), scope;
        leaks := WalkChildren(node, {});
        AskedAndKids(Src(), o, Out(), node, sc, scope);
        BareKids(node);
      }
    }

    lemma StandsSomewhere()
      requires Valid()
      ensures At(Out(), scope)
    {
    }

    /** What the kind of the node asks for; `skip` tells that its children are done with. */
    method Dispatch(node: Tree) returns (skip: bool, ghost leaks: nat)
      requires Valid() && (forall k, n, l :: makeId(k, n, l) != "") && Inside(root, node)
      modifies this
      ensures Outcome(node, skip, leaks)
      decreases node, 4
    {
      hide WellWalked, NoBareImpl, Fits, TopTypes, Covered, Asked, Inside, InClassScope, InFunctionScope, ScopeNames;
      var t := node.kind;
      skip, leaks := false, 0;
      if t in config.namespaceTypes {
        skip, leaks := ExtractNamespace(node);
      } else if t in config.functionTypes {
        if InClassScope(nodes, scope) && t in config.methodTypes {
          skip, leaks := ExtractDeclaration(Method, node);
        } else {
          skip, leaks := ExtractDeclaration(Function, node);
        }
      } else if t in config.methodTypes {
        skip, leaks := ExtractDeclaration(Method, node);
      } else if t in config.classTypes || t in config.extraClassTypes {
        skip, leaks := ExtractDeclaration(Class, node);
      } else if t in config.interfaceTypes {
        skip, leaks := ExtractDeclaration(Interface, node);
      } else if t in config.structTypes {
        skip, leaks := ExtractDeclaration(Struct, node);
      } else if t in config.enumTypes {
        skip, leaks := ExtractDeclaration(Enum, node);
      } else {
        skip, leaks := DispatchLeaf(node);
      }
    }

    /** The kinds that declare neither a type nor a callable. */
    method DispatchLeaf(node: Tree) returns (skip: bool, ghost leaks: nat)
      requires Valid() && (forall k, n, l :: makeId(k, n, l) != "") && Inside(root, node)
      requires node.kind !in config.namespaceTypes + config.Callables() + config.Types()
      modifies this
      ensures Outcome(node, skip, leaks)
      decreases node, 3
    {
      hide WellWalked, At, NoBareImpl, Fits, TopTypes, NestedSomewhere, Emitted, VariablesEmitted, Covered, Asked,
        InClassScope, InFunctionScope, ScopeNames, NameOf, Inside;
      var t := node.kind;
      skip, leaks := false, 0;
      if t in config.typeAliasTypes {
        NestedIfInside(node);
        ExtractLeaf(NodeKind.Type, node, node.exported);
        StandsSomewhere();
        LeafIsCovered(Src(), Out(), node, scope, NodeKind.Type);
      } else if t in config.propertyTypes && InClassScope(nodes, scope) {
        ExtractLeaf(Property, node, false);
        StandsSomewhere();
        LeafIsCovered(Src(), Out(), node, scope, Property);
        skip := true;
      } else if t in config.fieldTypes && InClassScope(nodes, scope) {
        ExtractLeaf(NodeKind.Field, node, false);
        StandsSomewhere();
        LeafIsCovered(Src(), Out(), node, scope, NodeKind.Field);
        skip := true;
      } else if t in config.variableTypes && !InClassScope(nodes, scope) && !InFunctionScope(nodes, scope) {
        ExtractVariable(node);
        StandsSomewhere();
        VariableIsCovered(Src(), Out(), node, scope);
        skip := true;
      } else {
        skip, leaks := DispatchReference(node);
      }
    }

    /** The kinds that emit no node for themselves. */
    method DispatchReference(node: Tree) returns (skip: bool, ghost leaks: nat)
      requires Valid() && (forall k, n, l :: makeId(k, n, l) != "") && Inside(root, node)
      requires EmittedKind(config, node, Here()).None? && !IsVariable(config, node, Here()) && node.kind !in config.namespaceTypes
      modifies this
      ensures Outcome(node, skip, leaks)
      decreases node, 3, 0
    {
      StandsSomewhere();
      InnermostExists();
      hide WellWalked, At, NoBareImpl, Fits, TopTypes, EmittedKind, IsVariable, Recorded, ImplCovered,
        ImplCoveredOn, InClassScope, InFunctionScope, ScopeNames, ModuleName, CalleeName, Inside;
      ghost var o, sc := Out(), scope;
      var t := node.kind;
      skip, leaks := false, 0;
      if t in config.importTypes {
        EmitRef(ModuleName(node), "imports", scope[|scope|-1], node);
      } else if t in config.callTypes {
        var callee := CalleeName(node);
        if callee != "new" {
          EmitRef(callee, "calls", scope[|scope|-1], node);
        }
      } else if t == "impl_item" {
        skip, leaks := ExtractRustImpl(node);
      }
      AtGrows(o, Out(), sc);
    }

    lemma InnermostExists()
      requires Valid()
      ensures |scope| > 0 && HasId(nodes, scope[|scope|-1])
    {
      hide TreeShaped, HasId, Explained, Qualified;
      assert scope[|scope|-1] in scope;
    }

    lemma BareKids(node: Tree)
      ensures NoBareImpl(node) ==> forall c :: c in node.children ==> NoBareImpl(c)
    {
    }

    /** Visits the named children in order, except those of the given kinds. */
    method WalkChildren(node: Tree, except: set<string>) returns (ghost leaks: nat)
      requires Valid() && (forall k, n, l :: makeId(k, n, l) != "") && Inside(root, node)
      modifies this
      ensures KidsWalked(node, leaks) && KidsCovered(Src(), Out(), node, except, old(scope), scope)
      decreases node, 0, 0
    {
      hide WellWalked, KidCovered, KidsUpTo, Fits, TopTypes, Inside, NoBareImpl, InClassScope, InFunctionScope,
        ScopeNames;
      leaks := 0;
      NothingVisited(node, except);
      for i := 0 to |node.children|
        invariant KidsWalked(node, leaks) && KidsUpTo(Src(), Out(), node, except, old(scope), i, scope)
      {
        ghost var o, mid := Out(), scope;
        ghost var more := WalkKid(node, node.children[i], except);
        leaks := leaks + more;
        KidsStep(Src(), o, Out(), node, except, old(scope), i, mid, scope);
      }
    }

    lemma NothingVisited(node: Tree, except: set<string>)
      ensures KidsUpTo(Src(), Out(), node, except, scope, 0, scope) && EnumUpTo(Src(), Out(), node, scope, 0, scope)
    {
    }

    method WalkKid(ghost node: Tree, child: Tree, except: set<string>) returns (ghost more: nat)
      requires Valid() && (forall k, n, l :: makeId(k, n, l) != "") && Inside(root, node) && child in node.children
      modifies this
      ensures Walked(child, more) && KidCovered(Src(), Out(), child, except, old(scope), scope)
      decreases child, 6
    {
      hide WellWalked, Covered, Inside, InClassScope, InFunctionScope, ScopeNames, Fits, TopTypes;
      more := 0;
      if child.named && child.kind !in except {
        ChildInside(root, node, child);
        more := WalkNode(child);
      }
    }

    method ExtractLeaf(kind: NodeKind, node: Tree, isExported: bool)
      requires Valid() && (forall k, n, l :: makeId(k, n, l) != "") && Inside(root, node)
      requires match kind
               case EnumMember => node.kind in config.enumMemberTypes
               case Property => node.kind in config.propertyTypes
               case Field => node.kind in config.fieldTypes
               case Type => node.kind in config.typeAliasTypes
               case Variable => node.kind in config.variableTypes
               case _ => false
      modifies this`nodes, this`edges
      ensures Still() && TypesStay(kind, NameOf(node, config.nameField))
      ensures Emitted(Src(), Out(), node, Here(), kind, NameOf(node, config.nameField))
    {
      InnermostExists();
      var name := NameOf(node, config.nameField);
      assert Explains(Src(), node, Node(makeId(kind, name, node.row + 1), name, "", kind, filePath, node.row + 1, isExported, None, None));
      hide WellWalked, NameOf, TopTypes, NestedSomewhere, InClassScope, InFunctionScope, ScopeNames, EmittedAs,
        Explains, HasId, Link;
      if name != "" {
        var _ := EmitNode(kind, name, node, isExported);
      }
    }

    method ExtractVariable(node: Tree)
      requires Valid() && (forall k, n, l :: makeId(k, n, l) != "") && Inside(root, node) && node.kind in config.variableTypes
      modifies this`nodes, this`edges
      ensures Still() && TypesStay(Variable, "") && VariablesEmitted(Src(), Out(), node, Here())
    {
      hide WellWalked, Inside, NameOf, TopTypes, NestedSomewhere, InClassScope, InFunctionScope, ScopeNames,
        Emitted, IsDeclarator, DeclaratorsUpTo;
      var foundAny := ExtractDeclarators(node);
      ghost var o := Out();
      if !foundAny {
        ExtractLeaf(Variable, node, node.exported);
      }
      DeclaratorsGrow(Src(), o, Out(), node, Here(), |node.children|);
    }

    /** The first k children were looked at, since the output was `o`. */
    ghost predicate DeclaratorsDone(node: Tree, k: nat, foundAny: bool, o: Output, sc: seq<string>, p: Place, was: bool, bare: bool)
      reads this
    {
      && Valid() && GrowsTo(o, Out()) && scope == sc && Here() == p && plain == was && (bare ==> TopTypes(Src(), nodes))
      && DeclaratorsUpTo(Src(), Out(), node, p, k)
      && (foundAny <==> exists j :: 0 <= j < k && j < |node.children| && IsDeclarator(node.children[j]))
    }

    method ExtractDeclarators(node: Tree) returns (foundAny: bool)
      requires Valid() && (forall k, n, l :: makeId(k, n, l) != "") && Inside(root, node)
      modifies this`nodes, this`edges
      ensures Still() && TypesStay(Variable, "") && DeclaratorsUpTo(Src(), Out(), node, Here(), |node.children|)
      ensures foundAny <==> exists j :: 0 <= j < |node.children| && IsDeclarator(node.children[j])
    {
      NoDeclarators(Src(), Out(), node, Here());
      hide WellWalked, Inside, TopTypes, InClassScope, InFunctionScope, ScopeNames, IsDeclarator, DeclaratorsUpTo;
      ghost var o, sc, p, was, bare := Out(), scope, Here(), plain, TopTypes(Src(), nodes);
      foundAny := false;
      assert DeclaratorsDone(node, 0, foundAny, o, sc, p, was, bare);
      for i := 0 to |node.children|
        invariant DeclaratorsDone(node, i, foundAny, o, sc, p, was, bare)
      {
        hide *;
        var found := NextDeclarator(node, i, foundAny, o, sc, p, was, bare);
        foundAny := foundAny || found;
      }
    }

    method NextDeclarator(node: Tree, i: nat, ghost soFar: bool, ghost o: Output, ghost sc: seq<string>, ghost p: Place, ghost was: bool,
                          ghost bare: bool) returns (found: bool)
      requires (forall k, n, l :: makeId(k, n, l) != "") && Inside(root, node) && i < |node.children|
      requires DeclaratorsDone(node, i, soFar, o, sc, p, was, bare)
      modifies this`nodes, this`edges
      ensures DeclaratorsDone(node, i + 1, soFar || found, o, sc, p, was, bare)
    {
      hide WellWalked, Inside, TopTypes, NestedSomewhere, InClassScope, InFunctionScope, ScopeNames, Emitted,
        IsDeclarator, DeclaratorsUpTo;
      ghost var before := Out();
      found := ExtractDeclarator(node, node.children[i]);
      DeclaratorStep(Src(), before, Out(), node, p, i);
    }

    method ExtractDeclarator(node: Tree, child: Tree) returns (found: bool)
      requires Valid() && (forall k, n, l :: makeId(k, n, l) != "") && Inside(root, node) && child in node.children
      modifies this`nodes, this`edges
      ensures Still() && TypesStay(Variable, "") && (found <==> IsDeclarator(child))
      ensures found ==> Emitted(Src(), Out(), child, Here(), Variable, child.Field("name").value.text)
    {
      hide WellWalked, NameOf, TopTypes, NestedSomewhere, InClassScope, InFunctionScope, ScopeNames, EmittedAs,
        HasId, Link, Inside;
      if child.named && (child.kind == "variable_declarator" || child.kind == "lexical_binding") {
        var nameNode := child.Field("name");
        if nameNode.Some? && nameNode.value.text != "" {
          ChildInside(root, node, child);
          var _ := EmitNode(Variable, nameNode.value.text, child, node.exported);
          return true;
        }
      }
      return false;
    }

    /** A function, method, class, interface, struct or enum. */
    method ExtractDeclaration(kind: NodeKind, node: Tree) returns (skip: bool, ghost leaks: nat)
      requires Valid() && (forall k, n, l :: makeId(k, n, l) != "") && Inside(root, node)
      requires EmittedKind(config, node, Here()) == Some(kind) && kind in DECLARING && !kind.Namespace?
      modifies this
      ensures Outcome(node, skip, leaks)
      decreases node, 3
    {
      hide WellWalked, At, NoBareImpl, NameOf, Inside, Link, HasId, Fits, TopTypes, TypesBare, NestedSomewhere,
        EmittedAs, EmittedKind, Explains, DeclarationCovered, Covered, Asked, InClassScope, InFunctionScope,
        ScopeNames;
      StandsSomewhere();
      DeclarationExplained(node, kind);
      ghost var o, sc := Out(), scope;
      leaks := 0;
      var name := NameOf(node, config.nameField);
      if !Usable(name) { NamelessDeclaration(Src(), Out(), node, kind, scope); }
      if name == "" {
        return false, 0;
      }
      leaks := EmitAndVisit(kind, node, name, node.exported);
      AtGrows(o, Out(), sc);
      if Usable(name) { DeclarationCovers(Src(), Out(), node, kind, sc, scope); }
      return true, leaks;
    }

    /** A declaration and, unless its name cannot be used, what is visited inside it. */
    method EmitAndVisit(kind: NodeKind, node: Tree, name: string, isExported: bool) returns (ghost leaks: nat)
      requires Valid() && (forall k, n, l :: makeId(k, n, l) != "") && Inside(root, node) && !Transparent(config, node) && !kind.File?
      requires Explains(Src(), node, Node(makeId(kind, name, node.row + 1), name, "", kind, filePath, node.row + 1, isExported, None, None))
      requires FitsHere(node) ==> TypesBare(kind, name)
      modifies this
      ensures Walked(node, leaks)
      ensures if Usable(name) then DeclarationCovered(Src(), Out(), node, kind, name, old(scope), scope)
              else Out() == old(Out()) && scope == old(scope)
      decreases node, 2
    {
      hide WellWalked, NoBareImpl, Inside, Link, HasId, Fits, TopTypes, TypesBare, EmittedAs, Explains,
        DeclarationCovered, Transparent, InClassScope, InFunctionScope, ScopeNames;
      leaks := 0;
      var id := EmitNode(kind, name, node, isExported);
      if id.Some? {
        leaks := VisitScope(kind, node, id.value, name);
      }
    }

    /** The scope of the node just emitted: pushed, walked and popped. */
    method VisitScope(kind: NodeKind, node: Tree, id: string, ghost name: string) returns (ghost leaks: nat)
      requires Valid() && (forall k, n, l :: makeId(k, n, l) != "") && Inside(root, node) && !Transparent(config, node)
      requires HasId(nodes, id) && LinksOn(id)
      requires |nodes| > 0 && nodes[|nodes|-1].id == id && EmittedAs(Src(), Out(), node, Here(), kind, name, nodes[|nodes|-1])
      modifies this
      ensures Walked(node, leaks) && DeclarationCovered(Src(), Out(), node, kind, name, old(scope), scope)
      decreases node, 1
    {
      hide WellWalked, NoBareImpl, Inside, Link, HasId, Fits, TopTypes, InnerCovered, EmittedAs, InClassScope,
        InFunctionScope, ScopeNames, Transparent, At;
      StandsSomewhere();
      ghost var sc, n, o := scope, nodes[|nodes|-1], Out();
      if FitsHere(node) { KidsFit(Src(), node, |scope| == 1, false); }
      Push(id);
      leaks := WalkInner(kind, node);
      BareKids(node);
      ghost var inner := scope;
      Pop();
      DeclarationDone(Src(), o, Out(), node, kind, name, n, sc, inner);
    }

    /** What is visited of the node, by its kind. */
    method WalkInner(kind: NodeKind, node: Tree) returns (ghost leaks: nat)
      requires Valid() && (forall k, n, l :: makeId(k, n, l) != "") && Inside(root, node)
      modifies this
      ensures KidsWalked(node, leaks) && InnerCovered(Src(), Out(), node, kind, old(scope), scope)
      decreases node, 0, 2
    {
      hide WellWalked, Inside, Fits, TopTypes, KidsUpTo, EnumUpTo, BodyCovered, InClassScope, InFunctionScope,
        ScopeNames, NoBareImpl;
      if kind.Namespace? {
        leaks := WalkNamespaceBody(node);
      } else if kind.Function? || kind.Method? {
        leaks := WalkBody(node, config.bodyField);
      } else if kind.Enum? {
        leaks := WalkEnumBody(node);
      } else {
        leaks := WalkChildren(node, {});
      }
    }

    /** The children of one field of the node. */
    method WalkBody(node: Tree, field: string) returns (ghost leaks: nat)
      requires Valid() && (forall k, n, l :: makeId(k, n, l) != "") && Inside(root, node)
      modifies this
      ensures KidsWalked(node, leaks) && BodyCovered(Src(), Out(), node, field, old(scope), scope)
      decreases node, 0, 1
    {
      InnermostExists();
      hide WellWalked, Inside, Fits, TopTypes, KidsCovered, InClassScope, InFunctionScope, ScopeNames, NoBareImpl;
      leaks := 0;
      var body := node.Field(field);
      if body.Some? {
        ChildInside(root, node, body.value);
        if KidsFitHere(node) { KidsFit(Src(), body.value, |scope| == 1, |scope| == 1); }
        leaks := WalkChildren(body.value, {});
        BareKids(body.value);
      }
    }

    /** What a declaring kind brings along: the node to be made is explained, its name counts as
        nested when it is a type's, and its children are not at the top. */
    lemma DeclarationExplained(node: Tree, kind: NodeKind)
      requires |scope| > 0 && EmittedKind(config, node, Here()) == Some(kind) && kind in DECLARING
      ensures var name := DeclaredName(config, node, kind);
              Explains(Src(), node, Node(makeId(kind, name, node.row + 1), name, "", kind, filePath, node.row + 1,
                                         !kind.Namespace? && node.exported, None, None))
      ensures !Transparent(config, node)
      ensures FitsHere(node) ==> TypesBare(kind, DeclaredName(config, node, kind))
    {
      hide Fits, NestedSomewhere, TopTypes, NameOf, NamespaceName, InClassScope, InFunctionScope, ScopeNames;
      if FitsHere(node) && kind in TARGET_KINDS { NestedIfInside(node); }
    }

    lemma NestedIfInside(node: Tree)
      requires node.kind in config.Types() + config.typeAliasTypes
      ensures forall kind :: FitsHere(node) ==> TypesBare(kind, NameOf(node, config.nameField))
    {
      hide Fits, NestedSomewhere, TopTypes, NameOf;
      if FitsHere(node) && |scope| > 1 { NestedHere(Src(), node); }
    }

    method WalkEnumBody(node: Tree) returns (ghost leaks: nat)
      requires Valid() && (forall k, n, l :: makeId(k, n, l) != "") && Inside(root, node)
      modifies this
      ensures KidsWalked(node, leaks) && EnumUpTo(Src(), Out(), node, old(scope), |node.children|, scope)
      decreases node, 0, 1
    {
      hide WellWalked, EnumKidCovered, EnumUpTo, Fits, TopTypes, Inside, NoBareImpl, InClassScope, InFunctionScope,
        ScopeNames;
      leaks := 0;
      NothingVisited(node, {});
      for i := 0 to |node.children|
        invariant KidsWalked(node, leaks) && EnumUpTo(Src(), Out(), node, old(scope), i, scope)
      {
        ghost var o, mid := Out(), scope;
        ghost var more := WalkEnumKid(node, node.children[i]);
        leaks := leaks + more;
        EnumStep(Src(), o, Out(), node, old(scope), i, mid, scope);
      }
    }

    method WalkEnumKid(ghost node: Tree, child: Tree) returns (ghost more: nat)
      requires Valid() && (forall k, n, l :: makeId(k, n, l) != "") && Inside(root, node) && child in node.children
      modifies this
      ensures Walked(child, more) && EnumKidCovered(Src(), Out(), child, old(scope), scope)
      decreases child, 7
    {
      hide WellWalked, Emitted, KidsCovered, Covered, Inside, InClassScope, InFunctionScope, ScopeNames, Fits,
        TopTypes, NestedSomewhere, NoBareImpl, NameOf;
      more := 0;
      if child.named {
        ChildInside(root, node, child);
        if child.kind in ENUM_BODIES {
          more := WalkEnumList(child);
        } else if child.kind in config.enumMemberTypes {
          ExtractLeaf(EnumMember, child, false);
          StandsSomewhere();
        } else {
          more := WalkNode(child);
        }
      }
    }

    method WalkEnumList(node: Tree) returns (ghost leaks: nat)
      requires Valid() && (forall k, n, l :: makeId(k, n, l) != "") && Inside(root, node)
      modifies this
      ensures Walked(node, leaks) && KidsCovered(Src(), Out(), node, {}, old(scope), scope)
      decreases node, 6
    {
      hide WellWalked, KidsCovered, Inside, InClassScope, InFunctionScope, ScopeNames, Fits, TopTypes, NoBareImpl;
      if FitsHere(node) { KidsFit(Src(), node, |scope| == 1, |scope| == 1); }
      leaks := WalkChildren(node, {});
      BareKids(node);
    }

    method ExtractNamespace(node: Tree) returns (skip: bool, ghost leaks: nat)
      requires Valid() && (forall k, n, l :: makeId(k, n, l) != "") && Inside(root, node) && node.kind in config.namespaceTypes
      modifies this
      ensures Outcome(node, skip, leaks)
      decreases node, 3
    {
      hide WellWalked, At, NoBareImpl, NamespaceName, Inside, Link, HasId, Fits, TopTypes, TypesBare,
        NestedSomewhere, EmittedAs, EmittedKind, Explains, DeclarationCovered, Covered, Asked, InClassScope,
        InFunctionScope, ScopeNames;
      StandsSomewhere();
      ghost var o, sc := Out(), scope;
      leaks := 0;
      if node.kind == FILE_SCOPED {
        FileScopedIsCovered(Src(), Out(), node, scope);
        return true, 0;
      }
      NamespaceKind(node);
      DeclarationExplained(node, Namespace);
      var name := NamespaceName(node);
      if !Usable(name) { NamelessDeclaration(Src(), Out(), node, Namespace, scope); }
      leaks := EmitAndVisit(Namespace, node, name, false);
      AtGrows(o, Out(), sc);
      if Usable(name) { DeclarationCovers(Src(), Out(), node, Namespace, sc, scope); }
      return Usable(name), leaks;
    }

    lemma NamespaceKind(node: Tree)
      requires |scope| > 0 && node.kind in config.namespaceTypes && node.kind != FILE_SCOPED
      ensures EmittedKind(config, node, Here()) == Some(Namespace)
    {
    }

    method WalkNamespaceBody(node: Tree) returns (ghost leaks: nat)
      requires Valid() && (forall k, n, l :: makeId(k, n, l) != "") && Inside(root, node)
      modifies this
      ensures KidsWalked(node, leaks) && InnerCovered(Src(), Out(), node, Namespace, old(scope), scope)
      decreases node, 0, 1
    {
      InnermostExists();
      hide WellWalked, Inside, Fits, TopTypes, KidsCovered, InClassScope, InFunctionScope, ScopeNames, NoBareImpl;
      var body := NamespaceBody(node);
      if body.Some? {
        ChildInside(root, node, body.value);
        if KidsFitHere(node) { KidsFit(Src(), body.value, |scope| == 1, |scope| == 1); }
        leaks := WalkChildren(body.value, {});
        BareKids(body.value);
      } else {
        leaks := WalkChildren(node, NAMESPACE_NAMES);
      }
    }

    /** The node an impl block hangs its methods on: a type of that name already emitted, a
        synthetic type node under the file, or the file itself. */
    method ImplTarget(node: Tree) returns (id: string)
      requires Valid() && (forall k, n, l :: makeId(k, n, l) != "") && Inside(root, node) && node.kind == "impl_item"
      requires plain ==> FitsHere(node)
      modifies this`nodes, this`edges
      ensures Visited(0) && plain == old(plain) && IsImplTarget(Src(), Out(), node, id) && id == TargetId(Src(), old(nodes), node)
      ensures LinksOn(id)
      ensures old(FitsHere(node)) ==> TopTypes(Src(), nodes)
    {
      FirstIsFile();
      hide WellWalked, ImplType, Link, TopTypes, NestedSomewhere, IdsApart, ScopeNames;
      var implType := ImplType(node);
      if implType == "" {
        return nodes[0].id;
      }
      FoundTypeExists(nodes, implType);
      var existing := FindType(nodes, implType);
      if existing.Some? {
        TargetFound(node, existing.value);
        return existing.value;
      }
      id := makeId(NodeKind.Type, implType, node.row + 1);
      FindHas(nodes, id);
      if FindNode(nodes, id).None? {
        EmitImplType(node, id);
      } else if plain {
        TargetTaken(node, id);
      }
    }

    lemma TargetFound(node: Tree, id: string)
      requires Valid() && node.kind == "impl_item" && FindType(nodes, ImplType(node)) == Some(id)
      requires plain ==> FitsHere(node)
      ensures exists n :: n in nodes && n.id == id && n.name == ImplType(node) && n.kind in TARGET_KINDS
      ensures LinksOn(id)
    {
      FirstIsFile();
      hide WellWalked, ImplType, Link, NestedSomewhere, IdsApart, ScopeNames;
      var n := FoundType(nodes, ImplType(node));
      if plain && DistinctIds(nodes) {
        FoundIsOnly(nodes, n);
        BareNameLinks(nodes, scope, id);
      }
    }

    /** The id of a type node of that name and line is taken by such a node. */
    lemma TargetTaken(node: Tree, id: string)
      requires Valid() && plain && FitsHere(node) && node.kind == "impl_item"
      requires id == makeId(NodeKind.Type, ImplType(node), node.row + 1) && FindNode(nodes, id).Some?
      ensures Link(nodes, scope, id)
    {
      FirstIsFile();
      assert Explained(Src(), nodes, unresolved);
      hide WellWalked, ImplType, Link, NestedSomewhere, IdsApart, ScopeNames, Explained;
      var n := FindNode(nodes, id).value;
      FoundIsMember(nodes, id);
      ExplainedId(Src(), nodes, unresolved, NodeKind.Type, ImplType(node), node.row + 1, n);
      BareNameLinks(nodes, scope, id);
    }

    method EmitImplType(node: Tree, id: string)
      requires Valid() && Inside(root, node) && node.kind == "impl_item" && ImplType(node) != "" && id != ""
      requires id == makeId(NodeKind.Type, ImplType(node), node.row + 1) && FindNode(nodes, id).None?
      requires plain ==> FitsHere(node)
      modifies this`nodes, this`edges
      ensures Visited(0) && plain == old(plain) && HasId(nodes, id)
      ensures LinksOn(id)
      ensures old(FitsHere(node)) ==> TopTypes(Src(), nodes)
    {
      FirstIsFile();
      hide WellWalked, ImplType, Link, TopTypes, NestedSomewhere, IdsApart, HasId;
      var n := Node(id, ImplType(node), Join(ScopeNames(nodes, scope) + [ImplType(node)]), NodeKind.Type, filePath, node.row + 1,
                    false, None, None);
      ghost var before := nodes;
      if FitsHere(node) {
        TopTypesAppend(Src(), nodes, scope, n);
        if plain && DistinctIds(nodes) { ChainedHere(); AloneInScope(nodes, scope, n.name); }
      }
      Append(n, nodes[0].id, node);
      if plain && DistinctIds(nodes) {
        DistinctPrefix(before, n);
        NewNodeLinks(before, scope, n);
      }
    }

    lemma ChainedHere()
      requires Valid() && plain && DistinctIds(nodes)
      ensures Chained(nodes, scope)
    {
    }

    /** Pushes its target whatever it is, and pops only when the Self type is a plain
        identifier: every other impl block leaks one scope entry. */
    method ExtractRustImpl(node: Tree) returns (skip: bool, ghost leaks: nat)
      requires node.kind == "impl_item"
      requires Valid() && (forall k, n, l :: makeId(k, n, l) != "") && Inside(root, node)
      modifies this
      ensures Walked(node, leaks) && ImplCovered(Src(), Out(), node, old(scope), scope)
      ensures ImplCoveredOn(Src(), Out(), node, TargetId(Src(), old(nodes), node), old(scope), scope)
      ensures ImplType(node) == "" ==> leaks > 0
      ensures skip
      decreases node, 2
    {
      hide WellWalked, Inside, ImplCovered, ImplCoveredOn, Explains, Link, HasId, TypeIdents, ImplType, Fits,
        TopTypes, IsImplTarget, TargetId, InClassScope, InFunctionScope, ScopeNames, NoBareImpl;
      if !FitsHere(node) {
        ghost var was := plain;
        plain := false;
        NotPlain(was);
      }
      var self := ImplTarget(node);
      PlaceKept();
      TargetHasId(node, self);
      ghost var o := Out();
      RecordImplements(node, self);
      TargetGrows(Src(), o, Out(), node, self);
      leaks := VisitImpl(node, self);
      return true, leaks;
    }

    method RecordImplements(node: Tree, self: string)
      requires Valid() && Inside(root, node) && node.kind == "impl_item" && HasId(nodes, self)
      modifies this`unresolved
      ensures Still() && ImplementsRecorded(Src(), Out(), node, self)
    {
      var idents := TypeIdents(node.children);
      if |idents| >= 2 {
        RefersAsImplements(node, self);
        hide WellWalked, Inside, Refers, HasId, TypeIdents, Recorded, InClassScope, InFunctionScope, ScopeNames;
        EmitRef(idents[0], "implements", self, node);
      }
    }

    method VisitImpl(node: Tree, self: string) returns (ghost leaks: nat)
      requires Valid() && (forall k, n, l :: makeId(k, n, l) != "") && Inside(root, node) && node.kind == "impl_item"
      requires HasId(nodes, self) && IsImplTarget(Src(), Out(), node, self) && LinksOn(self)
      requires ImplementsRecorded(Src(), Out(), node, self)
      modifies this
      ensures Walked(node, leaks) && (ImplType(node) == "" ==> leaks > 0)
      ensures ImplCovered(Src(), Out(), node, old(scope), scope) && ImplCoveredOn(Src(), Out(), node, self, old(scope), scope)
      decreases node, 1
    {
      hide WellWalked, Inside, BodyCovered, HasId, ImplType, Fits, TopTypes, IsImplTarget, ImplementsRecorded,
        InClassScope, InFunctionScope, ScopeNames, NoBareImpl, ImplCovered, ImplCoveredOn, LinksOn;
      ghost var sc, o := scope, Out();
      assert !Transparent(config, node);
      if FitsHere(node) { KidsFit(Src(), node, |scope| == 1, false); }
      Push(self);
      leaks := WalkBody(node, "body");
      BareImplLeaks(node);
      ImplDone(Src(), o, Out(), node, self, sc, scope);
      if ImplType(node) != "" {
        Pop();
      } else {
        leaks := leaks + 1;
      }
    }

    lemma RefersAsImplements(node: Tree, self: string)
      requires node.kind == "impl_item" && |TypeIdents(node.children)| >= 2
      ensures Refers(Src(), node, UnresolvedRef(0, self, TypeIdents(node.children)[0], "implements", filePath))
    {
    }

    lemma TargetHasId(node: Tree, id: string)
      requires IsImplTarget(Src(), Out(), node, id)
      ensures HasId(nodes, id)
    {
    }

    lemma BareImplLeaks(node: Tree)
      requires node.kind == "impl_item"
      ensures NoBareImpl(node) ==> ImplType(node) != "" && forall c :: c in node.children ==> NoBareImpl(c)
    {
    }

    lemma NotPlain(was: bool)
      requires WellWalked(Src(), nodes, edges, unresolved, scope, was)
      ensures !plain ==> Valid()
    {
      hide TreeShaped, Explained, HasId;
    }

    /** The namespaces among the first k children are emitted and on the scope. */
    ghost predicate NamespacesPushed(was: bool, k: nat, count: nat)
      requires k <= |root.children|
      reads this
    {
      && Valid() && TopTypes(Src(), nodes) && |scope| == 1 + count
      && plain == (was && count <= 1) && count == FileNamespaces(root.children[..k])
      && scope == NamespaceScope(Src(), root.children[..k]) && NamespacesUpTo(Src(), Out(), root.children, k)
    }

    /** File-scoped namespaces are siblings of what they scope: they are emitted, and left on
        the scope, before the walk starts. */
    method PushFileNamespaces(tree: Tree) returns (count: nat)
      requires Valid() && (forall k, n, l :: makeId(k, n, l) != "") && tree == root && |scope| == 1 && TopTypes(Src(), nodes)
      modifies this
      ensures Grows() && NamespacesPushed(old(plain), |root.children|, count)
    {
      FirstIsFile();
      NoNamespaces(Src(), Out(), tree.children);
      RootInside();
      count := 0;
      assert NamespacesPushed(old(plain), 0, count);
      for i := 0 to |tree.children|
        invariant Grows() && NamespacesPushed(old(plain), i, count)
      {
        hide *;
        var pushed := PushNext(tree, i, old(plain), count);
        if pushed {
          count := count + 1;
        }
      }
    }

    method PushNext(tree: Tree, i: nat, ghost was: bool, ghost count: nat) returns (pushed: bool)
      requires (forall k, n, l :: makeId(k, n, l) != "") && tree == root && i < |root.children| && NamespacesPushed(was, i, count)
      modifies this
      ensures Grows() && NamespacesPushed(was, i + 1, if pushed then count + 1 else count)
    {
      RootInside();
      hide WellWalked, Inside, TopTypes, NamespaceEmitted, NamespacesUpTo, IsFileNamespace, FileNamespaces,
        NamespaceScope;
      ghost var o := Out();
      NextNamespace(Src(), tree.children, i);
      pushed := PushIfNamespace(tree, tree.children[i], count);
      NamespaceStep(Src(), o, Out(), tree.children, i);
    }

    lemma RootInside()
      ensures Inside(root, root)
    {
    }

    method PushIfNamespace(tree: Tree, child: Tree, ghost count: nat) returns (pushed: bool)
      requires Valid() && (forall k, n, l :: makeId(k, n, l) != "") && Inside(root, tree) && child in tree.children
      requires TopTypes(Src(), nodes) && |scope| == 1 + count
      modifies this
      ensures Valid() && Grows() && TopTypes(Src(), nodes) && pushed == IsFileNamespace(child)
      ensures scope == if pushed then old(scope) + [makeId(Namespace, child.Field("name").value.text, child.row + 1)] else old(scope)
      ensures plain == (old(plain) && (pushed ==> count == 0))
      ensures pushed ==> NamespaceEmitted(Src(), Out(), child, old(scope)[|old(scope)|-1])
    {
      hide WellWalked, Inside, TopTypes, NamespaceEmitted;
      if child.named && child.kind == FILE_SCOPED {
        var nameNode := child.Field("name");
        var name := if nameNode.Some? then nameNode.value.text else "";
        if name != "" {
          ChildInside(root, tree, child);
          PushFileNamespace(child, name, count);
          return true;
        }
      }
      return false;
    }

    method PushFileNamespace(child: Tree, name: string, ghost count: nat)
      requires Valid() && (forall k, n, l :: makeId(k, n, l) != "") && Inside(root, child) && child.kind == FILE_SCOPED
      requires child.Field("name").Some? && name == child.Field("name").value.text && name != "" && |scope| == 1 + count
      requires TopTypes(Src(), nodes)
      modifies this
      ensures Valid() && Grows() && scope == old(scope) + [makeId(Namespace, name, child.row + 1)] && TopTypes(Src(), nodes)
      ensures plain == (old(plain) && count == 0)
      ensures NamespaceEmitted(Src(), Out(), child, old(scope)[|old(scope)|-1])
    {
      if count > 0 {
        ghost var was := plain;
        plain := false;
        NotPlain(was);
      }
      var id := makeId(Namespace, name, child.row + 1);
      var n := Node(id, name, name, Namespace, filePath, child.row + 1, false, None, None);
      assert Explains(Src(), child, n);
      AloneHere(n);
      TopTypesOther(Src(), nodes, n);
      hide WellWalked, Explains, Inside, TopTypes, Link, HasId, InClassScope, InFunctionScope, ScopeNames,
        DistinctIds, Under, NamespaceEmitted;
      Append(n, scope[|scope|-1], child);
      LastIsNamespace(n, child);
      Push(id);
    }

    lemma LastIsNamespace(n: Node, child: Tree)
      requires |scope| > 0 && |nodes| > 0 && nodes[|nodes|-1] == n && Explains(Src(), child, n)
      requires |edges| > 0 && edges[|edges|-1] == Edge(scope[|scope|-1], n.id, Contains)
      requires n.kind.Namespace? && n.qualifiedName == n.name
      ensures NamespaceEmitted(Src(), Out(), child, scope[|scope|-1])
    {
      assert n in nodes && edges[|edges|-1] in edges;
      hide Explains;
    }

    lemma AloneHere(n: Node)
      requires Valid() && (plain ==> |scope| == 1) && n.qualifiedName == n.name && !n.kind.File?
      ensures HasId(nodes, scope[|scope|-1])
      ensures plain && DistinctIds(nodes) ==> n.qualifiedName == Under(nodes, scope[|scope|-1], n.name)
      ensures plain && DistinctIds(nodes + [n]) ==> Link(nodes + [n], scope, n.id)
    {
      InnermostExists();
      hide WellWalked, HasId, Link, ScopeNames, Under;
      if plain && DistinctIds(nodes + [n]) { DistinctPrefix(nodes, n); }
      if plain && DistinctIds(nodes) {
        ChainedHere();
        AloneInScope(nodes, scope, n.name);
        if DistinctIds(nodes + [n]) { LinksHere(n); }
      }
    }

    /** The scope is back to empty unless impl blocks left entries on it. */
    method Run(tree: Tree) returns (ghost leaks: nat)
      requires Valid() && plain && (forall k, n, l :: makeId(k, n, l) != "") && tree == root && scope == ["file:" + filePath]
      requires TopTypes(Src(), nodes)
      modifies this
      ensures TreeShaped(nodes, edges) && Anchored(nodes, unresolved) && Explained(Src(), nodes, unresolved) && Grows()
      ensures plain && DistinctIds(nodes) ==> NamedByParent(nodes, edges)
      ensures |scope| == leaks && (NoBareImpl(root) ==> leaks == 0)
      ensures FileCovered(Src(), Out())
      ensures ImplsFit(Src(), root, TopLevel(Src())) && (config.namespaceTypes == {} || FileNamespaces(root.children) <= 1) ==> plain
    {
      hide Inside, Covered, NoBareImpl, ImplsFit, Nests, TopTypes, InClassScope, InFunctionScope, ScopeNames,
        NamespaceEmitted;
      var count := 0;
      if config.namespaceTypes != {} {
        count := PushFileNamespaces(tree);
        assert root.children[..|root.children|] == root.children;
      }
      RootInside();
      ghost var o := Out();
      assert scope == NamespaceScope(Src(), Siblings(Src()));
      leaks := WalkNode(tree);
      assert Covered(Src(), Out(), root, NamespaceScope(Src(), Siblings(Src())), scope);
      NamespacesGrow(Src(), o, Out(), Siblings(Src()), |Siblings(Src())|);
      scope := scope[..|scope|-count];
      scope := scope[..|scope|-1];
    }
  }

  function FileNode(filePath: string, fileName: string): Node
  {
    Node("file:" + filePath, fileName, filePath, File, filePath, 1, false, None, None)
  }

  /** Extracts one file. Whatever the tree, the language tables and the ids, the batch is
      closed, its contains edges hang every node below an earlier one, nothing in it is made
      up and nothing the walk visits is missed. Names follow the containment when the ids are
      distinct, the impl blocks fit and at most one file-scoped namespace is declared. */
  method ExtractWithConfig(filePath: string, fileName: string, hash: string, config: LanguageConfig, makeId: IdMaker, root: Tree)
    returns (batch: ExtractionBatch)
    requires forall k, n, l :: makeId(k, n, l) != ""
    ensures TreeShaped(batch.nodes, batch.edges) && batch.file == FileRecord(filePath, hash, |batch.nodes|)
    ensures batch.nodes[0] == Node("file:" + filePath, fileName, filePath, File, filePath, 1, false, None, None)
    ensures Closed(batch.nodes, batch.edges, batch.refs)
    ensures Explained(Source(filePath, config, makeId, root), batch.nodes, batch.refs)
    ensures FileCovered(Source(filePath, config, makeId, root), Output(batch.nodes, batch.edges, batch.refs))
    ensures var s := Source(filePath, config, makeId, root);
            DistinctIds(batch.nodes) && ImplsFit(s, root, TopLevel(s))
            && (config.namespaceTypes == {} || FileNamespaces(root.children) <= 1) ==>
              NamedByParent(batch.nodes, batch.edges)
  {
    hide Explained, FileCovered, TreeShaped, Anchored, NamedByParent, ImplsFit, TopLevel, FileNamespaces;
    var ctx := new ExtractCtx(filePath, config, makeId, fileName, root);
    ghost var leaks := ctx.Run(root);
    batch := ExtractionBatch(FileRecord(filePath, hash, |ctx.nodes|), ctx.nodes, ctx.edges, ctx.unresolved);
    ShapedIsClosed(batch.nodes, batch.edges, batch.refs);
  }

  // ----- what the shape means -----------------------------------------------------------------

  lemma HasIdIsIn(nodes: seq<Node>, k: nat, id: string)
    requires k <= |nodes| && HasId(nodes[..k], id)
    ensures id in NodeIds(nodes)
  {
    var j :| 0 <= j < k && nodes[..k][j].id == id;
    assert nodes[j] in nodes;
  }

  lemma ShapedIsClosed(nodes: seq<Node>, edges: seq<Edge>, refs: seq<UnresolvedRef>)
    requires TreeShaped(nodes, edges) && Anchored(nodes, refs)
    ensures Closed(nodes, edges, refs)
  {
    forall e | e in edges ensures e.source in NodeIds(nodes) && e.target in NodeIds(nodes) {
      var k :| 0 <= k < |edges| && edges[k] == e;
      HasIdIsIn(nodes, k + 1, e.source);
      assert nodes[k+1] in nodes;
    }
    forall r | r in refs ensures r.fromNode in NodeIds(nodes) {
      var i :| 0 <= i < |refs| && refs[i] == r;
      assert nodes[..|nodes|] == nodes;
      HasIdIsIn(nodes, |nodes|, r.fromNode);
    }
  }

  /** The file node reaches `id` by contains edges. */
  ghost predicate Reaches(nodes: seq<Node>, edges: seq<Edge>, id: string, steps: nat)
    decreases steps
  {
    if steps == 0 then |nodes| > 0 && id == nodes[0].id
    else exists e :: e in edges && e.target == id && Reaches(nodes, edges, e.source, steps - 1)
  }

  /** Every emitted node hangs below the file. */
  lemma {:induction false} EveryNodeIsReachable(nodes: seq<Node>, edges: seq<Edge>, k: nat)
    requires TreeShaped(nodes, edges) && k < |nodes|
    ensures exists steps: nat :: Reaches(nodes, edges, nodes[k].id, steps)
    decreases k
  {
    if k == 0 {
      assert Reaches(nodes, edges, nodes[0].id, 0);
    } else {
      var e := edges[k-1];
      var j :| 0 <= j < k && nodes[..k][j].id == e.source;
      assert nodes[j].id == e.source;
      EveryNodeIsReachable(nodes, edges, j);
      var steps: nat :| Reaches(nodes, edges, nodes[j].id, steps);
      assert e in edges && e.target == nodes[k].id;
      assert Reaches(nodes, edges, nodes[k].id, steps + 1);
    }
  }

  /** With distinct ids the contains edges are a tree: each node but the file is the target
      of exactly one edge, and no edge enters the file. */
  lemma ExactlyOneParent(nodes: seq<Node>, edges: seq<Edge>, k: nat, i: nat)
    requires TreeShaped(nodes, edges) && DistinctIds(nodes) && k < |nodes| && i < |edges|
    ensures edges[i].target == nodes[k].id <==> k > 0 && i == k - 1
  {
    if i + 1 < k { assert nodes[i+1].id != nodes[k].id; }
    if k < i + 1 { assert nodes[k].id != nodes[i+1].id; }
  }

  /** A batch the walk produced is stored whole: no foreign key fails, in the per-file path
      or the bulk path, and the orphan backstop of the bulk path skips nothing. */
  lemma WalkedBatchIsStored(db: Db, batch: ExtractionBatch, backstop: bool)
    requires WellFormed(db) && TreeShaped(batch.nodes, batch.edges) && Anchored(batch.nodes, batch.refs)
    ensures StoreTx(db, batch, backstop).Some?
    ensures WithoutOrphans(batch.edges, NodeIds(batch.nodes)) == batch.edges
  {
    ShapedIsClosed(batch.nodes, batch.edges, batch.refs);
    ClosedBatchStores(db, batch, backstop);
  }
}
