/** What a walked tree leaves in the batch, by what stands in the tree: declarations become
    nodes of their kind, calls, imports and impl blocks become references, and nothing else
    does. */
module WalkLaws {
  import opened Graph
  import opened WalkCases
  import opened WalkNames
  import opened WalkSpec

  // ----- declarations ----------------------------------------------------------------------

  predicate IsClass(c: LanguageConfig, d: Tree) { d.kind in c.classTypes || d.kind in c.extraClassTypes }

  predicate IsCallable(c: LanguageConfig, d: Tree) { d.kind in c.functionTypes || d.kind in c.methodTypes }

  /** The language table asks for a node of this kind at d; inside a class a type listed for
      functions and for methods is a method. Earlier lists take precedence. */
  predicate Declares(c: LanguageConfig, d: Tree, inClass: bool, kind: NodeKind)
  {
    && d.kind !in c.namespaceTypes
    && match kind
       case Function => d.kind in c.functionTypes && !(inClass && d.kind in c.methodTypes)
       case Method => d.kind in c.methodTypes && (d.kind in c.functionTypes ==> inClass)
       case Class => IsClass(c, d) && !IsCallable(c, d)
       case Interface => d.kind in c.interfaceTypes && !IsCallable(c, d) && !IsClass(c, d)
       case Struct => d.kind in c.structTypes && !IsCallable(c, d) && !IsClass(c, d) && d.kind !in c.interfaceTypes
       case Enum =>
         && d.kind in c.enumTypes && !IsCallable(c, d) && !IsClass(c, d)
         && d.kind !in c.interfaceTypes && d.kind !in c.structTypes
       case Type =>
         && d.kind in c.typeAliasTypes && !IsCallable(c, d) && !IsClass(c, d)
         && d.kind !in c.interfaceTypes && d.kind !in c.structTypes && d.kind !in c.enumTypes
       case Property => d.kind in c.propertyTypes && inClass && OnlyMember(c, d)
       case Field => d.kind in c.fieldTypes && d.kind !in c.propertyTypes && inClass && OnlyMember(c, d)
       case _ => false
  }

  predicate OnlyMember(c: LanguageConfig, d: Tree)
  {
    && !IsCallable(c, d) && !IsClass(c, d) && d.kind !in c.interfaceTypes && d.kind !in c.structTypes
    && d.kind !in c.enumTypes && d.kind !in c.typeAliasTypes
  }

  /** The output has a node of this kind and name for d, below the innermost entry of the
      scope and qualified by the names on it. */
  ghost predicate HasNode(s: Source, o: Output, d: Tree, scope: seq<string>, kind: NodeKind, name: string)
    requires |scope| > 0
  {
    exists n :: NodeFor(s, o, d, scope, kind, name, n)
  }

  predicate IsExportable(kind: NodeKind)
  {
    || kind == Function || kind == Method || kind == Class || kind == Interface || kind == Struct || kind == NodeKind.Enum
  }

  ghost predicate NodeFor(s: Source, o: Output, d: Tree, scope: seq<string>, kind: NodeKind, name: string, n: Node)
    requires |scope| > 0
  {
    && n in o.nodes && n.kind == kind && n.name == name && n.filePath == s.filePath && n.startLine == d.row + 1
    && n.id == s.makeId(kind, name, d.row + 1) && n.qualifiedName == Join(ScopeNames(o.nodes, scope) + [name])
    && (IsExportable(kind) ==> n.isExported == d.exported) && Edge(scope[|scope|-1], n.id, Contains) in o.edges
  }

  lemma EmittedIs(s: Source, o: Output, d: Tree, scope: seq<string>, kind: NodeKind, name: string)
    requires |scope| > 0 && Emitted(s, o, d, PlaceOf(o.nodes, scope), kind, name) && name != "" && name != "<anonymous>"
    ensures HasNode(s, o, d, scope, kind, name)
  {
    var n :| EmittedAs(s, o, d, PlaceOf(o.nodes, scope), kind, name, n);
    NodeIs(s, o, d, scope, kind, name, n);
  }

  lemma NodeIs(s: Source, o: Output, d: Tree, scope: seq<string>, kind: NodeKind, name: string, n: Node)
    requires |scope| > 0 && EmittedAs(s, o, d, PlaceOf(o.nodes, scope), kind, name, n)
    ensures NodeFor(s, o, d, scope, kind, name, n)
  {
    hide InClassScope, InFunctionScope, ScopeNames, Join;
  }

  lemma DeclaresKind(c: LanguageConfig, d: Tree, p: Place, kind: NodeKind)
    requires Declares(c, d, p.inClass, kind)
    ensures EmittedKind(c, d, p) == Some(kind)
  {
  }

  /** Every declaration that is visited has its node. */
  lemma DeclarationIsEmitted(s: Source, o: Output, d: Tree, scope: seq<string>, end: seq<string>, kind: NodeKind, name: string)
    requires Covered(s, o, d, scope, end) && Declares(s.config, d, InClassScope(o.nodes, scope), kind)
    requires Named(d, s.config.nameField, name) && name != "" && name != "<anonymous>"
    ensures |scope| > 0 && HasNode(s, o, d, scope, kind, name)
  {
    assert At(o, scope);
    var p := PlaceOf(o.nodes, scope);
    DeclaresKind(s.config, d, p, kind);
    NameOfIs(d, s.config.nameField, name);
    assert !kind.Namespace?;
    hide EmittedKind, Declares, Named, HasNode, InnerCovered, KidsCovered, At;
    if kind != Property && kind != NodeKind.Field && !kind.Type? {
      var n, inner :| EmittedAs(s, o, d, p, kind, name, n) && InnerCovered(s, o, d, kind, scope + [n.id], inner) && end == Popped(inner);
      assert Emitted(s, o, d, p, kind, name);
    }
    EmittedIs(s, o, d, scope, kind, name);
  }

  /** A namespace that is not file-scoped has its node. */
  lemma NamespaceIsEmitted(s: Source, o: Output, d: Tree, scope: seq<string>, end: seq<string>, name: string)
    requires Covered(s, o, d, scope, end) && d.kind in s.config.namespaceTypes && d.kind != "file_scoped_namespace_declaration"
    requires NamespaceNamed(d, name) && name != "" && name != "<anonymous>"
    ensures |scope| > 0 && HasNode(s, o, d, scope, Namespace, name)
  {
    assert At(o, scope);
    var p := PlaceOf(o.nodes, scope);
    assert EmittedKind(s.config, d, p) == Some(Namespace);
    NamespaceNameIs(d, name);
    hide EmittedKind, NamespaceNamed, HasNode, InnerCovered, KidsCovered, At;
    var n, inner :| EmittedAs(s, o, d, p, Namespace, name, n) && InnerCovered(s, o, d, Namespace, scope + [n.id], inner)
                    && end == Popped(inner);
    assert Emitted(s, o, d, p, Namespace, name);
    EmittedIs(s, o, d, scope, Namespace, name);
  }

  /** The kinds of declaration a type is not listed for. */
  predicate DeclaresNothing(c: LanguageConfig, d: Tree)
  {
    && d.kind !in c.namespaceTypes && OnlyMember(c, d) && d.kind !in c.propertyTypes && d.kind !in c.fieldTypes
  }

  predicate IsDeclaratorKind(kind: string) { kind == "variable_declarator" || kind == "lexical_binding" }

  /** Outside classes and callables each declarator of a variable declaration has its node. */
  lemma VariableIsEmitted(s: Source, o: Output, d: Tree, scope: seq<string>, end: seq<string>, k: nat, name: string)
    requires Covered(s, o, d, scope, end) && DeclaresNothing(s.config, d) && d.kind in s.config.variableTypes
    requires !InClassScope(o.nodes, scope) && !InFunctionScope(o.nodes, scope)
    requires k < |d.children| && d.children[k].named && IsDeclaratorKind(d.children[k].kind)
    requires d.children[k].Field("name").Some? && d.children[k].Field("name").value.text == name
    requires name != "" && name != "<anonymous>"
    ensures |scope| > 0 && HasNode(s, o, d.children[k], scope, Variable, name)
  {
    assert At(o, scope);
    var p := PlaceOf(o.nodes, scope);
    assert EmittedKind(s.config, d, p).None? && IsVariable(s.config, d, p);
    hide EmittedKind, HasNode, At, IsVariable, DeclaresNothing, PlaceOf;
    assert VariablesEmitted(s, o, d, p);
    hide Emitted;
    assert IsDeclarator(d.children[k]);
    EmittedIs(s, o, d.children[k], scope, Variable, name);
  }

  /** One without declarators has a node of its own. */
  lemma BareVariableIsEmitted(s: Source, o: Output, d: Tree, scope: seq<string>, end: seq<string>, name: string)
    requires Covered(s, o, d, scope, end) && DeclaresNothing(s.config, d) && d.kind in s.config.variableTypes
    requires !InClassScope(o.nodes, scope) && !InFunctionScope(o.nodes, scope)
    requires forall k :: 0 <= k < |d.children| ==> !(d.children[k].named && IsDeclaratorKind(d.children[k].kind))
    requires Named(d, s.config.nameField, name) && name != "" && name != "<anonymous>"
    ensures |scope| > 0 && HasNode(s, o, d, scope, Variable, name)
  {
    assert At(o, scope);
    var p := PlaceOf(o.nodes, scope);
    assert EmittedKind(s.config, d, p).None? && IsVariable(s.config, d, p);
    NameOfIs(d, s.config.nameField, name);
    hide EmittedKind, HasNode, At, IsVariable, DeclaresNothing, PlaceOf, Named;
    assert VariablesEmitted(s, o, d, p);
    hide Emitted;
    EmittedIs(s, o, d, scope, Variable, name);
  }

  // ----- what is visited below a declaration ----------------------------------------------------

  /** The named children were visited in this scope. */
  ghost predicate VisitedIn(s: Source, o: Output, children: seq<Tree>, scope: seq<string>)
  {
    forall i :: 0 <= i < |children| && children[i].named ==> Covered(s, o, children[i], scope, scope)
  }

  lemma KidsAreVisited(s: Source, o: Output, d: Tree, scope: seq<string>, end: seq<string>)
    requires (forall c :: c in d.children ==> NoBareImpl(c)) && KidsCovered(s, o, d, {}, scope, end)
    ensures VisitedIn(s, o, d.children, scope)
  {
    hide Covered, NoBareImpl, KidsUpTo;
    KidsNoLeak(s, o, d, {}, scope, |d.children|, end);
    forall i | 0 <= i < |d.children| && d.children[i].named ensures Covered(s, o, d.children[i], scope, scope) {
      assert KidCovered(s, o, d.children[i], {}, scope, scope);
    }
  }

  /** The node of the declaration and what was visited inside it. */
  lemma Opened(s: Source, o: Output, d: Tree, scope: seq<string>, end: seq<string>, kind: NodeKind, name: string)
    returns (n: Node, inner: seq<string>)
    requires Covered(s, o, d, scope, end) && Declares(s.config, d, InClassScope(o.nodes, scope), kind)
    requires Named(d, s.config.nameField, name) && name != "" && name != "<anonymous>"
    requires kind != Property && kind != NodeKind.Field && !kind.Type?
    ensures |scope| > 0 && NodeFor(s, o, d, scope, kind, name, n) && InnerCovered(s, o, d, kind, scope + [n.id], inner)
  {
    assert At(o, scope);
    var p := PlaceOf(o.nodes, scope);
    DeclaresKind(s.config, d, p, kind);
    NameOfIs(d, s.config.nameField, name);
    assert !kind.Namespace?;
    hide EmittedKind, Declares, Named, NodeFor, InnerCovered, KidsCovered, At;
    n, inner :| EmittedAs(s, o, d, p, kind, name, n) && InnerCovered(s, o, d, kind, scope + [n.id], inner) && end == Popped(inner);
    NodeIs(s, o, d, scope, kind, name, n);
  }

  /** All named children of a class, interface or struct are visited below its node. */
  lemma TypeBodyIsVisited(s: Source, o: Output, d: Tree, scope: seq<string>, end: seq<string>, kind: NodeKind, name: string)
    requires NoBareImpl(d) && Covered(s, o, d, scope, end) && Declares(s.config, d, InClassScope(o.nodes, scope), kind)
    requires Named(d, s.config.nameField, name) && name != "" && name != "<anonymous>"
    requires kind == Class || kind == Interface || kind == Struct
    ensures |scope| > 0 && exists n :: NodeFor(s, o, d, scope, kind, name, n) && VisitedIn(s, o, d.children, scope + [n.id])
  {
    var n, inner := Opened(s, o, d, scope, end, kind, name);
    assert forall c :: c in d.children ==> NoBareImpl(c);
    hide NoBareImpl, Covered, Declares, Named, NodeFor, VisitedIn;
    KidsAreVisited(s, o, d, scope + [n.id], inner);
  }

  /** All named children of the body of a function or method are visited below its node. */
  lemma CallableBodyIsVisited(s: Source, o: Output, d: Tree, scope: seq<string>, end: seq<string>, kind: NodeKind, name: string, body: Tree)
    requires NoBareImpl(d) && Covered(s, o, d, scope, end) && Declares(s.config, d, InClassScope(o.nodes, scope), kind)
    requires Named(d, s.config.nameField, name) && name != "" && name != "<anonymous>"
    requires (kind == Function || kind == Method) && d.Field(s.config.bodyField) == Some(body)
    ensures |scope| > 0 && exists n :: NodeFor(s, o, d, scope, kind, name, n) && VisitedIn(s, o, body.children, scope + [n.id])
  {
    var n, inner := Opened(s, o, d, scope, end, kind, name);
    assert body in d.children && NoBareImpl(body);
    assert forall c :: c in body.children ==> NoBareImpl(c);
    assert KidsCovered(s, o, body, {}, scope + [n.id], inner);
    hide NoBareImpl, Covered, Declares, Named, NodeFor, VisitedIn, InnerCovered;
    KidsAreVisited(s, o, body, scope + [n.id], inner);
  }

  /** The body of a namespace. */
  predicate HasNamespaceBody(d: Tree, body: Tree)
  {
    match d.Field("body")
    case Some(b) => body == b
    case None => d.Field("declaration_list") == Some(body)
  }

  /** All named children of a namespace body are visited below its node; without a body, all
      named children but its names. */
  lemma NamespaceBodyIsVisited(s: Source, o: Output, d: Tree, scope: seq<string>, end: seq<string>, name: string)
    requires NoBareImpl(d) && Covered(s, o, d, scope, end) && d.kind in s.config.namespaceTypes
    requires d.kind != "file_scoped_namespace_declaration" && NamespaceNamed(d, name) && name != "" && name != "<anonymous>"
    ensures |scope| > 0
    ensures exists n :: NodeFor(s, o, d, scope, Namespace, name, n) && NamespaceVisited(s, o, d, scope + [n.id])
  {
    assert At(o, scope);
    var p := PlaceOf(o.nodes, scope);
    assert EmittedKind(s.config, d, p) == Some(Namespace);
    NamespaceNameIs(d, name);
    hide EmittedKind, NamespaceNamed, NodeFor, InnerCovered, At, NamespaceVisited, NoBareImpl;
    var n, inner :| EmittedAs(s, o, d, p, Namespace, name, n) && InnerCovered(s, o, d, Namespace, scope + [n.id], inner)
                    && end == Popped(inner);
    NodeIs(s, o, d, scope, Namespace, name, n);
    NamespaceIsVisited(s, o, d, scope + [n.id], inner);
  }

  ghost predicate NamespaceVisited(s: Source, o: Output, d: Tree, scope: seq<string>)
  {
    && (forall body :: HasNamespaceBody(d, body) ==> VisitedIn(s, o, body.children, scope))
    && ((forall body :: !HasNamespaceBody(d, body)) ==>
          forall i :: 0 <= i < |d.children| && d.children[i].named && d.children[i].kind != "qualified_name"
                      && d.children[i].kind != "identifier" && d.children[i].kind != "name" ==>
            Covered(s, o, d.children[i], scope, scope))
  }

  lemma NamespaceIsVisited(s: Source, o: Output, d: Tree, scope: seq<string>, inner: seq<string>)
    requires NoBareImpl(d) && InnerCovered(s, o, d, Namespace, scope, inner)
    ensures NamespaceVisited(s, o, d, scope)
  {
    assert forall c :: c in d.children ==> NoBareImpl(c);
    forall body | HasNamespaceBody(d, body) ensures VisitedIn(s, o, body.children, scope) {
      assert body in d.children && NoBareImpl(body);
      assert forall c :: c in body.children ==> NoBareImpl(c);
      assert KidsCovered(s, o, body, {}, scope, inner);
      hide NoBareImpl, KidsCovered, InnerCovered, VisitedIn;
      KidsAreVisited(s, o, body, scope, inner);
    }
    if forall body :: !HasNamespaceBody(d, body) {
      NoBody(d);
      assert KidsUpTo(s, o, d, NAMESPACE_NAMES, scope, |d.children|, inner);
      hide NoBareImpl, KidsUpTo, InnerCovered, HasNamespaceBody, Covered;
      KidsNoLeak(s, o, d, NAMESPACE_NAMES, scope, |d.children|, inner);
      forall i | 0 <= i < |d.children| && d.children[i].named && d.children[i].kind != "qualified_name"
                 && d.children[i].kind != "identifier" && d.children[i].kind != "name"
        ensures Covered(s, o, d.children[i], scope, scope)
      {
        assert KidCovered(s, o, d.children[i], NAMESPACE_NAMES, scope, scope);
      }
    }
  }

  lemma NoBody(d: Tree)
    requires forall body :: !HasNamespaceBody(d, body)
    ensures NamespaceBody(d).None?
  {
    if d.Field("body").Some? { assert HasNamespaceBody(d, d.Field("body").value); }
    if d.Field("declaration_list").Some? { assert HasNamespaceBody(d, d.Field("declaration_list").value); }
  }

  predicate IsVariantList(kind: string) { kind == "enum_body" || kind == "enum_variant_list" || kind == "enum_class_body" }

  /** A named child of an enum: a list of variants is visited through, a variant has its
      node, anything else is visited. */
  ghost predicate VariantIn(s: Source, o: Output, d: Tree, scope: seq<string>)
    requires |scope| > 0
  {
    if IsVariantList(d.kind) then VisitedIn(s, o, d.children, scope)
    else if d.kind in s.config.enumMemberTypes then
      forall name :: Named(d, s.config.nameField, name) && name != "" && name != "<anonymous>" ==>
        HasNode(s, o, d, scope, EnumMember, name)
    else Covered(s, o, d, scope, scope)
  }

  lemma VariantIsCovered(s: Source, o: Output, d: Tree, scope: seq<string>)
    requires |scope| > 0 && d.named && NoBareImpl(d) && EnumKidCovered(s, o, d, scope, scope)
    ensures VariantIn(s, o, d, scope)
  {
    assert d.kind in ENUM_BODIES <==> IsVariantList(d.kind);
    assert forall c :: c in d.children ==> NoBareImpl(c);
    hide NoBareImpl, Covered, Named, HasNode, IsVariantList, VisitedIn, KidsCovered, Emitted;
    if d.kind in ENUM_BODIES {
      KidsAreVisited(s, o, d, scope, scope);
    } else if d.kind in s.config.enumMemberTypes {
      forall name | Named(d, s.config.nameField, name) && name != "" && name != "<anonymous>"
        ensures HasNode(s, o, d, scope, EnumMember, name)
      {
        NameOfIs(d, s.config.nameField, name);
        EmittedIs(s, o, d, scope, EnumMember, name);
      }
    }
  }

  /** All named children of an enum are visited below its node. */
  lemma EnumBodyIsVisited(s: Source, o: Output, d: Tree, scope: seq<string>, end: seq<string>, name: string)
    requires NoBareImpl(d) && Covered(s, o, d, scope, end) && Declares(s.config, d, InClassScope(o.nodes, scope), NodeKind.Enum)
    requires Named(d, s.config.nameField, name) && name != "" && name != "<anonymous>"
    ensures |scope| > 0
    ensures exists n :: (NodeFor(s, o, d, scope, NodeKind.Enum, name, n)
              && forall i :: 0 <= i < |d.children| && d.children[i].named ==> VariantIn(s, o, d.children[i], scope + [n.id]))
  {
    var n, inner := Opened(s, o, d, scope, end, NodeKind.Enum, name);
    assert forall c :: c in d.children ==> NoBareImpl(c);
    hide NoBareImpl, Covered, Declares, Named, NodeFor, EnumKidCovered, VariantIn, EnumUpTo;
    EnumNoLeak(s, o, d, scope + [n.id], |d.children|, inner);
    forall i | 0 <= i < |d.children| && d.children[i].named ensures VariantIn(s, o, d.children[i], scope + [n.id]) {
      VariantIsCovered(s, o, d.children[i], scope + [n.id]);
    }
  }

  /** What declares nothing is passed through: its named children are visited where it stands. */
  lemma PlainTreeIsVisited(s: Source, o: Output, d: Tree, scope: seq<string>, end: seq<string>)
    requires NoBareImpl(d) && Covered(s, o, d, scope, end) && DeclaresNothing(s.config, d)
    requires d.kind !in s.config.variableTypes && d.kind != "impl_item"
    ensures VisitedIn(s, o, d.children, scope)
  {
    assert EmittedKind(s.config, d, PlaceOf(o.nodes, scope)).None?;
    assert forall c :: c in d.children ==> NoBareImpl(c);
    hide EmittedKind, NoBareImpl, DeclaresNothing, VisitedIn, Recorded, CalleeName, ModuleName;
    assert KidsCovered(s, o, d, {}, scope, end);
    hide Covered;
    KidsAreVisited(s, o, d, scope, end);
  }

  // ----- references --------------------------------------------------------------------------

  /** Every call that is visited is a reference from the innermost entry of the scope. */
  lemma CallIsReferred(s: Source, o: Output, d: Tree, scope: seq<string>, end: seq<string>, name: string)
    requires Covered(s, o, d, scope, end) && DeclaresNothing(s.config, d) && d.kind in s.config.callTypes
    requires d.kind !in s.config.variableTypes && d.kind !in s.config.importTypes
    requires CallsName(d, name) && name != "" && name != "new"
    ensures |scope| > 0 && UnresolvedRef(0, scope[|scope|-1], name, "calls", s.filePath) in o.refs
  {
    assert EmittedKind(s.config, d, PlaceOf(o.nodes, scope)).None?;
    CalleeNameIs(d, name);
    hide EmittedKind, CalleeName, KidsCovered, DeclaresNothing, CallsName;
  }

  /** Every import that is visited is a reference to its module. */
  lemma ImportIsReferred(s: Source, o: Output, d: Tree, scope: seq<string>, end: seq<string>, c: Tree, name: string)
    requires Covered(s, o, d, scope, end) && DeclaresNothing(s.config, d) && d.kind in s.config.importTypes
    requires d.kind !in s.config.variableTypes && HasModule(d, c) && Between(c.text, name)
    ensures |scope| > 0 && UnresolvedRef(0, scope[|scope|-1], name, "imports", s.filePath) in o.refs
  {
    assert EmittedKind(s.config, d, PlaceOf(o.nodes, scope)).None?;
    ModuleNameIs(d, c, name);
    hide EmittedKind, ModuleName, KidsCovered, DeclaresNothing, Between, HasModule;
  }

  /** `impl Trait for Type` is a reference to the trait from a node of the batch. */
  lemma TraitIsReferred(s: Source, o: Output, d: Tree, scope: seq<string>, end: seq<string>, first: nat, last: nat)
    requires Covered(s, o, d, scope, end) && DeclaresNothing(s.config, d) && d.kind == "impl_item"
    requires d.kind !in s.config.variableTypes && d.kind !in s.config.importTypes && d.kind !in s.config.callTypes
    requires first < last < |d.children| && IsTypeIdent(d.children[first]) && IsTypeIdent(d.children[last])
    requires forall i :: 0 <= i < |d.children| && IsTypeIdent(d.children[i]) ==> first <= i <= last
    requires d.children[first].text != ""
    ensures exists id :: IsImplTarget(s, o, d, id)
                         && UnresolvedRef(0, id, d.children[first].text, "implements", s.filePath) in o.refs
  {
    assert EmittedKind(s.config, d, PlaceOf(o.nodes, scope)).None?;
    ImplTypeIs(d, first, last);
    hide EmittedKind, DeclaresNothing, IsImplTarget, BodyCovered, ImplType;
    assert ImplCovered(s, o, d, scope, end);
    var id :| IsImplTarget(s, o, d, id) && ImplCoveredOn(s, o, d, id, scope, end);
    assert ImplementsRecorded(s, o, d, id);
  }

  // ----- nothing is made up ------------------------------------------------------------------

  /** Every reference of a batch is asked for by a call, an import or an impl block. */
  lemma ReferencesAreAsked(s: Source, nodes: seq<Node>, refs: seq<UnresolvedRef>, r: UnresolvedRef)
    requires Explained(s, nodes, refs) && r in refs
    ensures r.kind == "calls" || r.kind == "imports" || r.kind == "implements"
    ensures r.kind == "calls" && r.name != "" ==>
              exists d :: Inside(s.root, d) && d.kind in s.config.callTypes && CallsName(d, r.name) && r.name != "new"
    ensures r.kind == "imports" ==>
              exists d :: Inside(s.root, d) && d.kind in s.config.importTypes && r.name == ModuleName(d)
    ensures r.kind == "implements" ==>
              exists d, k: nat :: Inside(s.root, d) && d.kind == "impl_item" && FirstTypeIdent(d, k) && r.name == d.children[k].text
  {
    var i :| 0 <= i < |refs| && refs[i] == r;
    assert RefFrom(s, refs[i]);
    var d :| Inside(s.root, d) && Refers(s, d, r);
    hide Inside, CalleeName, ModuleName, Explained, TypeIdents, CallsName;
    CalleeNameIs(d, r.name);
    if r.kind == "implements" {
      var k := FirstTypeIdentIs(d, d.children, 0);
      assert FirstTypeIdent(d, k);
    }
  }

  predicate FirstTypeIdent(d: Tree, k: nat)
  {
    k < |d.children| && IsTypeIdent(d.children[k]) && forall i :: 0 <= i < k ==> !IsTypeIdent(d.children[i])
  }

  lemma {:induction false} FirstTypeIdentIs(d: Tree, rest: seq<Tree>, from: nat) returns (k: nat)
    requires from <= |d.children| && rest == d.children[from..] && TypeIdents(rest) != []
    requires forall i :: 0 <= i < from ==> !IsTypeIdent(d.children[i])
    ensures FirstTypeIdent(d, k) && TypeIdents(rest)[0] == d.children[k].text
    decreases |rest|
  {
    if IsTypeIdent(rest[0]) {
      k := from;
    } else {
      k := FirstTypeIdentIs(d, rest[1..], from + 1);
    }
  }

  // ----- where a scope stands -----------------------------------------------------------------

  /** The innermost entry that is a type or the file decides whether the scope is in a class. */
  lemma InClassIs(nodes: seq<Node>, scope: seq<string>, n: Node)
    requires FindNode(nodes, n.id) == Some(n)
    ensures InClassScope(nodes, scope + [n.id])
         == match n.kind
            case File => false
            case Class => true
            case Struct => true
            case Interface => true
            case Trait => true
            case Enum => true
            case Component => true
            case _ => InClassScope(nodes, scope)
    ensures InFunctionScope(nodes, scope + [n.id])
         == match n.kind
            case File => false
            case Function => true
            case Method => true
            case _ => InFunctionScope(nodes, scope)
    ensures ScopeNames(nodes, scope + [n.id]) == ScopeNames(nodes, scope) + if n.kind.File? then [] else [n.name]
  {
    assert (scope + [n.id])[..|scope|] == scope;
    NamesPush(nodes, scope, n.id);
  }

  // ----- what an impl block hangs on ------------------------------------------------------------

  predicate IsTargetKind(kind: NodeKind)
  {
    kind == Struct || kind == Trait || kind == Class || kind == NodeKind.Enum
  }

  /** The first struct, trait, class or enum of the name emitted so far. */
  lemma {:induction false} FoundTypeIs(nodes: seq<Node>, k: nat)
    requires k < |nodes| && IsTargetKind(nodes[k].kind)
    requires forall i :: 0 <= i < k ==> !(nodes[i].name == nodes[k].name && IsTargetKind(nodes[i].kind))
    ensures FindType(nodes, nodes[k].name) == Some(nodes[k].id)
    decreases k
  {
    if k > 0 { FoundTypeIs(nodes[1..], k - 1); }
  }

  lemma {:induction false} NoTypeFound(nodes: seq<Node>, name: string)
    requires forall i :: 0 <= i < |nodes| && nodes[i].name == name ==> !IsTargetKind(nodes[i].kind)
    ensures FindType(nodes, name).None?
  {
    if |nodes| > 0 { NoTypeFound(nodes[1..], name); }
  }

  /** An impl block with one plain type hangs on that type, or on a type node of its own. */
  lemma TargetIs(s: Source, nodes: seq<Node>, d: Tree, child: nat, k: nat)
    requires child < |d.children| && IsTypeIdent(d.children[child]) && d.children[child].text != ""
    requires forall i :: 0 <= i < |d.children| && i != child ==> !IsTypeIdent(d.children[i])
    requires forall i :: 0 <= i < k && i < |nodes| ==> !(nodes[i].name == d.children[child].text && IsTargetKind(nodes[i].kind))
    ensures k < |nodes| && nodes[k].name == d.children[child].text && IsTargetKind(nodes[k].kind) ==>
              TargetId(s, nodes, d) == nodes[k].id
    ensures k >= |nodes| ==> TargetId(s, nodes, d) == s.makeId(NodeKind.Type, d.children[child].text, d.row + 1)
  {
    PlainImplTypeIs(d, child);
    if k >= |nodes| {
      NoTypeFound(nodes, d.children[child].text);
    } else if nodes[k].name == d.children[child].text && IsTargetKind(nodes[k].kind) {
      FoundTypeIs(nodes, k);
    }
    hide ImplType, FindType;
  }
}
