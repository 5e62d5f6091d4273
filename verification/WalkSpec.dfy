/** What the extraction walk works on and what it must produce: labelled trees, names read
    off them, which graph nodes and references a tree explains, which declarations must not
    be missed, and how qualified names follow containment. */
module WalkSpec {
  import opened Graph

  /** `fields` maps a field name to the index of the child that carries it; `exported` is
      whether an export statement encloses the node; `lastRow` is the row it ends on. */
  datatype Tree = Tree(
    kind: string, text: string, named: bool, row: nat, exported: bool,
    fields: map<string, nat>, children: seq<Tree>)
  {
    function Field(name: string): (r: Option<Tree>)
      ensures r.Some? ==> r.value in children
    {
      if name in fields && fields[name] < |children| then Some(children[fields[name]]) else None
    }
  }

  datatype LanguageConfig = LanguageConfig(
    functionTypes: set<string>, classTypes: set<string>, extraClassTypes: set<string>, methodTypes: set<string>,
    interfaceTypes: set<string>, structTypes: set<string>, enumTypes: set<string>, enumMemberTypes: set<string>,
    typeAliasTypes: set<string>, importTypes: set<string>, callTypes: set<string>, variableTypes: set<string>,
    propertyTypes: set<string>, fieldTypes: set<string>, namespaceTypes: set<string>,
    nameField: string, bodyField: string)
  {
    function Types(): set<string> { classTypes + extraClassTypes + interfaceTypes + structTypes + enumTypes }

    function Callables(): set<string> { functionTypes + methodTypes }
  }

  /** The hash that makes an id of kind, name and line within the file. */
  type IdMaker = (NodeKind, string, nat) -> string

  const FILE_SCOPED: string := "file_scoped_namespace_declaration"

  // ----- reading names off the tree -----------------------------------------------------

  function FirstNamed(children: seq<Tree>, kinds: set<string>): string
  {
    if |children| == 0 then ""
    else if children[0].named && children[0].kind in kinds then children[0].text
    else FirstNamed(children[1..], kinds)
  }

  function NameOf(node: Tree, nameField: string): string
  {
    match node.Field(nameField)
    case Some(n) => n.text
    case None => FirstNamed(node.children, {"identifier", "type_identifier", "simple_identifier", "property_identifier"})
  }

  function NamespaceName(node: Tree): string
  {
    match node.Field("name")
    case Some(n) => if n.text != "" then n.text else FirstNamed(node.children, {"qualified_name", "identifier"})
    case None => FirstNamed(node.children, {"qualified_name", "identifier"})
  }

  /** The texts of the named `type_identifier` children. */
  function TypeIdents(children: seq<Tree>): seq<string>
  {
    if |children| == 0 then []
    else (if children[0].named && children[0].kind == "type_identifier" then [children[0].text] else [])
         + TypeIdents(children[1..])
  }

  /** The Self type of an impl block, empty when it is not a plain identifier. */
  function ImplType(node: Tree): string
  {
    var idents := TypeIdents(node.children);
    if |idents| == 0 then "" else idents[|idents|-1]
  }

  function TrimQuotes(s: string): string
    decreases |s|
  {
    if |s| > 0 && (s[0] == '"' || s[0] == '\'') then TrimQuotes(s[1..])
    else if |s| > 0 && (s[|s|-1] == '"' || s[|s|-1] == '\'') then TrimQuotes(s[..|s|-1])
    else s
  }

  function FirstModule(children: seq<Tree>): string
  {
    if |children| == 0 then ""
    else if children[0].named && children[0].kind in {"qualified_name", "identifier", "name"} && TrimQuotes(children[0].text) != ""
    then TrimQuotes(children[0].text)
    else FirstModule(children[1..])
  }

  function OrField(a: Option<Tree>, node: Tree, name: string): Option<Tree> { if a.Some? then a else node.Field(name) }

  function ModuleName(node: Tree): string
  {
    var probe := OrField(OrField(OrField(node.Field("source"), node, "module_name"), node, "path"), node, "name");
    if probe.Some? && TrimQuotes(probe.value.text) != "" then TrimQuotes(probe.value.text) else FirstModule(node.children)
  }

  function AfterLastDot(s: string): string
  {
    if |s| == 0 then "" else if s[|s|-1] == '.' then "" else AfterLastDot(s[..|s|-1]) + [s[|s|-1]]
  }

  function CalleeName(node: Tree): string
  {
    var callee := OrField(OrField(node.Field("function"), node, "name"), node, "callee");
    if callee.Some? then AfterLastDot(callee.value.text) else ""
  }

  /** No impl block of the tree has a Self type that is not a plain identifier. */
  predicate NoBareImpl(node: Tree)
  {
    (node.kind == "impl_item" ==> ImplType(node) != "") && forall c :: c in node.children ==> NoBareImpl(c)
  }

  predicate IsFileNamespace(d: Tree)
  {
    d.named && d.kind == FILE_SCOPED && d.Field("name").Some? && d.Field("name").value.text != ""
  }

  function FileNamespaces(children: seq<Tree>): nat
  {
    if |children| == 0 then 0
    else FileNamespaces(children[..|children|-1]) + if IsFileNamespace(children[|children|-1]) then 1 else 0
  }

  // ----- what the emitted graph looks like ------------------------------------------------

  ghost predicate HasId(nodes: seq<Node>, id: string)
  {
    exists j :: 0 <= j < |nodes| && nodes[j].id == id
  }

  /** Node 0 is the file; the k-th edge contains node k+1 in an earlier node. */
  ghost predicate TreeShaped(nodes: seq<Node>, edges: seq<Edge>)
  {
    && |nodes| > 0 && nodes[0].kind.File? && |edges| == |nodes| - 1
    && forall k :: 0 <= k < |edges| ==>
         edges[k].kind.Contains? && edges[k].target == nodes[k+1].id && HasId(nodes[..k+1], edges[k].source)
  }

  ghost predicate Anchored(nodes: seq<Node>, refs: seq<UnresolvedRef>)
  {
    forall i :: 0 <= i < |refs| ==> HasId(nodes, refs[i].fromNode)
  }

  function FindNode(nodes: seq<Node>, id: string): Option<Node>
  {
    if |nodes| == 0 then None else if nodes[0].id == id then Some(nodes[0]) else FindNode(nodes[1..], id)
  }

  function Join(parts: seq<string>): string
  {
    if |parts| == 0 then "" else if |parts| == 1 then parts[0] else parts[0] + "::" + Join(parts[1..])
  }

  function ScopeNames(nodes: seq<Node>, scope: seq<string>): seq<string>
  {
    if |scope| == 0 then []
    else
      var n := FindNode(nodes, scope[0]);
      (if n.Some? && !n.value.kind.File? then [n.value.name] else []) + ScopeNames(nodes, scope[1..])
  }

  /** From the innermost scope outwards: the first node that decides. */
  predicate InClassScope(nodes: seq<Node>, scope: seq<string>)
  {
    |scope| > 0 &&
    match FindNode(nodes, scope[|scope|-1])
    case Some(n) =>
      if n.kind in CLASS_KINDS then true
      else if n.kind.File? then false
      else InClassScope(nodes, scope[..|scope|-1])
    case None => InClassScope(nodes, scope[..|scope|-1])
  }

  predicate InFunctionScope(nodes: seq<Node>, scope: seq<string>)
  {
    |scope| > 0 &&
    match FindNode(nodes, scope[|scope|-1])
    case Some(n) =>
      if n.kind in {Function, Method} then true
      else if n.kind.File? then false
      else InFunctionScope(nodes, scope[..|scope|-1])
    case None => InFunctionScope(nodes, scope[..|scope|-1])
  }

  function FindType(nodes: seq<Node>, name: string): Option<string>
  {
    if |nodes| == 0 then None
    else if nodes[0].name == name && nodes[0].kind in TARGET_KINDS then Some(nodes[0].id)
    else FindType(nodes[1..], name)
  }

  /** What an impl block hangs its methods on: the first type of that name emitted so far,
      a type node of its own, or the file when its Self type is no plain identifier. */
  function TargetId(s: Source, nodes: seq<Node>, d: Tree): string
  {
    if ImplType(d) == "" then if |nodes| > 0 then nodes[0].id else ""
    else if FindType(nodes, ImplType(d)).Some? then FindType(nodes, ImplType(d)).value
    else s.makeId(NodeKind.Type, ImplType(d), d.row + 1)
  }

  lemma {:induction false} FoundTypeExists(nodes: seq<Node>, name: string)
    ensures FindType(nodes, name).Some? ==> HasId(nodes, FindType(nodes, name).value)
  {
    if |nodes| > 0 && !(nodes[0].name == name && nodes[0].kind in TARGET_KINDS) {
      FoundTypeExists(nodes[1..], name);
      if FindType(nodes, name).Some? {
        var j :| 0 <= j < |nodes[1..]| && nodes[1..][j].id == FindType(nodes, name).value;
        assert nodes[j+1].id == FindType(nodes, name).value;
      }
    }
  }

  lemma {:induction false} FoundType(nodes: seq<Node>, name: string) returns (n: Node)
    requires FindType(nodes, name).Some?
    ensures n in nodes && n.id == FindType(nodes, name).value && n.name == name && n.kind in TARGET_KINDS
  {
    n := nodes[0];
    if !(n.name == name && n.kind in TARGET_KINDS) { n := FoundType(nodes[1..], name); }
  }

  lemma IdsGrow(nodes: seq<Node>, more: seq<Node>, id: string)
    requires nodes <= more && HasId(nodes, id)
    ensures HasId(more, id)
  {
    var j :| 0 <= j < |nodes| && nodes[j].id == id;
    assert more[j].id == id;
  }

  lemma ShapePush(nodes: seq<Node>, edges: seq<Edge>, n: Node, parent: string)
    requires TreeShaped(nodes, edges) && HasId(nodes, parent)
    ensures TreeShaped(nodes + [n], edges + [Edge(parent, n.id, Contains)])
  {
    var ns, es := nodes + [n], edges + [Edge(parent, n.id, Contains)];
    forall k | 0 <= k < |es|
      ensures es[k].kind.Contains? && es[k].target == ns[k+1].id && HasId(ns[..k+1], es[k].source)
    {
      if k < |edges| { assert ns[..k+1] == nodes[..k+1]; } else { assert ns[..k+1] == nodes; }
    }
  }

  // ----- what a tree declares -----------------------------------------------------------------

  /** What one run of the walk works on. */
  datatype Source = Source(filePath: string, config: LanguageConfig, makeId: IdMaker, root: Tree)

  predicate Inside(root: Tree, d: Tree)
  {
    root == d || exists c :: c in root.children && Inside(c, d)
  }

  /** The tree node d is the declaration the graph node n stands for. */
  predicate Explains(s: Source, d: Tree, n: Node)
  {
    && n.filePath == s.filePath && n.startLine == d.row + 1 && n.id == s.makeId(n.kind, n.name, d.row + 1)
    && match n.kind
       case Function => d.kind in s.config.functionTypes && n.name == NameOf(d, s.config.nameField) && n.isExported == d.exported
       case Method => d.kind in s.config.methodTypes && n.name == NameOf(d, s.config.nameField) && n.isExported == d.exported
       case Class => d.kind in s.config.classTypes + s.config.extraClassTypes && n.name == NameOf(d, s.config.nameField)
                     && n.isExported == d.exported
       case Interface => d.kind in s.config.interfaceTypes && n.name == NameOf(d, s.config.nameField) && n.isExported == d.exported
       case Struct => d.kind in s.config.structTypes && n.name == NameOf(d, s.config.nameField) && n.isExported == d.exported
       case Enum => d.kind in s.config.enumTypes && n.name == NameOf(d, s.config.nameField) && n.isExported == d.exported
       case EnumMember => d.kind in s.config.enumMemberTypes && n.name == NameOf(d, s.config.nameField)
       case Property => d.kind in s.config.propertyTypes && n.name == NameOf(d, s.config.nameField)
       case Field => d.kind in s.config.fieldTypes && n.name == NameOf(d, s.config.nameField)
       case Type => (d.kind in s.config.typeAliasTypes && n.name == NameOf(d, s.config.nameField))
                    || (d.kind == "impl_item" && n.name == ImplType(d))
       case Variable => (d.kind in s.config.variableTypes && n.name == NameOf(d, s.config.nameField))
                        || (d.kind in {"variable_declarator", "lexical_binding"} && d.Field("name").Some?
                            && n.name == d.Field("name").value.text)
       case Namespace => (d.kind in s.config.namespaceTypes && n.name == NamespaceName(d))
                         || (d.kind == FILE_SCOPED && d.Field("name").Some? && n.name == d.Field("name").value.text)
       case _ => false
  }

  /** The tree node d makes the reference r. */
  predicate Refers(s: Source, d: Tree, r: UnresolvedRef)
  {
    && r.filePath == s.filePath
    && (|| (r.kind == "calls" && d.kind in s.config.callTypes && r.name == CalleeName(d) && r.name != "new")
        || (r.kind == "imports" && d.kind in s.config.importTypes && r.name == ModuleName(d))
        || (r.kind == "implements" && d.kind == "impl_item" && |TypeIdents(d.children)| >= 2 && r.name == TypeIdents(d.children)[0]))
  }

  ghost predicate NodeFrom(s: Source, n: Node) { exists d :: Inside(s.root, d) && Explains(s, d, n) }

  ghost predicate RefFrom(s: Source, r: UnresolvedRef) { exists d :: Inside(s.root, d) && Refers(s, d, r) }

  /** Nothing is made up: every node but the file and every reference has a tree node. */
  ghost predicate Explained(s: Source, nodes: seq<Node>, refs: seq<UnresolvedRef>)
  {
    && (forall k :: 1 <= k < |nodes| ==> NodeFrom(s, nodes[k]))
    && (forall k :: 0 <= k < |refs| ==> RefFrom(s, refs[k]))
  }

  lemma {:induction false} ChildInside(root: Tree, d: Tree, c: Tree)
    requires Inside(root, d) && c in d.children
    ensures Inside(root, c)
    decreases root
  {
    if root == d {
      assert Inside(c, c);
    } else {
      var r :| r in root.children && Inside(r, d);
      ChildInside(r, d, c);
    }
  }

  // ----- where the walk stands --------------------------------------------------------------------

  /** The kinds an impl block takes for its target. */
  const TARGET_KINDS: set<NodeKind> := {Struct, Trait, Class, Enum}

  const CLASS_KINDS: set<NodeKind> := {Class, Struct, Interface, Trait, Enum, Component}

  /** The innermost entry of the scope, the names on it, and what it is inside of. */
  datatype Place = Place(owner: string, names: seq<string>, inClass: bool, inFunction: bool)

  function PlaceOf(nodes: seq<Node>, scope: seq<string>): Place
    requires |scope| > 0
  {
    Place(scope[|scope|-1], ScopeNames(nodes, scope), InClassScope(nodes, scope), InFunctionScope(nodes, scope))
  }

  // ----- what the walk must not miss --------------------------------------------------------------

  datatype Output = Output(nodes: seq<Node>, edges: seq<Edge>, refs: seq<UnresolvedRef>)

  predicate GrowsTo(o: Output, more: Output)
  {
    o.nodes <= more.nodes && o.edges <= more.edges && o.refs <= more.refs
  }

  /** The scope is one the walk can stand in. */
  ghost predicate At(o: Output, scope: seq<string>)
  {
    |scope| > 0 && forall id :: id in scope ==> HasId(o.nodes, id)
  }

  predicate Usable(name: string) { name != "" && name != "<anonymous>" }

  /** The kind of the node that a visit of d at p emits. */
  function EmittedKind(c: LanguageConfig, d: Tree, p: Place): Option<NodeKind>
  {
    if d.kind in c.namespaceTypes then if d.kind == FILE_SCOPED then None else Some(Namespace)
    else if d.kind in c.functionTypes then Some(if p.inClass && d.kind in c.methodTypes then Method else Function)
    else if d.kind in c.methodTypes then Some(Method)
    else if d.kind in c.classTypes + c.extraClassTypes then Some(Class)
    else if d.kind in c.interfaceTypes then Some(Interface)
    else if d.kind in c.structTypes then Some(Struct)
    else if d.kind in c.enumTypes then Some(Enum)
    else if d.kind in c.typeAliasTypes then Some(NodeKind.Type)
    else if d.kind in c.propertyTypes && p.inClass then Some(Property)
    else if d.kind in c.fieldTypes && p.inClass then Some(NodeKind.Field)
    else None
  }

  predicate IsVariable(c: LanguageConfig, d: Tree, p: Place)
  {
    EmittedKind(c, d, p).None? && d.kind !in c.namespaceTypes && d.kind in c.variableTypes && !p.inClass && !p.inFunction
  }

  /** The node stands for d under this name: it hangs below the innermost scope entry and
      is qualified by the names of the scope. */
  ghost predicate EmittedAs(s: Source, o: Output, d: Tree, p: Place, kind: NodeKind, name: string, n: Node)
  {
    && n in o.nodes && n.kind == kind && n.name == name && Explains(s, d, n)
    && n.qualifiedName == Join(p.names + [name]) && Edge(p.owner, n.id, Contains) in o.edges
  }

  ghost predicate Emitted(s: Source, o: Output, d: Tree, p: Place, kind: NodeKind, name: string)
  {
    Usable(name) ==> exists n :: EmittedAs(s, o, d, p, kind, name, n)
  }

  ghost predicate Recorded(s: Source, o: Output, owner: string, name: string, kind: string)
  {
    name != "" ==> UnresolvedRef(0, owner, name, kind, s.filePath) in o.refs
  }

  predicate IsDeclarator(d: Tree)
  {
    && d.named && d.kind in {"variable_declarator", "lexical_binding"}
    && d.Field("name").Some? && d.Field("name").value.text != ""
  }

  ghost predicate DeclaratorsUpTo(s: Source, o: Output, d: Tree, p: Place, k: nat)
  {
    forall i :: 0 <= i < k && i < |d.children| && IsDeclarator(d.children[i]) ==>
      Emitted(s, o, d.children[i], p, Variable, d.children[i].Field("name").value.text)
  }

  /** Each declarator of a variable declaration, or the declaration itself if it has none. */
  ghost predicate VariablesEmitted(s: Source, o: Output, d: Tree, p: Place)
  {
    && DeclaratorsUpTo(s, o, d, p, |d.children|)
    && ((forall i :: 0 <= i < |d.children| ==> !IsDeclarator(d.children[i])) ==>
          Emitted(s, o, d, p, Variable, NameOf(d, s.config.nameField)))
  }

  const ENUM_BODIES: set<string> := {"enum_body", "enum_variant_list", "enum_class_body"}

  const NAMESPACE_NAMES: set<string> := {"qualified_name", "identifier", "name"}

  function NamespaceBody(d: Tree): Option<Tree> { OrField(d.Field("body"), d, "declaration_list") }

  /** The first k children were visited one after the other, except those that are not named
      or of an excepted kind; the scope was first `scope` and is `end` now. */
  ghost predicate KidsUpTo(s: Source, o: Output, d: Tree, except: set<string>, scope: seq<string>, k: nat, end: seq<string>)
    requires k <= |d.children|
    decreases d, 0, k, 1
  {
    if k == 0 then end == scope else exists mid :: KidsVia(s, o, d, except, scope, k, mid, end)
  }

  /** The k-th child was visited with `mid` as the scope. */
  ghost predicate KidsVia(s: Source, o: Output, d: Tree, except: set<string>, scope: seq<string>, k: nat, mid: seq<string>,
                          end: seq<string>)
    requires 0 < k <= |d.children|
    decreases d, 0, k, 0
  {
    KidsUpTo(s, o, d, except, scope, k - 1, mid) && KidCovered(s, o, d.children[k-1], except, mid, end)
  }

  ghost predicate KidCovered(s: Source, o: Output, d: Tree, except: set<string>, scope: seq<string>, end: seq<string>)
    decreases d, 6
  {
    if d.named && d.kind !in except then Covered(s, o, d, scope, end) else end == scope
  }

  ghost predicate KidsCovered(s: Source, o: Output, d: Tree, except: set<string>, scope: seq<string>, end: seq<string>)
    decreases d, 1
  {
    KidsUpTo(s, o, d, except, scope, |d.children|, end)
  }

  ghost predicate BodyCovered(s: Source, o: Output, d: Tree, field: string, scope: seq<string>, end: seq<string>)
    decreases d, 0
  {
    match d.Field(field)
    case Some(body) => KidsCovered(s, o, body, {}, scope, end)
    case None => end == scope
  }

  ghost predicate EnumUpTo(s: Source, o: Output, d: Tree, scope: seq<string>, k: nat, end: seq<string>)
    requires k <= |d.children|
    decreases d, 0, k, 1
  {
    if k == 0 then end == scope else exists mid :: EnumVia(s, o, d, scope, k, mid, end)
  }

  ghost predicate EnumVia(s: Source, o: Output, d: Tree, scope: seq<string>, k: nat, mid: seq<string>, end: seq<string>)
    requires 0 < k <= |d.children|
    decreases d, 0, k, 0
  {
    EnumUpTo(s, o, d, scope, k - 1, mid) && EnumKidCovered(s, o, d.children[k-1], mid, end)
  }

  /** A child of an enum: a list of variants, a variant, or anything else. */
  ghost predicate EnumKidCovered(s: Source, o: Output, d: Tree, scope: seq<string>, end: seq<string>)
    decreases d, 7
  {
    if !d.named then end == scope
    else if d.kind in ENUM_BODIES then KidsCovered(s, o, d, {}, scope, end)
    else if d.kind in s.config.enumMemberTypes then
      end == scope && At(o, scope) && Emitted(s, o, d, PlaceOf(o.nodes, scope), EnumMember, NameOf(d, s.config.nameField))
    else Covered(s, o, d, scope, end)
  }

  /** What is visited inside the node emitted for d. */
  ghost predicate InnerCovered(s: Source, o: Output, d: Tree, kind: NodeKind, scope: seq<string>, end: seq<string>)
    decreases d, 2
  {
    match kind
    case Namespace =>
      var body := NamespaceBody(d);
      if body.Some? then KidsCovered(s, o, body.value, {}, scope, end) else KidsCovered(s, o, d, NAMESPACE_NAMES, scope, end)
    case Function => BodyCovered(s, o, d, s.config.bodyField, scope, end)
    case Method => BodyCovered(s, o, d, s.config.bodyField, scope, end)
    case Enum => EnumUpTo(s, o, d, scope, |d.children|, end)
    case _ => KidsCovered(s, o, d, {}, scope, end)
  }

  function Popped(scope: seq<string>): seq<string> { if |scope| == 0 then [] else scope[..|scope|-1] }

  /** The node emitted for d is there, and what is visited below d is covered with it on the
      scope; afterwards the last entry is popped, whichever that is by then. */
  ghost predicate DeclarationCovered(s: Source, o: Output, d: Tree, kind: NodeKind, name: string, scope: seq<string>, end: seq<string>)
    requires |scope| > 0
    decreases d, 4
  {
    exists n, inner ::
      && EmittedAs(s, o, d, PlaceOf(o.nodes, scope), kind, name, n)
      && InnerCovered(s, o, d, kind, scope + [n.id], inner) && end == Popped(inner)
  }

  /** The id an impl block chose, seen from the output later on. */
  ghost predicate IsImplTarget(s: Source, o: Output, d: Tree, id: string)
  {
    && HasId(o.nodes, id)
    && if ImplType(d) == "" then |o.nodes| > 0 && id == o.nodes[0].id
       else id == s.makeId(NodeKind.Type, ImplType(d), d.row + 1)
            || exists n :: n in o.nodes && n.id == id && n.name == ImplType(d) && n.kind in TARGET_KINDS
  }

  /** `impl Trait for Type` is a reference to the trait. */
  ghost predicate ImplementsRecorded(s: Source, o: Output, d: Tree, id: string)
  {
    |TypeIdents(d.children)| >= 2 ==> Recorded(s, o, id, TypeIdents(d.children)[0], "implements")
  }

  ghost predicate ImplCovered(s: Source, o: Output, d: Tree, scope: seq<string>, end: seq<string>)
    decreases d, 3
  {
    exists id :: IsImplTarget(s, o, d, id) && ImplCoveredOn(s, o, d, id, scope, end)
  }

  /** The body is visited with the target on the scope; a block whose Self type is no plain
      identifier does not pop it. */
  ghost predicate ImplCoveredOn(s: Source, o: Output, d: Tree, id: string, scope: seq<string>, end: seq<string>)
    decreases d, 2
  {
    && ImplementsRecorded(s, o, d, id)
    && exists inner :: BodyCovered(s, o, d, "body", scope + [id], inner)
                       && end == if ImplType(d) != "" then Popped(inner) else inner
  }

  function DeclaredName(c: LanguageConfig, d: Tree, kind: NodeKind): string
  {
    if kind.Namespace? then NamespaceName(d) else NameOf(d, c.nameField)
  }

  /** Everything that the subtree asks for, visited in `scope`, is in the output, below the
      right node and under the right qualified name, and the visit leaves the scope `end`. */
  ghost predicate Covered(s: Source, o: Output, d: Tree, scope: seq<string>, end: seq<string>)
    decreases d, 5
  {
    && At(o, scope)
    && var p := PlaceOf(o.nodes, scope);
       match EmittedKind(s.config, d, p)
       case Some(kind) =>
         var name := DeclaredName(s.config, d, kind);
         if kind in {Property, NodeKind.Field} then end == scope && Emitted(s, o, d, p, kind, name)
         else if kind.Type? then Emitted(s, o, d, p, kind, name) && KidsCovered(s, o, d, {}, scope, end)
         else if Usable(name) then DeclarationCovered(s, o, d, kind, name, scope, end)
         else if name == "" || kind.Namespace? then KidsCovered(s, o, d, {}, scope, end)
         else end == scope
       case None =>
         if d.kind in s.config.namespaceTypes then end == scope
         else if IsVariable(s.config, d, p) then end == scope && VariablesEmitted(s, o, d, p)
         else if d.kind in s.config.importTypes then
           Recorded(s, o, p.owner, ModuleName(d), "imports") && KidsCovered(s, o, d, {}, scope, end)
         else if d.kind in s.config.callTypes then
           && (CalleeName(d) != "new" ==> Recorded(s, o, p.owner, CalleeName(d), "calls"))
           && KidsCovered(s, o, d, {}, scope, end)
         else if d.kind == "impl_item" then ImplCovered(s, o, d, scope, end)
         else KidsCovered(s, o, d, {}, scope, end)
  }

  /** The scope after the file-scoped namespaces among the children were left on it. */
  function NamespaceScope(s: Source, children: seq<Tree>): (scope: seq<string>)
    ensures |scope| > 0
  {
    if |children| == 0 then ["file:" + s.filePath]
    else
      var scope, d := NamespaceScope(s, children[..|children|-1]), children[|children|-1];
      if IsFileNamespace(d) then scope + [s.makeId(Namespace, d.Field("name").value.text, d.row + 1)] else scope
  }

  /** The children whose file-scoped namespaces are left on the scope. */
  function Siblings(s: Source): seq<Tree> { if s.config.namespaceTypes == {} then [] else s.root.children }

  /** The file-scoped namespace d was emitted, under its own name, below `parent`. */
  ghost predicate NamespaceEmitted(s: Source, o: Output, d: Tree, parent: string)
  {
    exists n :: n in o.nodes && n.kind.Namespace? && Explains(s, d, n) && n.qualifiedName == n.name
                && Edge(parent, n.id, Contains) in o.edges
  }

  ghost predicate NamespacesUpTo(s: Source, o: Output, children: seq<Tree>, k: nat)
  {
    forall i :: 0 <= i < k && i < |children| && IsFileNamespace(children[i]) ==>
      var scope := NamespaceScope(s, children[..i]);
      NamespaceEmitted(s, o, children[i], scope[|scope|-1])
  }

  /** All that the file asks for is in the output. */
  ghost predicate FileCovered(s: Source, o: Output)
  {
    && NamespacesUpTo(s, o, Siblings(s), |Siblings(s)|)
    && exists end :: Covered(s, o, s.root, NamespaceScope(s, Siblings(s)), end)
  }

  // ----- more output covers no less ----------------------------------------------------------------

  lemma {:induction false} FindGrows(nodes: seq<Node>, more: seq<Node>, id: string)
    requires nodes <= more && FindNode(nodes, id).Some?
    ensures FindNode(more, id) == FindNode(nodes, id)
  {
    if nodes[0].id != id {
      FindGrows(nodes[1..], more[1..], id);
    }
  }

  lemma AtGrows(o: Output, o': Output, scope: seq<string>)
    requires GrowsTo(o, o') && At(o, scope)
    ensures At(o', scope) && PlaceOf(o'.nodes, scope) == PlaceOf(o.nodes, scope)
  {
    forall id | id in scope ensures HasId(o'.nodes, id) { IdsGrow(o.nodes, o'.nodes, id); }
    PlaceStays(o.nodes, o'.nodes, scope);
  }

  lemma EmittedGrows(s: Source, o: Output, o': Output, d: Tree, p: Place, kind: NodeKind, name: string)
    requires GrowsTo(o, o') && Emitted(s, o, d, p, kind, name)
    ensures Emitted(s, o', d, p, kind, name)
  {
    if Usable(name) {
      var n :| EmittedAs(s, o, d, p, kind, name, n);
      EmittedAsGrows(s, o, o', d, p, kind, name, n);
    }
  }

  lemma EmittedAsGrows(s: Source, o: Output, o': Output, d: Tree, p: Place, kind: NodeKind, name: string, n: Node)
    requires GrowsTo(o, o') && EmittedAs(s, o, d, p, kind, name, n)
    ensures EmittedAs(s, o', d, p, kind, name, n)
  {
    hide Explains, Join;
    var j :| 0 <= j < |o.nodes| && o.nodes[j] == n;
    assert o'.nodes[j] == n;
    var e := Edge(p.owner, n.id, Contains);
    var k :| 0 <= k < |o.edges| && o.edges[k] == e;
    assert o'.edges[k] == e;
  }

  lemma RecordedGrows(s: Source, o: Output, o': Output, owner: string, name: string, kind: string)
    requires GrowsTo(o, o') && Recorded(s, o, owner, name, kind)
    ensures Recorded(s, o', owner, name, kind)
  {
    if name != "" {
      var k :| 0 <= k < |o.refs| && o.refs[k] == UnresolvedRef(0, owner, name, kind, s.filePath);
      assert o'.refs[k] == o.refs[k];
    }
  }

  lemma NoDeclarators(s: Source, o: Output, d: Tree, p: Place)
    ensures DeclaratorsUpTo(s, o, d, p, 0)
  {
  }

  lemma DeclaratorsGrow(s: Source, o: Output, o': Output, d: Tree, p: Place, k: nat)
    requires GrowsTo(o, o') && DeclaratorsUpTo(s, o, d, p, k)
    ensures DeclaratorsUpTo(s, o', d, p, k)
  {
    hide Emitted;
    forall i | 0 <= i < k && i < |d.children| && IsDeclarator(d.children[i])
      ensures Emitted(s, o', d.children[i], p, Variable, d.children[i].Field("name").value.text)
    {
      EmittedGrows(s, o, o', d.children[i], p, Variable, d.children[i].Field("name").value.text);
    }
  }

  lemma DeclaratorStep(s: Source, o: Output, o': Output, d: Tree, p: Place, k: nat)
    requires GrowsTo(o, o') && DeclaratorsUpTo(s, o, d, p, k) && k < |d.children|
    requires IsDeclarator(d.children[k]) ==>
               Emitted(s, o', d.children[k], p, Variable, d.children[k].Field("name").value.text)
    ensures DeclaratorsUpTo(s, o', d, p, k + 1)
  {
    DeclaratorsGrow(s, o, o', d, p, k);
    hide Emitted;
  }

  lemma VariablesGrow(s: Source, o: Output, o': Output, d: Tree, p: Place)
    requires GrowsTo(o, o') && VariablesEmitted(s, o, d, p)
    ensures VariablesEmitted(s, o', d, p)
  {
    hide Emitted, NameOf, DeclaratorsUpTo;
    DeclaratorsGrow(s, o, o', d, p, |d.children|);
    if forall i :: 0 <= i < |d.children| ==> !IsDeclarator(d.children[i]) {
      EmittedGrows(s, o, o', d, p, Variable, NameOf(d, s.config.nameField));
    }
  }

  lemma {:induction false} KidsGrow(s: Source, o: Output, o': Output, d: Tree, except: set<string>, scope: seq<string>,
                                    k: nat, end: seq<string>)
    requires GrowsTo(o, o') && k <= |d.children| && KidsUpTo(s, o, d, except, scope, k, end)
    ensures KidsUpTo(s, o', d, except, scope, k, end)
    decreases d, 0, k
  {
    hide KidCovered;
    if k > 0 {
      var mid :| KidsVia(s, o, d, except, scope, k, mid, end);
      KidsGrow(s, o, o', d, except, scope, k - 1, mid);
      KidGrows(s, o, o', d.children[k-1], except, mid, end);
      assert KidsVia(s, o', d, except, scope, k, mid, end);
    }
  }

  lemma {:induction false} KidGrows(s: Source, o: Output, o': Output, d: Tree, except: set<string>, scope: seq<string>,
                                    end: seq<string>)
    requires GrowsTo(o, o') && KidCovered(s, o, d, except, scope, end)
    ensures KidCovered(s, o', d, except, scope, end)
    decreases d, 6
  {
    hide Covered;
    if d.named && d.kind !in except { CoveredGrows(s, o, o', d, scope, end); }
  }

  lemma {:induction false} AllKidsGrow(s: Source, o: Output, o': Output, d: Tree, except: set<string>, scope: seq<string>,
                                       end: seq<string>)
    requires GrowsTo(o, o') && KidsCovered(s, o, d, except, scope, end)
    ensures KidsCovered(s, o', d, except, scope, end)
    decreases d, 1
  {
    hide KidsUpTo;
    KidsGrow(s, o, o', d, except, scope, |d.children|, end);
  }

  lemma {:induction false} BodyGrows(s: Source, o: Output, o': Output, d: Tree, field: string, scope: seq<string>, end: seq<string>)
    requires GrowsTo(o, o') && BodyCovered(s, o, d, field, scope, end)
    ensures BodyCovered(s, o', d, field, scope, end)
    decreases d, 0
  {
    hide KidsCovered;
    if d.Field(field).Some? { AllKidsGrow(s, o, o', d.Field(field).value, {}, scope, end); }
  }

  lemma {:induction false} EnumGrows(s: Source, o: Output, o': Output, d: Tree, scope: seq<string>, k: nat, end: seq<string>)
    requires GrowsTo(o, o') && k <= |d.children| && EnumUpTo(s, o, d, scope, k, end)
    ensures EnumUpTo(s, o', d, scope, k, end)
    decreases d, 0, k
  {
    hide EnumKidCovered;
    if k > 0 {
      var mid :| EnumVia(s, o, d, scope, k, mid, end);
      EnumGrows(s, o, o', d, scope, k - 1, mid);
      EnumKidGrows(s, o, o', d.children[k-1], mid, end);
      assert EnumVia(s, o', d, scope, k, mid, end);
    }
  }

  lemma {:induction false} EnumKidGrows(s: Source, o: Output, o': Output, d: Tree, scope: seq<string>, end: seq<string>)
    requires GrowsTo(o, o') && EnumKidCovered(s, o, d, scope, end)
    ensures EnumKidCovered(s, o', d, scope, end)
    decreases d, 7
  {
    hide KidsCovered, Covered, Emitted, At, PlaceOf;
    if d.named {
      if d.kind in ENUM_BODIES {
        AllKidsGrow(s, o, o', d, {}, scope, end);
      } else if d.kind in s.config.enumMemberTypes {
        AtGrows(o, o', scope);
        EmittedGrows(s, o, o', d, PlaceOf(o.nodes, scope), EnumMember, NameOf(d, s.config.nameField));
      } else {
        CoveredGrows(s, o, o', d, scope, end);
      }
    }
  }

  lemma {:induction false} InnerGrows(s: Source, o: Output, o': Output, d: Tree, kind: NodeKind, scope: seq<string>, end: seq<string>)
    requires GrowsTo(o, o') && InnerCovered(s, o, d, kind, scope, end)
    ensures InnerCovered(s, o', d, kind, scope, end)
    decreases d, 2
  {
    hide KidsCovered, BodyCovered, EnumUpTo;
    match kind
    case Namespace =>
      var body := NamespaceBody(d);
      if body.Some? { AllKidsGrow(s, o, o', body.value, {}, scope, end); }
      else { AllKidsGrow(s, o, o', d, NAMESPACE_NAMES, scope, end); }
    case Function => BodyGrows(s, o, o', d, s.config.bodyField, scope, end);
    case Method => BodyGrows(s, o, o', d, s.config.bodyField, scope, end);
    case Enum => EnumGrows(s, o, o', d, scope, |d.children|, end);
    case _ => AllKidsGrow(s, o, o', d, {}, scope, end);
  }

  lemma TargetGrows(s: Source, o: Output, o': Output, d: Tree, id: string)
    requires GrowsTo(o, o') && IsImplTarget(s, o, d, id)
    ensures IsImplTarget(s, o', d, id)
  {
    IdsGrow(o.nodes, o'.nodes, id);
    assert forall n :: n in o.nodes ==> n in o'.nodes;
    hide HasId, ImplType;
  }

  lemma ImplementsGrow(s: Source, o: Output, o': Output, d: Tree, id: string)
    requires GrowsTo(o, o') && ImplementsRecorded(s, o, d, id)
    ensures ImplementsRecorded(s, o', d, id)
  {
    hide Recorded;
    if |TypeIdents(d.children)| >= 2 { RecordedGrows(s, o, o', id, TypeIdents(d.children)[0], "implements"); }
  }

  lemma {:induction false} ImplGrows(s: Source, o: Output, o': Output, d: Tree, scope: seq<string>, end: seq<string>)
    requires GrowsTo(o, o') && ImplCovered(s, o, d, scope, end)
    ensures ImplCovered(s, o', d, scope, end)
    decreases d, 3
  {
    hide IsImplTarget, BodyCovered, ImplementsRecorded, ImplType;
    var id :| IsImplTarget(s, o, d, id) && ImplCoveredOn(s, o, d, id, scope, end);
    var inner :| BodyCovered(s, o, d, "body", scope + [id], inner) && end == if ImplType(d) != "" then Popped(inner) else inner;
    TargetGrows(s, o, o', d, id);
    ImplementsGrow(s, o, o', d, id);
    BodyGrows(s, o, o', d, "body", scope + [id], inner);
  }

  lemma {:induction false} DeclarationGrows(s: Source, o: Output, o': Output, d: Tree, kind: NodeKind, name: string,
                                            scope: seq<string>, end: seq<string>)
    requires GrowsTo(o, o') && At(o, scope) && DeclarationCovered(s, o, d, kind, name, scope, end)
    ensures DeclarationCovered(s, o', d, kind, name, scope, end)
    decreases d, 4
  {
    AtGrows(o, o', scope);
    hide EmittedAs, InnerCovered, PlaceOf;
    var n, inner :| EmittedAs(s, o, d, PlaceOf(o.nodes, scope), kind, name, n)
                    && InnerCovered(s, o, d, kind, scope + [n.id], inner) && end == Popped(inner);
    EmittedAsGrows(s, o, o', d, PlaceOf(o.nodes, scope), kind, name, n);
    InnerGrows(s, o, o', d, kind, scope + [n.id], inner);
  }

  lemma {:induction false} CoveredGrows(s: Source, o: Output, o': Output, d: Tree, scope: seq<string>, end: seq<string>)
    requires GrowsTo(o, o') && Covered(s, o, d, scope, end)
    ensures Covered(s, o', d, scope, end)
    decreases d, 5
  {
    AtGrows(o, o', scope);
    hide At, PlaceOf, EmittedKind, DeclaredName, Emitted, Recorded, KidsCovered, VariablesEmitted, ImplCovered,
      DeclarationCovered, NameOf, NamespaceName, ModuleName, CalleeName, GrowsTo;
    var p := PlaceOf(o.nodes, scope);
    if KidsCovered(s, o, d, {}, scope, end) { AllKidsGrow(s, o, o', d, {}, scope, end); }
    match EmittedKind(s.config, d, p)
    case Some(kind) =>
      var name := DeclaredName(s.config, d, kind);
      if kind in {Property, NodeKind.Field} || kind.Type? {
        EmittedGrows(s, o, o', d, p, kind, name);
      } else if Usable(name) {
        DeclarationGrows(s, o, o', d, kind, name, scope, end);
      }
    case None =>
      if d.kind in s.config.namespaceTypes {
      } else if IsVariable(s.config, d, p) {
        VariablesGrow(s, o, o', d, p);
      } else if d.kind in s.config.importTypes {
        RecordedGrows(s, o, o', p.owner, ModuleName(d), "imports");
      } else if d.kind in s.config.callTypes {
        if CalleeName(d) != "new" { RecordedGrows(s, o, o', p.owner, CalleeName(d), "calls"); }
      } else if d.kind == "impl_item" {
        ImplGrows(s, o, o', d, scope, end);
      }
  }

  lemma NoNamespaces(s: Source, o: Output, children: seq<Tree>)
    ensures NamespacesUpTo(s, o, children, 0)
    ensures FileNamespaces(children[..0]) == 0 && NamespaceScope(s, children[..0]) == ["file:" + s.filePath]
  {
  }

  lemma NextNamespace(s: Source, children: seq<Tree>, k: nat)
    requires k < |children|
    ensures FileNamespaces(children[..k+1]) == FileNamespaces(children[..k]) + if IsFileNamespace(children[k]) then 1 else 0
    ensures NamespaceScope(s, children[..k+1])
            == NamespaceScope(s, children[..k])
               + if IsFileNamespace(children[k])
                 then [s.makeId(Namespace, children[k].Field("name").value.text, children[k].row + 1)] else []
  {
    assert children[..k+1][..k] == children[..k];
  }

  lemma NamespaceStep(s: Source, o: Output, o': Output, children: seq<Tree>, k: nat)
    requires GrowsTo(o, o') && NamespacesUpTo(s, o, children, k) && k < |children|
    requires IsFileNamespace(children[k]) ==>
               var scope := NamespaceScope(s, children[..k]);
               NamespaceEmitted(s, o', children[k], scope[|scope|-1])
    ensures NamespacesUpTo(s, o', children, k + 1)
  {
    NamespacesGrow(s, o, o', children, k);
    hide NamespaceEmitted, NamespaceScope;
  }

  lemma NamespacesGrow(s: Source, o: Output, o': Output, children: seq<Tree>, k: nat)
    requires GrowsTo(o, o') && NamespacesUpTo(s, o, children, k)
    ensures NamespacesUpTo(s, o', children, k)
  {
    hide Explains, NamespaceScope;
    forall i | 0 <= i < k && i < |children| && IsFileNamespace(children[i])
      ensures var scope := NamespaceScope(s, children[..i]);
              NamespaceEmitted(s, o', children[i], scope[|scope|-1])
    {
      var scope := NamespaceScope(s, children[..i]);
      var n :| n in o.nodes && n.kind.Namespace? && Explains(s, children[i], n) && n.qualifiedName == n.name
               && Edge(scope[|scope|-1], n.id, Contains) in o.edges;
      assert n in o'.nodes && Edge(scope[|scope|-1], n.id, Contains) in o'.edges;
    }
  }

  // ----- one step of the walk ------------------------------------------------------------------------

  lemma KidsStep(s: Source, o: Output, o': Output, d: Tree, except: set<string>, scope: seq<string>, k: nat,
                 mid: seq<string>, end: seq<string>)
    requires GrowsTo(o, o') && k < |d.children| && KidsUpTo(s, o, d, except, scope, k, mid)
    requires KidCovered(s, o', d.children[k], except, mid, end)
    ensures KidsUpTo(s, o', d, except, scope, k + 1, end)
  {
    KidsGrow(s, o, o', d, except, scope, k, mid);
    hide KidCovered;
    assert KidsVia(s, o', d, except, scope, k + 1, mid, end);
  }

  lemma EnumStep(s: Source, o: Output, o': Output, d: Tree, scope: seq<string>, k: nat, mid: seq<string>, end: seq<string>)
    requires GrowsTo(o, o') && k < |d.children| && EnumUpTo(s, o, d, scope, k, mid)
    requires EnumKidCovered(s, o', d.children[k], mid, end)
    ensures EnumUpTo(s, o', d, scope, k + 1, end)
  {
    EnumGrows(s, o, o', d, scope, k, mid);
    hide EnumKidCovered;
    assert EnumVia(s, o', d, scope, k + 1, mid, end);
  }

  lemma DeclarationDone(s: Source, o: Output, o': Output, d: Tree, kind: NodeKind, name: string, n: Node, scope: seq<string>,
                        inner: seq<string>)
    requires GrowsTo(o, o') && At(o, scope) && EmittedAs(s, o, d, PlaceOf(o.nodes, scope), kind, name, n)
    requires InnerCovered(s, o', d, kind, scope + [n.id], inner)
    ensures DeclarationCovered(s, o', d, kind, name, scope, Popped(inner))
  {
    AtGrows(o, o', scope);
    hide EmittedAs, InnerCovered, PlaceOf;
    EmittedAsGrows(s, o, o', d, PlaceOf(o.nodes, scope), kind, name, n);
  }

  lemma ImplDone(s: Source, o: Output, o': Output, d: Tree, id: string, scope: seq<string>, inner: seq<string>)
    requires GrowsTo(o, o') && IsImplTarget(s, o, d, id) && ImplementsRecorded(s, o, d, id)
    requires BodyCovered(s, o', d, "body", scope + [id], inner)
    ensures var end := if ImplType(d) != "" then Popped(inner) else inner;
            ImplCovered(s, o', d, scope, end) && ImplCoveredOn(s, o', d, id, scope, end)
  {
    hide IsImplTarget, BodyCovered, ImplementsRecorded, ImplType;
    TargetGrows(s, o, o', d, id);
    ImplementsGrow(s, o, o', d, id);
    assert ImplCoveredOn(s, o', d, id, scope, if ImplType(d) != "" then Popped(inner) else inner);
  }

  /** What a visit that goes on to the children did itself. */
  ghost predicate Asked(s: Source, o: Output, d: Tree, p: Place)
  {
    match EmittedKind(s.config, d, p)
    case Some(kind) =>
      var name := DeclaredName(s.config, d, kind);
      if kind in {Property, NodeKind.Field} then false
      else if kind.Type? then Emitted(s, o, d, p, kind, name)
      else !Usable(name) && (name == "" || kind.Namespace?)
    case None =>
      && d.kind !in s.config.namespaceTypes && !IsVariable(s.config, d, p)
      && if d.kind in s.config.importTypes then Recorded(s, o, p.owner, ModuleName(d), "imports")
         else if d.kind in s.config.callTypes then
           CalleeName(d) != "new" ==> Recorded(s, o, p.owner, CalleeName(d), "calls")
         else d.kind != "impl_item"
  }

  const DECLARING: set<NodeKind> := {Namespace, Function, Method, Class, Interface, Struct, Enum}

  lemma DeclarationCovers(s: Source, o: Output, d: Tree, kind: NodeKind, scope: seq<string>, end: seq<string>)
    requires At(o, scope) && EmittedKind(s.config, d, PlaceOf(o.nodes, scope)) == Some(kind) && kind in DECLARING
    requires Usable(DeclaredName(s.config, d, kind))
    requires DeclarationCovered(s, o, d, kind, DeclaredName(s.config, d, kind), scope, end)
    ensures Covered(s, o, d, scope, end)
  {
    hide At, PlaceOf, EmittedKind, DeclaredName, DeclarationCovered;
  }

  /** A declaration without a name is passed over; an anonymous one is not looked into. */
  lemma NamelessDeclaration(s: Source, o: Output, d: Tree, kind: NodeKind, scope: seq<string>)
    requires At(o, scope) && EmittedKind(s.config, d, PlaceOf(o.nodes, scope)) == Some(kind) && kind in DECLARING
    requires !Usable(DeclaredName(s.config, d, kind))
    ensures DeclaredName(s.config, d, kind) == "" || kind.Namespace? ==> Asked(s, o, d, PlaceOf(o.nodes, scope))
    ensures DeclaredName(s.config, d, kind) != "" && !kind.Namespace? ==> Covered(s, o, d, scope, scope)
  {
    hide At, PlaceOf, EmittedKind, DeclaredName, KidsCovered;
  }

  lemma FileScopedIsCovered(s: Source, o: Output, d: Tree, scope: seq<string>)
    requires At(o, scope) && d.kind in s.config.namespaceTypes && d.kind == FILE_SCOPED
    ensures Covered(s, o, d, scope, scope)
  {
    hide At, PlaceOf;
  }

  lemma LeafIsCovered(s: Source, o: Output, d: Tree, scope: seq<string>, kind: NodeKind)
    requires At(o, scope) && EmittedKind(s.config, d, PlaceOf(o.nodes, scope)) == Some(kind)
    requires kind in {Property, NodeKind.Field, NodeKind.Type}
    requires Emitted(s, o, d, PlaceOf(o.nodes, scope), kind, NameOf(d, s.config.nameField))
    ensures !kind.Type? ==> Covered(s, o, d, scope, scope)
    ensures kind.Type? ==> Asked(s, o, d, PlaceOf(o.nodes, scope))
  {
    hide At, PlaceOf, EmittedKind, Emitted, NameOf, KidsCovered;
  }

  lemma VariableIsCovered(s: Source, o: Output, d: Tree, scope: seq<string>)
    requires At(o, scope) && IsVariable(s.config, d, PlaceOf(o.nodes, scope))
    requires VariablesEmitted(s, o, d, PlaceOf(o.nodes, scope))
    ensures Covered(s, o, d, scope, scope)
  {
    hide At, PlaceOf, EmittedKind, VariablesEmitted;
  }

  lemma AskedAndKids(s: Source, o: Output, o': Output, d: Tree, scope: seq<string>, end: seq<string>)
    requires GrowsTo(o, o') && At(o, scope) && Asked(s, o, d, PlaceOf(o.nodes, scope)) && KidsCovered(s, o', d, {}, scope, end)
    ensures Covered(s, o', d, scope, end)
  {
    AtGrows(o, o', scope);
    hide At, PlaceOf, EmittedKind, DeclaredName, Emitted, Recorded, KidsCovered, VariablesEmitted, ImplCovered,
      DeclarationCovered, NameOf, NamespaceName, ModuleName, CalleeName, GrowsTo;
    var p := PlaceOf(o.nodes, scope);
    match EmittedKind(s.config, d, p)
    case Some(kind) =>
      if kind.Type? { EmittedGrows(s, o, o', d, p, kind, DeclaredName(s.config, d, kind)); }
    case None =>
      if d.kind in s.config.importTypes {
        RecordedGrows(s, o, o', p.owner, ModuleName(d), "imports");
      } else if d.kind in s.config.callTypes {
        if CalleeName(d) != "new" { RecordedGrows(s, o, o', p.owner, CalleeName(d), "calls"); }
      }
  }

  // ----- qualified names ---------------------------------------------------------------------------

  /** The qualified name of a child of the node `parent`. */
  function Under(nodes: seq<Node>, parent: string, name: string): string
  {
    match FindNode(nodes, parent)
    case Some(p) => if p.kind.File? then name else p.qualifiedName + "::" + name
    case None => name
  }

  /** Every node is named after the node that contains it. */
  ghost predicate NamedByParent(nodes: seq<Node>, edges: seq<Edge>)
  {
    forall k :: 0 <= k < |edges| && k + 1 < |nodes| ==>
      nodes[k+1].qualifiedName == Under(nodes, edges[k].source, nodes[k+1].name)
  }

  /** The scope entry `id` is a node whose qualified name spells the scope up to it. */
  predicate Link(nodes: seq<Node>, scope: seq<string>, id: string)
  {
    match FindNode(nodes, id)
    case Some(n) => !n.kind.File? && n.qualifiedName == Join(ScopeNames(nodes, scope + [id]))
    case None => false
  }

  ghost predicate Chained(nodes: seq<Node>, scope: seq<string>)
  {
    && |scope| > 0 && FindNode(nodes, scope[0]).Some? && FindNode(nodes, scope[0]).value.kind.File?
    && forall i :: 1 <= i < |scope| ==> Link(nodes, scope[..i], scope[i])
  }

  lemma {:induction false} FindStays(nodes: seq<Node>, n: Node, id: string)
    ensures FindNode(nodes, id).Some? ==> FindNode(nodes + [n], id) == FindNode(nodes, id)
    ensures FindNode(nodes, id).None? ==> FindNode(nodes + [n], id) == if n.id == id then Some(n) else None
  {
    if |nodes| == 0 {
      assert nodes + [n] == [n] && [n][1..] == [];
    } else {
      assert (nodes + [n])[1..] == nodes[1..] + [n];
      FindStays(nodes[1..], n, id);
    }
  }

  lemma {:induction false} FindHas(nodes: seq<Node>, id: string)
    ensures HasId(nodes, id) <==> FindNode(nodes, id).Some?
    ensures FindNode(nodes, id).Some? ==> FindNode(nodes, id).value.id == id
  {
    if |nodes| > 0 {
      FindHas(nodes[1..], id);
      if HasId(nodes, id) && nodes[0].id != id {
        var j :| 0 <= j < |nodes| && nodes[j].id == id;
        assert nodes[1..][j-1].id == id;
      }
      if HasId(nodes[1..], id) {
        var j :| 0 <= j < |nodes[1..]| && nodes[1..][j].id == id;
        assert nodes[j+1].id == id;
      }
    }
  }

  lemma {:induction false} FoundIsMember(nodes: seq<Node>, id: string)
    requires FindNode(nodes, id).Some?
    ensures FindNode(nodes, id).value in nodes && FindNode(nodes, id).value.id == id
  {
    if nodes[0].id != id { FoundIsMember(nodes[1..], id); }
  }

  lemma FoundIsOnly(nodes: seq<Node>, n: Node)
    requires DistinctIds(nodes) && n in nodes
    ensures FindNode(nodes, n.id) == Some(n)
  {
    var k :| 0 <= k < |nodes| && nodes[k] == n;
    assert HasId(nodes, n.id);
    FindHas(nodes, n.id);
    FoundIsMember(nodes, n.id);
    var j :| 0 <= j < |nodes| && nodes[j] == FindNode(nodes, n.id).value;
    assert j == k;
  }

  lemma {:induction false} NamesStay(nodes: seq<Node>, more: seq<Node>, scope: seq<string>)
    requires nodes <= more && forall id :: id in scope ==> HasId(nodes, id)
    ensures ScopeNames(more, scope) == ScopeNames(nodes, scope)
  {
    if |scope| > 0 {
      FindHas(nodes, scope[0]);
      FindGrows(nodes, more, scope[0]);
      NamesStay(nodes, more, scope[1..]);
    }
  }

  lemma {:induction false} NamesPush(nodes: seq<Node>, scope: seq<string>, id: string)
    ensures ScopeNames(nodes, scope + [id])
         == ScopeNames(nodes, scope) + match FindNode(nodes, id)
                                       case Some(n) => if n.kind.File? then [] else [n.name]
                                       case None => []
  {
    if |scope| == 0 {
      assert scope + [id] == [id] && [id][1..] == [];
    } else {
      assert (scope + [id])[1..] == scope[1..] + [id];
      NamesPush(nodes, scope[1..], id);
    }
  }

  lemma {:induction false} JoinPush(parts: seq<string>, x: string)
    ensures Join(parts + [x]) == if parts == [] then x else Join(parts) + "::" + x
  {
    if |parts| > 0 {
      assert (parts + [x])[1..] == parts[1..] + [x];
      JoinPush(parts[1..], x);
      if |parts| > 1 {
        var rest := Join(parts[1..]);
        assert parts[0] + "::" + (rest + "::" + x) == parts[0] + "::" + rest + "::" + x;
      }
    }
  }

  /** In a chained scope a new name is qualified by the innermost entry. */
  lemma NameInScope(nodes: seq<Node>, scope: seq<string>, name: string)
    requires Chained(nodes, scope)
    ensures Join(ScopeNames(nodes, scope) + [name]) == Under(nodes, scope[|scope|-1], name)
  {
    JoinPush(ScopeNames(nodes, scope), name);
    var init, top := scope[..|scope|-1], scope[|scope|-1];
    assert scope == init + [top];
    NamesPush(nodes, init, top);
    if |scope| == 1 {
      assert ScopeNames(nodes, init) == [];
    } else {
      assert Link(nodes, scope[..|scope|-1], scope[|scope|-1]);
    }
  }

  lemma LinkStays(nodes: seq<Node>, n: Node, scope: seq<string>, id: string)
    requires Link(nodes, scope, id) && HasId(nodes, id) && forall i :: i in scope ==> HasId(nodes, i)
    ensures Link(nodes + [n], scope, id)
  {
    FindStays(nodes, n, id);
    NamesStay(nodes, nodes + [n], scope + [id]);
  }

  lemma ChainedStays(nodes: seq<Node>, n: Node, scope: seq<string>)
    requires Chained(nodes, scope) && forall id :: id in scope ==> HasId(nodes, id)
    ensures Chained(nodes + [n], scope)
  {
    FindStays(nodes, n, scope[0]);
    forall i | 1 <= i < |scope| ensures Link(nodes + [n], scope[..i], scope[i]) {
      LinkStays(nodes, n, scope[..i], scope[i]);
    }
  }

  lemma UnderStays(nodes: seq<Node>, n: Node, parent: string, name: string)
    requires HasId(nodes, parent)
    ensures Under(nodes + [n], parent, name) == Under(nodes, parent, name)
  {
    FindHas(nodes, parent);
    FindStays(nodes, n, parent);
  }

  lemma NamedStays(nodes: seq<Node>, edges: seq<Edge>, n: Node, parent: string)
    requires TreeShaped(nodes, edges) && HasId(nodes, parent) && NamedByParent(nodes, edges)
    requires n.qualifiedName == Under(nodes, parent, n.name)
    ensures NamedByParent(nodes + [n], edges + [Edge(parent, n.id, Contains)])
  {
    var ns, es := nodes + [n], edges + [Edge(parent, n.id, Contains)];
    forall k | 0 <= k < |es| && k + 1 < |ns| ensures ns[k+1].qualifiedName == Under(ns, es[k].source, ns[k+1].name) {
      if k < |edges| {
        IdsGrow(nodes[..k+1], nodes, edges[k].source);
        UnderStays(nodes, n, edges[k].source, nodes[k+1].name);
      } else {
        UnderStays(nodes, n, parent, n.name);
      }
    }
  }

  // ----- places as the scope changes -----------------------------------------------------------------

  lemma {:induction false} InsideStays(nodes: seq<Node>, more: seq<Node>, scope: seq<string>)
    requires nodes <= more && forall id :: id in scope ==> HasId(nodes, id)
    ensures InClassScope(more, scope) == InClassScope(nodes, scope)
    ensures InFunctionScope(more, scope) == InFunctionScope(nodes, scope)
  {
    if |scope| > 0 {
      var top := scope[|scope|-1];
      FindHas(nodes, top);
      FindGrows(nodes, more, top);
      InsideStays(nodes, more, scope[..|scope|-1]);
    }
  }

  lemma PlaceStays(nodes: seq<Node>, more: seq<Node>, scope: seq<string>)
    requires nodes <= more && |scope| > 0 && forall id :: id in scope ==> HasId(nodes, id)
    ensures PlaceOf(more, scope) == PlaceOf(nodes, scope)
  {
    NamesStay(nodes, more, scope);
    InsideStays(nodes, more, scope);
  }

  // ----- impl blocks that do not disturb names ---------------------------------------------------------

  /** Visiting d leaves the scope as it is while its children are visited. */
  predicate Transparent(c: LanguageConfig, d: Tree)
  {
    d.kind !in c.namespaceTypes + c.Callables() + c.Types() && d.kind != "impl_item"
  }

  /** A type of this name is declared inside another declaration; `top` is whether d itself
      stands outside of all. */
  predicate Nests(c: LanguageConfig, d: Tree, top: bool, name: string)
  {
    || (!top && d.kind in c.Types() + c.typeAliasTypes && NameOf(d, c.nameField) == name)
    || exists t :: t in d.children && Nests(c, t, top && Transparent(c, d), name)
  }

  /** The root is visited outside of all declarations. */
  predicate TopLevel(s: Source) { s.config.namespaceTypes == {} || FileNamespaces(s.root.children) == 0 }

  predicate NestedSomewhere(s: Source, name: string) { Nests(s.config, s.root, TopLevel(s), name) }

  /** The hash keeps kinds, names and lines apart, and from the id of the file. */
  ghost predicate IdsApart(s: Source)
  {
    && (forall k, n, l, k', n', l' :: s.makeId(k, n, l) == s.makeId(k', n', l') ==> k == k' && n == n' && l == l')
    && (forall k, n, l :: s.makeId(k, n, l) != "file:" + s.filePath)
  }

  /** Every impl block stands outside of all declarations and is for a plain identifier
      that no nested type has. */
  ghost predicate ImplsFit(s: Source, d: Tree, top: bool)
  {
    && (d.kind == "impl_item" ==> top && ImplType(d) != "" && !NestedSomewhere(s, ImplType(d)) && IdsApart(s))
    && forall t :: t in d.children ==> ImplsFit(s, t, top && Transparent(s.config, d))
  }

  ghost predicate Fits(s: Source, d: Tree, top: bool)
  {
    ImplsFit(s, d, top) && forall name :: Nests(s.config, d, top, name) ==> NestedSomewhere(s, name)
  }

  predicate NoImpl(node: Tree) { node.kind != "impl_item" && forall c :: c in node.children ==> NoImpl(c) }

  lemma {:induction false} NoImplFits(s: Source, d: Tree, top: bool)
    requires NoImpl(d)
    ensures ImplsFit(s, d, top)
    decreases d
  {
    forall t | t in d.children ensures ImplsFit(s, t, top && Transparent(s.config, d)) {
      NoImplFits(s, t, top && Transparent(s.config, d));
    }
  }

  lemma {:induction false} ImplsFitLower(s: Source, d: Tree, top: bool)
    requires ImplsFit(s, d, top)
    ensures ImplsFit(s, d, true) && NoBareImpl(d)
    decreases d
  {
    forall t | t in d.children ensures ImplsFit(s, t, true && Transparent(s.config, d)) && NoBareImpl(t) {
      ImplsFitLower(s, t, top && Transparent(s.config, d));
    }
  }

  lemma {:induction false} NestsLower(c: LanguageConfig, d: Tree, name: string)
    requires Nests(c, d, true, name)
    ensures Nests(c, d, false, name)
    decreases d
  {
    var t :| t in d.children && Nests(c, t, Transparent(c, d), name);
    if Transparent(c, d) { NestsLower(c, t, name); }
  }

  lemma FitsChild(s: Source, d: Tree, t: Tree, top: bool, below: bool)
    requires Fits(s, d, top) && t in d.children && (top && Transparent(s.config, d) ==> below)
    ensures Fits(s, t, below) && NoBareImpl(t)
  {
    var exact := top && Transparent(s.config, d);
    ImplsFitLower(s, t, exact);
    forall name | Nests(s.config, t, below, name) ensures NestedSomewhere(s, name) {
      if below != exact { NestsLower(s.config, t, name); }
      assert Nests(s.config, d, top, name);
    }
  }

  /** Inside a declaration nothing is at the top any more. */
  lemma KidsFit(s: Source, d: Tree, top: bool, below: bool)
    requires Fits(s, d, top) && (top && Transparent(s.config, d) ==> below)
    ensures forall c :: c in d.children ==> Fits(s, c, below) && NoBareImpl(c)
  {
    forall c | c in d.children ensures Fits(s, c, below) && NoBareImpl(c) { FitsChild(s, d, c, top, below); }
  }

  lemma NestedHere(s: Source, d: Tree)
    requires Fits(s, d, false) && d.kind in s.config.Types() + s.config.typeAliasTypes
    ensures NestedSomewhere(s, NameOf(d, s.config.nameField))
  {
    assert Nests(s.config, d, false, NameOf(d, s.config.nameField));
  }

  /** Types that are nested nowhere are qualified by nothing. */
  ghost predicate TopTypes(s: Source, nodes: seq<Node>)
  {
    forall n :: n in nodes && n.kind in TARGET_KINDS + {NodeKind.Type} && !NestedSomewhere(s, n.name) ==> n.qualifiedName == n.name
  }

  lemma TopTypesAppend(s: Source, nodes: seq<Node>, scope: seq<string>, n: Node)
    requires TopTypes(s, nodes) && |nodes| > 0 && nodes[0].kind.File? && |scope| > 0 && scope[0] == nodes[0].id
    requires n.qualifiedName == Join(ScopeNames(nodes, scope) + [n.name])
    requires n.kind in TARGET_KINDS + {NodeKind.Type} && |scope| > 1 ==> NestedSomewhere(s, n.name)
    ensures TopTypes(s, nodes + [n])
  {
    if |scope| == 1 {
      assert ScopeNames(nodes, scope) == [] && [] + [n.name] == [n.name];
    }
  }

  lemma TopTypesOther(s: Source, nodes: seq<Node>, n: Node)
    requires n.kind !in TARGET_KINDS + {NodeKind.Type}
    ensures TopTypes(s, nodes) ==> TopTypes(s, nodes + [n])
  {
  }

  /** At file level, a node with a bare qualified name links. */
  lemma BareNameLinks(nodes: seq<Node>, scope: seq<string>, id: string)
    requires |nodes| > 0 && nodes[0].kind.File? && scope == [nodes[0].id]
    requires match FindNode(nodes, id) case Some(n) => !n.kind.File? && n.qualifiedName == n.name case None => false
    ensures Link(nodes, scope, id)
  {
    NamesPush(nodes, scope, id);
    assert ScopeNames(nodes, scope) == [];
  }

  /** What an explained node's id tells when ids are apart. */
  lemma ExplainedId(s: Source, nodes: seq<Node>, refs: seq<UnresolvedRef>, kind: NodeKind, name: string, line: nat, n: Node)
    requires Explained(s, nodes, refs) && IdsApart(s) && |nodes| > 0 && nodes[0].id == "file:" + s.filePath
    requires n in nodes && n.id == s.makeId(kind, name, line)
    ensures n.kind == kind && n.name == name
  {
    var k :| 0 <= k < |nodes| && nodes[k] == n;
    if k > 0 {
      assert NodeFrom(s, nodes[k]);
      var d :| Inside(s.root, d) && Explains(s, d, n);
      assert n.id == s.makeId(n.kind, n.name, d.row + 1);
    }
  }

  // ----- what every step keeps -----------------------------------------------------------------------

  /** While `plain` holds and ids are distinct, names follow the containment. */
  ghost predicate Qualified(nodes: seq<Node>, edges: seq<Edge>, scope: seq<string>, plain: bool)
  {
    plain && DistinctIds(nodes) ==> Chained(nodes, scope) && NamedByParent(nodes, edges)
  }

  ghost predicate WellWalked(s: Source, nodes: seq<Node>, edges: seq<Edge>, refs: seq<UnresolvedRef>, scope: seq<string>, plain: bool)
  {
    && TreeShaped(nodes, edges) && Anchored(nodes, refs)
    && (forall n :: n in nodes ==> n.id != "")
    && nodes[0].id == "file:" + s.filePath
    && |scope| > 0 && scope[0] == nodes[0].id && (forall id :: id in scope ==> HasId(nodes, id))
    && Explained(s, nodes, refs) && Qualified(nodes, edges, scope, plain)
  }

  lemma DistinctPrefix(nodes: seq<Node>, n: Node)
    requires DistinctIds(nodes + [n])
    ensures DistinctIds(nodes) && !HasId(nodes, n.id)
  {
    forall i, j | 0 <= i < j < |nodes| ensures nodes[i].id != nodes[j].id {
      assert (nodes + [n])[i].id != (nodes + [n])[j].id;
    }
    forall j | 0 <= j < |nodes| ensures nodes[j].id != n.id { assert (nodes + [n])[j].id != (nodes + [n])[|nodes|].id; }
  }

  lemma QualifiedAppend(nodes: seq<Node>, edges: seq<Edge>, scope: seq<string>, plain: bool, n: Node, parent: string)
    requires TreeShaped(nodes, edges) && HasId(nodes, parent) && Qualified(nodes, edges, scope, plain)
    requires forall id :: id in scope ==> HasId(nodes, id)
    requires plain && DistinctIds(nodes) ==> n.qualifiedName == Under(nodes, parent, n.name)
    ensures Qualified(nodes + [n], edges + [Edge(parent, n.id, Contains)], scope, plain)
  {
    if plain && DistinctIds(nodes + [n]) {
      DistinctPrefix(nodes, n);
      ChainedStays(nodes, n, scope);
      NamedStays(nodes, edges, n, parent);
    }
  }

  lemma GoodAppend(s: Source, nodes: seq<Node>, edges: seq<Edge>, refs: seq<UnresolvedRef>, scope: seq<string>, plain: bool,
                   n: Node, parent: string)
    requires WellWalked(s, nodes, edges, refs, scope, plain) && HasId(nodes, parent) && n.id != "" && NodeFrom(s, n)
    requires plain && DistinctIds(nodes) ==> n.qualifiedName == Under(nodes, parent, n.name)
    ensures WellWalked(s, nodes + [n], edges + [Edge(parent, n.id, Contains)], refs, scope, plain)
    ensures HasId(nodes + [n], n.id)
  {
    ShapePush(nodes, edges, n, parent);
    QualifiedAppend(nodes, edges, scope, plain, n, parent);
    var ns := nodes + [n];
    assert ns[|nodes|].id == n.id;
    forall id | HasId(nodes, id) ensures HasId(ns, id) { IdsGrow(nodes, ns, id); }
    hide TreeShaped, Qualified, NodeFrom, RefFrom, HasId;
  }

  lemma GoodPush(s: Source, nodes: seq<Node>, edges: seq<Edge>, refs: seq<UnresolvedRef>, scope: seq<string>, plain: bool, id: string)
    requires WellWalked(s, nodes, edges, refs, scope, plain) && HasId(nodes, id)
    requires plain && DistinctIds(nodes) ==> Link(nodes, scope, id)
    ensures WellWalked(s, nodes, edges, refs, scope + [id], plain)
  {
    if plain && DistinctIds(nodes) {
      forall i | 1 <= i < |scope + [id]| ensures Link(nodes, (scope + [id])[..i], (scope + [id])[i]) {
        assert (scope + [id])[..i] == if i < |scope| then scope[..i] else scope;
      }
      assert Chained(nodes, scope + [id]);
    }
    hide TreeShaped, Link, Explained, HasId;
  }

  lemma GoodPop(s: Source, nodes: seq<Node>, edges: seq<Edge>, refs: seq<UnresolvedRef>, scope: seq<string>, plain: bool, k: nat)
    requires WellWalked(s, nodes, edges, refs, scope, plain) && 0 < k <= |scope|
    ensures WellWalked(s, nodes, edges, refs, scope[..k], plain)
  {
    if plain && DistinctIds(nodes) {
      forall i | 1 <= i < k ensures Link(nodes, scope[..k][..i], scope[..k][i]) { assert scope[..k][..i] == scope[..i]; }
      assert Chained(nodes, scope[..k]);
    }
    hide TreeShaped, Link, Explained, HasId;
  }

  lemma GoodRef(s: Source, nodes: seq<Node>, edges: seq<Edge>, refs: seq<UnresolvedRef>, scope: seq<string>, plain: bool, r: UnresolvedRef)
    requires WellWalked(s, nodes, edges, refs, scope, plain) && HasId(nodes, r.fromNode) && RefFrom(s, r)
    ensures WellWalked(s, nodes, edges, refs + [r], scope, plain)
  {
    hide TreeShaped, HasId, RefFrom, NodeFrom, Qualified;
  }

  lemma AloneInScope(nodes: seq<Node>, scope: seq<string>, name: string)
    requires Chained(nodes, scope) && |scope| == 1
    ensures Under(nodes, scope[0], name) == name == Join(ScopeNames(nodes, scope) + [name])
  {
    assert ScopeNames(nodes, scope) == [] && [] + [name] == [name];
  }

  /** A node just emitted in the innermost scope links on to it. */
  lemma NewNodeLinks(nodes: seq<Node>, scope: seq<string>, n: Node)
    requires Chained(nodes, scope) && (forall id :: id in scope ==> HasId(nodes, id)) && !HasId(nodes, n.id) && !n.kind.File?
    requires n.qualifiedName == Join(ScopeNames(nodes, scope) + [n.name])
    ensures Link(nodes + [n], scope, n.id)
  {
    FindHas(nodes, n.id);
    FindStays(nodes, n, n.id);
    NamesStay(nodes, nodes + [n], scope);
    NamesPush(nodes + [n], scope, n.id);
  }
}
