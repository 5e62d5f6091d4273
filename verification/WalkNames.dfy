/** The names the walk reads off the tree, by the fields and children they come from. */
module WalkNames {
  import opened Graph
  import opened WalkSpec

  // ----- calls ---------------------------------------------------------------------------------

  /** The tree of the callee: the function, else the name, else the callee field. */
  predicate HasCallee(d: Tree, c: Tree)
  {
    match d.Field("function")
    case Some(f) => c == f
    case None =>
      match d.Field("name")
      case Some(n) => c == n
      case None => d.Field("callee") == Some(c)
  }

  /** The callee ends in this name: it is the whole text or what follows the last dot. */
  ghost predicate CallsName(d: Tree, name: string)
  {
    '.' !in name && exists c :: HasCallee(d, c) && (c.text == name || exists a :: c.text == a + "." + name)
  }

  lemma {:induction false} LastPart(a: string, b: string)
    requires '.' !in b
    ensures AfterLastDot(b) == b && AfterLastDot(a + "." + b) == b
  {
    if |b| > 0 {
      LastPart(a, b[..|b|-1]);
      assert b == b[..|b|-1] + [b[|b|-1]];
      assert (a + "." + b)[..|a + "." + b| - 1] == a + "." + b[..|b|-1];
    } else {
      assert a + "." + b == a + ".";
    }
  }

  lemma {:induction false} LastPartExists(s: string)
    ensures '.' !in AfterLastDot(s) && (s == AfterLastDot(s) || exists a :: s == a + "." + AfterLastDot(s))
  {
    if |s| > 0 {
      if s[|s|-1] == '.' {
        assert s == s[..|s|-1] + "." + "";
      } else {
        var init := s[..|s|-1];
        LastPartExists(init);
        assert s == init + [s[|s|-1]];
        if a :| init == a + "." + AfterLastDot(init) { assert s == a + "." + AfterLastDot(s); }
      }
    }
  }

  /** The name of a call, exactly. */
  lemma CalleeNameIs(d: Tree, name: string)
    ensures CallsName(d, name) ==> CalleeName(d) == name
    ensures CalleeName(d) == name && name != "" ==> CallsName(d, name)
  {
    if CallsName(d, name) {
      var c :| HasCallee(d, c) && (c.text == name || exists a :: c.text == a + "." + name);
      LastPart("", name);
      if a :| c.text == a + "." + name { LastPart(a, name); }
    }
    if CalleeName(d) == name && name != "" {
      var callee := OrField(OrField(d.Field("function"), d, "name"), d, "callee");
      assert HasCallee(d, callee.value);
      LastPartExists(callee.value.text);
    }
  }

  // ----- imports -------------------------------------------------------------------------------

  predicate Quotes(s: string) { forall k :: 0 <= k < |s| ==> s[k] == '"' || s[k] == '\'' }

  /** The text between the quotes. */
  ghost predicate Between(text: string, name: string)
  {
    && name != "" && !Quotes([name[0]]) && !Quotes([name[|name|-1]])
    && exists l, r :: text == l + name + r && Quotes(l) && Quotes(r)
  }

  /** The tree of the module: the source, else the module name, else the path, else the name. */
  predicate HasModule(d: Tree, c: Tree)
  {
    match d.Field("source")
    case Some(x) => c == x
    case None =>
      match d.Field("module_name")
      case Some(x) => c == x
      case None =>
        match d.Field("path")
        case Some(x) => c == x
        case None => d.Field("name") == Some(c)
  }

  lemma {:induction false} Trimmed(l: string, name: string, r: string)
    requires name != "" && !Quotes([name[0]]) && !Quotes([name[|name|-1]]) && Quotes(l) && Quotes(r)
    ensures TrimQuotes(l + name + r) == name
    decreases |l| + |r|
  {
    var s := l + name + r;
    if |l| > 0 {
      Trimmed(l[1..], name, r);
      assert s[1..] == l[1..] + name + r;
    } else if |r| > 0 {
      Trimmed(l, name, r[..|r|-1]);
      assert s == name + r && s[..|s|-1] == l + name + r[..|r|-1];
    } else {
      assert s == name;
    }
  }

  lemma {:induction false} TrimmedToNothing(s: string)
    requires Quotes(s)
    ensures TrimQuotes(s) == ""
    decreases |s|
  {
    if |s| > 0 { TrimmedToNothing(s[1..]); }
  }

  /** An import names what its field holds between the quotes. */
  lemma ModuleNameIs(d: Tree, c: Tree, name: string)
    requires HasModule(d, c) && Between(c.text, name)
    ensures ModuleName(d) == name
  {
    var l, r :| c.text == l + name + r && Quotes(l) && Quotes(r);
    Trimmed(l, name, r);
  }

  predicate ModuleKind(kind: string) { kind == "qualified_name" || kind == "identifier" || kind == "name" }

  lemma {:induction false} FirstModuleIs(children: seq<Tree>, k: nat, name: string)
    requires k < |children| && children[k].named && ModuleKind(children[k].kind) && Between(children[k].text, name)
    requires forall i :: 0 <= i < k && children[i].named && ModuleKind(children[i].kind) ==> Quotes(children[i].text)
    ensures FirstModule(children) == name
    decreases k
  {
    if k == 0 {
      var l, r :| children[0].text == l + name + r && Quotes(l) && Quotes(r);
      Trimmed(l, name, r);
    } else {
      if children[0].named && ModuleKind(children[0].kind) { TrimmedToNothing(children[0].text); }
      FirstModuleIs(children[1..], k - 1, name);
    }
  }

  /** Without a field that names something, it is the first name among the children. */
  lemma ModuleNameOfChild(d: Tree, k: nat, name: string)
    requires forall c :: HasModule(d, c) ==> Quotes(c.text)
    requires k < |d.children| && d.children[k].named && ModuleKind(d.children[k].kind) && Between(d.children[k].text, name)
    requires forall i :: 0 <= i < k && d.children[i].named && ModuleKind(d.children[i].kind) ==> Quotes(d.children[i].text)
    ensures ModuleName(d) == name
  {
    if c :| HasModule(d, c) { TrimmedToNothing(c.text); }
    FirstModuleIs(d.children, k, name);
  }

  // ----- declarations ----------------------------------------------------------------------------

  predicate NameKind(kind: string)
  {
    kind == "identifier" || kind == "type_identifier" || kind == "simple_identifier" || kind == "property_identifier"
  }

  /** The name of a declaration: its name field, else the first identifier among the children. */
  ghost predicate Named(d: Tree, field: string, name: string)
  {
    match d.Field(field)
    case Some(c) => name == c.text
    case None => exists k: nat :: FirstOf(d.children, k) && name == d.children[k].text
  }

  predicate FirstOf(children: seq<Tree>, k: nat)
  {
    && k < |children| && children[k].named && NameKind(children[k].kind)
    && forall i :: 0 <= i < k && children[i].named ==> !NameKind(children[i].kind)
  }

  lemma {:induction false} FirstNamedIs(children: seq<Tree>, k: nat)
    requires FirstOf(children, k)
    ensures FirstNamed(children, {"identifier", "type_identifier", "simple_identifier", "property_identifier"}) == children[k].text
    decreases k
  {
    if k > 0 { FirstNamedIs(children[1..], k - 1); }
  }

  lemma NameOfIs(d: Tree, field: string, name: string)
    requires Named(d, field, name)
    ensures NameOf(d, field) == name
  {
    if d.Field(field).None? {
      var k: nat :| FirstOf(d.children, k) && name == d.children[k].text;
      FirstNamedIs(d.children, k);
    }
  }

  predicate FirstQualified(children: seq<Tree>, k: nat)
  {
    && k < |children| && children[k].named && (children[k].kind == "qualified_name" || children[k].kind == "identifier")
    && forall i :: 0 <= i < k && children[i].named ==> children[i].kind != "qualified_name" && children[i].kind != "identifier"
  }

  lemma {:induction false} FirstQualifiedIs(children: seq<Tree>, k: nat)
    requires FirstQualified(children, k)
    ensures FirstNamed(children, {"qualified_name", "identifier"}) == children[k].text
    decreases k
  {
    if k > 0 { FirstQualifiedIs(children[1..], k - 1); }
  }

  /** The name of a namespace: a name field that is not empty, else the first qualified name
      or identifier among the children. */
  ghost predicate NamespaceNamed(d: Tree, name: string)
  {
    if d.Field("name").Some? && d.Field("name").value.text != "" then name == d.Field("name").value.text
    else exists k: nat :: FirstQualified(d.children, k) && name == d.children[k].text
  }

  lemma NamespaceNameIs(d: Tree, name: string)
    requires NamespaceNamed(d, name)
    ensures NamespaceName(d) == name
  {
    if !(d.Field("name").Some? && d.Field("name").value.text != "") {
      var k: nat :| FirstQualified(d.children, k) && name == d.children[k].text;
      FirstQualifiedIs(d.children, k);
    }
  }

  // ----- impl blocks -------------------------------------------------------------------------------

  predicate IsTypeIdent(d: Tree) { d.named && d.kind == "type_identifier" }

  lemma {:induction false} TypeIdentsAre(children: seq<Tree>, k: nat)
    requires k < |children| && IsTypeIdent(children[k])
    ensures (forall i :: 0 <= i < k ==> !IsTypeIdent(children[i])) ==>
              |TypeIdents(children)| > 0 && TypeIdents(children)[0] == children[k].text
    ensures (forall i :: k < i < |children| ==> !IsTypeIdent(children[i])) ==>
              |TypeIdents(children)| > 0 && TypeIdents(children)[|TypeIdents(children)|-1] == children[k].text
    decreases children
  {
    if k > 0 {
      TypeIdentsAre(children[1..], k - 1);
    } else if forall i :: 0 < i < |children| ==> !IsTypeIdent(children[i]) {
      NoTypeIdents(children[1..]);
    }
  }

  lemma {:induction false} NoTypeIdents(children: seq<Tree>)
    requires forall i :: 0 <= i < |children| ==> !IsTypeIdent(children[i])
    ensures TypeIdents(children) == []
  {
    if |children| > 0 { NoTypeIdents(children[1..]); }
  }

  /** Of the type identifiers of an impl block the last is the Self type and, when there are
      several, the first the trait. */
  lemma ImplTypeIs(d: Tree, first: nat, last: nat)
    requires first < last < |d.children| && IsTypeIdent(d.children[first]) && IsTypeIdent(d.children[last])
    requires forall i :: 0 <= i < |d.children| && IsTypeIdent(d.children[i]) ==> first <= i <= last
    ensures |TypeIdents(d.children)| >= 2
    ensures ImplType(d) == d.children[last].text && TypeIdents(d.children)[0] == d.children[first].text
  {
    TypeIdentsAre(d.children, first);
    TypeIdentsAre(d.children, last);
    SeveralTypeIdents(d.children, first, last);
  }

  lemma {:induction false} SeveralTypeIdents(children: seq<Tree>, first: nat, last: nat)
    requires first < last < |children| && IsTypeIdent(children[first]) && IsTypeIdent(children[last])
    ensures |TypeIdents(children)| >= 2
  {
    if first > 0 { SeveralTypeIdents(children[1..], first - 1, last - 1); } else { SomeTypeIdents(children[1..], last - 1); }
  }

  lemma {:induction false} SomeTypeIdents(children: seq<Tree>, k: nat)
    requires k < |children| && IsTypeIdent(children[k])
    ensures |TypeIdents(children)| >= 1
  {
    if k > 0 { SomeTypeIdents(children[1..], k - 1); }
  }

  lemma PlainImplTypeIs(d: Tree, k: nat)
    requires k < |d.children| && IsTypeIdent(d.children[k])
    requires forall i :: 0 <= i < |d.children| && i != k ==> !IsTypeIdent(d.children[i])
    ensures ImplType(d) == d.children[k].text
  {
    TypeIdentsAre(d.children, k);
  }
}
