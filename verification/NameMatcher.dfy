/** The five-tier name matcher, over a lookup context that either scans the node list or
    reads the in-memory indexes. Confidences are real numbers. */
module NameMatcher {
  import opened Graph
  import opened Seqs

  datatype Language =
    | TypeScript | JavaScript | Python | Go | Rust | Java | Kotlin | CSharp | Razor | Ruby | Php | OtherLanguage

  datatype NodeRef = NodeRef(
    id: string, name: string, qualifiedName: string, kind: NodeKind, language: Language, filePath: string,
    startLine: nat, isExported: bool)

  datatype Ref = Ref(name: string, kind: string, filePath: string, line: Option<nat>)

  datatype Match = Match(node: NodeRef, confidence: real)

  /** Unicode case mapping, which this module does not look into. */
  datatype Casing = Casing(lower: string -> string, upper: char -> string)

  type Index = map<string, seq<NodeRef>>

  /** `files` is the list of file paths, in whatever order a hash map yields its keys. */
  datatype Ctx =
    | Scan(nodes: seq<NodeRef>, files: seq<string>)
    | Indexed(names: Index, lowerNames: Index, qualifiedNames: Index, inFile: Index, files: seq<string>)

  // ----- strings -------------------------------------------------------------------------

  predicate EndsWith(s: string, t: string) { |t| <= |s| && s[|s|-|t|..] == t }

  function FirstIndex(s: string, i: nat, c: char): (r: Option<nat>)
    ensures r.Some? ==> r.value < |s| && s[r.value] == c
    decreases |s| - i
  {
    if i >= |s| then None else if s[i] == c then Some(i) else FirstIndex(s, i + 1, c)
  }

  predicate ColonsAt(s: string, i: nat) { i + 1 < |s| && s[i] == ':' && s[i+1] == ':' }

  function FirstColons(s: string, i: nat): (r: Option<nat>)
    ensures r.Some? ==> ColonsAt(s, r.value)
    decreases |s| - i
  {
    if i >= |s| then None else if ColonsAt(s, i) then Some(i) else FirstColons(s, i + 1)
  }

  function AfterLastColons(s: string, i: nat): string
    requires i <= |s|
  {
    if i == 0 then s else if ColonsAt(s, i - 1) then s[i+1..] else AfterLastColons(s, i - 1)
  }

  function LastIndex(s: string, c: char): (r: Option<nat>)
    ensures r.Some? ==> r.value < |s| && s[r.value] == c
  {
    if |s| == 0 then None else if s[|s|-1] == c then Some(|s|-1) else LastIndex(s[..|s|-1], c)
  }

  function FileNameOf(path: string): string
  {
    match LastIndex(path, '/')
    case Some(k) => path[k+1..]
    case None => path
  }

  predicate HasColons(s: string) { FirstColons(s, 0).Some? }

  function Capitalize(c: Casing, s: string): string { if |s| == 0 then "" else c.upper(s[0]) + s[1..] }

  // ----- lookups ---------------------------------------------------------------------------

  function Named(name: string): NodeRef -> bool { (n: NodeRef) => n.name == name }

  function LowerNamed(c: Casing, lower: string): NodeRef -> bool { (n: NodeRef) => c.lower(n.name) == lower }

  function QualifiedAs(qname: string): NodeRef -> bool { (n: NodeRef) => n.qualifiedName == qname }

  function InPath(path: string): NodeRef -> bool { (n: NodeRef) => n.filePath == path }

  function Get(index: Index, key: string): seq<NodeRef> { if key in index then index[key] else [] }

  function ByName(x: Ctx, name: string): seq<NodeRef>
  {
    match x case Scan(nodes, _) => Filter(nodes, Named(name)) case Indexed(names, _, _, _, _) => Get(names, name)
  }

  function ByLowerName(c: Casing, x: Ctx, lower: string): seq<NodeRef>
  {
    match x case Scan(nodes, _) => Filter(nodes, LowerNamed(c, lower)) case Indexed(_, l, _, _, _) => Get(l, lower)
  }

  function ByQualifiedName(x: Ctx, qname: string): seq<NodeRef>
  {
    match x case Scan(nodes, _) => Filter(nodes, QualifiedAs(qname)) case Indexed(_, _, q, _, _) => Get(q, qname)
  }

  function InFile(x: Ctx, path: string): seq<NodeRef>
  {
    match x case Scan(nodes, _) => Filter(nodes, InPath(path)) case Indexed(_, _, _, f, _) => Get(f, path)
  }

  // ----- scoring ---------------------------------------------------------------------------

  function LanguageGroup(l: Language): nat
  {
    match l
    case TypeScript => 0 case JavaScript => 0 case Python => 1 case Go => 2 case Rust => 3 case Java => 4 case Kotlin => 4
    case CSharp => 5 case Razor => 5 case Ruby => 6 case Php => 7 case OtherLanguage => 255
  }

  function GroupOfFile(path: string): nat
  {
    if EndsWith(path, ".ts") || EndsWith(path, ".tsx") || EndsWith(path, ".js") || EndsWith(path, ".jsx") then 0
    else if EndsWith(path, ".py") then 1
    else if EndsWith(path, ".go") then 2
    else if EndsWith(path, ".rs") then 3
    else if EndsWith(path, ".java") || EndsWith(path, ".kt") then 4
    else if EndsWith(path, ".cs") || EndsWith(path, ".razor") then 5
    else if EndsWith(path, ".rb") then 6
    else if EndsWith(path, ".php") then 7
    else 255
  }

  predicate LanguageMatches(n: NodeRef, u: Ref)
  {
    u.filePath == "" || LanguageGroup(n.language) == GroupOfFile(u.filePath)
  }

  /** An unsigned difference of lines cast to a signed 32-bit integer. */
  function AsI32(n: nat): int { if n < 0x8000_0000 then n else n - 0x1_0000_0000 }

  function Proximity(n: NodeRef, u: Ref): int
  {
    if u.line.None? then 0
    else
      var dist := AsI32(if n.startLine >= u.line.value then n.startLine - u.line.value else u.line.value - n.startLine);
      var bonus := 20 - (if dist < 20 then dist else 20);
      if bonus > 0 then bonus else 0
  }

  predicate Callable(n: NodeRef) { n.kind.Function? || n.kind.Method? }

  function KindBonus(n: NodeRef, u: Ref): int
  {
    if u.kind == "calls" then (if Callable(n) then 25 else 0)
    else if u.kind == "instantiates" then (if n.kind.Class? || n.kind.Struct? then 25 else 0)
    else if u.kind == "decorates" then (if n.kind.Function? then 25 else if n.kind.Class? then 15 else 0)
    else 0
  }

  function Score(n: NodeRef, u: Ref): int
  {
    (if n.filePath == u.filePath then 100 + Proximity(n, u) else 0)
    + (if LanguageMatches(n, u) then 50 else -80)
    + KindBonus(n, u)
    + (if n.isExported then 10 else 0)
  }

  /** `max_by_key` keeps the last of equally good candidates. */
  function FindBest(candidates: seq<NodeRef>, u: Ref): Option<NodeRef>
  {
    if |candidates| == 0 then None
    else
      var last := candidates[|candidates|-1];
      match FindBest(candidates[..|candidates|-1], u)
      case None => Some(last)
      case Some(best) => if Score(last, u) >= Score(best, u) then Some(last) else Some(best)
  }

  // ----- the tiers -------------------------------------------------------------------------

  function First(nodes: seq<NodeRef>): Option<NodeRef> { if |nodes| == 0 then None else Some(nodes[0]) }

  function Found(n: Option<NodeRef>, confidence: real): Option<Match>
  {
    match n case Some(node) => Some(Match(node, confidence)) case None => None
  }

  function OrElse(a: Option<Match>, b: Option<Match>): Option<Match> { if a.Some? then a else b }

  function PathSuffix(name: string): string -> bool { (f: string) => EndsWith(f, name) || EndsWith(f, "/" + name) }

  function FileNamed(fileName: string): string -> bool
  {
    (f: string) => FileNameOf(f) == fileName || fileName <= FileNameOf(f)
  }

  /** The first node of the only file that qualifies. */
  function InOnlyFile(x: Ctx, qualifies: string -> bool, confidence: real): Option<Match>
  {
    var files := Filter(x.files, qualifies);
    if |files| == 1 then Found(First(InFile(x, files[0])), confidence) else None
  }

  function FilePathMatch(name: string, x: Ctx): Option<Match>
  {
    if '/' in name || ('.' in name && !HasColons(name)) then
      OrElse(if name in x.files then Found(First(InFile(x, name)), 0.95) else None,
             OrElse(InOnlyFile(x, PathSuffix(name), 0.85), InOnlyFile(x, FileNamed(FileNameOf(name)), 0.70)))
    else None
  }

  function QualifiedSuffix(name: string): NodeRef -> bool
  {
    (n: NodeRef) => EndsWith(n.qualifiedName, name) || EndsWith(n.qualifiedName, "::" + name)
  }

  /** Only `::` is split on: a dotted name is its own last component and gets no suffix match. */
  function QualifiedNameMatch(name: string, x: Ctx): Option<Match>
  {
    if !HasColons(name) && '.' !in name then None
    else
      var last := AfterLastColons(name, |name|);
      OrElse(Found(First(ByQualifiedName(x, name)), 0.95),
             if last == name then None else Found(First(Filter(ByName(x, last), QualifiedSuffix(name))), 0.85))
  }

  function MethodNamed(name: string): NodeRef -> bool { (n: NodeRef) => n.name == name && Callable(n) }

  /** The first method of that name in the file of the first class that has one. */
  function MethodBeside(x: Ctx, classes: seq<NodeRef>, name: string, anyKind: bool): Option<NodeRef>
  {
    if |classes| == 0 then None
    else
      var c := classes[0];
      var m := if anyKind || c.kind.Class? || c.kind.Struct? || c.kind.Interface?
               then First(Filter(InFile(x, c.filePath), MethodNamed(name))) else None;
      if m.Some? then m else MethodBeside(x, classes[1..], name, anyKind)
  }

  function SplitCall(name: string): Option<(string, string)>
  {
    match FirstColons(name, 0)
    case Some(k) => Some((name[..k], name[k+2..]))
    case None =>
      match LastIndex(name, '.')
      case Some(k) => Some((name[..k], name[k+1..]))
      case None => None
  }

  function OnlyCallable(): NodeRef -> bool { (n: NodeRef) => Callable(n) }

  function MethodCallMatch(c: Casing, name: string, u: Ref, x: Ctx): Option<Match>
  {
    match SplitCall(name)
    case None => None
    case Some((receiver, method_)) =>
      if receiver == "" || method_ == "" then None
      else
        var cap := Capitalize(c, receiver);
        OrElse(Found(MethodBeside(x, ByName(x, receiver), method_, false), 0.85),
        OrElse(if cap == receiver then None else Found(MethodBeside(x, ByName(x, cap), method_, true), 0.75),
               Found(FindBest(Filter(ByName(x, method_), OnlyCallable()), u), 0.65)))
  }

  function ScoreConfidence(score: int): real
  {
    var raw := 0.4 + (score as real / 100.0) * 0.5;
    if raw < 0.9 then raw else 0.9
  }

  function ExactNameMatch(name: string, u: Ref, x: Ctx): Option<Match>
  {
    var candidates := ByName(x, name);
    if |candidates| == 0 then None
    else if |candidates| == 1 then Some(Match(candidates[0], if LanguageMatches(candidates[0], u) then 0.9 else 0.5))
    else
      match FindBest(candidates, u)
      case Some(best) => Some(Match(best, ScoreConfidence(Score(best, u))))
      case None => None
  }

  function FuzzyKind(): NodeRef -> bool { (n: NodeRef) => Callable(n) || n.kind.Class? }

  function FuzzyMatch(c: Casing, name: string, u: Ref, x: Ctx): Option<Match>
  {
    var callable := Filter(ByLowerName(c, x, c.lower(name)), FuzzyKind());
    if |callable| == 0 then None
    else Some(Match(callable[0], if LanguageMatches(callable[0], u) then 0.5 else 0.3))
  }

  function MatchReference(c: Casing, u: Ref, x: Ctx): Option<Match>
  {
    OrElse(FilePathMatch(u.name, x),
    OrElse(QualifiedNameMatch(u.name, x),
    OrElse(MethodCallMatch(c, u.name, u, x),
    OrElse(ExactNameMatch(u.name, u, x),
           FuzzyMatch(c, u.name, u, x)))))
  }

  /** Matches below 0.3 are dropped. */
  function ResolveViaNameMatcher(c: Casing, u: Ref, x: Ctx): Option<Match>
  {
    var m := MatchReference(c, u, x);
    if m.Some? && m.value.confidence < 0.3 then None else m
  }

  // ----- what the best candidate is ------------------------------------------------------------

  /** The winner scores at least as high as everyone and higher than all that come later. */
  lemma {:induction false} BestIsLastOfTheHighest(candidates: seq<NodeRef>, u: Ref) returns (k: nat)
    requires |candidates| > 0
    ensures k < |candidates| && FindBest(candidates, u) == Some(candidates[k])
    ensures forall i :: 0 <= i < |candidates| ==> Score(candidates[i], u) <= Score(candidates[k], u)
    ensures forall i :: k < i < |candidates| ==> Score(candidates[i], u) < Score(candidates[k], u)
  {
    var init := candidates[..|candidates|-1];
    if |init| == 0 {
      k := 0;
    } else {
      k := BestIsLastOfTheHighest(init, u);
      assert forall i :: 0 <= i < |init| ==> init[i] == candidates[i];
      if Score(candidates[|init|], u) >= Score(candidates[k], u) { k := |init|; }
    }
  }

  /** Which matches are dropped for their confidence, exactly: those of the fourth tier
      among several candidates of which the best is of another language and another file.
      A single such candidate is kept, with confidence 0.5. */
  lemma DroppedIff(c: Casing, u: Ref, x: Ctx)
    ensures MatchReference(c, u, x).Some? && ResolveViaNameMatcher(c, u, x).None? <==>
            && FilePathMatch(u.name, x).None? && QualifiedNameMatch(u.name, x).None?
            && MethodCallMatch(c, u.name, u, x).None? && |ByName(x, u.name)| >= 2
            && var best := FindBest(ByName(x, u.name), u);
               best.Some? && !LanguageMatches(best.value, u) && best.value.filePath != u.filePath
  {
    hide FindBest, LanguageMatches, Score, ByName, FilePathMatch, QualifiedNameMatch, MethodCallMatch, FuzzyMatch;
    FirstTiersAreSure(c, u, x);
    var best := FindBest(ByName(x, u.name), u);
    if |ByName(x, u.name)| >= 2 {
      var k := BestIsLastOfTheHighest(ByName(x, u.name), u);
      ScoreBounds(best.value, u);
    }
  }

  /** Of two nodes of a plain name, both of another language and another file, neither is
      found; when there is only one of them it is. */
  lemma SecondForeignCandidateHidesFirst(c: Casing, u: Ref, m: NodeRef, n: NodeRef, files: seq<string>)
    requires '.' !in u.name && '/' !in u.name && ':' !in u.name && m.name == n.name == u.name
    requires !LanguageMatches(m, u) && !LanguageMatches(n, u) && m.filePath != u.filePath && n.filePath != u.filePath
    ensures ResolveViaNameMatcher(c, u, Scan([m], files)) == Some(Match(m, 0.5))
    ensures ResolveViaNameMatcher(c, u, Scan([m, n], files)).None?
  {
    hide *;
    TwoNamed(m, n, files);
    PlainNameHasNoTier(c, u, Scan([m], files));
    PlainNameHasNoTier(c, u, Scan([m, n], files));
    DroppedIff(c, u, Scan([m, n], files));
    var k := BestIsLastOfTheHighest([m, n], u);
    OneForeignCandidate(c, u, Scan([m], files), m);
    ExactIsBest(c, u, Scan([m, n], files));
  }

  lemma TwoNamed(m: NodeRef, n: NodeRef, files: seq<string>)
    requires m.name == n.name
    ensures ByName(Scan([m], files), m.name) == [m] && ByName(Scan([m, n], files), m.name) == [m, n]
  {
    FilterAll([m], Named(m.name));
    FilterAll([m, n], Named(m.name));
  }

  /** A plain name passes the first three tiers by. */
  lemma PlainNameHasNoTier(c: Casing, u: Ref, x: Ctx)
    requires '.' !in u.name && '/' !in u.name && ':' !in u.name
    ensures FilePathMatch(u.name, x).None? && QualifiedNameMatch(u.name, x).None? && MethodCallMatch(c, u.name, u, x).None?
  {
  }

  lemma OneForeignCandidate(c: Casing, u: Ref, x: Ctx, m: NodeRef)
    requires FilePathMatch(u.name, x).None? && QualifiedNameMatch(u.name, x).None? && MethodCallMatch(c, u.name, u, x).None?
    requires ByName(x, u.name) == [m] && !LanguageMatches(m, u)
    ensures ResolveViaNameMatcher(c, u, x) == Some(Match(m, 0.5))
  {
    hide ByName, LanguageMatches, FilePathMatch, QualifiedNameMatch, MethodCallMatch;
  }

  lemma ExactIsBest(c: Casing, u: Ref, x: Ctx)
    requires FindBest(ByName(x, u.name), u).Some? && |ByName(x, u.name)| >= 2
    ensures MatchReference(c, u, x).Some?
  {
    hide ByName, FindBest, FilePathMatch, QualifiedNameMatch, MethodCallMatch;
  }

  predicate Sure(m: Option<Match>) { m.Some? ==> m.value.confidence >= 0.3 }

  lemma FilePathIsSure(name: string, x: Ctx)
    ensures Sure(FilePathMatch(name, x))
  {
    hide Filter, FileNameOf, HasColons, InFile, PathSuffix, FileNamed, First;
  }

  lemma QualifiedIsSure(name: string, x: Ctx)
    ensures Sure(QualifiedNameMatch(name, x))
  {
    hide Filter, AfterLastColons, HasColons, ByName, ByQualifiedName, QualifiedSuffix, First;
  }

  lemma MethodCallIsSure(c: Casing, name: string, u: Ref, x: Ctx)
    ensures Sure(MethodCallMatch(c, name, u, x))
  {
    hide FindBest, MethodBeside, Filter, SplitCall, ByName, Capitalize, OnlyCallable;
  }

  lemma FuzzyIsSure(c: Casing, name: string, u: Ref, x: Ctx)
    ensures Sure(FuzzyMatch(c, name, u, x))
  {
    hide Filter, LanguageMatches, ByLowerName, FuzzyKind;
  }

  lemma FirstTiersAreSure(c: Casing, u: Ref, x: Ctx)
    ensures Sure(FilePathMatch(u.name, x)) && Sure(QualifiedNameMatch(u.name, x))
    ensures Sure(MethodCallMatch(c, u.name, u, x)) && Sure(FuzzyMatch(c, u.name, u, x))
  {
    hide *;
    FilePathIsSure(u.name, x);
    QualifiedIsSure(u.name, x);
    MethodCallIsSure(c, u.name, u, x);
    FuzzyIsSure(c, u.name, u, x);
  }

  lemma ScoreBounds(n: NodeRef, u: Ref)
    ensures Score(n, u) < -20 <==> !LanguageMatches(n, u) && n.filePath != u.filePath
    ensures ScoreConfidence(Score(n, u)) < 0.3 <==> Score(n, u) < -20
  {
    hide LanguageMatches;
  }

  // ----- contexts that agree --------------------------------------------------------------------

  /** Equal lookups, and the same files in any order. No lookup by an empty qualified name. */
  ghost predicate Agree(c: Casing, x: Ctx, y: Ctx)
  {
    && (forall s :: ByName(x, s) == ByName(y, s))
    && (forall s :: ByLowerName(c, x, s) == ByLowerName(c, y, s))
    && (forall s :: s != "" ==> ByQualifiedName(x, s) == ByQualifiedName(y, s))
    && (forall s :: InFile(x, s) == InFile(y, s))
    && multiset(x.files) == multiset(y.files)
  }

  lemma {:induction false} FilterCounts(s: seq<string>, keep: string -> bool, f: string)
    ensures multiset(Filter(s, keep))[f] == if keep(f) then multiset(s)[f] else 0
  {
    if |s| > 0 {
      FilterCounts(s[..|s|-1], keep, f);
      assert s == s[..|s|-1] + [s[|s|-1]];
    }
  }

  lemma FilterPermutes(s: seq<string>, t: seq<string>, keep: string -> bool)
    requires multiset(s) == multiset(t)
    ensures multiset(Filter(s, keep)) == multiset(Filter(t, keep))
  {
    forall f ensures multiset(Filter(s, keep))[f] == multiset(Filter(t, keep))[f] {
      FilterCounts(s, keep, f);
      FilterCounts(t, keep, f);
    }
  }

  lemma OnlyFilePermutes(c: Casing, x: Ctx, y: Ctx, qualifies: string -> bool, confidence: real)
    requires Agree(c, x, y)
    ensures InOnlyFile(x, qualifies, confidence) == InOnlyFile(y, qualifies, confidence)
  {
    FilterPermutes(x.files, y.files, qualifies);
    SingletonPermutes(Filter(x.files, qualifies), Filter(y.files, qualifies));
    hide Filter, ByName, ByLowerName, ByQualifiedName;
  }

  lemma SingletonPermutes(a: seq<string>, b: seq<string>)
    requires multiset(a) == multiset(b)
    ensures |a| == |b| && (|a| == 1 ==> a == b)
  {
    assert |a| == |multiset(a)| && |b| == |multiset(b)|;
    if |a| == 1 {
      assert a[0] in multiset(a) && a[0] in multiset(b) && a[0] in b;
    }
  }

  lemma FilePathAgrees(c: Casing, name: string, x: Ctx, y: Ctx)
    requires Agree(c, x, y)
    ensures FilePathMatch(name, x) == FilePathMatch(name, y)
  {
    OnlyFilePermutes(c, x, y, PathSuffix(name), 0.85);
    OnlyFilePermutes(c, x, y, FileNamed(FileNameOf(name)), 0.70);
    assert name in x.files <==> name in multiset(x.files);
    assert name in y.files <==> name in multiset(y.files);
    hide InOnlyFile, FileNameOf, HasColons;
  }

  lemma {:induction false} MethodBesideAgrees(c: Casing, x: Ctx, y: Ctx, classes: seq<NodeRef>, name: string, anyKind: bool)
    requires Agree(c, x, y)
    ensures MethodBeside(x, classes, name, anyKind) == MethodBeside(y, classes, name, anyKind)
    decreases |classes|
  {
    if |classes| > 0 { MethodBesideAgrees(c, x, y, classes[1..], name, anyKind); }
  }

  lemma MethodCallAgrees(c: Casing, name: string, u: Ref, x: Ctx, y: Ctx)
    requires Agree(c, x, y)
    ensures MethodCallMatch(c, name, u, x) == MethodCallMatch(c, name, u, y)
  {
    match SplitCall(name)
    case None =>
    case Some((receiver, method_)) =>
      MethodBesideAgrees(c, x, y, ByName(x, receiver), method_, false);
      MethodBesideAgrees(c, x, y, ByName(x, Capitalize(c, receiver)), method_, true);
      hide MethodBeside, SplitCall, FindBest, Capitalize;
  }

  lemma QualifiedAgrees(c: Casing, name: string, x: Ctx, y: Ctx)
    requires Agree(c, x, y)
    ensures QualifiedNameMatch(name, x) == QualifiedNameMatch(name, y)
  {
    hide ByQualifiedName, ByName, AfterLastColons;
  }

  /** The matcher only sees lookups, and no order of the files. */
  lemma AgreeingContextsMatchAlike(c: Casing, u: Ref, x: Ctx, y: Ctx)
    requires Agree(c, x, y)
    ensures MatchReference(c, u, x) == MatchReference(c, u, y)
  {
    FilePathAgrees(c, u.name, x, y);
    QualifiedAgrees(c, u.name, x, y);
    MethodCallAgrees(c, u.name, u, x, y);
    hide FilePathMatch, QualifiedNameMatch, MethodCallMatch, FindBest, ByName, ByLowerName;
  }
}
