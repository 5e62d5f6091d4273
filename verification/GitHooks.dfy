/** Installing and removing the sync hook: a block of lines between two markers at the end
    of a hook script that may hold the user's own lines. */
module GitHooks {
  import opened Graph

  // The long lines are put together from short literals: each literal is spelled out
  // character by character in every proof that mentions it.
  const MARKER_BEGIN: string := "# >>> codewiki sync hook >>>"
  const MARKER_END: string := "# <<< codewiki sync hook <<<"
  const SHEBANG: string := "#!/bin/sh"
  const PURPOSE: string := "# Keeps the CodeWiki " + "index fresh while the live" + " file watcher is off"
  const BACKGROUND: string := "# (e.g. WSL2 /mnt drives)" + ". Runs in the background" + " so it never blocks git."
  const MANAGED: string := "# Managed by codewiki;" + " remove with `codewiki uninit`" + " or delete this block."
  const GUARD: string := "if command -v codewiki" + " >/dev/null 2>&1; then"
  const SYNC: string := "  ( codewiki sync >/dev/null" + " 2>&1 & ) >/dev/null 2>&1"
  const BODY: seq<string> := [PURPOSE, BACKGROUND, MANAGED, GUARD, SYNC, "fi"]

  function MarkerBlock(): seq<string> { [MARKER_BEGIN] + BODY + [MARKER_END] }

  // ----- text ------------------------------------------------------------------------------

  /** Unicode white space. */
  predicate IsSpace(c: char)
  {
    var n := c as int;
    || 9 <= n <= 13 || n == 32 || n == 0x85 || n == 0xA0 || n == 0x1680 || 0x2000 <= n <= 0x200A
    || n == 0x2028 || n == 0x2029 || n == 0x202F || n == 0x205F || n == 0x3000
  }

  function TrimEnd(s: string): string { if |s| > 0 && IsSpace(s[|s|-1]) then TrimEnd(s[..|s|-1]) else s }

  function TrimStart(s: string): string { if |s| > 0 && IsSpace(s[0]) then TrimStart(s[1..]) else s }

  function Trim(s: string): string { TrimEnd(TrimStart(s)) }

  function PushChar(pieces: seq<string>, c: char): (p: seq<string>)
    requires |pieces| > 0
    ensures |p| > 0
  {
    if c == '\n' then pieces + [""] else pieces[..|pieces|-1] + [pieces[|pieces|-1] + [c]]
  }

  /** The pieces between newlines. */
  function Pieces(s: string): (p: seq<string>)
    ensures |p| > 0
  {
    if |s| == 0 then [""] else PushChar(Pieces(s[..|s|-1]), s[|s|-1])
  }

  function Chomp(s: string): string { if |s| > 0 && s[|s|-1] == '\r' then s[..|s|-1] else s }

  function ChompAll(pieces: seq<string>): seq<string>
  {
    if |pieces| == 0 then [] else ChompAll(pieces[..|pieces|-1]) + [Chomp(pieces[|pieces|-1])]
  }

  /** Lines end in "\n" or "\r\n"; an empty rest is no line. */
  function Lines(s: string): seq<string>
  {
    var p := Pieces(s);
    ChompAll(p[..|p|-1]) + if p[|p|-1] == "" then [] else [p[|p|-1]]
  }

  function Join(lines: seq<string>): string
  {
    if |lines| == 0 then "" else if |lines| == 1 then lines[0] else Join(lines[..|lines|-1]) + "\n" + lines[|lines|-1]
  }

  predicate HasSubstring(s: string, t: string) { exists i :: 0 <= i <= |s| && t <= s[i..] }

  // ----- stripping ---------------------------------------------------------------------------

  predicate IsBegin(line: string) { Trim(line) == MARKER_BEGIN }

  predicate IsEnd(line: string) { Trim(line) == MARKER_END }

  /** The last marker of the lines opens a block. */
  predicate InBlock(lines: seq<string>)
  {
    |lines| > 0 &&
    var last := lines[|lines|-1];
    IsBegin(last) || (!IsEnd(last) && InBlock(lines[..|lines|-1]))
  }

  function Kept(lines: seq<string>): seq<string>
  {
    if |lines| == 0 then []
    else
      var init, last := lines[..|lines|-1], lines[|lines|-1];
      Kept(init) + if IsBegin(last) || IsEnd(last) || InBlock(init) then [] else [last]
  }

  method StripMarkerBlock(content: string) returns (stripped: string)
    ensures stripped == Join(Kept(Lines(content)))
  {
    var lines := Lines(content);
    var out, inBlock := [], false;
    for i := 0 to |lines|
      invariant out == Kept(lines[..i]) && inBlock == InBlock(lines[..i])
    {
      assert lines[..i+1][..i] == lines[..i];
      var trimmed := Trim(lines[i]);
      if trimmed == MARKER_BEGIN {
        inBlock := true;
        continue;
      }
      if trimmed == MARKER_END {
        inBlock := false;
        continue;
      }
      if !inBlock {
        out := out + [lines[i]];
      }
    }
    assert lines[..|lines|] == lines;
    stripped := Join(out);
  }

  predicate Inert(line: string) { Trim(line) == "" || "#!" <= Trim(line) }

  predicate IsEffectivelyEmpty(content: string) { forall l :: l in Lines(content) ==> Inert(l) }

  // ----- install and remove --------------------------------------------------------------------

  /** The user's part of a script. */
  function Base(content: string): string { TrimEnd(Join(Kept(Lines(content)))) }

  function NewHook(): string { SHEBANG + "\n" + Join(MarkerBlock()) + "\n" }

  /** `None` is a missing file. */
  function Installed(file: Option<string>): string
  {
    if file.None? || Base(file.value) == "" then NewHook()
    else Base(file.value) + "\n\n" + Join(MarkerBlock()) + "\n"
  }

  function Removed(file: Option<string>): Option<string>
  {
    if file.None? || !HasSubstring(file.value, MARKER_BEGIN) then file
    else if IsEffectivelyEmpty(Join(Kept(Lines(file.value)))) then None
    else Some(Base(file.value) + "\n")
  }

  function InstalledTimes(file: Option<string>, n: nat): Option<string>
  {
    if n == 0 then file else Some(Installed(InstalledTimes(file, n - 1)))
  }

  function RemovedTimes(file: Option<string>, n: nat): Option<string>
  {
    if n == 0 then file else Removed(RemovedTimes(file, n - 1))
  }

  lemma {:induction false} NothingToRemove(file: Option<string>, n: nat)
    requires file.None? || !HasSubstring(file.value, MARKER_BEGIN)
    ensures RemovedTimes(file, n) == file
  {
    if n > 0 { NothingToRemove(file, n - 1); }
  }

  class HooksDir {
    var files: map<string, string>

    function File(hook: string): Option<string>
      reads this
    {
      if hook in files then Some(files[hook]) else None
    }

    constructor (files: map<string, string>)
      ensures this.files == files
    {
      this.files := files;
    }

    method InstallOne(hook: string)
      modifies this
      ensures files == old(files)[hook := Installed(old(File(hook)))]
    {
      var content := NewHook();
      if hook in files {
        var base := StripMarkerBlock(files[hook]);
        base := TrimEnd(base);
        if base != "" {
          content := base + "\n\n" + Join(MarkerBlock()) + "\n";
        }
      }
      files := files[hook := content];
    }

    method RemoveOne(hook: string) returns (removed: bool)
      modifies this
      ensures removed == (hook in old(files) && HasSubstring(old(files)[hook], MARKER_BEGIN))
      ensures files == match Removed(old(File(hook))) case Some(s) => old(files)[hook := s] case None => old(files) - {hook}
    {
      if hook !in files {
        return false;
      }
      var original := files[hook];
      if !HasSubstring(original, MARKER_BEGIN) {
        assert files == files[hook := files[hook]];
        return false;
      }
      var stripped := StripMarkerBlock(original);
      if IsEffectivelyEmpty(stripped) {
        files := files - {hook};
      } else {
        files := files[hook := TrimEnd(stripped) + "\n"];
      }
      return true;
    }

    /** Each hook is installed as often as it is named, and no other file changes. */
    method InstallGitSyncHook(hooks: seq<string>) returns (installed: seq<string>)
      modifies this
      ensures installed == hooks
      ensures forall h :: File(h) == InstalledTimes(old(File(h)), multiset(hooks)[h])
    {
      hide Installed;
      installed := [];
      for i := 0 to |hooks|
        invariant installed == hooks[..i]
        invariant forall h :: File(h) == InstalledTimes(old(File(h)), multiset(hooks[..i])[h])
      {
        assert hooks[..i+1] == hooks[..i] + [hooks[i]];
        ghost var was := File(hooks[i]);
        InstallOne(hooks[i]);
        assert File(hooks[i]) == Some(Installed(was));
        installed := installed + [hooks[i]];
      }
      assert hooks[..|hooks|] == hooks;
    }

    /** Each hook is removed as often as it is named, those that had a marker are the ones
        reported, and no other file changes. */
    method RemoveGitSyncHook(hooks: seq<string>) returns (removed: seq<string>)
      modifies this
      ensures forall h :: File(h) == RemovedTimes(old(File(h)), multiset(hooks)[h])
      ensures forall h :: h in removed <==> h in hooks && h in old(files) && HasSubstring(old(files)[h], MARKER_BEGIN)
    {
      hide Removed, HasSubstring;
      removed := [];
      for i := 0 to |hooks|
        invariant forall h :: File(h) == RemovedTimes(old(File(h)), multiset(hooks[..i])[h])
        invariant forall h :: h in removed <==> h in hooks[..i] && h in old(files) && HasSubstring(old(files)[h], MARKER_BEGIN)
      {
        assert hooks[..i+1] == hooks[..i] + [hooks[i]];
        ghost var was := File(hooks[i]);
        assert was == RemovedTimes(old(File(hooks[i])), multiset(hooks[..i])[hooks[i]]);
        if hooks[i] !in old(files) || !HasSubstring(old(files)[hooks[i]], MARKER_BEGIN) {
          NothingToRemove(old(File(hooks[i])), multiset(hooks[..i])[hooks[i]]);
        }
        var done := RemoveOne(hooks[i]);
        assert File(hooks[i]) == Removed(was);
        if done {
          removed := removed + [hooks[i]];
        }
      }
      assert hooks[..|hooks|] == hooks;
    }
  }

  // ----- lines and text ---------------------------------------------------------------------------

  predicate Clean(line: string) { '\n' !in line && '\r' !in line }

  predicate AllClean(lines: seq<string>) { forall l :: l in lines ==> Clean(l) }

  lemma PushConcat(a: seq<string>, b: seq<string>, c: char)
    requires |b| > 0
    ensures PushChar(a + b, c) == a + PushChar(b, c)
  {
    assert (a + b)[..|a + b|-1] == a + b[..|b|-1];
  }

  lemma {:induction false} PiecesConcat(a: string, b: string)
    ensures Pieces(a + "\n" + b) == Pieces(a) + Pieces(b)
  {
    if |b| == 0 {
      assert a + "\n" + b == a + ['\n'];
    } else {
      hide Pieces, PushChar;
      var init, c := b[..|b|-1], b[|b|-1];
      PiecesConcat(a, init);
      assert a + "\n" + b == (a + "\n" + init) + [c] && b == init + [c];
      PushConcat(Pieces(a), Pieces(init), c);
    }
  }

  lemma {:induction false} PieceAlone(s: string)
    requires '\n' !in s
    ensures Pieces(s) == [s]
  {
    if |s| > 0 {
      PieceAlone(s[..|s|-1]);
      assert s == s[..|s|-1] + [s[|s|-1]];
    }
  }

  lemma {:induction false} PiecesOfJoin(lines: seq<string>)
    requires |lines| > 0 && AllClean(lines)
    ensures Pieces(Join(lines)) == lines
  {
    var init, last := lines[..|lines|-1], lines[|lines|-1];
    assert last in lines && lines == init + [last];
    PieceAlone(last);
    if |init| > 0 {
      PiecesOfJoin(init);
      PiecesConcat(Join(init), last);
    }
  }

  lemma {:induction false} ChompNothing(lines: seq<string>)
    requires AllClean(lines)
    ensures ChompAll(lines) == lines
  {
    if |lines| > 0 {
      ChompNothing(lines[..|lines|-1]);
      assert lines[|lines|-1] in lines && lines == lines[..|lines|-1] + [lines[|lines|-1]];
      assert lines[|lines|-1] != "" ==> lines[|lines|-1][|lines[|lines|-1]|-1] in lines[|lines|-1];
    }
  }

  /** Lines written out one per line are read back. */
  lemma LinesOfText(lines: seq<string>)
    requires |lines| > 0 && AllClean(lines)
    ensures Lines(Join(lines) + "\n") == lines
  {
    PiecesOfJoin(lines);
    PiecesConcat(Join(lines), "");
    assert Join(lines) + "\n" + "" == Join(lines) + "\n";
    assert (lines + [""])[..|lines|] == lines;
    ChompNothing(lines);
  }

  lemma {:induction false} JoinConcat(a: seq<string>, b: seq<string>)
    requires |a| > 0 && |b| > 0
    ensures Join(a + b) == Join(a) + "\n" + Join(b)
  {
    var init, last := b[..|b|-1], b[|b|-1];
    assert (a + b)[..|a + b|-1] == a + init;
    if |init| == 0 {
      assert a + init == a && b == [last];
    } else {
      JoinConcat(a, init);
      assert Join(a + b) == Join(a) + "\n" + Join(init) + "\n" + last;
      assert Join(a) + "\n" + Join(init) + "\n" + last == Join(a) + "\n" + (Join(init) + "\n" + last);
    }
  }

  // ----- trimming, line by line -----------------------------------------------------------------------

  lemma {:induction false} TrimEndConcat(a: string, b: string)
    ensures TrimEnd(a + b) == if TrimEnd(b) == "" then TrimEnd(a) else a + TrimEnd(b)
  {
    if |b| == 0 {
      assert a + b == a;
    } else {
      var init, c := b[..|b|-1], b[|b|-1];
      assert a + b == (a + init) + [c] && (a + b)[..|a + b|-1] == a + init;
      if IsSpace(c) { TrimEndConcat(a, init); }
    }
  }

  /** Trimming a text drops its last blank lines and the end of the last line left. */
  function TrimLines(lines: seq<string>): seq<string>
  {
    if |lines| == 0 then []
    else
      var last := TrimEnd(lines[|lines|-1]);
      if last == "" then TrimLines(lines[..|lines|-1]) else lines[..|lines|-1] + [last]
  }

  lemma {:induction false} TrimOfJoin(lines: seq<string>)
    ensures TrimEnd(Join(lines)) == Join(TrimLines(lines))
  {
    if |lines| > 0 {
      var init, last := lines[..|lines|-1], lines[|lines|-1];
      TrimOfJoin(init);
      if |init| == 0 {
        assert init + [TrimEnd(last)] == [TrimEnd(last)];
      } else {
        TrimEndConcat(Join(init) + "\n", last);
        TrimEndConcat(Join(init), "\n");
        assert TrimEnd("\n") == "" by { assert "\n"[..0] == ""; }
        assert (init + [TrimEnd(last)])[..|init|] == init;
      }
    }
  }

  lemma {:induction false} TrimEndIdem(s: string)
    ensures TrimEnd(TrimEnd(s)) == TrimEnd(s) && TrimEnd(s) <= s
    ensures Trim(TrimEnd(s)) == Trim(s)
  {
    if |s| > 0 && IsSpace(s[|s|-1]) {
      var init := s[..|s|-1];
      TrimEndIdem(init);
      TrimStartPush(init, s[|s|-1]);
      assert s == init + [s[|s|-1]];
    }
  }

  /** A space at the end does not change the trimmed line. */
  lemma {:induction false} TrimStartPush(s: string, c: char)
    requires IsSpace(c)
    ensures Trim(s + [c]) == Trim(s)
  {
    if |s| > 0 && IsSpace(s[0]) {
      TrimStartPush(s[1..], c);
      assert (s + [c])[1..] == s[1..] + [c];
    } else if |s| > 0 {
      assert TrimStart(s + [c]) == s + [c] && (s + [c])[..|s|] == s;
    } else {
      assert s + [c] == [c] && [c][1..] == "";
    }
  }

  lemma {:induction false} TrimLinesAre(lines: seq<string>)
    requires AllClean(lines)
    ensures AllClean(TrimLines(lines)) && TrimLines(TrimLines(lines) + [""]) == TrimLines(lines)
    ensures forall l :: l in TrimLines(lines) ==> exists m :: m in lines && Trim(l) == Trim(m)
    ensures (forall l :: l in TrimLines(lines) ==> Inert(l)) <==> (forall l :: l in lines ==> Inert(l))
  {
    if |lines| > 0 {
      var init, line := lines[..|lines|-1], lines[|lines|-1];
      var last := TrimEnd(line);
      TrimEndIdem(line);
      assert line in lines && lines == init + [line];
      assert forall l :: l in lines <==> l in init || l == line;
      if last == "" {
        TrimLinesAre(init);
        assert Inert(line);
      } else {
        assert Clean(last);
        assert forall l :: l in init + [last] <==> l in init || l == last;
      }
    } else {
      assert TrimLines([] + [""]) == [];
    }
  }

  // ----- stripping and installing, line by line ------------------------------------------------------

  lemma {:induction false} KeptAreNoMarkers(lines: seq<string>)
    ensures forall l :: l in Kept(lines) ==> l in lines && !IsBegin(l) && !IsEnd(l)
  {
    if |lines| > 0 {
      KeptAreNoMarkers(lines[..|lines|-1]);
      assert lines == lines[..|lines|-1] + [lines[|lines|-1]];
    }
  }

  lemma {:induction false} KeptUser(before: seq<string>, user: seq<string>)
    requires !InBlock(before) && forall l :: l in user ==> !IsBegin(l) && !IsEnd(l)
    ensures Kept(before + user) == Kept(before) + user && !InBlock(before + user)
  {
    if |user| == 0 {
      assert before + user == before;
    } else {
      var init, last := user[..|user|-1], user[|user|-1];
      assert last in user && user == init + [last] && (before + user)[..|before + user|-1] == before + init;
      KeptUser(before, init);
    }
  }

  lemma {:induction false} KeptInBlock(before: seq<string>, inner: seq<string>)
    requires InBlock(before) && forall l :: l in inner ==> !IsEnd(l)
    ensures Kept(before + inner) == Kept(before) && InBlock(before + inner)
  {
    if |inner| == 0 {
      assert before + inner == before;
    } else {
      var init, last := inner[..|inner|-1], inner[|inner|-1];
      assert last in inner && inner == init + [last] && (before + inner)[..|before + inner|-1] == before + init;
      KeptInBlock(before, init);
    }
  }

  /** A whole block disappears. */
  lemma KeptBlock(before: seq<string>, begin: string, inner: seq<string>, end: string)
    requires IsBegin(begin) && IsEnd(end) && forall l :: l in inner ==> !IsEnd(l)
    ensures Kept(before + [begin] + inner + [end]) == Kept(before) && !InBlock(before + [begin] + inner + [end])
  {
    KeptInBlock(before + [begin], inner);
    assert !IsBegin(end);
  }

  lemma Untrimmed(s: string)
    requires |s| > 0 && !IsSpace(s[0]) && !IsSpace(s[|s|-1])
    ensures Trim(s) == s
  {
  }

  lemma TrimTwo(s: string)
    requires |s| > 2 && IsSpace(s[0]) && IsSpace(s[1]) && !IsSpace(s[2])
    ensures Trim(s) == Trim(s[2..])
  {
    var t := s[1..];
    assert t[0] == s[1] && t[1..] == s[2..] && TrimStart(s) == TrimStart(t) == TrimStart(t[1..]);
  }

  predicate PlainLine(l: string) { Clean(l) && !IsBegin(l) && !IsEnd(l) }

  lemma MarkersTrimmed()
    ensures IsBegin(MARKER_BEGIN) && IsEnd(MARKER_END) && !IsBegin(MARKER_END)
    ensures Clean(MARKER_BEGIN) && Clean(MARKER_END)
  {
    Untrimmed(MARKER_BEGIN);
    Untrimmed(MARKER_END);
    assert MARKER_BEGIN[2] == '>' && MARKER_END[2] == '<';
  }

  /** A line that starts and ends in ink is no marker when its first or third character
      is another one. */
  lemma PlainLineOf(a: string, b: string)
    requires |a| > 2 && Clean(a) && Clean(b) && |b| > 0 && !IsSpace(a[0]) && !IsSpace(b[|b|-1])
    requires a[0] != '#' || (a[2] != '>' && a[2] != '<')
    ensures PlainLine(a + b)
  {
    Untrimmed(a + b);
    assert (a + b)[0] == a[0] && (a + b)[2] == a[2];
    assert MARKER_BEGIN[2] == '>' && MARKER_END[2] == '<' && MARKER_BEGIN[0] == '#' && MARKER_END[0] == '#';
  }

  lemma PlainLineOf3(a: string, b: string, c: string)
    requires |a| > 2 && Clean(a) && Clean(b) && Clean(c) && |c| > 0 && !IsSpace(a[0]) && !IsSpace(c[|c|-1])
    requires a[0] != '#' || (a[2] != '>' && a[2] != '<')
    ensures PlainLine(a + b + c)
  {
    assert (a + b)[0] == a[0] && (a + b)[2] == a[2];
    PlainLineOf(a + b, c);
  }

  lemma PurposeIsPlain()
    ensures PlainLine(PURPOSE)
  {
    hide PlainLine;
    PlainLineOf3("# Keeps the CodeWiki ", "index fresh while the live", " file watcher is off");
  }

  lemma BackgroundIsPlain()
    ensures PlainLine(BACKGROUND)
  {
    hide PlainLine;
    PlainLineOf3("# (e.g. WSL2 /mnt drives)", ". Runs in the background", " so it never blocks git.");
  }

  lemma ManagedIsPlain()
    ensures PlainLine(MANAGED)
  {
    hide PlainLine;
    PlainLineOf3("# Managed by codewiki;", " remove with `codewiki uninit`", " or delete this block.");
  }

  lemma GuardIsPlain()
    ensures PlainLine(GUARD)
  {
    hide PlainLine;
    PlainLineOf("if command -v codewiki", " >/dev/null 2>&1; then");
  }

  lemma SyncIsPlain()
    ensures PlainLine(SYNC)
  {
    hide PlainLine, Trim, Clean;
    var a, b := "( codewiki sync >/dev/null", " 2>&1 & ) >/dev/null 2>&1";
    PlainLineOf(a, b);
    assert "  ( codewiki sync >/dev/null" == "  " + a;
    assert SYNC == "  " + (a + b);
    Indented(a + b);
  }

  lemma Indented(line: string)
    requires PlainLine(line) && |line| > 0 && !IsSpace(line[0])
    ensures PlainLine("  " + line)
  {
    hide Trim;
    TrimTwo("  " + line);
    assert ("  " + line)[2..] == line;
  }

  lemma FiIsPlain()
    ensures PlainLine("fi") && PlainLine(SHEBANG) && Inert(SHEBANG) && PlainLine("")
  {
    Untrimmed("fi");
    Untrimmed(SHEBANG);
    assert MARKER_BEGIN[0] == '#' && MARKER_END[0] == '#' && MARKER_BEGIN[1] == ' ' && MARKER_END[1] == ' ';
    assert "#!" <= SHEBANG;
  }

  /** Only the two marker lines of the block are markers, and all its lines are clean. */
  lemma OurBlock()
    ensures forall l :: l in BODY ==> PlainLine(l)
    ensures AllClean(MarkerBlock())
  {
    hide PlainLine, Clean, PURPOSE, BACKGROUND, MANAGED, GUARD, SYNC;
    PurposeIsPlain();
    BackgroundIsPlain();
    ManagedIsPlain();
    GuardIsPlain();
    SyncIsPlain();
    FiIsPlain();
    MarkersTrimmed();
    forall l | l in BODY ensures PlainLine(l) {
      assert l == PURPOSE || l == BACKGROUND || l == MANAGED || l == GUARD || l == SYNC || l == "fi";
    }
    forall l | l in MarkerBlock() ensures Clean(l) {
      if l in BODY { PlainIsClean(l); }
    }
  }

  lemma PlainIsClean(l: string)
    requires PlainLine(l)
    ensures Clean(l)
  {
  }

  // ----- which lines are the user's ----------------------------------------------------------------

  /** User lines and marked blocks in turn. */
  datatype Script = Rest(user: seq<string>) | Section(user: seq<string>, begin: string, inner: seq<string>, end: string, rest: Script)

  predicate NoMarkers(lines: seq<string>) { forall l :: l in lines ==> !IsBegin(l) && !IsEnd(l) }

  predicate Paired(s: Script)
  {
    NoMarkers(s.user) && (s.Section? ==> IsBegin(s.begin) && NoMarkers(s.inner) && IsEnd(s.end) && Paired(s.rest))
  }

  function Flatten(s: Script): seq<string>
  {
    if s.Rest? then s.user else s.user + [s.begin] + s.inner + [s.end] + Flatten(s.rest)
  }

  function UserLines(s: Script): seq<string> { if s.Rest? then s.user else s.user + UserLines(s.rest) }

  lemma {:induction false} PairedFrom(before: seq<string>, s: Script)
    requires !InBlock(before) && Paired(s)
    ensures Kept(before + Flatten(s)) == Kept(before) + UserLines(s)
    decreases s
  {
    hide Kept, InBlock, IsBegin, IsEnd;
    KeptUser(before, s.user);
    if s.Section? {
      var start := before + s.user;
      KeptBlock(start, s.begin, s.inner, s.end);
      PairedFrom(start + [s.begin] + s.inner + [s.end], s.rest);
      Regroup(before, s.user, [s.begin], s.inner, [s.end], Flatten(s.rest));
      Regroup(Kept(before), s.user, [], [], [], UserLines(s.rest));
    }
  }

  lemma Regroup(a: seq<string>, b: seq<string>, c: seq<string>, d: seq<string>, e: seq<string>, f: seq<string>)
    ensures a + (b + c + d + e + f) == a + b + c + d + e + f
    ensures a + (b + f) == a + b + f
  {
  }

  lemma KeptNothing()
    ensures Kept([]) == [] && !InBlock([])
  {
  }

  /** With paired markers exactly the lines outside the blocks are kept. */
  lemma PairedKeepsUserLines(s: Script)
    requires Paired(s)
    ensures Kept(Flatten(s)) == UserLines(s)
  {
    hide *;
    KeptNothing();
    PairedFrom([], s);
    assert [] + Flatten(s) == Flatten(s) && [] + UserLines(s) == UserLines(s);
  }

  /** A block that is never closed takes the rest of the script with it. */
  lemma UnclosedBlockTakesTheRest(before: seq<string>, begin: string, rest: seq<string>)
    requires IsBegin(begin) && forall l :: l in rest ==> !IsEnd(l)
    ensures Kept(before + [begin] + rest) == Kept(before)
  {
    KeptInBlock(before + [begin], rest);
  }

  // ----- the installed script ------------------------------------------------------------------------

  /** The user's lines without trailing white space. */
  function User(content: string): seq<string> { TrimLines(Kept(Lines(content))) }

  function Head(user: seq<string>): seq<string> { if user == [] then [SHEBANG] else user + [""] }

  lemma {:induction false} TrimmedEndsInInk(lines: seq<string>)
    ensures TrimLines(lines) == [] <==> Join(TrimLines(lines)) == ""
  {
    if |lines| > 0 && TrimEnd(lines[|lines|-1]) == "" { TrimmedEndsInInk(lines[..|lines|-1]); }
  }

  lemma BaseIs(content: string)
    ensures Base(content) == Join(User(content)) && (Base(content) == "" <==> User(content) == [])
  {
    TrimOfJoin(Kept(Lines(content)));
    TrimmedEndsInInk(Kept(Lines(content)));
  }

  lemma BlockIsNotEmpty()
    ensures |MarkerBlock()| > 0
  {
  }

  lemma NewHookIs()
    ensures NewHook() == Join([SHEBANG] + MarkerBlock()) + "\n"
  {
    hide MARKER_BEGIN, MARKER_END, BODY, SHEBANG;
    JoinConcat([SHEBANG], MarkerBlock());
    JoinOne(SHEBANG);
    hide Join, MarkerBlock;
  }

  /** What an install writes, line by line. */
  lemma InstalledIs(content: string)
    ensures Installed(Some(content)) == Join(Head(User(content)) + MarkerBlock()) + "\n"
  {
    NewHookIs();
    hide User, Base, MarkerBlock, NewHook;
    BaseIs(content);
    var user := User(content);
    assert |MarkerBlock()| > 0 by { BlockIsNotEmpty(); }
    if user != [] {
      JoinConcat(user + [""], MarkerBlock());
      JoinConcat(user, [""]);
      assert Join(user) + "\n" + "" + "\n" + Join(MarkerBlock()) == Join(user) + "\n\n" + Join(MarkerBlock());
    }
  }

  lemma UserIsPlain(content: string)
    requires AllClean(Lines(content))
    ensures AllClean(User(content)) && NoMarkers(User(content)) && TrimLines(User(content) + [""]) == User(content)
    ensures (forall l :: l in User(content) ==> Inert(l)) <==> (forall l :: l in Kept(Lines(content)) ==> Inert(l))
  {
    var kept := Kept(Lines(content));
    KeptAreNoMarkers(Lines(content));
    TrimLinesAre(kept);
    forall l | l in User(content) ensures !IsBegin(l) && !IsEnd(l) {
      var m :| m in kept && Trim(l) == Trim(m);
      assert !IsBegin(m) && !IsEnd(m);
    }
  }

  lemma KeptScript(head: seq<string>)
    requires NoMarkers(head)
    ensures Kept(head + MarkerBlock()) == head
  {
    hide *;
    KeptNothing();
    NoMarkersAre(head);
    KeptUser([], head);
    assert [] + head == head;
    MarkersTrimmed();
    BodyHasNoEnd();
    KeptBlock(head, MARKER_BEGIN, BODY, MARKER_END);
    BlockIs(head);
  }

  lemma NoMarkersAre(lines: seq<string>)
    requires NoMarkers(lines)
    ensures forall l :: l in lines ==> !IsBegin(l) && !IsEnd(l)
  {
  }

  lemma BodyHasNoEnd()
    ensures forall l :: l in BODY ==> !IsEnd(l)
  {
    hide BODY, IsEnd, IsBegin;
    OurBlock();
    forall l | l in BODY ensures !IsEnd(l) { assert PlainLine(l); }
  }

  lemma BlockIs(head: seq<string>)
    ensures head + MarkerBlock() == head + [MARKER_BEGIN] + BODY + [MARKER_END]
  {
    hide MARKER_BEGIN, MARKER_END, BODY;
    assert head + ([MARKER_BEGIN] + BODY + [MARKER_END]) == head + [MARKER_BEGIN] + BODY + [MARKER_END];
  }

  /** An installed script is the user's lines, a blank line and one marker block; a script
      without user lines is a shebang and the block. */
  lemma InstallKeepsUserLines(content: string)
    requires AllClean(Lines(content))
    ensures Lines(Installed(Some(content))) == Head(User(content)) + MarkerBlock()
    ensures NoMarkers(User(content)) && Kept(Lines(Installed(Some(content)))) == Head(User(content))
    ensures AllClean(Lines(Installed(Some(content))))
  {
    var user := User(content);
    UserIsPlain(content);
    OurBlock();
    FiIsPlain();
    InstalledIs(content);
    forall l | l in Head(user) + MarkerBlock() ensures Clean(l) {
      assert l in user || l == "" || l == SHEBANG || l in MarkerBlock();
      if l == "" || l == SHEBANG { PlainIsClean(l); }
    }
    assert |Head(user) + MarkerBlock()| > 0;
    LinesOfText(Head(user) + MarkerBlock());
    forall l | l in Head(user) ensures !IsBegin(l) && !IsEnd(l) {
      assert l in user || l == "" || l == SHEBANG;
      assert PlainLine("") && PlainLine(SHEBANG);
    }
    KeptScript(Head(user));
  }

  /** What the next install sees. */
  lemma UserAfterInstall(content: string)
    requires AllClean(Lines(content))
    ensures User(Installed(Some(content))) == if User(content) == [] then [SHEBANG] else User(content)
  {
    InstallKeepsUserLines(content);
    UserIsPlain(content);
    hide Installed, Lines, Kept;
  }

  // ----- the theorems -----------------------------------------------------------------------------------

  function InstallTimes(content: string, n: nat): string
  {
    if n == 0 then content else Installed(Some(InstallTimes(content, n - 1)))
  }

  lemma {:induction false} StaysClean(content: string, n: nat)
    requires AllClean(Lines(content))
    ensures AllClean(Lines(InstallTimes(content, n)))
    ensures n > 0 ==> User(InstallTimes(content, n)) == if User(content) == [] then [SHEBANG] else User(content)
  {
    hide *;
    if n == 0 {
      NoInstall(content);
    } else {
      var last := InstallTimes(content, n - 1);
      StaysClean(content, n - 1);
      OneMoreInstall(content, n - 1);
      if n == 1 { NoInstall(content); }
      InstallKeepsUserLines(last);
      UserAfterInstall(last);
    }
  }

  /** From the second install on no byte changes, and from the first one on if the script
      has a line of the user's own. */
  lemma InstallsSettle(content: string, n: nat)
    requires AllClean(Lines(content)) && n >= 1 && (n >= 2 || User(content) != [])
    ensures InstallTimes(content, n + 1) == InstallTimes(content, n)
  {
    hide *;
    StaysClean(content, n - 1);
    StaysClean(content, n);
    NoInstall(content);
    assert User(InstallTimes(content, n)) == User(InstallTimes(content, n - 1));
    InstalledIs(InstallTimes(content, n - 1));
    InstalledIs(InstallTimes(content, n));
    OneMoreInstall(content, n);
    OneMoreInstall(content, n - 1);
  }

  lemma NoInstall(content: string)
    ensures InstallTimes(content, 0) == content
  {
  }

  lemma OneMoreInstall(content: string, n: nat)
    ensures InstallTimes(content, n + 1) == Installed(Some(InstallTimes(content, n)))
  {
  }

  /** A script without such a line gets one more blank line from the second install. */
  lemma SecondInstallAddsBlankLine(content: string)
    requires AllClean(Lines(content)) && User(content) == []
    ensures InstallTimes(content, 1) == Join([SHEBANG] + MarkerBlock()) + "\n"
    ensures InstallTimes(content, 2) == Join([SHEBANG, ""] + MarkerBlock()) + "\n"
  {
    StaysClean(content, 1);
    InstalledIs(InstallTimes(content, 0));
    InstalledIs(InstallTimes(content, 1));
    OneMoreInstall(content, 0);
    OneMoreInstall(content, 1);
    assert InstallTimes(content, 0) == content;
    hide *;
    assert [SHEBANG] + [""] == [SHEBANG, ""];
  }

  lemma ContainsMarker(head: seq<string>)
    requires |head| > 0
    ensures HasSubstring(Join(head + MarkerBlock()) + "\n", MARKER_BEGIN)
  {
    hide *;
    var rest := BODY + [MARKER_END];
    BlockIs(head);
    JoinConcat(head, [MARKER_BEGIN] + rest);
    JoinConcat([MARKER_BEGIN], rest);
    JoinOne(MARKER_BEGIN);
    assert head + [MARKER_BEGIN] + BODY + [MARKER_END] == head + ([MARKER_BEGIN] + rest);
    var front, back := Join(head) + "\n", "\n" + Join(rest) + "\n";
    var text := Join(head + MarkerBlock()) + "\n";
    assert text == front + (MARKER_BEGIN + back);
    Contains(front, MARKER_BEGIN, back);
  }

  lemma JoinOne(line: string)
    ensures Join([line]) == line
  {
  }

  lemma Contains(a: string, t: string, b: string)
    ensures HasSubstring(a + (t + b), t)
  {
    assert (a + (t + b))[|a|..] == t + b;
  }

  lemma EmptyScript(user: seq<string>)
    requires AllClean(user)
    ensures IsEffectivelyEmpty(Join(Head(user))) <==> forall l :: l in user ==> Inert(l)
  {
    FiIsPlain();
    if user == [] {
      assert Clean(SHEBANG);
      PieceAlone(SHEBANG);
      assert [SHEBANG][..0] == [] && ChompAll([]) == [];
      assert Lines(SHEBANG) == [SHEBANG];
    } else {
      JoinConcat(user, [""]);
      assert Join(user) + "\n" + "" == Join(user) + "\n";
      LinesOfText(user);
    }
  }

  /** Removing after any number of installs gives the user's text, trimmed and with one
      newline, or deletes the script when only shebangs and blank lines are the user's. */
  lemma RemoveUndoesInstalls(content: string, n: nat)
    requires AllClean(Lines(content)) && n >= 1
    ensures Removed(Some(InstallTimes(content, n)))
         == if forall l :: l in Kept(Lines(content)) ==> Inert(l) then None else Some(Base(content) + "\n")
  {
    hide *;
    var last := InstallTimes(content, n - 1);
    StaysClean(content, n - 1);
    StaysClean(content, n);
    OneMoreInstall(content, n - 1);
    NoInstall(content);
    InstalledIs(last);
    InstallKeepsUserLines(last);
    HeadIsThere(User(last));
    ContainsMarker(Head(User(last)));
    UserIsPlain(content);
    UserIsPlain(last);
    EmptyScript(User(last));
    BaseIs(content);
    BaseIs(InstallTimes(content, n));
    FiIsPlain();
    RemovedIs(content, last);
  }

  lemma HeadIsThere(user: seq<string>)
    ensures |Head(user)| > 0
  {
  }

  lemma RemovedIs(content: string, last: string)
    requires var text := Installed(Some(last));
             && HasSubstring(text, MARKER_BEGIN) && Kept(Lines(text)) == Head(User(last))
             && User(text) == (if User(content) == [] then [SHEBANG] else User(content))
             && Base(text) == Join(User(text)) && Base(content) == Join(User(content))
    requires IsEffectivelyEmpty(Join(Head(User(last)))) <==> forall l :: l in User(last) ==> Inert(l)
    requires User(last) == User(content) || (User(content) == [] && User(last) == [SHEBANG])
    requires Inert(SHEBANG)
    requires (forall l :: l in User(content) ==> Inert(l)) <==> (forall l :: l in Kept(Lines(content)) ==> Inert(l))
    ensures Removed(Some(Installed(Some(last))))
         == if forall l :: l in Kept(Lines(content)) ==> Inert(l) then None else Some(Base(content) + "\n")
  {
    hide Installed, User, Lines, Join, Kept, Base, Inert, IsEffectivelyEmpty, HasSubstring;
  }

  // ----- by the texts themselves ------------------------------------------------------------------

  /** The eight lines of the block. */
  lemma TheBlockIs()
    ensures |MarkerBlock()| == 8
    ensures MarkerBlock()[0] == "# >>> codewiki sync hook >>>" && MarkerBlock()[7] == "# <<< codewiki sync hook <<<"
    ensures MarkerBlock()[1] == "# Keeps the CodeWiki " + "index fresh while the live" + " file watcher is off"
    ensures MarkerBlock()[2] == "# (e.g. WSL2 /mnt drives)" + ". Runs in the background" + " so it never blocks git."
    ensures MarkerBlock()[3] == "# Managed by codewiki;" + " remove with `codewiki uninit`" + " or delete this block."
    ensures MarkerBlock()[4] == "if command -v codewiki" + " >/dev/null 2>&1; then"
    ensures MarkerBlock()[5] == "  ( codewiki sync >/dev/null" + " 2>&1 & ) >/dev/null 2>&1" && MarkerBlock()[6] == "fi"
  {
  }

  predicate Blanks(s: string) { forall k :: 0 <= k < |s| ==> s[k] == ' ' || s[k] == '\t' }

  lemma {:induction false} IndentTrims(s: string, line: string)
    requires Blanks(s)
    ensures TrimStart(s + line) == TrimStart(line)
  {
    if |s| > 0 {
      IndentTrims(s[1..], line);
      assert (s + line)[1..] == s[1..] + line;
    } else {
      assert s + line == line;
    }
  }

  lemma {:induction false} TailTrims(line: string, s: string)
    requires Blanks(s)
    ensures TrimEnd(line + s) == TrimEnd(line)
  {
    if |s| > 0 {
      TailTrims(line, s[..|s|-1]);
      assert (line + s)[..|line + s|-1] == line + s[..|s|-1];
    } else {
      assert line + s == line;
    }
  }

  /** A marker counts with blanks around it. */
  lemma MarkersMayBeIndented(before: string, after: string)
    requires Blanks(before) && Blanks(after)
    ensures IsBegin(before + ("# >>> codewiki sync hook >>>" + after))
    ensures IsEnd(before + ("# <<< codewiki sync hook <<<" + after))
  {
    MarkersTrimmed();
    assert MARKER_BEGIN[0] == '#' && MARKER_END[0] == '#';
    IndentedTrims(before, MARKER_BEGIN, after);
    IndentedTrims(before, MARKER_END, after);
    hide Trim, Blanks;
  }

  lemma IndentedTrims(before: string, line: string, after: string)
    requires Blanks(before) && Blanks(after) && |line| > 0 && !IsSpace(line[0])
    ensures Trim(before + (line + after)) == Trim(line)
  {
    hide TrimEnd;
    IndentTrims(before, line + after);
    TailTrims(line, after);
    assert (line + after)[0] == line[0];
    assert TrimStart(line + after) == line + after && TrimStart(line) == line;
  }

  /** The script of a single line: the line, a blank line and the block. */
  lemma OneLineIsKept(line: string)
    requires PlainLine(line) && |line| > 0 && !IsSpace(line[0]) && !IsSpace(line[|line|-1])
    ensures Installed(Some(line)) == line + "\n\n" + Join(MarkerBlock()) + "\n"
  {
    PieceAlone(line);
    OneLine(line);
    hide MarkerBlock, IsBegin, IsEnd, Lines;
    assert Kept([line]) == [line];
  }

  lemma OneLine(line: string)
    requires Pieces(line) == [line] && |line| > 0 && !IsSpace(line[|line|-1])
    ensures Lines(line) == [line]
  {
    assert [line][..0] == [] && ChompAll([]) == [];
  }

  /** Lines that do not keep a script alive: blank ones and those that start with a shebang,
      but no other comment. */
  lemma InertLinesAre(line: string)
    ensures Blanks(line) ==> Inert(line)
    ensures |line| > 0 && !IsSpace(line[0]) && !IsSpace(line[|line|-1]) ==>
              (Inert(line) <==> |line| >= 2 && line[0] == '#' && line[1] == '!')
  {
    if Blanks(line) {
      IndentTrims(line, "");
      assert line + "" == line;
    }
    if |line| > 0 && !IsSpace(line[0]) && !IsSpace(line[|line|-1]) {
      Untrimmed(line);
      hide Trim;
      assert "#!"[0] == '#' && "#!"[1] == '!';
      if |line| >= 2 { assert "#!" <= line <==> line[0] == '#' && line[1] == '!'; }
    }
  }
}
