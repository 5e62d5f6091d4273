/** The hand-written scanners over Go source: the reader of a balanced brace block, and
    the splitter of a parameter list. */
module GoScanners {
  import opened Graph
  import opened Lexer
  import opened Seqs

  const OPEN: byte := 123
  const CLOSE: byte := 125
  const COMMA: byte := 44

  predicate IsQuote(c: byte) { c == DQUOTE || c == QUOTE || c == BACKTICK }

  // ----- bodies of brace blocks ----------------------------------------------------------

  /** A character of a string, rune or raw literal. */
  datatype LitChar = Raw(c: byte) | Escaped(c: byte)

  /** Text with its nested blocks and its literals made explicit. */
  datatype Body =
    | Empty
    | Plain(c: byte, rest: Body)
    | Literal(quote: byte, chars: seq<LitChar>, rest: Body)
    | Block(inner: Body, rest: Body)

  predicate GoodChar(quote: byte, c: LitChar)
  {
    match c
    case Raw(b) => b != quote && (quote == BACKTICK || b != BACKSLASH)
    case Escaped(_) => quote != BACKTICK
  }

  predicate WellFormed(b: Body)
  {
    match b
    case Empty => true
    case Plain(c, rest) => c != OPEN && c != CLOSE && !IsQuote(c) && WellFormed(rest)
    case Literal(q, chars, rest) => IsQuote(q) && (forall c :: c in chars ==> GoodChar(q, c)) && WellFormed(rest)
    case Block(inner, rest) => WellFormed(inner) && WellFormed(rest)
  }

  function RenderChar(c: LitChar): seq<byte>
  {
    match c case Raw(b) => [b] case Escaped(b) => [BACKSLASH, b]
  }

  function RenderChars(chars: seq<LitChar>): seq<byte>
  {
    if |chars| == 0 then [] else RenderChar(chars[0]) + RenderChars(chars[1..])
  }

  function Render(b: Body): seq<byte>
  {
    match b
    case Empty => []
    case Plain(c, rest) => [c] + Render(rest)
    case Literal(q, chars, rest) => [q] + (RenderChars(chars) + ([q] + Render(rest)))
    case Block(inner, rest) => [OPEN] + (Render(inner) + ([CLOSE] + Render(rest)))
  }

  // ----- the brace reader -------------------------------------------------------------------

  /** Where the scan stands after the rest of a literal, possibly past the end. */
  function AfterLiteral(s: seq<byte>, i: nat, quote: byte): (r: nat)
    ensures r >= i
    decreases |s| - i
  {
    if i >= |s| then i
    else if s[i] == BACKSLASH && quote != BACKTICK then AfterLiteral(s, i + 2, quote)
    else if s[i] == quote then i + 1
    else AfterLiteral(s, i + 1, quote)
  }

  /** The brace that closes the block `depth` levels up. */
  function Closing(s: seq<byte>, i: nat, depth: nat): (r: Option<nat>)
    requires depth > 0
    ensures r.Some? ==> i <= r.value < |s|
    decreases |s| - i
  {
    if i >= |s| then None
    else if s[i] == OPEN then Closing(s, i + 1, depth + 1)
    else if s[i] == CLOSE then (if depth == 1 then Some(i) else Closing(s, i + 1, depth - 1))
    else if IsQuote(s[i]) then Closing(s, AfterLiteral(s, i + 1, s[i]), depth)
    else Closing(s, i + 1, depth)
  }

  function BlockAt(s: seq<byte>, open: nat): Option<seq<byte>>
  {
    if open >= |s| || s[open] != OPEN then None
    else match Closing(s, open + 1, 1)
      case Some(j) => Some(s[open+1..j])
      case None => None
  }

  method SkipLiteral(s: seq<byte>, from: nat, quote: byte) returns (i: nat)
    ensures i == AfterLiteral(s, from, quote)
  {
    i := from;
    while i < |s|
      invariant i >= from && AfterLiteral(s, i, quote) == AfterLiteral(s, from, quote)
    {
      if s[i] == BACKSLASH && quote != BACKTICK {
        i := i + 2;
      } else if s[i] == quote {
        i := i + 1;
        return;
      } else {
        i := i + 1;
      }
    }
  }

  method ReadBalancedBraces(s: seq<byte>, openIndex: nat) returns (body: Option<seq<byte>>)
    ensures body == BlockAt(s, openIndex)
  {
    if openIndex >= |s| || s[openIndex] != OPEN {
      return None;
    }
    var depth, i, start := 0, openIndex, openIndex + 1;
    while i < |s|
      invariant i >= openIndex && depth >= 0 && (depth == 0 <==> i == openIndex)
      invariant depth > 0 ==> i >= start && Closing(s, i, depth) == Closing(s, start, 1)
      decreases |s| - i
    {
      var c := s[i];
      if c == OPEN {
        depth := depth + 1;
        i := i + 1;
      } else if c == CLOSE {
        depth := depth - 1;
        if depth == 0 {
          return Some(s[start..i]);
        }
        i := i + 1;
      } else if IsQuote(c) {
        i := SkipLiteral(s, i + 1, c);
      } else {
        i := i + 1;
      }
    }
    return None;
  }

  // ----- it reads exactly the balanced bodies --------------------------------------------------

  /** The text t stands at offset i of s. */
  predicate Sits(s: seq<byte>, i: nat, t: seq<byte>) { i + |t| <= |s| && s[i..i+|t|] == t }

  lemma SitsSplit(s: seq<byte>, i: nat, a: seq<byte>, b: seq<byte>)
    ensures Sits(s, i, a + b) <==> Sits(s, i, a) && Sits(s, i + |a|, b)
  {
    if i + |a| + |b| <= |s| {
      var t := s[i..i+|a|+|b|];
      assert t[..|a|] == s[i..i+|a|] && t[|a|..] == s[i+|a|..i+|a|+|b|];
      assert t == t[..|a|] + t[|a|..];
      assert (a + b)[..|a|] == a && (a + b)[|a|..] == b;
    }
  }

  lemma SitsFirst(s: seq<byte>, i: nat, c: byte, t: seq<byte>)
    requires Sits(s, i, [c] + t)
    ensures i < |s| && s[i] == c && Sits(s, i + 1, t)
  {
    SitsSplit(s, i, [c], t);
    assert s[i..i+1][0] == c;
  }

  lemma CharSits(s: seq<byte>, i: nat, quote: byte, c: LitChar, rest: seq<byte>)
    requires IsQuote(quote) && GoodChar(quote, c) && Sits(s, i, RenderChar(c) + rest)
    ensures Sits(s, i + |RenderChar(c)|, rest)
    ensures AfterLiteral(s, i, quote) == AfterLiteral(s, i + |RenderChar(c)|, quote)
  {
    SitsSplit(s, i, RenderChar(c), rest);
    assert s[i..i+|RenderChar(c)|][0] == RenderChar(c)[0];
  }

  lemma {:induction false} ReadsLiteral(s: seq<byte>, i: nat, quote: byte, chars: seq<LitChar>, rest: seq<byte>)
    requires IsQuote(quote) && (forall c :: c in chars ==> GoodChar(quote, c))
    requires Sits(s, i, RenderChars(chars) + ([quote] + rest))
    ensures AfterLiteral(s, i, quote) == i + |RenderChars(chars)| + 1
    ensures Sits(s, i + |RenderChars(chars)| + 1, rest)
    decreases |chars|
  {
    hide Sits;
    if |chars| == 0 {
      assert RenderChars(chars) + ([quote] + rest) == [quote] + rest;
      SitsFirst(s, i, quote, rest);
    } else {
      var more := RenderChars(chars[1..]) + ([quote] + rest);
      assert RenderChars(chars) + ([quote] + rest) == RenderChar(chars[0]) + more;
      hide RenderChar, GoodChar, AfterLiteral;
      CharSits(s, i, quote, chars[0], more);
      ReadsLiteral(s, i + |RenderChar(chars[0])|, quote, chars[1..], rest);
    }
  }

  lemma LiteralSits(s: seq<byte>, i: nat, q: byte, chars: seq<LitChar>, rest: seq<byte>)
    requires IsQuote(q) && (forall c :: c in chars ==> GoodChar(q, c))
    requires Sits(s, i, [q] + (RenderChars(chars) + ([q] + rest)))
    ensures i < |s| && s[i] == q
    ensures var k := AfterLiteral(s, i + 1, q);
            k == i + |[q] + (RenderChars(chars) + [q])| && Sits(s, k, rest)
  {
    hide Sits, AfterLiteral, RenderChars;
    SitsFirst(s, i, q, RenderChars(chars) + ([q] + rest));
    ReadsLiteral(s, i + 1, q, chars, rest);
  }

  lemma BlockSits(s: seq<byte>, i: nat, inner: seq<byte>, rest: seq<byte>)
    requires Sits(s, i, [OPEN] + (inner + ([CLOSE] + rest)))
    ensures i < |s| && s[i] == OPEN && Sits(s, i + 1, inner)
    ensures i + 1 + |inner| < |s| && s[i + 1 + |inner|] == CLOSE && Sits(s, i + 2 + |inner|, rest)
  {
    hide Sits;
    SitsFirst(s, i, OPEN, inner + ([CLOSE] + rest));
    SitsSplit(s, i + 1, inner, [CLOSE] + rest);
    SitsFirst(s, i + 1 + |inner|, CLOSE, rest);
  }

  /** The scan passes over a well-formed body at whatever depth it meets it. */
  lemma {:induction false} PassesBody(s: seq<byte>, i: nat, b: Body, depth: nat)
    requires WellFormed(b) && depth > 0 && Sits(s, i, Render(b))
    ensures Closing(s, i, depth) == Closing(s, i + |Render(b)|, depth)
    decreases b
  {
    hide Sits, RenderChars, AfterLiteral, GoodChar;
    match b
    case Empty =>
    case Plain(c, rest) =>
      SitsFirst(s, i, c, Render(rest));
      PassesBody(s, i + 1, rest, depth);
    case Literal(q, chars, rest) =>
      LiteralSits(s, i, q, chars, Render(rest));
      PassesBody(s, i + |[q] + (RenderChars(chars) + [q])|, rest, depth);
    case Block(inner, rest) =>
      BlockSits(s, i, Render(inner), Render(rest));
      PassesBody(s, i + 1, inner, depth + 1);
      PassesBody(s, i + 2 + |Render(inner)|, rest, depth);
  }

  /** Closing d + 1 levels is closing one level and then d more. */
  lemma {:induction false} ClosingPeels(s: seq<byte>, i: nat, from: nat, d: nat)
    requires d > 0 && from > 0
    ensures Closing(s, i, from + d) ==
            match Closing(s, i, from) case Some(j) => Closing(s, j + 1, d) case None => None
    decreases |s| - i
  {
    if i < |s| {
      if s[i] == OPEN { ClosingPeels(s, i + 1, from + 1, d); }
      else if s[i] == CLOSE { if from > 1 { ClosingPeels(s, i + 1, from - 1, d); } }
      else if IsQuote(s[i]) { ClosingPeels(s, AfterLiteral(s, i + 1, s[i]), from, d); }
      else { ClosingPeels(s, i + 1, from, d); }
    }
  }

  /** A literal the scan leaves inside the text is a well-formed one. */
  lemma {:induction false} LiteralChars(s: seq<byte>, i: nat, quote: byte) returns (chars: seq<LitChar>)
    requires IsQuote(quote) && AfterLiteral(s, i, quote) < |s|
    ensures forall c :: c in chars ==> GoodChar(quote, c)
    ensures s[i..AfterLiteral(s, i, quote)] == RenderChars(chars) + [quote]
    decreases |s| - i
  {
    hide RenderChars;
    var end := AfterLiteral(s, i, quote);
    if s[i] == BACKSLASH && quote != BACKTICK {
      var rest := LiteralChars(s, i + 2, quote);
      chars := [Escaped(s[i+1])] + rest;
      RenderFirst(Escaped(s[i+1]), rest);
      assert s[i..end] == [BACKSLASH, s[i+1]] + s[i+2..end];
      Regroup([BACKSLASH, s[i+1]], RenderChars(rest), [quote]);
    } else if s[i] == quote {
      chars := [];
      RenderNone();
      assert s[i..end] == [quote] && [] + [quote] == [quote];
    } else {
      var rest := LiteralChars(s, i + 1, quote);
      chars := [Raw(s[i])] + rest;
      RenderFirst(Raw(s[i]), rest);
      assert s[i..end] == [s[i]] + s[i+1..end];
      Regroup([s[i]], RenderChars(rest), [quote]);
    }
  }

  lemma RenderFirst(c: LitChar, rest: seq<LitChar>)
    ensures RenderChars([c] + rest) == RenderChar(c) + RenderChars(rest)
  {
    assert ([c] + rest)[1..] == rest;
  }

  lemma RenderNone()
    ensures RenderChars([]) == []
  {
  }

  /** What the scan passes over up to the closing brace is a well-formed body. */
  lemma {:induction false} BodyRead(s: seq<byte>, i: nat) returns (b: Body)
    requires Closing(s, i, 1).Some?
    ensures WellFormed(b) && Render(b) == s[i..Closing(s, i, 1).value]
    decreases |s| - i
  {
    var j := Closing(s, i, 1).value;
    if s[i] == OPEN {
      ClosingPeels(s, i + 1, 1, 1);
      var k := Closing(s, i + 1, 1).value;
      var inner := BodyRead(s, i + 1);
      var rest := BodyRead(s, k + 1);
      b := Body.Block(inner, rest);
      ClosesAtBrace(s, i + 1, 1);
      Cut(s, i, k, j);
    } else if s[i] == CLOSE {
      b := Empty;
    } else if IsQuote(s[i]) {
      var k := AfterLiteral(s, i + 1, s[i]);
      var chars := LiteralChars(s, i + 1, s[i]);
      var rest := BodyRead(s, k);
      b := Literal(s[i], chars, rest);
      CutAfter(s, i, k, j, RenderChars(chars));
    } else {
      var rest := BodyRead(s, i + 1);
      b := Plain(s[i], rest);
      assert s[i..j] == [s[i]] + s[i+1..j];
    }
  }

  lemma Cut(s: seq<byte>, i: nat, k: nat, j: nat)
    requires i < k < j <= |s|
    ensures s[i..j] == [s[i]] + (s[i+1..k] + ([s[k]] + s[k+1..j]))
  {
  }

  lemma CutAfter(s: seq<byte>, i: nat, k: nat, j: nat, chars: seq<byte>)
    requires i < k <= j <= |s| && s[i+1..k] == chars + [s[i]]
    ensures s[i..j] == [s[i]] + (chars + ([s[i]] + s[k..j]))
  {
    assert s[i..j] == [s[i]] + (s[i+1..k] + s[k..j]);
  }

  lemma {:induction false} ClosesAtBrace(s: seq<byte>, i: nat, depth: nat)
    requires depth > 0 && Closing(s, i, depth).Some?
    ensures s[Closing(s, i, depth).value] == CLOSE
    decreases |s| - i
  {
    if s[i] == OPEN { ClosesAtBrace(s, i + 1, depth + 1); }
    else if s[i] == CLOSE { if depth > 1 { ClosesAtBrace(s, i + 1, depth - 1); } }
    else if IsQuote(s[i]) { ClosesAtBrace(s, AfterLiteral(s, i + 1, s[i]), depth); }
    else { ClosesAtBrace(s, i + 1, depth); }
  }

  ghost predicate IsBody(t: seq<byte>)
  {
    exists b: Body :: WellFormed(b) && Render(b) == t
  }

  lemma SitsHere(s: seq<byte>, i: nat, t: seq<byte>)
    ensures Sits(s, i, t) ==> i + |t| <= |s| && s[i..i+|t|] == t
  {
  }

  lemma BodiesAreRead(s: seq<byte>, open: nat, t: seq<byte>)
    requires IsBody(t) && Sits(s, open, [OPEN] + (t + [CLOSE]))
    ensures BlockAt(s, open) == Some(t)
  {
    hide Sits, AfterLiteral;
    var b: Body :| WellFormed(b) && Render(b) == t;
    SitsHere(s, open + 1, t);
    SitsFirst(s, open, OPEN, t + [CLOSE]);
    SitsSplit(s, open + 1, t, [CLOSE]);
    PassesBody(s, open + 1, b, 1);
    assert [CLOSE] == [CLOSE] + [];
    SitsFirst(s, open + 1 + |t|, CLOSE, []);
    hide Render, WellFormed, Closing;
  }

  lemma ReadsAreBodies(s: seq<byte>, open: nat, t: seq<byte>)
    requires BlockAt(s, open) == Some(t)
    ensures IsBody(t) && Sits(s, open, [OPEN] + (t + [CLOSE]))
  {
    var b := BodyRead(s, open + 1);
    ClosesAtBrace(s, open + 1, 1);
    var j := Closing(s, open + 1, 1).value;
    hide Render, WellFormed, Closing;
    Braced(s, open, j);
  }

  lemma Braced(s: seq<byte>, open: nat, j: nat)
    requires open < j < |s|
    ensures s[open..j+1] == [s[open]] + (s[open+1..j] + [s[j]])
  {
  }

  /** The reader is exact: it returns t if and only if t is a well-formed body and stands
      between braces at that place, whatever surrounds it. */
  lemma ReadsExactlyTheBodies(s: seq<byte>, open: nat, t: seq<byte>)
    ensures BlockAt(s, open) == Some(t) <==> IsBody(t) && Sits(s, open, [OPEN] + (t + [CLOSE]))
  {
    hide BlockAt, IsBody, Sits;
    if BlockAt(s, open) == Some(t) {
      ReadsAreBodies(s, open, t);
    } else if IsBody(t) && Sits(s, open, [OPEN] + (t + [CLOSE])) {
      BodiesAreRead(s, open, t);
    }
  }

  // ----- the comma splitter -------------------------------------------------------------------

  predicate Opens(c: byte) { c == 40 || c == 91 || c == OPEN }

  predicate Closes(c: byte) { c == 41 || c == 93 || c == CLOSE }

  function Turn(c: byte): int { if Opens(c) then 1 else if Closes(c) then -1 else 0 }

  /** Opening minus closing brackets; may be negative. */
  function Depth(s: seq<byte>): int
  {
    if |s| == 0 then 0 else Depth(s[..|s|-1]) + Turn(s[|s|-1])
  }

  function Push(groups: seq<seq<byte>>, c: byte, depth: int): (r: seq<seq<byte>>)
    requires |groups| > 0
    ensures |r| > 0
  {
    if c == COMMA && depth == 0 then groups + [[]] else groups[..|groups|-1] + [groups[|groups|-1] + [c]]
  }

  function Groups(s: seq<byte>): (g: seq<seq<byte>>)
    ensures |g| > 0
  {
    if |s| == 0 then [[]] else Push(Groups(s[..|s|-1]), s[|s|-1], Depth(s[..|s|-1]))
  }

  lemma StepAt(s: seq<byte>, c: byte)
    ensures Depth(s + [c]) == Depth(s) + Turn(c)
    ensures Groups(s + [c]) == Push(Groups(s), c, Depth(s))
  {
    assert (s + [c])[..|s + [c]|-1] == s;
  }

  lemma PushLast(out: seq<seq<byte>>, g: seq<byte>, c: byte, depth: int)
    ensures Push(out + [g], c, depth) == if c == COMMA && depth == 0 then out + [g] + [[]] else out + [g + [c]]
  {
    assert (out + [g])[..|out|] == out;
  }

  method SplitTopLevelCommas(s: seq<byte>) returns (out: seq<seq<byte>>)
    ensures out == Groups(s)
  {
    hide Push, Depth, Groups;
    out := [];
    var depth, start := 0, 0;
    NothingRead(s);
    for i := 0 to |s|
      invariant start <= i && depth == Depth(s[..i]) && out + [s[start..i]] == Groups(s[..i])
    {
      StepAt(s[..i], s[i]);
      PushLast(out, s[start..i], s[i], depth);
      assert s[..i+1] == s[..i] + [s[i]] && s[start..i+1] == s[start..i] + [s[i]] && s[i+1..i+1] == [];
      if Opens(s[i]) {
        depth := depth + 1;
      } else if Closes(s[i]) {
        depth := depth - 1;
      } else if s[i] == COMMA && depth == 0 {
        out := out + [s[start..i]];
        start := i + 1;
      }
    }
    assert s[..|s|] == s && s[start..|s|] == s[start..];
    out := out + [s[start..]];
  }

  lemma NothingRead(s: seq<byte>)
    ensures Depth(s[..0]) == 0 && [] + [s[0..0]] == Groups(s[..0])
  {
  }

  function JoinCommas(groups: seq<seq<byte>>): seq<byte>
  {
    if |groups| == 0 then []
    else if |groups| == 1 then groups[0]
    else JoinCommas(groups[..|groups|-1]) + [COMMA] + groups[|groups|-1]
  }

  lemma JoinStep(groups: seq<seq<byte>>, g: seq<byte>)
    ensures JoinCommas(groups + [g]) == if |groups| == 0 then g else JoinCommas(groups) + [COMMA] + g
  {
    assert (groups + [g])[..|groups|] == groups;
  }

  lemma JoinComma(groups: seq<seq<byte>>)
    requires |groups| > 0
    ensures JoinCommas(groups + [[]]) == JoinCommas(groups) + [COMMA]
  {
    JoinStep(groups, []);
    hide JoinCommas;
    assert JoinCommas(groups) + [COMMA] + [] == JoinCommas(groups) + [COMMA];
  }

  lemma JoinGrow(init: seq<seq<byte>>, last: seq<byte>, c: byte)
    ensures JoinCommas(init + [last + [c]]) == JoinCommas(init + [last]) + [c]
  {
    JoinStep(init, last);
    JoinStep(init, last + [c]);
    hide JoinCommas;
    Regroup(JoinCommas(init) + [COMMA], last, [c]);
  }

  lemma JoinPush(groups: seq<seq<byte>>, c: byte, depth: int)
    requires |groups| > 0
    ensures JoinCommas(Push(groups, c, depth)) == JoinCommas(groups) + [c]
  {
    hide *;
    var init, last := groups[..|groups|-1], groups[|groups|-1];
    SplitLast(groups);
    PushLast(init, last, c, depth);
    if c == COMMA && depth == 0 {
      JoinComma(groups);
    } else {
      JoinGrow(init, last, c);
    }
  }

  /** Splitting loses nothing: joined by commas the groups are the text. */
  lemma {:induction false} JoiningTheGroups(s: seq<byte>)
    ensures JoinCommas(Groups(s)) == s
  {
    if |s| > 0 {
      JoiningTheGroups(s[..|s|-1]);
      JoinPush(Groups(s[..|s|-1]), s[|s|-1], Depth(s[..|s|-1]));
      assert s == s[..|s|-1] + [s[|s|-1]];
    }
  }

  lemma {:induction false} DepthConcat(a: seq<byte>, b: seq<byte>)
    ensures Depth(a + b) == Depth(a) + Depth(b)
  {
    if |b| == 0 {
      assert a + b == a;
    } else {
      DepthConcat(a, b[..|b|-1]);
      assert a + b == (a + b[..|b|-1]) + [b[|b|-1]];
      StepAt(a + b[..|b|-1], b[|b|-1]);
    }
  }

  lemma PushConcat(base: seq<seq<byte>>, g: seq<seq<byte>>, c: byte, depth: int)
    requires |g| > 0
    ensures Push(base + g, c, depth) == base + Push(g, c, depth)
  {
    assert (base + g)[..|base + g|-1] == base + g[..|g|-1];
  }

  /** After a comma at depth 0 the splitter starts afresh. */
  lemma {:induction false} GroupsConcat(a: seq<byte>, b: seq<byte>)
    requires Depth(a) == 0
    ensures Depth(a + [COMMA] + b) == Depth(b) && Groups(a + [COMMA] + b) == Groups(a) + Groups(b)
  {
    hide Depth, Push;
    if |b| == 0 {
      assert a + [COMMA] + b == a + [COMMA];
      StepAt(a, COMMA);
      CommaPush(Groups(a));
      NothingRead(b);
      assert b[..0] == b;
    } else {
      var init, last := b[..|b|-1], b[|b|-1];
      GroupsConcat(a, init);
      assert b == init + [last] && a + [COMMA] + b == (a + [COMMA] + init) + [last];
      StepAt(a + [COMMA] + init, last);
      StepAt(init, last);
      PushConcat(Groups(a), Groups(init), last, Depth(init));
    }
  }

  lemma CommaPush(g: seq<seq<byte>>)
    requires |g| > 0
    ensures Push(g, COMMA, 0) == g + [[]]
  {
  }

  // ----- arity ---------------------------------------------------------------------------------

  predicate IsSpace(c: byte) { 9 <= c <= 13 || c == SPACE }

  predicate Blank(s: seq<byte>) { forall c :: c in s ==> IsSpace(c) }

  function Trim(s: seq<byte>): seq<byte>
    decreases |s|
  {
    if |s| > 0 && IsSpace(s[0]) then Trim(s[1..])
    else if |s| > 0 && IsSpace(s[|s|-1]) then Trim(s[..|s|-1])
    else s
  }

  function CountFilled(groups: seq<seq<byte>>): nat
  {
    if |groups| == 0 then 0
    else CountFilled(groups[..|groups|-1]) + if Blank(groups[|groups|-1]) then 0 else 1
  }

  /** The number of parameters: the non-blank groups of the list. */
  function Arity(params: seq<byte>): nat { CountFilled(Groups(params)) }

  method ParamArity(params: seq<byte>) returns (count: nat)
    ensures count == Arity(params)
  {
    TrimKeepsArity(params);
    var trimmed := Trim(params);
    if |trimmed| == 0 {
      return 0;
    }
    var groups := SplitTopLevelCommas(trimmed);
    count := 0;
    for i := 0 to |groups|
      invariant count == CountFilled(groups[..i])
    {
      assert groups[..i+1][..i] == groups[..i];
      TrimmedAway(groups[i]);
      if |Trim(groups[i])| != 0 {
        count := count + 1;
      }
    }
    assert groups[..|groups|] == groups;
  }

  lemma {:induction false} TrimmedAway(s: seq<byte>)
    ensures |Trim(s)| == 0 <==> Blank(s)
    decreases |s|
  {
    if |s| > 0 && IsSpace(s[0]) {
      TrimmedAway(s[1..]);
      assert s == [s[0]] + s[1..];
    } else if |s| > 0 && IsSpace(s[|s|-1]) {
      TrimmedAway(s[..|s|-1]);
      assert s == s[..|s|-1] + [s[|s|-1]];
    } else if |s| > 0 {
      assert s[0] in s;
    }
  }

  lemma BlankPush(g: seq<byte>, c: byte)
    ensures Blank(g + [c]) <==> Blank(g) && IsSpace(c)
    ensures Blank([c] + g) <==> Blank(g) && IsSpace(c)
  {
    assert forall x :: x in g + [c] <==> x in g || x == c;
    assert forall x :: x in [c] + g <==> x in g || x == c;
  }

  /** A trailing space goes to the last group and leaves it as blank as it was. */
  lemma TrailingSpace(s: seq<byte>, c: byte)
    requires IsSpace(c)
    ensures Arity(s + [c]) == Arity(s)
  {
    StepAt(s, c);
    var g := Groups(s);
    var init, last := g[..|g|-1], g[|g|-1];
    assert g == init + [last];
    BlankPush(last, c);
  }

  /** The groups when the text has one more byte in front. */
  function WithFirst(c: byte, g: seq<seq<byte>>): (r: seq<seq<byte>>)
    requires |g| > 0
    ensures |r| > 0
  {
    [[c] + g[0]] + g[1..]
  }

  lemma PushWithFirst(c: byte, g: seq<seq<byte>>, d: byte, depth: int)
    requires |g| > 0
    ensures Push(WithFirst(c, g), d, depth) == WithFirst(c, Push(g, d, depth))
  {
    if |g| == 1 {
      assert [c] + (g[0] + [d]) == ([c] + g[0]) + [d];
    }
  }

  lemma LeadingNothing(c: byte, s: seq<byte>)
    requires IsSpace(c) && |s| == 0
    ensures Depth([c] + s) == Depth(s) && Groups([c] + s) == WithFirst(c, Groups(s))
  {
    assert [c] + s == [] + [c];
    StepAt([], c);
    assert Groups([]) == [[]] && Groups(s) == [[]];
    assert [c] + [] == [] + [c];
  }

  lemma {:induction false} LeadingGroups(c: byte, s: seq<byte>)
    requires IsSpace(c)
    ensures Depth([c] + s) == Depth(s) && Groups([c] + s) == WithFirst(c, Groups(s))
  {
    if |s| == 0 {
      LeadingNothing(c, s);
    } else {
      hide Depth, Push, WithFirst;
      var init, last := s[..|s|-1], s[|s|-1];
      LeadingGroups(c, init);
      assert s == init + [last] && [c] + s == ([c] + init) + [last];
      StepAt([c] + init, last);
      StepAt(init, last);
      PushWithFirst(c, Groups(init), last, Depth(init));
    }
  }

  lemma {:induction false} CountConcat(a: seq<seq<byte>>, b: seq<seq<byte>>)
    ensures CountFilled(a + b) == CountFilled(a) + CountFilled(b)
    decreases |b|
  {
    if |b| == 0 {
      assert a + b == a;
    } else {
      assert a + b == (a + b[..|b|-1]) + [b[|b|-1]];
      CountConcat(a, b[..|b|-1]);
    }
  }

  lemma LeadingSpace(c: byte, s: seq<byte>)
    requires IsSpace(c)
    ensures Arity([c] + s) == Arity(s)
  {
    LeadingGroups(c, s);
    var g := Groups(s);
    assert g == [g[0]] + g[1..];
    CountConcat([g[0]], g[1..]);
    CountConcat([[c] + g[0]], g[1..]);
    BlankPush(g[0], c);
    assert [] + [g[0]] == [g[0]] && [] + [[c] + g[0]] == [[c] + g[0]];
  }

  lemma {:induction false} TrimKeepsArity(s: seq<byte>)
    ensures Arity(Trim(s)) == Arity(s)
    ensures |Trim(s)| == 0 ==> Arity(s) == 0
    decreases |s|
  {
    hide Arity;
    if |s| > 0 && IsSpace(s[0]) {
      TrimKeepsArity(s[1..]);
      assert s == [s[0]] + s[1..];
      LeadingSpace(s[0], s[1..]);
    } else if |s| > 0 && IsSpace(s[|s|-1]) {
      TrimKeepsArity(s[..|s|-1]);
      assert s == s[..|s|-1] + [s[|s|-1]];
      TrailingSpace(s[..|s|-1], s[|s|-1]);
    } else if |s| == 0 {
      NothingHasNoArity(s);
    }
  }

  lemma NothingHasNoArity(s: seq<byte>)
    requires |s| == 0
    ensures Arity(s) == 0
  {
    assert Groups(s) == [] + [[]];
  }

  /** Arity adds over a comma after a bracket-balanced list, so a comma inside a map, slice
      or function type does not count. */
  lemma ArityAdds(a: seq<byte>, b: seq<byte>)
    requires Depth(a) == 0
    ensures Arity(a + [COMMA] + b) == Arity(a) + Arity(b)
  {
    GroupsConcat(a, b);
    CountConcat(Groups(a), Groups(b));
  }

  /** A list that is never back at depth 0 before a comma is one group. */
  lemma {:induction false} NestedIsOneGroup(s: seq<byte>)
    requires forall i :: 0 <= i < |s| && s[i] == COMMA ==> Depth(s[..i]) != 0
    ensures Groups(s) == [s]
  {
    if |s| > 0 {
      var init := s[..|s|-1];
      forall i | 0 <= i < |init| && init[i] == COMMA ensures Depth(init[..i]) != 0 { assert init[..i] == s[..i]; }
      NestedIsOneGroup(init);
      assert s == init + [s[|s|-1]];
    }
  }

  // ----- by the bytes themselves ---------------------------------------------------------------------

  /** A closing brace inside a string, a rune or a raw literal closes nothing, nor does one
      after an escaped quote; in a raw literal a backslash escapes nothing. */
  lemma LiteralsHideBraces(q: byte)
    requires q == '"' as int || q == '\'' as int || q == '`' as int
    ensures BlockAt(['{' as int, q, '}' as int, q, '}' as int], 0) == Some([q, '}' as int, q])
    ensures q != '`' as int ==>
              BlockAt(['{' as int, q, '\\' as int, q, '}' as int, q, '}' as int], 0) == Some([q, '\\' as int, q, '}' as int, q])
    ensures q == '`' as int ==> BlockAt(['{' as int, q, '\\' as int, q, '}' as int], 0) == Some([q, '\\' as int, q])
  {
    QuotedBrace(q);
    if q != '`' as int { EscapedQuote(q); } else { RawBackslash(q); }
  }

  lemma QuotedBrace(q: byte)
    requires q == '"' as int || q == '\'' as int || q == '`' as int
    ensures BlockAt([123, q, 125, q, 125], 0) == Some([q, 125, q])
  {
    var a := [123, q, 125, q, 125];
    assert AfterLiteral(a, 2, q) == AfterLiteral(a, 3, q) == 4;
    assert Closing(a, 1, 1) == Closing(a, 4, 1) == Some(4);
    assert a[1..4] == [q, 125, q];
  }

  lemma EscapedQuote(q: byte)
    requires q == '"' as int || q == '\'' as int
    ensures BlockAt([123, q, 92, q, 125, q, 125], 0) == Some([q, 92, q, 125, q])
  {
    var b := [123, q, 92, q, 125, q, 125];
    assert AfterLiteral(b, 2, q) == AfterLiteral(b, 4, q) == AfterLiteral(b, 5, q) == 6;
    assert Closing(b, 1, 1) == Closing(b, 6, 1) == Some(6);
    assert b[1..6] == [q, 92, q, 125, q];
  }

  lemma RawBackslash(q: byte)
    requires q == '`' as int
    ensures BlockAt([123, q, 92, q, 125], 0) == Some([q, 92, q])
  {
    var b := [123, q, 92, q, 125];
    assert AfterLiteral(b, 2, q) == AfterLiteral(b, 3, q) == 4;
    assert Closing(b, 1, 1) == Closing(b, 4, 1) == Some(4);
    assert b[1..4] == [q, 92, q];
  }

  /** Parentheses, brackets and braces. */
  predicate IsPair(open: byte, close: byte)
  {
    || (open == '(' as int && close == ')' as int) || (open == '[' as int && close == ']' as int)
    || (open == '{' as int && close == '}' as int)
  }

  /** One more byte goes to the last group, or opens a new one. */
  lemma GrowLast(s: seq<byte>, out: seq<seq<byte>>, g: seq<byte>, depth: int, c: byte)
    requires Groups(s) == out + [g] && Depth(s) == depth
    ensures Groups(s + [c]) == (if c == COMMA && depth == 0 then out + [g, []] else out + [g + [c]])
    ensures Depth(s + [c]) == depth + Turn(c)
  {
    StepAt(s, c);
    PushLast(out, g, c, depth);
    hide Groups, Depth, Push;
    assert out + [g] + [[]] == out + [g, []];
  }

  /** Each kind of bracket hides a comma, and the comma behind it splits. */
  lemma BracketsHideCommas(open: byte, close: byte, x: byte)
    requires IsPair(open, close) && (48 <= x <= 57 || 97 <= x <= 122)
    ensures Groups([open, ',' as int, close]) == [[open, ',' as int, close]]
    ensures Groups([open, close, ',' as int, x]) == [[open, close], [x]]
  {
    Turns(open, close, x);
    NoGroups();
    hide Groups, Depth, IsPair, Turn;
    GrowLast([], [], [], 0, open);
    Joined(open, close, x);
    GrowLast([open], [], [open], 1, 44);
    GrowLast([open, 44], [], [open, 44], 1, close);
    GrowLast([open], [], [open], 1, close);
    GrowLast([open, close], [], [open, close], 0, 44);
    GrowLast([open, close, 44], [[open, close]], [], 0, x);
  }

  lemma Turns(open: byte, close: byte, x: byte)
    requires IsPair(open, close) && (48 <= x <= 57 || 97 <= x <= 122)
    ensures Turn(open) == 1 && Turn(close) == -1 && Turn(44) == 0 && Turn(x) == 0
    ensures open != COMMA && close != COMMA && x != COMMA
  {
  }

  lemma NoGroups()
    ensures Groups([]) == [] + [[]] && Depth([]) == 0
  {
  }

  lemma Joined(open: byte, close: byte, x: byte)
    ensures [] + [open] == [open] && [open] + [44] == [open, 44] && [open, 44] + [close] == [open, 44, close]
    ensures [open] + [close] == [open, close] && [open, close] + [44] == [open, close, 44]
    ensures [open, close, 44] + [x] == [open, close, 44, x] && [] + [x] == [x]
    ensures [] + [[open]] == [[open]] && [] + [[open, 44]] == [[open, 44]] && [] + [[open, close]] == [[open, close]]
    ensures [] + [[open, close], []] == [[open, close]] + [[]] && [[open, close]] + [[x]] == [[open, close], [x]]
    ensures [] + [[open, 44, close]] == [[open, 44, close]]
  {
  }

  /** Blanks alone are no parameter; anything else is one. */
  lemma BlanksAreNoParameter(c: byte)
    requires c != ',' as int && Turn(c) == 0
    ensures Arity([c]) == if c == ' ' as int || 9 <= c <= 13 then 0 else 1
  {
    NoGroups();
    hide Groups, Depth;
    GrowLast([], [], [], 0, c);
    assert [] + [c] == [c] && [] + [[c]] == [[c]];
    assert [c][0] == c;
    assert Blank([c]) <==> IsSpace(c);
    assert [[c]][..0] == [] && CountFilled([[c]]) == CountFilled([]) + if Blank([c]) then 0 else 1;
  }
}
