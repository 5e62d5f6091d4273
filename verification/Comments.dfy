/** Which stretches of a text are comments, stated by what stands in the text and not by
    the lexical state machine: how comments and literals begin in each language, where they
    end, and that stripping blanks the comments and nothing else. */
module Comments {
  import opened Lexer
  import opened StripComments

  /** The word stands at i. */
  predicate Here(src: seq<byte>, i: nat, word: string)
  {
    i + |word| <= |src| && forall k :: 0 <= k < |word| ==> src[i+k] == word[k] as int
  }

  // ----- how comments and literals begin ---------------------------------------------------

  /** What begins at a place: something that runs to the end of the line, to the first
      closer, to the closer of its own level, to the same three quotes, to the line after
      =end, or a string literal. */
  datatype Opener =
    | LineComment
    | BlockComment
    | NestedComment
    | TripleQuoted(quotes: string)
    | RubyComment
    | Quoted(quote: string, escapes: bool, oneLine: bool)

  predicate SlashComment(src: seq<byte>, i: nat, o: Opener)
  {
    (o.LineComment? && Here(src, i, "//")) || (o.BlockComment? && Here(src, i, "/*"))
  }

  predicate QuotedBy(src: seq<byte>, i: nat, o: Opener, quote: string, escapes: bool, oneLine: bool)
  {
    o == Quoted(quote, escapes, oneLine) && Here(src, i, quote)
  }

  predicate Begins(lang: Lang, src: seq<byte>, i: nat, o: Opener)
  {
    match lang
    case Python =>
      || (o.LineComment? && Here(src, i, "#"))
      || (o == TripleQuoted("\"\"\"") && Here(src, i, "\"\"\""))
      || (o == TripleQuoted("'''") && Here(src, i, "'''"))
      || (QuotedBy(src, i, o, "\"", true, true) && !Here(src, i, "\"\"\""))
      || (QuotedBy(src, i, o, "'", true, true) && !Here(src, i, "'''"))
    case Ruby =>
      || (o.LineComment? && Here(src, i, "#"))
      || (o.RubyComment? && Here(src, i, "=begin") && (i == 0 || Here(src, i - 1, "\n")))
      || QuotedBy(src, i, o, "\"", true, true) || QuotedBy(src, i, o, "'", true, true)
    case CStyle(singleQuotes) =>
      || SlashComment(src, i, o) || QuotedBy(src, i, o, "`", true, false)
      || QuotedBy(src, i, o, "\"", true, true) || (singleQuotes && QuotedBy(src, i, o, "'", true, true))
    case Go =>
      SlashComment(src, i, o) || QuotedBy(src, i, o, "`", false, false) || QuotedBy(src, i, o, "\"", true, true)
    case Rust =>
      || (o.LineComment? && Here(src, i, "//")) || (o.NestedComment? && Here(src, i, "/*"))
      || QuotedBy(src, i, o, "\"", true, false)
    case Php =>
      || (o.LineComment? && Here(src, i, "#")) || SlashComment(src, i, o) || QuotedBy(src, i, o, "`", true, false)
      || QuotedBy(src, i, o, "\"", true, true) || QuotedBy(src, i, o, "'", true, true)
    case Jsonc =>
      SlashComment(src, i, o) || QuotedBy(src, i, o, "\"", true, false)
  }

  /** All but string literals are blanked, and in Rust these as well. */
  predicate IsBlanked(lang: Lang, o: Opener) { o.Quoted? ==> lang.Rust? }

  // ----- where they end -----------------------------------------------------------------------

  /** k is the first position from `from` on where it stops, or n. */
  ghost predicate FirstStop(stop: nat -> bool, from: nat, n: nat, k: nat)
  {
    from <= k <= n && (k < n ==> stop(k)) && forall m :: from <= m < k ==> !stop(m)
  }

  ghost function WordAt(src: seq<byte>, word: string): nat -> bool { (m: nat) => Here(src, m, word) }

  /** Byte m is escaped by the backslashes before it, counted from the opener's last byte. */
  ghost predicate Escaped(src: seq<byte>, opener: nat, m: nat)
  {
    opener + 1 < m && Here(src, m - 1, "\\") && !Escaped(src, opener, m - 1)
  }

  ghost function ClosesQuote(src: seq<byte>, i: nat, o: Opener): nat -> bool
    requires o.Quoted?
  {
    (m: nat) => !(o.escapes && Escaped(src, i, m)) && (Here(src, m, o.quote) || (o.oneLine && Here(src, m, "\n")))
  }

  ghost function ClosesTriple(src: seq<byte>, i: nat, quotes: string): nat -> bool
  {
    (m: nat) => !Escaped(src, i + 2, m) && Here(src, m, quotes)
  }

  /** Past the closer of the comment nesting `depth` deep at i; without one, where fewer
      than two bytes are left. */
  ghost function NestedEnd(src: seq<byte>, i: nat, depth: nat): nat
    decreases |src| - i
  {
    if depth == 0 || i + 1 >= |src| then i
    else if Here(src, i, "/*") then NestedEnd(src, i + 2, depth + 1)
    else if Here(src, i, "*/") then NestedEnd(src, i + 2, depth - 1)
    else NestedEnd(src, i + 1, depth)
  }

  ghost predicate BlockEnds(src: seq<byte>, i: nat, k: nat, j: nat)
  {
    && FirstStop(WordAt(src, "*/"), i + 2, |src|, k)
    && j == if k < |src| then k + 2 else if i + 2 < |src| then |src| - 1 else |src|
  }

  ghost predicate QuoteEnds(src: seq<byte>, i: nat, o: Opener, k: nat, j: nat)
    requires o.Quoted?
  {
    FirstStop(ClosesQuote(src, i, o), i + 1, |src|, k) && j == if Here(src, k, o.quote) then k + 1 else k
  }

  ghost predicate TripleEnds(src: seq<byte>, i: nat, quotes: string, k: nat, j: nat)
  {
    FirstStop(ClosesTriple(src, i, quotes), i + 3, |src|, k) && j == if k < |src| then k + 3 else |src|
  }

  ghost predicate RubyEnds(src: seq<byte>, i: nat, k: nat, j: nat)
  {
    && FirstStop(WordAt(src, "\n=end"), i + 6, |src|, k)
    && if k < |src| then FirstStop(WordAt(src, "\n"), k + 5, |src|, j) else j == |src|
  }

  /** What begins at i ends before j. An unclosed block comment leaves the last byte. */
  ghost predicate Ends(src: seq<byte>, i: nat, o: Opener, j: nat)
  {
    match o
    case LineComment => FirstStop(WordAt(src, "\n"), i, |src|, j)
    case BlockComment => exists k :: BlockEnds(src, i, k, j)
    case NestedComment => j == NestedEnd(src, i + 2, 1)
    case TripleQuoted(quotes) => exists k :: TripleEnds(src, i, quotes, k, j)
    case RubyComment => exists k :: RubyEnds(src, i, k, j)
    case Quoted(_, _, _) => exists k :: QuoteEnds(src, i, o, k, j)
  }

  // ----- a text in segments ----------------------------------------------------------------------

  ghost predicate CommentAt(lang: Lang, src: seq<byte>, i: nat, j: nat)
  {
    exists o :: Begins(lang, src, i, o) && IsBlanked(lang, o) && Ends(src, i, o, j)
  }

  ghost predicate LiteralAt(lang: Lang, src: seq<byte>, i: nat, j: nat)
  {
    exists o :: Begins(lang, src, i, o) && !IsBlanked(lang, o) && Ends(src, i, o, j)
  }

  /** A byte with which nothing begins. */
  ghost predicate PlainAt(lang: Lang, src: seq<byte>, i: nat, j: nat)
  {
    j == i + 1 && forall o :: !Begins(lang, src, i, o)
  }

  ghost predicate Segment(lang: Lang, src: seq<byte>, i: nat, j: nat)
  {
    i < j <= |src| && (CommentAt(lang, src, i, j) || LiteralAt(lang, src, i, j) || PlainAt(lang, src, i, j))
  }

  /** The cuts divide the text into comments, literals and plain bytes. */
  ghost predicate Segmentation(lang: Lang, src: seq<byte>, cuts: seq<nat>)
  {
    && |cuts| > 0 && cuts[0] == 0 && cuts[|cuts|-1] == |src|
    && forall k :: 0 <= k < |cuts| - 1 ==> Segment(lang, src, cuts[k], cuts[k+1])
  }

  // ----- the words as bytes ------------------------------------------------------------------------

  lemma OneByte(src: seq<byte>, i: nat, word: string)
    requires |word| == 1
    ensures Here(src, i, word) <==> i < |src| && src[i] == word[0] as int
  {
  }

  lemma TwoBytes(src: seq<byte>, i: nat, word: string)
    requires |word| == 2
    ensures Here(src, i, word) <==> i + 1 < |src| && src[i] == word[0] as int && src[i+1] == word[1] as int
  {
    if i + 1 < |src| && src[i] == word[0] as int && src[i+1] == word[1] as int {
      forall k | 0 <= k < |word| ensures src[i+k] == word[k] as int { assert k == 0 || k == 1; }
    }
  }

  lemma ThreeBytes(src: seq<byte>, i: nat, word: string)
    requires |word| == 3
    ensures Here(src, i, word) <==>
            i + 2 < |src| && src[i] == word[0] as int && src[i+1] == word[1] as int && src[i+2] == word[2] as int
  {
    if i + 2 < |src| && src[i] == word[0] as int && src[i+1] == word[1] as int && src[i+2] == word[2] as int {
      forall k | 0 <= k < |word| ensures src[i+k] == word[k] as int { assert k == 0 || k == 1 || k == 2; }
    }
  }

  /** A word given by its bytes. */
  lemma Spelled(src: seq<byte>, i: nat, word: string, bytes: seq<byte>)
    requires |bytes| == |word| && forall k :: 0 <= k < |word| ==> bytes[k] == word[k] as int
    ensures Here(src, i, word) <==> StartsWith(src, i, bytes)
  {
    if Here(src, i, word) { assert src[i..i + |bytes|] == bytes; }
    if StartsWith(src, i, bytes) {
      forall k | 0 <= k < |word| ensures src[i+k] == word[k] as int { assert src[i..i + |bytes|][k] == bytes[k]; }
    }
  }

  lemma Bytes(src: seq<byte>, i: nat)
    ensures Here(src, i, "\n") <==> i < |src| && src[i] == NL
    ensures Here(src, i, "#") <==> i < |src| && src[i] == HASH
    ensures Here(src, i, "\"") <==> i < |src| && src[i] == DQUOTE
    ensures Here(src, i, "'") <==> i < |src| && src[i] == QUOTE
    ensures Here(src, i, "`") <==> i < |src| && src[i] == BACKTICK
    ensures Here(src, i, "\\") <==> i < |src| && src[i] == BACKSLASH
  {
    OneByte(src, i, "\n");
    OneByte(src, i, "#");
    OneByte(src, i, "\"");
    OneByte(src, i, "'");
    OneByte(src, i, "`");
    OneByte(src, i, "\\");
  }

  lemma Words(src: seq<byte>, i: nat)
    ensures Here(src, i, "//") <==> i + 1 < |src| && src[i] == SLASH && src[i+1] == SLASH
    ensures Here(src, i, "/*") <==> i + 1 < |src| && src[i] == SLASH && src[i+1] == STAR
    ensures Here(src, i, "*/") <==> i + 1 < |src| && src[i] == STAR && src[i+1] == SLASH
    ensures Here(src, i, "\"\"\"") <==> i + 2 < |src| && src[i] == DQUOTE && src[i+1] == DQUOTE && src[i+2] == DQUOTE
    ensures Here(src, i, "'''") <==> i + 2 < |src| && src[i] == QUOTE && src[i+1] == QUOTE && src[i+2] == QUOTE
  {
    TwoBytes(src, i, "//");
    TwoBytes(src, i, "/*");
    TwoBytes(src, i, "*/");
    ThreeBytes(src, i, "\"\"\"");
    ThreeBytes(src, i, "'''");
  }

  lemma RubyWords(src: seq<byte>, i: nat)
    ensures Here(src, i, "=begin") <==> StartsWith(src, i, BEGIN)
    ensures Here(src, i, "\n=end") <==> i < |src| && src[i] == NL && StartsWith(src, i + 1, END)
  {
    Spelled(src, i, "=begin", BEGIN);
    Spelled(src, i, "\n=end", [NL] + END);
    if i < |src| && src[i] == NL && StartsWith(src, i + 1, END) { assert src[i..i + 5] == [NL] + END; }
    if StartsWith(src, i, [NL] + END) {
      assert src[i] == src[i..i + 5][0];
      assert src[i + 1..i + 5] == src[i..i + 5][1..] == END;
    }
  }

  // ----- what begins is what the state machine opens ----------------------------------------------

  /** The byte of a quote of one or three characters. */
  function QuoteByte(quotes: string): byte
  {
    if quotes == "" then 0 else if quotes[0] == '"' then DQUOTE else if quotes[0] == '\'' then QUOTE else BACKTICK
  }

  function Opened(lang: Lang, o: Opener): State
  {
    match o
    case LineComment => Line
    case BlockComment => Skip(1, true, Block(1))
    case NestedComment => Skip(1, true, Block(1))
    case TripleQuoted(quotes) => Skip(2, true, Triple(QuoteByte(quotes)))
    case RubyComment => Skip(5, true, RubyBlock)
    case Quoted(quote, escapes, oneLine) => Text(QuoteByte(quote), escapes, oneLine, lang.Rust?)
  }

  /** The opener that begins at i, if one does. */
  lemma BeginsOpens(lang: Lang, src: seq<byte>, i: nat, o: Opener)
    requires i < |src| && Begins(lang, src, i, o)
    ensures Opens(lang, src, i) == Opened(lang, o)
  {
    hide Here;
    Bytes(src, i);
    Words(src, i);
    RubyWords(src, i);
    if i > 0 { Bytes(src, i - 1); }
    hide StartsWith;
  }

  lemma NothingBegins(lang: Lang, src: seq<byte>, i: nat)
    requires i < |src| && forall o :: !Begins(lang, src, i, o)
    ensures Opens(lang, src, i) == Code
  {
    hide Here, StartsWith;
    Bytes(src, i);
    Words(src, i);
    RubyWords(src, i);
    if i > 0 { Bytes(src, i - 1); }
    assert !Begins(lang, src, i, LineComment) && !Begins(lang, src, i, BlockComment) && !Begins(lang, src, i, NestedComment);
    assert !Begins(lang, src, i, TripleQuoted("\"\"\"")) && !Begins(lang, src, i, TripleQuoted("'''")) && !Begins(lang, src, i, RubyComment);
    assert !Begins(lang, src, i, Quoted("\"", true, true)) && !Begins(lang, src, i, Quoted("'", true, true));
    assert !Begins(lang, src, i, Quoted("`", true, false)) && !Begins(lang, src, i, Quoted("`", false, false));
    assert !Begins(lang, src, i, Quoted("\"", true, false));
  }

  // ----- everything that begins ends -------------------------------------------------------------

  lemma {:induction false} FirstStopIs(stop: nat -> bool, from: nat, n: nat) returns (k: nat)
    requires from <= n
    ensures FirstStop(stop, from, n, k)
    decreases n - from
  {
    if from == n || stop(from) {
      k := from;
    } else {
      k := FirstStopIs(stop, from + 1, n);
    }
  }

  lemma BeginsInside(lang: Lang, src: seq<byte>, i: nat, o: Opener)
    requires Begins(lang, src, i, o)
    ensures i < |src|
    ensures o.BlockComment? || o.NestedComment? ==> i + 2 <= |src|
    ensures o.TripleQuoted? ==> i + 3 <= |src|
    ensures o.RubyComment? ==> i + 6 <= |src|
  {
  }

  lemma EndIs(lang: Lang, src: seq<byte>, i: nat, o: Opener) returns (j: nat)
    requires Begins(lang, src, i, o)
    ensures Ends(src, i, o, j)
  {
    BeginsInside(lang, src, i, o);
    hide Begins, Here;
    match o
    case LineComment =>
      j := FirstStopIs(WordAt(src, "\n"), i, |src|);
    case BlockComment =>
      var k := FirstStopIs(WordAt(src, "*/"), i + 2, |src|);
      j := if k < |src| then k + 2 else if i + 2 < |src| then |src| - 1 else |src|;
      assert BlockEnds(src, i, k, j);
    case NestedComment =>
      j := NestedEnd(src, i + 2, 1);
    case TripleQuoted(quotes) =>
      var k := FirstStopIs(ClosesTriple(src, i, quotes), i + 3, |src|);
      j := if k < |src| then k + 3 else |src|;
      assert TripleEnds(src, i, quotes, k, j);
    case RubyComment =>
      var k := FirstStopIs(WordAt(src, "\n=end"), i + 6, |src|);
      if k < |src| {
        FiveBytes(src, k);
        j := FirstStopIs(WordAt(src, "\n"), k + 5, |src|);
      } else {
        j := |src|;
      }
      assert RubyEnds(src, i, k, j);
    case Quoted(quote, _, _) =>
      var k := FirstStopIs(ClosesQuote(src, i, o), i + 1, |src|);
      j := if Here(src, k, quote) then k + 1 else k;
      assert QuoteEnds(src, i, o, k, j);
  }

  lemma FiveBytes(src: seq<byte>, k: nat)
    requires Here(src, k, "\n=end")
    ensures k + 5 <= |src|
  {
  }

  // ----- reading one segment ---------------------------------------------------------------------

  lemma {:induction false} RestOfLine(lang: Lang, src: seq<byte>, i: nat, from: nat, m: nat, j: nat)
    requires Scanning(lang, src, i, from, Line, true) && FirstStop(WordAt(src, "\n"), from, |src|, j) && from <= m <= j
    ensures Scanning(lang, src, i, m, Line, true)
    decreases m
  {
    hide Here;
    if m > from {
      RestOfLine(lang, src, i, from, m - 1, j);
      Bytes(src, m - 1);
      assert !WordAt(src, "\n")(m - 1);
      Scan(lang, src, i, m - 1, Line, true);
    }
  }

  lemma LineToken(lang: Lang, src: seq<byte>, i: nat, j: nat)
    requires i < |src| && src[i] != NL && Between(lang, src, i) && Opens(lang, src, i) == Line
    requires FirstStop(WordAt(src, "\n"), i, |src|, j)
    ensures Token(lang, src, i, j, true)
  {
    Bytes(src, i);
    assert i != j;
    Open(lang, src, i);
    RestOfLine(lang, src, i, i + 1, j, j);
    if j < |src| { Bytes(src, j); assert WordAt(src, "\n")(j); }
    hide Opens, StateAt;
  }

  lemma {:induction false} BlockRead(lang: Lang, src: seq<byte>, i: nat, k: nat, close: nat)
    requires !lang.Rust? && i + 2 <= |src| && Between(lang, src, i) && Opens(lang, src, i) == Skip(1, true, Block(1))
    requires FirstStop(WordAt(src, "*/"), i + 2, |src|, close) && i + 2 <= k <= close && (k == i + 2 || k < |src|)
    ensures Scanning(lang, src, i, k, Block(1), true)
    decreases k
  {
    hide Opens, Between, Here;
    if k == i + 2 {
      Open(lang, src, i);
      SkipAhead(lang, src, i, i + 1, 1, true, Block(1));
    } else {
      BlockRead(lang, src, i, k - 1, close);
      Words(src, k - 1);
      assert !WordAt(src, "*/")(k - 1);
      Scan(lang, src, i, k - 1, Block(1), true);
    }
  }

  lemma BlockToken(lang: Lang, src: seq<byte>, i: nat, k: nat, j: nat)
    requires !lang.Rust? && i + 2 <= |src| && Between(lang, src, i) && Opens(lang, src, i) == Skip(1, true, Block(1))
    requires BlockEnds(src, i, k, j)
    ensures Token(lang, src, i, j, true)
  {
    hide Opens, Here, StateAt;
    if k < |src| {
      BlockRead(lang, src, i, k, k);
      Words(src, k);
      assert WordAt(src, "*/")(k);
      Scan(lang, src, i, k, Block(1), true);
      SkipAhead(lang, src, i, k + 1, 1, true, Code);
    } else {
      BlockRead(lang, src, i, if i + 2 < |src| then |src| - 1 else |src|, k);
    }
  }

  lemma {:induction false} NestedRead(src: seq<byte>, i: nat, p: nat, depth: nat)
    requires Scanning(Rust, src, i, p, if depth > 0 then Block(depth) else Code, true)
    ensures Token(Rust, src, i, NestedEnd(src, p, depth), true)
    decreases |src| - p
  {
    hide Here, StateAt;
    if depth > 0 && p + 1 < |src| {
      Words(src, p);
      Scan(Rust, src, i, p, Block(depth), true);
      if Here(src, p, "/*") {
        SkipAhead(Rust, src, i, p + 1, 1, true, Block(depth + 1));
        NestedRead(src, i, p + 2, depth + 1);
      } else if Here(src, p, "*/") {
        SkipAhead(Rust, src, i, p + 1, 1, true, if depth > 1 then Block(depth - 1) else Code);
        NestedRead(src, i, p + 2, depth - 1);
      } else {
        NestedRead(src, i, p + 1, depth);
      }
    }
  }

  lemma NestedToken(src: seq<byte>, i: nat)
    requires i + 2 <= |src| && Between(Rust, src, i) && Opens(Rust, src, i) == Skip(1, true, Block(1))
    ensures Token(Rust, src, i, NestedEnd(src, i + 2, 1), true)
  {
    hide Opens, Between;
    Open(Rust, src, i);
    SkipAhead(Rust, src, i, i + 1, 1, true, Block(1));
    NestedRead(src, i, i + 2, 1);
  }

  /** The state before byte m of a literal that reads in state s. */
  ghost predicate InLiteral(lang: Lang, src: seq<byte>, i: nat, base: nat, m: nat, s: State, escapes: bool, blank: bool)
  {
    && i < m <= |src| && AllBlanked(lang, src, i, m, blank)
    && (m < |src| ==> StateAt(lang, src, m) == if escapes && Escaped(src, base, m) then Skip(1, blank, s) else s)
  }

  lemma LiteralStep(lang: Lang, src: seq<byte>, i: nat, base: nat, m: nat, s: State, escapes: bool, blank: bool)
    requires i <= base < m < |src| && InLiteral(lang, src, i, base, m, s, escapes, blank) && Region(s) == blank
    requires (s.Text? && s.escapes == escapes && s.blank == blank) || (s.Triple? && escapes)
    requires !(escapes && Escaped(src, base, m)) ==>
               Resume(src, m, s) == s && ((escapes && Here(src, m, "\\")) || StepFrom(lang, src, m, s) == s)
    ensures InLiteral(lang, src, i, base, m + 1, s, escapes, blank)
  {
    Bytes(src, m);
    Next(lang, src, m);
    hide Opens, Here, StateAt;
  }

  /** A string literal up to where it closes. */
  lemma {:induction false} TextRead(lang: Lang, src: seq<byte>, i: nat, o: Opener, m: nat, k: nat)
    requires o.Quoted? && i < |src| && Between(lang, src, i) && Opens(lang, src, i) == Opened(lang, o)
    requires |o.quote| == 1 && (Here(src, i, o.quote)) && QuoteByte(o.quote) == o.quote[0] as int
    requires FirstStop(ClosesQuote(src, i, o), i + 1, |src|, k) && i < m <= k
    ensures InLiteral(lang, src, i, i, m, Opened(lang, o), o.escapes, lang.Rust?)
    decreases m
  {
    hide Opens, Between, Here;
    if m == i + 1 {
      Open(lang, src, i);
    } else {
      TextRead(lang, src, i, o, m - 1, k);
      Bytes(src, m - 1);
      OneByte(src, m - 1, o.quote);
      assert !ClosesQuote(src, i, o)(m - 1);
      LiteralStep(lang, src, i, i, m - 1, Opened(lang, o), o.escapes, lang.Rust?);
    }
  }

  lemma TextToken(lang: Lang, src: seq<byte>, i: nat, o: Opener, k: nat, j: nat)
    requires o.Quoted? && i < |src| && Between(lang, src, i) && Opens(lang, src, i) == Opened(lang, o)
    requires |o.quote| == 1 && (Here(src, i, o.quote)) && QuoteByte(o.quote) == o.quote[0] as int != 10
    requires QuoteEnds(src, i, o, k, j)
    ensures Token(lang, src, i, j, lang.Rust?)
  {
    hide Opens, Here, StateAt;
    TextRead(lang, src, i, o, k, k);
    if k < |src| {
      assert ClosesQuote(src, i, o)(k);
      Bytes(src, k);
      OneByte(src, k, o.quote);
      Next(lang, src, k);
    } else {
      OneByte(src, k, o.quote);
    }
  }

  lemma {:induction false} TripleRead(src: seq<byte>, i: nat, quotes: string, m: nat, k: nat)
    requires i + 3 <= |src| && Between(Python, src, i) && Opens(Python, src, i) == Skip(2, true, Triple(QuoteByte(quotes)))
    requires quotes in {"\"\"\"", "'''"} && FirstStop(ClosesTriple(src, i, quotes), i + 3, |src|, k) && i + 3 <= m <= k
    ensures InLiteral(Python, src, i, i + 2, m, Triple(QuoteByte(quotes)), true, true)
    decreases m
  {
    hide Opens, Between, Here;
    if m == i + 3 {
      Open(Python, src, i);
      SkipAhead(Python, src, i, i + 1, 2, true, Triple(QuoteByte(quotes)));
    } else {
      TripleRead(src, i, quotes, m - 1, k);
      Bytes(src, m - 1);
      Words(src, m - 1);
      assert !ClosesTriple(src, i, quotes)(m - 1);
      LiteralStep(Python, src, i, i + 2, m - 1, Triple(QuoteByte(quotes)), true, true);
    }
  }

  lemma TripleToken(src: seq<byte>, i: nat, quotes: string, k: nat, j: nat)
    requires i + 3 <= |src| && Between(Python, src, i) && Opens(Python, src, i) == Skip(2, true, Triple(QuoteByte(quotes)))
    requires quotes in {"\"\"\"", "'''"} && TripleEnds(src, i, quotes, k, j)
    ensures Token(Python, src, i, j, true)
  {
    hide Opens, Here, StateAt;
    TripleRead(src, i, quotes, k, k);
    if k < |src| {
      assert ClosesTriple(src, i, quotes)(k);
      Words(src, k);
      Scan(Python, src, i, k, Triple(QuoteByte(quotes)), true);
      SkipAhead(Python, src, i, k + 1, 2, true, Code);
    }
  }

  lemma {:induction false} RubyRead(src: seq<byte>, i: nat, m: nat, k: nat)
    requires i + 6 <= |src| && Between(Ruby, src, i) && Opens(Ruby, src, i) == Skip(5, true, RubyBlock)
    requires FirstStop(WordAt(src, "\n=end"), i + 6, |src|, k) && i + 6 <= m <= k
    ensures Scanning(Ruby, src, i, m, RubyBlock, true)
    decreases m
  {
    hide Opens, Between, Here, StartsWith;
    if m == i + 6 {
      Open(Ruby, src, i);
      SkipAhead(Ruby, src, i, i + 1, 5, true, RubyBlock);
    } else {
      RubyRead(src, i, m - 1, k);
      RubyWords(src, m - 1);
      assert !WordAt(src, "\n=end")(m - 1);
      Scan(Ruby, src, i, m - 1, RubyBlock, true);
    }
  }

  lemma RubyToken(src: seq<byte>, i: nat, k: nat, j: nat)
    requires i + 6 <= |src| && Between(Ruby, src, i) && Opens(Ruby, src, i) == Skip(5, true, RubyBlock)
    requires RubyEnds(src, i, k, j)
    ensures Token(Ruby, src, i, j, true)
  {
    hide Opens, Here, StateAt, StartsWith;
    RubyRead(src, i, k, k);
    if k < |src| {
      assert WordAt(src, "\n=end")(k);
      RubyWords(src, k);
      FiveBytes(src, k);
      Scan(Ruby, src, i, k, RubyBlock, true);
      SkipAhead(Ruby, src, i, k + 1, 4, true, Line);
      RestOfLine(Ruby, src, i, k + 5, j, j);
      Bytes(src, j);
      if j < |src| { assert WordAt(src, "\n")(j); }
    }
  }

  // ----- the theorems ------------------------------------------------------------------------------

  lemma OpenerToken(lang: Lang, src: seq<byte>, i: nat, o: Opener, j: nat)
    requires Between(lang, src, i) && Begins(lang, src, i, o) && Ends(src, i, o, j)
    ensures Token(lang, src, i, j, IsBlanked(lang, o))
  {
    BeginsInside(lang, src, i, o);
    BeginsOpens(lang, src, i, o);
    OpenerFits(lang, src, i, o);
    hide Begins, Opens, Between, Here, Token, FirstStop;
    match o
    case LineComment =>
      LineToken(lang, src, i, j);
    case BlockComment =>
      var k :| BlockEnds(src, i, k, j);
      BlockToken(lang, src, i, k, j);
    case NestedComment =>
      NestedToken(src, i);
    case TripleQuoted(quotes) =>
      var k :| TripleEnds(src, i, quotes, k, j);
      TripleToken(src, i, quotes, k, j);
    case RubyComment =>
      var k :| RubyEnds(src, i, k, j);
      RubyToken(src, i, k, j);
    case Quoted(_, _, _) =>
      var k :| QuoteEnds(src, i, o, k, j);
      TextToken(lang, src, i, o, k, j);
  }

  lemma OpenerFits(lang: Lang, src: seq<byte>, i: nat, o: Opener)
    requires i < |src| && Begins(lang, src, i, o)
    ensures o.LineComment? ==> src[i] != NL
    ensures o.BlockComment? ==> !lang.Rust?
    ensures o.NestedComment? ==> lang.Rust?
    ensures o.TripleQuoted? ==> lang.Python? && o.quotes in {"\"\"\"", "'''"}
    ensures o.RubyComment? ==> lang.Ruby?
    ensures o.Quoted? ==> |o.quote| == 1 && Here(src, i, o.quote) && QuoteByte(o.quote) == o.quote[0] as int != 10
  {
    hide Here;
    Bytes(src, i);
    Words(src, i);
  }

  lemma SegmentToken(lang: Lang, src: seq<byte>, i: nat, j: nat)
    requires Between(lang, src, i) && Segment(lang, src, i, j)
    ensures Token(lang, src, i, j, CommentAt(lang, src, i, j))
  {
    if CommentAt(lang, src, i, j) {
      var o :| Begins(lang, src, i, o) && IsBlanked(lang, o) && Ends(src, i, o, j);
      OpenerToken(lang, src, i, o, j);
    } else if LiteralAt(lang, src, i, j) {
      var o :| Begins(lang, src, i, o) && !IsBlanked(lang, o) && Ends(src, i, o, j);
      OpenerToken(lang, src, i, o, j);
    } else {
      hide Begins;
      NothingBegins(lang, src, i);
      Open(lang, src, i);
      hide Opens;
    }
  }

  lemma {:induction false} CutsAreBetween(lang: Lang, src: seq<byte>, cuts: seq<nat>, k: nat)
    requires Segmentation(lang, src, cuts) && k < |cuts|
    ensures Between(lang, src, cuts[k])
  {
    if k > 0 {
      CutsAreBetween(lang, src, cuts, k - 1);
      assert Segment(lang, src, cuts[k-1], cuts[k-1+1]);
      hide Segment, Between, AllBlanked;
      SegmentToken(lang, src, cuts[k-1], cuts[k]);
    }
  }

  /** However a text is divided into comments, literals and plain bytes, stripping turns the
      bytes of its comments into spaces, newlines apart, and keeps everything else. */
  lemma CommentsAreBlanked(lang: Lang, src: seq<byte>, cuts: seq<nat>, k: nat, i: nat)
    requires Segmentation(lang, src, cuts) && k < |cuts| - 1 && cuts[k] <= i < cuts[k+1] && i < |src|
    ensures Stripped(lang, src)[i]
         == if CommentAt(lang, src, cuts[k], cuts[k+1]) && !Here(src, i, "\n") then ' ' as int else src[i]
  {
    CutsAreBetween(lang, src, cuts, k);
    assert Segment(lang, src, cuts[k], cuts[k+1]);
    hide Segment, Segmentation, CommentAt, Between, Here;
    SegmentToken(lang, src, cuts[k], cuts[k+1]);
    Bytes(src, i);
  }

  lemma SegmentIs(lang: Lang, src: seq<byte>, i: nat) returns (j: nat)
    requires i < |src| && Between(lang, src, i)
    ensures Segment(lang, src, i, j) && Between(lang, src, j)
  {
    hide Begins, Ends, Between;
    if o :| Begins(lang, src, i, o) {
      j := EndIs(lang, src, i, o);
      OpenerToken(lang, src, i, o, j);
    } else {
      j := i + 1;
      assert PlainAt(lang, src, i, j);
      SegmentToken(lang, src, i, j);
    }
  }

  /** Every text can be divided so. */
  lemma EveryTextIsSegmented(lang: Lang, src: seq<byte>) returns (cuts: seq<nat>)
    ensures Segmentation(lang, src, cuts)
  {
    cuts := [0];
    hide Segment;
    while cuts[|cuts|-1] < |src|
      invariant |cuts| > 0 && cuts[0] == 0 && cuts[|cuts|-1] <= |src| && Between(lang, src, cuts[|cuts|-1])
      invariant forall k :: 0 <= k < |cuts| - 1 ==> Segment(lang, src, cuts[k], cuts[k+1])
      decreases |src| - cuts[|cuts|-1]
    {
      var j := SegmentIs(lang, src, cuts[|cuts|-1]);
      SegmentMoves(lang, src, cuts[|cuts|-1], j);
      cuts := cuts + [j];
    }
  }

  lemma SegmentMoves(lang: Lang, src: seq<byte>, i: nat, j: nat)
    requires Segment(lang, src, i, j)
    ensures i < j <= |src|
  {
  }

  /** Where a segment begins the text is stripped afresh: what stands before does not
      matter, but for a Ruby text, where it must end its line. */
  lemma StripsAfresh(lang: Lang, a: seq<byte>, b: seq<byte>, cuts: seq<nat>)
    requires Segmentation(lang, a + b, cuts) && |a| in cuts && (lang.Ruby? && a != [] ==> Here(a, |a| - 1, "\n"))
    ensures Stripped(lang, a + b)[|a|..] == Stripped(lang, b)
  {
    var k :| 0 <= k < |cuts| && cuts[k] == |a|;
    CutsAreBetween(lang, a + b, cuts, k);
    if a != [] { Bytes(a, |a| - 1); }
    hide *;
    forall i | 0 <= i < |b| ensures Blanked(lang, a + b, |a| + i) == Blanked(lang, b, i) { ModesAgree(lang, a, b, i); }
    StrippedFrom(lang, a, b);
  }

  lemma StrippedFrom(lang: Lang, a: seq<byte>, b: seq<byte>)
    requires forall i :: 0 <= i < |b| ==> Blanked(lang, a + b, |a| + i) == Blanked(lang, b, i)
    ensures Stripped(lang, a + b)[|a|..] == Stripped(lang, b)
  {
    hide Blanked;
    forall i | 0 <= i < |b| ensures Stripped(lang, a + b)[|a| + i] == Stripped(lang, b)[i] {
      assert (a + b)[|a| + i] == b[i];
    }
  }

  lemma {:induction false} ModesAgree(lang: Lang, a: seq<byte>, b: seq<byte>, i: nat)
    requires Between(lang, a + b, |a|) && (lang.Ruby? && a != [] ==> a[|a|-1] == NL) && i < |b|
    ensures Mode(lang, a + b, |a| + i) == Mode(lang, b, i) && Blanked(lang, a + b, |a| + i) == Blanked(lang, b, i)
  {
    hide Opens, StepFrom, Blanked, StateAt;
    assert (a + b)[|a| + i] == b[i];
    if i > 0 {
      ModesAgree(lang, a, b, i - 1);
      StepsAgree(lang, a, b, i - 1, Mode(lang, b, i - 1));
      Next(lang, a + b, |a| + (i - 1));
      Next(lang, b, i - 1);
    } else {
      StartsInCode(lang, b);
    }
    OpensAgree(lang, a, b, i);
    Next(lang, a + b, |a| + i);
    Next(lang, b, i);
  }

  lemma StartsInCode(lang: Lang, b: seq<byte>)
    requires |b| > 0
    ensures Mode(lang, b, 0) == Code
  {
  }

  lemma OpensAgree(lang: Lang, a: seq<byte>, b: seq<byte>, i: nat)
    requires (lang.Ruby? && a != [] ==> a[|a|-1] == NL) && i < |b|
    ensures Opens(lang, a + b, |a| + i) == Opens(lang, b, i)
  {
    WordsAgree(a, b, i, BEGIN);
    hide StartsWith;
  }

  lemma WordsAgree(a: seq<byte>, b: seq<byte>, i: nat, word: seq<byte>)
    ensures StartsWith(a + b, |a| + i, word) <==> StartsWith(b, i, word)
  {
    if i + |word| <= |b| { assert (a + b)[|a| + i..|a| + i + |word|] == b[i..i + |word|]; }
  }

  lemma StepsAgree(lang: Lang, a: seq<byte>, b: seq<byte>, i: nat, s: State)
    requires (lang.Ruby? && a != [] ==> a[|a|-1] == NL) && i < |b|
    ensures StepFrom(lang, a + b, |a| + i, s) == StepFrom(lang, b, i, s)
  {
    OpensAgree(lang, a, b, i);
    WordsAgree(a, b, i + 1, END);
    hide StartsWith, Opens;
  }
}
