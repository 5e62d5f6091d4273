/** The comment blankers: for each language a hand-written scanner that walks the bytes
    with an index and overwrites a copy in place. Each is proved equal to the lexical
    state machine. */
module StripComments {
  import opened Lexer
  import opened Utf8

  /** The blanked text, or the text itself when blanking broke a character. */
  function StripSpec(lang: Lang, src: seq<byte>): seq<byte>
  {
    if Valid(Stripped(lang, src)) then Stripped(lang, src) else src
  }

  // ----- what a scan over one token establishes ----------------------------------------

  /** At i the scanner is between tokens. */
  ghost predicate Between(lang: Lang, src: seq<byte>, i: nat)
  {
    i <= |src| && (i < |src| ==> Mode(lang, src, i).Code?)
  }

  ghost predicate AllBlanked(lang: Lang, src: seq<byte>, from: nat, to: nat, blank: bool)
  {
    from <= to <= |src| && forall j :: from <= j < to ==> Blanked(lang, src, j) == blank
  }

  /** [start, end) is one token, blanked or not as a whole. */
  ghost predicate Token(lang: Lang, src: seq<byte>, start: nat, end: nat, blank: bool)
  {
    start < end && AllBlanked(lang, src, start, end, blank) && Between(lang, src, end)
  }

  /** Positions before i are final, positions from i on are still the source. */
  ghost predicate Written(lang: Lang, src: seq<byte>, out: seq<byte>, i: nat)
  {
    && |out| == |src| && i <= |src|
    && (forall j :: 0 <= j < i ==> out[j] == Stripped(lang, src)[j])
    && (forall j :: i <= j < |src| ==> out[j] == src[j])
  }

  /** Inside a token: the state before byte i, with everything since `start` alike. */
  ghost predicate Scanning(lang: Lang, src: seq<byte>, start: nat, i: nat, s: State, blank: bool)
  {
    start < i <= |src| && StateAt(lang, src, i) == s && AllBlanked(lang, src, start, i, blank)
  }

  lemma Scan(lang: Lang, src: seq<byte>, start: nat, i: nat, s: State, blank: bool)
    requires i < |src| && Scanning(lang, src, start, i, s, blank)
    requires BlankFrom(lang, src, i, Resume(src, i, s)) == blank
    ensures Scanning(lang, src, start, i + 1, StepFrom(lang, src, i, Resume(src, i, s)), blank)
  {
    Next(lang, src, i);
  }

  lemma Open(lang: Lang, src: seq<byte>, i: nat)
    requires i < |src| && Between(lang, src, i)
    ensures Scanning(lang, src, i, i + 1, Opens(lang, src, i), Region(Opens(lang, src, i)))
  {
    Next(lang, src, i);
  }

  lemma {:induction false} SkipAhead(lang: Lang, src: seq<byte>, start: nat, i: nat, k: nat, blank: bool, next: State)
    requires 0 < k && i + k <= |src| && Scanning(lang, src, start, i, Skip(k, blank, next), blank)
    ensures Scanning(lang, src, start, i + k, next, blank)
    decreases k
  {
    Scan(lang, src, start, i, Skip(k, blank, next), blank);
    if k > 1 { SkipAhead(lang, src, start, i + 1, k - 1, blank, next); }
  }

  // ----- the inner loops ---------------------------------------------------------------

  method BlankRange(out: array<byte>, start: nat, end: nat, src: seq<byte>, ghost lang: Lang)
    requires out.Length == |src| && Written(lang, src, out[..], start) && AllBlanked(lang, src, start, end, true)
    modifies out
    ensures Written(lang, src, out[..], end)
  {
    for i := start to end
      invariant Written(lang, src, out[..], i)
    {
      out[i] := if src[i] == NL then NL else SPACE;
    }
  }

  /** To the end of a line comment. */
  method LineEnd(src: seq<byte>, start: nat, ghost lang: Lang) returns (i: nat)
    requires start < |src| && Between(lang, src, start) && src[start] != NL && Opens(lang, src, start) == Line
    ensures Token(lang, src, start, i, true)
  {
    i := start;
    Open(lang, src, start);
    while i < |src| && src[i] != NL
      invariant start <= i <= |src|
      invariant i > start ==> Scanning(lang, src, start, i, Line, true)
    {
      if i > start { Scan(lang, src, start, i, Line, true); }
      i := i + 1;
    }
  }

  /** Past a block comment, or up to the last byte when it is not terminated. */
  method BlockEnd(src: seq<byte>, start: nat, ghost lang: Lang) returns (i: nat)
    requires start + 1 < |src| && Between(lang, src, start)
    requires !lang.Rust? && Opens(lang, src, start) == Skip(1, true, Block(1))
    ensures Token(lang, src, start, i, true)
  {
    Open(lang, src, start);
    SkipAhead(lang, src, start, start + 1, 1, true, Block(1));
    i := start + 2;
    while i + 1 < |src|
      invariant Scanning(lang, src, start, i, Block(1), true)
    {
      Scan(lang, src, start, i, Block(1), true);
      if src[i] == STAR && src[i+1] == SLASH {
        SkipAhead(lang, src, start, i + 1, 1, true, Code);
        i := i + 2;
        return;
      }
      i := i + 1;
    }
  }

  /** Past a block comment that nests. */
  method NestedBlockEnd(src: seq<byte>, start: nat) returns (i: nat)
    requires start + 1 < |src| && Between(Rust, src, start) && Opens(Rust, src, start) == Skip(1, true, Block(1))
    ensures Token(Rust, src, start, i, true)
  {
    Open(Rust, src, start);
    SkipAhead(Rust, src, start, start + 1, 1, true, Block(1));
    i := start + 2;
    var depth := 1;
    while i + 1 < |src| && depth > 0
      invariant Scanning(Rust, src, start, i, if depth > 0 then Block(depth) else Code, true)
      decreases |src| - i
    {
      Scan(Rust, src, start, i, Block(depth), true);
      if src[i] == SLASH && src[i+1] == STAR {
        SkipAhead(Rust, src, start, i + 1, 1, true, Block(depth + 1));
        depth := depth + 1;
        i := i + 2;
      } else if src[i] == STAR && src[i+1] == SLASH {
        SkipAhead(Rust, src, start, i + 1, 1, true, if depth > 1 then Block(depth - 1) else Code);
        depth := depth - 1;
        i := i + 2;
      } else {
        i := i + 1;
      }
    }
  }

  /** Past a string literal: it ends at its quote, before a newline if it stops there, or
      at the end of the text. */
  method TextEnd(src: seq<byte>, start: nat, escapes: bool, stops: bool, ghost blank: bool, ghost lang: Lang) returns (i: nat)
    requires start < |src| && Between(lang, src, start) && src[start] != NL && src[start] != BACKSLASH
    requires Opens(lang, src, start) == Text(src[start], escapes, stops, blank)
    requires blank ==> !stops
    ensures Token(lang, src, start, i, blank)
  {
    var quote := src[start];
    ghost var s := Text(quote, escapes, stops, blank);
    Open(lang, src, start);
    i := start + 1;
    while i < |src|
      invariant Scanning(lang, src, start, i, s, blank)
      decreases |src| - i
    {
      if escapes && src[i] == BACKSLASH && i + 1 < |src| {
        Scan(lang, src, start, i, s, blank);
        SkipAhead(lang, src, start, i + 1, 1, blank, s);
        i := i + 2;
        continue;
      }
      if src[i] == quote {
        Scan(lang, src, start, i, s, blank);
        i := i + 1;
        break;
      }
      if stops && src[i] == NL {
        break;
      }
      Scan(lang, src, start, i, s, blank);
      i := i + 1;
    }
  }

  /** Past a triple-quoted string. */
  method TripleEnd(src: seq<byte>, start: nat) returns (i: nat)
    requires start + 2 < |src| && Between(Python, src, start)
    requires src[start] != BACKSLASH && Opens(Python, src, start) == Skip(2, true, Triple(src[start]))
    ensures Token(Python, src, start, i, true)
  {
    var quote := src[start];
    Open(Python, src, start);
    SkipAhead(Python, src, start, start + 1, 2, true, Triple(quote));
    i := start + 3;
    while i < |src|
      invariant Scanning(Python, src, start, i, Triple(quote), true)
      decreases |src| - i
    {
      Scan(Python, src, start, i, Triple(quote), true);
      if src[i] == BACKSLASH && i + 1 < |src| {
        SkipAhead(Python, src, start, i + 1, 1, true, Triple(quote));
        i := i + 2;
        continue;
      }
      if src[i] == quote && i + 2 < |src| && src[i+1] == quote && src[i+2] == quote {
        SkipAhead(Python, src, start, i + 1, 2, true, Code);
        i := i + 3;
        break;
      }
      i := i + 1;
    }
  }

  /** Past =begin ... =end and the rest of the closing line. */
  method RubyBlockEnd(src: seq<byte>, start: nat) returns (i: nat)
    requires start < |src| && Between(Ruby, src, start) && StartsWith(src, start, BEGIN)
    requires Opens(Ruby, src, start) == Skip(5, true, RubyBlock)
    ensures Token(Ruby, src, start, i, true)
  {
    hide StateAt;
    Open(Ruby, src, start);
    SkipAhead(Ruby, src, start, start + 1, 5, true, RubyBlock);
    i := start + 6;
    while i < |src|
      invariant Scanning(Ruby, src, start, i, RubyBlock, true)
    {
      Scan(Ruby, src, start, i, RubyBlock, true);
      if src[i] == NL {
        i := i + 1;
        if StartsWith(src, i, END) {
          SkipAhead(Ruby, src, start, i, 4, true, Line);
          i := i + 4;
          while i < |src| && src[i] != NL
            invariant Scanning(Ruby, src, start, i, Line, true)
          {
            Scan(Ruby, src, start, i, Line, true);
            i := i + 1;
          }
          break;
        }
      } else {
        i := i + 1;
      }
    }
  }

  // ----- the outer loops ---------------------------------------------------------------

  lemma Unblanked(lang: Lang, src: seq<byte>, out: seq<byte>, start: nat, end: nat)
    requires Written(lang, src, out, start) && Token(lang, src, start, end, false)
    ensures Written(lang, src, out, end)
  {
  }

  lemma PlainByte(lang: Lang, src: seq<byte>, i: nat)
    requires i < |src| && Between(lang, src, i) && Opens(lang, src, i) == Code
    ensures Token(lang, src, i, i + 1, false)
  {
    Open(lang, src, i);
  }

  method Copy(src: seq<byte>, ghost lang: Lang) returns (out: array<byte>)
    ensures fresh(out) && out.Length == |src| && Written(lang, src, out[..], 0)
  {
    out := new byte[|src|](i requires 0 <= i < |src| => src[i]);
  }

  method Finish(src: seq<byte>, out: array<byte>, ghost lang: Lang) returns (result: seq<byte>)
    requires out.Length == |src| && Written(lang, src, out[..], |src|)
    ensures result == StripSpec(lang, src)
  {
    assert out[..] == Stripped(lang, src);
    result := if Valid(out[..]) then out[..] else src;
  }

  method StripPython(src: seq<byte>) returns (result: seq<byte>)
    ensures result == StripSpec(Python, src)
  {
    var out := Copy(src, Python);
    var i := 0;
    while i < |src|
      invariant Between(Python, src, i) && Written(Python, src, out[..], i)
    {
      var c, c2, c3 := src[i], At(src, i + 1), At(src, i + 2);
      var start := i;
      if (c == DQUOTE || c == QUOTE) && c2 == c && c3 == c {
        i := TripleEnd(src, start);
        BlankRange(out, start, i, src, Python);
      } else if c == HASH {
        i := LineEnd(src, start, Python);
        BlankRange(out, start, i, src, Python);
      } else if c == DQUOTE || c == QUOTE {
        i := TextEnd(src, start, true, true, false, Python);
        Unblanked(Python, src, out[..], start, i);
      } else {
        PlainByte(Python, src, i);
        i := i + 1;
        Unblanked(Python, src, out[..], start, i);
      }
    }
    result := Finish(src, out, Python);
  }

  method StripRuby(src: seq<byte>) returns (result: seq<byte>)
    ensures result == StripSpec(Ruby, src)
  {
    var out := Copy(src, Ruby);
    var i := 0;
    while i < |src|
      invariant Between(Ruby, src, i) && Written(Ruby, src, out[..], i)
    {
      var c := src[i];
      var start := i;
      if c == EQUALS && (i == 0 || src[i-1] == NL) && StartsWith(src, i, BEGIN) {
        i := RubyBlockEnd(src, start);
        BlankRange(out, start, i, src, Ruby);
      } else if c == HASH {
        i := LineEnd(src, start, Ruby);
        BlankRange(out, start, i, src, Ruby);
      } else if c == QUOTE || c == DQUOTE {
        i := TextEnd(src, start, true, true, false, Ruby);
        Unblanked(Ruby, src, out[..], start, i);
      } else {
        PlainByte(Ruby, src, i);
        i := i + 1;
        Unblanked(Ruby, src, out[..], start, i);
      }
    }
    result := Finish(src, out, Ruby);
  }

  method StripCStyle(src: seq<byte>, allowSingleQuote: bool) returns (result: seq<byte>)
    ensures result == StripSpec(CStyle(allowSingleQuote), src)
  {
    ghost var lang := CStyle(allowSingleQuote);
    var out := Copy(src, lang);
    var i := 0;
    while i < |src|
      invariant Between(lang, src, i) && Written(lang, src, out[..], i)
    {
      var c, c2 := src[i], At(src, i + 1);
      var start := i;
      if c == SLASH && c2 == STAR {
        i := BlockEnd(src, start, lang);
        BlankRange(out, start, i, src, lang);
      } else if c == SLASH && c2 == SLASH {
        i := LineEnd(src, start, lang);
        BlankRange(out, start, i, src, lang);
      } else if c == BACKTICK {
        i := TextEnd(src, start, true, false, false, lang);
        Unblanked(lang, src, out[..], start, i);
      } else if c == DQUOTE {
        i := TextEnd(src, start, true, true, false, lang);
        Unblanked(lang, src, out[..], start, i);
      } else if allowSingleQuote && c == QUOTE {
        i := TextEnd(src, start, true, true, false, lang);
        Unblanked(lang, src, out[..], start, i);
      } else {
        PlainByte(lang, src, i);
        i := i + 1;
        Unblanked(lang, src, out[..], start, i);
      }
    }
    result := Finish(src, out, lang);
  }

  method StripGo(src: seq<byte>) returns (result: seq<byte>)
    ensures result == StripSpec(Go, src)
  {
    var out := Copy(src, Go);
    var i := 0;
    while i < |src|
      invariant Between(Go, src, i) && Written(Go, src, out[..], i)
    {
      var c, c2 := src[i], At(src, i + 1);
      var start := i;
      if c == SLASH && c2 == SLASH {
        i := LineEnd(src, start, Go);
        BlankRange(out, start, i, src, Go);
      } else if c == SLASH && c2 == STAR {
        i := BlockEnd(src, start, Go);
        BlankRange(out, start, i, src, Go);
      } else if c == BACKTICK {
        i := TextEnd(src, start, false, false, false, Go);
        Unblanked(Go, src, out[..], start, i);
      } else if c == DQUOTE {
        i := TextEnd(src, start, true, true, false, Go);
        Unblanked(Go, src, out[..], start, i);
      } else {
        PlainByte(Go, src, i);
        i := i + 1;
        Unblanked(Go, src, out[..], start, i);
      }
    }
    result := Finish(src, out, Go);
  }

  method StripRust(src: seq<byte>) returns (result: seq<byte>)
    ensures result == StripSpec(Rust, src)
  {
    var out := Copy(src, Rust);
    var i := 0;
    while i < |src|
      invariant Between(Rust, src, i) && Written(Rust, src, out[..], i)
    {
      var c, c2 := src[i], At(src, i + 1);
      var start := i;
      if c == SLASH && c2 == SLASH {
        i := LineEnd(src, start, Rust);
        BlankRange(out, start, i, src, Rust);
      } else if c == SLASH && c2 == STAR {
        i := NestedBlockEnd(src, start);
        BlankRange(out, start, i, src, Rust);
      } else if c == DQUOTE {
        i := TextEnd(src, start, true, false, true, Rust);
        BlankRange(out, start, i, src, Rust);
      } else {
        PlainByte(Rust, src, i);
        i := i + 1;
        Unblanked(Rust, src, out[..], start, i);
      }
    }
    result := Finish(src, out, Rust);
  }

  method StripPhp(src: seq<byte>) returns (result: seq<byte>)
    ensures result == StripSpec(Php, src)
  {
    var out := Copy(src, Php);
    var i := 0;
    while i < |src|
      invariant Between(Php, src, i) && Written(Php, src, out[..], i)
    {
      var c, c2 := src[i], At(src, i + 1);
      var start := i;
      if (c == SLASH && c2 == SLASH) || c == HASH {
        i := LineEnd(src, start, Php);
        BlankRange(out, start, i, src, Php);
      } else if c == SLASH && c2 == STAR {
        i := BlockEnd(src, start, Php);
        BlankRange(out, start, i, src, Php);
      } else if c == DQUOTE || c == QUOTE {
        i := TextEnd(src, start, true, true, false, Php);
        Unblanked(Php, src, out[..], start, i);
      } else if c == BACKTICK {
        i := TextEnd(src, start, true, false, false, Php);
        Unblanked(Php, src, out[..], start, i);
      } else {
        PlainByte(Php, src, i);
        i := i + 1;
        Unblanked(Php, src, out[..], start, i);
      }
    }
    result := Finish(src, out, Php);
  }

  // ----- what callers rely on -----------------------------------------------------------

  /** Stripping a valid text gives a valid text with the same length and the same newlines,
      and stripping it again changes nothing. */
  lemma StripKeepsText(lang: Lang, src: seq<byte>)
    requires Valid(src)
    ensures var r := StripSpec(lang, src);
            && Valid(r) && |r| == |src|
            && (forall i :: 0 <= i < |src| ==> (r[i] == NL <==> src[i] == NL))
            && StripSpec(lang, r) == r
  {
    StrippedKeepsLines(lang, src);
    StrippingTwice(lang, src);
  }

  /** The comments are really gone unless the text cuts a character; then it is returned
      with all its comments. */
  lemma FallbackIffCut(lang: Lang, src: seq<byte>)
    requires Valid(src)
    ensures StripSpec(lang, src) == if CutsCharacter(lang, src) then src else Stripped(lang, src)
  {
    StrippedIsValidIff(lang, src);
  }

  /** A text that takes the fallback: an open block comment before a two-byte letter. */
  lemma OpenCommentKeepsComment()
    ensures var src: seq<byte> := [SLASH, STAR, 0xC3, 0xA9];
            Valid(src) && StripSpec(CStyle(true), src) == src && Stripped(CStyle(true), src) != src
  {
    var src: seq<byte> := [SLASH, STAR, 0xC3, 0xA9];
    var lang := CStyle(true);
    assert CharLen(src, 0) == 1 && CharLen(src, 1) == 1 && CharLen(src, 2) == 2;
    assert ValidFrom(src, 4) && ValidFrom(src, 2) && ValidFrom(src, 1) && ValidFrom(src, 0);
    assert StateAt(lang, src, 0) == Code;
    assert StateAt(lang, src, 1) == Skip(1, true, Block(1));
    assert StateAt(lang, src, 2) == Block(1);
    assert StateAt(lang, src, 3) == Block(1);
    FallbackIffCut(lang, src);
    assert Blanked(lang, src, 0);
    assert Stripped(lang, src)[0] == SPACE;
  }
}
