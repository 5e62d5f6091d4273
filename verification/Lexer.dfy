/** A per-byte lexical state machine for the comment syntaxes of all supported
    languages: which state a byte is read in, and whether that byte is blanked. It is
    the reference the in-place scanners are proved against. */
module Lexer {

  type byte = b: int | 0 <= b < 256

  const NL: byte := 10
  const SPACE: byte := 32
  const DQUOTE: byte := 34
  const HASH: byte := 35
  const QUOTE: byte := 39
  const STAR: byte := 42
  const SLASH: byte := 47
  const EQUALS: byte := 61
  const BACKSLASH: byte := 92
  const BACKTICK: byte := 96
  const BEGIN: seq<byte> := [61, 98, 101, 103, 105, 110]
  const END: seq<byte> := [61, 101, 110, 100]

  datatype Lang = Python | Ruby | CStyle(singleQuotes: bool) | Go | Rust | Php | Jsonc

  /** `Text` is a string literal that ends at its quote and, if `stops`, at a newline.
      `Skip(k, blank, next)` reads k more bytes of a longer token, whatever they are. */
  datatype State =
    | Code
    | Line
    | Block(depth: nat)
    | Text(quote: byte, escapes: bool, stops: bool, blank: bool)
    | Triple(quote: byte)
    | RubyBlock
    | Skip(k: nat, blank: bool, next: State)

  /** The byte at i, or 0 past the end. */
  function At(src: seq<byte>, i: nat): byte
  {
    if i < |src| then src[i] else 0
  }

  predicate StartsWith(src: seq<byte>, i: nat, word: seq<byte>)
  {
    i + |word| <= |src| && src[i..i + |word|] == word
  }

  predicate AtLineStart(src: seq<byte>, i: nat)
    requires i <= |src|
  {
    i == 0 || src[i-1] == NL
  }

  /** What a token that opens at byte i turns code into; `Code` when none opens. */
  function Opens(lang: Lang, src: seq<byte>, i: nat): State
    requires i < |src|
  {
    var c, c2, c3 := src[i], At(src, i + 1), At(src, i + 2);
    match lang
    case Python =>
      if (c == DQUOTE || c == QUOTE) && c2 == c && c3 == c then Skip(2, true, Triple(c))
      else if c == HASH then Line
      else if c == DQUOTE || c == QUOTE then Text(c, true, true, false)
      else Code
    case Ruby =>
      if c == EQUALS && AtLineStart(src, i) && StartsWith(src, i, BEGIN) then Skip(5, true, RubyBlock)
      else if c == HASH then Line
      else if c == DQUOTE || c == QUOTE then Text(c, true, true, false)
      else Code
    case CStyle(singleQuotes) =>
      if c == SLASH && c2 == STAR then Skip(1, true, Block(1))
      else if c == SLASH && c2 == SLASH then Line
      else if c == BACKTICK then Text(c, true, false, false)
      else if c == DQUOTE || (singleQuotes && c == QUOTE) then Text(c, true, true, false)
      else Code
    case Go =>
      if c == SLASH && c2 == SLASH then Line
      else if c == SLASH && c2 == STAR then Skip(1, true, Block(1))
      else if c == BACKTICK then Text(c, false, false, false)
      else if c == DQUOTE then Text(c, true, true, false)
      else Code
    case Rust =>
      if c == SLASH && c2 == SLASH then Line
      else if c == SLASH && c2 == STAR then Skip(1, true, Block(1))
      else if c == DQUOTE then Text(c, true, false, true)
      else Code
    case Php =>
      if (c == SLASH && c2 == SLASH) || c == HASH then Line
      else if c == SLASH && c2 == STAR then Skip(1, true, Block(1))
      else if c == DQUOTE || c == QUOTE then Text(c, true, true, false)
      else if c == BACKTICK then Text(c, true, false, false)
      else Code
    case Jsonc =>
      if c == DQUOTE then Text(c, true, false, false)
      else if c == SLASH && c2 == SLASH then Line
      else if c == SLASH && c2 == STAR then Skip(1, true, Block(1))
      else Code
  }

  /** A line comment and a one-line string give up before the newline. A block comment
      gives up before the last byte of the text: its scan needs two bytes. */
  function Resume(src: seq<byte>, i: nat, s: State): State
    requires i < |src|
  {
    if (s.Line? || (s.Text? && s.stops)) && src[i] == NL then Code
    else if s.Block? && i + 1 >= |src| then Code
    else s
  }

  /** The state after byte i, read in mode s. */
  function StepFrom(lang: Lang, src: seq<byte>, i: nat, s: State): State
    requires i < |src|
  {
    var c, c2, c3 := src[i], At(src, i + 1), At(src, i + 2);
    match s
    case Code => Opens(lang, src, i)
    case Line => Line
    case Block(depth) =>
      if lang.Rust? && c == SLASH && c2 == STAR then Skip(1, true, Block(depth + 1))
      else if c == STAR && c2 == SLASH then Skip(1, true, if lang.Rust? && depth > 1 then Block(depth - 1) else Code)
      else s
    case Text(quote, escapes, _, blank) =>
      if escapes && c == BACKSLASH && i + 1 < |src| then Skip(1, blank, s)
      else if c == quote then Code
      else s
    case Triple(quote) =>
      if c == BACKSLASH && i + 1 < |src| then Skip(1, true, s)
      else if c == quote && i + 2 < |src| && c2 == quote && c3 == quote then Skip(2, true, Code)
      else s
    case RubyBlock =>
      if c == NL && StartsWith(src, i + 1, END) then Skip(4, true, Line) else s
    case Skip(k, blank, next) => if k <= 1 then next else Skip(k - 1, blank, next)
  }

  /** Whether a state blanks the bytes it reads. */
  predicate Region(s: State)
  {
    match s
    case Code => false
    case Text(_, _, _, blank) => blank
    case Skip(_, blank, _) => blank
    case _ => true
  }

  /** The byte that opens a blanked token is blanked with it. */
  predicate BlankFrom(lang: Lang, src: seq<byte>, i: nat, s: State)
    requires i < |src|
  {
    if s.Code? then Region(Opens(lang, src, i)) else Region(s)
  }

  function StateAt(lang: Lang, src: seq<byte>, i: nat): State
    requires i <= |src|
  {
    if i == 0 then Code else StepFrom(lang, src, i - 1, Resume(src, i - 1, StateAt(lang, src, i - 1)))
  }

  function Mode(lang: Lang, src: seq<byte>, i: nat): State
    requires i < |src|
  {
    Resume(src, i, StateAt(lang, src, i))
  }

  predicate Blanked(lang: Lang, src: seq<byte>, i: nat)
    requires i < |src|
  {
    BlankFrom(lang, src, i, Mode(lang, src, i))
  }

  /** Blanked bytes become spaces; newlines stay. */
  function Blank(b: byte): byte { if b == NL then NL else SPACE }

  function Stripped(lang: Lang, src: seq<byte>): seq<byte>
  {
    seq(|src|, i requires 0 <= i < |src| => if Blanked(lang, src, i) then Blank(src[i]) else src[i])
  }

  lemma Next(lang: Lang, src: seq<byte>, i: nat)
    requires i < |src|
    ensures StateAt(lang, src, i + 1) == StepFrom(lang, src, i, Mode(lang, src, i))
    ensures Blanked(lang, src, i) == BlankFrom(lang, src, i, Mode(lang, src, i))
  {
  }

  // ----- lines survive ------------------------------------------------------------

  /** Same length, newlines at the same positions, and a byte changes only to a space
      inside a blanked token. */
  lemma StrippedKeepsLines(lang: Lang, src: seq<byte>)
    ensures |Stripped(lang, src)| == |src|
    ensures forall i :: 0 <= i < |src| ==> (Stripped(lang, src)[i] == NL <==> src[i] == NL)
    ensures forall i :: 0 <= i < |src| && Stripped(lang, src)[i] != src[i] ==>
                          Blanked(lang, src, i) && Stripped(lang, src)[i] == SPACE
  {
  }

  // ----- a second pass changes nothing -----------------------------------------------

  /** The state of the second pass: where the first was blanking, it reads plain code. */
  function Collapse(s: State): State
  {
    if Region(s) then Code else s
  }

  /** `t` is `src` with some bytes replaced by spaces, no newline among them. */
  ghost predicate SpacedOut(src: seq<byte>, t: seq<byte>)
  {
    |t| == |src| && forall i :: 0 <= i < |src| ==> t[i] == src[i] || (t[i] == SPACE && src[i] != NL)
  }

  /** Spaces open nothing, and no token opens that did not open before. */
  lemma OpensAgain(lang: Lang, src: seq<byte>, t: seq<byte>, i: nat)
    requires SpacedOut(src, t) && i < |src|
    requires t[i] == src[i] && !Region(Opens(lang, src, i))
    ensures Opens(lang, t, i) == Opens(lang, src, i)
  {
  }

  /** A skip is part of one token: it is not nested, and only a closing delimiter, whose
      token ends in code, is blanked differently from what follows it. */
  ghost predicate Orderly(s: State)
  {
    s.Skip? ==> !s.next.Skip? && (Region(s.next) ==> s.blank) && (s.blank && !Region(s.next) ==> s.next.Code?)
  }

  lemma {:induction false} StatesOrderly(lang: Lang, src: seq<byte>, i: nat)
    requires i <= |src|
    ensures Orderly(StateAt(lang, src, i))
  {
    if i > 0 {
      StatesOrderly(lang, src, i - 1);
    }
  }

  lemma SpaceOpensNothing(lang: Lang, t: seq<byte>, i: nat)
    requires i < |t| && (t[i] == SPACE || t[i] == NL)
    ensures Opens(lang, t, i) == Code
  {
  }

  lemma StepAgain(lang: Lang, src: seq<byte>, t: seq<byte>, i: nat, s: State)
    requires SpacedOut(src, t) && i < |src| && Orderly(s)
    requires t[i] == if BlankFrom(lang, src, i, Resume(src, i, s)) then Blank(src[i]) else src[i]
    ensures var m, m' := Resume(src, i, s), Resume(t, i, Collapse(s));
            && StepFrom(lang, t, i, m') == Collapse(StepFrom(lang, src, i, m))
            && !BlankFrom(lang, t, i, m')
  {
    hide Opens;
    var m := Resume(src, i, s);
    if Region(m) {
      SpaceOpensNothing(lang, t, i);
    } else if m.Code? {
      assert Resume(t, i, Collapse(s)) == Code;
      if Region(Opens(lang, src, i)) { SpaceOpensNothing(lang, t, i); } else { OpensAgain(lang, src, t, i); }
    } else {
    }
  }

  ghost predicate BlanksApplied(lang: Lang, src: seq<byte>, t: seq<byte>)
  {
    |t| == |src| && forall i :: 0 <= i < |src| ==> t[i] == if Blanked(lang, src, i) then Blank(src[i]) else src[i]
  }

  lemma SecondPassStep(lang: Lang, src: seq<byte>, t: seq<byte>, i: nat)
    requires i < |src| && SpacedOut(src, t) && BlanksApplied(lang, src, t)
    requires StateAt(lang, t, i) == Collapse(StateAt(lang, src, i))
    ensures StateAt(lang, t, i + 1) == Collapse(StateAt(lang, src, i + 1))
  {
    var s := StateAt(lang, src, i);
    StatesOrderly(lang, src, i);
    assert t[i] == if BlankFrom(lang, src, i, Resume(src, i, s)) then Blank(src[i]) else src[i];
    StepAgain(lang, src, t, i, s);
    Next(lang, src, i);
    Next(lang, t, i);
    hide *;
    assert StateAt(lang, t, i + 1) == Collapse(StateAt(lang, src, i + 1));
  }

  lemma {:induction false} SecondPassOn(lang: Lang, src: seq<byte>, t: seq<byte>, i: nat)
    requires i <= |src| && SpacedOut(src, t) && BlanksApplied(lang, src, t)
    ensures StateAt(lang, t, i) == Collapse(StateAt(lang, src, i))
  {
    if i > 0 {
      SecondPassOn(lang, src, t, i - 1);
      SecondPassStep(lang, src, t, i - 1);
      hide *;
      assert StateAt(lang, t, i) == Collapse(StateAt(lang, src, i));
    }
  }

  lemma SecondPass(lang: Lang, src: seq<byte>, i: nat)
    requires i <= |src|
    ensures StateAt(lang, Stripped(lang, src), i) == Collapse(StateAt(lang, src, i))
  {
    SecondPassOn(lang, src, Stripped(lang, src), i);
  }

  lemma SecondPassBlanksNothing(lang: Lang, src: seq<byte>, i: nat)
    requires i < |src|
    ensures !Blanked(lang, Stripped(lang, src), i)
  {
    hide StepFrom, Resume, Opens, BlankFrom;
    SecondPass(lang, src, i);
    StatesOrderly(lang, src, i);
    StepAgain(lang, src, Stripped(lang, src), i, StateAt(lang, src, i));
  }

  lemma StrippingTwice(lang: Lang, src: seq<byte>)
    ensures Stripped(lang, Stripped(lang, src)) == Stripped(lang, src)
  {
    var t := Stripped(lang, src);
    forall i | 0 <= i < |src| ensures Stripped(lang, t)[i] == t[i] { SecondPassBlanksNothing(lang, src, i); }
  }
}
