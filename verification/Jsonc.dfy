/** Reading tsconfig files: comments are blanked, then trailing commas, in two passes
    over the text. All characters with a meaning are ASCII, so both passes are stated on
    bytes; a multi-byte character is copied byte by byte. */
module Jsonc {
  import opened Lexer
  import opened Utf8
  import opened StripComments

  const TAB: byte := 9
  const CR: byte := 13
  const COMMA: byte := 44
  const RBRACKET: byte := 93
  const RBRACE: byte := 125

  // ----- first pass ---------------------------------------------------------------------

  const STRING: State := Text(DQUOTE, true, false, false)

  /** The scanner's flag and index agree with the state machine. */
  ghost predicate Reading(src: seq<byte>, i: nat, inString: bool)
  {
    i <= |src| && if inString then StateAt(Lang.Jsonc, src, i) == STRING else Between(Lang.Jsonc, src, i)
  }

  lemma KeepByte(src: seq<byte>, out: seq<byte>, i: nat)
    requires i < |src| && !Blanked(Lang.Jsonc, src, i) && Written(Lang.Jsonc, src, out, i)
    ensures Written(Lang.Jsonc, src, out, i + 1)
  {
    hide StateAt;
  }

  lemma InStringByte(src: seq<byte>, i: nat)
    requires i < |src| && StateAt(Lang.Jsonc, src, i) == STRING
    ensures !Blanked(Lang.Jsonc, src, i)
    ensures src[i] == BACKSLASH && i + 1 < |src| ==>
              StateAt(Lang.Jsonc, src, i + 2) == STRING && !Blanked(Lang.Jsonc, src, i + 1)
    ensures !(src[i] == BACKSLASH && i + 1 < |src|) ==>
              StateAt(Lang.Jsonc, src, i + 1) == if src[i] == DQUOTE then Code else STRING
  {
    Next(Lang.Jsonc, src, i);
    if src[i] == BACKSLASH && i + 1 < |src| { Next(Lang.Jsonc, src, i + 1); }
  }

  lemma StringStep(src: seq<byte>, out: seq<byte>, i: nat)
    requires i < |src| && Reading(src, i, true) && Written(Lang.Jsonc, src, out, i)
    ensures src[i] == BACKSLASH && i + 1 < |src| ==> Reading(src, i + 2, true) && Written(Lang.Jsonc, src, out, i + 2)
    ensures !(src[i] == BACKSLASH && i + 1 < |src|) ==>
              Reading(src, i + 1, src[i] != DQUOTE) && Written(Lang.Jsonc, src, out, i + 1)
  {
    hide StateAt, Written, Blanked;
    InStringByte(src, i);
    KeepByte(src, out, i);
    if src[i] == BACKSLASH && i + 1 < |src| { KeepByte(src, out, i + 1); }
  }

  lemma QuoteStep(src: seq<byte>, out: seq<byte>, i: nat)
    requires i < |src| && Reading(src, i, false) && src[i] == DQUOTE && Written(Lang.Jsonc, src, out, i)
    ensures Reading(src, i + 1, true) && Written(Lang.Jsonc, src, out, i + 1)
  {
    Next(Lang.Jsonc, src, i);
    KeepByte(src, out, i);
  }

  /** The comment pass. One flag says whether the scanner is inside a string. */
  method BlankJsoncComments(src: seq<byte>) returns (result: seq<byte>)
    ensures result == StripSpec(Lang.Jsonc, src)
  {
    hide StateAt, Stripped, StripSpec;
    var out := Copy(src, Lang.Jsonc);
    var i := 0;
    var inString := false;
    assert Reading(src, 0, false) by { Start(src); }
    while i < |src|
      invariant i <= |src| && Written(Lang.Jsonc, src, out[..], i) && Reading(src, i, inString)
      decreases |src| - i
    {
      var c, c2 := src[i], At(src, i + 1);
      if inString {
        StringStep(src, out[..], i);
        if c == BACKSLASH && i + 1 < |src| {
          i := i + 2;
          continue;
        }
        if c == DQUOTE {
          inString := false;
        }
        i := i + 1;
        continue;
      }
      if c == DQUOTE {
        QuoteStep(src, out[..], i);
        inString := true;
        i := i + 1;
        continue;
      }
      var start := i;
      if c == SLASH && c2 == SLASH {
        i := LineEnd(src, start, Lang.Jsonc);
        BlankRange(out, start, i, src, Lang.Jsonc);
      } else if c == SLASH && c2 == STAR {
        i := BlockEnd(src, start, Lang.Jsonc);
        BlankRange(out, start, i, src, Lang.Jsonc);
      } else {
        PlainByte(Lang.Jsonc, src, i);
        i := i + 1;
        Unblanked(Lang.Jsonc, src, out[..], start, i);
      }
    }
    result := Finish(src, out, Lang.Jsonc);
  }

  lemma Start(src: seq<byte>)
    ensures Reading(src, 0, false)
  {
  }

  // ----- second pass ----------------------------------------------------------------------

  datatype Quoting = Outside | Inside | Escaped

  /** Where byte i stands with respect to JSON strings. */
  function QuotingAt(s: seq<byte>, i: nat): Quoting
    requires i <= |s|
  {
    if i == 0 then Outside
    else match QuotingAt(s, i - 1)
      case Outside => if s[i-1] == DQUOTE then Inside else Outside
      case Inside => if s[i-1] == BACKSLASH && i < |s| then Escaped else if s[i-1] == DQUOTE then Outside else Inside
      case Escaped => Inside
  }

  predicate IsSpace(b: byte) { b == SPACE || b == TAB || b == NL || b == CR }

  /** The first position from i on that is not white space, or the length. */
  function NextSolid(s: seq<byte>, i: nat): (j: nat)
    requires i <= |s|
    ensures i <= j <= |s|
    ensures j < |s| ==> !IsSpace(s[j])
    ensures forall k :: i <= k < j ==> IsSpace(s[k])
    decreases |s| - i
  {
    if i < |s| && IsSpace(s[i]) then NextSolid(s, i + 1) else i
  }

  predicate Closes(s: seq<byte>, j: nat)
  {
    j < |s| && (s[j] == RBRACE || s[j] == RBRACKET)
  }

  /** A comma outside strings that only white space separates from a closing bracket. */
  predicate TrailingComma(s: seq<byte>, i: nat)
    requires i < |s|
  {
    s[i] == COMMA && QuotingAt(s, i).Outside? && Closes(s, NextSolid(s, i + 1))
  }

  function CommaStripped(s: seq<byte>): seq<byte>
  {
    seq(|s|, i requires 0 <= i < |s| => if TrailingComma(s, i) then SPACE else s[i])
  }

  /** Whether only white space separates position i from a closing bracket. */
  method LooksAhead(s: seq<byte>, i: nat) returns (closes: bool)
    requires i <= |s|
    ensures closes == Closes(s, NextSolid(s, i))
  {
    var j := i;
    while j < |s| && IsSpace(s[j])
      invariant i <= j <= |s| && NextSolid(s, j) == NextSolid(s, i)
    {
      j := j + 1;
    }
    closes := j < |s| && (s[j] == RBRACE || s[j] == RBRACKET);
  }

  method RemoveTrailingCommas(s: seq<byte>) returns (out: seq<byte>)
    ensures out == CommaStripped(s)
  {
    hide Closes, NextSolid;
    out := [];
    var i := 0;
    var inString := false;
    while i < |s|
      invariant i <= |s| && out == CommaStripped(s)[..i]
      invariant QuotingAt(s, i) == if inString then Inside else Outside
      decreases |s| - i
    {
      var c := s[i];
      if inString {
        if c == BACKSLASH && i + 1 < |s| {
          assert QuotingAt(s, i + 1) == Escaped && QuotingAt(s, i + 2) == Inside;
          out := out + [c] + [s[i+1]];
          i := i + 2;
          continue;
        }
        if c == DQUOTE {
          inString := false;
        }
        out := out + [c];
        i := i + 1;
        continue;
      }
      if c == DQUOTE {
        inString := true;
        out := out + [c];
        i := i + 1;
        continue;
      }
      if c == COMMA {
        var closes := LooksAhead(s, i + 1);
        if closes {
          out := out + [SPACE];
          i := i + 1;
          continue;
        }
      }
      out := out + [c];
      i := i + 1;
    }
  }

  method StripJsonc(src: seq<byte>) returns (result: seq<byte>)
    ensures result == CommaStripped(StripSpec(Lang.Jsonc, src))
  {
    var blanked := BlankJsoncComments(src);
    result := RemoveTrailingCommas(blanked);
  }

  // ----- the two passes together -----------------------------------------------------------

  /** A byte of a JSON string: its content, its escapes or its closing quote. */
  predicate InString(src: seq<byte>, i: nat)
    requires i <= |src|
  {
    var s := StateAt(Lang.Jsonc, src, i);
    s.Text? || (s.Skip? && !s.blank)
  }

  function QuotingOf(s: State): Quoting
  {
    match s
    case Text(_, _, _, _) => Inside
    case Skip(_, false, _) => Escaped
    case _ => Outside
  }

  /** The states the comment machine takes in JSON text. */
  ghost predicate JsonState(s: State)
  {
    match s
    case Text(_, _, _, _) => s == STRING
    case Skip(k, blank, next) => if blank then !next.Text? else k == 1 && next == STRING
    case _ => true
  }

  lemma {:induction false} JsonStates(src: seq<byte>, i: nat)
    requires i <= |src|
    ensures JsonState(StateAt(Lang.Jsonc, src, i))
  {
    if i > 0 {
      JsonStates(src, i - 1);
      StatesOrderly(Lang.Jsonc, src, i - 1);
    }
  }

  /** Quotes inside comments confuse neither pass: the second pass is inside a string
      exactly where the first was. */
  lemma PassesAgreeOnStrings(src: seq<byte>, i: nat)
    requires i <= |src|
    ensures QuotingAt(Stripped(Lang.Jsonc, src), i) == QuotingOf(StateAt(Lang.Jsonc, src, i))
  {
    forall j | 0 <= j < |src| ensures !Blanked(Lang.Jsonc, Stripped(Lang.Jsonc, src), j) {
      SecondPassBlanksNothing(Lang.Jsonc, src, j);
    }
    FollowsStrings(Stripped(Lang.Jsonc, src), i);
    SecondPass(Lang.Jsonc, src, i);
    JsonStates(src, i);
  }

  /** In text without comments the comment machine only follows the strings. */
  lemma {:induction false} FollowsStrings(t: seq<byte>, i: nat)
    requires i <= |t| && forall j :: 0 <= j < |t| ==> !Blanked(Lang.Jsonc, t, j)
    ensures QuotingAt(t, i) == QuotingOf(StateAt(Lang.Jsonc, t, i))
  {
    if i > 0 {
      hide StateAt, QuotingAt, Blanked;
      FollowsStrings(t, i - 1);
      JsonStates(t, i - 1);
      SecondStep(t, i - 1);
    }
  }

  lemma SecondStep(t: seq<byte>, i: nat)
    requires i < |t| && !Blanked(Lang.Jsonc, t, i)
    requires JsonState(StateAt(Lang.Jsonc, t, i)) && QuotingAt(t, i) == QuotingOf(StateAt(Lang.Jsonc, t, i))
    ensures QuotingAt(t, i + 1) == QuotingOf(StateAt(Lang.Jsonc, t, i + 1))
  {
    Next(Lang.Jsonc, t, i);
  }

  /** Exactly what both passes do to byte i: comments become spaces with their newlines
      kept; a comma outside strings and comments becomes a space when, comments apart,
      only white space separates it from a closing bracket; nothing else changes. */
  lemma TwoPassesByteByByte(src: seq<byte>, i: nat)
    requires Valid(src) && !CutsCharacter(Lang.Jsonc, src) && i < |src|
    ensures var t := Stripped(Lang.Jsonc, src);
            var r := CommaStripped(StripSpec(Lang.Jsonc, src));
            && |r| == |src|
            && r[i] == (if Blanked(Lang.Jsonc, src, i) then Blank(src[i])
                        else if src[i] == COMMA && !InString(src, i) && Closes(t, NextSolid(t, i + 1)) then SPACE
                        else src[i])
            && (r[i] == NL <==> src[i] == NL)
  {
    StrippedIsValidIff(Lang.Jsonc, src);
    PassesAgreeOnStrings(src, i);
    JsonStates(src, i);
  }

  /** Every JSON string comes out as it went in. */
  lemma StringsSurvive(src: seq<byte>, i: nat)
    requires Valid(src) && !CutsCharacter(Lang.Jsonc, src) && i < |src| && InString(src, i)
    ensures CommaStripped(StripSpec(Lang.Jsonc, src))[i] == src[i]
  {
    TwoPassesByteByByte(src, i);
    JsonStates(src, i);
    StatesOrderly(Lang.Jsonc, src, i);
  }

  // ----- a second comma pass -----------------------------------------------------------------

  lemma {:induction false} CommasDoNotQuote(s: seq<byte>, i: nat)
    requires i <= |s|
    ensures QuotingAt(CommaStripped(s), i) == QuotingAt(s, i)
  {
    if i > 0 { CommasDoNotQuote(s, i - 1); }
  }

  /** A comma that only white space separates from a trailing comma. */
  predicate BeforeTrailingComma(s: seq<byte>, i: nat)
    requires i < |s|
  {
    && s[i] == COMMA && QuotingAt(s, i).Outside?
    && var j := NextSolid(s, i + 1); j < |s| && TrailingComma(s, j)
  }

  lemma SecondCommaPass(s: seq<byte>, i: nat)
    requires i < |s|
    ensures TrailingComma(CommaStripped(s), i) <==> BeforeTrailingComma(s, i)
  {
    var r := CommaStripped(s);
    CommasDoNotQuote(s, i);
    var j := NextSolid(s, i + 1);
    if j < |s| && TrailingComma(s, j) {
      var k := NextSolid(s, j + 1);
      assert r[k] == s[k];
    } else {
      if j < |s| { assert r[j] == s[j]; }
    }
  }

  /** Removing trailing commas twice is removing them once if and only if no comma stands
      directly before a trailing one; `,,]` is the shortest text where it is not. */
  lemma CommaPassIdempotentIff(s: seq<byte>)
    ensures CommaStripped(CommaStripped(s)) == CommaStripped(s)
            <==> forall i :: 0 <= i < |s| ==> !BeforeTrailingComma(s, i)
  {
    var r := CommaStripped(s);
    forall i | 0 <= i < |s| ensures TrailingComma(r, i) <==> BeforeTrailingComma(s, i) { SecondCommaPass(s, i); }
    forall i | 0 <= i < |s| ensures CommaStripped(r)[i] == (if BeforeTrailingComma(s, i) then SPACE else r[i]) {}
    if i :| 0 <= i < |s| && BeforeTrailingComma(s, i) {
      assert TrailingComma(r, i);
      assert CommaStripped(r)[i] == SPACE && r[i] == COMMA;
    } else {
      forall i | 0 <= i < |s| ensures CommaStripped(r)[i] == r[i] { assert !BeforeTrailingComma(s, i); }
    }
  }

  /** `,,]` takes two passes. */
  lemma TwoCommasTakeTwoPasses()
    ensures CommaStripped([COMMA, COMMA, RBRACKET]) == [COMMA, SPACE, RBRACKET]
    ensures CommaStripped([COMMA, SPACE, RBRACKET]) == [SPACE, SPACE, RBRACKET]
  {
    var s, r := [COMMA, COMMA, RBRACKET], [COMMA, SPACE, RBRACKET];
    assert QuotingAt(s, 1).Outside? && QuotingAt(r, 1).Outside?;
    assert NextSolid(s, 1) == 1 && NextSolid(s, 2) == 2;
    assert NextSolid(r, 2) == 2 && NextSolid(r, 1) == 2;
  }

  // ----- by the bytes themselves ---------------------------------------------------------------

  predicate IsBlankByte(b: byte) { b == 9 || b == 10 || b == 13 || b == 32 }

  /** A comma outside strings goes when only blanks stand between it and a closing bracket or
      brace, and stays before anything else and at the end. */
  lemma CommaGoesIff(s: seq<byte>, i: nat, j: nat)
    requires i < j <= |s| && s[i] == ',' as int && QuotingAt(s, i).Outside?
    requires (forall k :: i < k < j ==> IsBlankByte(s[k])) && (j < |s| ==> !IsBlankByte(s[j]))
    ensures CommaStripped(s)[i] == if j < |s| && (s[j] == ']' as int || s[j] == '}' as int) then ' ' as int else ',' as int
  {
    NextSolidIs(s, i + 1, j);
  }

  lemma {:induction false} NextSolidIs(s: seq<byte>, i: nat, j: nat)
    requires i <= j <= |s| && (forall k :: i <= k < j ==> IsBlankByte(s[k])) && (j < |s| ==> !IsBlankByte(s[j]))
    ensures NextSolid(s, i) == j
    decreases j - i
  {
    if i < j { NextSolidIs(s, i + 1, j); }
  }
}
