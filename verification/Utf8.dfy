/** Well-formed UTF-8 (section 4 of RFC 3629), and exactly when blanking comments keeps
    it well-formed. */
module Utf8 {
  import opened Lexer

  predicate Tail(b: byte) { 0x80 <= b <= 0xBF }

  predicate TailAt(s: seq<byte>, i: nat) { i < |s| && Tail(s[i]) }

  predicate In(s: seq<byte>, i: nat, lo: byte, hi: byte) { i < |s| && lo <= s[i] <= hi }

  /** The length of the well-formed character that starts at i, or 0. */
  function CharLen(s: seq<byte>, i: nat): nat
    requires i < |s|
  {
    var b := s[i];
    if b < 0x80 then 1
    else if 0xC2 <= b <= 0xDF then (if TailAt(s, i + 1) then 2 else 0)
    else if 0xE0 <= b <= 0xEF then
      (if (if b == 0xE0 then In(s, i + 1, 0xA0, 0xBF) else if b == 0xED then In(s, i + 1, 0x80, 0x9F) else TailAt(s, i + 1))
          && TailAt(s, i + 2) then 3 else 0)
    else if 0xF0 <= b <= 0xF4 then
      (if (if b == 0xF0 then In(s, i + 1, 0x90, 0xBF) else if b == 0xF4 then In(s, i + 1, 0x80, 0x8F) else TailAt(s, i + 1))
          && TailAt(s, i + 2) && TailAt(s, i + 3) then 4 else 0)
    else 0
  }

  /** From i on the bytes are a sequence of well-formed characters. */
  predicate ValidFrom(s: seq<byte>, i: nat)
    requires i <= |s|
    decreases |s| - i
  {
    i == |s| || (var k := CharLen(s, i); k > 0 && i + k <= |s| && ValidFrom(s, i + k))
  }

  predicate Valid(s: seq<byte>) { ValidFrom(s, 0) }

  /** The text ends inside an unterminated block comment, in the middle of a character:
      the scan leaves the last byte unblanked, and that byte is a trailing one. */
  predicate CutsCharacter(lang: Lang, src: seq<byte>)
  {
    |src| > 0 && src[|src|-1] >= 0x80 && StateAt(lang, src, |src|-1).Block?
  }

  // ----- a region never changes inside a character ------------------------------------

  ghost predicate AsciiQuotes(s: State)
  {
    match s
    case Text(q, _, _, _) => q < 0x80
    case Triple(q) => q < 0x80
    case Skip(_, _, next) => AsciiQuotes(next)
    case _ => true
  }

  /** Where a skip leaves its region, or enters a block, the bytes it still reads are
      ASCII: they are the rest of a delimiter. */
  ghost predicate DelimiterAhead(src: seq<byte>, i: nat, s: State)
  {
    s.Skip? && (Region(s.next) != s.blank || s.next.Block?) ==>
      i + s.k <= |src| && s.k > 0 && forall j :: i <= j < i + s.k ==> src[j] < 0x80
  }

  lemma StepDelimiter(lang: Lang, src: seq<byte>, i: nat, s: State)
    requires i < |src| && Orderly(s) && AsciiQuotes(s) && DelimiterAhead(src, i, s)
    ensures AsciiQuotes(StepFrom(lang, src, i, s))
    ensures DelimiterAhead(src, i + 1, StepFrom(lang, src, i, s))
  {
  }

  lemma {:induction false} DelimitersAhead(lang: Lang, src: seq<byte>, i: nat)
    requires i <= |src|
    ensures var s := StateAt(lang, src, i); DelimiterAhead(src, i, s) && AsciiQuotes(s)
  {
    if i > 0 {
      DelimitersAhead(lang, src, i - 1);
      StatesOrderly(lang, src, i - 1);
      StepDelimiter(lang, src, i - 1, Mode(lang, src, i - 1));
    }
  }

  lemma NonAsciiOpensNothing(lang: Lang, src: seq<byte>, i: nat)
    requires i < |src| && src[i] >= 0x80
    ensures Opens(lang, src, i) == Code
  {
  }

  lemma NonAsciiStep(lang: Lang, src: seq<byte>, i: nat, s: State)
    requires i < |src| && src[i] >= 0x80 && DelimiterAhead(src, i, s) && AsciiQuotes(s)
    ensures Region(StepFrom(lang, src, i, s)) == Region(s) && BlankFrom(lang, src, i, s) == Region(s)
    ensures StepFrom(lang, src, i, s).Block? ==> s.Block?
  {
    if s.Code? { NonAsciiOpensNothing(lang, src, i); }
  }

  /** A non-ASCII byte is blanked iff its state is a region, and the region goes on. The
      exception is the last byte of the text inside a block comment. */
  lemma NonAsciiByte(lang: Lang, src: seq<byte>, i: nat)
    requires i < |src| && src[i] >= 0x80
    ensures !(StateAt(lang, src, i).Block? && i + 1 == |src|) ==>
              && Blanked(lang, src, i) == Region(StateAt(lang, src, i))
              && Region(StateAt(lang, src, i + 1)) == Region(StateAt(lang, src, i))
    ensures StateAt(lang, src, i).Block? && i + 1 == |src| ==> !Blanked(lang, src, i)
  {
    DelimitersAhead(lang, src, i);
    NonAsciiStep(lang, src, i, Mode(lang, src, i));
    if StateAt(lang, src, i).Block? && i + 1 == |src| { NonAsciiOpensNothing(lang, src, i); }
  }

  /** A non-ASCII byte does not enter a block comment. */
  lemma BlockByte(lang: Lang, src: seq<byte>, i: nat)
    requires i + 1 < |src| && src[i] >= 0x80
    ensures StateAt(lang, src, i + 1).Block? ==> StateAt(lang, src, i).Block?
  {
    DelimitersAhead(lang, src, i);
    NonAsciiStep(lang, src, i, Mode(lang, src, i));
  }

  ghost predicate AllHigh(src: seq<byte>, i: nat, k: nat)
  {
    i + k <= |src| && forall j :: i <= j < i + k ==> src[j] >= 0x80
  }

  /** All bytes of a multi-byte character share the fate of the first one, except when
      the text cuts the character. */
  lemma {:induction false} CharacterTogether(lang: Lang, src: seq<byte>, i: nat, k: nat)
    requires k > 0 && AllHigh(src, i, k)
    requires !CutsCharacter(lang, src)
    ensures forall j :: i <= j < i + k ==> Blanked(lang, src, j) == Region(StateAt(lang, src, i))
    ensures Region(StateAt(lang, src, i + k)) == Region(StateAt(lang, src, i))
    decreases k
  {
    NonAsciiByte(lang, src, i);
    if k > 1 { CharacterTogether(lang, src, i + 1, k - 1); }
  }

  lemma CharLenFacts(s: seq<byte>, i: nat)
    requires i < |s| && CharLen(s, i) > 0
    ensures i + CharLen(s, i) <= |s|
    ensures CharLen(s, i) > 1 ==> AllHigh(s, i, CharLen(s, i))
    ensures CharLen(s, i) == 1 ==> s[i] < 0x80
  {
  }

  /** A character depends on its own bytes only. */
  lemma SameChar(s: seq<byte>, t: seq<byte>, i: nat)
    requires |s| == |t| && i < |s| && CharLen(s, i) > 0
    requires forall j :: i <= j < i + CharLen(s, i) && j < |s| ==> t[j] == s[j]
    ensures CharLen(t, i) == CharLen(s, i)
  {
    CharLenFacts(s, i);
    var k := CharLen(s, i);
    assert t[i] == s[i];
    assert k > 1 ==> t[i + 1] == s[i + 1];
    assert k > 2 ==> t[i + 2] == s[i + 2];
    assert k > 3 ==> t[i + 3] == s[i + 3];
  }

  lemma {:induction false} SpacesAreValid(s: seq<byte>, i: nat, k: nat)
    requires i + k <= |s| && forall j :: i <= j < i + k ==> s[j] < 0x80
    ensures ValidFrom(s, i) == ValidFrom(s, i + k)
    decreases k
  {
    if k > 0 { SpacesAreValid(s, i + 1, k - 1); }
  }

  /** A character whose bytes are blanked together, or not at all, leaves the rest of the
      text as valid as it was. */
  lemma CharacterStep(lang: Lang, src: seq<byte>, i: nat)
    requires i < |src| && CharLen(src, i) > 0
    requires CharLen(src, i) > 1 ==>
               forall j :: i <= j < i + CharLen(src, i) && j < |src| ==> Blanked(lang, src, j) == Region(StateAt(lang, src, i))
    ensures var k := CharLen(src, i);
            i + k <= |src| && (ValidFrom(Stripped(lang, src), i) <==> ValidFrom(Stripped(lang, src), i + k))
  {
    hide StateAt, Blanked;
    var t, k := Stripped(lang, src), CharLen(src, i);
    CharLenFacts(src, i);
    if k == 1 || Region(StateAt(lang, src, i)) {
      SpacesAreValid(t, i, k);
    } else {
      SameChar(src, t, i);
    }
  }

  lemma {:induction false} UncutStaysValid(lang: Lang, src: seq<byte>, i: nat)
    requires i <= |src| && ValidFrom(src, i) && !CutsCharacter(lang, src)
    ensures ValidFrom(Stripped(lang, src), i)
    decreases |src| - i
  {
    if i < |src| {
      hide StateAt, Blanked, Stripped, CutsCharacter;
      var k := CharLen(src, i);
      CharLenFacts(src, i);
      UncutStaysValid(lang, src, i + k);
      if k > 1 { CharacterTogether(lang, src, i, k); }
      CharacterStep(lang, src, i);
    }
  }

  lemma {:induction false} BlockBackwards(lang: Lang, src: seq<byte>, i: nat, k: nat)
    requires k > 0 && AllHigh(src, i, k) && i + k == |src| && StateAt(lang, src, |src|-1).Block?
    ensures StateAt(lang, src, i).Block?
    ensures forall j :: i <= j < i + k - 1 ==> Blanked(lang, src, j)
    ensures !Blanked(lang, src, |src|-1)
    decreases k
  {
    NonAsciiByte(lang, src, i);
    if k > 1 {
      BlockBackwards(lang, src, i + 1, k - 1);
      BlockByte(lang, src, i);
    }
  }

  lemma LastCharacterCut(lang: Lang, src: seq<byte>, i: nat)
    requires i < |src| && CharLen(src, i) > 1 && i + CharLen(src, i) == |src| && CutsCharacter(lang, src)
    ensures !ValidFrom(Stripped(lang, src), i)
  {
    hide *;
    var k := CharLen(src, i);
    CharLenFacts(src, i);
    CutMeans(lang, src);
    BlockBackwards(lang, src, i, k);
    forall j | i <= j < i + (k - 1) ensures |Stripped(lang, src)| == |src| && Stripped(lang, src)[j] < 0x80 {
      StrippedByte(lang, src, j);
    }
    StrippedByte(lang, src, |src| - 1);
    SpacesAreValid(Stripped(lang, src), i, k - 1);
    LoneByte(Stripped(lang, src));
  }

  lemma CutMeans(lang: Lang, src: seq<byte>)
    requires CutsCharacter(lang, src)
    ensures |src| > 0 && src[|src|-1] >= 0x80 && StateAt(lang, src, |src|-1).Block?
  {
  }

  lemma StrippedByte(lang: Lang, src: seq<byte>, j: nat)
    requires j < |src|
    ensures |Stripped(lang, src)| == |src|
    ensures if Blanked(lang, src, j) then Stripped(lang, src)[j] < 0x80 else Stripped(lang, src)[j] == src[j]
  {
    hide Blanked;
  }

  /** A byte that needs more bytes is not valid at the end. */
  lemma LoneByte(t: seq<byte>)
    requires |t| > 0 && t[|t|-1] >= 0x80
    ensures !ValidFrom(t, |t| - 1)
  {
  }

  lemma {:induction false} CutIsInvalid(lang: Lang, src: seq<byte>, i: nat)
    requires i < |src| && ValidFrom(src, i) && CutsCharacter(lang, src)
    ensures !ValidFrom(Stripped(lang, src), i)
    decreases |src| - i
  {
    var k := CharLen(src, i);
    CharLenFacts(src, i);
    if i + k == |src| {
      LastCharacterCut(lang, src, i);
    } else {
      hide StateAt, Blanked, Stripped, CutsCharacter;
      CutIsInvalid(lang, src, i + k);
      if k > 1 { UncutCharacter(lang, src, i, k); }
      CharacterStep(lang, src, i);
    }
  }

  lemma {:induction false} UncutCharacter(lang: Lang, src: seq<byte>, i: nat, k: nat)
    requires k > 0 && AllHigh(src, i, k) && i + k < |src|
    ensures forall j :: i <= j < i + k ==> Blanked(lang, src, j) == Region(StateAt(lang, src, i))
    decreases k
  {
    NonAsciiByte(lang, src, i);
    if k > 1 { UncutCharacter(lang, src, i + 1, k - 1); }
  }

  /** Blanking valid text gives valid text if and only if the text does not end inside an
      unterminated block comment in the middle of a character. */
  lemma StrippedIsValidIff(lang: Lang, src: seq<byte>)
    requires Valid(src)
    ensures Valid(Stripped(lang, src)) <==> !CutsCharacter(lang, src)
  {
    if CutsCharacter(lang, src) { CutIsInvalid(lang, src, 0); } else { UncutStaysValid(lang, src, 0); }
  }

  // ----- well-formed text is encoded text ----------------------------------------------------

  /** A code point that is no surrogate. */
  predicate IsScalar(c: int) { 0 <= c < 0xD800 || 0xE000 <= c < 0x11_0000 }

  function Encode(c: int): seq<byte>
    requires IsScalar(c)
  {
    if c < 0x80 then [c]
    else if c < 0x800 then [0xC0 + c / 64, 0x80 + c % 64]
    else if c < 0x1_0000 then [0xE0 + c / 4096, 0x80 + c / 64 % 64, 0x80 + c % 64]
    else [0xF0 + c / 262144, 0x80 + c / 4096 % 64, 0x80 + c / 64 % 64, 0x80 + c % 64]
  }

  function EncodeAll(cs: seq<int>): seq<byte>
    requires forall c :: c in cs ==> IsScalar(c)
  {
    if |cs| == 0 then [] else Encode(cs[0]) + EncodeAll(cs[1..])
  }

  lemma EncodedLength(c: int, rest: seq<byte>)
    requires IsScalar(c)
    ensures CharLen(Encode(c) + rest, 0) == |Encode(c)| > 0
  {
    var e := Encode(c);
    LeadingByte(c);
    CharLenOfPrefix(e, rest);
    if c < 0x80 {
    } else if c < 0x800 {
      assert TailAt(e, 1);
    } else if c < 0x1_0000 {
      assert TailAt(e, 1) && TailAt(e, 2);
    } else {
      assert TailAt(e, 1) && TailAt(e, 2) && TailAt(e, 3);
    }
  }

  lemma CharLenOfPrefix(e: seq<byte>, rest: seq<byte>)
    requires |e| > 0 && CharLen(e, 0) > 0
    ensures CharLen(e + rest, 0) == CharLen(e, 0)
  {
    assert forall k :: 0 <= k < |e| ==> (e + rest)[k] == e[k];
  }

  /** The second byte of the shortest and of the forbidden encodings. */
  lemma LeadingByte(c: int)
    requires IsScalar(c)
    ensures CharLen(Encode(c), 0) == |Encode(c)|
  {
    if 0x800 <= c < 0x1_0000 {
      if c < 0x1000 { assert c / 4096 == 0 && c / 64 >= 32; }
      if 0xD000 <= c < 0xD800 { assert c / 4096 == 13 && c / 64 % 64 < 32; }
      ThreeBytes(0xE0 + c / 4096, 0x80 + c / 64 % 64, 0x80 + c % 64);
      hide CharLen;
    } else if 0x1_0000 <= c {
      if c < 0x4_0000 { assert c / 262144 == 0 && c / 4096 >= 16; }
      if 0x10_0000 <= c { assert c / 262144 == 4 && c / 4096 % 64 < 16; }
      FourBytes(0xF0 + c / 262144, 0x80 + c / 4096 % 64, 0x80 + c / 64 % 64, 0x80 + c % 64);
      hide CharLen;
    }
  }

  lemma ThreeBytes(a: byte, b: byte, d: byte)
    requires 0xE0 <= a <= 0xEF && Tail(b) && Tail(d) && (a == 0xE0 ==> b >= 0xA0) && (a == 0xED ==> b <= 0x9F)
    ensures CharLen([a, b, d], 0) == 3
  {
  }

  lemma FourBytes(a: byte, b: byte, d: byte, e: byte)
    requires 0xF0 <= a <= 0xF4 && Tail(b) && Tail(d) && Tail(e) && (a == 0xF0 ==> b >= 0x90) && (a == 0xF4 ==> b <= 0x8F)
    ensures CharLen([a, b, d, e], 0) == 4
  {
  }

  lemma Decoded(s: seq<byte>) returns (c: int)
    requires |s| > 0 && CharLen(s, 0) > 0
    ensures IsScalar(c) && CharLen(s, 0) <= |s| && Encode(c) == s[..CharLen(s, 0)]
  {
    var k := CharLen(s, 0);
    if k == 1 {
      c := s[0];
    } else if k == 2 {
      c := Decoded2(s[0], s[1]);
    } else if k == 3 {
      c := Decoded3(s[0], s[1], s[2]);
    } else {
      c := Decoded4(s[0], s[1], s[2], s[3]);
    }
    hide Encode, CharLen;
  }

  lemma Decoded2(a: byte, b: byte) returns (c: int)
    requires 0xC2 <= a <= 0xDF && Tail(b)
    ensures IsScalar(c) && Encode(c) == [a, b]
  {
    c := (a as int - 0xC0) * 64 + (b as int - 0x80);
    assert c / 64 == a as int - 0xC0 && c % 64 == b as int - 0x80;
  }

  lemma Decoded3(a: byte, b: byte, d: byte) returns (c: int)
    requires 0xE0 <= a <= 0xEF && Tail(b) && Tail(d) && (a == 0xE0 ==> b >= 0xA0) && (a == 0xED ==> b <= 0x9F)
    ensures IsScalar(c) && Encode(c) == [a, b, d]
  {
    var x, y, z := a as int - 0xE0, b as int - 0x80, d as int - 0x80;
    c := x * 4096 + y * 64 + z;
    assert c / 4096 == x && c / 64 == x * 64 + y && c / 64 % 64 == y && c % 64 == z;
  }

  lemma Decoded4(a: byte, b: byte, d: byte, e: byte) returns (c: int)
    requires 0xF0 <= a <= 0xF4 && Tail(b) && Tail(d) && Tail(e) && (a == 0xF0 ==> b >= 0x90) && (a == 0xF4 ==> b <= 0x8F)
    ensures IsScalar(c) && Encode(c) == [a, b, d, e]
  {
    var w, x, y, z := a as int - 0xF0, b as int - 0x80, d as int - 0x80, e as int - 0x80;
    c := w * 262144 + x * 4096 + y * 64 + z;
    assert c / 262144 == w && c / 4096 == w * 64 + x && c / 64 == w * 4096 + x * 64 + y;
    assert c / 4096 % 64 == x && c / 64 % 64 == y && c % 64 == z;
  }

  lemma {:induction false} ValidShifts(a: seq<byte>, s: seq<byte>, i: nat)
    requires i <= |s|
    ensures ValidFrom(a + s, |a| + i) <==> ValidFrom(s, i)
    decreases |s| - i
  {
    if i < |s| {
      CharLenShifts(a, s, i);
      if CharLen(s, i) > 0 && i + CharLen(s, i) <= |s| { ValidShifts(a, s, i + CharLen(s, i)); }
    }
  }

  lemma CharLenShifts(a: seq<byte>, s: seq<byte>, i: nat)
    requires i < |s|
    ensures CharLen(a + s, |a| + i) == CharLen(s, i)
  {
    assert forall k :: 0 <= k < |s| ==> (a + s)[|a| + k] == s[k];
  }

  /** Encoded text is well-formed. */
  lemma {:induction false} EncodedIsValid(cs: seq<int>)
    requires forall c :: c in cs ==> IsScalar(c)
    ensures Valid(EncodeAll(cs))
  {
    if |cs| > 0 {
      EncodedIsValid(cs[1..]);
      var head, rest := Encode(cs[0]), EncodeAll(cs[1..]);
      EncodedLength(cs[0], rest);
      ValidShifts(head, rest, 0);
      hide Encode, CharLen;
    }
  }

  /** And well-formed text is the encoding of code points. */
  lemma {:induction false} ValidIsEncoded(s: seq<byte>) returns (cs: seq<int>)
    requires Valid(s)
    ensures (forall c :: c in cs ==> IsScalar(c)) && EncodeAll(cs) == s
    decreases |s|
  {
    cs := [];
    if |s| > 0 {
      var c := Decoded(s);
      var k := CharLen(s, 0);
      assert s == s[..k] + s[k..];
      ValidShifts(s[..k], s[k..], 0);
      var rest := ValidIsEncoded(s[k..]);
      cs := [c] + rest;
      assert cs[1..] == rest;
      hide Encode, CharLen, ValidFrom;
    }
  }
}
