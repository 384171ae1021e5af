/**
  UTF-8 as section 4 of RFC 3629 spells it out, and what may be overwritten with spaces without leaving it.
 */
module Utf8 {
  import opened Basics

  const SPACE: Byte := ' ' as int
  const NEWLINE: Byte := '\n' as int

  predicate Tail(b: Byte) {
    0x80 <= b <= 0xBF
  }

  /** The length of the character at the front, 0 when the bytes there are no character. */
  function CharLength(s: seq<Byte>): (w: nat)
    ensures w <= 4 && w <= |s|
  {
    if s == [] then 0
    else if s[0] <= 0x7F then 1
    else if |s| >= 2 && 0xC2 <= s[0] <= 0xDF && Tail(s[1]) then 2
    else if |s| >= 3 && Tail(s[1]) && Tail(s[2]) && Second3(s[0], s[1]) then 3
    else if |s| >= 4 && Tail(s[1]) && Tail(s[2]) && Tail(s[3]) && Second4(s[0], s[1]) then 4
    else 0
  }

  predicate Second3(a: Byte, b: Byte) {
    (a == 0xE0 && 0xA0 <= b) || 0xE1 <= a <= 0xEC || (a == 0xED && b <= 0x9F) || 0xEE <= a <= 0xEF
  }

  predicate Second4(a: Byte, b: Byte) {
    (a == 0xF0 && 0x90 <= b) || 0xF1 <= a <= 0xF3 || (a == 0xF4 && b <= 0x8F)
  }

  predicate Valid(s: seq<Byte>)
    decreases |s|
  {
    s == [] || (CharLength(s) > 0 && Valid(s[CharLength(s)..]))
  }

  /** Spaces where the mask is set, line breaks kept. */
  function Blank(s: seq<Byte>, mask: seq<bool>): (t: seq<Byte>)
    requires |mask| == |s|
    ensures |t| == |s|
    ensures forall i | 0 <= i < |s| :: t[i] == if mask[i] && s[i] != NEWLINE then SPACE else s[i]
  {
    seq(|s|, i requires 0 <= i < |s| => if mask[i] && s[i] != NEWLINE then SPACE else s[i])
  }

  /** Each character is masked wholly or not at all: a tail byte goes with the byte before it. */
  ghost predicate Aligned(s: seq<Byte>, mask: seq<bool>)
    requires |mask| == |s|
  {
    forall i {:trigger mask[i]} | 0 < i < |s| && Tail(s[i]) :: mask[i] == mask[i - 1]
  }

  /** In UTF-8 a tail byte never follows an ASCII byte, nor opens the text. */
  lemma {:induction false} TailFollowsNonAscii(s: seq<Byte>, i: nat)
    requires Valid(s) && i < |s| && Tail(s[i])
    ensures i > 0 && s[i - 1] >= 0x80
    decreases |s|
  {
    var w := CharLength(s);
    if i >= w { TailFollowsNonAscii(s[w..], i - w); }
  }

  lemma {:induction false} MaskedCharacter(s: seq<Byte>, mask: seq<bool>, i: nat)
    requires |mask| == |s| && Aligned(s, mask) && i < CharLength(s)
    ensures mask[i] == mask[0]
  {
    if i > 0 { MaskedCharacter(s, mask, i - 1); }
  }

  lemma SuffixAligned(s: seq<Byte>, mask: seq<bool>, w: nat)
    requires |mask| == |s| && Aligned(s, mask) && w <= |s|
    ensures Aligned(s[w..], mask[w..]) && Blank(s, mask)[w..] == Blank(s[w..], mask[w..])
  {
    forall i {:trigger mask[w..][i]} | 0 < i < |s[w..]| && Tail(s[w..][i]) ensures mask[w..][i] == mask[w..][i - 1] {
      assert mask[i + w] == mask[i + w - 1];
    }
  }

  lemma AsciiInFront(t: seq<Byte>, k: nat)
    requires k < |t| && t[k] <= 0x7F && Valid(t[k + 1..])
    ensures Valid(t[k..])
  {
    assert t[k..][1..] == t[k + 1..];
  }

  lemma CharacterInFront(s: seq<Byte>, t: seq<Byte>, w: nat)
    requires w == CharLength(s) > 0 && |s| == |t| && t[..w] == s[..w] && Valid(t[w..])
    ensures Valid(t)
  {
    assert t[0] == s[0] by { assert t[0] == t[..w][0] && s[0] == s[..w][0]; }
    assert w > 1 ==> t[1] == s[1] by { assert w > 1 ==> t[1] == t[..w][1] && s[1] == s[..w][1]; }
    assert w > 2 ==> t[2] == s[2] by { assert w > 2 ==> t[2] == t[..w][2] && s[2] == s[..w][2]; }
    assert w > 3 ==> t[3] == s[3] by { assert w > 3 ==> t[3] == t[..w][3] && s[3] == s[..w][3]; }
    assert CharLength(t) == w;
  }

  lemma {:induction false} BlankInFront(s: seq<Byte>, mask: seq<bool>, k: nat)
    requires |mask| == |s| && Aligned(s, mask) && k <= CharLength(s) && k <= |s| && mask != [] && mask[0]
    requires Valid(Blank(s, mask)[k..])
    ensures Valid(Blank(s, mask))
    decreases k
  {
    var t := Blank(s, mask);
    if k == 0 {
      assert t[0..] == t;
    } else {
      MaskedCharacter(s, mask, k - 1);
      AsciiInFront(t, k - 1);
      BlankInFront(s, mask, k - 1);
    }
  }

  lemma KeptInFront(s: seq<Byte>, mask: seq<bool>, w: nat)
    requires |mask| == |s| && Aligned(s, mask) && w == CharLength(s) > 0 && !mask[0] && Valid(Blank(s, mask)[w..])
    ensures Valid(Blank(s, mask))
  {
    forall i | 0 <= i < w ensures Blank(s, mask)[..w][i] == s[..w][i] { MaskedCharacter(s, mask, i); }
    assert Blank(s, mask)[..w] == s[..w];
    CharacterInFront(s, Blank(s, mask), w);
  }

  /** Blanking whole characters keeps the text UTF-8. */
  lemma {:induction false} BlankStaysValid(s: seq<Byte>, mask: seq<bool>)
    requires Valid(s) && |mask| == |s| && Aligned(s, mask)
    ensures Valid(Blank(s, mask))
    decreases |s|
  {
    if s != [] {
      var w := CharLength(s);
      SuffixAligned(s, mask, w);
      BlankStaysValid(s[w..], mask[w..]);
      if mask[0] { BlankInFront(s, mask, w); } else { KeptInFront(s, mask, w); }
    }
  }

  // ----- characters are code points

  /** A lead byte that announces `w` bytes, and the tail bytes. */
  predicate Form(s: seq<Byte>, w: nat) {
    && 1 <= w <= 4 && w <= |s| && (forall i | 1 <= i < w :: 0x80 <= s[i] < 0xC0)
    && if w == 1 then s[0] < 0x80
       else if w == 2 then 0xC0 <= s[0] < 0xE0
       else if w == 3 then 0xE0 <= s[0] < 0xF0
       else 0xF0 <= s[0] < 0xF8
  }

  function Low(b: Byte): int {
    b - 0x80
  }

  /** The number their bits spell, six to a tail byte. */
  function Decode(s: seq<Byte>, w: nat): int
    requires Form(s, w)
  {
    var lead: int := s[0];
    if w == 1 then lead
    else if w == 2 then 64 * (lead - 0xC0) + Low(s[1])
    else if w == 3 then 4096 * (lead - 0xE0) + 64 * Low(s[1]) + Low(s[2])
    else 262144 * (lead - 0xF0) + 4096 * Low(s[1]) + 64 * Low(s[2]) + Low(s[3])
  }

  /** The least number that needs `w` bytes. */
  function Smallest(w: nat): int {
    if w <= 1 then 0 else if w == 2 then 0x80 else if w == 3 then 0x800 else 0x10000
  }

  /** A character is the shortest form of a code point that is no surrogate. */
  lemma CharLengthExactly(s: seq<Byte>, w: nat)
    requires w > 0
    ensures CharLength(s) == w <==>
      Form(s, w) && Smallest(w) <= Decode(s, w) <= 0x10FFFF && !(0xD800 <= Decode(s, w) <= 0xDFFF)
  {
  }

  function Concat(cs: seq<seq<Byte>>): seq<Byte> {
    if cs == [] then [] else cs[0] + Concat(cs[1..])
  }

  ghost predicate Characters(cs: seq<seq<Byte>>) {
    forall i {:trigger cs[i]} | 0 <= i < |cs| :: CharLength(cs[i]) == |cs[i]| > 0
  }

  lemma {:induction false} CharactersAreValid(cs: seq<seq<Byte>>)
    requires Characters(cs)
    ensures Valid(Concat(cs))
    decreases |cs|
  {
    if cs != [] {
      forall i {:trigger cs[1..][i]} | 0 <= i < |cs[1..]| ensures CharLength(cs[1..][i]) == |cs[1..][i]| > 0 {
        assert cs[1..][i] == cs[i + 1];
      }
      CharactersAreValid(cs[1..]);
      assert CharLength(cs[0]) == |cs[0]|;
      CharacterAhead(cs[0], Concat(cs[1..]));
    }
  }

  lemma CharacterAhead(c: seq<Byte>, rest: seq<Byte>)
    requires CharLength(c) == |c| > 0
    ensures CharLength(c + rest) == |c| && (c + rest)[|c|..] == rest
  {
  }

  lemma {:induction false} ValidSplits(s: seq<Byte>) returns (cs: seq<seq<Byte>>)
    requires Valid(s)
    ensures Characters(cs) && Concat(cs) == s
    decreases |s|
  {
    if s == [] {
      cs := [];
    } else {
      var w := CharLength(s);
      var rest := ValidSplits(s[w..]);
      cs := [s[..w]] + rest;
      forall i {:trigger cs[i]} | 0 <= i < |cs| ensures CharLength(cs[i]) == |cs[i]| > 0 {
        if i > 0 { assert cs[i] == rest[i - 1]; }
      }
      assert cs[1..] == rest;
    }
  }

  /** A text is UTF-8 exactly when it is a row of characters. */
  lemma ValidExactly(s: seq<Byte>)
    ensures Valid(s) <==> exists cs :: Characters(cs) && Concat(cs) == s
  {
    if Valid(s) { var cs := ValidSplits(s); }
    forall cs | Characters(cs) && Concat(cs) == s ensures Valid(s) { CharactersAreValid(cs); }
  }
}
