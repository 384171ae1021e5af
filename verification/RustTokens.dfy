/**
  What the lexer's lexemes are, as a grammar: comments that nest, strings with escapes, raw strings with
  their hashes, character literals, and everything else one byte of code at a time.  The lexer cuts every
  text into exactly these.
 */
module RustTokens {
  import opened Basics
  import opened Utf8
  import opened RustLexer

  /** The text has these bytes at `i`. */
  predicate Has(src: seq<Byte>, i: nat, bytes: seq<Byte>) {
    i + |bytes| <= |src| && src[i..i + |bytes|] == bytes
  }

  lemma HasTwo(src: seq<Byte>, i: nat, a: Byte, b: Byte)
    ensures Has(src, i, [a, b]) <==> i + 1 < |src| && src[i] == a && src[i + 1] == b
  {
    if i + 1 < |src| { assert src[i..i + 2] == [src[i], src[i + 1]]; }
  }

  // ----- comments

  /** Neither delimiter of a block comment starts here. */
  predicate Plain(src: seq<Byte>, i: nat) {
    !Has(src, i, Text("/*")) && !Has(src, i, Text("*/"))
  }

  /** `src[a..b]` is a block comment: an opening, a body and the closing that matches. */
  ghost predicate Nested(src: seq<Byte>, a: nat, b: nat)
    decreases b - a, 0
  {
    a + 4 <= b <= |src| && Has(src, a, Text("/*")) && Has(src, b - 2, Text("*/")) && Body(src, a + 2, b - 2)
  }

  /** `src[a..b]` is made of plain bytes and of whole comments. */
  ghost predicate Body(src: seq<Byte>, a: nat, b: nat)
    decreases b - a, 1
  {
    || a == b
    || (a < b && Plain(src, a) && Body(src, a + 1, b))
    || exists c {:trigger Nested(src, a, c)} :: a < c <= b && Nested(src, a, c) && Body(src, c, b)
  }

  lemma Delimiters(src: seq<Byte>, i: nat)
    ensures Has(src, i, Text("/*")) <==> Opens(src, i)
    ensures Has(src, i, Text("*/")) <==> Closes(src, i)
    ensures Has(src, i, Text("//")) <==> At(src, i) == SLASH && At(src, i + 1) == SLASH
  {
    assert Text("/*") == [SLASH, STAR] && Text("*/") == [STAR, SLASH] && Text("//") == [SLASH, SLASH];
    HasTwo(src, i, SLASH, STAR);
    HasTwo(src, i, STAR, SLASH);
    HasTwo(src, i, SLASH, SLASH);
  }

  /** The scan passes over a body at its depth. */
  lemma {:induction false} BodyPassed(src: seq<Byte>, a: nat, b: nat, depth: nat)
    requires a <= b <= |src| && depth > 0 && Body(src, a, b)
    ensures BlockEnd(src, a, depth) == BlockEnd(src, b, depth)
    decreases b - a, 1
  {
    if a < b {
      Delimiters(src, a);
      if Plain(src, a) && Body(src, a + 1, b) {
        BodyPassed(src, a + 1, b, depth);
      } else {
        var c :| a < c <= b && Nested(src, a, c) && Body(src, c, b);
        NestedPassed(src, a, c, depth);
        BodyPassed(src, c, b, depth);
      }
    }
  }

  lemma {:induction false} NestedPassed(src: seq<Byte>, a: nat, b: nat, depth: nat)
    requires Nested(src, a, b)
    ensures BlockEnd(src, a, depth) == if depth == 0 then b else BlockEnd(src, b, depth)
    decreases b - a, 0
  {
    OpeningPassed(src, a, depth);
    BodyPassed(src, a + 2, b - 2, depth + 1);
    ClosingPassed(src, b - 2, depth);
  }

  lemma OpeningPassed(src: seq<Byte>, a: nat, depth: nat)
    requires Has(src, a, Text("/*"))
    ensures BlockEnd(src, a, depth) == BlockEnd(src, a + 2, depth + 1)
  {
    Delimiters(src, a);
  }

  lemma ClosingPassed(src: seq<Byte>, c: nat, depth: nat)
    requires Has(src, c, Text("*/"))
    ensures BlockEnd(src, c, depth + 1) == if depth == 0 then c + 2 else BlockEnd(src, c + 2, depth)
  {
    Delimiters(src, c);
  }

  lemma BodyFromByte(src: seq<Byte>, a: nat, b: nat)
    requires a < b && !Opens(src, a) && !Closes(src, a) && Body(src, a + 1, b)
    ensures Body(src, a, b)
  {
    Delimiters(src, a);
  }

  lemma NestedFromBody(src: seq<Byte>, a: nat, c: nat)
    requires Opens(src, a) && a + 2 <= c && c + 2 <= |src| && Body(src, a + 2, c) && Closes(src, c)
    ensures Nested(src, a, c + 2)
  {
    Delimiters(src, a);
    Delimiters(src, c);
  }

  /** The closing that brings the scan one level up lies at `b`, or there is none. */
  ghost predicate Stops(src: seq<Byte>, j: nat, depth: nat, b: Option<nat>) {
    && j <= |src| && (b.None? ==> BlockEnd(src, j, depth) == |src|)
    && (b.Some? ==> j <= b.value && b.value + 2 <= |src| && Body(src, j, b.value) && Closes(src, b.value))
  }

  lemma StopsPastByte(src: seq<Byte>, j: nat, depth: nat, b: Option<nat>)
    requires j < |src| && !Opens(src, j) && !Closes(src, j) && Stops(src, j + 1, depth, b)
    ensures Stops(src, j, depth, b)
  {
    if b.Some? { BodyFromByte(src, j, b.value); }
  }

  lemma StopsPastNested(src: seq<Byte>, j: nat, depth: nat, c: nat, b: Option<nat>)
    requires j < |src| && depth > 0 && Nested(src, j, c) && Stops(src, c, depth, b)
    ensures Stops(src, j, depth, b)
  {
    NestedPassed(src, j, c, depth);
  }

  lemma NeverStops(src: seq<Byte>, j: nat, depth: nat)
    requires j < |src| && Opens(src, j) && Stops(src, j + 2, depth + 1, None)
    ensures Stops(src, j, depth, None)
  {
  }

  lemma {:induction false} FirstClose(src: seq<Byte>, j: nat, depth: nat) returns (b: Option<nat>)
    requires j <= |src| && depth > 0
    ensures Stops(src, j, depth, b)
    decreases |src| - j
  {
    if j == |src| {
      b := None;
    } else if Opens(src, j) {
      b := FirstClose(src, j + 2, depth + 1);
      if b.None? {
        NeverStops(src, j, depth);
      } else {
        b := AfterNested(src, j, depth, b.value);
      }
    } else if Closes(src, j) {
      b := Some(j);
    } else {
      b := FirstClose(src, j + 1, depth);
      StopsPastByte(src, j, depth, b);
    }
  }

  lemma {:induction false} AfterNested(src: seq<Byte>, j: nat, depth: nat, c: nat) returns (b: Option<nat>)
    requires j < |src| && depth > 0 && Opens(src, j) && Stops(src, j + 2, depth + 1, Some(c))
    ensures Stops(src, j, depth, b)
    decreases |src| - j, 0
  {
    NestedFromBody(src, j, c);
    b := FirstClose(src, c + 2, depth);
    StopsPastNested(src, j, depth, c + 2, b);
  }

  ghost predicate Closed(src: seq<Byte>, i: nat) {
    exists e: nat :: Nested(src, i, e)
  }

  /** A block comment ends with the closing that matches its opening, and with the text when none does. */
  ghost predicate BlockEnds(src: seq<Byte>, i: nat, e: nat) {
    if Closed(src, i) then Nested(src, i, e) else e == |src|
  }

  lemma BlockEndExactly(src: seq<Byte>, i: nat, e: nat)
    requires Opens(src, i)
    ensures e == BlockEnd(src, i, 0) <==> BlockEnds(src, i, e)
  {
    forall f: nat | Nested(src, i, f) ensures f == BlockEnd(src, i, 0) { NestedPassed(src, i, f, 0); }
    var c := FirstClose(src, i + 2, 1);
    if c.Some? { NestedFromBody(src, i, c.value); }
  }

  /** A line comment ends at the first line break, or with the text. */
  ghost predicate LineEnds(src: seq<Byte>, i: nat, e: nat) {
    && i <= e <= |src| && (e < |src| ==> src[e] == '\n' as int)
    && forall p | i <= p < e :: src[p] != '\n' as int
  }

  // ----- raw strings

  function Hashes(k: nat): (bytes: seq<Byte>)
    ensures |bytes| == k && forall i | 0 <= i < k :: bytes[i] == HASH
  {
    seq(k, _ => HASH)
  }

  /** Letters, digits and the underscore. */
  predicate Word(b: Byte) {
    var c := b as char;
    'a' <= c <= 'z' || 'A' <= c <= 'Z' || '0' <= c <= '9' || c == '_'
  }

  predicate AfterWord(src: seq<Byte>, i: nat) {
    0 < i <= |src| && Word(src[i - 1])
  }

  /** An `r` or `br` that continues no word, `k` hashes, and the quote at `q`. */
  ghost predicate RawOpens(src: seq<Byte>, i: nat, k: nat, q: nat) {
    && !AfterWord(src, i)
    && ((Has(src, i, Text("r") + Hashes(k) + Text("\"")) && q == i + 1 + k)
        || (Has(src, i, Text("br") + Hashes(k) + Text("\"")) && q == i + 2 + k))
  }

  /** The quote and as many hashes again. */
  predicate RawStops(src: seq<Byte>, p: nat, k: nat) {
    Has(src, p, Text("\"") + Hashes(k))
  }

  lemma RawStopsExactly(src: seq<Byte>, p: nat, k: nat)
    ensures RawStops(src, p, k) <==> RawCloses(src, p, k)
  {
    var stop := Text("\"") + Hashes(k);
    assert stop[0] == QUOTE && forall e | 0 < e <= k :: stop[e] == HASH;
    if RawStops(src, p, k) {
      forall e | 0 <= e <= k ensures src[p + e] == stop[e] { assert src[p..p + |stop|][e] == src[p + e]; }
      forall e | p < e <= p + k ensures src[e] == HASH { assert src[p + (e - p)] == stop[e - p]; }
    }
    if RawCloses(src, p, k) {
      assert src[p..p + |stop|] == stop;
    }
  }

  /** Letters and hashes up to a quote. */
  lemma HasOpening(src: seq<Byte>, i: nat, head: seq<Byte>, k: nat)
    ensures Has(src, i, head + Hashes(k) + Text("\"")) <==>
      && Has(src, i, head) && i + |head| + k < |src| && src[i + |head| + k] == QUOTE
      && forall e | i + |head| <= e < i + |head| + k :: src[e] == HASH
  {
    var n := |head|;
    var open := head + Hashes(k) + Text("\"");
    assert open[..n] == head && open[n + k] == QUOTE && forall e | n <= e < n + k :: open[e] == HASH;
    if Has(src, i, open) {
      assert src[i..i + n] == src[i..i + |open|][..n];
      forall e | 0 <= e < |open| ensures src[i + e] == open[e] { assert src[i..i + |open|][e] == src[i + e]; }
      forall e | i + n <= e < i + n + k ensures src[e] == HASH { assert src[i + (e - i)] == open[e - i]; }
    }
    if && Has(src, i, head) && i + n + k < |src| && src[i + n + k] == QUOTE
       && forall e | i + n <= e < i + n + k :: src[e] == HASH
    {
      forall e | 0 <= e < |open| ensures src[i..i + |open|][e] == open[e] {
        if e < n { assert src[i..i + n][e] == src[i + e]; }
      }
      assert src[i..i + |open|] == open;
    }
  }

  /** A run of hashes before a quote is the whole run. */
  lemma {:induction false} HashRunIs(src: seq<Byte>, j: nat, k: nat)
    requires j + k < |src| && src[j + k] == QUOTE && forall e | j <= e < j + k :: src[e] == HASH
    ensures HashRun(src, j) == k
    decreases k
  {
    if k > 0 { HashRunIs(src, j + 1, k - 1); }
  }

  lemma Heads(src: seq<Byte>, i: nat)
    requires i < |src|
    ensures Has(src, i, Text("r")) <==> src[i] == LOWER_R
    ensures Has(src, i, Text("br")) <==> src[i] == LOWER_B && At(src, i + 1) == LOWER_R
    ensures AfterWord(src, i) <==> i > 0 && IdentifierByte(src[i - 1])
  {
    assert Text("r") == [LOWER_R] && src[i..i + 1] == [src[i]];
    assert Text("br") == [LOWER_B, LOWER_R];
    HasTwo(src, i, LOWER_B, LOWER_R);
  }

  lemma RawOpensIf(src: seq<Byte>, i: nat)
    requires i < |src| && RawOpen(src, i).Some?
    ensures var q := RawOpen(src, i).value; RawOpens(src, i, q - RawStart(src, i).value, q)
  {
    var q, s := RawOpen(src, i).value, RawStart(src, i).value;
    Heads(src, i);
    HasOpening(src, i, Text("r"), q - s);
    HasOpening(src, i, Text("br"), q - s);
  }

  lemma RawOpensOnlyIf(src: seq<Byte>, i: nat, k: nat, q: nat)
    requires i < |src| && RawOpens(src, i, k, q)
    ensures RawOpen(src, i) == Some(q) && RawStart(src, i).Some? && k == q - RawStart(src, i).value
  {
    Heads(src, i);
    HasOpening(src, i, Text("r"), k);
    HasOpening(src, i, Text("br"), k);
    RawRun(src, i, q - k, k);
  }

  lemma RawRun(src: seq<Byte>, i: nat, s: nat, k: nat)
    requires i < |src| && s + k < |src| && src[s + k] == QUOTE && forall e | s <= e < s + k :: src[e] == HASH
    requires !(i > 0 && IdentifierByte(src[i - 1]))
    requires if src[i] == LOWER_R then s == i + 1 else src[i] == LOWER_B && At(src, i + 1) == LOWER_R && s == i + 2
    ensures RawStart(src, i) == Some(s) && RawOpen(src, i) == Some(s + k)
  {
    HashRunIs(src, s, k);
    assert src[s] in {QUOTE, HASH};
  }

  /** The first place at or after `j` where a raw string with `k` hashes stops. */
  ghost predicate RawBody(src: seq<Byte>, j: nat, k: nat, t: Lexeme) {
    && t.kind == Lit && t.from == j <= t.to && (forall p | j <= p < t.to :: !RawStops(src, p, k))
    && if RawStops(src, t.to, k) then t.end == t.to + 1 + k else t.to == t.end == |src|
  }

  lemma RawBodyExactly(src: seq<Byte>, i: nat, k: nat, q: nat)
    requires i < |src| && RawStart(src, i).Some? && RawOpen(src, i) == Some(q) && k == q - RawStart(src, i).value
    ensures RawBody(src, q + 1, k, RawLexeme(src, i, q))
  {
    var e := RawEnd(src, q + 1, k);
    forall p | q + 1 <= p <= e ensures RawStops(src, p, k) <==> RawCloses(src, p, k) { RawStopsExactly(src, p, k); }
  }

  // ----- strings

  /** How many backslashes stand directly before `p`, none of them before `j`. */
  function Backslashes(src: seq<Byte>, j: nat, p: nat): nat
    requires j <= p <= |src|
  {
    if p > j && src[p - 1] == '\\' as int then 1 + Backslashes(src, j, p - 1) else 0
  }

  /** A quote that is not escaped: an even number of backslashes leads up to it. */
  predicate StringStops(src: seq<Byte>, j: nat, p: nat) {
    j <= p < |src| && src[p] == '"' as int && Backslashes(src, j, p) % 2 == 0
  }

  /** The body of a string from `j`, up to the first quote that is not escaped. */
  ghost predicate StringBody(src: seq<Byte>, j: nat, t: Lexeme) {
    && t.kind == Lit && t.from == j && (forall p | j <= p < t.to :: !StringStops(src, j, p))
    && if StringStops(src, j, t.to) then t.end == t.to + 1 else t.to == |src| < t.end
  }

  /** The scan from an unescaped place stops at the first unescaped quote. */
  lemma {:induction false} StringEndFrom(src: seq<Byte>, j: nat, p: nat)
    requires j <= p <= |src| && Backslashes(src, j, p) % 2 == 0
    ensures var e := StringEnd(src, p);
      && (forall x | p <= x < e :: !StringStops(src, j, x))
      && (e < |src| ==> StringStops(src, j, e))
    decreases |src| - p
  {
    if p < |src| && src[p] == BACKSLASH {
      assert Backslashes(src, j, p + 1) == 1 + Backslashes(src, j, p);
      if p + 2 <= |src| { StringEndFrom(src, j, p + 2); }
    } else if p < |src| && src[p] != QUOTE {
      StringEndFrom(src, j, p + 1);
    }
  }

  lemma StringBodyExactly(src: seq<Byte>, j: nat)
    requires j <= |src|
    ensures var q := StringEnd(src, j); StringBody(src, j, Lexeme(Lit, j, Least(q, |src|), q + 1))
  {
    StringEndFrom(src, j, j);
  }

  // ----- character literals

  predicate Lead(src: seq<Byte>, p: nat, w: nat) {
    && p < |src|
    && ((w == 2 && 0xC0 <= src[p] <= 0xDF) || (w == 3 && 0xE0 <= src[p] <= 0xEF) || (w == 4 && 0xF0 <= src[p]))
  }

  /** A character of `w` bytes between apostrophes. */
  predicate Wide(src: seq<Byte>, i: nat, w: nat) {
    Lead(src, i + 1, w) && Has(src, i + 1 + w, Text("'"))
  }

  /** The body of an escape from `i + 1`, up to the first apostrophe past the escaped character. */
  ghost predicate EscapeBody(src: seq<Byte>, i: nat, t: Lexeme) {
    && t.kind == Lit && t.from == i + 1 && t.to <= |src|
    && (forall p | i + 3 <= p < t.to :: src[p] != '\'' as int)
    && if i + 3 <= t.to < |src| then src[t.to] == '\'' as int && t.end == t.to + 1 else t.to == |src| < t.end
  }

  predicate CodeByte(i: nat, t: Lexeme) {
    t == Lexeme(Code, i, i, i + 1)
  }

  /** An escape, one character between apostrophes, or the start of a lifetime. */
  ghost predicate Quoted(src: seq<Byte>, i: nat, t: Lexeme) {
    if Has(src, i + 1, Text("\\")) then EscapeBody(src, i, t)
    else if Has(src, i + 2, Text("'")) && !Has(src, i + 1, Text("'")) then t == Lexeme(Lit, i + 1, i + 2, i + 3)
    else if exists w: nat :: Wide(src, i, w) then
      exists w: nat :: Wide(src, i, w) && t == Lexeme(Lit, i + 1, i + 1 + w, i + w + 2)
    else CodeByte(i, t)
  }

  lemma HasOne(src: seq<Byte>, i: nat)
    ensures Has(src, i, Text("'")) <==> At(src, i) == APOSTROPHE
    ensures Has(src, i, Text("\\")) <==> At(src, i) == BACKSLASH
    ensures Has(src, i, Text("\"")) <==> At(src, i) == QUOTE
  {
    assert Text("'") == [APOSTROPHE] && Text("\\") == [BACKSLASH] && Text("\"") == [QUOTE];
    if i < |src| { assert src[i..i + 1] == [src[i]]; }
  }

  lemma QuotedExactly(src: seq<Byte>, i: nat)
    requires i < |src| && src[i] == APOSTROPHE
    ensures Quoted(src, i, CharLexeme(src, i))
  {
    HasOne(src, i + 1);
    HasOne(src, i + 2);
    var next := At(src, i + 1);
    var w := Width(next);
    HasOne(src, i + 1 + w);
    if next != BACKSLASH && !(next != APOSTROPHE && At(src, i + 2) == APOSTROPHE) {
      forall v: nat | Wide(src, i, v) ensures v == w {}
      if w > 0 && At(src, i + 1 + w) == APOSTROPHE { assert Wide(src, i, w); }
    }
  }

  /** In UTF-8 a character literal that is no escape holds exactly one character. */
  lemma OneCharacter(src: seq<Byte>, i: nat)
    requires i + 1 < |src| && src[i] == APOSTROPHE && src[i + 1] != BACKSLASH && CharLength(src[i + 1..]) > 0
    ensures var t, w := CharLexeme(src, i), CharLength(src[i + 1..]);
      t.kind == Lit ==> t.from == i + 1 && t.to == i + 1 + w
    ensures src[i + 1] != APOSTROPHE ==>
      (CharLexeme(src, i).kind == Lit <==> At(src, i + 1 + CharLength(src[i + 1..])) == APOSTROPHE)
  {
  }

  // ----- tokens

  ghost predicate RawAt(src: seq<Byte>, i: nat) {
    exists k: nat, q: nat :: RawOpens(src, i, k, q)
  }

  /** The token at `i`. */
  ghost predicate Token(src: seq<Byte>, i: nat, t: Lexeme) {
    if Has(src, i, Text("//")) then t == Lexeme(Comment, i, t.end, t.end) && LineEnds(src, i, t.end)
    else if Has(src, i, Text("/*")) then t == Lexeme(Comment, i, t.end, t.end) && BlockEnds(src, i, t.end)
    else if RawAt(src, i) then exists k: nat, q: nat :: RawOpens(src, i, k, q) && RawBody(src, q + 1, k, t)
    else if Has(src, i, Text("\"")) then StringBody(src, i + 1, t)
    else if Has(src, i, Text("'")) then Quoted(src, i, t)
    else CodeByte(i, t)
  }

  /** The lexer's lexeme is the token. */
  lemma LexemeIsToken(src: seq<Byte>, i: nat)
    requires i < |src|
    ensures Token(src, i, LexemeAt(src, i))
  {
    Delimiters(src, i);
    HasOne(src, i);
    if Has(src, i, Text("//")) {
    } else if Has(src, i, Text("/*")) {
      BlockEndExactly(src, i, BlockEnd(src, i, 0));
    } else {
      LiteralIsToken(src, i);
    }
  }

  lemma LiteralIsToken(src: seq<Byte>, i: nat)
    requires i < |src| && !Has(src, i, Text("//")) && !Has(src, i, Text("/*"))
    ensures Token(src, i, LexemeAt(src, i))
  {
    Delimiters(src, i);
    HasOne(src, i);
    if RawOpen(src, i).Some? {
      RawOpensIf(src, i);
      var q := RawOpen(src, i).value;
      RawBodyExactly(src, i, q - RawStart(src, i).value, q);
    } else {
      forall k: nat, q: nat ensures !RawOpens(src, i, k, q) {
        if RawOpens(src, i, k, q) { RawOpensOnlyIf(src, i, k, q); }
      }
      if src[i] == QUOTE {
        StringBodyExactly(src, i + 1);
      } else if src[i] == APOSTROPHE {
        QuotedExactly(src, i);
      }
    }
  }

  ghost predicate SameToken(src: seq<Byte>, t: Lexeme, u: Lexeme) {
    t.kind == u.kind && t.from == u.from && t.to == u.to && Least(t.end, |src|) == Least(u.end, |src|)
  }

  lemma RawBodyUnique(src: seq<Byte>, j: nat, k: nat, t: Lexeme, u: Lexeme)
    requires RawBody(src, j, k, t) && RawBody(src, j, k, u) && j <= |src|
    ensures SameToken(src, t, u)
  {
  }

  lemma RawTokenUnique(src: seq<Byte>, i: nat, k: nat, q: nat, t: Lexeme, k': nat, q': nat, u: Lexeme)
    requires i < |src| && RawOpens(src, i, k, q) && RawBody(src, q + 1, k, t)
    requires RawOpens(src, i, k', q') && RawBody(src, q' + 1, k', u)
    ensures SameToken(src, t, u)
  {
    RawOpensOnlyIf(src, i, k, q);
    RawOpensOnlyIf(src, i, k', q');
    RawBodyUnique(src, q + 1, k, t, u);
  }

  lemma StringUnique(src: seq<Byte>, j: nat, t: Lexeme, u: Lexeme)
    requires StringBody(src, j, t) && StringBody(src, j, u)
    ensures SameToken(src, t, u)
  {
  }

  lemma CommentUnique(src: seq<Byte>, i: nat, e: nat, f: nat)
    requires Has(src, i, Text("/*")) && BlockEnds(src, i, e) && BlockEnds(src, i, f)
    ensures e == f
  {
    Delimiters(src, i);
    BlockEndExactly(src, i, e);
    BlockEndExactly(src, i, f);
  }

  /** There is one token at each place, up to how far past the end of the text it is said to run. */
  lemma TokenUnique(src: seq<Byte>, i: nat, t: Lexeme, u: Lexeme)
    requires i < |src| && Token(src, i, t) && Token(src, i, u)
    ensures SameToken(src, t, u)
  {
    if Has(src, i, Text("//")) {
    } else if Has(src, i, Text("/*")) {
      CommentUnique(src, i, t.end, u.end);
    } else if RawAt(src, i) {
      var k: nat, q: nat :| RawOpens(src, i, k, q) && RawBody(src, q + 1, k, t);
      var k': nat, q': nat :| RawOpens(src, i, k', q') && RawBody(src, q' + 1, k', u);
      RawTokenUnique(src, i, k, q, t, k', q', u);
    } else if Has(src, i, Text("\"")) {
      StringUnique(src, i + 1, t, u);
    } else if Has(src, i, Text("'")) {
      QuotedUnique(src, i, t, u);
    }
  }

  lemma QuotedUnique(src: seq<Byte>, i: nat, t: Lexeme, u: Lexeme)
    requires i < |src| && Quoted(src, i, t) && Quoted(src, i, u)
    ensures SameToken(src, t, u)
  {
  }

  // ----- the whole text

  /** The token `k` starts where the one before ends. */
  ghost predicate Follows(src: seq<Byte>, i: nat, starts: seq<nat>, ts: seq<Lexeme>, k: nat)
    requires |starts| == |ts| && k < |ts|
  {
    starts[k] == (if k == 0 then i else ts[k - 1].end) < |src| && Token(src, starts[k], ts[k])
  }

  /** The tokens of the text from `i` on, each starting where the one before ends. */
  ghost predicate Lexing(src: seq<Byte>, i: nat, starts: seq<nat>, ts: seq<Lexeme>) {
    && |starts| == |ts| && (ts == [] <==> i >= |src|)
    && (forall k: nat {:trigger Follows(src, i, starts, ts, k)} | k < |ts| :: Follows(src, i, starts, ts, k))
    && (ts != [] ==> |src| <= ts[|ts| - 1].end)
  }

  /** Every byte has the kind of the token whose body holds it, and is code outside all bodies. */
  ghost predicate KindsOf(kinds: seq<Kind>, ts: seq<Lexeme>) {
    && (forall k, p {:trigger ts[k], kinds[p]} | 0 <= k < |ts| && 0 <= p < |kinds| && ts[k].from <= p < ts[k].to ::
        kinds[p] == ts[k].kind)
    && (forall p {:trigger kinds[p]} | 0 <= p < |kinds| && kinds[p] != Code ::
        exists k {:trigger ts[k]} :: 0 <= k < |ts| && ts[k].from <= p < ts[k].to)
  }

  ghost predicate StartAt(src: seq<Byte>, i: nat, starts: seq<nat>, ts: seq<Lexeme>, k: nat)
    requires |starts| == |ts| && k < |ts|
  {
    starts[k] < |src| && Starts(src, i, starts[k]) && ts[k] == LexemeAt(src, starts[k])
  }

  ghost predicate AllStarts(src: seq<Byte>, i: nat, starts: seq<nat>, ts: seq<Lexeme>) {
    && |starts| == |ts|
    && (forall k: nat {:trigger StartAt(src, i, starts, ts, k)} | k < |ts| :: StartAt(src, i, starts, ts, k))
    && (forall s {:trigger Starts(src, i, s)} | Starts(src, i, s) :: s in starts)
  }

  lemma StartsStep(src: seq<Byte>, i: nat, s: nat)
    requires i < |src|
    ensures Starts(src, i, s) <==> s == i || Starts(src, LexemeAt(src, i).end, s)
  {
    LexemeFacts(src, i);
  }

  lemma StartsMore(src: seq<Byte>, i: nat, t: Lexeme, starts: seq<nat>, ts: seq<Lexeme>, k: nat)
    requires i < |src| && t == LexemeAt(src, i) && |starts| == |ts| && k < |ts| && StartAt(src, t.end, starts, ts, k)
    ensures StartAt(src, i, [i] + starts, [t] + ts, k + 1)
  {
    StartsStep(src, i, starts[k]);
  }

  lemma AllStartsMore(src: seq<Byte>, i: nat, t: Lexeme, starts: seq<nat>, ts: seq<Lexeme>)
    requires i < |src| && t == LexemeAt(src, i) && AllStarts(src, t.end, starts, ts)
    ensures AllStarts(src, i, [i] + starts, [t] + ts)
  {
    var starts', ts' := [i] + starts, [t] + ts;
    StartsStep(src, i, i);
    forall k: nat {:trigger StartAt(src, i, starts', ts', k)} | k < |ts'| ensures StartAt(src, i, starts', ts', k) {
      if k > 0 { StartsMore(src, i, t, starts, ts, k - 1); }
    }
    forall s {:trigger Starts(src, i, s)} | Starts(src, i, s) ensures s in starts' { StartsStep(src, i, s); }
  }

  lemma {:induction false} LexFrom(src: seq<Byte>, i: nat) returns (starts: seq<nat>, ts: seq<Lexeme>)
    ensures Lexing(src, i, starts, ts)
    ensures AllStarts(src, i, starts, ts)
    decreases |src| - i
  {
    if i >= |src| {
      starts, ts := [], [];
    } else {
      LexemeFacts(src, i);
      LexemeIsToken(src, i);
      var t := LexemeAt(src, i);
      starts, ts := LexFrom(src, t.end);
      LexingMore(src, i, t, starts, ts);
      AllStartsMore(src, i, t, starts, ts);
      starts, ts := [i] + starts, [t] + ts;
    }
  }

  lemma FollowsMore(src: seq<Byte>, i: nat, t: Lexeme, starts: seq<nat>, ts: seq<Lexeme>, k: nat)
    requires |starts| == |ts| && k < |ts| && Follows(src, t.end, starts, ts, k)
    ensures Follows(src, i, [i] + starts, [t] + ts, k + 1)
  {
  }

  lemma LexingMore(src: seq<Byte>, i: nat, t: Lexeme, starts: seq<nat>, ts: seq<Lexeme>)
    requires i < |src| && Token(src, i, t) && Lexing(src, t.end, starts, ts)
    ensures Lexing(src, i, [i] + starts, [t] + ts)
  {
    var starts', ts' := [i] + starts, [t] + ts;
    forall k: nat {:trigger Follows(src, i, starts', ts', k)} | k < |ts'| ensures Follows(src, i, starts', ts', k) {
      if k > 0 { FollowsMore(src, i, t, starts, ts, k - 1); }
    }
  }

  /** The lexer cuts the text into its tokens and gives every byte the kind of its token. */
  lemma KindsAreTokens(src: seq<Byte>) returns (starts: seq<nat>, ts: seq<Lexeme>)
    ensures Lexing(src, 0, starts, ts) && KindsOf(Kinds(src), ts)
  {
    starts, ts := LexFrom(src, 0);
    var kinds := Kinds(src);
    forall k, p {:trigger ts[k], kinds[p]} | 0 <= k < |ts| && 0 <= p < |src| && ts[k].from <= p < ts[k].to
      ensures kinds[p] == ts[k].kind
    {
      assert StartAt(src, 0, starts, ts, k);
      CoveredKind(src, starts[k], p);
    }
    forall p {:trigger kinds[p]} | 0 <= p < |src| && kinds[p] != Code
      ensures exists k {:trigger ts[k]} :: 0 <= k < |ts| && ts[k].from <= p < ts[k].to
    {
      var s := CoverOf(src, p);
      var k :| 0 <= k < |starts| && starts[k] == s;
      assert StartAt(src, 0, starts, ts, k);
    }
  }
}
