/**
  The mini-lexer of the source guards: every byte of a Rust source is code, comment, or the body of a
  string or character literal.
 */
module RustLexer {
  import opened Basics
  import opened Utf8

  datatype Kind = Code | Comment | Lit

  const QUOTE: Byte := '"' as int
  const HASH: Byte := '#' as int
  const APOSTROPHE: Byte := '\'' as int
  const STAR: Byte := '*' as int
  const SLASH: Byte := '/' as int
  const BACKSLASH: Byte := '\\' as int
  const LOWER_B: Byte := 'b' as int
  const LOWER_R: Byte := 'r' as int

  function At(src: seq<Byte>, i: nat): Byte {
    if i < |src| then src[i] else 0
  }

  function Least(a: nat, b: nat): nat {
    if a < b then a else b
  }

  // ----- where things end

  function LineEnd(src: seq<Byte>, j: nat): (e: nat)
    requires j <= |src|
    ensures j <= e <= |src| && (e < |src| ==> src[e] == NEWLINE)
    ensures forall k | j <= k < e :: src[k] != NEWLINE
    decreases |src| - j
  {
    if j == |src| || src[j] == NEWLINE then j else LineEnd(src, j + 1)
  }

  predicate Opens(src: seq<Byte>, j: nat) {
    At(src, j) == SLASH && At(src, j + 1) == STAR
  }

  predicate Closes(src: seq<Byte>, j: nat) {
    At(src, j) == STAR && At(src, j + 1) == SLASH
  }

  /** The end of a block comment, `depth` levels deep at `j`. */
  function BlockEnd(src: seq<Byte>, j: nat, depth: nat): (e: nat)
    requires j <= |src|
    ensures j <= e <= |src| && (e < |src| ==> j < e && src[e - 1] == SLASH)
    decreases |src| - j
  {
    if j == |src| then j
    else if Opens(src, j) then BlockEnd(src, j + 2, depth + 1)
    else if Closes(src, j) then if depth <= 1 then j + 2 else BlockEnd(src, j + 2, depth - 1)
    else BlockEnd(src, j + 1, depth)
  }

  function HashRun(src: seq<Byte>, j: nat): (k: nat)
    requires j <= |src|
    ensures j + k <= |src| && At(src, j + k) != HASH && forall e | j <= e < j + k :: src[e] == HASH
    decreases |src| - j
  {
    if j < |src| && src[j] == HASH then 1 + HashRun(src, j + 1) else 0
  }

  predicate RawCloses(src: seq<Byte>, j: nat, hashes: nat) {
    j + hashes < |src| && src[j] == QUOTE && forall e | j < e <= j + hashes :: src[e] == HASH
  }

  /** The quote that ends a raw string, or the end of the text. */
  function RawEnd(src: seq<Byte>, j: nat, hashes: nat): (e: nat)
    requires j <= |src|
    ensures j <= e <= |src| && (e < |src| ==> RawCloses(src, e, hashes))
    ensures forall k | j <= k < e :: !RawCloses(src, k, hashes)
    decreases |src| - j
  {
    if j == |src| || RawCloses(src, j, hashes) then j else RawEnd(src, j + 1, hashes)
  }

  /** The quote that ends a string; a final backslash steps past the end. */
  function StringEnd(src: seq<Byte>, j: nat): (e: nat)
    ensures j <= e && (e < |src| ==> src[e] == QUOTE)
    decreases |src| - j
  {
    if j >= |src| || src[j] == QUOTE then j
    else if src[j] == BACKSLASH then StringEnd(src, j + 2)
    else StringEnd(src, j + 1)
  }

  function CharEnd(src: seq<Byte>, j: nat): (e: nat)
    ensures j <= e && (e < |src| ==> src[e] == APOSTROPHE) && (j <= |src| ==> e <= |src|)
    ensures forall k | j <= k < e && k < |src| :: src[k] != APOSTROPHE
    decreases |src| - j
  {
    if j >= |src| || src[j] == APOSTROPHE then j else CharEnd(src, j + 1)
  }

  // ----- lexemes

  /** Bytes `from` to `to - 1` are of this kind; the next lexeme starts at `end`. */
  datatype Lexeme = Lexeme(kind: Kind, from: nat, to: nat, end: nat)

  predicate IdentifierByte(b: Byte) {
    48 <= b <= 57 || 65 <= b <= 90 || 97 <= b <= 122 || b == 95
  }

  /** Where the hashes of a raw string would start, if one may start here. */
  function RawStart(src: seq<Byte>, i: nat): (r: Option<nat>)
    requires i < |src|
    ensures r.Some? ==> i < r.value < |src|
  {
    if i > 0 && IdentifierByte(src[i - 1]) then None
    else if src[i] == LOWER_R && At(src, i + 1) in {QUOTE, HASH} then Some(i + 1)
    else if src[i] == LOWER_B && At(src, i + 1) == LOWER_R && At(src, i + 2) in {QUOTE, HASH} then Some(i + 2)
    else None
  }

  /** The quote that opens a raw string starting at `i`. */
  function RawOpen(src: seq<Byte>, i: nat): (r: Option<nat>)
    requires i < |src|
    ensures r.Some? ==> i < r.value < |src| && src[r.value] == QUOTE
  {
    match RawStart(src, i)
    case None => None
    case Some(s) => var q := s + HashRun(src, s); if At(src, q) == QUOTE then Some(q) else None
  }

  function Width(b: Byte): nat {
    if b >= 0xF0 then 4 else if b >= 0xE0 then 3 else if b >= 0xC0 then 2 else 0
  }

  function CharLexeme(src: seq<Byte>, i: nat): Lexeme
    requires i < |src|
  {
    var next := At(src, i + 1);
    if next == BACKSLASH then
      var q := CharEnd(src, i + 3);
      Lexeme(Lit, i + 1, Least(q, |src|), q + 1)
    else if next != APOSTROPHE && At(src, i + 2) == APOSTROPHE then Lexeme(Lit, i + 1, i + 2, i + 3)
    else if Width(next) > 0 && At(src, i + 1 + Width(next)) == APOSTROPHE then
      Lexeme(Lit, i + 1, i + 1 + Width(next), i + Width(next) + 2)
    else Lexeme(Code, i, i, i + 1)
  }

  function RawLexeme(src: seq<Byte>, i: nat, open: nat): Lexeme
    requires i < open < |src| && RawStart(src, i).Some? && RawStart(src, i).value <= open
  {
    var hashes := open - RawStart(src, i).value;
    var q := RawEnd(src, open + 1, hashes);
    Lexeme(Lit, open + 1, q, if q < |src| then q + 1 + hashes else q)
  }

  function LexemeAt(src: seq<Byte>, i: nat): Lexeme
    requires i < |src|
  {
    if src[i] == SLASH && At(src, i + 1) == SLASH then Lexeme(Comment, i, LineEnd(src, i), LineEnd(src, i))
    else if Opens(src, i) then Lexeme(Comment, i, BlockEnd(src, i, 0), BlockEnd(src, i, 0))
    else if RawOpen(src, i).Some? then RawLexeme(src, i, RawOpen(src, i).value)
    else if src[i] == QUOTE then
      var q := StringEnd(src, i + 1);
      Lexeme(Lit, i + 1, Least(q, |src|), q + 1)
    else if src[i] == APOSTROPHE then CharLexeme(src, i)
    else Lexeme(Code, i, i, i + 1)
  }

  lemma LexemeFacts(src: seq<Byte>, i: nat)
    requires i < |src|
    ensures var t := LexemeAt(src, i);
      && i <= t.from <= t.to <= |src| && t.to <= t.end && i < t.end
      && (t.kind == Code ==> t.from == t.to)
      && (t.kind == Comment ==> t.from == i && src[i] == SLASH && t.to == t.end)
      && (t.kind == Comment && t.end < |src| ==> src[t.end - 1] == SLASH || src[t.end] == NEWLINE)
      && (t.kind == Lit ==> i < t.from && src[t.from - 1] in {QUOTE, APOSTROPHE})
  {
    if src[i] == SLASH && At(src, i + 1) == SLASH {
      assert LineEnd(src, i) == LineEnd(src, i + 1);
    } else if Opens(src, i) {
      assert BlockEnd(src, i, 0) == BlockEnd(src, i + 2, 1);
    }
  }

  // ----- painting the text

  function Fill(ks: seq<Kind>, from: nat, to: nat, k: Kind): (r: seq<Kind>)
    requires from <= to <= |ks|
    ensures |r| == |ks| && forall p {:trigger r[p]} | 0 <= p < |ks| :: r[p] == if from <= p < to then k else ks[p]
  {
    ks[..from] + seq(to - from, _ => k) + ks[to..]
  }

  ghost function Painted(src: seq<Byte>, ks: seq<Kind>, i: nat): (r: seq<Kind>)
    requires |ks| == |src|
    ensures |r| == |src|
    decreases |src| - i
  {
    if i >= |src| then ks
    else
      LexemeFacts(src, i);
      var t := LexemeAt(src, i);
      Painted(src, Fill(ks, t.from, t.to, t.kind), t.end)
  }

  ghost function Kinds(src: seq<Byte>): (r: seq<Kind>)
    ensures |r| == |src|
  {
    Painted(src, seq(|src|, _ => Code), 0)
  }

  /** A lexeme starts at `p` when lexing from `i`. */
  ghost predicate Starts(src: seq<Byte>, i: nat, p: nat)
    decreases |src| - i
  {
    i < |src| && (i == p || (LexemeFacts(src, i); Starts(src, LexemeAt(src, i).end, p)))
  }

  /** The lexeme at `s` has `p` in its body. */
  ghost predicate Covers(src: seq<Byte>, i: nat, s: nat, p: nat) {
    Starts(src, i, s) && s < |src| && LexemeAt(src, s).from <= p < LexemeAt(src, s).to
  }

  lemma {:induction false} StartsAfter(src: seq<Byte>, i: nat, s: nat)
    requires Starts(src, i, s)
    ensures i <= s < |src|
    decreases |src| - i
  {
    LexemeFacts(src, i);
    if i != s { StartsAfter(src, LexemeAt(src, i).end, s); }
  }

  /** A byte gets the kind of the lexeme whose body holds it. */
  lemma {:induction false} PaintedCovered(src: seq<Byte>, ks: seq<Kind>, i: nat, s: nat, p: nat)
    requires |ks| == |src| && Covers(src, i, s, p)
    ensures p < |src| && Painted(src, ks, i)[p] == LexemeAt(src, s).kind
    decreases |src| - i
  {
    LexemeFacts(src, i);
    LexemeFacts(src, s);
    var t := LexemeAt(src, i);
    var next := Fill(ks, t.from, t.to, t.kind);
    if i == s {
      PaintedBefore(src, next, t.end, p);
    } else {
      PaintedCovered(src, next, t.end, s, p);
    }
  }

  lemma {:induction false} PaintedBefore(src: seq<Byte>, ks: seq<Kind>, i: nat, p: nat)
    requires |ks| == |src| && p < i && p < |src|
    ensures Painted(src, ks, i)[p] == ks[p]
    decreases |src| - i
  {
    if i < |src| {
      LexemeFacts(src, i);
      var t := LexemeAt(src, i);
      PaintedBefore(src, Fill(ks, t.from, t.to, t.kind), t.end, p);
    }
  }

  /** A byte that is not left as it was lies in some lexeme's body. */
  lemma {:induction false} PaintedOnlyCovered(src: seq<Byte>, ks: seq<Kind>, i: nat, p: nat) returns (s: nat)
    requires |ks| == |src| && p < |src| && Painted(src, ks, i)[p] != ks[p]
    ensures Covers(src, i, s, p)
    decreases |src| - i
  {
    LexemeFacts(src, i);
    var t := LexemeAt(src, i);
    var next := Fill(ks, t.from, t.to, t.kind);
    if next[p] != ks[p] {
      s := i;
    } else {
      s := PaintedOnlyCovered(src, next, t.end, p);
    }
  }

  /** The lexeme whose body holds a byte that is not code. */
  lemma CoverOf(src: seq<Byte>, p: nat) returns (s: nat)
    requires p < |src| && Kinds(src)[p] != Code
    ensures Covers(src, 0, s, p) && Kinds(src)[p] == LexemeAt(src, s).kind
  {
    var blank := seq(|src|, _ => Code);
    s := PaintedOnlyCovered(src, blank, 0, p);
    PaintedCovered(src, blank, 0, s, p);
  }

  lemma CoveredKind(src: seq<Byte>, s: nat, p: nat)
    requires Covers(src, 0, s, p)
    ensures p < |src| && Kinds(src)[p] == LexemeAt(src, s).kind != Code
  {
    PaintedCovered(src, seq(|src|, _ => Code), 0, s, p);
    LexemeFacts(src, s);
  }

  /** Bytes are painted exactly where the bodies of the lexemes lie. */
  lemma KindsExactly(src: seq<Byte>, p: nat)
    requires p < |src|
    ensures Kinds(src)[p] == Code <==> forall s {:trigger Covers(src, 0, s, p)} :: !Covers(src, 0, s, p)
    ensures forall s {:trigger Covers(src, 0, s, p)} | Covers(src, 0, s, p) :: Kinds(src)[p] == LexemeAt(src, s).kind
  {
    forall s {:trigger Covers(src, 0, s, p)} | Covers(src, 0, s, p)
      ensures Kinds(src)[p] == LexemeAt(src, s).kind != Code
    {
      CoveredKind(src, s, p);
    }
    if Kinds(src)[p] != Code {
      var s := CoverOf(src, p);
    }
  }

  /** Code gives way to a literal only after a quote, and to a comment only at a slash. */
  lemma CodeEnds(src: seq<Byte>, p: nat)
    requires 0 < p < |src| && Kinds(src)[p - 1] == Code && Kinds(src)[p] != Code
    ensures src[p - 1] in {QUOTE, APOSTROPHE} || src[p] == SLASH
  {
    var s := CoverOf(src, p);
    LexemeFacts(src, s);
    if LexemeAt(src, s).from < p { CoveredKind(src, s, p - 1); }
  }

  lemma CommentBefore(src: seq<Byte>, i: nat)
    requires 0 < i < |src| && Kinds(src)[i] == Comment && src[i] != SLASH
    ensures Kinds(src)[i - 1] == Comment
  {
    var s := CoverOf(src, i);
    LexemeFacts(src, s);
    CoveredKind(src, s, i - 1);
  }

  lemma CommentAfter(src: seq<Byte>, i: nat)
    requires 0 < i < |src| && Kinds(src)[i - 1] == Comment && src[i - 1] != SLASH && src[i] != NEWLINE
    ensures Kinds(src)[i] == Comment
  {
    var s := CoverOf(src, i - 1);
    LexemeFacts(src, s);
    CoveredKind(src, s, i);
  }

  /** Comments are made of whole characters. */
  lemma CommentsAligned(src: seq<Byte>, i: nat)
    requires Valid(src) && 0 < i < |src| && Tail(src[i])
    ensures Kinds(src)[i] == Comment <==> Kinds(src)[i - 1] == Comment
  {
    TailFollowsNonAscii(src, i);
    if Kinds(src)[i] == Comment { CommentBefore(src, i); }
    if Kinds(src)[i - 1] == Comment { CommentAfter(src, i); }
  }

  // ----- the scanner

  /** The array after a body was painted. */
  ghost predicate Painting(kind: array<Kind>, before: seq<Kind>, from: nat, to: nat, k: Kind)
    requires |before| == kind.Length
    reads kind
  {
    forall p {:trigger kind[p]} | 0 <= p < kind.Length :: kind[p] == if from <= p < to then k else before[p]
  }

  lemma PaintingIsFill(kind: array<Kind>, before: seq<Kind>, from: nat, to: nat, k: Kind)
    requires |before| == kind.Length && from <= to <= kind.Length && Painting(kind, before, from, to, k)
    ensures kind[..] == Fill(before, from, to, k)
  {
  }

  method LineComment(src: seq<Byte>, kind: array<Kind>, i: nat) returns (j: nat)
    requires i <= |src| == kind.Length
    modifies kind
    ensures j == LineEnd(src, i) && kind[..] == Fill(old(kind[..]), i, j, Comment)
  {
    j := i;
    while j < |src| && src[j] != NEWLINE
      invariant i <= j <= |src| && LineEnd(src, j) == LineEnd(src, i)
      invariant Painting(kind, old(kind[..]), i, j, Comment)
    {
      kind[j] := Comment;
      j := j + 1;
    }
    PaintingIsFill(kind, old(kind[..]), i, j, Comment);
  }

  method BlockComment(src: seq<Byte>, kind: array<Kind>, i: nat) returns (j: nat)
    requires i < |src| == kind.Length && Opens(src, i)
    modifies kind
    ensures j == BlockEnd(src, i, 0) && kind[..] == Fill(old(kind[..]), i, j, Comment)
  {
    var depth := 0;
    j := i;
    while j < |src|
      invariant i <= j <= |src| && depth >= 0 && (i < j ==> depth > 0)
      invariant BlockEnd(src, j, depth) == BlockEnd(src, i, 0)
      invariant Painting(kind, old(kind[..]), i, j, Comment)
    {
      if src[j] == SLASH && At(src, j + 1) == STAR {
        depth := depth + 1;
        kind[j], kind[j + 1] := Comment, Comment;
        j := j + 2;
      } else if src[j] == STAR && At(src, j + 1) == SLASH {
        depth := depth - 1;
        kind[j], kind[j + 1] := Comment, Comment;
        j := j + 2;
        if depth == 0 { break; }
      } else {
        kind[j] := Comment;
        j := j + 1;
      }
    }
    PaintingIsFill(kind, old(kind[..]), i, j, Comment);
  }

  method CountHashes(src: seq<Byte>, start: nat) returns (hashes: nat)
    requires start <= |src|
    ensures hashes == HashRun(src, start)
  {
    hashes := 0;
    while start + hashes < |src| && src[start + hashes] == HASH
      invariant start + hashes <= |src| && HashRun(src, start) == hashes + HashRun(src, start + hashes)
    {
      hashes := hashes + 1;
    }
  }

  method ClosesRaw(src: seq<Byte>, j: nat, hashes: nat) returns (closes: bool)
    requires j < |src| && src[j] == QUOTE
    ensures closes <==> RawCloses(src, j, hashes)
  {
    var k := 0;
    while k < hashes && At(src, j + 1 + k) == HASH
      invariant k <= hashes && j + k < |src| && forall e | j < e <= j + k :: src[e] == HASH
    {
      k := k + 1;
    }
    closes := k == hashes;
  }

  /** The opening quote of a raw string, and how many hashes lead up to it. */
  method FindRaw(src: seq<Byte>, i: nat) returns (open: Option<nat>, hashes: nat)
    requires i < |src|
    ensures open == RawOpen(src, i)
    ensures open.Some? ==> RawStart(src, i).Some? && hashes == open.value - RawStart(src, i).value
  {
    open, hashes := None, 0;
    var start := RawStart(src, i);
    if start.Some? {
      hashes := CountHashes(src, start.value);
      if At(src, start.value + hashes) == QUOTE {
        open := Some(start.value + hashes);
      }
    }
  }

  method RawString(src: seq<Byte>, kind: array<Kind>, body: nat, hashes: nat) returns (j: nat)
    requires body <= |src| == kind.Length
    modifies kind
    ensures var q := RawEnd(src, body, hashes);
      j == (if q < |src| then q + 1 + hashes else q) && kind[..] == Fill(old(kind[..]), body, q, Lit)
  {
    j := body;
    while j < |src|
      invariant body <= j <= |src| && RawEnd(src, j, hashes) == RawEnd(src, body, hashes)
      invariant Painting(kind, old(kind[..]), body, j, Lit)
    {
      if src[j] == QUOTE {
        var closes := ClosesRaw(src, j, hashes);
        if closes {
          PaintingIsFill(kind, old(kind[..]), body, j, Lit);
          return j + 1 + hashes;
        }
      }
      kind[j] := Lit;
      j := j + 1;
    }
    PaintingIsFill(kind, old(kind[..]), body, j, Lit);
  }

  method QuotedString(src: seq<Byte>, kind: array<Kind>, body: nat) returns (j: nat)
    requires body <= |src| == kind.Length
    modifies kind
    ensures j == StringEnd(src, body) && kind[..] == Fill(old(kind[..]), body, Least(j, |src|), Lit)
  {
    j := body;
    while j < |src|
      invariant body <= j && StringEnd(src, j) == StringEnd(src, body)
      invariant Painting(kind, old(kind[..]), body, j, Lit)
    {
      if src[j] == BACKSLASH {
        kind[j] := Lit;
        if j + 1 < |src| { kind[j + 1] := Lit; }
        j := j + 2;
        continue;
      }
      if src[j] == QUOTE { break; }
      kind[j] := Lit;
      j := j + 1;
    }
    assert Painting(kind, old(kind[..]), body, Least(j, |src|), Lit);
    PaintingIsFill(kind, old(kind[..]), body, Least(j, |src|), Lit);
  }

  method EscapedChar(src: seq<Byte>, kind: array<Kind>, i: nat) returns (j: nat)
    requires i + 1 < |src| == kind.Length
    modifies kind
    ensures j == CharEnd(src, i + 3) && kind[..] == Fill(old(kind[..]), i + 1, Least(j, |src|), Lit)
  {
    j := i + 3;
    kind[i + 1] := Lit;
    if i + 2 < |src| { kind[i + 2] := Lit; }
    while j < |src| && src[j] != APOSTROPHE
      invariant i + 3 <= j && CharEnd(src, j) == CharEnd(src, i + 3)
      invariant Painting(kind, old(kind[..]), i + 1, j, Lit)
    {
      kind[j] := Lit;
      j := j + 1;
    }
    assert Painting(kind, old(kind[..]), i + 1, Least(j, |src|), Lit);
    PaintingIsFill(kind, old(kind[..]), i + 1, Least(j, |src|), Lit);
  }

  method CharOrLifetime(src: seq<Byte>, kind: array<Kind>, i: nat) returns (j: nat)
    requires i < |src| == kind.Length && src[i] == APOSTROPHE
    modifies kind
    ensures var t := CharLexeme(src, i);
      j == t.end && t.from <= t.to <= |src| && kind[..] == Fill(old(kind[..]), t.from, t.to, t.kind)
  {
    var next := At(src, i + 1);
    if next == BACKSLASH {
      j := EscapedChar(src, kind, i);
      return j + 1;
    }
    if next != APOSTROPHE && At(src, i + 2) == APOSTROPHE {
      kind[i + 1] := Lit;
      PaintingIsFill(kind, old(kind[..]), i + 1, i + 2, Lit);
      return i + 3;
    }
    var width := if next >= 0xF0 then 4 else if next >= 0xE0 then 3 else if next >= 0xC0 then 2 else 0;
    if width > 0 && At(src, i + 1 + width) == APOSTROPHE {
      forall p | i + 1 <= p < i + 1 + width { kind[p] := Lit; }
      PaintingIsFill(kind, old(kind[..]), i + 1, i + 1 + width, Lit);
      return i + width + 2;
    }
    PaintingIsFill(kind, old(kind[..]), i, i, Code);
    j := i + 1;
  }

  method Classify(src: seq<Byte>) returns (kind: array<Kind>)
    ensures fresh(kind) && kind[..] == Kinds(src)
  {
    kind := new Kind[|src|](_ => Code);
    var i := 0;
    assert kind[..] == seq(|src|, _ => Code);
    while i < |src|
      invariant kind.Length == |src| && fresh(kind) && Painted(src, kind[..], i) == Kinds(src)
      decreases |src| - i
    {
      LexemeFacts(src, i);
      i := ScanLexeme(src, kind, i);
    }
  }

  method ScanLexeme(src: seq<Byte>, kind: array<Kind>, i: nat) returns (j: nat)
    requires i < |src| == kind.Length
    modifies kind
    ensures var t := LexemeAt(src, i);
      j == t.end && t.from <= t.to <= |src| && kind[..] == Fill(old(kind[..]), t.from, t.to, t.kind)
  {
    LexemeFacts(src, i);
    var c, next := src[i], At(src, i + 1);
    if c == SLASH && next == SLASH {
      j := LineComment(src, kind, i);
      return;
    }
    if c == SLASH && next == STAR {
      j := BlockComment(src, kind, i);
      return;
    }
    j := ScanLiteral(src, kind, i);
  }

  /** Literals, lifetimes and single code bytes. */
  method ScanLiteral(src: seq<Byte>, kind: array<Kind>, i: nat) returns (j: nat)
    requires i < |src| == kind.Length && !(src[i] == SLASH && At(src, i + 1) == SLASH) && !Opens(src, i)
    modifies kind
    ensures var t := LexemeAt(src, i);
      j == t.end && t.from <= t.to <= |src| && kind[..] == Fill(old(kind[..]), t.from, t.to, t.kind)
  {
    LexemeFacts(src, i);
    var open, hashes := FindRaw(src, i);
    if open.Some? {
      j := RawString(src, kind, open.value + 1, hashes);
      return;
    }
    if src[i] == QUOTE {
      j := QuotedString(src, kind, i + 1);
      return j + 1;
    }
    if src[i] == APOSTROPHE {
      j := CharOrLifetime(src, kind, i);
      return;
    }
    PaintingIsFill(kind, old(kind[..]), i, i, Code);
    j := i + 1;
  }
}
