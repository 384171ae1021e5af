/**
  How far attributes and items reach in a lexed source: an attribute to the bracket that balances its
  opening, an item to its semicolon or to the brace that closes its first block.  Only bytes of code count.
 */
module ItemExtents {
  import opened Basics
  import opened RustLexer

  const OPEN_PAREN: Byte := '(' as int
  const CLOSE_PAREN: Byte := ')' as int
  const COMMA: Byte := ',' as int
  const SEMICOLON: Byte := ';' as int
  const OPEN_BRACKET: Byte := '[' as int
  const CLOSE_BRACKET: Byte := ']' as int
  const OPEN_BRACE: Byte := '{' as int
  const CLOSE_BRACE: Byte := '}' as int

  predicate Sized(src: seq<Byte>, kinds: seq<Kind>) {
    |kinds| == |src|
  }

  /** An attribute opens here. */
  predicate Opening(src: seq<Byte>, kinds: seq<Kind>, i: nat)
    requires Sized(src, kinds)
  {
    i + 1 < |src| && kinds[i] == Code && src[i] == HASH && src[i + 1] == OPEN_BRACKET
  }

  function Nesting(b: Byte): int {
    if b == OPEN_BRACKET || b == OPEN_PAREN then 1 else if b == CLOSE_BRACKET || b == CLOSE_PAREN then -1 else 0
  }

  /** Just past the bracket that brings the nesting back to zero, if there is one. */
  function Closing(src: seq<Byte>, kinds: seq<Kind>, j: nat, depth: int): (r: Option<nat>)
    requires Sized(src, kinds)
    ensures r.Some? ==> j < r.value <= |src| && src[r.value - 1] in {CLOSE_BRACKET, CLOSE_PAREN}
    decreases |src| - j
  {
    if j >= |src| then None
    else if kinds[j] != Code then Closing(src, kinds, j + 1, depth)
    else if Nesting(src[j]) < 0 && depth == 1 then Some(j + 1)
    else Closing(src, kinds, j + 1, depth + Nesting(src[j]))
  }

  ghost predicate Unclosed(src: seq<Byte>, kinds: seq<Kind>, i: nat)
    requires Sized(src, kinds)
  {
    Closing(src, kinds, i + 1, 0).None?
  }

  function AttrEnd(src: seq<Byte>, kinds: seq<Kind>, i: nat): (e: nat)
    requires Sized(src, kinds) && i + 1 < |src|
    ensures i + 1 < e <= |src|
  {
    match Closing(src, kinds, i + 1, 0)
    case Some(e) => e
    case None => |src|
  }

  predicate AsciiSpace(b: Byte) {
    b == 32 || b == 9 || b == 10 || b == 12 || b == 13
  }

  function SpaceEnd(text: seq<Byte>, k: nat): (e: nat)
    requires k <= |text|
    ensures k <= e <= |text|
    decreases |text| - k
  {
    if k < |text| && AsciiSpace(text[k]) then SpaceEnd(text, k + 1) else k
  }

  /** Past white space, blanked comments and further attributes. */
  function ItemStart(src: seq<Byte>, kinds: seq<Kind>, text: seq<Byte>, k: nat): (e: nat)
    requires Sized(src, kinds) && |text| == |src| && k <= |src|
    ensures k <= e <= |src|
    decreases |src| - k
  {
    var s := SpaceEnd(text, k);
    if s + 1 < |src| && src[s] == HASH && src[s + 1] == OPEN_BRACKET
      then ItemStart(src, kinds, text, AttrEnd(src, kinds, s)) else s
  }

  /** Past the first semicolon outside braces, or the brace that closes the first block. */
  function ItemEnd(src: seq<Byte>, kinds: seq<Kind>, m: nat, depth: int): (e: nat)
    requires Sized(src, kinds) && m <= |src|
    ensures m <= e <= |src| && (e < |src| ==> m < e && src[e - 1] in {SEMICOLON, CLOSE_BRACE})
    decreases |src| - m
  {
    if m == |src| then m
    else if kinds[m] != Code then ItemEnd(src, kinds, m + 1, depth)
    else if src[m] == CLOSE_BRACE && depth == 1 then m + 1
    else if src[m] == SEMICOLON && depth == 0 then m + 1
    else ItemEnd(src, kinds, m + 1, depth + if src[m] == OPEN_BRACE then 1 else if src[m] == CLOSE_BRACE then -1 else 0)
  }

  // ----- the same, by counting

  /** The code bytes of these kinds from `a` up to `b`. */
  function Codes(src: seq<Byte>, kinds: seq<Kind>, bytes: set<Byte>, a: nat, b: nat): set<nat>
    requires Sized(src, kinds) && b <= |src|
  {
    set p: nat | a <= p < b && kinds[p] == Code && src[p] in bytes
  }

  /** How many more of the one than of the other. */
  function Balance(src: seq<Byte>, kinds: seq<Kind>, opening: set<Byte>, closing: set<Byte>, a: nat, b: nat): int
    requires Sized(src, kinds) && b <= |src|
  {
    |Codes(src, kinds, opening, a, b)| - |Codes(src, kinds, closing, a, b)|
  }

  lemma CodesMore(src: seq<Byte>, kinds: seq<Kind>, bytes: set<Byte>, a: nat, b: nat)
    requires Sized(src, kinds) && a <= b < |src|
    ensures |Codes(src, kinds, bytes, a, b + 1)|
      == |Codes(src, kinds, bytes, a, b)| + if kinds[b] == Code && src[b] in bytes then 1 else 0
  {
    var more := Codes(src, kinds, bytes, a, b + 1);
    if kinds[b] == Code && src[b] in bytes {
      assert more == Codes(src, kinds, bytes, a, b) + {b};
    } else {
      assert more == Codes(src, kinds, bytes, a, b);
    }
  }

  lemma BalanceMore(src: seq<Byte>, kinds: seq<Kind>, opening: set<Byte>, closing: set<Byte>, a: nat, b: nat)
    requires Sized(src, kinds) && a <= b < |src| && opening !! closing
    ensures Balance(src, kinds, opening, closing, a, b + 1) == Balance(src, kinds, opening, closing, a, b)
      + if kinds[b] != Code then 0 else if src[b] in opening then 1 else if src[b] in closing then -1 else 0
  {
    CodesMore(src, kinds, opening, a, b);
    CodesMore(src, kinds, closing, a, b);
  }

  // ----- items

  function Braces(src: seq<Byte>, kinds: seq<Kind>, a: nat, b: nat): int
    requires Sized(src, kinds) && b <= |src|
  {
    Balance(src, kinds, {'{' as int}, {'}' as int}, a, b)
  }

  /** An item from `m` can end before `e`: at a brace that closes its block, or a semicolon outside all blocks. */
  predicate ItemStops(src: seq<Byte>, kinds: seq<Kind>, m: nat, e: nat)
    requires Sized(src, kinds)
  {
    m < e <= |src| && kinds[e - 1] == Code &&
    ((src[e - 1] == '}' as int && Braces(src, kinds, m, e) == 0)
     || (src[e - 1] == ';' as int && Braces(src, kinds, m, e - 1) == 0))
  }

  /** It ends at the first of these places, or with the text. */
  ghost predicate ItemEnds(src: seq<Byte>, kinds: seq<Kind>, m: nat, e: nat)
    requires Sized(src, kinds)
  {
    && m <= e <= |src| && (forall f {:trigger ItemStops(src, kinds, m, f)} | 0 <= f < e :: !ItemStops(src, kinds, m, f))
    && (ItemStops(src, kinds, m, e) || e == |src|)
  }

  lemma {:induction false} ItemEndFrom(src: seq<Byte>, kinds: seq<Kind>, m: nat, j: nat)
    requires Sized(src, kinds) && m <= j <= |src|
    requires forall f {:trigger ItemStops(src, kinds, m, f)} | 0 <= f <= j :: !ItemStops(src, kinds, m, f)
    ensures ItemEnds(src, kinds, m, ItemEnd(src, kinds, j, Braces(src, kinds, m, j)))
    decreases |src| - j
  {
    if j < |src| {
      BalanceMore(src, kinds, {'{' as int}, {'}' as int}, m, j);
      if !ItemStops(src, kinds, m, j + 1) { ItemEndFrom(src, kinds, m, j + 1); }
    }
  }

  lemma ItemEndExactly(src: seq<Byte>, kinds: seq<Kind>, m: nat, e: nat)
    requires Sized(src, kinds) && m <= |src|
    ensures e == ItemEnd(src, kinds, m, 0) <==> ItemEnds(src, kinds, m, e)
  {
    assert Codes(src, kinds, {'{' as int}, m, m) == {} == Codes(src, kinds, {'}' as int}, m, m);
    ItemEndFrom(src, kinds, m, m);
  }

  // ----- attributes

  function Brackets(src: seq<Byte>, kinds: seq<Kind>, a: nat, b: nat): int
    requires Sized(src, kinds) && b <= |src|
  {
    Balance(src, kinds, {'[' as int, '(' as int}, {']' as int, ')' as int}, a, b)
  }

  /** The attribute whose `#` is at `i` can end before `e`: at a bracket that leaves none open. */
  predicate AttrStops(src: seq<Byte>, kinds: seq<Kind>, i: nat, e: nat)
    requires Sized(src, kinds)
  {
    && i + 1 < e <= |src| && kinds[e - 1] == Code && src[e - 1] in {']' as int, ')' as int}
    && Brackets(src, kinds, i + 1, e) == 0
  }

  ghost predicate AttrEnds(src: seq<Byte>, kinds: seq<Kind>, i: nat, e: nat)
    requires Sized(src, kinds)
  {
    && i < e <= |src| && (forall f {:trigger AttrStops(src, kinds, i, f)} | 0 <= f < e :: !AttrStops(src, kinds, i, f))
    && (AttrStops(src, kinds, i, e) || e == |src|)
  }

  lemma {:induction false} ClosingFrom(src: seq<Byte>, kinds: seq<Kind>, i: nat, j: nat)
    requires Sized(src, kinds) && i < j <= |src|
    requires forall f {:trigger AttrStops(src, kinds, i, f)} | 0 <= f <= j :: !AttrStops(src, kinds, i, f)
    ensures var r := Closing(src, kinds, j, Brackets(src, kinds, i + 1, j));
      && (r.Some? ==> AttrStops(src, kinds, i, r.value) && AttrEnds(src, kinds, i, r.value))
      && (r.None? ==> forall f {:trigger AttrStops(src, kinds, i, f)} :: 0 <= f ==> !AttrStops(src, kinds, i, f))
    decreases |src| - j
  {
    if j < |src| {
      BalanceMore(src, kinds, {'[' as int, '(' as int}, {']' as int, ')' as int}, i + 1, j);
      if !AttrStops(src, kinds, i, j + 1) { ClosingFrom(src, kinds, i, j + 1); }
    }
  }

  lemma AttrEndExactly(src: seq<Byte>, kinds: seq<Kind>, i: nat, e: nat)
    requires Sized(src, kinds) && i + 1 < |src|
    ensures e == AttrEnd(src, kinds, i) <==> AttrEnds(src, kinds, i, e)
    ensures Unclosed(src, kinds, i) <==> forall f: nat :: !AttrStops(src, kinds, i, f)
  {
    assert Codes(src, kinds, {'[' as int, '(' as int}, i + 1, i + 1) == {};
    assert Codes(src, kinds, {']' as int, ')' as int}, i + 1, i + 1) == {};
    ClosingFrom(src, kinds, i, i + 1);
  }

  // ----- what lies between an attribute and its item

  /** White space as ASCII has it. */
  predicate Space(b: Byte) {
    b in {' ' as int, '\t' as int, '\n' as int, '\r' as int, 0x0C}
  }

  /** An attribute opens here, in code or not. */
  predicate Hashed(src: seq<Byte>, k: nat) {
    k + 1 < |src| && src[k] == '#' as int && src[k + 1] == '[' as int
  }

  /** From `k` to `e` there are only spaces and whole attributes. */
  ghost predicate Skipped(src: seq<Byte>, kinds: seq<Kind>, text: seq<Byte>, k: nat, e: nat)
    requires Sized(src, kinds) && |text| == |src|
    decreases e - k
  {
    || k == e
    || (k < e <= |src| && Space(text[k]) && Skipped(src, kinds, text, k + 1, e))
    || (k < e <= |src| && !Space(text[k]) && Hashed(src, k)
        && exists a {:trigger AttrEnds(src, kinds, k, a)} ::
             k < a <= e && AttrEnds(src, kinds, k, a) && Skipped(src, kinds, text, a, e))
  }

  /** The item starts at the first byte that is neither. */
  ghost predicate ItemStarts(src: seq<Byte>, kinds: seq<Kind>, text: seq<Byte>, k: nat, e: nat)
    requires Sized(src, kinds) && |text| == |src|
  {
    k <= e <= |src| && Skipped(src, kinds, text, k, e) && (e < |src| ==> !Space(text[e]) && !Hashed(src, e))
  }

  lemma {:induction false} ItemStartIf(src: seq<Byte>, kinds: seq<Kind>, text: seq<Byte>, k: nat)
    requires Sized(src, kinds) && |text| == |src| && k <= |src|
    ensures ItemStarts(src, kinds, text, k, ItemStart(src, kinds, text, k))
    decreases |src| - k
  {
    if k < |src| && AsciiSpace(text[k]) {
      ItemStartIf(src, kinds, text, k + 1);
    } else if Hashed(src, k) {
      AttrEndExactly(src, kinds, k, AttrEnd(src, kinds, k));
      ItemStartIf(src, kinds, text, AttrEnd(src, kinds, k));
    }
  }

  lemma {:induction false} ItemStartOnlyIf(src: seq<Byte>, kinds: seq<Kind>, text: seq<Byte>, k: nat, e: nat)
    requires Sized(src, kinds) && |text| == |src| && ItemStarts(src, kinds, text, k, e)
    ensures e == ItemStart(src, kinds, text, k)
    decreases e - k
  {
    if k < e {
      if Space(text[k]) {
        ItemStartOnlyIf(src, kinds, text, k + 1, e);
      } else {
        var a :| k < a <= e && AttrEnds(src, kinds, k, a) && Skipped(src, kinds, text, a, e);
        AttrEndExactly(src, kinds, k, a);
        ItemStartOnlyIf(src, kinds, text, a, e);
      }
    }
  }

  lemma ItemStartExactly(src: seq<Byte>, kinds: seq<Kind>, text: seq<Byte>, k: nat, e: nat)
    requires Sized(src, kinds) && |text| == |src| && k <= |src|
    ensures e == ItemStart(src, kinds, text, k) <==> ItemStarts(src, kinds, text, k, e)
  {
    ItemStartIf(src, kinds, text, k);
    if ItemStarts(src, kinds, text, k, e) { ItemStartOnlyIf(src, kinds, text, k, e); }
  }
}
