/**
  Blanking what production does not compile: comments, and every item behind a test-only `cfg`
  attribute.  `squeeze` stands for the removal of white space from an attribute's text.
 */
module ProductionText {
  import opened Basics
  import opened Utf8
  import opened RustLexer
  import opened ItemExtents
  import opened TestCfg

  type Squeeze = seq<Byte> -> seq<Byte>

  // ----- what is blanked

  datatype Span = Span(from: nat, to: nat)

  /** Taking the attribute's text would cut a character, or end before it starts. */
  predicate Torn(src: seq<Byte>, i: nat, e: nat)
    requires 0 < e <= |src|
  {
    e - 1 < i + 2 || Tail(src[e - 1])
  }

  ghost predicate TestAttr(src: seq<Byte>, squeeze: Squeeze, i: nat, e: nat)
    requires 0 < e <= |src|
  {
    i + 2 <= e - 1 && TestOnly(squeeze(src[i + 2..e - 1]))
  }

  /** The spans of the test-only items from `i` on; none when an attribute's text cannot be taken. */
  ghost function TestSpans(src: seq<Byte>, kinds: seq<Kind>, text: seq<Byte>, squeeze: Squeeze,
                           i: nat): Option<seq<Span>>
    requires Sized(src, kinds) && |text| == |src|
    decreases |src| - i
  {
    if i >= |src| then Some([])
    else if !Opening(src, kinds, i) then TestSpans(src, kinds, text, squeeze, i + 1)
    else
      var e := AttrEnd(src, kinds, i);
      if Torn(src, i, e) then None
      else if !TestAttr(src, squeeze, i, e) then TestSpans(src, kinds, text, squeeze, e)
      else
        var end := ItemEnd(src, kinds, ItemStart(src, kinds, text, e), 0);
        var rest := TestSpans(src, kinds, text, squeeze, end);
        if rest.None? then None else Some([Span(i, end)] + rest.value)
  }

  ghost predicate InSome(spans: seq<Span>, p: nat) {
    exists k {:trigger spans[k]} :: 0 <= k < |spans| && spans[k].from <= p < spans[k].to
  }

  ghost function CommentMask(kinds: seq<Kind>): (mask: seq<bool>)
    ensures |mask| == |kinds| && forall p {:trigger mask[p]} | 0 <= p < |kinds| :: mask[p] == (kinds[p] == Comment)
  {
    seq(|kinds|, p requires 0 <= p < |kinds| => kinds[p] == Comment)
  }

  ghost function Mask(kinds: seq<Kind>, spans: seq<Span>): (mask: seq<bool>)
    ensures |mask| == |kinds| && forall p {:trigger mask[p]} | 0 <= p < |kinds| ::
        mask[p] == (kinds[p] == Comment || InSome(spans, p))
  {
    seq(|kinds|, p requires 0 <= p < |kinds| => kinds[p] == Comment || InSome(spans, p))
  }

  /** A span starts at an ASCII byte, and ends after one or with the text. */
  ghost predicate Whole(src: seq<Byte>, span: Span) {
    && span.from < span.to <= |src| && src[span.from] < 0x80
    && (span.to < |src| ==> src[span.to - 1] < 0x80)
  }

  ghost predicate AllWhole(src: seq<Byte>, spans: seq<Span>) {
    forall k {:trigger spans[k]} | 0 <= k < |spans| :: Whole(src, spans[k])
  }

  lemma {:induction false} SpansAreWhole(src: seq<Byte>, kinds: seq<Kind>, text: seq<Byte>, squeeze: Squeeze, i: nat)
    requires Sized(src, kinds) && |text| == |src| && TestSpans(src, kinds, text, squeeze, i).Some?
    ensures AllWhole(src, TestSpans(src, kinds, text, squeeze, i).value)
    decreases |src| - i
  {
    if i < |src| {
      if !Opening(src, kinds, i) {
        SpansAreWhole(src, kinds, text, squeeze, i + 1);
      } else {
        var e := AttrEnd(src, kinds, i);
        if !TestAttr(src, squeeze, i, e) {
          SpansAreWhole(src, kinds, text, squeeze, e);
        } else {
          SpansAreWhole(src, kinds, text, squeeze, ItemEnd(src, kinds, ItemStart(src, kinds, text, e), 0));
        }
      }
    }
  }

  lemma SpanAligned(src: seq<Byte>, s: Span, p: nat)
    requires Valid(src) && Whole(src, s) && 0 < p < |src| && Tail(src[p])
    ensures s.from <= p < s.to <==> s.from <= p - 1 < s.to
  {
    TailFollowsNonAscii(src, p);
  }

  /** Comments and test-only items together are made of whole characters. */
  lemma MaskAligned(src: seq<Byte>, spans: seq<Span>)
    requires Valid(src) && AllWhole(src, spans)
    ensures Aligned(src, Mask(Kinds(src), spans))
  {
    var mask := Mask(Kinds(src), spans);
    forall p {:trigger mask[p]} | 0 < p < |src| && Tail(src[p]) ensures mask[p] == mask[p - 1] {
      CommentsAligned(src, p);
      forall k {:trigger spans[k]} | 0 <= k < |spans|
        ensures spans[k].from <= p < spans[k].to <==> spans[k].from <= p - 1 < spans[k].to
      {
        SpanAligned(src, spans[k], p);
      }
      assert InSome(spans, p) <==> InSome(spans, p - 1);
    }
  }

  // ----- when an attribute's text can be taken

  /** The scan from `i` looks at the attribute at `p`. */
  ghost predicate Visits(src: seq<Byte>, kinds: seq<Kind>, text: seq<Byte>, squeeze: Squeeze, i: nat, p: nat)
    requires Sized(src, kinds) && |text| == |src|
    decreases |src| - i
  {
    && i < |src|
    && if !Opening(src, kinds, i) then Visits(src, kinds, text, squeeze, i + 1, p)
       else
         var e := AttrEnd(src, kinds, i);
         || i == p
         || (!Torn(src, i, e)
             && Visits(src, kinds, text, squeeze,
                       if TestAttr(src, squeeze, i, e)
                       then ItemEnd(src, kinds, ItemStart(src, kinds, text, e), 0)
                       else e, p))
  }

  ghost predicate TornTail(src: seq<Byte>, p: nat) {
    |src| == p + 2 || (src != [] && Tail(src[|src| - 1]))
  }

  /**
    A closed attribute can always be taken; an unclosed one unless the text stops right after it opens or in a
    wide character.
   */
  lemma TornExactly(src: seq<Byte>, i: nat)
    requires Opening(src, Kinds(src), i)
    ensures Torn(src, i, AttrEnd(src, Kinds(src), i)) <==> Unclosed(src, Kinds(src), i) && TornTail(src, i)
  {
    var kinds := Kinds(src);
    if kinds[i + 1] != Code { CodeEnds(src, i + 1); }
    assert kinds[i + 1] == Code;
    assert Closing(src, kinds, i + 1, 0) == Closing(src, kinds, i + 2, 1);
  }

  lemma {:induction false} VisitsOpening(src: seq<Byte>, text: seq<Byte>, squeeze: Squeeze, i: nat, p: nat)
    requires |text| == |src| && Visits(src, Kinds(src), text, squeeze, i, p)
    ensures Opening(src, Kinds(src), p)
    decreases |src| - i
  {
    var kinds := Kinds(src);
    if !Opening(src, kinds, i) {
      VisitsOpening(src, text, squeeze, i + 1, p);
    } else if i != p {
      var e := AttrEnd(src, kinds, i);
      VisitsOpening(src, text, squeeze,
          if TestAttr(src, squeeze, i, e) then ItemEnd(src, kinds, ItemStart(src, kinds, text, e), 0) else e, p);
    }
  }

  /** Where the scan goes on. */
  ghost function After(src: seq<Byte>, text: seq<Byte>, squeeze: Squeeze, i: nat): (j: nat)
    requires |text| == |src| && i < |src|
    ensures i < j <= |src|
  {
    var kinds := Kinds(src);
    if !Opening(src, kinds, i) then i + 1
    else
      var e := AttrEnd(src, kinds, i);
      if TestAttr(src, squeeze, i, e) then ItemEnd(src, kinds, ItemStart(src, kinds, text, e), 0) else e
  }

  lemma {:induction false} TornStops(src: seq<Byte>, text: seq<Byte>, squeeze: Squeeze, i: nat, p: nat)
    requires |text| == |src| && Visits(src, Kinds(src), text, squeeze, i, p)
    requires Unclosed(src, Kinds(src), p) && TornTail(src, p)
    ensures TestSpans(src, Kinds(src), text, squeeze, i).None?
    decreases |src| - i
  {
    VisitsOpening(src, text, squeeze, i, p);
    TornExactly(src, p);
    if i != p { TornStops(src, text, squeeze, After(src, text, squeeze, i), p); }
  }

  lemma {:induction false} StopIsTorn(src: seq<Byte>, text: seq<Byte>, squeeze: Squeeze, i: nat) returns (p: nat)
    requires |text| == |src| && TestSpans(src, Kinds(src), text, squeeze, i).None?
    ensures Visits(src, Kinds(src), text, squeeze, i, p) && Unclosed(src, Kinds(src), p) && TornTail(src, p)
    decreases |src| - i
  {
    if Opening(src, Kinds(src), i) && Torn(src, i, AttrEnd(src, Kinds(src), i)) {
      TornExactly(src, i);
      p := i;
    } else {
      p := StopIsTorn(src, text, squeeze, After(src, text, squeeze, i));
    }
  }

  // ----- the result

  ghost function Uncommented(src: seq<Byte>): (text: seq<Byte>)
    ensures |text| == |src|
  {
    Blank(src, CommentMask(Kinds(src)))
  }

  ghost function ItemSpans(src: seq<Byte>, squeeze: Squeeze): Option<seq<Span>> {
    TestSpans(src, Kinds(src), Uncommented(src), squeeze, 0)
  }

  /** The scan reaches an unclosed attribute in a text that ends right after it opens, or in a wide character. */
  ghost predicate Stuck(src: seq<Byte>, squeeze: Squeeze, p: nat) {
    Visits(src, Kinds(src), Uncommented(src), squeeze, 0, p) && Unclosed(src, Kinds(src), p) && TornTail(src, p)
  }

  /** The text can be produced exactly when the scan is nowhere stuck. */
  lemma ProducedExactly(src: seq<Byte>, squeeze: Squeeze)
    ensures ItemSpans(src, squeeze).Some? <==> forall p: nat :: !Stuck(src, squeeze, p)
  {
    if ItemSpans(src, squeeze).None? {
      var p := StopIsTorn(src, Uncommented(src), squeeze, 0);
      assert Stuck(src, squeeze, p);
    } else {
      forall p: nat ensures !Stuck(src, squeeze, p) {
        if Stuck(src, squeeze, p) { TornStops(src, Uncommented(src), squeeze, 0, p); }
      }
    }
  }

  /** A source whose attributes all close is always produced. */
  lemma ClosedSourcesProduce(src: seq<Byte>, squeeze: Squeeze)
    requires forall p: nat {:trigger Unclosed(src, Kinds(src), p)} | Opening(src, Kinds(src), p) ::
        !Unclosed(src, Kinds(src), p)
    ensures ItemSpans(src, squeeze).Some?
  {
    forall p: nat ensures !Stuck(src, squeeze, p) {
      if Stuck(src, squeeze, p) { VisitsOpening(src, Uncommented(src), squeeze, 0, p); }
    }
    ProducedExactly(src, squeeze);
  }

  /** A source that ends where an attribute opens is not. */
  lemma BareOpeningIsStuck(squeeze: Squeeze)
    ensures Valid([HASH, OPEN_BRACKET]) && ItemSpans([HASH, OPEN_BRACKET], squeeze).None?
  {
    var src := [HASH, OPEN_BRACKET];
    assert src[1..] == [OPEN_BRACKET] && src[1..][1..] == [];
    if Kinds(src)[0] != Code {
      KindsExactly(src, 0);
      var s :| Covers(src, 0, s, 0);
      StartsAfter(src, 0, s);
      LexemeFacts(src, s);
    }
    assert Opening(src, Kinds(src), 0);
  }

  // ----- the source as attributes and items

  /** An attribute alone, or a test-only one with the item behind it. */
  datatype Unit = Unit(from: nat, to: nat, test: bool)

  /** The attribute of the unit ends at `a`. */
  ghost predicate UnitTo(src: seq<Byte>, squeeze: Squeeze, u: Unit, a: nat) {
    && u.from + 3 <= a <= |src| && AttrEnds(src, Kinds(src), u.from, a)
    && (u.test <==> TestOnly(squeeze(src[u.from + 2..a - 1])))
    && if u.test then
         exists s: nat :: ItemStarts(src, Kinds(src), Uncommented(src), a, s) && ItemEnds(src, Kinds(src), s, u.to)
       else u.to == a
  }

  /** A code `#` followed by a bracket. */
  ghost predicate AttributeAt(src: seq<Byte>, p: nat) {
    Hashed(src, p) && Kinds(src)[p] == Code
  }

  ghost predicate UnitAt(src: seq<Byte>, squeeze: Squeeze, u: Unit) {
    AttributeAt(src, u.from) && exists a: nat :: UnitTo(src, squeeze, u, a)
  }

  ghost predicate Inside(us: seq<Unit>, p: nat) {
    exists k {:trigger us[k]} :: 0 <= k < |us| && us[k].from <= p < us[k].to
  }

  ghost predicate InTest(us: seq<Unit>, p: nat) {
    exists k {:trigger us[k]} :: 0 <= k < |us| && us[k].test && us[k].from <= p < us[k].to
  }

  ghost predicate AllUnits(src: seq<Byte>, squeeze: Squeeze, us: seq<Unit>) {
    forall k {:trigger us[k]} | 0 <= k < |us| :: UnitAt(src, squeeze, us[k])
  }

  ghost predicate InOrder(i: nat, us: seq<Unit>) {
    && (forall k {:trigger us[k]} | 0 <= k < |us| :: i <= us[k].from < us[k].to)
    && (forall j, k {:trigger us[j], us[k]} | 0 <= j < k < |us| :: us[j].to <= us[k].from)
  }

  /** From `i` on: units in order, none inside another, and no attribute outside them. */
  ghost predicate Units(src: seq<Byte>, squeeze: Squeeze, i: nat, us: seq<Unit>) {
    && AllUnits(src, squeeze, us) && InOrder(i, us)
    && (forall p {:trigger AttributeAt(src, p)} | i <= p && AttributeAt(src, p) :: Inside(us, p))
  }

  lemma UnitsSkip(src: seq<Byte>, squeeze: Squeeze, i: nat, us: seq<Unit>)
    requires !AttributeAt(src, i) && Units(src, squeeze, i + 1, us)
    ensures Units(src, squeeze, i, us)
  {
  }

  lemma InsideMore(u: Unit, us: seq<Unit>, p: nat)
    ensures Inside([u] + us, p) <==> u.from <= p < u.to || Inside(us, p)
    ensures InTest([u] + us, p) <==> (u.test && u.from <= p < u.to) || InTest(us, p)
  {
    var all := [u] + us;
    assert all[0] == u;
    forall k {:trigger us[k]} | 0 <= k < |us| ensures us[k] == all[k + 1] {}
    forall k {:trigger all[k]} | 0 < k < |all| ensures all[k] == us[k - 1] {}
  }

  lemma AllUnitsMore(src: seq<Byte>, squeeze: Squeeze, u: Unit, us: seq<Unit>)
    requires UnitAt(src, squeeze, u) && AllUnits(src, squeeze, us)
    ensures AllUnits(src, squeeze, [u] + us)
  {
    var all := [u] + us;
    forall k {:trigger all[k]} | 0 <= k < |all| ensures all[k] == u || (k > 0 && all[k] == us[k - 1]) {}
  }

  lemma InOrderMore(u: Unit, us: seq<Unit>)
    requires u.from < u.to && InOrder(u.to, us)
    ensures InOrder(u.from, [u] + us)
  {
    var all := [u] + us;
    forall k {:trigger all[k]} | 0 < k < |all| ensures all[k] == us[k - 1] {}
  }

  lemma UnitsMore(src: seq<Byte>, squeeze: Squeeze, u: Unit, us: seq<Unit>)
    requires UnitAt(src, squeeze, u) && u.from < u.to && Units(src, squeeze, u.to, us)
    ensures Units(src, squeeze, u.from, [u] + us)
  {
    AllUnitsMore(src, squeeze, u, us);
    InOrderMore(u, us);
    forall p {:trigger AttributeAt(src, p)} | u.from <= p && AttributeAt(src, p) ensures Inside([u] + us, p) {
      InsideMore(u, us, p);
    }
  }

  /** The unit the scan finds at an attribute. */
  lemma UnitHere(src: seq<Byte>, squeeze: Squeeze, i: nat)
    requires i < |src| && Opening(src, Kinds(src), i) && !Torn(src, i, AttrEnd(src, Kinds(src), i))
    ensures var e := AttrEnd(src, Kinds(src), i);
      UnitAt(src, squeeze, Unit(i, After(src, Uncommented(src), squeeze, i), TestAttr(src, squeeze, i, e)))
  {
    var kinds, text := Kinds(src), Uncommented(src);
    var e := AttrEnd(src, kinds, i);
    var u := Unit(i, After(src, text, squeeze, i), TestAttr(src, squeeze, i, e));
    AttrEndExactly(src, kinds, i, e);
    if u.test {
      var s := ItemStart(src, kinds, text, e);
      ItemStartExactly(src, kinds, text, e, s);
      ItemEndExactly(src, kinds, s, u.to);
    }
    assert UnitTo(src, squeeze, u, e);
  }

  ghost predicate SameInside(spans: seq<Span>, us: seq<Unit>) {
    forall p: nat {:trigger InSome(spans, p)} {:trigger InTest(us, p)} :: InSome(spans, p) <==> InTest(us, p)
  }

  lemma InSomeMore(s: Span, rest: seq<Span>, p: nat)
    ensures InSome([s] + rest, p) <==> s.from <= p < s.to || InSome(rest, p)
  {
    var all := [s] + rest;
    assert all[0] == s;
    if InSome(rest, p) {
      var k :| 0 <= k < |rest| && rest[k].from <= p < rest[k].to;
      assert all[k + 1] == rest[k];
    }
    if InSome(all, p) && !(s.from <= p < s.to) {
      var k :| 0 <= k < |all| && all[k].from <= p < all[k].to;
      assert rest[k - 1] == all[k];
    }
  }

  lemma {:induction false} UnitsFrom(src: seq<Byte>, squeeze: Squeeze, i: nat) returns (us: seq<Unit>)
    requires TestSpans(src, Kinds(src), Uncommented(src), squeeze, i).Some?
    ensures Units(src, squeeze, i, us)
    ensures SameInside(TestSpans(src, Kinds(src), Uncommented(src), squeeze, i).value, us)
    decreases |src| - i
  {
    var kinds, text := Kinds(src), Uncommented(src);
    if i >= |src| {
      us := [];
    } else if !Opening(src, kinds, i) {
      us := UnitsFrom(src, squeeze, i + 1);
      UnitsSkip(src, squeeze, i, us);
    } else {
      var e, end := AttrEnd(src, kinds, i), After(src, text, squeeze, i);
      var u := Unit(i, end, TestAttr(src, squeeze, i, e));
      UnitHere(src, squeeze, i);
      us := UnitsFrom(src, squeeze, end);
      UnitsMore(src, squeeze, u, us);
      SameInsideMore(src, squeeze, i, e, us);
      us := [u] + us;
    }
  }

  lemma SameInsideMore(src: seq<Byte>, squeeze: Squeeze, i: nat, e: nat, us: seq<Unit>)
    requires i < |src| && Opening(src, Kinds(src), i) && e == AttrEnd(src, Kinds(src), i) && !Torn(src, i, e)
    requires var end := After(src, Uncommented(src), squeeze, i);
      && TestSpans(src, Kinds(src), Uncommented(src), squeeze, end).Some?
      && SameInside(TestSpans(src, Kinds(src), Uncommented(src), squeeze, end).value, us)
    ensures var spans := TestSpans(src, Kinds(src), Uncommented(src), squeeze, i);
      var u := Unit(i, After(src, Uncommented(src), squeeze, i), TestAttr(src, squeeze, i, e));
      spans.Some? && SameInside(spans.value, [u] + us)
  {
    var end := After(src, Uncommented(src), squeeze, i);
    var u := Unit(i, end, TestAttr(src, squeeze, i, e));
    var rest := TestSpans(src, Kinds(src), Uncommented(src), squeeze, end).value;
    var spans := if u.test then [Span(i, end)] + rest else rest;
    forall p: nat {:trigger InSome(spans, p)} {:trigger InTest([u] + us, p)}
      ensures InSome(spans, p) <==> InTest([u] + us, p)
    {
      InSomeMore(Span(i, end), rest, p);
      InsideMore(u, us, p);
    }
  }

  /** Blanking comments and test-only items keeps a text UTF-8. */
  lemma ProducedStaysValid(src: seq<Byte>, squeeze: Squeeze)
    requires Valid(src) && ItemSpans(src, squeeze).Some?
    ensures Valid(Blank(src, Mask(Kinds(src), ItemSpans(src, squeeze).value)))
  {
    SpansAreWhole(src, Kinds(src), Uncommented(src), squeeze, 0);
    MaskAligned(src, ItemSpans(src, squeeze).value);
    BlankStaysValid(src, Mask(Kinds(src), ItemSpans(src, squeeze).value));
  }

  // ----- the scan

  method FindAttrEnd(src: seq<Byte>, kinds: seq<Kind>, from: nat) returns (e: nat)
    requires Sized(src, kinds) && from + 1 < |src|
    ensures e == AttrEnd(src, kinds, from) && AttrEnds(src, kinds, from, e)
  {
    AttrEndExactly(src, kinds, from, AttrEnd(src, kinds, from));
    var depth, j := 0, from + 1;
    while j < |src|
      invariant from + 1 <= j <= |src| && Closing(src, kinds, j, depth) == Closing(src, kinds, from + 1, 0)
    {
      if kinds[j] == Code {
        if src[j] == OPEN_BRACKET || src[j] == OPEN_PAREN {
          depth := depth + 1;
        } else if src[j] == CLOSE_BRACKET || src[j] == CLOSE_PAREN {
          depth := depth - 1;
          if depth == 0 { return j + 1; }
        }
      }
      j := j + 1;
    }
    e := |src|;
  }

  method FindItemStart(src: seq<Byte>, kinds: seq<Kind>, out: array<Byte>, ghost text: seq<Byte>,
                       from: nat) returns (k: nat)
    requires Sized(src, kinds) && |text| == |src| == out.Length && from <= |src|
    requires forall p | from <= p < |src| :: out[p] == text[p]
    ensures k == ItemStart(src, kinds, text, from) && ItemStarts(src, kinds, text, from, k)
  {
    ItemStartExactly(src, kinds, text, from, ItemStart(src, kinds, text, from));
    k := from;
    while true
      invariant from <= k <= |src| && ItemStart(src, kinds, text, k) == ItemStart(src, kinds, text, from)
      decreases |src| - k
    {
      ghost var before := k;
      while k < |src| && AsciiSpace(out[k])
        invariant before <= k <= |src| && SpaceEnd(text, k) == SpaceEnd(text, before)
      {
        k := k + 1;
      }
      if k + 1 < |src| && src[k] == HASH && src[k + 1] == OPEN_BRACKET {
        k := FindAttrEnd(src, kinds, k);
      } else {
        return;
      }
    }
  }

  method FindItemEnd(src: seq<Byte>, kinds: seq<Kind>, from: nat) returns (end: nat)
    requires Sized(src, kinds) && from <= |src|
    ensures end == ItemEnd(src, kinds, from, 0) && ItemEnds(src, kinds, from, end)
  {
    ItemEndExactly(src, kinds, from, ItemEnd(src, kinds, from, 0));
    var depth, m := 0, from;
    while m < |src|
      invariant from <= m <= |src| && ItemEnd(src, kinds, m, depth) == ItemEnd(src, kinds, from, 0)
    {
      if kinds[m] == Code {
        if src[m] == OPEN_BRACE {
          depth := depth + 1;
        } else if src[m] == CLOSE_BRACE {
          depth := depth - 1;
          if depth == 0 { return m + 1; }
        } else if src[m] == SEMICOLON && depth == 0 {
          return m + 1;
        }
      }
      m := m + 1;
    }
    end := |src|;
  }

  /** The working text: comments and the spans so far are blank. */
  ghost predicate Shows(out: array<Byte>, src: seq<Byte>, kinds: seq<Kind>, spans: seq<Span>)
    requires Sized(src, kinds)
    reads out
  {
    out.Length == |src| && forall p {:trigger out[p]} | 0 <= p < |src| :: out[p] == Blank(src, Mask(kinds, spans))[p]
  }

  method BlankComments(src: seq<Byte>, kinds: seq<Kind>) returns (out: array<Byte>)
    requires Sized(src, kinds)
    ensures fresh(out) && Shows(out, src, kinds, [])
  {
    out := new Byte[|src|](p requires 0 <= p < |src| => src[p]);
    var i := 0;
    while i < |src|
      invariant i <= |src|
      invariant forall p | 0 <= p < |src| ::
          out[p] == if p < i && kinds[p] == Comment && src[p] != NEWLINE then SPACE else src[p]
    {
      if kinds[i] == Comment && src[i] != NEWLINE { out[i] := SPACE; }
      i := i + 1;
    }
  }

  lemma OneMore(kinds: seq<Kind>, spans: seq<Span>, s: Span, p: nat)
    ensures InSome(spans + [s], p) <==> InSome(spans, p) || s.from <= p < s.to
  {
    if InSome(spans, p) {
      var k :| 0 <= k < |spans| && spans[k].from <= p < spans[k].to;
      assert (spans + [s])[k] == spans[k];
    }
    if s.from <= p < s.to { assert (spans + [s])[|spans|] == s; }
  }

  method BlankSpan(out: array<Byte>, src: seq<Byte>, kinds: seq<Kind>, ghost spans: seq<Span>, from: nat, to: nat)
    requires Sized(src, kinds) && from <= to <= |src| && Shows(out, src, kinds, spans)
    modifies out
    ensures Shows(out, src, kinds, spans + [Span(from, to)])
  {
    var p := from;
    while p < to
      invariant from <= p <= to
      invariant forall q {:trigger out[q]} | 0 <= q < out.Length ::
        out[q] == if from <= q < p && old(out[q]) != NEWLINE then SPACE else old(out[q])
    {
      if out[p] != NEWLINE { out[p] := SPACE; }
      p := p + 1;
    }
    forall q {:trigger out[q]} | 0 <= q < |src| ensures out[q] == Blank(src, Mask(kinds, spans + [Span(from, to)]))[q] {
      OneMore(kinds, spans, Span(from, to), q);
    }
  }

  /** What the scan has found, and what it has still to find. */
  ghost predicate Pending(src: seq<Byte>, squeeze: Squeeze, spans: seq<Span>, i: nat) {
    && (forall k {:trigger spans[k]} | 0 <= k < |spans| :: spans[k].to <= i)
    && var rest := TestSpans(src, Kinds(src), Uncommented(src), squeeze, i);
       ItemSpans(src, squeeze) == if rest.None? then None else Some(spans + rest.value)
  }

  /** Ahead of the scan only comments are blank. */
  lemma AheadUncommented(out: array<Byte>, src: seq<Byte>, squeeze: Squeeze, spans: seq<Span>, i: nat, p: nat)
    requires Shows(out, src, Kinds(src), spans) && Pending(src, squeeze, spans, i) && i <= p < |src|
    ensures out[p] == Uncommented(src)[p]
  {
  }

  lemma SpanHere(src: seq<Byte>, kinds: seq<Kind>, text: seq<Byte>, squeeze: Squeeze, i: nat, e: nat, end: nat)
    requires Sized(src, kinds) && |text| == |src| && Opening(src, kinds, i) && e == AttrEnd(src, kinds, i)
    requires !Torn(src, i, e) && TestAttr(src, squeeze, i, e)
    requires end == ItemEnd(src, kinds, ItemStart(src, kinds, text, e), 0)
    ensures var rest := TestSpans(src, kinds, text, squeeze, end);
      TestSpans(src, kinds, text, squeeze, i) == if rest.None? then None else Some([Span(i, end)] + rest.value)
  {
  }

  lemma EndsBy(spans: seq<Span>, i: nat, s: Span)
    requires (forall k {:trigger spans[k]} | 0 <= k < |spans| :: spans[k].to <= i) && i <= s.to
    ensures forall k {:trigger (spans + [s])[k]} | 0 <= k < |spans + [s]| :: (spans + [s])[k].to <= s.to
  {
  }

  lemma Regrouped(all: Option<seq<Span>>, spans: seq<Span>, here: Option<seq<Span>>, s: Span, rest: Option<seq<Span>>)
    requires all == if here.None? then None else Some(spans + here.value)
    requires here == if rest.None? then None else Some([s] + rest.value)
    ensures all == if rest.None? then None else Some(spans + [s] + rest.value)
  {
    if rest.Some? { assert spans + ([s] + rest.value) == spans + [s] + rest.value; }
  }

  lemma PendingSpan(src: seq<Byte>, squeeze: Squeeze, spans: seq<Span>, i: nat, e: nat, end: nat)
    requires Pending(src, squeeze, spans, i) && Opening(src, Kinds(src), i) && e == AttrEnd(src, Kinds(src), i)
    requires !Torn(src, i, e) && TestAttr(src, squeeze, i, e)
    requires end == ItemEnd(src, Kinds(src), ItemStart(src, Kinds(src), Uncommented(src), e), 0)
    ensures Pending(src, squeeze, spans + [Span(i, end)], end)
  {
    var kinds, text := Kinds(src), Uncommented(src);
    SpanHere(src, kinds, text, squeeze, i, e, end);
    EndsBy(spans, i, Span(i, end));
    Regrouped(ItemSpans(src, squeeze), spans, TestSpans(src, kinds, text, squeeze, i), Span(i, end),
              TestSpans(src, kinds, text, squeeze, end));
  }

  lemma PendingAttribute(src: seq<Byte>, squeeze: Squeeze, spans: seq<Span>, i: nat, e: nat)
    requires Pending(src, squeeze, spans, i) && Opening(src, Kinds(src), i) && e == AttrEnd(src, Kinds(src), i)
    ensures Torn(src, i, e) ==> ItemSpans(src, squeeze).None?
    ensures !Torn(src, i, e) && !TestAttr(src, squeeze, i, e) ==> Pending(src, squeeze, spans, e)
  {
  }

  /** The item behind a test-only attribute. */
  method BlankItem(src: seq<Byte>, kinds: seq<Kind>, squeeze: Squeeze, out: array<Byte>, ghost spans: seq<Span>,
                   i: nat, e: nat)
    returns (end: nat)
    requires kinds == Kinds(src) && Opening(src, kinds, i) && e == AttrEnd(src, kinds, i)
    requires !Torn(src, i, e) && TestAttr(src, squeeze, i, e)
    requires Shows(out, src, kinds, spans) && Pending(src, squeeze, spans, i)
    modifies out
    ensures i < end <= |src|
    ensures Shows(out, src, kinds, spans + [Span(i, end)]) && Pending(src, squeeze, spans + [Span(i, end)], end)
  {
    forall p | e <= p < |src|
      ensures out[p] == Uncommented(src)[p]
    {
      AheadUncommented(out, src, squeeze, spans, i, p);
    }
    var k := FindItemStart(src, kinds, out, Uncommented(src), e);
    end := FindItemEnd(src, kinds, k);
    PendingSpan(src, squeeze, spans, i, e, end);
    BlankSpan(out, src, kinds, spans, i, end);
  }

  /** One attribute; the scan resumes at `j`, unless the attribute's text cannot be taken. */
  method ScanAttribute(src: seq<Byte>, kinds: seq<Kind>, squeeze: Squeeze, out: array<Byte>, ghost spans: seq<Span>,
                       i: nat)
    returns (ok: bool, j: nat, ghost spans': seq<Span>)
    requires kinds == Kinds(src) && i < |src| && Opening(src, kinds, i)
    requires Shows(out, src, kinds, spans) && Pending(src, squeeze, spans, i)
    modifies out
    ensures !ok ==> ItemSpans(src, squeeze).None?
    ensures ok ==> i < j <= |src| && Shows(out, src, kinds, spans') && Pending(src, squeeze, spans', j)
  {
    ok, j, spans' := true, 0, spans;
    var e := FindAttrEnd(src, kinds, i);
    PendingAttribute(src, squeeze, spans, i, e);
    if e - 1 < i + 2 || Tail(src[e - 1]) { return false, 0, spans; }
    var testOnly := IsTestOnlyCfg(squeeze(src[i + 2..e - 1]));
    if testOnly {
      j := BlankItem(src, kinds, squeeze, out, spans, i, e);
      spans' := spans + [Span(i, j)];
    } else {
      j := e;
    }
  }

  /** Exactly comments and test-only units are spaces, and line breaks stay. */
  ghost predicate Shown(src: seq<Byte>, us: seq<Unit>, text: seq<Byte>) {
    |text| == |src| && forall p {:trigger text[p]} | 0 <= p < |src| ::
      text[p] == if src[p] != '\n' as int && (Kinds(src)[p] == Comment || InTest(us, p)) then ' ' as int else src[p]
  }

  /**
    The production text.  When the scan is nowhere stuck it has the length of the source, line breaks stay,
    a byte is kept or becomes a space, and it is UTF-8 again.
   */
  method Produce(src: seq<Byte>, squeeze: Squeeze) returns (r: Option<seq<Byte>>)
    requires Valid(src)
    ensures r.Some? <==> forall p: nat :: !Stuck(src, squeeze, p)
    ensures r.Some? ==>
      ItemSpans(src, squeeze).Some? && r.value == Blank(src, Mask(Kinds(src), ItemSpans(src, squeeze).value))
    ensures r.Some? ==> |r.value| == |src| && Valid(r.value)
    ensures r.Some? ==> exists us :: Units(src, squeeze, 0, us) && Shown(src, us, r.value)
  {
    ProducedExactly(src, squeeze);
    var kind := Classify(src);
    var out := BlankComments(src, kind[..]);
    var ok := BlankItems(src, kind[..], squeeze, out);
    if !ok { return None; }
    ProducedStaysValid(src, squeeze);
    ghost var spans := ItemSpans(src, squeeze).value;
    assert out[..] == Blank(src, Mask(Kinds(src), spans)) by { ShownText(out, src, Kinds(src), spans); }
    r := Some(out[..]);
    ghost var us := UnitsFrom(src, squeeze, 0);
    assert Shown(src, us, r.value);
  }

  lemma ShownText(out: array<Byte>, src: seq<Byte>, kinds: seq<Kind>, spans: seq<Span>)
    requires Sized(src, kinds) && Shows(out, src, kinds, spans)
    ensures out[..] == Blank(src, Mask(kinds, spans))
  {
  }

  /** Blank every test-only item; stop when an attribute's text cannot be taken. */
  method BlankItems(src: seq<Byte>, kinds: seq<Kind>, squeeze: Squeeze, out: array<Byte>) returns (ok: bool)
    requires kinds == Kinds(src) && Shows(out, src, kinds, [])
    modifies out
    ensures ok <==> ItemSpans(src, squeeze).Some?
    ensures ok ==> Shows(out, src, kinds, ItemSpans(src, squeeze).value)
  {
    ghost var spans: seq<Span> := [];
    var i := 0;
    NothingYet(src, squeeze);
    while i < |src|
      invariant i <= |src| && Shows(out, src, kinds, spans) && Pending(src, squeeze, spans, i)
    {
      if !(kinds[i] == Code && src[i] == HASH && i + 1 < |src| && src[i + 1] == OPEN_BRACKET) {
        PendingStep(src, squeeze, spans, i);
        i := i + 1;
      } else {
        ok, i, spans := ScanAttribute(src, kinds, squeeze, out, spans, i);
        if !ok { return; }
      }
    }
    assert spans + [] == spans;
    ok := true;
  }

  lemma NothingYet(src: seq<Byte>, squeeze: Squeeze)
    ensures Pending(src, squeeze, [], 0)
  {
    var rest := ItemSpans(src, squeeze);
    if rest.Some? { assert [] + rest.value == rest.value; }
  }

  lemma PendingStep(src: seq<Byte>, squeeze: Squeeze, spans: seq<Span>, i: nat)
    requires Pending(src, squeeze, spans, i) && i < |src| && !Opening(src, Kinds(src), i)
    ensures Pending(src, squeeze, spans, i + 1)
  {
  }
}
