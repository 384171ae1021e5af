/**
  Which `cfg` attributes, white space removed, let only test builds compile what follows: the bare test
  predicate, and an outermost `all` with it among its elements.
 */
module TestCfg {
  import opened Basics

  const TEST: seq<Byte> := Text("test")
  const CFG_TEST: seq<Byte> := Text("cfg(test)")
  const ALL_OPEN: seq<Byte> := Text("cfg(all(")
  const ALL_CLOSE: seq<Byte> := Text("))")

  /** Parentheses opened and not closed before `k`. */
  function Depth(s: seq<Byte>, k: nat): int
    requires k <= |s|
  {
    if k == 0 then 0
    else Depth(s, k - 1) + if s[k - 1] == '(' as int then 1 else if s[k - 1] == ')' as int then -1 else 0
  }

  /** The places of a byte before `k`. */
  function Places(s: seq<Byte>, b: Byte, k: nat): set<nat>
    requires k <= |s|
  {
    set p: nat | p < k && s[p] == b
  }

  lemma PlacesMore(s: seq<Byte>, b: Byte, k: nat)
    requires k < |s|
    ensures |Places(s, b, k + 1)| == |Places(s, b, k)| + if s[k] == b then 1 else 0
  {
    if s[k] == b {
      assert Places(s, b, k + 1) == Places(s, b, k) + {k};
    } else {
      assert Places(s, b, k + 1) == Places(s, b, k);
    }
  }

  lemma {:induction false} DepthCounts(s: seq<Byte>, k: nat)
    requires k <= |s|
    ensures Depth(s, k) == |Places(s, '(' as int, k)| - |Places(s, ')' as int, k)|
  {
    if k > 0 {
      DepthCounts(s, k - 1);
      PlacesMore(s, '(' as int, k - 1);
      PlacesMore(s, ')' as int, k - 1);
    } else {
      assert Places(s, '(' as int, 0) == {} == Places(s, ')' as int, 0);
    }
  }

  predicate Separator(s: seq<Byte>, k: nat)
    requires k < |s|
  {
    s[k] == ',' as int && Depth(s, k) == 0
  }

  /** `s[a..b]` is one element of the outermost list. */
  ghost predicate Element(s: seq<Byte>, a: nat, b: nat) {
    && a <= b <= |s| && (a == 0 || Separator(s, a - 1)) && (b == |s| || Separator(s, b))
    && forall k | a <= k < b :: !Separator(s, k)
  }

  ghost predicate HasElement(s: seq<Byte>, x: seq<Byte>) {
    exists a: nat, b: nat {:trigger Element(s, a, b)} :: Element(s, a, b) && s[a..b] == x
  }

  /** `test` alone, or as an element of the outermost `all`. */
  ghost predicate TestOnly(attr: seq<Byte>) {
    || attr == CFG_TEST
    || (|attr| >= 10 && attr[..8] == ALL_OPEN && attr[|attr| - 2..] == ALL_CLOSE
        && HasElement(attr[8..|attr| - 2], TEST))
  }

  lemma ElementUnique(s: seq<Byte>, a: nat, b: nat, start: nat, stop: nat)
    requires Element(s, a, b) && Element(s, start, stop) && start <= b <= stop
    ensures a == start && b == stop
  {
  }

  method HasTest(inner: seq<Byte>) returns (found: bool)
    ensures found <==> HasElement(inner, TEST)
  {
    var depth, start, idx := 0, 0, 0;
    var elems: seq<seq<Byte>> := [];
    while idx < |inner|
      invariant start <= idx <= |inner| && depth == Depth(inner, idx)
      invariant (start == 0 || Separator(inner, start - 1)) && forall k | start <= k < idx :: !Separator(inner, k)
      invariant TEST in elems ==> HasElement(inner, TEST)
      invariant forall a: nat, b: nat {:trigger Element(inner, a, b)} | Element(inner, a, b) && b < start ::
          inner[a..b] in elems
    {
      if inner[idx] == '(' as int {
        depth := depth + 1;
      } else if inner[idx] == ')' as int {
        depth := depth - 1;
      } else if inner[idx] == ',' as int && depth == 0 {
        assert Element(inner, start, idx);
        forall a: nat, b: nat {:trigger Element(inner, a, b)} | Element(inner, a, b) && b < idx + 1
          ensures inner[a..b] in elems + [inner[start..idx]]
        {
          if b >= start { ElementUnique(inner, a, b, start, idx); }
        }
        elems := elems + [inner[start..idx]];
        start := idx + 1;
      }
      idx := idx + 1;
    }
    assert Element(inner, start, |inner|) && inner[start..] == inner[start..|inner|];
    forall a: nat, b: nat {:trigger Element(inner, a, b)} | Element(inner, a, b)
      ensures inner[a..b] in elems + [inner[start..]]
    {
      if b >= start { ElementUnique(inner, a, b, start, |inner|); }
    }
    elems := elems + [inner[start..]];
    found := TEST in elems;
  }

  method IsTestOnlyCfg(attr: seq<Byte>) returns (testOnly: bool)
    ensures testOnly <==> TestOnly(attr)
  {
    if attr == CFG_TEST { return true; }
    if !(ALL_OPEN <= attr) {
      assert |attr| >= 8 ==> (attr[..8] == ALL_OPEN ==> ALL_OPEN <= attr);
      return false;
    }
    assert attr[..8] == ALL_OPEN;
    var rest := attr[8..];
    if |rest| < 2 || rest[|rest| - 2..] != ALL_CLOSE {
      assert |rest| >= 2 ==> rest[|rest| - 2..] == attr[|attr| - 2..];
      return false;
    }
    assert rest[|rest| - 2..] == attr[|attr| - 2..] && rest[..|rest| - 2] == attr[8..|attr| - 2];
    testOnly := HasTest(rest[..|rest| - 2]);
  }

  // ----- written from their elements

  /** Elements with commas between them. */
  function Joined(es: seq<seq<Byte>>): seq<Byte>
    requires es != []
  {
    if |es| == 1 then es[0] else es[0] + Text(",") + Joined(es[1..])
  }

  /** The parentheses of an element balance, and no comma stands outside them. */
  ghost predicate Single(e: seq<Byte>) {
    Depth(e, |e|) == 0 && forall k | 0 <= k < |e| :: !Separator(e, k)
  }

  lemma {:induction false} DepthFront(e: seq<Byte>, rest: seq<Byte>, k: nat)
    requires k <= |e|
    ensures Depth(e + rest, k) == Depth(e, k)
  {
    if k > 0 { DepthFront(e, rest, k - 1); }
  }

  lemma {:induction false} DepthBack(e: seq<Byte>, rest: seq<Byte>, k: nat)
    requires k <= |rest|
    ensures Depth(e + rest, |e| + k) == Depth(e, |e|) + Depth(rest, k)
  {
    if k == 0 {
      DepthFront(e, rest, |e|);
    } else {
      DepthBack(e, rest, k - 1);
      assert (e + rest)[|e| + k - 1] == rest[k - 1];
    }
  }

  /** Past an element and its comma the separators are those of the rest. */
  lemma SeparatorsAfter(e: seq<Byte>, rest: seq<Byte>, k: nat)
    requires Single(e) && k < |e + Text(",") + rest|
    ensures var s := e + Text(",") + rest;
      Separator(s, k) <==> k == |e| || (k > |e| && Separator(rest, k - |e| - 1))
  {
    var s, head := e + Text(",") + rest, e + Text(",");
    DepthBack(e, Text(","), 1);
    assert Depth(Text(","), 0) == 0 && Depth(head, |head|) == 0;
    if k <= |e| {
      DepthFront(head, rest, k);
      DepthFront(e, Text(","), k);
      assert k < |e| ==> s[k] == e[k] && !Separator(e, k);
    } else {
      DepthBack(head, rest, k - |head|);
      assert s[k] == rest[k - |head|];
    }
  }

  /** `s` is an element of length `n - 1`, a comma, and `rest`. */
  ghost predicate Leads(s: seq<Byte>, n: nat, rest: seq<Byte>) {
    && 1 <= n && |s| == n + |rest|
    && forall k: nat {:trigger Separator(s, k)} | k < |s| ::
         Separator(s, k) <==> k == n - 1 || (k >= n && Separator(rest, k - n))
  }

  lemma LeadingElement(e: seq<Byte>, rest: seq<Byte>)
    requires Single(e)
    ensures Leads(e + Text(",") + rest, |e| + 1, rest)
  {
    var s := e + Text(",") + rest;
    forall k: nat {:trigger Separator(s, k)} | k < |s|
      ensures Separator(s, k) <==> k == |e| || (k > |e| && Separator(rest, k - |e| - 1))
    {
      SeparatorsAfter(e, rest, k);
    }
  }

  lemma FirstElement(s: seq<Byte>, n: nat, rest: seq<Byte>, a: nat, b: nat)
    requires Leads(s, n, rest) && a < n
    ensures Element(s, a, b) <==> a == 0 && b == n - 1
  {
    assert Separator(s, n - 1);
    if a > 0 { assert !Separator(s, a - 1); }
    if a == 0 && b < n - 1 && b < |s| { assert !Separator(s, b); }
  }

  lemma LaterElement(s: seq<Byte>, n: nat, rest: seq<Byte>, a: nat, b: nat)
    requires Leads(s, n, rest) && n <= a <= b
    ensures Element(s, a, b) <==> Element(rest, a - n, b - n)
  {
    assert a == n ==> Separator(s, a - 1);
    if Element(rest, a - n, b - n) {
      forall k | a <= k < b ensures !Separator(s, k) { assert !Separator(rest, k - n); }
    }
    if Element(s, a, b) {
      forall k | a - n <= k < b - n ensures !Separator(rest, k) { assert !Separator(s, k + n); }
    }
  }

  lemma HasElementAfter(e: seq<Byte>, rest: seq<Byte>, x: seq<Byte>)
    requires Single(e)
    ensures HasElement(e + Text(",") + rest, x) <==> x == e || HasElement(rest, x)
  {
    var s, n := e + Text(",") + rest, |e| + 1;
    LeadingElement(e, rest);
    FirstElement(s, n, rest, 0, |e|);
    assert s[0..|e|] == e;
    if HasElement(s, x) { ElementGoesDown(s, n, e, rest, x); }
    if HasElement(rest, x) { ElementComesUp(s, n, rest, x); }
  }

  lemma ElementGoesDown(s: seq<Byte>, n: nat, e: seq<Byte>, rest: seq<Byte>, x: seq<Byte>)
    requires Leads(s, n, rest) && s[..n - 1] == e && s[n..] == rest && HasElement(s, x)
    ensures x == e || HasElement(rest, x)
  {
    var a: nat, b: nat :| Element(s, a, b) && s[a..b] == x;
    if a < n {
      FirstElement(s, n, rest, a, b);
    } else {
      LaterElement(s, n, rest, a, b);
      SameSlice(s, n, a, b);
    }
  }

  lemma SameSlice(s: seq<Byte>, n: nat, a: nat, b: nat)
    requires n <= a <= b <= |s|
    ensures s[a..b] == s[n..][a - n..b - n]
  {
  }

  lemma ElementComesUp(s: seq<Byte>, n: nat, rest: seq<Byte>, x: seq<Byte>)
    requires Leads(s, n, rest) && s[n..] == rest && HasElement(rest, x)
    ensures HasElement(s, x)
  {
    var a: nat, b: nat :| Element(rest, a, b) && rest[a..b] == x;
    LaterElement(s, n, rest, a + n, b + n);
    SameSlice(s, n, a + n, b + n);
  }

  /** Splitting undoes joining. */
  lemma {:induction false} SplitUndoesJoin(es: seq<seq<Byte>>, x: seq<Byte>)
    requires es != [] && forall i {:trigger es[i]} | 0 <= i < |es| :: Single(es[i])
    ensures HasElement(Joined(es), x) <==> x in es
    decreases |es|
  {
    assert Single(es[0]);
    if |es| == 1 {
      assert Element(es[0], 0, |es[0]|) && es[0][0..|es[0]|] == es[0];
      forall a: nat, b: nat | Element(es[0], a, b) ensures a == 0 && b == |es[0]| {}
    } else {
      forall i {:trigger es[1..][i]} | 0 <= i < |es[1..]| ensures Single(es[1..][i]) { assert es[1..][i] == es[i + 1]; }
      SplitUndoesJoin(es[1..], x);
      HasElementAfter(es[0], Joined(es[1..]), x);
      assert es == [es[0]] + es[1..];
    }
  }

  lemma WrappedInAll(inner: seq<Byte>, test: bool)
    requires test <==> HasElement(inner, Text("test"))
    ensures TestOnly(Text("cfg(all(") + inner + Text("))")) <==> test
  {
    var attr := Text("cfg(all(") + inner + Text("))");
    assert attr[8..|attr| - 2] == inner && attr[..8] == Text("cfg(all(") && attr[|attr| - 2..] == Text("))");
    assert attr != CFG_TEST by { assert attr[4] == 'a' as int && CFG_TEST[4] == 't' as int; }
  }

  /** An outermost `all` is test-only exactly when the bare predicate is one of its elements. */
  lemma AllExactly(es: seq<seq<Byte>>)
    requires es != [] && forall i {:trigger es[i]} | 0 <= i < |es| :: Single(es[i])
    ensures TestOnly(Text("cfg(all(") + Joined(es) + Text("))")) <==> Text("test") in es
  {
    SplitUndoesJoin(es, Text("test"));
    WrappedInAll(Joined(es), Text("test") in es);
  }

  /** `any` and `not` compile in production, whatever they hold. */
  lemma AnyAndNotCompile(attr: seq<Byte>)
    requires Text("cfg(any(") <= attr || Text("cfg(not(") <= attr
    ensures !TestOnly(attr)
  {
    assert CFG_TEST[4] == 't' as int && ALL_OPEN[4] == 'a' as int && ALL_OPEN[5] == 'l' as int;
    assert attr[..8][4] == attr[4] && attr[..8][5] == attr[5];
    assert attr[4] != 't' as int && (attr[4] == 'n' as int || attr[5] == 'n' as int);
  }
}
