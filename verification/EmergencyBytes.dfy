/**
  The canonical bytes of halts and resumes, the preimages of their content addresses: a domain tag, then
  the fields, integers big-endian and strings behind a 32-bit length.  A length is cut to 32 bits.
 */
module EmergencyBytes {
  import opened Basics
  import opened Emergency

  const HALT_TAG: seq<Byte> := Text("ELARA_EMERGENCY_HALT_V1")
  const RESUME_TAG: seq<Byte> := Text("ELARA_EMERGENCY_RESUME_V1")

  function Pow256(w: nat): nat {
    if w == 0 then 1 else 256 * Pow256(w - 1)
  }

  function BigEndian(n: nat, w: nat): (bytes: seq<Byte>)
    ensures |bytes| == w
  {
    if w == 0 then [] else BigEndian(n / 256, w - 1) + [n % 256]
  }

  lemma {:induction false} BigEndianInjective(m: nat, n: nat, w: nat)
    requires m < Pow256(w) && n < Pow256(w) && BigEndian(m, w) == BigEndian(n, w)
    ensures m == n
    decreases w
  {
    if w > 0 {
      var a, b := BigEndian(m, w), BigEndian(n, w);
      assert BigEndian(m / 256, w - 1) == a[..w - 1] == b[..w - 1] == BigEndian(n / 256, w - 1);
      assert m % 256 == a[w - 1] == b[w - 1] == n % 256;
      BigEndianInjective(m / 256, n / 256, w - 1);
    }
  }

  lemma Widths()
    ensures Pow256(4) == U32 && Pow256(8) == U64
  {
    assert Pow256(2) == 65536;
    assert Pow256(4) == 256 * (256 * Pow256(2));
    assert Pow256(6) == 256 * (256 * Pow256(4));
    assert Pow256(8) == 256 * (256 * Pow256(6));
  }

  function Prefixed(bytes: seq<Byte>): seq<Byte> {
    BigEndian(|bytes| % U32, 4) + bytes
  }

  function HaltBytes(h: Halt): seq<Byte> {
    HALT_TAG + [h.version] + Prefixed(h.network) + BigEndian(h.nonce, 8) + BigEndian(h.issued, 8)
    + BigEndian(h.maxDuration, 8) + Prefixed(h.reason)
  }

  function ResumeBytes(r: Resume): seq<Byte> {
    RESUME_TAG + [r.version] + Prefixed(r.network) + BigEndian(r.haltNonce, 8) + BigEndian(r.issued, 8)
  }

  method PushPrefixed(out: seq<Byte>, bytes: seq<Byte>) returns (out': seq<Byte>)
    ensures out' == out + Prefixed(bytes)
  {
    out' := out + BigEndian(|bytes| % U32, 4);
    out' := out' + bytes;
  }

  method EncodeHalt(h: Halt) returns (out: seq<Byte>)
    ensures out == HaltBytes(h)
  {
    out := HALT_TAG;
    out := out + [h.version];
    out := PushPrefixed(out, h.network);
    out := out + BigEndian(h.nonce, 8);
    out := out + BigEndian(h.issued, 8);
    out := out + BigEndian(h.maxDuration, 8);
    out := PushPrefixed(out, h.reason);
  }

  method EncodeResume(r: Resume) returns (out: seq<Byte>)
    ensures out == ResumeBytes(r)
  {
    out := RESUME_TAG;
    out := out + [r.version];
    out := PushPrefixed(out, r.network);
    out := out + BigEndian(r.haltNonce, 8);
    out := out + BigEndian(r.issued, 8);
  }

  // ----- where the fields lie

  lemma HaltLayout(h: Halt)
    ensures var x, n := HaltBytes(h), |h.network|;
      && |x| == 56 + n + |h.reason| && x[..23] == HALT_TAG && x[23] == h.version
      && x[24..28] == BigEndian(n % U32, 4) && x[28..28 + n] == h.network
      && x[28 + n..36 + n] == BigEndian(h.nonce, 8) && x[36 + n..44 + n] == BigEndian(h.issued, 8)
      && x[44 + n..52 + n] == BigEndian(h.maxDuration, 8)
      && x[52 + n..56 + n] == BigEndian(|h.reason| % U32, 4) && x[56 + n..] == h.reason
  {
  }

  lemma ResumeLayout(r: Resume)
    ensures var x, n := ResumeBytes(r), |r.network|;
      && |x| == 46 + n && x[..25] == RESUME_TAG && x[25] == r.version
      && x[26..30] == BigEndian(n % U32, 4) && x[30..30 + n] == r.network
      && x[30 + n..38 + n] == BigEndian(r.haltNonce, 8) && x[38 + n..46 + n] == BigEndian(r.issued, 8)
  {
  }

  lemma WordInjective(m: Word, n: Word)
    requires BigEndian(m, 8) == BigEndian(n, 8)
    ensures m == n
  {
    Widths();
    BigEndianInjective(m, n, 8);
  }

  lemma SameNetworkLength(h: Halt, k: Halt)
    requires HaltBytes(h) == HaltBytes(k)
    ensures |h.network| % U32 == |k.network| % U32 && |h.network| + |h.reason| == |k.network| + |k.reason|
  {
    HaltLayout(h);
    HaltLayout(k);
    Widths();
    BigEndianInjective(|h.network| % U32, |k.network| % U32, 4);
  }

  lemma SameRemainder(a: nat, b: nat, c: nat, d: nat)
    requires a % U32 == b % U32 && a + c == b + d
    requires (a < U32 && b < U32) || (c < U32 && d < U32)
    ensures a == b
  {
  }

  /** Bytes determine a halt, when the networks, or else the reasons, are shorter than 4 GiB. */
  lemma HaltBytesInjective(h: Halt, k: Halt)
    requires HaltBytes(h) == HaltBytes(k)
    requires (|h.network| < U32 && |k.network| < U32) || (|h.reason| < U32 && |k.reason| < U32)
    ensures h == k
  {
    SameNetworkLength(h, k);
    SameRemainder(|h.network|, |k.network|, |h.reason|, |k.reason|);
    HaltLayout(h);
    HaltLayout(k);
    WordInjective(h.nonce, k.nonce);
    WordInjective(h.issued, k.issued);
    WordInjective(h.maxDuration, k.maxDuration);
  }

  lemma WellFormedHaltsInjective(h: Halt, k: Halt)
    requires WellFormed(h) && WellFormed(k) && HaltBytes(h) == HaltBytes(k)
    ensures h == k
  {
    HaltBytesInjective(h, k);
  }

  /** A resume has one string, so its length follows from the total: no bound is needed. */
  lemma ResumeBytesInjective(r: Resume, q: Resume)
    requires ResumeBytes(r) == ResumeBytes(q)
    ensures r == q
  {
    ResumeLayout(r);
    ResumeLayout(q);
    WordInjective(r.haltNonce, q.haltNonce);
    WordInjective(r.issued, q.issued);
  }

  lemma HaltIsNoResume(h: Halt, r: Resume)
    ensures HaltBytes(h) != ResumeBytes(r)
  {
    assert HaltBytes(h)[16] == 'H' as int && ResumeBytes(r)[16] == 'R' as int;
  }

  // ----- the bound is exact

  function Zeros(n: nat): seq<Byte> {
    seq(n, _ => 0)
  }

  lemma {:induction false} BigEndianZero(w: nat)
    ensures BigEndian(0, w) == Zeros(w)
  {
    if w > 0 { BigEndianZero(w - 1); }
  }

  /** At 4 GiB the cut length lets a network and a reason trade places. */
  lemma LongNetworkCollides()
    ensures HaltBytes(Halt(1, Zeros(U32), 0, 0, 0, [])) == HaltBytes(Halt(1, [], 0, 0, 0, Zeros(U32)))
  {
    BigEndianZero(4);
    BigEndianZero(8);
    var head := HALT_TAG + [1];
    var x, y := HaltBytes(Halt(1, Zeros(U32), 0, 0, 0, [])), HaltBytes(Halt(1, [], 0, 0, 0, Zeros(U32)));
    assert x == head + Zeros(32 + U32);
    assert y == head + Zeros(32 + U32);
  }

  ghost predicate InjectiveUpTo(limit: nat) {
    forall h: Halt, k: Halt {:trigger HaltBytes(h), HaltBytes(k)} |
      |h.network| <= limit && |k.network| <= limit && HaltBytes(h) == HaltBytes(k) :: h == k
  }

  /** The encoding is injective on networks of up to `limit` bytes exactly when `limit` is below 4 GiB. */
  lemma InjectiveExactlyBelow(limit: nat)
    ensures InjectiveUpTo(limit) <==> limit < U32
  {
    if limit < U32 {
      forall h: Halt, k: Halt {:trigger HaltBytes(h), HaltBytes(k)} |
        |h.network| <= limit && |k.network| <= limit && HaltBytes(h) == HaltBytes(k) ensures h == k
      {
        HaltBytesInjective(h, k);
      }
    } else {
      LongNetworkCollides();
      var h, k := Halt(1, Zeros(U32), 0, 0, 0, []), Halt(1, [], 0, 0, 0, Zeros(U32));
      assert |h.network| <= limit && |k.network| <= limit && HaltBytes(h) == HaltBytes(k) && h.network != k.network;
    }
  }

  // ----- reading the bytes back

  /** The number the bytes spell, the first one weighing most. */
  function Spelled(bytes: seq<Byte>): (n: nat)
    ensures n < Pow256(|bytes|)
  {
    if bytes == [] then 0
    else
      Weighs(bytes[0], Pow256(|bytes| - 1));
      bytes[0] * Pow256(|bytes| - 1) + Spelled(bytes[1..])
  }

  lemma Weighs(b: Byte, p: nat)
    ensures 0 <= b * p <= 256 * p - p
  {
    assert b * p <= 255 * p;
  }

  lemma {:induction false} SpelledLast(bytes: seq<Byte>, b: Byte)
    ensures Spelled(bytes + [b]) == 256 * Spelled(bytes) + b
    decreases |bytes|
  {
    if bytes == [] {
      assert [b][1..] == [] && [] + [b] == [b];
      assert Pow256(0) == 1;
    } else {
      assert (bytes + [b])[1..] == bytes[1..] + [b];
      SpelledLast(bytes[1..], b);
      assert bytes[0] * Pow256(|bytes|) == 256 * (bytes[0] * Pow256(|bytes| - 1));
    }
  }

  /** Most significant byte first: the bytes spell the number. */
  lemma {:induction false} BigEndianSpells(n: nat, w: nat)
    requires n < Pow256(w)
    ensures Spelled(BigEndian(n, w)) == n
    decreases w
  {
    if w > 0 {
      BigEndianSpells(n / 256, w - 1);
      SpelledLast(BigEndian(n / 256, w - 1), n % 256);
    }
  }

  function ReadWord(x: seq<Byte>, i: nat): Word
    requires i + 8 <= |x|
  {
    Widths();
    Spelled(x[i..i + 8])
  }

  /** A halt read off its bytes, field by field. */
  function ParseHalt(x: seq<Byte>): Option<Halt> {
    if |x| < 56 || x[..23] != Text("ELARA_EMERGENCY_HALT_V1") then None
    else
      var n := Spelled(x[24..28]);
      if |x| < 56 + n || |x| != 56 + n + Spelled(x[52 + n..56 + n]) then None
      else
        Some(Halt(x[23], x[28..28 + n], ReadWord(x, 28 + n), ReadWord(x, 36 + n), ReadWord(x, 44 + n), x[56 + n..]))
  }

  function ParseResume(x: seq<Byte>): Option<Resume> {
    if |x| < 46 || x[..25] != Text("ELARA_EMERGENCY_RESUME_V1") then None
    else
      var n := Spelled(x[26..30]);
      if |x| != 46 + n then None
      else Some(Resume(x[25], x[30..30 + n], ReadWord(x, 30 + n), ReadWord(x, 38 + n)))
  }

  lemma ReadsBack(n: Word)
    ensures Spelled(BigEndian(n, 8)) == n
  {
    Widths();
    BigEndianSpells(n, 8);
  }

  lemma LengthReadsBack(n: nat)
    requires n < U32
    ensures Spelled(BigEndian(n % U32, 4)) == n
  {
    Widths();
    assert n % U32 == n;
    BigEndianSpells(n, 4);
  }

  /** Reading undoes writing, while the lengths fit their 32 bits. */
  lemma HaltReadsBack(h: Halt)
    requires |h.network| < U32 && |h.reason| < U32
    ensures ParseHalt(HaltBytes(h)) == Some(h)
  {
    HaltLayout(h);
    LengthReadsBack(|h.network|);
    LengthReadsBack(|h.reason|);
    ReadsBack(h.nonce);
    ReadsBack(h.issued);
    ReadsBack(h.maxDuration);
  }

  lemma ResumeReadsBack(r: Resume)
    requires |r.network| < U32
    ensures ParseResume(ResumeBytes(r)) == Some(r)
  {
    ResumeLayout(r);
    LengthReadsBack(|r.network|);
    ReadsBack(r.haltNonce);
    ReadsBack(r.issued);
  }

  /** A halt is well formed exactly when its bytes say version 1, some duration, and at most 1024 bytes of reason. */
  lemma WellFormedBytes(h: Halt)
    ensures var x, n := HaltBytes(h), |h.network|;
      WellFormed(h) <==> x[23] == 1 && Spelled(x[44 + n..52 + n]) > 0 && |x[56 + n..]| <= 1024
  {
    HaltLayout(h);
    ReadsBack(h.maxDuration);
  }
}
