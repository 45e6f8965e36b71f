/** Base 32: five bytes are eight digits of five bits, and a last group takes only the digits it needs. */
module Armor32 {
  import opened Common
  import opened Armor
  import opened ArmorCodec

  // A digit takes its bits from one byte or from two.
  function E0(p0: byte): (r: int) ensures IsDigit(B32, r) { p0 / 8 }
  function E1(p0: byte, p1: byte): (r: int) ensures IsDigit(B32, r) { p0 % 8 * 4 + p1 / 64 }
  function E2(p1: byte): (r: int) ensures IsDigit(B32, r) { p1 / 2 % 32 }
  function E3(p1: byte, p2: byte): (r: int) ensures IsDigit(B32, r) { p1 % 2 * 16 + p2 / 16 }
  function E4(p2: byte, p3: byte): (r: int) ensures IsDigit(B32, r) { p2 % 16 * 2 + p3 / 128 }
  function E5(p3: byte): (r: int) ensures IsDigit(B32, r) { p3 / 4 % 32 }
  function E6(p3: byte, p4: byte): (r: int) ensures IsDigit(B32, r) { p3 % 4 * 8 + p4 / 32 }
  function E7(p4: byte): (r: int) ensures IsDigit(B32, r) { p4 % 32 }

  function Enc(p: bytes): seq<int> {
    if |p| == 1 then [E0(p[0]), E1(p[0], 0)]
    else if |p| == 2 then [E0(p[0]), E1(p[0], p[1]), E2(p[1]), E3(p[1], 0)]
    else if |p| == 3 then [E0(p[0]), E1(p[0], p[1]), E2(p[1]), E3(p[1], p[2]), E4(p[2], 0)]
    else if |p| == 4 then
      [E0(p[0]), E1(p[0], p[1]), E2(p[1]), E3(p[1], p[2]), E4(p[2], p[3]), E5(p[3]), E6(p[3], 0)]
    else if |p| == 5 then
      [E0(p[0]), E1(p[0], p[1]), E2(p[1]), E3(p[1], p[2]), E4(p[2], p[3]), E5(p[3]), E6(p[3], p[4]), E7(p[4])]
    else []
  }

  // A byte is the low eight bits of the digits it is spread over.
  function D0(c0: int, c1: int): byte { (c0 * 8 + c1 / 4) % 256 }
  function D1(c1: int, c2: int, c3: int): byte { (c1 * 64 + c2 * 2 + c3 / 16) % 256 }
  function D2(c3: int, c4: int): byte { (c3 * 16 + c4 / 2) % 256 }
  function D3(c4: int, c5: int, c6: int): byte { (c4 * 128 + c5 * 4 + c6 / 8) % 256 }
  function D4(c6: int, c7: int): byte { (c6 * 32 + c7) % 256 }

  function Dec(c: seq<int>): bytes {
    if |c| == 2 then [D0(c[0], c[1])]
    else if |c| == 4 then [D0(c[0], c[1]), D1(c[1], c[2], c[3])]
    else if |c| == 5 then [D0(c[0], c[1]), D1(c[1], c[2], c[3]), D2(c[3], c[4])]
    else if |c| == 7 then [D0(c[0], c[1]), D1(c[1], c[2], c[3]), D2(c[3], c[4]), D3(c[4], c[5], c[6])]
    else if |c| == 8 then
      [D0(c[0], c[1]), D1(c[1], c[2], c[3]), D2(c[3], c[4]), D3(c[4], c[5], c[6]), D4(c[6], c[7])]
    else []
  }

  function C32(): Codec { Codec(5, 8, Enc, Dec) }

  /** b2a32rem: digits of a last group of r bytes. */
  function DigitsFor(r: nat): nat {
    if r == 0 then 0 else if r == 1 then 2 else if r == 2 then 4 else if r == 3 then 5 else 7
  }

  /** a2b32rem: bytes of a last group of k digits, or -1. */
  function BytesFor(k: nat): int {
    if k == 0 then 0 else if k == 2 then 1 else if k == 4 then 2 else if k == 5 then 3 else if k == 7 then 4 else -1
  }

  // ----- a group comes back

  lemma Back0(p0: byte, p1: byte)
    ensures D0(E0(p0), E1(p0, p1)) == p0
  {
    assert (p0 % 8 * 4 + p1 / 64) / 4 == p0 % 8;
  }

  lemma Back1(p0: byte, p1: byte, p2: byte)
    ensures D1(E1(p0, p1), E2(p1), E3(p1, p2)) == p1
  {
    assert (p1 % 2 * 16 + p2 / 16) / 16 == p1 % 2;
    assert p1 / 64 * 64 + p1 / 2 % 32 * 2 + p1 % 2 == p1;
    Cut(p0 % 8, p1);
  }

  lemma Back2(p1: byte, p2: byte, p3: byte)
    ensures D2(E3(p1, p2), E4(p2, p3)) == p2
  {
    var t, l := p3 / 128, p2 % 16;
    assert 0 <= t <= 1;
    assert (l * 2 + t) / 2 == l;
    assert p2 / 16 * 16 + l == p2;
    Cut(p1 % 2, p2);
  }

  lemma Back3(p2: byte, p3: byte, p4: byte)
    ensures D3(E4(p2, p3), E5(p3), E6(p3, p4)) == p3
  {
    var t, l := p4 / 32, p3 % 4;
    assert 0 <= t < 8;
    assert (l * 8 + t) / 8 == l;
    assert p3 / 128 * 128 + p3 / 4 % 32 * 4 + l == p3;
    Cut(p2 % 16, p3);
  }

  lemma Back4(p3: byte, p4: byte)
    ensures D4(E6(p3, p4), E7(p4)) == p4
  {
    assert p4 / 32 * 32 + p4 % 32 == p4;
    Cut(p3 % 4, p4);
  }

  lemma GroupBack12(p: bytes)
    requires |p| <= 2
    ensures Dec(Enc(p)) == p
  {
    if |p| == 1 {
      Back0(p[0], 0);
    } else if |p| == 2 {
      Back0(p[0], p[1]);
      Back1(p[0], p[1], 0);
    }
  }

  lemma GroupBack3(p: bytes)
    requires |p| == 3
    ensures Dec(Enc(p)) == p
  {
    Back0(p[0], p[1]);
    Back1(p[0], p[1], p[2]);
    Back2(p[1], p[2], 0);
  }

  lemma GroupBack4(p: bytes)
    requires |p| == 4
    ensures Dec(Enc(p)) == p
  {
    Back0(p[0], p[1]);
    Back1(p[0], p[1], p[2]);
    Back2(p[1], p[2], p[3]);
    Back3(p[2], p[3], 0);
  }

  lemma GroupBack5(p: bytes)
    requires |p| == 5
    ensures Dec(Enc(p)) == p
  {
    Back0(p[0], p[1]);
    Back1(p[0], p[1], p[2]);
    Back2(p[1], p[2], p[3]);
    Back3(p[2], p[3], p[4]);
    Back4(p[3], p[4]);
  }

  lemma GroupBack(p: bytes)
    requires |p| <= 5
    ensures Dec(Enc(p)) == p
  {
    if |p| <= 2 { GroupBack12(p); } else if |p| == 3 { GroupBack3(p); }
    else if |p| == 4 { GroupBack4(p); } else { GroupBack5(p); }
  }

  lemma GroupLength(p: bytes)
    requires |p| <= 5
    ensures |Enc(p)| == if |p| == 5 then 8 else DigitsFor(|p|)
  {
  }

  lemma IsFaithful()
    ensures Faithful(C32())
  {
    forall p: bytes | |p| <= 5 ensures C32().dec(C32().enc(p)) == p { GroupBack(p); }
    forall p: bytes | |p| == 5 ensures |C32().enc(p)| == 8 { GroupLength(p); }
    forall p: bytes | |p| < 5 ensures |C32().enc(p)| < 8 { GroupLength(p); }
  }

  lemma KeepsAlphabet()
    ensures Keeps(C32(), B32)
  {
    forall p: bytes | |p| <= 5 ensures AreDigits(B32, Enc(p)) {
    }
  }

  // ----- a group is the same number

  lemma After2(n: int, p0: byte, p1: byte)
    ensures (n * 32 + E0(p0)) * 32 + E1(p0, p1) == (n * 256 + p0) * 4 + p1 / 64
  {
  }

  lemma After4(n: int, p1: byte, p2: byte)
    ensures ((n * 4 + p1 / 64) * 32 + E2(p1)) * 32 + E3(p1, p2) == (n * 256 + p1) * 16 + p2 / 16
  {
    assert p1 / 64 * 64 + p1 / 2 % 32 * 2 + p1 % 2 == p1;
  }

  lemma After5(n: int, p2: byte, p3: byte)
    ensures (n * 16 + p2 / 16) * 32 + E4(p2, p3) == (n * 256 + p2) * 2 + p3 / 128
  {
  }

  lemma After7(n: int, p3: byte, p4: byte)
    ensures ((n * 2 + p3 / 128) * 32 + E5(p3)) * 32 + E6(p3, p4) == (n * 256 + p3) * 8 + p4 / 32
  {
    assert p3 / 128 * 128 + p3 / 4 % 32 * 4 + p3 % 4 == p3;
  }

  lemma After8(n: int, p4: byte)
    ensures (n * 8 + p4 / 32) * 32 + E7(p4) == n * 256 + p4
  {
  }

  // The value of the digits so far, once the digits that finish a byte are read.
  lemma Value1(d: seq<int>, b: bytes, p0: byte, p1: byte)
    requires Number(d, 32) == Number(b, 256)
    ensures Number(d + [E0(p0), E1(p0, p1)], 32) == Number(b + [p0], 256) * 4 + p1 / 64
  {
    NumberNext2(d, E0(p0), E1(p0, p1), 32);
    NumberNext(b, p0, 256);
    After2(Number(b, 256), p0, p1);
  }

  lemma Value2(d: seq<int>, b: bytes, p1: byte, p2: byte)
    requires Number(d, 32) == Number(b, 256) * 4 + p1 / 64
    ensures Number(d + [E2(p1), E3(p1, p2)], 32) == Number(b + [p1], 256) * 16 + p2 / 16
  {
    NumberNext2(d, E2(p1), E3(p1, p2), 32);
    NumberNext(b, p1, 256);
    After4(Number(b, 256), p1, p2);
  }

  lemma Value3(d: seq<int>, b: bytes, p2: byte, p3: byte)
    requires Number(d, 32) == Number(b, 256) * 16 + p2 / 16
    ensures Number(d + [E4(p2, p3)], 32) == Number(b + [p2], 256) * 2 + p3 / 128
  {
    NumberNext(d, E4(p2, p3), 32);
    NumberNext(b, p2, 256);
    After5(Number(b, 256), p2, p3);
  }

  lemma Value4(d: seq<int>, b: bytes, p3: byte, p4: byte)
    requires Number(d, 32) == Number(b, 256) * 2 + p3 / 128
    ensures Number(d + [E5(p3), E6(p3, p4)], 32) == Number(b + [p3], 256) * 8 + p4 / 32
  {
    NumberNext2(d, E5(p3), E6(p3, p4), 32);
    NumberNext(b, p3, 256);
    After7(Number(b, 256), p3, p4);
  }

  lemma Value5(d: seq<int>, b: bytes, p4: byte)
    requires Number(d, 32) == Number(b, 256) * 8 + p4 / 32
    ensures Number(d + [E7(p4)], 32) == Number(b + [p4], 256)
  {
    NumberNext(d, E7(p4), 32);
    NumberNext(b, p4, 256);
    After8(Number(b, 256), p4);
  }

  /** What the last digit of a short group holds beyond the bytes, as a factor. */
  function Pad(r: nat): nat {
    if r == 0 then 1 else if r == 1 then 4 else if r == 2 then 16 else if r == 3 then 2 else 8
  }

  lemma Steps2(d: seq<int>, b: bytes, p0: byte, p1: byte, next: byte)
    requires Number(d, 32) == Number(b, 256)
    ensures Number(d + [E0(p0), E1(p0, p1), E2(p1), E3(p1, next)], 32) == Number(b + [p0, p1], 256) * 16 + next / 16
  {
    Value1(d, b, p0, p1);
    Value2(d + [E0(p0), E1(p0, p1)], b + [p0], p1, next);
    assert d + [E0(p0), E1(p0, p1)] + [E2(p1), E3(p1, next)] == d + [E0(p0), E1(p0, p1), E2(p1), E3(p1, next)];
    assert b + [p0] + [p1] == b + [p0, p1];
  }

  lemma Steps3(d: seq<int>, b: bytes, p0: byte, p1: byte, p2: byte, next: byte)
    requires Number(d, 32) == Number(b, 256)
    ensures Number(d + [E0(p0), E1(p0, p1), E2(p1), E3(p1, p2), E4(p2, next)], 32)
         == Number(b + [p0, p1, p2], 256) * 2 + next / 128
  {
    var e := [E0(p0), E1(p0, p1), E2(p1), E3(p1, p2)];
    Steps2(d, b, p0, p1, p2);
    Value3(d + e, b + [p0, p1], p2, next);
    assert d + e + [E4(p2, next)] == d + [E0(p0), E1(p0, p1), E2(p1), E3(p1, p2), E4(p2, next)];
    assert b + [p0, p1] + [p2] == b + [p0, p1, p2];
  }

  lemma Steps4(d: seq<int>, b: bytes, p0: byte, p1: byte, p2: byte, p3: byte, next: byte)
    requires Number(d, 32) == Number(b, 256)
    ensures Number(d + [E0(p0), E1(p0, p1), E2(p1), E3(p1, p2), E4(p2, p3), E5(p3), E6(p3, next)], 32)
         == Number(b + [p0, p1, p2, p3], 256) * 8 + next / 32
  {
    var e := [E0(p0), E1(p0, p1), E2(p1), E3(p1, p2), E4(p2, p3)];
    Steps3(d, b, p0, p1, p2, p3);
    Value4(d + e, b + [p0, p1, p2], p3, next);
    assert d + e + [E5(p3), E6(p3, next)]
        == d + [E0(p0), E1(p0, p1), E2(p1), E3(p1, p2), E4(p2, p3), E5(p3), E6(p3, next)];
    assert b + [p0, p1, p2] + [p3] == b + [p0, p1, p2, p3];
  }

  lemma Steps5(d: seq<int>, b: bytes, p: bytes)
    requires Number(d, 32) == Number(b, 256) && |p| == 5
    ensures Number(d + Enc(p), 32) == Number(b + p, 256)
  {
    var e := [E0(p[0]), E1(p[0], p[1]), E2(p[1]), E3(p[1], p[2]), E4(p[2], p[3]), E5(p[3]), E6(p[3], p[4])];
    Steps4(d, b, p[0], p[1], p[2], p[3], p[4]);
    Value5(d + e, b + [p[0], p[1], p[2], p[3]], p[4]);
    assert d + e + [E7(p[4])] == d + Enc(p);
    assert b + [p[0], p[1], p[2], p[3]] + [p[4]] == b + p;
  }

  lemma LastSteps12(d: seq<int>, b: bytes, p: bytes)
    requires Number(d, 32) == Number(b, 256) && 1 <= |p| <= 2
    ensures Number(d + Enc(p), 32) == Number(b + p, 256) * if |p| == 1 then 4 else 16
  {
    if |p| == 1 {
      Value1(d, b, p[0], 0);
      assert [p[0]] == p;
    } else {
      Steps2(d, b, p[0], p[1], 0);
      assert [p[0], p[1]] == p;
    }
  }

  lemma LastSteps34(d: seq<int>, b: bytes, p: bytes)
    requires Number(d, 32) == Number(b, 256) && 3 <= |p| <= 4
    ensures Number(d + Enc(p), 32) == Number(b + p, 256) * if |p| == 3 then 2 else 8
  {
    if |p| == 3 {
      Steps3(d, b, p[0], p[1], p[2], 0);
      assert [p[0], p[1], p[2]] == p;
    } else {
      Steps4(d, b, p[0], p[1], p[2], p[3], 0);
      assert [p[0], p[1], p[2], p[3]] == p;
    }
  }

  lemma LastSteps(d: seq<int>, b: bytes, p: bytes)
    requires Number(d, 32) == Number(b, 256) && |p| < 5
    ensures Number(d + Enc(p), 32) == Number(b + p, 256) * Pad(|p|)
  {
    if |p| == 0 {
      assert d + Enc(p) == d && b + p == b;
    } else if |p| <= 2 {
      LastSteps12(d, b, p);
    } else {
      LastSteps34(d, b, p);
    }
  }

  lemma HasSameValue()
    ensures SameValue(C32(), B32, Pad)
  {
    forall d: seq<int>, b: bytes, g: bytes ensures Continues(C32(), B32, Pad, d, b, g) {
      if Number(d, 32) == Number(b, 256) && |g| <= 5 {
        if |g| == 5 { Steps5(d, b, g); } else { LastSteps(d, b, g); }
      }
    }
  }

  // ----- the text

  lemma {:induction false} Closed(n: nat)
    ensures Rest(n, 5) == n % 5 && Count(C32(), DigitsFor, n) == n / 5 * 8 + DigitsFor(n % 5)
  {
    if n >= 5 {
      Closed(n - 5);
      assert n / 5 == (n - 5) / 5 + 1 && n % 5 == (n - 5) % 5;
    }
  }

  /** The digits of a byte string: how many, and the number they make. */
  lemma DigitsAre(b: bytes)
    ensures var d := Digits(C32(), b);
            && AreDigits(B32, d)
            && |d| == |b| / 5 * 8 + DigitsFor(|b| % 5)
            && Number(d, 32) == Number(b, 256) * Pad(|b| % 5)
  {
    IsFaithful();
    KeepsAlphabet();
    HasSameValue();
    Closed(|b|);
    forall g: bytes | |g| < 5 ensures |C32().enc(g)| == DigitsFor(|g|) { GroupLength(g); }
    DigitsAreDigits(C32(), B32, b);
    DigitsLength(C32(), DigitsFor, b);
    SameNumber(C32(), B32, Pad, b);
  }

  /** The text of a byte string. */
  function Text(b: bytes): string {
    TextFrom(C32(), B32, b, 0)
  }

  /** What a text stands for: nothing when it has a number of characters that no bytes give. */
  function Untext(s: string): Option<bytes> {
    if BytesFor(|s| % 8) < 0 then None else Some(BytesFrom(C32(), B32, s, 0))
  }

  lemma RightLength(q: nat, r: nat)
    requires r < 5
    ensures BytesFor((q * 8 + DigitsFor(r)) % 8) == r
  {
    assert (q * 8 + DigitsFor(r)) % 8 == DigitsFor(r);
  }

  lemma TextLength(b: bytes)
    ensures |Text(b)| == |b| / 5 * 8 + DigitsFor(|b| % 5)
    ensures BytesFor(|Text(b)| % 8) >= 0
  {
    assert b[0..] == b;
    TextIsDigits(C32(), B32, b, 0);
    DigitsAre(b);
    RightLength(|b| / 5, |b| % 5);
  }

  /** The text of any byte string, read up to the first character that is not of the alphabet, gives it back. */
  lemma RoundTrip(b: bytes, rest: string)
    requires rest != [] && DigitOf(B32, rest[0]) < 0
    ensures Span(B32, Text(b) + rest) == |Text(b)|
    ensures Untext((Text(b) + rest)[..|Text(b)|]) == Some(b)
  {
    IsFaithful();
    KeepsAlphabet();
    TextBack(C32(), B32, b, rest);
    TextLength(b);
  }

  method ToText(data: bytes) returns (res: string)
    ensures res == Text(data)
    ensures |res| == |data| / 5 * 8 + DigitsFor(|data| % 5)
  {
    res := Encode(C32(), B32, data);
    TextLength(data);
  }

  /** How much of s is read: what the caller says, or up to the first character that is not of the alphabet. */
  function Extent(s: string, len: Option<nat>): nat {
    if len.Some? then len.value else Span(B32, s)
  }

  method FromText(s: string, len: Option<nat>) returns (r: Option<bytes>)
    requires if len.Some? then len.value <= Span(B32, s) else Ends(B32, s)
    ensures r == Untext(s[..Extent(s, len)])
    ensures r.Some? ==> |r.value| == Extent(s, len) / 8 * 5 + BytesFor(Extent(s, len) % 8)
  {
    var n: nat;
    if len.Some? { n := len.value; } else { n := TextLen(B32, s); }
    if BytesFor(n % 8) < 0 {
      return None;
    }
    var bin := Decode(C32(), B32, s[..n]);
    UntextLength(s[..n]);
    r := Some(bin);
  }

  lemma {:induction false} UndigitsLength(d: seq<int>)
    requires BytesFor(|d| % 8) >= 0
    ensures |Undigits(C32(), d)| == |d| / 8 * 5 + BytesFor(|d| % 8)
    decreases |d|
  {
    if |d| >= 8 {
      assert |d| / 8 == (|d| - 8) / 8 + 1 && |d| % 8 == (|d| - 8) % 8;
      UndigitsLength(d[8..]);
    }
  }

  lemma UntextLength(s: string)
    requires BytesFor(|s| % 8) >= 0
    ensures |BytesFrom(C32(), B32, s, 0)| == |s| / 8 * 5 + BytesFor(|s| % 8)
  {
    assert s[0..] == s;
    BytesAreUndigits(C32(), B32, s, 0);
    UndigitsLength(DigitsOf(B32, s));
  }

  // ----- digits that no bytes were written as

  /** What the last digit of k digits may hold beyond the bytes, as a divisor; 0 where no bytes have k digits. */
  function Slack(k: nat): nat {
    if k == 0 || k == 8 then 1 else if k == 2 then 4 else if k == 4 then 16 else if k == 5 then 2
    else if k == 7 then 8 else 0
  }

  // A byte in terms of its digits.
  lemma D0Is(c0: int, c1: int)
    requires IsDigit(B32, c0) && IsDigit(B32, c1)
    ensures D0(c0, c1) == c0 * 8 + c1 / 4
  {
  }

  lemma D1Is(c1: int, c2: int, c3: int)
    requires IsDigit(B32, c1) && IsDigit(B32, c2) && IsDigit(B32, c3)
    ensures D1(c1, c2, c3) == c1 % 4 * 64 + c2 * 2 + c3 / 16
  {
    Cut(c1 / 4, c1 % 4 * 64 + c2 * 2 + c3 / 16);
  }

  lemma D2Is(c3: int, c4: int)
    requires IsDigit(B32, c3) && IsDigit(B32, c4)
    ensures D2(c3, c4) == c3 % 16 * 16 + c4 / 2
  {
    Cut(c3 / 16, c3 % 16 * 16 + c4 / 2);
  }

  lemma D3Is(c4: int, c5: int, c6: int)
    requires IsDigit(B32, c4) && IsDigit(B32, c5) && IsDigit(B32, c6)
    ensures D3(c4, c5, c6) == c4 % 2 * 128 + c5 * 4 + c6 / 8
  {
    Cut(c4 / 2, c4 % 2 * 128 + c5 * 4 + c6 / 8);
  }

  lemma D4Is(c6: int, c7: int)
    requires IsDigit(B32, c6) && IsDigit(B32, c7)
    ensures D4(c6, c7) == c6 % 8 * 32 + c7
  {
    Cut(c6 / 8, c6 % 8 * 32 + c7);
  }

  // A digit comes back from its bytes, and the last one without what lies beyond them.
  lemma Again1(c0: int, c1: int, c2: int, c3: int)
    requires IsDigit(B32, c0) && IsDigit(B32, c1) && IsDigit(B32, c2) && IsDigit(B32, c3)
    ensures E0(D0(c0, c1)) == c0 && E1(D0(c0, c1), 0) == c1 - c1 % 4
    ensures E1(D0(c0, c1), D1(c1, c2, c3)) == c1
  {
    D0Is(c0, c1);
    D1Is(c1, c2, c3);
  }

  lemma Again3(c1: int, c2: int, c3: int, c4: int)
    requires IsDigit(B32, c1) && IsDigit(B32, c2) && IsDigit(B32, c3) && IsDigit(B32, c4)
    ensures E2(D1(c1, c2, c3)) == c2 && E3(D1(c1, c2, c3), 0) == c3 - c3 % 16
    ensures E3(D1(c1, c2, c3), D2(c3, c4)) == c3
  {
    D1Is(c1, c2, c3);
    D2Is(c3, c4);
    var x, y := D1(c1, c2, c3), D2(c3, c4);
    assert x / 2 == c1 % 4 * 32 + c2 && x % 2 == c3 / 16;
    assert y / 16 == c3 % 16;
  }

  lemma Again4(c3: int, c4: int, c5: int, c6: int)
    requires IsDigit(B32, c3) && IsDigit(B32, c4) && IsDigit(B32, c5) && IsDigit(B32, c6)
    ensures E4(D2(c3, c4), 0) == c4 - c4 % 2
    ensures E4(D2(c3, c4), D3(c4, c5, c6)) == c4
  {
    D2Is(c3, c4);
    D3Is(c4, c5, c6);
  }

  lemma Again6(c4: int, c5: int, c6: int, c7: int)
    requires IsDigit(B32, c4) && IsDigit(B32, c5) && IsDigit(B32, c6) && IsDigit(B32, c7)
    ensures E5(D3(c4, c5, c6)) == c5 && E6(D3(c4, c5, c6), 0) == c6 - c6 % 8
    ensures E6(D3(c4, c5, c6), D4(c6, c7)) == c6 && E7(D4(c6, c7)) == c7
  {
    D3Is(c4, c5, c6);
    D4Is(c6, c7);
    var x, y := D3(c4, c5, c6), D4(c6, c7);
    assert x / 4 == c4 % 2 * 32 + c5 && x % 4 == c6 / 8;
    assert y / 32 == c6 % 8 && y % 32 == c7;
  }

  /** Group g comes back from its n bytes, but for its last digit. */
  ghost predicate Cleared(g: seq<int>, n: nat, last: int) {
    |g| > 0 && |Dec(g)| == n && Enc(Dec(g)) == g[|g| - 1 := last]
  }

  lemma Again2(g: seq<int>)
    requires |g| == 2 && IsDigit(B32, g[0]) && IsDigit(B32, g[1])
    ensures Cleared(g, 1, g[1] - g[1] % 4)
  {
    Again1(g[0], g[1], 0, 0);
  }

  lemma AgainFour(g: seq<int>)
    requires |g| == 4 && forall i :: 0 <= i < |g| ==> IsDigit(B32, g[i])
    ensures Cleared(g, 2, g[3] - g[3] % 16)
  {
    Again1(g[0], g[1], g[2], g[3]);
    Again3(g[1], g[2], g[3], 0);
  }

  lemma Again5(g: seq<int>)
    requires |g| == 5 && forall i :: 0 <= i < |g| ==> IsDigit(B32, g[i])
    ensures Cleared(g, 3, g[4] - g[4] % 2)
  {
    Again1(g[0], g[1], g[2], g[3]);
    Again3(g[1], g[2], g[3], g[4]);
    Again4(g[3], g[4], 0, 0);
  }

  lemma Again7(g: seq<int>)
    requires |g| == 7 && forall i :: 0 <= i < |g| ==> IsDigit(B32, g[i])
    ensures Cleared(g, 4, g[6] - g[6] % 8)
  {
    Again1(g[0], g[1], g[2], g[3]);
    Again3(g[1], g[2], g[3], g[4]);
    Again4(g[3], g[4], g[5], g[6]);
    Again6(g[4], g[5], g[6], 0);
  }

  lemma Again8(g: seq<int>)
    requires |g| == 8 && forall i :: 0 <= i < |g| ==> IsDigit(B32, g[i])
    ensures Cleared(g, 5, g[7])
  {
    Again1(g[0], g[1], g[2], g[3]);
    Again3(g[1], g[2], g[3], g[4]);
    Again4(g[3], g[4], g[5], g[6]);
    Again6(g[4], g[5], g[6], g[7]);
  }

  lemma ClearedRedone(g: seq<int>, n: nat, k: nat)
    requires 0 < k && n <= 5 && (|g| == 8 <==> n == 5) && |g| > 0 && Cleared(g, n, g[|g| - 1] - g[|g| - 1] % k)
    ensures Redone(C32(), g, k)
  {
  }

  lemma GroupAgain(g: seq<int>)
    requires AreDigits(B32, g) && |g| <= 8 && Slack(|g|) > 0
    ensures Redone(C32(), g, Slack(|g|)) && Slack(|g|) == if |Dec(g)| == 5 then 1 else Pad(|Dec(g)|)
  {
    if |g| == 2 {
      Again2(g);
      ClearedRedone(g, 1, 4);
    } else if |g| == 4 {
      AgainFour(g);
      ClearedRedone(g, 2, 16);
    } else if |g| == 5 {
      Again5(g);
      ClearedRedone(g, 3, 2);
    } else if |g| == 7 {
      Again7(g);
      ClearedRedone(g, 4, 8);
    } else if |g| == 8 {
      Again8(g);
      ClearedRedone(g, 5, 1);
    }
  }

  lemma DoesRecode()
    ensures Recodes(C32(), B32, Pad, Slack)
  {
    forall g: seq<int> | AreDigits(B32, g) && |g| <= 8 && Slack(|g|) > 0
      ensures Redone(C32(), g, Slack(|g|)) && Slack(|g|) == if |C32().dec(g)| == 5 then 1 else Pad(|C32().dec(g)|)
    {
      GroupAgain(g);
    }
  }

  lemma {:induction false} RestIs(n: nat)
    ensures Rest(n, 8) == n % 8
  {
    if n >= 8 {
      RestIs(n - 8);
      assert n % 8 == (n - 8) % 8;
    }
  }

  // ----- in closed form

  /** The digits are as few as hold the bits, and their number is that of the bytes with zeros to fill them up. */
  lemma EncodedIs(b: bytes)
    ensures var d := Digits(C32(), b); AreDigits(B32, d) && Fits32(|b|, Number(b, 256), |d|, Number(d, 32))
  {
    DigitsAre(b);
    InBits(|b|, Number(b, 256), |Digits(C32(), b)|, Number(Digits(C32(), b), 32));
  }

  /** d digits with number y hold n bytes with number x: they are as few as hold the bits, and zeros fill them up. */
  ghost predicate Fits32(n: nat, x: int, d: nat, y: int) {
    d == (8 * n + 4) / 5 && 5 * d >= 8 * n && y == x * Pow2(5 * d - 8 * n)
  }

  lemma InBits(n: nat, x: int, d: nat, y: int)
    requires d == n / 5 * 8 + DigitsFor(n % 5) && y == x * Pad(n % 5)
    ensures Fits32(n, x, d, y)
  {
    BitsOf(n, d);
  }

  lemma BitsOf(n: nat, d: nat)
    requires d == n / 5 * 8 + DigitsFor(n % 5)
    ensures d == (8 * n + 4) / 5 && 5 * d >= 8 * n && Pad(n % 5) == Pow2(5 * d - 8 * n)
  {
    PowersOfTwo();
  }

  lemma BytesOf(n: nat)
    requires BytesFor(n % 8) >= 0
    ensures n / 8 * 5 + BytesFor(n % 8) == 5 * n / 8 && Slack(n % 8) == Pow2(5 * n % 8)
  {
    PowersOfTwo();
  }

  /** Any digits that are as few as they can be stand for as many bytes as they fill, with the number that is left
      when the bits beyond them are shifted out. */
  lemma DecodedIs(d: seq<int>)
    requires AreDigits(B32, d) && BytesFor(|d| % 8) >= 0
    ensures var b := Undigits(C32(), d);
            |b| == 5 * |d| / 8 && Number(b, 256) == Number(d, 32) / Pow2(5 * |d| % 8)
  {
    HasSameValue();
    DoesRecode();
    RestIs(|d|);
    UndigitsNumber(C32(), B32, Pad, Slack, d);
    UndigitsLength(d);
    BytesOf(|d|);
  }

  /** A number of characters is refused exactly if one fewer, or one fewer full group, would hold the same bytes. */
  lemma LengthExact(n: nat)
    ensures BytesFor(n % 8) >= 0 <==> exists m: nat :: n == (8 * m + 4) / 5
  {
    if BytesFor(n % 8) >= 0 {
      BytesOf(n);
      assert n == (8 * (5 * n / 8) + 4) / 5;
    }
    forall m: nat | n == (8 * m + 4) / 5 ensures BytesFor(n % 8) >= 0 {
      BitsOf(m, m / 5 * 8 + DigitsFor(m % 5));
      RightLength(m / 5, m % 5);
    }
  }

  /** The text is the digits in the letters of the alphabet. */
  lemma TextIs(b: bytes, i: nat)
    requires i < |Text(b)|
    ensures var d := Digits(C32(), b); |Text(b)| == |d| && IsDigit(B32, d[i]) && Text(b)[i] == LETTERS32[d[i]]
  {
    var d := Digits(C32(), b);
    assert b[0..] == b;
    TextIsDigits(C32(), B32, b, 0);
    DigitsAre(b);
    CharsAt(B32, d, i);
    assert IsDigit(B32, d[i]);
    LetterIs(B32, d[i]);
  }
}
