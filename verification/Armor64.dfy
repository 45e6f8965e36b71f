/** Base 64 and its variants: three bytes are four digits of six bits; a last group is filled up with '=' or left
    short. */
module Armor64 {
  import opened Common
  import opened Armor
  import opened ArmorCodec

  // A digit takes its bits from one byte or from two.
  function E0(p0: byte): (r: int) ensures 0 <= r < 64 { p0 / 4 }
  function E1(p0: byte, p1: byte): (r: int) ensures 0 <= r < 64 { p0 % 4 * 16 + p1 / 16 }
  function E2(p1: byte, p2: byte): (r: int) ensures 0 <= r < 64 { p1 % 16 * 4 + p2 / 64 }
  function E3(p2: byte): (r: int) ensures 0 <= r < 64 { p2 % 64 }

  function Enc(p: bytes): seq<int> {
    if |p| == 1 then [E0(p[0]), E1(p[0], 0)]
    else if |p| == 2 then [E0(p[0]), E1(p[0], p[1]), E2(p[1], 0)]
    else if |p| == 3 then [E0(p[0]), E1(p[0], p[1]), E2(p[1], p[2]), E3(p[2])]
    else []
  }

  // A byte is the low eight bits of the two digits it is spread over.
  function D0(c0: int, c1: int): byte { (c0 * 4 + c1 / 16) % 256 }
  function D1(c1: int, c2: int): byte { (c1 * 16 + c2 / 4) % 256 }
  function D2(c2: int, c3: int): byte { (c2 * 64 + c3) % 256 }

  function Dec(c: seq<int>): bytes {
    if |c| == 2 then [D0(c[0], c[1])]
    else if |c| == 3 then [D0(c[0], c[1]), D1(c[1], c[2])]
    else if |c| == 4 then [D0(c[0], c[1]), D1(c[1], c[2]), D2(c[2], c[3])]
    else []
  }

  function C64(): Codec { Codec(3, 4, Enc, Dec) }

  // ----- a group comes back

  lemma Back0(p0: byte, p1: byte)
    ensures D0(E0(p0), E1(p0, p1)) == p0
  {
    var t, l := p1 / 16, p0 % 4;
    assert (l * 16 + t) / 16 == l;
    assert p0 / 4 * 4 + l == p0;
  }

  lemma Back1(p0: byte, p1: byte, p2: byte)
    ensures D1(E1(p0, p1), E2(p1, p2)) == p1
  {
    var t, l := p2 / 64, p1 % 16;
    assert (l * 4 + t) / 4 == l;
    assert p1 / 16 * 16 + l == p1;
    Cut(p0 % 4, p1);
  }

  lemma Back2(p1: byte, p2: byte)
    ensures D2(E2(p1, p2), E3(p2)) == p2
  {
    assert p2 / 64 * 64 + p2 % 64 == p2;
    Cut(p1 % 16, p2);
  }

  lemma GroupBack(p: bytes)
    requires |p| <= 3
    ensures Dec(Enc(p)) == p
  {
    if |p| == 1 {
      Back0(p[0], 0);
    } else if |p| == 2 {
      Back0(p[0], p[1]);
      Back1(p[0], p[1], 0);
    } else if |p| == 3 {
      Back0(p[0], p[1]);
      Back1(p[0], p[1], p[2]);
      Back2(p[1], p[2]);
    }
  }

  /** Digits of a last group of r bytes. */
  function DigitsFor(r: nat): nat { if r == 0 then 0 else r + 1 }

  lemma GroupLength(p: bytes)
    requires |p| <= 3
    ensures |Enc(p)| == DigitsFor(|p|)
  {
  }

  lemma IsFaithful()
    ensures Faithful(C64())
  {
    forall p: bytes | |p| <= 3 ensures C64().dec(C64().enc(p)) == p { GroupBack(p); }
    forall p: bytes | |p| == 3 ensures |C64().enc(p)| == 4 { GroupLength(p); }
    forall p: bytes | |p| < 3 ensures |C64().enc(p)| < 4 { GroupLength(p); }
  }

  lemma KeepsAlphabet(a: Alphabet)
    requires !a.B32?
    ensures Keeps(C64(), a)
  {
    forall p: bytes | |p| <= 3 ensures AreDigits(a, C64().enc(p)) {
    }
  }

  // ----- a group is the same number

  lemma Value1(d: seq<int>, b: bytes, p0: byte, p1: byte)
    requires Number(d, 64) == Number(b, 256)
    ensures Number(d + [E0(p0), E1(p0, p1)], 64) == Number(b + [p0], 256) * 16 + p1 / 16
  {
    NumberNext2(d, E0(p0), E1(p0, p1), 64);
    NumberNext(b, p0, 256);
    assert p0 / 4 * 4 + p0 % 4 == p0;
  }

  lemma Value2(d: seq<int>, b: bytes, p1: byte, p2: byte)
    requires Number(d, 64) == Number(b, 256) * 16 + p1 / 16
    ensures Number(d + [E2(p1, p2)], 64) == Number(b + [p1], 256) * 4 + p2 / 64
  {
    NumberNext(d, E2(p1, p2), 64);
    NumberNext(b, p1, 256);
    assert p1 / 16 * 16 + p1 % 16 == p1;
  }

  lemma Value3(d: seq<int>, b: bytes, p2: byte)
    requires Number(d, 64) == Number(b, 256) * 4 + p2 / 64
    ensures Number(d + [E3(p2)], 64) == Number(b + [p2], 256)
  {
    NumberNext(d, E3(p2), 64);
    NumberNext(b, p2, 256);
    assert p2 / 64 * 64 + p2 % 64 == p2;
  }

  lemma Steps2(d: seq<int>, b: bytes, p0: byte, p1: byte, next: byte)
    requires Number(d, 64) == Number(b, 256)
    ensures Number(d + [E0(p0), E1(p0, p1), E2(p1, next)], 64) == Number(b + [p0, p1], 256) * 4 + next / 64
  {
    Value1(d, b, p0, p1);
    Value2(d + [E0(p0), E1(p0, p1)], b + [p0], p1, next);
    assert d + [E0(p0), E1(p0, p1)] + [E2(p1, next)] == d + [E0(p0), E1(p0, p1), E2(p1, next)];
    assert b + [p0] + [p1] == b + [p0, p1];
  }

  /** What the last digit of a short group holds beyond the bytes, as a factor. */
  function Pad(r: nat): nat { if r == 0 then 1 else if r == 1 then 16 else 4 }

  lemma Steps3(d: seq<int>, b: bytes, p: bytes)
    requires Number(d, 64) == Number(b, 256) && |p| == 3
    ensures Number(d + Enc(p), 64) == Number(b + p, 256)
  {
    var e := [E0(p[0]), E1(p[0], p[1]), E2(p[1], p[2])];
    Steps2(d, b, p[0], p[1], p[2]);
    Value3(d + e, b + [p[0], p[1]], p[2]);
    assert d + e + [E3(p[2])] == d + Enc(p);
    assert b + [p[0], p[1]] + [p[2]] == b + p;
  }

  lemma LastSteps(d: seq<int>, b: bytes, p: bytes)
    requires Number(d, 64) == Number(b, 256) && |p| < 3
    ensures Number(d + Enc(p), 64) == Number(b + p, 256) * Pad(|p|)
  {
    if |p| == 0 {
      assert d + Enc(p) == d && b + p == b;
    } else if |p| == 1 {
      Value1(d, b, p[0], 0);
      assert [p[0]] == p;
    } else {
      Steps2(d, b, p[0], p[1], 0);
      assert [p[0], p[1]] == p;
    }
  }

  lemma HasSameValue(a: Alphabet)
    requires !a.B32?
    ensures SameValue(C64(), a, Pad)
  {
    forall d: seq<int>, b: bytes, g: bytes ensures Continues(C64(), a, Pad, d, b, g) {
      if Number(d, 64) == Number(b, 256) && |g| <= 3 {
        if |g| == 3 { Steps3(d, b, g); } else { LastSteps(d, b, g); }
      }
    }
  }

  lemma {:induction false} Closed(n: nat)
    ensures Rest(n, 3) == n % 3 && Count(C64(), DigitsFor, n) == n / 3 * 4 + DigitsFor(n % 3)
  {
    if n >= 3 {
      Closed(n - 3);
      assert n / 3 == (n - 3) / 3 + 1 && n % 3 == (n - 3) % 3;
    }
  }

  /** The digits of a byte string: how many, and the number they make. */
  lemma DigitsAre(a: Alphabet, b: bytes)
    requires !a.B32?
    ensures var d := Digits(C64(), b);
            && AreDigits(a, d)
            && |d| == |b| / 3 * 4 + DigitsFor(|b| % 3)
            && Number(d, 64) == Number(b, 256) * Pad(|b| % 3)
  {
    IsFaithful();
    KeepsAlphabet(a);
    HasSameValue(a);
    Closed(|b|);
    forall g: bytes | |g| < 3 ensures |C64().enc(g)| == DigitsFor(|g|) { GroupLength(g); }
    DigitsAreDigits(C64(), a, b);
    DigitsLength(C64(), DigitsFor, b);
    SameNumber(C64(), a, Pad, b);
  }

  // ----- the text

  /** The variants that fill up the last group. */
  predicate Padded(a: Alphabet) { a.B64? || a.B64X? }

  /** What fills up a last group of r bytes. */
  function Fill(a: Alphabet, r: nat): string {
    if !Padded(a) || r == 0 then "" else if r == 1 then "==" else "="
  }

  /** The text of a byte string. */
  function Text(a: Alphabet, b: bytes): string {
    TextFrom(C64(), a, b, 0) + Fill(a, |b| % 3)
  }

  /** armor64len: the characters of the alphabet, and up to two fill characters where the variant has them. */
  function Extent(a: Alphabet, s: string): (n: nat)
    ensures Span(a, s) <= n <= |s|
  {
    var m := Span(a, s);
    if !Padded(a) || !(m < |s| && s[m] == '=') then m
    else if m + 1 < |s| && s[m + 1] == '=' then m + 2
    else m + 1
  }

  /** What a text stands for: nothing where the groups must be filled up and are not. */
  function Untext(a: Alphabet, s: string): Option<bytes> {
    if Padded(a) && Extent(a, s) % 4 != 0 then None else Some(BytesFrom(C64(), a, s[..Span(a, s)], 0))
  }

  lemma BareLength(a: Alphabet, b: bytes)
    requires !a.B32?
    ensures |TextFrom(C64(), a, b, 0)| == |b| / 3 * 4 + DigitsFor(|b| % 3)
  {
    assert b[0..] == b;
    TextIsDigits(C64(), a, b, 0);
    DigitsAre(a, b);
  }

  lemma Filled(a: Alphabet, q: nat, r: nat)
    requires Padded(a) && r < 3
    ensures q * 4 + DigitsFor(r) + |Fill(a, r)| == (q * 3 + r + 2) / 3 * 4
  {
  }

  lemma TextLength(a: Alphabet, b: bytes)
    requires !a.B32?
    ensures Padded(a) ==> |Text(a, b)| == (|b| + 2) / 3 * 4
    ensures !Padded(a) ==> |Text(a, b)| == |b| / 3 * 4 + DigitsFor(|b| % 3)
  {
    BareLength(a, b);
    if Padded(a) {
      Filled(a, |b| / 3, |b| % 3);
    }
  }

  /** Behind the characters of the alphabet, the fill characters are counted and no more. */
  lemma ExtentOf(a: Alphabet, t: string, r: nat, rest: string)
    requires !a.B32? && r < 3 && rest != [] && (Padded(a) ==> rest[0] != '=')
    requires Span(a, t + (Fill(a, r) + rest)) == |t|
    ensures Extent(a, t + (Fill(a, r) + rest)) == |t| + |Fill(a, r)|
  {
    var s := t + (Fill(a, r) + rest);
    assert s[|t|..] == Fill(a, r) + rest;
    if Fill(a, r) == "==" {
      assert s[|t|] == '=' && s[|t| + 1] == '=';
    } else if Fill(a, r) == "=" {
      assert s[|t|] == '=' && s[|t| + 1] == rest[0];
    } else {
      assert s[|t|] == rest[0];
    }
  }

  /**
    * The text of any byte string, with the terminator and anything else behind it, gives the byte string back.
    * The terminator is a character that is not of the alphabet and does not fill up a group.
    */
  lemma RoundTrip(a: Alphabet, b: bytes, rest: string)
    requires !a.B32? && rest != [] && DigitOf(a, rest[0]) < 0 && (Padded(a) ==> rest[0] != '=')
    ensures Extent(a, Text(a, b) + rest) == |Text(a, b)|
    ensures Untext(a, Text(a, b) + rest) == Some(b)
  {
    var t := TextFrom(C64(), a, b, 0);
    FillEnds(a, |b| % 3, rest);
    SpanIs(a, b, Fill(a, |b| % 3) + rest);
    if Padded(a) { WholeGroups(a, b); }
    Ended(a, b, t, |b| % 3, rest);
  }

  lemma FillEnds(a: Alphabet, r: nat, rest: string)
    requires !a.B32? && rest != [] && DigitOf(a, rest[0]) < 0
    ensures var f := Fill(a, r) + rest; f != [] && DigitOf(a, f[0]) < 0
  {
  }

  lemma WholeGroups(a: Alphabet, b: bytes)
    requires Padded(a)
    ensures |Text(a, b)| % 4 == 0
  {
    TextLength(a, b);
    FourTimes((|b| + 2) / 3);
  }

  lemma FourTimes(q: nat)
    ensures q * 4 % 4 == 0
  {
  }

  lemma Ended(a: Alphabet, b: bytes, t: string, r: nat, rest: string)
    requires !a.B32? && r < 3 && rest != [] && (Padded(a) ==> rest[0] != '=')
    requires var s := t + (Fill(a, r) + rest); Span(a, s) == |t| && BytesFrom(C64(), a, s[..|t|], 0) == b
    requires Padded(a) ==> (|t| + |Fill(a, r)|) % 4 == 0
    ensures var s := t + Fill(a, r) + rest; Extent(a, s) == |t| + |Fill(a, r)| && Untext(a, s) == Some(b)
  {
    ExtentOf(a, t, r, rest);
    Assoc(t, Fill(a, r), rest);
  }

  lemma SpanIs(a: Alphabet, b: bytes, rest: string)
    requires !a.B32? && rest != [] && DigitOf(a, rest[0]) < 0
    ensures var t := TextFrom(C64(), a, b, 0);
            Span(a, t + rest) == |t| && BytesFrom(C64(), a, (t + rest)[..|t|], 0) == b
  {
    IsFaithful();
    KeepsAlphabet(a);
    TextBack(C64(), a, b, rest);
  }

  method ToText(a: Alphabet, data: bytes) returns (res: string)
    requires !a.B32?
    ensures res == Text(a, data)
    ensures |res| == if Padded(a) then (|data| + 2) / 3 * 4 else |data| / 3 * 4 + DigitsFor(|data| % 3)
  {
    res := Encode(C64(), a, data);
    res := res + Fill(a, |data| % 3);
    TextLength(a, data);
  }

  /** A string that ends with the terminator. */
  predicate Terminated(s: string) { s != [] && s[|s| - 1] == '\0' }

  lemma TerminatorEnds(a: Alphabet, s: string)
    requires Terminated(s)
    ensures Ends(a, s)
  {
    if !Ends(a, s) {
      SpanAt(a, s, |s| - 1);
    }
  }

  method TextLen64(a: Alphabet, s: string) returns (p: nat)
    requires Terminated(s)
    ensures p == Extent(a, s)
  {
    TerminatorEnds(a, s);
    p := TextLen(a, s);
    if Padded(a) {
      if s[p] == '=' {
        p := p + 1;
        if s[p] == '=' {
          p := p + 1;
        }
      }
    }
  }

  // ----- back from the text

  /** The last group starts at p: at least two digits, and at most four. */
  predicate LastAt(a: Alphabet, s: string, p: nat) { p + 2 <= Span(a, s) <= p + 4 }

  lemma DigitsOfTwo(a: Alphabet, s: string)
    requires 2 <= |s| <= 4
    ensures |s| == 2 ==> DigitsOf(a, s) == [DigitOf(a, s[0]), DigitOf(a, s[1])]
    ensures |s| == 3 ==> DigitsOf(a, s) == [DigitOf(a, s[0]), DigitOf(a, s[1]), DigitOf(a, s[2])]
    ensures |s| == 4 ==> DigitsOf(a, s) == [DigitOf(a, s[0]), DigitOf(a, s[1]), DigitOf(a, s[2]), DigitOf(a, s[3])]
  {
    assert s[1..][0] == s[1] && s[1..][1..] == s[2..];
    if |s| >= 3 {
      assert s[2..][0] == s[2] && s[2..][1..] == s[3..];
    }
  }

  lemma LastIs(a: Alphabet, t: string, p: nat)
    requires p + 2 <= |t| <= p + 4
    ensures BytesFrom(C64(), a, t, p) == Dec(DigitsOf(a, t[p..]))
  {
    if |t| == p + 4 {
      assert t[p..p + 4] == t[p..] && t[p + 4..] == [];
    }
  }

  /** The digits of the last group are read as far as they are digits. */
  method LastGroup(a: Alphabet, s: string, p: nat) returns (r: bytes)
    requires Ends(a, s) && LastAt(a, s, p)
    ensures r == Dec(DigitsOf(a, s[p..Span(a, s)]))
  {
    ghost var g := s[p..Span(a, s)];
    DigitsOfTwo(a, g);
    SpanAt(a, s, p + 2);
    var c0, c1, c2 := DigitOf(a, s[p]), DigitOf(a, s[p + 1]), DigitOf(a, s[p + 2]);
    r := [D0(c0, c1)];
    if c2 >= 0 {
      r := r + [D1(c1, c2)];
      SpanAt(a, s, p + 3);
      var c3 := DigitOf(a, s[p + 3]);
      if c3 >= 0 {
        r := r + [D2(c2, c3)];
      }
    }
  }

  /** What armor64len can say of a text: its digits, or its digits filled up to whole groups. */
  predicate Fits(m: nat, len: nat) {
    m % 4 != 1 && (len == m || (len % 4 == 0 && m < len < m + 3))
  }

  /** Where the last group starts, in groups: it has two digits at least, and the groups before it are full. */
  predicate LastGroupAt(m: nat, len: nat, last: nat) {
    4 * last < len <= 4 * last + 4 && 4 * last + 2 <= m <= 4 * last + 4
  }

  lemma FitsAt(m: nat, len: nat)
    requires len > 0 && Fits(m, len)
    ensures LastGroupAt(m, len, (len - 1) / 4)
  {
  }

  /** Four digits at a time as long as another group follows. */
  method Groups(c: Codec, a: Alphabet, s: string, len: nat, ghost m: nat, ghost last: nat) returns (bin: bytes, p: nat)
    requires 0 < len <= |s| && m <= |s| && LastGroupAt(m, len, last)
    requires c.width == 4 && forall d: seq<int> :: |d| == 4 ==> |c.dec(d)| == 3
    ensures p == 4 * last && |bin| == 3 * last
    ensures BytesFrom(c, a, s[..m], 0) == bin + BytesFrom(c, a, s[..m], p)
  {
    ghost var t, want := s[..m], BytesFrom(c, a, s[..m], 0);
    ghost var k: nat := 0;
    p := 0;
    bin := [];
    while p < len - 4
      invariant k <= last && p == 4 * k && |bin| == 3 * k
      invariant want == bin + BytesFrom(c, a, t, p)
    {
      bin := OneGroup(c, a, s, m, p, bin);
      p, k := p + 4, k + 1;
    }
  }

  method OneGroup(c: Codec, a: Alphabet, s: string, ghost m: nat, p: nat, bin: bytes) returns (more: bytes)
    requires c.width == 4 && p + 4 <= m <= |s| && |c.dec(DigitsOf(a, s[p..p + 4]))| == 3
    ensures |more| == |bin| + 3
    ensures bin + BytesFrom(c, a, s[..m], p) == more + BytesFrom(c, a, s[..m], p + 4)
  {
    GroupStep(c, a, s, m, p, bin);
    more := bin + c.dec(DigitsOf(a, s[p..p + 4]));
  }

  lemma GroupStep(c: Codec, a: Alphabet, s: string, m: nat, p: nat, bin: bytes)
    requires c.width == 4 && p + 4 <= m <= |s|
    ensures bin + BytesFrom(c, a, s[..m], p) == bin + c.dec(DigitsOf(a, s[p..p + 4])) + BytesFrom(c, a, s[..m], p + 4)
  {
    GroupAt(c, a, s, m, p);
    Assoc(bin, c.dec(DigitsOf(a, s[p..p + 4])), BytesFrom(c, a, s[..m], p + 4));
  }

  lemma GroupAt(c: Codec, a: Alphabet, s: string, m: nat, p: nat)
    requires c.width == 4 && p + 4 <= m <= |s|
    ensures BytesFrom(c, a, s[..m], p) == c.dec(DigitsOf(a, s[p..p + 4])) + BytesFrom(c, a, s[..m], p + 4)
  {
    assert s[..m][p..p + 4] == s[p..p + 4];
  }

  lemma Sizes(a: Alphabet, s: string)
    requires Padded(a) ==> Extent(a, s) % 4 == 0
    requires !Padded(a) ==> Span(a, s) % 4 != 1
    ensures Fits(Span(a, s), Extent(a, s))
  {
  }

  method Bytes(a: Alphabet, s: string, len: nat) returns (bin: bytes)
    requires Ends(a, s) && 0 < len <= |s| && Fits(Span(a, s), len)
    ensures bin == BytesFrom(C64(), a, s[..Span(a, s)], 0)
    ensures |bin| <= len - len / 4
  {
    ghost var m := Span(a, s);
    FitsAt(m, len);
    var front, p := Groups(C64(), a, s, len, m, (len - 1) / 4);
    var last := LastGroup(a, s, p);
    LastIs(a, s[..m], p);
    assert s[..m][p..] == s[p..m];
    bin := front + last;
  }

  /**
    * A length that does not fill up the groups is refused, where the variant fills them up. Where it does not,
    * one digit alone in the last group is not a text.
    */
  method FromText(a: Alphabet, s: string) returns (r: Option<bytes>)
    requires !a.B32? && Terminated(s)
    requires !Padded(a) ==> Span(a, s) % 4 != 1
    ensures r == Untext(a, s)
    ensures r.Some? ==> |r.value| <= Extent(a, s) - Extent(a, s) / 4
  {
    var len := TextLen64(a, s);
    if Padded(a) && len % 4 != 0 {
      return None;
    }
    TerminatorEnds(a, s);
    if len == 0 {
      return Some([]);
    }
    Sizes(a, s);
    var bin := Bytes(a, s, len);
    r := Some(bin);
  }

  // ----- digits that no bytes were written as

  /** What the last digit of k digits may hold beyond the bytes, as a divisor; 0 where no bytes have k digits. */
  function Slack(k: nat): nat { if k == 0 || k == 4 then 1 else if k == 2 then 16 else if k == 3 then 4 else 0 }

  lemma D0Is(c0: int, c1: int)
    requires 0 <= c0 < 64 && 0 <= c1 < 64
    ensures D0(c0, c1) == c0 * 4 + c1 / 16
  {
  }

  lemma D1Is(c1: int, c2: int)
    requires 0 <= c1 < 64 && 0 <= c2 < 64
    ensures D1(c1, c2) == c1 % 16 * 16 + c2 / 4
  {
    Cut(c1 / 16, c1 % 16 * 16 + c2 / 4);
  }

  lemma D2Is(c2: int, c3: int)
    requires 0 <= c2 < 64 && 0 <= c3 < 64
    ensures D2(c2, c3) == c2 % 4 * 64 + c3
  {
    Cut(c2 / 4, c2 % 4 * 64 + c3);
  }

  lemma Split16(h: int, l: int)
    requires 0 <= l < 16
    ensures (h * 16 + l) / 16 == h && (h * 16 + l) % 16 == l
  {
  }

  lemma Split64(h: int, l: int)
    requires 0 <= l < 64
    ensures (h * 64 + l) / 64 == h && (h * 64 + l) % 64 == l
  {
  }

  lemma Again1(c0: int, c1: int, c2: int)
    requires 0 <= c0 < 64 && 0 <= c1 < 64 && 0 <= c2 < 64
    ensures E0(D0(c0, c1)) == c0 && E1(D0(c0, c1), 0) == c1 - c1 % 16
    ensures E1(D0(c0, c1), D1(c1, c2)) == c1
  {
    D0Is(c0, c1);
    D1Is(c1, c2);
    var x, y := D0(c0, c1), D1(c1, c2);
    Split16(c1 % 16, c2 / 4);
    assert x / 4 == c0 && x % 4 == c1 / 16 && y / 16 == c1 % 16;
    assert c1 / 16 * 16 + c1 % 16 == c1;
  }

  lemma Again2(c1: int, c2: int, c3: int)
    requires 0 <= c1 < 64 && 0 <= c2 < 64 && 0 <= c3 < 64
    ensures E2(D1(c1, c2), 0) == c2 - c2 % 4
    ensures E2(D1(c1, c2), D2(c2, c3)) == c2 && E3(D2(c2, c3)) == c3
  {
    D1Is(c1, c2);
    D2Is(c2, c3);
    var x, y := D1(c1, c2), D2(c2, c3);
    Split16(c1 % 16, c2 / 4);
    Split64(c2 % 4, c3);
    assert x % 16 == c2 / 4 && y / 64 == c2 % 4 && y % 64 == c3;
    assert c2 / 4 * 4 + c2 % 4 == c2;
  }

  /** Group g comes back from its n bytes, but for its last digit. */
  ghost predicate Cleared(g: seq<int>, n: nat, last: int) {
    |g| > 0 && |Dec(g)| == n && Enc(Dec(g)) == g[|g| - 1 := last]
  }

  lemma ClearedTwo(g: seq<int>)
    requires |g| == 2 && forall i :: 0 <= i < |g| ==> 0 <= g[i] < 64
    ensures Cleared(g, 1, g[1] - g[1] % 16)
  {
    Again1(g[0], g[1], 0);
  }

  lemma ClearedThree(g: seq<int>)
    requires |g| == 3 && forall i :: 0 <= i < |g| ==> 0 <= g[i] < 64
    ensures Cleared(g, 2, g[2] - g[2] % 4)
  {
    Again1(g[0], g[1], g[2]);
    Again2(g[1], g[2], 0);
  }

  lemma ClearedFour(g: seq<int>)
    requires |g| == 4 && forall i :: 0 <= i < |g| ==> 0 <= g[i] < 64
    ensures Cleared(g, 3, g[3])
  {
    Again1(g[0], g[1], g[2]);
    Again2(g[1], g[2], g[3]);
  }

  lemma ClearedRedone(g: seq<int>, n: nat, k: nat)
    requires 0 < k && n <= 3 && (|g| == 4 <==> n == 3) && |g| > 0 && Cleared(g, n, g[|g| - 1] - g[|g| - 1] % k)
    ensures Redone(C64(), g, k)
  {
  }

  lemma GroupAgain(a: Alphabet, g: seq<int>)
    requires !a.B32? && AreDigits(a, g) && |g| <= 4 && Slack(|g|) > 0
    ensures Redone(C64(), g, Slack(|g|)) && Slack(|g|) == if |Dec(g)| == 3 then 1 else Pad(|Dec(g)|)
  {
    forall i | 0 <= i < |g| ensures 0 <= g[i] < 64 { assert IsDigit(a, g[i]); }
    if |g| == 2 {
      ClearedTwo(g);
      ClearedRedone(g, 1, 16);
    } else if |g| == 3 {
      ClearedThree(g);
      ClearedRedone(g, 2, 4);
    } else if |g| == 4 {
      ClearedFour(g);
      ClearedRedone(g, 3, 1);
    }
  }

  lemma DoesRecode(a: Alphabet)
    requires !a.B32?
    ensures Recodes(C64(), a, Pad, Slack)
  {
    forall g: seq<int> | AreDigits(a, g) && |g| <= 4 && Slack(|g|) > 0
      ensures Redone(C64(), g, Slack(|g|)) && Slack(|g|) == if |C64().dec(g)| == 3 then 1 else Pad(|C64().dec(g)|)
    {
      GroupAgain(a, g);
    }
  }

  lemma {:induction false} RestIs(n: nat)
    ensures Rest(n, 4) == n % 4
  {
    if n >= 4 {
      RestIs(n - 4);
      assert n % 4 == (n - 4) % 4;
    }
  }

  lemma {:induction false} UndigitsLength(d: seq<int>)
    requires |d| % 4 != 1
    ensures |Undigits(C64(), d)| == |d| / 4 * 3 + if |d| % 4 == 0 then 0 else |d| % 4 - 1
    decreases |d|
  {
    if |d| >= 4 {
      assert |d| / 4 == (|d| - 4) / 4 + 1 && |d| % 4 == (|d| - 4) % 4;
      UndigitsLength(d[4..]);
    }
  }

  // ----- in closed form

  lemma BitsOf(n: nat, d: nat)
    requires d == n / 3 * 4 + DigitsFor(n % 3)
    ensures d == (8 * n + 5) / 6 && 6 * d >= 8 * n && Pad(n % 3) == Pow2(6 * d - 8 * n)
  {
    PowersOfTwo();
  }

  /** d digits with number y hold n bytes with number x: they are as few as hold the bits, and zeros fill them up. */
  ghost predicate Fits64(n: nat, x: int, d: nat, y: int) {
    d == (8 * n + 5) / 6 && 6 * d >= 8 * n && y == x * Pow2(6 * d - 8 * n)
  }

  lemma InBits(n: nat, x: int, d: nat, y: int)
    requires d == n / 3 * 4 + DigitsFor(n % 3) && y == x * Pad(n % 3)
    ensures Fits64(n, x, d, y)
  {
    BitsOf(n, d);
  }

  /** The digits are as few as hold the bits, and their number is that of the bytes with zeros to fill them up. */
  lemma EncodedIs(a: Alphabet, b: bytes)
    requires !a.B32?
    ensures var d := Digits(C64(), b); AreDigits(a, d) && Fits64(|b|, Number(b, 256), |d|, Number(d, 64))
  {
    DigitsAre(a, b);
    InBits(|b|, Number(b, 256), |Digits(C64(), b)|, Number(Digits(C64(), b), 64));
  }

  lemma BytesOf(n: nat)
    requires n % 4 != 1
    ensures n / 4 * 3 + (if n % 4 == 0 then 0 else n % 4 - 1) == 6 * n / 8 && Slack(n % 4) == Pow2(6 * n % 8)
  {
    PowersOfTwo();
  }

  /** Any digits, but for one alone in the last group, stand for as many bytes as they fill, with the number that
      is left when the bits beyond them are shifted out. */
  lemma DecodedIs(a: Alphabet, d: seq<int>)
    requires !a.B32? && AreDigits(a, d) && |d| % 4 != 1
    ensures var b := Undigits(C64(), d);
            |b| == 6 * |d| / 8 && Number(b, 256) == Number(d, 64) / Pow2(6 * |d| % 8)
  {
    HasSameValue(a);
    DoesRecode(a);
    RestIs(|d|);
    UndigitsNumber(C64(), a, Pad, Slack, d);
    UndigitsLength(d);
    BytesOf(|d|);
  }

  lemma BareIs(a: Alphabet, b: bytes, i: nat)
    requires !a.B32? && i < |Digits(C64(), b)|
    ensures var t, d := TextFrom(C64(), a, b, 0), Digits(C64(), b);
            |t| == |d| && IsDigit(a, d[i]) && t[i] == Letters(a)[d[i]]
  {
    var d := Digits(C64(), b);
    assert b[0..] == b;
    TextIsDigits(C64(), a, b, 0);
    DigitsAre(a, b);
    CharsAt(a, d, i);
    assert IsDigit(a, d[i]);
    LetterIs(a, d[i]);
  }

  lemma FilledUp(a: Alphabet, q: nat, r: nat, d: nat)
    requires !a.B32? && r < 3 && d == q * 4 + DigitsFor(r)
    ensures d + |Fill(a, r)| == if a.B64A? then d else (d + 3) / 4 * 4
    ensures forall i :: 0 <= i < |Fill(a, r)| ==> Fill(a, r)[i] == '='
  {
  }

  /** The text is the digits in the letters of the alphabet; in two of the variants signs of equality fill it up
      to a multiple of four, in the third nothing does. */
  lemma TextIs(a: Alphabet, b: bytes, i: nat)
    requires !a.B32? && i < |Text(a, b)|
    ensures var d := Digits(C64(), b);
            && |Text(a, b)| == (if a.B64A? then |d| else (|d| + 3) / 4 * 4)
            && if i < |d| then IsDigit(a, d[i]) && Text(a, b)[i] == Letters(a)[d[i]] else Text(a, b)[i] == '='
  {
    var n := |Digits(C64(), b)|;
    assert n == |b| / 3 * 4 + DigitsFor(|b| % 3) by { DigitsAre(a, b); }
    BareLength(a, b);
    FilledUp(a, |b| / 3, |b| % 3, n);
    if i < n { BareIs(a, b, i); }
  }

  /** How much of a terminated string is a text: the letters it starts with, and in the variants that fill up, up
      to two signs of equality behind them. */
  lemma ExtentIs(a: Alphabet, s: string)
    requires !a.B32? && Terminated(s)
    ensures var m, n := Span(a, s), Extent(a, s);
            && m <= n < |s| && n - m <= (if a.B64A? then 0 else 2)
            && (forall i :: m <= i < n ==> s[i] == '=') && (!a.B64A? && n - m < 2 ==> s[n] != '=')
  {
    TerminatorEnds(a, s);
  }
}
