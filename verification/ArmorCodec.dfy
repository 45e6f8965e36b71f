/** What base 32 and base 64 share: bytes in groups, each group a group of digits, and a last group that may be
    short. */
module ArmorCodec {
  import opened Common
  import opened Armor

  /** How up to `size` bytes become up to `width` digits, and back. */
  datatype Codec = Codec(size: nat, width: nat, enc: bytes -> seq<int>, dec: seq<int> -> bytes)

  /** The low eight bits. */
  lemma Cut(n: int, p: byte)
    ensures (n * 256 + p) % 256 == p
  {
  }

  /** Only a full group of bytes makes a full group of digits, and the digits of a group give its bytes back. */
  ghost predicate Faithful(c: Codec) {
    && c.size > 0 && c.width > 0
    && (forall g: bytes :: |g| == c.size ==> |c.enc(g)| == c.width)
    && (forall g: bytes :: |g| < c.size ==> |c.enc(g)| < c.width)
    && (forall g: bytes :: |g| <= c.size ==> c.dec(c.enc(g)) == g)
  }

  /** The digits of a byte string. */
  function Digits(c: Codec, b: bytes): seq<int>
    decreases |b|
  {
    if |b| < c.size || c.size == 0 then c.enc(b) else c.enc(b[..c.size]) + Digits(c, b[c.size..])
  }

  /** The bytes that digits stand for. */
  function Undigits(c: Codec, d: seq<int>): bytes
    decreases |d|
  {
    if |d| < c.width || c.width == 0 then c.dec(d) else c.dec(d[..c.width]) + Undigits(c, d[c.width..])
  }

  /** Decoding undoes encoding for byte strings of every length. */
  lemma {:induction false} UndigitsDigits(c: Codec, b: bytes)
    requires Faithful(c)
    ensures Undigits(c, Digits(c, b)) == b
    decreases |b|
  {
    if |b| >= c.size {
      var g, rest := c.enc(b[..c.size]), Digits(c, b[c.size..]);
      assert (g + rest)[..c.width] == g && (g + rest)[c.width..] == rest;
      UndigitsDigits(c, b[c.size..]);
    }
  }

  /** What a string of n bytes leaves for its last group, group after group. */
  function Rest(n: nat, size: nat): (r: nat)
    requires size > 0
    ensures r < size
  {
    if n < size then n else Rest(n - size, size)
  }

  /** The digits of n bytes when a last group of r bytes takes `last(r)`. */
  function Count(c: Codec, last: nat -> nat, n: nat): nat
    requires c.size > 0
  {
    if n < c.size then last(n) else c.width + Count(c, last, n - c.size)
  }

  lemma {:induction false} DigitsLength(c: Codec, last: nat -> nat, b: bytes)
    requires Faithful(c) && forall g: bytes :: |g| < c.size ==> |c.enc(g)| == last(|g|)
    ensures |Digits(c, b)| == Count(c, last, |b|)
    decreases |b|
  {
    if |b| >= c.size {
      DigitsLength(c, last, b[c.size..]);
    }
  }

  /** Each group keeps to the alphabet. */
  ghost predicate Keeps(c: Codec, a: Alphabet) {
    forall g: bytes :: |g| <= c.size ==> AreDigits(a, c.enc(g))
  }

  lemma {:induction false} DigitsAreDigits(c: Codec, a: Alphabet, b: bytes)
    requires c.size > 0 && Keeps(c, a)
    ensures AreDigits(a, Digits(c, b))
    decreases |b|
  {
    if |b| >= c.size {
      DigitsAreDigits(c, a, b[c.size..]);
      assert AreDigits(a, c.enc(b[..c.size]));
    }
  }

  // ----- digits as a number

  /** A group continues a number as its bytes do; a short one leaves `pad` of its size as a factor. */
  ghost predicate Continues(c: Codec, a: Alphabet, pad: nat -> nat, d: seq<int>, b: bytes, g: bytes) {
    Number(d, Base(a)) == Number(b, 256) && |g| <= c.size ==>
      Number(d + c.enc(g), Base(a)) == Number(b + g, 256) * if |g| == c.size then 1 else pad(|g|)
  }

  ghost predicate SameValue(c: Codec, a: Alphabet, pad: nat -> nat) {
    forall d: seq<int>, b: bytes, g: bytes :: Continues(c, a, pad, d, b, g)
  }

  lemma {:induction false} NumberOn(c: Codec, a: Alphabet, pad: nat -> nat, d: seq<int>, b0: bytes, b: bytes)
    requires SameValue(c, a, pad) && Number(d, Base(a)) == Number(b0, 256)
    requires c.size > 0
    ensures Number(d + Digits(c, b), Base(a)) == Number(b0 + b, 256) * pad(Rest(|b|, c.size))
    decreases |b|
  {
    if |b| >= c.size {
      var g, rest := b[..c.size], b[c.size..];
      var e := d + c.enc(g);
      assert Continues(c, a, pad, d, b0, g);
      NumberOn(c, a, pad, e, b0 + g, rest);
      assert e + Digits(c, rest) == d + Digits(c, b);
      assert b0 + g + rest == b0 + b;
    } else {
      assert Continues(c, a, pad, d, b0, b);
    }
  }

  /** Digits are the same number as the bytes, both read with the most significant first. */
  lemma SameNumber(c: Codec, a: Alphabet, pad: nat -> nat, b: bytes)
    requires SameValue(c, a, pad) && c.size > 0
    ensures Number(Digits(c, b), Base(a)) == Number(b, 256) * pad(Rest(|b|, c.size))
  {
    NumberOn(c, a, pad, [], [], b);
    assert [] + Digits(c, b) == Digits(c, b) && [] + b == b;
  }

  // ----- digits that no bytes were written as

  /** Decoding a group of digits and encoding it again clears what the last digit holds beyond the bytes, its
      remainder by k. */
  ghost predicate Redone(c: Codec, g: seq<int>, k: nat) {
    var p := c.dec(g);
    && k > 0 && |p| <= c.size && (|g| == c.width <==> |p| == c.size)
    && if g == [] then p == [] && c.enc(p) == [] else c.enc(p) == g[|g| - 1 := g[|g| - 1] - g[|g| - 1] % k]
  }

  /** So it is for every group that has a slack, which is what the short group of its bytes leaves as a factor. */
  ghost predicate Recodes(c: Codec, a: Alphabet, pad: nat -> nat, slack: nat -> nat) {
    && slack(c.width) == 1 && slack(0) == 1
    && forall g: seq<int> :: AreDigits(a, g) && |g| <= c.width && slack(|g|) > 0 ==>
         Redone(c, g, slack(|g|)) && slack(|g|) == if |c.dec(g)| == c.size then 1 else pad(|c.dec(g)|)
  }

  lemma NumberCleared(x: seq<int>, g: seq<int>, r: int, base: nat)
    requires g != []
    ensures Number(x + g, base) == Number(x + g[|g| - 1 := g[|g| - 1] - r], base) + r
  {
    var n := |g| - 1;
    var front := x + g[..n];
    assert x + g == front + [g[n]];
    assert x + g[n := g[n] - r] == front + [g[n] - r];
    NumberNext(front, g[n], base);
    NumberNext(front, g[n] - r, base);
  }

  /** m is n divided by k, without the remainder. */
  ghost predicate Floor(n: int, k: nat, m: int) { k > 0 && m * k <= n < m * k + k }

  lemma LastValue(c: Codec, a: Alphabet, pad: nat -> nat, k: nat, e: seq<int>, b: bytes, g: seq<int>)
    requires Continues(c, a, pad, e, b, c.dec(g)) && Redone(c, g, k) && Number(e, Base(a)) == Number(b, 256)
    requires k == if |c.dec(g)| == c.size then 1 else pad(|c.dec(g)|)
    requires g == [] ==> k == 1
    ensures Floor(Number(e + g, Base(a)), k, Number(b + c.dec(g), 256))
  {
    if g == [] {
      assert e + g == e && b + c.dec(g) == b;
    } else {
      NumberCleared(e, g, g[|g| - 1] % k, Base(a));
    }
  }

  lemma LastBack(c: Codec, a: Alphabet, pad: nat -> nat, slack: nat -> nat, e: seq<int>, b: bytes, g: seq<int>)
    requires SameValue(c, a, pad) && Recodes(c, a, pad, slack) && Number(e, Base(a)) == Number(b, 256)
    requires AreDigits(a, g) && |g| <= c.width && slack(|g|) > 0
    ensures Floor(Number(e + g, Base(a)), slack(|g|), Number(b + c.dec(g), 256))
  {
    assert Continues(c, a, pad, e, b, c.dec(g));
    LastValue(c, a, pad, slack(|g|), e, b, g);
  }

  lemma FullBack(c: Codec, a: Alphabet, pad: nat -> nat, slack: nat -> nat, e: seq<int>, b: bytes, g: seq<int>)
    requires SameValue(c, a, pad) && Recodes(c, a, pad, slack) && Number(e, Base(a)) == Number(b, 256)
    requires AreDigits(a, g) && |g| == c.width
    ensures Number(e + g, Base(a)) == Number(b + c.dec(g), 256)
  {
    LastBack(c, a, pad, slack, e, b, g);
  }

  lemma UndigitsNext(c: Codec, d: seq<int>)
    requires 0 < c.width <= |d|
    ensures Rest(|d[c.width..]|, c.width) == Rest(|d|, c.width)
    ensures Undigits(c, d) == c.dec(d[..c.width]) + Undigits(c, d[c.width..])
  {
  }

  /** The bytes of any digits are the number of the digits, as far as it fills whole bytes. */
  lemma {:induction false} UndigitsOn(c: Codec, a: Alphabet, pad: nat -> nat, slack: nat -> nat, e: seq<int>, b: bytes,
                                      d: seq<int>)
    requires SameValue(c, a, pad) && Recodes(c, a, pad, slack) && Number(e, Base(a)) == Number(b, 256)
    requires c.width > 0 && AreDigits(a, d) && slack(Rest(|d|, c.width)) > 0
    ensures Floor(Number(e + d, Base(a)), slack(Rest(|d|, c.width)), Number(b + Undigits(c, d), 256))
    decreases |d|
  {
    if |d| >= c.width {
      var g, rest := d[..c.width], d[c.width..];
      FullBack(c, a, pad, slack, e, b, g);
      UndigitsNext(c, d);
      UndigitsOn(c, a, pad, slack, e + g, b + c.dec(g), rest);
      assert d == g + rest;
      Assoc(e, g, rest);
      Assoc(b, c.dec(g), Undigits(c, rest));
    } else {
      LastBack(c, a, pad, slack, e, b, d);
    }
  }

  lemma UndigitsNumber(c: Codec, a: Alphabet, pad: nat -> nat, slack: nat -> nat, d: seq<int>)
    requires SameValue(c, a, pad) && Recodes(c, a, pad, slack)
    requires c.width > 0 && AreDigits(a, d) && slack(Rest(|d|, c.width)) > 0
    ensures Number(Undigits(c, d), 256) == Number(d, Base(a)) / slack(Rest(|d|, c.width))
  {
    UndigitsOn(c, a, pad, slack, [], [], d);
    assert [] + d == d && [] + Undigits(c, d) == Undigits(c, d);
    QuotientIs(Number(Undigits(c, d), 256), slack(Rest(|d|, c.width)), Number(d, Base(a)));
  }

  // ----- the loops

  /** The text of the bytes from p on, group by group. */
  function TextFrom(c: Codec, a: Alphabet, b: bytes, p: nat): string
    requires c.size > 0 && p <= |b|
    decreases |b| - p
  {
    if |b| - p < c.size then Chars(a, c.enc(b[p..]))
    else Chars(a, c.enc(b[p..p + c.size])) + TextFrom(c, a, b, p + c.size)
  }

  lemma {:induction false} TextIsDigits(c: Codec, a: Alphabet, b: bytes, p: nat)
    requires c.size > 0 && p <= |b|
    ensures TextFrom(c, a, b, p) == Chars(a, Digits(c, b[p..]))
    decreases |b| - p
  {
    if |b| - p >= c.size {
      var rest := b[p + c.size..];
      assert b[p..][..c.size] == b[p..p + c.size] && b[p..][c.size..] == rest;
      TextIsDigits(c, a, b, p + c.size);
      CharsAppend(a, c.enc(b[p..p + c.size]), Digits(c, rest));
    }
  }

  /** Full groups while there are any, and then the last one. */
  method Encode(c: Codec, a: Alphabet, data: bytes) returns (res: string)
    requires c.size > 0
    ensures res == TextFrom(c, a, data, 0)
  {
    var p := 0;
    res := [];
    while |data| - p >= c.size
      invariant p <= |data|
      invariant TextFrom(c, a, data, 0) == res + TextFrom(c, a, data, p)
      decreases |data| - p
    {
      res := res + Chars(a, c.enc(data[p..p + c.size]));
      p := p + c.size;
    }
    res := res + Chars(a, c.enc(data[p..]));
  }

  /** The bytes of the characters from p on, group by group. */
  function BytesFrom(c: Codec, a: Alphabet, s: string, p: nat): bytes
    requires c.width > 0 && p <= |s|
    decreases |s| - p
  {
    if |s| - p < c.width then c.dec(DigitsOf(a, s[p..]))
    else c.dec(DigitsOf(a, s[p..p + c.width])) + BytesFrom(c, a, s, p + c.width)
  }

  lemma {:induction false} BytesAreUndigits(c: Codec, a: Alphabet, s: string, p: nat)
    requires c.width > 0 && p <= |s|
    ensures BytesFrom(c, a, s, p) == Undigits(c, DigitsOf(a, s[p..]))
    decreases |s| - p
  {
    if |s| - p >= c.width {
      var d := DigitsOf(a, s[p..]);
      DigitsOfAppend(a, s[p..p + c.width], s[p + c.width..]);
      assert s[p..p + c.width] + s[p + c.width..] == s[p..];
      assert d[..c.width] == DigitsOf(a, s[p..p + c.width]);
      assert d[c.width..] == DigitsOf(a, s[p + c.width..]);
      BytesAreUndigits(c, a, s, p + c.width);
    }
  }

  /** Full groups of digits while there are any, and then the last one. */
  method Decode(c: Codec, a: Alphabet, s: string) returns (res: bytes)
    requires c.width > 0
    ensures res == BytesFrom(c, a, s, 0)
  {
    var p := 0;
    res := [];
    while |s| - p >= c.width
      invariant p <= |s|
      invariant BytesFrom(c, a, s, 0) == res + BytesFrom(c, a, s, p)
      decreases |s| - p
    {
      res := res + c.dec(DigitsOf(a, s[p..p + c.width]));
      p := p + c.width;
    }
    res := res + c.dec(DigitsOf(a, s[p..]));
  }

  /** The text of a byte string, followed by anything that is not of the alphabet, gives the byte string back. */
  lemma TextBack(c: Codec, a: Alphabet, b: bytes, rest: string)
    requires Faithful(c) && Keeps(c, a) && rest != [] && DigitOf(a, rest[0]) < 0
    ensures var t := TextFrom(c, a, b, 0);
            && |t| == |Digits(c, b)|
            && Span(a, t + rest) == |t|
            && BytesFrom(c, a, (t + rest)[..|t|], 0) == b
  {
    assert b[0..] == b;
    TextIsDigits(c, a, b, 0);
    DigitsAreDigits(c, a, b);
    SpanOfText(a, Digits(c, b), rest);
    UndigitsDigits(c, b);
    var t := (TextFrom(c, a, b, 0) + rest)[..|Digits(c, b)|];
    BytesAreUndigits(c, a, t, 0);
    assert t[0..] == t;
  }
}
