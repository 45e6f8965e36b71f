/**
 The wire form of XDR, said without the encoder and the decoder, as sections 4 and 3 of RFC 4506 say it: words are
 big-endian numbers of four bytes, long words of eight, negative numbers are in two's complement, and bytes are
 followed by what it takes to reach a multiple of four.  Encoding gives exactly the strict form; decoding
 accepts exactly the lax one, in which padding may hold anything and flags any word but zero.
 */
module XdrWire {
  import opened Common
  import opened Xdr
  import Canon = XdrCanonical

  /** w is the bytes b and then padding, up to the next multiple of four. */
  ghost predicate Padded(b: bytes, w: bytes, strict: bool) {
    && |w| == (|b| + 3) / 4 * 4 && w[..|b|] == b
    && (strict ==> forall i :: |b| <= i < |w| ==> w[i] == 0)
  }

  /** w is a count, and then the bytes b, padded. */
  ghost predicate Counted(b: bytes, max: nat, w: bytes, strict: bool) {
    |b| <= max && |w| >= 4 && Number(w[..4], 256) == |b| && Padded(b, w[4..], strict)
  }

  /** w is what stands for value v of type t. */
  ghost predicate Wire(t: Type, v: Value, w: bytes, strict: bool)
    decreases t, 0
  {
    match t
    case U32 => v.Num? && |w| == 4 && v.n == Number(w, 256)
    case I32 => v.Num? && |w| == 4 && v.n == Number(w, 256) - if w[0] >= 128 then 0x1_0000_0000 else 0
    case U64 => v.Num? && |w| == 8 && v.n == Number(w, 256)
    case I64 =>
      v.Num? && |w| == 8 && v.n == Number(w, 256) - if w[0] >= 128 then 0x1_0000_0000_0000_0000 else 0
    case Bool => v.Flag? && |w| == 4 && (v.b <==> Number(w, 256) != 0) && (strict ==> Number(w, 256) <= 1)
    case Opaque(len) => v.Data? && |v.data| == len && Padded(v.data, w, strict)
    case Bytes(max) => v.Data? && Counted(v.data, max, w, strict)
    case Text(max) => v.Str? && v.str.Some? && 0 !in v.str.value && Counted(v.str.value, max, w, strict)
    case Array(e, n) => v.Seq? && |v.elems| == n && WireAll(e, v.elems, w, strict)
    case Vec(e, max) =>
      && v.Seq? && |v.elems| <= max && |w| >= 4 && Number(w[..4], 256) == |v.elems|
      && WireAll(e, v.elems, w[4..], strict)
    case Opt(e) =>
      && |w| >= 4
      && if Number(w[..4], 256) == 0 then v.Nil? && |w| == 4
         else (strict ==> Number(w[..4], 256) == 1) && v.Ptr? && Wire(e, v.to, w[4..], strict)
  }

  /** w is what stands for the values, one after another. */
  ghost predicate WireAll(t: Type, vs: seq<Value>, w: bytes, strict: bool)
    decreases t, 1, |vs|
  {
    if vs == [] then w == []
    else exists k :: 0 <= k <= |w| && WireAll(t, vs[..|vs| - 1], w[..k], strict)
                     && Wire(t, vs[|vs| - 1], w[k..], strict)
  }

  // ----- words

  /** Four more digits. */
  lemma NumberFour(d: seq<int>, a: int, b: int, c: int, e: int)
    ensures Number(d + [a, b, c, e], 256) == Number(d, 256) * 0x1_0000_0000 + BigEndian(a, b, c, e)
  {
    NumberNext2(d, a, b, 256);
    NumberNext2(d + [a, b], c, e, 256);
    assert d + [a, b] + [c, e] == d + [a, b, c, e];
  }

  lemma FourBytes(w: bytes)
    requires |w| == 4
    ensures Number(w, 256) == 0x100_0000 * w[0] as int + 0x1_0000 * w[1] as int + 0x100 * w[2] as int + w[3] as int
    ensures 0 <= Number(w, 256) < 0x1_0000_0000 && (w[0] >= 128 <==> Number(w, 256) >= 0x8000_0000)
  {
    NumberFour([], w[0], w[1], w[2], w[3]);
    assert [] + [w[0], w[1], w[2], w[3]] == w;
  }

  lemma GetIsNumber(s: bytes)
    requires |s| >= 4
    ensures GetInt(s) == Some((Number(s[..4], 256), s[4..]))
  {
    FourBytes(s[..4]);
  }

  /** Four bytes are the word of their number, and of no other. */
  lemma WordExact(w: bytes, n: nat)
    requires n < 0x1_0000_0000
    ensures |w| == 4 && Number(w, 256) == n <==> w == PutInt(n)
  {
    IntRoundTrip(n, []);
    GetIsNumber(PutInt(n) + []);
    assert PutInt(n) + [] == PutInt(n) && PutInt(n)[..4] == PutInt(n);
    if |w| == 4 && Number(w, 256) == n {
      assert w[..4] == w && w[4..] == [];
      GetIsNumber(w);
      Canon.PutGet(w);
    }
  }

  lemma EightBytes(s: bytes)
    requires |s| >= 8
    ensures Number(s[..8], 256) == Number(s[..4], 256) * 0x1_0000_0000 + Number(s[4..8], 256)
  {
    FourBytes(s[4..8]);
    NumberFour(s[..4], s[4], s[5], s[6], s[7]);
    assert s[..4] + [s[4], s[5], s[6], s[7]] == s[..8];
  }

  lemma HyperIsNumber(s: bytes)
    requires |s| >= 8
    ensures GetHyper(s) == Some((Number(s[..8], 256), s[8..]))
    ensures 0 <= Number(s[..8], 256) < 0x1_0000_0000_0000_0000
    ensures s[0] >= 128 <==> Number(s[..8], 256) >= 0x8000_0000_0000_0000
  {
    GetIsNumber(s);
    GetIsNumber(s[4..]);
    FourBytes(s[..4]);
    FourBytes(s[4..8]);
    EightBytes(s);
    assert s[4..][..4] == s[4..8] && s[4..][4..] == s[8..];
  }

  /** Eight bytes are the long word of their number, and of no other. */
  lemma HyperExact(w: bytes, n: nat)
    requires n < 0x1_0000_0000_0000_0000
    ensures |w| == 8 && Number(w, 256) == n <==> w == PutHyper(n)
  {
    var x := PutHyper(n);
    HyperRoundTrip(n, []);
    HyperIsNumber(x + []);
    assert x + [] == x && x[..8] == x;
    if |w| == 8 && Number(w, 256) == n {
      assert w[..8] == w && w[8..] == [];
      HyperIsNumber(w);
      Canon.PutGetHyper(w);
    }
  }

  /** In two's complement the upper half of the numbers are the negative ones. */
  lemma WrapExact(m: int, n: int, mod: int)
    requires mod > 0 && mod % 2 == 0 && 0 <= m < mod && -(mod / 2) <= n < mod / 2
    ensures n == m - (if m >= mod / 2 then mod else 0) <==> m == Wrap(n, mod)
    ensures n == m - (if m >= mod / 2 then mod else 0) <==> n == Signed(m, mod)
  {
  }

  // ----- padding

  lemma PadIs(n: nat)
    ensures n + Pad(n) == (n + 3) / 4 * 4
  {
  }

  lemma PaddedExact(b: bytes, w: bytes)
    ensures Padded(b, w, true) <==> w == PutPadded(b)
  {
    PadIs(|b|);
    if Padded(b, w, true) {
      assert w == w[..|b|] + w[|b|..];
      assert w[|b|..] == Zeros(Pad(|b|));
    }
  }

  lemma CountedExact(b: bytes, max: nat, w: bytes)
    requires |b| <= max && |b| < 0x1_0000_0000
    ensures Counted(b, max, w, true) <==> w == PutInt(|b|) + PutPadded(b)
  {
    if |w| >= 4 {
      assert w == w[..4] + w[4..];
      WordExact(w[..4], |b|);
      PaddedExact(b, w[4..]);
      Parts(w, PutInt(|b|), PutPadded(b));
    }
  }

  /** A prefix of known length and the rest determine each other. */
  lemma Parts(w: bytes, x: bytes, y: bytes)
    requires |w| >= |x|
    ensures w == x + y <==> w[..|x|] == x && w[|x|..] == y
  {
    assert w == w[..|x|] + w[|x|..];
    if w == x + y {
      assert (x + y)[..|x|] == x && (x + y)[|x|..] == y;
    }
  }

  // ----- encoding gives the strict form

  lemma NumberExact(t: Type, v: Value, w: bytes)
    requires t.U32? || t.I32? || t.Bool?
    requires Holds(t, v)
    ensures Wire(t, v, w, true) <==> w == Encode(t, v)
  {
    var n := Code(t, v);
    if t.I32? { WrapSigned(v.n, TWO32); }
    WordExact(w, n);
    if |w| == 4 {
      FourBytes(w);
      if t.I32? { WrapExact(Number(w, 256), v.n, TWO32); }
    }
  }

  lemma LongExact(t: Type, v: Value, w: bytes)
    requires t.U64? || t.I64?
    requires Holds(t, v)
    ensures Wire(t, v, w, true) <==> w == Encode(t, v)
  {
    var n := if t.U64? then v.n else Wrap(v.n, TWO64);
    if t.I64? { WrapSigned(v.n, TWO64); }
    HyperExact(w, n);
    if |w| == 8 {
      HyperIsNumber(w);
      assert w[..8] == w;
      if t.I64? { WrapExact(Number(w, 256), v.n, TWO64); }
    }
  }

  lemma ScalarExact(t: Type, v: Value, w: bytes)
    requires Bounded(t) && Holds(t, v) && Complete(v) && !t.Array? && !t.Vec? && !t.Opt?
    ensures Wire(t, v, w, true) <==> w == Encode(t, v)
  {
    match t
    case Bytes(max) => CountedExact(v.data, max, w);
    case Text(max) => CountedExact(v.str.value, max, w);
    case Opaque(_) => PaddedExact(v.data, w);
    case U64 => LongExact(t, v, w);
    case I64 => LongExact(t, v, w);
    case _ => NumberExact(t, v, w);
  }

  /** The encoding stands for the value. */
  lemma {:induction false} EncodedIsWire(t: Type, v: Value)
    requires Bounded(t) && Holds(t, v) && Complete(v)
    ensures Wire(t, v, Encode(t, v), true)
    decreases t, 0
  {
    match t
    case Array(e, n) => EncodedAllIsWire(e, v.elems);
    case Vec(e, max) =>
      EncodedAllIsWire(e, v.elems);
      var x, y := PutInt(|v.elems|), EncodeAll(e, v.elems);
      WordExact(x, |v.elems|);
      Parts(x + y, x, y);
    case Opt(e) =>
      WordExact(PutInt(0), 0);
      assert PutInt(0)[..4] == PutInt(0);
      if v.Ptr? {
        EncodedIsWire(e, v.to);
        WordExact(PutInt(1), 1);
        Parts(PutInt(1) + Encode(e, v.to), PutInt(1), Encode(e, v.to));
      }
    case _ => ScalarExact(t, v, Encode(t, v));
  }

  lemma {:induction false} EncodedAllIsWire(t: Type, vs: seq<Value>)
    requires Bounded(t) && AllHold(t, vs) && AllComplete(vs)
    ensures WireAll(t, vs, EncodeAll(t, vs), true)
    decreases t, 1, |vs|
  {
    if vs != [] {
      var front, v := vs[..|vs| - 1], vs[|vs| - 1];
      assert front + [v] == vs;
      EncodedAllIsWire(t, front);
      EncodedIsWire(t, v);
      EncodedNextIsWire(t, front, v);
    }
  }

  lemma EncodedNextIsWire(t: Type, front: seq<Value>, v: Value)
    requires Bounded(t) && AllHold(t, front) && AllComplete(front) && Holds(t, v) && Complete(v)
    requires WireAll(t, front, EncodeAll(t, front), true) && Wire(t, v, Encode(t, v), true)
    ensures AllHold(t, front + [v]) && AllComplete(front + [v])
    ensures WireAll(t, front + [v], EncodeAll(t, front + [v]), true)
  {
    EncodeAppend(t, front, v);
    WireAppend(t, front, v, EncodeAll(t, front), Encode(t, v), true);
  }

  /** What stands for one more value. */
  lemma WireAppend(t: Type, front: seq<Value>, v: Value, a: bytes, b: bytes, strict: bool)
    requires WireAll(t, front, a, strict) && Wire(t, v, b, strict)
    ensures WireAll(t, front + [v], a + b, strict)
  {
    var vs, w := front + [v], a + b;
    assert vs[..|vs| - 1] == front && w[..|a|] == a && w[|a|..] == b;
  }

  /** Where the last value starts. */
  lemma WireSplit(t: Type, vs: seq<Value>, w: bytes, strict: bool) returns (k: nat)
    requires vs != [] && WireAll(t, vs, w, strict)
    ensures k <= |w| && WireAll(t, vs[..|vs| - 1], w[..k], strict) && Wire(t, vs[|vs| - 1], w[k..], strict)
  {
    k :| 0 <= k <= |w| && WireAll(t, vs[..|vs| - 1], w[..k], strict) && Wire(t, vs[|vs| - 1], w[k..], strict);
  }

  /** In the strict form only one string of bytes stands for a value. */
  lemma {:induction false} WireUnique(t: Type, v: Value, w: bytes, x: bytes)
    requires Wire(t, v, w, true) && Wire(t, v, x, true)
    ensures w == x
    decreases t, 0
  {
    match t
    case Array(e, n) => WireAllUnique(e, v.elems, w, x);
    case Vec(e, max) =>
      SameWord(w[..4], x[..4]);
      WireAllUnique(e, v.elems, w[4..], x[4..]);
      assert w == w[..4] + w[4..] && x == x[..4] + x[4..];
    case Opt(e) =>
      SameWord(w[..4], x[..4]);
      if v.Ptr? { WireUnique(e, v.to, w[4..], x[4..]); }
      assert w == w[..4] + w[4..] && x == x[..4] + x[4..];
    case _ => ScalarUnique(t, v, w, x);
  }

  lemma SameWord(w: bytes, x: bytes)
    requires |w| == |x| == 4 && Number(w, 256) == Number(x, 256)
    ensures w == x
  {
    FourBytes(w);
    WordExact(w, Number(w, 256));
    WordExact(x, Number(w, 256));
  }

  lemma SameHyper(w: bytes, x: bytes)
    requires |w| == |x| == 8 && Number(w, 256) == Number(x, 256)
    ensures w == x
  {
    HyperIsNumber(w);
    assert w[..8] == w;
    HyperExact(w, Number(w, 256));
    HyperExact(x, Number(w, 256));
  }

  lemma ScalarUnique(t: Type, v: Value, w: bytes, x: bytes)
    requires Wire(t, v, w, true) && Wire(t, v, x, true) && !t.Array? && !t.Vec? && !t.Opt?
    ensures w == x
  {
    match t
    case Opaque(_) => PaddedUnique(v.data, w, x);
    case Bytes(_) => CountedUnique(v.data, t.max, w, x);
    case Text(_) => CountedUnique(v.str.value, t.max, w, x);
    case U64 => SameHyper(w, x);
    case I64 => LongUnique(v, w, x);
    case _ => WordUnique(t, v, w, x);
  }

  lemma PaddedUnique(b: bytes, w: bytes, x: bytes)
    requires Padded(b, w, true) && Padded(b, x, true)
    ensures w == x
  {
    PaddedExact(b, w);
    PaddedExact(b, x);
  }

  lemma CountedUnique(b: bytes, max: nat, w: bytes, x: bytes)
    requires Counted(b, max, w, true) && Counted(b, max, x, true)
    ensures w == x
  {
    SameWord(w[..4], x[..4]);
    PaddedUnique(b, w[4..], x[4..]);
    assert w == w[..4] + w[4..] && x == x[..4] + x[4..];
  }

  lemma LongUnique(v: Value, w: bytes, x: bytes)
    requires Wire(I64, v, w, true) && Wire(I64, v, x, true)
    ensures w == x
  {
    HyperIsNumber(w);
    HyperIsNumber(x);
    assert w[..8] == w && x[..8] == x;
    SameHyper(w, x);
  }

  lemma WordUnique(t: Type, v: Value, w: bytes, x: bytes)
    requires (t.U32? || t.I32? || t.Bool?) && Wire(t, v, w, true) && Wire(t, v, x, true)
    ensures w == x
  {
    FourBytes(w);
    FourBytes(x);
    SameWord(w, x);
  }

  lemma {:induction false} WireAllUnique(t: Type, vs: seq<Value>, w: bytes, x: bytes)
    requires WireAll(t, vs, w, true) && WireAll(t, vs, x, true)
    ensures w == x
    decreases t, 1, |vs|
  {
    if vs != [] {
      var k := WireSplit(t, vs, w, true);
      var l := WireSplit(t, vs, x, true);
      WireAllUnique(t, vs[..|vs| - 1], w[..k], x[..l]);
      WireUnique(t, vs[|vs| - 1], w[k..], x[l..]);
      assert w == w[..k] + w[k..] && x == x[..l] + x[l..];
    }
  }

  /** The bytes that stand for a value, in the strict form, are its encoding. */
  lemma EncodeExact(t: Type, v: Value, w: bytes)
    requires Bounded(t) && Holds(t, v) && Complete(v)
    ensures Wire(t, v, w, true) <==> w == Encode(t, v)
  {
    EncodedIsWire(t, v);
    if Wire(t, v, w, true) { WireUnique(t, v, w, Encode(t, v)); }
  }

  /** How long the encodings of bytes are, and what numbers the encodings of numbers are. */
  lemma EncodedAs(b: bytes, n: nat, m: nat)
    requires |b| <= RPC_INFINITY && n < 0x1_0000_0000 && m < 0x1_0000_0000_0000_0000
    ensures |Encode(Opaque(|b|), Data(b))| == (|b| + 3) / 4 * 4
    ensures |Encode(Bytes(|b|), Data(b))| == 4 + (|b| + 3) / 4 * 4
    ensures |PutInt(n)| == 4 && Number(PutInt(n), 256) == n
    ensures |PutHyper(m)| == 8 && Number(PutHyper(m), 256) == m
  {
    EncodeExact(Opaque(|b|), Data(b), Encode(Opaque(|b|), Data(b)));
    EncodeExact(Bytes(|b|), Data(b), Encode(Bytes(|b|), Data(b)));
    WordExact(PutInt(n), n);
    HyperExact(PutHyper(m), m);
  }

  // ----- decoding accepts the lax form

  /** w stands for v in the lax form and r follows. */
  ghost predicate Reads(t: Type, v: Value, s: bytes, r: bytes) {
    |r| <= |s| && s[|s| - |r|..] == r && Wire(t, v, s[..|s| - |r|], false)
  }

  ghost predicate ReadsAll(t: Type, vs: seq<Value>, s: bytes, r: bytes) {
    |r| <= |s| && s[|s| - |r|..] == r && WireAll(t, vs, s[..|s| - |r|], false)
  }

  /** A word and what follows it. */
  lemma GetExact(s: bytes)
    ensures GetInt(s).None? <==> |s| < 4
    ensures |s| >= 4 ==> GetInt(s) == Some((Number(s[..4], 256), s[4..])) && 0 <= Number(s[..4], 256) < 0x1_0000_0000
  {
    if |s| >= 4 {
      GetIsNumber(s);
      FourBytes(s[..4]);
    }
  }

  lemma NumberReads(t: Type, v: Value, s: bytes, r: bytes)
    requires t.U32? || t.I32? || t.Bool?
    ensures Decode(t, s) == Some((v, r)) <==> Reads(t, v, s, r)
  {
    GetExact(s);
    if |s| >= 4 {
      FourBytes(s[..4]);
      if |r| + 4 == |s| { assert s[|s| - |r|..] == s[4..]; }
    }
  }

  lemma LongReads(t: Type, v: Value, s: bytes, r: bytes)
    requires t.U64? || t.I64?
    ensures Decode(t, s) == Some((v, r)) <==> Reads(t, v, s, r)
  {
    GetExact(s);
    if |s| >= 8 {
      HyperIsNumber(s);
      if |r| + 8 == |s| { assert s[|s| - |r|..] == s[8..]; }
    } else if |s| >= 4 {
      GetExact(s[4..]);
    }
  }

  lemma PadReads(b: bytes, n: nat, s: bytes, r: bytes)
    ensures GetPadded(s, n) == Some((b, r)) <==>
              |b| == n && |r| <= |s| && s[|s| - |r|..] == r && Padded(b, s[..|s| - |r|], false)
  {
    PadIs(n);
    if |s| >= n + Pad(n) && |r| <= |s| && |s| - |r| == n + Pad(n) {
      assert s[..|s| - |r|][..n] == s[..n];
    }
  }

  /** After the first word of s, what comes before r is what comes before r in all of s. */
  lemma Behind(s: bytes, r: bytes)
    requires |r| + 4 <= |s|
    ensures s[|s| - |r|..] == s[4..][|s| - 4 - |r|..]
    ensures s[..|s| - |r|][..4] == s[..4] && s[..|s| - |r|][4..] == s[4..][..|s| - 4 - |r|]
  {
  }

  lemma CountedReads(b: bytes, max: nat, s: bytes, r: bytes)
    ensures (match GetInt(s)
             case None => false
             case Some((n, q)) => n <= max && GetPadded(q, n) == Some((b, r))) <==>
            |r| <= |s| && s[|s| - |r|..] == r && Counted(b, max, s[..|s| - |r|], false)
  {
    GetExact(s);
    if |s| >= 4 {
      var n := Number(s[..4], 256);
      PadReads(b, n, s[4..], r);
      if |r| + 4 <= |s| { Behind(s, r); }
    }
  }

  lemma BlobReads(t: Type, v: Value, s: bytes, r: bytes)
    requires t.Bytes? || t.Text?
    ensures Decode(t, s) == Some((v, r)) <==> Reads(t, v, s, r)
  {
    if t.Bytes? {
      if v.Data? { CountedReads(v.data, t.max, s, r); }
    } else {
      if v.Str? && v.str.Some? { CountedReads(v.str.value, t.max, s, r); }
    }
  }

  lemma OptDecodes(e: Type, v: Value, s: bytes, r: bytes)
    requires |s| >= 4
    ensures Decode(Opt(e), s) == Some((v, r)) <==>
              if Number(s[..4], 256) == 0 then v.Nil? && r == s[4..]
              else v.Ptr? && Decode(e, s[4..]) == Some((v.to, r))
  {
    GetExact(s);
  }

  lemma OptWire(e: Type, v: Value, s: bytes, r: bytes)
    requires |r| + 4 <= |s|
    ensures Reads(Opt(e), v, s, r) <==>
              if Number(s[..4], 256) == 0 then v.Nil? && r == s[4..] else v.Ptr? && Reads(e, v.to, s[4..], r)
  {
    Behind(s, r);
  }

  lemma OptReads(e: Type, v: Value, s: bytes, r: bytes)
    requires v.Ptr? && |s| >= 4 ==> (Decode(e, s[4..]) == Some((v.to, r)) <==> Reads(e, v.to, s[4..], r))
    ensures Decode(Opt(e), s) == Some((v, r)) <==> Reads(Opt(e), v, s, r)
  {
    if |s| < 4 {
      GetExact(s);
    } else {
      OptDecodes(e, v, s, r);
      if |r| + 4 <= |s| { OptWire(e, v, s, r); }
    }
  }

  lemma VecReads(e: Type, max: nat, v: Value, s: bytes, r: bytes)
    requires v.Seq? && |s| >= 4 ==>
      (DecodeAll(e, |v.elems|, s[4..]) == Some((v.elems, r)) <==> ReadsAll(e, v.elems, s[4..], r))
    requires |s| >= 4 ==> forall n: nat :: DecodeAll(e, n, s[4..]).Some? ==> |DecodeAll(e, n, s[4..]).value.0| == n
    ensures Decode(Vec(e, max), s) == Some((v, r)) <==> Reads(Vec(e, max), v, s, r)
  {
    GetExact(s);
    if |s| >= 4 {
      if |r| + 4 <= |s| { Behind(s, r); }
    }
  }

  lemma {:induction false} DecodeAllCount(t: Type, n: nat, s: bytes)
    ensures DecodeAll(t, n, s).Some? ==> |DecodeAll(t, n, s).value.0| == n
  {
    if n > 0 { DecodeAllCount(t, n - 1, s); }
  }

  /** Decoding yields a value, and leaves bytes behind it, exactly if what comes before them stands for the value. */
  lemma {:induction false} DecodeExact(t: Type, v: Value, s: bytes, r: bytes)
    ensures Decode(t, s) == Some((v, r)) <==> Reads(t, v, s, r)
    decreases t, 0
  {
    match t
    case Array(e, n) =>
      DecodeAllCount(e, n, s);
      if v.Seq? && |v.elems| == n { DecodeAllExact(e, v.elems, s, r); }
    case Vec(e, max) =>
      if |s| >= 4 {
        forall n: nat ensures DecodeAll(e, n, s[4..]).Some? ==> |DecodeAll(e, n, s[4..]).value.0| == n {
          DecodeAllCount(e, n, s[4..]);
        }
        if v.Seq? { DecodeAllExact(e, v.elems, s[4..], r); }
      }
      VecReads(e, max, v, s, r);
    case Opt(e) =>
      if v.Ptr? && |s| >= 4 { DecodeExact(e, v.to, s[4..], r); }
      OptReads(e, v, s, r);
    case Bytes(_) => BlobReads(t, v, s, r);
    case Text(_) => BlobReads(t, v, s, r);
    case Opaque(len) => if v.Data? { PadReads(v.data, len, s, r); }
    case U64 => LongReads(t, v, s, r);
    case I64 => LongReads(t, v, s, r);
    case _ => NumberReads(t, v, s, r);
  }

  lemma {:induction false} DecodeAllExact(t: Type, vs: seq<Value>, s: bytes, r: bytes)
    ensures DecodeAll(t, |vs|, s) == Some((vs, r)) <==> ReadsAll(t, vs, s, r)
    decreases t, 1, |vs|, 1
  {
    if vs == [] {
      if DecodeAll(t, 0, s) == Some((vs, r)) { assert s[|s| - |r|..] == s && s[..|s| - |r|] == []; }
    } else {
      var front, v := vs[..|vs| - 1], vs[|vs| - 1];
      assert front + [v] == vs;
      DecodeAllCount(t, |front|, s);
      if DecodeAll(t, |vs|, s) == Some((vs, r)) {
        DecodedReads(t, front, v, s, DecodeAll(t, |front|, s).value.1, r);
      }
      if ReadsAll(t, vs, s, r) {
        var k := WireSplit(t, vs, s[..|s| - |r|], false);
        ReadsDecode(t, front, v, s, k, r);
      }
    }
  }

  lemma {:induction false} DecodedReads(t: Type, front: seq<Value>, v: Value, s: bytes, q: bytes, r: bytes)
    requires DecodeAll(t, |front|, s) == Some((front, q)) && Decode(t, q) == Some((v, r))
    ensures ReadsAll(t, front + [v], s, r)
    decreases t, 1, |front| + 1, 0
  {
    DecodeAllExact(t, front, s, q);
    DecodeExact(t, v, q, r);
    ReadsNext(t, front, v, s, q, r);
  }

  lemma ReadsNext(t: Type, front: seq<Value>, v: Value, s: bytes, q: bytes, r: bytes)
    requires ReadsAll(t, front, s, q) && Reads(t, v, q, r)
    ensures ReadsAll(t, front + [v], s, r)
  {
    var a, b := s[..|s| - |q|], q[..|q| - |r|];
    WireAppend(t, front, v, a, b, false);
    Middle(s, q, r);
  }

  lemma Middle(s: bytes, q: bytes, r: bytes)
    requires |r| <= |q| <= |s| && s[|s| - |q|..] == q && q[|q| - |r|..] == r
    ensures s[..|s| - |r|] == s[..|s| - |q|] + q[..|q| - |r|] && s[|s| - |r|..] == r
  {
    assert s == s[..|s| - |q|] + q;
  }

  lemma {:induction false} ReadsDecode(t: Type, front: seq<Value>, v: Value, s: bytes, k: nat, r: bytes)
    requires |r| <= |s| && s[|s| - |r|..] == r && k <= |s| - |r|
    requires WireAll(t, front, s[..|s| - |r|][..k], false) && Wire(t, v, s[..|s| - |r|][k..], false)
    ensures DecodeAll(t, |front| + 1, s) == Some((front + [v], r))
    decreases t, 1, |front| + 1, 0
  {
    var q := s[k..];
    assert s[..|s| - |r|][..k] == s[..|s| - |q|] && s[..|s| - |r|][k..] == q[..|q| - |r|];
    DecodeAllExact(t, front, s, q);
    DecodeExact(t, v, q, r);
    DecodeNext(t, |front|, s, front, q, v, r);
  }
}
