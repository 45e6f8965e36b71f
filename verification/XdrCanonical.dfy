/**
 When decoding loses nothing.  Padding and the flags of booleans and optionals may hold other bytes
 than encoding writes, and decoding accepts them; encoding the decoded value gives back the bytes it
 was decoded from exactly if they do not.
 */
module XdrCanonical {
  import opened Common
  import opened Xdr

  /** The padding after n bytes of s is zero. */
  ghost predicate ZeroPad(s: bytes, n: nat) {
    |s| >= n + Pad(n) ==> s[n..n + Pad(n)] == Zeros(Pad(n))
  }

  /** Padding is zero, and flags are 0 or 1, in what s holds of a value of type t. */
  ghost predicate Canonical(t: Type, s: bytes)
    decreases t, 0
  {
    match t
    case Bool => GetInt(s).Some? ==> GetInt(s).value.0 <= 1
    case Opaque(len) => ZeroPad(s, len)
    case Bytes(_) => GetInt(s).Some? ==> ZeroPad(GetInt(s).value.1, GetInt(s).value.0)
    case Text(_) => GetInt(s).Some? ==> ZeroPad(GetInt(s).value.1, GetInt(s).value.0)
    case Array(e, n) => AllCanonical(e, n, s)
    case Vec(e, _) => GetInt(s).Some? ==> AllCanonical(e, GetInt(s).value.0, GetInt(s).value.1)
    case Opt(e) => GetInt(s).Some? ==>
      GetInt(s).value.0 == 0 || (GetInt(s).value.0 == 1 && Canonical(e, GetInt(s).value.1))
    case _ => true
  }

  /** So are n values, one after another. */
  ghost predicate AllCanonical(t: Type, n: nat, s: bytes)
    decreases t, 1, n
  {
    n > 0 ==> AllCanonical(t, n - 1, s)
              && (DecodeAll(t, n - 1, s).Some? ==> Canonical(t, DecodeAll(t, n - 1, s).value.1))
  }

  /** Cancelling what comes first. */
  lemma Cancel(s: bytes, a: bytes, x: bytes, r: bytes)
    requires After(s, r, |a|)
    ensures a + x == s <==> a + r == s && x == r
  {
    assert s == s[..|a|] + s[|a|..];
    if a + x == s {
      assert a == (a + x)[..|a|] && x == (a + x)[|a|..];
    }
  }

  lemma PutGet(s: bytes)
    requires |s| >= 4
    ensures GetInt(s).value.0 < TWO32 && PutInt(GetInt(s).value.0) + s[4..] == s
  {
    GotInt(s);
    var a: int, b: int, c: int, d: int := s[0], s[1], s[2], s[3];
    var n := BigEndian(a, b, c, d);
    assert n / 256 == (a * 256 + b) * 256 + c && n % 256 == d;
    assert n / 256 / 256 == a * 256 + b && n / 256 % 256 == c;
    assert PutInt(n) == s[..4];
  }

  lemma PutGetHyper(s: bytes)
    requires |s| >= 8
    ensures GetHyper(s).Some? && GetHyper(s).value.0 < TWO64 && GetHyper(s).value.1 == s[8..]
    ensures PutHyper(GetHyper(s).value.0) + s[8..] == s
  {
    PutGet(s);
    PutGet(s[4..]);
    var hi, lo := GetInt(s).value.0, GetInt(s[4..]).value.0;
    assert (hi * TWO32 + lo) / TWO32 == hi && (hi * TWO32 + lo) % TWO32 == lo;
    assert s[4..][4..] == s[8..];
    Assoc(PutInt(hi), PutInt(lo), s[8..]);
  }

  lemma PadExact(s: bytes, n: nat)
    requires |s| >= n + Pad(n)
    ensures PutPadded(s[..n]) + s[n + Pad(n)..] == s <==> ZeroPad(s, n)
  {
    var p := Pad(n);
    assert s == s[..n] + s[n..n + p] + s[n + p..];
    if PutPadded(s[..n]) + s[n + p..] == s {
      assert s[n..n + p] == (s[..n] + Zeros(p) + s[n + p..])[n..n + p];
    }
  }

  lemma SignedWrap(n: nat, mod: int)
    requires 0 <= n < mod && mod % 2 == 0
    ensures -mod <= Signed(n, mod) && Wrap(Signed(n, mod), mod) == n && -(mod / 2) <= Signed(n, mod) < mod / 2
  {
  }

  lemma WordExact(t: Type, s: bytes)
    requires (t.U32? || t.I32? || t.Bool?) && Decode(t, s).Some?
    ensures var (v, r) := Decode(t, s).value;
            Holds(t, v) && (Encode(t, v) + r == s <==> Canonical(t, s))
  {
    PutGet(s);
    var n := GetInt(s).value.0;
    WordDecode(t, s, n, s[4..]);
    match t
    case I32 => SignedWrap(n, TWO32);
    case Bool => BoolExact(n, s[4..]);
    case U32 =>
  }

  lemma LongExact(t: Type, s: bytes)
    requires (t.U64? || t.I64?) && Decode(t, s).Some?
    ensures var (v, r) := Decode(t, s).value;
            Holds(t, v) && Encode(t, v) + r == s
  {
    PutGetHyper(s);
    SignedWrap(GetHyper(s).value.0, TWO64);
  }

  lemma BoolExact(n: nat, r: bytes)
    requires n < TWO32
    ensures PutInt(if n != 0 then 1 else 0) + r == PutInt(n) + r <==> n <= 1
  {
    var m := if n != 0 then 1 else 0;
    if PutInt(m) + r == PutInt(n) + r {
      IntRoundTrip(m, r);
      IntRoundTrip(n, r);
    }
  }

  lemma CountedExact(t: Type, s: bytes)
    requires Bounded(t) && (t.Bytes? || t.Text?) && Decode(t, s).Some?
    ensures var (v, r) := Decode(t, s).value;
            Holds(t, v) && Complete(v) && (Encode(t, v) + r == s <==> Canonical(t, s))
  {
    PutGet(s);
    var n, r := GetInt(s).value.0, s[4..];
    PadExact(r, n);
    var b, r' := r[..n], r[n + Pad(n)..];
    Assoc(PutInt(n), PutPadded(b), r');
    Cancel(s, PutInt(n), PutPadded(b) + r', r);
  }

  /** Encoding the decoded value gives back what was consumed exactly if that was canonical. */
  lemma {:induction false} Reencodes(t: Type, s: bytes)
    requires Bounded(t) && Decode(t, s).Some?
    ensures var (v, r) := Decode(t, s).value;
            Holds(t, v) && Complete(v) && (Encode(t, v) + r == s <==> Canonical(t, s))
    decreases t, 0
  {
    DecodeSound(t, s);
    match t
    case Array(e, n) => ReencodesAll(e, n, s);
    case Vec(e, _) => ReencodesAll(e, GetInt(s).value.0, GetInt(s).value.1); VecExact(t, s);
    case Opt(e) =>
      if GetInt(s).value.0 != 0 { Reencodes(e, GetInt(s).value.1); }
      OptExact(t, s);
    case Bytes(_) => CountedExact(t, s);
    case Text(_) => CountedExact(t, s);
    case Opaque(len) => PadExact(s, len);
    case U64 => LongExact(t, s);
    case I64 => LongExact(t, s);
    case _ => WordExact(t, s);
  }

  lemma VecExact(t: Type, s: bytes)
    requires t.Vec? && Bounded(t) && Decode(t, s).Some? && Sound(t, s)
    requires var (n, r) := GetInt(s).value; var (vs, r') := DecodeAll(t.elem, n, r).value;
             AllHold(t.elem, vs) && AllComplete(vs) && |vs| == n
             && (EncodeAll(t.elem, vs) + r' == r <==> AllCanonical(t.elem, n, r))
    ensures var (v, r) := Decode(t, s).value;
            Encode(t, v) + r == s <==> Canonical(t, s)
  {
    PutGet(s);
    var (n, r) := GetInt(s).value;
    var (vs, r') := DecodeAll(t.elem, n, r).value;
    Assoc(PutInt(n), EncodeAll(t.elem, vs), r');
    Cancel(s, PutInt(n), EncodeAll(t.elem, vs) + r', r);
  }

  lemma OptExact(t: Type, s: bytes)
    requires t.Opt? && Bounded(t) && Decode(t, s).Some? && Sound(t, s)
    requires var (n, r) := GetInt(s).value; n != 0 ==>
             var (v, r') := Decode(t.elem, r).value;
             Holds(t.elem, v) && Complete(v) && (Encode(t.elem, v) + r' == r <==> Canonical(t.elem, r))
    ensures var (v, r) := Decode(t, s).value;
            Encode(t, v) + r == s <==> Canonical(t, s)
  {
    PutGet(s);
    var (n, r) := GetInt(s).value;
    if n != 0 {
      var (v, r') := Decode(t.elem, r).value;
      var x := Encode(t.elem, v) + r';
      Assoc(PutInt(1), Encode(t.elem, v), r');
      BoolExact(n, r);
      Cancel(s, PutInt(1), x, r);
    }
  }

  lemma {:induction false} ReencodesAll(t: Type, n: nat, s: bytes)
    requires Bounded(t) && DecodeAll(t, n, s).Some?
    ensures var (vs, r) := DecodeAll(t, n, s).value;
            |vs| == n && AllHold(t, vs) && AllComplete(vs) && (EncodeAll(t, vs) + r == s <==> AllCanonical(t, n, s))
    decreases t, 1, n
  {
    DecodeAllSound(t, n, s);
    if n > 0 {
      ReencodesAll(t, n - 1, s);
      DecodeAllSound(t, n - 1, s);
      var (front, r) := DecodeAll(t, n - 1, s).value;
      Reencodes(t, r);
      var (v, r') := Decode(t, r).value;
      EncodeAppend(t, front, v);
      Assoc(EncodeAll(t, front), Encode(t, v), r');
      Cancel(s, EncodeAll(t, front), Encode(t, v) + r', r);
    }
  }
}
