/**
 XDR marshalling (rpc_traverse): what a value of a type is on the wire, and what the wire
 decodes to, as pure functions; sections 4.1, 4.2, 4.4, 4.5, 4.9 to 4.13 and 4.19 of RFC 4506.
 */
module Xdr {
  import opened Common

  datatype Type =
    | U32 | I32 | U64 | I64 | Bool
    | Opaque(len: nat)                  // fixed-length opaque data
    | Bytes(max: nat)                   // variable-length opaque data
    | Text(max: nat)                    // string
    | Array(elem: Type, count: nat)     // fixed-length array
    | Vec(elem: Type, max: nat)         // variable-length array
    | Opt(elem: Type)                   // optional data

  datatype Value =
    | Num(n: int)
    | Flag(b: bool)
    | Data(data: bytes)
    | Str(str: Option<bytes>)           // None is a null string
    | Seq(elems: seq<Value>)
    | Nil
    | Ptr(to: Value)

  const RPC_INFINITY: nat := 0x7fffffff
  const TWO32: nat := 0x1_0000_0000
  const TWO64: nat := 0x1_0000_0000_0000_0000

  /** Declared bounds do not exceed RPC_INFINITY. */
  ghost predicate Bounded(t: Type) {
    match t
    case Bytes(max) => max <= RPC_INFINITY
    case Text(max) => max <= RPC_INFINITY
    case Vec(e, max) => max <= RPC_INFINITY && Bounded(e)
    case Array(e, _) => Bounded(e)
    case Opt(e) => Bounded(e)
    case _ => true
  }

  /** v is a value that an object of type t can hold. */
  ghost predicate Holds(t: Type, v: Value) {
    match t
    case U32 => v.Num? && 0 <= v.n < TWO32
    case I32 => v.Num? && -0x8000_0000 <= v.n < 0x8000_0000
    case U64 => v.Num? && 0 <= v.n < TWO64
    case I64 => v.Num? && -0x8000_0000_0000_0000 <= v.n < 0x8000_0000_0000_0000
    case Bool => v.Flag?
    case Opaque(len) => v.Data? && |v.data| == len
    case Bytes(max) => v.Data? && |v.data| <= max
    case Text(max) => v.Str? && (v.str.Some? ==> |v.str.value| <= max && 0 !in v.str.value)
    case Array(e, n) => v.Seq? && |v.elems| == n && AllHold(e, v.elems)
    case Vec(e, max) => v.Seq? && |v.elems| <= max && AllHold(e, v.elems)
    case Opt(e) => v.Nil? || (v.Ptr? && Holds(e, v.to))
  }

  ghost predicate AllHold(t: Type, vs: seq<Value>) { forall i :: 0 <= i < |vs| ==> Holds(t, vs[i]) }

  /** v has no null string in it, so it can be encoded. */
  ghost predicate Complete(v: Value) {
    match v
    case Str(s) => s.Some?
    case Seq(vs) => AllComplete(vs)
    case Ptr(w) => Complete(w)
    case _ => true
  }

  ghost predicate AllComplete(vs: seq<Value>) { forall i :: 0 <= i < |vs| ==> Complete(vs[i]) }

  // ----- encoding

  function PutInt(n: nat): (r: bytes)
    requires n < TWO32
    ensures |r| == 4
  {
    [n / 256 / 256 / 256, n / 256 / 256 % 256, n / 256 % 256, n % 256]
  }

  /** Two's complement in 32 or 64 bits. */
  function Wrap(n: int, mod: int): nat
    requires -mod <= n
  {
    if n < 0 then n + mod else n
  }

  /** Bytes to add to reach a multiple of 4. */
  function Pad(n: nat): nat { (4 - n % 4) % 4 }

  function Zeros(n: nat): (r: bytes)
    ensures |r| == n
  {
    seq(n, _ => 0)
  }

  function PutPadded(b: bytes): bytes { b + Zeros(Pad(|b|)) }

  function PutHyper(n: nat): bytes
    requires n < TWO64
  {
    PutInt(n / TWO32) + PutInt(n % TWO32)
  }

  ghost function Encode(t: Type, v: Value): bytes
    requires Bounded(t) && Holds(t, v) && Complete(v)
    decreases t, 0
  {
    match t
    case U32 => PutInt(v.n)
    case I32 => PutInt(Wrap(v.n, TWO32))
    case U64 => PutHyper(v.n)
    case I64 => PutHyper(Wrap(v.n, TWO64))
    case Bool => PutInt(if v.b then 1 else 0)
    case Opaque(_) => PutPadded(v.data)
    case Bytes(_) => PutInt(|v.data|) + PutPadded(v.data)
    case Text(_) => PutInt(|v.str.value|) + PutPadded(v.str.value)
    case Array(e, _) => EncodeAll(e, v.elems)
    case Vec(e, _) => PutInt(|v.elems|) + EncodeAll(e, v.elems)
    case Opt(e) => if v.Nil? then PutInt(0) else PutInt(1) + Encode(e, v.to)
  }

  ghost function EncodeAll(t: Type, vs: seq<Value>): bytes
    requires Bounded(t) && AllHold(t, vs) && AllComplete(vs)
    decreases t, 1, |vs|
  {
    if vs == [] then [] else EncodeAll(t, vs[..|vs| - 1]) + Encode(t, vs[|vs| - 1])
  }

  // ----- decoding

  /** A decoded value and the bytes that follow it. */
  type Got<T> = Option<(T, bytes)>

  function BigEndian(a: int, b: int, c: int, d: int): int { ((a * 256 + b) * 256 + c) * 256 + d }

  function GetInt(s: bytes): Got<nat> {
    if |s| < 4 then None
    else Some((BigEndian(s[0], s[1], s[2], s[3]), s[4..]))
  }

  /** n bytes and their padding, whatever the padding holds. */
  function GetPadded(s: bytes, n: nat): Got<bytes> {
    if |s| < n + Pad(n) then None else Some((s[..n], s[n + Pad(n)..]))
  }

  function GetHyper(s: bytes): Got<nat> {
    match GetInt(s)
    case None => None
    case Some((hi, r)) =>
      match GetInt(r)
      case None => None
      case Some((lo, r')) => Some((hi * TWO32 + lo, r'))
  }

  /** Read the bits of an unsigned number as two's complement. */
  function Signed(n: nat, mod: nat): int { if n < mod / 2 then n else n - mod }

  ghost function Decode(t: Type, s: bytes): Got<Value>
    decreases t, 0
  {
    match t
    case U32 => (match GetInt(s) case None => None case Some((n, r)) => Some((Num(n), r)))
    case I32 => (match GetInt(s) case None => None case Some((n, r)) => Some((Num(Signed(n, TWO32)), r)))
    case U64 => (match GetHyper(s) case None => None case Some((n, r)) => Some((Num(n), r)))
    case I64 => (match GetHyper(s) case None => None case Some((n, r)) => Some((Num(Signed(n, TWO64)), r)))
    case Bool => (match GetInt(s) case None => None case Some((n, r)) => Some((Flag(n != 0), r)))
    case Opaque(len) => (match GetPadded(s, len) case None => None case Some((b, r)) => Some((Data(b), r)))
    case Bytes(max) => (
      match GetInt(s)
      case None => None
      case Some((n, r)) =>
        if n > max then None
        else match GetPadded(r, n) case None => None case Some((b, r')) => Some((Data(b), r')))
    case Text(max) => (
      match GetInt(s)
      case None => None
      case Some((n, r)) =>
        if n > max then None
        else match GetPadded(r, n)
          case None => None
          case Some((b, r')) => if 0 in b then None else Some((Str(Some(b)), r')))
    case Array(e, n) => (match DecodeAll(e, n, s) case None => None case Some((vs, r)) => Some((Seq(vs), r)))
    case Vec(e, max) => (
      match GetInt(s)
      case None => None
      case Some((n, r)) =>
        if n > max then None
        else match DecodeAll(e, n, r) case None => None case Some((vs, r')) => Some((Seq(vs), r')))
    case Opt(e) => (
      match GetInt(s)
      case None => None
      case Some((n, r)) =>
        if n == 0 then Some((Nil, r))
        else match Decode(e, r) case None => None case Some((v, r')) => Some((Ptr(v), r')))
  }

  ghost function DecodeAll(t: Type, n: nat, s: bytes): Got<seq<Value>>
    decreases t, 1, n
  {
    if n == 0 then Some(([], s))
    else match DecodeAll(t, n - 1, s)
      case None => None
      case Some((vs, r)) => match Decode(t, r) case None => None case Some((v, r')) => Some((vs + [v], r'))
  }

  // ----- decoding undoes encoding

  lemma IntRoundTrip(n: nat, rest: bytes)
    requires n < TWO32
    ensures GetInt(PutInt(n) + rest) == Some((n, rest))
  {
    var s := PutInt(n) + rest;
    assert s[4..] == rest;
    var a, b := n / 256, n / 256 / 256;
    assert BigEndian(b / 256, b % 256, a % 256, n % 256) == n;
  }

  lemma HyperRoundTrip(n: nat, rest: bytes)
    requires n < TWO64
    ensures GetHyper(PutHyper(n) + rest) == Some((n, rest))
  {
    assert PutHyper(n) + rest == PutInt(n / TWO32) + (PutInt(n % TWO32) + rest);
    IntRoundTrip(n / TWO32, PutInt(n % TWO32) + rest);
    IntRoundTrip(n % TWO32, rest);
  }

  lemma PaddedRoundTrip(b: bytes, rest: bytes)
    ensures GetPadded(PutPadded(b) + rest, |b|) == Some((b, rest))
  {
    var s := PutPadded(b) + rest;
    assert s[..|b|] == b;
    assert s[|b| + Pad(|b|)..] == rest;
  }

  lemma WrapSigned(n: int, mod: nat)
    requires mod % 2 == 0 && -(mod / 2) <= n < mod / 2
    ensures Wrap(n, mod) < mod && Signed(Wrap(n, mod), mod) == n
  {
  }

  /** The number that stands for a value of a one-word type. */
  ghost function Code(t: Type, v: Value): nat
    requires t.U32? || t.I32? || t.Bool?
    requires Holds(t, v)
  {
    match t
    case U32 => v.n
    case I32 => Wrap(v.n, TWO32)
    case Bool => if v.b then 1 else 0
  }

  lemma WordRoundTrip(t: Type, v: Value, rest: bytes)
    requires t.U32? || t.I32? || t.Bool?
    requires Holds(t, v)
    ensures Decode(t, Encode(t, v) + rest) == Some((v, rest))
  {
    var n := Code(t, v);
    assert Encode(t, v) == PutInt(n);
    IntRoundTrip(n, rest);
    if t.I32? { WrapSigned(v.n, TWO32); }
    WordDecode(t, PutInt(n) + rest, n, rest);
  }

  lemma WordDecode(t: Type, s: bytes, n: nat, rest: bytes)
    requires t.U32? || t.I32? || t.Bool?
    requires GetInt(s) == Some((n, rest))
    ensures var v := match t case U32 => Num(n) case I32 => Num(Signed(n, TWO32)) case _ => Flag(n != 0);
            Decode(t, s) == Some((v, rest))
  {
  }

  lemma LongRoundTrip(t: Type, v: Value, rest: bytes)
    requires t.U64? || t.I64?
    requires Holds(t, v)
    ensures Decode(t, Encode(t, v) + rest) == Some((v, rest))
  {
    match t
    case U64 => HyperRoundTrip(v.n, rest);
    case I64 => WrapSigned(v.n, TWO64); HyperRoundTrip(Wrap(v.n, TWO64), rest);
  }

  lemma CountedTypes(t: Type, v: Value, rest: bytes)
    requires t.Bytes? || t.Text?
    requires Bounded(t) && Holds(t, v) && Complete(v)
    ensures Decode(t, Encode(t, v) + rest) == Some((v, rest))
  {
    CountedRoundTrip(if t.Bytes? then v.data else v.str.value, rest);
  }

  lemma VecStart(e: Type, max: nat, v: Value, rest: bytes)
    requires Bounded(Vec(e, max)) && Holds(Vec(e, max), v) && Complete(v)
    ensures GetInt(Encode(Vec(e, max), v) + rest) == Some((|v.elems|, EncodeAll(e, v.elems) + rest))
  {
    assert Encode(Vec(e, max), v) + rest == PutInt(|v.elems|) + (EncodeAll(e, v.elems) + rest);
    IntRoundTrip(|v.elems|, EncodeAll(e, v.elems) + rest);
  }

  lemma OptStart(e: Type, v: Value, rest: bytes)
    requires Bounded(Opt(e)) && Holds(Opt(e), v) && Complete(v)
    ensures v.Nil? ==> GetInt(Encode(Opt(e), v) + rest) == Some((0, rest))
    ensures v.Ptr? ==> GetInt(Encode(Opt(e), v) + rest) == Some((1, Encode(e, v.to) + rest))
  {
    if v.Nil? {
      IntRoundTrip(0, rest);
    } else {
      assert Encode(Opt(e), v) + rest == PutInt(1) + (Encode(e, v.to) + rest);
      IntRoundTrip(1, Encode(e, v.to) + rest);
    }
  }

  lemma VecBack(e: Type, max: nat, v: Value, rest: bytes)
    requires Bounded(Vec(e, max)) && Holds(Vec(e, max), v) && Complete(v)
    requires DecodeAll(e, |v.elems|, EncodeAll(e, v.elems) + rest) == Some((v.elems, rest))
    ensures Decode(Vec(e, max), Encode(Vec(e, max), v) + rest) == Some((v, rest))
  {
    VecStart(e, max, v, rest);
  }

  lemma OptBack(e: Type, v: Value, rest: bytes)
    requires Bounded(Opt(e)) && Holds(Opt(e), v) && Complete(v)
    requires v.Ptr? ==> Decode(e, Encode(e, v.to) + rest) == Some((v.to, rest))
    ensures Decode(Opt(e), Encode(Opt(e), v) + rest) == Some((v, rest))
  {
    OptStart(e, v, rest);
  }

  /** Decoding what was encoded, followed by anything, gives back the value and what followed. */
  lemma {:induction false} RoundTrip(t: Type, v: Value, rest: bytes)
    requires Bounded(t) && Holds(t, v) && Complete(v)
    ensures Decode(t, Encode(t, v) + rest) == Some((v, rest))
    decreases t, 0
  {
    match t
    case Array(e, n) =>
      RoundTripAll(e, v.elems, rest);
    case Vec(e, max) =>
      RoundTripAll(e, v.elems, rest);
      VecBack(e, max, v, rest);
    case Opt(e) =>
      if v.Ptr? { RoundTrip(e, v.to, rest); }
      OptBack(e, v, rest);
    case Bytes(_) => CountedTypes(t, v, rest);
    case Text(_) => CountedTypes(t, v, rest);
    case Opaque(_) => PaddedRoundTrip(v.data, rest);
    case U64 => LongRoundTrip(t, v, rest);
    case I64 => LongRoundTrip(t, v, rest);
    case _ => WordRoundTrip(t, v, rest);
  }

  lemma CountedRoundTrip(b: bytes, rest: bytes)
    requires |b| < TWO32
    ensures GetInt(PutInt(|b|) + PutPadded(b) + rest) == Some((|b|, PutPadded(b) + rest))
    ensures GetPadded(PutPadded(b) + rest, |b|) == Some((b, rest))
  {
    assert PutInt(|b|) + PutPadded(b) + rest == PutInt(|b|) + (PutPadded(b) + rest);
    IntRoundTrip(|b|, PutPadded(b) + rest);
    PaddedRoundTrip(b, rest);
  }

  /** The encoding of a sequence with one more element. */
  lemma EncodeAppend(t: Type, vs: seq<Value>, v: Value)
    requires Bounded(t) && AllHold(t, vs) && AllComplete(vs) && Holds(t, v) && Complete(v)
    ensures AllHold(t, vs + [v]) && AllComplete(vs + [v])
    ensures EncodeAll(t, vs + [v]) == EncodeAll(t, vs) + Encode(t, v)
  {
    assert (vs + [v])[..|vs|] == vs;
  }

  /** Decoding one more element. */
  lemma DecodeNext(t: Type, n: nat, s: bytes, vs: seq<Value>, r: bytes, v: Value, r': bytes)
    requires DecodeAll(t, n, s) == Some((vs, r)) && Decode(t, r) == Some((v, r'))
    ensures DecodeAll(t, n + 1, s) == Some((vs + [v], r'))
  {
  }

  lemma {:induction false} RoundTripAll(t: Type, vs: seq<Value>, rest: bytes)
    requires Bounded(t) && AllHold(t, vs) && AllComplete(vs)
    ensures DecodeAll(t, |vs|, EncodeAll(t, vs) + rest) == Some((vs, rest))
    decreases t, 1, |vs|
  {
    if vs == [] {
      assert [] + rest == rest;
    } else {
      var front, v := vs[..|vs| - 1], vs[|vs| - 1];
      assert front + [v] == vs;
      RoundTripFront(t, front, v, rest);
    }
  }

  lemma {:induction false} RoundTripFront(t: Type, front: seq<Value>, v: Value, rest: bytes)
    requires Bounded(t) && AllHold(t, front) && AllComplete(front) && Holds(t, v) && Complete(v)
    ensures AllHold(t, front + [v]) && AllComplete(front + [v])
    ensures DecodeAll(t, |front| + 1, EncodeAll(t, front + [v]) + rest) == Some((front + [v], rest))
    decreases t, 1, |front| + 1, 0
  {
    var a, b := EncodeAll(t, front), Encode(t, v);
    EncodeAppend(t, front, v);
    assert (a + b) + rest == a + (b + rest);
    RoundTripAll(t, front, b + rest);
    RoundTrip(t, v, rest);
    DecodeNext(t, |front|, a + (b + rest), front, b + rest, v, rest);
  }

  // ----- what decoding yields

  ghost predicate Whole(b: bytes) { |b| % 4 == 0 }

  lemma WholeAppend(a: bytes, b: bytes)
    requires Whole(a) && Whole(b)
    ensures Whole(a + b)
  {
  }

  lemma WholePadded(b: bytes)
    ensures Whole(PutPadded(b))
  {
  }

  lemma ScalarWhole(t: Type, v: Value)
    requires Bounded(t) && Holds(t, v) && Complete(v) && !t.Array? && !t.Vec? && !t.Opt?
    ensures Whole(Encode(t, v))
  {
    match t
    case Opaque(_) => WholePadded(v.data);
    case Bytes(_) => WholePadded(v.data); WholeAppend(PutInt(|v.data|), PutPadded(v.data));
    case Text(_) => WholePadded(v.str.value); WholeAppend(PutInt(|v.str.value|), PutPadded(v.str.value));
    case _ =>
  }

  /** Encodings take a whole number of four-byte units. */
  lemma {:induction false} EncodeWhole(t: Type, v: Value)
    requires Bounded(t) && Holds(t, v) && Complete(v)
    ensures Whole(Encode(t, v))
    decreases t, 0
  {
    match t
    case Array(e, _) => EncodeAllWhole(e, v.elems);
    case Vec(e, _) =>
      EncodeAllWhole(e, v.elems);
      WholeAppend(PutInt(|v.elems|), EncodeAll(e, v.elems));
    case Opt(e) =>
      if v.Ptr? {
        EncodeWhole(e, v.to);
        WholeAppend(PutInt(1), Encode(e, v.to));
      }
    case _ => ScalarWhole(t, v);
  }

  lemma {:induction false} EncodeAllWhole(t: Type, vs: seq<Value>)
    requires Bounded(t) && AllHold(t, vs) && AllComplete(vs)
    ensures Whole(EncodeAll(t, vs))
    decreases t, 1, |vs|
  {
    if vs != [] {
      var front, v := vs[..|vs| - 1], vs[|vs| - 1];
      EncodeAllWhole(t, front);
      EncodeWhole(t, v);
      assert front + [v] == vs;
      EncodeAppend(t, front, v);
      WholeAppend(EncodeAll(t, front), Encode(t, v));
    }
  }

  /** r is what is left of s after k bytes. */
  ghost predicate After(s: bytes, r: bytes, k: nat) { k <= |s| && r == s[k..] }

  lemma AfterAfter(s: bytes, r: bytes, k: nat, r': bytes, k': nat)
    requires After(s, r, k) && After(r, r', k')
    ensures After(s, r', k + k')
  {
  }

  lemma GotInt(s: bytes)
    ensures GetInt(s).Some? ==> GetInt(s).value.0 < TWO32 && After(s, GetInt(s).value.1, 4)
  {
  }

  /** Whatever bytes decode to is a value of the type, and its own encoding is as long as what was consumed. */
  ghost predicate Sound(t: Type, s: bytes)
    requires Bounded(t)
  {
    match Decode(t, s)
    case None => true
    case Some((v, r)) => Holds(t, v) && Complete(v) && After(s, r, |Encode(t, v)|)
  }

  lemma ScalarSound(t: Type, s: bytes)
    requires Bounded(t) && !t.Array? && !t.Vec? && !t.Opt?
    ensures Sound(t, s)
  {
    GotInt(s);
    match GetInt(s)
    case None =>
    case Some((n, r)) => GotInt(r);
  }

  lemma {:induction false} DecodeSound(t: Type, s: bytes)
    requires Bounded(t)
    ensures Sound(t, s)
    decreases t, 0
  {
    match t
    case Array(e, n) => DecodeAllSound(e, n, s);
    case Vec(e, max) =>
      GotInt(s);
      if GetInt(s).Some? { DecodeAllSound(e, GetInt(s).value.0, GetInt(s).value.1); }
    case Opt(e) =>
      GotInt(s);
      if GetInt(s).Some? { DecodeSound(e, GetInt(s).value.1); }
    case _ => ScalarSound(t, s);
  }

  ghost predicate AllSound(t: Type, n: nat, s: bytes)
    requires Bounded(t)
  {
    match DecodeAll(t, n, s)
    case None => true
    case Some((vs, r)) =>
      |vs| == n && AllHold(t, vs) && AllComplete(vs) && After(s, r, |EncodeAll(t, vs)|)
  }

  lemma SoundNext(t: Type, n: nat, s: bytes, vs: seq<Value>, r: bytes, v: Value, r': bytes)
    requires Bounded(t) && AllSound(t, n, s) && DecodeAll(t, n, s) == Some((vs, r))
    requires Sound(t, r) && Decode(t, r) == Some((v, r'))
    ensures AllSound(t, n + 1, s)
  {
    DecodeNext(t, n, s, vs, r, v, r');
    EncodeAppend(t, vs, v);
    AfterAfter(s, r, |EncodeAll(t, vs)|, r', |Encode(t, v)|);
  }

  lemma {:induction false} DecodeAllSound(t: Type, n: nat, s: bytes)
    requires Bounded(t)
    ensures AllSound(t, n, s)
    decreases t, 1, n
  {
    if n > 0 {
      DecodeAllSound(t, n - 1, s);
      match DecodeAll(t, n - 1, s)
      case None =>
      case Some((vs, r)) =>
        DecodeSound(t, r);
        match Decode(t, r)
        case None =>
        case Some((v, r')) => SoundNext(t, n - 1, s, vs, r, v, r');
    }
  }
}
