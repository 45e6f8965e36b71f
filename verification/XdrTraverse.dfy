/**
 rpc_traverse over an XDR stream, as the program runs it: one traversal that appends to the
 stream when encoding and fills the target object, whatever it held before, when decoding.
 */
module XdrTraverse {
  import opened Common
  import opened Xdr

  datatype Op = ENCODE | DECODE

  /** buf is what has been written, or what is left to read. */
  class Stream {
    const op: Op
    var buf: bytes

    constructor (o: Op, b: bytes)
      ensures op == o && buf == b
    {
      op, buf := o, b;
    }

    method PutBytes(b: bytes)
      modifies this
      ensures buf == old(buf) + b
    {
      buf := buf + b;
    }

    method GetBytes(n: nat) returns (r: Option<bytes>)
      modifies this
      ensures r == if |old(buf)| < n then None else Some(old(buf)[..n])
      ensures buf == if |old(buf)| < n then old(buf) else old(buf)[n..]
    {
      if |buf| < n { return None; }
      r := Some(buf[..n]);
      buf := buf[n..];
    }

    /** xdr_putpadbytes. */
    method PutPad(b: bytes)
      modifies this
      ensures buf == old(buf) + PutPadded(b)
    {
      if |b| > 0 {
        PutBytes(b);
        if Pad(|b|) != 0 {
          PutBytes(Zeros(Pad(|b|)));
        }
      }
    }

    /** xdr_getpadbytes. */
    method GetPad(n: nat) returns (r: Option<bytes>)
      modifies this
      ensures match GetPadded(old(buf), n)
              case None => r.None?
              case Some((b, rest)) => r == Some(b) && buf == rest
    {
      r := GetBytes(n);
      if r.Some? && Pad(n) != 0 {
        var garbage := GetBytes(Pad(n));
        if garbage.None? { r := None; }
      }
    }

    /** rpc_traverse of u_int32_t. */
    method Word(n: nat) returns (ok: bool, r: nat)
      requires n < TWO32
      modifies this
      ensures op.ENCODE? ==> ok && r == n && buf == old(buf) + PutInt(n)
      ensures op.DECODE? ==> match GetInt(old(buf))
                             case None => !ok
                             case Some((m, rest)) => ok && r == m < TWO32 && buf == rest
    {
      match op
      case ENCODE =>
        PutBytes(PutInt(n));
        return true, n;
      case DECODE =>
        GotInt(buf);
        var b := GetBytes(4);
        if b.None? { return false, 0; }
        return true, BigEndian(b.value[0], b.value[1], b.value[2], b.value[3]);
    }

    /** rpc_traverse of u_int64_t: high half, then low half. */
    method Hyper(n: nat) returns (ok: bool, r: nat)
      requires n < TWO64
      modifies this
      ensures op.ENCODE? ==> ok && r == n && buf == old(buf) + PutHyper(n)
      ensures op.DECODE? ==> match GetHyper(old(buf))
                             case None => !ok
                             case Some((m, rest)) => ok && r == m < TWO64 && buf == rest
    {
      var hi, lo := n / TWO32, n % TWO32;
      ok, hi := Word(hi);
      if !ok { return false, 0; }
      ok, lo := Word(lo);
      if !ok { return false, 0; }
      return true, hi * TWO32 + lo;
    }

    /** Bytes after a length word: the decoder checks the bound before it looks at the bytes. */
    method Counted(b: bytes, max: nat) returns (ok: bool, r: bytes)
      requires |b| <= max <= RPC_INFINITY
      modifies this
      ensures op.ENCODE? ==> ok && r == b && buf == old(buf) + (PutInt(|b|) + PutPadded(b))
      ensures op.DECODE? ==>
        match GetInt(old(buf))
        case None => !ok
        case Some((n, rest)) =>
          if n > max then !ok
          else match GetPadded(rest, n) case None => !ok case Some((d, rest')) => ok && r == d && buf == rest'
    {
      var n;
      ok, n := Word(|b|);
      if !ok { return false, b; }
      match op
      case ENCODE =>
        PutPad(b);
        return true, b;
      case DECODE =>
        if n > max { return false, b; }
        var d := GetPad(n);
        if d.None? { return false, b; }
        return true, d.value;
    }

    // ----- the traversal

    /** What a traversal of an object must do; the decoded value does not depend on what the object held. */
    ghost predicate Traversed(t: Type, obj: Value, was: bytes, ok: bool, r: Value)
      requires Bounded(t) && Holds(t, obj)
      reads this
    {
      && (op.ENCODE? ==> (ok <==> Complete(obj)) && r == obj && (ok ==> buf == was + Encode(t, obj)))
      && (op.DECODE? ==> match Decode(t, was) case None => !ok case Some((v, rest)) => ok && r == v && buf == rest)
    }


    method Scalar(t: Type, obj: Value) returns (ok: bool, r: Value)
      requires Bounded(t) && Holds(t, obj) && !t.Array? && !t.Vec? && !t.Opt?
      modifies this
      ensures Traversed(t, obj, old(buf), ok, r)
      decreases t, 2
    {
      var n;
      if t.U32? {
        ok, n := Word(obj.n);
        r := Num(n);
      } else if t.I32? {
        WrapSigned(obj.n, TWO32);
        ok, n := Word(Wrap(obj.n, TWO32));
        r := Num(Signed(n, TWO32));
      } else if t.U64? {
        ok, n := Hyper(obj.n);
        r := Num(n);
      } else if t.I64? {
        WrapSigned(obj.n, TWO64);
        ok, n := Hyper(Wrap(obj.n, TWO64));
        r := Num(Signed(n, TWO64));
      } else if t.Bool? {
        ok, n := Word(if obj.b then 1 else 0);
        r := Flag(n != 0);
      } else {
        ok, r := Blob(t, obj);
      }
    }

    method Blob(t: Type, obj: Value) returns (ok: bool, r: Value)
      requires Bounded(t) && Holds(t, obj) && (t.Opaque? || t.Bytes? || t.Text?)
      modifies this
      ensures Traversed(t, obj, old(buf), ok, r)
      decreases t, 1
    {
      match t
      case Opaque(len) =>
        if op.ENCODE? {
          PutPad(obj.data);
          return true, obj;
        }
        var d := GetPad(len);
        if d.None? { return false, obj; }
        return true, Data(d.value);
      case Bytes(max) =>
        var d;
        ok, d := Counted(obj.data, max);
        r := Data(d);
      case Text(max) =>
        if op.ENCODE? && obj.str.None? {
          return false, obj;
        }
        var d;
        ok, d := Counted(if obj.str.Some? then obj.str.value else [], max);
        if ok && op.DECODE? && 0 in d {
          return false, obj;
        }
        r := Str(Some(d));
    }

    /** The first i elements have been traversed: cur holds them, as the stream has them. */
    ghost predicate Done(e: Type, obj: seq<Value>, cur: seq<Value>, i: nat, was: bytes)
      requires Bounded(e) && AllHold(e, obj) && i <= |cur|
      reads this
    {
      && (op.ENCODE? ==> cur == obj && AllComplete(obj[..i]) && buf == was + EncodeAll(e, obj[..i]))
      && (op.DECODE? ==> DecodeAll(e, i, was) == Some((cur[..i], buf)))
    }

    /** Traverse element i in place, or the one just added. */
    method Element(e: Type, ghost obj: seq<Value>, cur: seq<Value>, i: nat, ghost was: bytes, ghost n: nat)
      returns (ok: bool, r: seq<Value>)
      requires Bounded(e) && AllHold(e, obj) && AllHold(e, cur) && i < |cur| && i < n && Done(e, obj, cur, i, was)
      requires op.ENCODE? ==> i < |obj|
      modifies this
      ensures |r| == |cur| && AllHold(e, r)
      ensures ok ==> Done(e, obj, r, i + 1, was)
      ensures !ok && op.ENCODE? ==> r == obj && !AllComplete(obj)
      ensures !ok && op.DECODE? ==> DecodeAll(e, n, was).None?
      decreases e, 4
    {
      var v;
      DecodeSound(e, buf);
      ghost var before := buf;
      ok, v := Traverse(e, cur[i]);
      if !ok {
        if op.DECODE? { DecodeFails(e, i, n, was, cur[..i], before); }
        return false, cur;
      }
      r := cur[i := v];
      if op.ENCODE? {
        EncodeOneMore(e, obj, i, was);
      } else {
        DecodeOneMore(e, cur, i, was, before, v, buf);
      }
    }

    method Traverse(t: Type, obj: Value) returns (ok: bool, r: Value)
      requires Bounded(t) && Holds(t, obj)
      modifies this
      ensures Traversed(t, obj, old(buf), ok, r)
      decreases t, 3
    {
      if t.Array? {
        var es;
        ok, es := InPlace(t.elem, obj.elems, t.count);
        assert es[..t.count] == es && obj.elems[..t.count] == obj.elems;
        r := Seq(es);
      } else if t.Vec? {
        ok, r := Vector(t, obj);
      } else if t.Opt? {
        ok, r := Optional(t, obj);
      } else {
        ok, r := Scalar(t, obj);
      }
    }

    /** Traverse every element that is there; n is how many there will be in the end. */
    method InPlace(e: Type, obj: seq<Value>, ghost n: nat) returns (ok: bool, r: seq<Value>)
      requires Bounded(e) && AllHold(e, obj) && |obj| <= n
      modifies this
      ensures |r| == |obj| && AllHold(e, r)
      ensures ok ==> Done(e, obj, r, |obj|, old(buf))
      ensures !ok && op.ENCODE? ==> r == obj && !AllComplete(obj)
      ensures !ok && op.DECODE? ==> DecodeAll(e, n, old(buf)).None?
      decreases e, 5
    {
      r := obj;
      var i := 0;
      assert r[..0] == [] && old(buf) + [] == old(buf);
      while i < |r|
        invariant i <= |r| == |obj| && AllHold(e, r) && Done(e, obj, r, i, old(buf))
      {
        ok, r := Element(e, obj, r, i, old(buf), n);
        if !ok { return; }
        i := i + 1;
      }
      ok := true;
    }

    method Vector(t: Type, obj: Value) returns (ok: bool, r: Value)
      requires t.Vec? && Bounded(t) && Holds(t, obj)
      modifies this
      ensures Traversed(t, obj, old(buf), ok, r)
      decreases t, 2
    {
      var e := t.elem;
      var size;
      ok, size := Word(|obj.elems|);
      if !ok || size > t.max { return false, obj; }
      ghost var start := buf;
      var es := obj.elems;
      if size < |es| {
        es := es[..size];    // setsize
      }
      ghost var kept := es;
      ok, es := InPlace(e, es, size);
      if !ok { return false, if op.ENCODE? then obj else Seq(es); }
      while |es| < size
        invariant |es| <= size && AllHold(e, es) && Done(e, kept, es, |es|, start)
        invariant op.ENCODE? ==> |es| == size
      {
        es := es + [Default(e)];    // push_back
        assert es[..|es| - 1] == es[..|es| - 1][..|es| - 1];
        ok, es := Element(e, kept, es, |es| - 1, start, size);
        if !ok { return false, Seq(es); }
      }
      r := Seq(es);
      assert es[..|es|] == es;
      ok := true;
    }

    method Optional(t: Type, obj: Value) returns (ok: bool, r: Value)
      requires t.Opt? && Bounded(t) && Holds(t, obj)
      modifies this
      ensures Traversed(t, obj, old(buf), ok, r)
      decreases t, 2
    {
      var nonnil;
      ok, nonnil := Word(if obj.Nil? then 0 else 1);
      if !ok { return false, obj; }
      if nonnil != 0 {
        var v;
        ok, v := Traverse(t.elem, if obj.Ptr? then obj.to else Default(t.elem));    // alloc
        return ok, Ptr(v);
      }
      return true, Nil;
    }
  }

  /** What a newly constructed object holds; any other value that fits would do as well. */
  function Default(t: Type): (v: Value)
    ensures Holds(t, v)
  {
    match t
    case U32 => Num(0)
    case I32 => Num(0)
    case U64 => Num(0)
    case I64 => Num(0)
    case Bool => Flag(false)
    case Opaque(n) => Data(Zeros(n))
    case Bytes(_) => Data([])
    case Text(_) => Str(Some([]))
    case Array(e, n) => var d := Default(e); Seq(seq(n, _ => d))
    case Vec(_, _) => Seq([])
    case Opt(_) => Nil
  }

  lemma {:induction false} DecodeFails(t: Type, i: nat, n: nat, s: bytes, vs: seq<Value>, r: bytes)
    requires i < n && DecodeAll(t, i, s) == Some((vs, r)) && Decode(t, r).None?
    ensures DecodeAll(t, n, s).None?
  {
    if i + 1 < n { DecodeFails(t, i, n - 1, s, vs, r); }
  }

  lemma EncodeOneMore(e: Type, obj: seq<Value>, i: nat, was: bytes)
    requires Bounded(e) && AllHold(e, obj) && i < |obj| && AllComplete(obj[..i]) && Complete(obj[i])
    ensures AllComplete(obj[..i + 1])
    ensures was + EncodeAll(e, obj[..i]) + Encode(e, obj[i]) == was + EncodeAll(e, obj[..i + 1])
  {
    EncodeMore(e, obj[..i], obj[i], obj[..i + 1], was);
  }

  lemma EncodeMore(e: Type, front: seq<Value>, v: Value, vs: seq<Value>, was: bytes)
    requires Bounded(e) && AllHold(e, front) && AllComplete(front) && Holds(e, v) && Complete(v) && vs == front + [v]
    ensures AllHold(e, vs) && AllComplete(vs)
    ensures was + EncodeAll(e, front) + Encode(e, v) == was + EncodeAll(e, vs)
  {
    EncodeAppend(e, front, v);
    Assoc(was, EncodeAll(e, front), Encode(e, v));
  }

  lemma DecodeOneMore(e: Type, cur: seq<Value>, i: nat, was: bytes, r: bytes, v: Value, r': bytes)
    requires i < |cur| && DecodeAll(e, i, was) == Some((cur[..i], r)) && Decode(e, r) == Some((v, r'))
    ensures DecodeAll(e, i + 1, was) == Some((cur[i := v][..i + 1], r'))
  {
    DecodeNext(e, i, was, cur[..i], r, v, r');
    assert cur[i := v][..i + 1] == cur[..i] + [v];
  }

  /** What was decoded is the same whatever the target held before, for owned vectors and
      optionals of any prior size too; and a value survives encoding and decoding. */
  method Copy(t: Type, v: Value, target: Value) returns (ok: bool, r: Value)
    requires Bounded(t) && Holds(t, v) && Holds(t, target)
    ensures ok <==> Complete(v)
    ensures ok ==> r == v
  {
    var out := new Stream(ENCODE, []);
    var w;
    ok, w := out.Traverse(t, v);
    if !ok { return false, target; }
    var x := new Stream(DECODE, out.buf);
    RoundTrip(t, v, []);
    assert [] + Encode(t, v) == Encode(t, v) + [];
    ok, r := x.Traverse(t, target);
  }
}
