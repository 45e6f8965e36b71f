/** A stream transport that carries records (axprt_pipe). */
module AxprtPipe {
  import opened Common
  import opened RecordMarking
  import Xdr

  /** What a read returns: bytes, none of them at end of file; nothing yet; or an error. */
  datatype Read = Got(data: bytes) | Again | Failed

  class Pipe {
    const pktsize: nat
    const bufsize: nat
    var atEof: bool
    // receiving
    var pktbuf: array?<byte>
    var pktlen: nat
    var bytesRecv: nat
    var delivered: seq<bytes>    // records handed to the receive callback
    ghost var received: bytes    // everything read so far
    // sending
    var out: bytes               // accepted but not yet written
    var bytesSent: nat
    var rawBytesSent: nat
    ghost var wire: bytes        // everything written so far
    ghost var sent: seq<bytes>   // records accepted for sending

    ghost predicate Shape()
      reads this
    {
      && pktsize < LAST && bufsize >= pktsize + 4
      && pktlen <= bufsize
      && (pktbuf == null ==> pktlen == 0)
      && (pktbuf != null ==> pktbuf.Length == bufsize)
    }

    /** The bytes that wait in the buffer. */
    ghost function Buffered(): bytes
      requires Shape()
      reads this, pktbuf
    {
      if pktbuf == null then [] else pktbuf[..pktlen]
    }

    /** What was read is the delivered records and then the buffered bytes, which are part of a record. */
    ghost predicate Receiving()
      reads this, pktbuf
    {
      && Shape()
      && bytesRecv == |received|
      && (!atEof ==> Parses(received, delivered, Buffered(), pktsize) && Look(Buffered(), pktsize) == Short)
    }

    /** What was written or waits to be is the records sent, framed; the counters count it. */
    ghost predicate Sending()
      reads this
    {
      && pktsize < LAST
      && Sendable(sent, pktsize) && (!atEof ==> wire + out == Frames(sent, pktsize))
      && rawBytesSent == |Frames(sent, pktsize)| && bytesSent + 4 * |sent| == rawBytesSent
    }

    constructor (ps: nat)
      requires ps < LAST
      ensures Receiving() && Sending() && !atEof && pktsize == ps && bufsize == ps + 4
      ensures received == [] && delivered == [] && sent == [] && wire == [] && out == []
    {
      pktsize, bufsize, atEof := ps, ps + 4, false;
      pktbuf, pktlen, bytesRecv, delivered, received := null, 0, 0, [], [];
      out, bytesSent, rawBytesSent, wire, sent := [], 0, 0, [], [];
      new;
      assert Frames([], ps) == [];
    }

    /** fail: both directions are closed and what waits is thrown away. */
    method Fail()
      modifies this`atEof, this`out
      ensures atEof && out == []
    {
      atEof, out := true, [];
    }

    // ----- sending

    /** sendv: if nothing waits, an immediate write takes some bytes, or fails; then output takes up to n more,
        and succeeds or not.  A failed write, and a record over the packet size, end the transport. */
    method Send(m: bytes, write: Option<nat>, n: nat, ok: bool)
      requires Sending() && !atEof && (write.Some? ==> write.value <= |m| + 4)
      modifies this`atEof, this`out, this`bytesSent, this`rawBytesSent, this`wire, this`sent
      ensures Sending()
      ensures atEof <==> |m| > pktsize || (old(out) == [] && write.None?) || !ok
      ensures if |m| <= pktsize then sent == old(sent) + [m] && rawBytesSent == old(rawBytesSent) + |m| + 4
              else sent == old(sent) && rawBytesSent == old(rawBytesSent)
      ensures |m| > pktsize || (old(out) == [] && write.None?) ==> wire == old(wire)
      ensures |m| <= pktsize && !(old(out) == [] && write.None?) ==>
              && wire == old(wire) + Waiting(old(out), m)[..Written(old(out), m, write, n)]
              && (!atEof ==> out == Waiting(old(out), m)[Written(old(out), m, write, n)..])
      ensures atEof ==> out == []
    {
      if |m| > pktsize {
        Fail();
        return;
      }
      Count(m);
      if out == [] && write.None? {
        Fail();
      } else {
        Transmit(m, if write.Some? then write.value else 0, n, ok, old(sent));
      }
    }

    /** The record is accepted and counted. */
    ghost predicate Accepted(sent0: seq<bytes>, wire0: bytes, out0: bytes, m: bytes)
      reads this
    {
      && pktsize < LAST && |m| <= pktsize
      && Sendable(sent0, pktsize) && sent == sent0 + [m] && Sendable(sent, pktsize)
      && (!atEof ==> wire0 + out0 + Frame(m) == Frames(sent, pktsize))
      && rawBytesSent == |Frames(sent, pktsize)| && bytesSent + 4 * |sent| == rawBytesSent
    }

    method Count(m: bytes)
      requires Sending() && !atEof && |m| <= pktsize
      modifies this`bytesSent, this`rawBytesSent, this`sent
      ensures Accepted(old(sent), wire, out, m) && rawBytesSent == old(rawBytesSent) + |m| + 4
    {
      SendCounts(sent, m, pktsize);
      bytesSent := bytesSent + |m|;
      rawBytesSent := rawBytesSent + |m| + 4;
      sent := sent + [m];
    }

    method Transmit(m: bytes, took: nat, n: nat, ok: bool, ghost before: seq<bytes>)
      requires Accepted(before, wire, out, m) && !atEof && took <= |m| + 4
      modifies this`atEof, this`out, this`wire
      ensures Sending() && (atEof <==> !ok)
      ensures var k := Written(old(out), m, Some(took), n);
              && wire == old(wire) + Waiting(old(out), m)[..k]
              && out == if atEof then [] else Waiting(old(out), m)[k..]
    {
      ghost var first := if out == [] then took else 0;
      Enqueue(m, took);
      var k := if n < |out| then n else |out|;
      Pieces(old(wire), Waiting(old(out), m), first, k);
      Output(k, ok);
    }

    /** What there is to write when m is sent. */
    ghost function Waiting(out: bytes, m: bytes): bytes
      requires |m| < LAST
    {
      out + Frame(m)
    }

    /** How much of it is written: at once if nothing else waits, and then up to n more. */
    ghost function Written(out: bytes, m: bytes, write: Option<nat>, n: nat): (r: nat)
      requires |m| < LAST && (write.Some? ==> write.value <= |m| + 4)
      ensures r <= |Waiting(out, m)|
    {
      var took := if out == [] && write.Some? then write.value else 0;
      if took + n < |Waiting(out, m)| then took + n else |Waiting(out, m)|
    }

    /** Write what the descriptor takes, and keep the rest. */
    method Enqueue(m: bytes, took: nat)
      requires |m| < LAST && took <= |m| + 4
      modifies this`out, this`wire
      ensures wire + out == old(wire + out) + Frame(m)
      ensures var k := if old(out) == [] then took else 0;
              wire == old(wire) + Waiting(old(out), m)[..k] && out == Waiting(old(out), m)[k..]
    {
      if |out| == 0 {
        wire, out := wire + Frame(m)[..took], Frame(m)[took..];
        assert Frame(m)[..took] + Frame(m)[took..] == Frame(m);
        assert [] + Frame(m) == Frame(m);
      } else {
        out := out + Xdr.PutInt(LAST + |m|);
        out := out + m;
        assert old(out) + Frame(m) == out;
      }
    }

    /** output: the descriptor takes n of the waiting bytes, in as many writes as it takes; a failed write after
        that ends the transport. */
    method Output(n: nat, ok: bool)
      requires Sending() && !atEof && n <= |out|
      modifies this`atEof, this`out, this`wire
      ensures Sending() && (atEof <==> !ok) && wire == old(wire) + old(out)[..n]
      ensures out == if atEof then [] else old(out)[n..]
    {
      wire, out := wire + out[..n], out[n..];
      assert old(out)[..n] + old(out)[n..] == old(out);
      if !ok {
        Fail();
      }
    }

    // ----- receiving

    /** The stream read so far has a break or a bad header after whole records. */
    ghost predicate Malformed()
      requires pktsize < LAST
      reads this`received
    {
      exists pkts, rest :: Stuck(received, pkts, rest, pktsize)
    }

    /** getpkt at cp: deliver the record there, if it is whole; more says whether to go on. */
    method GetPkt(cp: nat) returns (more: bool, next: nat)
      requires Shape() && pktbuf != null && cp <= pktlen && (atEof ==> out == [])
      modifies this`delivered, this`atEof, this`out
      ensures out == if atEof then [] else old(out)
      ensures var s := pktbuf[cp..pktlen];
              match Look(s, pktsize)
              case Short => !more && next == cp && delivered == old(delivered) && atEof == old(atEof)
              case Bad => !more && next == cp && delivered == old(delivered) && atEof
              case Break => more && next == cp + 4 && delivered == old(delivered) && atEof
              case Record(n) =>
                  && more && next == cp + 4 + n && delivered == old(delivered) + [s[4..4 + n]]
                  && atEof == old(atEof)
      ensures cp <= next <= pktlen
    {
      if pktlen - cp < 4 {
        return false, cp;
      }
      var len: int := Xdr.BigEndian(pktbuf[cp], pktbuf[cp + 1], pktbuf[cp + 2], pktbuf[cp + 3]);
      ghost var s := pktbuf[cp..pktlen];
      assert Xdr.GetInt(s) == Some((len, s[4..]));
      if len == 0 {
        Fail();    // recvbreak
        return true, cp + 4;
      }
      if len < LAST || len - LAST > pktsize {
        Fail();    // checklen
        return false, cp;
      }
      len := len - LAST;
      if pktlen - (cp + 4) < len {
        return false, cp;
      }
      SliceSlice(pktbuf[..], cp, pktlen, 4, 4 + len);
      delivered := delivered + [pktbuf[cp + 4..cp + 4 + len]];
      return true, cp + 4 + len;
    }

    /** Up to cp the buffer has been delivered, or the transport has failed on the stream. */
    ghost predicate DeliveredTo(cp: nat)
      requires Shape() && pktbuf != null
      reads this, pktbuf
    {
      && cp <= pktlen
      && (atEof ==> Malformed())
      && (!atEof ==> Sendable(delivered, pktsize) && received == Frames(delivered, pktsize) + pktbuf[cp..pktlen])
    }

    /** getpkt, and what it means for what can be taken out of the buffer. */
    method TakeOne(cp: nat) returns (more: bool, next: nat)
      requires Shape() && pktbuf != null && cp <= pktlen && (atEof ==> out == [])
      modifies this`delivered, this`atEof, this`out
      ensures cp <= next <= pktlen && (more ==> cp < next) && old(delivered) <= delivered
      ensures out == if atEof then [] else old(out)
      ensures Advanced(pktbuf[cp..pktlen], pktbuf[next..pktlen], more, old(delivered), delivered, pktsize)
      ensures !more ==> next == cp
      ensures var h := Look(pktbuf[cp..pktlen], pktsize); atEof <==> old(atEof) || h.Bad? || h.Break?
      ensures SameTaken(pktbuf[cp..pktlen], old(delivered), old(atEof), pktbuf[next..pktlen], more)
    {
      ghost var s := pktbuf[cp..pktlen];
      ghost var n := Look(s, pktsize);
      more, next := GetPkt(cp);
      ghost var t := pktbuf[next..pktlen];
      assert n.Record? ==> t == s[4 + n.len..];
      assert n.Break? ==> t == s[4..];
      AdvancedTaken(s, t, more, old(delivered), delivered, pktsize);
    }

    /** From s, with what was delivered and whether the transport had ended, to t the same can be taken out in all. */
    ghost predicate SameTaken(s: bytes, was: seq<bytes>, ended: bool, t: bytes, more: bool)
      reads this`delivered, this`atEof
    {
      && delivered + (if more then Taken(t, pktsize) else []) == was + Taken(s, pktsize)
      && (atEof || (more && Halts(t, pktsize)) <==> ended || Halts(s, pktsize))
    }

    method DeliverOne(cp: nat) returns (more: bool, next: nat)
      requires Shape() && pktbuf != null && DeliveredTo(cp) && (atEof ==> out == [])
      modifies this`delivered, this`atEof, this`out
      ensures DeliveredTo(next) && cp <= next && (more ==> cp < next) && old(delivered) <= delivered
      ensures out == (if atEof then [] else old(out)) && (old(atEof) ==> atEof)
      ensures !atEof && !more ==> Look(pktbuf[next..pktlen], pktsize) == Short
      ensures SameTaken(pktbuf[cp..pktlen], old(delivered), old(atEof), pktbuf[next..pktlen], more)
    {
      ghost var s := pktbuf[cp..pktlen];
      ghost var n := Look(s, pktsize);
      if !atEof && !n.Record? && !n.Short? {
        assert Stuck(received, delivered, s, pktsize);
      }
      if !atEof && n.Record? {
        Advance(received, delivered, s, pktsize);
      }
      more, next := TakeOne(cp);
    }

    /** The loop of callgetpkt. */
    method Deliver() returns (cp: nat)
      requires Shape() && pktbuf != null && !atEof && DeliveredTo(0)
      modifies this`delivered, this`atEof, this`out
      ensures DeliveredTo(cp) && old(delivered) <= delivered && out == if atEof then [] else old(out)
      ensures !atEof ==> Look(pktbuf[cp..pktlen], pktsize) == Short
      ensures delivered == old(delivered) + Taken(pktbuf[..pktlen], pktsize)
      ensures atEof <==> Halts(pktbuf[..pktlen], pktsize)
    {
      cp := 0;
      assert pktbuf[0..pktlen] == pktbuf[..pktlen];
      var more := true;
      while more
        invariant DeliveredTo(cp) && old(delivered) <= delivered && out == if atEof then [] else old(out)
        invariant !atEof && !more ==> Look(pktbuf[cp..pktlen], pktsize) == Short
        invariant SameTaken(pktbuf[..pktlen], old(delivered), false, pktbuf[cp..pktlen], more)
        decreases pktlen - cp, more
      {
        more, cp := DeliverOne(cp);
      }
    }

    /** memmove the rest to the front, and give the buffer up if nothing is left. */
    method Compact(cp: nat)
      requires Shape() && pktbuf != null && cp <= pktlen
      modifies this`pktbuf, this`pktlen, pktbuf
      ensures Shape() && Buffered() == old(pktbuf[cp..pktlen])
      ensures pktbuf == null || pktbuf == old(pktbuf)
    {
      ghost var rest := pktbuf[cp..pktlen];
      var n := pktlen - cp;
      if cp != 0 {
        var i := 0;
        while i < n
          invariant i <= n && pktbuf == old(pktbuf) && pktlen == old(pktlen)
          invariant pktbuf[..i] == rest[..i]
          invariant forall j :: cp + i <= j < pktlen ==> pktbuf[j] == rest[j - cp]
        {
          pktbuf[i] := pktbuf[cp + i];
          i := i + 1;
        }
        assert rest[..n] == rest;
      } else {
        assert pktbuf[..pktlen] == rest;
      }
      pktlen := n;
      if pktlen == 0 {
        pktbuf := null;
      }
    }

    /** input and callgetpkt: data that a read returned, of any length that fits, is buffered and parsed,
        and every whole record is delivered; end of file and errors end the transport. */
    method Input(read: Read)
      requires Receiving() && !atEof && (read.Got? ==> |read.data| <= bufsize - pktlen)
      modifies this`pktbuf, this`pktlen, this`bytesRecv, this`delivered, this`atEof, this`received, this`out, pktbuf
      ensures Receiving() && received == old(received) + (if read.Got? then read.data else [])
          && old(delivered) <= delivered
      ensures out == if atEof then [] else old(out)
      ensures read.Got? && read.data != [] ==>
              && delivered == old(delivered) + Taken(old(Buffered()) + read.data, pktsize)
              && (atEof <==> Halts(old(Buffered()) + read.data, pktsize)) && (atEof ==> Malformed())
      ensures read.Failed? || read == Got([]) ==> atEof && delivered == old(delivered)
      ensures read.Again? ==> !atEof && delivered == old(delivered) && Buffered() == old(Buffered())
    {
      if pktbuf == null {
        pktbuf := new byte[bufsize];
        assert pktbuf[..0] == [];
      }
      if read.Got? && read.data != [] {
        Absorb(read.data);
      } else if !read.Again? {
        Fail();
      }
    }

    method Absorb(data: bytes)
      requires Receiving() && pktbuf != null && !atEof && |data| <= bufsize - pktlen
      modifies this`pktbuf, this`pktlen, this`bytesRecv, this`delivered, this`atEof, this`received, this`out, pktbuf
      ensures Receiving() && received == old(received) + data && old(delivered) <= delivered
      ensures out == (if atEof then [] else old(out)) && (atEof ==> Malformed())
      ensures delivered == old(delivered) + Taken(old(Buffered()) + data, pktsize)
      ensures atEof <==> Halts(old(Buffered()) + data, pktsize)
    {
      ghost var was := Buffered();
      Append(data);
      bytesRecv := bytesRecv + |data|;
      received := received + data;
      ghost var all := was + data;
      assert pktbuf[..pktlen] == all && pktbuf[0..pktlen] == all;
      assert received == Frames(delivered, pktsize) + all by { Assoc(Frames(delivered, pktsize), was, data); }
      var cp := Deliver();
      if !atEof {
        Compact(cp);
      }
    }

    /** The read itself. */
    method Append(data: bytes)
      requires pktbuf != null && pktlen + |data| <= pktbuf.Length
      modifies this`pktlen, pktbuf
      ensures pktlen == old(pktlen) + |data| && pktbuf[..pktlen] == old(pktbuf[..pktlen]) + data
    {
      var i := 0;
      while i < |data|
        invariant i <= |data| && pktlen == old(pktlen)
        invariant pktbuf[..pktlen + i] == old(pktbuf[..pktlen]) + data[..i]
      {
        pktbuf[pktlen + i] := data[i];
        i := i + 1;
      }
      pktlen := pktlen + |data|;
    }

    /** If the stream read so far is part of what a peer sent, the transport has not failed on it,
        it has delivered a prefix of the peer's records, all of them once all bytes are in, and its
        buffer has room, so reading can go on. */
    lemma ReceivesWhatWasSent(ms: seq<bytes>)
      requires Receiving() && !atEof && Sendable(ms, pktsize) && received <= Frames(ms, pktsize)
      ensures delivered <= ms && Frames(delivered, pktsize) + Buffered() == received
      ensures received == Frames(ms, pktsize) ==> delivered == ms && Buffered() == []
      ensures pktlen < bufsize
    {
      var k := |received|;
      assert received == Frames(ms, pktsize)[..k];
      PrefixDelivers(ms, k, delivered, Buffered(), pktsize);
      if received == Frames(ms, pktsize) {
        AllDelivered(ms, delivered, Buffered(), pktsize);
      }
    }
  }

  lemma SendCounts(sent: seq<bytes>, m: bytes, pktsize: nat)
    requires pktsize < LAST && Sendable(sent, pktsize) && |m| <= pktsize
    ensures Sendable(sent + [m], pktsize) && Frames(sent + [m], pktsize) == Frames(sent, pktsize) + Frame(m)
  {
    FramesOne(m, pktsize);
    FramesAppend(sent, [m], pktsize);
  }

  lemma Pieces(w: bytes, q: bytes, k: nat, n: nat)
    requires k + n <= |q|
    ensures w + q[..k] + q[k..][..n] == w + q[..k + n] && q[k..][n..] == q[k + n..]
  {
    Assoc(w, q[..k], q[k..][..n]);
    assert q[..k] + q[k..][..n] == q[..k + n];
  }

  lemma SliceSlice<T>(s: seq<T>, a: nat, b: nat, i: nat, j: nat)
    requires a <= b <= |s| && i <= j <= b - a
    ensures s[a..b][i..j] == s[a + i..a + j]
  {
    forall k | 0 <= k < j - i ensures s[a..b][i..j][k] == s[a + i..a + j][k] {
      assert s[a..b][i + k] == s[a + i + k];
    }
  }

  /** After whole records the stream has something that is neither a record nor part of one. */
  ghost predicate Stuck(s: bytes, pkts: seq<bytes>, rest: bytes, pktsize: nat)
    requires pktsize < LAST
  {
    Parses(s, pkts, rest, pktsize) && (Look(rest, pktsize).Bad? || Look(rest, pktsize).Break?)
  }

  /** What a peer sent is never malformed, in whole or in part. */
  lemma SentIsWellFormed(ms: seq<bytes>, k: nat, pkts: seq<bytes>, rest: bytes, pktsize: nat)
    requires pktsize < LAST && Sendable(ms, pktsize) && k <= |Frames(ms, pktsize)|
    ensures !Stuck(Frames(ms, pktsize)[..k], pkts, rest, pktsize)
  {
    if Parses(Frames(ms, pktsize)[..k], pkts, rest, pktsize) {
      PrefixDelivers(ms, k, pkts, rest, pktsize);
    }
  }

  /** Taking a whole record off the front of what is left. */
  lemma Advance(s: bytes, pkts: seq<bytes>, rest: bytes, pktsize: nat)
    requires pktsize < LAST && Sendable(pkts, pktsize) && s == Frames(pkts, pktsize) + rest
        && Look(rest, pktsize).Record?
    ensures var n := Look(rest, pktsize).len; var m := rest[4..4 + n];
            Sendable(pkts + [m], pktsize) && s == Frames(pkts + [m], pktsize) + rest[4 + n..]
  {
    var n := Look(rest, pktsize).len;
    var m := rest[4..4 + n];
    LookIsFrame(rest, pktsize);
    FramesOne(m, pktsize);
    FramesAppend(pkts, [m], pktsize);
    assert Frames(pkts, pktsize) + (Frame(m) + rest[4 + n..]) == (Frames(pkts, pktsize) + Frame(m)) + rest[4 + n..];
  }
}
