/**
 The reply cache of a resumable RPC server (asrv_replay and asrv_resumable).

 The pure part says what each operation does to the table of calls and the reply queue;
 class AsrvResumable does it as the program does, with eviction loops over the queue.
 Which calls an eviction loop removes is stated without reference to queue positions,
 which is correct because the offsets of the queue never decrease from front to back.
 */
module ResumableServer {
  import opened Common

  /** What the server compares to recognise a call on a connected transport. */
  datatype Key = Key(xid: nat, proc: nat)

  /** A call in the table: in progress, or answered with the bytes to resend. */
  datatype Svc = Svc(id: nat, res: Option<bytes>, offset: nat)

  /** The transport of the current connection, as the server sees it. */
  datatype Xprt = Xprt(up: bool, sent: nat, pktsize: nat, sndbufsz: int, acked: nat)

  datatype Server = Server(rtab: map<Key, Svc>, rq: seq<Key>, xi: Xprt)

  ghost predicate Ordered(s: Server)
    requires forall k :: k in s.rq ==> k in s.rtab
  {
    forall i, j :: 0 <= i < j < |s.rq| ==> s.rtab[s.rq[i]].offset <= s.rtab[s.rq[j]].offset
  }

  /** The queue holds the answered calls of the table, once each, by increasing offset. */
  ghost predicate Valid(s: Server) {
    && NoDup(s.rq)
    && (forall k :: k in s.rq <==> k in s.rtab && s.rtab[k].res.Some?)
    && Ordered(s)
    && (forall k :: k in s.rq ==> s.rtab[k].offset <= s.xi.sent)
  }

  // ----- transport

  const HEADER: nat := 4

  /** An oversized message makes the transport fail; otherwise its bytes are counted. */
  function Send(x: Xprt, b: bytes): Xprt {
    if |b| > x.pktsize then x.(up := false) else x.(sent := x.sent + |b| + HEADER)
  }

  function SendIfUp(x: Xprt, b: bytes): Xprt {
    if x.up then Send(x, b) else x
  }

  /** Bytes the peer has surely received. */
  function KnownReceived(x: Xprt): nat {
    Max(if 0 < x.sndbufsz && x.sent > x.sndbufsz then x.sent - x.sndbufsz else 0, x.acked)
  }

  // ----- operations on the cache

  function Forget(s: Server, gone: set<Key>): Server {
    s.(rtab := s.rtab - gone, rq := Without(s.rq, gone))
  }

  /** Answered calls not replayed since the server resumed. */
  function Leftovers(s: Server): set<Key>
    requires forall k :: k in s.rq ==> k in s.rtab
  {
    set k | k in s.rq && s.rtab[k].offset == 0
  }

  /** Calls whose reply the peer has received; none while leftovers remain. */
  function Acknowledged(s: Server): set<Key>
    requires forall k :: k in s.rq ==> k in s.rtab
  {
    if Leftovers(s) != {} then {} else set k | k in s.rq && s.rtab[k].offset < KnownReceived(s.xi)
  }

  function Enter(s: Server, key: Key, id: nat): Server {
    s.(rtab := s.rtab[key := Svc(id, None, 0)])
  }

  /** A call that is not in the table arrives. */
  function Fresh(s: Server, key: Key, id: nat): Server
    requires Valid(s) && key !in s.rtab
  {
    var t := Enter(s, key, id);
    Forget(t, Leftovers(t))
  }

  /** A call of the table arrives again: resend its reply, if there is one. */
  function Replay(s: Server, key: Key): Server
    requires key in s.rtab
  {
    var svc := s.rtab[key];
    if svc.res.None? then s
    else
      var xi := Send(s.xi, svc.res.value);
      Server(s.rtab[key := svc.(offset := xi.sent)], Without(s.rq, {key}) + [key], xi)
  }

  /** The service answers a call in progress: send, and put the reply in the cache. */
  function Answer(s: Server, key: Key, b: bytes): Server
    requires key in s.rtab
  {
    var xi := SendIfUp(s.xi, b);
    Server(s.rtab[key := s.rtab[key].(res := Some(b), offset := xi.sent)], s.rq + [key], xi)
  }

  /** Answer, then forget what the peer has received. */
  function Reply(s: Server, key: Key, b: bytes): Server
    requires Valid(s) && key in s.rtab && s.rtab[key].res.None?
  {
    var t := Answer(s, key, b);
    Forget(t, Acknowledged(t))
  }

  /** The service drops a call without an answer worth caching (ignore and reject). */
  function Drop(s: Server, key: Key): Server {
    s.(rtab := s.rtab - {key})
  }

  /** Continue on a new connection; offsets on the old one mean nothing any more. */
  function Resume(s: Server, xi: Xprt): Server {
    Server(map k | k in s.rtab :: s.rtab[k].(offset := 0), s.rq, xi)
  }

  // ----- every operation keeps the queue valid

  lemma ForgetKeeps(s: Server, gone: set<Key>)
    requires Valid(s) && (forall k :: k in gone && k in s.rtab ==> k in s.rq)
    ensures Valid(Forget(s, gone))
  {
    WithoutNoDup(s.rq, gone);
    WithoutKeepsOrder(s.rq, gone, k => if k in s.rtab then s.rtab[k].offset else 0);
  }

  lemma EnterKeeps(s: Server, key: Key, id: nat)
    requires Valid(s) && key !in s.rtab
    ensures Valid(Enter(s, key, id)) && Leftovers(Enter(s, key, id)) == Leftovers(s)
  {
    assert key !in s.rq;
  }

  lemma FreshKeeps(s: Server, key: Key, id: nat)
    requires Valid(s) && key !in s.rtab
    ensures Valid(Fresh(s, key, id))
    ensures Fresh(s, key, id).rtab == s.rtab[key := Svc(id, None, 0)] - Leftovers(s)
  {
    var t := Enter(s, key, id);
    EnterKeeps(s, key, id);
    ForgetKeeps(t, Leftovers(t));
  }

  lemma ReplayKeeps(s: Server, key: Key)
    requires Valid(s) && key in s.rtab
    ensures Valid(Replay(s, key))
  {
    if s.rtab[key].res.Some? {
      var u := s.(rtab := s.rtab - {key}, rq := Without(s.rq, {key}));
      assert Forget(s, {key}) == u;
      ForgetKeeps(s, {key});
      var t := Replay(s, key);
      forall i, j | 0 <= i < j < |t.rq| ensures t.rtab[t.rq[i]].offset <= t.rtab[t.rq[j]].offset {
        assert t.rq[i] == u.rq[i] && u.rq[i] in u.rq;
        assert j < |u.rq| ==> t.rq[j] == u.rq[j] && u.rq[j] in u.rq;
      }
    }
  }

  lemma AnswerKeeps(s: Server, key: Key, b: bytes)
    requires Valid(s) && key in s.rtab && s.rtab[key].res.None?
    ensures Valid(Answer(s, key, b))
  {
    var t := Answer(s, key, b);
    forall i, j | 0 <= i < j < |t.rq| ensures t.rtab[t.rq[i]].offset <= t.rtab[t.rq[j]].offset {
      assert t.rq[i] == s.rq[i] && s.rq[i] in s.rq;
      assert j < |s.rq| ==> t.rq[j] == s.rq[j] && s.rq[j] in s.rq;
    }
  }

  lemma ReplyKeeps(s: Server, key: Key, b: bytes)
    requires Valid(s) && key in s.rtab && s.rtab[key].res.None?
    ensures Valid(Reply(s, key, b))
  {
    AnswerKeeps(s, key, b);
    var t := Answer(s, key, b);
    ForgetKeeps(t, Acknowledged(t));
  }

  lemma DropKeeps(s: Server, key: Key)
    requires Valid(s) && key in s.rtab && s.rtab[key].res.None?
    ensures Valid(Drop(s, key))
  {
  }

  lemma ResumeKeeps(s: Server, xi: Xprt)
    requires Valid(s)
    ensures Valid(Resume(s, xi))
    ensures Leftovers(Resume(s, xi)) == Elems(s.rq)
  {
  }

  // ----- what the operations do, in terms of the stream

  /** Where the stream ends once a reply has been sent, if the transport takes it. */
  function EndAfter(x: Xprt, b: bytes): nat { if x.up && |b| <= x.pktsize then x.sent + 4 + |b| else x.sent }

  /** A reply that ended at this offset has surely been received: the client acknowledged more, or what was sent
      since does not fit in the send buffer with it. */
  predicate Arrived(x: Xprt, end: nat, offset: nat) {
    offset < x.acked || (0 < x.sndbufsz && offset + x.sndbufsz < end)
  }

  /** Every answered call has been answered on this connection. */
  ghost predicate Current(s: Server, end: nat) {
    end > 0 && forall k :: k in s.rq ==> k in s.rtab && s.rtab[k].offset > 0
  }

  /** From s to t a reply to the call was sent: it is cached with the place where it ends, and the answered calls
      that are gone are those whose reply has surely been received; none while an answer from an earlier
      connection is cached. */
  ghost predicate Replied(s: Server, t: Server, key: Key, b: bytes) {
    var end := EndAfter(s.xi, b);
    && t.xi.sent == end && t.xi.acked == s.xi.acked && t.xi.sndbufsz == s.xi.sndbufsz
    && key in s.rtab && t.rtab.Keys <= s.rtab.Keys
    && (forall k :: k in s.rtab && k !in t.rtab <==>
          && Current(s, end)
          && ((k in s.rq && k in s.rtab && Arrived(s.xi, end, s.rtab[k].offset)) || (k == key && end < s.xi.acked)))
    && (forall k :: k in t.rtab ==> t.rtab[k] == if k == key then Svc(s.rtab[key].id, Some(b), end) else s.rtab[k])
    && t.rq == Without(s.rq + [key], s.rtab.Keys - t.rtab.Keys)
  }

  lemma AnswerCurrent(s: Server, key: Key, b: bytes)
    requires Valid(s) && key in s.rtab && s.rtab[key].res.None?
    ensures Valid(Answer(s, key, b)) && (Leftovers(Answer(s, key, b)) == {} <==> Current(s, EndAfter(s.xi, b)))
  {
    var t := Answer(s, key, b);
    AnswerKeeps(s, key, b);
    assert key in t.rq && forall k :: k in s.rq ==> k in t.rq;
    if Leftovers(t) == {} {
      assert key !in Leftovers(t);
      forall k | k in s.rq ensures s.rtab[k].offset > 0 { assert k !in Leftovers(t); }
    }
  }

  /** What a reply evicts. */
  lemma ReplyExact(s: Server, key: Key, b: bytes)
    requires Valid(s) && key in s.rtab && s.rtab[key].res.None?
    ensures Replied(s, Reply(s, key, b), key, b)
  {
    var t := Answer(s, key, b);
    AnswerCurrent(s, key, b);
    assert s.rtab.Keys - Reply(s, key, b).rtab.Keys == Acknowledged(t);
  }

  // ----- the eviction loops

  /** The state after the first n queue entries have been deleted. */
  ghost function DeletedFront(s: Server, n: nat): Server
    requires n <= |s.rq|
  {
    Server(s.rtab - Elems(s.rq[..n]), s.rq[n..], s.xi)
  }

  /** u is s without its first n queue entries, so the next one is at the front. */
  ghost predicate FrontGone(s: Server, u: Server, n: nat) {
    && n <= |s.rq| && u == DeletedFront(s, n) && (u.rq == [] <==> n == |s.rq|)
    && (n < |s.rq| ==>
            && u.rq[0] == s.rq[n] && u.rq[0] in u.rtab && u.rq[0] in s.rtab
            && u.rtab[u.rq[0]] == s.rtab[u.rq[0]])
  }

  lemma DeletedNone(s: Server)
    requires Valid(s)
    ensures FrontGone(s, s, 0)
  {
    assert DeletedFront(s, 0) == s;
  }

  /** Deleting one more entry. */
  lemma DeletedOne(s: Server, u: Server, n: nat)
    requires Valid(s) && FrontGone(s, u, n) && n < |s.rq|
    ensures FrontGone(s, Server(u.rtab - {u.rq[0]}, u.rq[1..], u.xi), n + 1)
  {
    assert s.rq[..n + 1] == s.rq[..n] + [s.rq[n]];
    assert Elems(s.rq[..n + 1]) == Elems(s.rq[..n]) + {s.rq[n]};
    var v := DeletedFront(s, n + 1);
    assert v.rtab == u.rtab - {u.rq[0]};
    if n + 1 < |s.rq| {
      assert s.rq[n + 1] in s.rq && s.rq[n + 1] !in s.rq[..n + 1];
    }
  }

  /** Forgetting a set of calls that makes up the front of the queue. */
  lemma ForgetFront(s: Server, gone: set<Key>, n: nat)
    requires NoDup(s.rq) && n <= |s.rq| && gone <= Elems(s.rq)
    requires forall i :: 0 <= i < |s.rq| ==> (s.rq[i] in gone <==> i < n)
    ensures Forget(s, gone) == DeletedFront(s, n)
  {
    WithoutPrefix(s.rq, gone, n);
    forall k ensures k in gone <==> k in s.rq[..n] {
      if k in gone {
        var i :| 0 <= i < |s.rq| && s.rq[i] == k;
        assert s.rq[..n][i] == k;
      }
      if k in s.rq[..n] {
        var i :| 0 <= i < n && s.rq[..n][i] == k;
        assert s.rq[i] == k;
      }
    }
    assert gone == Elems(s.rq[..n]);
  }

  /** The i-th queued call is a leftover of an earlier connection. */
  ghost predicate LeftoverAt(s: Server, i: nat) {
    i < |s.rq| && s.rq[i] in s.rtab && s.rtab[s.rq[i]].offset == 0
  }

  /** The front of a queue up to its first nonzero offset is exactly the leftovers. */
  lemma FrontIsLeftovers(s: Server, n: nat)
    requires Valid(s) && n <= |s.rq|
    requires forall i: nat :: i < n ==> LeftoverAt(s, i)
    requires !LeftoverAt(s, n)
    ensures Forget(s, Leftovers(s)) == DeletedFront(s, n)
  {
    forall i: nat | i < |s.rq| ensures s.rq[i] in Leftovers(s) <==> i < n {
      assert s.rq[i] in s.rq && (n < |s.rq| ==> s.rq[n] in s.rq);
      assert i < n ==> LeftoverAt(s, i);
    }
    ForgetFront(s, Leftovers(s), n);
  }

  /** A leftover anywhere means a leftover at the front. */
  lemma LeftoverInFront(s: Server)
    requires Valid(s) && Leftovers(s) != {}
    ensures s.rq != [] && s.rtab[s.rq[0]].offset == 0
  {
    var k :| k in Leftovers(s);
    var z :| 0 <= z < |s.rq| && s.rq[z] == k;
    assert s.rtab[s.rq[0]].offset <= s.rtab[s.rq[z]].offset;
  }

  /** The reply of the i-th queued call ends before the given place in the stream. */
  ghost predicate ReceivedAt(s: Server, i: nat, received: nat) {
    i < |s.rq| && s.rq[i] in s.rtab && 0 < s.rtab[s.rq[i]].offset < received
  }

  /** The front up to the first entry that is a leftover or not yet received is exactly what may go. */
  lemma FrontIsAcknowledged(s: Server, n: nat)
    requires Valid(s) && n <= |s.rq|
    requires forall i: nat :: i < n ==> ReceivedAt(s, i, KnownReceived(s.xi))
    requires !ReceivedAt(s, n, KnownReceived(s.xi))
    ensures Forget(s, Acknowledged(s)) == DeletedFront(s, n)
  {
    if Leftovers(s) != {} {
      LeftoverInFront(s);
      assert !ReceivedAt(s, 0, KnownReceived(s.xi));
    } else {
      forall i: nat | i < |s.rq| ensures s.rq[i] in Acknowledged(s) <==> i < n {
        assert s.rq[i] in s.rq && s.rq[i] !in Leftovers(s);
        assert n < |s.rq| ==> s.rq[n] in s.rq && s.rq[n] !in Leftovers(s);
        assert i < n ==> ReceivedAt(s, i, KnownReceived(s.xi));
      }
    }
    ForgetFront(s, Acknowledged(s), n);
  }

  /** The table and queue as the program keeps them. */
  class AsrvResumable {
    var rtab: map<Key, Svc>
    var rq: seq<Key>
    var xi: Xprt

    ghost function State(): Server
      reads this
    {
      Server(rtab, rq, xi)
    }

    constructor (x: Xprt)
      ensures State() == Server(map[], [], x) && Valid(State())
    {
      rtab, rq, xi := map[], [], x;
    }

    /** asrv_replay::delsbp on the first entry of the queue, after n others. */
    method DelFirst(ghost t: Server, ghost n: nat)
      requires Valid(t) && FrontGone(t, State(), n) && n < |t.rq|
      modifies this
      ensures FrontGone(t, State(), n + 1)
    {
      DeletedOne(t, State(), n);
      rtab := rtab - {rq[0]};
      rq := rq[1..];
    }

    /** Entries are deleted from the front as long as they are leftovers. */
    method DeleteLeftovers() returns (ghost n: nat)
      requires Valid(State())
      modifies this
      ensures n <= |old(rq)| && State() == DeletedFront(old(State()), n)
      ensures forall i: nat :: i < n ==> LeftoverAt(old(State()), i)
      ensures !LeftoverAt(old(State()), n)
    {
      ghost var t := State();
      n := 0;
      DeletedNone(t);
      while rq != [] && rtab[rq[0]].offset == 0
        invariant FrontGone(t, State(), n)
        invariant forall i: nat :: i < n ==> LeftoverAt(t, i)
        decreases |t.rq| - n
      {
        assert LeftoverAt(t, n);
        DelFirst(t, n);
        n := n + 1;
      }
    }

    /** The loop run for a fresh call: it removes exactly the leftovers of the last connection. */
    method EvictLeftovers()
      requires Valid(State())
      modifies this
      ensures State() == Forget(old(State()), Leftovers(old(State())))
    {
      ghost var n := DeleteLeftovers();
      FrontIsLeftovers(old(State()), n);
    }

    /** The end of the stream that the client is known to have received. */
    method Received() returns (received: nat)
      ensures received == KnownReceived(xi)
    {
      received := if xi.sndbufsz > 0 then (if xi.sent > xi.sndbufsz then xi.sent - xi.sndbufsz else 0) else 0;
      received := Max(received, xi.acked);
    }

    /** Entries are deleted from the front as long as their reply was received. */
    method DeleteReceived(received: nat) returns (ghost n: nat)
      requires Valid(State())
      modifies this
      ensures n <= |old(rq)| && State() == DeletedFront(old(State()), n)
      ensures forall i: nat :: i < n ==> ReceivedAt(old(State()), i, received)
      ensures !ReceivedAt(old(State()), n, received)
    {
      ghost var t := State();
      n := 0;
      DeletedNone(t);
      while rq != [] && rtab[rq[0]].offset != 0 && rtab[rq[0]].offset < received
        invariant FrontGone(t, State(), n)
        invariant forall i: nat :: i < n ==> ReceivedAt(t, i, received)
        decreases |t.rq| - n
      {
        assert ReceivedAt(t, n, received);
        DelFirst(t, n);
        n := n + 1;
      }
    }

    /** The loop run after a reply: it removes exactly the calls whose reply has been received. */
    method EvictAcknowledged()
      requires Valid(State())
      modifies this
      ensures State() == Forget(old(State()), Acknowledged(old(State())))
    {
      var received := Received();
      ghost var n := DeleteReceived(received);
      FrontIsAcknowledged(old(State()), n);
    }

    /** asrv_resumable::isreplay: true if the call is in the table already; resent is the reply it causes. */
    method IsReplay(key: Key, id: nat) returns (replay: bool, resent: Option<bytes>)
      requires Valid(State())
      modifies this
      ensures Valid(State())
      ensures replay == (key in old(rtab))
      ensures State() == if replay then Replay(old(State()), key) else Fresh(old(State()), key, id)
      ensures resent == if replay then old(rtab)[key].res else None
      ensures resent.Some? ==>
              && xi.sent == old(xi.sent) + (if |resent.value| <= xi.pktsize then 4 + |resent.value| else 0)
              && rtab == old(rtab)[key := Svc(old(rtab)[key].id, resent, xi.sent)]
              && rq == Without(old(rq), {key}) + [key]
      ensures replay && resent.None? ==> State() == old(State())
      ensures !replay ==>
              && xi == old(xi)
              && (forall k :: k in rtab <==>
                    k == key || (k in old(rtab) && !(k in old(rq) && old(rtab)[k].offset == 0)))
              && (forall k :: k in rtab ==> rtab[k] == if k == key then Svc(id, None, 0) else old(rtab)[k])
    {
      if key !in rtab {
        FreshKeeps(State(), key, id);
        EnterKeeps(State(), key, id);
        rtab := rtab[key := Svc(id, None, 0)];
        EvictLeftovers();
        return false, None;
      }
      ReplayKeeps(State(), key);
      var svc := rtab[key];
      if svc.res.Some? {
        xi := Send(xi, svc.res.value);
        rtab := rtab[key := svc.(offset := xi.sent)];
        rq := Without(rq, {key}) + [key];
      }
      return true, svc.res;
    }

    /** asrv_resumable::sendreply with a marshalled reply. */
    method SendReply(key: Key, b: bytes)
      requires Valid(State()) && key in rtab && rtab[key].res.None?
      modifies this
      ensures Valid(State())
      ensures State() == Reply(old(State()), key, b) && Replied(old(State()), State(), key, b)
    {
      AnswerKeeps(State(), key, b);
      ReplyKeeps(State(), key, b);
      ReplyExact(State(), key, b);
      if xi.up {
        xi := Send(xi, b);
      }
      rtab := rtab[key := rtab[key].(res := Some(b), offset := xi.sent)];
      rq := rq + [key];
      EvictAcknowledged();
    }

    /** asrv_resumable::sendreply without a reply. */
    method SendNothing(key: Key)
      requires Valid(State()) && key in rtab && rtab[key].res.None?
      modifies this
      ensures Valid(State()) && State() == Drop(old(State()), key)
      ensures rtab == old(rtab) - {key} && rq == old(rq) && xi == old(xi)
    {
      rtab := rtab - {key};
    }

    /** asrv_resumable::resume on a live transport. */
    method ResumeOn(x: Xprt)
      requires Valid(State())
      modifies this
      ensures Valid(State()) && State() == Resume(old(State()), x)
      ensures xi == x && rq == old(rq) && rtab.Keys == old(rtab).Keys
      ensures forall k :: k in rtab ==> rtab[k] == Svc(old(rtab)[k].id, old(rtab)[k].res, 0)
    {
      ResumeKeeps(State(), x);
      xi := x;
      ghost var before := rtab;
      var todo := rtab.Keys;
      while todo != {}
        invariant todo <= rtab.Keys == before.Keys && rq == old(rq) && xi == x
        invariant forall k :: k in before ==>
          rtab[k] == if k in todo then before[k] else before[k].(offset := 0)
        decreases |todo|
      {
        var k :| k in todo;
        rtab := rtab[k := rtab[k].(offset := 0)];
        todo := todo - {k};
      }
      assert rtab == Resume(old(State()), x).rtab;
    }
  }
}
