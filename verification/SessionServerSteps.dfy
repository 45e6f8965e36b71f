/** Every benign step of the server keeps the session invariant. */
module SessionServerSteps {
  import opened Common
  import opened Session
  import opened SessionInv
  import opened SessionFront
  import RS = ResumableServer
  import Lane = SessionLanes

  // ----- steps of the server

  /** A step that changes the server's cache and transport, and reads nothing. */
  ghost predicate Idles(s: Sys, t: Sys) {
    && s.sc < |s.conns| && s.cc < |s.conns| && |t.conns| == |s.conns|
    && t == s.(srv := t.srv, conns := t.conns, computed := t.computed)
    && (forall k :: 0 <= k < |s.conns| ==>
            && t.conns[k].calls == s.conns[k].calls
            && t.conns[k].joined == s.conns[k].joined)
    && (t.srv.xi.up ==> s.srv.xi.up) && KnownIds(t.srv.rtab) == KnownIds(s.srv.rtab)
    && (Abs(t).live ==> Abs(s).live && LeftoverIds(t.srv.rtab) <= LeftoverIds(s.srv.rtab))
  }

  lemma IdleLanes(s: Sys, t: Sys)
    requires Idles(s, t) && Lane.Inv(Abs(s)) && Increasing(s.conns[s.sc].calls)
    requires FrontOf(t) <= FrontOf(s) && Promised(s.conns, s.cc, Hears(s)) <= Promised(t.conns, t.cc, Hears(t))
    ensures Lane.Inv(Abs(t))
  {
    var a, b := Abs(s), Abs(t);
    FrontOfPrefix(s);
    PrefixElems(FrontOf(t), FrontOf(s));
    LeftoverKnown(t.srv.rtab);
    assert b.lanes == a.lanes[s.sc := Elems(FrontOf(t))];
    assert b.joined == a.joined;
    Lane.ServedKeeps(a, b);
  }

  lemma PromisedGrows(conns: seq<Conn>, cc: nat, hears: nat, hears': nat)
    requires hears <= hears'
    ensures Promised(conns, cc, hears) <= Promised(conns, cc, hears')
  {
    forall x | x in Promised(conns, cc, hears) ensures x in Promised(conns, cc, hears') {
      var k: nat :| k < |conns| && Awaits(cc, hears, k) && x in PromisedOn(conns[k]);
      assert Awaits(cc, hears', k);
    }
  }

  lemma ServerXprtLanes(s: Sys, x: RS.Xprt)
    requires s.sc < |s.conns| && s.cc < |s.conns| && Lane.Inv(Abs(s)) && Increasing(s.conns[s.sc].calls)
    requires x.sent == s.srv.xi.sent && x.pktsize == s.srv.xi.pktsize && (x.up ==> s.srv.xi.up)
    ensures Lane.Inv(Abs(s.(srv := s.srv.(xi := x))))
  {
    var t := s.(srv := s.srv.(xi := x));
    FrontShrinks(s.issued, s.srv.rtab, s.srv.rtab, x.pktsize, s.srv.xi.up, x.up, s.conns[s.sc].calls);
    PromisedGrows(s.conns, s.cc, Hears(s), Hears(t));
    IdleLanes(s, t);
  }

  lemma ServerXprtKeeps(s: Sys, x: RS.Xprt)
    requires Inv(s) && x.sent == s.srv.xi.sent && x.pktsize == s.srv.xi.pktsize && (x.up ==> s.srv.xi.up)
    requires x.acked <= s.conns[s.sc].processed
    ensures Inv(s.(srv := s.srv.(xi := x)))
  {
    var t := s.(srv := s.srv.(xi := x));
    DistinctIfFewer(s, t);
    assert CallsOk(|s.issued|, s.conns[s.sc].calls);
    ServerXprtLanes(s, x);
    forall k | k in t.srv.rtab ensures Covered(t.srv.xi, t.conns, t.sc, t.calls, t.srv.rtab[k]) {
      assert Covered(s.srv.xi, s.conns, s.sc, s.calls, s.srv.rtab[k]);
    }
  }

  function ResumedAt(s: Sys, k: nat, pktsize: nat, sndbufsz: int): Sys {
    s.(sc := k, srv := RS.Resume(s.srv, RS.Xprt(true, 0, pktsize, sndbufsz, 0)))
  }

  lemma ResumeSameIds(srv: RS.Server, x: RS.Xprt)
    ensures KnownIds(RS.Resume(srv, x).rtab) == KnownIds(srv.rtab)
    ensures LeftoverIds(RS.Resume(srv, x).rtab) <= KnownIds(srv.rtab)
  {
    var r := RS.Resume(srv, x).rtab;
    forall i ensures i in KnownIds(r) <==> i in KnownIds(srv.rtab) {
      if i in KnownIds(srv.rtab) {
        var k :| k in srv.rtab && srv.rtab[k].id == i;
        assert k in r && r[k].id == i;
      }
    }
  }

  lemma ServerResumeDistinct(s: Sys, k: nat, pktsize: nat, sndbufsz: int)
    requires Distinct(s) && s.sc < k
    ensures Distinct(ResumedAt(s, k, pktsize, sndbufsz))
  {
    var t := ResumedAt(s, k, pktsize, sndbufsz);
    ResumeSameIds(s.srv, t.srv.xi);
    forall i | Live(t, i) ensures Live(s, i) {
      if Unread(t.conns, t.sc, i) {
        var l :| t.sc <= l < |t.conns| && i in t.conns[l].calls;
        assert i in s.conns[l].calls;
      }
    }
    DistinctIfFewer(s, t);
  }

  lemma ServerResumeLanes(s: Sys, k: nat, pktsize: nat, sndbufsz: int)
    requires s.cc < |s.conns| && s.sc < k < |s.conns| && Lane.Inv(Abs(s)) && Increasing(s.conns[k].calls)
    ensures Lane.Inv(Abs(ResumedAt(s, k, pktsize, sndbufsz)))
  {
    var t := ResumedAt(s, k, pktsize, sndbufsz);
    ResumeSameIds(s.srv, t.srv.xi);
    PromisedGrows(s.conns, s.cc, Hears(s), Hears(t));
    var a := Lane.ServerResume(Abs(s), k, Abs(t).leftover, Abs(t).promised);
    Lane.ServerResumeKeeps(Abs(s), k, Abs(t).leftover, Abs(t).promised);
    FrontOfPrefix(t);
    PrefixElems(FrontOf(t), t.conns[k].calls);
    assert Abs(t).lanes == a.lanes[k := Elems(FrontOf(t))];
    Lane.ServedKeeps(a, Abs(t));
  }

  lemma ServerResumeTable(s: Sys, k: nat, pktsize: nat, sndbufsz: int)
    requires RS.Valid(s.srv) && TableOk(s.issued, s.computed, s.srv.rtab) && HistoryOk(s)
    ensures var t := ResumedAt(s, k, pktsize, sndbufsz);
            RS.Valid(t.srv) && TableOk(t.issued, t.computed, t.srv.rtab) && HistoryOk(t)
  {
    var t := ResumedAt(s, k, pktsize, sndbufsz);
    RS.ResumeKeeps(s.srv, t.srv.xi);
    forall x | x in t.srv.rtab ensures Keyed(t.issued, x, t.srv.rtab[x]) && CacheOk(t.computed, t.srv.rtab[x]) {
      assert Keyed(s.issued, x, s.srv.rtab[x]) && CacheOk(s.computed, s.srv.rtab[x]);
    }
    ResumeSameIds(s.srv, t.srv.xi);
  }

  lemma ServerResumeStream(s: Sys, k: nat, pktsize: nat, sndbufsz: int)
    requires s.sc < k < |s.conns| && ConnsOk(|s.issued|, s.computed, s.conns, s.sc)
    ensures var t := ResumedAt(s, k, pktsize, sndbufsz);
            StreamOk(t.srv, t.conns, t.sc, t.calls) && ConnsOk(|t.issued|, t.computed, t.conns, t.sc)
  {
    assert Total([]) == 0;
  }

  lemma ServerResumeKeeps(s: Sys, k: nat, pktsize: nat, sndbufsz: int)
    requires Inv(s) && s.sc < k < |s.conns|
    ensures Inv(ResumedAt(s, k, pktsize, sndbufsz))
  {
    ServerResumeDistinct(s, k, pktsize, sndbufsz);
    assert CallsOk(|s.issued|, s.conns[k].calls);
    ServerResumeLanes(s, k, pktsize, sndbufsz);
    ServerResumeTable(s, k, pktsize, sndbufsz);
    ServerResumeStream(s, k, pktsize, sndbufsz);
  }

  // ----- the server sends a message

  /** A message appended to the stream leaves earlier replies where they are. */
  lemma PushCovered(x: RS.Xprt, x': RS.Xprt, conns: seq<Conn>, sc: nat, calls: seq<nat>, m: Message, v: RS.Svc)
    requires sc < |conns| && x.up
    requires Covered(x, conns, sc, calls, v)
    ensures Covered(x', conns[sc := conns[sc].(replies := conns[sc].replies + [m])], sc, calls, v)
  {
    var c := conns[sc];
    var conns' := conns[sc := c.(replies := c.replies + [m])];
    assert forall l :: 0 <= l < |conns| ==> conns'[l].calls == conns[l].calls;
    if v.res.Some? && v.offset > 0 && v.offset > c.processed {
      var j: nat :| Carries(c.processed, c.replies, j, v.id, v.offset);
      EndAfterAppend(c.processed, c.replies, m);
      assert Carries(c.processed, c.replies + [m], j, v.id, v.offset);
    }
  }

  /** A message appended to the stream keeps every promise. */
  lemma PushPromised(s: Sys, m: Message)
    requires s.sc < |s.conns|
    ensures Promised(s.conns, s.cc, Hears(s)) <= Promised(Push(s, true, m), s.cc, Hears(s))
  {
    var c := s.conns[s.sc];
    var d := c.(replies := c.replies + [m]);
    forall i | i in PromisedOn(c) ensures i in PromisedOn(d) {
      var j: nat :| j < |c.replies| && c.replies[j].Answer? && Start(c.processed, c.replies, j) < c.vouched
          && c.replies[j].id == i;
      assert d.replies[j] == c.replies[j] && d.replies[..j] == c.replies[..j];
    }
    forall x | x in Promised(s.conns, s.cc, Hears(s)) ensures x in Promised(Push(s, true, m), s.cc, Hears(s)) {
      var k: nat :| k < |s.conns| && Awaits(s.cc, Hears(s), k) && x in PromisedOn(s.conns[k]);
      assert x in PromisedOn(Push(s, true, m)[k]);
    }
  }

  /** s after message m is appended to the server's stream and the server becomes srv. */
  function Pushed(s: Sys, srv: RS.Server, m: Message): Sys
    requires s.sc < |s.conns|
  {
    s.(srv := srv, conns := Push(s, true, m))
  }

  lemma PushDistinct(s: Sys, srv: RS.Server, m: Message)
    requires Distinct(s) && s.sc < |s.conns| && KnownIds(srv.rtab) == KnownIds(s.srv.rtab)
    requires m.Answer? ==> m.id in KnownIds(s.srv.rtab)
    ensures Distinct(Pushed(s, srv, m))
  {
    var t := Pushed(s, srv, m);
    forall i | Live(t, i) ensures Live(s, i) {
      if Unread(t.conns, t.sc, i) {
        var l :| t.sc <= l < |t.conns| && i in t.conns[l].calls;
        assert i in s.conns[l].calls;
      }
      if Underway(t.conns, t.cc, i) {
        var k, j :| t.cc <= k < |t.conns| && 0 <= j < |t.conns[k].replies| && IsAnswer(t.conns[k].replies[j], i);
        assert j < |s.conns[k].replies| ==> IsAnswer(s.conns[k].replies[j], i);
      }
    }
    DistinctIfFewer(s, t);
  }

  lemma PushLanes(s: Sys, srv: RS.Server, m: Message)
    requires s.sc < |s.conns| && Idles(s, Pushed(s, srv, m)) && Lane.Inv(Abs(s)) && Increasing(s.conns[s.sc].calls)
    requires FrontOf(Pushed(s, srv, m)) <= FrontOf(s)
    ensures Lane.Inv(Abs(Pushed(s, srv, m)))
  {
    var t := Pushed(s, srv, m);
    PushPromised(s, m);
    PromisedGrows(t.conns, t.cc, Hears(s), Hears(t));
    IdleLanes(s, t);
  }

  lemma OtherStream(s: Sys, b: bytes, t: Sys)
    requires s.sc < |s.conns| && s.srv.xi.up && |b| <= s.srv.xi.pktsize
    requires t == Pushed(s, s.srv.(xi := RS.Send(s.srv.xi, b)), Other(b))
    requires ConnsOk(|s.issued|, s.computed, s.conns, s.sc) && StreamOk(s.srv, s.conns, s.sc, s.calls)
    ensures ConnsOk(|t.issued|, t.computed, t.conns, t.sc) && StreamOk(t.srv, t.conns, t.sc, t.calls)
  {
    TotalAppend(s.conns[s.sc].replies, Other(b));
    forall k | k in t.srv.rtab ensures Covered(t.srv.xi, t.conns, t.sc, t.calls, t.srv.rtab[k]) {
      PushCovered(s.srv.xi, t.srv.xi, s.conns, s.sc, s.calls, Other(b), s.srv.rtab[k]);
    }
  }

  lemma OtherKeeps(s: Sys, b: bytes)
    requires Inv(s) && s.srv.xi.up && |b| <= s.srv.xi.pktsize
    ensures Inv(Pushed(s, s.srv.(xi := RS.Send(s.srv.xi, b)), Other(b)))
  {
    OtherParts(s, b, Pushed(s, s.srv.(xi := RS.Send(s.srv.xi, b)), Other(b)));
  }

  lemma OtherParts(s: Sys, b: bytes, t: Sys)
    requires Inv(s) && s.srv.xi.up && |b| <= s.srv.xi.pktsize
    requires t == Pushed(s, s.srv.(xi := RS.Send(s.srv.xi, b)), Other(b))
    ensures Distinct(t) && Lane.Inv(Abs(t)) && HistoryOk(t) && RS.Valid(t.srv)
    ensures ConnsOk(|t.issued|, t.computed, t.conns, t.sc) && StreamOk(t.srv, t.conns, t.sc, t.calls)
  {
    PushDistinct(s, t.srv, Other(b));
    assert CallsOk(|s.issued|, s.conns[s.sc].calls);
    OtherLanes(s, b);
    OtherStream(s, b, t);
  }

  lemma OtherLanes(s: Sys, b: bytes)
    requires s.sc < |s.conns| && s.cc < |s.conns| && Lane.Inv(Abs(s)) && Increasing(s.conns[s.sc].calls)
    requires s.srv.xi.up && |b| <= s.srv.xi.pktsize
    ensures Lane.Inv(Abs(Pushed(s, s.srv.(xi := RS.Send(s.srv.xi, b)), Other(b))))
  {
    var srv := s.srv.(xi := RS.Send(s.srv.xi, b));
    assert FrontOf(Pushed(s, srv, Other(b))) == FrontOf(s);
    PushLanes(s, srv, Other(b));
  }

  // ----- a reply is sent and its offset recorded

  /** srv is s.srv after reply b to the call under key has been handed to the transport. */
  ghost predicate Records(s: Sys, key: RS.Key, b: bytes, srv: RS.Server, taken: bool) {
    && key in s.srv.rtab
    && var v := s.srv.rtab[key];
    && (v.res.Some? ==> v.res.value == b)
    && srv.rtab == s.srv.rtab[key := v.(res := Some(b), offset := srv.xi.sent)]
    && RS.Valid(srv) && srv.xi.acked == s.srv.xi.acked && srv.xi.pktsize == s.srv.xi.pktsize
        && (srv.xi.up ==> s.srv.xi.up)
    && if taken then s.srv.xi.up && srv.xi.sent == s.srv.xi.sent + |b| + RS.HEADER
       else !srv.xi.up && srv.xi.sent == s.srv.xi.sent
  }

  function Recorded(s: Sys, key: RS.Key, b: bytes, srv: RS.Server, taken: bool): Sys
    requires s.sc < |s.conns| && key in s.srv.rtab
  {
    var i := s.srv.rtab[key].id;
    s.(srv := srv, conns := Push(s, taken, Answer(i, b)),
       computed := if i in s.computed then s.computed else s.computed[i := b])
  }

  /** Recording a reply changes which call is a leftover, not which calls are known. */
  lemma RecordIds(s: Sys, key: RS.Key, b: bytes, srv: RS.Server, taken: bool)
    requires Records(s, key, b, srv, taken) && KeysOk(s.issued, s.srv.rtab)
    ensures KnownIds(srv.rtab) == KnownIds(s.srv.rtab)
    ensures srv.xi.sent > 0 ==> LeftoverIds(srv.rtab) <= LeftoverIds(s.srv.rtab) - {s.srv.rtab[key].id}
  {
    var r := s.srv.rtab;
    forall i ensures i in KnownIds(srv.rtab) <==> i in KnownIds(r) {
      if i in KnownIds(r) {
        var k :| k in r && r[k].id == i;
        assert srv.rtab[k].id == i;
      }
    }
    forall i | i in LeftoverIds(srv.rtab) && srv.xi.sent > 0 ensures i in LeftoverIds(r) && i != r[key].id {
      var k :| k in srv.rtab && srv.rtab[k].res.Some? && srv.rtab[k].offset == 0 && srv.rtab[k].id == i;
      assert k != key;
      assert Keyed(s.issued, k, r[k]) && Keyed(s.issued, key, r[key]);
    }
  }

  lemma RecordTable(s: Sys, key: RS.Key, b: bytes, srv: RS.Server, taken: bool)
    requires Records(s, key, b, srv, taken) && s.sc < |s.conns|
    requires TableOk(s.issued, s.computed, s.srv.rtab)
    ensures var t := Recorded(s, key, b, srv, taken); TableOk(t.issued, t.computed, t.srv.rtab)
  {
    var t := Recorded(s, key, b, srv, taken);
    assert Keyed(s.issued, key, s.srv.rtab[key]) && CacheOk(s.computed, s.srv.rtab[key]);
    forall k | k in t.srv.rtab ensures Keyed(t.issued, k, t.srv.rtab[k]) && CacheOk(t.computed, t.srv.rtab[k]) {
      assert Keyed(s.issued, k, s.srv.rtab[k]) && CacheOk(s.computed, s.srv.rtab[k]);
    }
  }

  lemma RecordConns(s: Sys, key: RS.Key, b: bytes, srv: RS.Server, taken: bool)
    requires Records(s, key, b, srv, taken) && s.sc < |s.conns|
    requires TableOk(s.issued, s.computed, s.srv.rtab) && ConnsOk(|s.issued|, s.computed, s.conns, s.sc)
    ensures var t := Recorded(s, key, b, srv, taken); ConnsOk(|t.issued|, t.computed, t.conns, t.sc)
  {
    var t := Recorded(s, key, b, srv, taken);
    assert Keyed(s.issued, key, s.srv.rtab[key]) && CacheOk(s.computed, s.srv.rtab[key]);
    assert t.computed[s.srv.rtab[key].id] == b;
    TotalAppend(s.conns[s.sc].replies, Answer(s.srv.rtab[key].id, b));
    forall k, j | 0 <= k < |t.conns| && 0 <= j < |t.conns[k].replies|
      ensures AnswerOk(|t.issued|, t.computed, t.conns[k].replies[j])
    {
      assert j < |s.conns[k].replies| ==> AnswerOk(|s.issued|, s.computed, s.conns[k].replies[j]);
    }
  }

  lemma RecordCovered(s: Sys, key: RS.Key, b: bytes, srv: RS.Server, taken: bool, k: RS.Key)
    requires Records(s, key, b, srv, taken) && s.sc < |s.conns| && k in s.srv.rtab
    requires StreamOk(s.srv, s.conns, s.sc, s.calls)
    ensures var t := Recorded(s, key, b, srv, taken); Covered(t.srv.xi, t.conns, t.sc, t.calls, t.srv.rtab[k])
  {
    var t := Recorded(s, key, b, srv, taken);
    var c := s.conns[s.sc];
    var m := Answer(s.srv.rtab[key].id, b);
    assert Covered(s.srv.xi, s.conns, s.sc, s.calls, s.srv.rtab[k]);
    if taken && k != key {
      PushCovered(s.srv.xi, t.srv.xi, s.conns, s.sc, s.calls, m, s.srv.rtab[k]);
    } else if taken {
      EndAfterAppend(c.processed, c.replies, m);
      assert Carries(c.processed, c.replies + [m], |c.replies|, m.id, t.srv.xi.sent);
    }
  }

  lemma RecordStream(s: Sys, key: RS.Key, b: bytes, srv: RS.Server, taken: bool)
    requires Records(s, key, b, srv, taken) && s.sc < |s.conns|
    requires StreamOk(s.srv, s.conns, s.sc, s.calls)
    ensures var t := Recorded(s, key, b, srv, taken); StreamOk(t.srv, t.conns, t.sc, t.calls)
  {
    var t := Recorded(s, key, b, srv, taken);
    TotalAppend(s.conns[s.sc].replies, Answer(s.srv.rtab[key].id, b));
    forall k | k in t.srv.rtab ensures Covered(t.srv.xi, t.conns, t.sc, t.calls, t.srv.rtab[k]) {
      RecordCovered(s, key, b, srv, taken, k);
    }
  }

  lemma LeftoverKnown(rtab: map<RS.Key, RS.Svc>)
    ensures LeftoverIds(rtab) <= KnownIds(rtab)
  {
  }

  lemma RecordDistinct(s: Sys, key: RS.Key, b: bytes, srv: RS.Server, taken: bool)
    requires Records(s, key, b, srv, taken) && s.sc < |s.conns| && KeysOk(s.issued, s.srv.rtab) && Distinct(s)
    ensures Distinct(Recorded(s, key, b, srv, taken))
  {
    var t := Recorded(s, key, b, srv, taken);
    RecordIds(s, key, b, srv, taken);
    if taken {
      var m := Answer(s.srv.rtab[key].id, b);
      PushDistinct(s, srv, m);
      DistinctIfFewer(Pushed(s, srv, m), t);
    } else {
      DistinctIfFewer(s, t);
    }
  }

  /** Another reply to send again can only be in the way. */
  lemma RecordFront(s: Sys, key: RS.Key, b: bytes, srv: RS.Server, taken: bool)
    requires Records(s, key, b, srv, taken) && s.sc < |s.conns|
    ensures FrontOf(Recorded(s, key, b, srv, taken)) <= FrontOf(s)
  {
    FrontShrinks(s.issued, s.srv.rtab, srv.rtab, s.srv.xi.pktsize, s.srv.xi.up, srv.xi.up, s.conns[s.sc].calls);
  }

  lemma RecordLanes(s: Sys, key: RS.Key, b: bytes, srv: RS.Server, taken: bool)
    requires Records(s, key, b, srv, taken) && s.sc < |s.conns| && s.cc < |s.conns|
    requires KeysOk(s.issued, s.srv.rtab) && Lane.Inv(Abs(s)) && Increasing(s.conns[s.sc].calls)
    ensures Lane.Inv(Abs(Recorded(s, key, b, srv, taken)))
  {
    var t := Recorded(s, key, b, srv, taken);
    RecordIds(s, key, b, srv, taken);
    RecordFront(s, key, b, srv, taken);
    if taken {
      PushPromised(s, Answer(s.srv.rtab[key].id, b));
    }
    PromisedGrows(t.conns, t.cc, Hears(s), Hears(t));
    IdleLanes(s, t);
  }

  lemma RecordKeeps(s: Sys, key: RS.Key, b: bytes, srv: RS.Server, taken: bool)
    requires Inv(s) && Records(s, key, b, srv, taken)
    ensures Inv(Recorded(s, key, b, srv, taken))
  {
    KnownExecuted(s);
    RecordTable(s, key, b, srv, taken);
    RecordConns(s, key, b, srv, taken);
    RecordStream(s, key, b, srv, taken);
    RecordDistinct(s, key, b, srv, taken);
    assert CallsOk(|s.issued|, s.conns[s.sc].calls);
    RecordLanes(s, key, b, srv, taken);
    RecordHistory(s, key, b, srv, taken);
  }

  lemma RecordHistory(s: Sys, key: RS.Key, b: bytes, srv: RS.Server, taken: bool)
    requires Records(s, key, b, srv, taken) && s.sc < |s.conns| && KeysOk(s.issued, s.srv.rtab)
    requires HistoryOk(s) && forall i :: i in KnownIds(s.srv.rtab) ==> i in s.executed
    ensures HistoryOk(Recorded(s, key, b, srv, taken))
  {
    RecordIds(s, key, b, srv, taken);
    assert s.srv.rtab[key].id in KnownIds(s.srv.rtab);
  }

  lemma KnownExecuted(s: Sys)
    requires s.sc < |s.conns| && s.cc < |s.conns| && Lane.Inv(Abs(s))
    ensures forall i :: i in KnownIds(s.srv.rtab) ==> i in s.executed
  {
    forall i | i in KnownIds(s.srv.rtab) ensures i in s.executed {
      assert i in Abs(s).known;
    }
  }

  // ----- the server reads a call

  function Popped(s: Sys): Sys
    requires s.sc < |s.conns| && s.conns[s.sc].calls != []
  {
    var c := s.conns[s.sc];
    s.(conns := s.conns[s.sc := c.(calls := c.calls[1..])])
  }

  lemma PopDistinct(s: Sys)
    requires Distinct(s) && s.sc < |s.conns| && s.conns[s.sc].calls != []
    ensures Distinct(Popped(s))
  {
    var t := Popped(s);
    forall i | Live(t, i) ensures Live(s, i) {
      if Unread(t.conns, t.sc, i) {
        var l :| t.sc <= l < |t.conns| && i in t.conns[l].calls;
        assert i in s.conns[l].calls;
      }
      if Underway(t.conns, t.cc, i) {
        var k, j :| t.cc <= k < |t.conns| && 0 <= j < |t.conns[k].replies| && IsAnswer(t.conns[k].replies[j], i);
        assert IsAnswer(s.conns[k].replies[j], i);
      }
    }
    DistinctIfFewer(s, t);
  }

  /** The first call of an increasing queue is its least, and is gone after the pop. */
  lemma FirstIsNext(q: seq<nat>)
    requires q != [] && Increasing(q)
    ensures Elems(q[1..]) == Elems(q) - {q[0]}
    ensures forall x :: x in q ==> q[0] <= x
  {
    assert forall x :: x in q[1..] ==> q[0] < x;
    assert q == [q[0]] + q[1..];
  }

  /** The next call is always within reach. */
  lemma NextInFront(s: Sys)
    requires s.sc < |s.conns| && s.cc < |s.conns| && s.conns[s.sc].calls != [] && Increasing(s.conns[s.sc].calls)
    ensures FrontOf(s) != [] && FrontOf(s)[0] == s.conns[s.sc].calls[0]
    ensures Lane.IsNext(Abs(s), s.conns[s.sc].calls[0])
    ensures Elems(FrontOf(s)[1..]) == Elems(FrontOf(s)) - {s.conns[s.sc].calls[0]}
  {
    FrontOfPrefix(s);
    FirstIsNext(FrontOf(s));
  }

  /** t is s after the server has read the next call. */
  ghost predicate Reads(s: Sys, t: Sys) {
    && s.sc < |s.conns| && s.cc < |s.conns| && |t.conns| == |s.conns| && s.conns[s.sc].calls != []
    && t == s.(srv := t.srv, conns := t.conns, executed := t.executed, undone := t.undone)
    && t.conns[s.sc].calls == s.conns[s.sc].calls[1..]
    && (forall k :: 0 <= k < |s.conns| ==> t.conns[k].joined == s.conns[k].joined)
    && (forall k :: 0 <= k < |s.conns| && k != s.sc ==> t.conns[k].calls == s.conns[k].calls)
    && FrontOf(s) == [s.conns[s.sc].calls[0]] + FrontOf(t)
  }

  lemma ReadsLanes(s: Sys, t: Sys)
    requires Reads(s, t) && Lane.Shape(Abs(s)) && Increasing(s.conns[s.sc].calls)
    ensures Abs(t).lanes == Lane.Read(Abs(s), s.conns[s.sc].calls[0]).lanes && Abs(t).joined == Abs(s).joined
    ensures Abs(t).cut == Abs(s).cut
  {
    var q := s.conns[s.sc].calls;
    NextInFront(s);
    assert FrontOf(s)[1..] == FrontOf(t);
    assert q == [q[0]] + q[1..];
    assert Abs(t).lanes == Lane.Read(Abs(s), q[0]).lanes;
  }

  /** Reading a call that is known: nothing is learnt or forgotten. */
  lemma KnownLanes(s: Sys, t: Sys)
    requires Reads(s, t) && Lane.Inv(Abs(s)) && Increasing(s.conns[s.sc].calls)
    requires t.executed == s.executed && t.undone == s.undone && s.conns[s.sc].calls[0] in KnownIds(s.srv.rtab)
    requires (t.srv.xi.up ==> s.srv.xi.up) && KnownIds(t.srv.rtab) == KnownIds(s.srv.rtab)
    requires Promised(s.conns, s.cc, Hears(s)) <= Promised(t.conns, t.cc, Hears(t))
    requires Abs(t).live ==>
            && Abs(s).live
            && LeftoverIds(t.srv.rtab) <= LeftoverIds(s.srv.rtab) - {s.conns[s.sc].calls[0]}
    ensures Lane.Inv(Abs(t))
  {
    ReadsLanes(s, t);
    LeftoverKnown(t.srv.rtab);
    Lane.ServedKeeps(Abs(s), Abs(t));
  }

  lemma PopConns(s: Sys)
    requires s.sc < |s.conns| && s.conns[s.sc].calls != []
    requires ConnsOk(|s.issued|, s.computed, s.conns, s.sc) && StreamOk(s.srv, s.conns, s.sc, s.calls)
    ensures var t := Popped(s);
            ConnsOk(|t.issued|, t.computed, t.conns, t.sc) && StreamOk(t.srv, t.conns, t.sc, t.calls)
  {
    var t := Popped(s);
    assert CallsOk(|s.issued|, s.conns[s.sc].calls);
    forall k | k in t.srv.rtab ensures Covered(t.srv.xi, t.conns, t.sc, t.calls, t.srv.rtab[k]) {
      assert Covered(s.srv.xi, s.conns, s.sc, s.calls, s.srv.rtab[k]);
    }
  }

  /** Reading a call that is in progress. */
  lemma SkipKeeps(s: Sys)
    requires Inv(s) && Typed(s) && s.conns[s.sc].calls != []
    requires s.conns[s.sc].calls[0] in KnownIds(s.srv.rtab) - LeftoverIds(s.srv.rtab)
    requires Resent(s.issued, s.srv.rtab, s.conns[s.sc].calls[0]).None?
    ensures Inv(Popped(s))
  {
    assert CallsOk(|s.issued|, s.conns[s.sc].calls);
    PopDistinct(s);
    PopConns(s);
    SkipLanes(s);
  }

  lemma SkipLanes(s: Sys)
    requires s.sc < |s.conns| && s.cc < |s.conns| && s.conns[s.sc].calls != [] && Increasing(s.conns[s.sc].calls)
    requires Lane.Inv(Abs(s)) && s.conns[s.sc].calls[0] in KnownIds(s.srv.rtab) - LeftoverIds(s.srv.rtab)
    requires Resent(s.issued, s.srv.rtab, s.conns[s.sc].calls[0]).None?
    ensures Lane.Inv(Abs(Popped(s)))
  {
    SamePromised(s.conns, Popped(s).conns, s.cc, Hears(s));
    KnownLanes(s, Popped(s));
  }

  /** The server's table lookup finds exactly the call itself. */
  lemma KeyFindsCall(s: Sys, i: nat)
    requires i < |s.issued| && Live(s, i) && Distinct(s) && KeysOk(s.issued, s.srv.rtab)
    ensures KeyOf(s, i) in s.srv.rtab ==> s.srv.rtab[KeyOf(s, i)].id == i
    ensures KeyOf(s, i) in s.srv.rtab <==> i in KnownIds(s.srv.rtab)
  {
    var r := s.srv.rtab;
    if KeyOf(s, i) in r {
      var o := r[KeyOf(s, i)].id;
      assert Keyed(s.issued, KeyOf(s, i), r[KeyOf(s, i)]);
      assert o in KnownIds(r) && Live(s, o);
    }
    if i in KnownIds(r) {
      var k :| k in r && r[k].id == i;
      assert Keyed(s.issued, k, r[k]);
    }
  }

  // ----- the server reads a call it does not recognise

  function Executed(s: Sys): Sys
    requires Typed(s) && s.conns[s.sc].calls != [] && KeyOf(s, s.conns[s.sc].calls[0]) !in s.srv.rtab
  {
    var i := s.conns[s.sc].calls[0];
    Popped(s).(srv := RS.Fresh(s.srv, KeyOf(s, i), i), executed := s.executed + [i], undone := s.undone - {i})
  }

  /** After a fresh call the server knows that call and everything but the leftovers. */
  lemma FreshIds(s: Sys)
    requires Typed(s) && s.conns[s.sc].calls != [] && KeyOf(s, s.conns[s.sc].calls[0]) !in s.srv.rtab
    requires KeysOk(s.issued, s.srv.rtab)
    ensures var i := s.conns[s.sc].calls[0]; var r := Executed(s).srv.rtab;
            && KnownIds(r) == KnownIds(s.srv.rtab) + {i} - LeftoverIds(s.srv.rtab)
            && LeftoverIds(r) == {}
  {
    var i := s.conns[s.sc].calls[0];
    var key := KeyOf(s, i);
    var o := s.srv.rtab;
    RS.FreshKeeps(s.srv, key, i);
    var r := Executed(s).srv.rtab;
    forall x ensures x in KnownIds(r) <==> x in KnownIds(o) + {i} - LeftoverIds(o) {
      if x in LeftoverIds(o) {
        var l :| l in o && o[l].res.Some? && o[l].offset == 0 && o[l].id == x;
        assert Keyed(s.issued, l, o[l]) && l in RS.Leftovers(s.srv);
        forall k | k in r ensures r[k].id != x {
          assert k != key ==> Keyed(s.issued, k, o[k]);
        }
      } else if x in KnownIds(o) {
        var k :| k in o && o[k].id == x;
        assert k in r && r[k].id == x;
      } else if x == i {
        assert key in r && r[key].id == x;
      }
    }
  }

  /** The call before the leftovers are evicted: it is new, or it was dropped before. */
  lemma EnterLanes(s: Sys)
    requires Inv(s) && Typed(s) && s.conns[s.sc].calls != [] && KeyOf(s, s.conns[s.sc].calls[0]) !in s.srv.rtab
    ensures var i := s.conns[s.sc].calls[0]; var a := Abs(s);
            && i !in KnownIds(s.srv.rtab)
            && (i in s.undone || i !in s.executed)
            && Lane.Inv(Lane.Read(a, i).(known := a.known + {i}, executed := a.executed + {i}))
  {
    var i := s.conns[s.sc].calls[0];
    var a := Abs(s);
    assert Unread(s.conns, s.sc, i) && Live(s, i);
    KeyFindsCall(s, i);
    assert CallsOk(|s.issued|, s.conns[s.sc].calls);
    NextInFront(s);
    if i in s.undone {
      LeftoverKnown(s.srv.rtab);
      Lane.ServedKeeps(a, Lane.Read(a, i));
      assert a.known + {i} == a.known && a.executed + {i} == a.executed;
    } else {
      Lane.FreshIsNew(a, i);
      Lane.ReadNewKeeps(a, i);
    }
  }

  /** If no evicted call is within reach afterwards, the rest of the connection is as within reach as before. */
  lemma FreshFront(s: Sys)
    requires Typed(s) && s.conns[s.sc].calls != [] && KeyOf(s, s.conns[s.sc].calls[0]) !in s.srv.rtab
    requires KeysOk(s.issued, s.srv.rtab) && Distinct(s) && Increasing(s.conns[s.sc].calls)
    requires forall x :: x in LeftoverIds(s.srv.rtab) ==> x !in FrontOf(Executed(s))
    ensures FrontOf(s) == [s.conns[s.sc].calls[0]] + FrontOf(Executed(s))
  {
    var t := Executed(s);
    var q := s.conns[s.sc].calls;
    RS.FreshKeeps(s.srv, KeyOf(s, q[0]), q[0]);
    FrontOfPrefix(t);
    forall i | i in FrontOf(t) ensures Resent(s.issued, s.srv.rtab, i) == Resent(s.issued, t.srv.rtab, i) {
      assert i in q[1..] && i in q && i != q[0];
      FreshResent(s, i);
    }
    FrontSame(s.issued, s.srv.rtab, t.srv.rtab, s.srv.xi.pktsize, s.srv.xi.up, q[1..]);
  }

  /** Likewise if none was within reach before. */
  lemma FreshFrontFrom(s: Sys)
    requires Typed(s) && s.conns[s.sc].calls != [] && KeyOf(s, s.conns[s.sc].calls[0]) !in s.srv.rtab
    requires KeysOk(s.issued, s.srv.rtab) && Distinct(s) && Increasing(s.conns[s.sc].calls)
    requires forall x :: x in LeftoverIds(s.srv.rtab) ==> x !in FrontOf(s)
    ensures FrontOf(s) == [s.conns[s.sc].calls[0]] + FrontOf(Executed(s))
  {
    var t := Executed(s);
    var q := s.conns[s.sc].calls;
    RS.FreshKeeps(s.srv, KeyOf(s, q[0]), q[0]);
    FrontOfPrefix(s);
    var f := Front(s.issued, s.srv.rtab, s.srv.xi.pktsize, s.srv.xi.up, q[1..]);
    forall i | i in f ensures Resent(s.issued, t.srv.rtab, i) == Resent(s.issued, s.srv.rtab, i) {
      assert i in FrontOf(s) && i in q;
      FrontIsPrefix(s.issued, s.srv.rtab, s.srv.xi.pktsize, s.srv.xi.up, q[1..]);
      assert i in q[1..] && i != q[0];
      FreshResent(s, i);
    }
    FrontSame(s.issued, t.srv.rtab, s.srv.rtab, s.srv.xi.pktsize, s.srv.xi.up, q[1..]);
  }

  lemma FreshResent(s: Sys, i: nat)
    requires Typed(s) && s.conns[s.sc].calls != [] && KeyOf(s, s.conns[s.sc].calls[0]) !in s.srv.rtab
    requires KeysOk(s.issued, s.srv.rtab) && Distinct(s)
    requires i in s.conns[s.sc].calls && i != s.conns[s.sc].calls[0] && i !in LeftoverIds(s.srv.rtab)
    ensures Resent(s.issued, s.srv.rtab, i) == Resent(s.issued, Executed(s).srv.rtab, i)
  {
    var j := s.conns[s.sc].calls[0];
    RS.FreshKeeps(s.srv, KeyOf(s, j), j);
    assert i < |s.issued| && Live(s, i) && Live(s, j);
    KeyFindsCall(s, i);
  }

  lemma FreshAbs(s: Sys, b: Lane.Lanes)
    requires Typed(s) && s.conns[s.sc].calls != [] && KeyOf(s, s.conns[s.sc].calls[0]) !in s.srv.rtab
    requires KeysOk(s.issued, s.srv.rtab) && Lane.Shape(Abs(s)) && Increasing(s.conns[s.sc].calls)
    requires FrontOf(s) == [s.conns[s.sc].calls[0]] + FrontOf(Executed(s))
    requires s.conns[s.sc].calls[0] !in KnownIds(s.srv.rtab) && s.undone !! KnownIds(s.srv.rtab)
    requires var i := s.conns[s.sc].calls[0]; var a := Abs(s);
             b == Lane.Read(a, i).(known := a.known + {i}, executed := a.executed + {i})
    ensures var t := Executed(s);
            Abs(t) == b.(known := b.known - LeftoverIds(s.srv.rtab), leftover := {}) && Abs(t).lanes == b.lanes
  {
    var i := s.conns[s.sc].calls[0];
    var t := Executed(s);
    FreshKnown(s);
    ReadsLanes(s, t);
    SamePromised(s.conns, t.conns, s.cc, Hears(s));
    ElemsAppend(s.executed, i);
  }

  lemma FreshKnown(s: Sys)
    requires Typed(s) && s.conns[s.sc].calls != [] && KeyOf(s, s.conns[s.sc].calls[0]) !in s.srv.rtab
    requires KeysOk(s.issued, s.srv.rtab)
    requires s.conns[s.sc].calls[0] !in KnownIds(s.srv.rtab) && s.undone !! KnownIds(s.srv.rtab)
    ensures var t := Executed(s); var i := s.conns[s.sc].calls[0];
            && KnownIds(t.srv.rtab) + t.undone == KnownIds(s.srv.rtab) + s.undone + {i} - LeftoverIds(s.srv.rtab)
            && LeftoverIds(t.srv.rtab) == {}
  {
    FreshIds(s);
    LeftoverKnown(s.srv.rtab);
  }

  lemma FreshLanes(s: Sys)
    requires Inv(s) && Typed(s) && s.conns[s.sc].calls != [] && KeyOf(s, s.conns[s.sc].calls[0]) !in s.srv.rtab
    requires forall x :: x in LeftoverIds(s.srv.rtab) ==> !Returns(Executed(s), x)
    ensures Lane.Inv(Abs(Executed(s)))
  {
    var i := s.conns[s.sc].calls[0];
    var a, t := Abs(s), Executed(s);
    var b := Lane.Read(a, i).(known := a.known + {i}, executed := a.executed + {i});
    assert CallsOk(|s.issued|, s.conns[s.sc].calls);
    EnterLanes(s);
    FreshFront(s);
    FreshAbs(s, b);
    ReturnsAt(t, b, LeftoverIds(s.srv.rtab));
    Lane.EvictKeeps(b, LeftoverIds(s.srv.rtab), {}, b.promised);
  }

  /** Calls that do not return are on no lane, but for promised ones. */
  lemma ReturnsAt(t: Sys, b: Lane.Lanes, gone: set<nat>)
    requires t.sc < |t.conns| && t.cc < |t.conns|
    requires b.lanes == LanesOf(t.conns, t.sc, FrontOf(t), t.calls)
    requires forall x :: x in gone ==> !Returns(t, x)
    ensures forall l, x :: x in gone && b.At(l, x) ==> l == b.Last() && x in Promised(t.conns, t.cc, Hears(t))
  {
    AtReturns(t, b);
  }

  lemma AtReturns(t: Sys, b: Lane.Lanes)
    requires t.sc < |t.conns| && b.lanes == LanesOf(t.conns, t.sc, FrontOf(t), t.calls)
    ensures forall l, x :: b.At(l, x) ==>
              if l == b.Last() then x in t.calls else x in FrontOf(t) || Unread(t.conns, t.sc + 1, x)
  {
    forall l, x | b.At(l, x)
      ensures if l == b.Last() then x in t.calls else x in FrontOf(t) || Unread(t.conns, t.sc + 1, x)
    {
      if t.sc < l < |t.conns| {
        assert x in t.conns[l].calls;
      }
    }
  }

  lemma FreshDistinct(s: Sys)
    requires Typed(s) && s.conns[s.sc].calls != [] && KeyOf(s, s.conns[s.sc].calls[0]) !in s.srv.rtab
    requires KeysOk(s.issued, s.srv.rtab) && Distinct(s)
    ensures Distinct(Executed(s))
  {
    var i := s.conns[s.sc].calls[0];
    PopDistinct(s);
    FreshIds(s);
    var t := Executed(s);
    assert Unread(s.conns, s.sc, i) && Live(s, i);
    forall x | Live(t, x) ensures Live(s, x) {
      if Unread(t.conns, t.sc, x) {
        var l :| t.sc <= l < |t.conns| && x in t.conns[l].calls;
        assert x in s.conns[l].calls;
      }
      if Underway(t.conns, t.cc, x) {
        var k, j :| t.cc <= k < |t.conns| && 0 <= j < |t.conns[k].replies| && IsAnswer(t.conns[k].replies[j], x);
        assert IsAnswer(s.conns[k].replies[j], x);
      }
    }
    DistinctIfFewer(s, t);
  }

  lemma FreshTable(s: Sys)
    requires Typed(s) && s.conns[s.sc].calls != [] && KeyOf(s, s.conns[s.sc].calls[0]) !in s.srv.rtab
    requires TableOk(s.issued, s.computed, s.srv.rtab) && s.conns[s.sc].calls[0] !in s.computed
    requires ConnsOk(|s.issued|, s.computed, s.conns, s.sc) && StreamOk(s.srv, s.conns, s.sc, s.calls)
    ensures var t := Executed(s);
            && RS.Valid(t.srv) && TableOk(t.issued, t.computed, t.srv.rtab)
            && StreamOk(t.srv, t.conns, t.sc, t.calls)
  {
    var i := s.conns[s.sc].calls[0];
    var t := Executed(s);
    RS.FreshKeeps(s.srv, KeyOf(s, i), i);
    PopConns(s);
    forall k | k in t.srv.rtab
      ensures Keyed(t.issued, k, t.srv.rtab[k]) && CacheOk(t.computed, t.srv.rtab[k])
      ensures Covered(t.srv.xi, t.conns, t.sc, t.calls, t.srv.rtab[k])
    {
      assert k in s.srv.rtab ==> Keyed(s.issued, k, s.srv.rtab[k]) && CacheOk(s.computed, s.srv.rtab[k]);
      assert k in s.srv.rtab ==> Covered(s.srv.xi, Popped(s).conns, s.sc, s.calls, s.srv.rtab[k]);
    }
  }

  lemma FreshHistory(s: Sys)
    requires Inv(s) && Typed(s) && s.conns[s.sc].calls != [] && KeyOf(s, s.conns[s.sc].calls[0]) !in s.srv.rtab
    ensures HistoryOk(Executed(s))
  {
    EnterLanes(s);
    FreshIds(s);
    var i := s.conns[s.sc].calls[0];
    var t := Executed(s);
    assert CallsOk(|s.issued|, s.conns[s.sc].calls);
    assert multiset(t.executed) == multiset(s.executed) + multiset{i};
    forall x
      ensures multiset(t.executed)[x] == multiset(t.dropped)[x] + if x in t.executed && x !in t.undone then 1 else 0
    {
      assert multiset(s.executed)[x] == multiset(s.dropped)[x] + if x in s.executed && x !in s.undone then 1 else 0;
    }
  }

  lemma FreshKeeps(s: Sys)
    requires Inv(s) && Typed(s) && s.conns[s.sc].calls != [] && KeyOf(s, s.conns[s.sc].calls[0]) !in s.srv.rtab
    requires forall x :: x in LeftoverIds(s.srv.rtab) ==> !Returns(Executed(s), x)
    ensures Inv(Executed(s))
  {
    FreshLanes(s);
    FreshDistinct(s);
    PopConns(s);
    EnterLanes(s);
    FreshTable(s);
    FreshHistory(s);
  }

  /** Reading a replay of an answered call is sending the answer again, then dropping the call. */
  lemma ResendIsRecord(s: Sys, key: RS.Key)
    requires Typed(s) && Enabled(s, ServerRecv)
    requires TableOk(s.issued, s.computed, s.srv.rtab)
    requires key == KeyOf(s, s.conns[s.sc].calls[0]) && key in s.srv.rtab && s.srv.rtab[key].res.Some?
    ensures var b := s.srv.rtab[key].res.value; var srv := RS.Replay(s.srv, key);
            var taken := |b| <= s.srv.xi.pktsize;
            && Records(s, key, b, srv, taken)
            && ReadCall(s) == Popped(Recorded(s, key, b, srv, taken))
  {
    RS.ReplayKeeps(s.srv, key);
    assert Keyed(s.issued, key, s.srv.rtab[key]) && CacheOk(s.computed, s.srv.rtab[key]);
  }

  lemma ResendFront(s: Sys, key: RS.Key)
    requires Typed(s) && Enabled(s, ServerRecv)
    requires key == KeyOf(s, s.conns[s.sc].calls[0]) && key in s.srv.rtab && s.srv.rtab[key].res.Some?
    ensures FrontOf(s) == [s.conns[s.sc].calls[0]] + FrontOf(ReadCall(s))
  {
    var t := ReadCall(s);
    var q := s.conns[s.sc].calls;
    FrontSame(s.issued, s.srv.rtab, t.srv.rtab, s.srv.xi.pktsize, t.srv.xi.up, q[1..]);
  }

  /** What is sent again is a promise more at most. */
  lemma ResendPromised(s: Sys, key: RS.Key, b: bytes, srv: RS.Server, taken: bool, t: Sys)
    requires Records(s, key, b, srv, taken) && s.sc < |s.conns| && s.cc < |s.conns| && s.conns[s.sc].calls != []
    requires t == Popped(Recorded(s, key, b, srv, taken))
    ensures Promised(s.conns, s.cc, Hears(s)) <= Promised(t.conns, t.cc, Hears(t))
  {
    var u := Recorded(s, key, b, srv, taken);
    if taken {
      PushPromised(s, Answer(s.srv.rtab[key].id, b));
    }
    SamePromised(u.conns, t.conns, t.cc, Hears(s));
    PromisedGrows(t.conns, t.cc, Hears(s), Hears(t));
  }

  lemma ResendLanes(s: Sys, key: RS.Key, b: bytes, srv: RS.Server, taken: bool, t: Sys)
    requires s.sc < |s.conns| && s.cc < |s.conns| && Lane.Inv(Abs(s)) && Increasing(s.conns[s.sc].calls)
    requires KeysOk(s.issued, s.srv.rtab) && Records(s, key, b, srv, taken)
    requires s.conns[s.sc].calls != [] && s.srv.rtab[key].id == s.conns[s.sc].calls[0]
        && s.srv.rtab[key].id in s.computed
    requires t == Popped(Recorded(s, key, b, srv, taken)) && FrontOf(s) == [s.conns[s.sc].calls[0]] + FrontOf(t)
    ensures Lane.Inv(Abs(t))
  {
    RecordIds(s, key, b, srv, taken);
    ResendPromised(s, key, b, srv, taken, t);
    KnownLanes(s, t);
  }

  /** The other parts of the invariant, for a reply that is recorded and a call that is read. */
  lemma ResendRest(s: Sys, key: RS.Key, b: bytes, srv: RS.Server, taken: bool, u: Sys)
    requires Inv(s) && Records(s, key, b, srv, taken) && u == Recorded(s, key, b, srv, taken)
        && s.conns[s.sc].calls != []
    ensures TableOk(u.issued, u.computed, u.srv.rtab) && HistoryOk(u) && Distinct(Popped(u))
    ensures var t := Popped(u);
            ConnsOk(|t.issued|, t.computed, t.conns, t.sc) && StreamOk(t.srv, t.conns, t.sc, t.calls)
  {
    KnownExecuted(s);
    RecordTable(s, key, b, srv, taken);
    RecordConns(s, key, b, srv, taken);
    RecordStream(s, key, b, srv, taken);
    RecordDistinct(s, key, b, srv, taken);
    RecordHistory(s, key, b, srv, taken);
    PopDistinct(u);
    PopConns(u);
  }

  lemma RecordThenPop(s: Sys, key: RS.Key, b: bytes, srv: RS.Server, taken: bool, u: Sys)
    requires Inv(s) && Records(s, key, b, srv, taken) && u == Recorded(s, key, b, srv, taken)
    requires s.conns[s.sc].calls != [] && s.srv.rtab[key].id == s.conns[s.sc].calls[0]
        && s.srv.rtab[key].id in s.computed
    requires FrontOf(s) == [s.conns[s.sc].calls[0]] + FrontOf(Popped(u))
    ensures Inv(Popped(u))
  {
    assert CallsOk(|s.issued|, s.conns[s.sc].calls);
    ResendLanes(s, key, b, srv, taken, Popped(u));
    ResendRest(s, key, b, srv, taken, u);
    PopInv(u);
  }

  lemma PopInv(u: Sys)
    requires u.sc < |u.conns| && u.cc < |u.conns| && u.conns[u.sc].calls != [] && CallsOk(|u.issued|, u.calls)
    requires RS.Valid(u.srv) && TableOk(u.issued, u.computed, u.srv.rtab) && HistoryOk(u) && Vouched(u)
    requires Distinct(Popped(u)) && Lane.Inv(Abs(Popped(u)))
    requires var t := Popped(u);
             ConnsOk(|t.issued|, t.computed, t.conns, t.sc) && StreamOk(t.srv, t.conns, t.sc, t.calls)
    ensures Inv(Popped(u))
  {
  }

  lemma ResendKeeps(s: Sys, key: RS.Key)
    requires Inv(s) && Typed(s) && Enabled(s, ServerRecv)
    requires key == KeyOf(s, s.conns[s.sc].calls[0]) && key in s.srv.rtab && s.srv.rtab[key].res.Some?
    requires s.srv.rtab[key].id == s.conns[s.sc].calls[0]
    ensures Inv(ReadCall(s))
  {
    var b := s.srv.rtab[key].res.value;
    var srv := RS.Replay(s.srv, key);
    var taken := |b| <= s.srv.xi.pktsize;
    ResendIsRecord(s, key);
    ResendFront(s, key);
    assert CacheOk(s.computed, s.srv.rtab[key]);
    RecordThenPop(s, key, b, srv, taken, Recorded(s, key, b, srv, taken));
  }

  /** A fresh call makes the server forget its leftovers and nothing else. */
  lemma FreshForgets(s: Sys)
    requires Typed(s) && Enabled(s, ServerRecv) && KeyOf(s, s.conns[s.sc].calls[0]) !in s.srv.rtab
    requires KeysOk(s.issued, s.srv.rtab) && s.conns[s.sc].calls[0] !in KnownIds(s.srv.rtab)
    ensures Apply(s, ServerRecv) == Executed(s)
    ensures forall x :: Forgets(s, ServerRecv, x) <==> x in LeftoverIds(s.srv.rtab)
  {
    FreshIds(s);
    LeftoverKnown(s.srv.rtab);
  }

  /** Everything ServerRecv can do. */
  lemma ReadCallKeeps(s: Sys)
    requires Inv(s) && Typed(s) && Enabled(s, ServerRecv) && Benign(s, ServerRecv)
    ensures Inv(ReadCall(s))
  {
    var i := s.conns[s.sc].calls[0];
    var key := KeyOf(s, i);
    assert Unread(s.conns, s.sc, i) && Live(s, i);
    KeyFindsCall(s, i);
    if key !in s.srv.rtab {
      FreshForgets(s);
      FreshKeeps(s);
    } else if s.srv.rtab[key].res.None? {
      InProgressNotLeftover(s, key);
      SkipKeeps(s);
    } else {
      ResendKeeps(s, key);
    }
  }

  lemma InProgressNotLeftover(s: Sys, key: RS.Key)
    requires KeysOk(s.issued, s.srv.rtab) && key in s.srv.rtab && s.srv.rtab[key].res.None?
    ensures s.srv.rtab[key].id in KnownIds(s.srv.rtab)
    ensures s.srv.rtab[key].id !in LeftoverIds(s.srv.rtab)
  {
    var i := s.srv.rtab[key].id;
    assert Keyed(s.issued, key, s.srv.rtab[key]);
    forall k | k in s.srv.rtab && s.srv.rtab[k].id == i ensures k == key {
      assert Keyed(s.issued, k, s.srv.rtab[k]);
    }
  }

  // ----- the server evicts after a reply

  function Evicted(s: Sys): Sys
    requires Typed(s)
  {
    var gone := RS.Acknowledged(s.srv);
    var c := s.conns[s.sc];
    s.(srv := RS.Forget(s.srv, gone),
       conns := if gone == {} then s.conns
                else s.conns[s.sc := c.(vouched := Max(c.vouched, RS.KnownReceived(s.srv.xi)))])
  }

  /** The ids that go with a set of keys go with no other key. */
  lemma ForgetIds(s: Sys, gone: set<RS.Key>)
    requires KeysOk(s.issued, s.srv.rtab) && gone <= s.srv.rtab.Keys
    ensures var r := RS.Forget(s.srv, gone).rtab; var ids := set k | k in gone :: s.srv.rtab[k].id;
            && KnownIds(r) == KnownIds(s.srv.rtab) - ids
            && LeftoverIds(r) <= LeftoverIds(s.srv.rtab) - ids
  {
    var o := s.srv.rtab;
    var r := RS.Forget(s.srv, gone).rtab;
    var ids := set k | k in gone :: o[k].id;
    forall k | k in r ensures o[k].id !in ids {
      assert Keyed(s.issued, k, o[k]);
      forall l | l in gone ensures o[l].id != o[k].id {
        assert Keyed(s.issued, l, o[l]);
      }
    }
    forall x | x in KnownIds(o) - ids ensures x in KnownIds(r) {
      var k :| k in o && o[k].id == x;
      assert k in r && r[k].id == x;
    }
  }

  /** The calls that the server evicts after a reply. */
  function EvictedIds(s: Sys): set<nat>
    requires Typed(s)
  {
    set k | k in RS.Acknowledged(s.srv) :: s.srv.rtab[k].id
  }

  lemma EvictPromised(s: Sys)
    requires Typed(s)
    ensures Promised(s.conns, s.cc, Hears(s)) <= Promised(Evicted(s).conns, s.cc, Hears(s))
  {
    var t := Evicted(s);
    forall x | x in Promised(s.conns, s.cc, Hears(s)) ensures x in Promised(t.conns, s.cc, Hears(s)) {
      var k: nat :| k < |s.conns| && Awaits(s.cc, Hears(s), k) && x in PromisedOn(s.conns[k]);
      var j: nat :| j < |s.conns[k].replies| && s.conns[k].replies[j].Answer? && s.conns[k].replies[j].id == x
                    && Start(s.conns[k].processed, s.conns[k].replies, j) < s.conns[k].vouched;
      assert t.conns[k].replies[j].id == x && x in PromisedOn(t.conns[k]);
    }
  }

  /** An unread call is evicted exactly if its key is. */
  lemma UnreadIds(s: Sys)
    requires Typed(s) && KeysOk(s.issued, s.srv.rtab) && Distinct(s)
    ensures forall i :: i in s.conns[s.sc].calls ==> (KeyOf(s, i) in RS.Acknowledged(s.srv) ==> i in EvictedIds(s))
  {
    forall i | i in s.conns[s.sc].calls ensures KeyOf(s, i) in RS.Acknowledged(s.srv) ==> i in EvictedIds(s) {
      assert Unread(s.conns, s.sc, i) && Live(s, i);
      KeyFindsCall(s, i);
    }
  }

  /** If no evicted call is within reach afterwards, the connection is as within reach as before. */
  lemma EvictFront(s: Sys)
    requires Typed(s) && KeysOk(s.issued, s.srv.rtab) && Distinct(s)
    requires forall x :: x in EvictedIds(s) ==> x !in FrontOf(Evicted(s))
    ensures FrontOf(Evicted(s)) == FrontOf(s)
  {
    var t := Evicted(s);
    FrontOfPrefix(t);
    UnreadIds(s);
    forall i | i in FrontOf(t) ensures Resent(s.issued, s.srv.rtab, i) == Resent(s.issued, t.srv.rtab, i) {
      assert i in s.conns[s.sc].calls;
    }
    FrontSame(s.issued, s.srv.rtab, t.srv.rtab, s.srv.xi.pktsize, s.srv.xi.up, s.conns[s.sc].calls);
  }

  lemma EvictLanes(s: Sys)
    requires Inv(s) && Typed(s)
    requires forall x :: x in EvictedIds(s) ==> !Returns(Evicted(s), x)
    ensures Lane.Inv(Abs(Evicted(s)))
  {
    var t := Evicted(s);
    var ids := EvictedIds(s);
    ForgetIds(s, RS.Acknowledged(s.srv));
    EvictPromised(s);
    EvictFront(s);
    EvictAbs(s, ids);
    ReturnsAt(t, Abs(s), ids);
    Lane.EvictKeeps(Abs(s), ids, Abs(t).leftover, Abs(t).promised);
  }

  lemma EvictAbs(s: Sys, ids: set<nat>)
    requires s.sc < |s.conns| && s.cc < |s.conns| && Typed(s) && FrontOf(Evicted(s)) == FrontOf(s)
    requires ids == EvictedIds(s) && ids !! s.undone
    requires KnownIds(Evicted(s).srv.rtab) == KnownIds(s.srv.rtab) - ids
    ensures var t := Evicted(s);
            Abs(t) == Abs(s).(known := Abs(s).known - ids, leftover := Abs(t).leftover, promised := Abs(t).promised)
  {
    var t := Evicted(s);
    assert Abs(t).lanes == Abs(s).lanes;
    assert Abs(t).joined == Abs(s).joined;
    assert Abs(t).known == Abs(s).known - ids;
  }

  lemma EvictDistinct(s: Sys)
    requires Typed(s) && Distinct(s)
    ensures Distinct(Evicted(s))
  {
    var t := Evicted(s);
    forall i | Live(t, i) ensures Live(s, i) {
      if Unread(t.conns, t.sc, i) {
        var l :| t.sc <= l < |t.conns| && i in t.conns[l].calls;
        assert i in s.conns[l].calls;
      }
      if Underway(t.conns, t.cc, i) {
        var k, j :| t.cc <= k < |t.conns| && 0 <= j < |t.conns[k].replies| && IsAnswer(t.conns[k].replies[j], i);
        assert IsAnswer(s.conns[k].replies[j], i);
      }
    }
    DistinctIfFewer(s, t);
  }

  lemma EvictStream(s: Sys)
    requires Typed(s) && StreamOk(s.srv, s.conns, s.sc, s.calls) && ConnsOk(|s.issued|, s.computed, s.conns, s.sc)
    ensures var t := Evicted(s);
            StreamOk(t.srv, t.conns, t.sc, t.calls) && ConnsOk(|t.issued|, t.computed, t.conns, t.sc)
  {
    var t := Evicted(s);
    assert RS.KnownReceived(s.srv.xi) <= s.srv.xi.sent;
    forall k | k in t.srv.rtab ensures Covered(t.srv.xi, t.conns, t.sc, t.calls, t.srv.rtab[k]) {
      assert Covered(s.srv.xi, s.conns, s.sc, s.calls, s.srv.rtab[k]);
    }
  }

  lemma EvictKeeps(s: Sys)
    requires Inv(s) && Typed(s) && Vouched(Evicted(s))
    requires forall x :: x in EvictedIds(s) ==> !Returns(Evicted(s), x)
    ensures Inv(Evicted(s))
  {
    EvictLanes(s);
    EvictDistinct(s);
    EvictStream(s);
    ForgetIds(s, RS.Acknowledged(s.srv));
    RS.ForgetKeeps(s.srv, RS.Acknowledged(s.srv));
  }

  /** A reply is recorded first, and then what was received is evicted. */
  lemma ReplyRecords(s: Sys, i: nat, b: bytes) returns (u: Sys)
    requires Typed(s) && Enabled(s, ServerReply(i, b))
    ensures Records(s, KeyOf(s, i), b, Answered(s, i, b), s.srv.xi.up && |b| <= s.srv.xi.pktsize)
    ensures u == Recorded(s, KeyOf(s, i), b, Answered(s, i, b), s.srv.xi.up && |b| <= s.srv.xi.pktsize)
    ensures Typed(u) && Apply(s, ServerReply(i, b)) == Evicted(u)
  {
    RS.AnswerKeeps(s.srv, KeyOf(s, i), b);
    u := Recorded(s, KeyOf(s, i), b, Answered(s, i, b), s.srv.xi.up && |b| <= s.srv.xi.pktsize);
    ReplyShape(s, i, b, u);
  }

  lemma ReplyIsRecord(s: Sys, i: nat, b: bytes) returns (u: Sys)
    requires Inv(s) && Typed(s) && Enabled(s, ServerReply(i, b))
    ensures u == Recorded(s, KeyOf(s, i), b, Answered(s, i, b), s.srv.xi.up && |b| <= s.srv.xi.pktsize)
    ensures Inv(u) && Typed(u) && Apply(s, ServerReply(i, b)) == Evicted(u)
  {
    u := ReplyRecords(s, i, b);
    RecordKeeps(s, KeyOf(s, i), b, Answered(s, i, b), s.srv.xi.up && |b| <= s.srv.xi.pktsize);
  }

  lemma ReplyShape(s: Sys, i: nat, b: bytes, u: Sys)
    requires Typed(s) && Typed(u) && Enabled(s, ServerReply(i, b)) && RS.Valid(Answered(s, i, b))
    requires u == Recorded(s, KeyOf(s, i), b, Answered(s, i, b), s.srv.xi.up && |b| <= s.srv.xi.pktsize)
    ensures Apply(s, ServerReply(i, b)) == Evicted(u)
  {
  }

  lemma ReplyForgets(s: Sys, i: nat, b: bytes, u: Sys)
    requires Typed(s) && Typed(u) && Enabled(s, ServerReply(i, b)) && KeysOk(s.issued, s.srv.rtab)
        && KeysOk(u.issued, u.srv.rtab)
    requires u == Recorded(s, KeyOf(s, i), b, Answered(s, i, b), s.srv.xi.up && |b| <= s.srv.xi.pktsize)
    requires Apply(s, ServerReply(i, b)) == Evicted(u)
    ensures forall x :: Forgets(s, ServerReply(i, b), x) <==> x in EvictedIds(u)
  {
    RecordIds(s, KeyOf(s, i), b, u.srv, s.srv.xi.up && |b| <= s.srv.xi.pktsize);
    ForgetIds(u, RS.Acknowledged(u.srv));
    EvictedKnown(u);
  }

  lemma EvictedKnown(u: Sys)
    requires Typed(u)
    ensures EvictedIds(u) <= KnownIds(u.srv.rtab)
  {
  }

  lemma ReplyKeeps(s: Sys, i: nat, b: bytes)
    requires Inv(s) && Typed(s) && Enabled(s, ServerReply(i, b)) && Benign(s, ServerReply(i, b))
    requires Vouched(SendReply(s, i, b))
    ensures Inv(SendReply(s, i, b))
  {
    var u := ReplyIsRecord(s, i, b);
    ReplyForgets(s, i, b, u);
    forall x | x in EvictedIds(u) ensures !Returns(Evicted(u), x) {
      assert Forgets(s, ServerReply(i, b), x);
    }
    EvictKeeps(u);
  }

  // ----- the server drops a call

  lemma DropIds(s: Sys, i: nat)
    requires KeysOk(s.issued, s.srv.rtab) && InProgress(s, i)
    ensures KnownIds(RS.Drop(s.srv, KeyOf(s, i)).rtab) == KnownIds(s.srv.rtab) - {i}
    ensures LeftoverIds(RS.Drop(s.srv, KeyOf(s, i)).rtab) <= LeftoverIds(s.srv.rtab) - {i}
  {
    ForgetIds(s, {KeyOf(s, i)});
    assert (set k | k in {KeyOf(s, i)} :: s.srv.rtab[k].id) == {i};
  }

  function Dropped(s: Sys, i: nat): Sys
    requires i < |s.issued|
  {
    s.(srv := RS.Drop(s.srv, KeyOf(s, i)), dropped := s.dropped + [i], undone := s.undone + {i})
  }

  lemma DropFront(s: Sys, i: nat)
    requires s.sc < |s.conns| && InProgress(s, i)
    ensures FrontOf(Dropped(s, i)) == FrontOf(s)
  {
    FrontSame(s.issued, s.srv.rtab, Dropped(s, i).srv.rtab, s.srv.xi.pktsize, s.srv.xi.up, s.conns[s.sc].calls);
  }

  lemma DropLanes(s: Sys, i: nat)
    requires Inv(s) && InProgress(s, i)
    ensures Lane.Inv(Abs(Dropped(s, i)))
  {
    var t := Dropped(s, i);
    DropIds(s, i);
    assert i in KnownIds(s.srv.rtab);
    assert Abs(t).known == Abs(s).known;
    DropFront(s, i);
    Lane.EvictKeeps(Abs(s), {}, Abs(t).leftover, Abs(s).promised);
    assert Abs(t) == Abs(s).(known := Abs(s).known - {}, leftover := Abs(t).leftover);
  }

  lemma DropHistory(s: Sys, i: nat)
    requires Inv(s) && InProgress(s, i)
    ensures HistoryOk(Dropped(s, i))
  {
    var t := Dropped(s, i);
    DropIds(s, i);
    assert i in KnownIds(s.srv.rtab) && i in Abs(s).known && i in s.executed;
    assert CacheOk(s.computed, s.srv.rtab[KeyOf(s, i)]);
    assert multiset(t.dropped) == multiset(s.dropped) + multiset{i};
    forall x
      ensures multiset(t.executed)[x] == multiset(t.dropped)[x] + if x in t.executed && x !in t.undone then 1 else 0
    {
      assert multiset(s.executed)[x] == multiset(s.dropped)[x] + if x in s.executed && x !in s.undone then 1 else 0;
    }
  }

  lemma DropKeeps(s: Sys, i: nat)
    requires Inv(s) && InProgress(s, i)
    ensures Inv(Dropped(s, i))
  {
    DropLanes(s, i);
    DropHistory(s, i);
    DropTable(s, i);
  }

  lemma DropTable(s: Sys, i: nat)
    requires Inv(s) && InProgress(s, i)
    ensures var t := Dropped(s, i);
            && RS.Valid(t.srv) && TableOk(t.issued, t.computed, t.srv.rtab) && Distinct(t)
            && StreamOk(t.srv, t.conns, t.sc, t.calls)
  {
    DropIds(s, i);
    RS.DropKeeps(s.srv, KeyOf(s, i));
    DistinctIfFewer(s, Dropped(s, i));
  }
}
