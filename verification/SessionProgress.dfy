/**
 No call is ever stuck: from every state of a session that meets the invariant, every outstanding call can
 still return, and all of them together, without cancelling or dropping any.  The client finishes the
 connections it has, replays what is left on a new one, and the server moves there and answers.
 */
module SessionProgress {
  import opened Common
  import opened Session
  import opened SessionInv
  import opened SessionSafety
  import Limits = SessionLimits
  import Return = SessionReturn
  import RS = ResumableServer
  import C = SessionClientSteps
  import S = SessionServerSteps

  // ----- continuations

  /** A step that neither starts a call nor gives one up. */
  predicate Carries(st: Step) { !st.Issue? && !st.Cancel? && !st.ServerDrop? }

  ghost predicate Takes(s: Sys, st: Step) {
    Typed(s) && Enabled(s, st) && Carries(st) && Allowed(s, st, Apply(s, st))
  }

  /** The steps lead from s to t, each of them allowed. */
  ghost predicate Leads(s: Sys, steps: seq<Step>, t: Sys)
    decreases |steps|
  {
    if steps == [] then t == s else Takes(s, steps[0]) && Leads(Apply(s, steps[0]), steps[1..], t)
  }

  lemma LeadsFirst(s: Sys, st: Step, steps: seq<Step>, t: Sys)
    requires Takes(s, st) && Leads(Apply(s, st), steps, t)
    ensures Leads(s, [st] + steps, t)
  {
    assert ([st] + steps)[1..] == steps;
  }

  lemma {:induction false} LeadsOn(s: Sys, a: seq<Step>, t: Sys, b: seq<Step>, u: Sys)
    requires Leads(s, a, t) && Leads(t, b, u)
    ensures Leads(s, a + b, u)
    decreases |a|
  {
    if a == [] {
      assert a + b == b;
    } else {
      var st, rest := a[0], a[1..];
      LeadsOn(Apply(s, st), rest, t, b, u);
      LeadsFirst(s, st, rest + b, u);
      Front(a, b);
    }
  }

  lemma Front<T>(a: seq<T>, b: seq<T>)
    requires a != []
    ensures [a[0]] + (a[1..] + b) == a + b
  {
  }

  lemma {:induction false} LeadsReaches(s: Sys, steps: seq<Step>, t: Sys)
    requires Reachable(s) && Leads(s, steps, t)
    ensures Reachable(t)
    decreases |steps|
  {
    if steps != [] {
      ReachStep(s, steps[0], Apply(s, steps[0]));
      LeadsReaches(Apply(s, steps[0]), steps[1..], t);
    }
  }

  // ----- what the steps keep

  /** Cached replies are the first ones computed. */
  ghost predicate Cached(computed: map<nat, bytes>, rtab: map<RS.Key, RS.Svc>) {
    forall k :: k in rtab && rtab[k].res.Some? ==>
      rtab[k].id in computed && computed[rtab[k].id] == rtab[k].res.value
  }

  ghost predicate Steady(s: Sys) { Return.Sane(s) && Cached(s.computed, s.srv.rtab) }

  lemma InvSteady(s: Sys)
    requires Inv(s)
    ensures Steady(s)
  {
    forall k | k in s.srv.rtab && s.srv.rtab[k].res.Some?
      ensures s.srv.rtab[k].id in s.computed && s.computed[s.srv.rtab[k].id] == s.srv.rtab[k].res.value
    {
      assert CacheOk(s.computed, s.srv.rtab[k]);
    }
  }

  // ----- no call is lost

  /** The call has returned what was first computed for it. */
  ghost predicate Returned(s: Sys, x: nat) {
    x !in s.calls && x in s.results && x in s.computed && s.results[x] == s.computed[x]
  }

  /** From s to t every outstanding call stays outstanding or returns, and what has returned stays so. */
  ghost predicate Kept(s: Sys, t: Sys) {
    && (forall y :: y in t.calls ==> y in s.calls)
    && (forall y :: y in s.calls ==> y in t.calls || Returned(t, y))
    && (forall y :: Returned(s, y) ==> Returned(t, y))
  }

  lemma KeptOn(s: Sys, t: Sys, u: Sys)
    requires Kept(s, t) && Kept(t, u)
    ensures Kept(s, u)
  {
  }

  lemma KeptSame(s: Sys, t: Sys)
    requires t.calls == s.calls && t.results == s.results
    requires forall y :: y in s.computed ==> y in t.computed && t.computed[y] == s.computed[y]
    ensures Kept(s, t)
  {
  }

  // ----- the client processes a message

  lemma DeliverSane(s: Sys)
    requires Return.Sane(s) && s.conns[s.cc].replies != []
    ensures Typed(s) && C.Delivered(s, Deliver(s)) && Return.Sane(Deliver(s))
  {
    Return.SaneTyped(s);
    C.DeliverShape(s);
    var t := Deliver(s);
    C.DeliverDistinct(s, t);
    forall k, j | 0 <= k < |t.conns| && 0 <= j < |t.conns[k].replies|
      ensures AnswerOk(|t.issued|, t.computed, t.conns[k].replies[j])
    {
      assert AnswerOk(|s.issued|, s.computed, s.conns[k].replies[if k == s.cc then j + 1 else j]);
    }
  }

  /** An answer to an outstanding call makes the call return; any other message changes no call. */
  lemma DeliverReturns(s: Sys)
    requires Steady(s) && s.conns[s.cc].replies != []
    ensures var t := Deliver(s); var m := s.conns[s.cc].replies[0];
            && Steady(t) && Takes(s, ClientRecv) && t == Apply(s, ClientRecv)
            && t.sc == s.sc && t.cc == s.cc && t.srv == s.srv && t.conns == s.conns[s.cc := C.Shifted(s.conns[s.cc])]
            && t.computed == s.computed
            && (m.Answer? && m.id in s.calls ==>
                  Elems(t.calls) == Elems(s.calls) - {m.id} && t.results == s.results[m.id := m.body]
                  && m.id in t.computed && t.computed[m.id] == m.body)
            && (!(m.Answer? && m.id in s.calls) ==> t.calls == s.calls && t.results == s.results)
  {
    var m := s.conns[s.cc].replies[0];
    assert AnswerOk(|s.issued|, s.computed, s.conns[s.cc].replies[0]);
    DeliverSane(s);
    if m.Answer? {
      C.FoundIsOwner(s, m);
    }
  }

  lemma DeliverKept(s: Sys)
    requires Steady(s) && s.conns[s.cc].replies != []
    ensures Kept(s, Deliver(s))
  {
    DeliverReturns(s);
    var t, m := Deliver(s), s.conns[s.cc].replies[0];
    if m.Answer? && m.id in s.calls {
      forall y ensures y in t.calls <==> y in s.calls && y != m.id {
        assert y in t.calls <==> y in Elems(t.calls);
      }
    }
  }

  // ----- the client goes to a new connection

  lemma ConnectSteady(s: Sys)
    requires Steady(s)
    ensures Takes(s, Connect) && Apply(s, Connect) == C.AddConn(s) && Steady(C.AddConn(s))
  {
    Return.SaneTyped(s);
    C.ConnectDistinct(s);
    C.ConnectConns(s);
  }

  lemma JoinSteady(s: Sys)
    requires Steady(s) && s.cc + 1 < |s.conns| && s.conns[s.cc].replies == []
    ensures Takes(s, ClientResume(s.cc + 1))
    ensures Apply(s, ClientResume(s.cc + 1)) == C.JoinAt(s, s.cc + 1) && Steady(C.JoinAt(s, s.cc + 1))
  {
    assert s.conns[s.cc].vouched <= s.conns[s.cc].processed + Total(s.conns[s.cc].replies);
    Return.JoinNext(s);
  }

  /** The last connection is new: the server is not on it yet. */
  ghost predicate Ahead(s: Sys) { Steady(s) && s.sc + 1 < |s.conns| }

  /** The client finishes the connections it has and replays its calls on the last one; or x returns before. */
  lemma {:induction false} WalkToLast(s: Sys, x: nat) returns (steps: seq<Step>, u: Sys)
    requires Ahead(s) && x in s.calls && s.cc + 1 < |s.conns|
    ensures Leads(s, steps, u) && Steady(u)
    ensures Kept(s, u)
    ensures Returned(u, x) || (Ahead(u) && x in u.calls && u.cc + 1 == |u.conns| && u.conns[u.cc].calls == u.calls)
    decreases |s.conns| - s.cc, |s.conns[s.cc].replies|
  {
    var st := if s.conns[s.cc].replies != [] then ClientRecv else ClientResume(s.cc + 1);
    var t: Sys;
    if st.ClientRecv? {
      DeliverReturns(s);
      DeliverKept(s);
      t := Deliver(s);
      StillCalls(s, t, x);
    } else {
      JoinSteady(s);
      t := C.JoinAt(s, s.cc + 1);
      KeptSame(s, t);
    }
    if Returned(t, x) || t.cc + 1 == |t.conns| {
      steps, u := [], t;
    } else {
      steps, u := WalkToLast(t, x);
      KeptOn(s, t, u);
    }
    LeadsFirst(s, st, steps, u);
    steps := [st] + steps;
  }

  lemma StillCalls(s: Sys, t: Sys, x: nat)
    requires Steady(s) && s.conns[s.cc].replies != [] && t == Deliver(s) && x in s.calls
    ensures var m := s.conns[s.cc].replies[0]; if m.Answer? && m.id == x then Returned(t, x) else x in t.calls
  {
    DeliverReturns(s);
    var m := s.conns[s.cc].replies[0];
    assert x in Elems(s.calls);
    if m.Answer? && m.id in s.calls {
      assert x in t.calls <==> x in Elems(t.calls);
    }
  }

  // ----- the server answers there

  /** The server is with the client on the last connection, can send all it has cached and body b too, and relies
      on nothing that the client has received. */
  ghost predicate Serving(s: Sys, b: bytes) {
    && Steady(s) && s.sc == s.cc && Limits.CanResend(s.srv) && |b| <= s.srv.xi.pktsize
    && s.srv.xi.sndbufsz == 0 && s.srv.xi.acked == 0
  }

  lemma MoveSteady(s: Sys, b: bytes) returns (size: nat)
    requires Ahead(s) && s.cc + 1 == |s.conns|
    ensures var st := ServerResume(s.cc, size, 0);
            && Takes(s, st) && Apply(s, st) == S.ResumedAt(s, s.cc, size, 0) && Serving(Apply(s, st), b)
  {
    var n := Return.EnoughFor(s.srv.rtab);
    size := Max(n, |b|);
    Return.SaneTyped(s);
    Return.MoveSane(s, s.cc, size);
    var t := S.ResumedAt(s, s.cc, size, 0);
    forall k | k in t.srv.rtab && t.srv.rtab[k].res.Some?
      ensures |t.srv.rtab[k].res.value| <= size && t.srv.rtab[k].id in t.computed
        && t.computed[t.srv.rtab[k].id] == t.srv.rtab[k].res.value
    {
      assert s.srv.rtab[k].res == t.srv.rtab[k].res && s.srv.rtab[k].id == t.srv.rtab[k].id;
    }
  }

  lemma PopSane(s: Sys)
    requires Return.Sane(s) && Limits.Pending(s) != []
    ensures Return.Sane(S.Popped(s))
  {
    var t := S.Popped(s);
    S.PopDistinct(s);
    forall k | 0 <= k < |t.conns| ensures CallsOk(|t.issued|, t.conns[k].calls) {
      assert CallsOk(|s.issued|, s.conns[k].calls);
    }
  }

  lemma RecordConns(s: Sys, i: nat, b: bytes, computed: map<nat, bytes>)
    requires s.sc < |s.conns| && ConnsOk(|s.issued|, s.computed, s.conns, s.sc) && i < |s.issued|
    requires forall y :: y in s.computed ==> y in computed && computed[y] == s.computed[y]
    requires i in computed && computed[i] == b
    ensures ConnsOk(|s.issued|, computed, Push(s, true, Answer(i, b)), s.sc)
  {
    var conns := Push(s, true, Answer(i, b));
    TotalAppend(s.conns[s.sc].replies, Answer(i, b));
    forall k, j | 0 <= k < |conns| && 0 <= j < |conns[k].replies|
      ensures AnswerOk(|s.issued|, computed, conns[k].replies[j])
    {
      assert j < |s.conns[k].replies| ==> AnswerOk(|s.issued|, s.computed, s.conns[k].replies[j]);
    }
    forall k | 0 <= k < |conns| ensures CallsOk(|s.issued|, conns[k].calls) {
      assert CallsOk(|s.issued|, s.conns[k].calls);
    }
  }

  lemma RecordTable(s: Sys, key: RS.Key, b: bytes, srv: RS.Server)
    requires Steady(s) && S.Records(s, key, b, srv, true)
    requires s.srv.rtab[key].id in s.computed ==> s.computed[s.srv.rtab[key].id] == b
    ensures var t := S.Recorded(s, key, b, srv, true); KeysOk(t.issued, t.srv.rtab) && Cached(t.computed, t.srv.rtab)
  {
    var t := S.Recorded(s, key, b, srv, true);
    forall k | k in t.srv.rtab ensures Keyed(t.issued, k, t.srv.rtab[k]) {
      assert Keyed(s.issued, k, s.srv.rtab[k]);
    }
  }

  /** A reply with the bytes first computed is sent and recorded. */
  lemma RecordSane(s: Sys, key: RS.Key, b: bytes, srv: RS.Server)
    requires Steady(s) && S.Records(s, key, b, srv, true)
    requires s.srv.rtab[key].id in s.computed ==> s.computed[s.srv.rtab[key].id] == b
    ensures var t := S.Recorded(s, key, b, srv, true);
            Steady(t) && t.conns[t.sc].replies == s.conns[s.sc].replies + [Answer(s.srv.rtab[key].id, b)]
  {
    var t := S.Recorded(s, key, b, srv, true);
    assert Keyed(s.issued, key, s.srv.rtab[key]);
    S.RecordDistinct(s, key, b, srv, true);
    RecordTable(s, key, b, srv);
    RecordConns(s, s.srv.rtab[key].id, b, t.computed);
  }

  /** The server resends a cached reply. */
  lemma ResendSteady(s: Sys, b: bytes)
    requires Serving(s, b) && Typed(s) && Limits.Pending(s) != []
    requires var key := KeyOf(s, Limits.Pending(s)[0]); key in s.srv.rtab && s.srv.rtab[key].res.Some?
    ensures Serving(ReadCall(s), b)
    ensures var v := s.srv.rtab[KeyOf(s, Limits.Pending(s)[0])];
            ReadCall(s).conns[s.sc].replies == s.conns[s.sc].replies + [Answer(v.id, v.res.value)]
  {
    var key := KeyOf(s, Limits.Pending(s)[0]);
    var v := s.srv.rtab[key];
    var srv := RS.Replay(s.srv, key);
    RS.ReplayKeeps(s.srv, key);
    ResendRecords(s, key);
    var u := S.Recorded(s, key, v.res.value, srv, true);
    RecordSane(s, key, v.res.value, srv);
    PopSane(u);
  }

  lemma ResendRecords(s: Sys, key: RS.Key)
    requires Typed(s) && Limits.Pending(s) != [] && key == KeyOf(s, Limits.Pending(s)[0]) && key in s.srv.rtab
    requires s.srv.rtab[key].res.Some? && Limits.CanResend(s.srv) && s.srv.rtab[key].id in s.computed
    ensures var b := s.srv.rtab[key].res.value;
            && S.Records(s, key, b, RS.Replay(s.srv, key), true)
            && ReadCall(s) == S.Popped(S.Recorded(s, key, b, RS.Replay(s.srv, key), true))
  {
    RS.ReplayKeeps(s.srv, key);
  }

  lemma FreshSteady(s: Sys, b: bytes)
    requires Serving(s, b) && Typed(s) && Limits.Pending(s) != [] && KeyOf(s, Limits.Pending(s)[0]) !in s.srv.rtab
    ensures Serving(ReadCall(s), b) && InProgress(ReadCall(s), Limits.Pending(s)[0])
    ensures ReadCall(s).conns[s.sc].replies == s.conns[s.sc].replies
  {
    var i, t := Limits.Pending(s)[0], ReadCall(s);
    assert t == S.Executed(s);
    S.FreshDistinct(s);
    PopSane(s);
    RS.FreshKeeps(s.srv, KeyOf(s, i), i);
    forall k | k in t.srv.rtab ensures Keyed(t.issued, k, t.srv.rtab[k]) {
      assert k != KeyOf(s, i) ==> Keyed(s.issued, k, s.srv.rtab[k]);
    }
  }

  lemma SkipSteady(s: Sys, b: bytes)
    requires Serving(s, b) && Typed(s) && Limits.Pending(s) != []
    requires var key := KeyOf(s, Limits.Pending(s)[0]); key in s.srv.rtab && s.srv.rtab[key].res.None?
    ensures Serving(ReadCall(s), b) && ReadCall(s).srv == s.srv
    ensures ReadCall(s).conns[s.sc].replies == s.conns[s.sc].replies
  {
    PopSane(s);
    assert ReadCall(s) == S.Popped(s);
  }

  /** An answer to x is on the connection that client and server share. */
  ghost predicate Answering(s: Sys, x: nat)
    requires s.cc < |s.conns|
  {
    exists j :: 0 <= j < |s.conns[s.cc].replies| && IsAnswer(s.conns[s.cc].replies[j], x)
  }

  /** The server has read call x: it is answered, or being worked on. */
  ghost predicate Reached(s: Sys, x: nat)
    requires s.cc < |s.conns|
  {
    InProgress(s, x) || Answering(s, x)
  }

  lemma ReadSame(s: Sys)
    requires Typed(s) && Limits.Pending(s) != []
    ensures var t := ReadCall(s);
            && t.calls == s.calls && t.computed == s.computed && t.results == s.results
            && t.sc == s.sc && t.cc == s.cc && |t.conns| == |s.conns| && Limits.Pending(t) == Limits.Pending(s)[1..]
  {
  }

  /** The server reads the next call, and has reached it. */
  lemma ReadNext(s: Sys, b: bytes)
    requires Serving(s, b) && Typed(s) && Limits.Pending(s) != []
    ensures Serving(ReadCall(s), b) && Reached(ReadCall(s), Limits.Pending(s)[0])
  {
    var i, t := Limits.Pending(s)[0], ReadCall(s);
    var key := KeyOf(s, i);
    assert Unread(s.conns, s.sc, i) && Live(s, i);
    S.KeyFindsCall(s, i);
    if key !in s.srv.rtab {
      FreshSteady(s, b);
    } else if s.srv.rtab[key].res.None? {
      SkipSteady(s, b);
      assert InProgress(t, i);
    } else {
      ResendSteady(s, b);
      assert IsAnswer(t.conns[t.cc].replies[|s.conns[s.cc].replies|], i);
    }
  }

  lemma ReadTakes(s: Sys, b: bytes)
    requires Serving(s, b) && Limits.Pending(s) != []
    ensures Takes(s, ServerRecv) && Apply(s, ServerRecv) == ReadCall(s)
  {
    Return.SaneTyped(s);
    ReadSame(s);
  }

  lemma {:induction false} ReadTo(s: Sys, x: nat, b: bytes) returns (steps: seq<Step>, u: Sys)
    requires Serving(s, b) && x in s.calls && x in Limits.Pending(s)
    ensures Leads(s, steps, u) && Serving(u, b) && Reached(u, x)
    ensures u.calls == s.calls && u.computed == s.computed && u.results == s.results
    decreases |Limits.Pending(s)|
  {
    ReadTakes(s, b);
    ReadNext(s, b);
    ReadSame(s);
    var t := ReadCall(s);
    if Limits.Pending(s)[0] == x {
      steps, u := [], t;
    } else {
      steps, u := ReadTo(t, x, b);
    }
    LeadsFirst(s, ServerRecv, steps, u);
    steps := [ServerRecv] + steps;
  }

  /** Nothing is evicted where nothing is known to be received. */
  lemma NothingEvicted(u: Sys)
    requires Typed(u) && u.srv.xi.sndbufsz == 0 && u.srv.xi.acked == 0
    ensures S.Evicted(u) == u
  {
    assert RS.Acknowledged(u.srv) == {};
    WithoutPrefix(u.srv.rq, {}, 0);
    assert u.srv.rtab - {} == u.srv.rtab;
  }

  /** The service answers x. */
  lemma AnswerRecorded(s: Sys, x: nat, b: bytes) returns (u: Sys)
    requires Serving(s, b) && Typed(s) && InProgress(s, x) && (x in s.computed ==> s.computed[x] == b)
    ensures Apply(s, ServerReply(x, b)) == u && Serving(u, b) && u.calls == s.calls && u.results == s.results
    ensures u.computed == (if x in s.computed then s.computed else s.computed[x := b]) && u.cc == s.cc
    ensures u.conns[u.cc].replies == s.conns[s.cc].replies + [Answer(x, b)]
  {
    u := S.ReplyRecords(s, x, b);
    RecordSane(s, KeyOf(s, x), b, Answered(s, x, b));
    NothingEvicted(u);
  }

  lemma AnswerIt(s: Sys, x: nat, b: bytes)
    requires Serving(s, b) && x in s.calls && InProgress(s, x) && (x in s.computed ==> s.computed[x] == b)
    ensures Takes(s, ServerReply(x, b))
    ensures var u := Apply(s, ServerReply(x, b)); Serving(u, b) && x in u.calls && Answering(u, x) && Kept(s, u)
  {
    Return.SaneTyped(s);
    var u := AnswerRecorded(s, x, b);
    KeptSame(s, u);
    assert IsAnswer(u.conns[u.cc].replies[|s.conns[s.cc].replies|], x);
  }

  /** The client processes messages until x returns. */
  lemma {:induction false} Collect(s: Sys, x: nat) returns (steps: seq<Step>, u: Sys)
    requires Steady(s) && x in s.calls && Answering(s, x)
    ensures Leads(s, steps, u) && Steady(u) && Returned(u, x) && Kept(s, u)
    decreases |s.conns[s.cc].replies|
  {
    DeliverReturns(s);
    DeliverKept(s);
    var t := Deliver(s);
    StillCalls(s, t, x);
    if Returned(t, x) {
      steps, u := [], t;
    } else {
      var j :| 0 <= j < |s.conns[s.cc].replies| && IsAnswer(s.conns[s.cc].replies[j], x);
      assert IsAnswer(t.conns[t.cc].replies[j - 1], x);
      steps, u := Collect(t, x);
      KeptOn(s, t, u);
    }
    LeadsFirst(s, ClientRecv, steps, u);
    steps := [ClientRecv] + steps;
  }

  // ----- all together

  /** The server moves to the client's connection, reads up to x and answers it. */
  lemma ServeIt(s: Sys, x: nat) returns (steps: seq<Step>, u: Sys)
    requires Ahead(s) && x in s.calls && s.cc + 1 == |s.conns| && s.conns[s.cc].calls == s.calls
    ensures Leads(s, steps, u) && Steady(u) && x in u.calls && Answering(u, x) && Kept(s, u)
  {
    var b := if x in s.computed then s.computed[x] else [];
    var size := MoveSteady(s, b);
    var st := ServerResume(s.cc, size, 0);
    var t := Apply(s, st);
    var more, v := ReadTo(t, x, b);
    LeadsFirst(s, st, more, v);
    KeptSame(s, v);
    steps, u := [st] + more, v;
    if !Answering(v, x) {
      AnswerIt(v, x, b);
      u := Apply(v, ServerReply(x, b));
      KeptOn(s, v, u);
      LeadsFirst(v, ServerReply(x, b), [], u);
      LeadsOn(s, steps, v, [ServerReply(x, b)] + [], u);
      steps := steps + ([ServerReply(x, b)] + []);
    }
  }

  /** Call x returns. */
  lemma CanReturn(s: Sys, x: nat) returns (steps: seq<Step>, u: Sys)
    requires Steady(s) && x in s.calls
    ensures Leads(s, steps, u) && Steady(u) && Returned(u, x) && Kept(s, u)
  {
    ConnectSteady(s);
    var t := C.AddConn(s);
    KeptSame(s, t);
    var walk, v := WalkToLast(t, x);
    KeptOn(s, t, v);
    LeadsFirst(s, Connect, walk, v);
    if Returned(v, x) {
      steps, u := [Connect] + walk, v;
    } else {
      var more, w := ServeAndCollect(v, x);
      KeptOn(s, v, w);
      LeadsOn(s, [Connect] + walk, v, more, w);
      steps, u := [Connect] + walk + more, w;
    }
  }

  lemma ServeAndCollect(s: Sys, x: nat) returns (steps: seq<Step>, u: Sys)
    requires Ahead(s) && x in s.calls && s.cc + 1 == |s.conns| && s.conns[s.cc].calls == s.calls
    ensures Leads(s, steps, u) && Steady(u) && Returned(u, x) && Kept(s, u)
  {
    var serve, w := ServeIt(s, x);
    var collect, z := Collect(w, x);
    LeadsOn(s, serve, w, collect, z);
    KeptOn(s, w, z);
    steps, u := serve + collect, z;
  }

  /** Every outstanding call can still return: one after another, until none is outstanding, each with what was
      first computed for it. */
  lemma {:induction false} AllCanReturn(s: Sys) returns (steps: seq<Step>, u: Sys)
    requires Steady(s)
    ensures Leads(s, steps, u) && u.calls == [] && Kept(s, u)
    decreases |Elems(s.calls)|
  {
    if s.calls == [] {
      steps, u := [], s;
    } else {
      var x := s.calls[0];
      var first, t := CanReturn(s, x);
      Fewer(s, t, x);
      var rest, v := AllCanReturn(t);
      LeadsOn(s, first, t, rest, v);
      KeptOn(s, t, v);
      steps, u := first + rest, v;
    }
  }

  lemma Fewer(s: Sys, t: Sys, x: nat)
    requires Kept(s, t) && x in s.calls && x !in t.calls
    ensures |Elems(t.calls)| < |Elems(s.calls)|
  {
    var a, b := Elems(t.calls), Elems(s.calls);
    assert a <= b && x in b - a;
    assert b == a + (b - a);
  }

  /** No session is ever stuck: from every state reached by benign steps there is a way on, without giving up or
      starting a call, to a state in which every outstanding call has returned what was first computed for it. */
  lemma NeverStuck(s: Sys) returns (steps: seq<Step>, u: Sys)
    requires SafelyReachable(s)
    ensures Leads(s, steps, u) && Reachable(u)
    ensures u.calls == [] && forall y :: y in s.calls ==> Returned(u, y)
  {
    SafeInv(s);
    InvSteady(s);
    steps, u := AllCanReturn(s);
    SafeIsReachable(s);
    LeadsReaches(s, steps, u);
  }

  lemma SafeIsReachable(s: Sys)
    requires SafelyReachable(s)
    ensures Reachable(s)
  {
    var states, steps :| BenignRun(states, steps) && states[|steps|] == s;
    assert Run(states, steps);
  }

  /** In any run a call that is neither cancelled nor answered stays outstanding, and what has returned is final. */
  lemma StepCarries(s: Sys, st: Step, y: nat)
    requires Takes(s, st)
    ensures var t := Apply(s, st);
            && (y in t.calls ==> y in s.calls) && (y in s.calls ==> y in t.calls || y in t.results)
            && (Returned(s, y) ==> Returned(t, y) && t.results[y] == s.results[y])
  {
  }
}
