/**
 A call that the server has forgotten and that does not return is never executed again: whatever
 follows, as long as nothing harmful is evicted before the server leaves its connection.
 */
module SessionGone {
  import opened Common
  import opened Session
  import opened SessionInv
  import opened SessionFront
  import opened SessionSafety
  import opened SessionReturn
  import Limits = SessionLimits
  import RS = ResumableServer
  import C = SessionClientSteps
  import S = SessionServerSteps

  /** What every allowed step keeps, benign or not. */
  ghost predicate Orderly(s: Sys) {
    && s.sc < |s.conns| && s.cc < |s.conns| && CallsOk(|s.issued|, s.calls)
    && (forall k :: 0 <= k < |s.conns| ==> CallsOk(|s.issued|, s.conns[k].calls))
    && KeysOk(s.issued, s.srv.rtab) && Distinct(s)
  }

  /** Call x is nowhere that the server will read it. */
  ghost predicate Gone(home: nat, s: Sys, x: nat) {
    && Orderly(s) && x < |s.issued| && !Unread(s.conns, s.sc + 1, x)
    && (x in s.calls ==> x in Promised(s.conns, s.cc, Hears(s)))
    && x !in (if s.sc == home then FrontOf(s) else Limits.Pending(s))
  }

  // ----- steps of the client

  lemma IssueOrderly(s: Sys, c: Call)
    requires Orderly(s) && Typed(s) && Enabled(s, Issue(c)) && Assumed(s, Issue(c))
    ensures Orderly(Apply(s, Issue(c)))
  {
    var t := Apply(s, Issue(c));
    C.IssueDistinct(s, c);
    forall k | 0 <= k < |t.conns| ensures CallsOk(|t.issued|, t.conns[k].calls) {
      assert CallsOk(|s.issued|, s.conns[k].calls);
    }
    forall k | k in t.srv.rtab ensures Keyed(t.issued, k, t.srv.rtab[k]) {
      assert Keyed(s.issued, k, s.srv.rtab[k]);
    }
  }

  lemma IssueGone(home: nat, s: Sys, c: Call, x: nat)
    requires Gone(home, s, x) && Typed(s) && Enabled(s, Issue(c)) && Assumed(s, Issue(c))
    ensures Gone(home, Apply(s, Issue(c)), x)
  {
    var t := Apply(s, Issue(c));
    IssueOrderly(s, c);
    IssueFront(s, c);
    FrontOfPrefix(s);
    SamePromised(s.conns, t.conns, s.cc, Hears(s));
    forall k | t.sc < k < |t.conns| ensures x !in t.conns[k].calls {
      assert x !in s.conns[k].calls;
    }
  }

  lemma CancelGone(home: nat, s: Sys, i: nat, x: nat)
    requires Gone(home, s, x)
    ensures Gone(home, s.(calls := Without(s.calls, {i})), x)
  {
    var t := s.(calls := Without(s.calls, {i}));
    C.WithoutIncreasing(|s.issued|, s.calls, {i});
    DistinctIfFewer(s, t);
    assert FrontOf(t) == FrontOf(s);
  }

  lemma ConnectGone(home: nat, s: Sys, x: nat)
    requires Gone(home, s, x)
    ensures Gone(home, C.AddConn(s), x)
  {
    var t := C.AddConn(s);
    C.ConnectDistinct(s);
    SamePromised(s.conns, t.conns, s.cc, Hears(s));
    assert FrontOf(t) == FrontOf(s);
    forall k | t.sc < k < |t.conns| ensures x !in t.conns[k].calls {
      assert k < |s.conns| ==> x !in s.conns[k].calls;
    }
  }

  lemma JoinGone(home: nat, s: Sys, k: nat, x: nat)
    requires Gone(home, s, x) && s.cc < k < |s.conns| && Vouched(C.JoinAt(s, k))
    ensures Gone(home, C.JoinAt(s, k), x)
  {
    var t := C.JoinAt(s, k);
    C.ClientResumeDistinct(s, k);
    C.JoinPromised(s, k);
    forall l | 0 <= l < |t.conns| ensures CallsOk(|t.issued|, t.conns[l].calls) {
      assert CallsOk(|s.issued|, s.conns[l].calls);
    }
    forall l | t.sc < l < |t.conns| ensures x !in t.conns[l].calls {
      assert x !in s.conns[l].calls;
    }
    FrontOfPrefix(t);
    assert k != s.sc || k < Hears(s) ==> Limits.Pending(t) == Limits.Pending(s) && FrontOf(t) == FrontOf(s);
  }

  lemma DeliverGone(home: nat, s: Sys, x: nat)
    requires Gone(home, s, x) && Typed(s) && s.conns[s.cc].replies != []
    ensures Gone(home, Deliver(s), x)
  {
    var t := Deliver(s);
    C.DeliverShape(s);
    C.DeliverDistinct(s, t);
    C.DeliverPromised(s, t);
    assert forall k :: 0 <= k < |s.conns| ==> t.conns[k].calls == s.conns[k].calls;
    assert x in t.calls ==> x in Elems(t.calls) && x in Elems(s.calls);
    assert FrontOf(t) == FrontOf(s);
  }

  // ----- steps of the server

  lemma XprtGone(home: nat, s: Sys, y: RS.Xprt, x: nat)
    requires Gone(home, s, x) && y.pktsize == s.srv.xi.pktsize && (y.up ==> s.srv.xi.up)
    ensures Gone(home, s.(srv := s.srv.(xi := y)), x)
  {
    var t := s.(srv := s.srv.(xi := y));
    DistinctIfFewer(s, t);
    FrontShrinks(s.issued, s.srv.rtab, s.srv.rtab, y.pktsize, s.srv.xi.up, y.up, s.conns[s.sc].calls);
    S.PromisedGrows(s.conns, s.cc, Hears(s), Hears(t));
  }

  lemma ResumeGone(home: nat, s: Sys, k: nat, size: nat, z: int, x: nat)
    requires Gone(home, s, x) && s.sc < k < |s.conns|
    ensures Gone(home, S.ResumedAt(s, k, size, z), x)
  {
    var t := S.ResumedAt(s, k, size, z);
    S.ServerResumeDistinct(s, k, size, z);
    S.PromisedGrows(s.conns, s.cc, Hears(s), Hears(t));
    forall j | j in t.srv.rtab ensures Keyed(t.issued, j, t.srv.rtab[j]) {
      assert Keyed(s.issued, j, s.srv.rtab[j]);
    }
    forall l | k <= l < |t.conns| ensures x !in t.conns[l].calls {
      assert x !in s.conns[l].calls;
    }
    FrontOfPrefix(t);
  }

  lemma OtherGone(home: nat, s: Sys, b: bytes, x: nat)
    requires Gone(home, s, x) && s.srv.xi.up && |b| <= s.srv.xi.pktsize
    ensures Gone(home, S.Pushed(s, s.srv.(xi := RS.Send(s.srv.xi, b)), Other(b)), x)
  {
    var t := S.Pushed(s, s.srv.(xi := RS.Send(s.srv.xi, b)), Other(b));
    S.PushDistinct(s, t.srv, Other(b));
    S.PushPromised(s, Other(b));
    assert forall k :: 0 <= k < |s.conns| ==> t.conns[k].calls == s.conns[k].calls;
    assert FrontOf(t) == FrontOf(s);
  }

  lemma DropGone(home: nat, s: Sys, i: nat, x: nat)
    requires Gone(home, s, x) && InProgress(s, i)
    ensures Gone(home, S.Dropped(s, i), x)
  {
    S.DropIds(s, i);
    S.DropFront(s, i);
    DistinctIfFewer(s, S.Dropped(s, i));
  }

  /** A reply is recorded: nothing comes within reach by it. */
  lemma RecordGone(home: nat, s: Sys, key: RS.Key, b: bytes, srv: RS.Server, taken: bool, x: nat)
    requires Gone(home, s, x) && S.Records(s, key, b, srv, taken)
    ensures Gone(home, S.Recorded(s, key, b, srv, taken), x)
  {
    var t := S.Recorded(s, key, b, srv, taken);
    S.RecordDistinct(s, key, b, srv, taken);
    S.RecordFront(s, key, b, srv, taken);
    if taken { S.PushPromised(s, Answer(s.srv.rtab[key].id, b)); }
    S.PromisedGrows(t.conns, t.cc, Hears(s), Hears(t));
    assert forall k :: 0 <= k < |s.conns| ==> t.conns[k].calls == s.conns[k].calls;
    forall k | k in t.srv.rtab ensures Keyed(t.issued, k, t.srv.rtab[k]) {
      assert Keyed(s.issued, k, s.srv.rtab[k]);
    }
  }

  /** What was received is evicted: harmlessly, as long as the server is at home. */
  lemma EvictGone(home: nat, s: Sys, x: nat)
    requires Gone(home, s, x) && Typed(s)
    requires s.sc == home ==> forall y :: y in S.EvictedIds(s) ==> y !in FrontOf(S.Evicted(s))
    ensures Gone(home, S.Evicted(s), x)
  {
    var t := S.Evicted(s);
    S.EvictDistinct(s);
    S.EvictPromised(s);
    if s.sc == home { S.EvictFront(s); }
    assert forall k :: 0 <= k < |s.conns| ==> t.conns[k].calls == s.conns[k].calls;
    forall k | k in t.srv.rtab ensures Keyed(t.issued, k, t.srv.rtab[k]) {
      assert Keyed(s.issued, k, s.srv.rtab[k]);
    }
  }

  lemma ReplyGone(home: nat, s: Sys, i: nat, b: bytes, x: nat)
    requires Gone(home, s, x) && Goes(home, s, ServerReply(i, b))
    ensures Gone(home, Apply(s, ServerReply(i, b)), x)
  {
    var u := S.ReplyRecords(s, i, b);
    RecordGone(home, s, KeyOf(s, i), b, Answered(s, i, b), s.srv.xi.up && |b| <= s.srv.xi.pktsize, x);
    S.ReplyForgets(s, i, b, u);
    forall y | u.sc == home && y in S.EvictedIds(u) ensures y !in FrontOf(S.Evicted(u)) {
      assert Forgets(s, ServerReply(i, b), y);
    }
    EvictGone(home, u, x);
  }

  lemma PopCalls(n: nat, q: seq<nat>)
    requires q != [] && CallsOk(n, q)
    ensures CallsOk(n, q[1..])
  {
  }

  /** The next call is read; nothing else comes within reach. */
  lemma PopGone(home: nat, s: Sys, t: Sys, x: nat)
    requires Gone(home, s, x) && Orderly(t) && t.issued == s.issued && t.sc == s.sc && t.calls == s.calls
        && |t.conns| == |s.conns|
    requires Limits.Pending(s) != [] && Limits.Pending(t) == Limits.Pending(s)[1..]
    requires forall k :: 0 <= k < |s.conns| && k != s.sc ==> t.conns[k].calls == s.conns[k].calls
    requires Promised(s.conns, s.cc, Hears(s)) <= Promised(t.conns, t.cc, Hears(t))
    requires s.sc == home ==> FrontOf(s) == [Limits.Pending(s)[0]] + FrontOf(t)
    ensures Gone(home, t, x)
  {
    forall k | t.sc < k < |t.conns| ensures x !in t.conns[k].calls {
      assert x !in s.conns[k].calls;
    }
  }

  /** Reading a call in progress. */
  lemma SkipGone(home: nat, s: Sys, x: nat)
    requires Gone(home, s, x) && Typed(s) && Limits.Pending(s) != [] && KeyOf(s, Limits.Pending(s)[0]) in s.srv.rtab
    requires s.srv.rtab[KeyOf(s, Limits.Pending(s)[0])].res.None?
    ensures Gone(home, S.Popped(s), x)
  {
    var t := S.Popped(s);
    PopCalls(|s.issued|, Limits.Pending(s));
    S.PopDistinct(s);
    SamePromised(s.conns, t.conns, s.cc, Hears(s));
    assert FrontOf(s) == [Limits.Pending(s)[0]] + FrontOf(t);
    PopGone(home, s, t, x);
  }

  lemma ResendRecords(s: Sys, key: RS.Key, b: bytes, srv: RS.Server, taken: bool)
    requires Typed(s) && Enabled(s, ServerRecv) && key == KeyOf(s, Limits.Pending(s)[0]) && key in s.srv.rtab
    requires s.srv.rtab[key].res == Some(b) && srv == RS.Replay(s.srv, key) && taken == (|b| <= s.srv.xi.pktsize)
    ensures S.Records(s, key, b, srv, taken)
    ensures var t, p := ReadCall(s), S.Popped(S.Recorded(s, key, b, srv, taken)); t == p.(computed := s.computed)
  {
    RS.ReplayKeeps(s.srv, key);
  }

  /** Reading a call that has been answered. */
  lemma ResendGone(home: nat, s: Sys, key: RS.Key, b: bytes, srv: RS.Server, taken: bool, t: Sys, x: nat)
    requires Gone(home, s, x) && Limits.Pending(s) != [] && S.Records(s, key, b, srv, taken)
    requires t == S.Popped(S.Recorded(s, key, b, srv, taken)).(computed := s.computed)
    requires FrontOf(s) == [Limits.Pending(s)[0]] + FrontOf(t)
    ensures Gone(home, t, x)
  {
    var u := S.Recorded(s, key, b, srv, taken);
    RecordGone(home, s, key, b, srv, taken, x);
    S.PopDistinct(u);
    PopCalls(|s.issued|, Limits.Pending(s));
    DistinctIfFewer(S.Popped(u), t);
    S.ResendPromised(s, key, b, srv, taken, S.Popped(u));
    PopGone(home, s, t, x);
  }

  lemma KnownGone(home: nat, s: Sys, x: nat)
    requires Gone(home, s, x) && Typed(s) && Enabled(s, ServerRecv) && KeyOf(s, Limits.Pending(s)[0]) in s.srv.rtab
    ensures Gone(home, ReadCall(s), x)
  {
    var key := KeyOf(s, Limits.Pending(s)[0]);
    if s.srv.rtab[key].res.Some? {
      var b := s.srv.rtab[key].res.value;
      S.ResendFront(s, key);
      ResendRecords(s, key, b, RS.Replay(s.srv, key), |b| <= s.srv.xi.pktsize);
      ResendGone(home, s, key, b, RS.Replay(s.srv, key), |b| <= s.srv.xi.pktsize, ReadCall(s), x);
    } else {
      SkipGone(home, s, x);
    }
  }

  lemma FreshOrderly(s: Sys)
    requires Orderly(s) && Typed(s) && Limits.Pending(s) != [] && KeyOf(s, Limits.Pending(s)[0]) !in s.srv.rtab
    ensures Orderly(S.Executed(s))
  {
    var i, t := Limits.Pending(s)[0], S.Executed(s);
    S.FreshDistinct(s);
    RS.FreshKeeps(s.srv, KeyOf(s, i), i);
    PopCalls(|s.issued|, Limits.Pending(s));
    forall k | k in t.srv.rtab ensures Keyed(t.issued, k, t.srv.rtab[k]) {
      assert k != KeyOf(s, i) ==> Keyed(s.issued, k, s.srv.rtab[k]);
    }
  }

  /** As long as the server is at home, what a fresh call evicts is not within reach. */
  lemma FreshHarmless(s: Sys)
    requires Orderly(s) && Typed(s) && Enabled(s, ServerRecv) && Benign(s, ServerRecv)
    requires KeyOf(s, Limits.Pending(s)[0]) !in s.srv.rtab
    ensures FrontOf(s) == [Limits.Pending(s)[0]] + FrontOf(S.Executed(s))
  {
    var i := Limits.Pending(s)[0];
    assert Unread(s.conns, s.sc, i) && Live(s, i);
    S.KeyFindsCall(s, i);
    S.FreshForgets(s);
    S.FreshFront(s);
  }

  /** Reading a call the server does not know; it is another one. */
  lemma FreshGone(home: nat, s: Sys, x: nat)
    requires Gone(home, s, x) && Goes(home, s, ServerRecv) && KeyOf(s, Limits.Pending(s)[0]) !in s.srv.rtab
    ensures Gone(home, S.Executed(s), x)
  {
    var t := S.Executed(s);
    FreshOrderly(s);
    if s.sc == home { FreshHarmless(s); }
    SamePromised(s.conns, t.conns, s.cc, Hears(s));
    PopGone(home, s, t, x);
  }

  lemma ReadGone(home: nat, s: Sys, x: nat)
    requires Gone(home, s, x) && Goes(home, s, ServerRecv)
    ensures Gone(home, ReadCall(s), x) && multiset(ReadCall(s).executed)[x] == multiset(s.executed)[x]
  {
    var i := Limits.Pending(s)[0];
    assert i in FrontOf(s) && i != x;
    if KeyOf(s, i) in s.srv.rtab {
      KnownGone(home, s, x);
    } else {
      FreshGone(home, s, x);
      assert ReadCall(s) == S.Executed(s);
      assert multiset(s.executed + [i]) == multiset(s.executed) + multiset{i};
    }
  }

  // ----- every step

  lemma ClientGone(home: nat, s: Sys, st: Step, x: nat)
    requires Gone(home, s, x) && Goes(home, s, st)
    requires !(st.ServerRecv? || st.ServerReply? || st.ServerDrop? || st.ServerOther? || st.ServerResume?)
    ensures Gone(home, Apply(s, st), x) && Apply(s, st).executed == s.executed
  {
    match st
    case Issue(c) => IssueGone(home, s, c, x);
    case Cancel(i) => CancelGone(home, s, i, x);
    case Connect => ConnectGone(home, s, x);
    case ClientEof => DistinctIfFewer(s, s.(sending := false)); assert FrontOf(s.(sending := false)) == FrontOf(s);
    case ClientResume(k) => JoinGone(home, s, k, x);
    case ClientRecv => DeliverGone(home, s, x);
    case ServerEof => XprtGone(home, s, s.srv.xi.(up := false), x);
    case Ack(n) => XprtGone(home, s, s.srv.xi.(acked := Max(s.srv.xi.acked, n)), x);
  }

  lemma StepGone(home: nat, s: Sys, st: Step, x: nat)
    requires Gone(home, s, x) && Goes(home, s, st)
    ensures Gone(home, Apply(s, st), x) && multiset(Apply(s, st).executed)[x] == multiset(s.executed)[x]
  {
    match st
    case ServerResume(k, p, z) => ResumeGone(home, s, k, p, z, x);
    case ServerRecv => ReadGone(home, s, x);
    case ServerReply(i, b) => ReplyGone(home, s, i, b, x);
    case ServerDrop(i) => DropGone(home, s, i, x);
    case ServerOther(b) => OtherGone(home, s, b, x);
    case _ => ClientGone(home, s, st, x);
  }

  /** Gone for good: no continuation executes the call again. */
  lemma {:induction false} PathGone(home: nat, s: Sys, steps: seq<Step>, u: Sys, x: nat)
    requires Gone(home, s, x) && Path(home, s, steps, u)
    ensures multiset(u.executed)[x] == multiset(s.executed)[x]
    decreases |steps|
  {
    if steps != [] {
      StepGone(home, s, steps[0], x);
      PathGone(home, Apply(s, steps[0]), steps[1..], u, x);
    }
  }
}
