/**
 The condition on a step is exact, call by call: a call that a step evicts is executed again in some
 continuation exactly if it returns.
 */
module SessionExact {
  import opened Common
  import opened Session
  import opened SessionInv
  import opened SessionFront
  import opened SessionSafety
  import opened SessionReturn
  import Gone = SessionGone
  import RS = ResumableServer
  import Lane = SessionLanes
  import S = SessionServerSteps

  /** Some continuation executes call x again.  Its steps are allowed; those that the server takes before it
      leaves its connection are benign, so that no other eviction clears the way. */
  ghost predicate Again(t: Sys, x: nat) {
    exists steps, u :: Path(t.sc, t, steps, u) && multiset(u.executed)[x] > multiset(t.executed)[x]
  }

  // ----- the state after an eviction

  lemma EvictedSane(s: Sys)
    requires Inv(s) && Typed(s) && Vouched(S.Evicted(s))
    ensures Sane(S.Evicted(s))
  {
    var t := S.Evicted(s);
    S.EvictStream(s);
    S.EvictDistinct(s);
    RS.ForgetKeeps(s.srv, RS.Acknowledged(s.srv));
    forall k | k in t.srv.rtab ensures Keyed(t.issued, k, t.srv.rtab[k]) {
      assert Keyed(s.issued, k, s.srv.rtab[k]);
    }
  }

  lemma EvictedForgotten(s: Sys, k: RS.Key)
    requires Inv(s) && Typed(s) && Vouched(S.Evicted(s)) && k in RS.Acknowledged(s.srv)
    ensures k in s.srv.rtab && RS.Valid(S.Evicted(s).srv) && Forgotten(S.Evicted(s), s.srv.rtab[k].id)
  {
    var t := S.Evicted(s);
    assert k in s.srv.rq && Keyed(s.issued, k, s.srv.rtab[k]);
    EvictedSane(s);
    forall l | l in t.srv.rq ensures t.srv.rtab[l].offset != 0 {
      assert l in s.srv.rq && l !in RS.Leftovers(s.srv);
    }
  }

  /** The server reads a call that is not in its table. */
  ghost predicate ReadsFresh(s: Sys) {
    Inv(s) && Typed(s) && s.conns[s.sc].calls != [] && KeyOf(s, s.conns[s.sc].calls[0]) !in s.srv.rtab
  }

  lemma FreshSane(s: Sys)
    requires ReadsFresh(s)
    ensures Sane(S.Executed(s)) && RS.Leftovers(S.Executed(s).srv) == {}
  {
    var t := S.Executed(s);
    var i := s.conns[s.sc].calls[0];
    S.PopConns(s);
    S.FreshDistinct(s);
    RS.EnterKeeps(s.srv, KeyOf(s, i), i);
    RS.FreshKeeps(s.srv, KeyOf(s, i), i);
    forall k | k in t.srv.rtab ensures Keyed(t.issued, k, t.srv.rtab[k]) {
      assert k != KeyOf(s, i) ==> Keyed(s.issued, k, s.srv.rtab[k]);
    }
  }

  lemma FreshForgotten(s: Sys, x: nat)
    requires ReadsFresh(s) && x in LeftoverIds(s.srv.rtab)
    ensures RS.Valid(S.Executed(s).srv) && Forgotten(S.Executed(s), x)
  {
    var i := s.conns[s.sc].calls[0];
    FreshSane(s);
    var k :| k in s.srv.rtab && s.srv.rtab[k].res.Some? && s.srv.rtab[k].offset == 0 && s.srv.rtab[k].id == x;
    assert Keyed(s.issued, k, s.srv.rtab[k]) && k in s.srv.rq;
    RS.FreshKeeps(s.srv, KeyOf(s, i), i);
    assert k in RS.Leftovers(s.srv);
  }

  /** Whatever evicts a call leaves a table without it and without leftovers. */
  lemma AfterEviction(s: Sys, st: Step, t: Sys, x: nat)
    requires Inv(s) && Allowed(s, st, t) && Forgets(s, st, x)
    ensures Sane(t) && Forgotten(t, x)
  {
    if st.ServerReply? {
      var u := S.ReplyIsRecord(s, st.id, st.body);
      S.ReplyForgets(s, st.id, st.body, u);
      var k :| k in RS.Acknowledged(u.srv) && u.srv.rtab[k].id == x;
      EvictedSane(u);
      EvictedForgotten(u, k);
    } else {
      if !st.ServerRecv? { NoOtherForgets(s, st, x); }
      ReadForgets(s, x);
      FreshSane(s);
      FreshForgotten(s, x);
    }
  }

  lemma NoOtherForgets(s: Sys, st: Step, x: nat)
    requires Typed(s) && Enabled(s, st) && !st.ServerReply? && !st.ServerRecv?
    ensures !Forgets(s, st, x)
  {
    if st.ServerResume? {
      S.ResumeSameIds(s.srv, RS.Xprt(true, 0, st.pktsize, st.sndbufsz, 0));
    }
  }

  lemma ReadForgets(s: Sys, x: nat)
    requires Inv(s) && Typed(s) && Enabled(s, ServerRecv) && Forgets(s, ServerRecv, x)
    ensures ReadsFresh(s) && x in LeftoverIds(s.srv.rtab) && Apply(s, ServerRecv) == S.Executed(s)
  {
    var i := s.conns[s.sc].calls[0];
    assert Unread(s.conns, s.sc, i) && Live(s, i);
    S.KeyFindsCall(s, i);
    assert KeyOf(s, i) !in s.srv.rtab by {
      if KeyOf(s, i) in s.srv.rtab { ReplayForgetsNothing(s); }
    }
    S.FreshForgets(s);
  }

  // ----- the theorem

  lemma SaneGone(t: Sys, x: nat)
    requires Sane(t) && Forgotten(t, x) && !Returns(t, x)
    ensures Gone.Gone(t.sc, t, x)
  {
  }

  /** A call that a step evicts is executed again in some continuation exactly if it returns. */
  lemma ReturnsExact(s: Sys, st: Step, t: Sys, x: nat)
    requires Inv(s) && Allowed(s, st, t) && Forgets(s, st, x)
    ensures t.sc < |t.conns| && (Returns(t, x) <==> Again(t, x))
  {
    AfterEviction(s, st, t, x);
    if Returns(t, x) {
      var steps, u := Repeats(t, x);
    } else {
      SaneGone(t, x);
      forall steps, u | Path(t.sc, t, steps, u) ensures multiset(u.executed)[x] == multiset(t.executed)[x] {
        Gone.PathGone(t.sc, t, steps, u, x);
      }
    }
  }

  /** So a step is benign exactly if no continuation executes a call again that the step evicted. */
  lemma BenignExact(s: Sys, st: Step, t: Sys)
    requires Inv(s) && Allowed(s, st, t)
    ensures Benign(s, st) <==> forall x :: Forgets(s, st, x) ==> !Again(t, x)
  {
    forall x | Forgets(s, st, x) ensures t.sc < |t.conns| && (Returns(t, x) <==> Again(t, x)) {
      ReturnsExact(s, st, t, x);
    }
  }

  /** A known call ran exactly as often as its drops allow. */
  lemma KnownCount(s: Sys, x: nat)
    requires Inv(s) && x in KnownIds(s.srv.rtab)
    ensures multiset(s.executed)[x] == 1 + multiset(s.dropped)[x]
  {
    S.KnownExecuted(s);
    assert x in s.executed && x !in s.undone;
  }

  lemma EvictionRunsNothing(s: Sys, st: Step, t: Sys, x: nat)
    requires Inv(s) && Allowed(s, st, t) && Forgets(s, st, x)
    ensures multiset(t.executed)[x] >= multiset(s.executed)[x] && t.dropped == s.dropped
  {
    if st.ServerRecv? {
      ReadForgets(s, x);
      var i := s.conns[s.sc].calls[0];
      assert multiset(s.executed + [i]) == multiset(s.executed) + multiset{i};
    } else if !st.ServerReply? {
      NoOtherForgets(s, st, x);
    }
  }

  /** An evicted call that returns is executed too often in some continuation. */
  lemma Harm(s: Sys, st: Step, t: Sys, x: nat) returns (steps: seq<Step>, u: Sys)
    requires Inv(s) && Allowed(s, st, t) && Forgets(s, st, x) && t.sc < |t.conns| && Returns(t, x)
    ensures Path(t.sc, t, steps, u) && !Within(u)
  {
    AfterEviction(s, st, t, x);
    KnownCount(s, x);
    EvictionRunsNothing(s, st, t, x);
    steps, u := Repeats(t, x);
    assert multiset(u.executed)[x] > 1 + multiset(u.dropped)[x];
  }

  ghost predicate Harmed(t: Sys) {
    exists steps, u :: Path(t.sc, t, steps, u) && !Within(u)
  }

  lemma NotBenignHarms(s: Sys, st: Step, t: Sys)
    requires Inv(s) && Allowed(s, st, t) && !Benign(s, st)
    ensures Harmed(t)
  {
    var x := Culprit(s, st, t);
    var steps, u := Harm(s, st, t, x);
  }

  lemma Culprit(s: Sys, st: Step, t: Sys) returns (x: nat)
    requires Typed(s) && Enabled(s, st) && t == Apply(s, st) && !Benign(s, st)
    ensures Forgets(s, st, x) && t.sc < |t.conns| && Returns(t, x)
  {
    x :| Forgets(s, st, x) && Returns(Apply(s, st), x);
  }

  lemma HarmReaches(t: Sys)
    requires Reachable(t) && Harmed(t)
    ensures exists u :: Reachable(u) && !Within(u)
  {
    var steps, u :| Path(t.sc, t, steps, u) && !Within(u);
    PathReaches(t.sc, t, steps, u);
  }

  /** A step that is not benign, taken after benign ones, leads to a reachable state in which a call was
      executed more often than it may. */
  lemma HarmIsReached(s: Sys, st: Step, t: Sys)
    requires SafelyReachable(s) && Allowed(s, st, t) && !Benign(s, st)
    ensures exists u :: Reachable(u) && !Within(u)
  {
    SafeInv(s);
    ReachStep(s, st, t);
    NotBenignHarms(s, st, t);
    HarmReaches(t);
  }

  // ----- what it means for a reply

  /** The reply of an evicted call lies before what the server takes for received. */
  lemma AcknowledgedIsCovered(s: Sys, k: RS.Key)
    requires Inv(s) && Typed(s) && k in RS.Acknowledged(s.srv)
    ensures k in s.srv.rtab
    ensures var v := s.srv.rtab[k];
            && v.res.Some? && 0 < v.offset < RS.KnownReceived(s.srv.xi) <= s.srv.xi.sent
            && Covered(s.srv.xi, s.conns, s.sc, s.calls, v)
  {
    assert k in s.srv.rq && k !in RS.Leftovers(s.srv);
  }

  /** If the client has not processed that reply yet, it is on the server's connection or behind it,
      and on it the reply is promised. */
  lemma CarriedIsPromised(s: Sys, x: nat, end: nat, j: nat)
    requires Typed(s) && Vouched(S.Evicted(s)) && RS.Acknowledged(s.srv) != {}
    requires var c := s.conns[s.sc];
             Carries(c.processed, c.replies, j, x, end) && c.processed < end < RS.KnownReceived(s.srv.xi)
    ensures s.cc <= s.sc
    ensures x in PromisedOn(S.Evicted(s).conns[s.sc])
  {
    var t := S.Evicted(s);
    var c := t.conns[s.sc];
    assert c.vouched >= RS.KnownReceived(s.srv.xi);
    assert c.replies[..j + 1] == c.replies[..j] + [c.replies[j]];
    TotalAppend(c.replies[..j], c.replies[j]);
    assert c.replies[j].id == x && Start(c.processed, c.replies, j) < c.vouched;
  }

  /** An evicted call is on no later connection, and if it is outstanding the client is behind the server's
      connection or its answer is promised there. */
  lemma EvictedElsewhere(s: Sys, v: RS.Svc)
    requires Typed(s) && Lane.Shape(Abs(s)) && Vouched(S.Evicted(s)) && RS.Acknowledged(s.srv) != {}
    requires v.res.Some? && 0 < v.offset < RS.KnownReceived(s.srv.xi) <= s.srv.xi.sent
    requires Covered(s.srv.xi, s.conns, s.sc, s.calls, v)
    ensures !Unread(s.conns, s.sc + 1, v.id)
    ensures v.id in s.calls ==> s.cc <= s.sc && v.id in PromisedOn(S.Evicted(s).conns[s.sc])
  {
    var c := s.conns[s.sc];
    NothingBeyond(s);
    if v.offset > c.processed {
      var j: nat :| Carries(c.processed, c.replies, j, v.id, v.offset);
      CarriedIsPromised(s, v.id, v.offset, j);
    }
  }

  /** Call x is outstanding and the client will replay it when it comes to the server's connection. */
  ghost predicate Approaches(t: Sys, x: nat) {
    t.cc < t.sc && t.srv.xi.up && x in t.calls && Unpromised(t.conns, x, t.cc, t.sc)
  }

  lemma ReturnsHere(t: Sys, x: nat)
    requires t.sc < |t.conns| && t.cc < |t.conns| && !Unread(t.conns, t.sc + 1, x)
    requires x in t.calls ==> t.cc <= t.sc && x in PromisedOn(t.conns[t.sc])
    ensures Returns(t, x) <==> x in FrontOf(t) || Approaches(t, x)
  {
    assert Awaits(t.cc, Hears(t), t.sc) <==> t.cc == t.sc || (t.cc < t.sc && !t.srv.xi.up);
    assert forall k :: 0 <= k < t.sc && t.cc <= k ==> Awaits(t.cc, Hears(t), k);
  }

  /** A call that a reply evicts returns exactly if it is within reach on this connection, or it is outstanding
      and unpromised and the client has yet to come to this connection, which is up. */
  lemma EvictedReturns(s: Sys, k: RS.Key)
    requires Inv(s) && Typed(s) && Vouched(S.Evicted(s)) && k in RS.Acknowledged(s.srv) && k in s.srv.rtab
    ensures var x := s.srv.rtab[k].id; var t := S.Evicted(s);
            Returns(t, x) <==> x in FrontOf(t) || Approaches(t, x)
  {
    var t := S.Evicted(s);
    var x := s.srv.rtab[k].id;
    AcknowledgedIsCovered(s, k);
    EvictedElsewhere(s, s.srv.rtab[k]);
    forall l | t.sc + 1 <= l < |t.conns| ensures x !in t.conns[l].calls { assert x !in s.conns[l].calls; }
    ReturnsHere(t, x);
  }
}
