/** What holds in every run of a resumable session. */
module SessionSafety {
  import opened Common
  import opened Session
  import opened SessionInv
  import opened SessionFront
  import C = SessionClientSteps
  import S = SessionServerSteps
  import RS = ResumableServer
  import Lane = SessionLanes

  /** One step of a run: enabled, and within what is assumed of the environment. */
  ghost predicate Allowed(s: Sys, st: Step, t: Sys) {
    Typed(s) && Enabled(s, st) && Assumed(s, st) && t == Apply(s, st) && t.cc < |t.conns| && Vouched(t)
  }

  lemma ServerStepKeeps(s: Sys, st: Step, t: Sys)
    requires Inv(s) && Allowed(s, st, t) && Benign(s, st)
    requires st.ServerRecv? || st.ServerReply? || st.ServerDrop? || st.ServerOther? || st.ServerResume?
    ensures Inv(t)
  {
    match st
    case ServerResume(k, p, z) => S.ServerResumeKeeps(s, k, p, z);
    case ServerRecv => S.ReadCallKeeps(s);
    case ServerReply(i, b) => S.ReplyKeeps(s, i, b);
    case ServerDrop(i) => S.DropKeeps(s, i);
    case ServerOther(b) => S.OtherKeeps(s, b);
  }

  lemma StepKeeps(s: Sys, st: Step, t: Sys)
    requires Inv(s) && Allowed(s, st, t) && Benign(s, st)
    ensures Inv(t)
  {
    if st.ServerRecv? || st.ServerReply? || st.ServerDrop? || st.ServerOther? || st.ServerResume? {
      ServerStepKeeps(s, st, t);
    } else {
      ClientStepKeeps(s, st, t);
    }
  }

  lemma ClientStepKeeps(s: Sys, st: Step, t: Sys)
    requires Inv(s) && Allowed(s, st, t)
    requires !(st.ServerRecv? || st.ServerReply? || st.ServerDrop? || st.ServerOther? || st.ServerResume?)
    ensures Inv(t)
  {
    if st.ServerEof? || st.Ack? {
      S.ServerXprtKeeps(s, t.srv.xi);
    } else if st.ClientResume? || st.ClientRecv? {
      ClientMoveKeeps(s, st, t);
    } else {
      match st
      case Issue(c) => C.IssueKeeps(s, c);
      case Cancel(i) => C.CancelKeeps(s, i);
      case Connect => C.ConnectKeeps(s);
      case ClientEof => C.ClientEofKeeps(s);
    }
  }

  lemma ClientMoveKeeps(s: Sys, st: Step, t: Sys)
    requires Inv(s) && Allowed(s, st, t) && (st.ClientResume? || st.ClientRecv?)
    ensures Inv(t)
  {
    if st.ClientResume? {
      C.ClientResumeKeeps(s, st.conn);
    } else {
      C.DeliverKeeps(s);
    }
  }

  /** A run from the initial state, every step allowed. */
  ghost predicate Run(states: seq<Sys>, steps: seq<Step>) {
    && |states| == |steps| + 1
    && (exists pktsize, sndbufsz :: states[0] == Init(pktsize, sndbufsz))
    && forall i :: 0 <= i < |steps| ==> Allowed(states[i], steps[i], states[i + 1])
  }

  /** A run of benign steps only. */
  ghost predicate BenignRun(states: seq<Sys>, steps: seq<Step>) {
    && Run(states, steps)
    && forall i :: 0 <= i < |steps| ==> Allowed(states[i], steps[i], states[i + 1]) && Benign(states[i], steps[i])
  }

  ghost predicate Reachable(s: Sys) {
    exists states, steps :: Run(states, steps) && states[|steps|] == s
  }

  /** Reached by benign steps only. */
  ghost predicate SafelyReachable(s: Sys) {
    exists states, steps :: BenignRun(states, steps) && states[|steps|] == s
  }

  lemma ReachStep(s: Sys, st: Step, t: Sys)
    requires Reachable(s) && Allowed(s, st, t)
    ensures Reachable(t)
  {
    var states, steps :| Run(states, steps) && states[|steps|] == s;
    RunExtends(states, steps, st, t);
    assert (states + [t])[|steps + [st]|] == t;
  }

  lemma SafeStep(s: Sys, st: Step, t: Sys)
    requires SafelyReachable(s) && Allowed(s, st, t) && Benign(s, st)
    ensures SafelyReachable(t)
  {
    var states, steps :| BenignRun(states, steps) && states[|steps|] == s;
    RunExtends(states, steps, st, t);
    BenignExtends(states, steps, st, t);
    assert (states + [t])[|steps + [st]|] == t;
  }

  lemma RunExtends(states: seq<Sys>, steps: seq<Step>, st: Step, t: Sys)
    requires Run(states, steps) && Allowed(states[|steps|], st, t)
    ensures Run(states + [t], steps + [st])
  {
    var states', steps' := states + [t], steps + [st];
    forall i | 0 <= i < |steps'| ensures Allowed(states'[i], steps'[i], states'[i + 1]) {
      assert i < |steps| ==> Allowed(states[i], steps[i], states[i + 1]);
    }
    assert states'[0] == states[0];
  }

  lemma BenignExtends(states: seq<Sys>, steps: seq<Step>, st: Step, t: Sys)
    requires BenignRun(states, steps) && Run(states + [t], steps + [st]) && Allowed(states[|steps|], st, t)
    requires Benign(states[|steps|], st)
    ensures BenignRun(states + [t], steps + [st])
  {
    var states', steps' := states + [t], steps + [st];
    forall i | 0 <= i < |steps'|
      ensures Allowed(states'[i], steps'[i], states'[i + 1]) && Benign(states'[i], steps'[i])
    {
      if i < |steps| {
        assert states'[i] == states[i] && steps'[i] == steps[i] && states'[i + 1] == states[i + 1];
      } else {
        assert states'[i] == states[|steps|] && steps'[i] == st && states'[i + 1] == t;
      }
    }
  }

  lemma {:induction false} RunInv(states: seq<Sys>, steps: seq<Step>, n: nat)
    requires BenignRun(states, steps) && n < |states|
    ensures Inv(states[n])
  {
    if n == 0 {
      var pktsize, sndbufsz :| states[0] == Init(pktsize, sndbufsz);
      InitOk(pktsize, sndbufsz);
    } else {
      RunInv(states, steps, n - 1);
      StepKeeps(states[n - 1], steps[n - 1], states[n]);
    }
  }

  lemma SafeInv(s: Sys)
    requires SafelyReachable(s)
    ensures Inv(s) && Typed(s) && Reachable(s)
  {
    var states, steps :| BenignRun(states, steps) && states[|steps|] == s;
    RunInv(states, steps, |steps|);
    InvTyped(s);
  }

  /** No call was executed more often than once, and once more for each time the service dropped it. */
  ghost predicate Within(s: Sys) {
    forall i :: multiset(s.executed)[i] <= 1 + multiset(s.dropped)[i]
  }

  /** At most once: in every benign run, whatever breaks and resumes happen, no call is handed to the
      service twice, unless the service itself dropped it; every drop allows one execution more. */
  lemma AtMostOnce(states: seq<Sys>, steps: seq<Step>)
    requires BenignRun(states, steps)
    ensures forall n :: 0 <= n < |states| ==> Within(states[n])
    ensures forall n :: 0 <= n < |states| && states[n].dropped == [] ==> NoDup(states[n].executed)
  {
    forall n | 0 <= n < |states| ensures Within(states[n]) && (states[n].dropped == [] ==> NoDup(states[n].executed)) {
      RunInv(states, steps, n);
      if states[n].dropped == [] {
        OnceEach(states[n].executed);
      }
    }
  }

  lemma OnceEach(q: seq<nat>)
    requires forall i :: multiset(q)[i] <= 1
    ensures NoDup(q)
  {
    forall i, j | 0 <= i < j < |q| ensures q[i] != q[j] {
      assert q == q[..j] + [q[j]] + q[j + 1..];
      assert multiset(q) == multiset(q[..j]) + multiset{q[j]} + multiset(q[j + 1..]);
      assert q[i] == q[..j][i] && multiset(q[..j])[q[i]] > 0;
      assert multiset(q)[q[j]] >= multiset(q[..j])[q[j]] + 1;
    }
  }

  lemma ComputedKept(s: Sys, st: Step, t: Sys, i: nat)
    requires Typed(s) && Enabled(s, st) && t == Apply(s, st) && i in s.computed
    ensures i in t.computed && t.computed[i] == s.computed[i]
  {
    if st.ServerReply? {
      assert t == SendReply(s, st.id, st.body);
    } else {
      assert t.computed == s.computed;
    }
  }

  /** The first reply computed for a call is never replaced, in any run. */
  lemma {:induction false} ComputedStays(states: seq<Sys>, steps: seq<Step>, a: nat, b: nat, i: nat)
    requires Run(states, steps) && a <= b < |states| && i in states[a].computed
    ensures i in states[b].computed && states[b].computed[i] == states[a].computed[i]
  {
    if a < b {
      ComputedStays(states, steps, a, b - 1, i);
      ComputedKept(states[b - 1], steps[b - 1], states[b], i);
    }
  }

  /** Every reply sent for a call, the first time or any later time, carries the bytes first
      computed for it, and those are what the client's call returns. */
  lemma OneAnswer(states: seq<Sys>, steps: seq<Step>, a: nat, b: nat)
    requires BenignRun(states, steps) && a <= b < |states|
    ensures forall k, j :: 0 <= k < |states[a].conns| && 0 <= j < |states[a].conns[k].replies|
              ==> AnswerOk(|states[a].issued|, states[b].computed, states[a].conns[k].replies[j])
    ensures forall i :: i in states[a].results
              ==> i in states[b].computed && states[a].results[i] == states[b].computed[i]
  {
    RunInv(states, steps, a);
    forall i | i in states[a].computed
      ensures i in states[b].computed && states[b].computed[i] == states[a].computed[i]
    {
      ComputedStays(states, steps, a, b, i);
    }
  }

  /** In issue order, the outstanding calls that the server knows (or dropped, or whose answer the client
      is sure to process) form a prefix of the outstanding calls, and the calls it knows or dropped on its
      connection form a prefix of what it can still read there. */
  lemma KnownIsPrefix(states: seq<Sys>, steps: seq<Step>, n: nat)
    requires BenignRun(states, steps) && n < |states|
    ensures var s := states[n]; var known := KnownIds(s.srv.rtab) + s.undone;
            && s.cc < |s.conns| && s.sc < |s.conns|
            && (forall p, q :: 0 <= p < q < |s.calls| && s.calls[q] in known
                  ==> s.calls[p] in known || s.calls[p] in Promised(s.conns, s.cc, Hears(s)))
            && (forall p, q :: 0 <= p < q < |FrontOf(s)| && FrontOf(s)[q] in known ==> FrontOf(s)[p] in known)
  {
    RunInv(states, steps, n);
    var s := states[n];
    FrontOfPrefix(s);
    assert CallsOk(|s.issued|, s.conns[s.sc].calls);
    PrefixOfCalls(s);
    PrefixOfFront(s);
  }

  lemma PrefixOfCalls(s: Sys)
    requires s.sc < |s.conns| && s.cc < |s.conns| && Lane.Inv(Abs(s)) && Increasing(s.calls)
    ensures forall p, q :: 0 <= p < q < |s.calls| && s.calls[q] in Abs(s).known
              ==> s.calls[p] in Abs(s).known || s.calls[p] in Abs(s).promised
  {
    var a := Abs(s);
    forall p, q | 0 <= p < q < |s.calls| && s.calls[q] in a.known ensures a.Settled(a.Last(), s.calls[p]) {
      assert a.At(a.Last(), s.calls[p]) && a.At(a.Last(), s.calls[q]);
    }
  }

  lemma PrefixOfFront(s: Sys)
    requires s.sc < |s.conns| && s.cc < |s.conns| && Lane.Inv(Abs(s)) && Increasing(FrontOf(s))
    ensures forall p, q :: 0 <= p < q < |FrontOf(s)| && FrontOf(s)[q] in Abs(s).known ==> FrontOf(s)[p] in Abs(s).known
  {
    var a, lane := Abs(s), FrontOf(s);
    forall p, q | 0 <= p < q < |lane| && lane[q] in a.known ensures lane[p] in a.known {
      assert a.At(s.sc, lane[p]) && a.At(s.sc, lane[q]);
    }
  }

  // ----- where the condition is empty

  /** On a live stream, reading a call that was not dropped before is always benign. */
  lemma LiveReadIsBenign(s: Sys)
    requires Inv(s) && Typed(s) && Enabled(s, ServerRecv) && (s.srv.xi.up || s.srv.xi.sent > 0)
    requires s.conns[s.sc].calls[0] !in s.undone
    ensures Benign(s, ServerRecv)
  {
    var i := s.conns[s.sc].calls[0];
    assert Unread(s.conns, s.sc, i) && Live(s, i);
    S.KeyFindsCall(s, i);
    if KeyOf(s, i) in s.srv.rtab {
      ReplayForgetsNothing(s);
    } else {
      S.FreshForgets(s);
      assert CallsOk(|s.issued|, s.conns[s.sc].calls);
      S.NextInFront(s);
      CutIsKnown(s);
      Lane.FreshNeedsNoLeftover(Abs(s), i);
      forall x | Forgets(s, ServerRecv, x) ensures !Returns(Apply(s, ServerRecv), x) {
        NotReturning(s, x);
      }
    }
  }

  /** What keeps the server from reading on is a call it knows. */
  lemma BlockIsKnown(s: Sys)
    requires Typed(s) && KeysOk(s.issued, s.srv.rtab) && Distinct(s) && Increasing(s.conns[s.sc].calls)
    ensures FrontOf(s) != s.conns[s.sc].calls ==>
              exists b :: b in FrontOf(s) && b in KnownIds(s.srv.rtab) && forall x :: x in FrontOf(s) ==> x <= b
  {
    var q, f := s.conns[s.sc].calls, FrontOf(s);
    FrontOfPrefix(s);
    FrontEnds(s.issued, s.srv.rtab, s.srv.xi.pktsize, s.srv.xi.up, q);
    if f != q {
      var i := f[|f| - 1];
      LastIsMost(f);
      CachedIsKnown(s, i);
    }
  }

  lemma LastIsMost(f: seq<nat>)
    requires f != [] && Increasing(f)
    ensures f[|f| - 1] in f && forall x :: x in f ==> x <= f[|f| - 1]
  {
  }

  lemma CachedIsKnown(s: Sys, i: nat)
    requires Typed(s) && KeysOk(s.issued, s.srv.rtab) && Distinct(s)
    requires i in s.conns[s.sc].calls && Resent(s.issued, s.srv.rtab, i).Some?
    ensures i in KnownIds(s.srv.rtab)
  {
    assert Unread(s.conns, s.sc, i) && Live(s, i);
    S.KeyFindsCall(s, i);
  }

  lemma CutIsKnown(s: Sys)
    requires Inv(s) && Typed(s)
    ensures Lane.CutKnown(Abs(s))
  {
    assert CallsOk(|s.issued|, s.conns[s.sc].calls);
    BlockIsKnown(s);
    if Abs(s).cut {
      var b :| b in FrontOf(s) && b in KnownIds(s.srv.rtab) && forall x :: x in FrontOf(s) ==> x <= b;
      assert Abs(s).At(s.sc, b);
    }
  }

  /** If no leftover is on any lane, none returns when a fresh call is read. */
  lemma NotReturning(s: Sys, x: nat)
    requires Typed(s) && Enabled(s, ServerRecv) && KeyOf(s, s.conns[s.sc].calls[0]) !in s.srv.rtab
    requires KeysOk(s.issued, s.srv.rtab) && Distinct(s) && Increasing(s.conns[s.sc].calls)
    requires forall l, y :: Abs(s).At(l, y) ==> y !in LeftoverIds(s.srv.rtab)
    requires x in LeftoverIds(s.srv.rtab)
    ensures !Returns(Apply(s, ServerRecv), x)
  {
    var t := Apply(s, ServerRecv);
    assert t == S.Executed(s);
    forall y | y in FrontOf(s) ensures y !in LeftoverIds(s.srv.rtab) { assert Abs(s).At(s.sc, y); }
    S.FreshFrontFrom(s);
    assert !Abs(s).At(|s.conns|, x);
    forall k | t.sc < k < |t.conns| ensures x !in t.conns[k].calls {
      assert !Abs(s).At(k, x);
    }
    assert x !in FrontOf(s);
  }

  lemma ReplayForgetsNothing(s: Sys)
    requires Typed(s) && Enabled(s, ServerRecv) && KeyOf(s, s.conns[s.sc].calls[0]) in s.srv.rtab
    ensures forall x :: !Forgets(s, ServerRecv, x)
  {
    var r, r' := s.srv.rtab, Apply(s, ServerRecv).srv.rtab;
    forall x | x in KnownIds(r) ensures x in KnownIds(r') {
      var k :| k in r && r[k].id == x;
      assert k in r' && r'[k].id == x;
    }
  }

  /** No other step than a reply and the reading of a call evicts anything. */
  lemma OthersAreBenign(s: Sys, st: Step)
    requires Typed(s) && Enabled(s, st) && !st.ServerReply? && !st.ServerRecv?
    ensures Benign(s, st)
  {
    if st.ServerResume? {
      S.ResumeSameIds(s.srv, RS.Xprt(true, 0, st.pktsize, st.sndbufsz, 0));
    }
  }
}
