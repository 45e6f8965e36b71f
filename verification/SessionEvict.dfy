/** What is forgotten because it was received, and what is not sent because the transport has ended, over whole runs. */
module SessionEvict {
  import opened Common
  import opened Session
  import opened SessionSafety
  import RS = ResumableServer

  /** A step of the server's transport other than moving to another one takes no acknowledgement back. */
  lemma StepAcked(s: Sys, st: Step, t: Sys)
    requires Allowed(s, st, t) && !st.ServerResume?
    ensures t.srv.xi.acked >= s.srv.xi.acked && (st.Ack? ==> t.srv.xi.acked >= st.offset)
  {
  }

  /** Once acknowledged, always acknowledged, while the server stays on its connection. */
  lemma {:induction false} AckedStays(states: seq<Sys>, steps: seq<Step>, a: nat, b: nat)
    requires Run(states, steps) && a < b < |states| && steps[a].Ack?
    requires forall i :: a < i < b ==> !steps[i].ServerResume?
    ensures states[b].srv.xi.acked >= steps[a].offset
  {
    assert Allowed(states[b - 1], steps[b - 1], states[b]);
    StepAcked(states[b - 1], steps[b - 1], states[b]);
    if a < b - 1 { AckedStays(states, steps, a, b - 1); }
  }

  /** In every run: after the client has acknowledged n bytes of the connection, a reply that is sent there when no
      answer from an earlier connection is cached leaves none in the cache that ends before byte n, unless nothing
      was ever sent. */
  lemma AcknowledgedIsEvicted(states: seq<Sys>, steps: seq<Step>, a: nat, b: nat)
    requires Run(states, steps) && a < b < |steps| && steps[a].Ack? && steps[b].ServerReply?
    requires forall i :: a < i < b ==> !steps[i].ServerResume?
    requires LeftoverIds(states[b].srv.rtab) == {}
    ensures var srv := states[b + 1].srv;
            forall k :: k in srv.rtab && srv.rtab[k].res.Some? ==>
              srv.rtab[k].offset >= steps[a].offset || srv.xi.sent == 0
  {
    var s, t, st := states[b], states[b + 1], steps[b];
    assert Allowed(s, st, t);
    AckedStays(states, steps, a, b);
    RS.ReplyExact(s.srv, KeyOf(s, st.id), st.body);
    RS.ReplyKeeps(s.srv, KeyOf(s, st.id), st.body);
    var end := RS.EndAfter(s.srv.xi, st.body);
    forall k | k in s.srv.rq ensures s.srv.rtab[k].offset > 0 {
      assert s.srv.rtab[k].id !in LeftoverIds(s.srv.rtab);
    }
    if end > 0 {
      assert RS.Current(s.srv, end);
    }
  }

  // ----- a transport at end of file

  /** q is what is left of r after some of it was read. */
  ghost predicate LeftOf(q: seq<nat>, r: seq<nat>) { |q| <= |r| && q == r[|r| - |q|..] }

  /** The client has sent nothing from s to t. */
  ghost predicate Silent(s: Sys, t: Sys) {
    && !t.sending && t.cc == s.cc && |s.conns| <= |t.conns|
    && (forall k :: 0 <= k < |s.conns| ==> LeftOf(t.conns[k].calls, s.conns[k].calls))
    && (forall k :: |s.conns| <= k < |t.conns| ==> t.conns[k].calls == [])
  }

  /** Reading and answering calls puts none on a connection. */
  lemma SilentServer(s: Sys, st: Step, t: Sys)
    requires Allowed(s, st, t) && !s.sending && (st.ServerRecv? || st.ServerReply?)
    ensures Silent(s, t)
  {
    if st.ServerRecv? {
      assert t.conns[s.sc].calls == s.conns[s.sc].calls[1..];
      assert forall k :: 0 <= k < |s.conns| && k != s.sc ==> t.conns[k] == s.conns[k];
    } else {
      assert forall k :: 0 <= k < |s.conns| ==> t.conns[k].calls == s.conns[k].calls;
    }
  }

  lemma SilentStep(s: Sys, st: Step, t: Sys)
    requires Allowed(s, st, t) && !s.sending && !st.ClientResume?
    ensures Silent(s, t)
  {
    if st.ServerRecv? || st.ServerReply? {
      SilentServer(s, st, t);
    } else if st.ClientRecv? {
      assert forall k :: 0 <= k < |s.conns| ==> t.conns[k].calls == s.conns[k].calls;
    }
  }

  lemma SilentOn(s: Sys, t: Sys, u: Sys)
    requires Silent(s, t) && Silent(t, u)
    ensures Silent(s, u)
  {
    forall k | 0 <= k < |s.conns| ensures LeftOf(u.conns[k].calls, s.conns[k].calls) {
      assert LeftOf(t.conns[k].calls, s.conns[k].calls) && LeftOf(u.conns[k].calls, t.conns[k].calls);
    }
    forall k | |s.conns| <= k < |u.conns| ensures u.conns[k].calls == [] {
      if k < |t.conns| { assert LeftOf(u.conns[k].calls, t.conns[k].calls); }
    }
  }

  /** In every run, from its end of file until it resumes the client sends no call, on any connection. */
  lemma {:induction false} ClientSilent(states: seq<Sys>, steps: seq<Step>, a: nat, b: nat)
    requires Run(states, steps) && a < b < |states| && steps[a].ClientEof?
    requires forall i :: a < i < b ==> !steps[i].ClientResume?
    ensures Silent(states[a], states[b])
  {
    assert Allowed(states[b - 1], steps[b - 1], states[b]);
    if a < b - 1 {
      ClientSilent(states, steps, a, b - 1);
      SilentStep(states[b - 1], steps[b - 1], states[b]);
      SilentOn(states[a], states[b - 1], states[b]);
    }
  }

  /** The server has sent nothing from s to t, and received nothing. */
  ghost predicate Deaf(s: Sys, t: Sys) {
    && !t.srv.xi.up && t.sc == s.sc < |s.conns| <= |t.conns| && t.srv.xi.sent == s.srv.xi.sent
    && LeftOf(t.conns[t.sc].calls, s.conns[s.sc].calls)
  }

  /** Without a transport, reading and answering calls sends nothing. */
  lemma DeafServer(s: Sys, st: Step, t: Sys)
    requires Allowed(s, st, t) && !s.srv.xi.up && (st.ServerRecv? || st.ServerReply?)
    ensures Deaf(s, t)
  {
    if st.ServerRecv? {
      assert t.conns[s.sc].calls == s.conns[s.sc].calls[1..];
    } else {
      assert t.conns[s.sc].calls == s.conns[s.sc].calls;
    }
  }

  /** What the client sends goes elsewhere. */
  lemma DeafClient(s: Sys, st: Step, t: Sys)
    requires Allowed(s, st, t) && !s.srv.xi.up && (st.Issue? || st.ClientResume? || st.ClientRecv?)
    ensures Deaf(s, t)
  {
    assert t.srv == s.srv && t.conns[s.sc].calls == s.conns[s.sc].calls;
  }

  lemma DeafStep(s: Sys, st: Step, t: Sys)
    requires Allowed(s, st, t) && !s.srv.xi.up && !st.ServerResume?
    ensures Deaf(s, t)
  {
    if st.ServerRecv? || st.ServerReply? {
      DeafServer(s, st, t);
    } else if st.Issue? || st.ClientResume? || st.ClientRecv? {
      DeafClient(s, st, t);
    } else {
      assert t.conns[s.sc] == s.conns[s.sc];
    }
  }

  /** In every run, from its end of file until it resumes the server sends nothing, and no call that is made
      later reaches it. */
  lemma {:induction false} ServerDeaf(states: seq<Sys>, steps: seq<Step>, a: nat, b: nat)
    requires Run(states, steps) && a < b < |states| && steps[a].ServerEof?
    requires forall i :: a < i < b ==> !steps[i].ServerResume?
    ensures Deaf(states[a], states[b])
  {
    assert Allowed(states[b - 1], steps[b - 1], states[b]);
    if a < b - 1 {
      ServerDeaf(states, steps, a, b - 1);
      DeafStep(states[b - 1], steps[b - 1], states[b]);
    }
  }
}
