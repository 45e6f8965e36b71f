/**
 Steps that break the promise, one for each way an evicted call can return, all taken in states
 that a run of benign steps reaches; and a run that attains the bound on executions.  They exist for
 every packet size, every positive send buffer and every pair of replies of which the second is
 longer than the send buffer.
 */
module SessionExample {
  import opened Common
  import opened Session
  import opened SessionInv
  import opened SessionFront
  import opened SessionSafety
  import Exact = SessionExact
  import Ret = SessionReturn
  import C = SessionClientSteps
  import RS = ResumableServer

  /** Packet size, send buffer size, and the replies to two calls. */
  datatype Setting = Setting(size: nat, buf: int, b0: bytes, b1: bytes)

  ghost predicate Fits(p: Setting) {
    0 < p.buf < |p.b1| + RS.HEADER && |p.b0| <= p.size && |p.b1| <= p.size
  }

  const C0 := Call(1, 0, [])
  const C1 := Call(2, 0, [])
  const K0 := RS.Key(1, 0)
  const K1 := RS.Key(2, 0)

  /** Where the replies end in the stream, if they are sent one after the other. */
  function End0(p: Setting): nat { |p.b0| + RS.HEADER }

  function End1(p: Setting): nat { |p.b0| + RS.HEADER + |p.b1| + RS.HEADER }

  /** What the server then takes for received. */
  function Received(p: Setting): nat { RS.KnownReceived(Waiting(p, End1(p))) }

  function Waiting(p: Setting, sent: nat): RS.Xprt { RS.Xprt(true, sent, p.size, p.buf, 0) }

  function Both(): map<RS.Key, RS.Svc> { map[K0 := RS.Svc(0, None, 0), K1 := RS.Svc(1, None, 0)] }

  function Clear(unread: seq<nat>): Conn { Conn(true, unread, [], 0, 0) }

  // ----- two calls are issued and read

  /** Nothing has been sent back on the first connection. */
  function Begun(p: Setting, issued: seq<Call>, calls: seq<nat>, unread: seq<nat>, rtab: map<RS.Key, RS.Svc>,
                 executed: seq<nat>): Sys
  {
    Sys(issued, [Clear(unread)], calls, 0, true, map[],
        RS.Server(rtab, [], Waiting(p, 0)), 0, executed, map[], [], {})
  }

  function First(p: Setting, n: nat): Sys {
    match n
    case 0 => Begun(p, [], [], [], map[], [])
    case 1 => Begun(p, [C0], [0], [0], map[], [])
    case 2 => Begun(p, [C0, C1], [0, 1], [0, 1], map[], [])
    case 3 => Begun(p, [C0, C1], [0, 1], [1], map[K0 := RS.Svc(0, None, 0)], [0])
    case _ => Begun(p, [C0, C1], [0, 1], [], Both(), [0, 1])
  }

  lemma Start(p: Setting)
    ensures SafelyReachable(First(p, 0))
  {
    var states, steps: seq<Step> := [First(p, 0)], [];
    assert states[0] == Init(p.size, p.buf);
    assert BenignRun(states, steps) && states[|steps|] == First(p, 0);
  }

  lemma SafeTyped(s: Sys)
    requires SafelyReachable(s)
    ensures Typed(s) && Vouched(s)
  {
    SafeInv(s);
  }

  lemma IssueFirst(p: Setting)
    ensures Allowed(First(p, 0), Issue(C0), First(p, 1))
  {
    assert [] + [0] == [0] && [] + [C0] == [C0];
  }

  lemma IssueSecond(p: Setting)
    ensures Allowed(First(p, 1), Issue(C1), First(p, 2))
  {
    assert [0] + [1] == [0, 1] && [C0] + [C1] == [C0, C1];
  }

  /** What reading a fresh call amounts to, given what it does to the server's cache. */
  lemma ReadIs(s: Sys, i: nat, key: RS.Key, q: seq<nat>, t: Sys)
    requires Typed(s) && Vouched(s) && s.conns[s.sc].calls == [i] + q && i < |s.issued| && key == KeyOf(s, i)
    requires key !in s.srv.rtab && t.srv == RS.Fresh(s.srv, key, i)
    requires t.conns == s.conns[s.sc := s.conns[s.sc].(calls := q)]
    requires t == s.(srv := t.srv, conns := t.conns, executed := s.executed + [i], undone := s.undone - {i})
    ensures Allowed(s, ServerRecv, t)
  {
    assert ([i] + q)[1..] == q;
    forall k | 0 <= k < t.cc ensures t.conns[k].vouched <= t.conns[k].processed {
      assert s.conns[k].vouched <= s.conns[k].processed;
    }
  }

  lemma FirstFresh(p: Setting)
    ensures RS.Valid(First(p, 2).srv) && RS.Fresh(First(p, 2).srv, K0, 0) == First(p, 3).srv
    ensures RS.Valid(First(p, 3).srv) && RS.Fresh(First(p, 3).srv, K1, 1) == First(p, 4).srv
  {
  }

  lemma ReadFirst(p: Setting)
    requires Typed(First(p, 2)) && Vouched(First(p, 2))
    ensures Allowed(First(p, 2), ServerRecv, First(p, 3))
  {
    FirstFresh(p);
    assert [0] + [1] == [0, 1] && [] + [0] == [0];
    ReadIs(First(p, 2), 0, K0, [1], First(p, 3));
  }

  lemma ReadSecond(p: Setting)
    requires Typed(First(p, 3)) && Vouched(First(p, 3))
    ensures Allowed(First(p, 3), ServerRecv, First(p, 4))
  {
    FirstFresh(p);
    assert [1] + [] == [1] && [0] + [1] == [0, 1];
    ReadIs(First(p, 3), 1, K1, [], First(p, 4));
  }

  /** A step other than a reply and the reading of a call. */
  lemma Plain(s: Sys, st: Step, t: Sys)
    requires SafelyReachable(s) && Allowed(s, st, t) && !st.ServerReply? && !st.ServerRecv?
    ensures SafelyReachable(t)
  {
    OthersAreBenign(s, st);
    SafeStep(s, st, t);
  }

  lemma ReadLive(s: Sys, t: Sys)
    requires SafelyReachable(s) && Allowed(s, ServerRecv, t) && s.srv.xi.up
    requires s.conns[s.sc].calls[0] !in s.undone
    ensures SafelyReachable(t)
  {
    SafeInv(s);
    LiveReadIsBenign(s);
    SafeStep(s, ServerRecv, t);
  }

  lemma OneRead(p: Setting)
    ensures SafelyReachable(First(p, 3))
  {
    Start(p);
    IssueFirst(p); Plain(First(p, 0), Issue(C0), First(p, 1));
    IssueSecond(p); Plain(First(p, 1), Issue(C1), First(p, 2));
    SafeTyped(First(p, 2));
    ReadFirst(p); ReadLive(First(p, 2), First(p, 3));
  }

  lemma BothRead(p: Setting)
    ensures SafelyReachable(First(p, 4))
  {
    OneRead(p);
    SafeTyped(First(p, 3));
    ReadSecond(p); ReadLive(First(p, 3), First(p, 4));
  }

  // ----- replies

  /** The connection after a reply that was sent if the transport was up. */
  function Told(s: Sys, i: nat, b: bytes): Conn
    requires s.sc < |s.conns|
  {
    var o := s.conns[s.sc];
    if s.srv.xi.up then o.(replies := o.replies + [Answer(i, b)]) else o
  }

  /** What a reply step amounts to, given what it does to the server's cache. */
  lemma ReplyStep(s: Sys, i: nat, b: bytes, t: Sys)
    requires Typed(s) && InProgress(s, i) && i !in s.computed && Vouched(s) && s.cc <= s.sc && |b| <= s.srv.xi.pktsize
    requires RS.Reply(s.srv, KeyOf(s, i), b) == t.srv
    requires var w := Answered(s, i, b); var c := Told(s, i, b);
             && RS.Valid(w)
             && t == s.(srv := t.srv, computed := s.computed[i := b],
                        conns := s.conns[s.sc := if RS.Acknowledged(w) == {} then c
                                                 else c.(vouched := Max(c.vouched, RS.KnownReceived(w.xi)))])
    ensures Allowed(s, ServerReply(i, b), t)
  {
  }

  /** A reply to call i that evicts nothing leaves the cache as w. */
  ghost predicate Quietly(s: Sys, i: nat, b: bytes, w: RS.Server, t: Sys) {
    && s.sc < |s.conns| && s.cc <= s.sc && InProgress(s, i) && i !in s.computed && |b| <= s.srv.xi.pktsize
    && w == Answered(s, i, b) && RS.Valid(w) && RS.Acknowledged(w) == {}
    && t == s.(srv := w, computed := s.computed[i := b], conns := s.conns[s.sc := Told(s, i, b)])
  }

  lemma QuietReply(s: Sys, i: nat, b: bytes, w: RS.Server, t: Sys)
    requires SafelyReachable(s) && Quietly(s, i, b, w, t)
    ensures SafelyReachable(t)
  {
    SafeTyped(s);
    NothingForgotten(w);
    ReplyStep(s, i, b, t);
    Ret.KeepsIds(s.srv.rtab, w.rtab);
    SafeStep(s, ServerReply(i, b), t);
  }

  lemma NothingForgotten(w: RS.Server)
    ensures RS.Forget(w, {}) == w
  {
    assert w.rtab - {} == w.rtab;
    WithoutNothing(w.rq);
  }

  lemma {:induction false} WithoutNothing(q: seq<RS.Key>)
    ensures Without(q, {}) == q
  {
    if q != [] {
      WithoutNothing(q[1..]);
    }
  }

  /** A step that evicts a call which returns: it is not benign, and a continuation executes the call again. */
  ghost predicate Breaks(s: Sys, st: Step, t: Sys, x: nat) {
    && SafelyReachable(s) && Allowed(s, st, t)
    && Forgets(s, st, x) && !Benign(s, st) && Exact.Again(t, x)
  }

  lemma BreaksIf(s: Sys, st: Step, t: Sys, x: nat)
    requires SafelyReachable(s) && Allowed(s, st, t) && !st.ServerDrop? && t.sc < |t.conns| && Returns(t, x)
    requires x in KnownIds(s.srv.rtab) && x !in KnownIds(t.srv.rtab)
    ensures Breaks(s, st, t, x)
  {
    SafeInv(s);
    Exact.ReturnsExact(s, st, t, x);
  }

  // ----- a reply evicts a call whose replay the server has yet to read

  function Connected(p: Setting): Sys {
    First(p, 4).(conns := [Clear([]), Conn(false, [], [], 0, 0)])
  }

  function Fresh(joined: bool): Conn { if joined then Clear([0, 1]) else Conn(false, [], [], 0, 0) }

  /** The server has moved to a second connection; the client has joined it, or not yet. */
  function Moved(p: Setting, joined: bool): Sys {
    First(p, 4).(conns := [Clear([]), Fresh(joined)], cc := if joined then 1 else 0, sc := 1)
  }

  function Answered0(p: Setting, joined: bool): Sys {
    Moved(p, joined).(
      conns := [Clear([]), Fresh(joined).(replies := [Answer(0, p.b0)])],
      srv := RS.Server(map[K0 := RS.Svc(0, Some(p.b0), End0(p)), K1 := RS.Svc(1, None, 0)], [K0], Waiting(p, End0(p))),
      computed := map[0 := p.b0])
  }

  /** What is left after the second reply, when so much was sent before the transport failed, if it did. */
  function Only1(p: Setting, up: bool): RS.Server {
    RS.Server(map[K1 := RS.Svc(1, Some(p.b1), End1(p))], [K1], Waiting(p, End1(p)).(up := up))
  }

  function Answered1(p: Setting, joined: bool): Sys {
    Moved(p, joined).(
      conns := [Clear([]), Fresh(joined).(replies := [Answer(0, p.b0), Answer(1, p.b1)], vouched := Received(p))],
      srv := Only1(p, true), computed := map[0 := p.b0, 1 := p.b1])
  }

  lemma ConnectStep(p: Setting)
    ensures Allowed(First(p, 4), Connect, Connected(p))
  {
  }

  lemma JoinStep(p: Setting)
    ensures Allowed(Connected(p), ClientResume(1), Moved(p, true).(sc := 0))
  {
  }

  lemma MoveStep(p: Setting, joined: bool)
    ensures var s := if joined then Moved(p, true).(sc := 0) else Connected(p);
            Allowed(s, ServerResume(1, p.size, p.buf), Moved(p, joined))
  {
    assert RS.Resume(First(p, 4).srv, Waiting(p, 0)) == First(p, 4).srv;
  }

  lemma MovedSafely(p: Setting, joined: bool)
    ensures SafelyReachable(Moved(p, joined))
  {
    var st := ServerResume(1, p.size, p.buf);
    BothRead(p);
    ConnectStep(p); Plain(First(p, 4), Connect, Connected(p));
    MoveStep(p, joined);
    if joined {
      JoinStep(p); Plain(Connected(p), ClientResume(1), Moved(p, true).(sc := 0));
      Plain(Moved(p, true).(sc := 0), st, Moved(p, true));
    } else {
      Plain(Connected(p), st, Moved(p, false));
    }
  }

  lemma FirstCached(p: Setting)
    requires Fits(p)
    ensures var w := Answered0(p, true).srv;
            RS.Answer(First(p, 4).srv, K0, p.b0) == w && RS.Valid(w) && RS.Acknowledged(w) == {}
  {
    var w := Answered0(p, true).srv;
    assert [] + [K0] == [K0];
    assert RS.KnownReceived(w.xi) < End0(p);
  }

  lemma FirstShape(p: Setting, joined: bool)
    requires Fits(p)
    ensures Quietly(Moved(p, joined), 0, p.b0, Answered0(p, joined).srv, Answered0(p, joined))
  {
    FirstCached(p);
    assert [] + [Answer(0, p.b0)] == [Answer(0, p.b0)];
  }

  lemma FirstReplied(p: Setting, joined: bool)
    requires Fits(p)
    ensures SafelyReachable(Answered0(p, joined))
  {
    MovedSafely(p, joined);
    FirstShape(p, joined);
    QuietReply(Moved(p, joined), 0, p.b0, Answered0(p, joined).srv, Answered0(p, joined));
  }

  function AfterSecond(p: Setting, up: bool): RS.Server {
    RS.Server(map[K0 := RS.Svc(0, Some(p.b0), End0(p)), K1 := RS.Svc(1, Some(p.b1), End1(p))], [K0, K1],
              Waiting(p, End1(p)).(up := up))
  }

  lemma EvictsFirst(p: Setting, up: bool)
    requires Fits(p)
    ensures RS.Valid(AfterSecond(p, up))
    ensures RS.Forget(AfterSecond(p, up), {K0}) == Only1(p, up) && RS.Acknowledged(AfterSecond(p, up)) == {K0}
  {
    var w := AfterSecond(p, up);
    assert w.rq[0] == K0 && w.rq[1] == K1 && K0 in w.rq;
    assert RS.KnownReceived(w.xi) == Received(p) == End1(p) - p.buf;
    assert RS.Leftovers(w) == {};
    assert [K0, K1][1..] == [K1] && [K1][1..] == [];
    assert Without([K1], {K0}) == [K1];
  }

  lemma SecondCached(p: Setting)
    requires Fits(p)
    ensures RS.Valid(Answered0(p, true).srv) && RS.Answer(Answered0(p, true).srv, K1, p.b1) == AfterSecond(p, true)
    ensures RS.Reply(Answered0(p, true).srv, K1, p.b1) == Only1(p, true)
  {
    FirstCached(p);
    SecondAnswer(p);
    EvictsFirst(p, true);
  }

  lemma SecondAnswer(p: Setting)
    requires Fits(p)
    ensures RS.Answer(Answered0(p, true).srv, K1, p.b1) == AfterSecond(p, true)
    ensures RS.Answer(Late0(p, false).srv, K1, p.b1) == AfterSecond(p, false)
  {
    assert [K0] + [K1] == [K0, K1];
  }

  lemma SecondReply(p: Setting, joined: bool)
    requires Fits(p) && Typed(Answered0(p, joined)) && Vouched(Answered0(p, joined))
    ensures Allowed(Answered0(p, joined), ServerReply(1, p.b1), Answered1(p, joined))
  {
    SecondCached(p);
    EvictsFirst(p, true);
    assert KeyOf(Answered0(p, joined), 1) == K1;
    assert [Answer(0, p.b0)] + [Answer(1, p.b1)] == [Answer(0, p.b0), Answer(1, p.b1)];
    ReplyStep(Answered0(p, joined), 1, p.b1, Answered1(p, joined));
  }

  lemma FirstReturns(p: Setting, joined: bool)
    ensures Returns(Answered1(p, joined), 0)
    ensures 0 in KnownIds(Answered0(p, joined).srv.rtab) && 0 !in KnownIds(Answered1(p, joined).srv.rtab)
  {
    var t := Answered1(p, joined);
    assert K0 in Answered0(p, joined).srv.rtab && Answered0(p, joined).srv.rtab[K0].id == 0;
    if joined {
      assert FrontOf(t)[0] == 0;
    } else {
      NothingPromised(t.conns[0]);
      assert 0 in t.calls;
    }
  }

  /** The reply to call 1 evicts call 0 while its replay is unread on the server's connection, or is still to
      be sent there by a client that has not joined it. */
  lemma ReplyBreaksPromise(p: Setting, joined: bool)
    requires Fits(p)
    ensures Breaks(Answered0(p, joined), ServerReply(1, p.b1), Answered1(p, joined), 0)
  {
    FirstReplied(p, joined);
    SafeTyped(Answered0(p, joined));
    SecondReply(p, joined);
    FirstReturns(p, joined);
    BreaksIf(Answered0(p, joined), ServerReply(1, p.b1), Answered1(p, joined), 0);
  }

  // ----- the same at end of file

  /** Something else was sent, and then the transport failed. */
  function Late0(p: Setting, up: bool): Sys {
    Answered0(p, true).(
      conns := [Clear([]), Clear([0, 1]).(replies := [Answer(0, p.b0), Other(p.b1)])],
      srv := Answered0(p, true).srv.(xi := Waiting(p, End1(p)).(up := up)))
  }

  function Late1(p: Setting): Sys {
    Late0(p, false).(
      conns := [Clear([]), Clear([0, 1]).(replies := [Answer(0, p.b0), Other(p.b1)], vouched := Received(p))],
      srv := Only1(p, false), computed := map[0 := p.b0, 1 := p.b1])
  }

  lemma LateSafely(p: Setting)
    requires Fits(p)
    ensures SafelyReachable(Late0(p, false))
  {
    FirstReplied(p, true);
    SafeTyped(Answered0(p, true));
    OtherStep(p);
    Plain(Answered0(p, true), ServerOther(p.b1), Late0(p, true));
    SafeTyped(Late0(p, true));
    Plain(Late0(p, true), ServerEof, Late0(p, false));
  }

  lemma OtherStep(p: Setting)
    requires Fits(p) && Typed(Answered0(p, true)) && Vouched(Answered0(p, true))
    ensures Allowed(Answered0(p, true), ServerOther(p.b1), Late0(p, true))
  {
    assert [Answer(0, p.b0)] + [Other(p.b1)] == [Answer(0, p.b0), Other(p.b1)];
  }

  lemma LateCached(p: Setting)
    requires Fits(p)
    ensures RS.Valid(Late0(p, false).srv) && RS.Answer(Late0(p, false).srv, K1, p.b1) == AfterSecond(p, false)
    ensures RS.Reply(Late0(p, false).srv, K1, p.b1) == Only1(p, false)
  {
    FirstCached(p);
    SecondAnswer(p);
    EvictsFirst(p, false);
  }

  lemma LateReply(p: Setting)
    requires Fits(p) && Typed(Late0(p, false)) && Vouched(Late0(p, false))
    ensures Allowed(Late0(p, false), ServerReply(1, p.b1), Late1(p))
  {
    LateCached(p);
    EvictsFirst(p, false);
    assert KeyOf(Late0(p, false), 1) == K1;
    ReplyStep(Late0(p, false), 1, p.b1, Late1(p));
  }

  /** A reply recorded at end of file evicts a call that is next on the connection. */
  lemma LateReplyBreaksPromise(p: Setting)
    requires Fits(p)
    ensures Breaks(Late0(p, false), ServerReply(1, p.b1), Late1(p), 0)
  {
    LateSafely(p);
    SafeTyped(Late0(p, false));
    LateReply(p);
    assert K0 in Late0(p, false).srv.rtab && Late0(p, false).srv.rtab[K0].id == 0;
    assert FrontOf(Late1(p))[0] == 0;
    BreaksIf(Late0(p, false), ServerReply(1, p.b1), Late1(p), 0);
  }

  // ----- a fresh call evicts a reply that was never sent

  /** Call 0 is in progress and call 1 unread; the client may have joined a later connection, and cancelled
      both calls after it replayed them there. */
  function Begun0(p: Setting, later: bool): Sys {
    if later then First(p, 3).(conns := [Clear([1]), Clear([0, 1])], cc := 1, calls := []) else First(p, 3)
  }

  /** The connection broke before anything was sent on it. */
  function Broken(p: Setting, later: bool): Sys {
    Begun0(p, later).(srv := RS.Server(map[K0 := RS.Svc(0, None, 0)], [], Waiting(p, 0).(up := false)))
  }

  /** Call 0 was answered after that. */
  function Unsent(p: Setting, later: bool): Sys {
    Broken(p, later).(srv := RS.Server(map[K0 := RS.Svc(0, Some(p.b0), 0)], [K0], Waiting(p, 0).(up := false)),
                      computed := map[0 := p.b0])
  }

  function ReadUnsent(p: Setting, later: bool): Sys {
    Unsent(p, later).(conns := if later then [Clear([]), Clear([0, 1])] else [Clear([])], executed := [0, 1],
                      srv := RS.Server(map[K1 := RS.Svc(1, None, 0)], [], Waiting(p, 0).(up := false)))
  }

  function Rejoined0(p: Setting, calls: seq<nat>): Sys {
    First(p, 3).(conns := [Clear([1]), Clear([0, 1])], cc := 1, calls := calls)
  }

  lemma RejoinSteps0(p: Setting)
    ensures Allowed(First(p, 3), Connect, C.AddConn(First(p, 3)))
    ensures Allowed(C.AddConn(First(p, 3)), ClientResume(1), Rejoined0(p, [0, 1]))
  {
  }

  lemma CancelSteps0(p: Setting)
    ensures Allowed(Rejoined0(p, [0, 1]), Cancel(0), Rejoined0(p, [1]))
    ensures Allowed(Rejoined0(p, [1]), Cancel(1), Rejoined0(p, []))
  {
    assert [0, 1][1..] == [1] && [1][1..] == [];
    assert Without([1], {0}) == [1] && Without([0, 1], {0}) == [1] && Without([1], {1}) == [];
  }

  lemma Begun0Safely(p: Setting, later: bool)
    ensures SafelyReachable(Begun0(p, later))
  {
    OneRead(p);
    if later {
      RejoinSteps0(p);
      Plain(First(p, 3), Connect, C.AddConn(First(p, 3)));
      Plain(C.AddConn(First(p, 3)), ClientResume(1), Rejoined0(p, [0, 1]));
      CancelSteps0(p);
      Plain(Rejoined0(p, [0, 1]), Cancel(0), Rejoined0(p, [1]));
      Plain(Rejoined0(p, [1]), Cancel(1), Rejoined0(p, []));
    }
  }

  lemma BrokenSafely(p: Setting, later: bool)
    ensures SafelyReachable(Broken(p, later))
  {
    Begun0Safely(p, later);
    SafeTyped(Begun0(p, later));
    Plain(Begun0(p, later), ServerEof, Broken(p, later));
  }

  /** A reply that is not sent on a broken connection. */
  lemma UnsentReply(p: Setting, later: bool)
    requires Fits(p)
    ensures SafelyReachable(Unsent(p, later))
  {
    var s, t := Broken(p, later), Unsent(p, later);
    BrokenSafely(p, later);
    SafeTyped(s);
    UnsentCached(p);
    NothingForgotten(t.srv);
    UnsentStep(p, later);
    Ret.KeepsIds(s.srv.rtab, t.srv.rtab);
    SafeStep(s, ServerReply(0, p.b0), t);
  }

  lemma UnsentCached(p: Setting)
    ensures RS.Answer(Broken(p, false).srv, K0, p.b0) == Unsent(p, false).srv
    ensures RS.Valid(Unsent(p, false).srv) && RS.Acknowledged(Unsent(p, false).srv) == {}
  {
    assert [] + [K0] == [K0];
    assert K0 in [K0] && K0 in RS.Leftovers(Unsent(p, false).srv);
  }

  lemma UnsentStep(p: Setting, later: bool)
    requires Fits(p) && Typed(Broken(p, later)) && Vouched(Broken(p, later))
    ensures Allowed(Broken(p, later), ServerReply(0, p.b0), Unsent(p, later))
  {
    UnsentCached(p);
    UnsentIs(Broken(p, later), 0, p.b0, Unsent(p, later));
  }

  /** A reply without a transport, given that it evicts nothing. */
  lemma UnsentIs(s: Sys, i: nat, b: bytes, t: Sys)
    requires Typed(s) && InProgress(s, i) && !s.srv.xi.up && i !in s.computed && Vouched(s)
    requires t.srv == Answered(s, i, b) && RS.Valid(t.srv) && RS.Acknowledged(t.srv) == {}
    requires t == s.(srv := t.srv, computed := s.computed[i := b])
    ensures Allowed(s, ServerReply(i, b), t)
  {
    NothingForgotten(t.srv);
    assert t == SendReply(s, i, b);
  }

  lemma EvictsUnsent(p: Setting)
    ensures var srv := Unsent(p, false).srv;
            RS.Valid(srv) && K1 !in srv.rtab && RS.Fresh(srv, K1, 1) == ReadUnsent(p, false).srv
  {
    var t := RS.Enter(Unsent(p, false).srv, K1, 1);
    assert t.rq[0] == K0 && RS.Leftovers(t) == {K0};
    assert Without([K0], {K0}) == [] by { assert [K0][1..] == []; }
  }

  lemma ReadUnsentStep(p: Setting, later: bool)
    requires Typed(Unsent(p, later)) && Vouched(Unsent(p, later))
    ensures Allowed(Unsent(p, later), ServerRecv, ReadUnsent(p, later))
  {
    EvictsUnsent(p);
    assert [1] + [] == [1] && [0] + [1] == [0, 1];
    ReadIs(Unsent(p, later), 1, K1, [], ReadUnsent(p, later));
  }

  lemma UnsentReturns(p: Setting, later: bool)
    ensures Returns(ReadUnsent(p, later), 0)
    ensures 0 in KnownIds(Unsent(p, later).srv.rtab) && 0 !in KnownIds(ReadUnsent(p, later).srv.rtab)
  {
    var t := ReadUnsent(p, later);
    assert K0 in Unsent(p, later).srv.rtab && Unsent(p, later).srv.rtab[K0].id == 0;
    if later {
      assert 0 in t.conns[1].calls;
    } else {
      NothingPromised(t.conns[0]);
      assert 0 in t.calls;
    }
  }

  /** The broken connection still holds call 1; reading it evicts the unsent reply to call 0, which a later
      connection carries, or which the client will replay. */
  lemma ReadBreaksPromise(p: Setting, later: bool)
    requires Fits(p)
    ensures Breaks(Unsent(p, later), ServerRecv, ReadUnsent(p, later), 0)
  {
    UnsentReply(p, later);
    SafeTyped(Unsent(p, later));
    ReadUnsentStep(p, later);
    UnsentReturns(p, later);
    BreaksIf(Unsent(p, later), ServerRecv, ReadUnsent(p, later), 0);
  }

  // ----- a dropped call comes again

  /** What the server remembers of call 1 when it drops call 0: its reply, or that it is in progress. */
  function Left1(p: Setting, answered: bool, sent: nat): RS.Server {
    if answered then RS.Server(map[K1 := RS.Svc(1, Some(p.b1), sent)], [K1], Waiting(p, sent))
    else RS.Server(map[K1 := RS.Svc(1, None, 0)], [], Waiting(p, 0))
  }

  function Sent1(p: Setting, answered: bool): Conn {
    Conn(true, [], if answered then [Answer(1, p.b1)] else [], 0, 0)
  }

  function Computed1(p: Setting, answered: bool): map<nat, bytes> { if answered then map[1 := p.b1] else map[] }

  /** Where the reply to call 1 ends if it is sent first. */
  function Alone1(p: Setting): nat { |p.b1| + RS.HEADER }

  function Replied1(p: Setting, answered: bool): Sys {
    First(p, 4).(
      conns := [Sent1(p, answered)], computed := Computed1(p, answered),
      srv := if answered
             then RS.Server(map[K0 := RS.Svc(0, None, 0), K1 := RS.Svc(1, Some(p.b1), Alone1(p))], [K1],
                            Waiting(p, Alone1(p)))
             else First(p, 4).srv)
  }

  function Dropped0(p: Setting, answered: bool): Sys {
    Replied1(p, answered).(srv := Left1(p, answered, Alone1(p)), dropped := [0], undone := {0})
  }

  function Rejoined(p: Setting, answered: bool): Sys {
    Dropped0(p, answered).(conns := [Sent1(p, answered), Clear([0, 1])], cc := 1)
  }

  function Resumed0(p: Setting, answered: bool): Sys {
    Rejoined(p, answered).(srv := Left1(p, answered, 0).(xi := Waiting(p, 0)), sc := 1)
  }

  function Again0(p: Setting, answered: bool): Sys {
    Resumed0(p, answered).(
      conns := [Sent1(p, answered), Clear([1])], executed := [0, 1, 0], undone := {},
      srv := RS.Server(if answered then map[K0 := RS.Svc(0, None, 0)] else Both(), [], Waiting(p, 0)))
  }

  lemma SecondAlone(p: Setting)
    requires Fits(p)
    ensures var w := Replied1(p, true).srv;
            RS.Answer(First(p, 4).srv, K1, p.b1) == w && RS.Valid(w) && RS.Acknowledged(w) == {}
  {
    var w := Replied1(p, true).srv;
    assert [] + [K1] == [K1];
    assert RS.KnownReceived(w.xi) < Alone1(p);
  }

  lemma Replied1Shape(p: Setting)
    requires Fits(p)
    ensures Quietly(First(p, 4), 1, p.b1, Replied1(p, true).srv, Replied1(p, true))
  {
    SecondAlone(p);
    assert KeyOf(First(p, 4), 1) == K1 && [] + [Answer(1, p.b1)] == [Answer(1, p.b1)];
  }

  lemma Replied1Safely(p: Setting, answered: bool)
    requires Fits(p)
    ensures SafelyReachable(Replied1(p, answered))
  {
    BothRead(p);
    if answered {
      Replied1Shape(p);
      QuietReply(First(p, 4), 1, p.b1, Replied1(p, true).srv, Replied1(p, true));
    }
  }

  lemma DropCached(p: Setting, answered: bool)
    ensures InProgress(Replied1(p, answered), 0) && KeyOf(Replied1(p, answered), 0) == K0
    ensures RS.Drop(Replied1(p, answered).srv, K0) == Dropped0(p, answered).srv
  {
    var r := Replied1(p, answered).srv.rtab;
    assert (r - {K0}).Keys == {K1};
  }

  lemma DropIs(s: Sys, i: nat, t: Sys)
    requires Typed(s) && Vouched(s) && InProgress(s, i) && t.srv == RS.Drop(s.srv, KeyOf(s, i))
    requires t == s.(srv := t.srv, dropped := s.dropped + [i], undone := s.undone + {i})
    ensures Allowed(s, ServerDrop(i), t)
  {
  }

  lemma DropStep(p: Setting, answered: bool)
    requires Typed(Replied1(p, answered)) && Vouched(Replied1(p, answered))
    ensures Allowed(Replied1(p, answered), ServerDrop(0), Dropped0(p, answered))
  {
    DropCached(p, answered);
    assert [] + [0] == [0] && {} + {0} == {0};
    DropIs(Replied1(p, answered), 0, Dropped0(p, answered));
  }

  lemma RejoinSteps(p: Setting, answered: bool)
    requires Typed(Dropped0(p, answered))
    ensures Allowed(Dropped0(p, answered), Connect, C.AddConn(Dropped0(p, answered)))
    ensures Typed(C.AddConn(Dropped0(p, answered))) ==>
              Allowed(C.AddConn(Dropped0(p, answered)), ClientResume(1), Rejoined(p, answered))
  {
  }

  lemma ResumeStep(p: Setting, answered: bool)
    requires Typed(Rejoined(p, answered))
    ensures Allowed(Rejoined(p, answered), ServerResume(1, p.size, p.buf), Resumed0(p, answered))
  {
    assert RS.Resume(Rejoined(p, answered).srv, Waiting(p, 0)) == Resumed0(p, answered).srv;
  }

  lemma RejoinedSafely(p: Setting, answered: bool)
    requires Fits(p)
    ensures SafelyReachable(Rejoined(p, answered))
  {
    var s := Dropped0(p, answered);
    Replied1Safely(p, answered); SafeTyped(Replied1(p, answered));
    DropStep(p, answered); Plain(Replied1(p, answered), ServerDrop(0), s); SafeTyped(s);
    RejoinSteps(p, answered); Plain(s, Connect, C.AddConn(s)); SafeTyped(C.AddConn(s));
    Plain(C.AddConn(s), ClientResume(1), Rejoined(p, answered));
  }

  lemma Resumed0Safely(p: Setting, answered: bool)
    requires Fits(p)
    ensures SafelyReachable(Resumed0(p, answered))
  {
    RejoinedSafely(p, answered); SafeTyped(Rejoined(p, answered));
    ResumeStep(p, answered); Plain(Rejoined(p, answered), ServerResume(1, p.size, p.buf), Resumed0(p, answered));
  }

  lemma Reenters0(p: Setting, answered: bool)
    ensures var srv := Resumed0(p, answered).srv;
            RS.Valid(srv) && K0 !in srv.rtab && RS.Fresh(srv, K0, 0) == Again0(p, answered).srv
  {
    var t := RS.Enter(Resumed0(p, answered).srv, K0, 0);
    if answered {
      assert t.rq[0] == K1 && RS.Leftovers(t) == {K1};
      assert Without([K1], {K1}) == [] by { assert [K1][1..] == []; }
    } else {
      assert RS.Leftovers(t) == {};
    }
  }

  lemma Read0Step(p: Setting, answered: bool)
    requires Typed(Resumed0(p, answered)) && Vouched(Resumed0(p, answered))
    ensures Allowed(Resumed0(p, answered), ServerRecv, Again0(p, answered))
  {
    Reenters0(p, answered);
    assert [0] + [1] == [0, 1] && [0, 1] + [0] == [0, 1, 0];
    ReadIs(Resumed0(p, answered), 0, K0, [1], Again0(p, answered));
  }

  /** A dropped call that comes again is executed again, as the bound allows. */
  lemma BoundAttained(p: Setting)
    requires Fits(p)
    ensures var u := Again0(p, false);
            SafelyReachable(u) && multiset(u.executed)[0] == 1 + multiset(u.dropped)[0] == 2
  {
    var s, u := Resumed0(p, false), Again0(p, false);
    Resumed0Safely(p, false); SafeTyped(s);
    Read0Step(p, false);
    Ret.KeepsIds(s.srv.rtab, u.srv.rtab);
    SafeStep(s, ServerRecv, u);
  }

  /** If a later call was answered when call 0 was dropped, reading call 0 again evicts that reply while
      the later call's replay is next to be read. */
  lemma DropBreaksPromise(p: Setting)
    requires Fits(p)
    ensures Breaks(Resumed0(p, true), ServerRecv, Again0(p, true), 1)
  {
    Resumed0Safely(p, true);
    SafeTyped(Resumed0(p, true));
    Read0Step(p, true);
    assert K1 in Resumed0(p, true).srv.rtab && Resumed0(p, true).srv.rtab[K1].id == 1;
    assert FrontOf(Again0(p, true))[0] == 1;
    BreaksIf(Resumed0(p, true), ServerRecv, Again0(p, true), 1);
  }
}
