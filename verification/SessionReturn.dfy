/**
 A call that the server has forgotten and that returns is executed again: the continuation is
 constructed.  The server reads on; or it moves to the connection that carries the call; or the
 client cancels its other calls, finishes what it has to and replays the call.
 */
module SessionReturn {
  import opened Common
  import opened Session
  import opened SessionInv
  import opened SessionFront
  import opened SessionSafety
  import Limits = SessionLimits
  import RS = ResumableServer
  import C = SessionClientSteps
  import S = SessionServerSteps

  // ----- continuations

  /** A step of a continuation: allowed, and benign as long as the server stays on the connection it is on. */
  ghost predicate Goes(home: nat, s: Sys, st: Step) {
    Typed(s) && Enabled(s, st) && Allowed(s, st, Apply(s, st)) && (s.sc == home ==> Benign(s, st))
  }

  ghost predicate Path(home: nat, s: Sys, steps: seq<Step>, t: Sys)
    decreases |steps|
  {
    if steps == [] then t == s
    else Goes(home, s, steps[0]) && Path(home, Apply(s, steps[0]), steps[1..], t)
  }

  lemma PathCons(home: nat, s: Sys, st: Step, steps: seq<Step>, t: Sys)
    requires Goes(home, s, st) && Path(home, Apply(s, st), steps, t)
    ensures Path(home, s, [st] + steps, t)
  {
    assert ([st] + steps)[1..] == steps;
  }

  lemma PathOne(home: nat, s: Sys, st: Step)
    requires Goes(home, s, st)
    ensures Path(home, s, [st], Apply(s, st))
  {
    assert [st][1..] == [];
  }

  lemma {:induction false} PathReaches(home: nat, s: Sys, steps: seq<Step>, t: Sys)
    requires Reachable(s) && Path(home, s, steps, t)
    ensures Reachable(t)
    decreases |steps|
  {
    if steps != [] {
      ReachStep(s, steps[0], Apply(s, steps[0]));
      PathReaches(home, Apply(s, steps[0]), steps[1..], t);
    }
  }

  /** Call x was executed once more, and nothing was dropped. */
  ghost predicate Ran(s: Sys, u: Sys, x: nat) {
    multiset(u.executed)[x] > multiset(s.executed)[x] && u.dropped == s.dropped
  }

  // ----- the server reads on

  ghost predicate Apart(issued: seq<Call>, q: seq<nat>) {
    && (forall i :: 0 <= i < |q| ==> q[i] < |issued|)
    && forall i, j :: 0 <= i < j < |q| ==> issued[q[i]].xid != issued[q[j]].xid
  }

  /** Call x is unread and the server does not know it. */
  ghost predicate Waits(s: Sys, x: nat) {
    && Limits.Readable(s) && Vouched(s) && x < |s.issued|
    && Apart(s.issued, Limits.Pending(s)) && x in Limits.Pending(s)
    && KeyOf(s, x) !in s.srv.rtab
  }

  lemma HeadDiffers(s: Sys, x: nat)
    requires Waits(s, x) && Limits.Pending(s)[0] != x
    ensures KeyOf(s, Limits.Pending(s)[0]) != KeyOf(s, x)
    ensures x in Limits.Pending(s)[1..] && Apart(s.issued, Limits.Pending(s)[1..])
  {
    var q := Limits.Pending(s);
    var j :| 0 <= j < |q| && q[j] == x;
    assert s.issued[q[0]].xid != s.issued[q[j]].xid;
    assert q[1..][j - 1] == x;
  }

  /** Reading a call in front of x leaves x waiting. */
  lemma WaitsOn(s: Sys, x: nat)
    requires Waits(s, x) && Limits.Pending(s)[0] != x && Enabled(s, ServerRecv)
    ensures Waits(ReadCall(s), x) && Allowed(s, ServerRecv, ReadCall(s)) && ReadCall(s).dropped == s.dropped
    ensures multiset(ReadCall(s).executed)[x] == multiset(s.executed)[x]
  {
    var q, t := Limits.Pending(s), ReadCall(s);
    HeadDiffers(s, x);
    Limits.ReadKeepsReadable(s);
    if KeyOf(s, q[0]) !in s.srv.rtab {
      RS.FreshKeeps(s.srv, KeyOf(s, q[0]), q[0]);
      assert multiset(t.executed) == multiset(s.executed) + multiset{q[0]};
    }
  }

  lemma ReadsIt(s: Sys, x: nat)
    requires Waits(s, x) && Limits.Pending(s)[0] == x
    ensures Enabled(s, ServerRecv) && Allowed(s, ServerRecv, ReadCall(s)) && Ran(s, ReadCall(s), x)
  {
    var t := ReadCall(s);
    assert multiset(t.executed) == multiset(s.executed) + multiset{x};
  }

  /** A table that keeps its entries forgets nothing. */
  lemma KeepsIds(r: map<RS.Key, RS.Svc>, r': map<RS.Key, RS.Svc>)
    requires forall k :: k in r ==> k in r' && r'[k].id == r[k].id
    ensures KnownIds(r) <= KnownIds(r')
  {
    forall x | x in KnownIds(r) ensures x in KnownIds(r') {
      var k :| k in r && r[k].id == x;
      assert k in r' && r'[k].id == x;
    }
  }

  /** Without leftovers, a fresh call is just entered. */
  lemma FreshEnters(srv: RS.Server, key: RS.Key, i: nat)
    requires RS.Valid(srv) && key !in srv.rtab && RS.Leftovers(srv) == {}
    ensures var t := RS.Fresh(srv, key, i);
            RS.Valid(t) && t.rtab == srv.rtab[key := RS.Svc(i, None, 0)] && RS.Leftovers(t) == {} && t.xi == srv.xi
  {
    RS.FreshKeeps(srv, key, i);
    RS.EnterKeeps(srv, key, i);
    var e := RS.Enter(srv, key, i);
    assert RS.Leftovers(e) == {} by {
      forall k | k in e.rq ensures e.rtab[k].offset != 0 { assert k !in RS.Leftovers(srv); }
    }
    assert e.rtab - {} == e.rtab;
  }

  /** Resending makes no leftover: something has been sent already. */
  lemma ReplayCurrent(srv: RS.Server, key: RS.Key)
    requires RS.Valid(srv) && key in srv.rtab && RS.Leftovers(srv) == {}
    ensures RS.Valid(RS.Replay(srv, key)) && RS.Leftovers(RS.Replay(srv, key)) == {}
  {
    RS.ReplayKeeps(srv, key);
    var t := RS.Replay(srv, key);
    assert srv.rtab[key].res.Some? ==> key in srv.rq && key !in RS.Leftovers(srv);
    forall k | k in t.rq ensures t.rtab[k].offset != 0 {
      if k != key || srv.rtab[key].res.None? { assert k in srv.rq && k !in RS.Leftovers(srv); }
    }
  }

  /** Without leftovers, reading is benign and leaves none. */
  lemma QuietRead(s: Sys)
    requires Limits.Readable(s) && Limits.Pending(s) != [] && Enabled(s, ServerRecv) && RS.Leftovers(s.srv) == {}
    ensures RS.Valid(ReadCall(s).srv) && RS.Leftovers(ReadCall(s).srv) == {} && Benign(s, ServerRecv)
  {
    var i := Limits.Pending(s)[0];
    var key := KeyOf(s, i);
    if key in s.srv.rtab {
      ReplayCurrent(s.srv, key);
      ReplayForgetsNothing(s);
    } else {
      FreshEnters(s.srv, key, i);
      KeepsIds(s.srv.rtab, ReadCall(s).srv.rtab);
    }
  }

  /** And what is behind stays within reach. */
  lemma QuietFront(s: Sys, x: nat)
    requires Waits(s, x) && Limits.Pending(s)[0] != x && Enabled(s, ServerRecv) && RS.Leftovers(s.srv) == {}
    ensures FrontOf(s) == [Limits.Pending(s)[0]] + FrontOf(ReadCall(s))
  {
    var q, t := Limits.Pending(s), ReadCall(s);
    var key := KeyOf(s, q[0]);
    if key in s.srv.rtab {
      if s.srv.rtab[key].res.Some? { S.ResendFront(s, key); }
    } else {
      FreshEnters(s.srv, key, q[0]);
      EnterFront(s.issued, s.srv, q);
    }
  }

  lemma EnterFront(issued: seq<Call>, srv: RS.Server, q: seq<nat>)
    requires q != [] && Apart(issued, q)
    ensures var key := RS.Key(issued[q[0]].xid, issued[q[0]].proc);
            Front(issued, srv.rtab, srv.xi.pktsize, srv.xi.up, q[1..])
            == Front(issued, srv.rtab[key := RS.Svc(q[0], None, 0)], srv.xi.pktsize, srv.xi.up, q[1..])
  {
    var key := RS.Key(issued[q[0]].xid, issued[q[0]].proc);
    var r := srv.rtab[key := RS.Svc(q[0], None, 0)];
    FrontIsPrefix(issued, r, srv.xi.pktsize, srv.xi.up, q[1..]);
    forall i | i in Front(issued, r, srv.xi.pktsize, srv.xi.up, q[1..])
      ensures Resent(issued, srv.rtab, i) == Resent(issued, r, i)
    {
      var j :| 0 <= j < |q[1..]| && q[1..][j] == i;
      assert issued[q[0]].xid != issued[q[j + 1]].xid;
    }
    FrontSame(issued, srv.rtab, r, srv.xi.pktsize, srv.xi.up, q[1..]);
  }

  /** Within reach means that what comes before can be read. */
  lemma ReachEnables(s: Sys, x: nat)
    requires Waits(s, x) && x in FrontOf(s)
    ensures Enabled(s, ServerRecv)
  {
  }

  /** A forgotten call that is within reach is executed again when the server reads on. */
  lemma {:induction false} ReadOn(home: nat, s: Sys, x: nat) returns (steps: seq<Step>, u: Sys)
    requires Waits(s, x) && x in FrontOf(s) && RS.Leftovers(s.srv) == {}
    ensures Path(home, s, steps, u) && Ran(s, u, x)
    decreases |Limits.Pending(s)|
  {
    ReachEnables(s, x);
    QuietRead(s);
    var t := ReadCall(s);
    if Limits.Pending(s)[0] == x {
      ReadsIt(s, x);
      PathOne(home, s, ServerRecv);
      steps, u := [ServerRecv], t;
    } else {
      WaitsOn(s, x);
      QuietFront(s, x);
      Limits.ReadKeepsReadable(s);
      steps, u := ReadOn(home, t, x);
      PathCons(home, s, ServerRecv, steps, u);
      steps := [ServerRecv] + steps;
    }
  }

  // ----- the server moves to another connection and reads there

  /** On a transport that takes every cached reply, all calls can be read. */
  lemma FitsOn(s: Sys)
    requires Limits.Readable(s) && Limits.Pending(s) != [] && Limits.CanResend(s.srv)
    ensures Enabled(s, ServerRecv) && Limits.CanResend(ReadCall(s).srv)
  {
    var i := Limits.Pending(s)[0];
    var key := KeyOf(s, i);
    if key !in s.srv.rtab {
      RS.FreshKeeps(s.srv, key, i);
    }
  }

  lemma {:induction false} ReadAll(home: nat, s: Sys, x: nat) returns (steps: seq<Step>, u: Sys)
    requires Waits(s, x) && Limits.CanResend(s.srv) && s.sc != home
    ensures Path(home, s, steps, u) && Ran(s, u, x)
    decreases |Limits.Pending(s)|
  {
    FitsOn(s);
    var t := ReadCall(s);
    if Limits.Pending(s)[0] == x {
      ReadsIt(s, x);
      PathOne(home, s, ServerRecv);
      steps, u := [ServerRecv], t;
    } else {
      WaitsOn(s, x);
      Limits.ReadKeepsReadable(s);
      steps, u := ReadAll(home, t, x);
      PathCons(home, s, ServerRecv, steps, u);
      steps := [ServerRecv] + steps;
    }
  }

  /** Some packet size is enough for all cached replies. */
  lemma {:induction false} EnoughFor(rtab: map<RS.Key, RS.Svc>) returns (n: nat)
    ensures forall k :: k in rtab && rtab[k].res.Some? ==> |rtab[k].res.value| <= n
    decreases |rtab|
  {
    if rtab == map[] {
      n := 0;
    } else {
      var k :| k in rtab;
      var r := rtab - {k};
      assert |r.Keys| < |rtab.Keys| by { assert r.Keys == rtab.Keys - {k}; }
      n := EnoughFor(r);
      n := if rtab[k].res.Some? then Max(n, |rtab[k].res.value|) else n;
      forall l | l in rtab && rtab[l].res.Some? ensures |rtab[l].res.value| <= n {
        assert l != k ==> l in r && r[l] == rtab[l];
      }
    }
  }

  // ----- what the steps keep

  /** What every step of interest keeps, benign or not. */
  ghost predicate Sane(s: Sys) {
    && s.sc < |s.conns| && s.cc < |s.conns|
    && CallsOk(|s.issued|, s.calls) && ConnsOk(|s.issued|, s.computed, s.conns, s.sc)
    && RS.Valid(s.srv) && KeysOk(s.issued, s.srv.rtab)
    && Distinct(s) && Vouched(s)
  }

  /** The server has forgotten call x, and has no leftovers. */
  ghost predicate Forgotten(s: Sys, x: nat)
    requires RS.Valid(s.srv)
  {
    x < |s.issued| && KeyOf(s, x) !in s.srv.rtab && RS.Leftovers(s.srv) == {}
  }

  lemma SaneTyped(s: Sys)
    requires Sane(s)
    ensures Typed(s)
  {
    forall m | m in s.conns[s.cc].replies && m.Answer? ensures m.id < |s.issued| {
      var j :| 0 <= j < |s.conns[s.cc].replies| && s.conns[s.cc].replies[j] == m;
      assert AnswerOk(|s.issued|, s.computed, s.conns[s.cc].replies[j]);
    }
  }

  lemma SaneWaits(s: Sys, x: nat)
    requires Sane(s) && x < |s.issued| && KeyOf(s, x) !in s.srv.rtab && x in Limits.Pending(s)
    ensures Waits(s, x)
  {
    SaneTyped(s);
    forall k | k in s.srv.rtab ensures s.srv.rtab[k].id < |s.issued| {
      assert Keyed(s.issued, k, s.srv.rtab[k]);
    }
    var q := Limits.Pending(s);
    assert CallsOk(|s.issued|, q);
    forall i, j | 0 <= i < j < |q| ensures s.issued[q[i]].xid != s.issued[q[j]].xid {
      assert q[i] in q && q[j] in q;
      assert Live(s, q[i]) && Live(s, q[j]);
    }
  }

  lemma MoveSane(s: Sys, n: nat, size: nat)
    requires Sane(s) && s.sc < n < |s.conns|
    ensures Sane(S.ResumedAt(s, n, size, 0))
  {
    var t := S.ResumedAt(s, n, size, 0);
    RS.ResumeKeeps(s.srv, t.srv.xi);
    S.ServerResumeDistinct(s, n, size, 0);
    forall k | k in t.srv.rtab ensures Keyed(t.issued, k, t.srv.rtab[k]) {
      assert Keyed(s.issued, k, s.srv.rtab[k]);
    }
  }

  /** The server moves to a connection that carries the forgotten call and reads it. */
  lemma MoveAndRead(s: Sys, x: nat, n: nat) returns (steps: seq<Step>, u: Sys)
    requires Sane(s) && Forgotten(s, x) && s.sc < n < |s.conns| && x in s.conns[n].calls
    ensures Path(s.sc, s, steps, u) && Ran(s, u, x)
  {
    var size := EnoughFor(s.srv.rtab);
    var st := ServerResume(n, size, 0);
    var t := S.ResumedAt(s, n, size, 0);
    SaneTyped(s);
    OthersAreBenign(s, st);
    MoveSane(s, n, size);
    SaneWaits(t, x);
    steps, u := ReadAll(s.sc, t, x);
    PathCons(s.sc, s, st, steps, u);
    steps := [st] + steps;
  }

  // ----- the client replays

  ghost predicate Unpromised(conns: seq<Conn>, x: nat, a: nat, b: nat) {
    b <= |conns| && forall k: nat :: a <= k < b ==> x !in PromisedOn(conns[k])
  }

  /** The client has to walk to connection n to replay x, its only call, where the server hears it. */
  ghost predicate Walking(s: Sys, x: nat, n: nat) {
    && Sane(s) && Forgotten(s, x) && Elems(s.calls) == {x}
    && s.cc < n < |s.conns| && Hears(s) <= n && Unpromised(s.conns, x, s.cc, n)
  }

  /** The client processes a message that is not an answer to x. */
  lemma TakeOne(s: Sys, x: nat, n: nat)
    requires Walking(s, x, n) && s.conns[s.cc].processed < s.conns[s.cc].vouched
    ensures s.conns[s.cc].replies != [] && Goes(s.sc, s, ClientRecv)
    ensures var t := Apply(s, ClientRecv); t == Deliver(s) && Sane(t) && C.Delivered(s, t) && Elems(t.calls) == {x}
  {
    var c := s.conns[s.cc];
    assert c.replies != [];
    SaneTyped(s);
    C.DeliverShape(s);
    var t := Deliver(s);
    C.DeliverDistinct(s, t);
    OthersAreBenign(s, ClientRecv);
    assert x != C.Target(s) by {
      assert x in s.calls by { assert x in Elems(s.calls); }
      assert Start(c.processed, c.replies, 0) == c.processed;
    }
    forall k, j | 0 <= k < |t.conns| && 0 <= j < |t.conns[k].replies|
      ensures AnswerOk(|t.issued|, t.computed, t.conns[k].replies[j])
    {
      assert AnswerOk(|s.issued|, s.computed, s.conns[k].replies[if k == s.cc then j + 1 else j]);
    }
  }

  lemma WalkOne(s: Sys, x: nat, n: nat)
    requires Walking(s, x, n) && s.conns[s.cc].processed < s.conns[s.cc].vouched
    ensures s.conns[s.cc].replies != [] && Goes(s.sc, s, ClientRecv)
    ensures var t := Apply(s, ClientRecv);
            && Walking(t, x, n) && t.sc == s.sc && t.cc == s.cc && |t.conns[t.cc].replies| < |s.conns[s.cc].replies|
            && t.executed == s.executed && t.dropped == s.dropped
  {
    TakeOne(s, x, n);
    C.PromisedAfterFirst(s.conns[s.cc]);
  }

  lemma JoinConns(s: Sys, k: nat)
    requires s.cc < k < |s.conns| && CallsOk(|s.issued|, s.calls) && ConnsOk(|s.issued|, s.computed, s.conns, s.sc)
    ensures var t := C.JoinAt(s, k); ConnsOk(|t.issued|, t.computed, t.conns, t.sc)
  {
    var t := C.JoinAt(s, k);
    forall l | 0 <= l < |t.conns| ensures CallsOk(|t.issued|, t.conns[l].calls) {
      assert CallsOk(|s.issued|, s.conns[l].calls);
    }
  }

  /** The client moves to the next connection. */
  lemma JoinNext(s: Sys)
    requires Sane(s) && s.cc + 1 < |s.conns| && s.conns[s.cc].vouched <= s.conns[s.cc].processed
    ensures Goes(s.sc, s, ClientResume(s.cc + 1))
    ensures Apply(s, ClientResume(s.cc + 1)) == C.JoinAt(s, s.cc + 1) && Sane(C.JoinAt(s, s.cc + 1))
  {
    var k := s.cc + 1;
    SaneTyped(s);
    C.ClientResumeDistinct(s, k);
    OthersAreBenign(s, ClientResume(k));
    JoinConns(s, k);
  }

  lemma WalkNext(s: Sys, x: nat, n: nat)
    requires Walking(s, x, n) && s.conns[s.cc].processed >= s.conns[s.cc].vouched
    ensures Goes(s.sc, s, ClientResume(s.cc + 1))
    ensures var t := Apply(s, ClientResume(s.cc + 1));
            && t == C.JoinAt(s, s.cc + 1) && Sane(t) && Forgotten(t, x) && (t.cc == n || Walking(t, x, n))
  {
    JoinNext(s);
    var t := C.JoinAt(s, s.cc + 1);
    forall l: nat | t.cc <= l < n ensures x !in PromisedOn(t.conns[l]) {
      assert PromisedOn(t.conns[l]) == PromisedOn(s.conns[l]);
    }
  }

  /** The client is on a connection that carries x, and the server reads it there. */
  lemma Arrive(s: Sys, x: nat) returns (steps: seq<Step>, u: Sys)
    requires Sane(s) && Forgotten(s, x) && s.sc <= s.cc && s.conns[s.cc].calls == s.calls && Elems(s.calls) == {x}
    ensures Path(s.sc, s, steps, u) && Ran(s, u, x)
  {
    assert x in s.calls by { assert x in Elems(s.calls); }
    if s.sc == s.cc {
      SaneWaits(s, x);
      assert s.calls[0] in Elems(s.calls);
      assert FrontOf(s)[0] == x;
      steps, u := ReadOn(s.sc, s, x);
    } else {
      steps, u := MoveAndRead(s, x, s.cc);
    }
  }

  /** The client walks to connection n, processing what it has to, and replays x there. */
  lemma {:induction false} WalkTo(s: Sys, x: nat, n: nat) returns (steps: seq<Step>, u: Sys)
    requires Walking(s, x, n)
    ensures Path(s.sc, s, steps, u) && Ran(s, u, x)
    decreases n - s.cc, |s.conns[s.cc].replies|
  {
    var st := if s.conns[s.cc].processed < s.conns[s.cc].vouched then ClientRecv else ClientResume(s.cc + 1);
    if st.ClientRecv? {
      WalkOne(s, x, n);
      steps, u := WalkTo(Apply(s, st), x, n);
    } else {
      WalkNext(s, x, n);
      var t := C.JoinAt(s, s.cc + 1);
      if t.cc == n {
        steps, u := Arrive(t, x);
      } else {
        steps, u := WalkTo(t, x, n);
      }
    }
    PathCons(s.sc, s, st, steps, u);
    steps := [st] + steps;
  }

  /** The state of a client that may replay x on connection n, but for its other calls. */
  ghost predicate Bound(s: Sys, x: nat, n: nat) {
    && Sane(s) && Forgotten(s, x) && x in s.calls
    && s.cc < n < |s.conns| && Hears(s) <= n && Unpromised(s.conns, x, s.cc, n)
  }

  lemma CancelSane(s: Sys, y: nat)
    requires Sane(s) && y in s.calls
    ensures Goes(s.sc, s, Cancel(y))
    ensures Sane(Apply(s, Cancel(y))) && Elems(Apply(s, Cancel(y)).calls) == Elems(s.calls) - {y}
  {
    SaneTyped(s);
    C.WithoutIncreasing(|s.issued|, s.calls, {y});
    DistinctIfFewer(s, s.(calls := Without(s.calls, {y})));
    OthersAreBenign(s, Cancel(y));
  }

  /** The client cancels everything but x first. */
  lemma {:induction false} CancelAndWalk(s: Sys, x: nat, n: nat) returns (steps: seq<Step>, u: Sys)
    requires Bound(s, x, n)
    ensures Path(s.sc, s, steps, u) && Ran(s, u, x)
    decreases |Elems(s.calls)|
  {
    assert x in Elems(s.calls);
    if y :| y in s.calls && y != x {
      CancelSane(s, y);
      var t := Apply(s, Cancel(y));
      assert y in Elems(s.calls) && x in Elems(t.calls);
      steps, u := CancelAndWalk(t, x, n);
      PathCons(s.sc, s, Cancel(y), steps, u);
      steps := [Cancel(y)] + steps;
    } else {
      assert Elems(s.calls) == {x};
      steps, u := WalkTo(s, x, n);
    }
  }

  /** Beyond where the server hears the client nothing is promised. */
  lemma NothingOwed(s: Sys, x: nat)
    requires Sane(s) && x !in Promised(s.conns, s.cc, Hears(s)) && (s.cc < s.sc ==> !s.srv.xi.up)
    ensures Unpromised(s.conns, x, s.cc, |s.conns|)
  {
    forall k: nat | s.cc <= k < |s.conns| ensures x !in PromisedOn(s.conns[k]) {
      if s.sc < k {
        NothingPromised(s.conns[k]);
      } else {
        assert Awaits(s.cc, Hears(s), k);
      }
    }
  }

  /** The client replays the forgotten call where the server is, or else on a new connection. */
  lemma Replays(s: Sys, x: nat) returns (steps: seq<Step>, u: Sys)
    requires Sane(s) && Forgotten(s, x) && x in s.calls && x !in Promised(s.conns, s.cc, Hears(s))
    ensures Path(s.sc, s, steps, u) && Ran(s, u, x)
  {
    if s.cc < s.sc && s.srv.xi.up {
      forall k: nat | s.cc <= k < s.sc ensures x !in PromisedOn(s.conns[k]) {
        assert Awaits(s.cc, Hears(s), k);
      }
      steps, u := CancelAndWalk(s, x, s.sc);
    } else {
      NothingOwed(s, x);
      var t := C.AddConn(s);
      SaneTyped(s);
      C.ConnectDistinct(s);
      C.ConnectConns(s);
      OthersAreBenign(s, Connect);
      steps, u := CancelAndWalk(t, x, |s.conns|);
      PathCons(s.sc, s, Connect, steps, u);
      steps := [Connect] + steps;
    }
  }

  /** A forgotten call that returns is executed again in some continuation. */
  lemma Repeats(s: Sys, x: nat) returns (steps: seq<Step>, u: Sys)
    requires Sane(s) && Forgotten(s, x) && Returns(s, x)
    ensures Path(s.sc, s, steps, u) && Ran(s, u, x)
  {
    if x in FrontOf(s) {
      FrontOfPrefix(s);
      SaneWaits(s, x);
      steps, u := ReadOn(s.sc, s, x);
    } else if Unread(s.conns, s.sc + 1, x) {
      var k: nat :| s.sc + 1 <= k < |s.conns| && x in s.conns[k].calls;
      steps, u := MoveAndRead(s, x, k);
    } else {
      steps, u := Replays(s, x);
    }
  }
}
