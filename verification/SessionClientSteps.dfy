/** Every step of the client and the network keeps the session invariant. */
module SessionClientSteps {
  import opened Common
  import opened Session
  import opened SessionInv
  import opened SessionFront
  import RS = ResumableServer
  import Lane = SessionLanes

  // ----- steps of the client

  lemma ClientEofKeeps(s: Sys)
    requires Inv(s)
    ensures Inv(s.(sending := false))
  {
    var t := s.(sending := false);
    DistinctIfFewer(s, t);
    Lane.EofKeeps(Abs(s));
  }

  lemma WithoutIncreasing(n: nat, q: seq<nat>, gone: set<nat>)
    requires CallsOk(n, q)
    ensures CallsOk(n, Without(q, gone))
  {
    var r := Without(q, gone);
    WithoutNoDup(q, gone);
    WithoutKeepsOrder(q, gone, x => x);
    forall j | 0 <= j < |r| ensures r[j] < n {
      assert r[j] in r;
    }
  }

  lemma CancelKeeps(s: Sys, i: nat)
    requires Inv(s)
    ensures Inv(s.(calls := Without(s.calls, {i})))
  {
    DistinctIfFewer(s, s.(calls := Without(s.calls, {i})));
    WithoutIncreasing(|s.issued|, s.calls, {i});
    CancelLanes(s, i);
  }

  lemma CancelLanes(s: Sys, i: nat)
    requires s.sc < |s.conns| && s.cc < |s.conns| && Lane.Inv(Abs(s))
    ensures Lane.Inv(Abs(s.(calls := Without(s.calls, {i}))))
  {
    var t := s.(calls := Without(s.calls, {i}));
    Lane.RemoveKeeps(Abs(s), i, Abs(s).promised);
    assert Elems(t.calls) == Elems(s.calls) - {i};
    assert Abs(t).lanes == Abs(s).lanes[|s.conns| := Elems(t.calls)];
  }

  lemma IssueDistinct(s: Sys, c: Call)
    requires Distinct(s) && Typed(s) && Assumed(s, Issue(c)) && Enabled(s, Issue(c))
    ensures Distinct(Apply(s, Issue(c)))
  {
    var t := Apply(s, Issue(c));
    var n := |s.issued|;
    forall i | Live(t, i) && i != n ensures Live(s, i) {
      if Unread(t.conns, t.sc, i) {
        var k :| t.sc <= k < |t.conns| && i in t.conns[k].calls;
        assert i in s.conns[k].calls;
      }
      if Underway(t.conns, t.cc, i) {
        var k, j :| t.cc <= k < |t.conns| && 0 <= j < |t.conns[k].replies| && IsAnswer(t.conns[k].replies[j], i);
        assert IsAnswer(s.conns[k].replies[j], i);
      }
    }
  }

  /** A call that is sent where the server hears it joins its lane, unless something is in the way there. */
  ghost predicate Heard(s: Sys, t: Sys)
    requires t.sc < |t.conns|
  {
    s.sending && Hears(s) <= s.cc && (s.cc == s.sc ==> FrontOf(t) == t.conns[t.sc].calls)
  }

  lemma IssueShape(s: Sys, c: Call, t: Sys)
    requires Typed(s) && Enabled(s, Issue(c)) && t == Apply(s, Issue(c))
    ensures Lane.IssueOk(Abs(s), Heard(s, t), Abs(t).cut)
  {
    IssueFront(s, c);
    FrontOfPrefix(s);
  }

  /** Where the call goes, as lanes. */
  lemma IssueLanesOf(s: Sys, conns: seq<Conn>, front: seq<nat>, n: nat, heard: bool, cut: bool)
    requires s.sc < |s.conns| && s.cc < |s.conns| && |conns| == |s.conns| && Lane.Shape(Abs(s))
    requires forall k :: 0 <= k < |conns| && s.sc < k ==>
               conns[k].calls == if heard && k == s.cc then s.conns[k].calls + [n] else s.conns[k].calls
    requires front == if heard && s.cc == s.sc then FrontOf(s) + [n] else FrontOf(s)
    requires heard ==> s.sc <= s.cc
    ensures LanesOf(conns, s.sc, front, s.calls + [n]) == Lane.Issue(Abs(s), n, heard, cut).lanes
  {
    ElemsAppend(s.calls, n);
    ElemsAppend(FrontOf(s), n);
    ElemsAppend(s.conns[s.cc].calls, n);
  }

  lemma IssuePlaces(s: Sys, c: Call, t: Sys)
    requires Typed(s) && Enabled(s, Issue(c)) && t == Apply(s, Issue(c))
    ensures forall k :: 0 <= k < |t.conns| && s.sc < k ==>
              t.conns[k].calls == if Heard(s, t) && k == s.cc then s.conns[k].calls + [|s.issued|] else s.conns[k].calls
    ensures FrontOf(t) == if Heard(s, t) && s.cc == s.sc then FrontOf(s) + [|s.issued|] else FrontOf(s)
    ensures Heard(s, t) ==> s.sc <= s.cc
  {
    IssueFront(s, c);
    FrontOfPrefix(s);
  }

  lemma IssueAbs(s: Sys, t: Sys, n: nat, heard: bool)
    requires s.sc < |s.conns| && s.cc < |s.conns| && |t.conns| == |s.conns| && Lane.Shape(Abs(s))
    requires t == s.(issued := t.issued, calls := s.calls + [n], conns := t.conns)
    requires forall k :: 0 <= k < |s.conns| ==> t.conns[k] == s.conns[k].(calls := t.conns[k].calls)
    requires forall k :: 0 <= k < |t.conns| && s.sc < k ==>
               t.conns[k].calls == if heard && k == s.cc then s.conns[k].calls + [n] else s.conns[k].calls
    requires FrontOf(t) == if heard && s.cc == s.sc then FrontOf(s) + [n] else FrontOf(s)
    requires heard ==> s.sc <= s.cc
    ensures Abs(t) == Lane.Issue(Abs(s), n, heard, Abs(t).cut)
  {
    IssueLanesOf(s, t.conns, FrontOf(t), n, heard, Abs(t).cut);
    IssueRest(s, t, n);
  }

  lemma IssueRest(s: Sys, t: Sys, n: nat)
    requires s.sc < |s.conns| && s.cc < |s.conns| && |t.conns| == |s.conns|
    requires t == s.(issued := t.issued, calls := s.calls + [n], conns := t.conns)
    requires forall k :: 0 <= k < |s.conns| ==> t.conns[k] == s.conns[k].(calls := t.conns[k].calls)
    ensures Abs(t) == Abs(s).(lanes := LanesOf(t.conns, s.sc, FrontOf(t), s.calls + [n]), cut := Abs(t).cut)
  {
    assert JoinedOf(t.conns) == JoinedOf(s.conns);
    SamePromised(s.conns, t.conns, s.cc, Hears(s));
  }

  lemma IssueLanes(s: Sys, c: Call)
    requires Inv(s) && Typed(s) && Enabled(s, Issue(c))
    ensures Lane.Inv(Abs(Apply(s, Issue(c))))
  {
    var t := Apply(s, Issue(c));
    var n := |s.issued|;
    FrontOfPrefix(s);
    forall k, x: nat | Abs(s).At(k, x) ensures x < n {
      if k < |s.conns| {
        assert CallsOk(n, s.conns[k].calls);
      }
    }
    IssueShape(s, c, t);
    IssuePlaces(s, c, t);
    IssueAbs(s, t, n, Heard(s, t));
    Lane.IssueKeeps(Abs(s), n, Heard(s, t), Abs(t).cut);
  }

  lemma IssueCovered(s: Sys, c: Call)
    requires Typed(s) && Enabled(s, Issue(c))
    requires TableOk(s.issued, s.computed, s.srv.rtab) && StreamOk(s.srv, s.conns, s.sc, s.calls)
    requires forall k :: 0 <= k < |s.conns| ==> CallsOk(|s.issued|, s.conns[k].calls)
    ensures var t := Apply(s, Issue(c)); StreamOk(t.srv, t.conns, t.sc, t.calls)
  {
    var t := Apply(s, Issue(c));
    forall k | k in t.srv.rtab ensures Covered(t.srv.xi, t.conns, t.sc, t.calls, t.srv.rtab[k]) {
      assert Covered(s.srv.xi, s.conns, s.sc, s.calls, s.srv.rtab[k]);
      assert Keyed(s.issued, k, s.srv.rtab[k]);
    }
  }

  lemma IssueConns(s: Sys, c: Call)
    requires Typed(s) && Enabled(s, Issue(c))
    requires ConnsOk(|s.issued|, s.computed, s.conns, s.sc) && TableOk(s.issued, s.computed, s.srv.rtab)
    ensures var t := Apply(s, Issue(c));
            ConnsOk(|t.issued|, t.computed, t.conns, t.sc) && TableOk(t.issued, t.computed, t.srv.rtab)
  {
    var t := Apply(s, Issue(c));
    forall k | 0 <= k < |t.conns| ensures CallsOk(|t.issued|, t.conns[k].calls) {
      assert CallsOk(|s.issued|, s.conns[k].calls);
    }
    forall k | k in t.srv.rtab ensures Keyed(t.issued, k, t.srv.rtab[k]) && CacheOk(t.computed, t.srv.rtab[k]) {
      assert Keyed(s.issued, k, s.srv.rtab[k]) && CacheOk(s.computed, s.srv.rtab[k]);
    }
  }

  lemma IssueKeeps(s: Sys, c: Call)
    requires Inv(s) && Typed(s) && Assumed(s, Issue(c))
    requires Enabled(s, Issue(c))
    ensures Inv(Apply(s, Issue(c)))
  {
    IssueDistinct(s, c);
    IssueLanes(s, c);
    IssueCovered(s, c);
    IssueConns(s, c);
  }

  function AddConn(s: Sys): Sys {
    s.(conns := s.conns + [Conn(false, [], [], 0, 0)])
  }

  lemma ConnectDistinct(s: Sys)
    requires Distinct(s)
    ensures Distinct(AddConn(s))
  {
    var t := AddConn(s);
    forall i | Live(t, i) ensures Live(s, i) {
      if Unread(t.conns, t.sc, i) {
        var k :| t.sc <= k < |t.conns| && i in t.conns[k].calls;
        assert i in s.conns[k].calls;
      }
      if Underway(t.conns, t.cc, i) {
        var k, j :| t.cc <= k < |t.conns| && 0 <= j < |t.conns[k].replies| && IsAnswer(t.conns[k].replies[j], i);
        assert IsAnswer(s.conns[k].replies[j], i);
      }
    }
    DistinctIfFewer(s, t);
  }

  lemma ConnectLanesOf(conns: seq<Conn>, c: Conn, sc: nat, front: seq<nat>, calls: seq<nat>)
    requires sc < |conns| && c.calls == [] && !c.joined
    ensures LanesOf(conns + [c], sc, front, calls) == LanesOf(conns, sc, front, calls)[..|conns|] + [{}, Elems(calls)]
    ensures JoinedOf(conns + [c]) == JoinedOf(conns) + [false]
  {
    assert Elems<nat>([]) == {};
  }

  lemma ConnectLanes(s: Sys)
    requires s.sc < |s.conns| && s.cc < |s.conns| && Lane.Inv(Abs(s))
    ensures Lane.Inv(Abs(AddConn(s)))
  {
    Lane.ConnectKeeps(Abs(s));
    ConnectLanesOf(s.conns, Conn(false, [], [], 0, 0), s.sc, FrontOf(s), s.calls);
    assert FrontOf(AddConn(s)) == FrontOf(s);
    SamePromised(s.conns, AddConn(s).conns, s.cc, Hears(s));
    assert Abs(AddConn(s)) == Lane.Connect(Abs(s));
  }

  lemma ConnectConns(s: Sys)
    requires s.sc < |s.conns| && ConnsOk(|s.issued|, s.computed, s.conns, s.sc)
    ensures ConnsOk(|s.issued|, s.computed, AddConn(s).conns, s.sc)
  {
    var conns := AddConn(s).conns;
    forall k | 0 <= k < |conns| ensures CallsOk(|s.issued|, conns[k].calls) {
      assert k < |s.conns| ==> CallsOk(|s.issued|, s.conns[k].calls);
    }
  }

  lemma ConnectStream(s: Sys)
    requires s.sc < |s.conns| && StreamOk(s.srv, s.conns, s.sc, s.calls)
    ensures StreamOk(s.srv, AddConn(s).conns, s.sc, s.calls)
  {
    var t := AddConn(s);
    forall k | k in t.srv.rtab ensures Covered(t.srv.xi, t.conns, t.sc, t.calls, t.srv.rtab[k]) {
      assert Covered(s.srv.xi, s.conns, s.sc, s.calls, s.srv.rtab[k]);
    }
  }

  lemma ConnectKeeps(s: Sys)
    requires Inv(s)
    ensures Inv(AddConn(s))
  {
    ConnectDistinct(s);
    ConnectLanes(s);
    ConnectConns(s);
    ConnectStream(s);
  }

  function JoinAt(s: Sys, k: nat): Sys
    requires s.cc < k < |s.conns|
  {
    var c := s.conns[k];
    s.(cc := k, sending := true,
       conns := s.conns[k := c.(joined := true, calls := if Hears(s) <= k then s.calls else c.calls)])
  }

  lemma ClientResumeDistinct(s: Sys, k: nat)
    requires Distinct(s) && s.cc < k < |s.conns|
    ensures Distinct(JoinAt(s, k))
  {
    var t := JoinAt(s, k);
    forall i | Live(t, i) ensures Live(s, i) {
      if Unread(t.conns, t.sc, i) {
        var l :| t.sc <= l < |t.conns| && i in t.conns[l].calls;
        assert l != k ==> i in s.conns[l].calls;
      }
      if Underway(t.conns, t.cc, i) {
        var l, j :| t.cc <= l < |t.conns| && 0 <= j < |t.conns[l].replies| && IsAnswer(t.conns[l].replies[j], i);
        assert IsAnswer(s.conns[l].replies[j], i);
      }
    }
    DistinctIfFewer(s, t);
  }

  /** Before it replays where the server hears it the client has kept all promises; before that, it keeps the others. */
  lemma JoinPromised(s: Sys, k: nat)
    requires s.cc < k < |s.conns| && Vouched(JoinAt(s, k))
    ensures Hears(s) <= k ==> Promised(s.conns, s.cc, Hears(s)) == {}
    ensures k < Hears(s) ==> Promised(s.conns, s.cc, Hears(s)) <= Promised(JoinAt(s, k).conns, k, Hears(s))
  {
    var t := JoinAt(s, k);
    forall j: nat | j < k ensures PromisedOn(s.conns[j]) == {} {
      assert t.conns[j] == s.conns[j];
      NothingPromised(s.conns[j]);
    }
    forall j: nat | k <= j < |s.conns| ensures PromisedOn(s.conns[j]) == PromisedOn(t.conns[j]) {
      assert t.conns[j].replies == s.conns[j].replies;
    }
  }

  lemma JoinShape(s: Sys, k: nat)
    requires s.sc < |s.conns| && s.cc < k < |s.conns| && Lane.Shape(Abs(s)) && Increasing(s.calls)
    ensures var t := JoinAt(s, k); var here := if k == s.sc then Elems(FrontOf(t)) else Elems(s.calls);
            && Abs(t) == Lane.ClientResume(Abs(s), k, here, Abs(t).cut, Abs(t).promised)
            && (Hears(s) <= k ==> Lane.ReplayOk(Abs(s), k, here, Abs(t).cut))
            && (k < Hears(s) ==> Abs(t).cut == Abs(s).cut)
  {
    var t := JoinAt(s, k);
    var here := if k == s.sc then Elems(FrontOf(t)) else Elems(s.calls);
    NothingBeyond(s);
    FrontOfPrefix(t);
    if k == s.sc && Hears(s) <= k {
      PrefixElems(FrontOf(t), s.calls);
    }
    assert Abs(t).lanes == Lane.ClientResume(Abs(s), k, here, Abs(t).cut, Abs(t).promised).lanes;
    assert Abs(t).joined == Lane.ClientResume(Abs(s), k, here, Abs(t).cut, Abs(t).promised).joined;
  }

  lemma ClientResumeLanes(s: Sys, k: nat)
    requires s.sc < |s.conns| && s.cc < k < |s.conns| && Lane.Inv(Abs(s)) && Vouched(JoinAt(s, k))
        && Increasing(s.calls)
    ensures Lane.Inv(Abs(JoinAt(s, k)))
  {
    var t := JoinAt(s, k);
    JoinPromised(s, k);
    JoinShape(s, k);
    if Hears(s) <= k {
      var here := if k == s.sc then Elems(FrontOf(t)) else Elems(s.calls);
      Lane.ClientResumeKeeps(Abs(s), k, here, Abs(t).cut, Abs(t).promised);
    } else {
      Lane.RejoinKeeps(Abs(s), k, Abs(t).promised);
    }
  }

  lemma ClientResumeKeeps(s: Sys, k: nat)
    requires Inv(s) && s.cc < k < |s.conns| && Vouched(JoinAt(s, k))
    ensures Inv(JoinAt(s, k))
  {
    ClientResumeDistinct(s, k);
    ClientResumeLanes(s, k);
    var t := JoinAt(s, k);
    forall x | x in t.srv.rtab ensures Covered(t.srv.xi, t.conns, t.sc, t.calls, t.srv.rtab[x]) {
      assert Covered(s.srv.xi, s.conns, s.sc, s.calls, s.srv.rtab[x]);
    }
  }

  // ----- the client processes a message

  /** A transaction id leads the client to the call the answer is for. */
  lemma FoundIsOwner(s: Sys, m: Message)
    requires Distinct(s) && s.cc < |s.conns| && CallsOk(|s.issued|, s.calls)
    requires s.conns[s.cc].replies != [] && m == s.conns[s.cc].replies[0] && m.Answer? && m.id < |s.issued|
    ensures FindXid(s.issued, s.calls, s.issued[m.id].xid) == if m.id in s.calls then Some(m.id) else None
  {
    assert IsAnswer(s.conns[s.cc].replies[0], m.id);
    assert Live(s, m.id);
    var r := FindXid(s.issued, s.calls, s.issued[m.id].xid);
    if r.Some? {
      assert Live(s, r.value);
    }
  }

  /** The call the next message is an answer to; the number of no call if it is not an answer. */
  function Target(s: Sys): nat
    requires s.cc < |s.conns| && s.conns[s.cc].replies != []
  {
    var m := s.conns[s.cc].replies[0];
    if m.Answer? then m.id else |s.issued|
  }

  /** t is s after the client has processed one message. */
  ghost predicate Delivered(s: Sys, t: Sys)
    requires s.cc < |s.conns| && s.conns[s.cc].replies != []
  {
    var c := s.conns[s.cc];
    && t == s.(conns := t.conns, calls := t.calls, results := t.results)
    && t.conns == s.conns[s.cc := Shifted(c)]
    && Elems(t.calls) == Elems(s.calls) - {Target(s)}
  }

  /** The call that a processed answer finishes is the call it answers. */
  lemma DeliverShape(s: Sys)
    requires Typed(s) && Distinct(s) && CallsOk(|s.issued|, s.calls) && s.conns[s.cc].replies != []
    ensures Delivered(s, Deliver(s)) && CallsOk(|s.issued|, Deliver(s).calls)
  {
    var m := s.conns[s.cc].replies[0];
    assert m in s.conns[s.cc].replies;
    assert |s.issued| !in s.calls;
    if m.Answer? {
      FoundIsOwner(s, m);
      WithoutIncreasing(|s.issued|, s.calls, {m.id});
    }
  }

  lemma DeliverEffect(s: Sys)
    requires Inv(s) && Typed(s) && s.conns[s.cc].replies != []
    ensures HistoryOk(Deliver(s))
  {
    var m := s.conns[s.cc].replies[0];
    assert AnswerOk(|s.issued|, s.computed, m);
    if m.Answer? {
      FoundIsOwner(s, m);
    }
  }

  lemma DeliverDistinct(s: Sys, t: Sys)
    requires s.cc < |s.conns| && s.conns[s.cc].replies != [] && Delivered(s, t) && Distinct(s)
    ensures Distinct(t)
  {
    forall i | Live(t, i) ensures Live(s, i) {
      if i in t.calls { assert i in Elems(t.calls); }
      if Unread(t.conns, t.sc, i) {
        var k :| t.sc <= k < |t.conns| && i in t.conns[k].calls;
        assert i in s.conns[k].calls;
      }
      if Underway(t.conns, t.cc, i) {
        var k, j :| t.cc <= k < |t.conns| && 0 <= j < |t.conns[k].replies| && IsAnswer(t.conns[k].replies[j], i);
        assert IsAnswer(s.conns[k].replies[if k == s.cc then j + 1 else j], i);
      }
    }
    DistinctIfFewer(s, t);
  }

  /** The connection after its first message is processed. */
  function Shifted(c: Conn): Conn
    requires c.replies != []
  {
    c.(replies := c.replies[1..], processed := c.processed + Size(c.replies[0]))
  }

  lemma StartAfterFirst(c: Conn, j: nat)
    requires 0 < j <= |c.replies|
    ensures Start(c.processed + Size(c.replies[0]), c.replies[1..], j - 1) == Start(c.processed, c.replies, j)
  {
    assert c.replies[..j][1..] == c.replies[1..][..j - 1];
  }

  /** Processing the first message keeps every other promise and makes none. */
  lemma PromisedAfterFirst(c: Conn)
    requires c.replies != []
    ensures PromisedOn(Shifted(c)) <= PromisedOn(c)
    ensures forall i :: i in PromisedOn(c) && !IsAnswer(c.replies[0], i) ==> i in PromisedOn(Shifted(c))
  {
    var d := Shifted(c);
    forall i | i in PromisedOn(c) && !IsAnswer(c.replies[0], i) ensures i in PromisedOn(d) {
      var j: nat :| j < |c.replies| && c.replies[j].Answer? && Start(c.processed, c.replies, j) < c.vouched
          && c.replies[j].id == i;
      StartAfterFirst(c, j);
      assert d.replies[j - 1] == c.replies[j];
    }
    forall i | i in PromisedOn(d) ensures i in PromisedOn(c) {
      var j: nat :| j < |d.replies| && d.replies[j].Answer? && Start(d.processed, d.replies, j) < d.vouched
          && d.replies[j].id == i;
      StartAfterFirst(c, j + 1);
      assert c.replies[j + 1] == d.replies[j];
    }
  }

  lemma DeliverPromised(s: Sys, t: Sys)
    requires s.cc < |s.conns| && s.conns[s.cc].replies != [] && Delivered(s, t)
    ensures Promised(s.conns, s.cc, Hears(s)) - {Target(s)} <= Promised(t.conns, t.cc, Hears(t))
    ensures Promised(t.conns, t.cc, Hears(t)) <= Promised(s.conns, s.cc, Hears(s))
  {
    PromisedAfterFirst(s.conns[s.cc]);
    forall x | x in Promised(s.conns, s.cc, Hears(s)) && x != Target(s) ensures x in Promised(t.conns, t.cc, Hears(t)) {
      var k: nat :| k < |s.conns| && Awaits(s.cc, Hears(s), k) && x in PromisedOn(s.conns[k]);
      assert x in PromisedOn(t.conns[k]);
    }
    forall x | x in Promised(t.conns, t.cc, Hears(t)) ensures x in Promised(s.conns, s.cc, Hears(s)) {
      var k: nat :| k < |t.conns| && Awaits(t.cc, Hears(t), k) && x in PromisedOn(t.conns[k]);
      assert x in PromisedOn(s.conns[k]);
    }
  }

  lemma DeliverLanes(s: Sys, t: Sys)
    requires s.sc < |s.conns| && s.cc < |s.conns| && s.conns[s.cc].replies != [] && Delivered(s, t) && Lane.Inv(Abs(s))
    ensures Lane.Inv(Abs(t))
  {
    DeliverPromised(s, t);
    Lane.RemoveKeeps(Abs(s), Target(s), Abs(t).promised);
    assert Abs(t).lanes == Abs(s).lanes[|s.conns| := Elems(t.calls)];
    assert Abs(t).joined == Abs(s).joined;
  }

  lemma EndAfterOne(processed: nat, ms: seq<Message>)
    requires ms != []
    ensures End(processed, ms, 0) == processed + Size(ms[0])
  {
    assert ms[..1][1..] == [] && Total(ms[..1]) == Size(ms[0]);
  }

  /** Once the reply that an offset stands for is processed, its call is over. */
  lemma DeliverCovered(s: Sys, t: Sys, v: RS.Svc)
    requires s.sc < |s.conns| && s.cc < |s.conns| && s.conns[s.cc].replies != [] && Delivered(s, t)
    requires forall l :: s.cc < l < |s.conns| && s.sc <= l ==> s.conns[l].calls == []
    requires Covered(s.srv.xi, s.conns, s.sc, s.calls, v)
    ensures Covered(t.srv.xi, t.conns, t.sc, t.calls, v)
  {
    var c := s.conns[s.cc];
    forall i | i in t.calls ensures i in s.calls && i in Elems(t.calls) {
      assert i in Elems(t.calls);
      assert i in Elems(s.calls);
    }
    assert forall l :: 0 <= l < |s.conns| ==> t.conns[l].calls == s.conns[l].calls;
    if v.res.Some? && v.offset > 0 && (s.srv.xi.up || v.offset < s.srv.xi.sent) && s.cc == s.sc
        && v.offset > c.processed {
      var j: nat :| Carries(c.processed, c.replies, j, v.id, v.offset);
      if j == 0 {
        EndAfterOne(c.processed, c.replies);
        assert Over(t.conns, t.sc, t.calls, v.id);
      } else {
        EndAfterFirst(c.processed, c.replies, j);
        assert Carries(t.conns[s.cc].processed, t.conns[s.cc].replies, j - 1, v.id, v.offset);
      }
    }
  }

  lemma DeliverStream(s: Sys, t: Sys)
    requires s.sc < |s.conns| && s.cc < |s.conns| && s.conns[s.cc].replies != [] && Delivered(s, t)
    requires forall l :: s.cc < l < |s.conns| && s.sc <= l ==> s.conns[l].calls == []
    requires StreamOk(s.srv, s.conns, s.sc, s.calls)
    ensures StreamOk(t.srv, t.conns, t.sc, t.calls)
  {
    forall k | k in t.srv.rtab ensures Covered(t.srv.xi, t.conns, t.sc, t.calls, t.srv.rtab[k]) {
      DeliverCovered(s, t, s.srv.rtab[k]);
    }
  }

  lemma DeliverKeeps(s: Sys)
    requires Inv(s) && Typed(s) && s.conns[s.cc].replies != []
    ensures Delivered(s, Deliver(s)) && Inv(Deliver(s))
  {
    var t := Deliver(s);
    DeliverShape(s);
    DeliverEffect(s);
    DeliverDistinct(s, t);
    DeliverLanes(s, t);
    NothingBeyond(s);
    DeliverStream(s, t);
  }
}
