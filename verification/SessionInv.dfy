/** The inductive invariant of a resumable session. */
module SessionInv {
  import opened Common
  import opened Session
  import RS = ResumableServer
  import Lane = SessionLanes

  ghost predicate Increasing(q: seq<nat>) {
    forall i, j :: 0 <= i < j < |q| ==> q[i] < q[j]
  }

  ghost predicate CallsOk(n: nat, q: seq<nat>) {
    Increasing(q) && forall j :: 0 <= j < |q| ==> q[j] < n
  }

  ghost predicate AnswerOk(n: nat, computed: map<nat, bytes>, m: Message) {
    m.Answer? ==> m.id < n && m.id in computed && computed[m.id] == m.body
  }

  /** Connections carry calls in issue order and true answers; beyond the server's, no answers.
      Evictions relied only on bytes that were sent. */
  ghost predicate ConnsOk(n: nat, computed: map<nat, bytes>, conns: seq<Conn>, sc: nat) {
    && (forall k :: 0 <= k < |conns| ==> CallsOk(n, conns[k].calls))
    && (forall k :: 0 <= k < |conns| ==> conns[k].vouched <= conns[k].processed + Total(conns[k].replies))
    && (forall k, j :: 0 <= k < |conns| && 0 <= j < |conns[k].replies| ==> AnswerOk(n, computed, conns[k].replies[j]))
    && (forall k :: sc < k < |conns| ==> conns[k].replies == [] && conns[k].processed == 0 && conns[k].vouched == 0)
  }

  ghost predicate Keyed(issued: seq<Call>, k: RS.Key, v: RS.Svc) {
    v.id < |issued| && k == RS.Key(issued[v.id].xid, issued[v.id].proc)
  }

  /** The table is keyed by the calls in it. */
  ghost predicate KeysOk(issued: seq<Call>, rtab: map<RS.Key, RS.Svc>) {
    forall k :: k in rtab ==> Keyed(issued, k, rtab[k])
  }

  ghost predicate CacheOk(computed: map<nat, bytes>, v: RS.Svc) {
    match v.res
    case None => v.id !in computed
    case Some(b) => v.id in computed && computed[v.id] == b
  }

  /** The table caches the first reply computed. */
  ghost predicate TableOk(issued: seq<Call>, computed: map<nat, bytes>, rtab: map<RS.Key, RS.Svc>) {
    KeysOk(issued, rtab) && forall k :: k in rtab ==> CacheOk(computed, rtab[k])
  }

  /** Each call runs once, and once more for each time it was dropped and came again. */
  ghost predicate Balanced(executed: seq<nat>, dropped: seq<nat>, undone: set<nat>) {
    forall i :: multiset(executed)[i] == multiset(dropped)[i] + if i in executed && i !in undone then 1 else 0
  }

  /** Only executed calls have replies, and clients get those. */
  ghost predicate RepliesOk(n: nat, executed: seq<nat>, computed: map<nat, bytes>, results: map<nat, bytes>) {
    && (forall i :: i in executed ==> i < n)
    && (forall i :: i in computed ==> i in executed)
    && (forall i :: i in results ==> i in computed && results[i] == computed[i])
  }

  ghost predicate UndoneOk(undone: set<nat>, executed: seq<nat>, computed: map<nat, bytes>, rtab: map<RS.Key, RS.Svc>) {
    forall i :: i in undone ==> i in executed && i !in computed && i !in KnownIds(rtab)
  }

  ghost predicate HistoryOk(s: Sys) {
    && Balanced(s.executed, s.dropped, s.undone)
    && RepliesOk(|s.issued|, s.executed, s.computed, s.results)
    && UndoneOk(s.undone, s.executed, s.computed, s.srv.rtab)
  }

  /** Call i cannot be replayed on any connection after the server's. */
  ghost predicate Over(conns: seq<Conn>, sc: nat, calls: seq<nat>, i: nat) {
    i !in calls && forall l :: sc < l < |conns| ==> i !in conns[l].calls
  }

  /** A nonzero offset is where a reply to the call ends in the stream; once the client has
      processed that far, the call is over. */
  ghost predicate Covered(x: RS.Xprt, conns: seq<Conn>, sc: nat, calls: seq<nat>, v: RS.Svc)
    requires sc < |conns|
  {
    v.res.Some? && v.offset > 0 && (x.up || v.offset < x.sent) ==>
      if v.offset <= conns[sc].processed then Over(conns, sc, calls, v.id)
      else exists j: nat :: Carries(conns[sc].processed, conns[sc].replies, j, v.id, v.offset)
  }

  ghost predicate StreamOk(srv: RS.Server, conns: seq<Conn>, sc: nat, calls: seq<nat>)
    requires sc < |conns|
  {
    && srv.xi.sent == conns[sc].processed + Total(conns[sc].replies)
    && srv.xi.acked <= conns[sc].processed
    && forall k :: k in srv.rtab ==> Covered(srv.xi, conns, sc, calls, srv.rtab[k])
  }

  /** Calls present anywhere have different transaction ids. */
  ghost predicate Distinct(s: Sys) {
    forall i, j :: 0 <= i < j < |s.issued| && Live(s, i) && Live(s, j) ==> s.issued[i].xid != s.issued[j].xid
  }

  ghost predicate Inv(s: Sys) {
    && s.sc < |s.conns| && s.cc < |s.conns|
    && CallsOk(|s.issued|, s.calls)
    && ConnsOk(|s.issued|, s.computed, s.conns, s.sc)
    && RS.Valid(s.srv)
    && TableOk(s.issued, s.computed, s.srv.rtab)
    && HistoryOk(s)
    && StreamOk(s.srv, s.conns, s.sc, s.calls)
    && Distinct(s)
    && Vouched(s)
    && Lane.Inv(Abs(s))
  }

  lemma InvTyped(s: Sys)
    requires Inv(s)
    ensures Typed(s)
  {
    forall m | m in s.conns[s.cc].replies && m.Answer? ensures m.id < |s.issued| {
      var j :| 0 <= j < |s.conns[s.cc].replies| && s.conns[s.cc].replies[j] == m;
      assert AnswerOk(|s.issued|, s.computed, s.conns[s.cc].replies[j]);
    }
  }

  lemma InitOk(pktsize: nat, sndbufsz: int)
    ensures Inv(Init(pktsize, sndbufsz))
  {
  }

  // ----- sums of message sizes

  lemma {:induction false} TotalAppend(ms: seq<Message>, m: Message)
    ensures Total(ms + [m]) == Total(ms) + Size(m)
  {
    if ms != [] {
      assert (ms + [m])[1..] == ms[1..] + [m];
      TotalAppend(ms[1..], m);
    }
  }

  lemma {:induction false} TotalPrefix(ms: seq<Message>, n: nat)
    requires n <= |ms|
    ensures Total(ms[..n]) <= Total(ms)
    ensures n > 0 ==> Total(ms[..n]) >= RS.HEADER
  {
    if n > 0 {
      assert ms[..n][1..] == ms[1..][..n - 1];
      TotalPrefix(ms[1..], n - 1);
    }
  }

  /** Processing the first message moves the start of the stream, not the ends of the others. */
  lemma EndAfterFirst(processed: nat, ms: seq<Message>, j: nat)
    requires 0 < j < |ms|
    ensures End(processed + Size(ms[0]), ms[1..], j - 1) == End(processed, ms, j)
    ensures End(processed, ms, j) > End(processed, ms, 0) == processed + Size(ms[0])
  {
    assert ms[..j + 1][1..] == ms[1..][..j];
    assert Total(ms[..j + 1]) == Size(ms[0]) + Total(ms[1..][..j]);
    assert ms[..1][1..] == [] && Total(ms[..1]) == Size(ms[0]);
    TotalPrefix(ms[1..], j);
  }

  /** Appending a message moves no end. */
  lemma EndAfterAppend(processed: nat, ms: seq<Message>, m: Message)
    ensures forall j: nat :: j < |ms| ==> End(processed, ms + [m], j) == End(processed, ms, j)
    ensures End(processed, ms + [m], |ms|) == processed + Total(ms) + Size(m)
  {
    forall j: nat | j < |ms| ensures End(processed, ms + [m], j) == End(processed, ms, j) {
      assert (ms + [m])[..j + 1] == ms[..j + 1];
    }
    assert (ms + [m])[..|ms| + 1] == ms + [m];
    TotalAppend(ms, m);
  }

  /** A client that has processed all that evictions relied on owes nothing. */
  lemma NothingPromised(c: Conn)
    requires c.vouched <= c.processed
    ensures PromisedOn(c) == {}
  {
  }

  /** Promises depend on the answers only. */
  lemma SamePromised(a: seq<Conn>, b: seq<Conn>, cc: nat, hears: nat)
    requires |a| <= |b| && cc < |a| && hears <= |a|
    requires forall k :: 0 <= k < |a| ==>
               a[k].replies == b[k].replies && a[k].processed == b[k].processed && a[k].vouched == b[k].vouched
    ensures Promised(a, cc, hears) == Promised(b, cc, hears)
  {
    forall k: nat | k < |a| ensures PromisedOn(a[k]) == PromisedOn(b[k]) {
      assert a[k].replies == b[k].replies;
    }
  }

  lemma DistinctIfFewer(s: Sys, t: Sys)
    requires Distinct(s) && t.issued == s.issued && forall i :: Live(t, i) ==> Live(s, i)
    ensures Distinct(t)
  {
  }

  lemma ElemsAppend(q: seq<nat>, x: nat)
    ensures Elems(q + [x]) == Elems(q) + {x}
  {
  }

  /** Connections beyond the client's carry no calls. */
  lemma NothingBeyond(s: Sys)
    requires s.sc < |s.conns| && s.cc < |s.conns| && Lane.Shape(Abs(s))
    ensures forall l :: s.cc < l < |s.conns| && s.sc <= l ==> s.conns[l].calls == []
  {
    forall l | s.cc < l < |s.conns| && s.sc <= l ensures s.conns[l].calls == [] {
      var q := if l == s.sc then FrontOf(s) else s.conns[l].calls;
      assert forall x :: x in q <==> Abs(s).At(l, x);
      HeadIn(q);
    }
  }

  lemma HeadIn(q: seq<nat>)
    ensures q == [] || q[0] in q
  {
  }
}
