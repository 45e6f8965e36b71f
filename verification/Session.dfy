/**
 A resumable RPC session: one client (aclnt_resumable), one server (asrv_resumable) and
 the connections between them, as a state machine.

 Connections are numbered.  Each party uses one of them at a time and moves only forward,
 at its own pace.  A connection is FIFO in both directions; bytes lost when it breaks are
 bytes that are never read.  Once the server's transport is at end of file it still works off
 the calls it has received, and what is sent to it later is lost.  A message names the call it
 belongs to by the call's number in issue order; the parties themselves only compare
 transaction ids, as the program does.
 */
module Session {
  import opened Common
  import RS = ResumableServer
  import Lane = SessionLanes

  datatype Call = Call(xid: nat, proc: nat, arg: bytes)

  /** What travels from server to client: answers, and other traffic of the shared transport. */
  datatype Message = Answer(id: nat, body: bytes) | Other(body: bytes)

  datatype Conn = Conn(
    joined: bool,            // the client has resumed on it
    calls: seq<nat>,         // sent by the client, not yet read by the server
    replies: seq<Message>,   // sent by the server, not yet processed by the client
    processed: nat,          // reply bytes the client has processed
    vouched: nat)            // highest byte count an eviction has relied on

  datatype Sys = Sys(
    issued: seq<Call>,       // every call ever made, in order
    conns: seq<Conn>,
    calls: seq<nat>,         // client: outstanding calls
    cc: nat,                 // client: connection in use
    sending: bool,           // client: its transport is not at end of file
    results: map<nat, bytes>,// client: what completed calls returned
    srv: RS.Server,
    sc: nat,                 // server: connection in use
    executed: seq<nat>,      // calls handed to the service, in order
    computed: map<nat, bytes>, // first reply the service computed for each call
    dropped: seq<nat>,       // calls the service dropped without a reply, in order
    undone: set<nat>)        // calls dropped and not executed since

  datatype Step =
    | Issue(call: Call)
    | Cancel(id: nat)
    | Connect
    | ClientEof
    | ClientResume(conn: nat)
    | ClientRecv
    | ServerEof
    | ServerResume(conn: nat, pktsize: nat, sndbufsz: int)
    | ServerRecv
    | ServerReply(id: nat, body: bytes)
    | ServerDrop(id: nat)
    | ServerOther(body: bytes)
    | Ack(offset: nat)

  // ----- readings of the state

  function KeyOf(s: Sys, i: nat): RS.Key
    requires i < |s.issued|
  {
    RS.Key(s.issued[i].xid, s.issued[i].proc)
  }

  function Size(m: Message): nat { |m.body| + RS.HEADER }

  function Total(ms: seq<Message>): nat {
    if ms == [] then 0 else Size(ms[0]) + Total(ms[1..])
  }

  /** Where in the byte stream of its connection the j-th unprocessed message ends. */
  function End(processed: nat, replies: seq<Message>, j: nat): nat
    requires j < |replies|
  {
    processed + Total(replies[..j + 1])
  }

  /** Where it starts. */
  function Start(processed: nat, replies: seq<Message>, j: nat): nat
    requires j <= |replies|
  {
    processed + Total(replies[..j])
  }

  predicate IsAnswer(m: Message, i: nat) { m.Answer? && m.id == i }

  /** The j-th unprocessed message answers call i and ends at the given byte. */
  ghost predicate Carries(processed: nat, replies: seq<Message>, j: nat, i: nat, end: nat) {
    j < |replies| && IsAnswer(replies[j], i) && End(processed, replies, j) == end
  }

  /** Calls answered by messages that start within the bytes that evictions have relied on. */
  function PromisedOn(c: Conn): set<nat> {
    set j: nat | j < |c.replies| && c.replies[j].Answer?
        && Start(c.processed, c.replies, j) < c.vouched :: c.replies[j].id
  }

  /** The first connection on which what is sent from now on reaches the server. */
  function Hears(s: Sys): nat { if s.srv.xi.up then s.sc else s.sc + 1 }

  /** The client has to finish connection k before it can replay on one where the server hears it. */
  predicate Awaits(cc: nat, hears: nat, k: nat) { k == cc || cc < k < hears }

  /** Calls whose answer the client processes before it replays them. */
  function Promised(conns: seq<Conn>, cc: nat, hears: nat): set<nat> {
    set k: nat, x | k < |conns| && Awaits(cc, hears, k) && x in PromisedOn(conns[k]) :: x
  }

  /** The reply that the server sends again when it reads call i. */
  function Resent(issued: seq<Call>, rtab: map<RS.Key, RS.Svc>, i: nat): Option<bytes> {
    if i < |issued| && RS.Key(issued[i].xid, issued[i].proc) in rtab
    then rtab[RS.Key(issued[i].xid, issued[i].proc)].res else None
  }

  /** How far the server gets with the calls of q if it reads on: up to the first one that it would have to
      answer again without a transport, which aborts the program. */
  function Front(issued: seq<Call>, rtab: map<RS.Key, RS.Svc>, pktsize: nat, up: bool, q: seq<nat>): seq<nat> {
    if q == [] then []
    else
      match Resent(issued, rtab, q[0])
      case None => [q[0]] + Front(issued, rtab, pktsize, up, q[1..])
      case Some(b) => if up then [q[0]] + Front(issued, rtab, pktsize, |b| <= pktsize, q[1..]) else [q[0]]
  }

  function FrontOf(s: Sys): seq<nat>
    requires s.sc < |s.conns|
  {
    Front(s.issued, s.srv.rtab, s.srv.xi.pktsize, s.srv.xi.up, s.conns[s.sc].calls)
  }

  function KnownIds(t: map<RS.Key, RS.Svc>): set<nat> { set k | k in t :: t[k].id }

  function LeftoverIds(t: map<RS.Key, RS.Svc>): set<nat> {
    set k | k in t && t[k].res.Some? && t[k].offset == 0 :: t[k].id
  }

  /** Call i is still present in the client, the server or a connection someone may read. */
  ghost predicate Live(s: Sys, i: nat) {
    || i in s.calls
    || Unread(s.conns, s.sc, i)
    || i in KnownIds(s.srv.rtab)
    || Underway(s.conns, s.cc, i)
  }

  /** A copy of call i is on a connection the server may read. */
  ghost predicate Unread(conns: seq<Conn>, sc: nat, i: nat) {
    exists k :: sc <= k < |conns| && i in conns[k].calls
  }

  /** An answer to call i is on a connection the client may read. */
  ghost predicate Underway(conns: seq<Conn>, cc: nat, i: nat) {
    exists k, j :: cc <= k < |conns| && 0 <= j < |conns[k].replies| && IsAnswer(conns[k].replies[j], i)
  }

  /** The calls that the server can still read on each connection, then the outstanding calls. */
  function LanesOf(conns: seq<Conn>, sc: nat, front: seq<nat>, calls: seq<nat>): (r: seq<set<nat>>)
    ensures |r| == |conns| + 1 && r[|conns|] == Elems(calls)
    ensures forall k :: 0 <= k < |conns| ==>
              r[k] == if k < sc then {} else if k == sc then Elems(front) else Elems(conns[k].calls)
  {
    seq(|conns|, k requires 0 <= k < |conns| =>
      if k < sc then {} else if k == sc then Elems(front) else Elems(conns[k].calls)) + [Elems(calls)]
  }

  function JoinedOf(conns: seq<Conn>): (r: seq<bool>)
    ensures |r| == |conns| && forall k :: 0 <= k < |conns| ==> r[k] == conns[k].joined
  {
    seq(|conns|, k requires 0 <= k < |conns| => conns[k].joined)
  }

  function Abs(s: Sys): Lane.Lanes
    requires s.sc < |s.conns| && s.cc < |s.conns|
  {
    Lane.Lanes(
      LanesOf(s.conns, s.sc, FrontOf(s), s.calls), JoinedOf(s.conns), s.sc, s.cc, s.sending,
      s.srv.xi.up, FrontOf(s) != s.conns[s.sc].calls, s.srv.xi.up || s.srv.xi.sent > 0,
      KnownIds(s.srv.rtab) + s.undone, LeftoverIds(s.srv.rtab), Promised(s.conns, s.cc, Hears(s)), Elems(s.executed))
  }

  // ----- the steps

  /** The first outstanding call with this transaction id (a lookup in xidtab). */
  function FindXid(issued: seq<Call>, calls: seq<nat>, xid: nat): (r: Option<nat>)
    ensures r.Some? ==> r.value in calls && r.value < |issued| && issued[r.value].xid == xid
    ensures r.None? ==> forall i :: i in calls && i < |issued| ==> issued[i].xid != xid
  {
    if calls == [] then None
    else if calls[0] < |issued| && issued[calls[0]].xid == xid then Some(calls[0])
    else FindXid(issued, calls[1..], xid)
  }

  predicate InProgress(s: Sys, i: nat) {
    i < |s.issued| && KeyOf(s, i) in s.srv.rtab
    && s.srv.rtab[KeyOf(s, i)].id == i && s.srv.rtab[KeyOf(s, i)].res.None?
  }

  ghost predicate Typed(s: Sys) {
    && s.sc < |s.conns| && s.cc < |s.conns|
    && RS.Valid(s.srv)
    && (forall j :: 0 <= j < |s.conns[s.sc].calls| ==> s.conns[s.sc].calls[j] < |s.issued|)
    && (forall m :: m in s.conns[s.cc].replies && m.Answer? ==> m.id < |s.issued|)
  }

  /** When the parties can take a step. */
  ghost predicate Enabled(s: Sys, st: Step)
    requires Typed(s)
  {
    match st
    case Issue(c) => c.xid != 0 && FindXid(s.issued, s.calls, c.xid).None?
    case Cancel(i) => i in s.calls
    case ClientResume(k) => s.cc < k < |s.conns|
    case ClientRecv => s.conns[s.cc].replies != []
    case ServerResume(k, _, _) => s.sc < k < |s.conns|
    case ServerRecv =>
      s.conns[s.sc].calls != []
      && var key := KeyOf(s, s.conns[s.sc].calls[0]);
         // resending on a transport at end of file is a panic
         key in s.srv.rtab && s.srv.rtab[key].res.Some? ==> s.srv.xi.up
    case ServerReply(i, _) => InProgress(s, i)
    case ServerDrop(i) => InProgress(s, i)
    case ServerOther(b) => s.srv.xi.up && |b| <= s.srv.xi.pktsize
    case _ => true
  }

  /** Append message m to what the server has sent, if the transport took it. */
  function Push(s: Sys, taken: bool, m: Message): seq<Conn>
    requires s.sc < |s.conns|
  {
    var c := s.conns[s.sc];
    if taken then s.conns[s.sc := c.(replies := c.replies + [m])] else s.conns
  }

  function Deliver(s: Sys): Sys
    requires Typed(s) && s.conns[s.cc].replies != []
  {
    var c := s.conns[s.cc];
    var m := c.replies[0];
    var t := s.(conns := s.conns[s.cc := c.(replies := c.replies[1..], processed := c.processed + Size(m))]);
    if m.Other? then t
    else
      match FindXid(s.issued, s.calls, s.issued[m.id].xid)
      case None => t
      case Some(x) => t.(calls := Without(s.calls, {x}), results := s.results[x := m.body])
  }

  function ReadCall(s: Sys): Sys
    requires Typed(s) && s.conns[s.sc].calls != []
  {
    var c := s.conns[s.sc];
    var i := c.calls[0];
    var key := KeyOf(s, i);
    var t := s.(conns := s.conns[s.sc := c.(calls := c.calls[1..])]);
    if key in s.srv.rtab then
      var v := s.srv.rtab[key];
      t.(srv := RS.Replay(s.srv, key),
         conns := if v.res.None? then t.conns
                  else Push(t, |v.res.value| <= s.srv.xi.pktsize, Answer(v.id, v.res.value)))
    else
      t.(srv := RS.Fresh(s.srv, key, i), executed := s.executed + [i], undone := s.undone - {i})
  }

  /** The server's state after the reply is sent and cached, before anything is evicted. */
  function Answered(s: Sys, i: nat, b: bytes): RS.Server
    requires InProgress(s, i)
  {
    RS.Answer(s.srv, KeyOf(s, i), b)
  }

  function SendReply(s: Sys, i: nat, b: bytes): Sys
    requires Typed(s) && InProgress(s, i)
  {
    var w := Answered(s, i, b);
    var u := s.(conns := Push(s, s.srv.xi.up && |b| <= s.srv.xi.pktsize, Answer(i, b)));
    var c := u.conns[s.sc];
    RS.AnswerKeeps(s.srv, KeyOf(s, i), b);
    u.(srv := RS.Reply(s.srv, KeyOf(s, i), b),
       conns := if RS.Acknowledged(w) == {} then u.conns
                else u.conns[s.sc := c.(vouched := Max(c.vouched, RS.KnownReceived(w.xi)))],
       computed := if i in s.computed then s.computed else s.computed[i := b])
  }

  function Apply(s: Sys, st: Step): Sys
    requires Typed(s) && Enabled(s, st)
  {
    match st
    case Issue(c) =>
      var n := |s.issued|;
      var k := s.conns[s.cc];
      s.(issued := s.issued + [c], calls := s.calls + [n],
         conns := if s.sending && Hears(s) <= s.cc then s.conns[s.cc := k.(calls := k.calls + [n])] else s.conns)
    case Cancel(i) => s.(calls := Without(s.calls, {i}))
    case Connect => s.(conns := s.conns + [Conn(false, [], [], 0, 0)])
    case ClientEof => s.(sending := false)
    case ClientResume(k) =>
      var c := s.conns[k];
      s.(cc := k, sending := true,
         conns := s.conns[k := c.(joined := true, calls := if Hears(s) <= k then s.calls else c.calls)])
    case ClientRecv => Deliver(s)
    case ServerEof => s.(srv := s.srv.(xi := s.srv.xi.(up := false)))
    case ServerResume(k, pktsize, sndbufsz) =>
      s.(sc := k, srv := RS.Resume(s.srv, RS.Xprt(true, 0, pktsize, sndbufsz, 0)))
    case ServerRecv => ReadCall(s)
    case ServerReply(i, b) => SendReply(s, i, b)
    case ServerDrop(i) =>
      s.(srv := RS.Drop(s.srv, KeyOf(s, i)), dropped := s.dropped + [i], undone := s.undone + {i})
    case ServerOther(b) =>
      s.(srv := s.srv.(xi := RS.Send(s.srv.xi, b)), conns := Push(s, true, Other(b)))
    case Ack(n) => s.(srv := s.srv.(xi := s.srv.xi.(acked := Max(s.srv.xi.acked, n))))
  }

  function Init(pktsize: nat, sndbufsz: int): Sys {
    Sys([], [Conn(true, [], [], 0, 0)], [], 0, true, map[],
        RS.Server(map[], [], RS.Xprt(true, 0, pktsize, sndbufsz, 0)), 0, [], map[], [], {})
  }

  // ----- assumptions about the environment

  /** No transaction id is reused while its previous call is still present anywhere, and
      the server learns only of bytes that the client has processed. */
  ghost predicate Assumed(s: Sys, st: Step)
    requires Typed(s)
  {
    match st
    case Issue(c) => forall i: nat :: i < |s.issued| && Live(s, i) ==> s.issued[i].xid != c.xid
    case Ack(n) => n <= s.conns[s.sc].processed
    case _ => true
  }

  /** A client leaves a connection only after the bytes that evictions relied on. */
  ghost predicate Vouched(s: Sys)
    requires s.cc < |s.conns|
  {
    forall k :: 0 <= k < s.cc ==> s.conns[k].vouched <= s.conns[k].processed
  }

  // ----- when the protocol keeps its promise

  /** Call i can still be executed: reading on reaches a copy of it, a later connection carries one, or the
      client may replay it. */
  ghost predicate Returns(s: Sys, i: nat)
    requires s.sc < |s.conns|
  {
    || i in FrontOf(s)
    || Unread(s.conns, s.sc + 1, i)
    || (i in s.calls && i !in Promised(s.conns, s.cc, Hears(s)))
  }

  /** The step makes the server forget a call by eviction, not because the service dropped it. */
  ghost predicate Forgets(s: Sys, st: Step, i: nat)
    requires Typed(s) && Enabled(s, st)
  {
    !st.ServerDrop? && i in KnownIds(s.srv.rtab) && i !in KnownIds(Apply(s, st).srv.rtab)
  }

  /** No call that the step evicts can be executed again. */
  ghost predicate Benign(s: Sys, st: Step)
    requires Typed(s) && Enabled(s, st)
  {
    var t := Apply(s, st);
    forall i :: Forgets(s, st, i) ==> !Returns(t, i)
  }
}
