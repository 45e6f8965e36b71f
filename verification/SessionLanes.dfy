/**
 The ordering argument behind resumable RPC sessions, on its own.

 Calls are numbered in the order the client issues them.  Lane k is the set of calls sent
 on connection k that the server can still read; lanes of connections the server has moved
 past are empty.  The last lane is the client's list of outstanding calls, which is
 what the next connection would carry if the client resumed now.  Every connection is FIFO
 and carries calls in increasing order, so the next call read from a lane is its least.
 The predicates say why the calls of a lane that the server recognises are a prefix of it,
 and each lemma shows that one kind of step keeps them.
 */
module SessionLanes {

  datatype Lanes = Lanes(
    lanes: seq<set<nat>>,   // one per connection, then the outstanding calls
    joined: seq<bool>,      // connections the client has resumed on
    sc: nat,                // connection the server reads
    cc: nat,                // connection the client uses
    sending: bool,          // the client's transport still accepts messages
    up: bool,               // the server's transport is not at end of file
    cut: bool,              // the server cannot read its connection to the end
    live: bool,             // the server's stream has carried something, or still can
    known: set<nat>,        // calls in the server's table, or dropped and not executed since
    leftover: set<nat>,     // calls whose cached reply has offset zero
    promised: set<nat>,     // calls whose reply the client will process before it replays again
    executed: set<nat>)     // calls handed to the service
  {
    function Last(): int { |lanes| - 1 }

    ghost predicate At(k: int, x: nat) { 0 <= k < |lanes| && x in lanes[k] }

    /** The first connection on which the server hears what is sent from now on. */
    function Hears(): nat { if up then sc else sc + 1 }

    /** An unread connection the client has replayed on. */
    ghost predicate Unread(k: int) { sc < k < |joined| && joined[k] }

    /** The server recognises x, or x is outstanding and its reply is sure to be processed. */
    ghost predicate Settled(k: int, x: nat) {
      x in known || (k == Last() && x in promised)
    }
  }

  ghost predicate Shape(a: Lanes) {
    && |a.lanes| == |a.joined| + 1
    && a.sc < |a.joined| && a.cc < |a.joined|
    && a.joined[a.cc]
    && (forall k, x :: a.At(k, x) && k < a.Last() ==> a.sc <= k <= a.cc && a.joined[k])
    && (forall k :: 0 <= k < |a.joined| && a.joined[k] ==> k <= a.cc)
  }

  /** What the server recognises in a lane is a prefix of the lane. */
  ghost predicate PrefixKnown(a: Lanes) {
    forall k, x, m :: a.At(k, x) && a.At(k, m) && x < m && m in a.known ==> a.Settled(k, x)
  }

  /** A call of a later lane that precedes m is settled or comes on m's own lane. */
  ghost predicate EarlierComeFirst(a: Lanes) {
    forall k, l, x, m :: k < l && a.At(k, m) && a.At(l, x) && x < m ==> a.Settled(l, x) || a.At(k, x)
  }

  /** While the client can send, everything outstanding is settled or on its way. */
  ghost predicate AllSent(a: Lanes) {
    a.sending && a.Hears() <= a.cc && !(a.cut && a.cc == a.sc) ==>
      forall x :: a.At(a.Last(), x) ==> a.Settled(a.Last(), x) || a.At(a.cc, x)
  }

  /** An unread connection carries every call that both an earlier and a later lane carry. */
  ghost predicate Convex(a: Lanes) {
    forall j, k, l, x :: j < k < l && a.Unread(k) && a.At(j, x) && a.At(l, x) ==> a.At(k, x)
  }

  /** An unread connection carries every call that the server knows and a later lane carries. */
  ghost predicate KnownReplayed(a: Lanes) {
    forall k, l, x :: k < l && a.Unread(k) && x in a.known && a.At(l, x) ==> a.At(k, x)
  }

  /** The connection being read can be read to the end, and there may be something on it. */
  ghost predicate Flows(a: Lanes) {
    a.sc < |a.joined| && a.joined[a.sc] && a.live && !a.cut && (a.up || exists x :: a.At(a.sc, x))
  }

  /** A leftover that can still be replayed is on its way on the connection being read. */
  ghost predicate LeftoversAhead(a: Lanes) {
    Flows(a) ==>
      forall l, x :: a.sc < l && x in a.leftover && a.At(l, x) ==> a.At(a.sc, x)
  }

  /** An executed call that can still reach the server is recognised there. */
  ghost predicate NoRepeat(a: Lanes) {
    && a.leftover <= a.known
    && a.known <= a.executed
    && forall k, x :: a.At(k, x) && x in a.executed ==> a.Settled(k, x)
  }

  ghost predicate Inv(a: Lanes) {
    && Shape(a) && PrefixKnown(a) && EarlierComeFirst(a) && AllSent(a)
    && Convex(a) && KnownReplayed(a) && LeftoversAhead(a) && NoRepeat(a)
  }

  // ----- the steps

  /** The client issues call n; heard if the server will be able to read it. */
  function Issue(a: Lanes, n: nat, heard: bool, cut: bool): Lanes
    requires Shape(a)
  {
    var q := a.lanes[a.Last() := a.lanes[a.Last()] + {n}];
    a.(lanes := if heard then q[a.cc := a.lanes[a.cc] + {n}] else q, cut := cut)
  }

  /** What decides that: the client's transport, the server's, and that nothing is in the way. */
  ghost predicate IssueOk(a: Lanes, heard: bool, cut: bool) {
    && (heard ==> a.sending && a.Hears() <= a.cc && !(a.cut && a.cc == a.sc) && cut == a.cut)
    && (!heard ==> !(a.sending && a.Hears() <= a.cc) || (cut && a.cc == a.sc))
    && (a.cut ==> cut)
  }

  lemma IssueKeeps(a: Lanes, n: nat, heard: bool, cut: bool)
    requires Inv(a) && IssueOk(a, heard, cut)
    requires forall k, x: nat :: a.At(k, x) ==> x < n
    requires n !in a.executed
    ensures Inv(Issue(a, n, heard, cut))
  {
    var b := Issue(a, n, heard, cut);
    assert forall k, x :: b.At(k, x) <==> a.At(k, x) || (x == n && (k == a.Last() || (k == a.cc && heard)));
    assert forall k, x :: a.Settled(k, x) <==> b.Settled(k, x);
  }

  /** The client's transport reports end of file. */
  lemma EofKeeps(a: Lanes)
    requires Inv(a)
    ensures Inv(a.(sending := false))
  {
    var b := a.(sending := false);
    assert forall k, x :: b.At(k, x) <==> a.At(k, x);
    assert forall k, x :: b.Settled(k, x) <==> a.Settled(k, x);
    assert forall k :: b.Unread(k) <==> a.Unread(k);
  }

  /** A new connection exists; nobody uses it yet. */
  function Connect(a: Lanes): Lanes
    requires Shape(a)
  {
    a.(lanes := a.lanes[..a.Last()] + [{}, a.lanes[a.Last()]], joined := a.joined + [false])
  }

  lemma ConnectKeeps(a: Lanes)
    requires Inv(a)
    ensures Inv(Connect(a))
  {
    var b := Connect(a);
    assert forall k, x :: b.At(k, x) <==> if k == b.Last() then a.At(a.Last(), x) else k < a.Last() && a.At(k, x);
    assert forall k, x :: b.Settled(k, x) <==> if k == b.Last() then a.Settled(a.Last(), x) else x in a.known;
    assert forall k :: b.Unread(k) <==> a.Unread(k);
    assert EarlierComeFirst(b) && Convex(b) && KnownReplayed(b);
  }

  /** The client moves to connection k and replays every outstanding call, in order; here is what the server
      will be able to read of them. */
  function ClientResume(a: Lanes, k: nat, here: set<nat>, cut: bool, promised: set<nat>): Lanes
    requires Shape(a) && a.cc < k < |a.joined|
  {
    a.(lanes := if a.Hears() <= k then a.lanes[k := here] else a.lanes,
       joined := a.joined[k := true], cc := k, sending := true, cut := cut, promised := promised)
  }

  /** The server reads all of it, or on its own connection the front of it. */
  ghost predicate ReplayOk(a: Lanes, k: nat, here: set<nat>, cut: bool)
    requires Shape(a)
  {
    var all := a.lanes[a.Last()];
    if a.Hears() == k == a.sc then FrontOf(here, all) && (!cut ==> here == all)
    else here == all && cut == a.cut
  }

  ghost predicate FrontOf(p: set<nat>, q: set<nat>) {
    p <= q && forall x, m :: x in q && m in p && x < m ==> x in p
  }

  /** b is a after the client resumed on connection k, seen through what lies where. */
  ghost predicate Resumed(a: Lanes, b: Lanes, k: nat) {
    && Shape(a) && a.cc < k < |a.joined|
    && |b.lanes| == |a.lanes| && |b.joined| == |a.joined| && b.sc == a.sc && b.cc == k
    && b.known == a.known && b.leftover == a.leftover && b.executed == a.executed && b.live == a.live
    && (forall j, x :: j != k || k < a.Hears() ==> (b.At(j, x) <==> a.At(j, x)))
    && (forall x :: k >= a.Hears() && b.At(k, x) ==> a.At(a.Last(), x))
    && (forall x, m :: k >= a.Hears() && b.At(k, m) && a.At(a.Last(), x) && x < m ==> b.At(k, x))
    && (forall x :: k >= a.Hears() && k > a.sc && a.At(a.Last(), x) ==> b.At(k, x))
    && (forall j :: b.Unread(j) <==> a.Unread(j) || (j == k && a.sc < k))
    && (forall x :: a.At(a.Last(), x) && a.Settled(a.Last(), x) ==> x in a.known)
  }

  lemma ResumedFirst(a: Lanes, b: Lanes, k: nat)
    requires Resumed(a, b, k) && PrefixKnown(a) && EarlierComeFirst(a)
    ensures PrefixKnown(b) && EarlierComeFirst(b)
  {
  }

  lemma ResumedConvex(a: Lanes, b: Lanes, k: nat)
    requires Resumed(a, b, k) && Convex(a) && KnownReplayed(a)
    ensures Convex(b) && KnownReplayed(b)
  {
  }

  lemma ClientResumeKeeps(a: Lanes, k: nat, here: set<nat>, cut: bool, promised: set<nat>)
    requires Inv(a) && a.cc < k < |a.joined| && a.Hears() <= k && ReplayOk(a, k, here, cut)
    requires forall x :: x in a.lanes[a.Last()] ==> x !in a.promised
    ensures Inv(ClientResume(a, k, here, cut, promised))
  {
    var b := ClientResume(a, k, here, cut, promised);
    assert forall j, x :: b.At(j, x) <==> if j == k then x in here else a.At(j, x);
    assert forall x :: a.At(a.Last(), x) && a.Settled(a.Last(), x) ==> x in a.known;
    assert forall j :: b.Unread(j) <==> a.Unread(j) || (j == k && a.sc < k);
    ResumedFirst(a, b, k);
    ResumedConvex(a, b, k);
  }

  /** The client moves to a connection on which the server does not hear it. */
  lemma RejoinKeeps(a: Lanes, k: nat, promised: set<nat>)
    requires Inv(a) && a.cc < k < |a.joined| && k < a.Hears() && a.promised <= promised
    ensures Inv(ClientResume(a, k, {}, a.cut, promised))
  {
    var b := ClientResume(a, k, {}, a.cut, promised);
    assert forall j, x :: b.At(j, x) <==> a.At(j, x);
    assert forall j :: b.Unread(j) <==> a.Unread(j);
    assert forall j, x :: a.Settled(j, x) ==> b.Settled(j, x);
    assert forall x :: !(k == a.sc && a.At(k, x));
  }

  /** The server moves to connection j; every cached reply becomes a leftover. */
  function ServerResume(a: Lanes, j: nat, leftover: set<nat>, promised: set<nat>): Lanes
    requires Shape(a) && a.sc < j < |a.joined|
  {
    a.(lanes := seq(|a.lanes|, i requires 0 <= i < |a.lanes| => if i < j then {} else a.lanes[i]),
       sc := j, up := true, cut := false, live := true, leftover := leftover, promised := promised)
  }

  lemma ServerResumeKeeps(a: Lanes, j: nat, leftover: set<nat>, promised: set<nat>)
    requires Inv(a) && a.sc < j < |a.joined| && leftover <= a.known && a.promised <= promised
    ensures Inv(ServerResume(a, j, leftover, promised))
  {
    var b := ServerResume(a, j, leftover, promised);
    assert forall k, x :: b.At(k, x) <==> a.At(k, x) && j <= k;
    if Flows(b) {
      assert a.Unread(j);
    }
  }

  // ----- the server reads, and sends

  /** The server reads the first call of its lane. */
  function Read(a: Lanes, m: nat): Lanes
    requires Shape(a)
  {
    a.(lanes := a.lanes[a.sc := a.lanes[a.sc] - {m}])
  }

  /** Call m is the next to be read from the server's connection. */
  ghost predicate IsNext(a: Lanes, m: nat) {
    a.At(a.sc, m) && forall x :: a.At(a.sc, x) ==> m <= x
  }

  /** b is a after a step of the server that neither moves it nor changes what it knows: some known calls
      are read, or less of the connection can be read, or more is promised. */
  ghost predicate Served(a: Lanes, b: Lanes)
    requires Shape(a)
  {
    && |b.lanes| == |a.lanes|
    && b == a.(lanes := a.lanes[a.sc := b.lanes[a.sc]], up := b.up, cut := b.cut, live := b.live,
               leftover := b.leftover, promised := b.promised)
    && b.lanes[a.sc] <= a.lanes[a.sc]
    && (forall x, m :: x in a.lanes[a.sc] && m in b.lanes[a.sc] && x < m ==> x in b.lanes[a.sc] || x in a.known)
    && (b.up ==> a.up) && (a.cut ==> b.cut)
    && (!b.cut ==> forall x :: x in a.lanes[a.sc] ==> x in b.lanes[a.sc] || x in a.known)
    && a.promised <= b.promised && b.leftover <= a.known
    && (b.live ==>
          && a.live && b.leftover <= a.leftover
          && forall x :: !b.cut && x in a.lanes[a.sc] && x in b.leftover ==> x in b.lanes[a.sc])
  }

  lemma ServedKeeps(a: Lanes, b: Lanes)
    requires Inv(a) && Served(a, b)
    ensures Inv(b)
  {
    assert forall k, x :: b.At(k, x) <==> if k == a.sc then x in b.lanes[a.sc] else a.At(k, x);
    assert forall k, x :: a.Settled(k, x) ==> b.Settled(k, x);
    assert forall x :: b.At(a.sc, x) ==> a.At(a.sc, x);
  }

  /** A call the server does not recognise was never executed. */
  lemma FreshIsNew(a: Lanes, m: nat)
    requires Inv(a) && a.At(a.sc, m) && m !in a.known
    ensures m !in a.executed
  {
  }

  /** What keeps the server from reading on is a call it knows. */
  ghost predicate CutKnown(a: Lanes) {
    a.cut ==> exists b :: a.At(a.sc, b) && b in a.known && forall x :: a.At(a.sc, x) ==> x <= b
  }

  /** When such a call comes next on a live stream, no leftover is still needed. */
  lemma FreshNeedsNoLeftover(a: Lanes, m: nat)
    requires Inv(a) && a.live && CutKnown(a) && IsNext(a, m) && m !in a.known
    ensures forall l, x :: a.At(l, x) ==> x !in a.leftover
  {
    assert a.joined[a.sc];
    assert Flows(a);
  }

  function ReadNew(a: Lanes, m: nat): Lanes
    requires Shape(a)
  {
    Read(a, m).(known := a.known + {m}, executed := a.executed + {m})
  }

  lemma ReadNewKeeps(a: Lanes, m: nat)
    requires Inv(a) && IsNext(a, m) && m !in a.known
    ensures Inv(ReadNew(a, m))
  {
    FreshIsNew(a, m);
    var b := ReadNew(a, m);
    assert forall k, x :: b.At(k, x) <==> a.At(k, x) && !(k == a.sc && x == m);
  }

  /** The server forgets calls that cannot be executed again. */
  lemma EvictKeeps(a: Lanes, gone: set<nat>, leftover: set<nat>, promised: set<nat>)
    requires Inv(a) && leftover <= a.leftover - gone && a.promised <= promised
    requires forall k, x :: x in gone && a.At(k, x) ==> k == a.Last() && x in promised
    ensures Inv(a.(known := a.known - gone, leftover := leftover, promised := promised))
  {
    var b := a.(known := a.known - gone, leftover := leftover, promised := promised);
    assert forall k, x :: b.At(k, x) <==> a.At(k, x);
  }

  /** Call x is no longer outstanding: it was answered or cancelled. */
  lemma RemoveKeeps(a: Lanes, x: nat, promised: set<nat>)
    requires Inv(a) && a.promised - {x} <= promised
    ensures Inv(a.(lanes := a.lanes[a.Last() := a.lanes[a.Last()] - {x}], promised := promised))
  {
    var b := a.(lanes := a.lanes[a.Last() := a.lanes[a.Last()] - {x}], promised := promised);
    assert forall k, y :: b.At(k, y) <==> a.At(k, y) && !(k == a.Last() && y == x);
  }
}
