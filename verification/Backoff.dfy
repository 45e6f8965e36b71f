/**
 Retransmission with exponential backoff (tmoq): an entry that was transmitted q times more
 than once waits in queue q, an intrusive list, for minto << q seconds.

 A pointer to a pointer (pprev, plast) is modelled by the entry whose next field it points
 to, null standing for the queue's own first field.
 */
module Backoff {
  import opened Common

  class Entry {
    var qno: nat
    var tm: nat
    var next: Entry?
    var pprev: Entry?
    ghost var born: nat          // when it was started
    ghost var sent: seq<nat>     // the levels at which it was transmitted
    ghost var kept: bool         // it was put back by keeptrying
    ghost var timeouts: nat      // how often its timeout was called

    constructor (unset: nat)
      ensures qno == unset
    {
      qno := unset;
      next, pprev := null, null;
    }
  }

  /** What an entry holds besides its links. */
  datatype Data = Data(qno: nat, tm: nat, born: nat, sent: seq<nat>, kept: bool, timeouts: nat)

  ghost function DataOf(e: Entry): Data
    reads e
  {
    Data(e.qno, e.tm, e.born, e.sent, e.kept, e.timeouts)
  }

  /** The entry is put in queue q and transmitted. */
  function SentAt(d: Data, q: nat, minto: nat, now: nat): Data {
    d.(qno := q, tm := now + Delay(minto, q), sent := d.sent + [q])
  }

  /** An entry that is due in queue q goes to the next queue, or its timeout is called. */
  function Next(d: Data, q: nat, minto: nat, maxsend: nat, now: nat): Data {
    if q + 1 < maxsend then SentAt(d, q + 1, minto, now) else d.(qno := maxsend, timeouts := d.timeouts + 1)
  }

  /** minto << q. */
  function Delay(minto: nat, q: nat): nat {
    if q == 0 then minto else 2 * Delay(minto, q - 1)
  }

  /** The time from the start until the deadline in queue q, if every hop is taken at once. */
  function Elapsed(minto: nat, q: nat): nat {
    if q == 0 then minto else Elapsed(minto, q - 1) + Delay(minto, q)
  }

  /** The waiting times add up to minto * (2^(q+1) - 1). */
  lemma {:induction false} ElapsedIs(minto: nat, q: nat)
    ensures Delay(minto, q) == minto * Pow2(q)
    ensures Elapsed(minto, q) == Delay(minto, q + 1) - minto == minto * (Pow2(q + 1) - 1)
  {
    DelayIs(minto, q);
    DelayIs(minto, q + 1);
    if q > 0 { ElapsedIs(minto, q - 1); }
  }

  lemma {:induction false} DelayIs(minto: nat, q: nat)
    ensures Delay(minto, q) == minto * Pow2(q)
  {
    if q > 0 {
      DelayIs(minto, q - 1);
      assert minto * (2 * Pow2(q - 1)) == 2 * (minto * Pow2(q - 1));
    }
  }

  function Levels(n: nat): (r: seq<nat>)
    ensures |r| == n && forall i :: 0 <= i < n ==> r[i] == i
  {
    seq(n, i requires 0 <= i => i)
  }

  // ----- the life of an entry that is not removed

  /** The callback of queue q is run at the given time. */
  datatype Wake = Wake(q: nat, now: nat)

  function Started(start: nat, minto: nat): Data {
    Data(0, start + minto, start, [0], false, 0)
  }

  /** What a callback does to an entry that waits, or has timed out. */
  function Woken(d: Data, w: Wake, minto: nat, maxsend: nat): Data {
    if d.qno == w.q && d.tm <= w.now then Next(d, w.q, minto, maxsend, w.now) else d
  }

  function Life(d: Data, wakes: seq<Wake>, minto: nat, maxsend: nat): Data {
    if wakes == [] then d
    else Woken(Life(d, wakes[..|wakes| - 1], minto, maxsend), wakes[|wakes| - 1], minto, maxsend)
  }

  /** Time does not run backwards, from the start on. */
  ghost predicate InTime(wakes: seq<Wake>, start: nat, maxsend: nat) {
    && (forall i :: 0 <= i < |wakes| ==> start <= wakes[i].now && wakes[i].q < maxsend)
    && forall i, j :: 0 <= i < j < |wakes| ==> wakes[i].now <= wakes[j].now
  }

  function LastTime(wakes: seq<Wake>, start: nat): nat {
    if wakes == [] then start else wakes[|wakes| - 1].now
  }

  /** After any callbacks, the entry has been transmitted once at each level up to its own, in order; its
      timeout was called once if it is past the last level, and never else; and it is at no level, and
      past the last, before the delays of the levels before have passed. */
  lemma {:induction false} LifeFits(start: nat, wakes: seq<Wake>, minto: nat, maxsend: nat)
    requires maxsend > 0 && InTime(wakes, start, maxsend)
    ensures var d := Life(Started(start, minto), wakes, minto, maxsend); var now := LastTime(wakes, start);
            && d.qno <= maxsend && d.born == start && !d.kept
            && d.sent == Levels(if d.qno < maxsend then d.qno + 1 else maxsend)
            && d.timeouts == (if d.qno == maxsend then 1 else 0)
            && (if d.qno < maxsend then start + Elapsed(minto, d.qno) <= d.tm <= now + Delay(minto, d.qno)
                else start + Elapsed(minto, maxsend - 1) <= now)
  {
    if wakes == [] {
      assert Levels(1) == [0];
    } else {
      var n := |wakes| - 1;
      LifeFits(start, wakes[..n], minto, maxsend);
      var d := Life(Started(start, minto), wakes[..n], minto, maxsend);
      assert d.qno < maxsend ==> Levels(d.qno + 1) + [d.qno + 1] == Levels(d.qno + 2);
    }
  }

  /** Levels only grow, and at the same level nothing has changed. */
  lemma {:induction false} LifeGrows(d: Data, wakes: seq<Wake>, i: nat, minto: nat, maxsend: nat)
    requires i <= |wakes| && d.qno <= maxsend && forall j :: 0 <= j < |wakes| ==> wakes[j].q < maxsend
    ensures var a := Life(d, wakes[..i], minto, maxsend); var b := Life(d, wakes, minto, maxsend);
            a.qno <= b.qno && (a.qno == b.qno ==> a == b)
    decreases |wakes|
  {
    if i < |wakes| {
      var w := wakes[..|wakes| - 1];
      LifeGrows(d, w, i, minto, maxsend);
      assert w[..i] == wakes[..i];
    } else {
      assert wakes[..i] == wakes;
    }
  }

  /** Callback at[q] is one of queue q, later than the one before by the delay of level q. */
  ghost predicate Served(wakes: seq<Wake>, at: seq<nat>, start: nat, minto: nat) {
    && (forall q :: 0 <= q < |at| ==> at[q] < |wakes| && wakes[at[q]].q == q)
    && (forall q :: 0 < q < |at| ==> at[q - 1] < at[q] && wakes[at[q]].now >= wakes[at[q - 1]].now + Delay(minto, q))
    && (at != [] ==> wakes[at[0]].now >= start + minto)
  }

  /** After callback at[q], the entry is past level q. */
  lemma {:induction false} LifeServed(start: nat, wakes: seq<Wake>, at: seq<nat>, q: nat, minto: nat, maxsend: nat)
    requires InTime(wakes, start, maxsend) && |at| == maxsend && Served(wakes, at, start, minto) && q < maxsend
    ensures Life(Started(start, minto), wakes[..at[q] + 1], minto, maxsend).qno > q
  {
    var k := at[q];
    var w := wakes[..k];
    var d := Life(Started(start, minto), w, minto, maxsend);
    assert wakes[..k + 1][..k] == w;
    if q > 0 {
      var i := at[q - 1] + 1;
      LifeServed(start, wakes, at, q - 1, minto, maxsend);
      LifeGrows(Started(start, minto), w, i, minto, maxsend);
      assert w[..i] == wakes[..i];
      LifeFits(start, wakes[..i], minto, maxsend);
    } else {
      LifeGrows(Started(start, minto), w, 0, minto, maxsend);
    }
    assert d.qno == q ==> d.tm <= wakes[k].now;
  }

  /** An entry that is started, not removed, and called back at every level after its deadline there has
      been transmitted once at each level and timed out once, and not before its time. */
  lemma Lifetime(start: nat, wakes: seq<Wake>, at: seq<nat>, minto: nat, maxsend: nat)
    requires maxsend > 0 && InTime(wakes, start, maxsend) && |at| == maxsend && Served(wakes, at, start, minto)
    ensures var d := Life(Started(start, minto), wakes, minto, maxsend);
            d.sent == Levels(maxsend) && d.timeouts == 1 && d.qno == maxsend
    ensures forall k: nat :: k <= |wakes| && LastTime(wakes[..k], start) < start + Delay(minto, maxsend) - minto ==>
              Life(Started(start, minto), wakes[..k], minto, maxsend).timeouts == 0
  {
    Ends(start, wakes, at, minto, maxsend);
    forall k: nat | k <= |wakes| && LastTime(wakes[..k], start) < start + Delay(minto, maxsend) - minto
      ensures Life(Started(start, minto), wakes[..k], minto, maxsend).timeouts == 0
    {
      NotEarly(start, wakes[..k], minto, maxsend);
    }
  }

  lemma Ends(start: nat, wakes: seq<Wake>, at: seq<nat>, minto: nat, maxsend: nat)
    requires maxsend > 0 && InTime(wakes, start, maxsend) && |at| == maxsend && Served(wakes, at, start, minto)
    ensures var d := Life(Started(start, minto), wakes, minto, maxsend);
            d.sent == Levels(maxsend) && d.timeouts == 1 && d.qno == maxsend
  {
    LifeServed(start, wakes, at, maxsend - 1, minto, maxsend);
    LifeGrows(Started(start, minto), wakes, at[maxsend - 1] + 1, minto, maxsend);
    LifeFits(start, wakes, minto, maxsend);
  }

  lemma NotEarly(start: nat, wakes: seq<Wake>, minto: nat, maxsend: nat)
    requires maxsend > 0 && InTime(wakes, start, maxsend)
    requires LastTime(wakes, start) < start + Delay(minto, maxsend) - minto
    ensures Life(Started(start, minto), wakes, minto, maxsend).timeouts == 0
  {
    LifeFits(start, wakes, minto, maxsend);
    ElapsedIs(minto, maxsend - 1);
  }

  // ----- the same, driven by the event loop

  /** The event loop runs what is due; another entry is started; the k-th other entry is removed. */
  datatype Op = Poll(now: nat) | Begin(now: nat) | Stop(now: nat, k: nat)

  ghost predicate OpsInTime(ops: seq<Op>, start: nat) {
    && (forall i :: 0 <= i < |ops| ==> start <= ops[i].now)
    && forall i, j :: 0 <= i < j < |ops| ==> ops[i].now <= ops[j].now
  }

  /** The event loop runs often enough: at[q] is a time when it does, later than the one before by the delay
      of level q. */
  ghost predicate Polled(ops: seq<Op>, at: seq<nat>, start: nat, minto: nat) {
    && (forall q :: 0 <= q < |at| ==> at[q] < |ops| && ops[at[q]].Poll?)
    && (forall q :: 0 < q < |at| ==> at[q - 1] < at[q] && ops[at[q]].now >= ops[at[q - 1]].now + Delay(minto, q))
    && (at != [] ==> ops[at[0]].now >= start + minto)
  }

  /** After the first i operations the entry is past every level whose time has come, and has been at its
      level since the given time. */
  ghost predicate OnTime(d: Data, since: nat, ops: seq<Op>, at: seq<nat>, i: nat, start: nat, minto: nat)
    requires forall q :: 0 <= q < |at| ==> at[q] < |ops|
  {
    && (forall q: nat :: q < |at| && at[q] < i ==> d.qno > q)
    && (d.qno < |at| ==> d.tm <= since + Delay(minto, d.qno))
    && (d.qno == 0 ==> since == start)
    && (0 < d.qno < |at| && at[d.qno - 1] < i ==> since <= ops[at[d.qno - 1]].now)
  }

  /** What is due moves on; at a level where it is new, it is since now. */
  ghost predicate Hops(d: Data, d': Data, now: nat, minto: nat, maxsend: nat) {
    || (d' == d && (d.qno < maxsend ==> d.tm > now))
    || (d'.qno > d.qno && (d'.qno < maxsend ==> d'.tm == now + Delay(minto, d'.qno)))
  }

  lemma PollOnTime(d: Data, d': Data, since: nat, ops: seq<Op>, at: seq<nat>, i: nat, start: nat, minto: nat)
    requires Polled(ops, at, start, minto) && OpsInTime(ops, start) && i < |ops| && ops[i].Poll?
    requires OnTime(d, since, ops, at, i, start, minto) && Hops(d, d', ops[i].now, minto, |at|) && since <= ops[i].now
    ensures OnTime(d', if d' == d then since else ops[i].now, ops, at, i + 1, start, minto)
  {
    forall q: nat | q < |at| && at[q] <= i ensures d'.qno > q {
      if at[q] == i {
        assert q > 0 ==> at[q - 1] < i && d.qno > q - 1;
        if d.qno == q {
          assert q == 0 || since <= ops[at[q - 1]].now;
          assert d.tm <= ops[i].now;
        }
      }
    }
  }

  lemma StartOnTime(ops: seq<Op>, at: seq<nat>, start: nat, minto: nat)
    requires Polled(ops, at, start, minto)
    ensures OnTime(Started(start, minto), start, ops, at, 0, start, minto)
  {
  }

  lemma AllDone(d: Data, start: nat, wakes: seq<Wake>, since: nat, ops: seq<Op>, at: seq<nat>, minto: nat)
    requires at != [] && Polled(ops, at, start, minto) && InTime(wakes, start, |at|)
    requires d == Life(Started(start, minto), wakes, minto, |at|) && OnTime(d, since, ops, at, |ops|, start, minto)
    ensures d.qno == |at| && d.sent == Levels(|at|) && d.timeouts == 1
  {
    LifeFits(start, wakes, minto, |at|);
    assert at[|at| - 1] < |ops|;
  }

  lemma OtherOnTime(d: Data, since: nat, ops: seq<Op>, at: seq<nat>, i: nat, start: nat, minto: nat)
    requires Polled(ops, at, start, minto) && i < |ops| && !ops[i].Poll? && OnTime(d, since, ops, at, i, start, minto)
    ensures OnTime(d, since, ops, at, i + 1, start, minto)
  {
    forall q: nat | q < |at| && at[q] <= i ensures d.qno > q {
      assert ops[at[q]].Poll?;
    }
    assert 0 < d.qno < |at| ==> ops[at[d.qno - 1]].Poll?;
  }

  /** Callbacks at one time are one hop, or none. */
  lemma {:induction false} LifeHops(d: Data, wakes: seq<Wake>, now: nat, minto: nat, maxsend: nat)
    requires d.qno <= maxsend && forall i :: 0 <= i < |wakes| ==> wakes[i].q < maxsend && wakes[i].now == now
    ensures var r := Life(d, wakes, minto, maxsend);
            r == d || (r.qno > d.qno && (r.qno < maxsend ==> r.tm == now + Delay(minto, r.qno)))
    decreases |wakes|
  {
    if wakes != [] { LifeHops(d, wakes[..|wakes| - 1], now, minto, maxsend); }
  }

  lemma {:induction false} LifeConcat(d: Data, v: seq<Wake>, w: seq<Wake>, minto: nat, maxsend: nat)
    ensures Life(d, v + w, minto, maxsend) == Life(Life(d, v, minto, maxsend), w, minto, maxsend)
    decreases |w|
  {
    if w == [] {
      assert v + w == v;
    } else {
      var n := |w| - 1;
      assert (v + w)[..|v + w| - 1] == v + w[..n];
      LifeConcat(d, v, w[..n], minto, maxsend);
    }
  }

  lemma InTimeConcat(v: seq<Wake>, w: seq<Wake>, start: nat, now: nat, maxsend: nat)
    requires InTime(v, start, maxsend) && LastTime(v, start) <= now && start <= now
    requires forall i :: 0 <= i < |w| ==> w[i].q < maxsend && w[i].now == now
    ensures InTime(v + w, start, maxsend) && LastTime(v + w, start) <= now
  {
  }

  // ----- the queues

  /** s is the list from first to plast, linked both ways. */
  ghost predicate Chain(s: seq<Entry>, first: Entry?, plast: Entry?)
    reads s
  {
    && NoDup(s)
    && first == (if s == [] then null else s[0])
    && plast == (if s == [] then null else s[|s| - 1])
    && forall i :: 0 <= i < |s| ==> Node(s, i)
  }

  ghost predicate Node(s: seq<Entry>, i: nat)
    requires i < |s|
    reads s
  {
    && s[i].next == (if i + 1 < |s| then s[i + 1] else null)
    && s[i].pprev == (if i > 0 then s[i - 1] else null)
  }

  /** The entry waits in queue q with a history that fits. */
  ghost predicate Waits(e: Entry, q: nat, minto: nat, clock: nat)
    reads e
  {
    && e.qno == q && e.tm <= clock + Delay(minto, q) && e.born <= clock
    && (!e.kept ==> e.sent == Levels(q + 1) && e.timeouts == 0 && e.tm >= e.born + Elapsed(minto, q))
  }

  /** Deadlines do not decrease from front to back. */
  ghost predicate Ordered(s: seq<Entry>)
    reads s
  {
    forall i, j :: 0 <= i < j < |s| ==> s[i].tm <= s[j].tm
  }

  ghost predicate Queue(s: seq<Entry>, q: nat, first: Entry?, plast: Entry?, minto: nat, clock: nat)
    reads s
  {
    && Chain(s, first, plast) && Ordered(s)
    && forall i :: 0 <= i < |s| ==> Waits(s[i], q, minto, clock)
  }

  function Removed(s: seq<Entry>, i: nat): seq<Entry>
    requires i < |s|
  {
    s[..i] + s[i + 1..]
  }

  lemma RemovedOther(s: seq<Entry>, i: nat, e: Entry)
    requires e in s && (i < |s| ==> e != s[i])
    ensures i < |s| ==> e in Removed(s, i)
  {
    if i < |s| { assert s == s[..i] + [s[i]] + s[i + 1..]; }
  }

  lemma RemovedIn(s: seq<Entry>, i: nat)
    requires i < |s|
    ensures forall e :: e in Removed(s, i) ==> e in s
  {
  }

  /** Take p, the i-th entry, out of the list. */
  method UnlinkFrom(p: Entry, ghost s: seq<Entry>, ghost i: nat, first: Entry?, plast: Entry?)
    returns (f: Entry?, l: Entry?)
    requires Chain(s, first, plast) && i < |s| && s[i] == p
    modifies s
    ensures Chain(Removed(s, i), f, l)
    ensures forall e :: e in s ==> SameData(e)
  {
    f, l := first, plast;
    assert Node(s, i);
    if p.next != null {
      p.next.pprev := p.pprev;
    } else {
      l := p.pprev;
    }
    if p.pprev == null {
      f := p.next;
    } else {
      p.pprev.next := p.next;
    }
    ghost var r := Removed(s, i);
    forall j | 0 <= j < |r| ensures Node(r, j) {
      ghost var k := if j < i then j else j + 1;
      assert r[j] == s[k] && old(Node(s, k));
    }
  }

  function Before(s: seq<Entry>, i: nat): Entry? { if 0 < i <= |s| then s[i - 1] else null }

  function At(s: seq<Entry>, i: nat): Entry? { if i < |s| then s[i] else null }

  /** The list has b right after a; null stands for its ends. */
  ghost predicate Neighbours(s: seq<Entry>, a: Entry?, b: Entry?) {
    exists i: nat :: i <= |s| && a == Before(s, i) && b == At(s, i)
  }

  /** Writing a and b as neighbours into a list leaves it as it is exactly if they are, or are not in it. */
  ghost predicate Harmless(s: seq<Entry>, a: Entry?, b: Entry?) {
    Neighbours(s, a, b) || (a != null && b != null && a !in s && b !in s)
  }

  /** A list in which b claims to follow a, and a to precede b, has them as neighbours or not at all. */
  lemma ChainHarmless(s: seq<Entry>, first: Entry?, plast: Entry?, a: Entry?, b: Entry?)
    requires Chain(s, first, plast)
    requires (if b != null then b.pprev == a else plast == a) && (if a != null then a.next == b else first == b)
    ensures Harmless(s, a, b)
  {
    if b == null {
      assert a == Before(s, |s|) && b == At(s, |s|);
    } else if b in s {
      var i: nat :| i < |s| && s[i] == b;
      assert Node(s, i);
      assert a == Before(s, i) && b == At(s, i);
    } else {
      assert forall i :: 0 <= i < |s| ==> Node(s, i) && s[i].next != b;
    }
  }

  /** The pointer work of UnlinkFrom for an entry that is not in the list any more, with links a and b left over
      from when it was: the list survives exactly if b still comes right after a, or both have left it too. */
  method UnlinkAgain(p: Entry, ghost s: seq<Entry>, first: Entry?, plast: Entry?) returns (f: Entry?, l: Entry?)
    requires Chain(s, first, plast) && p !in s && p.next != p && p.pprev != p
    modifies p.next, p.pprev
    ensures Chain(s, f, l) <==> Harmless(s, old(p.pprev), old(p.next))
  {
    f, l := first, plast;
    ghost var a, b := p.pprev, p.next;
    if p.next != null {
      p.next.pprev := p.pprev;
    } else {
      l := p.pprev;
    }
    if p.pprev == null {
      f := p.next;
    } else {
      p.pprev.next := p.next;
    }
    if Harmless(s, a, b) {
      if Neighbours(s, a, b) {
        ghost var i: nat :| i <= |s| && a == Before(s, i) && b == At(s, i);
      }
      forall j | 0 <= j < |s| ensures Node(s, j) {
        assert old(Node(s, j)) && s[j] in s;
      }
    } else if Chain(s, f, l) {
      ChainHarmless(s, f, l, a, b);
    }
  }

  /** UnlinkFrom, for a queue of entries that wait: the others still wait, in order. */
  method UnlinkQueue(p: Entry, ghost s: seq<Entry>, ghost i: nat, q: nat, first: Entry?, plast: Entry?,
                     ghost minto: nat, ghost clock: nat)
    returns (f: Entry?, l: Entry?)
    requires Queue(s, q, first, plast, minto, clock) && i < |s| && s[i] == p
    modifies s
    ensures Queue(Removed(s, i), q, f, l, minto, clock)
    ensures forall e :: e in s ==> SameData(e)
  {
    f, l := UnlinkFrom(p, s, i, first, plast);
    ghost var r := Removed(s, i);
    forall j | 0 <= j < |r| ensures Waits(r[j], q, minto, clock) && r[j].tm == old(s[if j < i then j else j + 1].tm) {
      ghost var k := if j < i then j else j + 1;
      assert r[j] == s[k] && s[k] in s && old(Waits(s[k], q, minto, clock));
    }
    forall j, k | 0 <= j < k < |r| ensures r[j].tm <= r[k].tm {
      assert old(Ordered(s));
    }
  }

  /** Put p at the end of the list. */
  method AppendTo(p: Entry, ghost s: seq<Entry>, first: Entry?, plast: Entry?) returns (f: Entry?, l: Entry?)
    requires Chain(s, first, plast) && p !in s
    modifies p, s
    ensures Chain(s + [p], f, l)
    ensures SameData(p) && forall e :: e in s ==> SameData(e)
  {
    f := first;
    p.next := null;
    p.pprev := plast;
    if plast == null {
      f := p;
    } else {
      plast.next := p;
    }
    l := p;
    ghost var r := s + [p];
    forall j | 0 <= j < |r| ensures Node(r, j) {
      assert j < |s| ==> old(Node(s, j));
    }
  }

  /** p may be transmitted at level q now: it has been at every level before, and not too soon. */
  ghost predicate Ready(p: Entry, q: nat, minto: nat, now: nat)
    reads p
  {
    p.born <= now
    && (!p.kept ==> p.sent == Levels(q) && p.timeouts == 0 && now + Delay(minto, q) >= p.born + Elapsed(minto, q))
  }

  /** A later clock changes nothing for a queue. */
  lemma LaterClock(s: seq<Entry>, q: nat, first: Entry?, plast: Entry?, minto: nat, clock: nat, now: nat)
    requires Queue(s, q, first, plast, minto, clock) && clock <= now
    ensures Queue(s, q, first, plast, minto, now)
  {
    forall i | 0 <= i < |s| ensures Waits(s[i], q, minto, now) {
      assert Waits(s[i], q, minto, clock);
    }
  }

  /** insert, without the scheduling: p goes to the end of queue q and is transmitted. */
  method AppendQueue(p: Entry, ghost s: seq<Entry>, q: nat, first: Entry?, plast: Entry?, minto: nat, now: nat)
    returns (f: Entry?, l: Entry?)
    requires Queue(s, q, first, plast, minto, now) && p !in s && Ready(p, q, minto, now)
    modifies p, s
    ensures Queue(s + [p], q, f, l, minto, now)
    ensures Transmitted(p, q, minto, now)
    ensures forall e :: e in s ==> SameData(e)
  {
    p.qno := q;
    p.tm := now + Delay(minto, q);
    p.sent := p.sent + [q];
    ghost var r := s + [p];
    assert forall e :: e in s ==> e != p;
    f, l := AppendTo(p, s, first, plast);
    assert Levels(q) + [q] == Levels(q + 1);
    forall j | 0 <= j < |r| ensures Waits(r[j], q, minto, now) && r[j].tm <= p.tm {
      if j < |s| {
        assert s[j] in s && old(Waits(s[j], q, minto, now));
      } else {
        assert r[j] == p;
      }
    }
    forall j, k | 0 <= j < k < |r| ensures r[j].tm <= r[k].tm {
      if k < |s| {
        assert s[j] in s && s[k] in s && old(s[j].tm) <= old(s[k].tm);
      }
    }
  }

  class Tmoq {
    const minto: nat
    const maxsend: nat
    var first: seq<Entry?>
    var plast: seq<Entry?>
    var pending: seq<bool>
    var wake: seq<nat>            // when the pending callback of a queue is due
    ghost var qs: seq<seq<Entry>> // the queues
    ghost var all: set<Entry>     // every entry ever put in a queue
    ghost var clock: nat          // the last time seen

    ghost predicate Shape()
      reads this`first, this`plast, this`qs
    {
      maxsend > 0 && |first| == |plast| == |qs| == maxsend
    }

    /** Every queue is a well-formed list of entries that belong in it. */
    ghost predicate Queues()
      reads this`first, this`plast, this`qs, this`all, this`clock, all
    {
      && Shape()
      && forall q: nat :: q < maxsend ==> QueueAt(q)
    }

    ghost predicate QueueAt(q: nat)
      requires Shape() && q < maxsend
      reads this`first, this`plast, this`qs, this`all, this`clock, all
    {
      && (forall e :: e in qs[q] ==> e in all)
      && Queue(qs[q], q, first[q], plast[q], minto, clock)
    }

    /** A nonempty queue has a wakeup pending no later than its front deadline. */
    ghost predicate Scheduled(q: nat)
      requires Shape() && q < maxsend && |pending| == |wake| == maxsend
      reads this`first, this`plast, this`qs, this`pending, this`wake, qs[q]
    {
      qs[q] != [] ==> pending[q] && wake[q] <= qs[q][0].tm
    }

    /** A pending wakeup is no later than the deadline of an entry that would be added now. */
    ghost predicate Timed(q: nat)
      requires q < maxsend && |pending| == |wake| == maxsend
      reads this`pending, this`wake, this`clock
    {
      pending[q] ==> wake[q] <= clock + Delay(minto, q)
    }

    /** An entry whose timeout was called: once, after it was transmitted once at each level, in
        order, and not before the waiting times of all levels had passed since it was started. */
    ghost predicate Expired(e: Entry)
      reads this`clock, e
    {
      !e.kept && e.timeouts > 0 && maxsend > 0 ==>
        e.timeouts == 1 && e.sent == Levels(maxsend) && clock >= e.born + Elapsed(minto, maxsend - 1)
    }

    /** What holds between events; except names a queue whose wakeup is being handled. */
    ghost predicate ValidBut(except: nat)
      reads this, all
    {
      && Queues() && |pending| == |wake| == maxsend
      && (forall q: nat :: q < maxsend ==> QueueAt(q) && Timed(q) && (q != except ==> Scheduled(q)))
      && (forall e :: e in all ==> Expired(e))
    }

    ghost predicate Valid()
      reads this, all
    {
      ValidBut(maxsend)
    }

    constructor (min: nat, max: nat)
      requires max > 0
      ensures Valid() && minto == min && maxsend == max && all == {} && clock == 0
    {
      minto, maxsend := min, max;
      first, plast := seq(max, _ => null), seq(max, _ => null);
      pending, wake := seq(max, _ => false), seq(max, _ => 0);
      qs, all, clock := seq(max, _ => []), {}, 0;
    }

    /** Every queue but one is in order. */
    ghost predicate OtherQueues(q: nat)
      requires Shape()
      reads this`first, this`plast, this`qs, this`all, this`clock, all
    {
      forall k: nat :: k < maxsend && k != q ==> QueueAt(k)
    }

    /** The pointer work of remove. */
    method UnlinkEntry(p: Entry, q: nat, ghost i: nat) returns (f: Entry?, l: Entry?)
      requires Queues() && q < maxsend && i < |qs[q]| && qs[q][i] == p
      modifies qs[q]
      ensures OtherQueues(q) && Queue(Removed(qs[q], i), q, f, l, minto, clock)
      ensures forall e :: e in qs[q] ==> SameData(e)
    {
      ghost var s := qs[q];
      assert QueueAt(q);
      forall k: nat, e | k < maxsend && k != q && e in qs[k] ensures e !in s {
        assert QueueAt(k);
      }
      f, l := UnlinkQueue(p, s, i, q, first[q], plast[q], minto, clock);
      forall k: nat | k < maxsend && k != q ensures QueueAt(k) {
        assert old(QueueAt(k)) && forall e :: e in qs[k] ==> e !in s;
      }
    }

    /** remove, for an entry that waits: it is the i-th of queue q. */
    method Unlink(p: Entry, q: nat, ghost i: nat)
      requires Queues() && q < maxsend && i < |qs[q]| && qs[q][i] == p
      modifies this`first, this`plast, this`qs, all
      ensures forall e :: e in all ==> SameData(e)
      ensures Queues() && qs == old(qs)[q := Removed(old(qs)[q], i)]
    {
      assert QueueAt(q);
      RemovedIn(qs[q], i);
      var f, l := UnlinkEntry(p, q, i);
      Relink(q, Removed(qs[q], i), f, l);
    }

    /** The queue is now r, from f to l. */
    method Relink(q: nat, ghost r: seq<Entry>, f: Entry?, l: Entry?)
      requires Shape() && q < maxsend && OtherQueues(q)
      requires (forall e :: e in r ==> e in all) && Queue(r, q, f, l, minto, clock)
      modifies this`first, this`plast, this`qs
      ensures Queues() && qs == old(qs)[q := r]
    {
      first, plast := first[q := f], plast[q := l];
      qs := qs[q := r];
      forall k: nat | k < maxsend ensures QueueAt(k) {
        if k != q { assert old(QueueAt(k)); }
      }
    }

    /** Time passes. */
    ghost method Tick(now: nat)
      requires Queues() && clock <= now
      modifies this`clock
      ensures Queues() && clock == now
    {
      forall k: nat | k < maxsend ensures Queue(qs[k], k, first[k], plast[k], minto, now) {
        assert QueueAt(k);
        LaterClock(qs[k], k, first[k], plast[k], minto, clock, now);
      }
      clock := now;
      forall k: nat | k < maxsend ensures QueueAt(k) {
        assert old(QueueAt(k));
      }
    }

    /** The pointer work of insert. */
    method AppendEntry(p: Entry, q: nat, now: nat) returns (f: Entry?, l: Entry?)
      requires Queues() && q < maxsend && now == clock && Ready(p, q, minto, now)
      requires forall k: nat :: k < maxsend ==> p !in qs[k]
      modifies p, qs[q]
      ensures OtherQueues(q) && Queue(qs[q] + [p], q, f, l, minto, clock)
      ensures Transmitted(p, q, minto, clock)
      ensures forall e :: e in qs[q] ==> SameData(e)
    {
      ghost var s := qs[q];
      assert QueueAt(q);
      forall k: nat, e | k < maxsend && k != q && e in qs[k] ensures e !in s && e != p {
        assert QueueAt(k);
      }
      f, l := AppendQueue(p, s, q, first[q], plast[q], minto, now);
      forall k: nat | k < maxsend && k != q ensures QueueAt(k) {
        assert old(QueueAt(k)) && forall e :: e in qs[k] ==> e !in s && e != p;
      }
    }

    ghost method Admit(p: Entry, q: nat)
      requires Shape() && OtherQueues(q)
      modifies this`all
      ensures Shape() && OtherQueues(q) && all == old(all) + {p}
    {
      all := all + {p};
      forall k: nat | k < maxsend && k != q ensures QueueAt(k) {
        assert old(QueueAt(k));
      }
    }

    /** insert up to schedq: p, which is in no queue, goes to the end of queue q. */
    method Enqueue(p: Entry, q: nat, now: nat)
      requires Queues() && q < maxsend && now == clock && Ready(p, q, minto, now)
      requires forall k: nat :: k < maxsend ==> p !in qs[k]
      modifies this`first, this`plast, this`qs, this`all, all, p
      ensures Queues() && all == old(all) + {p}
      ensures qs == old(qs[q := qs[q] + [p]])
      ensures Transmitted(p, q, minto, clock)
      ensures forall e :: e in old(all) && e != p ==> SameData(e)
    {
      assert QueueAt(q);
      var f, l := AppendEntry(p, q, now);
      Admit(p, q);
      Relink(q, qs[q] + [p], f, l);
    }

    /** Ask to be called back at the deadline of the front entry, unless a callback is pending. */
    method SchedQ(q: nat)
      requires Shape() && q < maxsend && |pending| == |wake| == maxsend
      requires first[q] == (if qs[q] == [] then null else qs[q][0])
      modifies this`pending, this`wake
      ensures if old(pending)[q] || qs[q] == [] then pending == old(pending) && wake == old(wake)
              else pending == old(pending)[q := true] && wake == old(wake)[q := qs[q][0].tm]
    {
      if !pending[q] && first[q] != null {
        pending := pending[q := true];
        wake := wake[q := first[q].tm];
      }
    }

    /** insert: p goes to the end of queue q, which is then scheduled. */
    method Insert(p: Entry, q: nat, now: nat, ghost except: nat)
      requires ValidBut(except) && q < maxsend && q != except && now == clock && Ready(p, q, minto, now)
      requires forall k: nat :: k < maxsend ==> p !in qs[k]
      modifies this`first, this`plast, this`qs, this`all, this`pending, this`wake, all, p
      ensures ValidBut(except) && all == old(all) + {p} && qs == old(qs[q := qs[q] + [p]])
      ensures Transmitted(p, q, minto, clock)
      ensures forall e :: e in old(all) && e != p ==> SameData(e)
      ensures forall k: nat :: k < maxsend && k != q ==> pending[k] == old(pending)[k]
    {
      Enqueue(p, q, now);
      assert QueueAt(q);
      SchedQ(q);
      forall k: nat | k < maxsend ensures Timed(k) && (k != except ==> Scheduled(k)) {
        assert old(Timed(k)) && (k != except ==> old(Scheduled(k)));
        assert old(QueueAt(k)) && QueueAt(k);
      }
      assert p == qs[q][|qs[q]| - 1] && Waits(p, q, minto, clock);
      forall e | e in all ensures Expired(e) {
        if e != p { assert old(Expired(e)); }
      }
    }

    // ----- the operations

    /** start: the entry is transmitted at level 0. */
    method Start(p: Entry, now: nat)
      requires Valid() && clock <= now && forall k: nat :: k < maxsend ==> p !in qs[k]
      modifies this, all, p
      ensures Valid() && clock == now && qs == old(qs[0 := qs[0] + [p]]) && all == old(all) + {p}
      ensures p.born == now && !p.kept && p.qno == 0 && p.tm == now + minto && p.sent == [0] && p.timeouts == 0
      ensures forall e :: e in old(all) && e != p ==> SameData(e)
    {
      Advance(now);
      Forget(p, now, false, maxsend);
      Insert(p, 0, now, maxsend);
    }

    /** keeptrying: an entry that is past the last level gets another try at that level. */
    method KeepTrying(p: Entry, now: nat)
      requires Valid() && clock <= now && p.qno >= maxsend && forall k: nat :: k < maxsend ==> p !in qs[k]
      modifies this, all, p
      ensures Valid() && clock == now && qs == old(qs[maxsend - 1 := qs[maxsend - 1] + [p]])
      ensures p.qno == maxsend - 1 && p.tm == now + Delay(minto, maxsend - 1) && p.sent == [maxsend - 1]
      ensures forall e :: e in old(all) && e != p ==> SameData(e)
    {
      Advance(now);
      Forget(p, now, true, maxsend);
      Insert(p, maxsend - 1, now, maxsend);
    }

    /** The history of an entry that waits in no queue is started anew. */
    ghost method Forget(p: Entry, now: nat, keep: bool, except: nat)
      requires ValidBut(except) && forall k: nat :: k < maxsend ==> p !in qs[k]
      modifies p`born, p`sent, p`kept, p`timeouts
      ensures ValidBut(except) && p.born == now && p.sent == [] && p.kept == keep && p.timeouts == 0
    {
      p.born, p.sent, p.kept, p.timeouts := now, [], keep, 0;
      forall k: nat | k < maxsend ensures QueueAt(k) && (k != except ==> Scheduled(k)) {
        assert old(QueueAt(k)) && (k != except ==> old(Scheduled(k)));
      }
      forall e | e in all ensures Expired(e) {
        if e != p { assert old(Expired(e)); }
      }
    }

    /** A timed-out entry that was never put back was transmitted once at each level, in order, and
        its timeout came no earlier than minto * (2^maxsend - 1) after its start. */
    lemma TimeoutNotEarly(e: Entry)
      requires Valid() && e in all && !e.kept && e.timeouts > 0
      ensures e.timeouts == 1 && e.sent == Levels(maxsend) && clock >= e.born + Delay(minto, maxsend) - minto
    {
      assert Expired(e);
      ElapsedIs(minto, maxsend - 1);
    }

    /** remove: an entry that waits, the i-th of its queue, is taken out; any other is left alone. */
    method Remove(p: Entry, ghost i: nat)
      requires Valid() && (p.qno < maxsend ==> i < |qs[p.qno]| && qs[p.qno][i] == p)
      modifies this`first, this`plast, this`qs, all
      ensures Valid() && forall e :: e in all ==> SameData(e)
      ensures qs == if old(p.qno) < maxsend then old(qs[p.qno := Removed(qs[p.qno], i)]) else old(qs)
    {
      if p.qno < maxsend {
        assert QueueAt(p.qno);
        Discard(p, p.qno, i, maxsend);
      }
    }

    method Discard(p: Entry, q: nat, ghost i: nat, ghost except: nat)
      requires ValidBut(except) && q < maxsend && i < |qs[q]| && qs[q][i] == p
      modifies this`first, this`plast, this`qs, all
      ensures ValidBut(except) && forall e :: e in all ==> SameData(e)
      ensures qs == old(qs)[q := Removed(old(qs)[q], i)]
    {
      Unlink(p, q, i);
      forall k: nat | k < maxsend ensures QueueAt(k) && (k != except ==> Scheduled(k)) {
        assert old(QueueAt(k)) && (k != except ==> old(Scheduled(k)));
        assert QueueAt(k);
        if qs[k] != [] {
          assert SameData(qs[k][0]);
          if k == q && i == 0 { assert old(qs[k][0].tm) <= old(qs[k][1].tm); }
        }
      }
      forall e | e in all ensures Expired(e) { assert old(Expired(e)); }
    }

    /** Time passes, and nothing else. */
    ghost method Advance(now: nat)
      requires Valid() && clock <= now
      modifies this`clock
      ensures Valid() && clock == now
    {
      Tick(now);
      forall q: nat | q < maxsend ensures QueueAt(q) && Timed(q) && Scheduled(q) {
        assert old(QueueAt(q)) && old(Timed(q)) && old(Scheduled(q));
      }
      forall e | e in all ensures Expired(e) { assert old(Expired(e)); }
    }

    /** The front entry p of queue q, which is due, is taken out. */
    method Detach(p: Entry, q: nat, now: nat)
      requires ValidBut(q) && q < maxsend && now == clock && qs[q] != [] && p == qs[q][0] && p.tm <= now
      modifies this`first, this`plast, this`qs, all
      ensures ValidBut(q) && p in all && qs == old(qs)[q := old(qs)[q][1..]] && forall e :: e in all ==> SameData(e)
      ensures (forall k: nat :: k < maxsend ==> p !in qs[k]) && Waits(p, q, minto, clock)
    {
      assert QueueAt(q) && Waits(p, q, minto, clock) && p in all;
      Discard(p, q, 0, q);
      assert SameData(p);
      assert Removed(old(qs)[q], 0) == old(qs)[q][1..];
      forall k: nat | k < maxsend ensures p !in qs[k] {
        assert old(QueueAt(k));
      }
    }

    /** One turn of runq: the front entry p of queue q, which is due, moves on. */
    method Turn(p: Entry, q: nat, now: nat)
      requires ValidBut(q) && q < maxsend && now == clock && qs[q] != [] && p == qs[q][0] && p.tm <= now
      modifies this`first, this`plast, this`qs, this`all, this`pending, this`wake, all
      ensures ValidBut(q) && all == old(all) && pending[q] == old(pending)[q]
      ensures qs[q] == old(qs)[q][1..]
      ensures q + 1 < maxsend ==> qs == old(qs)[q := old(qs)[q][1..]][q + 1 := old(qs)[q + 1] + [p]]
      ensures q + 1 == maxsend ==> qs == old(qs)[q := old(qs)[q][1..]]
      ensures MovedOn(p, q, minto, maxsend, now) && forall e :: e in all && e != p ==> SameData(e)
    {
      Detach(p, q, now);
      if q < maxsend - 1 {
        assert Ready(p, q + 1, minto, now);
        Insert(p, q + 1, now, q);
        assert all == old(all);
      } else {
        TimeOut(p, q);
      }
    }

    /** The entry is past the last level: timeout is called. */
    method TimeOut(p: Entry, q: nat)
      requires ValidBut(q) && q == maxsend - 1 && (forall k: nat :: k < maxsend ==> p !in qs[k]) && p.tm <= clock
      requires !p.kept ==> p.sent == Levels(q + 1) && p.timeouts == 0 && p.tm >= p.born + Elapsed(minto, q)
      modifies p`qno, p`timeouts
      ensures ValidBut(q) && p.qno == maxsend && p.timeouts == old(p.timeouts) + 1
    {
      p.qno := maxsend;
      p.timeouts := p.timeouts + 1;
      forall k: nat | k < maxsend ensures QueueAt(k) && (k != q ==> Scheduled(k)) {
        assert old(QueueAt(k)) && (k != q ==> old(Scheduled(k)));
      }
      forall e | e in all ensures Expired(e) {
        if e != p { assert old(Expired(e)); }
      }
    }

    /** The first n entries of was are those that were due. */
    ghost predicate DueAre(was: seq<Entry>, data: map<Entry, Data>, now: nat, n: nat) {
      (forall e :: e in was ==> e in data) && forall i: nat :: i < |was| ==> (i < n <==> data[was[i]].tm <= now)
    }

    /** The first n entries of was, a queue q that held the given data, were due and have moved on; the
        rest is as it was. */
    ghost predicate Progress(was: seq<Entry>, data: map<Entry, Data>, q: nat, now: nat, n: nat)
      reads this`all, all, was
    {
      && n <= |was| && NoDup(was) && data.Keys == all && (forall e :: e in was ==> e in all)
      && (forall i: nat :: i < n ==>
              && data[was[i]].tm <= now
              && DataOf(was[i]) == Next(data[was[i]], q, minto, maxsend, now))
      && forall e :: e in all && e !in was[..n] ==> DataOf(e) == data[e]
    }

    /** A turn of runq takes the next entry. */
    method TurnNext(q: nat, now: nat, ghost was: seq<seq<Entry>>, ghost data: map<Entry, Data>, ghost n: nat)
      requires ValidBut(q) && q < maxsend && now == clock && first[q] != null && first[q].tm <= now
      requires qs[q] != [] && first[q] == qs[q][0]
      requires Moved(was, qs, q, n) && Progress(was[q], data, q, now, n)
      modifies this`first, this`plast, this`qs, this`all, this`pending, this`wake, all
      ensures ValidBut(q) && all == old(all) && pending[q] == old(pending)[q] && |qs[q]| < |old(qs)[q]|
      ensures Moved(was, qs, q, n + 1) && Progress(was[q], data, q, now, n + 1)
    {
      ghost var p := was[q][n];
      assert was[q][..n + 1] == was[q][..n] + [p];
      assert p == first[q] && p in was[q] && p !in was[q][..n];
      Turn(first[q], q, now);
      MovedOne(was, old(qs), qs, q, n);
      forall i: nat | i < n ensures DataOf(was[q][i]) == old(DataOf(was[q][i])) {
        assert was[q][i] in was[q] && was[q][i] != p && SameData(was[q][i]);
      }
      forall e | e in all && e !in was[q][..n + 1] ensures DataOf(e) == data[e] {
        assert e != p && SameData(e) && e !in was[q][..n];
      }
    }

    lemma NoProgress(q: nat, now: nat)
      requires Shape() && q < maxsend && QueueAt(q)
      ensures Progress(qs[q], Snapshot(), q, now, 0)
    {
    }

    /** When the front is not due, nothing behind it is. */
    lemma RestNotDue(was: seq<Entry>, data: map<Entry, Data>, q: nat, now: nat, n: nat)
      requires Shape() && q < maxsend && QueueAt(q) && Progress(was, data, q, now, n) && qs[q] == was[n..]
      requires qs[q] == [] || qs[q][0].tm > now
      ensures DueAre(was, data, now, n)
    {
      forall i: nat | i < |was| ensures i < n <==> data[was[i]].tm <= now {
        if n <= i {
          assert qs[q][i - n] == was[i] && was[i] !in was[..n] && was[i] in was;
          assert qs[q][0].tm <= qs[q][i - n].tm;
          assert DataOf(was[i]) == data[was[i]];
        }
      }
    }

    /** runq: exactly the entries that are due move on, front to back; n of them. */
    method RunQ(q: nat, now: nat) returns (ghost n: nat)
      requires ValidBut(q) && q < maxsend && now == clock
      modifies this`first, this`plast, this`qs, this`all, this`pending, this`wake, all
      ensures ValidBut(q) && all == old(all) && pending[q] == old(pending)[q] && Moved(old(qs), qs, q, n)
      ensures Progress(old(qs)[q], old(Snapshot()), q, now, n) && DueAre(old(qs)[q], old(Snapshot()), now, n)
    {
      n := 0;
      ghost var was, data := qs, Snapshot();
      NotMoved(qs, q);
      assert QueueAt(q);
      NoProgress(q, now);
      while first[q] != null && first[q].tm <= now
        invariant ValidBut(q) && QueueAt(q) && all == old(all) && pending[q] == old(pending)[q]
        invariant Moved(was, qs, q, n) && Progress(was[q], data, q, now, n)
        decreases |qs[q]|
      {
        TurnNext(q, now, was, data, n);
        n := n + 1;
        assert QueueAt(q);
      }
      RestNotDue(was[q], data, q, now, n);
    }

    ghost function Snapshot(): map<Entry, Data>
      reads this`all, all
    {
      map e | e in all :: DataOf(e)
    }

    /** The callback of queue q is no longer pending. */
    method Begin(q: nat)
      requires Valid() && q < maxsend
      modifies this`pending
      ensures ValidBut(q) && !pending[q]
    {
      pending := pending[q := false];
      forall k: nat | k < maxsend ensures Timed(k) && (k != q ==> Scheduled(k)) {
        assert old(Timed(k)) && old(Scheduled(k));
      }
    }

    method End(q: nat)
      requires ValidBut(q) && q < maxsend && !pending[q]
      modifies this`pending, this`wake
      ensures Valid()
    {
      assert QueueAt(q);
      SchedQ(q);
      forall k: nat | k < maxsend ensures Timed(k) && Scheduled(k) {
        assert old(Timed(k)) && (k != q ==> old(Scheduled(k)));
        assert k == q && qs[k] != [] ==> Waits(qs[k][0], k, minto, clock);
      }
    }

    /** tcb: the callback of queue q.  Exactly the entries that are due move on, each is transmitted at
        the next level or timed out, and no other entry changes. */
    method Callback(q: nat, now: nat) returns (ghost n: nat)
      requires Valid() && q < maxsend && clock <= now
      modifies this, all
      ensures Valid() && clock == now && all == old(all) && Moved(old(qs), qs, q, n)
      ensures forall i: nat :: i < |old(qs)[q]| ==> (i < n <==> old(qs[q][i].tm) <= now)
      ensures forall i: nat :: i < n ==> MovedOn(old(qs)[q][i], q, minto, maxsend, now)
      ensures forall e :: e in all && e !in old(qs)[q][..n] ==> SameData(e)
    {
      Advance(now);
      Begin(q);
      n := RunQ(q, now);
      End(q);
    }

    /** p was put in a queue and not removed: it waits, or it has timed out. */
    ghost predicate Kept(p: Entry)
      requires Shape()
      reads this`qs, this`first, this`plast, this`all, p
    {
      p in all && p.qno <= maxsend && (p.qno < maxsend ==> p in qs[p.qno])
    }

    ghost function KeptSet(): set<Entry>
      requires Shape()
      reads this`qs, this`first, this`plast, this`all, all
    {
      set e | e in all && Kept(e)
    }

    /** What the entry's place in the queues becomes when n entries of queue q have moved on. */
    lemma StaysKept(was: seq<seq<Entry>>, q: nat, n: nat, e: Entry, l: nat)
      requires Shape() && Moved(was, qs, q, n) && e in all && l <= maxsend && (l < maxsend ==> e in was[l])
      requires e.qno == if l == q && e in was[q][..n] then q + 1 else l
      ensures Kept(e)
    {
      if l < maxsend { StillQueued(was, qs, q, n, e, l); }
    }

    /** A callback does to every kept entry what its life says. */
    method Serve(w: Wake)
      requires Valid() && w.q < maxsend && clock <= w.now
      modifies this, all
      ensures Valid() && all == old(all) && clock == w.now
      ensures forall e :: e in old(KeptSet()) ==>
              && e in KeptSet()
              && DataOf(e) == Woken(old(DataOf(e)), w, minto, maxsend)
    {
      ghost var before := qs;
      ghost var was := qs[w.q];
      assert QueueAt(w.q) && forall i :: 0 <= i < |was| ==> Waits(was[i], w.q, minto, clock);
      ghost var n := Callback(w.q, w.now);
      forall e | e in old(KeptSet()) ensures Kept(e) && DataOf(e) == Woken(old(DataOf(e)), w, minto, maxsend) {
        if e in was[..n] {
          ghost var i: nat :| i < n && was[i] == e;
          assert MovedOn(e, w.q, minto, maxsend, w.now);
        } else {
          assert SameData(e);
          assert e in was ==> old(e.tm) > w.now;
        }
        StaysKept(before, w.q, n, e, old(e.qno));
      }
    }

    // ----- the event loop

    /** Every wakeup that is due is run.  Whoever waited to a deadline that has come has moved on. */
    method RunDue(now: nat) returns (ghost wakes: seq<Wake>)
      requires Valid() && clock <= now
      modifies this, all
      ensures Valid() && all == old(all) && clock == now
      ensures forall i :: 0 <= i < |wakes| ==> wakes[i].q < maxsend && wakes[i].now == now
      ensures forall e :: e in old(KeptSet()) ==>
              && e in KeptSet()
              && DataOf(e) == Life(old(DataOf(e)), wakes, minto, maxsend)
      ensures forall e :: e in old(KeptSet()) && e.qno < maxsend && e.qno == old(e.qno) ==> e.tm > now
    {
      Advance(now);
      wakes := [];
      var q := 0;
      while q < maxsend
        invariant q <= maxsend && Valid() && all == old(all) && clock == now
        invariant forall i :: 0 <= i < |wakes| ==> wakes[i].q < maxsend && wakes[i].now == now
        invariant forall e :: e in old(KeptSet()) ==>
                && e in KeptSet()
                && DataOf(e) == Life(old(DataOf(e)), wakes, minto, maxsend)
        invariant forall e :: e in old(KeptSet()) && e.qno < q && e.qno == old(e.qno) ==> e.tm > now
      {
        if pending[q] && wake[q] <= now {
          wakes := RunOne(q, now, old(Snapshot()), old(KeptSet()), wakes);
        } else {
          forall e | e in old(KeptSet()) && e.qno == q ensures e.tm > now { WokenInTime(e); }
        }
        q := q + 1;
      }
    }

    /** The wakeup of the queue that an entry waits in is no later than its deadline. */
    lemma WokenInTime(e: Entry)
      requires Valid() && Kept(e) && e.qno < maxsend
      ensures pending[e.qno] && wake[e.qno] <= e.tm
    {
      assert QueueAt(e.qno) && Scheduled(e.qno);
      var i :| 0 <= i < |qs[e.qno]| && qs[e.qno][i] == e;
      assert qs[e.qno][0].tm <= qs[e.qno][i].tm;
    }

    method RunOne(q: nat, now: nat, ghost data: map<Entry, Data>, ghost es: set<Entry>, ghost wakes: seq<Wake>)
      returns (ghost more: seq<Wake>)
      requires Valid() && q < maxsend && clock == now && es <= KeptSet() && es <= data.Keys
      requires forall e :: e in es ==> DataOf(e) == Life(data[e], wakes, minto, maxsend)
      requires forall e :: e in es && e.qno < q && e.qno == data[e].qno ==> e.tm > now
      requires forall e :: e in es ==> data[e].qno <= maxsend
      requires forall i :: 0 <= i < |wakes| ==> wakes[i].q < maxsend && wakes[i].now == now
      modifies this, all
      ensures Valid() && all == old(all) && clock == now && es <= KeptSet() && more == wakes + [Wake(q, now)]
      ensures forall e :: e in es ==> DataOf(e) == Life(data[e], more, minto, maxsend)
      ensures forall e :: e in es && e.qno < q + 1 && e.qno == data[e].qno ==> e.tm > now
    {
      Serve(Wake(q, now));
      more := wakes + [Wake(q, now)];
      assert more[..|wakes|] == wakes;
      forall e | e in es && e.qno < q + 1 && e.qno == data[e].qno ensures e.tm > now {
        LifeGrows(data[e], more, |wakes|, minto, maxsend);
      }
    }

    /** An entry is started and any callbacks follow: what becomes of it is its life. */
    method Live(p: Entry, start: nat, wakes: seq<Wake>)
      requires Valid() && clock <= start && (forall k: nat :: k < maxsend ==> p !in qs[k])
      requires InTime(wakes, start, maxsend)
      modifies this, all, p
      ensures Valid() && Kept(p) && DataOf(p) == Life(Started(start, minto), wakes, minto, maxsend)
    {
      Start(p, start);
      var i := 0;
      while i < |wakes|
        invariant 0 <= i <= |wakes| && Valid() && p in KeptSet() && clock == LastTime(wakes[..i], start)
        invariant DataOf(p) == Life(Started(start, minto), wakes[..i], minto, maxsend)
        invariant all == old(all) + {p}
      {
        Serve(wakes[i]);
        assert wakes[..i + 1][..i] == wakes[..i];
        i := i + 1;
      }
      assert wakes[..i] == wakes;
    }

    ghost predicate Tended(p: Entry, others: seq<Entry>)
      requires Shape()
      reads this`qs, this`first, this`plast, this`all, all
    {
      p in KeptSet() && p !in others && NoDup(others) && forall e :: e in others ==> e in KeptSet()
    }

    /** After the first i operations p is where its life says, on time. */
    ghost predicate OnCourse(p: Entry, start: nat, wakes: seq<Wake>, since: nat, ops: seq<Op>, at: seq<nat>, i: nat)
      requires forall q :: 0 <= q < |at| ==> at[q] < |ops|
      reads this`clock, p
    {
      && InTime(wakes, start, maxsend) && start <= clock && LastTime(wakes, start) <= clock && since <= clock
      && DataOf(p) == Life(Started(start, minto), wakes, minto, maxsend)
      && OnTime(DataOf(p), since, ops, at, i, start, minto)
    }

    /** The event loop runs what is due. */
    method PollFor(p: Entry, others: seq<Entry>, start: nat, ghost wakes: seq<Wake>, ghost since: nat, ops: seq<Op>,
                   ghost at: seq<nat>, i: nat)
      returns (ghost wakes': seq<Wake>, ghost since': nat)
      requires Valid() && Tended(p, others) && OpsInTime(ops, start) && |at| == maxsend && Polled(ops, at, start, minto)
      requires i < |ops| && ops[i].Poll? && clock <= ops[i].now && OnCourse(p, start, wakes, since, ops, at, i)
      modifies this, all
      ensures Valid() && all == old(all) && Tended(p, others) && clock == ops[i].now
      ensures OnCourse(p, start, wakes', since', ops, at, i + 1)
    {
      var now := ops[i].now;
      ghost var d := DataOf(p);
      ghost var more := RunDue(now);
      LifeHops(d, more, now, minto, maxsend);
      LifeConcat(Started(start, minto), wakes, more, minto, maxsend);
      InTimeConcat(wakes, more, start, now, maxsend);
      PollOnTime(d, DataOf(p), since, ops, at, i, start, minto);
      since' := if DataOf(p) == d then since else now;
      wakes' := wakes + more;
    }

    /** Another entry is started. */
    method BeginOther(p: Entry, others: seq<Entry>, now: nat) returns (more: seq<Entry>)
      requires Valid() && Tended(p, others) && clock <= now
      modifies this, all
      ensures Valid() && Tended(p, more) && clock == now && SameData(p)
      ensures fresh(all - old(all)) && old(all) <= all
    {
      var e := new Entry(maxsend);
      Start(e, now);
      more := others + [e];
      forall f | f in old(KeptSet()) ensures f in KeptSet() { assert SameData(f); }
    }

    /** Another entry is removed; the rest stay. */
    method StopOther(p: Entry, others: seq<Entry>, k: nat) returns (rest: seq<Entry>)
      requires Valid() && Tended(p, others)
      modifies this`first, this`plast, this`qs, all
      ensures Valid() && Tended(p, rest) && SameData(p)
    {
      rest := others;
      if k < |others| {
        var e := others[k];
        assert Kept(e) by { assert e in others; }
        ghost var i := 0;
        if e.qno < maxsend {
          i :| 0 <= i < |qs[e.qno]| && qs[e.qno][i] == e;
        }
        ghost var was, q := qs, e.qno;
        Remove(e, i);
        assert SameData(e);
        forall f | f in old(KeptSet()) && f != e ensures f in KeptSet() {
          assert SameData(f) && old(Kept(f)) && (q < maxsend ==> was[q][i] == e);
          if f.qno < maxsend && f.qno == q { RemovedOther(was[q], i, f); }
        }
        rest := others[..k] + others[k + 1..];
      }
    }

    method Interleave(p: Entry, others: seq<Entry>, start: nat, ghost wakes: seq<Wake>, ghost since: nat, ops: seq<Op>,
                      ghost at: seq<nat>, i: nat)
      returns (more: seq<Entry>)
      requires Valid() && Tended(p, others) && |at| == maxsend && Polled(ops, at, start, minto)
      requires i < |ops| && !ops[i].Poll? && clock <= ops[i].now && OnCourse(p, start, wakes, since, ops, at, i)
      modifies this, all
      ensures Valid() && Tended(p, more) && clock <= ops[i].now && fresh(all - old(all))
      ensures OnCourse(p, start, wakes, since, ops, at, i + 1)
    {
      OtherOnTime(DataOf(p), since, ops, at, i, start, minto);
      if ops[i].Begin? {
        more := BeginOther(p, others, ops[i].now);
      } else {
        more := StopOther(p, others, ops[i].k);
      }
    }

    method Operate(p: Entry, others: seq<Entry>, start: nat, ghost wakes: seq<Wake>, ghost since: nat, ops: seq<Op>,
                   ghost at: seq<nat>, i: nat)
      returns (more: seq<Entry>, ghost wakes': seq<Wake>, ghost since': nat)
      requires Valid() && Tended(p, others) && OpsInTime(ops, start) && |at| == maxsend && Polled(ops, at, start, minto)
      requires i < |ops| && clock <= ops[i].now && OnCourse(p, start, wakes, since, ops, at, i)
      modifies this, all
      ensures Valid() && Tended(p, more) && clock <= ops[i].now && fresh(all - old(all))
      ensures OnCourse(p, start, wakes', since', ops, at, i + 1)
    {
      more, wakes', since' := others, wakes, since;
      if ops[i].Poll? {
        wakes', since' := PollFor(p, others, start, wakes, since, ops, at, i);
      } else {
        more := Interleave(p, others, start, wakes, since, ops, at, i);
      }
    }

    /** An entry is started and the event loop runs, while other entries are started and removed.  If the loop
        runs at or after each deadline, the entry is transmitted once at each level and timed out once. */
    method Run(p: Entry, start: nat, ops: seq<Op>, ghost at: seq<nat>) returns (ghost wakes: seq<Wake>)
      requires Valid() && clock <= start && (forall k: nat :: k < maxsend ==> p !in qs[k])
      requires OpsInTime(ops, start) && |at| == maxsend && Polled(ops, at, start, minto)
      modifies this, all, p
      ensures Valid() && Kept(p) && InTime(wakes, start, maxsend)
      ensures DataOf(p) == Life(Started(start, minto), wakes, minto, maxsend)
      ensures p.qno == maxsend && p.sent == Levels(maxsend) && p.timeouts == 1
    {
      Start(p, start);
      StartOnTime(ops, at, start, minto);
      wakes := Loop(p, start, ops, at);
    }

    method Loop(p: Entry, start: nat, ops: seq<Op>, ghost at: seq<nat>) returns (ghost wakes: seq<Wake>)
      requires Valid() && Tended(p, []) && OpsInTime(ops, start) && |at| == maxsend && Polled(ops, at, start, minto)
      requires clock == start && OnCourse(p, start, [], start, ops, at, 0)
      modifies this, all
      ensures Valid() && Kept(p) && InTime(wakes, start, maxsend)
      ensures DataOf(p) == Life(Started(start, minto), wakes, minto, maxsend)
      ensures p.qno == maxsend && p.sent == Levels(maxsend) && p.timeouts == 1
    {
      wakes := [];
      ghost var since := start;
      var others: seq<Entry> := [];
      var i := 0;
      while i < |ops|
        invariant 0 <= i <= |ops| && Valid() && clock <= (if i == 0 then start else ops[i - 1].now)
        invariant fresh(all - old(all)) && Tended(p, others) && OnCourse(p, start, wakes, since, ops, at, i)
      {
        others, wakes, since := Operate(p, others, start, wakes, since, ops, at, i);
        i := i + 1;
      }
      AllDone(DataOf(p), start, wakes, since, ops, at, minto);
    }
  }

  /** The first n entries of queue q have left it, for the end of the next queue if there is one. */
  ghost predicate Moved(was: seq<seq<Entry>>, qs: seq<seq<Entry>>, q: nat, n: nat) {
    && |qs| == |was| && q < |was| && n <= |was[q]| && qs[q] == was[q][n..]
    && (q + 1 < |was| ==> qs[q + 1] == was[q + 1] + was[q][..n])
    && forall k :: 0 <= k < |was| && k != q && k != q + 1 ==> qs[k] == was[k]
  }

  /** An entry of queue l is in the next queue if it was among those that left, and else where it was. */
  lemma StillQueued(was: seq<seq<Entry>>, qs: seq<seq<Entry>>, q: nat, n: nat, p: Entry, l: nat)
    requires Moved(was, qs, q, n) && l < |was| && p in was[l]
    ensures if l == q && p in was[q][..n] then q + 1 < |was| ==> p in qs[q + 1] else p in qs[l]
  {
    if l == q && p !in was[q][..n] {
      assert was[q] == was[q][..n] + was[q][n..];
    }
  }

  lemma NotMoved(qs: seq<seq<Entry>>, q: nat)
    requires q < |qs|
    ensures Moved(qs, qs, q, 0)
  {
  }

  lemma MovedOne(was: seq<seq<Entry>>, mid: seq<seq<Entry>>, qs: seq<seq<Entry>>, q: nat, n: nat)
    requires Moved(was, mid, q, n) && mid[q] != []
    requires if q + 1 < |was| then qs == mid[q := mid[q][1..]][q + 1 := mid[q + 1] + [mid[q][0]]]
             else qs == mid[q := mid[q][1..]]
    ensures Moved(was, qs, q, n + 1)
  {
    assert was[q][..n + 1] == was[q][..n] + [was[q][n]];
    if q + 1 < |was| {
      assert (was[q + 1] + was[q][..n]) + [was[q][n]] == was[q + 1] + (was[q][..n] + [was[q][n]]);
    }
  }

  /** Everything but the links of an entry is as it was. */
  twostate predicate SameData(e: Entry)
    reads e
  {
    DataOf(e) == old(DataOf(e))
  }

  /** e was put in queue q, with the deadline of that queue, and transmitted once. */
  twostate predicate Transmitted(e: Entry, q: nat, minto: nat, now: nat)
    reads e
  {
    && e.qno == q && e.tm == now + Delay(minto, q) && e.sent == old(e.sent) + [q]
    && e.born == old(e.born) && e.kept == old(e.kept) && e.timeouts == old(e.timeouts)
  }

  /** e, which was due in queue q, was transmitted at the next level, or its timeout was called. */
  twostate predicate MovedOn(e: Entry, q: nat, minto: nat, maxsend: nat, now: nat)
    reads e
  {
    && e.born == old(e.born) && e.kept == old(e.kept)
    && if q + 1 < maxsend then
         && e.qno == q + 1 && e.tm == now + Delay(minto, q + 1) && e.sent == old(e.sent) + [q + 1]
         && e.timeouts == old(e.timeouts)
       else
         e.qno == maxsend && e.tm == old(e.tm) && e.sent == old(e.sent) && e.timeouts == old(e.timeouts) + 1
  }
}
