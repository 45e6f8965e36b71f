/**
 The reply cache of a server on an unreliable transport (asrv_unreliable): a table of calls
 and a queue of the replies kept, at most maxrsize of them.  It is shown to be determined by
 the history of the service: the calls in progress and the replies given, in order.
 */
module UnreliableServer {
  import opened Common

  /** What the server compares to recognise a call, including where it came from. */
  datatype Key = Key(xid: nat, prog: nat, vers: nat, proc: nat, addr: bytes)

  datatype Done = Done(key: Key, res: bytes)

  /** What the service has seen: calls it is working on, and cacheable replies it has given. */
  datatype History = History(active: set<Key>, done: seq<Done>)

  datatype Event =
    | Recv(key: Key)                 // a call arrives
    | Reply(key: Key, res: bytes)    // the service answers
    | Uncached(key: Key)             // the service answers but forbids caching, rejects or ignores the call

  datatype Effect = Execute | Resend(res: bytes) | Nothing

  // ----- reference: what the history says

  /** The replies that are kept: the last ones given, at most max of them. */
  function Kept(h: History, max: nat): seq<Done> {
    if |h.done| <= max then h.done else h.done[|h.done| - max..]
  }

  /** The stored bytes for a key, if its reply is kept. */
  function Stored(kept: seq<Done>, key: Key): Option<bytes> {
    if kept == [] then None
    else if kept[0].key == key then Some(kept[0].res)
    else Stored(kept[1..], key)
  }

  /** A call in progress is ignored, a kept reply is sent again, anything else is executed. */
  function Expected(h: History, max: nat, key: Key): Effect {
    if key in h.active then Nothing
    else match Stored(Kept(h, max), key)
      case Some(b) => Resend(b)
      case None => Execute
  }

  predicate Possible(h: History, e: Event) { e.Recv? || e.key in h.active }

  function Advance(h: History, max: nat, e: Event): History {
    match e
    case Recv(k) => if Expected(h, max, k).Execute? then h.(active := h.active + {k}) else h
    case Reply(k, b) => History(h.active - {k}, h.done + [Done(k, b)])
    case Uncached(k) => h.(active := h.active - {k})
  }

  // ----- the cache explains itself by the history

  function Keys(kept: seq<Done>): (r: seq<Key>)
    ensures |r| == |kept| && forall i :: 0 <= i < |r| ==> r[i] == kept[i].key
  {
    seq(|kept|, i requires 0 <= i < |kept| => kept[i].key)
  }

  ghost predicate Explains(rtab: map<Key, Option<bytes>>, rq: seq<Key>, active: set<Key>, kept: seq<Done>) {
    && rq == Keys(kept) && NoDup(rq)
    && rtab.Keys == active + Elems(rq) && active !! Elems(rq)
    && (forall k :: k in active ==> rtab[k].None?)
    && (forall i :: 0 <= i < |kept| ==> rtab[kept[i].key] == Some(kept[i].res))
  }

  /** A table lookup gives what the history expects. */
  lemma {:induction false} LookupIsStored(kept: seq<Done>, key: Key)
    requires NoDup(Keys(kept))
    ensures Stored(kept, key).Some? <==> key in Keys(kept)
    ensures forall i :: 0 <= i < |kept| && kept[i].key == key ==> Stored(kept, key) == Some(kept[i].res)
  {
    if kept != [] {
      var rest := kept[1..];
      assert forall i :: 0 <= i < |rest| ==> Keys(rest)[i] == Keys(kept)[i + 1];
      assert Keys(kept) == [kept[0].key] + Keys(rest);
      LookupIsStored(rest, key);
      forall i | 0 < i < |kept| && kept[i].key == key ensures Stored(kept, key) == Some(kept[i].res) {
        assert Keys(kept)[0] != Keys(kept)[i];
        assert rest[i - 1] == kept[i];
      }
    }
  }

  /** One more reply: the oldest kept one goes if there is no room. */
  lemma KeptAfterReply(h: History, active: set<Key>, max: nat, d: Done)
    ensures var k := Kept(h, max) + [d];
            |k| <= max + 1 && Kept(History(active, h.done + [d]), max) == if |k| > max then k[1..] else k
  {
  }

  /** The table and queue as the program keeps them, with the history they stand for. */
  class AsrvUnreliable {
    const maxrsize: nat
    var rsize: nat
    var rtab: map<Key, Option<bytes>>
    var rq: seq<Key>
    ghost var events: seq<Event>      // everything that has happened
    ghost var history: History        // what that comes to

    /** The table is the calls in progress plus the queue; the queue is the last replies, in order. */
    ghost predicate Valid()
      reads this
    {
      && rsize == |rq|
      && Explains(rtab, rq, history.active, Kept(history, maxrsize))
      && Run(maxrsize, events) && history == After(maxrsize, events)
    }

    constructor (max: nat)
      ensures Valid() && maxrsize == max && events == []
    {
      maxrsize, rsize, rtab, rq, events, history := max, 0, map[], [], [], History({}, []);
    }

    /** One more event. */
    ghost method Note(e: Event)
      requires Run(maxrsize, events) && history == After(maxrsize, events) && Possible(history, e)
      modifies this`events, this`history
      ensures Run(maxrsize, events) && history == After(maxrsize, events)
      ensures events == old(events) + [e] && history == Advance(old(history), maxrsize, e)
    {
      RunNext(maxrsize, events, e);
      events, history := events + [e], Advance(history, maxrsize, e);
    }

    /** asrv_unreliable::isreplay and the decision of asrv::dispatch that follows: a call that the service is
        working on is ignored, one of the last maxrsize replies is sent again, and only a call that is neither
        being worked on nor among those replies is executed. */
    method Dispatch(key: Key) returns (effect: Effect)
      requires Valid()
      modifies this
      ensures Valid() && events == old(events) + [Recv(key)] && rq == old(rq)
      ensures effect.Nothing? <==> Working(maxrsize, old(events), key)
      ensures forall b :: effect == Resend(b) <==> Recent(maxrsize, old(events), Done(key, b))
      ensures effect.Execute? <==>
                !Working(maxrsize, old(events), key) && !RecentKey(maxrsize, old(events), key)
    {
      LookupIsStored(Kept(history, maxrsize), key);
      EffectExact(maxrsize, events, key);
      Note(Recv(key));
      if key !in rtab {
        rtab := rtab[key := None];
        return Execute;
      }
      if rtab[key].Some? {
        assert key in rq;
        return Resend(rtab[key].value);
      }
      return Nothing;
    }

    /** asrv_unreliable::sendreply with a cacheable reply. */
    method SendReply(key: Key, res: bytes)
      requires Valid() && Working(maxrsize, events, key)
      modifies this
      ensures Valid() && events == old(events) + [Reply(key, res)]
    {
      WorkingIsActive(maxrsize, events, key);
      ghost var kept := Kept(history, maxrsize) + [Done(key, res)];
      KeptAfterReply(history, history.active - {key}, maxrsize, Done(key, res));
      Store(key, res);
      Trim(kept, Kept(history, maxrsize));
    }

    /** The reply goes into the table and to the end of the queue. */
    method Store(key: Key, res: bytes)
      requires Valid() && key in history.active
      modifies this
      ensures Run(maxrsize, events) && history == After(maxrsize, events) && events == old(events) + [Reply(key, res)]
      ensures history == Advance(old(history), maxrsize, Reply(key, res))
      ensures rsize == |rq| == old(rsize) + 1
      ensures Explains(rtab, rq, history.active, old(Kept(history, maxrsize)) + [Done(key, res)])
    {
      AppendReply(rtab, rq, history.active, Kept(history, maxrsize), Done(key, res));
      rtab := rtab[key := Some(res)];
      rsize := rsize + 1;
      rq := rq + [key];
      Note(Reply(key, res));
    }

    /** While more replies are cached than allowed, the oldest goes. */
    method Trim(ghost kept0: seq<Done>, ghost left: seq<Done>)
      requires rsize == |rq| == |kept0| && Explains(rtab, rq, history.active, kept0)
      requires if rsize <= maxrsize then kept0 == left else kept0 != [] && kept0[1..] == left && rsize == maxrsize + 1
      modifies this`rtab, this`rq, this`rsize
      ensures rsize == |rq| == |left| && Explains(rtab, rq, history.active, left)
    {
      ghost var kept := kept0;
      while rsize > maxrsize
        invariant rsize == |rq| == |kept| && Explains(rtab, rq, history.active, kept)
        invariant if rsize <= maxrsize then kept == left else kept != [] && kept[1..] == left && rsize == maxrsize + 1
      {
        EvictFirst(rtab, rq, history.active, kept);
        rtab := rtab - {rq[0]};
        rq := rq[1..];
        rsize := rsize - 1;
        kept := kept[1..];
      }
    }

    /** asrv_replay::sendreply without a reply, or with one that must not be cached. */
    method SendUncached(key: Key)
      requires Valid() && Working(maxrsize, events, key)
      modifies this
      ensures Valid() && events == old(events) + [Uncached(key)] && rq == old(rq)
    {
      WorkingIsActive(maxrsize, events, key);
      ghost var kept := Kept(history, maxrsize);
      DropActive(rtab, rq, history.active, kept, key);
      rtab := rtab - {key};
      Note(Uncached(key));
      assert history.active == old(history.active) - {key} && Kept(history, maxrsize) == kept;
    }
  }

  lemma AppendReply(rtab: map<Key, Option<bytes>>, rq: seq<Key>, active: set<Key>, kept: seq<Done>, d: Done)
    requires Explains(rtab, rq, active, kept) && d.key in active
    ensures Explains(rtab[d.key := Some(d.res)], rq + [d.key], active - {d.key}, kept + [d])
  {
    assert d.key !in rq;
    assert Elems(rq + [d.key]) == Elems(rq) + {d.key};
    forall i | 0 <= i < |kept| ensures kept[i].key != d.key {
      assert kept[i].key == rq[i];
    }
  }

  lemma DropActive(rtab: map<Key, Option<bytes>>, rq: seq<Key>, active: set<Key>, kept: seq<Done>, key: Key)
    requires Explains(rtab, rq, active, kept) && key in active
    ensures Explains(rtab - {key}, rq, active - {key}, kept)
  {
    assert key !in rq;
    forall i | 0 <= i < |kept| ensures (rtab - {key})[kept[i].key] == Some(kept[i].res) {
      assert kept[i].key == rq[i];
    }
  }

  lemma EvictFirst(rtab: map<Key, Option<bytes>>, rq: seq<Key>, active: set<Key>, kept: seq<Done>)
    requires Explains(rtab, rq, active, kept) && kept != []
    ensures Explains(rtab - {rq[0]}, rq[1..], active, kept[1..])
  {
    assert rq[0] !in rq[1..];
    assert rq == [rq[0]] + rq[1..];
    assert Elems(rq[1..]) == Elems(rq) - {rq[0]};
    forall i | 0 <= i < |kept[1..]| ensures (rtab - {rq[0]})[kept[1..][i].key] == Some(kept[1..][i].res) {
      assert kept[1..][i].key == rq[i + 1];
    }
  }

  // ----- over whole runs

  /** The history after a run of events from the start. */
  function After(max: nat, es: seq<Event>): History {
    if es == [] then History({}, []) else Advance(After(max, es[..|es| - 1]), max, es[|es| - 1])
  }

  ghost predicate Run(max: nat, es: seq<Event>) {
    forall n :: 0 <= n < |es| ==> Possible(After(max, es[..n]), es[n])
  }

  /** How many times the service was handed a call with this key. */
  function Executions(max: nat, es: seq<Event>, key: Key): nat {
    if es == [] then 0
    else
      var h, e := After(max, es[..|es| - 1]), es[|es| - 1];
      Executions(max, es[..|es| - 1], key) + if e == Recv(key) && Expected(h, max, key).Execute? then 1 else 0
  }

  /** How many cacheable replies were given to calls with this key. */
  function Replies(done: seq<Done>, key: Key): nat {
    if done == [] then 0 else Replies(done[..|done| - 1], key) + if done[|done| - 1].key == key then 1 else 0
  }

  function Drops(es: seq<Event>, key: Key): nat {
    if es == [] then 0 else Drops(es[..|es| - 1], key) + if es[|es| - 1] == Uncached(key) then 1 else 0
  }

  /** Conservation: every execution of a call is either still in progress or has ended in
      exactly one reply or one drop. */
  lemma {:induction false} ExecutionsBalance(max: nat, es: seq<Event>, key: Key)
    requires Run(max, es)
    ensures var h := After(max, es);
            Executions(max, es, key) == Replies(h.done, key) + Drops(es, key) + if key in h.active then 1 else 0
  {
    if es != [] {
      var front, e := es[..|es| - 1], es[|es| - 1];
      RunFront(max, es);
      ExecutionsBalance(max, front, key);
      var h := After(max, front);
      assert Possible(h, e);
      if e.Reply? {
        assert (h.done + [Done(e.key, e.res)])[..|h.done|] == h.done;
      }
    }
  }

  ghost predicate Apart(active: set<Key>, keys: seq<Key>) {
    NoDup(keys) && forall k :: k in active ==> k !in keys
  }

  ghost predicate Separate(h: History, max: nat) { Apart(h.active, Keys(Kept(h, max))) }

  lemma ApartAppend(active: set<Key>, keys: seq<Key>, k: Key)
    requires Apart(active, keys) && k in active
    ensures Apart(active - {k}, keys + [k]) && Apart(active - {k}, (keys + [k])[1..])
  {
    var all := keys + [k];
    forall i, j | 0 <= i < j < |all| ensures all[i] != all[j] {
      assert all[i] in keys;
    }
    assert forall x :: x in all[1..] ==> x in all;
  }

  lemma SeparateReply(h: History, max: nat, d: Done)
    requires Separate(h, max) && d.key in h.active
    ensures Separate(History(h.active - {d.key}, h.done + [d]), max)
  {
    KeptAfterReply(h, h.active - {d.key}, max, d);
    var kept := Kept(h, max);
    ApartAppend(h.active, Keys(kept), d.key);
    assert Keys(kept + [d]) == Keys(kept) + [d.key];
    assert Keys((kept + [d])[1..]) == Keys(kept + [d])[1..];
  }

  /** In every run the kept replies have different keys, and none of them is in progress. */
  lemma {:induction false} KeptDistinct(max: nat, es: seq<Event>)
    requires Run(max, es)
    ensures Separate(After(max, es), max)
  {
    if es != [] {
      var front, e := es[..|es| - 1], es[|es| - 1];
      RunFront(max, es);
      KeptDistinct(max, front);
      var h := After(max, front);
      assert Possible(h, e);
      match e
      case Recv(k) => LookupIsStored(Kept(h, max), k);
      case Uncached(k) =>
      case Reply(k, b) => SeparateReply(h, max, Done(k, b));
    }
  }

  lemma ResentIfKept(h: History, max: nat, i: nat)
    requires Separate(h, max) && i < |h.done| && |h.done| - i <= max
    ensures Expected(h, max, h.done[i].key) == Resend(h.done[i].res)
  {
    var kept := Kept(h, max);
    var j := i - (|h.done| - |kept|);
    assert kept[j] == h.done[i];
    assert Keys(kept)[j] in Keys(kept);
    LookupIsStored(kept, h.done[i].key);
  }

  /** In every run: while fewer than max further cacheable replies have been given since the
      reply to a call, a duplicate of the call is answered with the stored bytes and not executed. */
  lemma RecentReplyIsResent(max: nat, es: seq<Event>, i: nat)
    requires Run(max, es) && i < |After(max, es).done| && |After(max, es).done| - i <= max
    ensures var h := After(max, es); Expected(h, max, h.done[i].key) == Resend(h.done[i].res)
  {
    KeptDistinct(max, es);
    ResentIfKept(After(max, es), max, i);
  }

  lemma RunNext(max: nat, es: seq<Event>, e: Event)
    requires Run(max, es) && Possible(After(max, es), e)
    ensures Run(max, es + [e]) && After(max, es + [e]) == Advance(After(max, es), max, e)
  {
    var all := es + [e];
    assert all[..|es|] == es;
    forall n | 0 <= n < |all| ensures Possible(After(max, all[..n]), all[n]) {
      if n < |es| { assert all[..n] == es[..n]; }
    }
  }

  lemma RunFront(max: nat, es: seq<Event>)
    requires Run(max, es) && es != []
    ensures Run(max, es[..|es| - 1]) && Possible(After(max, es[..|es| - 1]), es[|es| - 1])
  {
    var front := es[..|es| - 1];
    forall n | 0 <= n < |front| ensures Possible(After(max, front[..n]), front[n]) {
      assert front[..n] == es[..n];
    }
  }

  // ----- what the server does, from the events alone

  /** The cacheable replies that were given, in order. */
  function Given(es: seq<Event>): seq<Done> {
    if es == [] then []
    else
      var e := es[|es| - 1];
      Given(es[..|es| - 1]) + if e.Reply? then [Done(e.key, e.res)] else []
  }

  /** The reply is one of the last max that were given. */
  ghost predicate Recent(max: nat, es: seq<Event>, d: Done) { AmongLast(Given(es), max, d) }

  ghost predicate AmongLast(all: seq<Done>, max: nat, d: Done) {
    exists i :: 0 <= i < |all| && |all| - max <= i && all[i] == d
  }

  ghost predicate RecentKey(max: nat, es: seq<Event>, key: Key) { exists b :: Recent(max, es, Done(key, b)) }

  /** After event n the service answered or dropped the call. */
  ghost predicate Finished(es: seq<Event>, n: nat, key: Key) {
    exists m :: n < m < |es| && !es[m].Recv? && es[m].key == key
  }

  /** The service is working on the call: it arrived when none of the last replies was for it, and has been
      neither answered nor dropped since. */
  ghost predicate Working(max: nat, es: seq<Event>, key: Key) {
    exists n :: 0 <= n < |es| && WorkingSince(max, es, key, n)
  }

  ghost predicate WorkingSince(max: nat, es: seq<Event>, key: Key, n: nat)
    requires n < |es|
  {
    es[n] == Recv(key) && !RecentKey(max, es[..n], key) && !Finished(es, n, key)
  }

  lemma {:induction false} DoneAreGiven(max: nat, es: seq<Event>)
    ensures After(max, es).done == Given(es)
  {
    if es != [] { DoneAreGiven(max, es[..|es| - 1]); }
  }

  lemma StoredIsKept(kept: seq<Done>, key: Key, b: bytes)
    requires NoDup(Keys(kept))
    ensures Stored(kept, key) == Some(b) <==> Done(key, b) in kept
  {
    LookupIsStored(kept, key);
    if Stored(kept, key) == Some(b) {
      var i :| 0 <= i < |kept| && Keys(kept)[i] == key;
      assert kept[i] == Done(key, b);
    }
  }

  /** What is kept is the last replies. */
  lemma KeptIsLast(h: History, max: nat, d: Done)
    ensures d in Kept(h, max) <==> AmongLast(h.done, max, d)
  {
    var kept := Kept(h, max);
    var o := |h.done| - |kept|;
    if d in kept {
      var i :| 0 <= i < |kept| && kept[i] == d;
      assert h.done[o + i] == d;
    }
    if AmongLast(h.done, max, d) {
      var i :| 0 <= i < |h.done| && |h.done| - max <= i && h.done[i] == d;
      assert kept[i - o] == d;
    }
  }

  /** A reply is stored exactly if it is one of the last ones. */
  lemma StoredIsRecent(max: nat, es: seq<Event>, key: Key)
    requires Run(max, es)
    ensures forall b :: Stored(Kept(After(max, es), max), key) == Some(b) <==> Recent(max, es, Done(key, b))
    ensures Stored(Kept(After(max, es), max), key).Some? <==> RecentKey(max, es, key)
  {
    var kept := Kept(After(max, es), max);
    KeptDistinct(max, es);
    DoneAreGiven(max, es);
    forall b ensures Stored(kept, key) == Some(b) <==> Recent(max, es, Done(key, b)) {
      StoredIsKept(kept, key, b);
      KeptIsLast(After(max, es), max, Done(key, b));
    }
    if Stored(kept, key).Some? { assert Recent(max, es, Done(key, Stored(kept, key).value)); }
  }

  /** One more event changes what the service works on as one expects. */
  lemma WorkingNext(max: nat, es: seq<Event>, e: Event, key: Key)
    ensures Working(max, es + [e], key) <==>
              (Working(max, es, key) && (e.Recv? || e.key != key)) || (e == Recv(key) && !RecentKey(max, es, key))
  {
    var all, last := es + [e], |es|;
    assert all[..last] == es;
    forall n | 0 <= n < last
      ensures WorkingSince(max, all, key, n) <==> WorkingSince(max, es, key, n) && (e.Recv? || e.key != key)
    {
      assert all[..n] == es[..n];
      if Finished(es, n, key) {
        var m :| n < m < |es| && !es[m].Recv? && es[m].key == key;
        assert all[m] == es[m];
      }
      if !e.Recv? && e.key == key { assert all[last] == e; }
    }
    if Working(max, es, key) && (e.Recv? || e.key != key) {
      var n :| 0 <= n < |es| && WorkingSince(max, es, key, n);
      assert WorkingSince(max, all, key, n);
    }
    if e == Recv(key) && !RecentKey(max, es, key) { assert WorkingSince(max, all, key, last); }
  }

  lemma ActiveNext(h: History, max: nat, e: Event, key: Key)
    ensures key in Advance(h, max, e).active <==>
              || (key in h.active && (e.Recv? || e.key != key))
              || (e == Recv(key) && key !in h.active && Stored(Kept(h, max), key).None?)
  {
  }

  /** The calls in progress are those the service works on. */
  lemma {:induction false} WorkingIsActive(max: nat, es: seq<Event>, key: Key)
    requires Run(max, es)
    ensures key in After(max, es).active <==> Working(max, es, key)
  {
    if es == [] {
      assert !Working(max, es, key);
    } else {
      var front, e := es[..|es| - 1], es[|es| - 1];
      assert front + [e] == es;
      RunFront(max, es);
      WorkingIsActive(max, front, key);
      WorkingNext(max, front, e, key);
      StoredIsRecent(max, front, key);
      ActiveNext(After(max, front), max, e, key);
    }
  }

  /** In every run a call in progress is ignored, one of the last replies is sent again, and anything else, and
      nothing else, is executed. */
  lemma EffectExact(max: nat, es: seq<Event>, key: Key)
    requires Run(max, es)
    ensures var effect := Expected(After(max, es), max, key);
            && (effect.Nothing? <==> Working(max, es, key))
            && (forall b :: effect == Resend(b) <==> Recent(max, es, Done(key, b)))
            && (effect.Execute? <==> !Working(max, es, key) && !RecentKey(max, es, key))
  {
    var h := After(max, es);
    WorkingIsActive(max, es, key);
    StoredIsRecent(max, es, key);
    KeptDistinct(max, es);
    LookupIsStored(Kept(h, max), key);
  }
}
