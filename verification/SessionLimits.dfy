/**
 Reading a connection to its end, from any table: it runs a call twice exactly when an executed
 call on it is unknown to the server, or is a leftover with an unknown call in front of it.
 */
module SessionLimits {
  import opened Common
  import opened Session
  import opened SessionInv
  import RS = ResumableServer
  import S = SessionServerSteps

  /** The unread calls of the connection the server reads. */
  function Pending(s: Sys): seq<nat>
    requires s.sc < |s.conns|
  {
    s.conns[s.sc].calls
  }

  ghost predicate Readable(s: Sys) {
    Typed(s) && forall k :: k in s.srv.rtab ==> s.srv.rtab[k].id < |s.issued|
  }

  lemma ReadKeepsReadable(s: Sys)
    requires Readable(s) && Pending(s) != []
    ensures Readable(ReadCall(s)) && Pending(ReadCall(s)) == Pending(s)[1..]
    ensures s.executed <= ReadCall(s).executed
  {
    var key := KeyOf(s, Pending(s)[0]);
    if key in s.srv.rtab {
      RS.ReplayKeeps(s.srv, key);
    } else {
      RS.FreshKeeps(s.srv, key, Pending(s)[0]);
    }
  }

  /** Read calls until none is left, or until a reply would be resent at end of file. */
  ghost function Drain(s: Sys): (t: Sys)
    requires Readable(s)
    ensures s.executed <= t.executed
    decreases |Pending(s)|
  {
    if Pending(s) == [] || !Enabled(s, ServerRecv) then s
    else
      ReadKeepsReadable(s);
      Drain(ReadCall(s))
  }

  /** The transport is up and every cached reply fits a packet, so nothing keeps the server from reading on. */
  ghost predicate CanResend(srv: RS.Server) {
    srv.xi.up && forall k :: k in srv.rtab && srv.rtab[k].res.Some? ==> |srv.rtab[k].res.value| <= srv.xi.pktsize
  }

  ghost predicate Sound(s: Sys) {
    && Typed(s) && TableOk(s.issued, s.computed, s.srv.rtab) && Distinct(s)
    && NoDup(s.executed) && (forall i :: i in s.computed ==> i in s.executed)
    && Increasing(Pending(s)) && CanResend(s.srv)
  }

  /** The call at position p would be executed again. */
  ghost predicate RepeatsAt(s: Sys, p: nat)
    requires s.sc < |s.conns|
  {
    && p < |Pending(s)| && Pending(s)[p] in s.executed
    && (|| Pending(s)[p] !in KnownIds(s.srv.rtab)
        || (Pending(s)[p] in LeftoverIds(s.srv.rtab)
            && exists q :: 0 <= q < p && Pending(s)[q] !in KnownIds(s.srv.rtab)))
  }

  lemma SoundReadable(s: Sys)
    requires Sound(s)
    ensures Readable(s)
  {
    forall k | k in s.srv.rtab ensures s.srv.rtab[k].id < |s.issued| {
      assert Keyed(s.issued, k, s.srv.rtab[k]);
    }
  }

  // ----- one call

  /** Resending makes the call's reply current again and leaves all else alone. */
  lemma ReplayIds(s: Sys, key: RS.Key)
    requires RS.Valid(s.srv) && TableOk(s.issued, s.computed, s.srv.rtab) && CanResend(s.srv) && key in s.srv.rtab
    ensures var r := RS.Replay(s.srv, key).rtab; var o := s.srv.rtab;
            && KnownIds(r) == KnownIds(o)
            && LeftoverIds(r) == LeftoverIds(o) - {o[key].id}
  {
    var o := s.srv.rtab;
    var r := RS.Replay(s.srv, key).rtab;
    forall i ensures i in KnownIds(r) <==> i in KnownIds(o) {
      if i in KnownIds(o) {
        var k :| k in o && o[k].id == i;
        assert r[k].id == i;
      }
    }
    forall i ensures i in LeftoverIds(r) <==> i in LeftoverIds(o) && i != o[key].id {
      assert Keyed(s.issued, key, o[key]);
      if i in LeftoverIds(r) {
        var k :| k in r && r[k].res.Some? && r[k].offset == 0 && r[k].id == i;
        assert k != key && Keyed(s.issued, k, o[k]);
      }
      if i in LeftoverIds(o) && i != o[key].id {
        var k :| k in o && o[k].res.Some? && o[k].offset == 0 && o[k].id == i;
        assert r[k] == o[k];
      }
    }
  }

  /** What reading a recognised call changes. */
  lemma ReadKnown(s: Sys)
    requires Sound(s) && Pending(s) != [] && Pending(s)[0] in KnownIds(s.srv.rtab)
    ensures Enabled(s, ServerRecv)
    ensures var t := ReadCall(s);
            && t.executed == s.executed && t.computed == s.computed && Typed(t)
            && Pending(t) == Pending(s)[1..]
            && KnownIds(t.srv.rtab) == KnownIds(s.srv.rtab)
            && LeftoverIds(t.srv.rtab) == LeftoverIds(s.srv.rtab) - {Pending(s)[0]}
            && TableOk(t.issued, t.computed, t.srv.rtab) && CanResend(t.srv)
  {
    var i := Pending(s)[0];
    var key := KeyOf(s, i);
    assert Unread(s.conns, s.sc, i) && Live(s, i);
    S.KeyFindsCall(s, i);
    SoundReadable(s);
    ReadKeepsReadable(s);
    ReplayIds(s, key);
    var t := ReadCall(s);
    forall k | k in t.srv.rtab ensures Keyed(t.issued, k, t.srv.rtab[k]) && CacheOk(t.computed, t.srv.rtab[k]) {
      assert Keyed(s.issued, k, s.srv.rtab[k]) && CacheOk(s.computed, s.srv.rtab[k]);
    }
  }

  lemma ReadKnownDistinct(s: Sys)
    requires Sound(s) && Pending(s) != [] && Pending(s)[0] in KnownIds(s.srv.rtab)
    ensures Distinct(ReadCall(s))
  {
    var i := Pending(s)[0];
    var key := KeyOf(s, i);
    assert Unread(s.conns, s.sc, i) && Live(s, i);
    S.KeyFindsCall(s, i);
    S.PopDistinct(s);
    ReplayIds(s, key);
    var u := S.Popped(s);
    var v := s.srv.rtab[key];
    if v.res.Some? {
      S.PushDistinct(u, RS.Replay(s.srv, key), Answer(v.id, v.res.value));
    }
  }

  /** What reading an unrecognised call changes, when it was never executed. */
  lemma ReadUnknown(s: Sys)
    requires Sound(s) && Pending(s) != [] && Pending(s)[0] !in KnownIds(s.srv.rtab)
    ensures Enabled(s, ServerRecv)
    ensures var t := ReadCall(s);
            && t.executed == s.executed + [Pending(s)[0]]
            && KnownIds(t.srv.rtab) == KnownIds(s.srv.rtab) + {Pending(s)[0]} - LeftoverIds(s.srv.rtab)
            && LeftoverIds(t.srv.rtab) == {}
            && Pending(t) == Pending(s)[1..]
            && (Pending(s)[0] !in s.executed ==> Sound(t))
  {
    var i := Pending(s)[0];
    var key := KeyOf(s, i);
    assert Unread(s.conns, s.sc, i) && Live(s, i);
    S.KeyFindsCall(s, i);
    SoundReadable(s);
    ReadKeepsReadable(s);
    RS.FreshKeeps(s.srv, key, i);
    S.FreshIds(s);
    S.FreshDistinct(s);
    var t := ReadCall(s);
    assert t == S.Executed(s);
    if i !in s.executed {
      UnknownTable(s, t, key, i);
    }
  }

  lemma UnknownTable(s: Sys, t: Sys, key: RS.Key, i: nat)
    requires TableOk(s.issued, s.computed, s.srv.rtab) && t.issued == s.issued && t.computed == s.computed
    requires forall k :: k in t.srv.rtab ==>
               if k == key then t.srv.rtab[k] == RS.Svc(i, None, 0)
               else k in s.srv.rtab && t.srv.rtab[k] == s.srv.rtab[k]
    requires Keyed(s.issued, key, RS.Svc(i, None, 0)) && i !in s.computed
    ensures TableOk(t.issued, t.computed, t.srv.rtab)
  {
  }

  // ----- the whole connection

  /** A call that was executed and is unknown now repeats at once. */
  lemma FrontRepeats(s: Sys)
    requires Sound(s) && Readable(s) && Pending(s) != []
    requires Pending(s)[0] !in KnownIds(s.srv.rtab) && Pending(s)[0] in s.executed
    ensures !NoDup(Drain(s).executed) && RepeatsAt(s, 0)
  {
    ReadUnknown(s);
    ReadKeepsReadable(s);
    var e := Drain(ReadCall(s)).executed;
    var j :| 0 <= j < |s.executed| && s.executed[j] == Pending(s)[0];
    assert e[j] == e[|s.executed|];
  }

  /** Reading a connection to its end runs a call twice exactly when some position repeats. */
  lemma {:induction false} DrainExact(s: Sys)
    requires Sound(s) && Readable(s)
    ensures NoDup(Drain(s).executed) <==> forall p: nat :: !RepeatsAt(s, p)
    decreases |Pending(s)|
  {
    var q := Pending(s);
    if q != [] {
      var t := ReadCall(s);
      if q[0] in KnownIds(s.srv.rtab) {
        ReadKnown(s);
        ReadKnownDistinct(s);
        SoundReadable(t);
        DrainExact(t);
        ShiftKnown(s, t);
      } else if q[0] in s.executed {
        FrontRepeats(s);
      } else {
        ReadUnknown(s);
        SoundReadable(t);
        DrainExact(t);
        ShiftUnknown(s, t);
      }
    }
  }

  /** After a recognised call, the positions that repeat are those that did, one earlier. */
  lemma ShiftKnown(s: Sys, t: Sys)
    requires s.sc < |s.conns| && t.sc < |t.conns| && Pending(s) != [] && Increasing(Pending(s))
    requires Pending(s)[0] in KnownIds(s.srv.rtab)
    requires Pending(t) == Pending(s)[1..] && t.executed == s.executed
    requires KnownIds(t.srv.rtab) == KnownIds(s.srv.rtab)
    requires LeftoverIds(t.srv.rtab) == LeftoverIds(s.srv.rtab) - {Pending(s)[0]}
    ensures (forall p: nat :: !RepeatsAt(s, p)) <==> (forall p: nat :: !RepeatsAt(t, p))
  {
    assert !RepeatsAt(s, 0);
    forall p: nat | p > 0 ensures RepeatsAt(s, p) <==> RepeatsAt(t, p - 1) {
      if p < |Pending(s)| {
        assert Pending(s)[p] == Pending(t)[p - 1];
        forall q | 0 < q < p ensures Pending(s)[q] == Pending(t)[q - 1] { }
        if RepeatsAt(t, p - 1) && Pending(t)[p - 1] in KnownIds(t.srv.rtab) {
          var q :| 0 <= q < p - 1 && Pending(t)[q] !in KnownIds(t.srv.rtab);
          assert Pending(s)[q + 1] !in KnownIds(s.srv.rtab);
        }
      }
    }
    forall p: nat ensures RepeatsAt(t, p) <==> RepeatsAt(s, p + 1) { assert p + 1 - 1 == p; }
  }

  /** After a fresh call, exactly the executed calls that are unknown or were leftovers repeat. */
  lemma ShiftUnknown(s: Sys, t: Sys)
    requires s.sc < |s.conns| && t.sc < |t.conns| && Pending(s) != [] && Increasing(Pending(s))
    requires Pending(s)[0] !in KnownIds(s.srv.rtab) && Pending(s)[0] !in s.executed
    requires Pending(t) == Pending(s)[1..] && t.executed == s.executed + [Pending(s)[0]]
    requires KnownIds(t.srv.rtab) == KnownIds(s.srv.rtab) + {Pending(s)[0]} - LeftoverIds(s.srv.rtab)
    requires LeftoverIds(t.srv.rtab) == {}
    ensures (forall p: nat :: !RepeatsAt(s, p)) <==> (forall p: nat :: !RepeatsAt(t, p))
  {
    forall p: nat | p > 0 ensures RepeatsAt(s, p) <==> RepeatsAt(t, p - 1) {
      if p < |Pending(s)| {
        assert Pending(s)[p] == Pending(t)[p - 1] != Pending(s)[0];
      }
    }
    assert !RepeatsAt(s, 0);
    forall p: nat ensures RepeatsAt(t, p) <==> RepeatsAt(s, p + 1) { assert p + 1 - 1 == p; }
  }
}
