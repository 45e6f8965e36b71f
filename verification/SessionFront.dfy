/** How far the server can read its connection, and what changes that. */
module SessionFront {
  import opened Common
  import opened Session
  import opened SessionInv
  import RS = ResumableServer
  import Lane = SessionLanes

  type Table = map<RS.Key, RS.Svc>

  lemma {:induction false} FrontIsPrefix(issued: seq<Call>, rtab: Table, pktsize: nat, up: bool, q: seq<nat>)
    ensures Front(issued, rtab, pktsize, up, q) <= q
    decreases |q|
  {
    if q != [] {
      FrontIsPrefix(issued, rtab, pktsize, up, q[1..]);
      if Resent(issued, rtab, q[0]).Some? {
        FrontIsPrefix(issued, rtab, pktsize, |Resent(issued, rtab, q[0]).value| <= pktsize, q[1..]);
      }
    }
  }

  /** More replies to send again, or no transport, only make it shorter. */
  lemma {:induction false} FrontShrinks(issued: seq<Call>, rtab: Table, rtab': Table, pktsize: nat,
                                        up: bool, up': bool, q: seq<nat>)
    requires up' ==> up
    requires forall i :: i in q ==> Resent(issued, rtab, i).None? || Resent(issued, rtab, i) == Resent(issued, rtab', i)
    ensures Front(issued, rtab', pktsize, up', q) <= Front(issued, rtab, pktsize, up, q)
  {
    if q != [] {
      var r, r' := Resent(issued, rtab, q[0]), Resent(issued, rtab', q[0]);
      if r'.None? {
        FrontShrinks(issued, rtab, rtab', pktsize, up, up', q[1..]);
      } else if up' {
        var next := if r.None? then up else |r.value| <= pktsize;
        FrontShrinks(issued, rtab, rtab', pktsize, next, |r'.value| <= pktsize, q[1..]);
      }
    }
  }

  /** It depends on the replies to the calls in it only. */
  lemma {:induction false} FrontSame(issued: seq<Call>, rtab: Table, rtab': Table, pktsize: nat, up: bool, q: seq<nat>)
    requires forall i :: i in Front(issued, rtab', pktsize, up, q) ==>
               Resent(issued, rtab, i) == Resent(issued, rtab', i)
    ensures Front(issued, rtab', pktsize, up, q) == Front(issued, rtab, pktsize, up, q)
  {
    if q != [] {
      var r := Resent(issued, rtab', q[0]);
      assert q[0] in Front(issued, rtab', pktsize, up, q);
      if r.None? {
        FrontSame(issued, rtab, rtab', pktsize, up, q[1..]);
      } else if up {
        FrontSame(issued, rtab, rtab', pktsize, |r.value| <= pktsize, q[1..]);
      }
    }
  }

  /** A new call at the end is in it, or something is in the way. */
  lemma {:induction false} FrontAppend(issued: seq<Call>, rtab: Table, pktsize: nat, up: bool, q: seq<nat>, n: nat)
    ensures var f := Front(issued, rtab, pktsize, up, q); var g := Front(issued, rtab, pktsize, up, q + [n]);
            (g == q + [n] && f == q) || g == f
  {
    if q == [] {
      assert [n][1..] == [] && q + [n] == [n];
    } else {
      assert (q + [n])[1..] == q[1..] + [n];
      assert [q[0]] + (q[1..] + [n]) == q + [n];
      var r := Resent(issued, rtab, q[0]);
      if r.None? {
        FrontAppend(issued, rtab, pktsize, up, q[1..], n);
      } else if up {
        FrontAppend(issued, rtab, pktsize, |r.value| <= pktsize, q[1..], n);
      }
    }
  }

  /** What is in the way is a call that has a reply. */
  lemma {:induction false} FrontEnds(issued: seq<Call>, rtab: Table, pktsize: nat, up: bool, q: seq<nat>)
    ensures var f := Front(issued, rtab, pktsize, up, q);
            f != q ==> f != [] && Resent(issued, rtab, f[|f| - 1]).Some?
    decreases |q|
  {
    if q != [] {
      var r := Resent(issued, rtab, q[0]);
      var next := if r.None? then up else |r.value| <= pktsize;
      var g := Front(issued, rtab, pktsize, next, q[1..]);
      assert q == [q[0]] + q[1..];
      if r.None? || up {
        FrontEnds(issued, rtab, pktsize, next, q[1..]);
        assert g != [] ==> ([q[0]] + g)[|g|] == g[|g| - 1];
      }
    }
  }

  /** New calls do not change the replies to old ones. */
  lemma {:induction false} FrontIssued(issued: seq<Call>, c: Call, rtab: Table, pktsize: nat, up: bool, q: seq<nat>)
    requires forall i :: i in q ==> i < |issued|
    ensures Front(issued + [c], rtab, pktsize, up, q) == Front(issued, rtab, pktsize, up, q)
    decreases |q|
  {
    if q != [] {
      var r := Resent(issued, rtab, q[0]);
      assert q[0] in q && r == Resent(issued + [c], rtab, q[0]);
      assert forall i :: i in q[1..] ==> i in q;
      FrontIssued(issued, c, rtab, pktsize, up, q[1..]);
      if r.Some? { FrontIssued(issued, c, rtab, pktsize, |r.value| <= pktsize, q[1..]); }
    }
  }

  // ----- as sets

  lemma PrefixElems(p: seq<nat>, q: seq<nat>)
    requires p <= q && Increasing(q)
    ensures Lane.FrontOf(Elems(p), Elems(q))
  {
    forall x, m | x in q && m in p && x < m ensures x in p {
      var i :| 0 <= i < |q| && q[i] == x;
      var j :| 0 <= j < |p| && p[j] == m;
      assert q[j] == m && i < j && p[i] == x;
    }
    assert forall x :: x in p ==> x in q;
  }

  // ----- in a session

  lemma FrontOfPrefix(s: Sys)
    requires s.sc < |s.conns|
    ensures FrontOf(s) <= s.conns[s.sc].calls
  {
    FrontIsPrefix(s.issued, s.srv.rtab, s.srv.xi.pktsize, s.srv.xi.up, s.conns[s.sc].calls);
  }

  /** What a new call does to it. */
  lemma IssueFront(s: Sys, c: Call)
    requires Typed(s) && Enabled(s, Issue(c))
    ensures var t := Apply(s, Issue(c)); var q := s.conns[s.sc].calls; var n := |s.issued|;
            if s.sending && Hears(s) <= s.cc && s.cc == s.sc
            then t.conns[s.sc].calls == q + [n]
                 && ((FrontOf(t) == q + [n] && FrontOf(s) == q) || FrontOf(t) == FrontOf(s))
            else t.conns[s.sc].calls == q && FrontOf(t) == FrontOf(s)
  {
    var q := s.conns[s.sc].calls;
    FrontIssued(s.issued, c, s.srv.rtab, s.srv.xi.pktsize, s.srv.xi.up, q);
    FrontAppend(s.issued + [c], s.srv.rtab, s.srv.xi.pktsize, s.srv.xi.up, q, |s.issued|);
  }
}
