/**
 The client side of a resumable session (aclnt and aclnt_resumable): the ordered list of
 outstanding calls, and the table of transaction ids of the transport in use, which other
 clients of the same transport share.
 */
module ResumableClient {
  import opened Common
  import Session

  /** An outstanding call: its number in issue order, its transaction id and its message. */
  datatype Rec = Rec(id: nat, xid: nat, msg: bytes)

  /** What the session model calls the outstanding calls. */
  function Ids(calls: seq<Rec>): (r: seq<nat>)
    ensures |r| == |calls| && forall i :: 0 <= i < |r| ==> r[i] == calls[i].id
  {
    seq(|calls|, i requires 0 <= i < |calls| => calls[i].id)
  }

  ghost predicate DistinctXids(calls: seq<Rec>) {
    forall i, j :: 0 <= i < j < |calls| ==> calls[i].xid != calls[j].xid
  }

  ghost predicate Registered(calls: seq<Rec>, tab: map<nat, Rec>) {
    forall i :: 0 <= i < |calls| ==> calls[i].xid in tab && tab[calls[i].xid] == calls[i]
  }

  function Xids(calls: seq<Rec>): set<nat> { set r | r in calls :: r.xid }

  /** A table with the given calls added. */
  function Extended(tab: map<nat, Rec>, calls: seq<Rec>): map<nat, Rec> {
    if calls == [] then tab else Extended(tab, calls[..|calls| - 1])[calls[|calls| - 1].xid := calls[|calls| - 1]]
  }

  lemma {:induction false} ExtendedIs(tab: map<nat, Rec>, calls: seq<Rec>)
    requires DistinctXids(calls)
    ensures Registered(calls, Extended(tab, calls))
    ensures Extended(tab, calls).Keys == tab.Keys + Xids(calls)
    ensures forall x :: x in tab && x !in Xids(calls) ==> Extended(tab, calls)[x] == tab[x]
  {
    if calls != [] {
      var front, r := calls[..|calls| - 1], calls[|calls| - 1];
      ExtendedIs(tab, front);
      assert calls == front + [r];
      XidsNext(front, r);
      RegisteredNext(Extended(tab, front), front, r);
    }
  }

  lemma RegisteredNext(tab: map<nat, Rec>, front: seq<Rec>, r: Rec)
    requires Registered(front, tab) && DistinctXids(front + [r])
    ensures Registered(front + [r], tab[r.xid := r])
  {
    var calls := front + [r];
    forall i | 0 <= i < |front| ensures calls[i] == front[i] && calls[i].xid != r.xid {
      assert calls[i].xid != calls[|front|].xid;
    }
  }

  lemma XidsNext(front: seq<Rec>, r: Rec)
    ensures Xids(front + [r]) == Xids(front) + {r.xid}
  {
    var calls := front + [r];
    assert r in calls;
    assert forall y :: y in calls ==> y in front || y == r;
    assert forall y :: y in front ==> y in calls;
  }

  /** Taking the calls out of a table they were added to gives the table back. */
  lemma ExtendThenRemove(tab: map<nat, Rec>, calls: seq<Rec>)
    requires DistinctXids(calls) && tab.Keys !! Xids(calls)
    ensures Extended(tab, calls) - Xids(calls) == tab
  {
    ExtendedIs(tab, calls);
  }

  /** The table finds what the session model finds by searching the outstanding calls. */
  lemma {:induction false} LookupIsFindXid(issued: seq<Session.Call>, calls: seq<Rec>, tab: map<nat, Rec>, xid: nat)
    requires DistinctXids(calls) && Registered(calls, tab)
    requires forall i :: 0 <= i < |calls| ==> calls[i].id < |issued| && issued[calls[i].id].xid == calls[i].xid
    requires xid in tab ==> tab[xid] in calls && tab[xid].xid == xid
    ensures Session.FindXid(issued, Ids(calls), xid) == if xid in tab then Some(tab[xid].id) else None
  {
    var r := Session.FindXid(issued, Ids(calls), xid);
    if xid in tab {
      var i :| 0 <= i < |calls| && calls[i] == tab[xid];
      assert Ids(calls)[i] in Ids(calls);
      var j :| 0 <= j < |calls| && Ids(calls)[j] == r.value;
      assert calls[j].xid == xid;
    }
  }

  /** The per-transport table of transaction ids. */
  class Xhinfo {
    var xidtab: map<nat, Rec>

    constructor ()
      ensures xidtab == map[]
    {
      xidtab := map[];
    }
  }

  class AclntResumable {
    var calls: seq<Rec>
    var xi: Xhinfo
    var stopped: bool

    ghost predicate Valid()
      reads this, xi
    {
      && DistinctXids(calls)
      && (!stopped ==> Registered(calls, xi.xidtab))
    }

    constructor (x: Xhinfo)
      ensures Valid() && calls == [] && xi == x && !stopped
    {
      calls, xi, stopped := [], x, false;
    }

    /** genxid: the first draw that is nonzero and unused on this transport. */
    method GenXid(draws: seq<nat>) returns (xid: nat, n: nat)
      requires exists d :: d in draws && d != 0 && d !in xi.xidtab
      ensures n < |draws| && xid == draws[n] && xid != 0 && xid !in xi.xidtab
      ensures forall j :: 0 <= j < n ==> draws[j] == 0 || draws[j] in xi.xidtab
    {
      n := 0;
      while draws[n] in xi.xidtab || draws[n] == 0
        invariant n < |draws|
        invariant forall j :: 0 <= j < n ==> draws[j] == 0 || draws[j] in xi.xidtab
        decreases |draws| - n
      {
        ghost var d :| d in draws && d != 0 && d !in xi.xidtab;
        ghost var k :| 0 <= k < |draws| && draws[k] == d;
        n := n + 1;
      }
      xid := draws[n];
    }

    /** A new call goes to the end of the list and into the table. */
    method Enter(r: Rec)
      requires Valid() && !stopped && r.xid !in xi.xidtab
      modifies this, xi
      ensures Valid() && !stopped && xi == old(xi)
      ensures calls == old(calls) + [r] && xi.xidtab == old(xi.xidtab)[r.xid := r]
    {
      calls := calls + [r];
      xi.xidtab := xi.xidtab[r.xid := r];
    }

    /** The call is destroyed: answered or cancelled. */
    method Remove(r: Rec)
      requires Valid() && r in calls
      modifies this, xi
      ensures Valid() && xi == old(xi) && stopped == old(stopped)
      ensures calls == Without(old(calls), {r})
      ensures xi.xidtab == if r.xid in old(xi.xidtab) && old(xi.xidtab)[r.xid] == r
                           then old(xi.xidtab) - {r.xid} else old(xi.xidtab)
    {
      WithoutDistinct(calls, r);
      calls := Without(calls, {r});
      if r.xid in xi.xidtab && xi.xidtab[r.xid] == r {
        xi.xidtab := xi.xidtab - {r.xid};
      }
      assert Valid() by {
        forall i | 0 <= i < |calls| && !stopped
          ensures calls[i].xid in xi.xidtab && xi.xidtab[calls[i].xid] == calls[i]
        {
          assert calls[i] in calls;
        }
      }
    }

    /** aclnt::dispatch for a reply that decodes: finish the call it names, if any is outstanding; it may
        be a call of another client on the same transport. */
    method Dispatch(xid: nat) returns (done: Option<Rec>)
      requires Valid() && !stopped
      requires xid in xi.xidtab ==> xi.xidtab[xid].xid == xid
      modifies this, xi
      ensures Valid() && !stopped && xi == old(xi)
      ensures done == if xid in old(xi.xidtab) then Some(old(xi.xidtab)[xid]) else None
      ensures calls == if done.Some? then Without(old(calls), {done.value}) else old(calls)
      ensures xi.xidtab == old(xi.xidtab) - {xid}
    {
      if xid !in xi.xidtab {
        return None;
      }
      var r := xi.xidtab[xid];
      if r in calls {
        Remove(r);
      } else {
        WithoutPrefix(calls, {r}, 0);
        xi.xidtab := xi.xidtab - {xid};
      }
      return Some(r);
    }

    method Start()
      requires Valid() && (stopped ==> xi.xidtab.Keys !! Xids(calls))
      modifies this, xi
      ensures Valid() && !stopped && xi == old(xi) && calls == old(calls)
      ensures xi.xidtab == if old(stopped) then Extended(old(xi.xidtab), calls) else old(xi.xidtab)
    {
      if stopped {
        stopped := false;
        var i := 0;
        while i < |calls|
          invariant i <= |calls| && calls == old(calls) && xi == old(xi) && !stopped
          invariant xi.xidtab == Extended(old(xi.xidtab), calls[..i])
        {
          ExtendedIs(old(xi.xidtab), calls[..i]);
          assert calls[i].xid !in xi.xidtab by {    // asserted by the program
            assert calls[i] in calls;
          }
          assert calls[..i + 1][..i] == calls[..i];
          xi.xidtab := xi.xidtab[calls[i].xid := calls[i]];
          i := i + 1;
        }
        assert calls[..i] == calls;
        ExtendedIs(old(xi.xidtab), calls);
      }
    }

    method Stop()
      requires Valid()
      modifies this, xi
      ensures Valid() && stopped && xi == old(xi) && calls == old(calls)
      ensures xi.xidtab == if old(stopped) then old(xi.xidtab) else old(xi.xidtab) - Xids(calls)
    {
      if !stopped {
        stopped := true;
        var i := 0;
        assert Xids(calls[..0]) == {};
        while i < |calls|
          invariant i <= |calls| && calls == old(calls) && xi == old(xi) && stopped
          invariant xi.xidtab == old(xi.xidtab) - Xids(calls[..i])
        {
          assert calls[i].xid !in Xids(calls[..i]);
          assert xi.xidtab[calls[i].xid] == calls[i];    // asserted by the program
          assert calls[..i + 1] == calls[..i] + [calls[i]];
          assert Xids(calls[..i + 1]) == Xids(calls[..i]) + {calls[i].xid} by {
            assert calls[i] in calls[..i + 1];
          }
          xi.xidtab := xi.xidtab - {calls[i].xid};
          i := i + 1;
        }
        assert calls[..i] == calls;
      }
    }

    /** aclnt_resumable::resume on a live transport: move the table entries and send every
        outstanding call again, in issue order. */
    method ResumeOn(x: Xhinfo) returns (sent: seq<bytes>)
      requires Valid() && !stopped && x != xi && x.xidtab.Keys !! Xids(calls)
      modifies this, xi, x
      ensures Valid() && !stopped && xi == x && calls == old(calls)
      ensures x.xidtab == Extended(old(x.xidtab), calls)
      ensures old(xi).xidtab == old(xi.xidtab) - Xids(calls)
      ensures |sent| == |calls| && forall i :: 0 <= i < |calls| ==> sent[i] == calls[i].msg
    {
      Stop();
      xi := x;
      Start();
      sent := [];
      var i := 0;
      while i < |calls|
        invariant i == |sent| <= |calls|
        invariant forall j :: 0 <= j < i ==> sent[j] == calls[j].msg
      {
        sent := sent + [calls[i].msg];
        i := i + 1;
      }
    }
  }

  lemma {:induction false} WithoutDistinct(calls: seq<Rec>, r: Rec)
    requires DistinctXids(calls)
    ensures DistinctXids(Without(calls, {r}))
    ensures r in calls ==> forall y :: y in Without(calls, {r}) ==> y.xid != r.xid
  {
    if calls != [] {
      WithoutDistinct(calls[1..], r);
      var w := Without(calls[1..], {r});
      forall j | 0 <= j < |w| ensures w[j].xid != calls[0].xid {
        assert w[j] in calls[1..];
      }
      forall y | y in Without(calls, {r}) && r in calls ensures y.xid != r.xid {
        assert y in calls && y != r;
      }
    }
  }
}
