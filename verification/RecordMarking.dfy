/** Record marking on a byte stream (section 11 of RFC 5531, as axprt_pipe uses it): framing, and what a receiver may
    make of a stream. */
module RecordMarking {
  import opened Common
  import Xdr
  import Wire = XdrWire

  const LAST: nat := 0x8000_0000    // the last-fragment bit; every record is one fragment

  function Frame(m: bytes): (r: bytes)
    requires |m| < LAST
    ensures |r| == |m| + 4
  {
    Xdr.PutInt(LAST + |m|) + m
  }

  /** Records that a transport with this packet size can carry. */
  ghost predicate Sendable(ms: seq<bytes>, pktsize: nat) { forall i :: 0 <= i < |ms| ==> |ms[i]| <= pktsize }

  ghost function Frames(ms: seq<bytes>, pktsize: nat): bytes
    requires pktsize < LAST && Sendable(ms, pktsize)
  {
    if ms == [] then [] else Frame(ms[0]) + Frames(ms[1..], pktsize)
  }

  /** What is at the front of s: an incomplete record, a break, a bad header, or a whole record. */
  datatype Header = Short | Break | Bad | Record(len: nat)

  function Look(s: bytes, pktsize: nat): (h: Header)
    ensures h.Record? ==> h.len <= pktsize && 4 + h.len <= |s|
    ensures h.Break? ==> 4 <= |s|
  {
    match Xdr.GetInt(s)
    case None => Short
    case Some((n, r)) =>
      if n == 0 then Break
      else if n < LAST || n - LAST > pktsize then Bad
      else if |r| < n - LAST then Short
      else Record(n - LAST)
  }

  /** s splits into the records pkts and a rest that does not start with a whole record. */
  ghost predicate Parses(s: bytes, pkts: seq<bytes>, rest: bytes, pktsize: nat)
    requires pktsize < LAST
  {
    Sendable(pkts, pktsize) && s == Frames(pkts, pktsize) + rest && !Look(rest, pktsize).Record?
  }

  // ----- what a receiver takes out of a stream

  /** The records that it hands on, up to a bad header or an incomplete record; a break is skipped. */
  function Taken(s: bytes, pktsize: nat): seq<bytes>
    decreases |s|
  {
    match Look(s, pktsize)
    case Record(n) => [s[4..4 + n]] + Taken(s[4 + n..], pktsize)
    case Break => Taken(s[4..], pktsize)
    case _ => []
  }

  /** It ends the transport over what it finds there: a break or a bad header. */
  predicate Halts(s: bytes, pktsize: nat)
    decreases |s|
  {
    match Look(s, pktsize)
    case Record(n) => Halts(s[4 + n..], pktsize)
    case Short => false
    case _ => true
  }

  // ----- framing

  lemma {:induction false} FramesAppend(a: seq<bytes>, b: seq<bytes>, pktsize: nat)
    requires pktsize < LAST && Sendable(a, pktsize) && Sendable(b, pktsize)
    ensures Sendable(a + b, pktsize) && Frames(a + b, pktsize) == Frames(a, pktsize) + Frames(b, pktsize)
  {
    if a == [] {
      assert a + b == b;
    } else {
      FramesAppend(a[1..], b, pktsize);
      assert (a + b)[1..] == a[1..] + b;
      assert Frame(a[0]) + (Frames(a[1..], pktsize) + Frames(b, pktsize)) == Frames(a, pktsize) + Frames(b, pktsize);
    }
  }

  lemma FramesOne(m: bytes, pktsize: nat)
    requires |m| <= pktsize < LAST
    ensures Sendable([m], pktsize) && Frames([m], pktsize) == Frame(m)
  {
    assert [m][1..] == [];
    assert Frames([], pktsize) == [];
  }

  /** A whole record at the front of s is its frame. */
  lemma LookIsFrame(s: bytes, pktsize: nat)
    requires pktsize < LAST && Look(s, pktsize).Record?
    ensures var n := Look(s, pktsize).len; s == Frame(s[4..4 + n]) + s[4 + n..]
  {
    var n := Look(s, pktsize).len;
    IntBack(s[0], s[1], s[2], s[3]);
    assert s[..4] == [s[0], s[1], s[2], s[3]];
    assert s == s[..4] + s[4..4 + n] + s[4 + n..];
  }

  /** A record on the wire: a first byte of 128 or more, a header that is its length and the highest bit, and its
      bytes. */
  lemma FrameIs(m: bytes)
    requires |m| < 0x8000_0000
    ensures |Frame(m)| == 4 + |m| && Frame(m)[4..] == m
    ensures Number(Frame(m)[..4], 256) == 0x8000_0000 + |m| && Frame(m)[0] >= 128
  {
    var h := Frame(m)[..4];
    assert h == Xdr.PutInt(LAST + |m|);
    Wire.WordExact(h, LAST + |m|);
    Wire.FourBytes(h);
  }

  /** What the receiver makes of the bytes it has: with fewer than four it waits; four zeros are a break; a header
      without the highest bit, or with a length over the packet size, is bad; and a record is there once as many
      bytes as the header says follow it. */
  lemma LookExact(s: bytes, pktsize: nat)
    ensures |s| < 4 ==> Look(s, pktsize) == Short
    ensures |s| >= 4 ==>
              var n := Number(s[..4], 256);
              && 0 <= n < 0x1_0000_0000 && (n == 0 <==> s[..4] == [0, 0, 0, 0]) && (n >= 0x8000_0000 <==> s[0] >= 128)
              && (Look(s, pktsize).Break? <==> n == 0)
              && (Look(s, pktsize).Bad? <==> 0 < n < 0x8000_0000 || n > 0x8000_0000 + pktsize)
              && (Look(s, pktsize).Short? <==> 0x8000_0000 + |s| - 4 < n <= 0x8000_0000 + pktsize)
              && (forall k: nat :: Look(s, pktsize) == Record(k) <==>
                    n == 0x8000_0000 + k && k <= pktsize && 4 + k <= |s|)
  {
    if |s| >= 4 {
      Wire.GetIsNumber(s);
      Wire.FourBytes(s[..4]);
    }
  }

  /** Reading a number and writing it again gives the same four bytes. */
  lemma IntBack(a: byte, b: byte, c: byte, d: byte)
    ensures 0 <= Xdr.BigEndian(a, b, c, d) < Xdr.TWO32
    ensures Xdr.PutInt(Xdr.BigEndian(a, b, c, d)) == [a, b, c, d]
  {
    var n := Xdr.BigEndian(a, b, c, d);
    assert n / 256 == (a * 256 + b) * 256 + c && n % 256 == d;
    assert n / 256 / 256 == a * 256 + b && n / 256 % 256 == c;
  }

  lemma LookFrame(m: bytes, rest: bytes, pktsize: nat)
    requires |m| <= pktsize < LAST
    ensures Look(Frame(m) + rest, pktsize) == Record(|m|)
    ensures (Frame(m) + rest)[4..4 + |m|] == m && (Frame(m) + rest)[4 + |m|..] == rest
  {
    assert Frame(m) + rest == Xdr.PutInt(LAST + |m|) + (m + rest);
    Xdr.IntRoundTrip(LAST + |m|, m + rest);
  }

  /** An incomplete record is not an error. */
  lemma LookPart(m: bytes, k: nat, pktsize: nat)
    requires |m| <= pktsize < LAST && k < |m| + 4
    ensures Look(Frame(m)[..k], pktsize) == Short
  {
    if k >= 4 {
      assert Frame(m)[..k] == Xdr.PutInt(LAST + |m|) + m[..k - 4];
      Xdr.IntRoundTrip(LAST + |m|, m[..k - 4]);
    }
  }

  // ----- what was sent is what is delivered

  /** The records are a prefix of those sent; what is left is less than the next record, and
      nothing once all have been delivered. */
  ghost predicate Delivers(ms: seq<bytes>, pkts: seq<bytes>, rest: bytes, pktsize: nat) {
    && pkts <= ms && Look(rest, pktsize) == Short
    && if pkts == ms then rest == [] else |rest| < 4 + |ms[|pkts|]|
  }

  lemma DeliversCons(m: bytes, ms: seq<bytes>, pkts: seq<bytes>, rest: bytes, pktsize: nat)
    requires ms != [] && ms[0] == m && Delivers(ms[1..], pkts, rest, pktsize)
    ensures Delivers(ms, [m] + pkts, rest, pktsize)
  {
    assert ms == [m] + ms[1..];
  }

  /** Frames that start the same start with the same record. */
  lemma SameFirst(m: bytes, a: bytes, m': bytes, b: bytes, pktsize: nat)
    requires |m| <= pktsize < LAST && |m'| <= pktsize && Frame(m) + a == Frame(m') + b
    ensures m == m' && a == b
  {
    LookFrame(m, a, pktsize);
    LookFrame(m', b, pktsize);
  }

  /** However a prefix of the stream is parsed, what it yields is right. */
  lemma {:induction false} PrefixDelivers(ms: seq<bytes>, k: nat, pkts: seq<bytes>, rest: bytes, pktsize: nat)
    requires pktsize < LAST && Sendable(ms, pktsize) && k <= |Frames(ms, pktsize)|
    requires Parses(Frames(ms, pktsize)[..k], pkts, rest, pktsize)
    ensures Delivers(ms, pkts, rest, pktsize)
  {
    if pkts == [] {
      NothingYet(ms, k, rest, pktsize);
    } else {
      var m := pkts[0];
      var more := Frames(pkts[1..], pktsize) + rest;
      assert Frames(ms, pktsize)[..k] == Frame(m) + more;
      FirstRecord(ms, k, m, more, pktsize);
      PrefixDelivers(ms[1..], k - |Frame(m)|, pkts[1..], rest, pktsize);
      DeliversCons(m, ms, pkts[1..], rest, pktsize);
      assert [m] + pkts[1..] == pkts;
    }
  }

  lemma NothingYet(ms: seq<bytes>, k: nat, rest: bytes, pktsize: nat)
    requires pktsize < LAST && Sendable(ms, pktsize) && k <= |Frames(ms, pktsize)|
    requires rest == Frames(ms, pktsize)[..k] && !Look(rest, pktsize).Record?
    ensures Delivers(ms, [], rest, pktsize)
  {
    if ms != [] {
      var m, tail := ms[0], Frames(ms[1..], pktsize);
      if k < |m| + 4 {
        assert rest == Frame(m)[..k];
        LookPart(m, k, pktsize);
      } else {
        assert rest == Frame(m) + tail[..k - (|m| + 4)];
        LookFrame(m, tail[..k - (|m| + 4)], pktsize);
      }
    }
  }

  lemma FirstRecord(ms: seq<bytes>, k: nat, m: bytes, more: bytes, pktsize: nat)
    requires pktsize < LAST && Sendable(ms, pktsize) && k <= |Frames(ms, pktsize)| && |m| <= pktsize
    requires Frames(ms, pktsize)[..k] == Frame(m) + more
    ensures ms != [] && ms[0] == m && |Frame(m)| <= k
    ensures more == Frames(ms[1..], pktsize)[..k - |Frame(m)|]
  {
    var all := Frames(ms, pktsize);
    assert ms != [];
    assert all == all[..k] + all[k..];
    assert (Frame(m) + more) + all[k..] == Frame(m) + (more + all[k..]);
    SameFirst(m, more + all[k..], ms[0], Frames(ms[1..], pktsize), pktsize);
  }

  /** Once everything has arrived, everything has been delivered. */
  lemma AllDelivered(ms: seq<bytes>, pkts: seq<bytes>, rest: bytes, pktsize: nat)
    requires pktsize < LAST && Sendable(ms, pktsize) && Parses(Frames(ms, pktsize), pkts, rest, pktsize)
    ensures pkts == ms && rest == []
  {
    var k := |Frames(ms, pktsize)|;
    assert Frames(ms, pktsize)[..k] == Frames(ms, pktsize);
    PrefixDelivers(ms, k, pkts, rest, pktsize);
    if pkts != ms {
      var n := |pkts|;
      assert ms == pkts + ms[n..];
      FramesAppend(pkts, ms[n..], pktsize);
    }
  }

  /** However the records of a stream are followed, they are what is taken out of it first. */
  lemma {:induction false} TakenFrames(ms: seq<bytes>, rest: bytes, pktsize: nat)
    requires pktsize < LAST && Sendable(ms, pktsize)
    ensures Taken(Frames(ms, pktsize) + rest, pktsize) == ms + Taken(rest, pktsize)
    ensures Halts(Frames(ms, pktsize) + rest, pktsize) == Halts(rest, pktsize)
  {
    if ms == [] {
      assert [] + rest == rest;
    } else {
      TakenFrames(ms[1..], rest, pktsize);
      TakenFrame(ms[0], Frames(ms[1..], pktsize) + rest, pktsize);
      Assoc(Frame(ms[0]), Frames(ms[1..], pktsize), rest);
      Assoc([ms[0]], ms[1..], Taken(rest, pktsize));
      assert ms == [ms[0]] + ms[1..];
    }
  }

  lemma TakenFrame(m: bytes, rest: bytes, pktsize: nat)
    requires |m| <= pktsize < LAST
    ensures Taken(Frame(m) + rest, pktsize) == [m] + Taken(rest, pktsize)
    ensures Halts(Frame(m) + rest, pktsize) == Halts(rest, pktsize)
  {
    LookFrame(m, rest, pktsize);
  }

  /** What is at the front of s has been dealt with, and t is left to look at, if more is. */
  ghost predicate Advanced(s: bytes, t: bytes, more: bool, was: seq<bytes>, now: seq<bytes>, pktsize: nat) {
    match Look(s, pktsize)
    case Record(n) => more && t == s[4 + n..] && now == was + [s[4..4 + n]]
    case Break => more && t == s[4..] && now == was
    case _ => !more && now == was
  }

  lemma AdvancedTaken(s: bytes, t: bytes, more: bool, was: seq<bytes>, now: seq<bytes>, pktsize: nat)
    requires Advanced(s, t, more, was, now, pktsize)
    ensures now + (if more then Taken(t, pktsize) else []) == was + Taken(s, pktsize)
    ensures Halts(s, pktsize) <==>
              Look(s, pktsize).Bad? || Look(s, pktsize).Break? || (more && Halts(t, pktsize))
  {
    match Look(s, pktsize)
    case Record(n) => Assoc(was, [s[4..4 + n]], Taken(t, pktsize));
    case _ =>
  }

  /** A parse exists for every prefix of the stream. */
  lemma {:induction false} PrefixParses(ms: seq<bytes>, k: nat, pktsize: nat) returns (pkts: seq<bytes>, rest: bytes)
    requires pktsize < LAST && Sendable(ms, pktsize) && k <= |Frames(ms, pktsize)|
    ensures Parses(Frames(ms, pktsize)[..k], pkts, rest, pktsize)
  {
    var all := Frames(ms, pktsize);
    if ms == [] || k < 4 + |ms[0]| {
      if ms != [] {
        assert all[..k] == Frame(ms[0])[..k];
        LookPart(ms[0], k, pktsize);
      }
      pkts, rest := [], all[..k];
      assert [] + rest == rest;
    } else {
      var j := k - (4 + |ms[0]|);
      pkts, rest := PrefixParses(ms[1..], j, pktsize);
      assert all[..k] == Frame(ms[0]) + Frames(ms[1..], pktsize)[..j];
      FramesOne(ms[0], pktsize);
      FramesAppend([ms[0]], pkts, pktsize);
      assert Frame(ms[0]) + (Frames(pkts, pktsize) + rest) == Frames([ms[0]] + pkts, pktsize) + rest;
      pkts := [ms[0]] + pkts;
    }
  }

  // ----- the assertion that less than a packet is left

  /** What is left never reaches the packet size, however the stream is cut. */
  ghost predicate LeavesLess(ms: seq<bytes>, pktsize: nat)
    requires pktsize < LAST && Sendable(ms, pktsize)
  {
    forall k, pkts, rest :: 0 <= k <= |Frames(ms, pktsize)| && Parses(Frames(ms, pktsize)[..k], pkts, rest, pktsize)
      ==> |rest| < pktsize
  }

  /** The program's assertion that less than pktsize bytes are left holds for every way of
      cutting the stream exactly if every record is at least four bytes shorter than a packet. */
  lemma AssertionExact(ms: seq<bytes>, pktsize: nat)
    requires 0 < pktsize < LAST && Sendable(ms, pktsize)
    ensures LeavesLess(ms, pktsize) <==> forall i :: 0 <= i < |ms| ==> |ms[i]| + 4 <= pktsize
  {
    if forall i :: 0 <= i < |ms| ==> |ms[i]| + 4 <= pktsize {
      forall k, pkts, rest | 0 <= k <= |Frames(ms, pktsize)| && Parses(Frames(ms, pktsize)[..k], pkts, rest, pktsize)
        ensures |rest| < pktsize
      {
        PrefixDelivers(ms, k, pkts, rest, pktsize);
      }
    } else {
      var i :| 0 <= i < |ms| && |ms[i]| + 4 > pktsize;
      AlmostAll(ms, i, pktsize);
    }
  }

  /** All of record i but its last byte can be left over. */
  lemma AlmostAll(ms: seq<bytes>, i: nat, pktsize: nat)
    requires pktsize < LAST && Sendable(ms, pktsize) && i < |ms|
    ensures var rest := Frame(ms[i])[..3 + |ms[i]|];
            exists k :: 0 <= k <= |Frames(ms, pktsize)| && Parses(Frames(ms, pktsize)[..k], ms[..i], rest, pktsize)
  {
    var rest := Frame(ms[i])[..3 + |ms[i]|];
    var front, back := Frames(ms[..i], pktsize), Frames(ms[i..], pktsize);
    assert ms == ms[..i] + ms[i..];
    FramesAppend(ms[..i], ms[i..], pktsize);
    LookPart(ms[i], 3 + |ms[i]|, pktsize);
    var k := |front| + 3 + |ms[i]|;
    assert Frames(ms, pktsize)[..k] == front + rest;
    assert Parses(Frames(ms, pktsize)[..k], ms[..i], rest, pktsize);
  }
}
