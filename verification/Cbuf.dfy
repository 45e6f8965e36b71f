/** The circular buffer: a window on the stream of all bytes ever put into it. */
module Cbuf {
  import opened Common

  /** r is the first place of c in s, or -1 where there is none. */
  ghost predicate FoundAt(s: bytes, c: byte, r: int) {
    -1 <= r < |s| && (if r < 0 then c !in s else s[r] == c && c !in s[..r])
  }

  lemma FoundLeft(s: bytes, t: bytes, c: byte, r: int)
    requires FoundAt(s, c, r) && r >= 0
    ensures FoundAt(s + t, c, r)
  {
    assert (s + t)[..r] == s[..r];
  }

  lemma FoundRight(s: bytes, t: bytes, c: byte, r: int)
    requires FoundAt(s, c, -1) && FoundAt(t, c, r)
    ensures FoundAt(s + t, c, if r < 0 then -1 else |s| + r)
  {
    if r >= 0 {
      assert (s + t)[..|s| + r] == s + t[..r];
    }
  }

  /** The first place of a byte in part of an array, or -1. */
  method Memchr(a: array<byte>, from: nat, n: nat, c: byte) returns (p: int)
    requires from + n <= a.Length
    ensures FoundAt(a[from..from + n], c, p)
  {
    ghost var s := a[from..from + n];
    p := 0;
    while p < n
      invariant 0 <= p <= n && c !in s[..p]
    {
      if a[from + p] == c {
        return;
      }
      p := p + 1;
    }
    p := -1;
  }

  method Memcpy(dst: array<byte>, to: nat, src: array<byte>, from: nat, n: nat)
    requires to + n <= dst.Length && from + n <= src.Length && dst != src
    modifies dst
    ensures dst[to..to + n] == old(src[from..from + n])
    ensures dst[..to] == old(dst[..to]) && dst[to + n..] == old(dst[to + n..])
  {
    forall k | 0 <= k < n {
      dst[to + k] := src[from + k];
    }
  }

  lemma Joined(s: bytes, a: nat, b: nat)
    requires a <= b <= |s|
    ensures s[a..] == s[a..b] + s[b..]
  {
  }

  lemma Fronts(s: bytes, t: bytes, n: nat)
    requires n <= |s + t|
    ensures (s + t)[..n] == if n <= |s| then s[..n] else s + t[..n - |s|]
  {
  }

  /** Bytes up to the end of the memory, and then from its start. */
  method CopyAround(dst: array<byte>, src: array<byte>, start: nat, end: nat, len: nat)
    requires end <= start <= src.Length && len <= src.Length - start + end && len <= dst.Length && dst != src
    modifies dst
    ensures dst[..len] == old((src[start..src.Length] + src[0..end])[..len]) && dst[len..] == old(dst[len..])
  {
    ghost var s, t := src[start..src.Length], src[0..end];
    Fronts(s, t, len);
    var n := if len < src.Length - start then len else src.Length - start;
    Memcpy(dst, 0, src, start, n);
    assert dst[..n] == dst[0..0 + n] == s[..n] by { assert s[..n] == src[start..start + n]; }
    if len > n {
      Memcpy(dst, n, src, 0, len - n);
      assert dst[n..len] == t[..len - n] by { assert t[..len - n] == src[0..len - n]; }
      assert dst[..len] == dst[..n] + dst[n..len];
      assert s[..n] == s;
    }
  }

  /** A part of the buffer, as an iovec names it. */
  datatype Part = Part(base: nat, len: nat)

  function Used(p: Part): nat { if p.len > 0 then 1 else 0 }

  class CircularBuffer {
    const buf: array<byte>
    var empty: bool
    var start: nat
    var end: nat

    /** Every byte that was ever in the buffer, first what its memory held when it was made. */
    ghost var all: bytes

    /** How many bytes of the stream are read. */
    ghost var rd: nat

    /** The place in the stream of the first byte of the memory, for the lap that the reader is on. */
    ghost var lap: int

    /** Where a byte of the stream lies. */
    ghost function Slot(k: int): int
      reads this`lap
    {
      var d := k - lap;
      if d < 0 then d + buf.Length else if d >= buf.Length then d - buf.Length else d
    }

    ghost predicate Indices()
      reads this`start, this`end, this`empty, this`all, this`rd, this`lap
    {
      var n := buf.Length;
      && (start < n || (n == 0 && start == 0))
      && rd <= |all| <= rd + n && n <= |all|
      && rd == lap + start
      && end == Slot(|all|)
      && (empty <==> rd == |all|)
    }

    /** The memory holds the end of the stream. */
    ghost predicate Holds()
      requires Indices()
      reads this, buf
    {
      forall k :: |all| - buf.Length <= k < |all| ==> buf[Slot(k)] == all[k]
    }

    ghost predicate Valid()
      reads this, buf
    {
      Indices() && Holds()
    }

    /** What is still to be read. */
    ghost function Contents(): bytes
      requires Indices()
      reads this
    {
      all[rd..]
    }

    constructor (n: nat)
      ensures Valid() && fresh(buf) && buf.Length == n && Contents() == []
    {
      buf := new byte[n];
      empty, start, end, lap := true, 0, 0, n;
      new;
      all := buf[..];
      rd := n;
    }

    function Space(): (r: int)
      requires Indices()
      reads this
      ensures r == buf.Length - |Contents()|
    {
      (if empty || start < end then buf.Length else 0) + start - end
    }

    function Size(): (r: int)
      requires Indices()
      reads this
      ensures r == |Contents()|
    {
      (if empty || start < end then 0 else buf.Length) + end - start
    }

    /** Only the remainder of a sum of two indices is ever taken. */
    lemma Wrap(x: nat)
      requires buf.Length > 0 && x < 2 * buf.Length
      ensures x % buf.Length == if x < buf.Length then x else x - buf.Length
    {
    }

    function At(n: nat): (c: byte)
      requires Valid() && n < Size()
      reads this, buf
      ensures c == Contents()[n]
    {
      Wrap(n + start);
      assert all[rd + n] == buf[Slot(rd + n)];
      buf[(n + start) % buf.Length]
    }

    /** The place of the n-th byte of the two parts together. */
    ghost function Place(parts: (Part, Part), n: int): int {
      if n < parts.0.len then parts.0.base + n else parts.1.base + n - parts.0.len
    }

    /** The parts lie in the buffer. */
    ghost predicate Inside(parts: (Part, Part)) {
      parts.0.base + parts.0.len <= buf.Length && parts.1.base + parts.1.len <= buf.Length
    }

    /** The free parts: all the space, in the order in which the stream takes it. */
    method InIov() returns (inv: (Part, Part))
      requires Valid()
      ensures Inside(inv) && inv.0.len + inv.1.len == Space()
      ensures forall k :: 0 <= k < Space() ==> Place(inv, k) == Slot(|all| + k - buf.Length)
      ensures buf.Length > 0 ==> InIovCnt() == Used(inv.0) + Used(inv.1)
    {
      if empty || start < end {
        inv := (Part(end, buf.Length - end), Part(0, start));
      } else {
        inv := (Part(end, start - end), Part(0, 0));
      }
    }

    function InIovCnt(): nat
      requires Indices()
      reads this
    {
      if empty || start < end then if start != 0 then 2 else 1 else if start != end then 1 else 0
    }

    /** The used parts are the contents, in order. */
    method OutIov() returns (outv: (Part, Part))
      requires Valid()
      ensures Inside(outv) && outv.0.len + outv.1.len == Size()
      ensures forall k :: 0 <= k < Size() ==> Place(outv, k) == Slot(rd + k)
      ensures buf[outv.0.base..outv.0.base + outv.0.len] + buf[outv.1.base..outv.1.base + outv.1.len] == Contents()
      ensures OutIovCnt() == Used(outv.0) + Used(outv.1)
    {
      if start >= end && !empty {
        outv := (Part(start, buf.Length - start), Part(0, end));
      } else {
        outv := (Part(start, end - start), Part(0, 0));
      }
      InOrder(outv);
    }

    lemma InOrder(outv: (Part, Part))
      requires Valid() && Inside(outv) && outv.0.len + outv.1.len == |Contents()|
      requires forall k :: 0 <= k < |Contents()| ==> Place(outv, k) == Slot(rd + k)
      ensures buf[outv.0.base..outv.0.base + outv.0.len] + buf[outv.1.base..outv.1.base + outv.1.len] == Contents()
    {
      var s := buf[outv.0.base..outv.0.base + outv.0.len] + buf[outv.1.base..outv.1.base + outv.1.len];
      forall k | 0 <= k < |s| ensures s[k] == Contents()[k] {
        assert s[k] == buf[Place(outv, k)];
        assert all[rd + k] == buf[Slot(rd + k)];
      }
    }

    function OutIovCnt(): nat
      requires Indices()
      reads this
    {
      if empty then 0 else if start < end then 1 else if end != 0 then 2 else 1
    }

    /** All of the stream but the first n bytes that lie in the memory is where it should be. */
    ghost predicate HoldsAfter(n: int)
      requires Indices() && 0 <= n
      reads this, buf
    {
      forall k :: |all| - buf.Length + n <= k < |all| ==> buf[Slot(k)] == all[k]
    }

    /** The bytes lie at the first free places. */
    ghost predicate Written(data: bytes)
      requires Indices() && |data| <= buf.Length - |Contents()|
      reads this, buf
    {
      forall k :: 0 <= k < |data| ==> buf[Slot(|all| - buf.Length + k)] == data[k]
    }

    /** The bytes at the first n free places become part of the stream. */
    method AddBytes(n: nat, ghost data: bytes)
      requires Indices() && |data| == n <= Space() && HoldsAfter(n) && Written(data)
      modifies this
      ensures Valid() && rd == old(rd) && lap == old(lap) && all == old(all) + data
      ensures Contents() == old(Contents()) + data
    {
      Ahead(data);
      if n != 0 {
        empty := false;
        end := end + n;
        if end >= buf.Length {
          end := end - buf.Length;
        }
      }
      all := all + data;
    }

    /** The window moves on: what lies at the first free places is what follows in the stream. */
    lemma Ahead(data: bytes)
      requires Indices() && |data| <= buf.Length - |Contents()| && HoldsAfter(|data|) && Written(data)
      ensures forall k :: |all| + |data| - buf.Length <= k < |all| + |data| ==>
                0 <= Slot(k) < buf.Length && buf[Slot(k)] == (all + data)[k]
    {
      forall k | |all| + |data| - buf.Length <= k < |all| + |data|
        ensures 0 <= Slot(k) < buf.Length && buf[Slot(k)] == (all + data)[k]
      {
        if k >= |all| {
          assert (all + data)[k] == data[k - |all|];
          assert Slot(k) == Slot(|all| - buf.Length + (k - |all|));
        }
      }
    }

    /** Bytes of the window lie in different places. */
    lemma Apart(j: int, k: int)
      requires Indices() && |all| - buf.Length <= j < |all| && |all| - buf.Length <= k < |all| && j != k
      ensures 0 <= Slot(j) < buf.Length && 0 <= Slot(k) < buf.Length && Slot(j) != Slot(k)
    {
    }

    /** The place of a byte takes a new one; no other byte of the window is touched. */
    method Poke(ghost k: int, p: nat, x: byte)
      requires Indices() && |all| - buf.Length <= k < |all| && p == Slot(k)
      modifies buf
      ensures buf[Slot(k)] == x
      ensures forall j :: |all| - buf.Length <= j < |all| && j != k ==> buf[Slot(j)] == old(buf[Slot(j)])
    {
      forall j | |all| - buf.Length <= j < |all| && j != k ensures 0 <= Slot(j) < buf.Length && Slot(j) != p {
        Apart(j, k);
      }
      buf[p] := x;
    }

    /** The i-th byte goes to the i-th free place. */
    method PutOne(i: nat, p: nat, data: bytes)
      requires Indices() && i < |data| <= buf.Length - |Contents()| && p == Slot(|all| + i - buf.Length)
      requires HoldsAfter(i) && Written(data[..i])
      modifies buf
      ensures HoldsAfter(i + 1) && Written(data[..i + 1])
    {
      Poke(|all| + i - buf.Length, p, data[i]);
      ghost var done := data[..i + 1];
      forall k | 0 <= k < i + 1 ensures buf[Slot(|all| - buf.Length + k)] == done[k] {
        if k < i {
          assert data[..i][k] == data[k];
        }
      }
    }

    /** Bytes are read into the free parts and then added: they follow what was there. */
    method Put(data: bytes)
      requires Valid() && |data| <= Space()
      modifies this, buf
      ensures Valid() && rd == old(rd) && lap == old(lap) && all == old(all) + data
      ensures Contents() == old(Contents()) + data
    {
      var inv := InIov();
      var i := 0;
      while i < |data|
        modifies buf
        invariant i <= |data| && HoldsAfter(i) && Written(data[..i])
      {
        var p := if i < inv.0.len then inv.0.base + i else inv.1.base + i - inv.0.len;
        assert p == Place(inv, i);
        PutOne(i, p, data);
        i := i + 1;
      }
      assert data[..i] == data;
      AddBytes(|data|, data);
    }

    /** The contents lie in one piece, or in two. */
    lemma Pieces()
      requires Valid()
      ensures empty || start < end ==> Contents() == buf[start..end]
      ensures !empty && start >= end ==> Contents() == buf[start..buf.Length] + buf[0..end]
    {
      if empty || start < end {
        InOrder((Part(start, end - start), Part(0, 0)));
      } else {
        InOrder((Part(start, buf.Length - start), Part(0, end)));
      }
    }

    /** The place of the first such byte of the contents, or -1. */
    method Find(c: byte) returns (r: int)
      requires Valid()
      ensures FoundAt(Contents(), c, r)
    {
      Pieces();
      if empty {
        return -1;
      }
      if start < end {
        r := Memchr(buf, start, end - start, c);
        return;
      }
      r := Memchr(buf, start, buf.Length - start, c);
      if r >= 0 {
        FoundLeft(buf[start..buf.Length], buf[0..end], c, r);
        return;
      }
      r := Memchr(buf, 0, end, c);
      FoundRight(buf[start..buf.Length], buf[0..end], c, r);
      if r >= 0 {
        r := r + buf.Length - start;
      }
    }

    /** The first n bytes are read. */
    method RemBytes(n: nat)
      requires Valid() && n <= Size()
      modifies this`start, this`empty, this`rd, this`lap
      ensures Valid() && rd == old(rd) + n && (lap == old(lap) || lap == old(lap) + buf.Length)
      ensures Contents() == old(Contents())[n..]
    {
      if n != 0 {
        Wrap(start + n);
        if start + n >= buf.Length {
          lap := lap + buf.Length;
        }
        start := (start + n) % buf.Length;
        rd := rd + n;
        empty := start == end;
        forall k | |all| - buf.Length <= k < |all| ensures 0 <= Slot(k) < buf.Length && buf[Slot(k)] == all[k] {
          assert Slot(k) == old(Slot(k)) && old(buf[Slot(k)] == all[k]);
        }
      }
    }

    /** The n bytes before the contents are there again: the last ones read, whatever was added since. */
    method UnremBytes(n: nat)
      requires Valid() && n <= Space()
      modifies this`start, this`empty, this`rd, this`lap
      ensures Valid() && rd == old(rd) - n && (lap == old(lap) || lap == old(lap) - buf.Length)
      ensures Contents() == all[old(rd) - n..old(rd)] + old(Contents())
    {
      if n != 0 {
        if start < n {
          lap := lap - buf.Length;
        }
        start := (if start >= n then 0 else buf.Length) + start - n;
        rd := rd - n;
        empty := false;
        forall k | |all| - buf.Length <= k < |all| ensures 0 <= Slot(k) < buf.Length && buf[Slot(k)] == all[k] {
          assert Slot(k) == old(Slot(k)) && old(buf[Slot(k)] == all[k]);
        }
        Joined(all, rd, old(rd));
      }
    }

    /** The first bytes of the contents, from one piece or from two. */
    method CopyFront(dst: array<byte>, len: nat)
      requires Valid() && len <= Size() && len <= dst.Length && dst != buf
      modifies dst
      ensures dst[..len] == Contents()[..len] && dst[len..] == old(dst[len..])
    {
      Pieces();
      if empty || start < end {
        assert Contents()[..len] == buf[start..start + len];
        Memcpy(dst, 0, buf, start, if len < end - start then len else end - start);
      } else {
        CopyAround(dst, buf, start, end, len);
      }
    }

    /** Bytes are copied out and then read. */
    method CopyOut(dst: array<byte>, len: nat)
      requires Valid() && len <= Size() && len <= dst.Length && dst != buf
      modifies this, dst
      ensures Valid() && all == old(all) && rd == old(rd) + len
      ensures dst[..len] == old(Contents())[..len] && dst[len..] == old(dst[len..])
      ensures Contents() == old(Contents())[len..]
    {
      CopyFront(dst, len);
      RemBytes(len);
    }

    /** Bytes that were read are put back, with others added in between while there is room for both. */
    method ReadAddPutBack(n: nat, data: bytes)
      requires Valid() && n <= Size() && |data| <= Space()
      modifies this, buf
      ensures Valid() && Contents() == old(Contents()) + data
      ensures start == old(start)
    {
      RemBytes(n);
      Put(data);
      UnremBytes(n);
    }
  }
}
