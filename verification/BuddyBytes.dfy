/** What the free maps of a buddy allocator say of single bytes, when a minimum unit has 2^low of them. */
module BuddyBytes {
  import opened Common
  import opened BuddyMaps
  import opened BuddyCount

  // ----- shifts are products and quotients

  lemma {:induction false} ShlIs(x: nat, k: nat)
    ensures Shl(x, k) == x * Pow2(k)
  {
    if k > 0 { ShlIs(x, k - 1); }
  }

  /** A shift to the right is the quotient by a power of two. */
  lemma UpIs(x: nat, k: nat)
    ensures Up(x, k) == x / Pow2(k)
  {
    InInterval(k, Up(x, k), x);
    ShlIs(Up(x, k), k);
    ShlAdd(Up(x, k), 1, k);
    QuotientIs(Up(x, k), Pow2(k), x);
  }

  // ----- bytes

  /** Byte x belongs to a free unit. */
  ghost predicate FreeByte(m: Maps, low: nat, x: nat) { IsFree(m, Up(x, low)) }

  /** All bytes from off up to, not including, end are free. */
  ghost predicate FreeFrom(m: Maps, low: nat, off: nat, end: nat) {
    forall x: nat :: off <= x < end ==> FreeByte(m, low, x)
  }

  predicate Multiple(x: nat, size: nat)
    requires size > 0
  {
    x % size == 0
  }

  /** Somewhere there are size free bytes in a row at a multiple of size. */
  ghost predicate Room(m: Maps, low: nat, size: nat)
    requires size > 0
  {
    exists off: nat :: Multiple(off, size) && FreeFrom(m, low, off, off + size)
  }

  /** From m0 to m the bytes of [off, end), all free, are taken and no other. */
  ghost predicate BytesTaken(m0: Maps, m: Maps, low: nat, off: nat, end: nat) {
    && FreeFrom(m0, low, off, end)
    && forall x: nat :: FreeByte(m, low, x) <==> FreeByte(m0, low, x) && !(off <= x < end)
  }

  /** From m0 to m the bytes of [off, end), none of them free, are given back and no other. */
  ghost predicate BytesGiven(m0: Maps, m: Maps, low: nat, off: nat, end: nat) {
    && (forall x: nat :: off <= x < end ==> !FreeByte(m0, low, x))
    && forall x: nat :: FreeByte(m, low, x) <==> FreeByte(m0, low, x) || off <= x < end
  }

  /** l is the least level whose blocks, of 2^(low+l) bytes, hold n bytes. */
  ghost predicate LeastFor(low: nat, n: nat, l: nat) {
    n <= Pow2(low + l) && forall e: nat :: low <= e < low + l ==> Pow2(e) < n
  }

  /** The first half of a least level is that the block before it is too small. */
  lemma LeastIs(low: nat, n: nat, l: nat)
    requires n <= Pow2(low + l) && (l > 0 ==> Pow2(low + l - 1) < n)
    ensures LeastFor(low, n, l)
  {
    forall e: nat | low <= e < low + l ensures Pow2(e) < n { PowMono(e, low + l - 1); }
  }

  lemma LeastOnce(low: nat, n: nat, l: nat, k: nat)
    requires LeastFor(low, n, l) && LeastFor(low, n, k)
    ensures l == k
  {
  }

  // ----- blocks in bytes

  /** The bytes of block p of level l. */
  lemma ByteIn(low: nat, l: nat, p: nat, x: nat)
    ensures In(Up(x, low), l, p) <==> Shl(p, low + l) <= x < Shl(p, low + l) + Pow2(low + l)
  {
    UpUp(x, low, l);
    InInterval(low + l, p, x);
    ShlAdd(p, 1, low + l);
  }

  /** Every unit has a byte. */
  lemma ByteOf(low: nat, u: nat)
    ensures Up(Shl(u, low), low) == u
  {
    UpShl(u, low, low);
  }

  lemma BlockBytes(m: Maps, low: nat, l: nat, p: nat)
    ensures BlockFree(m, l, p) <==> FreeFrom(m, low, Shl(p, low + l), Shl(p, low + l) + Pow2(low + l))
  {
    var off := Shl(p, low + l);
    if BlockFree(m, l, p) {
      forall x: nat | off <= x < off + Pow2(low + l) ensures FreeByte(m, low, x) { ByteIn(low, l, p, x); }
    }
    if FreeFrom(m, low, off, off + Pow2(low + l)) {
      forall u: nat | In(u, l, p) ensures IsFree(m, u) {
        ByteOf(low, u);
        ByteIn(low, l, p, Shl(u, low));
        assert FreeByte(m, low, Shl(u, low));
      }
    }
  }

  /** A block of level l is free somewhere exactly if there is room for its bytes. */
  lemma RoomIs(m: Maps, low: nat, l: nat)
    ensures SomeFree(m, l) <==> Room(m, low, Pow2(low + l))
  {
    var size := Pow2(low + l);
    if SomeFree(m, l) {
      var p :| BlockFree(m, l, p);
      BlockBytes(m, low, l, p);
      MultipleOf(p, low + l);
    }
    if Room(m, low, size) {
      var off: nat :| Multiple(off, size) && FreeFrom(m, low, off, off + size);
      WholeMultiple(off, low + l);
      BlockBytes(m, low, l, off / size);
    }
  }

  lemma WholeMultiple(off: nat, k: nat)
    requires Multiple(off, Pow2(k))
    ensures off == Shl(off / Pow2(k), k)
  {
    ShlIs(off / Pow2(k), k);
  }

  lemma MultipleOf(p: nat, k: nat)
    ensures Multiple(Shl(p, k), Pow2(k))
  {
    ShlIs(p, k);
    QuotientIs(p, Pow2(k), Shl(p, k));
  }

  lemma TakenBytes(m0: Maps, m: Maps, low: nat, l: nat, p: nat)
    requires Taken(m0, m, l, p)
    ensures BytesTaken(m0, m, low, Shl(p, low + l), Shl(p, low + l) + Pow2(low + l))
  {
    BlockBytes(m0, low, l, p);
    forall x: nat
      ensures FreeByte(m, low, x) <==>
        FreeByte(m0, low, x) && !(Shl(p, low + l) <= x < Shl(p, low + l) + Pow2(low + l))
    {
      ByteIn(low, l, p, x);
    }
  }

  lemma GivenBytes(m0: Maps, m: Maps, low: nat, l: nat, p: nat)
    requires Given(m0, m, l, p)
    ensures BytesGiven(m0, m, low, Shl(p, low + l), Shl(p, low + l) + Pow2(low + l))
  {
    var off := Shl(p, low + l);
    forall x: nat
      ensures FreeByte(m, low, x) <==> FreeByte(m0, low, x) || off <= x < off + Pow2(low + l)
      ensures off <= x < off + Pow2(low + l) ==> !FreeByte(m0, low, x)
    {
      ByteIn(low, l, p, x);
    }
  }

  /** From m0 to m the bytes of [from, to) become free and no other changes. */
  ghost predicate BytesAdded(m0: Maps, m: Maps, low: nat, from: nat, to: nat) {
    forall x: nat :: FreeByte(m, low, x) <==> FreeByte(m0, low, x) || from <= x < to
  }

  lemma AddedBytes(m0: Maps, m: Maps, low: nat, n0: nat, n: nat)
    requires Added(m0, m, n0, n)
    ensures BytesAdded(m0, m, low, Shl(n0, low), Shl(n, low))
  {
    forall x: nat ensures FreeByte(m, low, x) <==> FreeByte(m0, low, x) || Shl(n0, low) <= x < Shl(n, low) {
      UnitBelow(low, n0, x);
      UnitBelow(low, n, x);
    }
  }

  lemma UnitBelow(low: nat, n: nat, x: nat)
    ensures Up(x, low) < n <==> x < Shl(n, low)
  {
    var u := Up(x, low);
    ByteIn(low, 0, u, x);
    assert In(u, 0, u);
    ShlAdd(u, 1, low);
    if u < n { ShlMonotone(u + 1, n, low); } else { ShlMonotone(n, u, low); }
  }

  /** The largest multiple of 2^k up to ts. */
  lemma Truncated(ts: nat, k: nat)
    ensures var r := Shl(Up(ts, k), k); r <= ts < r + Pow2(k) && Multiple(r, Pow2(k))
  {
    InInterval(k, Up(ts, k), ts);
    ShlAdd(Up(ts, k), 1, k);
    MultipleOf(Up(ts, k), k);
  }
}
