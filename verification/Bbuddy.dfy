/** The binary buddy allocator (bbuddy). */
module Bbuddy {
  import opened Common
  import opened Bitvec
  import opened Bbfree
  import opened BuddyMaps
  import opened BuddyCount
  import opened BuddyBytes

  class Allocator {
    const log2minalloc: nat
    const log2maxalloc: nat
    const freemaps: seq<FreeMap>
    var totsize: nat
    var spaceleft: int
    ghost var maps: Maps        // the free maps as sets of positions
    ghost var limit: nat        // minimum units in the space they describe
    ghost var out: set<Held>    // blocks handed out and not yet returned

    /** The objects that hold the free maps. */
    ghost function Levels(): (r: set<object>)
      ensures forall l :: 0 <= l < |freemaps| ==> freemaps[l] in r && freemaps[l].bits in r
    {
      (set l | 0 <= l < |freemaps| :: freemaps[l] as object)
      + (set l | 0 <= l < |freemaps| :: freemaps[l].bits as object)
    }

    ghost predicate Apart(i: nat, j: nat)
      requires i < |freemaps| && j < |freemaps|
    {
      freemaps[i] != freemaps[j] && freemaps[i].bits != freemaps[j].bits
    }

    ghost predicate Shape() {
      && log2minalloc <= log2maxalloc
      && |freemaps| == log2maxalloc - log2minalloc + 1
      && forall i: nat, j: nat :: i < j < |freemaps| ==> Apart(i, j)
    }

    /** Level l is a valid map, of the right size, with the bits that maps says. */
    ghost predicate LevelOk(l: nat)
      requires l < |freemaps|
      reads this`maps, this`limit, Levels()
    {
      LevelAt(l, limit)
    }

    ghost predicate LevelAt(l: nat, n: nat)
      requires l < |freemaps|
      reads this`maps, Levels()
    {
      && freemaps[l].Valid() && freemaps[l].Size() == Up(n, l)
      && l < |maps| && freemaps[l].Marked() == maps[l]
    }

    ghost predicate Sized()
      reads this`maps, this`limit, Levels()
    {
      && Shape() && |maps| == |freemaps|
      && (forall l: nat :: l < |freemaps| ==> LevelOk(l))
      && Aligned(limit, |freemaps| - 1)
    }

    /** The maps are canonical, and the space left is that of the free units. */
    ghost predicate Accounted()
      reads this, Levels()
    {
      && Sized()
      && Good(maps, limit)
      && spaceleft == Shl(Count(maps, limit), log2minalloc)
    }

    ghost predicate Valid()
      reads this, Levels()
    {
      && Accounted()
      && totsize == Shl(limit, log2minalloc)
      && Partition(maps, limit, out)
    }

    /** The space left is the total less what is handed out, and also the level counts weighted by
        block size; and the allocator's own check passes. */
    lemma Accounts()
      requires Valid()
      ensures spaceleft == totsize - Shl(Size(out), log2minalloc)
      ensures spaceleft == Shl(Weight(maps, |maps|), log2minalloc)
      ensures Check(maps, Up(limit, |maps| - 1))
    {
      PartitionAdds(maps, limit, out);
      ShlAdd(Count(maps, limit), Size(out), log2minalloc);
      WeightIsCount(maps, limit);
      CheckExact(maps, limit);
    }

    /** An allocator of minalloc to maxalloc bytes a block; everything is free. */
    constructor (ts: nat, minalloc: nat, maxalloc: nat, junk: nat -> Word)
      requires 0 < minalloc && 0 < maxalloc && Log2c(minalloc) <= Log2c(maxalloc)
      ensures Valid() && out == {} && fresh(Levels())
      ensures log2minalloc == Log2c(minalloc) && log2maxalloc == Log2c(maxalloc)
      ensures totsize <= ts < totsize + Pow2(log2maxalloc) && Multiple(totsize, Pow2(log2maxalloc))
      ensures forall x: nat :: FreeByte(maps, log2minalloc, x) <==> x < totsize
    {
      log2minalloc, log2maxalloc := Log2c(minalloc), Log2c(maxalloc);
      var levels := Log2c(maxalloc) - Log2c(minalloc) + 1;
      var fs: seq<FreeMap> := [];
      while |fs| < levels
        invariant |fs| <= levels
        invariant forall i :: 0 <= i < |fs| ==>
                && fresh(fs[i]) && fresh(fs[i].bits) && allocated(fs[i])
                && allocated(fs[i].bits)
        invariant forall i :: 0 <= i < |fs| ==> fs[i].Valid() && fs[i].Marked() == {} && fs[i].Size() == 0
        invariant forall i, j :: 0 <= i < j < |fs| ==> fs[i] != fs[j] && fs[i].bits != fs[j].bits
      {
        var f := new FreeMap();
        fs := fs + [f];
      }
      freemaps := fs;
      totsize, spaceleft := 0, 0;
      maps := seq(levels, _ => {});
      limit, out := 0, {};
      new;
      EmptyOk(maps, log2minalloc);
      forall l: nat | l < |freemaps| ensures LevelOk(l) { UpZero(l); }
      ghost var m0 := maps;
      SetTotSize(ts, junk);
      assert forall x: nat :: !FreeByte(m0, log2minalloc, x);
    }

    // ----- one bit

    method Set(l: nat, p: nat)
      requires Sized() && l < |freemaps| && p < Up(limit, l) && p !in maps[l]
      modifies this`maps, Levels()
      ensures Sized() && maps == Mark(old(maps), l, p)
    {
      assert LevelOk(l);
      freemaps[l].SetBit(p);
      maps := Mark(maps, l, p);
      forall k: nat | k < |freemaps| ensures LevelOk(k) {
        assert old(LevelOk(k)) && (k < l ==> Apart(k, l)) && (l < k ==> Apart(l, k));
      }
    }

    method Clr(l: nat, p: nat)
      requires Sized() && l < |freemaps| && p in maps[l]
      modifies this`maps, Levels()
      ensures Sized() && maps == Clear(old(maps), l, p)
    {
      assert LevelOk(l);
      freemaps[l].ClrBit(p);
      maps := Clear(maps, l, p);
      forall k: nat | k < |freemaps| ensures LevelOk(k) {
        assert old(LevelOk(k)) && (k < l ==> Apart(k, l)) && (l < k ==> Apart(l, k));
      }
    }

    method Get(l: nat, p: nat) returns (b: bool)
      requires Sized() && l < |freemaps| && p < Up(limit, l)
      ensures b <==> p in maps[l]
    {
      assert LevelOk(l);
      b := freemaps[l].GetBit(p);
    }

    method Find(l: nat) returns (r: Option<nat>)
      requires Sized() && l < |freemaps|
      modifies Levels()
      ensures Sized()
      ensures r.None? <==> maps[l] == {}
      ensures r.Some? ==> r.value in maps[l]
    {
      assert LevelOk(l);
      r := freemaps[l].FindBit();
      forall k: nat | k < |freemaps| ensures LevelOk(k) {
        assert old(LevelOk(k)) && (k < l ==> Apart(k, l)) && (l < k ==> Apart(l, k));
      }
    }

    // ----- allocation

    /** The level, in minimum units, of a request of n bytes. */
    function LevelOf(n: nat): nat
      requires n > 0
    {
      if Log2c(n) < log2minalloc then 0 else Log2c(n) - log2minalloc
    }

    /** Bytes in a block of level l. */
    function Bytes(l: nat): nat { Pow2(log2minalloc + l) }

    /** Offset of block p of level l. */
    function Offset(l: nat, p: nat): nat { Shl(p, log2minalloc + l) }

    /** The first level at or above l with a marked block, and one such block. */
    method Search(l: nat) returns (r: Option<nat>, pos: nat)
      requires Sized() && l < |freemaps|
      modifies Levels()
      ensures Sized()
      ensures r.None? ==> forall k :: l <= k < |freemaps| ==> maps[k] == {}
      ensures r.Some? ==> l <= r.value < |freemaps| && pos in maps[r.value]
      ensures r.Some? ==> forall k :: l <= k < r.value ==> maps[k] == {}
    {
      var k := l;
      var found := Find(k);
      while found.None?
        invariant l <= k < |freemaps| && Sized()
        invariant forall j :: l <= j < k ==> maps[j] == {}
        invariant found.None? <==> maps[k] == {}
        invariant found.Some? ==> found.value in maps[k]
        decreases |freemaps| - k, found.None?
      {
        k := k + 1;
        if k == |freemaps| {
          return None, 0;
        }
        found := Find(k);
      }
      return Some(k), found.value;
    }

    /** Split block p of level k, just taken, down to level l; the lower part stays taken. */
    method Split(ghost m0: Maps, l: nat, k: nat, p: nat) returns (pos: nat)
      requires Sized() && l <= k < |freemaps| && p < Up(limit, k)
      requires Good(maps, limit) && Taken(m0, maps, k, p)
      modifies this`maps, Levels()
      ensures Sized() && pos < Up(limit, l)
      ensures Good(maps, limit) && Taken(m0, maps, l, pos) && pos == Shl(p, k - l)
    {
      var j := k;
      pos := p;
      while j > l
        invariant l <= j <= k && Sized() && pos < Up(limit, j)
        invariant Good(maps, limit) && Taken(m0, maps, j, pos) && pos == Shl(p, k - j)
      {
        SplitStep(m0, maps, limit, j, pos);
        j := j - 1;
        pos := 2 * pos;
        Set(j, pos + 1);
      }
    }

    /** Free block p of level l, joining it with its buddy as long as the buddy is free. */
    method Join(l: nat, p: nat)
      requires Sized() && l < |freemaps| && p < Up(limit, l)
      requires Good(maps, limit) && BlockTaken(maps, l, p)
      modifies this`maps, Levels()
      ensures Sized()
      ensures Good(maps, limit) && Given(old(maps), maps, l, p)
    {
      ghost var m0 := maps;
      var j: nat, pos: nat := l, p;
      while j < |freemaps| - 1
        invariant l <= j < |freemaps| && Sized() && pos < Up(limit, j)
        invariant Good(maps, limit) && BlockTaken(maps, j, pos)
        invariant forall u :: IsFree(maps, u) || In(u, j, pos) <==> IsFree(m0, u) || In(u, l, p)
      {
        assert Up(limit, j) % 2 == 0;
        var b := Get(j, Buddy(pos));
        if !b {
          break;
        }
        JoinStep(maps, limit, j, pos);
        Clr(j, Buddy(pos));
        j, pos := j + 1, pos / 2;
      }
      TakenNotMarked(maps, j, pos);
      assert Up(pos, 0) == pos;
      MarkKeeps(maps, limit, j, pos);
      MarkUnits(maps, j, pos);
      Set(j, pos);
    }

    /** Take a free block of level l out of the maps, if there is one. */
    method Take(l: nat) returns (r: Option<nat>)
      requires Sized() && Good(maps, limit) && l < |freemaps|
      modifies this`maps, Levels()
      ensures Sized() && Good(maps, limit)
      ensures r.None? <==> !SomeFree(old(maps), l)
      ensures r.None? ==> maps == old(maps)
      ensures r.Some? ==> r.value < Up(limit, l) && Taken(old(maps), maps, l, r.value)
      ensures r.Some? ==> BestFit(old(maps), l, r.value)
    {
      ghost var m0 := maps;
      var found, pos := Search(l);
      if found.None? {
        NothingFree(maps, limit, l);
        return None;
      }
      ClearUnits(maps, found.value, pos);
      ClearKeeps(maps, limit, found.value, pos);
      Clr(found.value, pos);
      ghost var q := pos;
      pos := Split(m0, l, found.value, pos);
      assert FirstOf(m0, l, pos, found.value, q);
      return Some(pos);
    }

    /** Hand out a block of level l, if one is wholly free. */
    method AllocLevel(l: nat) returns (r: Option<nat>)
      requires Valid() && l < |freemaps|
      modifies this`maps, this`spaceleft, this`out, Levels()
      ensures Valid()
      ensures r.None? <==> !SomeFree(old(maps), l)
      ensures r.None? ==> maps == old(maps) && spaceleft == old(spaceleft) && out == old(out)
      ensures r.Some? ==> r.value < Up(limit, l) && Taken(old(maps), maps, l, r.value)
      ensures r.Some? ==> BestFit(old(maps), l, r.value)
      ensures r.Some? ==> Held(l, r.value) !in old(out) && out == old(out) + {Held(l, r.value)}
      ensures r.Some? ==> spaceleft == old(spaceleft) - Bytes(l)
    {
      ghost var m0 := maps;
      r := Take(l);
      if r.Some? {
        TakeAccounts(m0, maps, limit, out, log2minalloc, l, r.value);
        spaceleft := spaceleft - Bytes(l);
        out := out + {Held(l, r.value)};
      }
    }

    /** The block at this offset has been handed out: it is block p of level l. */
    ghost predicate HandedOut(m0: Maps, out0: set<Held>, off: nat, l: nat, p: nat)
      reads this`maps, this`out, this`totsize
    {
      && Multiple(off, Bytes(l)) && off + Bytes(l) <= totsize
      && BytesTaken(m0, maps, log2minalloc, off, off + Bytes(l))
      && off == Offset(l, p) && BestFit(m0, l, p) && Held(l, p) !in out0 && out == out0 + {Held(l, p)}
    }

    /** The same in bytes. */
    method AllocBytes(l: nat) returns (r: Option<nat>, ghost p: nat)
      requires Valid() && l < |freemaps|
      modifies this`maps, this`spaceleft, this`out, Levels()
      ensures Valid()
      ensures r.None? <==> !Room(old(maps), log2minalloc, Bytes(l))
      ensures r.None? ==> maps == old(maps) && spaceleft == old(spaceleft) && out == old(out)
      ensures r.Some? ==> HandedOut(old(maps), old(out), r.value, l, p) && spaceleft == old(spaceleft) - Bytes(l)
    {
      RoomIs(maps, log2minalloc, l);
      p := 0;
      var pos := AllocLevel(l);
      if pos.None? {
        return None, p;
      }
      p := pos.value;
      TakenAt(old(maps), maps, limit, log2minalloc, l, p);
      return Some(Offset(l, pos.value)), p;
    }

    /** Rounding up a request gives the least block that holds it. */
    lemma LevelIsLeast(n: nat)
      requires n > 0 && log2minalloc <= log2maxalloc
      ensures LeastFor(log2minalloc, n, LevelOf(n))
      ensures forall l :: LeastFor(log2minalloc, n, l) ==> l == LevelOf(n)
      ensures log2minalloc + LevelOf(n) > log2maxalloc <==> n > Pow2(log2maxalloc)
    {
      PowMono(Log2c(n), log2minalloc + LevelOf(n));
      LeastIs(log2minalloc, n, LevelOf(n));
      forall l | LeastFor(log2minalloc, n, l) ensures l == LevelOf(n) { LeastOnce(log2minalloc, n, l, LevelOf(n)); }
      if Log2c(n) <= log2maxalloc { PowMono(Log2c(n), log2maxalloc); } else { PowMono(log2maxalloc, Log2c(n) - 1); }
    }

    /** The program counts an unsigned level down to the one wanted while it splits a block.  That stops
        unless the level wanted is the logarithm 0 and a larger block has to be split, which aborts. */
    ghost predicate SplitStops(n: nat)
      requires Valid()
      reads this, Levels()
    {
      n == 1 && log2minalloc == 0 ==> maps[0] != {} || !SomeFree(maps, 0)
    }

    /** alloc.  It fails exactly when the request is empty or larger than the largest block, or when nowhere,
        at a multiple of its size, are the bytes of the least block that holds the request all free.  Otherwise
        exactly such bytes are taken, within the space: block p of level l. */
    method Alloc(n: nat) returns (r: Option<nat>, ghost l: nat, ghost p: nat)
      requires Valid() && SplitStops(n)
      modifies this`maps, this`spaceleft, this`out, Levels()
      ensures Valid() && (n > 0 ==> LeastFor(log2minalloc, n, l))
      ensures r.None? <==> n == 0 || n > Pow2(log2maxalloc) || !Room(old(maps), log2minalloc, Bytes(l))
      ensures r.None? ==> maps == old(maps) && spaceleft == old(spaceleft) && out == old(out)
      ensures r.Some? ==> HandedOut(old(maps), old(out), r.value, l, p) && spaceleft == old(spaceleft) - Bytes(l)
    {
      p, l := 0, if n == 0 then 0 else LevelOf(n);
      if n > 0 { LevelIsLeast(n); }
      if n == 0 || log2minalloc + LevelOf(n) > log2maxalloc {
        return None, l, p;
      }
      r, p := AllocBytes(LevelOf(n));
    }

    /** dealloc: free the block of len bytes at off, which is block p of its level and must not be free already. */
    method Release(off: nat, len: nat, ghost p: nat)
      requires Accounted() && len > 0 && LevelOf(len) < |freemaps|
      requires off == Offset(LevelOf(len), p) && p < Up(limit, LevelOf(len)) && BlockTaken(maps, LevelOf(len), p)
      modifies this`maps, this`spaceleft, Levels()
      ensures Accounted()
      ensures Given(old(maps), maps, LevelOf(len), p)
      ensures forall l :: LeastFor(log2minalloc, len, l) ==>
              && spaceleft == old(spaceleft) + Bytes(l)
              && BytesGiven(old(maps), maps, log2minalloc, off, off + Bytes(l))
    {
      LevelIsLeast(len);
      ghost var m0 := maps;
      ReleaseLevel(off, LevelOf(len), p);
      GivenBytes(m0, maps, log2minalloc, LevelOf(len), p);
    }

    method ReleaseLevel(off: nat, l: nat, ghost p: nat)
      requires Accounted() && l < |freemaps| && off == Offset(l, p) && p < Up(limit, l) && BlockTaken(maps, l, p)
      modifies this`maps, this`spaceleft, Levels()
      ensures Accounted()
      ensures Given(old(maps), maps, l, p) && spaceleft == old(spaceleft) + Bytes(l)
    {
      var sn := log2minalloc + l;
      var pos := Up(off, sn);
      UpShl(p, sn, sn);
      assert off == Shl(pos, sn);    // asserted by the program
      spaceleft := spaceleft + Pow2(sn);
      ghost var m0 := maps;
      Join(l, pos);
      GiveAccounts(m0, maps, limit, log2minalloc, l, p);
    }

    /** dealloc of a block that was handed out. */
    method Dealloc(off: nat, len: nat, ghost p: nat)
      requires Valid() && len > 0
      requires forall l :: LeastFor(log2minalloc, len, l) ==> off == Offset(l, p) && Held(l, p) in out
      modifies this`maps, this`spaceleft, this`out, Levels()
      ensures Valid()
      ensures forall l :: LeastFor(log2minalloc, len, l) ==>
              && out == old(out) - {Held(l, p)} && spaceleft == old(spaceleft) + Bytes(l)
              && BytesGiven(old(maps), maps, log2minalloc, off, off + Bytes(l))
    {
      LevelIsLeast(len);
      ghost var b := Held(LevelOf(len), p);
      ghost var m0 := maps;
      assert b.level < |maps|;
      Release(off, len, p);
      PartitionGive(m0, maps, limit, out, b);
      out := out - {b};
    }

    // ----- growth

    /** One map takes its new size; the others are not touched. */
    method ResizeLevel(l: nat, o: nat, n: nat, junk: nat -> Word)
      requires Shape() && l < |freemaps| && limit <= n && LevelAt(l, limit) && o == Up(n, l)
      modifies freemaps[l], freemaps[l].bits
      ensures LevelAt(l, n)
      ensures forall k: nat, u: nat :: k < |freemaps| && k != l && old(LevelAt(k, u)) ==> LevelAt(k, u)
    {
      UpMonotone(limit, n, l);
      label before:
      freemaps[l].Init(o, junk);
      forall k: nat, u: nat | k < |freemaps| && k != l && old(LevelAt(k, u)) ensures LevelAt(k, u) {
        assert if k < l then Apart(k, l) else Apart(l, k);
      }
    }

    method ResizeLevels(n: nat, junk: nat -> Word)
      requires Sized() && n >= limit
      modifies Levels()
      ensures forall k: nat :: k < |freemaps| ==> LevelAt(k, n)
    {
      var o := n;
      var l := 0;
      forall k: nat | k < |freemaps| ensures LevelAt(k, limit) {
        assert LevelOk(k);
      }
      while l < |freemaps|
        invariant l <= |freemaps| && o == Up(n, l)
        invariant forall k: nat :: k < l ==> LevelAt(k, n)
        invariant forall k: nat :: l <= k < |freemaps| ==> LevelAt(k, limit)
      {
        ResizeLevel(l, o, n, junk);
        o := o / 2;
        l := l + 1;
      }
    }

    /** Resize every map for n units; the bits stay as they are. */
    method Resize(n: nat, junk: nat -> Word)
      requires Sized() && n >= limit && Aligned(n, |freemaps| - 1)
      modifies this`limit, Levels()
      ensures Sized() && limit == n
    {
      ResizeLevels(n, junk);
      limit := n;
      forall k: nat | k < |freemaps| ensures LevelOk(k) {
        assert LevelAt(k, n);
      }
    }

    /** settotsize: everything beyond the old size becomes free; sizes count in whole largest blocks. */
    method SetTotSize(ts: nat, junk: nat -> Word)
      requires Valid() && ts >= totsize
      modifies this, Levels()
      ensures Valid() && out == old(out)
      ensures totsize <= ts < totsize + Pow2(log2maxalloc) && Multiple(totsize, Pow2(log2maxalloc))
      ensures BytesAdded(old(maps), maps, log2minalloc, old(totsize), totsize)
    {
      var top := log2maxalloc - log2minalloc;
      var t := Up(ts, log2maxalloc);
      var n := Shl(t, top);
      MultipleAligned(t, top);
      ShlShl(t, top, log2minalloc);
      Enough(ts, limit, log2minalloc, top);
      ghost var m0, n0 := maps, limit;
      CountGrows(maps, limit, n);
      Resize(n, junk);
      FreeTail(m0, n0, t, totsize);
      totsize := Shl(t, log2maxalloc);
      PartitionGrow(m0, maps, n0, n, out);
      Truncated(ts, log2maxalloc);
      AddedBytes(m0, maps, log2minalloc, n0, n);
    }

    /** Free the largest blocks from byte o to the end, one after another. */
    method FreeTail(ghost m0: Maps, ghost n0: nat, t: nat, from: nat)
      requires Accounted() && maps == m0 && limit == Shl(t, |freemaps| - 1) && n0 <= limit
      requires Good(m0, n0) && Aligned(n0, |freemaps| - 1) && from == Shl(n0, log2minalloc)
      modifies this`maps, this`spaceleft, Levels()
      ensures Accounted()
      ensures Added(m0, maps, n0, limit)
    {
      ghost var top := |freemaps| - 1;
      var o := from;
      ghost var i := Up(n0, top);
      AlignedBack(n0, top);
      ShlShl(i, top, log2minalloc);
      if i > t { ShlStrict(t, i, top); }
      while o < Shl(t, log2maxalloc)
        invariant Accounted() && i <= t && n0 <= Shl(i, top) && o == Shl(i, log2maxalloc)
        invariant Added(m0, maps, n0, Shl(i, top))
        decreases t - i
      {
        o := FreeTop(m0, n0, t, o, i);
        i := i + 1;
      }
      if i < t { ShlStrict(i, t, log2maxalloc); }
    }

    method FreeTop(ghost m0: Maps, ghost n0: nat, ghost t: nat, o: nat, ghost i: nat) returns (next: nat)
      requires Accounted() && limit == Shl(t, |freemaps| - 1) && i < t && InRange(m0, n0)
      requires n0 <= Shl(i, |freemaps| - 1) && o == Shl(i, log2maxalloc)
      requires Added(m0, maps, n0, Shl(i, |freemaps| - 1))
      modifies this`maps, this`spaceleft, Levels()
      ensures Accounted() && next == Shl(i + 1, log2maxalloc) && n0 <= Shl(i + 1, |freemaps| - 1)
      ensures Added(m0, maps, n0, Shl(i + 1, |freemaps| - 1))
    {
      ghost var top := |freemaps| - 1;
      TopTaken(m0, maps, n0, top, i);
      LogOfPow(log2maxalloc);
      UpShl(t, top, top);
      ShlStrict(i, i + 1, top);
      assert LevelOf(Pow2(log2maxalloc)) == top;
      Release(o, Pow2(log2maxalloc), i);
      ShlAdd(i, 1, log2maxalloc);
      next := o + Pow2(log2maxalloc);
    }
  }

  /** Block p of level l is the first part of block q of level k. */
  ghost predicate FirstOf(m: Maps, l: nat, p: nat, k: nat, q: nat) {
    l <= k < |m| && q in m[k] && p == Shl(q, k - l) && forall j :: l <= j < k ==> m[j] == {}
  }

  /** The block is the first part of a marked block of the lowest level that has one. */
  ghost predicate BestFit(m: Maps, l: nat, p: nat) { exists k, q :: FirstOf(m, l, p, k, q) }

  lemma {:induction false} UpZero(l: nat)
    ensures Up(0, l) == 0
  {
    if l > 0 { UpZero(l - 1); }
  }

  /** Maps with nothing marked describe an empty space. */
  lemma EmptyOk(m: Maps, low: nat)
    requires forall l :: 0 <= l < |m| ==> m[l] == {}
    ensures Good(m, 0) && Shl(Count(m, 0), low) == 0 && Shl(0, low) == 0 && Partition(m, 0, {})
    ensures Aligned(0, |m| - 1) && forall u: nat :: !IsFree(m, u)
  {
    assert FreeSet(m, 0) == {};
    ShlAdd(0, 0, low);
    forall l: nat ensures Up(0, l) == 0 { UpZero(l); }
    forall u: nat ensures !IsFree(m, u) {
      forall l: nat ensures !Covers(m, l, u) { }
    }
  }

  /** If no level from l up has a marked block, no block of level l is wholly free. */
  lemma NothingFree(m: Maps, n: nat, l: nat)
    requires Good(m, n) && l < |m| && forall k :: l <= k < |m| ==> m[k] == {}
    ensures !SomeFree(m, l)
  {
    forall q: nat ensures !BlockFree(m, l, q) {
      if BlockFree(m, l, q) {
        var k := FreeIsMarked(m, n, l, q);
      }
    }
  }

  lemma GiveAccounts(m0: Maps, m: Maps, n: nat, low: nat, l: nat, p: nat)
    requires p < Up(n, l) && Given(m0, m, l, p)
    ensures Shl(Count(m0, n), low) + Pow2(low + l) == Shl(Count(m, n), low)
  {
    CountMore(m0, m, n, l, p);
    ShlShl(1, l, low);
    ShlAdd(Count(m0, n), Pow2(l), low);
  }

  lemma TakeAccounts(m0: Maps, m: Maps, n: nat, out: set<Held>, low: nat, l: nat, p: nat)
    requires Partition(m0, n, out) && |m| == |m0| && l < |m| && p < Up(n, l) && Taken(m0, m, l, p)
    ensures Partition(m, n, out + {Held(l, p)}) && Held(l, p) !in out
    ensures Shl(Count(m0, n), low) - Pow2(low + l) == Shl(Count(m, n), low)
  {
    PartitionTake(m0, m, n, out, Held(l, p));
    assert Given(m, m0, l, p);
    GiveAccounts(m, m0, n, low, l, p);
  }

  /** A larger size in bytes is no smaller one in whole largest blocks. */
  lemma Enough(ts: nat, n: nat, low: nat, top: nat)
    requires Aligned(n, top) && ts >= Shl(n, low)
    ensures Shl(Up(ts, low + top), top) >= n
  {
    var i := Up(n, top);
    AlignedBack(n, top);
    ShlShl(i, top, low);
    UpMonotone(Shl(i, low + top), ts, low + top);
    UpShl(i, low + top, low + top);
    ShlMonotone(i, Up(ts, low + top), top);
  }

  /** Where the bytes of a block that was taken are. */
  lemma TakenAt(m0: Maps, m: Maps, n: nat, low: nat, l: nat, p: nat)
    requires p < Up(n, l) && Taken(m0, m, l, p)
    ensures var off := Shl(p, low + l); var end := off + Pow2(low + l);
            Multiple(off, Pow2(low + l)) && end <= Shl(n, low) && BytesTaken(m0, m, low, off, end)
  {
    TakeFits(n, low, l, p);
    TakenBytes(m0, m, low, l, p);
    MultipleOf(p, low + l);
  }

  /** A block in range ends within the space. */
  lemma TakeFits(n: nat, low: nat, l: nat, p: nat)
    requires p < Up(n, l)
    ensures Shl(p, low + l) + Pow2(low + l) <= Shl(n, low)
  {
    ShlAdd(p, 1, low + l);
    ShlShl(p + 1, l, low);
    ShlMonotone(p + 1, Up(n, l), l);
    ShlUp(n, l);
    ShlMonotone(Shl(p + 1, l), n, low);
  }
}
