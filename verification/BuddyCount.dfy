/** Counting free and allocated units of a buddy allocator. */
module BuddyCount {
  import opened Common
  import opened BuddyMaps

  lemma {:induction false} ShlAdd(x: nat, y: nat, k: nat)
    ensures Shl(x + y, k) == Shl(x, k) + Shl(y, k)
  {
    if k > 0 { ShlAdd(x, y, k - 1); }
  }

  lemma {:induction false} ShlShl(x: nat, a: nat, b: nat)
    ensures Shl(Shl(x, a), b) == Shl(x, a + b)
  {
    if b > 0 { ShlShl(x, a, b - 1); }
  }

  /** Doubling before or after shifting is the same. */
  lemma {:induction false} ShlDouble(x: nat, k: nat)
    ensures Shl(2 * x, k) == 2 * Shl(x, k)
  {
    ShlAdd(x, x, k);
  }

  lemma ShlMonotone(x: nat, y: nat, k: nat)
    requires x <= y
    ensures Shl(x, k) <= Shl(y, k)
  {
    ShlAdd(x, y - x, k);
  }

  lemma ShlStrict(x: nat, y: nat, k: nat)
    requires x < y
    ensures Shl(x, k) < Shl(y, k)
  {
    ShlAdd(x, y - x, k);
  }

  /** Shifting right undoes shifting left. */
  lemma {:induction false} UpShl(x: nat, k: nat, l: nat)
    requires l <= k
    ensures Up(Shl(x, k), l) == Shl(x, k - l)
  {
    if l > 0 {
      UpShl(x, k, l - 1);
    }
  }

  /** Shifting right and back loses what was shifted out. */
  lemma {:induction false} ShlUp(n: nat, l: nat)
    ensures Shl(Up(n, l), l) <= n
  {
    if l > 0 {
      ShlUp(n, l - 1);
      ShlDouble(Up(n, l), l - 1);
      ShlMonotone(2 * Up(n, l), Up(n, l - 1), l - 1);
    }
  }

  /** The units of a block; there are 2^l of them. */
  ghost function Block(l: nat, p: nat): (r: set<nat>)
    ensures forall u :: u in r <==> In(u, l, p)
    ensures |r| == Pow2(l)
  {
    if l == 0 then {p}
    else
      Halves(l, p);
      var a, b := Block(l - 1, 2 * p), Block(l - 1, 2 * p + 1);
      assert a !! b;
      a + b
  }

  ghost function FreeSet(m: Maps, n: nat): set<nat> { set u: nat | u < n && IsFree(m, u) }

  /** How many units are free. */
  ghost function Count(m: Maps, n: nat): nat { |FreeSet(m, n)| }

  lemma InBelow(n: nat, l: nat, p: nat, u: nat)
    requires p < Up(n, l) && In(u, l, p)
    ensures u < n
  {
    if u >= n { UpMonotone(n, u, l); }
  }

  /** Freeing a block adds its units, taking one away removes them. */
  lemma CountMore(m: Maps, m': Maps, n: nat, l: nat, p: nat)
    requires p < Up(n, l) && BlockTaken(m, l, p)
    requires forall u :: IsFree(m', u) <==> IsFree(m, u) || In(u, l, p)
    ensures Count(m', n) == Count(m, n) + Pow2(l)
  {
    forall u: nat | In(u, l, p) ensures u < n { InBelow(n, l, p, u); }
    assert FreeSet(m', n) == FreeSet(m, n) + Block(l, p);
    assert FreeSet(m, n) !! Block(l, p);
  }

  /** Units in marked blocks of the first k levels: the weighted sum of the level counts. */
  function Weight(m: seq<set<nat>>, k: nat): nat
    requires k <= |m|
  {
    if k == 0 then 0 else Weight(m, k - 1) + Shl(|m[k - 1]|, k - 1)
  }

  lemma {:induction false} WeightClear(m: Maps, k: nat, l: nat, p: nat)
    requires k <= |m| && l < |m| && p in m[l]
    ensures Weight(m, k) == Weight(Clear(m, l, p), k) + if l < k then Pow2(l) else 0
  {
    if k > 0 {
      WeightClear(m, k - 1, l, p);
      if l == k - 1 {
        assert |m[l]| == |m[l] - {p}| + 1;
        ShlAdd(|m[l] - {p}|, 1, l);
      }
    }
  }

  lemma {:induction false} WeightEmpty(m: Maps, k: nat)
    requires k <= |m| && forall l :: 0 <= l < |m| ==> m[l] == {}
    ensures Weight(m, k) == 0
  {
    if k > 0 { WeightEmpty(m, k - 1); ShlAdd(0, 0, k - 1); }
  }

  /** The number of free units is the weighted sum of the level counts. */
  lemma {:induction false} WeightIsCount(m: Maps, n: nat)
    requires Good(m, n)
    ensures Count(m, n) == Weight(m, |m|)
    decreases Weight(m, |m|)
  {
    if forall l :: 0 <= l < |m| ==> m[l] == {} {
      WeightEmpty(m, |m|);
      assert FreeSet(m, n) == {} by {
        forall u ensures !IsFree(m, u) {
          forall l ensures !Covers(m, l, u) { }
        }
      }
    } else {
      var l :| 0 <= l < |m| && m[l] != {};
      var p :| p in m[l];
      var m' := Clear(m, l, p);
      ClearUnits(m, l, p);
      ClearKeeps(m, n, l, p);
      WeightClear(m, |m|, l, p);
      WeightIsCount(m', n);
      CountMore(m', m, n, l, p);
    }
  }

  // ----- the limit

  lemma MultipleAligned(t: nat, top: nat)
    ensures Aligned(Shl(t, top), top)
  {
    forall l: nat | l < top ensures Up(Shl(t, top), l) % 2 == 0 {
      UpShl(t, top, l);
    }
  }

  // ----- what is outstanding

  /** Minimum units in a set of blocks. */
  ghost function Size(out: set<Held>): nat {
    if out == {} then 0 else var b :| b in out; Pow2(b.level) + Size(out - {b})
  }

  lemma {:induction false} SizeRemove(out: set<Held>, b: Held)
    requires b in out
    ensures Size(out) == Pow2(b.level) + Size(out - {b})
  {
    var c :| c in out && Size(out) == Pow2(c.level) + Size(out - {c});
    if c != b {
      SizeRemove(out - {c}, b);
      SizeRemove(out - {b}, c);
      assert out - {c} - {b} == out - {b} - {c};
    }
  }

  ghost predicate HeldBy(out: set<Held>, u: nat) { exists b :: b in out && b.Has(u) }

  /** Outstanding blocks and free units divide [0, n) among them: no unit is in two outstanding
      blocks, or in one and free, and every unit is in one or free. */
  ghost predicate Partition(m: Maps, n: nat, out: set<Held>) {
    && (forall b :: b in out ==> b.level < |m| && b.pos < Up(n, b.level) && BlockTaken(m, b.level, b.pos))
    && (forall b, c, u :: b in out && c in out && b != c && b.Has(u) ==> !c.Has(u))
    && (forall u: nat :: u < n ==> IsFree(m, u) || HeldBy(out, u))
  }

  lemma {:induction false} HeldCount(n: nat, out: set<Held>)
    requires forall b :: b in out ==> b.pos < Up(n, b.level)
    requires forall b, c, u :: b in out && c in out && b != c && b.Has(u) ==> !c.Has(u)
    ensures |set u: nat | u < n && HeldBy(out, u)| == Size(out)
  {
    var all := set u: nat | u < n && HeldBy(out, u);
    if out == {} {
      assert all == {};
    } else {
      var b :| b in out;
      HeldCount(n, out - {b});
      SizeRemove(out, b);
      var rest := set u: nat | u < n && HeldBy(out - {b}, u);
      var own := Block(b.level, b.pos);
      forall u: nat ensures u in all <==> u in rest || u in own {
        if u in own { InBelow(n, b.level, b.pos, u); assert b.Has(u); }
        if u in rest { var c :| c in out - {b} && c.Has(u); assert c in out; }
        if u in all { var c :| c in out && c.Has(u); assert c != b ==> c in out - {b}; }
      }
      assert all == rest + own;
      assert rest !! own by {
        forall u: nat | u in rest ensures u !in own {
          var c :| c in out - {b} && c.Has(u);
          assert c in out && c != b;
          assert u in own ==> b.Has(u);
        }
      }
    }
  }

  ghost function Space(n: nat): (r: set<nat>)
    ensures forall u: nat :: u in r <==> u < n
    ensures |r| == n
  {
    if n == 0 then {} else Space(n - 1) + {n - 1}
  }

  /** Free units and outstanding units add up to the whole space. */
  lemma PartitionAdds(m: Maps, n: nat, out: set<Held>)
    requires InRange(m, n) && Partition(m, n, out)
    ensures Count(m, n) + Size(out) == n
  {
    HeldCount(n, out);
    var held := set u: nat | u < n && HeldBy(out, u);
    assert FreeSet(m, n) + held == Space(n);
    assert FreeSet(m, n) !! held;
  }

  /** Allocating a free block keeps the partition. */
  lemma PartitionTake(m: Maps, m': Maps, n: nat, out: set<Held>, b: Held)
    requires Partition(m, n, out) && |m'| == |m| && b.level < |m| && b.pos < Up(n, b.level)
        && BlockFree(m, b.level, b.pos)
    requires forall u :: IsFree(m', u) <==> IsFree(m, u) && !In(u, b.level, b.pos)
    ensures Partition(m', n, out + {b}) && b !in out
  {
    var out' := out + {b};
    var f := FirstUnit(b.level, b.pos);
    assert In(f, b.level, b.pos);
    forall c, d, u | c in out' && d in out' && c != d && c.Has(u) ensures !d.Has(u) {
      assert b.Has(u) ==> IsFree(m, u);
    }
    forall u: nat | u < n ensures IsFree(m', u) || HeldBy(out', u) {
      if HeldBy(out, u) { var c :| c in out && c.Has(u); assert c in out'; }
      else if In(u, b.level, b.pos) { assert b in out' && b.Has(u); }
    }
  }

  /** Freeing an outstanding block keeps the partition. */
  lemma PartitionGive(m: Maps, m': Maps, n: nat, out: set<Held>, b: Held)
    requires Partition(m, n, out) && |m'| == |m| && b in out
    requires forall u :: IsFree(m', u) <==> IsFree(m, u) || In(u, b.level, b.pos)
    ensures Partition(m', n, out - {b})
  {
    var out' := out - {b};
    forall c | c in out' ensures BlockTaken(m', c.level, c.pos) {
      forall u | In(u, c.level, c.pos) ensures !IsFree(m', u) {
        assert c.Has(u) && BlockTaken(m, c.level, c.pos);
        assert !b.Has(u);
      }
    }
    forall u: nat | u < n ensures IsFree(m', u) || HeldBy(out', u) {
      if !IsFree(m', u) { var c :| c in out && c.Has(u); assert c in out'; }
    }
  }

  /** Ceiling of the base-2 logarithm. */
  function Log2c(n: nat): (r: nat)
    requires n > 0
    ensures n <= Pow2(r) && (r > 0 ==> Pow2(r - 1) < n)
  {
    if n == 1 then 0 else 1 + Log2c((n + 1) / 2)
  }

  /** The units of block t of level l are those from t << l up to, not including, (t + 1) << l. */
  lemma InInterval(l: nat, t: nat, u: nat)
    ensures In(u, l, t) <==> Shl(t, l) <= u < Shl(t + 1, l)
  {
    UpShl(t, l, l);
    UpShl(t + 1, l, l);
    MultipleAligned(t, l);
    MultipleAligned(t + 1, l);
    if u < Shl(t + 1, l) {
      UpInRange(Shl(t + 1, l), l, 0, u, l);
    } else {
      UpMonotone(Shl(t + 1, l), u, l);
    }
    if u < Shl(t, l) {
      UpInRange(Shl(t, l), l, 0, u, l);
    } else {
      UpMonotone(Shl(t, l), u, l);
    }
  }

  /** Growing the space adds no free unit by itself. */
  lemma CountGrows(m: Maps, n: nat, n': nat)
    requires Good(m, n) && n <= n'
    ensures Good(m, n') && Count(m, n') == Count(m, n)
  {
    forall l: nat, p: nat | l < |m| && p in m[l] ensures p < Up(n', l) {
      UpMonotone(n, n', l);
    }
    forall u: nat | IsFree(m, u) ensures u < n {
      FreeInRange(m, n, u);
    }
    assert FreeSet(m, n') == FreeSet(m, n);
  }

  lemma {:induction false} AlignedBack(n: nat, top: nat)
    requires Aligned(n, top)
    ensures Shl(Up(n, top), top) == n
  {
    if top > 0 {
      AlignedBack(n, top - 1);
      assert Up(n, top - 1) % 2 == 0;
      ShlDouble(Up(n, top), top - 1);
    }
  }

  lemma {:induction false} PowMono(a: nat, b: nat)
    requires a <= b
    ensures Pow2(a) <= Pow2(b) && (a < b ==> Pow2(a) < Pow2(b))
  {
    if a < b { PowMono(a, b - 1); }
  }

  lemma LogOfPow(k: nat)
    ensures Log2c(Pow2(k)) == k
  {
    var r := Log2c(Pow2(k));
    if r < k { PowMono(r, k); }
    if r > k { PowMono(k, r - 1); }
  }

  /** Maps m are maps m0 with the units from n0 up to n added. */
  ghost predicate Added(m0: Maps, m: Maps, n0: nat, n: nat) {
    forall u: nat :: IsFree(m, u) <==> IsFree(m0, u) || n0 <= u < n
  }

  /** Beyond what is free so far, the next largest block is not free. */
  lemma TopTaken(m0: Maps, m: Maps, n0: nat, top: nat, i: nat)
    requires InRange(m0, n0) && n0 <= Shl(i, top)
    requires Added(m0, m, n0, Shl(i, top))
    ensures BlockTaken(m, top, i)
    ensures forall u: nat :: In(u, top, i) <==> Shl(i, top) <= u < Shl(i + 1, top)
  {
    forall u: nat ensures In(u, top, i) <==> Shl(i, top) <= u < Shl(i + 1, top) {
      InInterval(top, i, u);
    }
    forall u: nat | IsFree(m0, u) ensures u < n0 {
      FreeInRange(m0, n0, u);
    }
  }

  /** Growth keeps the partition: what is added is free. */
  lemma PartitionGrow(m0: Maps, m: Maps, n0: nat, n: nat, out: set<Held>)
    requires Partition(m0, n0, out) && n0 <= n && |m| == |m0|
    requires Added(m0, m, n0, n)
    ensures Partition(m, n, out)
  {
    forall b | b in out ensures b.pos < Up(n, b.level) && BlockTaken(m, b.level, b.pos) {
      UpMonotone(n0, n, b.level);
      forall u: nat | In(u, b.level, b.pos) ensures !IsFree(m, u) {
        InBelow(n0, b.level, b.pos, u);
        assert BlockTaken(m0, b.level, b.pos);
      }
    }
  }
}
