/**
 Free maps of a binary buddy allocator, as sets: level l holds positions of marked blocks of
 2^l minimum units.  The specification is which units are free.  With no marked block inside
 another and no two marked buddies below the top level, the maps are the only ones for their
 free units, so the effect of an operation on the maps is known from its effect on the units.
 */
module BuddyMaps {

  /** The position, k levels up, of the block that contains position p. */
  function Up(p: nat, k: nat): nat {
    if k == 0 then p else Up(p, k - 1) / 2
  }

  lemma {:induction false} UpUp(p: nat, a: nat, b: nat)
    ensures Up(Up(p, a), b) == Up(p, a + b)
  {
    if b > 0 { UpUp(p, a, b - 1); }
  }

  lemma UpOne(p: nat)
    ensures Up(p, 1) == p / 2
  {
    assert Up(p, 0) == p;
  }

  lemma {:induction false} UpMonotone(p: nat, q: nat, k: nat)
    requires p <= q
    ensures Up(p, k) <= Up(q, k)
  {
    if k > 0 { UpMonotone(p, q, k - 1); }
  }

  /** The neighbour with which a block makes up its parent (pos ^ 1). */
  function Buddy(p: nat): nat { if p % 2 == 0 then p + 1 else p - 1 }

  /** Some unit of every block. */
  function FirstUnit(l: nat, p: nat): (u: nat)
    ensures Up(u, l) == p
  {
    if l == 0 then p else FirstUnit(l - 1, 2 * p)
  }

  /** Levels 0 to |m| - 1; the top level is the last. */
  type Maps = m: seq<set<nat>> | |m| > 0 witness [{}]

  ghost predicate Covers(m: Maps, l: nat, u: nat) { l < |m| && Up(u, l) in m[l] }

  /** Unit u is inside a marked block. */
  ghost predicate IsFree(m: Maps, u: nat) { exists l :: Covers(m, l, u) }

  /** Unit u belongs to block p of level l. */
  ghost predicate In(u: nat, l: nat, p: nat) { Up(u, l) == p }

  ghost predicate BlockFree(m: Maps, l: nat, p: nat) { forall u :: In(u, l, p) ==> IsFree(m, u) }

  /** Some aligned block of level l is wholly free. */
  ghost predicate SomeFree(m: Maps, l: nat) { exists p :: BlockFree(m, l, p) }

  ghost predicate BlockTaken(m: Maps, l: nat, p: nat) { forall u :: In(u, l, p) ==> !IsFree(m, u) }

  /** Marked blocks lie below the limit of n units. */
  ghost predicate InRange(m: Maps, n: nat) {
    forall l: nat, p: nat :: l < |m| && p in m[l] ==> p < Up(n, l)
  }

  /** No marked block lies inside another. */
  ghost predicate NoNesting(m: Maps) {
    forall l: nat, k: nat, p: nat :: k > 0 && l + k < |m| && p in m[l] ==> !Above(m, l, k, p)
  }

  /** The block k levels above block p of level l is marked. */
  ghost predicate Above(m: Maps, l: nat, k: nat, p: nat) { l + k < |m| && Up(p, k) in m[l + k] }

  /** Buddies are not both marked, except at the top. */
  ghost predicate Coalesced(m: Maps) {
    forall l: nat, p: nat :: l + 1 < |m| && p in m[l] ==> Buddy(p) !in m[l]
  }

  ghost predicate Good(m: Maps, n: nat) { InRange(m, n) && NoNesting(m) && Coalesced(m) }

  /** Where a unit is covered by a block above its block, and where by a block below. */
  lemma CoversAbove(m: Maps, l: nat, k: nat, p: nat, u: nat)
    requires In(u, l, p)
    ensures Covers(m, l + k, u) <==> Above(m, l, k, p)
  {
    UpUp(u, l, k);
  }

  lemma FreeInRange(m: Maps, n: nat, u: nat)
    requires InRange(m, n) && IsFree(m, u)
    ensures u < n
  {
    var l :| Covers(m, l, u);
    if u >= n { UpMonotone(n, u, l); }
  }

  // ----- marking and clearing one block

  function Mark(m: Maps, l: nat, p: nat): Maps
    requires l < |m|
  {
    m[l := m[l] + {p}]
  }

  function Clear(m: Maps, l: nat, p: nat): Maps
    requires l < |m|
  {
    m[l := m[l] - {p}]
  }

  lemma MarkUnits(m: Maps, l: nat, p: nat)
    requires l < |m|
    ensures forall u :: IsFree(Mark(m, l, p), u) <==> IsFree(m, u) || In(u, l, p)
  {
    var m' := Mark(m, l, p);
    forall u ensures IsFree(m', u) <==> IsFree(m, u) || In(u, l, p) {
      if IsFree(m', u) {
        var k :| Covers(m', k, u);
        assert Covers(m, k, u) || In(u, l, p);
      }
      if IsFree(m, u) {
        var k :| Covers(m, k, u);
        assert Covers(m', k, u);
      }
      if In(u, l, p) {
        assert Covers(m', l, u);
      }
    }
  }

  /** Nothing marked lies over a block with no free unit, or inside it. */
  lemma TakenNotMarked(m: Maps, l: nat, p: nat)
    requires l < |m| && BlockTaken(m, l, p)
    ensures forall k: nat :: !Above(m, l, k, p)
    ensures forall j: nat, q: nat :: j <= l && Up(q, l - j) == p ==> q !in m[j]
  {
    forall k: nat ensures !Above(m, l, k, p) {
      var u := FirstUnit(l, p);
      assert In(u, l, p);
      CoversAbove(m, l, k, p, u);
    }
    forall j: nat, q: nat | j <= l && Up(q, l - j) == p ensures q !in m[j] {
      var u := FirstUnit(j, q);
      UpUp(u, j, l - j);
      assert In(u, l, p) && !Covers(m, j, u);
    }
  }

  lemma MarkNoNesting(m: Maps, l: nat, p: nat)
    requires NoNesting(m) && l < |m| && BlockTaken(m, l, p)
    ensures NoNesting(Mark(m, l, p))
  {
    TakenNotMarked(m, l, p);
    var m' := Mark(m, l, p);
    forall j: nat, k: nat, q: nat | k > 0 && j + k < |m'| && q in m'[j] ensures !Above(m', j, k, q) {
      if q in m[j] {
        assert !Above(m, j, k, q);
        assert j + k == l ==> k == l - j;
      } else {
        assert !Above(m, l, k, p);
      }
    }
  }

  lemma MarkKeeps(m: Maps, n: nat, l: nat, p: nat)
    requires Good(m, n) && l < |m| && p < Up(n, l) && BlockTaken(m, l, p)
    requires l + 1 < |m| ==> Buddy(p) !in m[l]
    ensures Good(Mark(m, l, p), n)
  {
    MarkNoNesting(m, l, p);
    MarkCoalesced(m, l, p);
  }

  lemma MarkCoalesced(m: Maps, l: nat, p: nat)
    requires Coalesced(m) && l < |m| && (l + 1 < |m| ==> Buddy(p) !in m[l])
    ensures Coalesced(Mark(m, l, p))
  {
    var m' := Mark(m, l, p);
    forall j: nat, q: nat | j + 1 < |m'| && q in m'[j] ensures Buddy(q) !in m'[j] {
      if j == l && q != p {
        BuddyBack(q);
        assert q in m[l];
      }
    }
  }

  lemma BuddyBack(p: nat)
    ensures Buddy(Buddy(p)) == p && Buddy(p) != p
  {
  }

  /** A unit of a marked block is covered by that block only. */
  lemma CoveredOnce(m: Maps, l: nat, k: nat, u: nat)
    requires NoNesting(m) && Covers(m, l, u) && Covers(m, k, u)
    ensures l == k
  {
    if l < k {
      CoversAbove(m, l, k - l, Up(u, l), u);
    } else if k < l {
      CoversAbove(m, k, l - k, Up(u, k), u);
    }
  }

  lemma ClearUnits(m: Maps, l: nat, p: nat)
    requires NoNesting(m) && l < |m| && p in m[l]
    ensures BlockFree(m, l, p)
    ensures forall u :: IsFree(Clear(m, l, p), u) <==> IsFree(m, u) && !In(u, l, p)
  {
    var m' := Clear(m, l, p);
    forall u ensures IsFree(m', u) <==> IsFree(m, u) && !In(u, l, p) {
      if IsFree(m', u) {
        var k :| Covers(m', k, u);
        assert Covers(m, k, u);
        if In(u, l, p) {
          CoveredOnce(m, l, k, u);
        }
      }
      if IsFree(m, u) && !In(u, l, p) {
        var k :| Covers(m, k, u);
        assert Covers(m', k, u);
      }
    }
    forall u | In(u, l, p) ensures IsFree(m, u) {
      assert Covers(m, l, u);
    }
  }

  lemma ClearKeeps(m: Maps, n: nat, l: nat, p: nat)
    requires Good(m, n) && l < |m| && p in m[l]
    ensures Good(Clear(m, l, p), n)
  {
    var m' := Clear(m, l, p);
    forall j: nat, k: nat, q: nat | k > 0 && j + k < |m'| && q in m'[j] ensures !Above(m', j, k, q) {
      assert !Above(m, j, k, q);
    }
  }

  // ----- blocks and their halves

  lemma Halves(l: nat, p: nat)
    requires l > 0
    ensures forall u :: In(u, l, p) <==> In(u, l - 1, 2 * p) || In(u, l - 1, 2 * p + 1)
  {
  }

  lemma BuddyHalves(l: nat, p: nat)
    ensures forall u :: In(u, l + 1, p / 2) <==> In(u, l, p) || In(u, l, Buddy(p))
  {
    Halves(l + 1, p / 2);
  }

  // ----- splitting and joining

  /** Maps m are maps m0 with the units of one block, free in m0, taken away. */
  ghost predicate Taken(m0: Maps, m: Maps, l: nat, p: nat) {
    BlockFree(m0, l, p) && forall u :: IsFree(m, u) <==> IsFree(m0, u) && !In(u, l, p)
  }

  /** Maps m are maps m0 with the units of one block, not free in m0, added. */
  ghost predicate Given(m0: Maps, m: Maps, l: nat, p: nat) {
    BlockTaken(m0, l, p) && forall u :: IsFree(m, u) <==> IsFree(m0, u) || In(u, l, p)
  }

  /** Freeing the upper half of a block that was taken leaves its lower half taken. */
  lemma SplitStep(m0: Maps, m: Maps, n: nat, l: nat, p: nat)
    requires Good(m, n) && 0 < l < |m| && p < Up(n, l) && Taken(m0, m, l, p)
    ensures 2 * p + 1 < Up(n, l - 1) && 2 * p + 1 !in m[l - 1]
    ensures Good(Mark(m, l - 1, 2 * p + 1), n) && Taken(m0, Mark(m, l - 1, 2 * p + 1), l - 1, 2 * p)
  {
    Halves(l, p);
    assert BlockTaken(m, l - 1, 2 * p + 1) && BlockTaken(m, l - 1, 2 * p);
    TakenNotMarked(m, l - 1, 2 * p);
    TakenNotMarked(m, l - 1, 2 * p + 1);
    assert Up(2 * p, 0) == 2 * p && Up(2 * p + 1, 0) == 2 * p + 1;
    MarkKeeps(m, n, l - 1, 2 * p + 1);
    MarkUnits(m, l - 1, 2 * p + 1);
  }

  /** Clearing the marked buddy of a block being freed leaves their parent to be freed. */
  lemma JoinStep(m: Maps, n: nat, l: nat, p: nat)
    requires Good(m, n) && l + 1 < |m| && p < Up(n, l) && BlockTaken(m, l, p) && Buddy(p) in m[l]
    ensures var m' := Clear(m, l, Buddy(p));
            && Good(m', n) && p / 2 < Up(n, l + 1) && BlockTaken(m', l + 1, p / 2)
            && forall u :: IsFree(m', u) || In(u, l + 1, p / 2) <==> IsFree(m, u) || In(u, l, p)
  {
    ClearUnits(m, l, Buddy(p));
    ClearKeeps(m, n, l, Buddy(p));
    BuddyHalves(l, p);
  }

  // ----- the maps are determined by the free units

  /** A wholly free block has a marked block over it. */
  lemma {:induction false} FreeIsMarked(m: Maps, n: nat, l: nat, p: nat) returns (k: nat)
    requires Good(m, n) && l < |m| && BlockFree(m, l, p)
    ensures Above(m, l, k, p)
  {
    if l == 0 {
      assert In(p, 0, p);
      k :| Covers(m, k, p);
    } else {
      Halves(l, p);
      var a := FreeIsMarked(m, n, l - 1, 2 * p);
      var b := FreeIsMarked(m, n, l - 1, 2 * p + 1);
      UpOne(2 * p);
      UpOne(2 * p + 1);
      assert Buddy(2 * p) == 2 * p + 1;
      if a > 0 {
        UpUp(2 * p, 1, a - 1);
        k := a - 1;
      } else if b > 0 {
        UpUp(2 * p + 1, 1, b - 1);
        k := b - 1;
      } else {
        assert false;
      }
    }
  }

  /** Everything under a marked block is free. */
  lemma MarkedIsFree(m: Maps, l: nat, k: nat, p: nat)
    requires Above(m, l, k, p)
    ensures BlockFree(m, l, p)
  {
    forall u | In(u, l, p) ensures IsFree(m, u) {
      CoversAbove(m, l, k, p, u);
    }
  }

  /** A block is marked exactly when it is a largest wholly free block. */
  lemma MarkedIsMaximal(m: Maps, n: nat, l: nat, p: nat)
    requires Good(m, n) && l < |m|
    ensures p in m[l] <==> BlockFree(m, l, p) && (l + 1 < |m| ==> !BlockFree(m, l + 1, p / 2))
  {
    UpOne(p);
    if p in m[l] {
      assert Up(p, 0) == p && Above(m, l, 0, p);
      MarkedIsFree(m, l, 0, p);
      if l + 1 < |m| && BlockFree(m, l + 1, p / 2) {
        var k := FreeIsMarked(m, n, l + 1, p / 2);
        UpUp(p, 1, k);
        assert Above(m, l, 1 + k, p);
      }
    } else if BlockFree(m, l, p) {
      var k := FreeIsMarked(m, n, l, p);
      assert Up(p, 0) == p && k > 0;
      UpUp(p, 1, k - 1);
      MarkedIsFree(m, l + 1, k - 1, p / 2);
    }
  }

  ghost predicate SameUnits(m: Maps, m': Maps) { forall u :: IsFree(m, u) <==> IsFree(m', u) }

  /** Maximal coalescing is canonical: two good families of maps with the same free units are equal. */
  lemma Canonical(m: Maps, m': Maps, n: nat)
    requires Good(m, n) && Good(m', n) && |m| == |m'| && SameUnits(m, m')
    ensures m == m'
  {
    forall l | 0 <= l < |m| ensures m[l] == m'[l] {
      forall p: nat ensures p in m[l] <==> p in m'[l] {
        MarkedIsMaximal(m, n, l, p);
        MarkedIsMaximal(m', n, l, p);
        assert BlockFree(m, l, p) <==> BlockFree(m', l, p);
        assert BlockFree(m, l + 1, p / 2) <==> BlockFree(m', l + 1, p / 2);
      }
    }
  }

  // ----- consequences for whole sequences of operations

  /** Freeing a block right after allocating it restores every map. */
  lemma GiveUndoesTake(m: Maps, m1: Maps, m2: Maps, n: nat, l: nat, p: nat)
    requires Good(m, n) && Good(m2, n) && |m| == |m2|
    requires Taken(m, m1, l, p) && Given(m1, m2, l, p)
    ensures m2 == m
  {
    assert SameUnits(m, m2);
    Canonical(m, m2, n);
  }

  /** A block: its level and position. */
  datatype Held = Held(level: nat, pos: nat) {
    ghost predicate Has(u: nat) { In(u, level, pos) }
  }

  /** ms are the maps before, between and after freeing the blocks bs one by one. */
  ghost predicate Freeing(ms: seq<Maps>, bs: seq<Held>, n: nat) {
    && |ms| == |bs| + 1
    && (forall i :: 0 <= i < |ms| ==> Good(ms[i], n) && |ms[i]| == |ms[0]|)
    && (forall i :: 0 <= i < |bs| ==> Given(ms[i], ms[i + 1], bs[i].level, bs[i].pos))
  }

  ghost predicate InSome(bs: seq<Held>, u: nat) { exists i :: 0 <= i < |bs| && In(u, bs[i].level, bs[i].pos) }

  lemma {:induction false} FreeingUnits(ms: seq<Maps>, bs: seq<Held>, n: nat, k: nat)
    requires Freeing(ms, bs, n) && k <= |bs|
    ensures forall u :: IsFree(ms[k], u) <==> IsFree(ms[0], u) || InSome(bs[..k], u)
  {
    if k > 0 {
      FreeingUnits(ms, bs, n, k - 1);
      var b := bs[k - 1];
      assert Given(ms[k - 1], ms[k], b.level, b.pos);
      forall u ensures InSome(bs[..k], u) <==> InSome(bs[..k - 1], u) || In(u, b.level, b.pos) {
        if InSome(bs[..k - 1], u) {
          var i :| 0 <= i < k - 1 && In(u, bs[..k - 1][i].level, bs[..k - 1][i].pos);
          assert bs[..k][i] == bs[..k - 1][i];
        }
        if In(u, b.level, b.pos) { assert bs[..k][k - 1] == b; }
        if InSome(bs[..k], u) {
          var i :| 0 <= i < k && In(u, bs[..k][i].level, bs[..k][i].pos);
          assert i < k - 1 ==> bs[..k - 1][i] == bs[..k][i];
        }
      }
    }
  }

  /** A set of blocks can be freed in any order, with the same maps as the result. */
  lemma AnyOrder(ms: seq<Maps>, bs: seq<Held>, ms': seq<Maps>, bs': seq<Held>, n: nat)
    requires Freeing(ms, bs, n) && Freeing(ms', bs', n) && ms[0] == ms'[0]
    requires forall b :: b in bs <==> b in bs'
    ensures ms[|bs|] == ms'[|bs'|]
  {
    FreeingUnits(ms, bs, n, |bs|);
    FreeingUnits(ms', bs', n, |bs'|);
    assert bs[..|bs|] == bs && bs'[..|bs'|] == bs';
    forall u ensures InSome(bs, u) <==> InSome(bs', u) {
      if InSome(bs, u) {
        var i :| 0 <= i < |bs| && In(u, bs[i].level, bs[i].pos);
        assert bs[i] in bs';
      }
      if InSome(bs', u) {
        var i :| 0 <= i < |bs'| && In(u, bs'[i].level, bs'[i].pos);
        assert bs'[i] in bs;
      }
    }
    Canonical(ms[|bs|], ms'[|bs'|], n);
  }

  // ----- the allocator's own consistency check

  /** _check_pos, true if it neither panics nor fails its assertion. */
  predicate CheckPos(m: Maps, l: nat, p: nat, within: bool)
    requires l < |m|
  {
    var marked := p in m[l];
    && !(marked && within)
    && (l > 0 ==>
        && CheckPos(m, l - 1, 2 * p, within || marked)
        && CheckPos(m, l - 1, 2 * p + 1, within || marked)
        && !(2 * p in m[l - 1] && 2 * p + 1 in m[l - 1]))
  }

  /** Block q of level j is block p of level l or lies in it. */
  ghost predicate Below(j: nat, q: nat, l: nat, p: nat) { j <= l && Up(q, l - j) == p }

  /** What a check of block p of level l establishes. */
  ghost predicate Clean(m: Maps, l: nat, p: nat, within: bool)
    requires l < |m|
  {
    && (within ==> forall j: nat, q: nat :: Below(j, q, l, p) ==> q !in m[j])
    && (forall j: nat, k: nat, q: nat :: k > 0 && j + k <= l && Below(j, q, l, p) && q in m[j] ==> !Above(m, j, k, q))
    && (forall j: nat, q: nat :: j < l && Below(j, q, l, p) && q in m[j] ==> Buddy(q) !in m[j])
  }

  /** Below a block, but not the block itself, means below one of its halves. */
  lemma BelowHalf(j: nat, q: nat, l: nat, p: nat)
    requires l > 0
    ensures Below(j, q, l, p) <==> (j == l && q == p) || Below(j, q, l - 1, 2 * p) || Below(j, q, l - 1, 2 * p + 1)
  {
  }

  lemma CheckHalves(m: Maps, l: nat, p: nat, within: bool)
    requires 0 < l < |m|
    requires Clean(m, l - 1, 2 * p, within || p in m[l]) && Clean(m, l - 1, 2 * p + 1, within || p in m[l])
    requires !(p in m[l] && within) && !(2 * p in m[l - 1] && 2 * p + 1 in m[l - 1])
    ensures Clean(m, l, p, within)
  {
    forall j: nat, q: nat | Below(j, q, l, p)
      ensures (j == l && q == p) || Below(j, q, l - 1, 2 * p) || Below(j, q, l - 1, 2 * p + 1)
    {
      BelowHalf(j, q, l, p);
    }
    forall j: nat, k: nat, q: nat | k > 0 && j + k <= l && Below(j, q, l, p) && q in m[j] ensures !Above(m, j, k, q) {
      assert j + k == l ==> k == l - j;
    }
    forall j: nat, q: nat | j < l && Below(j, q, l, p) && q in m[j] ensures Buddy(q) !in m[j] {
      if j == l - 1 {
        assert Up(q, 0) == q;
      }
    }
  }

  lemma CleanHalves(m: Maps, l: nat, p: nat, within: bool)
    requires 0 < l < |m| && Clean(m, l, p, within)
    ensures Clean(m, l - 1, 2 * p, within || p in m[l]) && Clean(m, l - 1, 2 * p + 1, within || p in m[l])
    ensures !(p in m[l] && within) && !(2 * p in m[l - 1] && 2 * p + 1 in m[l - 1])
  {
    assert Up(p, 0) == p && Below(l, p, l, p);
    forall j: nat, q: nat | Below(j, q, l - 1, 2 * p) || Below(j, q, l - 1, 2 * p + 1)
      ensures Below(j, q, l, p) && (p in m[l] ==> q !in m[j])
    {
      BelowHalf(j, q, l, p);
      assert p in m[l] ==> Above(m, j, l - j, q);
    }
    UpOne(2 * p);
    assert Up(2 * p, 0) == 2 * p && Below(l - 1, 2 * p, l - 1, 2 * p);
    assert Buddy(2 * p) == 2 * p + 1;
  }

  lemma {:induction false} CheckIsClean(m: Maps, l: nat, p: nat, within: bool)
    requires l < |m|
    ensures CheckPos(m, l, p, within) <==> Clean(m, l, p, within)
  {
    var marked := p in m[l];
    if l == 0 {
      assert forall j: nat, q: nat :: Below(j, q, 0, p) <==> j == 0 && q == p;
    } else {
      CheckIsClean(m, l - 1, 2 * p, within || marked);
      CheckIsClean(m, l - 1, 2 * p + 1, within || marked);
      if CheckPos(m, l, p, within) { CheckHalves(m, l, p, within); }
      if Clean(m, l, p, within) { CleanHalves(m, l, p, within); }
    }
  }

  /** The limit divides evenly at every level below the top. */
  ghost predicate Aligned(n: nat, top: nat) { forall l: nat :: l < top ==> Up(n, l) % 2 == 0 }

  /** Positions below the limit have their ancestors below it. */
  lemma {:induction false} UpInRange(n: nat, top: nat, l: nat, p: nat, k: nat)
    requires Aligned(n, top) && l + k <= top && p < Up(n, l)
    ensures Up(p, k) < Up(n, l + k)
  {
    if k > 0 {
      UpInRange(n, top, l, p, k - 1);
      assert Up(n, l + k - 1) % 2 == 0;
    }
  }

  /** _check over the first lim blocks of the top level. */
  predicate Check(m: Maps, lim: nat) { forall p: nat :: p < lim ==> CheckTop(m, p) }

  predicate CheckTop(m: Maps, p: nat) { CheckPos(m, |m| - 1, p, false) }

  /** The check over every top-level block passes exactly when no marked block lies inside another
      and no two buddies below the top are both marked. */
  lemma CheckExact(m: Maps, n: nat)
    requires InRange(m, n) && Aligned(n, |m| - 1)
    ensures Check(m, Up(n, |m| - 1)) <==> NoNesting(m) && Coalesced(m)
  {
    var top := |m| - 1;
    forall p: nat ensures CheckTop(m, p) <==> Clean(m, top, p, false) {
      CheckIsClean(m, top, p, false);
    }
    if Check(m, Up(n, top)) {
      forall l: nat, q: nat | l < |m| && q in m[l]
        ensures Below(l, q, top, Up(q, top - l)) && Clean(m, top, Up(q, top - l), false)
      {
        UpInRange(n, top, l, q, top - l);
        assert CheckTop(m, Up(q, top - l));
      }
      forall l: nat, k: nat, q: nat | k > 0 && l + k < |m| && q in m[l] ensures !Above(m, l, k, q) {
        assert Clean(m, top, Up(q, top - l), false);
      }
      assert NoNesting(m) && Coalesced(m);
    }
  }
}
