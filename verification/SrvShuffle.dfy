/** Ordering of SRV records by priority and random weighted choice (srvrec_randomize; RFC 2782). */
module SrvShuffle {
  import opened Common

  type u16 = n: int | 0 <= n < 0x1_0000

  datatype Srv = Srv(prio: u16, weight: u16, port: u16, name: string)

  /** srvrec_cmp: by priority, and the heavier record first within a priority. */
  function Cmp(a: Srv, b: Srv): int {
    if a.prio - b.prio != 0 then a.prio - b.prio else b.weight - a.weight
  }

  /** s may be what qsort makes of its argument: by increasing priority, and within one by decreasing weight. */
  ghost predicate Sorted(s: seq<Srv>) {
    forall i, j :: 0 <= i < j < |s| ==>
      s[i].prio < s[j].prio || (s[i].prio == s[j].prio && s[i].weight >= s[j].weight)
  }

  /** The comparison is an order of the records by priority and weight, and sorting by it is sorting by them. */
  lemma CmpSorts(s: seq<Srv>, a: Srv, b: Srv, c: Srv)
    ensures (forall i, j :: 0 <= i < j < |s| ==> Cmp(s[i], s[j]) <= 0) <==> Sorted(s)
    ensures Cmp(a, b) == -Cmp(b, a) && (Cmp(a, b) == 0 <==> a.prio == b.prio && a.weight == b.weight)
    ensures Cmp(a, b) <= 0 && Cmp(b, c) <= 0 ==> Cmp(a, c) <= 0
  {
    assert forall i, j :: 0 <= i < j < |s| ==>
      (Cmp(s[i], s[j]) <= 0 <==> s[i].prio < s[j].prio || (s[i].prio == s[j].prio && s[i].weight >= s[j].weight));
  }

  /** Records by increasing priority, and within one those with a weight first. */
  ghost predicate Grouped(s: seq<Srv>) {
    forall i, j :: 0 <= i < j < |s| ==>
      s[i].prio <= s[j].prio && (s[i].prio == s[j].prio && s[i].weight == 0 ==> s[j].weight == 0)
  }

  /** a and b may stand in for each other: same priority, and both or neither have a weight. */
  predicate Alike(a: Srv, b: Srv) { a.prio == b.prio && (a.weight == 0 <==> b.weight == 0) }

  /** r is s rearranged so that every place still holds a record like the one it held. */
  ghost predicate Rearranged(s: seq<Srv>, r: seq<Srv>) {
    && |r| == |s| && multiset(r) == multiset(s)
    && forall i :: 0 <= i < |s| ==> Alike(s[i], r[i])
  }

  lemma RearrangedGrouped(s: seq<Srv>, r: seq<Srv>)
    requires Sorted(s) && Rearranged(s, r)
    ensures Grouped(r)
  {
    forall i, j | 0 <= i < j < |r|
      ensures r[i].prio <= r[j].prio && (r[i].prio == r[j].prio && r[i].weight == 0 ==> r[j].weight == 0)
    {
      assert s[i].prio <= s[j].prio && Alike(s[i], r[i]) && Alike(s[j], r[j]);
    }
  }

  function Swapped(s: seq<Srv>, i: nat, j: nat): seq<Srv>
    requires i < |s| && j < |s|
  {
    s[i := s[j]][j := s[i]]
  }

  lemma SwapRearranges(q: seq<Srv>, s: seq<Srv>, i: nat, j: nat)
    requires Rearranged(q, s) && i < |s| && j < |s| && Alike(s[i], s[j])
    ensures Rearranged(q, Swapped(s, i, j))
  {
    var r := Swapped(s, i, j);
    assert multiset(r) == multiset(s);
  }

  // ----- weights

  /** The sum of the weights of s[i..j]. */
  function Weight(s: seq<Srv>, i: nat, j: nat): nat
    requires i <= j <= |s|
    decreases j - i
  {
    if i == j then 0 else s[i].weight + Weight(s, i + 1, j)
  }

  lemma {:induction false} WeightLast(s: seq<Srv>, i: nat, j: nat)
    requires i < j <= |s|
    ensures Weight(s, i, j) == Weight(s, i, j - 1) + s[j - 1].weight
    decreases j - i
  {
    if i + 1 < j { WeightLast(s, i + 1, j); }
  }

  lemma {:induction false} WeightSame(s: seq<Srv>, r: seq<Srv>, i: nat, j: nat)
    requires i <= j <= |s| && |r| == |s| && forall k :: i <= k < j ==> r[k].weight == s[k].weight
    ensures Weight(r, i, j) == Weight(s, i, j)
    decreases j - i
  {
    if i < j { WeightSame(s, r, i + 1, j); }
  }

  lemma {:induction false} WeightSplit(s: seq<Srv>, i: nat, k: nat, j: nat)
    requires i <= k <= j <= |s|
    ensures Weight(s, i, j) == Weight(s, i, k) + Weight(s, k, j)
    decreases k - i
  {
    if i < k { WeightSplit(s, i + 1, k, j); }
  }

  /** After the chosen record k is swapped to the front i, the others weigh what was left. */
  lemma WeightSwap(s: seq<Srv>, i: nat, k: nat, j: nat)
    requires i <= k < j <= |s|
    ensures Weight(Swapped(s, i, k), i + 1, j) == Weight(s, i, j) - s[k].weight
  {
    var r := Swapped(s, i, k);
    if k == i {
      WeightSame(s, r, i + 1, j);
    } else {
      WeightSplit(s, i + 1, k, j);
      WeightSplit(r, i + 1, k, j);
      WeightSame(s, r, i + 1, k);
      WeightSame(s, r, k + 1, j);
    }
  }

  lemma {:induction false} WeightBound(s: seq<Srv>, i: nat, j: nat)
    requires i <= j <= |s|
    ensures Weight(s, i, j) <= 0xffff * (j - i)
    decreases j - i
  {
    if i < j { WeightBound(s, i + 1, j); }
  }

  /** Weights of up to 65535 records fit in 32 bits. */
  lemma WeightFits(s: seq<Srv>, i: nat, j: nat)
    requires i <= j <= |s| <= 0xffff
    ensures Weight(s, i, j) < 0x1_0000_0000
  {
    WeightBound(s, i, j);
  }

  // ----- the weighted choice

  /** The record that a draw r from 1 to the total weight falls on. */
  ghost predicate Chosen(s: seq<Srv>, i: nat, j: nat, r: nat, k: nat)
    requires i <= j <= |s|
  {
    i <= k < j && Weight(s, i, k) < r <= Weight(s, i, k + 1)
  }

  /** The choice is proportional: of the possible draws, exactly as many as its weight fall on a record. */
  lemma Proportional(s: seq<Srv>, i: nat, j: nat, k: nat)
    requires i <= k < j <= |s|
    ensures |set r: nat | r <= Weight(s, i, j) && Chosen(s, i, j, r, k)| == s[k].weight
  {
    WeightLast(s, i, k + 1);
    WeightSplit(s, i, k + 1, j);
    var lo, hi := Weight(s, i, k), Weight(s, i, k + 1);
    var draws := set r: nat | r <= Weight(s, i, j) && Chosen(s, i, j, r, k);
    assert draws == Span(lo + 1, hi + 1);
  }

  /** A draw falls on one record only. */
  lemma ChosenOnce(s: seq<Srv>, i: nat, j: nat, r: nat, k: nat, m: nat)
    requires i <= j <= |s| && Chosen(s, i, j, r, k) && Chosen(s, i, j, r, m)
    ensures k == m
  {
    if k < m { WeightSplit(s, i, k + 1, m); }
    if m < k { WeightSplit(s, i, m + 1, k); }
  }

  /** The search loop: it stops at the chosen record, inside the group. */
  method Search(a: array<Srv>, base: nat, last: nat, draw: nat) returns (next: nat)
    requires base < last <= a.Length && 0 < draw <= Weight(a[..], base, last)
    ensures base <= next < last && Chosen(a[..], base, last, draw, next)
  {
    next := base;
    var left := draw;
    ghost var s := a[..];
    while a[next].weight < left
      invariant base <= next < last && left == draw - Weight(s, base, next) && left > 0 && s == a[..]
      decreases last - next
    {
      WeightSplit(s, base, next + 1, last);
      WeightLast(s, base, next + 1);
      left := left - a[next].weight;
      next := next + 1;
    }
    WeightLast(s, base, next + 1);
  }

  method Swap(a: array<Srv>, i: nat, j: nat)
    requires i < a.Length && j < a.Length
    modifies a
    ensures a[..] == Swapped(old(a[..]), i, j)
  {
    var tmp := a[i];
    a[i] := a[j];
    a[j] := tmp;
  }

  // ----- one group of records that are alike

  /** The draw falls on record k of s[i..j]: by weight, or with no weights on any equally. */
  ghost predicate Falls(s: seq<Srv>, i: nat, j: nat, draw: nat, k: nat) {
    && i <= k < j <= |s|
    && if s[i].weight == 0 then k == i + draw % (j - i)
       else Weight(s, i, j) > 0 && Chosen(s, i, j, draw % Weight(s, i, j) + 1, k)
  }

  /** A draw brings the record it falls on to place i. */
  ghost predicate Turned(s: seq<Srv>, t: seq<Srv>, i: nat, j: nat, draw: nat) {
    i < j <= |s| && exists k: nat :: Falls(s, i, j, draw, k) && t == Swapped(s, i, k)
  }

  lemma FallsOnce(s: seq<Srv>, i: nat, j: nat, draw: nat, k: nat, m: nat)
    requires Falls(s, i, j, draw, k) && Falls(s, i, j, draw, m)
    ensures k == m
  {
    if s[i].weight > 0 { ChosenOnce(s, i, j, draw % Weight(s, i, j) + 1, k, m); }
  }

  /** A draw leaves nothing open. */
  lemma TurnedOnce(s: seq<Srv>, t: seq<Srv>, t': seq<Srv>, i: nat, j: nat, draw: nat)
    requires Turned(s, t, i, j, draw) && Turned(s, t', i, j, draw)
    ensures t == t'
  {
    var k: nat :| Falls(s, i, j, draw, k) && t == Swapped(s, i, k);
    var m: nat :| Falls(s, i, j, draw, m) && t' == Swapped(s, i, m);
    FallsOnce(s, i, j, draw, k, m);
  }

  // ----- how the draws are shared

  /** The shares of s[i..j] together: their weights, or one for each if they have none. */
  function Total(s: seq<Srv>, i: nat, j: nat): nat
    requires i < j <= |s|
  {
    if s[i].weight == 0 then j - i else Weight(s, i, j)
  }

  /** The share of record k. */
  function Share(s: seq<Srv>, i: nat, k: nat): nat
    requires i < |s| && k < |s|
  {
    if s[i].weight == 0 then 1 else s[k].weight
  }

  /** The numbers below the limit whose remainder by w is at least lo and less than hi. */
  ghost function Hits(lo: nat, hi: nat, w: nat, limit: nat): set<nat>
    requires w > 0
  {
    set x: nat | x < limit && lo <= x % w < hi
  }

  lemma HitsNext(lo: nat, hi: nat, w: nat, q: nat, o: nat)
    requires lo <= hi <= w && w > 0 && o == q * w
    ensures Hits(lo, hi, w, o + w) == Hits(lo, hi, w, o) + Span(o + lo, o + hi)
  {
    forall x: nat | o <= x < o + w ensures x % w == x - o { QuotientIs(q, w, x); }
  }

  /** There are n * (hi - lo) of them below n * w. */
  lemma {:induction false} HitCount(lo: nat, hi: nat, w: nat, n: nat, o: nat)
    requires lo <= hi <= w && w > 0 && o == n * w
    ensures |Hits(lo, hi, w, o)| == n * (hi - lo)
    decreases n
  {
    if n > 0 {
      var p := (n - 1) * w;
      assert o == p + w;
      HitCount(lo, hi, w, n - 1, p);
      HitsNext(lo, hi, w, n - 1, p);
      assert Hits(lo, hi, w, p) !! Span(p + lo, p + hi);
      assert n * (hi - lo) == (n - 1) * (hi - lo) + (hi - lo);
    }
  }

  /** The numbers from lo up to, not including, hi. */
  ghost function Span(lo: nat, hi: nat): (r: set<nat>)
    requires lo <= hi
    ensures forall x :: x in r <==> lo <= x < hi
    ensures |r| == hi - lo
  {
    if lo == hi then {} else Span(lo, hi - 1) + {hi - 1}
  }

  ghost function DrawsOn(s: seq<Srv>, i: nat, j: nat, k: nat, limit: nat): set<nat> {
    set draw: nat | draw < limit && Falls(s, i, j, draw, k)
  }

  /** Where the share of record k starts. */
  function Below(s: seq<Srv>, i: nat, k: nat): nat
    requires i <= k <= |s| && i < |s|
  {
    if s[i].weight == 0 then k - i else Weight(s, i, k)
  }

  /** A draw falls on the record in whose share it lies, once as many whole totals as possible are taken away. */
  lemma FallsExact(s: seq<Srv>, i: nat, j: nat, draw: nat, k: nat)
    requires i <= k < j <= |s| && Total(s, i, j) > 0
    ensures Falls(s, i, j, draw, k) <==> Below(s, i, k) <= draw % Total(s, i, j) < Below(s, i, k) + Share(s, i, k)
    ensures Below(s, i, k) + Share(s, i, k) <= Total(s, i, j)
  {
    WeightLast(s, i, k + 1);
    WeightSplit(s, i, k + 1, j);
  }

  /** The draws are shared out in proportion: of the first n times the total, n times its share fall on a record;
      and of any number of draws in between, no fewer and at most one share more. */
  lemma Shares(s: seq<Srv>, i: nat, j: nat, k: nat, n: nat, limit: nat)
    requires i <= k < j <= |s| && Total(s, i, j) > 0
    requires n * Total(s, i, j) <= limit <= (n + 1) * Total(s, i, j)
    ensures |DrawsOn(s, i, j, k, n * Total(s, i, j))| == n * Share(s, i, k)
    ensures n * Share(s, i, k) <= |DrawsOn(s, i, j, k, limit)| <= (n + 1) * Share(s, i, k)
  {
    var w := Total(s, i, j);
    SharesWhole(s, i, j, k, n);
    SharesWhole(s, i, j, k, n + 1);
    Fewer(DrawsOn(s, i, j, k, n * w), DrawsOn(s, i, j, k, limit));
    Fewer(DrawsOn(s, i, j, k, limit), DrawsOn(s, i, j, k, (n + 1) * w));
  }

  lemma SharesWhole(s: seq<Srv>, i: nat, j: nat, k: nat, n: nat)
    requires i <= k < j <= |s| && Total(s, i, j) > 0
    ensures n * Total(s, i, j) >= 0 && |DrawsOn(s, i, j, k, n * Total(s, i, j))| == n * Share(s, i, k)
  {
    var w, lo := Total(s, i, j), Below(s, i, k);
    var hi, o := lo + Share(s, i, k), n * w;
    FallsExact(s, i, j, 0, k);
    HitCount(lo, hi, w, n, o);
    SharesAre(s, i, j, k, o);
  }

  lemma SharesAre(s: seq<Srv>, i: nat, j: nat, k: nat, limit: nat)
    requires i <= k < j <= |s| && Total(s, i, j) > 0
    ensures DrawsOn(s, i, j, k, limit) == Hits(Below(s, i, k), Below(s, i, k) + Share(s, i, k), Total(s, i, j), limit)
  {
    forall draw: nat
      ensures Falls(s, i, j, draw, k) <==>
                Below(s, i, k) <= draw % Total(s, i, j) < Below(s, i, k) + Share(s, i, k)
    {
      FallsExact(s, i, j, draw, k);
    }
  }

  lemma Fewer(a: set<nat>, b: set<nat>)
    requires a <= b
    ensures |a| <= |b|
  {
    assert b == a + (b - a);
  }

  /** The records of q[i..j] are alike. */
  ghost predicate Group(q: seq<Srv>, i: nat, j: nat) {
    i < j <= |q| && forall k :: i <= k < j ==> Alike(q[i], q[k])
  }

  /** The places of one group may be filled in any order. */
  lemma GroupSwap(q: seq<Srv>, s: seq<Srv>, b: nat, e: nat, i: nat, j: nat)
    requires Group(q, b, e) && Rearranged(q, s) && b <= i < e && b <= j < e
    ensures Rearranged(q, Swapped(s, i, j))
  {
    assert Alike(q[b], q[i]) && Alike(q[b], q[j]) && Alike(q[i], s[i]) && Alike(q[j], s[j]);
    SwapRearranges(q, s, i, j);
  }

  /** The end of the group of records like the first one, and its weight; from base on the records are still sorted. */
  method Extent(a: array<Srv>, ghost q: seq<Srv>, base: nat) returns (last: nat, tot: nat)
    requires base < a.Length <= 0xffff && |q| == a.Length && Sorted(q) && a[base..] == q[base..]
    ensures EndsAt(q, base, last)
    ensures a[base].weight > 0 ==> tot == Weight(a[..], base, last) < 0x1_0000_0000
    ensures a[base].weight == 0 ==> tot == last - base
    ensures forall k :: base <= k < last ==> Alike(a[base], a[k])
    ensures last < a.Length ==> !Alike(a[base], a[last])
  {
    ghost var s := a[..];
    forall k | base <= k < a.Length ensures a[k] == q[k] {
      assert a[base..][k - base] == q[base..][k - base];
    }
    if a[base].weight == 0 {
      tot, last := 1, base + 1;
      while last < a.Length && a[last].prio == a[base].prio
        invariant base < last <= a.Length && tot == last - base && Group(q, base, last)
      {
        assert q[base].prio <= q[last].prio;
        tot, last := tot + 1, last + 1;
      }
    } else {
      tot, last := a[base].weight, base + 1;
      WeightLast(s, base, last);
      while last < a.Length && a[last].weight != 0 && a[last].prio == a[base].prio
        invariant base < last <= a.Length && tot == Weight(s, base, last) && Group(q, base, last)
      {
        WeightLast(s, base, last + 1);
        WeightFits(s, base, last + 1);
        tot, last := tot + a[last].weight, last + 1;
      }
      WeightFits(s, base, last);
    }
  }

  /** The records like q[i] that follow it end at j. */
  ghost predicate EndsAt(q: seq<Srv>, i: nat, j: nat) {
    Group(q, i, j) && (j < |q| ==> !Alike(q[i], q[j]))
  }

  lemma EndsFrom(q: seq<Srv>, base: nat, i: nat, j: nat)
    requires EndsAt(q, base, j) && base <= i < j
    ensures EndsAt(q, i, j)
  {
    assert Alike(q[base], q[i]);
    forall k | i <= k < j ensures Alike(q[i], q[k]) { assert Alike(q[base], q[k]); }
  }

  // ----- all records

  /** The records after some places have been filled, and how many draws that took. */
  datatype Stage = Stage(recs: seq<Srv>, drawn: nat)

  /** Place i is filled: a draw decides between the records from there to the end of the group, unless there
      is only one left. */
  ghost predicate Filled(q: seq<Srv>, x: Stage, y: Stage, i: nat, draws: nat -> nat) {
    exists j: nat :: EndsAt(q, i, j) && FilledFrom(x, y, i, j, draws)
  }

  ghost predicate FilledFrom(x: Stage, y: Stage, i: nat, j: nat, draws: nat -> nat) {
    if i + 1 < j then Turned(x.recs, y.recs, i, j, draws(x.drawn)) && y.drawn == x.drawn + 1 else y == x
  }

  /** The stages from the sorted records q to s, which has its first b places filled. */
  ghost predicate Stages(q: seq<Srv>, stages: seq<Stage>, s: seq<Srv>, b: nat, d: nat, draws: nat -> nat) {
    && |stages| == b + 1 && stages[0] == Stage(q, 0) && stages[b] == Stage(s, d)
    && forall i: nat :: i < b ==> Filled(q, stages[i], stages[i + 1], i, draws)
  }

  lemma NextStage(q: seq<Srv>, stages: seq<Stage>, s: seq<Srv>, b: nat, d: nat, t: seq<Srv>, e: nat, j: nat,
                  draws: nat -> nat)
    requires Stages(q, stages, s, b, d, draws) && EndsAt(q, b, j) && FilledFrom(Stage(s, d), Stage(t, e), b, j, draws)
    ensures Stages(q, stages + [Stage(t, e)], t, b + 1, e, draws)
  {
    var r := stages + [Stage(t, e)];
    forall i: nat | i < b + 1 ensures Filled(q, r[i], r[i + 1], i, draws) {
      if i < b { assert r[i] == stages[i] && r[i + 1] == stages[i + 1]; }
    }
  }

  /** The last record of a group stays. */
  lemma LastStage(q: seq<Srv>, stages: seq<Stage>, s: seq<Srv>, base: nat, b: nat, d: nat, draws: nat -> nat)
    requires EndsAt(q, base, b + 1) && base <= b && Stages(q, stages, s, b, d, draws)
    ensures Stages(q, stages + [Stage(s, d)], s, b + 1, d, draws)
  {
    EndsFrom(q, base, b, b + 1);
    NextStage(q, stages, s, b, d, s, d, b + 1, draws);
  }

  /** A draw decides for any other. */
  lemma DrawStage(q: seq<Srv>, stages: seq<Stage>, s: seq<Srv>, base: nat, last: nat, b: nat, d: nat, t: seq<Srv>,
                  draws: nat -> nat)
    requires EndsAt(q, base, last) && base <= b && b + 1 < last && Stages(q, stages, s, b, d, draws)
    requires Turned(s, t, b, last, draws(d))
    ensures Stages(q, stages + [Stage(t, d + 1)], t, b + 1, d + 1, draws)
  {
    EndsFrom(q, base, b, last);
    NextStage(q, stages, s, b, d, t, d + 1, last, draws);
  }

  /** Progress of either loop: s is a rearrangement of q that is still sorted from last on. */
  ghost predicate Ongoing(q: seq<Srv>, s: seq<Srv>, last: nat) {
    Rearranged(q, s) && last <= |s| && forall k :: last <= k < |s| ==> s[k] == q[k]
  }

  lemma OngoingSwap(q: seq<Srv>, s: seq<Srv>, b: nat, e: nat, i: nat, j: nat)
    requires Group(q, b, e) && Ongoing(q, s, e) && b <= i < e && b <= j < e
    ensures Ongoing(q, Swapped(s, i, j), e)
  {
    GroupSwap(q, s, b, e, i, j);
  }

  /** The record that the draw falls on changes places with the one at b. */
  method WeightedTurn(a: array<Srv>, ghost q: seq<Srv>, ghost base: nat, b: nat, last: nat, tot: nat, draw: nat)
    requires base <= b < last <= a.Length && tot == Weight(a[..], b, last) && a[b].weight > 0
    requires Group(q, base, last) && Ongoing(q, a[..], last)
    modifies a
    ensures Ongoing(q, a[..], last) && Turned(old(a[..]), a[..], b, last, draw)
    ensures Weight(a[..], b + 1, last) == tot - a[b].weight
  {
    ghost var s := a[..];
    assert tot > 0 && s[b].weight > 0;
    var rnd := draw % tot + 1;
    var next := Search(a, b, last, rnd);
    OngoingSwap(q, s, base, last, b, next);
    WeightSwap(s, b, next, last);
    assert Falls(s, b, last, draw, next);
    Swap(a, b, next);
  }

  /** Any of the tot records from b on changes places with the one at b. */
  method UniformTurn(a: array<Srv>, ghost q: seq<Srv>, ghost base: nat, b: nat, ghost last: nat, tot: nat, draw: nat)
    requires base <= b < last <= a.Length && tot == last - b && a[b].weight == 0
    requires Group(q, base, last) && Ongoing(q, a[..], last)
    modifies a
    ensures Ongoing(q, a[..], last) && Turned(old(a[..]), a[..], b, last, draw)
  {
    var which := draw % tot;
    assert Falls(a[..], b, last, draw, b + which);
    OngoingSwap(q, a[..], base, last, b, b + which);
    if which != 0 {
      Swap(a, b, b + which);
    } else {
      assert Swapped(a[..], b, b) == a[..];
    }
  }

  /** All records of a group have a weight, or none does, however they are arranged. */
  lemma GroupWeight(q: seq<Srv>, s: seq<Srv>, base: nat, last: nat, b: nat)
    requires Rearranged(q, s) && Group(q, base, last) && base <= b < last
    ensures s[b].weight == 0 <==> q[base].weight == 0
  {
    assert Alike(q[base], q[b]) && Alike(q[b], s[b]);
  }

  /** One turn of the loop below; left is the weight that remains. */
  method WeightedStage(a: array<Srv>, ghost q: seq<Srv>, ghost base: nat, b: nat, last: nat, tot: nat,
                       draws: nat -> nat, d: nat, ghost before: seq<Stage>)
    returns (left: nat, ghost stages: seq<Stage>)
    requires base <= b && b + 1 < last <= a.Length && EndsAt(q, base, last) && q[base].weight > 0
        && Ongoing(q, a[..], last)
    requires tot == Weight(a[..], b, last) && Stages(q, before, a[..], b, d, draws)
    modifies a
    ensures Ongoing(q, a[..], last) && left == Weight(a[..], b + 1, last)
        && Stages(q, stages, a[..], b + 1, d + 1, draws)
  {
    ghost var s := a[..];
    GroupWeight(q, s, base, last, b);
    WeightedTurn(a, q, base, b, last, tot, draws(d));
    DrawStage(q, before, s, base, last, b, d, a[..], draws);
    stages := before + [Stage(a[..], d + 1)];
    left := tot - a[b].weight;
  }

  /** Choose the records of a weighted group one after another. */
  method WeightedGroup(a: array<Srv>, ghost q: seq<Srv>, base: nat, last: nat, total: nat, draws: nat -> nat,
                       first: nat, ghost before: seq<Stage>)
    returns (d: nat, ghost stages: seq<Stage>)
    requires last <= a.Length && EndsAt(q, base, last) && q[base].weight > 0 && Ongoing(q, a[..], last)
    requires total == Weight(a[..], base, last) && Stages(q, before, a[..], base, first, draws)
    modifies a
    ensures Ongoing(q, a[..], last) && Stages(q, stages, a[..], last, d, draws)
  {
    var b, tot := base, total;
    d, stages := first, before;
    while b + 1 < last
      invariant base <= b < last && Ongoing(q, a[..], last) && tot == Weight(a[..], b, last)
      invariant Stages(q, stages, a[..], b, d, draws)
    {
      tot, stages := WeightedStage(a, q, base, b, last, tot, draws, d, stages);
      b, d := b + 1, d + 1;
    }
    WeightLast(a[..], b, b + 1);
    assert tot == a[b].weight;    // asserted by the program
    LastStage(q, stages, a[..], base, b, d, draws);
    stages := stages + [Stage(a[..], d)];
  }

  /** Choose the records of a group without weights, each equally. */
  method UniformGroup(a: array<Srv>, ghost q: seq<Srv>, base: nat, last: nat, total: nat, draws: nat -> nat,
                      first: nat, ghost before: seq<Stage>)
    returns (d: nat, ghost stages: seq<Stage>)
    requires last <= a.Length && EndsAt(q, base, last) && q[base].weight == 0 && Ongoing(q, a[..], last)
    requires total == last - base && Stages(q, before, a[..], base, first, draws)
    modifies a
    ensures Ongoing(q, a[..], last) && Stages(q, stages, a[..], last, d, draws)
  {
    var b, tot := base, total;
    d, stages := first, before;
    while b + 1 < last
      invariant base <= b < last && Ongoing(q, a[..], last) && tot == last - b
      invariant Stages(q, stages, a[..], b, d, draws)
    {
      ghost var s := a[..];
      GroupWeight(q, s, base, last, b);
      UniformTurn(a, q, base, b, last, tot, draws(d));
      DrawStage(q, stages, s, base, last, b, d, a[..], draws);
      stages := stages + [Stage(a[..], d + 1)];
      b, tot, d := b + 1, tot - 1, d + 1;
    }
    LastStage(q, stages, a[..], base, b, d, draws);
    stages := stages + [Stage(a[..], d)];
  }

  /** One turn of the outer loop: the group that begins at base is arranged. */
  method DrawGroup(a: array<Srv>, ghost q: seq<Srv>, base: nat, draws: nat -> nat, first: nat, ghost before: seq<Stage>)
    returns (last: nat, d: nat, ghost stages: seq<Stage>)
    requires base < a.Length <= 0xffff && Sorted(q) && Ongoing(q, a[..], base)
        && Stages(q, before, a[..], base, first, draws)
    modifies a
    ensures base < last && Ongoing(q, a[..], last) && Stages(q, stages, a[..], last, d, draws)
  {
    assert a[base..] == q[base..];
    assert a[base] == a[..][base] == q[base];
    var tot;
    last, tot := Extent(a, q, base);
    if a[base].weight == 0 {
      d, stages := UniformGroup(a, q, base, last, tot, draws, first, before);
    } else {
      d, stages := WeightedGroup(a, q, base, last, tot, draws, first, before);
    }
  }

  /** srvrec_randomize: sorted is what qsort made of the records, and the draws are from arandom.  Place after
      place is filled by a draw between the like records that are left.  Whatever the draws, the records are
      all there, by increasing priority, those with a weight before those without. */
  method Randomize(a: array<Srv>, sorted: seq<Srv>, draws: nat -> nat) returns (ghost stages: seq<Stage>, ghost d: nat)
    requires a.Length <= 0xffff && |sorted| == a.Length && multiset(sorted) == multiset(a[..]) && Sorted(sorted)
    modifies a
    ensures multiset(a[..]) == multiset(old(a[..])) && Grouped(a[..])
    ensures Stages(sorted, stages, a[..], a.Length, d, draws)
  {
    Fill(a, sorted);
    var base, n := 0, 0;
    stages := [Stage(sorted, 0)];
    while base < a.Length
      invariant base <= a.Length && Ongoing(sorted, a[..], base) && Stages(sorted, stages, a[..], base, n, draws)
      decreases a.Length - base
    {
      base, n, stages := DrawGroup(a, sorted, base, draws, n, stages);
    }
    d := n;
    RearrangedGrouped(sorted, a[..]);
  }

  /** qsort leaves its result in the array. */
  method Fill(a: array<Srv>, sorted: seq<Srv>)
    requires |sorted| == a.Length
    modifies a
    ensures a[..] == sorted
  {
    var i := 0;
    while i < a.Length
      invariant i <= a.Length && a[..i] == sorted[..i]
    {
      a[i] := sorted[i];
      i := i + 1;
    }
  }
}
