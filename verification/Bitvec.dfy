/** Bit vectors stored in machine words (bitvec.h). */
module Bitvec {

  const MAPBITS: nat := 32

  /** A machine word, least significant bit first. */
  type Word = w: seq<bool> | |w| == MAPBITS witness Zero()

  function Zero(): seq<bool> { seq(MAPBITS, _ => false) }

  function Ones(): Word { seq(MAPBITS, _ => true) }

  function And(a: Word, b: Word): Word { seq(MAPBITS, j requires 0 <= j < MAPBITS => a[j] && b[j]) }

  function Or(a: Word, b: Word): Word { seq(MAPBITS, j requires 0 <= j < MAPBITS => a[j] || b[j]) }

  function Not(a: Word): Word { seq(MAPBITS, j requires 0 <= j < MAPBITS => !a[j]) }

  function ShiftLeft(a: Word, k: nat): Word {
    seq(MAPBITS, j requires 0 <= j < MAPBITS => j >= k && a[j - k])
  }

  /** The word with only bit 0 set. */
  function One(): Word { seq(MAPBITS, j => j == 0) }

  /** Position of the least significant set bit, counted from 1 as ffs does; 0 if there is none. */
  function Ffs(w: Word): (r: nat)
    ensures r == 0 <==> w == Zero()
    ensures r != 0 ==> r <= MAPBITS && w[r - 1] && forall j :: 0 <= j < r - 1 ==> !w[j]
  {
    FfsFrom(w, 0)
  }

  function FfsFrom(w: Word, n: nat): (r: nat)
    requires n <= MAPBITS && forall j :: 0 <= j < n ==> !w[j]
    ensures r == 0 <==> w == Zero()
    ensures r != 0 ==> n < r <= MAPBITS && w[r - 1] && forall j :: 0 <= j < r - 1 ==> !w[j]
    decreases MAPBITS - n
  {
    if n == MAPBITS then assert w == Zero(); 0
    else if w[n] then assert w[n] != Zero()[n]; n + 1
    else FfsFrom(w, n + 1)
  }

  function Words(nb: nat): nat { (nb + MAPBITS - 1) / MAPBITS }

  /** Bit i of a word array. */
  predicate BitAt(m: seq<Word>, i: nat) {
    i < |m| * MAPBITS && m[i / MAPBITS][i % MAPBITS]
  }

  /** A word array whose words of index w outside [lo, hi) are those of m, and whose bits are v in [s, e) and m's
      elsewhere. */
  ghost predicate IsRange(m: seq<Word>, r: seq<Word>, s: nat, e: nat, v: bool) {
    && |r| == |m|
    && forall w, j :: 0 <= w < |m| && 0 <= j < MAPBITS ==>
        r[w][j] == if s <= w * MAPBITS + j < e then v else m[w][j]
  }

  /** What a per-word range update means bit by bit. */
  lemma RangeBits(m: seq<Word>, r: seq<Word>, s: nat, e: nat, v: bool)
    requires IsRange(m, r, s, e, v) && s <= e <= |m| * MAPBITS
    ensures forall i: nat :: BitAt(r, i) <==> if s <= i < e then v else BitAt(m, i)
  {
    forall i: nat ensures BitAt(r, i) <==> if s <= i < e then v else BitAt(m, i) {
      if i < |m| * MAPBITS {
        assert i / MAPBITS * MAPBITS + i % MAPBITS == i;
      }
    }
  }

  class Bits {
    var words: seq<Word>
    var nbits: nat

    ghost predicate Valid()
      reads this
    {
      |words| == Words(nbits)
    }

    constructor ()
      ensures Valid() && nbits == 0 && words == []
    {
      words, nbits := [], 0;
    }

    /** Change the size; junk is what the words added to the array happen to hold. */
    method SetSize(n: nat, junk: nat -> Word)
      requires Valid()
      modifies this
      ensures Valid() && nbits == n
      ensures forall w :: 0 <= w < |words| ==> words[w] == if w < |old(words)| then old(words)[w] else junk(w)
    {
      nbits := n;
      var have := |words|;
      words := if have <= Words(n) then words + seq(Words(n) - have, i requires i >= 0 => junk(have + i))
               else words[..Words(n)];
    }

    function At(i: nat): bool
      requires Valid() && i < nbits
      reads this
    {
      words[i / MAPBITS][i % MAPBITS]
    }

    method SetBit(i: nat, v: bool)
      requires Valid() && i < nbits
      modifies this
      ensures Valid() && nbits == old(nbits)
      ensures forall j: nat :: BitAt(words, j) <==> if j == i then v else BitAt(old(words), j)
    {
      var w := i / MAPBITS;
      if v {
        words := words[w := Or(words[w], ShiftLeft(One(), i % MAPBITS))];
      } else {
        words := words[w := And(words[w], Not(ShiftLeft(One(), i % MAPBITS)))];
      }
      assert IsRange(old(words), words, i, i + 1, v);
      RangeBits(old(words), words, i, i + 1, v);
    }

    /** Set the bits of [s, e) and no other. */
    method RangeSet(s: nat, e: nat)
      requires s <= e <= |words| * MAPBITS
      modifies this
      ensures nbits == old(nbits) && |words| == |old(words)|
      ensures forall i: nat :: BitAt(words, i) <==> s <= i < e || BitAt(old(words), i)
    {
      var sp, ep := s / MAPBITS, e / MAPBITS;
      var sb, eb := s % MAPBITS, e % MAPBITS;
      if sp == ep {
        if eb != 0 {
          words := words[sp := Or(words[sp], And(ShiftLeft(Ones(), sb), Not(ShiftLeft(Ones(), eb))))];
        }
      } else {
        words := words[sp := Or(words[sp], ShiftLeft(Ones(), sb))];
        if eb != 0 {
          words := words[ep := Or(words[ep], Not(ShiftLeft(Ones(), eb)))];
        }
        Fill(sp + 1, ep, Ones());
      }
      assert IsRange(old(words), words, s, e, true);
      RangeBits(old(words), words, s, e, true);
    }

    /** Clear the bits of [s, e) and no other. */
    method RangeClr(s: nat, e: nat)
      requires s <= e <= |words| * MAPBITS
      modifies this
      ensures nbits == old(nbits) && |words| == |old(words)|
      ensures forall i: nat :: BitAt(words, i) <==> !(s <= i < e) && BitAt(old(words), i)
    {
      var sp, ep := s / MAPBITS, e / MAPBITS;
      var sb, eb := s % MAPBITS, e % MAPBITS;
      if sp == ep {
        if eb != 0 {
          words := words[sp := And(words[sp], Or(Not(ShiftLeft(Ones(), sb)), ShiftLeft(Ones(), eb)))];
        }
      } else {
        words := words[sp := And(words[sp], Not(ShiftLeft(Ones(), sb)))];
        if eb != 0 {
          words := words[ep := And(words[ep], ShiftLeft(Ones(), eb))];
        }
        Fill(sp + 1, ep, Zero());
      }
      assert IsRange(old(words), words, s, e, false);
      RangeBits(old(words), words, s, e, false);
    }

    /** memset over whole words. */
    method Fill(lo: nat, hi: nat, w: Word)
      requires lo <= hi <= |words|
      modifies this
      ensures nbits == old(nbits) && |words| == |old(words)|
      ensures forall k :: 0 <= k < |words| ==> words[k] == if lo <= k < hi then w else old(words)[k]
    {
      var k := lo;
      while k < hi
        invariant lo <= k <= hi && |words| == |old(words)| && nbits == old(nbits)
        invariant forall j :: 0 <= j < |words| ==> words[j] == if lo <= j < k then w else old(words)[j]
      {
        words := words[k := w];
        k := k + 1;
      }
    }
  }
}
