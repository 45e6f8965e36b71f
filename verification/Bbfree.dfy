/** One level of the buddy allocator's free maps (bbfree): a bit vector with a population count and a search hint. */
module Bbfree {
  import opened Common
  import opened Bitvec

  ghost function Members(m: seq<Word>): set<nat> { set i: nat | i < |m| * MAPBITS && BitAt(m, i) }

  class FreeMap {
    const bits: Bits
    var hint: nat
    var cnt: nat

    ghost function Footprint(): set<object> { {this, bits} }

    /** The positions that are set. */
    ghost function Marked(): set<nat>
      reads this, bits
    {
      Members(bits.words)
    }

    function Size(): nat
      reads this, bits
    {
      bits.nbits
    }

    /** The count is right, no bit past the end is set, and the hint is the index of a word. */
    ghost predicate Valid()
      reads this, bits
    {
      && bits.Valid()
      && cnt == |Marked()|
      && (forall i :: i in Marked() ==> i < bits.nbits)
      && (if bits.nbits > 0 then hint < |bits.words| else hint == 0)
    }

    constructor ()
      ensures Valid() && Marked() == {} && Size() == 0 && fresh(Footprint())
    {
      bits := new Bits();
      hint, cnt := 0, 0;
      new;
      assert Members(bits.words) == {};
    }

    /** Grow to nb bits, the new ones clear whatever the added words held. */
    method Init(nb: nat, junk: nat -> Word)
      requires Valid() && nb >= Size()
      modifies bits
      ensures Valid() && Size() == nb && Marked() == old(Marked()) && hint == old(hint) && cnt == old(cnt)
    {
      var obits := bits.nbits;
      ghost var before := bits.words;
      bits.SetSize(nb, junk);
      var nmaps := Words(nb);
      ghost var mid := bits.words;
      assert obits <= nmaps * MAPBITS && |before| <= |mid|;
      bits.RangeClr(obits, nmaps * MAPBITS);
      forall i: nat ensures BitAt(bits.words, i) <==> BitAt(before, i) {
        if BitAt(before, i) {
          assert i in Members(before);
          assert i / MAPBITS < |before| && mid[i / MAPBITS] == before[i / MAPBITS];
        }
        if BitAt(bits.words, i) {
          assert BitAt(mid, i) && i < obits;
          assert i / MAPBITS < |before| && mid[i / MAPBITS] == before[i / MAPBITS];
        }
      }
      assert Marked() == Members(before);
    }

    method GetBit(pos: nat) returns (b: bool)
      requires Valid() && pos < Size()
      ensures b <==> pos in Marked()
    {
      b := bits.At(pos);
    }

    method SetBit(pos: nat)
      requires Valid() && pos < Size() && pos !in Marked()
      modifies this, bits
      ensures Valid() && Size() == old(Size()) && Marked() == old(Marked()) + {pos}
    {
      var mi := pos / MAPBITS;
      bits.SetBit(pos, true);
      if Ffs(bits.words[hint]) == 0 {
        hint := mi;
      }
      cnt := cnt + 1;
      assert Marked() == old(Marked()) + {pos};
    }

    method ClrBit(pos: nat)
      requires Valid() && pos in Marked()
      modifies this, bits
      ensures Valid() && Size() == old(Size()) && Marked() == old(Marked()) - {pos}
    {
      bits.SetBit(pos, false);
      assert Marked() == old(Marked()) - {pos};
      cnt := cnt - 1;
    }

    /** A set bit, if there is one, however stale the hint; the final panic is not reached. */
    method FindBit() returns (r: Option<nat>)
      requires Valid()
      modifies this`hint
      ensures Valid() && Marked() == old(Marked()) && Size() == old(Size())
      ensures r.None? <==> Marked() == {}
      ensures r.Some? ==> r.value in Marked()
      ensures r.Some? ==> LowestIn(bits.words, r.value) && hint == r.value / MAPBITS
      ensures r.Some? && bits.words[old(hint)] == Zero() ==> forall i :: i in Marked() ==> r.value <= i
      ensures r.None? || bits.words[old(hint)] != Zero() ==> hint == old(hint)
    {
      if cnt == 0 || bits.nbits == 0 {
        assert Marked() == {};
        return None;
      }
      var v := Ffs(bits.words[hint]);
      if v != 0 {
        WordBit(bits.words, hint, v - 1);
        return Some(hint * MAPBITS + v - 1);
      }
      var i := 0;
      while i < |bits.words|
        invariant i <= |bits.words| && hint == old(hint)
        invariant forall w :: 0 <= w < i ==> bits.words[w] == Zero()
      {
        v := Ffs(bits.words[i]);
        if v != 0 {
          hint := i;
          WordBit(bits.words, i, v - 1);
          LowestOf(bits.words, i, v - 1);
          return Some(i * MAPBITS + v - 1);
        }
        i := i + 1;
      }
      AllZero(bits.words);
      assert false;
    }
  }

  /** Position p is set, and none before it in its word is. */
  ghost predicate LowestIn(m: seq<Word>, p: nat) {
    BitAt(m, p) && forall i: nat :: p / MAPBITS * MAPBITS <= i < p ==> !BitAt(m, i)
  }

  /** If all words before are zero, nothing before it is set at all. */
  lemma LowestOf(m: seq<Word>, w: nat, j: nat)
    requires w < |m| && j < MAPBITS && m[w][j] && forall i :: 0 <= i < j ==> !m[w][i]
    requires forall v :: 0 <= v < w ==> m[v] == Zero()
    ensures forall i :: i in Members(m) ==> w * MAPBITS + j <= i
  {
    forall i: nat | i < w * MAPBITS + j && i < |m| * MAPBITS ensures !BitAt(m, i) {
      assert i / MAPBITS <= w;
      assert i / MAPBITS < w ==> m[i / MAPBITS] == Zero();
    }
  }

  /** Bit j of word w is position w * MAPBITS + j. */
  lemma WordBit(m: seq<Word>, w: nat, j: nat)
    requires w < |m| && j < MAPBITS && m[w][j]
    ensures w * MAPBITS + j in Members(m) && (w * MAPBITS + j) / MAPBITS == w
    ensures (forall i :: 0 <= i < j ==> !m[w][i]) ==> LowestIn(m, w * MAPBITS + j)
  {
    assert (w * MAPBITS + j) / MAPBITS == w && (w * MAPBITS + j) % MAPBITS == j;
  }

  lemma AllZero(m: seq<Word>)
    requires forall w :: 0 <= w < |m| ==> m[w] == Zero()
    ensures Members(m) == {}
  {
    forall i: nat | i < |m| * MAPBITS ensures !BitAt(m, i) {
      assert m[i / MAPBITS] == Zero();
    }
  }
}
