/** Types and small facts shared by the models. */
module Common {
  type byte = b: int | 0 <= b < 256

  type bytes = seq<byte>

  datatype Option<+T> = None | Some(value: T)

  function Max(a: nat, b: nat): nat { if a < b then b else a }

  ghost predicate NoDup<T>(q: seq<T>) {
    forall i, j :: 0 <= i < j < |q| ==> q[i] != q[j]
  }

  function Elems<T(==)>(q: seq<T>): set<T> { set x | x in q }

  /** The elements of q outside gone, in order. */
  function Without<T(==,!new)>(q: seq<T>, gone: set<T>): (r: seq<T>)
    ensures forall x :: x in r <==> x in q && x !in gone
  {
    if q == [] then []
    else if q[0] in gone then Without(q[1..], gone)
    else [q[0]] + Without(q[1..], gone)
  }

  /** Removing elements keeps the relative order of what stays. */
  lemma {:induction false} WithoutKeepsOrder<T(!new)>(q: seq<T>, gone: set<T>, f: T -> int)
    requires forall i, j :: 0 <= i < j < |q| ==> f(q[i]) <= f(q[j])
    ensures forall i, j :: 0 <= i < j < |Without(q, gone)| ==> f(Without(q, gone)[i]) <= f(Without(q, gone)[j])
  {
    if q != [] {
      WithoutKeepsOrder(q[1..], gone, f);
      assert forall x :: x in q[1..] ==> f(q[0]) <= f(x);
      forall i, j | 0 <= i < j < |Without(q, gone)|
        ensures f(Without(q, gone)[i]) <= f(Without(q, gone)[j])
      {
        assert Without(q, gone)[j] in Without(q[1..], gone) || q[0] in gone;
      }
    }
  }

  lemma {:induction false} WithoutNoDup<T(!new)>(q: seq<T>, gone: set<T>)
    requires NoDup(q)
    ensures NoDup(Without(q, gone))
  {
    if q != [] {
      WithoutNoDup(q[1..], gone);
      assert q[0] !in q[1..];
    }
  }

  /** Removing exactly the elements of a prefix leaves the corresponding suffix. */
  lemma {:induction false} WithoutPrefix<T(!new)>(q: seq<T>, gone: set<T>, n: nat)
    requires n <= |q| && NoDup(q)
    requires forall i :: 0 <= i < |q| ==> (q[i] in gone <==> i < n)
    ensures Without(q, gone) == q[n..]
  {
    if q != [] {
      WithoutPrefix(q[1..], gone, if n == 0 then 0 else n - 1);
    }
  }

  lemma Assoc<T>(x: seq<T>, y: seq<T>, z: seq<T>)
    ensures x + (y + z) == x + y + z
  {
  }

  // ----- numbers

  /** Digits as a number, most significant first. */
  function Number(d: seq<int>, base: nat): int {
    if d == [] then 0 else Number(d[..|d| - 1], base) * base + d[|d| - 1]
  }

  /** One more digit at the end. */
  lemma NumberNext(d: seq<int>, x: int, base: nat)
    ensures Number(d + [x], base) == Number(d, base) * base + x
  {
    assert (d + [x])[..|d|] == d;
  }

  lemma NumberNext2(d: seq<int>, x: int, y: int, base: nat)
    ensures Number(d + [x, y], base) == (Number(d, base) * base + x) * base + y
  {
    NumberNext(d, x, base);
    NumberNext(d + [x], y, base);
    assert d + [x] + [y] == d + [x, y];
  }

  // ----- powers of two and quotients

  /** x << k. */
  function Shl(x: nat, k: nat): (r: nat)
    ensures r >= x
  {
    if k == 0 then x else 2 * Shl(x, k - 1)
  }

  /** 1 << k. */
  function Pow2(k: nat): nat { Shl(1, k) }

  lemma PowersOfTwo()
    ensures Pow2(0) == 1 && Pow2(1) == 2 && Pow2(2) == 4 && Pow2(3) == 8 && Pow2(4) == 16
  {
    assert Shl(1, 2) == 2 * Shl(1, 1) && Shl(1, 3) == 2 * Shl(1, 2) && Shl(1, 4) == 2 * Shl(1, 3);
  }

  lemma Times(d: int, n: int)
    requires n > 0
    ensures d > 0 ==> d * n >= n
    ensures d < 0 ==> d * n <= -n
  {
  }

  lemma QuotientIs(q: int, n: int, x: int)
    requires n > 0 && q * n <= x < q * n + n
    ensures x / n == q && x % n == x - q * n
  {
    var d := x / n - q;
    assert x == x / n * n + x % n;
    assert d * n == x / n * n - q * n;
    Times(d, n);
  }
}
