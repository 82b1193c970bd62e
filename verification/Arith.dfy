/** Powers of two, alignment, tables and least elements, shared by the allocator models. */
module Arith {

  function Pow2(n: nat): (p: nat)
    ensures p > 0
  {
    if n == 0 then 1 else 2 * Pow2(n - 1)
  }

  ghost predicate IsPow2(r: nat) { exists k: nat :: r == Pow2(k) }

  lemma {:induction false} Pow2Monotone(m: nat, n: nat)
    requires m <= n
    ensures Pow2(m) <= Pow2(n)
  {
    if m < n { Pow2Monotone(m, n - 1); }
  }

  lemma MulMonotone(x: int, y: int, d: nat)
    requires x <= y
    ensures x * d <= y * d
  {
  }

  /** The quotient is the only multiple that leaves a small remainder. */
  lemma QuotientIs(x: nat, q: nat, d: nat)
    requires d > 0 && q * d <= x < q * d + d
    ensures x / d == q && x % d == x - q * d
  {
    var p := x / d;
    assert x == p * d + x % d;
    if p > q { MulMonotone(q + 1, p, d); }
    if p < q { MulMonotone(p + 1, q, d); }
  }

  lemma QuotientAbove(x: nat, d: nat, s: nat)
    requires d > 0
    ensures x / d > s <==> x >= (s + 1) * d
  {
    var q := x / d;
    assert x == q * d + x % d;
    if q > s { MulMonotone(s + 1, q, d); } else { MulMonotone(q, s, d); }
  }

  predicate Multiple(x: int, d: nat)
    requires d > 0
  {
    x % d == 0
  }

  /** Distance to the next multiple of the alignment. */
  function Gap(x: nat, alignment: nat): (g: nat)
    requires alignment > 0
    ensures g < alignment && Multiple(x + g, alignment)
  {
    var q, r := x / alignment, x % alignment;
    assert x == q * alignment + r;
    if r == 0 then 0 else
      assert x + (alignment - r) == (q + 1) * alignment;
      QuotientIs(x + (alignment - r), q + 1, alignment);
      alignment - r
  }

  function AlignUp(x: nat, alignment: nat): nat
    requires alignment > 0
  {
    x + Gap(x, alignment)
  }

  /** The first entry of a table from i on that is not below a size; its length if there is
      none. */
  function CeilFrom(table: seq<nat>, size: nat, i: nat): (r: nat)
    requires i <= |table|
    ensures i <= r <= |table|
    ensures forall j :: i <= j < r ==> table[j] < size
    ensures r < |table| ==> size <= table[r]
    decreases |table| - i
  {
    if i == |table| || size <= table[i] then i else CeilFrom(table, size, i + 1)
  }

  /** A set has an element that no other comes before. */
  lemma {:induction false} LeastExists<T(!new)>(s: set<T>, before: (T, T) -> bool) returns (m: T)
    requires s != {}
    requires forall x :: !before(x, x)
    requires forall x, y, z :: before(x, y) && before(y, z) ==> before(x, z)
    ensures m in s && forall x :: x in s ==> !before(x, m)
  {
    var x :| x in s;
    if s == {x} {
      m := x;
    } else {
      var y := LeastExists(s - {x}, before);
      m := if before(x, y) then x else y;
      forall z | z in s ensures !before(z, m) {
        if z != x { assert z in s - {x}; }
      }
    }
  }
}
