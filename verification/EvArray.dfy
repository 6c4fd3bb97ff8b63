/** Growth of libev's arrays: array_nextsize and array_needsize of extern/libev/ev.c. */
module EvArray {

  const MALLOC_ROUND: nat := 4096
  const SIZEOF_VOIDP: nat := 8

  /** x & ~(MALLOC_ROUND - 1), for a power of two. */
  function RoundDown(x: nat): (r: nat)
    ensures x - MALLOC_ROUND < r <= x && r % MALLOC_ROUND == 0
  {
    x - x % MALLOC_ROUND
  }

  lemma {:induction false} RoundedSizeSuffices(elem: nat, ncur: nat)
    requires elem > 0
    ensures (RoundDown(elem * ncur + elem + (MALLOC_ROUND - 1) + SIZEOF_VOIDP * 4) - SIZEOF_VOIDP * 4) / elem >= ncur + 1
  {
    var bytes := RoundDown(elem * ncur + elem + (MALLOC_ROUND - 1) + SIZEOF_VOIDP * 4) - SIZEOF_VOIDP * 4;
    assert bytes >= elem * ncur + elem == elem * (ncur + 1);
    QuotientAtLeast(bytes, elem, ncur + 1);
  }

  lemma {:induction false} QuotientAtLeast(x: nat, d: nat, k: nat)
    requires d > 0 && x >= d * k
    ensures x / d >= k
  {
    assert x == d * (x / d) + x % d;
    if x / d < k {
      MulMonotone(d, x / d + 1, k);
    }
  }

  lemma MulMonotone(d: nat, a: nat, b: nat)
    requires a <= b
    ensures d * a <= d * b
  {
  }

  lemma RoundedSizeIsNear(elem: nat, ncur: nat)
    requires elem > 0
    ensures var r := (RoundDown(elem * ncur + elem + (MALLOC_ROUND - 1) + SIZEOF_VOIDP * 4) - SIZEOF_VOIDP * 4) / elem;
      elem * r < elem * ncur + elem + MALLOC_ROUND
  {
    var bytes := RoundDown(elem * ncur + elem + (MALLOC_ROUND - 1) + SIZEOF_VOIDP * 4) - SIZEOF_VOIDP * 4;
    assert bytes == elem * (bytes / elem) + bytes % elem;
  }

  function Max(a: nat, b: nat): nat {
    if a < b then b else a
  }

  /** The doubling: at least what is needed, and no more than twice that. */
  method Doubled(cur: nat, cnt: nat) returns (ncur: nat)
    ensures cnt <= ncur && 2 * (cur + 1) <= ncur <= 2 * Max(cur + 1, cnt)
  {
    ncur := (cur + 1) * 2;
    while cnt > ncur
      invariant 2 * (cur + 1) <= ncur <= 2 * Max(cur + 1, cnt)
      decreases cnt - ncur
    {
      ncur := ncur * 2;
    }
  }

  /**
   * The new size holds cnt entries and is at least twice the old one, through every rounding; and in bytes
   * it is no more than twice what is needed, one entry and one chunk.
   */
  method ArrayNextSize(elem: nat, cur: nat, cnt: nat) returns (ncur: nat)
    requires elem > 0
    ensures cnt <= ncur && 2 * (cur + 1) <= ncur
    ensures elem * ncur < elem * (2 * Max(cur + 1, cnt)) + elem + MALLOC_ROUND
  {
    ncur := Doubled(cur, cnt);
    MulMonotone(elem, ncur, 2 * Max(cur + 1, cnt));
    if elem * ncur > MALLOC_ROUND - SIZEOF_VOIDP * 4 {
      RoundedSizeSuffices(elem, ncur);
      RoundedSizeIsNear(elem, ncur);
      ncur := elem * ncur;
      ncur := RoundDown(ncur + elem + (MALLOC_ROUND - 1) + SIZEOF_VOIDP * 4);
      ncur := ncur - SIZEOF_VOIDP * 4;
      ncur := ncur / elem;
    }
  }

  /** array_needsize: the same array when it is large enough, otherwise a copy with more room. */
  method NeedSize<T>(base: array<T>, elem: nat, cnt: nat, filler: T) returns (grown: array<T>)
    requires elem > 0
    ensures cnt <= grown.Length && base.Length <= grown.Length
    ensures grown[..base.Length] == base[..]
    ensures grown == base || fresh(grown)
  {
    grown := NeedSizeFilled(base, elem, cnt, filler);
  }

  /** array_needsize with an initialiser for the new entries. */
  method NeedSizeFilled<T>(base: array<T>, elem: nat, cnt: nat, filler: T) returns (grown: array<T>)
    requires elem > 0
    ensures cnt <= grown.Length && base.Length <= grown.Length
    ensures grown[..base.Length] == base[..]
    ensures forall i :: base.Length <= i < grown.Length ==> grown[i] == filler
    ensures grown == base || fresh(grown)
  {
    if cnt <= base.Length {
      return base;
    }
    var n := ArrayNextSize(elem, base.Length, cnt);
    grown := new T[n](i requires 0 <= i reads base => if i < base.Length then base[i] else filler);
    assert forall i :: 0 <= i < base.Length ==> grown[..base.Length][i] == base[i];
  }
}
