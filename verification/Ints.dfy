/** The integer helpers the headers declare (\int_min, \int_max), and finite sets of integers. */
module Ints {

  function Min(a: int, b: int): int { if a <= b then a else b }

  function Max(a: int, b: int): int { if a >= b then a else b }

  predicate Least(m: int, s: set<int>) { m in s && forall i <- s :: m <= i }

  predicate Greatest(m: int, s: set<int>) { m in s && forall i <- s :: i <= m }

  /** Taking one element away moves the extremes inward, and strictly exactly when the
      element was the extreme. */
  lemma ExtremesAfterRemoving(s: set<int>, k: int, lo: int, hi: int, lo': int, hi': int)
    requires k in s
    requires Least(lo, s) && Greatest(hi, s) && Least(lo', s - {k}) && Greatest(hi', s - {k})
    ensures lo' >= lo && hi' <= hi
    ensures lo' > lo <==> k == lo
    ensures hi' < hi <==> k == hi
  {
    assert k == lo || lo in s - {k};
    assert k == hi || hi in s - {k};
  }

  lemma GreatestDrops(s: set<int>, hi: int, hi': int)
    requires Greatest(hi, s) && Greatest(hi', s - {hi})
    ensures hi' < hi
  {
  }

  /** C's int */
  newtype int32 = i: int | -0x8000_0000 <= i < 0x8000_0000

  const INT_MAX: int := 0x7fff_ffff

  const INT_MIN: int := -0x8000_0000

  predicate StrictlySorted(s: seq<int>) {
    forall i, j :: 0 <= i < j < |s| ==> s[i] < s[j]
  }

  /** `n, n+1, ..., n+len-1` */
  function Count(n: int, len: nat): (s: seq<int>)
    ensures |s| == len && forall i :: 0 <= i < len ==> s[i] == n + i
  {
    seq(len, i => n + i)
  }
}
