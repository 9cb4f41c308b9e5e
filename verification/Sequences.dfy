/** Facts about sequences that several modules need. */
module Sequences {

  ghost predicate Distinct<T>(s: seq<T>) {
    forall i, j :: 0 <= i < j < |s| ==> s[i] != s[j]
  }

  lemma DistinctConcat<T>(a: seq<T>, b: seq<T>)
    ensures Distinct(a + b) <==> Distinct(a) && Distinct(b) && forall x :: x in a ==> x !in b
  {
    if Distinct(a + b) {
      PartsDistinct(a, b);
    }
    if Distinct(a) && Distinct(b) && forall x :: x in a ==> x !in b {
      forall i, j | 0 <= i < j < |a + b| ensures (a + b)[i] != (a + b)[j] {
        assert i < |a| ==> a[i] in a;
        assert j >= |a| ==> (a + b)[j] in b;
      }
    }
  }

  lemma PartsDistinct<T>(a: seq<T>, b: seq<T>)
    requires Distinct(a + b)
    ensures Distinct(a) && Distinct(b) && forall x :: x in a ==> x !in b
  {
    var s := a + b;
    forall i, j | 0 <= i < j < |a| ensures a[i] != a[j] { assert s[i] != s[j]; }
    forall i, j | 0 <= i < j < |b| ensures b[i] != b[j] { assert s[|a| + i] != s[|a| + j]; }
    forall i, j | 0 <= i < |a| && 0 <= j < |b| ensures a[i] != b[j] { assert s[i] != s[|a| + j]; }
  }

  lemma Regroup<T>(x: seq<T>, a: seq<T>, b: seq<T>, c: seq<T>)
    requires c == a + b
    ensures x + c == (x + a) + b
  {
  }

  /** The first `n` sequences, one after the other. */
  function Concat<T>(ls: seq<seq<T>>, n: nat): seq<T>
    requires n <= |ls|
  {
    if n == 0 then [] else Concat(ls, n - 1) + ls[n - 1]
  }

  lemma {:induction false} ConcatGrows<T>(ls: seq<seq<T>>, m: nat, n: nat)
    requires m <= n <= |ls|
    ensures Concat(ls, m) <= Concat(ls, n)
  {
    if m < n { ConcatGrows(ls, m, n - 1); }
  }

  lemma {:induction false} IntoConcat<T>(ls: seq<seq<T>>, n: nat, m: nat, x: T)
    requires m < n <= |ls| && x in ls[m]
    ensures x in Concat(ls, n)
  {
    if m < n - 1 { IntoConcat(ls, n - 1, m, x); }
  }

  lemma {:induction false} FromConcat<T>(ls: seq<seq<T>>, n: nat, x: T) returns (m: nat)
    requires n <= |ls| && x in Concat(ls, n)
    ensures m < n && x in ls[m]
  {
    if x in Concat(ls, n - 1) { m := FromConcat(ls, n - 1, x); } else { m := n - 1; }
  }
}
