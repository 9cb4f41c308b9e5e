/** The function `permutations` of heaps/pred-gen-list.js: all injective selections from a
    list, row by row of increasing length. */
module Permutations {
  import opened Sequences

  function Without<T>(s: seq<T>, i: nat): seq<T>
    requires i < |s|
  {
    s[..i] + s[i + 1..]
  }

  /** Every element of `ps` with `front` put before it. */
  function Extend<T>(front: seq<T>, ps: seq<seq<T>>): (r: seq<seq<T>>)
    ensures |r| == |ps| && forall j :: 0 <= j < |ps| ==> r[j] == front + ps[j]
  {
    seq(|ps|, j requires 0 <= j < |ps| => front + ps[j])
  }

  /** The selections of length `k` from `rest`, in the order the recursion visits them. */
  function Perms<T>(rest: seq<T>, k: nat): seq<seq<T>>
    decreases k, |rest| + 1
  {
    if k == 0 then [[]] else Branches(rest, k, |rest|)
  }

  /** Those that start with one of the first `n` elements of `rest`. */
  function Branches<T>(rest: seq<T>, k: nat, n: nat): seq<seq<T>>
    requires k > 0 && n <= |rest|
    decreases k, n
  {
    if n == 0 then []
    else Branches(rest, k, n - 1) + Extend([rest[n - 1]], Perms(Without(rest, n - 1), k - 1))
  }

  // ----- The program -----

  /** What `go(curr, rest)` appends to row `r`. */
  function Added<T>(curr: seq<T>, rest: seq<T>, r: nat): seq<seq<T>> {
    if r < |curr| then [] else Extend(curr, Perms(rest, r - |curr|))
  }

  /** What it has appended after the first `n` turns of its loop. */
  function AddedSoFar<T>(curr: seq<T>, rest: seq<T>, n: nat, r: nat): seq<seq<T>>
    requires n <= |rest|
  {
    if r < |curr| then []
    else if r == |curr| then [curr]
    else Extend(curr, Branches(rest, r - |curr|, n))
  }

  lemma AddedStep<T>(curr: seq<T>, rest: seq<T>, n: nat, r: nat)
    requires n < |rest|
    ensures AddedSoFar(curr, rest, n + 1, r) ==
            AddedSoFar(curr, rest, n, r) + Added(curr + [rest[n]], Without(rest, n), r)
  {
    if r > |curr| {
      var k := r - |curr|;
      var ps := Perms(Without(rest, n), k - 1);
      var bs := Branches(rest, k, n);
      assert Extend(curr, bs + Extend([rest[n]], ps)) == Extend(curr, bs) + Extend(curr, Extend([rest[n]], ps));
      assert Extend(curr, Extend([rest[n]], ps)) == Extend(curr + [rest[n]], ps) by {
        forall j | 0 <= j < |ps| ensures curr + ([rest[n]] + ps[j]) == curr + [rest[n]] + ps[j] { }
      }
    }
  }

  lemma AddedWhole<T>(curr: seq<T>, rest: seq<T>, r: nat)
    ensures AddedSoFar(curr, rest, |rest|, r) == Added(curr, rest, r)
  {
    assert curr + [] == curr;
    assert Extend(curr, [[]]) == [curr];
  }

  /** The rows after the first `n` turns of the loop in `go(curr, rest)`. */
  ghost predicate Grown<T>(res0: seq<seq<seq<T>>>, res: seq<seq<seq<T>>>, curr: seq<T>, rest: seq<T>, n: nat)
    requires n <= |rest|
  {
    |res| == |res0| && forall r :: 0 <= r < |res| ==> res[r] == res0[r] + AddedSoFar(curr, rest, n, r)
  }

  /** The rows after a whole call of `go(curr, rest)`. */
  ghost predicate GrownBy<T>(res0: seq<seq<seq<T>>>, res: seq<seq<seq<T>>>, curr: seq<T>, rest: seq<T>) {
    |res| == |res0| && forall r :: 0 <= r < |res| ==> res[r] == res0[r] + Added(curr, rest, r)
  }

  lemma GrownStart<T>(res0: seq<seq<seq<T>>>, curr: seq<T>, rest: seq<T>)
    requires |curr| < |res0|
    ensures Grown(res0, res0[|curr| := res0[|curr|] + [curr]], curr, rest, 0)
  {
  }

  lemma GrownStep<T>(res0: seq<seq<seq<T>>>, res1: seq<seq<seq<T>>>, res2: seq<seq<seq<T>>>, curr: seq<T>, rest: seq<T>, n: nat)
    requires n < |rest| && Grown(res0, res1, curr, rest, n)
    requires GrownBy(res1, res2, curr + [rest[n]], Without(rest, n))
    ensures Grown(res0, res2, curr, rest, n + 1)
  {
    forall r | 0 <= r < |res2| ensures res2[r] == res0[r] + AddedSoFar(curr, rest, n + 1, r) {
      AddedStep(curr, rest, n, r);
      Regroup(res0[r], AddedSoFar(curr, rest, n, r), Added(curr + [rest[n]], Without(rest, n), r),
              AddedSoFar(curr, rest, n + 1, r));
    }
  }

  lemma GrownWhole<T>(res0: seq<seq<seq<T>>>, res: seq<seq<seq<T>>>, curr: seq<T>, rest: seq<T>)
    requires Grown(res0, res, curr, rest, |rest|)
    ensures GrownBy(res0, res, curr, rest)
  {
    forall r | 0 <= r < |res| ensures res[r] == res0[r] + Added(curr, rest, r) {
      AddedWhole(curr, rest, r);
    }
  }

  /** The closure `go` together with the array `res` it appends to. */
  class Rows<T> {
    var res: seq<seq<seq<T>>>

    constructor (n: nat)
      ensures |res| == n + 1 && forall r :: 0 <= r <= n ==> res[r] == []
    {
      res := seq(n + 1, _ => []);
    }

    method Go(curr: seq<T>, rest: seq<T>)
      requires |curr| + |rest| < |res|
      modifies this
      ensures GrownBy(old(res), res, curr, rest)
      decreases |rest|
    {
      ghost var res0 := res;
      GrownStart(res0, curr, rest);
      res := res[|curr| := res[|curr|] + [curr]];
      if rest == [] {
        GrownWhole(res0, res, curr, rest);
        return;
      }
      for i := 0 to |rest|
        invariant Grown(res0, res, curr, rest, i)
      {
        ghost var res1 := res;
        Go(curr + [rest[i]], Without(rest, i));
        GrownStep(res0, res1, res, curr, rest, i);
      }
      GrownWhole(res0, res, curr, rest);
    }
  }

  /** permutations(list) */
  method AllPermutations<T>(list: seq<T>) returns (rows: seq<seq<seq<T>>>)
    ensures |rows| == |list| + 1
    ensures forall k :: 0 <= k <= |list| ==> rows[k] == Perms(list, k)
  {
    var g := new Rows<T>(|list|);
    g.Go([], list);
    rows := g.res;
    forall k | 0 <= k <= |list| ensures rows[k] == Perms(list, k) {
      var ps := Perms(list, k);
      assert forall j :: 0 <= j < |ps| ==> [] + ps[j] == ps[j];
      assert Added([], list, k) == ps;
    }
  }

  // ----- What a row holds -----

  lemma WithoutMultiset<T>(s: seq<T>, i: nat)
    requires i < |s|
    ensures multiset(s) == multiset(Without(s, i)) + multiset{s[i]}
  {
    assert s == s[..i] + [s[i]] + s[i + 1..];
  }

  /** A selection of length k: k elements, none taken more often than the list has it. */
  ghost predicate Selection<T>(rest: seq<T>, k: nat, p: seq<T>) {
    |p| == k && multiset(p) <= multiset(rest)
  }

  lemma {:induction false} PermsAreSelections<T>(rest: seq<T>, k: nat, p: seq<T>)
    requires p in Perms(rest, k)
    ensures Selection(rest, k, p)
    decreases k, |rest| + 1
  {
    if k > 0 { BranchesAreSelections(rest, k, |rest|, p); }
  }

  lemma {:induction false} BranchesAreSelections<T>(rest: seq<T>, k: nat, n: nat, p: seq<T>)
    requires k > 0 && n <= |rest| && p in Branches(rest, k, n)
    ensures Selection(rest, k, p) && p[0] in rest[..n]
    decreases k, n
  {
    if p in Branches(rest, k, n - 1) {
      BranchesAreSelections(rest, k, n - 1, p);
    } else {
      var ps := Perms(Without(rest, n - 1), k - 1);
      var j :| 0 <= j < |ps| && p == [rest[n - 1]] + ps[j];
      PermsAreSelections(Without(rest, n - 1), k - 1, ps[j]);
      WithoutMultiset(rest, n - 1);
    }
  }

  /** Without its first element a selection is one from what then remains. */
  lemma RestIsSelection<T>(rest: seq<T>, k: nat, p: seq<T>) returns (i: nat)
    requires k > 0 && Selection(rest, k, p)
    ensures i < |rest| && rest[i] == p[0] && Selection(Without(rest, i), k - 1, p[1..])
  {
    assert p == [p[0]] + p[1..];
    assert p[0] in multiset(p);
    assert p[0] in multiset(rest);
    i :| 0 <= i < |rest| && rest[i] == p[0];
    WithoutMultiset(rest, i);
    assert multiset(p) == multiset{p[0]} + multiset(p[1..]);
    forall x ensures multiset(p[1..])[x] <= multiset(Without(rest, i))[x] {
      assert multiset(p)[x] <= multiset(rest)[x];
    }
  }

  lemma {:induction false} SelectionsArePerms<T>(rest: seq<T>, k: nat, p: seq<T>)
    requires Selection(rest, k, p)
    ensures p in Perms(rest, k)
    decreases k
  {
    if k > 0 {
      var i := RestIsSelection(rest, k, p);
      SelectionsArePerms(Without(rest, i), k - 1, p[1..]);
      InBranch(rest, k, i, |rest|, p);
    }
  }

  lemma {:induction false} InBranch<T>(rest: seq<T>, k: nat, i: nat, n: nat, p: seq<T>)
    requires k > 0 && i < n <= |rest| && p != [] && p[0] == rest[i]
    requires p[1..] in Perms(Without(rest, i), k - 1)
    ensures p in Branches(rest, k, n)
    decreases n
  {
    if i < n - 1 {
      InBranch(rest, k, i, n - 1, p);
    } else {
      var ps := Perms(Without(rest, i), k - 1);
      var j :| 0 <= j < |ps| && ps[j] == p[1..];
      assert p == [rest[i]] + p[1..];
      assert Extend([rest[i]], ps)[j] == p;
    }
  }

  lemma DistinctWithout<T>(s: seq<T>, i: nat)
    requires Distinct(s) && i < |s|
    ensures Distinct(Without(s, i)) && s[i] !in Without(s, i)
  {
  }

  lemma {:induction false} DistinctMultiset<T>(s: seq<T>)
    ensures Distinct(s) <==> forall x :: multiset(s)[x] <= 1
    decreases |s|
  {
    if s != [] {
      var (h, t) := (s[0], s[1..]);
      assert s == [h] + t;
      DistinctMultiset(t);
      assert forall i :: 0 <= i < |t| ==> t[i] == s[i + 1];
      if Distinct(s) {
        assert h !in t;
        forall x ensures multiset(s)[x] <= 1 { assert multiset(t)[h] == 0; }
      }
      if forall x :: multiset(s)[x] <= 1 {
        forall x ensures multiset(t)[x] <= 1 { assert multiset(s)[x] >= multiset(t)[x]; }
        assert multiset(s)[h] == 1 + multiset(t)[h];
        assert h !in t;
        forall i, j | 0 <= i < j < |s| ensures s[i] != s[j] {
          assert i > 0 ==> t[i - 1] != t[j - 1];
        }
      }
    }
  }

  /** Row k holds exactly the injective length-k sequences over a list without repetition. */
  lemma RowIsInjections<T>(list: seq<T>, k: nat, p: seq<T>)
    requires Distinct(list)
    ensures p in Perms(list, k) <==> |p| == k && Distinct(p) && forall x :: x in p ==> x in list
  {
    DistinctMultiset(list);
    DistinctMultiset(p);
    if p in Perms(list, k) {
      PermsAreSelections(list, k, p);
      forall x ensures multiset(p)[x] <= 1 { assert multiset(p)[x] <= multiset(list)[x]; }
      forall x | x in p ensures x in list { assert x in multiset(p); assert x in multiset(list); }
    }
    if |p| == k && Distinct(p) && forall x :: x in p ==> x in list {
      forall x ensures multiset(p)[x] <= multiset(list)[x] {
        if x in p { assert x in multiset(list); }
      }
      SelectionsArePerms(list, k, p);
    }
  }

  /** ... each of them exactly once. */
  lemma {:induction false} RowHasNoRepeats<T>(list: seq<T>, k: nat)
    requires Distinct(list)
    ensures Distinct(Perms(list, k))
    decreases k, |list| + 1
  {
    if k > 0 { BranchesHaveNoRepeats(list, k, |list|); }
  }

  lemma {:induction false} BranchesHaveNoRepeats<T>(rest: seq<T>, k: nat, n: nat)
    requires Distinct(rest) && k > 0 && n <= |rest|
    ensures Distinct(Branches(rest, k, n))
    decreases k, n
  {
    if n > 0 {
      BranchesHaveNoRepeats(rest, k, n - 1);
      DistinctWithout(rest, n - 1);
      RowHasNoRepeats(Without(rest, n - 1), k - 1);
      var before := Branches(rest, k, n - 1);
      var ps := Perms(Without(rest, n - 1), k - 1);
      var added := Extend([rest[n - 1]], ps);
      forall i, j | 0 <= i < j < |added| ensures added[i] != added[j] {
        assert added[i][1..] == ps[i] && added[j][1..] == ps[j];
      }
      forall i, j | 0 <= i < |before| && 0 <= j < |added| ensures before[i] != added[j] {
        BranchesAreSelections(rest, k, n - 1, before[i]);
        assert added[j][0] == rest[n - 1];
      }
    }
  }

  // ----- In which order -----

  /** `x` stands before `y` in the list. */
  ghost predicate StandsBefore<T>(list: seq<T>, x: T, y: T) {
    exists i, j :: 0 <= i < j < |list| && list[i] == x && list[j] == y
  }

  /** Lexicographic order, by position in the list: at the first difference, at `m`. */
  ghost predicate Precedes<T>(list: seq<T>, p: seq<T>, q: seq<T>) {
    exists m :: 0 <= m < |p| && m < |q| && p[..m] == q[..m] && StandsBefore(list, p[m], q[m])
  }

  ghost predicate Ascending<T>(list: seq<T>, ps: seq<seq<T>>) {
    forall x, y :: 0 <= x < y < |ps| ==> Precedes(list, ps[x], ps[y])
  }

  lemma WithoutKeepsOrder<T>(list: seq<T>, n: nat, p: seq<T>, q: seq<T>)
    requires n < |list| && Precedes(Without(list, n), p, q)
    ensures Precedes(list, p, q)
  {
    var rest := Without(list, n);
    var m :| 0 <= m < |p| && m < |q| && p[..m] == q[..m] && StandsBefore(rest, p[m], q[m]);
    var i, j :| 0 <= i < j < |rest| && rest[i] == p[m] && rest[j] == q[m];
    var (i', j') := (if i < n then i else i + 1, if j < n then j else j + 1);
    assert list[i'] == p[m] && list[j'] == q[m] && i' < j';
    assert StandsBefore(list, p[m], q[m]);
  }

  lemma FrontKeepsOrder<T>(list: seq<T>, x: T, p: seq<T>, q: seq<T>)
    requires Precedes(list, p, q)
    ensures Precedes(list, [x] + p, [x] + q)
  {
    var m :| 0 <= m < |p| && m < |q| && p[..m] == q[..m] && StandsBefore(list, p[m], q[m]);
    var (s, t) := ([x] + p, [x] + q);
    assert s[..m + 1] == [x] + p[..m] && t[..m + 1] == [x] + q[..m];
    assert s[m + 1] == p[m] && t[m + 1] == q[m];
  }

  /** Row k is in lexicographic order of positions, so the place of a selection is fixed. */
  lemma {:induction false} RowInOrder<T>(list: seq<T>, k: nat)
    ensures Ascending(list, Perms(list, k))
    decreases k, |list| + 1
  {
    if k > 0 { BranchesInOrder(list, k, |list|); }
  }

  lemma {:induction false} BranchesInOrder<T>(list: seq<T>, k: nat, n: nat)
    requires k > 0 && n <= |list|
    ensures Ascending(list, Branches(list, k, n))
    decreases k, n
  {
    if n > 0 {
      BranchesInOrder(list, k, n - 1);
      RowInOrder(Without(list, n - 1), k - 1);
      var before := Branches(list, k, n - 1);
      var ps := Perms(Without(list, n - 1), k - 1);
      var added := Extend([list[n - 1]], ps);
      forall x, y | 0 <= x < y < |added| ensures Precedes(list, added[x], added[y]) {
        WithoutKeepsOrder(list, n - 1, ps[x], ps[y]);
        FrontKeepsOrder(list, list[n - 1], ps[x], ps[y]);
      }
      forall x, y | 0 <= x < |before| && 0 <= y < |added| ensures Precedes(list, before[x], added[y]) {
        EarlierBranch(list, k, n - 1, before[x], added[y]);
      }
    }
  }

  /** A selection of an earlier branch starts with an earlier element. */
  lemma EarlierBranch<T>(list: seq<T>, k: nat, n: nat, p: seq<T>, q: seq<T>)
    requires k > 0 && n < |list| && p in Branches(list, k, n) && q != [] && q[0] == list[n]
    ensures Precedes(list, p, q)
  {
    BranchesAreSelections(list, k, n, p);
    var i :| 0 <= i < n && list[i] == p[0];
    assert StandsBefore(list, p[0], q[0]);
    assert p[..0] == q[..0];
  }

  // ----- How many -----

  /** n (n-1) ... (n-k+1) */
  function Falling(n: nat, k: nat): nat
    decreases k
  {
    if k == 0 then 1 else if n == 0 then 0 else n * Falling(n - 1, k - 1)
  }

  /** Row k has n (n-1) ... (n-k+1) entries, repetitions in the list or not. */
  lemma {:induction false} RowCount<T>(list: seq<T>, k: nat)
    ensures |Perms(list, k)| == Falling(|list|, k)
    decreases k, |list| + 1
  {
    if k > 0 {
      BranchCount(list, k, |list|);
      if list != [] { TimesIsProduct(|list|, Falling(|list| - 1, k - 1)); }
    }
  }

  /** Repeated addition, to keep products out of the way. */
  function Times(n: nat, f: nat): nat {
    if n == 0 then 0 else Times(n - 1, f) + f
  }

  lemma {:induction false} TimesIsProduct(n: nat, f: nat)
    ensures Times(n, f) == n * f
  {
    if n > 0 {
      TimesIsProduct(n - 1, f);
      assert (n - 1) * f + f == n * f;
    }
  }

  lemma {:induction false} BranchCount<T>(rest: seq<T>, k: nat, n: nat)
    requires k > 0 && n <= |rest|
    ensures |Branches(rest, k, n)| == Times(n, if rest == [] then 0 else Falling(|rest| - 1, k - 1))
    decreases k, n
  {
    if n > 0 {
      BranchCount(rest, k, n - 1);
      RowCount(Without(rest, n - 1), k - 1);
    }
  }

  function Factorial(n: nat): nat { if n == 0 then 1 else n * Factorial(n - 1) }

  /** n! / (n-k)!, without the division. */
  lemma {:induction false} FallingIsFactorialQuotient(n: nat, k: nat)
    requires k <= n
    ensures Falling(n, k) * Factorial(n - k) == Factorial(n)
    decreases k
  {
    if k > 0 {
      FallingIsFactorialQuotient(n - 1, k - 1);
      TimesAssociates(n, Falling(n - 1, k - 1), Factorial(n - k));
    }
  }

  lemma TimesAssociates(a: int, b: int, c: int)
    ensures (a * b) * c == a * (b * c)
  {
  }
}
