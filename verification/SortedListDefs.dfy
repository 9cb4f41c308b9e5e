/** The sorted list node of heaps/grass/sls/dryad_sls.h, its recursive definitions, and the
    stable merge of two lists. */
module SortedListDefs {
  import opened Ints

  /** struct s_node */
  class ListNode {
    var key: int
    var next: ListNode?
  }

  /** One list element as a value: the node carrying it and the node's key. */
  datatype Item = Item(node: ListNode, key: int)

  ghost function Nodes(s: seq<Item>): set<ListNode> { set i <- s :: i.node }

  /** The node at position `i`, or null past the end. */
  function At(s: seq<Item>, i: nat): ListNode? { if i < |s| then s[i].node else null }

  /** Following `next` from `x` meets exactly the elements of `s`, then null. */
  ghost predicate Holds(x: ListNode?, s: seq<Item>)
    reads Nodes(s)
  {
    && x == At(s, 0)
    && forall i :: 0 <= i < |s| ==> s[i].node.key == s[i].key && s[i].node.next == At(s, i + 1)
  }

  ghost predicate Distinct(s: seq<Item>) {
    forall i, j :: 0 <= i < j < |s| ==> s[i].node != s[j].node
  }

  /** sll_min_key, over a non-empty list */
  function MinKey(s: seq<Item>): int
    requires s != []
  {
    if |s| == 1 then s[0].key else Min(s[0].key, MinKey(s[1..]))
  }

  /** sll_max_key, over a non-empty list */
  function MaxKey(s: seq<Item>): int
    requires s != []
  {
    if |s| == 1 then s[0].key else Max(s[0].key, MaxKey(s[1..]))
  }

  /** The predicate srtl. */
  ghost predicate Srtl(s: seq<Item>) {
    |s| >= 2 ==> Srtl(s[1..]) && s[0].node !in Nodes(s[1..]) && s[0].key <= MinKey(s[1..])
  }

  predicate Sorted(s: seq<Item>) {
    forall i, j :: 0 <= i < j < |s| ==> s[i].key <= s[j].key
  }

  lemma {:induction false} KeyExtremes(s: seq<Item>)
    requires s != []
    ensures forall i <- s :: MinKey(s) <= i.key <= MaxKey(s)
    ensures (exists i <- s :: i.key == MinKey(s)) && (exists i <- s :: i.key == MaxKey(s))
  {
    if |s| > 1 {
      KeyExtremes(s[1..]);
      assert forall i <- s :: i == s[0] || i in s[1..];
      assert s[0] in s;
    } else {
      assert s[0] in s;
    }
  }

  /** srtl, a comparison of each node with its successors' minimum, is pairwise order
      together with nodes that never repeat. */
  lemma {:induction false} SrtlIffSorted(s: seq<Item>)
    ensures Srtl(s) <==> Sorted(s) && Distinct(s)
  {
    if |s| >= 2 {
      var t := s[1..];
      SrtlIffSorted(t);
      KeyExtremes(t);
      assert s == [s[0]] + t;
      SortedCons(s[0], t);
      DistinctCons(s[0], t);
    }
  }

  // ----- Merging -----

  /** The stable merge: on equal keys the elements of `a` come first. */
  function Merge(a: seq<Item>, b: seq<Item>): seq<Item>
    decreases |a| + |b|
  {
    if a == [] then b
    else if b == [] then a
    else if a[0].key <= b[0].key then [a[0]] + Merge(a[1..], b)
    else [b[0]] + Merge(a, b[1..])
  }

  /** Nothing is lost or duplicated. */
  lemma {:induction false} MergeConserves(a: seq<Item>, b: seq<Item>)
    ensures multiset(Merge(a, b)) == multiset(a) + multiset(b)
    ensures |Merge(a, b)| == |a| + |b|
    decreases |a| + |b|
  {
    if a != [] && b != [] {
      if a[0].key <= b[0].key {
        assert a == [a[0]] + a[1..];
        MergeConserves(a[1..], b);
      } else {
        assert b == [b[0]] + b[1..];
        MergeConserves(a, b[1..]);
      }
    }
  }

  lemma MergeMembers(a: seq<Item>, b: seq<Item>)
    ensures forall i :: i in Merge(a, b) <==> i in a || i in b
  {
    MergeConserves(a, b);
    forall i ensures i in Merge(a, b) <==> i in a || i in b {
      assert i in multiset(Merge(a, b)) <==> i in multiset(a) || i in multiset(b);
    }
  }

  lemma HeadIsLeast(s: seq<Item>)
    requires Sorted(s) && s != []
    ensures forall i <- s :: s[0].key <= i.key
  {
  }

  lemma SortedCons(x: Item, s: seq<Item>)
    ensures Sorted([x] + s) <==> Sorted(s) && forall i <- s :: x.key <= i.key
  {
    var t := [x] + s;
    assert forall i :: 0 <= i < |s| ==> s[i] == t[i + 1];
    if Sorted(t) {
      forall i, j | 0 <= i < j < |s| ensures s[i].key <= s[j].key {
        assert t[i + 1].key <= t[j + 1].key;
      }
      forall i | 0 <= i < |s| ensures x.key <= s[i].key {
        assert t[0].key <= t[i + 1].key;
      }
    }
    if Sorted(s) && forall i <- s :: x.key <= i.key {
      forall i, j | 0 <= i < j < |t| ensures t[i].key <= t[j].key {
        assert t[j] == s[j - 1] && s[j - 1] in s;
      }
    }
  }

  lemma {:induction false} MergeSorted(a: seq<Item>, b: seq<Item>)
    requires Sorted(a) && Sorted(b)
    ensures Sorted(Merge(a, b))
    decreases |a| + |b|
  {
    if a != [] && b != [] {
      MergeMembers(a, b);
      if a[0].key <= b[0].key {
        MergeSorted(a[1..], b);
        assert Merge(a, b) == [a[0]] + Merge(a[1..], b);
        HeadFirst(a[0], a, b, Merge(a[1..], b));
      } else {
        MergeSorted(a, b[1..]);
        assert Merge(a, b) == [b[0]] + Merge(a, b[1..]);
        HeadFirst(b[0], a, b, Merge(a, b[1..]));
      }
    }
  }

  lemma HeadFirst(h: Item, a: seq<Item>, b: seq<Item>, rest: seq<Item>)
    requires Sorted(a) && Sorted(b) && Sorted(rest) && a != [] && b != []
    requires h.key <= a[0].key && h.key <= b[0].key
    requires forall i :: i in [h] + rest <==> i in a || i in b
    ensures Sorted([h] + rest)
  {
    forall i | i in rest ensures h.key <= i.key { assert i in [h] + rest; }
    SortedCons(h, rest);
  }

  /** The elements with key `k`, in order. */
  function OfKey(s: seq<Item>, k: int): seq<Item> {
    if s == [] then []
    else if s[0].key == k then [s[0]] + OfKey(s[1..], k)
    else OfKey(s[1..], k)
  }

  lemma {:induction false} OfKeyNone(s: seq<Item>, k: int)
    requires forall i <- s :: i.key != k
    ensures OfKey(s, k) == []
  {
    if s != [] {
      assert s[0] in s;
      OfKeyNone(s[1..], k);
    }
  }

  lemma {:induction false} OfKeySome(s: seq<Item>, k: int)
    requires OfKey(s, k) != []
    ensures exists i <- s :: i.key == k
  {
    if s[0].key == k {
      assert s[0] in s;
    } else {
      OfKeySome(s[1..], k);
    }
  }

  /** Stability: equal keys keep their order, those of `a` before those of `b`. */
  lemma {:induction false} MergeStable(a: seq<Item>, b: seq<Item>, k: int)
    requires Sorted(a) && Sorted(b)
    ensures OfKey(Merge(a, b), k) == OfKey(a, k) + OfKey(b, k)
    decreases |a| + |b|
  {
    if a != [] && b != [] {
      var (h, rest) := if a[0].key <= b[0].key then (a[0], Merge(a[1..], b)) else (b[0], Merge(a, b[1..]));
      assert ([h] + rest)[1..] == rest;
      if a[0].key <= b[0].key {
        MergeStable(a[1..], b, k);
      } else {
        MergeStable(a, b[1..], k);
        if b[0].key == k {
          HeadIsLeast(a);
          OfKeyNone(a, k);
        }
      }
    }
  }

  /** A sorted list is determined by its elements of each key; so `Merge` is the only
      sorted, stable, conserving combination of its arguments. */
  lemma {:induction false} SortedDetermined(r: seq<Item>, s: seq<Item>)
    requires Sorted(r) && Sorted(s)
    requires forall k :: OfKey(r, k) == OfKey(s, k)
    ensures r == s
    decreases |r| + |s|
  {
    assert r != [] ==> OfKey(r, r[0].key) != [];
    assert s != [] ==> OfKey(s, s[0].key) != [];
    if r == [] {
      assert s == [];
    } else {
      assert s != [];
      SameHead(r, s);
      forall k ensures OfKey(r[1..], k) == OfKey(s[1..], k) {
        assert OfKey(r, k) == OfKey(s, k);
        if r[0].key == k {
          assert OfKey(r[1..], k) == OfKey(r, k)[1..];
        }
      }
      SortedDetermined(r[1..], s[1..]);
      assert r == [r[0]] + r[1..] && s == [s[0]] + s[1..];
    }
  }

  lemma SameHead(r: seq<Item>, s: seq<Item>)
    requires Sorted(r) && Sorted(s) && r != [] && s != []
    requires forall k :: OfKey(r, k) == OfKey(s, k)
    ensures r[0] == s[0]
  {
    OfKeySome(s, r[0].key);
    OfKeySome(r, s[0].key);
    HeadIsLeast(r);
    HeadIsLeast(s);
    assert r[0].key == s[0].key;
    assert OfKey(r, r[0].key)[0] == r[0] && OfKey(s, r[0].key)[0] == s[0];
  }

  ghost predicate IsStableMerge(a: seq<Item>, b: seq<Item>, r: seq<Item>) {
    Sorted(r) && forall k :: OfKey(r, k) == OfKey(a, k) + OfKey(b, k)
  }

  lemma MergeIsTheStableMerge(a: seq<Item>, b: seq<Item>, r: seq<Item>)
    requires Sorted(a) && Sorted(b)
    ensures IsStableMerge(a, b, r) <==> r == Merge(a, b)
  {
    MergeSorted(a, b);
    forall k ensures OfKey(Merge(a, b), k) == OfKey(a, k) + OfKey(b, k) { MergeStable(a, b, k); }
    assert IsStableMerge(a, b, Merge(a, b));
    if IsStableMerge(a, b, r) { SortedDetermined(r, Merge(a, b)); }
  }

  // ----- Distinct nodes -----

  ghost predicate Apart(a: seq<Item>, b: seq<Item>) { Nodes(a) !! Nodes(b) }

  lemma NodeAt(s: seq<Item>, i: nat)
    requires i < |s|
    ensures s[i].node in Nodes(s)
  {
    assert s[i] in s;
  }

  lemma DistinctCons(x: Item, s: seq<Item>)
    ensures Distinct([x] + s) <==> Distinct(s) && x.node !in Nodes(s)
  {
    var t := [x] + s;
    assert forall i :: 0 <= i < |s| ==> s[i] == t[i + 1];
    if Distinct(t) {
      forall i | i in s ensures i.node != x.node {
        var j :| 0 <= j < |s| && s[j] == i;
        assert t[0].node != t[j + 1].node;
      }
    }
    if Distinct(s) && x.node !in Nodes(s) {
      forall i, j | 0 <= i < j < |t| ensures t[i].node != t[j].node {
        NodeAt(s, j - 1);
      }
    }
  }

  lemma {:induction false} MergeDistinct(a: seq<Item>, b: seq<Item>)
    requires Distinct(a) && Distinct(b) && Apart(a, b)
    ensures Distinct(Merge(a, b)) && Nodes(Merge(a, b)) == Nodes(a) + Nodes(b)
    decreases |a| + |b|
  {
    MergeMembers(a, b);
    if a != [] && b != [] {
      if a[0].key <= b[0].key {
        assert a == [a[0]] + a[1..];
        DistinctCons(a[0], a[1..]);
        MergeDistinct(a[1..], b);
        NodeAt(a, 0);
        DistinctCons(a[0], Merge(a[1..], b));
      } else {
        assert b == [b[0]] + b[1..];
        DistinctCons(b[0], b[1..]);
        MergeDistinct(a, b[1..]);
        NodeAt(b, 0);
        DistinctCons(b[0], Merge(a, b[1..]));
      }
    }
  }

  /** The sls_merge contract, and what the source leaves unsaid: no node lost or doubled. */
  lemma MergeContract(a: seq<Item>, b: seq<Item>)
    requires Srtl(a) && Srtl(b) && Apart(a, b)
    ensures Srtl(Merge(a, b))
    ensures multiset(Merge(a, b)) == multiset(a) + multiset(b)
  {
    SrtlIffSorted(a);
    SrtlIffSorted(b);
    MergeSorted(a, b);
    MergeDistinct(a, b);
    SrtlIffSorted(Merge(a, b));
    MergeConserves(a, b);
  }
}
