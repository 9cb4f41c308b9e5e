/** The sorted-list programs of heaps/grass/sls, each refining an operation on sequences. */
module SortedList {
  import opened Ints
  import Sequences
  import opened SortedListDefs

  lemma SuffixHeld(x: ListNode?, s: seq<Item>, i: nat)
    requires Holds(x, s) && i <= |s|
    ensures Holds(At(s, i), s[i..])
  {
  }

  // ----- merge -----

  /** `done` is linked up to its last node; where that one points is left open. */
  ghost predicate Linked(done: seq<Item>)
    reads Nodes(done)
  {
    && (forall i :: 0 <= i < |done| ==> done[i].node.key == done[i].key)
    && (forall i :: 0 <= i < |done| - 1 ==> done[i].node.next == done[i + 1].node)
  }

  /** One step of the loop: `last->next = h; last = h; h = h->next`. */
  method LinkNext(last: ListNode, h: ListNode, ghost done: seq<Item>, ghost s: seq<Item>, ghost other: ListNode?, ghost t: seq<Item>)
    returns (rest: ListNode?)
    requires Linked(done) && done != [] && last == done[|done| - 1].node
    requires Holds(h, s) && Holds(other, t)
    requires Distinct(done) && Distinct(s) && Apart(done, s) && Apart(done, t) && Apart(s, t)
    modifies last
    ensures rest == At(s, 1) && Holds(rest, s[1..]) && Holds(other, t)
    ensures Linked(done + [s[0]])
    ensures last.next == h && h.next == rest
  {
    NodeAt(s, 0);
    forall i | 0 <= i < |s| ensures s[i].node != last { NodeAt(s, i); NodeAt(done, |done| - 1); }
    forall i | 0 <= i < |t| ensures t[i].node != last { NodeAt(t, i); NodeAt(done, |done| - 1); }
    last.next := h;
    rest := h.next;
    SuffixHeld(h, s, 1);
    var d := done + [s[0]];
    assert forall i :: 0 <= i < |done| ==> d[i] == done[i];
  }

  lemma DistinctSnoc(done: seq<Item>, s: seq<Item>)
    requires Distinct(done) && Distinct(s) && Apart(done, s) && s != []
    ensures Distinct(done + [s[0]]) && Distinct(s[1..]) && Apart(done + [s[0]], s[1..])
    ensures Nodes(done + [s[0]]) == Nodes(done) + {s[0].node}
  {
    NodeAt(s, 0);
    var d := done + [s[0]];
    forall i, j | 0 <= i < j < |d| ensures d[i].node != d[j].node { NodeAt(done, i); }
    assert s == [s[0]] + s[1..];
    DistinctCons(s[0], s[1..]);
    assert forall i :: i in d <==> i in done || i == s[0];
    assert forall i <- s[1..] :: i in s;
    assert Nodes(s[1..]) <= Nodes(s);
  }

  lemma FinishedHolds(res: ListNode?, done: seq<Item>)
    requires Linked(done) && done != [] && res == done[0].node && done[|done| - 1].node.next == null
    ensures Holds(res, done)
  {
  }

  /** The state of the loop: `done` merged, `sa` and `sb` still to merge. */
  ghost predicate Merging(res: ListNode, last: ListNode, a: ListNode?, b: ListNode?,
                          done: seq<Item>, sa: seq<Item>, sb: seq<Item>)
    reads Nodes(done), Nodes(sa), Nodes(sb)
  {
    && done != [] && Linked(done) && res == done[0].node && last == done[|done| - 1].node
    && Holds(a, sa) && Holds(b, sb)
    && Distinct(done) && Distinct(sa) && Distinct(sb)
    && Apart(done, sa) && Apart(done, sb) && Apart(sa, sb)
    // the node merged last still points into one of the two remaining lists
    && (done[|done| - 1].node.next == a || done[|done| - 1].node.next == b)
  }

  lemma MergeTakesA(done: seq<Item>, sa: seq<Item>, sb: seq<Item>)
    requires sa != [] && (sb == [] || sa[0].key <= sb[0].key)
    ensures done + Merge(sa, sb) == done + [sa[0]] + Merge(sa[1..], sb)
  {
    assert Merge(sa, sb) == [sa[0]] + Merge(sa[1..], sb);
    Sequences.Regroup(done, [sa[0]], Merge(sa[1..], sb), Merge(sa, sb));
  }

  lemma MergeTakesB(done: seq<Item>, sa: seq<Item>, sb: seq<Item>)
    requires sb != [] && (sa == [] || sa[0].key > sb[0].key)
    ensures done + Merge(sa, sb) == done + [sb[0]] + Merge(sa, sb[1..])
  {
    assert Merge(sa, sb) == [sb[0]] + Merge(sa, sb[1..]);
    Sequences.Regroup(done, [sb[0]], Merge(sa, sb[1..]), Merge(sa, sb));
  }

  /** The body of the loop: link the smaller head, or the only one left, after `last`. */
  method MergeStep(res: ListNode, last0: ListNode, a0: ListNode?, b0: ListNode?,
                   ghost done: seq<Item>, ghost sa: seq<Item>, ghost sb: seq<Item>)
    returns (last: ListNode, a: ListNode?, b: ListNode?, ghost done': seq<Item>, ghost sa': seq<Item>, ghost sb': seq<Item>)
    requires Merging(res, last0, a0, b0, done, sa, sb) && (a0 != null || b0 != null)
    modifies last0
    ensures Merging(res, last, a, b, done', sa', sb')
    ensures done' + Merge(sa', sb') == done + Merge(sa, sb)
    ensures Nodes(done') + Nodes(sa') + Nodes(sb') <= Nodes(done) + Nodes(sa) + Nodes(sb)
    ensures |sa'| + |sb'| < |sa| + |sb|
  {
    last, a, b, done', sa', sb' := last0, a0, b0, done, sa, sb;
    if a == null || (b != null && a.key > b.key) {
      DistinctSnoc(done, sb);
      NodeAt(sb, 0);
      Smaller(sb);
      MergeTakesB(done, sa, sb);
      var rest := LinkNext(last, b, done, sb, a, sa);
      last, b := b, rest;
      done', sb' := done + [sb[0]], sb[1..];
    } else {
      DistinctSnoc(done, sa);
      NodeAt(sa, 0);
      Smaller(sa);
      MergeTakesA(done, sa, sb);
      var rest := LinkNext(last, a, done, sa, b, sb);
      last, a := a, rest;
      done', sa' := done + [sa[0]], sa[1..];
    }
  }

  lemma Smaller(s: seq<Item>)
    requires s != []
    ensures Nodes(s[1..]) <= Nodes(s) && s[0].node in Nodes(s)
  {
    assert forall i <- s[1..] :: i in s;
    NodeAt(s, 0);
  }

  /** The loop of merge, entered with the first node already taken. */
  method MergeLoop(res: ListNode, a0: ListNode?, b0: ListNode?, ghost h: Item, ghost s: seq<Item>, ghost t: seq<Item>)
    requires Merging(res, res, a0, b0, [h], s, t)
    modifies Nodes([h]) + Nodes(s) + Nodes(t)
    ensures Holds(res, [h] + Merge(s, t))
  {
    var last, a, b := res, a0, b0;
    ghost var done, sa, sb := [h], s, t;
    while a != null || b != null
      invariant Merging(res, last, a, b, done, sa, sb)
      invariant Nodes(done) + Nodes(sa) + Nodes(sb) <= Nodes([h]) + Nodes(s) + Nodes(t)
      invariant [h] + Merge(s, t) == done + Merge(sa, sb)
      decreases |sa| + |sb|
    {
      NodeAt(done, |done| - 1);
      last, a, b, done, sa, sb := MergeStep(res, last, a, b, done, sa, sb);
    }
    FinishedHolds(res, done);
    assert done + [] == done;
  }

  lemma FirstTaken(x: ListNode, other: ListNode?, s: seq<Item>, t: seq<Item>)
    requires Holds(x, s) && Holds(other, t) && Distinct(s) && Distinct(t) && Apart(s, t)
    ensures s != [] && [] + [s[0]] == [s[0]]
    ensures Merging(x, x, x.next, other, [s[0]], s[1..], t)
    ensures Nodes([s[0]]) <= Nodes(s) && Nodes(s[1..]) <= Nodes(s)
  {
    SuffixHeld(x, s, 1);
    DistinctSnoc([], s);
    Smaller(s);
    assert [] + [s[0]] == [s[0]];
  }

  /** merge: the in-place result is the stable merge of the two node sequences. */
  method MergeLists(a: ListNode?, b: ListNode?, ghost s: seq<Item>, ghost t: seq<Item>) returns (res: ListNode?)
    requires Holds(a, s) && Holds(b, t) && Srtl(s) && Srtl(t) && Apart(s, t)
    modifies Nodes(s) + Nodes(t)
    ensures Holds(res, Merge(s, t))
  {
    SrtlIffSorted(s);
    SrtlIffSorted(t);
    if a == null {
      return b;
    } else if b == null {
      return a;
    } else if a.key <= b.key {
      res := a;
      FirstTaken(a, b, s, t);
      MergeLoop(res, a.next, b, s[0], s[1..], t);
    } else {
      res := b;
      FirstTaken(b, a, t, s);
      MergeLoop(res, a, b.next, t[0], s, t[1..]);
    }
  }

  // ----- sls_insert -----

  function InsertAt(s: seq<Item>, p: nat, e: Item): seq<Item>
    requires p <= |s|
  {
    s[..p] + [e] + s[p..]
  }

  /** Inserting behind the last key that is not greater is merging with a one-element list. */
  lemma {:induction false} InsertIsMerge(s: seq<Item>, p: nat, e: Item)
    requires p <= |s|
    requires forall i :: 0 <= i < p ==> s[i].key <= e.key
    requires p < |s| ==> e.key < s[p].key
    ensures InsertAt(s, p, e) == Merge(s, [e])
    decreases p
  {
    if p > 0 {
      InsertIsMerge(s[1..], p - 1, e);
      assert InsertAt(s, p, e) == [s[0]] + InsertAt(s[1..], p - 1, e);
    } else if s != [] {
      assert Merge(s, [e]) == [e] + Merge(s, []);
    }
  }

  /** Link `elt` in behind position `p - 1`. */
  method LinkIn(lst: ListNode, curr: ListNode, elt: ListNode, ghost s: seq<Item>, ghost p: nat)
    requires Holds(lst, s) && Distinct(s) && elt !in Nodes(s)
    requires 0 < p <= |s| && curr == s[p - 1].node
    modifies elt, curr
    ensures elt.key == old(elt.key)
    ensures Holds(lst, InsertAt(s, p, Item(elt, elt.key)))
  {
    NodeAt(s, p - 1);
    forall i | 0 <= i < |s| ensures s[i].node != elt { NodeAt(s, i); }
    assert forall i :: 0 <= i < |s| && i != p - 1 ==> s[i].node != curr;
    var currNext := curr.next;
    elt.next := currNext;
    curr.next := elt;
    assert LinkedIn(s, p, Item(elt, elt.key));
    InsertHolds(lst, s, p, Item(elt, elt.key));
  }

  /** The pointers after linking `e` in at `p`, position by position. */
  ghost predicate LinkedIn(s: seq<Item>, p: nat, e: Item)
    requires 0 < p <= |s|
    reads Nodes(s), e.node
  {
    && (forall i :: 0 <= i < |s| ==> s[i].node.key == s[i].key)
    && (forall i :: 0 <= i < |s| && i != p - 1 ==> s[i].node.next == At(s, i + 1))
    && s[p - 1].node.next == e.node
    && e.node.key == e.key && e.node.next == At(s, p)
  }

  lemma InsertHolds(x: ListNode, s: seq<Item>, p: nat, e: Item)
    requires 0 < p <= |s| && x == s[0].node && LinkedIn(s, p, e)
    ensures Holds(x, InsertAt(s, p, e))
  {
    var u := InsertAt(s, p, e);
    forall i | 0 <= i < |u| ensures u[i].node.key == u[i].key && u[i].node.next == At(u, i + 1) {
      if i < p {
        assert u[i] == s[i];
      } else if i > p {
        assert u[i] == s[i - 1];
      }
    }
  }

  /** sls_insert: `elt` ends up behind every element with the same key. */
  method SlsInsert(lst: ListNode?, elt: ListNode, ghost s: seq<Item>) returns (r: ListNode)
    requires Holds(lst, s) && Srtl(s) && elt.next == null && elt !in Nodes(s)
    modifies elt, Nodes(s)
    ensures Holds(r, Merge(s, [Item(elt, old(elt.key))]))
  {
    SrtlIffSorted(s);
    ghost var e := Item(elt, elt.key);
    if lst == null || lst.key > elt.key {
      forall i | 0 <= i < |s| ensures s[i].node != elt { NodeAt(s, i); }
      elt.next := lst;
      InsertIsMerge(s, 0, e);
      ghost var u := InsertAt(s, 0, e);
      assert forall i :: 0 < i < |u| ==> u[i] == s[i - 1];
      return elt;
    }
    var curr := lst;
    ghost var p := 1;
    while curr.next != null && curr.next.key <= elt.key
      invariant 1 <= p <= |s| && curr == s[p - 1].node
      invariant forall i :: 0 <= i < p ==> s[i].key <= elt.key
      decreases |s| - p
    {
      curr := curr.next;
      p := p + 1;
    }
    NodeAt(s, p - 1);
    InsertIsMerge(s, p, e);
    LinkIn(lst, curr, elt, s, p);
    return lst;
  }

  // ----- split and sls_concat -----

  /** How many of `n` nodes split leaves in place. */
  function Kept(n: nat): nat { Min(n, (n + 1) / 2 + 1) }

  lemma Halfway(slow: nat, n: nat)
    requires 2 * slow == n || 2 * slow == n + 1
    ensures Kept(n) == if slow < n then slow + 1 else n
  {
  }

  /** Cut the list behind position `p - 1`. */
  method Cut(x: ListNode, tmp: ListNode, ghost s: seq<Item>, ghost p: nat) returns (z: ListNode?)
    requires Holds(x, s) && Distinct(s) && 0 < p <= |s| && tmp == s[p - 1].node
    modifies tmp
    ensures Holds(x, s[..p]) && Holds(z, s[p..])
  {
    assert forall i :: 0 <= i < |s| && i != p - 1 ==> s[i].node != tmp;
    z := tmp.next;
    tmp.next := null;
    assert forall i :: 0 <= i < p ==> s[..p][i] == s[i];
    assert forall i :: 0 <= i < |s| - p ==> s[p..][i] == s[p + i];
  }

  /** The loop of split: one step for every two; no pointer it follows is null. */
  method Middle(x: ListNode?, ghost s: seq<Item>) returns (z: ListNode?, ghost slow: nat)
    requires Holds(x, s)
    ensures 2 * slow == |s| || 2 * slow == |s| + 1
    ensures z == At(s, slow)
  {
    z := x;
    var curr := x;
    slow := 0;
    ghost var fast := 0;
    while curr != null
      invariant 0 <= slow <= fast <= |s| && z == At(s, slow) && curr == At(s, fast)
      invariant fast == 2 * slow || (fast == |s| && 2 * slow == |s| + 1)
      decreases |s| - fast
    {
      z := z.next;
      slow := slow + 1;
      curr := curr.next;
      fast := fast + 1;
      if curr != null {
        curr := curr.next;
        fast := fast + 1;
      }
    }
  }

  /** split */
  method Split(x: ListNode?, ghost s: seq<Item>) returns (z: ListNode?)
    requires Holds(x, s) && Srtl(s)
    modifies Nodes(s)
    ensures Holds(x, s[..Kept(|s|)])
    ensures Holds(z, s[Kept(|s|)..])
  {
    SrtlIffSorted(s);
    ghost var slow;
    z, slow := Middle(x, s);
    Halfway(slow, |s|);
    if z != null {
      NodeAt(s, slow);
      z := Cut(x, z, s, slow + 1);
    } else {
      assert s[..|s|] == s && s[|s|..] == [];
    }
  }

  /** sls_concat */
  method SlsConcat(a: ListNode?, b: ListNode?, ghost s: seq<Item>, ghost t: seq<Item>) returns (r: ListNode?)
    requires Holds(a, s) && Holds(b, t) && Srtl(s) && Srtl(t)
    requires s != [] && t != [] ==> MaxKey(s) <= MinKey(t)
    requires Apart(s, t)
    modifies Nodes(s)
    ensures Holds(r, s + t)
  {
    SrtlIffSorted(s);
    if a == null {
      assert s + t == t;
      return b;
    }
    var curr := a;
    ghost var p := 0;
    while curr.next != null
      invariant 0 <= p < |s| && curr == s[p].node
      decreases |s| - p
    {
      curr := curr.next;
      p := p + 1;
    }
    NodeAt(s, p);
    Append(a, curr, b, s, t);
    return a;
  }

  method Append(a: ListNode, last: ListNode, b: ListNode?, ghost s: seq<Item>, ghost t: seq<Item>)
    requires Holds(a, s) && Holds(b, t) && Distinct(s) && Apart(s, t)
    requires s != [] && last == s[|s| - 1].node
    modifies last
    ensures Holds(a, s + t)
  {
    NodeAt(s, |s| - 1);
    forall i | 0 <= i < |t| ensures t[i].node != last { NodeAt(t, i); }
    last.next := b;
    ghost var u := s + t;
    assert forall i :: 0 <= i < |s| ==> u[i] == s[i];
    assert forall i :: 0 <= i < |t| ==> u[|s| + i] == t[i];
  }

  /** The sls_concat contract on sequences. */
  lemma ConcatContract(s: seq<Item>, t: seq<Item>)
    requires Srtl(s) && Srtl(t) && Apart(s, t)
    requires s != [] && t != [] ==> MaxKey(s) <= MinKey(t)
    ensures Srtl(s + t) && Nodes(s + t) == Nodes(s) + Nodes(t)
  {
    SrtlIffSorted(s);
    SrtlIffSorted(t);
    var u := s + t;
    forall i, j | 0 <= i < j < |u| ensures u[i].key <= u[j].key && u[i].node != u[j].node {
      if i < |s| <= j {
        KeyExtremes(s);
        KeyExtremes(t);
        NodeAt(s, i);
        NodeAt(t, j - |s|);
        assert s[i] in s && t[j - |s|] in t;
      }
    }
    SrtlIffSorted(u);
    assert forall i :: i in u <==> i in s || i in t;
  }

  lemma PrefixSrtl(s: seq<Item>, p: nat)
    requires Srtl(s) && p <= |s|
    ensures Srtl(s[..p])
  {
    SrtlIffSorted(s);
    var t := s[..p];
    assert Sorted(t) && Distinct(t);
    SrtlIffSorted(t);
  }

  lemma SuffixSrtl(s: seq<Item>, p: nat)
    requires Srtl(s) && p <= |s|
    ensures Srtl(s[p..])
  {
    SrtlIffSorted(s);
    var t := s[p..];
    forall i, j | 0 <= i < j < |t| ensures t[i].key <= t[j].key && t[i].node != t[j].node {
      assert t[i] == s[p + i] && t[j] == s[p + j];
    }
    SrtlIffSorted(t);
  }

  lemma SlicesApart(s: seq<Item>, p: nat)
    requires Distinct(s) && p <= |s|
    ensures Apart(s[..p], s[p..])
  {
    var (a, b) := (s[..p], s[p..]);
    forall n | n in Nodes(a) ensures n !in Nodes(b) {
      var i :| 0 <= i < |a| && a[i].node == n;
      forall j | 0 <= j < |b| ensures b[j].node != n { assert s[i].node != s[p + j].node; }
    }
  }

  /** Both pieces of a split are sorted, share no node, and fit back together in order. */
  lemma PiecesSorted(s: seq<Item>, p: nat)
    requires Srtl(s) && p <= |s|
    ensures Srtl(s[..p]) && Srtl(s[p..]) && Apart(s[..p], s[p..])
    ensures 0 < p < |s| ==> MaxKey(s[..p]) <= MinKey(s[p..])
  {
    PrefixSrtl(s, p);
    SuffixSrtl(s, p);
    SrtlIffSorted(s);
    SlicesApart(s, p);
    if 0 < p < |s| { SlicesOrdered(s, p); }
  }

  lemma SlicesOrdered(s: seq<Item>, p: nat)
    requires Sorted(s) && 0 < p < |s|
    ensures MaxKey(s[..p]) <= MinKey(s[p..])
  {
    var (a, b) := (s[..p], s[p..]);
    KeyExtremes(a);
    KeyExtremes(b);
    var x :| x in a && x.key == MaxKey(a);
    var y :| y in b && y.key == MinKey(b);
    var i :| 0 <= i < |a| && a[i] == x;
    var j :| 0 <= j < |b| && b[j] == y;
    assert s[i].key <= s[p + j].key;
  }

  /** split hands back nodes exactly when there are at least four; on shorter lists it
      returns null and leaves everything in `x`. */
  lemma SplitShare(n: nat)
    ensures Kept(n) <= n
    ensures Kept(n) < n <==> n >= 4
    ensures n >= 4 ==> Kept(n) == (n + 1) / 2 + 1
  {
  }

  /** The two pieces, with all that sls_concat asks of them. */
  lemma Pieces(s: seq<Item>, p: nat) returns (a: seq<Item>, b: seq<Item>)
    requires Srtl(s) && p <= |s|
    ensures a == s[..p] && b == s[p..] && a + b == s
    ensures Srtl(a) && Srtl(b) && Apart(a, b) && Nodes(a) <= Nodes(s)
    ensures a != [] && b != [] ==> MaxKey(a) <= MinKey(b)
  {
    PiecesSorted(s, p);
    a, b := s[..p], s[p..];
    assert forall i <- a :: i in s;
  }

  /** sls_concat(x, split(x)) restores the list, node for node. */
  method SplitThenConcat(x: ListNode?, ghost s: seq<Item>) returns (r: ListNode?)
    requires Holds(x, s) && Srtl(s)
    modifies Nodes(s)
    ensures Holds(r, s)
  {
    ghost var a, b := Pieces(s, Kept(|s|));
    var z := Split(x, s);
    r := SlsConcat(x, z, a, b);
  }
}
