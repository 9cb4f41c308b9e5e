/** The treap operations on pictures, and the pointer programs that refine them
    (heaps/tree/treap). */
module TreapOps {
  import opened Ints
  import opened TreapDefs

  // ----- treap_remove_root -----

  /** Merge two treaps, all keys of `l` below all keys of `r`: the greater root priority
      wins at every step.  Cells are reused, none is made. */
  function Join(l: Tree, r: Tree): Tree
    decreases l, r
  {
    if l.Leaf? then r
    else if r.Leaf? then l
    else if l.prio > r.prio then Node(l.left, l.cell, l.key, l.prio, Join(l.right, r))
    else Node(Join(l, r.left), r.cell, r.key, r.prio, r.right)
  }

  predicate KeysBelow(a: set<int>, b: set<int>) { forall i <- a, j <- b :: i < j }

  ghost predicate Joinable(l: Tree, r: Tree) {
    && Good(l) && Good(r)
    && KeysBelow(Keys(l), Keys(r))
    && Reach(l) !! Reach(r) && Prios(l) !! Prios(r)
  }

  ghost predicate Joined(l: Tree, r: Tree, u: Tree) { Good(u) && StoresBoth(l, r, u) }

  /** `u` stores what `l` and `r` store. */
  ghost predicate StoresBoth(l: Tree, r: Tree, u: Tree) {
    && Pairs(u) == Pairs(l) + Pairs(r)
    && Keys(u) == Keys(l) + Keys(r)
    && Prios(u) == Prios(l) + Prios(r)
    && Reach(u) == Reach(l) + Reach(r)
  }

  /** With the greater root, `l` stands above all of `r`. */
  lemma LeftWins(l: Tree, r: Tree)
    requires Joinable(l, r) && l.Node? && r.Node? && l.prio > r.prio
    ensures Below(Prios(r), l.prio) && Above(l.key, Keys(r)) && l.cell !in Reach(r)
    ensures Joinable(l.right, r) && Reach(l.left) !! Reach(r) && Prios(l.left) !! Prios(r)
  {
    assert l.key in Keys(l);
    forall i | i in Prios(r) ensures i < l.prio { assert i <= r.prio; }
  }

  lemma RightWins(l: Tree, r: Tree)
    requires Joinable(l, r) && l.Node? && r.Node? && l.prio <= r.prio
    ensures Below(Prios(l), r.prio) && Below(Keys(l), r.key) && r.cell !in Reach(l)
    ensures Joinable(l, r.left) && Reach(l) !! Reach(r.right) && Prios(l) !! Prios(r.right)
  {
    assert r.key in Keys(r) && l.prio in Prios(l) && r.prio in Prios(r);
    forall i | i in Prios(l) ensures i < r.prio { assert i <= l.prio; }
  }

  lemma StoresUnderLeft(l: Tree, r: Tree, u: Tree)
    requires l.Node? && StoresBoth(l.right, r, u)
    ensures StoresBoth(l, r, Node(l.left, l.cell, l.key, l.prio, u))
  {
  }

  lemma StoresUnderRight(l: Tree, r: Tree, u: Tree)
    requires r.Node? && StoresBoth(l, r.left, u)
    ensures StoresBoth(l, r, Node(u, r.cell, r.key, r.prio, r.right))
  {
  }

  lemma JoinedUnderLeft(l: Tree, r: Tree, u: Tree)
    requires l.Node? && Good(l) && Joined(l.right, r, u)
    requires Below(Prios(r), l.prio) && Above(l.key, Keys(r)) && l.cell !in Reach(r)
    requires Reach(l.left) !! Reach(r) && Prios(l.left) !! Prios(r)
    ensures Good(Node(l.left, l.cell, l.key, l.prio, u))
  {
  }

  lemma JoinedUnderRight(l: Tree, r: Tree, u: Tree)
    requires r.Node? && Good(r) && Joined(l, r.left, u)
    requires Below(Prios(l), r.prio) && Below(Keys(l), r.key) && r.cell !in Reach(l)
    requires Reach(l) !! Reach(r.right) && Prios(l) !! Prios(r.right)
    ensures Good(Node(u, r.cell, r.key, r.prio, r.right))
  {
  }

  lemma {:induction false} JoinJoins(l: Tree, r: Tree)
    requires Joinable(l, r)
    ensures Joined(l, r, Join(l, r))
    decreases l, r
  {
    if l.Leaf? || r.Leaf? {
    } else if l.prio > r.prio {
      LeftWins(l, r);
      JoinJoins(l.right, r);
      JoinedUnderLeft(l, r, Join(l.right, r));
      StoresUnderLeft(l, r, Join(l.right, r));
    } else {
      RightWins(l, r);
      JoinJoins(l, r.left);
      JoinedUnderRight(l, r, Join(l, r.left));
      StoresUnderRight(l, r, Join(l, r.left));
    }
  }

  /** The picture treap_remove_root leaves. */
  function RemoveRoot(t: Tree): Tree
    requires t.Node?
  {
    Join(t.left, t.right)
  }

  lemma ChildrenJoinable(t: Tree)
    requires t.Node? && Good(t)
    ensures Joinable(t.left, t.right)
  {
    forall i, j | i in Keys(t.left) && j in Keys(t.right) ensures i < j {
      assert i < t.key < j;
    }
  }

  /** What one treap_remove_root call guarantees about its result `u`. */
  ghost predicate RootRemoved(t: Tree, u: Tree)
    requires t.Node?
  {
    && Treap(u)
    && Keys(u) == Keys(t.left) + Keys(t.right)
    && Pairs(u) == Pairs(t) - {(t.key, t.prio)}
    && Prios(u) == Prios(t) - {t.prio}
    && Reach(u) == Reach(t) - {t.cell}
  }

  lemma RemoveRootRemoves(t: Tree)
    requires t.Node? && Treap(t)
    ensures RootRemoved(t, RemoveRoot(t))
  {
    TreapIffGood(t);
    ChildrenJoinable(t);
    JoinJoins(t.left, t.right);
    RootPairGone(t);
    JoinedIsRemoved(t, RemoveRoot(t));
  }

  lemma JoinedIsRemoved(t: Tree, u: Tree)
    requires t.Node? && Good(t) && Joined(t.left, t.right, u)
    requires Pairs(t) - {(t.key, t.prio)} == Pairs(t.left) + Pairs(t.right)
    ensures RootRemoved(t, u)
  {
    TreapIffGood(u);
    assert t.prio !in Prios(t.left) && t.prio !in Prios(t.right);
  }

  lemma RootRemovedExtremes(t: Tree, u: Tree)
    requires t.Node? && Treap(t) && RootRemoved(t, u) && u.Node?
    ensures MinKey(u) >= MinKey(t) && MaxKey(u) <= MaxKey(t) && MaxPrio(u) < MaxPrio(t)
  {
    assert Keys(u) == Keys(t) - {t.key};
    ExtremesInward(t, t.key, u);
    PrioDrops(t, u);
  }

  lemma PrioDrops(t: Tree, u: Tree)
    requires t.Node? && Treap(t) && u.Node? && Prios(u) == Prios(t) - {t.prio}
    ensures MaxPrio(u) < MaxPrio(t)
  {
    MaxPrioIsGreatest(t);
    MaxPrioIsGreatest(u);
    RootPrioAxiom(t);
    GreatestDrops(Prios(t), MaxPrio(t), MaxPrio(u));
  }

  /** The whole treap_remove_root contract; the claims about extremes need a non-empty result. */
  lemma RemoveRootContract(t: Tree)
    requires t.Node? && Treap(t)
    ensures RootRemoved(t, RemoveRoot(t))
    ensures RemoveRoot(t).Node? ==>
              && MinKey(RemoveRoot(t)) >= MinKey(t)
              && MaxKey(RemoveRoot(t)) <= MaxKey(t)
              && MaxPrio(RemoveRoot(t)) < MaxPrio(t)
  {
    RemoveRootRemoves(t);
    if RemoveRoot(t).Node? { RootRemovedExtremes(t, RemoveRoot(t)); }
  }

  lemma RootPairGone(t: Tree)
    requires t.Node? && Good(t)
    ensures Pairs(t) - {(t.key, t.prio)} == Pairs(t.left) + Pairs(t.right)
    ensures forall q <- Pairs(t) :: q.0 == t.key <==> q == (t.key, t.prio)
  {
    RootSplitsPairs(t);
    forall q | q in Pairs(t) ensures q.0 == t.key <==> q == (t.key, t.prio) {
      if q in Pairs(t.left) {
        PairStored(t.left, q);
      } else if q in Pairs(t.right) {
        PairStored(t.right, q);
      }
    }
  }

  lemma ExtremesInward(t: Tree, k: int, u: Tree)
    requires t.Node? && u.Node? && k in Keys(t) && Keys(u) == Keys(t) - {k}
    ensures MinKey(u) >= MinKey(t) && MaxKey(u) <= MaxKey(t)
    ensures MinKey(u) > MinKey(t) <==> k == MinKey(t)
    ensures MaxKey(u) < MaxKey(t) <==> k == MaxKey(t)
  {
    KeyExtremes(t);
    KeyExtremes(u);
    ExtremesAfterRemoving(Keys(t), k, MinKey(t), MaxKey(t), MinKey(u), MaxKey(u));
  }

  // ----- treap_delete_rec -----

  function Delete(t: Tree, k: int): Tree {
    match t
    case Leaf => Leaf
    case Node(l, c, key, p, r) =>
      if key == k then Join(l, r)
      else if k < key then Node(Delete(l, k), c, key, p, r)
      else Node(l, c, key, p, Delete(r, k))
  }

  /** What one treap_delete_rec call guarantees about its result `u`. */
  ghost predicate Deleted(t: Tree, k: int, u: Tree) { Good(u) && KeyGone(t, k, u) }

  ghost predicate KeyGone(t: Tree, k: int, u: Tree) {
    && Pairs(u) == (set q <- Pairs(t) | q.0 != k)
    && Keys(u) == Keys(t) - {k}
    && Prios(u) <= Prios(t)
    && Reach(u) <= Reach(t)
  }

  lemma DeletedRoot(t: Tree)
    requires t.Node? && Good(t)
    ensures Deleted(t, t.key, RemoveRoot(t))
  {
    ChildrenJoinable(t);
    JoinJoins(t.left, t.right);
    RootPairGone(t);
    KeysApart(t.left, t.key, t.right);
  }

  lemma GoneLeft(t: Tree, k: int, u: Tree)
    requires t.Node? && Good(t) && k < t.key && KeyGone(t.left, k, u)
    ensures KeyGone(t, k, Node(u, t.cell, t.key, t.prio, t.right))
  {
    RootSplitsPairs(t);
    assert k !in Keys(t.right);
    assert forall q <- Pairs(t.right) :: q.0 > t.key;
  }

  lemma GoneRight(t: Tree, k: int, u: Tree)
    requires t.Node? && Good(t) && t.key < k && KeyGone(t.right, k, u)
    ensures KeyGone(t, k, Node(t.left, t.cell, t.key, t.prio, u))
  {
    RootSplitsPairs(t);
    assert k !in Keys(t.left);
    assert forall q <- Pairs(t.left) :: q.0 < t.key;
  }

  lemma DeletedLeft(t: Tree, k: int, u: Tree)
    requires t.Node? && Good(t) && k < t.key && Deleted(t.left, k, u)
    ensures Deleted(t, k, Node(u, t.cell, t.key, t.prio, t.right))
  {
    GoneLeft(t, k, u);
  }

  lemma DeletedRight(t: Tree, k: int, u: Tree)
    requires t.Node? && Good(t) && t.key < k && Deleted(t.right, k, u)
    ensures Deleted(t, k, Node(t.left, t.cell, t.key, t.prio, u))
  {
    GoneRight(t, k, u);
  }

  lemma {:induction false} DeleteDeletes(t: Tree, k: int)
    requires Good(t) && k in Keys(t)
    ensures Deleted(t, k, Delete(t, k))
  {
    if t.key == k {
      DeletedRoot(t);
    } else if k < t.key {
      DeleteDeletes(t.left, k);
      DeletedLeft(t, k, Delete(t.left, k));
    } else {
      DeleteDeletes(t.right, k);
      DeletedRight(t, k, Delete(t.right, k));
    }
  }

  // ----- Which node goes -----

  /** The in-order listing of the nodes with what they store. */
  function Listing(t: Tree): seq<(TreapNode, int, int)> {
    match t
    case Leaf => []
    case Node(l, c, k, p, r) => Listing(l) + [(c, k, p)] + Listing(r)
  }

  lemma {:induction false} JoinListing(l: Tree, r: Tree)
    ensures Listing(Join(l, r)) == Listing(l) + Listing(r)
    decreases l, r
  {
    if l.Node? && r.Node? {
      if l.prio > r.prio { JoinListing(l.right, r); } else { JoinListing(l, r.left); }
    }
  }

  /** treap_remove_root gives up the root's node; all others keep what they store. */
  lemma RemoveRootListing(t: Tree)
    requires t.Node?
    ensures Listing(t) == Listing(t.left) + [(t.cell, t.key, t.prio)] + Listing(t.right)
    ensures Listing(RemoveRoot(t)) == Listing(t.left) + Listing(t.right)
  {
    JoinListing(t.left, t.right);
  }

  /** The listing is `a`, the node `c` with `k` and `p`, `b`; without that node it is `a`, `b`. */
  ghost predicate Loses(before: seq<(TreapNode, int, int)>, c: TreapNode, k: int, p: int, after: seq<(TreapNode, int, int)>,
                        a: seq<(TreapNode, int, int)>, b: seq<(TreapNode, int, int)>) {
    before == a + [(c, k, p)] + b && after == a + b
  }

  lemma LosesLeft(m: seq<(TreapNode, int, int)>, c: TreapNode, k: int, p: int, m': seq<(TreapNode, int, int)>,
                  a: seq<(TreapNode, int, int)>, b: seq<(TreapNode, int, int)>, tail: seq<(TreapNode, int, int)>)
    requires Loses(m, c, k, p, m', a, b)
    ensures Loses(m + tail, c, k, p, m' + tail, a, b + tail)
  {
    assert a + [(c, k, p)] + (b + tail) == m + tail;
    assert a + (b + tail) == m' + tail;
  }

  lemma LosesRight(m: seq<(TreapNode, int, int)>, c: TreapNode, k: int, p: int, m': seq<(TreapNode, int, int)>,
                   a: seq<(TreapNode, int, int)>, b: seq<(TreapNode, int, int)>, front: seq<(TreapNode, int, int)>)
    requires Loses(m, c, k, p, m', a, b)
    ensures Loses(front + m, c, k, p, front + m', front + a, b)
  {
    assert (front + a) + [(c, k, p)] + b == front + m;
    assert (front + a) + b == front + m';
  }

  /** treap_delete_rec gives up the node of the key; all others keep what they store. */
  lemma {:induction false} DeleteListing(t: Tree, k: int)
    returns (c: TreapNode, p: int, a: seq<(TreapNode, int, int)>, b: seq<(TreapNode, int, int)>)
    requires Ordered(t) && k in Keys(t)
    ensures Loses(Listing(t), c, k, p, Listing(Delete(t, k)), a, b)
  {
    if t.key == k {
      c, p, a, b := t.cell, t.prio, Listing(t.left), Listing(t.right);
      RemoveRootListing(t);
    } else if k < t.key {
      c, p, a, b := DeleteListing(t.left, k);
      var tail := [(t.cell, t.key, t.prio)] + Listing(t.right);
      LosesLeft(Listing(t.left), c, k, p, Listing(Delete(t.left, k)), a, b, tail);
      b := b + tail;
      assert Listing(t) == Listing(t.left) + tail;
      assert Listing(Delete(t, k)) == Listing(Delete(t.left, k)) + tail;
    } else {
      c, p, a, b := DeleteListing(t.right, k);
      var front := Listing(t.left) + [(t.cell, t.key, t.prio)];
      LosesRight(Listing(t.right), c, k, p, Listing(Delete(t.right, k)), a, b, front);
      a := front + a;
    }
  }

  /** The treap_delete_rec contract: a treap again, exactly the pair of `k` gone. */
  lemma DeleteContract(t: Tree, k: int)
    requires Treap(t) && k in Keys(t)
    ensures Treap(Delete(t, k))
    ensures Keys(Delete(t, k)) == Keys(t) - {k}
    ensures Pairs(Delete(t, k)) == set q <- Pairs(t) | q.0 != k
    ensures Prios(Delete(t, k)) <= Prios(t)
    ensures Reach(Delete(t, k)) <= Reach(t)
  {
    TreapIffGood(t);
    DeleteDeletes(t, k);
    TreapIffGood(Delete(t, k));
  }

  /** The inferred clauses about extremes, for a non-empty result; the greatest priority
      drops exactly when the root is deleted. */
  lemma DeleteExtremes(t: Tree, k: int)
    requires Treap(t) && k in Keys(t) && Delete(t, k).Node?
    ensures MinKey(Delete(t, k)) >= MinKey(t)
    ensures MaxKey(Delete(t, k)) <= MaxKey(t)
    ensures MaxPrio(Delete(t, k)) <= MaxPrio(t)
    ensures MaxPrio(Delete(t, k)) < MaxPrio(t) <==> k == t.key
  {
    DeleteContract(t, k);
    ExtremesInward(t, k, Delete(t, k));
    RootPrioAxiom(t);
    RootPrioAxiom(Delete(t, k));
    if k == t.key {
      RemoveRootContract(t);
    }
  }

  /** Deletion is forced: any treap with the remaining pairs has the shape Delete builds. */
  lemma DeleteIsForced(t: Tree, k: int, u: Tree)
    requires Treap(t) && k in Keys(t)
    requires Treap(u) && Pairs(u) == set q <- Pairs(t) | q.0 != k
    ensures ShapeOf(u) == ShapeOf(Delete(t, k))
  {
    DeleteContract(t, k);
    TreapIsCanonical(u, Delete(t, k));
  }

  lemma TwoDeletes(t: Tree, a: int, b: int)
    requires Treap(t) && a in Keys(t) && b in Keys(t) && a != b
    ensures Treap(Delete(Delete(t, a), b))
    ensures Pairs(Delete(Delete(t, a), b)) == set q <- Pairs(t) | q.0 != a && q.0 != b
  {
    DeleteContract(t, a);
    DeleteContract(Delete(t, a), b);
  }

  lemma SamePairsSameShape(t: Tree, a: int, b: int, u: Tree, v: Tree)
    requires Treap(u) && Pairs(u) == set q <- Pairs(t) | q.0 != a && q.0 != b
    requires Treap(v) && Pairs(v) == set q <- Pairs(t) | q.0 != b && q.0 != a
    ensures ShapeOf(u) == ShapeOf(v)
  {
    TreapIsCanonical(u, v);
  }

  /** The order of two deletions does not show in the result. */
  lemma DeletesCommute(t: Tree, a: int, b: int)
    requires Treap(t) && a in Keys(t) && b in Keys(t) && a != b
    ensures b in Keys(Delete(t, a)) && a in Keys(Delete(t, b))
    ensures ShapeOf(Delete(Delete(t, a), b)) == ShapeOf(Delete(Delete(t, b), a))
  {
    DeleteContract(t, a);
    DeleteContract(t, b);
    TwoDeletes(t, a, b);
    TwoDeletes(t, b, a);
    SamePairsSameShape(t, a, b, Delete(Delete(t, a), b), Delete(Delete(t, b), a));
  }

  // ----- The pointer programs -----

  /** `x->left = c` */
  method SetLeft(x: TreapNode, c: TreapNode?, ghost l: Tree, ghost r: Tree)
    requires Holds(c, l) && Holds(x.right, r) && x !in Reach(l) && x !in Reach(r)
    modifies x
    ensures Holds(x, Node(l, x, old(x.key), old(x.prio), r))
  {
    x.left := c;
    assert Holds(c, l) && Holds(x.right, r);
  }

  /** `x->right = c` */
  method SetRight(x: TreapNode, c: TreapNode?, ghost l: Tree, ghost r: Tree)
    requires Holds(x.left, l) && Holds(c, r) && x !in Reach(l) && x !in Reach(r)
    modifies x
    ensures Holds(x, Node(l, x, old(x.key), old(x.prio), r))
  {
    x.right := c;
    assert Holds(x.left, l) && Holds(c, r);
  }

  /** A body for treap_remove_root's work below the root. */
  method JoinHeap(l: TreapNode?, r: TreapNode?, ghost tl: Tree, ghost tr: Tree) returns (u: TreapNode?)
    requires Holds(l, tl) && Holds(r, tr) && Joinable(tl, tr)
    modifies Reach(tl) + Reach(tr)
    ensures Holds(u, Join(tl, tr))
    decreases tl, tr
  {
    ReachAllocated(tl);
    ReachAllocated(tr);
    if l == null {
      u := r;
    } else if r == null {
      u := l;
    } else if l.prio > r.prio {
      LeftWins(tl, tr);
      var v := JoinHeap(l.right, r, tl.right, tr);
      JoinJoins(tl.right, tr);
      SetRight(l, v, tl.left, Join(tl.right, tr));
      u := l;
    } else {
      RightWins(tl, tr);
      var v := JoinHeap(l, r.left, tl, tr.left);
      JoinJoins(tl, tr.left);
      SetLeft(r, v, Join(tl, tr.left), tr.right);
      u := r;
    }
  }

  /** treap_remove_root */
  method TreapRemoveRoot(x: TreapNode, ghost t: Tree) returns (r: TreapNode?)
    requires Holds(x, t) && Treap(t)
    modifies Reach(t)
    ensures Holds(r, RemoveRoot(t))
  {
    TreapIffGood(t);
    ChildrenJoinable(t);
    r := JoinHeap(x.left, x.right, t.left, t.right);
  }

  /** treap_delete_rec */
  method TreapDeleteRec(x: TreapNode, k: int, ghost t: Tree) returns (r: TreapNode?)
    requires Holds(x, t) && Treap(t) && k in Keys(t)
    modifies Reach(t)
    ensures Holds(r, Delete(t, k))
    decreases t
  {
    ReachAllocated(t);
    if x.key == k {
      r := TreapRemoveRoot(x, t);
    } else if k < x.key {
      KeyBeneath(t, k);
      var l := TreapDeleteRec(x.left, k, t.left);
      DeleteContract(t.left, k);
      SetLeft(x, l, Delete(t.left, k), t.right);
      r := x;
    } else {
      KeyBeneath(t, k);
      var q := TreapDeleteRec(x.right, k, t.right);
      DeleteContract(t.right, k);
      SetRight(x, q, t.left, Delete(t.right, k));
      r := x;
    }
  }

  lemma KeyBeneath(t: Tree, k: int)
    requires t.Node? && Treap(t) && k in Keys(t)
    ensures k < t.key ==> k in Keys(t.left)
    ensures k > t.key ==> k in Keys(t.right)
  {
    TreapIffGood(t);
  }

  /** treap_find_rec: search by key alone finds exactly the stored keys. */
  function TreapFindRec(x: TreapNode?, k: int, ghost t: Tree): (r: int)
    requires Holds(x, t) && Treap(t)
    reads Reach(t)
    ensures r == 0 <==> k !in Keys(t)
    ensures r == 1 <==> k in Keys(t)
    decreases t
  {
    TreapIffGood(t);
    if x == null then 0
    else if k == x.key then 1
    else if k < x.key then TreapFindRec(x.left, k, t.left)
    else TreapFindRec(x.right, k, t.right)
  }
}
