/** The treap node of heaps/tree/treap/dryad_treap.h and its recursive definitions, on
    logical pictures of heap trees. */
module TreapDefs {
  import opened Ints

  /** struct b_node */
  class TreapNode {
    var left: TreapNode?
    var right: TreapNode?
    var key: int
    var prio: int
  }

  datatype Tree = Leaf | Node(left: Tree, cell: TreapNode, key: int, prio: int, right: Tree)

  /** The heap reached from `x` is exactly the picture `t`. */
  ghost predicate Holds(x: TreapNode?, t: Tree)
    reads Reach(t)
    ensures Holds(x, t) ==> (x == null <==> t.Leaf?) && (t.Node? ==> x == t.cell && x in Reach(t))
  {
    match t
    case Leaf => x == null
    case Node(l, c, k, p, r) =>
      && x == c
      && c.key == k
      && c.prio == p
      && Holds(c.left, l)
      && Holds(c.right, r)
  }

  /** treap_reach */
  ghost function Reach(t: Tree): set<TreapNode> {
    match t
    case Leaf => {}
    case Node(l, c, _, _, r) => {c} + Reach(l) + Reach(r)
  }

  /** The cells of a picture one can name exist in the heap. */
  lemma {:induction false} ReachAllocated(t: Tree)
    ensures forall c <- Reach(t) :: allocated(c)
  {
    if t.Node? {
      ReachAllocated(t.left);
      ReachAllocated(t.right);
    }
  }

  /** treap_keys */
  function Keys(t: Tree): set<int> {
    match t
    case Leaf => {}
    case Node(l, _, k, _, r) => {k} + Keys(l) + Keys(r)
  }

  /** treap_prios */
  function Prios(t: Tree): set<int> {
    match t
    case Leaf => {}
    case Node(l, _, _, p, r) => {p} + Prios(l) + Prios(r)
  }

  /** The (key, priority) pairs a tree stores. */
  function Pairs(t: Tree): set<(int, int)> {
    match t
    case Leaf => {}
    case Node(l, _, k, p, r) => {(k, p)} + Pairs(l) + Pairs(r)
  }

  /** treap_min_key */
  function MinKey(t: Tree): int
    requires t.Node?
  {
    var m := if t.left.Node? then Min(t.key, MinKey(t.left)) else t.key;
    if t.right.Node? then Min(m, MinKey(t.right)) else m
  }

  /** treap_max_key */
  function MaxKey(t: Tree): int
    requires t.Node?
  {
    var m := if t.left.Node? then Max(t.key, MaxKey(t.left)) else t.key;
    if t.right.Node? then Max(m, MaxKey(t.right)) else m
  }

  /** treap_max_prio */
  function MaxPrio(t: Tree): int
    requires t.Node?
  {
    var m := if t.left.Node? then Max(t.prio, MaxPrio(t.left)) else t.prio;
    if t.right.Node? then Max(m, MaxPrio(t.right)) else m
  }

  /** The predicate treap, clause by clause. */
  ghost predicate Treap(t: Tree) {
    match t
    case Leaf => true
    case Node(l, c, k, p, r) =>
      && Treap(l)
      && Treap(r)
      && c !in Reach(l) + Reach(r)
      && k !in Keys(l) + Keys(r)
      && p !in Prios(l) + Prios(r)
      && Reach(l) !! Reach(r)
      && Keys(l) !! Keys(r)
      && Prios(l) !! Prios(r)
      && (l.Node? ==> MaxKey(l) < k)
      && (r.Node? ==> k < MinKey(r))
      && (l.Node? ==> MaxPrio(l) < p)
      && (r.Node? ==> MaxPrio(r) < p)
  }

  // ----- The header's axioms, proved -----

  lemma {:induction false} KeyExtremes(t: Tree)
    requires t.Node?
    ensures Least(MinKey(t), Keys(t)) && Greatest(MaxKey(t), Keys(t))
  {
    if t.left.Node? { KeyExtremes(t.left); }
    if t.right.Node? { KeyExtremes(t.right); }
  }

  lemma {:induction false} MaxPrioIsGreatest(t: Tree)
    requires t.Node?
    ensures Greatest(MaxPrio(t), Prios(t))
  {
    if t.left.Node? { MaxPrioIsGreatest(t.left); }
    if t.right.Node? { MaxPrioIsGreatest(t.right); }
  }

  /** First axiom: nothing below the minimum is a key. */
  lemma MinKeyAxiom(t: Tree, i: int)
    requires t.Node? ==> i < MinKey(t)
    ensures i !in Keys(t)
  {
    if t.Node? { KeyExtremes(t); }
  }

  /** Second axiom: nothing above the maximum is a key. */
  lemma MaxKeyAxiom(t: Tree, i: int)
    requires t.Node? ==> MaxKey(t) < i
    ensures i !in Keys(t)
  {
    if t.Node? { KeyExtremes(t); }
  }

  /** Third axiom: nothing above the maximum priority is a priority. */
  lemma MaxPrioAxiom(t: Tree, i: int)
    requires t.Node? ==> MaxPrio(t) < i
    ensures i !in Prios(t)
  {
    if t.Node? { MaxPrioIsGreatest(t); }
  }

  /** Fourth axiom: the root of a treap carries the maximum priority. */
  lemma RootPrioAxiom(t: Tree)
    requires t.Node? && Treap(t)
    ensures MaxPrio(t) == t.prio
  {
  }

  // ----- The aspects of a treap -----

  ghost predicate Separate(t: Tree) {
    match t
    case Leaf => true
    case Node(l, c, _, _, r) =>
      Separate(l) && Separate(r) && c !in Reach(l) && c !in Reach(r) && Reach(l) !! Reach(r)
  }

  predicate Below(s: set<int>, k: int) { forall i <- s :: i < k }

  predicate Above(k: int, s: set<int>) { forall i <- s :: k < i }

  predicate Ordered(t: Tree) {
    match t
    case Leaf => true
    case Node(l, _, k, _, r) => Ordered(l) && Ordered(r) && Below(Keys(l), k) && Above(k, Keys(r))
  }

  /** Every priority is strictly greater than those beneath it, and none occurs twice. */
  predicate Heaped(t: Tree) {
    match t
    case Leaf => true
    case Node(l, _, _, p, r) =>
      Heaped(l) && Heaped(r) && Below(Prios(l), p) && Below(Prios(r), p) && Prios(l) !! Prios(r)
  }

  ghost predicate Good(t: Tree) { Separate(t) && Ordered(t) && Heaped(t) }

  lemma KeysApart(l: Tree, k: int, r: Tree)
    requires Below(Keys(l), k) && Above(k, Keys(r))
    ensures k !in Keys(l) && k !in Keys(r) && Keys(l) !! Keys(r)
  {
    forall i | i in Keys(l) ensures i !in Keys(r) { assert i < k; }
  }

  lemma ChildBounds(l: Tree, k: int, p: int, r: Tree)
    ensures Below(Keys(l), k) <==> (l.Node? ==> MaxKey(l) < k)
    ensures Above(k, Keys(r)) <==> (r.Node? ==> k < MinKey(r))
    ensures Below(Prios(l), p) <==> (l.Node? ==> MaxPrio(l) < p)
    ensures Below(Prios(r), p) <==> (r.Node? ==> MaxPrio(r) < p)
  {
    if l.Node? { KeyExtremes(l); MaxPrioIsGreatest(l); }
    if r.Node? { KeyExtremes(r); MaxPrioIsGreatest(r); }
  }

  /** The clauses treap adds at one node, sorted into the aspects. */
  lemma TreapAtNode(l: Tree, c: TreapNode, k: int, p: int, r: Tree)
    ensures Treap(Node(l, c, k, p, r)) <==>
            && Treap(l) && Treap(r)
            && c !in Reach(l) && c !in Reach(r) && Reach(l) !! Reach(r)
            && Below(Keys(l), k) && Above(k, Keys(r))
            && Below(Prios(l), p) && Below(Prios(r), p) && Prios(l) !! Prios(r)
  {
    ChildBounds(l, k, p, r);
    if Below(Keys(l), k) && Above(k, Keys(r)) { KeysApart(l, k, r); }
  }

  lemma {:induction false} TreapIffGood(t: Tree)
    ensures Treap(t) <==> Good(t)
  {
    match t
    case Leaf =>
    case Node(l, c, k, p, r) =>
      TreapIffGood(l);
      TreapIffGood(r);
      TreapAtNode(l, c, k, p, r);
  }

  // ----- A treap is canonical -----

  /** The shape of a tree with its keys and priorities, cells forgotten. */
  datatype Shape = Empty | Branch(left: Shape, key: int, prio: int, right: Shape)

  function ShapeOf(t: Tree): Shape {
    match t
    case Leaf => Empty
    case Node(l, _, k, p, r) => Branch(ShapeOf(l), k, p, ShapeOf(r))
  }

  lemma {:induction false} PairStored(t: Tree, q: (int, int))
    requires q in Pairs(t)
    ensures q.0 in Keys(t) && q.1 in Prios(t)
  {
    if q in Pairs(t.left) {
      PairStored(t.left, q);
    } else if q in Pairs(t.right) {
      PairStored(t.right, q);
    }
  }

  lemma {:induction false} KeyHasPrio(t: Tree, k: int) returns (p: int)
    requires k in Keys(t)
    ensures (k, p) in Pairs(t)
  {
    if k == t.key {
      p := t.prio;
    } else if k in Keys(t.left) {
      p := KeyHasPrio(t.left, k);
    } else {
      p := KeyHasPrio(t.right, k);
    }
  }

  lemma {:induction false} PrioHasKey(t: Tree, p: int) returns (k: int)
    requires p in Prios(t)
    ensures (k, p) in Pairs(t)
  {
    if p == t.prio {
      k := t.key;
    } else if p in Prios(t.left) {
      k := PrioHasKey(t.left, p);
    } else {
      k := PrioHasKey(t.right, p);
    }
  }

  /** The root pair, and the pairs on either side of it, can be read off the set of pairs. */
  lemma RootSplitsPairs(t: Tree)
    requires t.Node? && Good(t)
    ensures (t.key, t.prio) in Pairs(t)
    ensures forall q <- Pairs(t) :: q == (t.key, t.prio) || q.1 < t.prio
    ensures Pairs(t.left) == set q <- Pairs(t) | q.0 < t.key
    ensures Pairs(t.right) == set q <- Pairs(t) | q.0 > t.key
  {
    forall q | q in Pairs(t.left) ensures q.0 < t.key && q.1 < t.prio { PairStored(t.left, q); }
    forall q | q in Pairs(t.right) ensures q.0 > t.key && q.1 < t.prio { PairStored(t.right, q); }
  }

  lemma {:induction false} GoodIsCanonical(t: Tree, u: Tree)
    requires Good(t) && Good(u) && Pairs(t) == Pairs(u)
    ensures ShapeOf(t) == ShapeOf(u)
  {
    if t.Node? {
      RootSplitsPairs(t);
      assert u.Node?;
      RootSplitsPairs(u);
      assert (t.key, t.prio) == (u.key, u.prio);
      GoodIsCanonical(t.left, u.left);
      GoodIsCanonical(t.right, u.right);
    } else {
      assert match u case Leaf => true case Node(_, _, k, p, _) => (k, p) in Pairs(u);
    }
  }

  /** Two treaps holding the same pairs have the same shape. */
  lemma TreapIsCanonical(t: Tree, u: Tree)
    requires Treap(t) && Treap(u)
    ensures Pairs(t) == Pairs(u) <==> ShapeOf(t) == ShapeOf(u)
  {
    TreapIffGood(t);
    TreapIffGood(u);
    if Pairs(t) == Pairs(u) { GoodIsCanonical(t, u); }
    ShapePairs(t);
    ShapePairs(u);
  }

  function ShapePairsOf(s: Shape): set<(int, int)> {
    match s
    case Empty => {}
    case Branch(l, k, p, r) => {(k, p)} + ShapePairsOf(l) + ShapePairsOf(r)
  }

  lemma {:induction false} ShapePairs(t: Tree)
    ensures Pairs(t) == ShapePairsOf(ShapeOf(t))
  {
    if t.Node? {
      ShapePairs(t.left);
      ShapePairs(t.right);
    }
  }

  function Size(t: Tree): nat {
    match t
    case Leaf => 0
    case Node(l, _, _, _, r) => Size(l) + 1 + Size(r)
  }

  lemma JoinedSize<T>(x: T, a: set<T>, b: set<T>)
    requires x !in a && x !in b && a !! b
    ensures |{x} + a + b| == 1 + |a| + |b|
  {
    assert {x} + a + b == {x} + (a + b);
  }

  /** In a treap no key and no priority is stored twice. */
  lemma {:induction false} NothingTwice(t: Tree)
    requires Good(t)
    ensures |Keys(t)| == Size(t) && |Prios(t)| == Size(t)
  {
    if t.Node? {
      NothingTwice(t.left);
      NothingTwice(t.right);
      KeysApart(t.left, t.key, t.right);
      JoinedSize(t.key, Keys(t.left), Keys(t.right));
      JoinedSize(t.prio, Prios(t.left), Prios(t.right));
    }
  }
}
