/** The AVL node of heaps/tree/avl/dryad_avl.h and its recursive definitions.

    A `Tree` is the logical picture of a heap tree: it records, node by node, which
    heap cell carries the node and what the cell's fields hold.  `Holds(x, t)` says
    that the heap reached from `x` is exactly the picture `t`; everything else is
    said about pictures, so it needs no heap. */
module AvlDefs {
  import opened Ints

  /** struct a_node */
  class AvlNode {
    var left: AvlNode?
    var right: AvlNode?
    var key: int
    var height: int

    constructor (k: int)
      ensures left == null && right == null && key == k && height == 0
    {
      left, right, key, height := null, null, k, 0;
    }
  }

  datatype Tree = Leaf | Node(left: Tree, cell: AvlNode, key: int, height: int, right: Tree)

  ghost predicate Holds(x: AvlNode?, t: Tree)
    reads Reach(t)
    ensures Holds(x, t) ==> (x == null <==> t.Leaf?) && (t.Node? ==> x == t.cell && x in Reach(t))
  {
    match t
    case Leaf => x == null
    case Node(l, c, k, h, r) =>
      && x == c
      && c.key == k
      && c.height == h
      && Holds(c.left, l)
      && Holds(c.right, r)
  }

  /** avl_reach: the cells of the tree. */
  ghost function Reach(t: Tree): set<AvlNode> {
    match t
    case Leaf => {}
    case Node(l, c, _, _, r) => {c} + Reach(l) + Reach(r)
  }

  /** The cells of a picture one can name exist in the heap. */
  lemma {:induction false} ReachAllocated(t: Tree)
    ensures forall c <- Reach(t) :: allocated(c)
  {
    if t.Node? {
      ReachAllocated(t.left);
      ReachAllocated(t.right);
    }
  }

  /** avl_keys */
  function Keys(t: Tree): set<int> {
    match t
    case Leaf => {}
    case Node(l, _, k, _, r) => {k} + Keys(l) + Keys(r)
  }

  /** avl_height: computed from the shape, unlike the stored field `height`. */
  function Height(t: Tree): (h: int)
    ensures -1 <= h
    ensures h == -1 <==> t.Leaf?
  {
    match t
    case Leaf => -1
    case Node(l, _, _, _, r) => if Height(l) > Height(r) then Height(l) + 1 else Height(r) + 1
  }

  function Size(t: Tree): nat {
    match t
    case Leaf => 0
    case Node(l, _, _, _, r) => Size(l) + 1 + Size(r)
  }

  /** avl_min_key: the minimum over the whole tree, not only along the left spine. */
  function MinKey(t: Tree): int
    requires t.Node?
  {
    var m := if t.left.Node? then Min(t.key, MinKey(t.left)) else t.key;
    if t.right.Node? then Min(m, MinKey(t.right)) else m
  }

  /** avl_max_key */
  function MaxKey(t: Tree): int
    requires t.Node?
  {
    var m := if t.left.Node? then Max(t.key, MaxKey(t.left)) else t.key;
    if t.right.Node? then Max(m, MaxKey(t.right)) else m
  }

  /** The predicate avl, clause by clause. */
  ghost predicate Avl(t: Tree) {
    match t
    case Leaf => true
    case Node(l, c, k, h, r) =>
      && Avl(l)
      && Avl(r)
      && c !in Reach(l) + Reach(r)
      && k !in Keys(l) + Keys(r)
      && Reach(l) !! Reach(r)
      && Keys(l) !! Keys(r)
      && (l.Node? ==> MaxKey(l) < k)
      && (r.Node? ==> k < MinKey(r))
      && (|| (Height(l) == Height(r) && h == Height(l) + 1)
          || (Height(l) == Height(r) + 1 && h == Height(l) + 1)
          || (Height(r) == Height(l) + 1 && h == Height(r) + 1))
  }

  // ----- The three independent aspects of an AVL tree -----

  /** No heap cell is used twice. */
  ghost predicate Separate(t: Tree) {
    match t
    case Leaf => true
    case Node(l, c, _, _, r) =>
      Separate(l) && Separate(r) && c !in Reach(l) && c !in Reach(r) && Reach(l) !! Reach(r)
  }

  predicate Below(t: Tree, k: int) { forall i <- Keys(t) :: i < k }

  predicate Above(k: int, t: Tree) { forall i <- Keys(t) :: k < i }

  /** Search order, by comparing a key with every key beneath it. */
  predicate Ordered(t: Tree) {
    match t
    case Leaf => true
    case Node(l, _, k, _, r) => Ordered(l) && Ordered(r) && Below(l, k) && Above(k, r)
  }

  /** Sibling heights differ by at most one and every stored height is the real one. */
  predicate Balanced(t: Tree) {
    match t
    case Leaf => true
    case Node(l, _, _, h, r) =>
      && Balanced(l)
      && Balanced(r)
      && -1 <= Height(l) - Height(r) <= 1
      && h == Height(t)
  }

  // ----- Minimum and maximum -----

  /** MinKey is the least element of Keys (which pins it down). */
  lemma {:induction false} MinKeyIsLeast(t: Tree)
    requires t.Node?
    ensures MinKey(t) in Keys(t)
    ensures forall i <- Keys(t) :: MinKey(t) <= i
  {
    if t.left.Node? { MinKeyIsLeast(t.left); }
    if t.right.Node? { MinKeyIsLeast(t.right); }
  }

  lemma {:induction false} MaxKeyIsGreatest(t: Tree)
    requires t.Node?
    ensures MaxKey(t) in Keys(t)
    ensures forall i <- Keys(t) :: i <= MaxKey(t)
  {
    if t.left.Node? { MaxKeyIsGreatest(t.left); }
    if t.right.Node? { MaxKeyIsGreatest(t.right); }
  }

  /** The first axiom of the header: nothing below the minimum is a key. */
  lemma MinKeyAxiom(t: Tree, i: int)
    requires t.Node? ==> i < MinKey(t)
    ensures i !in Keys(t)
  {
    if t.Node? { MinKeyIsLeast(t); }
  }

  /** The second axiom of the header: nothing above the maximum is a key. */
  lemma MaxKeyAxiom(t: Tree, i: int)
    requires t.Node? ==> MaxKey(t) < i
    ensures i !in Keys(t)
  {
    if t.Node? { MaxKeyIsGreatest(t); }
  }

  lemma BelowIffMaxKey(t: Tree, k: int)
    ensures Below(t, k) <==> (t.Node? ==> MaxKey(t) < k)
  {
    if t.Node? { MaxKeyIsGreatest(t); }
  }

  lemma AboveIffMinKey(t: Tree, k: int)
    ensures Above(k, t) <==> (t.Node? ==> k < MinKey(t))
  {
    if t.Node? { MinKeyIsLeast(t); }
  }

  lemma OrderKeepsApart(l: Tree, k: int, r: Tree)
    requires Below(l, k) && Above(k, r)
    ensures k !in Keys(l) && k !in Keys(r) && Keys(l) !! Keys(r)
  {
    forall i | i in Keys(l) ensures i !in Keys(r) { assert i < k; }
  }

  /** The clauses avl adds at one node, sorted into the three aspects. */
  lemma AvlAtNode(l: Tree, c: AvlNode, k: int, h: int, r: Tree)
    ensures Avl(Node(l, c, k, h, r)) <==>
            && Avl(l) && Avl(r)
            && c !in Reach(l) && c !in Reach(r) && Reach(l) !! Reach(r)
            && Below(l, k) && Above(k, r)
            && -1 <= Height(l) - Height(r) <= 1 && h == Max(Height(l), Height(r)) + 1
  {
    BelowIffMaxKey(l, k);
    AboveIffMinKey(r, k);
    if Below(l, k) && Above(k, r) { OrderKeepsApart(l, k, r); }
  }

  /** avl is exactly: separate cells, search order, balance with exact stored heights. */
  lemma {:induction false} AvlIffAspects(t: Tree)
    ensures Avl(t) <==> Separate(t) && Ordered(t) && Balanced(t)
  {
    match t
    case Leaf =>
    case Node(l, c, k, h, r) =>
      AvlIffAspects(l);
      AvlIffAspects(r);
      AvlAtNode(l, c, k, h, r);
  }

  // ----- In-order listing, the reference meaning of search order -----

  function InOrder(t: Tree): seq<int> {
    match t
    case Leaf => []
    case Node(l, _, k, _, r) => InOrder(l) + [k] + InOrder(r)
  }

  lemma {:induction false} InOrderKeys(t: Tree)
    ensures forall i :: i in InOrder(t) <==> i in Keys(t)
    ensures |InOrder(t)| == Size(t)
  {
    if t.Node? {
      InOrderKeys(t.left);
      InOrderKeys(t.right);
    }
  }

  lemma SortedSplits(a: seq<int>, k: int, b: seq<int>)
    requires StrictlySorted(a + [k] + b)
    ensures StrictlySorted(a) && StrictlySorted(b)
    ensures (forall i <- a :: i < k) && (forall i <- b :: k < i)
  {
    var s := a + [k] + b;
    assert forall i :: 0 <= i < |a| ==> a[i] == s[i];
    assert s[|a|] == k;
    assert forall i :: 0 <= i < |b| ==> b[i] == s[|a| + 1 + i];
  }

  lemma SortedJoins(a: seq<int>, k: int, b: seq<int>)
    requires StrictlySorted(a) && StrictlySorted(b)
    requires (forall i <- a :: i < k) && (forall i <- b :: k < i)
    ensures StrictlySorted(a + [k] + b)
  {
    var s := a + [k] + b;
    forall i, j | 0 <= i < j < |s| ensures s[i] < s[j] {
      if i < |a| { assert s[i] in a; }
      if |a| < j { assert s[j] in b; }
    }
  }

  /** The local order clauses hold at every node iff the in-order listing strictly increases. */
  lemma {:induction false} OrderedIffSorted(t: Tree)
    ensures Ordered(t) <==> StrictlySorted(InOrder(t))
  {
    match t
    case Leaf =>
    case Node(l, _, k, _, r) =>
      OrderedIffSorted(l);
      OrderedIffSorted(r);
      InOrderKeys(l);
      InOrderKeys(r);
      if Ordered(t) { SortedJoins(InOrder(l), k, InOrder(r)); }
      if StrictlySorted(InOrder(t)) { SortedSplits(InOrder(l), k, InOrder(r)); }
  }

  /** Two strictly sorted listings of one set are the same listing. */
  lemma {:induction false} SortedUnique(a: seq<int>, b: seq<int>)
    requires StrictlySorted(a) && StrictlySorted(b)
    requires forall i :: i in a <==> i in b
    ensures a == b
  {
    if a == [] {
      assert forall j :: 0 <= j < |b| ==> b[j] in b;
    } else {
      assert a[0] in a && a[0] in b;
      assert b[0] in b && b[0] in a;
      assert a == [a[0]] + a[1..] && b == [b[0]] + b[1..];
      assert a[0] == b[0];
      forall i ensures i in a[1..] <==> i in b[1..] {
        if i in a[1..] { assert i in a && i != a[0]; }
        if i in b[1..] { assert i in b && i != b[0]; }
      }
      SortedUnique(a[1..], b[1..]);
    }
  }
}
