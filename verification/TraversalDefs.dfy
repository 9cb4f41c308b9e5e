/** The numbered trees of heaps/tree/traverse: dryad_intree.h, dryad_pretree.h and
    dryad_posttree.h.  The headers describe a numbering locally, by arithmetic between a
    node and its children; here that is shown to be the same as saying that the keys, listed
    in traversal order, are consecutive integers. */
module TraversalDefs {
  import opened Ints

  /** struct t_node */
  class TreeNode {
    var left: TreeNode?
    var right: TreeNode?
    var key: int32
  }

  /** The picture of a heap tree. */
  datatype Tree = Leaf | Node(left: Tree, cell: TreeNode, key: int, right: Tree)

  ghost predicate Holds(x: TreeNode?, t: Tree)
    reads Reach(t)
    ensures Holds(x, t) ==> (x == null <==> t.Leaf?) && (t.Node? ==> x == t.cell && x in Reach(t))
  {
    match t
    case Leaf => x == null
    case Node(l, c, k, r) =>
      && x == c
      && c.key as int == k
      && Holds(c.left, l)
      && Holds(c.right, r)
  }

  /** tree_reach, intree_reach, pretree_reach, posttree_reach: one recursion, four names. */
  ghost function Reach(t: Tree): set<TreeNode> {
    match t
    case Leaf => {}
    case Node(l, c, _, r) => {c} + Reach(l) + Reach(r)
  }

  lemma {:induction false} ReachAllocated(t: Tree)
    ensures forall c <- Reach(t) :: allocated(c)
  {
    if t.Node? {
      ReachAllocated(t.left);
      ReachAllocated(t.right);
    }
  }

  /** The predicate tree. */
  ghost predicate IsTree(t: Tree) {
    match t
    case Leaf => true
    case Node(l, c, _, r) =>
      IsTree(l) && IsTree(r) && c !in Reach(l) && c !in Reach(r) && Reach(l) !! Reach(r)
  }

  /** tree_size */
  function Size(t: Tree): nat {
    match t
    case Leaf => 0
    case Node(l, _, _, r) => Size(l) + Size(r) + 1
  }

  /** tree_lsize and tree_rsize */
  function LSize(t: Tree): nat { if t.Leaf? then 0 else Size(t.left) }

  function RSize(t: Tree): nat { if t.Leaf? then 0 else Size(t.right) }

  /** tree_order */
  function Order(t: Tree): int { if t.Leaf? then 0 else t.key }

  // ----- The local predicates -----

  ghost predicate Intree(t: Tree) {
    match t
    case Leaf => true
    case Node(l, c, k, r) =>
      && Intree(l) && Intree(r)
      && c !in Reach(l) + Reach(r)
      && Reach(l) !! Reach(r)
      && (l.Node? ==> Order(l) + RSize(l) + 1 == k)
      && (r.Node? ==> Order(r) == k + LSize(r) + 1)
  }

  ghost predicate Pretree(t: Tree) {
    match t
    case Leaf => true
    case Node(l, c, k, r) =>
      && Pretree(l) && Pretree(r)
      && c !in Reach(l) + Reach(r)
      && Reach(l) !! Reach(r)
      && (l.Node? ==> Order(l) == k + 1)
      && (r.Node? ==> Order(r) == k + 1 + Size(l))
  }

  ghost predicate Posttree(t: Tree) {
    match t
    case Leaf => true
    case Node(l, c, k, r) =>
      && Posttree(l) && Posttree(r)
      && c !in Reach(l) + Reach(r)
      && Reach(l) !! Reach(r)
      && (l.Node? ==> Order(l) + 1 + Size(r) == k)
      && (r.Node? ==> Order(r) + 1 == k)
  }

  // ----- The traversal listings -----

  function InKeys(t: Tree): (s: seq<int>)
    ensures |s| == Size(t)
  {
    match t
    case Leaf => []
    case Node(l, _, k, r) => InKeys(l) + [k] + InKeys(r)
  }

  function PreKeys(t: Tree): (s: seq<int>)
    ensures |s| == Size(t)
  {
    match t
    case Leaf => []
    case Node(l, _, k, r) => [k] + PreKeys(l) + PreKeys(r)
  }

  function PostKeys(t: Tree): (s: seq<int>)
    ensures |s| == Size(t)
  {
    match t
    case Leaf => []
    case Node(l, _, k, r) => PostKeys(l) + PostKeys(r) + [k]
  }

  predicate Consecutive(s: seq<int>) {
    forall i :: 0 <= i < |s| ==> s[i] == s[0] + i
  }

  lemma ConsecutiveConcat(a: seq<int>, b: seq<int>)
    ensures Consecutive(a + b) <==>
            Consecutive(a) && Consecutive(b) && (a != [] && b != [] ==> b[0] == a[0] + |a|)
  {
    var s := a + b;
    assert forall i :: 0 <= i < |a| ==> s[i] == a[i];
    assert forall i :: 0 <= i < |b| ==> b[i] == s[|a| + i];
    if Consecutive(s) && a != [] && b != [] {
      assert b[0] == s[|a|] == s[0] + |a|;
    }
  }

  // ----- Local and global agree -----

  /** intree holds iff the cells are separate and the in-order keys are consecutive. */
  lemma {:induction false} IntreeIffConsecutive(t: Tree)
    ensures Intree(t) <==> IsTree(t) && Consecutive(InKeys(t))
  {
    match t
    case Leaf =>
    case Node(l, _, k, r) =>
      IntreeIffConsecutive(l);
      IntreeIffConsecutive(r);
      ConsecutiveConcat(InKeys(l), [k]);
      ConsecutiveConcat(InKeys(l) + [k], InKeys(r));
      if l.Node? { RootInListing(l); }
      if r.Node? { RootInListing(r); }
  }

  /** Where the root's key stands in the in-order listing. */
  lemma RootInListing(t: Tree)
    requires t.Node?
    ensures InKeys(t)[LSize(t)] == Order(t) && Size(t) == LSize(t) + 1 + RSize(t)
  {
  }

  /** pretree holds iff the cells are separate and the pre-order keys are consecutive. */
  lemma {:induction false} PretreeIffConsecutive(t: Tree)
    ensures Pretree(t) <==> IsTree(t) && Consecutive(PreKeys(t))
  {
    match t
    case Leaf =>
    case Node(l, _, k, r) =>
      PretreeIffConsecutive(l);
      PretreeIffConsecutive(r);
      ConsecutiveConcat([k], PreKeys(l));
      ConsecutiveConcat([k] + PreKeys(l), PreKeys(r));
  }

  /** posttree holds iff the cells are separate and the post-order keys are consecutive. */
  lemma {:induction false} PosttreeIffConsecutive(t: Tree)
    ensures Posttree(t) <==> IsTree(t) && Consecutive(PostKeys(t))
  {
    match t
    case Leaf =>
    case Node(l, _, k, r) =>
      PosttreeIffConsecutive(l);
      PosttreeIffConsecutive(r);
      ConsecutiveConcat(PostKeys(l), PostKeys(r));
      ConsecutiveConcat(PostKeys(l) + PostKeys(r), [k]);
      if l.Node? { RootListedLast(l); }
      if r.Node? { RootListedLast(r); }
  }

  lemma RootListedLast(t: Tree)
    requires t.Node?
    ensures PostKeys(t)[Size(t) - 1] == Order(t)
  {
  }

  /** An in-order numbered tree is a search tree. */
  lemma IntreeIsSearchTree(t: Tree)
    requires Intree(t)
    ensures StrictlySorted(InKeys(t))
  {
    IntreeIffConsecutive(t);
  }

  /** Every key beneath a node is greater than the node's own. */
  predicate MinHeap(t: Tree) {
    t.Leaf? ||
    (&& MinHeap(t.left) && MinHeap(t.right)
     && (forall k <- PreKeys(t.left) :: t.key < k) && (forall k <- PreKeys(t.right) :: t.key < k))
  }

  predicate MaxHeap(t: Tree) {
    t.Leaf? ||
    (&& MaxHeap(t.left) && MaxHeap(t.right)
     && (forall k <- PostKeys(t.left) :: k < t.key) && (forall k <- PostKeys(t.right) :: k < t.key))
  }

  /** A pre-order numbered tree is a min-heap. */
  lemma {:induction false} PretreeIsMinHeap(t: Tree)
    requires Pretree(t)
    ensures MinHeap(t)
  {
    if t.Node? {
      PretreeIsMinHeap(t.left);
      PretreeIsMinHeap(t.right);
      PretreeIffConsecutive(t.left);
      PretreeIffConsecutive(t.right);
    }
  }

  /** A post-order numbered tree is a max-heap. */
  lemma {:induction false} PosttreeIsMaxHeap(t: Tree)
    requires Posttree(t)
    ensures MaxHeap(t)
  {
    if t.Node? {
      PosttreeIsMaxHeap(t.left);
      PosttreeIsMaxHeap(t.right);
      PosttreeIffConsecutive(t.left);
      PosttreeIffConsecutive(t.right);
      if t.left.Node? { RootListedLast(t.left); }
      if t.right.Node? { RootListedLast(t.right); }
    }
  }
}
