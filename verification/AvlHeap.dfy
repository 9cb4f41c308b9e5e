/** The pointer programs of heaps/tree/avl, each refining its operation on pictures.

    Every method takes the picture `t` of the tree it is given.  Frames are explicit: a
    call writes only cells of `t` and cells it allocates.  The ghost result `depth` counts
    nested activations. */
module AvlHeap {
  import opened Ints
  import opened AvlDefs
  import opened AvlOps

  /** What the C code reads for the height of a possibly null subtree. */
  function StoredHeight(x: AvlNode?): int
    reads x
  {
    if x == null then -1 else x.height
  }

  lemma StoredHeightIsHeight(x: AvlNode?, t: Tree)
    requires Holds(x, t) && Balanced(t)
    ensures StoredHeight(x) == Height(t)
  {
  }

  /** Make `l` and `r` the children of `c` and refresh its stored height. */
  method Link(l: AvlNode?, c: AvlNode, r: AvlNode?, ghost tl: Tree, ghost tr: Tree)
    requires Holds(l, tl) && Holds(r, tr) && Balanced(tl) && Balanced(tr)
    requires c !in Reach(tl) && c !in Reach(tr)
    modifies c
    ensures c.key == old(c.key)
    ensures Holds(c, Mk(tl, c, c.key, tr))
  {
    StoredHeightIsHeight(l, tl);
    StoredHeightIsHeight(r, tr);
    c.left, c.right := l, r;
    c.height := Max(StoredHeight(l), StoredHeight(r)) + 1;
    assert Holds(l, tl) && Holds(r, tr);
  }

  /** Rotate `y` above its parent `x`; `a`, `b` hang below `y`, `d` below `x`. */
  method RotateRight(x: AvlNode, y: AvlNode, ghost a: Tree, ghost b: Tree, ghost d: Tree)
    requires x != y && Holds(y.left, a) && Holds(y.right, b) && Holds(x.right, d)
    requires x !in Reach(a) + Reach(b) + Reach(d) && y !in Reach(a) + Reach(b) + Reach(d)
    requires Balanced(a) && Balanced(b) && Balanced(d) && -1 <= Height(b) - Height(d) <= 1
    modifies x, y
    ensures Holds(y, Mk(a, y, old(y.key), Mk(b, x, old(x.key), d)))
  {
    ReachAllocated(a);
    Link(y.right, x, x.right, b, d);
    MkBalanced(b, x, x.key, d);
    Link(y.left, y, x, a, Mk(b, x, x.key, d));
  }

  method RotateLeft(x: AvlNode, y: AvlNode, ghost a: Tree, ghost b: Tree, ghost d: Tree)
    requires x != y && Holds(x.left, a) && Holds(y.left, b) && Holds(y.right, d)
    requires x !in Reach(a) + Reach(b) + Reach(d) && y !in Reach(a) + Reach(b) + Reach(d)
    requires Balanced(a) && Balanced(b) && Balanced(d) && -1 <= Height(a) - Height(b) <= 1
    modifies x, y
    ensures Holds(y, Mk(Mk(a, x, old(x.key), b), y, old(y.key), d))
  {
    ReachAllocated(d);
    Link(x.left, x, y.left, a, b);
    MkBalanced(a, x, x.key, b);
    Link(x, y, y.right, Mk(a, x, x.key, b), d);
  }

  /** Make `z`, the inner grandchild, the root: `y` and `x` become its children, `a`, `b`
      going below `y` and `d`, `e` below `x`. */
  method RotateTwice(y: AvlNode, z: AvlNode, x: AvlNode, p: AvlNode?, q: AvlNode?, r: AvlNode?, s: AvlNode?,
                     ghost a: Tree, ghost b: Tree, ghost d: Tree, ghost e: Tree)
    requires x != y && y != z && x != z
    requires Holds(p, a) && Holds(q, b) && Holds(r, d) && Holds(s, e)
    requires {x, y, z} !! Reach(a) && {x, y, z} !! Reach(b) && {x, y, z} !! Reach(d) && {x, y, z} !! Reach(e)
    requires Balanced(a) && Balanced(b) && Balanced(d) && Balanced(e)
    requires -1 <= Height(a) - Height(b) <= 1 && -1 <= Height(d) - Height(e) <= 1
    modifies x, y, z
    ensures Holds(z, Mk(Mk(a, y, old(y.key), b), z, old(z.key), Mk(d, x, old(x.key), e)))
  {
    ReachAllocated(a);
    ReachAllocated(b);
    ReachAllocated(d);
    ReachAllocated(e);
    MkBalanced(a, y, y.key, b);
    MkBalanced(d, x, x.key, e);
    ghost var ty, tx := Mk(a, y, y.key, b), Mk(d, x, x.key, e);
    assert z !in Reach(ty) && z !in Reach(tx) && x !in Reach(ty);
    Link(p, y, q, a, b);
    assert Holds(r, d) && Holds(s, e);
    LinkBeside(r, x, s, d, e, y, ty);
    Link(y, z, x, ty, tx);
  }

  /** Link, with a second tree standing by untouched. */
  method LinkBeside(l: AvlNode?, c: AvlNode, r: AvlNode?, ghost tl: Tree, ghost tr: Tree, y: AvlNode, ghost ty: Tree)
    requires Holds(l, tl) && Holds(r, tr) && Balanced(tl) && Balanced(tr)
    requires c !in Reach(tl) && c !in Reach(tr)
    requires Holds(y, ty) && c !in Reach(ty)
    modifies c
    ensures c.key == old(c.key)
    ensures Holds(c, Mk(tl, c, c.key, tr)) && Holds(y, ty)
  {
    ReachAllocated(ty);
    Link(l, c, r, tl, tr);
  }

  /** The cells a rotation of the left child touches lie outside the subtrees it moves. */
  lemma LeftCells(t: Tree)
    requires t.Node? && t.left.Node? && Separate(t)
    ensures var (x, y) := (t.cell, t.left.cell);
      && x != y && {x, y} <= Reach(t)
      && {x, y} !! Reach(t.left.left) && {x, y} !! Reach(t.left.right) && {x, y} !! Reach(t.right)
    ensures t.left.right.Node? ==>
      var (z, m) := (t.left.right.cell, t.left.right);
      && z !in {t.cell, t.left.cell} && z in Reach(t)
      && z !in Reach(t.left.left) && z !in Reach(t.right)
      && {t.cell, t.left.cell, z} !! Reach(m.left) && {t.cell, t.left.cell, z} !! Reach(m.right)
  {
    assert t.left.cell in Reach(t.left);
    assert Reach(t.left.left) <= Reach(t.left) && Reach(t.left.right) <= Reach(t.left);
    if t.left.right.Node? {
      var m := t.left.right;
      assert Separate(t.left) && Separate(m);
      assert m.cell in Reach(m) && Reach(m.left) <= Reach(m) && Reach(m.right) <= Reach(m);
    }
  }

  lemma RightCells(t: Tree)
    requires t.Node? && t.right.Node? && Separate(t)
    ensures var (x, y) := (t.cell, t.right.cell);
      && x != y && {x, y} <= Reach(t)
      && {x, y} !! Reach(t.right.left) && {x, y} !! Reach(t.right.right) && {x, y} !! Reach(t.left)
    ensures t.right.left.Node? ==>
      var (z, m) := (t.right.left.cell, t.right.left);
      && z !in {t.cell, t.right.cell} && z in Reach(t)
      && z !in Reach(t.right.right) && z !in Reach(t.left)
      && {t.cell, t.right.cell, z} !! Reach(m.left) && {t.cell, t.right.cell, z} !! Reach(m.right)
  {
    assert t.right.cell in Reach(t.right);
    assert Reach(t.right.left) <= Reach(t.right) && Reach(t.right.right) <= Reach(t.right);
    if t.right.left.Node? {
      var m := t.right.left;
      assert Separate(t.right) && Separate(m);
      assert m.cell in Reach(m) && Reach(m.left) <= Reach(m) && Reach(m.right) <= Reach(m);
    }
  }

  /** avl_balance on a left subtree two levels too high. */
  method BalanceLeftHeavy(x: AvlNode, ghost t: Tree) returns (r: AvlNode)
    requires Holds(x, t) && Unbalanced(t) && Height(t.left) == Height(t.right) + 2
    modifies Reach(t)
    ensures Holds(r, Balance(t))
  {
    var y := x.left;
    ghost var tl := t.left;
    LeftCells(t);
    StoredHeightIsHeight(y.left, tl.left);
    StoredHeightIsHeight(y.right, tl.right);
    if StoredHeight(y.left) >= StoredHeight(y.right) {
      RotateRight(x, y, tl.left, tl.right, t.right);
      r := y;
    } else {
      r := y.right;
      RotateTwice(y, r, x, y.left, r.left, r.right, x.right, tl.left, tl.right.left, tl.right.right, t.right);
    }
  }

  /** avl_balance on a right subtree two levels too high. */
  method BalanceRightHeavy(x: AvlNode, ghost t: Tree) returns (r: AvlNode)
    requires Holds(x, t) && Unbalanced(t) && Height(t.right) == Height(t.left) + 2
    modifies Reach(t)
    ensures Holds(r, Balance(t))
  {
    var y := x.right;
    ghost var tr := t.right;
    RightCells(t);
    StoredHeightIsHeight(y.left, tr.left);
    StoredHeightIsHeight(y.right, tr.right);
    if StoredHeight(y.right) >= StoredHeight(y.left) {
      RotateLeft(x, y, t.left, tr.left, tr.right);
      r := y;
    } else {
      r := y.left;
      RotateTwice(x, r, y, x.left, r.left, r.right, y.right, t.left, tr.left.left, tr.left.right, tr.right);
    }
  }

  /** avl_balance: a body for the contract; it reads stored heights only. */
  method AvlBalance(x: AvlNode, ghost t: Tree) returns (r: AvlNode)
    requires Holds(x, t) && BalancePre(t)
    modifies Reach(t)
    ensures Holds(r, Balance(t))
  {
    BalancePreAspects(t);
    StoredHeightIsHeight(x.left, t.left);
    StoredHeightIsHeight(x.right, t.right);
    if StoredHeight(x.left) > StoredHeight(x.right) + 1 {
      r := BalanceLeftHeavy(x, t);
    } else if StoredHeight(x.right) > StoredHeight(x.left) + 1 {
      r := BalanceRightHeavy(x, t);
    } else {
      Link(x.left, x, x.right, t.left, t.right);
      r := x;
    }
  }

  /** avl_find_smallest */
  function AvlFindSmallest(x: AvlNode, ghost t: Tree): (k: int)
    requires Holds(x, t) && Avl(t)
    reads Reach(t)
    ensures k == FindSmallest(t) == MinKey(t) && k in Keys(t)
    decreases t
  {
    AvlIffAspects(t);
    FindSmallestIsMin(t);
    if x.left == null then x.key else AvlFindSmallest(x.left, t.left)
  }

  /** avl_find_smallest as the deletion calls it, its activations counted. */
  method FindSmallestCounted(x: AvlNode, ghost t: Tree) returns (k: int, ghost depth: nat)
    requires Holds(x, t) && Avl(t)
    ensures Holds(x, t) && k == AvlFindSmallest(x, t)
    ensures depth <= Height(t) + 1
    decreases t
  {
    ReachAllocated(t);
    if x.left == null {
      k, depth := x.key, 1;
    } else {
      k, depth := FindSmallestCounted(x.left, t.left);
      depth := depth + 1;
    }
  }

  /** `x->left = c; return avl_balance(x)` */
  method SetLeft(x: AvlNode, c: AvlNode?, ghost l: Tree, ghost r: Tree) returns (y: AvlNode)
    requires Holds(c, l) && Holds(x.right, r) && Unbalanced(Node(l, x, x.key, x.height, r))
    modifies {x} + Reach(l) + Reach(r)
    ensures Holds(y, Balance(Node(l, x, old(x.key), old(x.height), r)))
  {
    BalancePreAspects(Node(l, x, x.key, x.height, r));
    x.left := c;
    assert Holds(c, l) && Holds(x.right, r);
    y := AvlBalance(x, Node(l, x, x.key, x.height, r));
  }

  /** `x->right = c; return avl_balance(x)` */
  method SetRight(x: AvlNode, c: AvlNode?, ghost l: Tree, ghost r: Tree) returns (y: AvlNode)
    requires Holds(x.left, l) && Holds(c, r) && Unbalanced(Node(l, x, x.key, x.height, r))
    modifies {x} + Reach(l) + Reach(r)
    ensures Holds(y, Balance(Node(l, x, old(x.key), old(x.height), r)))
  {
    BalancePreAspects(Node(l, x, x.key, x.height, r));
    x.right := c;
    assert Holds(x.left, l) && Holds(c, r);
    y := AvlBalance(x, Node(l, x, x.key, x.height, r));
  }

  /** `x->key = k; x->right = c; return avl_balance(x)` */
  method SetKeyRight(x: AvlNode, k: int, c: AvlNode?, ghost l: Tree, ghost r: Tree) returns (y: AvlNode)
    requires Holds(x.left, l) && Holds(c, r) && Unbalanced(Node(l, x, k, x.height, r))
    modifies {x} + Reach(l) + Reach(r)
    ensures Holds(y, Balance(Node(l, x, k, old(x.height), r)))
  {
    x.key := k;
    assert Holds(x.left, l) && Holds(c, r);
    y := SetRight(x, c, l, r);
  }

  /** avl_insert */
  method AvlInsert(x: AvlNode?, k: int, ghost t: Tree) returns (r: AvlNode, ghost leaf: AvlNode, ghost depth: nat)
    requires Holds(x, t) && Avl(t) && k !in Keys(t)
    modifies Reach(t)
    ensures fresh(leaf) && Holds(r, Insert(t, k, leaf))
    ensures depth <= Height(t) + 2
    decreases t
  {
    ReachAllocated(t);
    if x == null {
      r := new AvlNode(k);
      leaf, depth := r, 1;
    } else if k < x.key {
      var newLeft;
      newLeft, leaf, depth := AvlInsert(x.left, k, t.left);
      InsertReady(t, k, leaf);
      r := SetLeft(x, newLeft, Insert(t.left, k, leaf), t.right);
      depth := depth + 1;
    } else {
      var newRight;
      newRight, leaf, depth := AvlInsert(x.right, k, t.right);
      InsertReady(t, k, leaf);
      r := SetRight(x, newRight, t.left, Insert(t.right, k, leaf));
      depth := depth + 1;
    }
  }

  /** Before each avl_balance call of avl_insert what it asks for holds. */
  lemma InsertReady(t: Tree, k: int, leaf: AvlNode)
    requires t.Node? && Avl(t) && k !in Keys(t) && leaf !in Reach(t)
    ensures k < t.key ==>
              && Unbalanced(Node(Insert(t.left, k, leaf), t.cell, t.key, t.height, t.right))
              && Reach(Insert(t.left, k, leaf)) == {leaf} + Reach(t.left)
              && {t.cell} + Reach(Insert(t.left, k, leaf)) + Reach(t.right) <= Reach(t) + {leaf}
    ensures k > t.key ==>
              && Unbalanced(Node(t.left, t.cell, t.key, t.height, Insert(t.right, k, leaf)))
              && Reach(Insert(t.right, k, leaf)) == {leaf} + Reach(t.right)
              && {t.cell} + Reach(t.left) + Reach(Insert(t.right, k, leaf)) <= Reach(t) + {leaf}
  {
    AvlIffAspects(t);
    if k < t.key {
      InsertInserts(t.left, k, leaf);
      InsertedLeft(t, k, leaf, Insert(t.left, k, leaf));
    } else {
      InsertInserts(t.right, k, leaf);
      InsertedRight(t, k, leaf, Insert(t.right, k, leaf));
    }
  }

  /** avl_delete; the cells freed simply drop out of the picture. */
  method AvlDelete(x: AvlNode?, k: int, ghost t: Tree) returns (r: AvlNode?, ghost depth: nat)
    requires Holds(x, t) && Avl(t) && (x != null ==> k in Keys(t))
    modifies Reach(t)
    ensures Holds(r, Delete(t, k))
    ensures depth <= if t.Leaf? then 1 else Height(t) + 1
    decreases t, 1
  {
    depth := 1;
    ReachAllocated(t);
    if x == null {
      return x, depth;
    }
    var right, left := x.right, x.left;
    if x.key == k {
      if left == null && right == null {
        r := null;
      } else if left == null {
        r := right;
      } else if right == null {
        r := left;
      } else {
        r, depth := MoveSuccessorUp(x, t);
      }
    } else if x.key > k {
      KeyBeneath(t, k);
      var newLeft;
      newLeft, depth := AvlDelete(left, k, t.left);
      DeleteReady(t, k);
      r := SetLeft(x, newLeft, Delete(t.left, k), t.right);
      depth := depth + 1;
    } else {
      KeyBeneath(t, k);
      var newRight;
      newRight, depth := AvlDelete(right, k, t.right);
      DeleteReady(t, k);
      r := SetRight(x, newRight, t.left, Delete(t.right, k));
      depth := depth + 1;
    }
  }

  /** The two-child case of avl_delete: the successor's key moves to the root. */
  method MoveSuccessorUp(x: AvlNode, ghost t: Tree) returns (r: AvlNode, ghost depth: nat)
    requires Holds(x, t) && Avl(t) && t.left.Node? && t.right.Node?
    modifies Reach(t)
    ensures var succ := FindSmallest(t.right);
            Holds(r, Balance(Node(t.left, x, succ, t.height, Delete(t.right, succ))))
    ensures depth <= Height(t) + 1
    decreases t, 0
  {
    ReachAllocated(t);
    var succ;
    ghost var d;
    succ, d := FindSmallestCounted(x.right, t.right);
    var newRight;
    newRight, depth := AvlDelete(x.right, succ, t.right);
    ghost var tr := Delete(t.right, succ);
    SuccessorReady(t);
    assert Holds(x.left, t.left);
    r := SetKeyRight(x, succ, newRight, t.left, tr);
    depth := Max(depth, d) + 1;
  }

  lemma KeyBeneath(t: Tree, k: int)
    requires t.Node? && Avl(t) && k in Keys(t)
    ensures k < t.key ==> k in Keys(t.left) && 0 <= Height(t.left) < Height(t)
    ensures k > t.key ==> k in Keys(t.right) && 0 <= Height(t.right) < Height(t)
  {
    AvlIffAspects(t);
  }

  /** Before each avl_balance call of avl_delete what it asks for holds. */
  lemma DeleteReady(t: Tree, k: int)
    requires t.Node? && Avl(t) && k in Keys(t)
    ensures k < t.key ==>
              && Unbalanced(Node(Delete(t.left, k), t.cell, t.key, t.height, t.right))
              && Reach(Delete(t.left, k)) <= Reach(t.left)
    ensures k > t.key ==>
              && Unbalanced(Node(t.left, t.cell, t.key, t.height, Delete(t.right, k)))
              && Reach(Delete(t.right, k)) <= Reach(t.right)
  {
    AvlIffAspects(t);
    if k < t.key {
      DeleteDeletes(t.left, k);
      DeletedLeft(t, k, Delete(t.left, k));
    } else if k > t.key {
      DeleteDeletes(t.right, k);
      DeletedRight(t, k, Delete(t.right, k));
    }
  }

  lemma SuccessorReady(t: Tree)
    requires t.Node? && Avl(t) && t.left.Node? && t.right.Node?
    ensures var succ := FindSmallest(t.right);
      && Unbalanced(Node(t.left, t.cell, succ, t.height, Delete(t.right, succ)))
      && Reach(Delete(t.right, succ)) <= Reach(t.right)
    ensures 0 <= Height(t.right) < Height(t)
  {
    AvlIffAspects(t);
    var succ := FindSmallest(t.right);
    FindSmallestIsMin(t.right);
    DeleteDeletes(t.right, succ);
    DeletedRoot(t, succ, Delete(t.right, succ));
  }
}
