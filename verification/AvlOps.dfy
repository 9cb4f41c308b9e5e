/** The AVL operations on tree pictures, and the contracts the C sources state for them. */
module AvlOps {
  import opened Ints
  import opened AvlDefs

  /** A node whose stored height is the real one. */
  function Mk(l: Tree, c: AvlNode, k: int, r: Tree): Tree {
    Node(l, c, k, Max(Height(l), Height(r)) + 1, r)
  }

  /** The tree avl_balance builds: a single or a double rotation, cells moved, none made. */
  function Balance(t: Tree): Tree
    requires t.Node?
  {
    var (l, c, k, r) := (t.left, t.cell, t.key, t.right);
    if Height(l) > Height(r) + 1 then
      if Height(l.left) >= Height(l.right)
      then Mk(l.left, l.cell, l.key, Mk(l.right, c, k, r))
      else Mk(Mk(l.left, l.cell, l.key, l.right.left), l.right.cell, l.right.key, Mk(l.right.right, c, k, r))
    else if Height(r) > Height(l) + 1 then
      if Height(r.right) >= Height(r.left)
      then Mk(Mk(l, c, k, r.left), r.cell, r.key, r.right)
      else Mk(Mk(l, c, k, r.left.left), r.left.cell, r.left.key, Mk(r.left.right, r.cell, r.key, r.right))
    else Mk(l, c, k, r)
  }

  /** The requires clauses of avl_balance; the stored height of the root is not mentioned. */
  ghost predicate BalancePre(t: Tree) {
    && t.Node?
    && t.cell !in Reach(t.left)
    && t.key !in Keys(t.left)
    && Avl(t.left)
    && (t.left.Node? ==> MaxKey(t.left) < t.key)
    && t.cell !in Reach(t.right)
    && t.key !in Keys(t.right)
    && Avl(t.right)
    && (t.right.Node? ==> t.key < MinKey(t.right))
    && Reach(t.left) !! Reach(t.right)
    && Height(t.right) <= Height(t.left) + 2
    && Height(t.left) <= Height(t.right) + 2
  }

  /** The result height avl_balance promises, case by case. */
  function BalancedHeight(t: Tree): int
    requires t.Node?
  {
    var (hl, hr) := (Height(t.left), Height(t.right));
    if hl == hr + 2 then
      if Height(t.left.left) == Height(t.left.right) then hl + 1 else hl
    else if hr == hl + 2 then
      if Height(t.right.left) == Height(t.right.right) then hr + 1 else hr
    else Max(hl, hr) + 1
  }

  /** The in-order run of cells with their keys: what a rotation must leave alone. */
  function Run(t: Tree): seq<(AvlNode, int)> {
    match t
    case Leaf => []
    case Node(l, c, k, _, r) => Run(l) + [(c, k)] + Run(r)
  }

  /** A rotation permutes nothing: cells and keys keep their in-order sequence. */
  lemma BalanceKeepsRun(t: Tree)
    requires t.Node?
    ensures Run(Balance(t)) == Run(t)
  {
    var (l, c, k, r) := (t.left, t.cell, t.key, t.right);
    if Height(l) > Height(r) + 1 {
      if Height(l.left) >= Height(l.right) {
        RotateRight(l.left, l.cell, l.key, l.right, c, k, r);
      } else {
        var m := l.right;
        RotateRight(l.left, l.cell, l.key, m.left, m.cell, m.key, m.right);
        Reassociate(Run(l.left) + [(l.cell, l.key)] + Run(m.left), (m.cell, m.key), Run(m.right), (c, k), Run(r));
      }
    } else if Height(r) > Height(l) + 1 {
      if Height(r.right) >= Height(r.left) {
        RotateRight(l, c, k, r.left, r.cell, r.key, r.right);
      } else {
        var m := r.left;
        RotateRight(m.left, m.cell, m.key, m.right, r.cell, r.key, r.right);
        Reassociate(Run(l), (c, k), Run(m.left), (m.cell, m.key), Run(Mk(m.right, r.cell, r.key, r.right)));
      }
    }
  }

  lemma Reassociate<T>(a: seq<T>, x: T, b: seq<T>, y: T, c: seq<T>)
    ensures (a + [x] + b) + [y] + c == a + [x] + (b + [y] + c)
  {
  }

  lemma RotateRight(a: Tree, c1: AvlNode, k1: int, b: Tree, c2: AvlNode, k2: int, d: Tree)
    ensures Run(Mk(a, c1, k1, Mk(b, c2, k2, d))) == Run(Mk(Mk(a, c1, k1, b), c2, k2, d))
  {
    Reassociate(Run(a), (c1, k1), Run(b), (c2, k2), Run(d));
  }

  // ----- What the run determines -----

  lemma {:induction false} RunKeys(t: Tree)
    ensures |Run(t)| == |InOrder(t)| == Size(t)
    ensures forall i :: 0 <= i < |Run(t)| ==> Run(t)[i].1 == InOrder(t)[i]
  {
    match t
    case Leaf =>
    case Node(l, _, _, _, r) =>
      RunKeys(l);
      RunKeys(r);
  }

  ghost function CellSet(s: seq<(AvlNode, int)>): set<AvlNode> { set p <- s :: p.0 }

  lemma CellSetAround(a: seq<(AvlNode, int)>, c: AvlNode, k: int, b: seq<(AvlNode, int)>)
    ensures CellSet(a + [(c, k)] + b) == {c} + CellSet(a) + CellSet(b)
  {
    var s := a + [(c, k)] + b;
    assert (c, k) in s;
    assert forall p :: p in s <==> p in a || p == (c, k) || p in b;
  }

  lemma {:induction false} RunCells(t: Tree)
    ensures Reach(t) == CellSet(Run(t))
  {
    match t
    case Leaf =>
    case Node(l, c, k, _, r) =>
      RunCells(l);
      RunCells(r);
      CellSetAround(Run(l), c, k, Run(r));
  }

  ghost predicate DistinctCells(s: seq<(AvlNode, int)>) {
    forall i, j :: 0 <= i < j < |s| ==> s[i].0 != s[j].0
  }

  lemma CellIndex(s: seq<(AvlNode, int)>, i: nat)
    requires i < |s|
    ensures s[i].0 in CellSet(s)
  {
    assert s[i] in s;
  }

  lemma DistinctSplits(a: seq<(AvlNode, int)>, c: AvlNode, k: int, b: seq<(AvlNode, int)>)
    requires DistinctCells(a + [(c, k)] + b)
    ensures DistinctCells(a) && DistinctCells(b)
    ensures c !in CellSet(a) && c !in CellSet(b) && CellSet(a) !! CellSet(b)
  {
    var s := a + [(c, k)] + b;
    assert forall i :: 0 <= i < |a| ==> s[i] == a[i];
    assert s[|a|] == (c, k);
    assert forall i :: 0 <= i < |b| ==> b[i] == s[|a| + 1 + i];
  }

  lemma DistinctJoins(a: seq<(AvlNode, int)>, c: AvlNode, k: int, b: seq<(AvlNode, int)>)
    requires DistinctCells(a) && DistinctCells(b)
    requires c !in CellSet(a) && c !in CellSet(b) && CellSet(a) !! CellSet(b)
    ensures DistinctCells(a + [(c, k)] + b)
  {
    var s := a + [(c, k)] + b;
    forall i, j | 0 <= i < j < |s| ensures s[i].0 != s[j].0 {
      if i < |a| { CellIndex(a, i); }
      if |a| < j { CellIndex(b, j - |a| - 1); }
    }
  }

  lemma {:induction false} SeparateIffDistinct(t: Tree)
    ensures Separate(t) <==> DistinctCells(Run(t))
  {
    match t
    case Leaf =>
    case Node(l, c, k, _, r) =>
      SeparateIffDistinct(l);
      SeparateIffDistinct(r);
      RunCells(l);
      RunCells(r);
      if Separate(t) { DistinctJoins(Run(l), c, k, Run(r)); }
      if DistinctCells(Run(t)) { DistinctSplits(Run(l), c, k, Run(r)); }
  }

  /** Equal runs: equal keys, cells, order and separation, whatever the two shapes. */
  lemma SameRun(t: Tree, u: Tree)
    requires Run(t) == Run(u)
    ensures Keys(t) == Keys(u) && Reach(t) == Reach(u) && Size(t) == Size(u)
    ensures Ordered(t) <==> Ordered(u)
    ensures Separate(t) <==> Separate(u)
  {
    SameRunListing(t, u);
    RunCells(t);
    RunCells(u);
    SeparateIffDistinct(t);
    SeparateIffDistinct(u);
    OrderedIffSorted(t);
    OrderedIffSorted(u);
  }

  lemma SameRunListing(t: Tree, u: Tree)
    requires Run(t) == Run(u)
    ensures InOrder(t) == InOrder(u) && Keys(t) == Keys(u) && Size(t) == Size(u)
  {
    RunKeys(t);
    RunKeys(u);
    assert InOrder(t) == InOrder(u);
    InOrderKeys(t);
    InOrderKeys(u);
    forall i ensures i in Keys(t) <==> i in Keys(u) {
      assert i in InOrder(t) <==> i in Keys(t);
      assert i in InOrder(u) <==> i in Keys(u);
    }
  }

  lemma SameKeys(t: Tree, u: Tree)
    requires t.Node? && u.Node? && Keys(t) == Keys(u)
    ensures MinKey(t) == MinKey(u) && MaxKey(t) == MaxKey(u)
  {
    MinKeyIsLeast(t);
    MinKeyIsLeast(u);
    MaxKeyIsGreatest(t);
    MaxKeyIsGreatest(u);
  }

  // ----- avl_balance -----

  /** What avl_balance asks for, aspect by aspect. */
  ghost predicate Unbalanced(t: Tree) {
    && t.Node?
    && Separate(t) && Ordered(t) && Balanced(t.left) && Balanced(t.right)
    && -2 <= Height(t.left) - Height(t.right) <= 2
  }

  lemma BalancePreAspects(t: Tree)
    requires t.Node?
    ensures BalancePre(t) <==> Unbalanced(t)
  {
    AvlIffAspects(t.left);
    AvlIffAspects(t.right);
    BelowIffMaxKey(t.left, t.key);
    AboveIffMinKey(t.right, t.key);
  }

  lemma MkBalanced(l: Tree, c: AvlNode, k: int, r: Tree)
    requires Balanced(l) && Balanced(r) && -1 <= Height(l) - Height(r) <= 1
    ensures Balanced(Mk(l, c, k, r)) && Height(Mk(l, c, k, r)) == Max(Height(l), Height(r)) + 1
  {
  }

  lemma LeftHeavy(t: Tree)
    requires t.Node? && Balanced(t.left) && Balanced(t.right) && Height(t.left) == Height(t.right) + 2
    ensures Balanced(Balance(t)) && Height(Balance(t)) == BalancedHeight(t)
  {
    var (l, r) := (t.left, t.right);
    if Height(l.left) >= Height(l.right) {
      MkBalanced(l.right, t.cell, t.key, r);
      MkBalanced(l.left, l.cell, l.key, Mk(l.right, t.cell, t.key, r));
    } else {
      LeftRight(t);
    }
  }

  lemma LeftRight(t: Tree)
    requires t.Node? && Balanced(t.left) && Balanced(t.right) && Height(t.left) == Height(t.right) + 2
    requires Height(t.left.left) < Height(t.left.right)
    ensures Balanced(Balance(t)) && Height(Balance(t)) == Height(t.left)
  {
    var (l, m, r) := (t.left, t.left.right, t.right);
    MkBalanced(l.left, l.cell, l.key, m.left);
    MkBalanced(m.right, t.cell, t.key, r);
    MkBalanced(Mk(l.left, l.cell, l.key, m.left), m.cell, m.key, Mk(m.right, t.cell, t.key, r));
  }

  lemma RightHeavy(t: Tree)
    requires t.Node? && Balanced(t.left) && Balanced(t.right) && Height(t.right) == Height(t.left) + 2
    ensures Balanced(Balance(t)) && Height(Balance(t)) == BalancedHeight(t)
  {
    var (l, r) := (t.left, t.right);
    if Height(r.right) >= Height(r.left) {
      MkBalanced(l, t.cell, t.key, r.left);
      MkBalanced(Mk(l, t.cell, t.key, r.left), r.cell, r.key, r.right);
    } else {
      RightLeft(t);
    }
  }

  lemma RightLeft(t: Tree)
    requires t.Node? && Balanced(t.left) && Balanced(t.right) && Height(t.right) == Height(t.left) + 2
    requires Height(t.right.right) < Height(t.right.left)
    ensures Balanced(Balance(t)) && Height(Balance(t)) == Height(t.right)
  {
    var (l, m, r) := (t.left, t.right.left, t.right);
    MkBalanced(l, t.cell, t.key, m.left);
    MkBalanced(m.right, r.cell, r.key, r.right);
    MkBalanced(Mk(l, t.cell, t.key, m.left), m.cell, m.key, Mk(m.right, r.cell, r.key, r.right));
  }

  /** Heights alone: rebalancing two subtrees at most two levels apart. */
  lemma BalanceHeights(t: Tree)
    requires t.Node? && Balanced(t.left) && Balanced(t.right)
    requires -2 <= Height(t.left) - Height(t.right) <= 2
    ensures Balanced(Balance(t)) && Height(Balance(t)) == BalancedHeight(t)
  {
    if Height(t.left) == Height(t.right) + 2 {
      LeftHeavy(t);
    } else if Height(t.right) == Height(t.left) + 2 {
      RightHeavy(t);
    } else {
      MkBalanced(t.left, t.cell, t.key, t.right);
    }
  }

  /** What one avl_balance call guarantees about its result `u`. */
  ghost predicate Rebalanced(t: Tree, u: Tree)
    requires t.Node?
  {
    && Separate(u) && Ordered(u) && Balanced(u)
    && Keys(u) == Keys(t)
    && Reach(u) == Reach(t)
    && Size(u) == Size(t)
    && Height(u) == BalancedHeight(t)
  }

  lemma BalanceRebalances(t: Tree)
    requires Unbalanced(t)
    ensures Rebalanced(t, Balance(t))
  {
    BalanceKeepsRun(t);
    SameRun(Balance(t), t);
    BalanceHeights(t);
  }

  lemma RebalancedIsAvl(t: Tree, u: Tree)
    requires t.Node? && Rebalanced(t, u)
    ensures u.Node? && Avl(u)
    ensures MinKey(u) == MinKey(t) && MaxKey(u) == MaxKey(t)
  {
    assert t.key in Keys(u);
    AvlIffAspects(u);
    SameKeys(u, t);
  }

  /** The whole avl_balance contract, plus: the cells are the old cells. */
  lemma BalanceContract(t: Tree)
    requires BalancePre(t)
    ensures Avl(Balance(t))
    ensures Keys(Balance(t)) == {t.key} + (Keys(t.left) + Keys(t.right))
    ensures MinKey(Balance(t)) == MinKey(t) && MaxKey(Balance(t)) == MaxKey(t)
    ensures Height(Balance(t)) == BalancedHeight(t)
    ensures Reach(Balance(t)) == Reach(t)
    ensures Size(Balance(t)) == Size(t)
  {
    BalancePreAspects(t);
    BalanceRebalances(t);
    RebalancedIsAvl(t, Balance(t));
  }

  /** Rebalancing never adds a level beyond the new root, and takes away at most one. */
  lemma BalancedHeightRange(t: Tree)
    requires t.Node?
    ensures var m := Max(Height(t.left), Height(t.right));
            && m <= BalancedHeight(t) <= m + 1
            && (-1 <= Height(t.left) - Height(t.right) <= 1 ==> BalancedHeight(t) == m + 1)
  {
  }

  // ----- avl_find_smallest -----

  function FindSmallest(t: Tree): int
    requires t.Node?
  {
    if t.left.Leaf? then t.key else FindSmallest(t.left)
  }

  /** In an ordered tree the leftmost key is the minimum of the whole tree. */
  lemma {:induction false} FindSmallestIsMin(t: Tree)
    requires t.Node? && Ordered(t)
    ensures FindSmallest(t) == MinKey(t)
    ensures FindSmallest(t) in Keys(t)
    ensures forall i <- Keys(t) :: FindSmallest(t) <= i
  {
    MinKeyIsLeast(t);
    if t.left.Node? {
      FindSmallestIsMin(t.left);
      MinKeyIsLeast(t.left);
    }
  }

  // ----- avl_insert -----

  /** avl_insert; `leaf` is the cell malloc returned. */
  function Insert(t: Tree, k: int, leaf: AvlNode): (u: Tree)
    ensures u.Node?
  {
    match t
    case Leaf => Node(Leaf, leaf, k, 0, Leaf)
    case Node(l, c, key, h, r) =>
      if k < key then Balance(Node(Insert(l, k, leaf), c, key, h, r))
      else Balance(Node(l, c, key, h, Insert(r, k, leaf)))
  }

  /** What one avl_insert call guarantees about its result `u`. */
  ghost predicate Inserted(t: Tree, k: int, leaf: AvlNode, u: Tree) {
    && Separate(u) && Ordered(u) && Balanced(u)
    && Keys(u) == {k} + Keys(t)
    && Reach(u) == {leaf} + Reach(t)
    && Size(u) == Size(t) + 1
    && Height(t) <= Height(u) <= Height(t) + 1
  }

  /** An AVL tree in the aspect form. */
  ghost predicate Good(t: Tree) { Separate(t) && Ordered(t) && Balanced(t) }

  /** `n` is `t` with `k` put in, before avl_balance. */
  ghost predicate OneMore(t: Tree, k: int, leaf: AvlNode, n: Tree) {
    && Unbalanced(n)
    && Keys(n) == {k} + Keys(t) && Reach(n) == {leaf} + Reach(t) && Size(n) == Size(t) + 1
    && Height(t) <= BalancedHeight(n) <= Height(t) + 1
  }

  lemma RebalancedInserts(t: Tree, k: int, leaf: AvlNode, n: Tree)
    requires OneMore(t, k, leaf, n)
    ensures Inserted(t, k, leaf, Balance(n))
  {
    BalanceRebalances(n);
  }

  /** One subtree grown by at most a level, the other as it was. */
  lemma GrownHeight(t: Tree, n: Tree)
    requires t.Node? && n.Node? && Balanced(t)
    requires || (n.right == t.right && Height(t.left) <= Height(n.left) <= Height(t.left) + 1)
             || (n.left == t.left && Height(t.right) <= Height(n.right) <= Height(t.right) + 1)
    ensures -2 <= Height(n.left) - Height(n.right) <= 2
    ensures Height(t) <= BalancedHeight(n) <= Height(t) + 1
  {
    BalancedHeightRange(n);
  }

  lemma InsertedLeft(t: Tree, k: int, leaf: AvlNode, l: Tree)
    requires t.Node? && Good(t) && leaf !in Reach(t) && k < t.key && Inserted(t.left, k, leaf, l)
    ensures OneMore(t, k, leaf, Node(l, t.cell, t.key, t.height, t.right))
  {
    GrownHeight(t, Node(l, t.cell, t.key, t.height, t.right));
  }

  lemma InsertedRight(t: Tree, k: int, leaf: AvlNode, r: Tree)
    requires t.Node? && Good(t) && leaf !in Reach(t) && t.key < k && Inserted(t.right, k, leaf, r)
    ensures OneMore(t, k, leaf, Node(t.left, t.cell, t.key, t.height, r))
  {
    GrownHeight(t, Node(t.left, t.cell, t.key, t.height, r));
  }

  lemma {:induction false} InsertInserts(t: Tree, k: int, leaf: AvlNode)
    requires Good(t) && k !in Keys(t) && leaf !in Reach(t)
    ensures Inserted(t, k, leaf, Insert(t, k, leaf))
  {
    if t.Leaf? {
    } else if k < t.key {
      InsertInserts(t.left, k, leaf);
      InsertsInLeft(t, k, leaf);
    } else {
      InsertInserts(t.right, k, leaf);
      InsertsInRight(t, k, leaf);
    }
  }

  lemma InsertsInLeft(t: Tree, k: int, leaf: AvlNode)
    requires t.Node? && Good(t) && leaf !in Reach(t) && k < t.key && Inserted(t.left, k, leaf, Insert(t.left, k, leaf))
    ensures Inserted(t, k, leaf, Insert(t, k, leaf))
  {
    InsertedLeft(t, k, leaf, Insert(t.left, k, leaf));
    RebalancedInserts(t, k, leaf, Node(Insert(t.left, k, leaf), t.cell, t.key, t.height, t.right));
  }

  lemma InsertsInRight(t: Tree, k: int, leaf: AvlNode)
    requires t.Node? && Good(t) && leaf !in Reach(t) && t.key < k && Inserted(t.right, k, leaf, Insert(t.right, k, leaf))
    ensures Inserted(t, k, leaf, Insert(t, k, leaf))
  {
    InsertedRight(t, k, leaf, Insert(t.right, k, leaf));
    RebalancedInserts(t, k, leaf, Node(t.left, t.cell, t.key, t.height, Insert(t.right, k, leaf)));
  }

  /** The avl_insert contract: an AVL tree again, one more key, one more cell, and the
      height kept or one more. */
  lemma InsertContract(t: Tree, k: int, leaf: AvlNode)
    requires Avl(t) && k !in Keys(t) && leaf !in Reach(t)
    ensures Avl(Insert(t, k, leaf))
    ensures Keys(Insert(t, k, leaf)) == {k} + Keys(t)
    ensures Reach(Insert(t, k, leaf)) == {leaf} + Reach(t)
    ensures Height(t) <= Height(Insert(t, k, leaf)) <= Height(t) + 1
    ensures Size(Insert(t, k, leaf)) == Size(t) + 1
  {
    AvlIffAspects(t);
    InsertInserts(t, k, leaf);
    AvlIffAspects(Insert(t, k, leaf));
  }

  lemma ExtremesAfterAdding(t: Tree, k: int, u: Tree)
    requires u.Node? && Keys(u) == {k} + Keys(t)
    ensures MinKey(u) == if t.Node? then Min(MinKey(t), k) else k
    ensures MaxKey(u) == if t.Node? then Max(MaxKey(t), k) else k
  {
    MinKeyIsLeast(u);
    MaxKeyIsGreatest(u);
    if t.Node? {
      MinKeyIsLeast(t);
      MaxKeyIsGreatest(t);
    }
  }

  /** The inferred min/max clauses of avl_insert. */
  lemma InsertExtremes(t: Tree, k: int, leaf: AvlNode)
    requires Avl(t) && k !in Keys(t) && leaf !in Reach(t)
    ensures MinKey(Insert(t, k, leaf)) == if t.Node? then Min(MinKey(t), k) else k
    ensures MaxKey(Insert(t, k, leaf)) == if t.Node? then Max(MaxKey(t), k) else k
  {
    InsertContract(t, k, leaf);
    ExtremesAfterAdding(t, k, Insert(t, k, leaf));
  }

  // ----- avl_delete -----

  function Delete(t: Tree, k: int): Tree {
    match t
    case Leaf => Leaf
    case Node(l, c, key, h, r) =>
      if key == k then
        if l.Leaf? then r
        else if r.Leaf? then l
        else
          var succ := FindSmallest(r);
          Balance(Node(l, c, succ, h, Delete(r, succ)))
      else if key > k then Balance(Node(Delete(l, k), c, key, h, r))
      else Balance(Node(l, c, key, h, Delete(r, k)))
  }

  /** What one avl_delete call guarantees about its result `u`. */
  ghost predicate Deleted(t: Tree, k: int, u: Tree) {
    && Separate(u) && Ordered(u) && Balanced(u)
    && Keys(u) == Keys(t) - {k}
    && Reach(u) <= Reach(t)
    && Size(u) == Size(t) - 1
    && Height(t) - 1 <= Height(u) <= Height(t)
  }

  /** `n` is `t` with `k` taken out, before avl_balance. */
  ghost predicate OneLess(t: Tree, k: int, n: Tree) {
    && Unbalanced(n)
    && Keys(n) == Keys(t) - {k} && Reach(n) <= Reach(t) && Size(n) == Size(t) - 1
    && Height(t) - 1 <= BalancedHeight(n) <= Height(t)
  }

  lemma RebalancedDeletes(t: Tree, k: int, n: Tree)
    requires OneLess(t, k, n)
    ensures Deleted(t, k, Balance(n))
  {
    BalanceRebalances(n);
  }

  /** One subtree shrunk by at most a level, the other as it was. */
  lemma ShrunkHeight(t: Tree, n: Tree)
    requires t.Node? && n.Node? && Balanced(t)
    requires || (n.right == t.right && Height(t.left) - 1 <= Height(n.left) <= Height(t.left))
             || (n.left == t.left && Height(t.right) - 1 <= Height(n.right) <= Height(t.right))
    ensures -2 <= Height(n.left) - Height(n.right) <= 2
    ensures Height(t) - 1 <= BalancedHeight(n) <= Height(t)
  {
    BalancedHeightRange(n);
  }

  lemma DeletedLeft(t: Tree, k: int, l: Tree)
    requires t.Node? && Good(t) && k < t.key && Deleted(t.left, k, l)
    ensures OneLess(t, k, Node(l, t.cell, t.key, t.height, t.right))
  {
    var n := Node(l, t.cell, t.key, t.height, t.right);
    ShrunkHeight(t, n);
    assert k !in Keys(t.right);
    assert Keys(n) == Keys(t) - {k};
  }

  lemma DeletedRight(t: Tree, k: int, r: Tree)
    requires t.Node? && Good(t) && t.key < k && Deleted(t.right, k, r)
    ensures OneLess(t, k, Node(t.left, t.cell, t.key, t.height, r))
  {
    var n := Node(t.left, t.cell, t.key, t.height, r);
    ShrunkHeight(t, n);
    assert k !in Keys(t.left);
    assert Keys(n) == Keys(t) - {k};
  }

  lemma SuccessorOrdered(t: Tree, succ: int, r: Tree)
    requires t.Node? && Good(t) && Deleted(t.right, succ, r)
    requires succ in Keys(t.right) && forall i <- Keys(t.right) :: succ <= i
    ensures Separate(Node(t.left, t.cell, succ, t.height, r)) && Ordered(Node(t.left, t.cell, succ, t.height, r))
  {
    assert Below(t.left, succ) && Above(succ, r);
  }

  lemma SuccessorKeys(t: Tree, succ: int, r: Tree)
    requires t.Node? && Good(t) && Deleted(t.right, succ, r) && succ in Keys(t.right)
    ensures {succ} + (Keys(t.left) + Keys(r)) == Keys(t) - {t.key}
  {
    OrderKeepsApart(t.left, t.key, t.right);
  }

  /** The successor key takes the root's place. */
  lemma DeletedRoot(t: Tree, succ: int, r: Tree)
    requires t.Node? && Good(t) && Deleted(t.right, succ, r)
    requires succ in Keys(t.right) && forall i <- Keys(t.right) :: succ <= i
    ensures OneLess(t, t.key, Node(t.left, t.cell, succ, t.height, r))
  {
    SuccessorOrdered(t, succ, r);
    SuccessorKeys(t, succ, r);
    ShrunkHeight(t, Node(t.left, t.cell, succ, t.height, r));
  }

  lemma DeletedOneChild(t: Tree)
    requires t.Node? && Good(t) && (t.left.Leaf? || t.right.Leaf?)
    ensures Deleted(t, t.key, if t.left.Leaf? then t.right else t.left)
  {
    OrderKeepsApart(t.left, t.key, t.right);
  }

  lemma {:induction false} DeleteDeletes(t: Tree, k: int)
    requires Good(t) && k in Keys(t)
    ensures Deleted(t, k, Delete(t, k))
  {
    var Node(l, c, key, h, r) := t;
    if key == k {
      if l.Leaf? || r.Leaf? {
        DeletedOneChild(t);
      } else {
        FindSmallestIsMin(r);
        var succ := FindSmallest(r);
        DeleteDeletes(r, succ);
        DeletedRoot(t, succ, Delete(r, succ));
        RebalancedDeletes(t, k, Node(l, c, succ, h, Delete(r, succ)));
      }
    } else if key > k {
      DeleteDeletes(l, k);
      DeletedLeft(t, k, Delete(l, k));
      RebalancedDeletes(t, k, Node(Delete(l, k), c, key, h, r));
    } else {
      DeleteDeletes(r, k);
      DeletedRight(t, k, Delete(r, k));
      RebalancedDeletes(t, k, Node(l, c, key, h, Delete(r, k)));
    }
  }

  /** The avl_delete contract.  No cell is made, and exactly one is given up. */
  lemma DeleteContract(t: Tree, k: int)
    requires Avl(t) && k in Keys(t)
    ensures Avl(Delete(t, k))
    ensures Keys(Delete(t, k)) == Keys(t) - {k}
    ensures Reach(Delete(t, k)) <= Reach(t)
    ensures Height(t) - 1 <= Height(Delete(t, k)) <= Height(t)
    ensures Size(Delete(t, k)) == Size(t) - 1
  {
    AvlIffAspects(t);
    DeleteDeletes(t, k);
    AvlIffAspects(Delete(t, k));
  }

  // ----- Which node goes -----

  /** The node of key `k` has at most one child. */
  predicate AtMostOneChild(t: Tree, k: int) {
    match t
    case Leaf => true
    case Node(l, _, key, _, r) =>
      if key == k then l.Leaf? || r.Leaf?
      else if k < key then AtMostOneChild(l, k)
      else AtMostOneChild(r, k)
  }

  lemma {:induction false} SmallestIsFirst(t: Tree)
    requires t.Node? && Good(t)
    ensures AtMostOneChild(t, FindSmallest(t))
    ensures Run(t) != [] && Run(t)[0].1 == FindSmallest(t)
    ensures forall j :: 0 < j < |Run(t)| ==> Run(t)[j].1 != FindSmallest(t)
  {
    FindSmallestIsMin(t);
    OrderedIffSorted(t);
    RunKeys(t);
    if t.left.Node? {
      SmallestIsFirst(t.left);
      FindSmallestIsMin(t.left);
    }
  }

  /** The run is `a`, the node `c` of key `k`, `b`.  Taking `k` out, the node goes if it has at
      most one child, and otherwise takes over the key of the next node, which goes instead.
      All others keep their keys. */
  ghost predicate Cut(before: seq<(AvlNode, int)>, k: int, after: seq<(AvlNode, int)>, oneChild: bool,
                      a: seq<(AvlNode, int)>, c: AvlNode, b: seq<(AvlNode, int)>) {
    && before == a + [(c, k)] + b
    && if oneChild then after == a + b else b != [] && after == a + [(c, b[0].1)] + b[1..]
  }

  lemma CutLeft(m: seq<(AvlNode, int)>, k: int, m': seq<(AvlNode, int)>, one: bool,
                a: seq<(AvlNode, int)>, c: AvlNode, b: seq<(AvlNode, int)>, tail: seq<(AvlNode, int)>)
    requires Cut(m, k, m', one, a, c, b)
    ensures Cut(m + tail, k, m' + tail, one, a, c, b + tail)
  {
    assert a + [(c, k)] + (b + tail) == m + tail;
    if one {
      assert a + (b + tail) == m' + tail;
    } else {
      assert (b + tail)[1..] == b[1..] + tail;
      assert a + [(c, b[0].1)] + (b[1..] + tail) == m' + tail;
    }
  }

  lemma CutRight(m: seq<(AvlNode, int)>, k: int, m': seq<(AvlNode, int)>, one: bool,
                 a: seq<(AvlNode, int)>, c: AvlNode, b: seq<(AvlNode, int)>, front: seq<(AvlNode, int)>)
    requires Cut(m, k, m', one, a, c, b)
    ensures Cut(front + m, k, front + m', one, front + a, c, b)
  {
    assert (front + a) + [(c, k)] + b == front + m;
    if one {
      assert (front + a) + b == front + m';
    } else {
      assert (front + a) + [(c, b[0].1)] + b[1..] == front + m';
    }
  }

  /** The run avl_delete leaves, rebalancing aside. */
  function RunDeleted(t: Tree, k: int): seq<(AvlNode, int)> {
    match t
    case Leaf => []
    case Node(l, c, key, _, r) =>
      if key == k then
        if l.Leaf? then Run(r)
        else if r.Leaf? then Run(l)
        else Run(l) + [(c, FindSmallest(r))] + RunDeleted(r, FindSmallest(r))
      else if key > k then RunDeleted(l, k) + [(c, key)] + Run(r)
      else Run(l) + [(c, key)] + RunDeleted(r, k)
  }

  lemma {:induction false} DeleteKeepsRun(t: Tree, k: int)
    ensures Run(Delete(t, k)) == RunDeleted(t, k)
  {
    match t
    case Leaf =>
    case Node(l, c, key, h, r) =>
      if key == k {
        if l.Node? && r.Node? {
          DeleteKeepsRun(r, FindSmallest(r));
          BalanceKeepsRun(Node(l, c, FindSmallest(r), h, Delete(r, FindSmallest(r))));
        }
      } else if key > k {
        DeleteKeepsRun(l, k);
        BalanceKeepsRun(Node(Delete(l, k), c, key, h, r));
      } else {
        DeleteKeepsRun(r, k);
        BalanceKeepsRun(Node(l, c, key, h, Delete(r, k)));
      }
  }

  function RunInserted(t: Tree, k: int, leaf: AvlNode): seq<(AvlNode, int)> {
    match t
    case Leaf => [(leaf, k)]
    case Node(l, c, key, _, r) =>
      if k < key then RunInserted(l, k, leaf) + [(c, key)] + Run(r)
      else Run(l) + [(c, key)] + RunInserted(r, k, leaf)
  }

  lemma {:induction false} InsertKeepsRun(t: Tree, k: int, leaf: AvlNode)
    ensures Run(Insert(t, k, leaf)) == RunInserted(t, k, leaf)
  {
    match t
    case Leaf =>
    case Node(l, c, key, h, r) =>
      if k < key {
        InsertKeepsRun(l, k, leaf);
        BalanceKeepsRun(Node(Insert(l, k, leaf), c, key, h, r));
      } else {
        InsertKeepsRun(r, k, leaf);
        BalanceKeepsRun(Node(l, c, key, h, Insert(r, k, leaf)));
      }
  }

  /** avl_delete on the run of nodes. */
  lemma DeleteRun(t: Tree, k: int) returns (a: seq<(AvlNode, int)>, c: AvlNode, b: seq<(AvlNode, int)>)
    requires Avl(t) && k in Keys(t)
    ensures Cut(Run(t), k, Run(Delete(t, k)), AtMostOneChild(t, k), a, c, b)
  {
    AvlIffAspects(t);
    DeleteKeepsRun(t, k);
    a, c, b := RunDeletedIs(t, k);
  }

  lemma {:induction false} RunDeletedIs(t: Tree, k: int) returns (a: seq<(AvlNode, int)>, c: AvlNode, b: seq<(AvlNode, int)>)
    requires Good(t) && k in Keys(t)
    ensures Cut(Run(t), k, RunDeleted(t, k), AtMostOneChild(t, k), a, c, b)
    decreases t, 1
  {
    if t.key == k {
      a, c, b := Run(t.left), t.cell, Run(t.right);
      if t.left.Leaf? || t.right.Leaf? { OneChildRun(t); } else { SuccessorRun(t); }
    } else if k < t.key {
      a, c, b := RunDeletedIs(t.left, k);
      CutInLeft(t, k, a, c, b);
      b := b + ([(t.cell, t.key)] + Run(t.right));
    } else {
      a, c, b := RunDeletedIs(t.right, k);
      CutInRight(t, k, a, c, b);
      a := Run(t.left) + [(t.cell, t.key)] + a;
    }
  }

  lemma CutInLeft(t: Tree, k: int, a: seq<(AvlNode, int)>, c: AvlNode, b: seq<(AvlNode, int)>)
    requires t.Node? && k < t.key && Cut(Run(t.left), k, RunDeleted(t.left, k), AtMostOneChild(t.left, k), a, c, b)
    ensures Cut(Run(t), k, RunDeleted(t, k), AtMostOneChild(t, k), a, c, b + ([(t.cell, t.key)] + Run(t.right)))
  {
    var tail := [(t.cell, t.key)] + Run(t.right);
    CutLeft(Run(t.left), k, RunDeleted(t.left, k), AtMostOneChild(t.left, k), a, c, b, tail);
    assert Run(t) == Run(t.left) + tail && RunDeleted(t, k) == RunDeleted(t.left, k) + tail;
  }

  lemma CutInRight(t: Tree, k: int, a: seq<(AvlNode, int)>, c: AvlNode, b: seq<(AvlNode, int)>)
    requires t.Node? && k > t.key && Cut(Run(t.right), k, RunDeleted(t.right, k), AtMostOneChild(t.right, k), a, c, b)
    ensures Cut(Run(t), k, RunDeleted(t, k), AtMostOneChild(t, k), Run(t.left) + [(t.cell, t.key)] + a, c, b)
  {
    CutRight(Run(t.right), k, RunDeleted(t.right, k), AtMostOneChild(t.right, k), a, c, b, Run(t.left) + [(t.cell, t.key)]);
  }

  lemma OneChildRun(t: Tree)
    requires t.Node? && (t.left.Leaf? || t.right.Leaf?)
    ensures Cut(Run(t), t.key, RunDeleted(t, t.key), AtMostOneChild(t, t.key), Run(t.left), t.cell, Run(t.right))
  {
    assert Run(t.left) + [] == Run(t.left) && [] + Run(t.right) == Run(t.right);
  }

  /** The two-child case: the successor is the first of the right run. */
  lemma {:induction false} SuccessorRun(t: Tree)
    requires t.Node? && Good(t) && t.left.Node? && t.right.Node?
    ensures Cut(Run(t), t.key, RunDeleted(t, t.key), AtMostOneChild(t, t.key), Run(t.left), t.cell, Run(t.right))
    decreases t, 0
  {
    var r := t.right;
    var succ := FindSmallest(r);
    SmallestIsFirst(r);
    FindSmallestIsMin(r);
    var a, c, b := RunDeletedIs(r, succ);
    FirstIsCut(Run(r), succ, RunDeleted(r, succ), a, c, b);
  }

  lemma FirstIsCut(m: seq<(AvlNode, int)>, k: int, m': seq<(AvlNode, int)>, a: seq<(AvlNode, int)>, c: AvlNode, b: seq<(AvlNode, int)>)
    requires Cut(m, k, m', true, a, c, b) && forall j :: 0 < j < |m| ==> m[j].1 != k
    ensures m' == m[1..]
  {
    assert m[|a|] == (c, k);
    assert a == [];
    assert m' == b;
  }

  /** avl_insert on the run of nodes: the new leaf is put in where its key belongs. */
  lemma InsertRun(t: Tree, k: int, leaf: AvlNode) returns (a: seq<(AvlNode, int)>, b: seq<(AvlNode, int)>)
    requires Avl(t) && k !in Keys(t)
    ensures Run(t) == a + b && Run(Insert(t, k, leaf)) == a + [(leaf, k)] + b
    ensures (forall x <- a :: x.1 < k) && (forall x <- b :: k < x.1)
  {
    AvlIffAspects(t);
    InsertKeepsRun(t, k, leaf);
    a, b := RunInsertedIs(t, k, leaf);
  }

  ghost predicate PutsIn(before: seq<(AvlNode, int)>, k: int, leaf: AvlNode, after: seq<(AvlNode, int)>,
                         a: seq<(AvlNode, int)>, b: seq<(AvlNode, int)>) {
    && before == a + b && after == a + [(leaf, k)] + b
    && (forall x <- a :: x.1 < k) && (forall x <- b :: k < x.1)
  }

  lemma PutsInLeft(m: seq<(AvlNode, int)>, k: int, leaf: AvlNode, m': seq<(AvlNode, int)>,
                   a: seq<(AvlNode, int)>, b: seq<(AvlNode, int)>, tail: seq<(AvlNode, int)>)
    requires PutsIn(m, k, leaf, m', a, b) && forall x <- tail :: k < x.1
    ensures PutsIn(m + tail, k, leaf, m' + tail, a, b + tail)
  {
    assert a + (b + tail) == m + tail;
    assert a + [(leaf, k)] + (b + tail) == m' + tail;
  }

  lemma PutsInRight(m: seq<(AvlNode, int)>, k: int, leaf: AvlNode, m': seq<(AvlNode, int)>,
                    a: seq<(AvlNode, int)>, b: seq<(AvlNode, int)>, front: seq<(AvlNode, int)>)
    requires PutsIn(m, k, leaf, m', a, b) && forall x <- front :: x.1 < k
    ensures PutsIn(front + m, k, leaf, front + m', front + a, b)
  {
    assert (front + a) + b == front + m;
    assert (front + a) + [(leaf, k)] + b == front + m';
  }

  lemma {:induction false} RunInsertedIs(t: Tree, k: int, leaf: AvlNode) returns (a: seq<(AvlNode, int)>, b: seq<(AvlNode, int)>)
    requires Ordered(t) && k !in Keys(t)
    ensures PutsIn(Run(t), k, leaf, RunInserted(t, k, leaf), a, b)
  {
    if t.Leaf? {
      a, b := [], [];
    } else if k < t.key {
      a, b := RunInsertedIs(t.left, k, leaf);
      b := PutInLeftOf(t, k, leaf, a, b);
    } else {
      a, b := RunInsertedIs(t.right, k, leaf);
      a := PutInRightOf(t, k, leaf, a, b);
    }
  }

  lemma PutInLeftOf(t: Tree, k: int, leaf: AvlNode, a: seq<(AvlNode, int)>, b: seq<(AvlNode, int)>) returns (b': seq<(AvlNode, int)>)
    requires t.Node? && Ordered(t) && k < t.key && PutsIn(Run(t.left), k, leaf, RunInserted(t.left, k, leaf), a, b)
    ensures PutsIn(Run(t), k, leaf, RunInserted(t, k, leaf), a, b')
  {
    RunKeysIn(t.right);
    var tail := [(t.cell, t.key)] + Run(t.right);
    b' := b + tail;
    PutsInLeft(Run(t.left), k, leaf, RunInserted(t.left, k, leaf), a, b, tail);
    assert Run(t) == Run(t.left) + tail && RunInserted(t, k, leaf) == RunInserted(t.left, k, leaf) + tail;
  }

  lemma PutInRightOf(t: Tree, k: int, leaf: AvlNode, a: seq<(AvlNode, int)>, b: seq<(AvlNode, int)>) returns (a': seq<(AvlNode, int)>)
    requires t.Node? && Ordered(t) && t.key < k && PutsIn(Run(t.right), k, leaf, RunInserted(t.right, k, leaf), a, b)
    ensures PutsIn(Run(t), k, leaf, RunInserted(t, k, leaf), a', b)
  {
    RunKeysIn(t.left);
    var front := Run(t.left) + [(t.cell, t.key)];
    a' := front + a;
    PutsInRight(Run(t.right), k, leaf, RunInserted(t.right, k, leaf), a, b, front);
  }

  lemma RunKeysIn(t: Tree)
    ensures forall x <- Run(t) :: x.1 in Keys(t)
  {
    RunKeys(t);
    InOrderKeys(t);
    forall x | x in Run(t) ensures x.1 in Keys(t) {
      var j :| 0 <= j < |Run(t)| && Run(t)[j] == x;
      assert InOrder(t)[j] in InOrder(t);
    }
  }

  lemma TreeExtremes(t: Tree)
    requires t.Node?
    ensures Least(MinKey(t), Keys(t)) && Greatest(MaxKey(t), Keys(t))
  {
    MinKeyIsLeast(t);
    MaxKeyIsGreatest(t);
  }

  /** The inferred min/max clauses of avl_delete: the extremes move inward only, and
      strictly exactly when the deleted key was the extreme. */
  lemma DeleteExtremes(t: Tree, k: int)
    requires Avl(t) && k in Keys(t) && Delete(t, k).Node?
    ensures MinKey(Delete(t, k)) >= MinKey(t) && MaxKey(Delete(t, k)) <= MaxKey(t)
    ensures MinKey(Delete(t, k)) > MinKey(t) <==> k == MinKey(t)
    ensures MaxKey(Delete(t, k)) < MaxKey(t) <==> k == MaxKey(t)
  {
    DeleteContract(t, k);
    var u := Delete(t, k);
    TreeExtremes(t);
    TreeExtremes(u);
    ExtremesAfterRemoving(Keys(t), k, MinKey(t), MaxKey(t), MinKey(u), MaxKey(u));
  }

  lemma SameKeySetSameListing(t: Tree, u: Tree)
    requires Avl(t) && Avl(u) && Keys(t) == Keys(u)
    ensures InOrder(t) == InOrder(u)
  {
    AvlIffAspects(t);
    AvlIffAspects(u);
    OrderedIffSorted(t);
    OrderedIffSorted(u);
    InOrderKeys(t);
    InOrderKeys(u);
    SortedUnique(InOrder(t), InOrder(u));
  }

  /** Deleting a key just inserted restores the listing (the shape may differ). */
  lemma InsertThenDelete(t: Tree, k: int, leaf: AvlNode)
    requires Avl(t) && k !in Keys(t) && leaf !in Reach(t)
    ensures InOrder(Delete(Insert(t, k, leaf), k)) == InOrder(t)
  {
    InsertContract(t, k, leaf);
    DeleteContract(Insert(t, k, leaf), k);
    SameKeySetSameListing(Delete(Insert(t, k, leaf), k), t);
  }

  // ----- Whole runs -----

  datatype Call = InsertCall(k: int, leaf: AvlNode) | DeleteCall(k: int)

  function Apply(t: Tree, c: Call): Tree {
    match c
    case InsertCall(k, leaf) => Insert(t, k, leaf)
    case DeleteCall(k) => Delete(t, k)
  }

  function RunCalls(t: Tree, calls: seq<Call>): Tree
    decreases |calls|
  {
    if calls == [] then t else RunCalls(Apply(t, calls[0]), calls[1..])
  }

  function ApplyToSet(s: set<int>, c: Call): set<int> {
    match c
    case InsertCall(k, _) => s + {k}
    case DeleteCall(k) => s - {k}
  }

  /** The same calls on a plain set of keys. */
  function RunOnSet(s: set<int>, calls: seq<Call>): set<int>
    decreases |calls|
  {
    if calls == [] then s
    else RunOnSet(ApplyToSet(s, calls[0]), calls[1..])
  }

  /** The call finds its key absent (insert) or present (delete), judged on the set alone, and
      an insert brings a cell not used before. */
  ghost predicate LegalCall(s: set<int>, used: set<AvlNode>, c: Call) {
    match c
    case InsertCall(k, leaf) => k !in s && leaf !in used
    case DeleteCall(k) => k in s
  }

  ghost function UsedAfter(used: set<AvlNode>, c: Call): set<AvlNode> {
    match c
    case InsertCall(_, leaf) => used + {leaf}
    case DeleteCall(_) => used
  }

  ghost predicate LegalCalls(s: set<int>, used: set<AvlNode>, calls: seq<Call>)
    decreases |calls|
  {
    calls == [] ||
    (LegalCall(s, used, calls[0]) && LegalCalls(ApplyToSet(s, calls[0]), UsedAfter(used, calls[0]), calls[1..]))
  }

  lemma CallRefinesSet(t: Tree, used: set<AvlNode>, c: Call)
    requires Avl(t) && Reach(t) <= used && LegalCall(Keys(t), used, c)
    ensures Avl(Apply(t, c)) && Keys(Apply(t, c)) == ApplyToSet(Keys(t), c)
    ensures Reach(Apply(t, c)) <= UsedAfter(used, c)
  {
    match c
    case InsertCall(k, leaf) => InsertRefinesSet(t, used, k, leaf);
    case DeleteCall(k) => DeleteContract(t, k);
  }

  lemma InsertRefinesSet(t: Tree, used: set<AvlNode>, k: int, leaf: AvlNode)
    requires Avl(t) && Reach(t) <= used && k !in Keys(t) && leaf !in used
    ensures Avl(Insert(t, k, leaf)) && Keys(Insert(t, k, leaf)) == Keys(t) + {k}
    ensures Reach(Insert(t, k, leaf)) <= used + {leaf}
  {
    InsertContract(t, k, leaf);
  }

  /** Any legal run from any AVL tree keeps an AVL tree that refines the set. */
  lemma {:induction false} RunRefinesSet(t: Tree, used: set<AvlNode>, calls: seq<Call>)
    requires Avl(t) && Reach(t) <= used && LegalCalls(Keys(t), used, calls)
    ensures Avl(RunCalls(t, calls)) && Keys(RunCalls(t, calls)) == RunOnSet(Keys(t), calls)
    decreases |calls|
  {
    if calls != [] {
      CallRefinesSet(t, used, calls[0]);
      RunRefinesSet(Apply(t, calls[0]), UsedAfter(used, calls[0]), calls[1..]);
    }
  }

  // ----- Logarithmic height -----

  function Fib(n: nat): nat { if n < 2 then n else Fib(n - 1) + Fib(n - 2) }

  lemma {:induction false} FibMonotone(m: nat, n: nat)
    requires m <= n
    ensures Fib(m) <= Fib(n)
    decreases n
  {
    if m < n {
      FibMonotone(m, n - 1);
      if n == 1 { assert m == 0; }
    }
  }

  lemma {:induction false} BalancedSizeBound(t: Tree)
    requires Balanced(t)
    ensures Size(t) + 1 >= Fib(Height(t) + 3)
  {
    if t.Node? {
      BalancedSizeBound(t.left);
      BalancedSizeBound(t.right);
      FibStep(Height(t.left), Height(t.right));
    }
  }

  /** An AVL tree of height h has at least Fib(h + 3) - 1 nodes. */
  lemma AvlSizeBound(t: Tree)
    requires Avl(t)
    ensures Size(t) >= Fib(Height(t) + 3) - 1
  {
    AvlIffAspects(t);
    BalancedSizeBound(t);
  }

  lemma FibStep(hl: int, hr: int)
    requires hl >= -1 && hr >= -1 && -1 <= hl - hr <= 1
    ensures Fib(hl + 3) + Fib(hr + 3) >= Fib(Max(hl, hr) + 4)
  {
    FibMonotone(Max(hl, hr) + 2, hl + 3);
    FibMonotone(Max(hl, hr) + 2, hr + 3);
  }

  function Pow2(n: nat): nat { if n == 0 then 1 else 2 * Pow2(n - 1) }

  lemma {:induction false} FibExponential(n: nat)
    ensures Fib(2 * n + 2) >= Pow2(n) && Fib(2 * n + 1) >= Pow2(n)
  {
    if n > 0 {
      FibExponential(n - 1);
      assert Fib(2 * n + 1) == Fib(2 * n) + Fib(2 * n - 1);
      assert Fib(2 * n + 2) == Fib(2 * n + 1) + Fib(2 * n);
    }
  }

  lemma LogBound(h: int, size: nat)
    requires h >= -1 && size >= Fib(h + 3) - 1
    ensures Pow2((h + 1) / 2) <= size + 1
  {
    var n := (h + 1) / 2;
    FibExponential(n);
    FibMonotone(2 * n + 1, h + 3);
  }

  /** Height is logarithmic in size: 2^((h+1)/2) <= n + 1. */
  lemma AvlHeightLogarithmic(t: Tree)
    requires Avl(t)
    ensures Pow2((Height(t) + 1) / 2) <= Size(t) + 1
  {
    AvlSizeBound(t);
    LogBound(Height(t), Size(t));
  }
}
