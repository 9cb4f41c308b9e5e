/** The three renumbering programs of heaps/tree/traverse. */
module Traversal {
  import opened Ints
  import opened TraversalDefs

  // ----- What the programs write -----

  function InNumber(t: Tree, n: int): Tree {
    match t
    case Leaf => Leaf
    case Node(l, c, _, r) =>
      Node(InNumber(l, n), c, n + Size(l), InNumber(r, n + Size(l) + 1))
  }

  function PreNumber(t: Tree, n: int): Tree {
    match t
    case Leaf => Leaf
    case Node(l, c, _, r) =>
      Node(PreNumber(l, n + 1), c, n, PreNumber(r, n + 1 + Size(l)))
  }

  function PostNumber(t: Tree, n: int): Tree {
    match t
    case Leaf => Leaf
    case Node(l, c, _, r) =>
      Node(PostNumber(l, n), c, n + Size(l) + Size(r), PostNumber(r, n + Size(l)))
  }

  /** The tree with its keys forgotten: shape and cells. */
  function Frame(t: Tree): Tree {
    match t
    case Leaf => Leaf
    case Node(l, c, _, r) => Node(Frame(l), c, 0, Frame(r))
  }

  lemma {:induction false} FrameKeeps(t: Tree)
    ensures Reach(Frame(t)) == Reach(t) && Size(Frame(t)) == Size(t)
    ensures IsTree(Frame(t)) <==> IsTree(t)
  {
    if t.Node? {
      FrameKeeps(t.left);
      FrameKeeps(t.right);
    }
  }

  lemma {:induction false} NumberingKeepsFrame(t: Tree, n: int)
    ensures Frame(InNumber(t, n)) == Frame(t)
    ensures Frame(PreNumber(t, n)) == Frame(t)
    ensures Frame(PostNumber(t, n)) == Frame(t)
    decreases t
  {
    match t
    case Leaf =>
    case Node(l, _, _, r) =>
      NumberingKeepsFrame(l, n);
      NumberingKeepsFrame(l, n + 1);
      NumberingKeepsFrame(r, n + Size(l));
      NumberingKeepsFrame(r, n + Size(l) + 1);
      assert n + 1 + Size(l) == n + Size(l) + 1;
  }

  /** Three runs of consecutive keys, each beginning where the last one stopped. */
  lemma CountThree(a: seq<int>, b: seq<int>, c: seq<int>, n: int)
    requires a == Count(n, |a|) && b == Count(n + |a|, |b|) && c == Count(n + |a| + |b|, |c|)
    ensures a + b + c == Count(n, |a| + |b| + |c|)
  {
  }

  /** The in-order keys inorder leaves. */
  lemma {:induction false} InNumberCounts(t: Tree, n: int)
    ensures InKeys(InNumber(t, n)) == Count(n, Size(t))
    decreases t
  {
    if t.Node? {
      InNumberCounts(t.left, n);
      InNumberCounts(t.right, n + Size(t.left) + 1);
      CountThree(Count(n, Size(t.left)), [n + Size(t.left)], Count(n + Size(t.left) + 1, Size(t.right)), n);
    }
  }

  lemma {:induction false} PreNumberCounts(t: Tree, n: int)
    ensures PreKeys(PreNumber(t, n)) == Count(n, Size(t))
    decreases t
  {
    if t.Node? {
      PreNumberCounts(t.left, n + 1);
      PreNumberCounts(t.right, n + 1 + Size(t.left));
      CountThree([n], Count(n + 1, Size(t.left)), Count(n + 1 + Size(t.left), Size(t.right)), n);
    }
  }

  lemma CountLast(a: seq<int>, b: seq<int>, k: int, n: int)
    requires a == Count(n, |a|) && b == Count(n + |a|, |b|) && k == n + |a| + |b|
    ensures a + b + [k] == Count(n, |a| + |b| + 1)
  {
  }

  lemma {:induction false} PostNumberCounts(t: Tree, n: int)
    ensures PostKeys(PostNumber(t, n)) == Count(n, Size(t))
    decreases t
  {
    if t.Node? {
      PostNumberCounts(t.left, n);
      PostNumberCounts(t.right, n + Size(t.left));
      var u := PostNumber(t, n);
      assert u.left == PostNumber(t.left, n) && u.right == PostNumber(t.right, n + Size(t.left));
      CountLast(PostKeys(u.left), PostKeys(u.right), u.key, n);
    }
  }

  /** A run of consecutive keys in three parts: each part is the run that belongs there. */
  lemma PartsOfCount(a: seq<int>, b: seq<int>, c: seq<int>, n: int)
    requires a + b + c == Count(n, |a| + |b| + |c|)
    ensures a == Count(n, |a|) && b == Count(n + |a|, |b|) && c == Count(n + |a| + |b|, |c|)
  {
    var s := a + b + c;
    assert s[..|a|] == a && s[|a|..|a| + |b|] == b && s[|a| + |b|..] == c;
  }

  lemma CountOne(n: int)
    ensures Count(n, 1) == [n]
  {
  }

  lemma {:induction false} InCountForces(t: Tree, n: int)
    requires InKeys(t) == Count(n, Size(t))
    ensures InNumber(t, n) == t
    decreases t
  {
    if t.Node? {
      var (l, r) := (t.left, t.right);
      PartsOfCount(InKeys(l), [t.key], InKeys(r), n);
      CountOne(n + Size(l));
      InCountForces(l, n);
      InCountForces(r, n + Size(l) + 1);
    }
  }

  lemma {:induction false} PreCountForces(t: Tree, n: int)
    requires PreKeys(t) == Count(n, Size(t))
    ensures PreNumber(t, n) == t
    decreases t
  {
    if t.Node? {
      var (l, r) := (t.left, t.right);
      PartsOfCount([t.key], PreKeys(l), PreKeys(r), n);
      CountOne(n);
      PreCountForces(l, n + 1);
      PreCountForces(r, n + 1 + Size(l));
    }
  }

  lemma {:induction false} PostCountForces(t: Tree, n: int)
    requires PostKeys(t) == Count(n, Size(t))
    ensures PostNumber(t, n) == t
    decreases t
  {
    if t.Node? {
      var (l, r) := (t.left, t.right);
      PartsOfCount(PostKeys(l), PostKeys(r), [t.key], n);
      CountOne(n + Size(l) + Size(r));
      PostCountForces(l, n);
      PostCountForces(r, n + Size(l));
    }
  }

  /** A tree equals its own renumbering from `n` exactly when its keys, listed in the same
      order, are n, n+1, ...; so the listing pins the result of each program down. */
  lemma NumberIffCount(t: Tree, n: int)
    ensures InNumber(t, n) == t <==> InKeys(t) == Count(n, Size(t))
    ensures PreNumber(t, n) == t <==> PreKeys(t) == Count(n, Size(t))
    ensures PostNumber(t, n) == t <==> PostKeys(t) == Count(n, Size(t))
  {
    InNumberCounts(t, n);
    PreNumberCounts(t, n);
    PostNumberCounts(t, n);
    if InKeys(t) == Count(n, Size(t)) { InCountForces(t, n); }
    if PreKeys(t) == Count(n, Size(t)) { PreCountForces(t, n); }
    if PostKeys(t) == Count(n, Size(t)) { PostCountForces(t, n); }
  }

  lemma NumberingKeepsSize(t: Tree, n: int)
    ensures Size(InNumber(t, n)) == Size(PreNumber(t, n)) == Size(PostNumber(t, n)) == Size(t)
    ensures Reach(InNumber(t, n)) == Reach(PreNumber(t, n)) == Reach(PostNumber(t, n)) == Reach(t)
    ensures IsTree(InNumber(t, n)) == IsTree(PreNumber(t, n)) == IsTree(PostNumber(t, n)) == IsTree(t)
  {
    NumberingKeepsFrame(t, n);
    FrameKeeps(t);
    FrameKeeps(InNumber(t, n));
    FrameKeeps(PreNumber(t, n));
    FrameKeeps(PostNumber(t, n));
  }

  /** After inorder(x, n) the in-order keys are n, n+1, ..., on the same shape and cells, and
      intree holds. */
  lemma InNumberContract(t: Tree, n: int)
    requires IsTree(t)
    ensures InKeys(InNumber(t, n)) == Count(n, Size(t))
    ensures Frame(InNumber(t, n)) == Frame(t)
    ensures Intree(InNumber(t, n))
    ensures t.Node? ==> Order(InNumber(t, n)) == n + LSize(t)
  {
    NumberingKeepsSize(t, n);
    InNumberCounts(t, n);
    NumberingKeepsFrame(t, n);
    IntreeIffConsecutive(InNumber(t, n));
  }

  lemma PreNumberContract(t: Tree, n: int)
    requires IsTree(t)
    ensures PreKeys(PreNumber(t, n)) == Count(n, Size(t))
    ensures Frame(PreNumber(t, n)) == Frame(t)
    ensures Pretree(PreNumber(t, n))
    ensures t.Node? ==> Order(PreNumber(t, n)) == n
  {
    NumberingKeepsSize(t, n);
    PreNumberCounts(t, n);
    NumberingKeepsFrame(t, n);
    PretreeIffConsecutive(PreNumber(t, n));
  }

  lemma PostNumberContract(t: Tree, n: int)
    requires IsTree(t)
    ensures PostKeys(PostNumber(t, n)) == Count(n, Size(t))
    ensures Frame(PostNumber(t, n)) == Frame(t)
    ensures Posttree(PostNumber(t, n))
    ensures t.Node? ==> Order(PostNumber(t, n)) + 1 == n + Size(t)
  {
    NumberingKeepsSize(t, n);
    PostNumberCounts(t, n);
    NumberingKeepsFrame(t, n);
    PosttreeIffConsecutive(PostNumber(t, n));
  }

  // ----- The overflow assumptions -----

  /** Every `assume(... < INT_MAX)` met while inorder(x, n) runs. */
  predicate InAssumes(t: Tree, n: int) {
    && n < INT_MAX
    && (t.Node? ==>
        var n1 := n + Size(t.left);
        var n2 := n1 + 1;
        var n3 := n2 + Size(t.right);
        InAssumes(t.left, n) && n1 < INT_MAX && n2 < INT_MAX && InAssumes(t.right, n2) && n3 < INT_MAX)
  }

  predicate PreAssumes(t: Tree, n: int) {
    t.Node? ==>
      var n1 := n + 1;
      var n2 := n1 + Size(t.left);
      var n3 := n2 + Size(t.right);
      && n < INT_MAX && n1 < INT_MAX
      && PreAssumes(t.left, n1) && n2 < INT_MAX && PreAssumes(t.right, n2) && n3 < INT_MAX
  }

  predicate PostAssumes(t: Tree, n: int) {
    && n < INT_MAX
    && (t.Node? ==>
        var n1 := n + Size(t.left);
        var n2 := n1 + Size(t.right);
        PostAssumes(t.left, n) && n1 < INT_MAX && PostAssumes(t.right, n1) && n2 < INT_MAX && n2 + 1 < INT_MAX)
  }

  /** All the assumptions together say no more, and no less, than n + size < INT_MAX. */
  lemma {:induction false} AssumesIffRoom(t: Tree, n: int)
    ensures InAssumes(t, n) <==> n + Size(t) < INT_MAX
    ensures PreAssumes(t, n) <==> t.Leaf? || n + Size(t) < INT_MAX
    ensures PostAssumes(t, n) <==> n + Size(t) < INT_MAX
    decreases t
  {
    if t.Node? {
      AssumesIffRoom(t.left, n);
      AssumesIffRoom(t.left, n + 1);
      AssumesIffRoom(t.right, n + Size(t.left));
      AssumesIffRoom(t.right, n + Size(t.left) + 1);
    }
  }

  // ----- The pointer programs -----

  /** `x->key = n` */
  method SetKey(x: TreeNode, n: int32, ghost l: Tree, ghost r: Tree)
    requires Holds(x.left, l) && Holds(x.right, r) && x !in Reach(l) && x !in Reach(r)
    modifies x
    ensures x.left == old(x.left) && x.right == old(x.right) && x.key == n
    ensures Holds(x.left, l) && Holds(x.right, r)
  {
    x.key := n;
  }

  /** What one call leaves at `x`, given what it left at the children. */
  lemma InorderDone(x: TreeNode, t: Tree, n: int, l: Tree, r: Tree)
    requires t.Node? && x == t.cell && Holds(x.left, l) && Holds(x.right, r) && x.key as int == n + Size(t.left)
    requires l == InNumber(t.left, n) && r == InNumber(t.right, n + Size(t.left) + 1)
    ensures Holds(x, InNumber(t, n))
  {
  }

  lemma PreorderDone(x: TreeNode, t: Tree, n: int, l: Tree, r: Tree)
    requires t.Node? && x == t.cell && Holds(x.left, l) && Holds(x.right, r) && x.key as int == n
    requires l == PreNumber(t.left, n + 1) && r == PreNumber(t.right, n + 1 + Size(t.left))
    ensures Holds(x, PreNumber(t, n))
  {
  }

  lemma PostorderDone(x: TreeNode, t: Tree, n: int, l: Tree, r: Tree)
    requires t.Node? && x == t.cell && Holds(x.left, l) && Holds(x.right, r)
    requires x.key as int == n + Size(t.left) + Size(t.right)
    requires l == PostNumber(t.left, n) && r == PostNumber(t.right, n + Size(t.left))
    ensures Holds(x, PostNumber(t, n))
  {
  }

  /** `inorder` on one child `y` of `x`: the node `x` and the other child `z` stay as they are. */
  method InorderChild(y: TreeNode?, n: int32, ghost s: Tree, ghost x: TreeNode, ghost z: TreeNode?, ghost o: Tree)
    returns (m: int32)
    requires Holds(y, s) && IsTree(s) && n as int + Size(s) < INT_MAX
    requires Holds(z, o) && x !in Reach(s) && Reach(s) !! Reach(o)
    modifies Reach(s)
    ensures Holds(y, InNumber(s, n as int)) && m as int == n as int + Size(s)
    ensures Reach(InNumber(s, n as int)) == Reach(s) && Size(InNumber(s, n as int)) == Size(s)
    ensures Holds(z, o) && x.left == old(x.left) && x.right == old(x.right) && x.key == old(x.key)
    decreases s, 1
  {
    ReachAllocated(o);
    NumberingKeepsSize(s, n as int);
    m := Inorder(y, n, s);
  }

  /** inorder */
  method Inorder(x: TreeNode?, n: int32, ghost t: Tree) returns (m: int32)
    requires Holds(x, t) && IsTree(t) && n as int + Size(t) < INT_MAX
    modifies Reach(t)
    ensures Holds(x, InNumber(t, n as int))
    ensures m as int == n as int + Size(t)
    decreases t, 0
  {
    ReachAllocated(t);
    if x == null {
      return n;
    }
    ghost var l := InNumber(t.left, n as int);
    var n1 := InorderChild(x.left, n, t.left, x, x.right, t.right);
    assert n1 as int < INT_MAX;
    SetKey(x, n1, l, t.right);
    var n2 := n1 + 1;
    assert n2 as int < INT_MAX;
    var n3 := InorderChild(x.right, n2, t.right, x, x.left, l);
    assert n3 as int < INT_MAX;
    InorderDone(x, t, n as int, l, InNumber(t.right, n2 as int));
    return n3;
  }

  /** `preorder` on one child `y` of `x`: the node `x` and the other child `z` stay as they are. */
  method PreorderChild(y: TreeNode?, n: int32, ghost s: Tree, ghost x: TreeNode, ghost z: TreeNode?, ghost o: Tree)
    returns (m: int32)
    requires Holds(y, s) && IsTree(s) && (s.Leaf? || n as int + Size(s) < INT_MAX)
    requires Holds(z, o) && x !in Reach(s) && Reach(s) !! Reach(o)
    modifies Reach(s)
    ensures Holds(y, PreNumber(s, n as int)) && m as int == n as int + Size(s)
    ensures Reach(PreNumber(s, n as int)) == Reach(s) && Size(PreNumber(s, n as int)) == Size(s)
    ensures Holds(z, o) && x.left == old(x.left) && x.right == old(x.right) && x.key == old(x.key)
    decreases s, 1
  {
    ReachAllocated(o);
    NumberingKeepsSize(s, n as int);
    m := Preorder(y, n, s);
  }

  /** preorder; on an empty tree it makes no assumption about `n`. */
  method Preorder(x: TreeNode?, n: int32, ghost t: Tree) returns (m: int32)
    requires Holds(x, t) && IsTree(t) && (t.Leaf? || n as int + Size(t) < INT_MAX)
    modifies Reach(t)
    ensures Holds(x, PreNumber(t, n as int))
    ensures m as int == n as int + Size(t)
    decreases t, 0
  {
    ReachAllocated(t);
    if x == null {
      return n;
    }
    SetKey(x, n, t.left, t.right);
    assert n as int < INT_MAX;
    var n1 := n + 1;
    assert n1 as int < INT_MAX;
    ghost var l := PreNumber(t.left, n1 as int);
    var n2 := PreorderChild(x.left, n1, t.left, x, x.right, t.right);
    assert n2 as int < INT_MAX;
    var n3 := PreorderChild(x.right, n2, t.right, x, x.left, l);
    assert n3 as int < INT_MAX;
    PreorderDone(x, t, n as int, l, PreNumber(t.right, n2 as int));
    return n3;
  }

  /** `postorder` on one child `y` of `x`: the node `x` and the other child `z` stay as they are. */
  method PostorderChild(y: TreeNode?, n: int32, ghost s: Tree, ghost x: TreeNode, ghost z: TreeNode?, ghost o: Tree)
    returns (m: int32)
    requires Holds(y, s) && IsTree(s) && n as int + Size(s) < INT_MAX
    requires Holds(z, o) && x !in Reach(s) && Reach(s) !! Reach(o)
    modifies Reach(s)
    ensures Holds(y, PostNumber(s, n as int)) && m as int == n as int + Size(s)
    ensures Reach(PostNumber(s, n as int)) == Reach(s) && Size(PostNumber(s, n as int)) == Size(s)
    ensures Holds(z, o) && x.left == old(x.left) && x.right == old(x.right) && x.key == old(x.key)
    decreases s, 1
  {
    ReachAllocated(o);
    NumberingKeepsSize(s, n as int);
    m := Postorder(y, n, s);
  }

  /** postorder */
  method Postorder(x: TreeNode?, n: int32, ghost t: Tree) returns (m: int32)
    requires Holds(x, t) && IsTree(t) && n as int + Size(t) < INT_MAX
    modifies Reach(t)
    ensures Holds(x, PostNumber(t, n as int))
    ensures m as int == n as int + Size(t)
    decreases t, 0
  {
    ReachAllocated(t);
    if x == null {
      return n;
    }
    ghost var l := PostNumber(t.left, n as int);
    var n1 := PostorderChild(x.left, n, t.left, x, x.right, t.right);
    assert n1 as int < INT_MAX;
    ghost var r := PostNumber(t.right, n1 as int);
    var n2 := PostorderChild(x.right, n1, t.right, x, x.left, l);
    assert n2 as int < INT_MAX;
    SetKey(x, n2, l, r);
    var n3 := n2 + 1;
    assert n3 as int < INT_MAX;
    PostorderDone(x, t, n as int, l, r);
    return n3;
  }
}
