/** The BSD simple queue of heaps/os/openbsd: a singly linked list with a pointer to its
    last node. */
module SimpleQueue {
  import opened Sequences

  /** struct q_node */
  class QNode {
    var next: QNode?
  }

  /** struct q_head */
  class QHead {
    var first: QNode?
    var last: QNode?
  }

  function At(s: seq<QNode>, i: int): QNode? { if 0 <= i < |s| then s[i] else null }

  /** The predicate queue, with `s` the nodes in order (queue_reach is the head and `s`). */
  ghost predicate Queue(h: QHead, s: seq<QNode>)
    reads h, s
  {
    && Distinct(s)
    && h.first == At(s, 0)
    && h.last == At(s, |s| - 1)
    && (forall i {:trigger s[i].next} :: 0 <= i < |s| ==> s[i].next == At(s, i + 1))
  }

  lemma DistinctEnds(s: seq<QNode>, x: QNode)
    requires Distinct(s) && x !in s
    ensures Distinct(s + [x]) && Distinct([x] + s)
  {
  }

  /** simpleq_insert_tail appends if `x` has no successor, which the C contract demands of its
      caller; otherwise the head holds no queue of any nodes afterwards. */
  method InsertTail(head: QHead, x: QNode, ghost s: seq<QNode>) returns (r: QHead)
    requires Queue(head, s) && x !in s
    modifies head, s
    ensures r == head && x.next == old(x.next)
    ensures old(x.next) == null ==> Queue(head, s + [x])
    ensures old(x.next) != null ==> forall u :: !Queue(head, u)
    ensures forall i {:trigger s[i].next} :: 0 <= i < |s| ==> s[i].next == At(s + [x], i + 1)
  {
    DistinctEnds(s, x);
    if head.last == null {
      head.first := x;
    } else {
      var last := head.last;
      last.next := x;
    }
    head.last := x;
    ghost var u := s + [x];
    assert u[|s|].next == old(x.next);
    return head;
  }

  /** simpleq_insert_head prepends, whatever `x->next` was. */
  method InsertHead(head: QHead, x: QNode, ghost s: seq<QNode>) returns (r: QHead)
    requires Queue(head, s) && x !in s
    modifies head, x
    ensures r == head && Queue(head, [x] + s)
  {
    DistinctEnds(s, x);
    var fst := head.first;
    x.next := fst;
    if x.next == null {
      head.last := x;
    }
    head.first := x;
    ghost var u := [x] + s;
    assert forall i {:trigger u[i].next} :: 0 < i < |u| ==> u[i] == s[i - 1] && u[i].next == s[i - 1].next;
    return head;
  }

  /** simpleq_remove_head drops the first node, which keeps its own `next`. */
  method RemoveHead(head: QHead, ghost s: seq<QNode>) returns (r: QHead)
    requires Queue(head, s) && head.first != null
    modifies head
    ensures r == head && s != [] && Queue(head, s[1..])
  {
    var fst := head.first;
    var fstNext := fst.next;
    head.first := fstNext;
    if fstNext == null {
      head.last := fstNext;
    }
    ghost var u := s[1..];
    assert forall i {:trigger u[i].next} :: 0 <= i < |u| ==> u[i] == s[i + 1] && u[i].next == s[i + 1].next;
    return head;
  }

  // ----- Runs -----

  datatype Op = Tail(x: QNode) | Head(x: QNode) | Remove

  /** The queue as a sequence, and the nodes outside it whose `next` is not null. */
  datatype State = State(contents: seq<QNode>, stale: set<QNode>)

  function Step(q: State, op: Op): State
    requires op.Remove? ==> q.contents != []
  {
    match op
    case Tail(x) => State(q.contents + [x], q.stale)
    case Head(x) => State([x] + q.contents, q.stale - {x})
    case Remove =>
      State(q.contents[1..], if |q.contents| > 1 then q.stale + {q.contents[0]} else q.stale - {q.contents[0]})
  }

  /** The requires clause of each operation, read off the state alone. */
  predicate Legal(q: State, op: Op) {
    match op
    case Tail(x) => x !in q.contents && x !in q.stale
    case Head(x) => x !in q.contents
    case Remove => q.contents != []
  }

  predicate LegalRun(q: State, ops: seq<Op>)
    decreases |ops|
  {
    ops == [] || (Legal(q, ops[0]) && LegalRun(Step(q, ops[0]), ops[1..]))
  }

  function RunState(q: State, ops: seq<Op>): State
    requires LegalRun(q, ops)
    decreases |ops|
  {
    if ops == [] then q else RunState(Step(q, ops[0]), ops[1..])
  }

  /** The heap agrees with the state: the queue holds, and of the nodes `u` in play those
      outside the queue have a successor exactly when they are stale. */
  ghost predicate Agrees(head: QHead, q: State, u: set<QNode>)
    reads head, q.contents, u
  {
    && Queue(head, q.contents)
    && (forall i :: 0 <= i < |q.contents| ==> q.contents[i] in u)
    && (forall n {:trigger n.next} :: n in u && n !in q.contents ==> (n in q.stale <==> n.next != null))
  }

  method Perform(head: QHead, op: Op, ghost q: State, ghost u: set<QNode>)
    requires Agrees(head, q, u) && Legal(q, op) && (!op.Remove? ==> op.x in u)
    modifies head, u
    ensures Agrees(head, Step(q, op), u)
  {
    match op
    case Tail(x) =>
      var _ := InsertTail(head, x, q.contents);
      assert forall n :: n in q.contents + [x] <==> n in q.contents || n == x;
    case Head(x) =>
      var _ := InsertHead(head, x, q.contents);
      assert forall n :: n in [x] + q.contents <==> n == x || n in q.contents;
    case Remove =>
      var _ := RemoveHead(head, q.contents);
      assert q.contents == [q.contents[0]] + q.contents[1..];
      assert q.contents[0].next == At(q.contents, 1);
  }

  /** Any legal run of queue operations keeps `queue` and refines the sequence. */
  method RunOps(head: QHead, ops: seq<Op>, ghost q0: State, ghost u: set<QNode>)
    requires Agrees(head, q0, u) && LegalRun(q0, ops)
    requires forall op <- ops :: !op.Remove? ==> op.x in u
    modifies head, u
    ensures Agrees(head, RunState(q0, ops), u)
  {
    ghost var q := q0;
    assert ops[0..] == ops;
    for i := 0 to |ops|
      invariant LegalRun(q, ops[i..]) && RunState(q, ops[i..]) == RunState(q0, ops)
      invariant Agrees(head, q, u)
    {
      assert ops[i..][1..] == ops[i + 1..];
      Perform(head, ops[i], q, u);
      q := Step(q, ops[i]);
    }
  }

  /** The effect of a run on the sequence alone: the length, and first-in first-out order. */
  lemma {:induction false} FirstInFirstOut(q: State, xs: seq<QNode>)
    requires LegalRun(q, Tails(xs))
    ensures RunState(q, Tails(xs)).contents == q.contents + xs
    decreases |xs|
  {
    if xs != [] {
      assert Tails(xs)[1..] == Tails(xs[1..]);
      FirstInFirstOut(Step(q, Tail(xs[0])), xs[1..]);
      assert q.contents + [xs[0]] + xs[1..] == q.contents + xs;
    } else {
      assert q.contents + xs == q.contents;
    }
  }

  function Tails(xs: seq<QNode>): seq<Op> { seq(|xs|, i requires 0 <= i < |xs| => Tail(xs[i])) }
}
