/** In-place reversal of a doubly linked list: heaps/glibc/glist/g_list_reverse.c over the
    definitions of dryad_dll_lseg_defs.h. */
module DoublyLinked {
  import opened Sequences

  /** struct d_node */
  class DListNode {
    var key: int
    var prev: DListNode?
    var next: DListNode?
  }

  function At(s: seq<DListNode>, i: int): DListNode? { if 0 <= i < |s| then s[i] else null }

  /** The predicate dll: `next` runs through `s`, and every successor points back.  The head's
      own `prev` is left open, as in the header. */
  ghost predicate Dll(x: DListNode?, s: seq<DListNode>)
    reads s
  {
    && x == At(s, 0)
    && (forall i {:trigger s[i].next} :: 0 <= i < |s| ==> s[i].next == At(s, i + 1))
    && (forall i {:trigger s[i].prev} :: 0 < i < |s| ==> s[i].prev == s[i - 1])
  }

  /** dll as the header unfolds it: head first, then the tail. */
  ghost predicate DllUnfolded(x: DListNode?, s: seq<DListNode>)
    reads s
    decreases s
  {
    if s == [] then x == null
    else
      && x == s[0]
      && DllUnfolded(s[0].next, s[1..])
      && (s[0].next != null ==> |s| > 1 && s[1].prev == s[0])
      && s[0] !in s[1..]
  }

  lemma {:induction false} DllIffUnfolded(x: DListNode?, s: seq<DListNode>)
    ensures DllUnfolded(x, s) <==> Dll(x, s) && Distinct(s)
    decreases s
  {
    if s != [] {
      var t := s[1..];
      DllIffUnfolded(s[0].next, t);
      assert forall i :: 0 <= i < |t| ==> t[i] == s[i + 1];
      if DllUnfolded(x, s) {
        forall i | 0 <= i < |s| ensures s[i].next == At(s, i + 1) {
          if i > 0 { assert t[i - 1].next == At(t, i); }
        }
        forall i | 0 < i < |s| ensures s[i].prev == s[i - 1] {
          if i > 1 { assert t[i - 1].prev == t[i - 2]; }
        }
        forall i, j | 0 <= i < j < |s| ensures s[i] != s[j] {
          assert s[j] == t[j - 1];
        }
      }
      if Dll(x, s) && Distinct(s) {
        forall i, j | 0 <= i < j < |t| ensures t[i] != t[j] { assert s[i + 1] != s[j + 1]; }
        forall i | 0 <= i < |t| ensures t[i].next == At(t, i + 1) { assert s[i + 1].next == At(s, i + 2); }
        forall i | 0 < i < |t| ensures t[i].prev == t[i - 1] { assert s[i + 1].prev == s[i]; }
      }
    }
  }

  function Reversed(s: seq<DListNode>): (r: seq<DListNode>)
    ensures |r| == |s| && forall i :: 0 <= i < |s| ==> r[i] == s[|s| - 1 - i]
  {
    seq(|s|, i requires 0 <= i < |s| => s[|s| - 1 - i])
  }

  lemma ReversedTwice(s: seq<DListNode>)
    ensures Reversed(Reversed(s)) == s
  {
  }

  lemma ReversedDistinct(s: seq<DListNode>)
    requires Distinct(s)
    ensures Distinct(Reversed(s)) && forall n :: n in Reversed(s) <==> n in s
  {
    var r := Reversed(s);
    forall n ensures n in r <==> n in s {
      if n in s {
        var i :| 0 <= i < |s| && s[i] == n;
        assert r[|s| - 1 - i] == n;
      }
    }
  }

  /** dll with a head that has no predecessor: every pointer is determined by position. */
  ghost predicate Linked(s: seq<DListNode>)
    reads s
  {
    && (forall i {:trigger s[i].next} :: 0 <= i < |s| ==> s[i].next == At(s, i + 1))
    && (forall i {:trigger s[i].prev} :: 0 <= i < |s| ==> s[i].prev == At(s, i - 1))
  }

  lemma LinkedIffDll(x: DListNode?, s: seq<DListNode>)
    requires x == At(s, 0)
    ensures Linked(s) <==> Dll(x, s) && (x != null ==> x.prev == null)
  {
  }

  /** The links with both pointers of every node exchanged. */
  ghost predicate Swapped(s: seq<DListNode>)
    reads s
  {
    && (forall i {:trigger s[i].next} :: 0 <= i < |s| ==> s[i].next == At(s, i - 1))
    && (forall i {:trigger s[i].prev} :: 0 <= i < |s| ==> s[i].prev == At(s, i + 1))
  }

  lemma SwappedIsReversed(s: seq<DListNode>)
    requires Swapped(s)
    ensures Linked(Reversed(s))
  {
    var r := Reversed(s);
    forall i | 0 <= i < |r| ensures r[i].next == At(r, i + 1) && r[i].prev == At(r, i - 1) {
      assert r[i] == s[|s| - 1 - i];
    }
  }

  lemma Backwards(s: seq<DListNode>) returns (t: seq<DListNode>)
    requires Distinct(s)
    ensures t == Reversed(s) && Reversed(t) == s && |t| == |s|
    ensures Distinct(t) && forall n :: n in t <==> n in s
  {
    ReversedDistinct(s);
    ReversedTwice(s);
    t := Reversed(s);
  }

  /** g_list_reverse: exactly the reversed node sequence, linked both ways, and a new head
      with no predecessor. */
  method GListReverse(list: DListNode?, ghost s: seq<DListNode>) returns (r: DListNode?)
    requires Dll(list, s) && Distinct(s)
    requires list != null ==> list.prev == null
    modifies s
    ensures Dll(r, Reversed(s)) && (r != null ==> r.prev == null)
    ensures Linked(Reversed(s))
    ensures forall i :: 0 <= i < |s| ==> s[i].key == old(s[i].key)
  {
    LinkedIffDll(list, s);
    var last: DListNode? := null;
    var curr := list;
    ghost var p := 0;
    while curr != null
      invariant 0 <= p <= |s| && last == At(s, p - 1) && curr == At(s, p)
      invariant forall i {:trigger s[i].next} :: 0 <= i < p ==> s[i].next == At(s, i - 1)
      invariant forall i {:trigger s[i].prev} :: 0 <= i < p ==> s[i].prev == At(s, i + 1)
      invariant forall i {:trigger s[i].next} :: p <= i < |s| ==> s[i].next == At(s, i + 1)
      invariant forall i {:trigger s[i].prev} :: p <= i < |s| ==> s[i].prev == At(s, i - 1)
      invariant forall i :: 0 <= i < |s| ==> s[i].key == old(s[i].key)
      decreases |s| - p
    {
      last := curr;
      curr := curr.next;
      var lastPrev := last.prev;
      last.next := lastPrev;
      last.prev := curr;
      p := p + 1;
    }
    SwappedIsReversed(s);
    LinkedIffDll(last, Reversed(s));
    return last;
  }

  /** Reversing twice restores the head and every pointer. */
  method ReverseTwice(list: DListNode?, ghost s: seq<DListNode>) returns (r: DListNode?)
    requires Dll(list, s) && Distinct(s)
    requires list != null ==> list.prev == null
    modifies s
    ensures r == list
    ensures forall i :: 0 <= i < |s| ==> s[i].next == old(s[i].next) && s[i].prev == old(s[i].prev)
  {
    LinkedIffDll(list, s);
    ghost var t := Backwards(s);
    var m := GListReverse(list, s);
    r := GListReverse(m, t);
    assert Linked(s);
  }
}
