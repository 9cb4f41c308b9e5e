/** Splitting and looking up memory regions: heaps/os/expressos. */
module MemoryRegion {
  import opened Ints

  /** struct backing_file */
  class BackingFile {
    var fileId: int32
  }

  /** struct mem_reg */
  class MemReg {
    var file: BackingFile?
    var fileOffset: int32
    var fileSize: int32
    var startAddress: int32
    var size: int32
    var prev: MemReg?
    var next: MemReg?

    constructor ()
      ensures prev == null && next == null
    {
      prev, next := null, null;
    }
  }

  /** A region as a value: the node carrying it and what its fields hold. */
  datatype Region = Region(node: MemReg, file: BackingFile?, fileOffset: int, fileSize: int, start: int, size: int)
  {
    /** The test memory_region_find makes. */
    predicate Covers(a: int) { start <= a < start + size }

    /** The invariant declared with the struct. */
    predicate Ok() { fileSize <= size }

    /** What memory_region_find assumes of every region it inspects. */
    predicate InRange() { INT_MIN < start + size < INT_MAX }
  }

  ghost function Nodes(s: seq<Region>): set<MemReg> { set r <- s :: r.node }

  function At(s: seq<Region>, i: nat): MemReg? { if i < |s| then s[i].node else null }

  ghost predicate FieldsMatch(r: Region)
    reads r.node
  {
    && r.node.file == r.file
    && r.node.fileOffset as int == r.fileOffset
    && r.node.fileSize as int == r.fileSize
    && r.node.startAddress as int == r.start
    && r.node.size as int == r.size
  }

  /** dll, together with what every node stores. */
  ghost predicate Holds(x: MemReg?, s: seq<Region>)
    reads Nodes(s)
  {
    && x == At(s, 0)
    && (forall i :: 0 <= i < |s| ==> FieldsMatch(s[i]))
    && (forall i {:trigger s[i].node.next} :: 0 <= i < |s| ==> s[i].node.next == At(s, i + 1))
    && (forall i {:trigger s[i].node.prev} :: 0 < i < |s| ==> s[i].node.prev == s[i - 1].node)
  }

  ghost predicate Distinct(s: seq<Region>) {
    forall i, j :: 0 <= i < j < |s| ==> s[i].node != s[j].node
  }

  predicate AllOk(s: seq<Region>) { forall r <- s :: r.Ok() }

  predicate AllInRange(s: seq<Region>) { forall r <- s :: r.InRange() }

  /** No address lies in two regions. */
  ghost predicate Disjoint(s: seq<Region>) {
    forall i, j, a: int :: 0 <= i < j < |s| ==> !(s[i].Covers(a) && s[j].Covers(a))
  }

  predicate Covered(s: seq<Region>, a: int) { exists i :: 0 <= i < |s| && s[i].Covers(a) }

  // ----- split_memory_region -----

  function LeftPart(r: Region, offset: int): Region {
    r.(size := offset, fileSize := if offset > r.fileSize then r.fileSize else offset)
  }

  function RightPart(r: Region, offset: int, next: MemReg): Region {
    Region(next, if offset > r.fileSize then null else r.file, 0, 0, r.start + offset, r.size - offset)
  }

  /** The list after region `i` is cut in two at `offset`. */
  function SplitAt(s: seq<Region>, i: nat, offset: int, next: MemReg): seq<Region>
    requires i < |s|
  {
    s[..i] + [LeftPart(s[i], offset), RightPart(s[i], offset, next)] + s[i + 1..]
  }

  /** The members of the split list, by position. */
  lemma SplitIndex(s: seq<Region>, i: nat, offset: int, next: MemReg)
    requires i < |s|
    ensures var u := SplitAt(s, i, offset, next);
      && |u| == |s| + 1
      && (forall j :: 0 <= j < i ==> u[j] == s[j])
      && u[i] == LeftPart(s[i], offset)
      && u[i + 1] == RightPart(s[i], offset, next)
      && (forall j :: i + 2 <= j < |u| ==> u[j] == s[j - 1])
  {
  }

  /** The two parts cover what the region covered, and share no address. */
  lemma PartsCover(r: Region, offset: int, next: MemReg, a: int)
    requires 0 < offset < r.size
    ensures r.Covers(a) <==> LeftPart(r, offset).Covers(a) || RightPart(r, offset, next).Covers(a)
    ensures !(LeftPart(r, offset).Covers(a) && RightPart(r, offset, next).Covers(a))
  {
  }

  /** Which old region a new position came from. */
  function Origin(i: nat, j: nat): nat { if j <= i then j else j - 1 }

  lemma CoverOrigin(s: seq<Region>, i: nat, offset: int, next: MemReg, j: nat, a: int)
    requires i < |s| && 0 < offset < s[i].size && j <= |s|
    ensures SplitAt(s, i, offset, next)[j].Covers(a) ==> s[Origin(i, j)].Covers(a)
  {
    SplitIndex(s, i, offset, next);
    PartsCover(s[i], offset, next, a);
  }

  /** The covered address set is the same. */
  lemma SplitKeepsCovered(s: seq<Region>, i: nat, offset: int, next: MemReg, a: int)
    requires i < |s| && 0 < offset < s[i].size
    ensures Covered(SplitAt(s, i, offset, next), a) <==> Covered(s, a)
  {
    var u := SplitAt(s, i, offset, next);
    SplitIndex(s, i, offset, next);
    if Covered(u, a) {
      var j :| 0 <= j < |u| && u[j].Covers(a);
      CoverOrigin(s, i, offset, next, j, a);
    }
    if Covered(s, a) {
      var j :| 0 <= j < |s| && s[j].Covers(a);
      PartsCover(s[i], offset, next, a);
      if j < i {
        assert u[j].Covers(a);
      } else if j == i {
        assert u[i].Covers(a) || u[i + 1].Covers(a);
      } else {
        assert u[j + 1] == s[j];
      }
    }
  }

  lemma SplitKeepsDisjoint(s: seq<Region>, i: nat, offset: int, next: MemReg)
    requires i < |s| && 0 < offset < s[i].size && Disjoint(s)
    ensures Disjoint(SplitAt(s, i, offset, next))
  {
    var u := SplitAt(s, i, offset, next);
    SplitIndex(s, i, offset, next);
    forall j, k, a: int | 0 <= j < k < |u| ensures !(u[j].Covers(a) && u[k].Covers(a)) {
      if u[j].Covers(a) && u[k].Covers(a) {
        CoverOrigin(s, i, offset, next, j, a);
        CoverOrigin(s, i, offset, next, k, a);
        PartsCover(s[i], offset, next, a);
        assert false;
      }
    }
  }

  /** file_size <= size holds everywhere afterwards, and so do the range assumptions. */
  lemma SplitKeepsOk(s: seq<Region>, i: nat, offset: int, next: MemReg)
    requires i < |s| && 0 < offset < s[i].size && s[i].start + offset < INT_MAX
    requires s[i].start >= INT_MIN
    ensures AllOk(s) ==> AllOk(SplitAt(s, i, offset, next))
    ensures AllInRange(s) ==> AllInRange(SplitAt(s, i, offset, next))
  {
    var u := SplitAt(s, i, offset, next);
    SplitIndex(s, i, offset, next);
    assert s[i] in s;
    forall r | r in u
      ensures AllOk(s) ==> r.Ok()
      ensures AllInRange(s) ==> r.InRange()
    {
      var j :| 0 <= j < |u| && u[j] == r;
      assert s[Origin(i, j)] in s;
    }
  }

  // ----- memory_region_find -----

  /** The first region covering `a`, or |s|. */
  function FindIndex(s: seq<Region>, a: int): (k: nat)
    ensures k <= |s|
    ensures forall i :: 0 <= i < k ==> !s[i].Covers(a)
    ensures k < |s| ==> s[k].Covers(a)
  {
    if s == [] then 0 else if s[0].Covers(a) then 0 else 1 + FindIndex(s[1..], a)
  }

  lemma FindIsCovered(s: seq<Region>, a: int)
    ensures FindIndex(s, a) < |s| <==> Covered(s, a)
  {
  }

  /** Among disjoint regions the one found is the only one. */
  lemma FindUnique(s: seq<Region>, a: int, i: nat)
    requires Disjoint(s) && i < |s| && s[i].Covers(a)
    ensures FindIndex(s, a) == i
  {
    var k := FindIndex(s, a);
    assert !(i < k);
  }

  /** A lookup succeeds on the same addresses after a split as before. */
  lemma FindAfterSplit(s: seq<Region>, i: nat, offset: int, next: MemReg, a: int)
    requires i < |s| && 0 < offset < s[i].size
    ensures var u := SplitAt(s, i, offset, next);
            FindIndex(u, a) < |u| <==> FindIndex(s, a) < |s|
  {
    FindIsCovered(s, a);
    FindIsCovered(SplitAt(s, i, offset, next), a);
    SplitKeepsCovered(s, i, offset, next, a);
  }

  /** The new node is not among the old ones, so no node repeats. */
  lemma SplitKeepsDistinct(s: seq<Region>, i: nat, offset: int, next: MemReg)
    requires i < |s| && Distinct(s) && next !in Nodes(s)
    ensures Distinct(SplitAt(s, i, offset, next))
  {
    var u := SplitAt(s, i, offset, next);
    forall j, m | 0 <= j < m < |u| ensures u[j].node != u[m].node {
      SplitNode(s, i, offset, next, j);
      SplitNode(s, i, offset, next, m);
    }
  }

  lemma SplitNode(s: seq<Region>, i: nat, offset: int, next: MemReg, j: nat)
    requires i < |s| && j <= |s| && next !in Nodes(s)
    ensures SplitAt(s, i, offset, next)[j].node == if j == i + 1 then next else s[Origin(i, j)].node
    ensures s[Origin(i, j)].node != next
  {
    SplitIndex(s, i, offset, next);
    NodeAt(s, Origin(i, j));
  }

  // ----- Runs of splits -----

  /** One call: which region, where, and the node malloc returns. */
  datatype Split = Split(index: nat, offset: int, next: MemReg)

  /** The list after the call; a cut past the region changes nothing. */
  function ApplySplit(s: seq<Region>, c: Split): seq<Region>
    requires c.index < |s|
  {
    if c.offset < s[c.index].size then SplitAt(s, c.index, c.offset, c.next) else s
  }

  /** What split_memory_region asks for, and that malloc returns a node not in use. */
  ghost predicate LegalSplit(s: seq<Region>, c: Split) {
    c.index < |s| && c.offset > 0 && s[c.index].start + c.offset < INT_MAX && c.next !in Nodes(s)
  }

  ghost predicate LegalSplits(s: seq<Region>, cs: seq<Split>)
    decreases |cs|
  {
    cs == [] || (LegalSplit(s, cs[0]) && LegalSplits(ApplySplit(s, cs[0]), cs[1..]))
  }

  ghost function RunSplits(s: seq<Region>, cs: seq<Split>): seq<Region>
    requires LegalSplits(s, cs)
    decreases |cs|
  {
    if cs == [] then s else RunSplits(ApplySplit(s, cs[0]), cs[1..])
  }

  /** What holds of a list of regions between calls. */
  ghost predicate WellFormed(s: seq<Region>) {
    Distinct(s) && Disjoint(s) && AllOk(s) && AllInRange(s) && forall r <- s :: r.start >= INT_MIN
  }

  lemma SplitKeepsWellFormed(s: seq<Region>, c: Split)
    requires WellFormed(s) && LegalSplit(s, c)
    ensures WellFormed(ApplySplit(s, c))
    ensures forall a :: Covered(ApplySplit(s, c), a) <==> Covered(s, a)
  {
    var (i, offset, next) := (c.index, c.offset, c.next);
    if offset < s[i].size {
      assert s[i] in s;
      SplitKeepsDistinct(s, i, offset, next);
      SplitKeepsDisjoint(s, i, offset, next);
      SplitKeepsOk(s, i, offset, next);
      SplitKeepsStarts(s, i, offset, next);
      forall a ensures Covered(SplitAt(s, i, offset, next), a) <==> Covered(s, a) { SplitKeepsCovered(s, i, offset, next, a); }
    }
  }

  lemma SplitKeepsStarts(s: seq<Region>, i: nat, offset: int, next: MemReg)
    requires i < |s| && offset > 0 && forall r <- s :: r.start >= INT_MIN
    ensures forall r <- SplitAt(s, i, offset, next) :: r.start >= INT_MIN
  {
    var u := SplitAt(s, i, offset, next);
    SplitIndex(s, i, offset, next);
    forall r | r in u ensures r.start >= INT_MIN {
      var j :| 0 <= j < |u| && u[j] == r;
      assert s[Origin(i, j)] in s;
    }
  }

  /** Any run of splits keeps the list well formed and every lookup succeeding where it did. */
  lemma {:induction false} SplitsKeepLookups(s: seq<Region>, cs: seq<Split>)
    requires WellFormed(s) && LegalSplits(s, cs)
    ensures WellFormed(RunSplits(s, cs))
    ensures forall a :: Covered(RunSplits(s, cs), a) <==> Covered(s, a)
    ensures forall a :: FindIndex(RunSplits(s, cs), a) < |RunSplits(s, cs)| <==> FindIndex(s, a) < |s|
    decreases |cs|
  {
    if cs != [] {
      SplitKeepsWellFormed(s, cs[0]);
      SplitsKeepLookups(ApplySplit(s, cs[0]), cs[1..]);
    }
    forall a ensures FindIndex(RunSplits(s, cs), a) < |RunSplits(s, cs)| <==> FindIndex(s, a) < |s| {
      FindIsCovered(s, a);
      FindIsCovered(RunSplits(s, cs), a);
    }
  }

  // ----- What backs an address -----

  datatype Backing = Anonymous | InFile(file: BackingFile, position: int)

  /** Bytes beyond file_size, and regions without a file, are anonymous memory. */
  function BackingIn(r: Region, a: int): Backing {
    if r.file != null && a - r.start < r.fileSize then InFile(r.file, r.fileOffset + (a - r.start)) else Anonymous
  }

  function BackingAt(s: seq<Region>, a: int): Backing {
    var k := FindIndex(s, a);
    if k < |s| then BackingIn(s[k], a) else Anonymous
  }

  /** The file bytes of `r` at and beyond the cut. */
  predicate BeyondCut(r: Region, offset: int, a: int) {
    r.file != null && r.start + offset <= a < r.start + r.size && a - r.start < r.fileSize
  }

  /** A split can lose file contents: the new region's file_size is always 0.  An address keeps
      its backing exactly when it is not one of the file bytes beyond the cut. */
  lemma BackingKeptIff(s: seq<Region>, i: nat, offset: int, next: MemReg, a: int)
    requires i < |s| && 0 < offset < s[i].size && Disjoint(s)
    ensures BackingAt(SplitAt(s, i, offset, next), a) == BackingAt(s, a) <==> !BeyondCut(s[i], offset, a)
  {
    var u := SplitAt(s, i, offset, next);
    SplitIndex(s, i, offset, next);
    SplitKeepsDisjoint(s, i, offset, next);
    FindAfterSplit(s, i, offset, next, a);
    var j := FindIndex(u, a);
    if j < |u| {
      CoverOrigin(s, i, offset, next, j, a);
      FindUnique(s, a, Origin(i, j));
    }
    if BeyondCut(s[i], offset, a) {
      assert s[i].Covers(a) && u[i + 1].Covers(a);
      FindUnique(s, a, i);
      FindUnique(u, a, i + 1);
    } else if j < |u| && Origin(i, j) != i {
      assert u[j] == s[Origin(i, j)];
    }
  }

  /** So every address does exactly when the region's file bytes end by the cut. */
  lemma SplitKeepsBackingIff(s: seq<Region>, i: nat, offset: int, next: MemReg)
    requires i < |s| && 0 < offset < s[i].size && Disjoint(s)
    ensures (forall a :: BackingAt(SplitAt(s, i, offset, next), a) == BackingAt(s, a)) <==>
            s[i].file == null || s[i].fileSize <= offset
  {
    forall a ensures BackingAt(SplitAt(s, i, offset, next), a) == BackingAt(s, a) <==> !BeyondCut(s[i], offset, a) {
      BackingKeptIff(s, i, offset, next, a);
    }
    assert BeyondCut(s[i], offset, s[i].start + offset) <==> s[i].file != null && offset < s[i].fileSize;
  }

  /** Two pages of a file cut after the first: the second page is no longer backed, and half of
      the file bytes are gone. */
  lemma FilePageLost(node: MemReg, next: MemReg, file: BackingFile)
    ensures var s := [Region(node, file, 0, 8192, 0x10000, 8192)];
            var u := SplitAt(s, 0, 4096, next);
            && BackingAt(s, 0x11000) == InFile(file, 4096) && BackingAt(u, 0x11000) == Anonymous
            && Covered(u, 0x11000) && FileBytes(s) == 8192 && FileBytes(u) == 4096
  {
    var s := [Region(node, file, 0, 8192, 0x10000, 8192)];
    var u := SplitAt(s, 0, 4096, next);
    assert u == [Region(node, file, 0, 4096, 0x10000, 4096), Region(next, file, 0, 0, 0x11000, 4096)];
    assert s[0].Covers(0x11000) && !u[0].Covers(0x11000) && u[1].Covers(0x11000);
    assert FileBytes(u[1..]) == 0;
  }

  /** The file bytes mapped in all. */
  function FileBytes(s: seq<Region>): int {
    if s == [] then 0 else s[0].fileSize + FileBytes(s[1..])
  }

  lemma {:induction false} FileBytesConcat(s: seq<Region>, t: seq<Region>)
    ensures FileBytes(s + t) == FileBytes(s) + FileBytes(t)
  {
    if s == [] {
      assert s + t == t;
    } else {
      assert (s + t)[1..] == s[1..] + t;
      FileBytesConcat(s[1..], t);
    }
  }

  /** The mapped file bytes are conserved exactly when the cut lies at or beyond file_size. */
  lemma SplitKeepsFileBytesIff(s: seq<Region>, i: nat, offset: int, next: MemReg)
    requires i < |s| && 0 < offset < s[i].size
    ensures FileBytes(SplitAt(s, i, offset, next)) <= FileBytes(s)
    ensures FileBytes(SplitAt(s, i, offset, next)) == FileBytes(s) <==> s[i].fileSize <= offset
  {
    var (l, r) := (LeftPart(s[i], offset), RightPart(s[i], offset, next));
    assert s == s[..i] + ([s[i]] + s[i + 1..]);
    FileBytesConcat(s[..i], [s[i]] + s[i + 1..]);
    assert ([s[i]] + s[i + 1..])[1..] == s[i + 1..];
    FileBytesConcat(s[..i] + [l, r], s[i + 1..]);
    FileBytesConcat(s[..i], [l, r]);
    assert [l, r][1..] == [r] && [r][1..] == [];
  }

  // ----- The pointer programs -----

  lemma NodeAt(s: seq<Region>, i: nat)
    requires i < |s|
    ensures s[i].node in Nodes(s)
  {
    assert s[i] in s;
  }

  /** The field writes of split_memory_region; no link is touched. */
  method FillParts(curr: MemReg, n: MemReg, offset: int32, ghost r: Region)
    requires curr != n && r.node == curr && FieldsMatch(r)
    requires 0 < offset < curr.size && curr.startAddress as int + offset as int < INT_MAX
    modifies curr, n
    ensures curr.next == old(curr.next) && curr.prev == old(curr.prev)
    ensures FieldsMatch(LeftPart(r, offset as int)) && FieldsMatch(RightPart(r, offset as int, n))
  {
    n.fileOffset := 0;
    n.fileSize := 0;
    n.startAddress := curr.startAddress + offset;
    n.size := curr.size - offset;
    if offset > curr.fileSize {
      n.file := null;
    } else {
      n.file := curr.file;
      curr.fileSize := offset;
    }
    curr.size := offset;
  }

  /** The list with `r` spliced in behind position `i`, where `l` now stands: heap contents
      told by positions of the old list. */
  ghost predicate Spliced(x: MemReg, s: seq<Region>, i: nat, l: Region, r: Region)
    requires i < |s|
    reads Nodes(s), l.node, r.node
  {
    && x == s[0].node && l.node == s[i].node
    && FieldsMatch(l) && FieldsMatch(r)
    && l.node.next == r.node && r.node.prev == l.node && r.node.next == At(s, i + 1)
    && (forall j :: 0 <= j < |s| && j != i ==> FieldsMatch(s[j]))
    && (forall j {:trigger s[j].node.next} :: 0 <= j < |s| && j != i ==> s[j].node.next == At(s, j + 1))
    && (forall j {:trigger s[j].node.prev} :: 0 < j < |s| && j != i + 1 ==> s[j].node.prev == s[j - 1].node)
    && (i + 1 < |s| ==> s[i + 1].node.prev == r.node)
  }

  lemma SplicedHolds(x: MemReg, s: seq<Region>, i: nat, offset: int, next: MemReg)
    requires i < |s| && Spliced(x, s, i, LeftPart(s[i], offset), RightPart(s[i], offset, next))
    ensures Holds(x, SplitAt(s, i, offset, next))
  {
    var u := SplitAt(s, i, offset, next);
    SplitIndex(s, i, offset, next);
    forall j | 0 <= j < |u| ensures FieldsMatch(u[j]) && u[j].node.next == At(u, j + 1) {
      assert j < i ==> u[j].node.next == s[j].node.next;
      assert j > i + 1 ==> u[j].node.next == s[j - 1].node.next;
    }
    forall j | 0 < j < |u| ensures u[j].node.prev == u[j - 1].node {
      assert j <= i ==> u[j].node.prev == s[j].node.prev;
      assert j > i + 1 ==> u[j].node.prev == s[j - 1].node.prev;
    }
  }

  /** The list before relinking: fields already written, links as they were. */
  ghost predicate Filled(x: MemReg, s: seq<Region>, i: nat, l: Region, r: Region)
    requires i < |s|
    reads Nodes(s), l.node, r.node
  {
    && x == s[0].node && l.node == s[i].node && r.node !in Nodes(s)
    && FieldsMatch(l) && FieldsMatch(r)
    && (forall j :: 0 <= j < |s| && j != i ==> FieldsMatch(s[j]))
    && (forall j {:trigger s[j].node.next} :: 0 <= j < |s| ==> s[j].node.next == At(s, j + 1))
    && (forall j {:trigger s[j].node.prev} :: 0 < j < |s| ==> s[j].node.prev == s[j - 1].node)
  }

  /** The link writes of split_memory_region. */
  method LinkBehind(curr: MemReg, n: MemReg, head: MemReg, ghost s: seq<Region>, ghost i: nat, ghost l: Region, ghost r: Region)
    requires i < |s| && Distinct(s) && l.node == curr && r.node == n && Filled(head, s, i, l, r)
    modifies Nodes(s), n
    ensures Spliced(head, s, i, l, r) && head.prev == old(head.prev)
  {
    NodeAt(s, i);
    forall j | 0 <= j < |s| ensures s[j].node != n { NodeAt(s, j); }
    var oldNext := curr.next;
    n.prev := curr;
    n.next := oldNext;
    if oldNext != null {
      NodeAt(s, i + 1);
      oldNext.prev := n;
    }
    curr.next := n;
  }

  /** split_memory_region on the region at position `i` of the list starting at `head`. */
  method SplitMemoryRegion(curr: MemReg, offset: int32, head: MemReg, ghost s: seq<Region>, ghost i: nat)
    returns (next: MemReg?)
    requires Holds(head, s) && Distinct(s) && i < |s| && s[i].node == curr
    requires offset > 0 && offset % 4096 == 0
    requires curr.startAddress as int + offset as int < INT_MAX
    modifies Nodes(s)
    ensures offset as int >= s[i].size ==> next == null && unchanged(Nodes(s))
    ensures offset as int < s[i].size ==>
              && next != null && fresh(next)
              && Holds(head, SplitAt(s, i, offset as int, next)) && Distinct(SplitAt(s, i, offset as int, next))
    ensures head.prev == old(head.prev)
    ensures next != null ==>
              && next.file == (if offset <= old(curr.fileSize) then old(curr.file) else null)
              && next.fileOffset == 0 && next.fileSize == 0
              && next.startAddress == old(curr.startAddress) + offset && next.size == old(curr.size) - offset
              && next.prev == curr && next.next == old(curr.next)
    ensures next != null ==>
              && curr.file == old(curr.file) && curr.fileOffset == old(curr.fileOffset)
              && curr.fileSize == (if offset <= old(curr.fileSize) then offset else old(curr.fileSize))
              && curr.startAddress == old(curr.startAddress) && curr.size == offset
              && curr.next == next && curr.prev == old(curr.prev)
    ensures forall j :: 0 <= j < |s| && j != i ==>
              && s[j].node.file == old(s[j].node.file) && s[j].node.fileOffset == old(s[j].node.fileOffset)
              && s[j].node.fileSize == old(s[j].node.fileSize)
              && s[j].node.startAddress == old(s[j].node.startAddress) && s[j].node.size == old(s[j].node.size)
  {
    NodeAt(s, i);
    if offset >= curr.size {
      return null;
    }
    var n := new MemReg();
    ghost var l, r := LeftPart(s[i], offset as int), RightPart(s[i], offset as int, n);
    FillParts(curr, n, offset, s[i]);
    forall j | 0 <= j < |s| && j != i ensures s[j].node != curr && FieldsMatch(s[j]) { NodeAt(s, j); }
    LinkBehind(curr, n, head, s, i, l, r);
    SplicedHolds(head, s, i, offset as int, n);
    SplitKeepsDistinct(s, i, offset as int, n);
    next := n;
  }

  /** memory_region_find */
  method MemoryRegionFind(head: MemReg?, address: int32, ghost s: seq<Region>) returns (r: MemReg?)
    requires Holds(head, s)
    requires forall j :: 0 <= j < |s| && j <= FindIndex(s, address as int) ==> s[j].InRange()
    ensures r == At(s, FindIndex(s, address as int))
    ensures r == null <==> !Covered(s, address as int)
  {
    var h := head;
    ghost var k := 0;
    FindIsCovered(s, address as int);
    while h != null
      invariant 0 <= k <= |s| && h == At(s, k)
      invariant forall i :: 0 <= i < k ==> !s[i].Covers(address as int)
      decreases |s| - k
    {
      assert k <= FindIndex(s, address as int);
      if h.startAddress <= address && address < h.startAddress + h.size {
        assert s[k].Covers(address as int);
        return h;
      }
      h := h.next;
      k := k + 1;
    }
    return null;
  }
}
