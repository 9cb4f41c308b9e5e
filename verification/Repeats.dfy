/** When the generator of heaps/pred-gen-list.js emits a candidate twice. */
module Repeats {
  import opened Candidates
  import opened Emission
  import opened Permutations
  import opened Rendering
  import opened Sequences
  import opened Texts

  // ----- Assignments that differ only where it does not show -----

  /** `p` and `q` agree except at the positions in `spare`. */
  ghost predicate AgreeOff(p: seq<string>, q: seq<string>, spare: set<nat>) {
    |p| == |q| && forall n :: 0 <= n < |p| && n !in spare ==> p[n] == q[n]
  }

  /** Filling `slots` positions from `names` names, those in `spare` leave no choice: there is
      none, or just one and it gets the only name left. */
  predicate NoChoice(spare: set<nat>, slots: nat, names: nat) {
    spare == {} || (|spare| == 1 && slots == names)
  }

  /** A selection that uses up the list has the list's elements. */
  lemma FullSelection<T>(list: seq<T>, p: seq<T>)
    requires Selection(list, |list|, p)
    ensures multiset(p) == multiset(list)
  {
    assert multiset(list) == multiset(p) + (multiset(list) - multiset(p));
    assert |multiset(list) - multiset(p)| == 0;
  }

  lemma OnlyOneLeft<T>(p: seq<T>, q: seq<T>, u: nat)
    requires |p| == |q| && u < |p| && multiset(p) == multiset(q)
    requires forall n :: 0 <= n < |p| && n != u ==> p[n] == q[n]
    ensures p == q
  {
    assert Without(p, u) == Without(q, u);
    WithoutMultiset(p, u);
    WithoutMultiset(q, u);
    assert multiset{p[u]} == multiset(p) - multiset(Without(p, u)) == multiset{q[u]};
    assert p[u] in multiset{q[u]};
  }

  /** With no choice, two assignments that look alike are the same. */
  lemma NoChoiceSeparates(names: seq<string>, slots: nat, spare: set<nat>, p: seq<string>, q: seq<string>)
    requires NoChoice(spare, slots, |names|) && forall n <- spare :: n < slots
    requires p in Perms(names, slots) && q in Perms(names, slots) && AgreeOff(p, q, spare)
    ensures p == q
  {
    PermsAreSelections(names, slots, p);
    PermsAreSelections(names, slots, q);
    if spare != {} {
      var u :| u in spare;
      assert spare == {u} by { OneElement(spare, u); }
      FullSelection(names, p);
      FullSelection(names, q);
      OnlyOneLeft(p, q, u);
    }
  }

  lemma OneElement(s: set<nat>, u: nat)
    requires u in s && |s| == 1
    ensures s == {u}
  {
    assert |s - {u}| == 0;
  }

  /** With a choice there are two different assignments, one got from the other by renaming at
      spare positions: an exchange of two spare names, or an unused name put in. */
  lemma ChoiceRenames(names: seq<string>, slots: nat, spare: set<nat>)
    returns (p: seq<string>, q: seq<string>, a: nat, b: nat, x: string, y: string)
    requires Distinct(names) && slots <= |names| && !NoChoice(spare, slots, |names|) && forall n <- spare :: n < slots
    ensures p in Perms(names, slots) && q in Perms(names, slots) && p != q
    ensures |p| == slots && a in spare && b in spare && q == p[a := x][b := y]
  {
    RowNotEmpty(names, slots);
    p := Perms(names, slots)[0];
    RowIsInjections(names, slots, p);
    a :| a in spare;
    if spare == {a} {
      b := a;
      x := UnusedName(names, p);
      y := x;
      q := p[a := x][b := y];
    } else {
      b :| b in spare && b != a;
      x, y := p[b], p[a];
      q := p[a := x][b := y];
    }
    forall m, n | 0 <= m < n < |q| ensures q[m] != q[n] { }
    forall z | z in q ensures z in names { }
    RowIsInjections(names, slots, q);
    assert q[a] != p[a];
  }

  lemma Pigeonhole(names: seq<string>, p: seq<string>)
    requires Distinct(names) && forall x <- names :: x in p
    ensures |names| <= |p|
  {
    DistinctMultiset(names);
    forall z ensures multiset(names)[z] <= multiset(p)[z] {
      if z in multiset(names) { assert z in p && z in multiset(p); }
    }
    assert multiset(p) == multiset(names) + (multiset(p) - multiset(names));
  }

  lemma UnusedName(names: seq<string>, p: seq<string>) returns (x: string)
    requires Distinct(names) && |p| < |names|
    ensures x in names && x !in p
  {
    if forall x <- names :: x in p { Pigeonhole(names, p); }
    x :| x in names && x !in p;
  }

  // ----- Unused slots -----

  /** Pointer and integer slots that are counted and do not occur. */
  function SparePointers(t: Pattern): set<nat>
    requires t.App?
  {
    set n: nat | n < NumPtrs(t) && !UsesPointer(t, n)
  }

  function SpareIntegers(t: Pattern): set<nat>
    requires t.App?
  {
    set n: nat | n < NumInts(t) && !UsesInteger(t, n)
  }

  lemma SameCandidateAgrees(t: Pattern, p: seq<string>, i: seq<string>, q: seq<string>, j: seq<string>)
    requires t.App? && |p| == |q| == NumPtrs(t) && |i| == |j| <= NumInts(t)
    requires Inst(t, p, i) == Inst(t, q, j)
    ensures AgreeOff(p, q, SparePointers(t)) && AgreeOff(i, j, SpareIntegers(t))
  {
    UsedSlotsSeparate(t, p, i, q, j);
  }

  lemma RenamedPointersHidden(t: Pattern, p: seq<string>, i: seq<string>, a: nat, b: nat, x: string, y: string)
    requires t.App? && |p| == NumPtrs(t) && a in SparePointers(t) && b in SparePointers(t)
    ensures Inst(t, p[a := x][b := y], i) == Inst(t, p, i)
  {
    UnusedSlotHidden(t, p, i, a, x);
    UnusedSlotHidden(t, p[a := x], i, b, y);
  }

  lemma RenamedIntegersHidden(t: Pattern, p: seq<string>, i: seq<string>, a: nat, b: nat, x: string, y: string)
    requires t.App? && |i| == NumInts(t) && a in SpareIntegers(t) && b in SpareIntegers(t)
    ensures Inst(t, p, i[a := x][b := y]) == Inst(t, p, i)
  {
    UnusedIntegerHidden(t, p, i, a, x);
    UnusedIntegerHidden(t, p, i[a := x], b, y);
  }

  // ----- Repeated candidates -----

  /** Different calls of the list have different candidates. */
  ghost predicate Separates(cs: seq<Call>) {
    forall c, d :: c in cs && d in cs && Ideal(c) == Ideal(d) ==> c == d
  }

  lemma IdealsDistinctIff(cs: seq<Call>)
    requires Distinct(cs)
    ensures Distinct(Ideals(cs)) <==> Separates(cs)
  {
    var ts := Ideals(cs);
    if Distinct(ts) {
      forall c, d | c in cs && d in cs && Ideal(c) == Ideal(d) ensures c == d {
        var m :| 0 <= m < |cs| && cs[m] == c;
        var n :| 0 <= n < |cs| && cs[n] == d;
        assert ts[m] == ts[n];
      }
    }
    if Separates(cs) {
      forall m, n | 0 <= m < n < |ts| ensures ts[m] != ts[n] { assert cs[m] in cs && cs[n] in cs; }
    }
  }

  lemma HeapCallsDistinct(t: Pattern, ptrs: seq<string>)
    requires t.App? && Distinct(ptrs)
    ensures Distinct(HeapCalls(t, ptrs))
  {
    SlotCountsNonNegative(t);
    RowHasNoRepeats(ptrs, NumPtrs(t));
  }

  lemma {:induction false} GridDistinct(t: Pattern, P: seq<seq<string>>, I: seq<seq<string>>, n: nat)
    requires n <= |P| && Distinct(P) && Distinct(I)
    ensures Distinct(Grid(t, P, I, n))
  {
    if n > 0 {
      GridDistinct(t, P, I, n - 1);
      var (g, r) := (Grid(t, P, I, n - 1), Row(t, P[n - 1], I));
      forall c | c in g ensures c !in r { InGrid(t, P, I, n - 1, c); }
      DistinctConcat(g, r);
    }
  }

  lemma DataCallsDistinct(t: Pattern, ptrs: seq<string>, ints: seq<string>)
    requires t.App? && Distinct(ptrs) && Distinct(ints)
    ensures Distinct(DataCalls(t, ptrs, ints))
  {
    SlotCountsNonNegative(t);
    RowHasNoRepeats(ptrs, NumPtrs(t));
    RowHasNoRepeats(ints, NumInts(t));
    if DataFits(t, |ptrs|, |ints|) {
      GridDistinct(t, Perms(ptrs, NumPtrs(t)), Perms(ints, NumInts(t)), |Perms(ptrs, NumPtrs(t))|);
    }
  }

  lemma InHeapCalls(t: Pattern, ptrs: seq<string>, c: Call)
    requires t.App? && HeapFits(t, |ptrs|)
    ensures NumPtrs(t) >= 0
    ensures c in HeapCalls(t, ptrs) <==> c.t == t && c.p in Perms(ptrs, NumPtrs(t)) && c.i == []
  {
    SlotCountsNonNegative(t);
  }

  lemma InDataCalls(t: Pattern, ptrs: seq<string>, ints: seq<string>, c: Call)
    requires t.App? && DataFits(t, |ptrs|, |ints|)
    ensures NumPtrs(t) >= 0 && NumInts(t) >= 0
    ensures c in DataCalls(t, ptrs, ints) <==> c.t == t && c.p in Perms(ptrs, NumPtrs(t)) && c.i in Perms(ints, NumInts(t))
  {
    SlotCountsNonNegative(t);
    var P := Perms(ptrs, NumPtrs(t));
    InGrid(t, P, Perms(ints, NumInts(t)), |P|, c);
    assert P[..|P|] == P;
  }

  lemma HeapSeparates(t: Pattern, ptrs: seq<string>, c: Call, d: Call)
    requires t.App? && HeapFits(t, |ptrs|) && NumPtrs(t) >= 0 && NoChoice(SparePointers(t), NumPtrs(t), |ptrs|)
    requires c in HeapCalls(t, ptrs) && d in HeapCalls(t, ptrs) && Ideal(c) == Ideal(d)
    ensures c == d
  {
    SlotCountsNonNegative(t);
    InHeapCalls(t, ptrs, c);
    InHeapCalls(t, ptrs, d);
    PermsAreSelections(ptrs, NumPtrs(t), c.p);
    PermsAreSelections(ptrs, NumPtrs(t), d.p);
    SameCandidateAgrees(t, c.p, c.i, d.p, d.i);
    NoChoiceSeparates(ptrs, NumPtrs(t), SparePointers(t), c.p, d.p);
  }

  lemma HeapRepeats(t: Pattern, ptrs: seq<string>)
    requires t.App? && HeapFits(t, |ptrs|) && Distinct(ptrs)
    requires NumPtrs(t) >= 0 && !NoChoice(SparePointers(t), NumPtrs(t), |ptrs|)
    ensures !Separates(HeapCalls(t, ptrs))
  {
    var p, q, a, b, x, y := ChoiceRenames(ptrs, NumPtrs(t), SparePointers(t));
    RenamedPointersHidden(t, p, [], a, b, x, y);
    var (c, d) := (Call(t, p, []), Call(t, q, []));
    InHeapCalls(t, ptrs, c);
    InHeapCalls(t, ptrs, d);
    assert Ideal(c) == Ideal(d) && c != d;
  }

  /** Over distinct names, a heap pattern emits no candidate twice iff its unused pointer slots
      leave no choice. */
  lemma HeapCandidatesDistinctIff(t: Pattern, ptrs: seq<string>)
    requires t.App? && Distinct(ptrs)
    ensures NumPtrs(t) >= 0
    ensures Distinct(Ideals(HeapCalls(t, ptrs))) <==>
            (HeapFits(t, |ptrs|) ==> NoChoice(SparePointers(t), NumPtrs(t), |ptrs|))
  {
    SlotCountsNonNegative(t);
    if HeapFits(t, |ptrs|) {
      HeapCallsDistinct(t, ptrs);
      var cs := HeapCalls(t, ptrs);
      IdealsDistinctIff(cs);
      if NoChoice(SparePointers(t), NumPtrs(t), |ptrs|) {
        forall c, d | c in cs && d in cs && Ideal(c) == Ideal(d) ensures c == d { HeapSeparates(t, ptrs, c, d); }
      } else {
        HeapRepeats(t, ptrs);
      }
    }
  }

  lemma DataSeparates(t: Pattern, ptrs: seq<string>, ints: seq<string>, c: Call, d: Call)
    requires t.App? && DataFits(t, |ptrs|, |ints|) && NumPtrs(t) >= 0 && NumInts(t) >= 0
    requires NoChoice(SparePointers(t), NumPtrs(t), |ptrs|) && NoChoice(SpareIntegers(t), NumInts(t), |ints|)
    requires c in DataCalls(t, ptrs, ints) && d in DataCalls(t, ptrs, ints) && Ideal(c) == Ideal(d)
    ensures c == d
  {
    InDataCalls(t, ptrs, ints, c);
    InDataCalls(t, ptrs, ints, d);
    PermsAreSelections(ptrs, NumPtrs(t), c.p);
    PermsAreSelections(ptrs, NumPtrs(t), d.p);
    PermsAreSelections(ints, NumInts(t), c.i);
    PermsAreSelections(ints, NumInts(t), d.i);
    SameCandidateAgrees(t, c.p, c.i, d.p, d.i);
    NoChoiceSeparates(ptrs, NumPtrs(t), SparePointers(t), c.p, d.p);
    NoChoiceSeparates(ints, NumInts(t), SpareIntegers(t), c.i, d.i);
  }

  lemma DataRepeats(t: Pattern, ptrs: seq<string>, ints: seq<string>)
    requires t.App? && DataFits(t, |ptrs|, |ints|) && Distinct(ptrs) && Distinct(ints)
    requires NumPtrs(t) >= 0 && NumInts(t) >= 0
    requires !NoChoice(SparePointers(t), NumPtrs(t), |ptrs|) || !NoChoice(SpareIntegers(t), NumInts(t), |ints|)
    ensures !Separates(DataCalls(t, ptrs, ints))
  {
    RowNotEmpty(ptrs, NumPtrs(t));
    RowNotEmpty(ints, NumInts(t));
    var (c, d) := (Call(t, Perms(ptrs, NumPtrs(t))[0], Perms(ints, NumInts(t))[0]), Call(t, [], []));
    if !NoChoice(SparePointers(t), NumPtrs(t), |ptrs|) {
      var p, q, a, b, x, y := ChoiceRenames(ptrs, NumPtrs(t), SparePointers(t));
      RenamedPointersHidden(t, p, c.i, a, b, x, y);
      c, d := c.(p := p), c.(p := q);
    } else {
      var i, j, a, b, x, y := ChoiceRenames(ints, NumInts(t), SpareIntegers(t));
      RenamedIntegersHidden(t, c.p, i, a, b, x, y);
      c, d := c.(i := i), c.(i := j);
    }
    InDataCalls(t, ptrs, ints, c);
    InDataCalls(t, ptrs, ints, d);
    assert Ideal(c) == Ideal(d) && c != d;
  }

  /** ... and a data pattern iff its unused pointer slots and its unused integer slots leave no
      choice. */
  lemma DataCandidatesDistinctIff(t: Pattern, ptrs: seq<string>, ints: seq<string>)
    requires t.App? && Distinct(ptrs) && Distinct(ints)
    ensures NumPtrs(t) >= 0 && NumInts(t) >= 0
    ensures Distinct(Ideals(DataCalls(t, ptrs, ints))) <==>
            (DataFits(t, |ptrs|, |ints|) ==>
              NoChoice(SparePointers(t), NumPtrs(t), |ptrs|) && NoChoice(SpareIntegers(t), NumInts(t), |ints|))
  {
    SlotCountsNonNegative(t);
    if DataFits(t, |ptrs|, |ints|) {
      DataCallsDistinct(t, ptrs, ints);
      var cs := DataCalls(t, ptrs, ints);
      IdealsDistinctIff(cs);
      if NoChoice(SparePointers(t), NumPtrs(t), |ptrs|) && NoChoice(SpareIntegers(t), NumInts(t), |ints|) {
        forall c, d | c in cs && d in cs && Ideal(c) == Ideal(d) ensures c == d { DataSeparates(t, ptrs, ints, c, d); }
      } else {
        DataRepeats(t, ptrs, ints);
      }
    }
  }

  /** For a steady pattern these are the terms rendered, whatever the counter is when its turn
      comes. */
  lemma EmittedOnceIff(t: Pattern, ptrs: seq<string>, ints: seq<string>, k: int)
    requires t.App? && Steady(t) && Distinct(ptrs) && Distinct(ints)
    ensures NumPtrs(t) >= 0 && NumInts(t) >= 0
    ensures var h := HeapCalls(t, ptrs);
            var r := Rendered(h, k, FuelFor(h));
            r.status == Returned &&
            (Distinct(r.terms) <==> (HeapFits(t, |ptrs|) ==> NoChoice(SparePointers(t), NumPtrs(t), |ptrs|)))
    ensures var d := DataCalls(t, ptrs, ints);
            var r := Rendered(d, k, FuelFor(d));
            r.status == Returned &&
            (Distinct(r.terms) <==>
              (DataFits(t, |ptrs|, |ints|) ==>
                NoChoice(SparePointers(t), NumPtrs(t), |ptrs|) && NoChoice(SpareIntegers(t), NumInts(t), |ints|)))
  {
    HeapCandidatesDistinctIff(t, ptrs);
    DataCandidatesDistinctIff(t, ptrs, ints);
    HeapSteadyIff(t, ptrs);
    DataSteadyIff(t, ptrs, ints);
    SteadyRendered(HeapCalls(t, ptrs), k, FuelFor(HeapCalls(t, ptrs)));
    SteadyRendered(DataCalls(t, ptrs, ints), k, FuelFor(DataCalls(t, ptrs, ints)));
  }

  /** The same for the text of the lines, when every name is free of separators. */
  lemma DataTextsDistinctIff(form: Form, node: string, t: Pattern, ptrs: seq<string>, ints: seq<string>)
    requires t.App? && Distinct(ptrs) && Distinct(ints) && Separating(form)
    requires (forall x <- ptrs :: NameLike(x)) && (forall x <- ints :: NameLike(x))
    ensures NumPtrs(t) >= 0 && NumInts(t) >= 0
    ensures Distinct(TextsOf(form, node, DataCalls(t, ptrs, ints))) <==>
            (DataFits(t, |ptrs|, |ints|) ==>
              NoChoice(SparePointers(t), NumPtrs(t), |ptrs|) && NoChoice(SpareIntegers(t), NumInts(t), |ints|))
  {
    DataCandidatesDistinctIff(t, ptrs, ints);
    var cs := DataCalls(t, ptrs, ints);
    forall c | c in cs
      ensures c.t == t && |c.p| == NumPtrs(t) && |c.i| == NumInts(t) && forall x <- c.p + c.i :: NameLike(x)
    {
      InDataCalls(t, ptrs, ints, c);
      RowIsInjections(ptrs, NumPtrs(t), c.p);
      RowIsInjections(ints, NumInts(t), c.i);
    }
    TextsDistinctIff(form, node, cs, t, NumPtrs(t), NumInts(t));
  }

  lemma HeapTextsDistinctIff(form: Form, node: string, t: Pattern, ptrs: seq<string>)
    requires t.App? && Distinct(ptrs) && Separating(form) && forall x <- ptrs :: NameLike(x)
    ensures NumPtrs(t) >= 0
    ensures Distinct(TextsOf(form, node, HeapCalls(t, ptrs))) <==>
            (HeapFits(t, |ptrs|) ==> NoChoice(SparePointers(t), NumPtrs(t), |ptrs|))
  {
    HeapCandidatesDistinctIff(t, ptrs);
    var cs := HeapCalls(t, ptrs);
    forall c | c in cs
      ensures c.t == t && |c.p| == NumPtrs(t) && |c.i| == 0 && forall x <- c.p + c.i :: NameLike(x)
    {
      InHeapCalls(t, ptrs, c);
      RowIsInjections(ptrs, NumPtrs(t), c.p);
    }
    TextsDistinctIff(form, node, cs, t, NumPtrs(t), 0);
  }

  /** A pattern without pointer slots still takes one pointer, so it repeats its candidates as
      soon as there are two, and is not emitted at all without any. */
  lemma PointerFreeRepeats(t: Pattern, ptrs: seq<string>, ints: seq<string>)
    requires t.App? && Distinct(ptrs) && Distinct(ints) && forall n <- Slots(t) :: n < 0
    ensures NumPtrs(t) == 1
    ensures |ptrs| >= 2 ==> !Distinct(Ideals(HeapCalls(t, ptrs)))
    ensures |ptrs| >= 2 && NumInts(t) <= |ints| ==> !Distinct(Ideals(DataCalls(t, ptrs, ints)))
    ensures ptrs == [] ==> HeapCalls(t, ptrs) == [] && DataCalls(t, ptrs, ints) == []
  {
    SlotCounts(t);
    ShownIsSlot(t);
    assert 0 in SparePointers(t);
    HeapCandidatesDistinctIff(t, ptrs);
    DataCandidatesDistinctIff(t, ptrs, ints);
  }

  /** list(0, 1) reads its first operand only: over three pointers or more every candidate comes
      twice at least. */
  lemma SurplusOperandRepeats(ptrs: seq<string>)
    requires Distinct(ptrs) && |ptrs| >= 3
    ensures !Distinct(Ideals(HeapCalls(App(One(List), [Slot(0), Slot(1)]), ptrs)))
  {
    var t := App(One(List), [Slot(0), Slot(1)]);
    assert FindMax(t.args, 1) == 0 && FindMax(t.args, 2) == 1;
    assert Read(t) == [Slot(0)];
    assert !UsesPointer(t, 1);
    assert 1 in SparePointers(t);
    HeapCandidatesDistinctIff(t, ptrs);
  }
}
