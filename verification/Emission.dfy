/** The emission of `main` in heaps/pred-gen-list.js: which calls of the renderer it makes, what
    it prints, and when that is what the patterns say. */
module Emission {
  import opened Candidates
  import opened Exactness
  import opened Permutations
  import opened Rendering
  import opened Sequences

  // ----- The calls of ts -----

  /** One call `ts(t, p, i)`. */
  datatype Call = Call(t: Pattern, p: seq<string>, i: seq<string>)

  /** The candidate the pattern calls for. */
  function Ideal(c: Call): Term { Inst(c.t, c.p, c.i) }

  function Ideals(cs: seq<Call>): (ts: seq<Term>)
    ensures |ts| == |cs| && forall j :: 0 <= j < |cs| ==> ts[j] == Ideal(cs[j])
  {
    seq(|cs|, j requires 0 <= j < |cs| => Ideal(cs[j]))
  }

  /** One heap pattern: one call per choice of pointers, no integers. */
  function HeapRow(t: Pattern, P: seq<seq<string>>): (cs: seq<Call>)
    ensures |cs| == |P| && forall j :: 0 <= j < |P| ==> cs[j] == Call(t, P[j], [])
  {
    seq(|P|, j requires 0 <= j < |P| => Call(t, P[j], []))
  }

  function HeapCalls(t: Pattern, ptrs: seq<string>): seq<Call>
    requires t.App?
  {
    SlotCountsNonNegative(t);
    if NumPtrs(t) <= |ptrs| then HeapRow(t, Perms(ptrs, NumPtrs(t))) else []
  }

  function Row(t: Pattern, p: seq<string>, I: seq<seq<string>>): (cs: seq<Call>)
    ensures |cs| == |I| && forall k :: 0 <= k < |I| ==> cs[k] == Call(t, p, I[k])
  {
    seq(|I|, k requires 0 <= k < |I| => Call(t, p, I[k]))
  }

  function Grid(t: Pattern, P: seq<seq<string>>, I: seq<seq<string>>, n: nat): seq<Call>
    requires n <= |P|
  {
    if n == 0 then [] else Grid(t, P, I, n - 1) + Row(t, P[n - 1], I)
  }

  /** One data pattern: pointer choices, and integer choices within. */
  function DataCalls(t: Pattern, ptrs: seq<string>, ints: seq<string>): seq<Call>
    requires t.App?
  {
    SlotCountsNonNegative(t);
    if NumPtrs(t) <= |ptrs| && NumInts(t) <= |ints| then
      var P := Perms(ptrs, NumPtrs(t));
      Grid(t, P, Perms(ints, NumInts(t)), |P|)
    else []
  }

  function HeapLists(pats: seq<Pattern>, ptrs: seq<string>): (ls: seq<seq<Call>>)
    requires forall t <- pats :: t.App?
    ensures |ls| == |pats| && forall m :: 0 <= m < |pats| ==> ls[m] == HeapCalls(pats[m], ptrs)
  {
    seq(|pats|, m requires 0 <= m < |pats| => HeapCalls(pats[m], ptrs))
  }

  function DataLists(pats: seq<Pattern>, ptrs: seq<string>, ints: seq<string>): (ls: seq<seq<Call>>)
    requires forall t <- pats :: t.App?
    ensures |ls| == |pats| && forall m :: 0 <= m < |pats| ==> ls[m] == DataCalls(pats[m], ptrs, ints)
  {
    seq(|pats|, m requires 0 <= m < |pats| => DataCalls(pats[m], ptrs, ints))
  }

  /** The calls of the first `n` patterns. */
  function HeapPart(pats: seq<Pattern>, ptrs: seq<string>, n: nat): seq<Call>
    requires n <= |pats| && forall t <- pats :: t.App?
  {
    Concat(HeapLists(pats, ptrs), n)
  }

  function DataPart(pats: seq<Pattern>, ptrs: seq<string>, ints: seq<string>, n: nat): seq<Call>
    requires n <= |pats| && forall t <- pats :: t.App?
  {
    Concat(DataLists(pats, ptrs, ints), n)
  }

  /** All calls of one run, in order. */
  function AllCalls(heap: seq<Pattern>, data: seq<Pattern>, ptrs: seq<string>, ints: seq<string>): seq<Call>
    requires (forall t <- heap :: t.App?) && (forall t <- data :: t.App?)
  {
    HeapPart(heap, ptrs, |heap|) + DataPart(data, ptrs, ints, |data|)
  }

  // ----- What they return -----

  /** `Running`: some call needs more than the fuel; `Raised`: some call throws. */
  datatype Status = Returned | Raised | Running

  /** The terms rendered so far and the shared counter. */
  datatype Progress = Progress(terms: seq<Term>, k: int, status: Status)

  /** After a throw, or while a call has not returned, nothing more happens. */
  function Next(r: Progress, c: Call, fuel: nat): Progress {
    if r.status != Returned then r
    else
      match Ts(c.t, c.p, c.i, r.k, fuel)
      case OutOfFuel => r.(status := Running)
      case Thrown => r.(status := Raised)
      case Done(term, k) => Progress(r.terms + [term], k, Returned)
  }

  /** The calls made one after the other, the counter handed on. */
  function Rendered(cs: seq<Call>, k: int, fuel: nat): (r: Progress)
    ensures if r.status == Returned then |r.terms| == |cs| else |r.terms| < |cs|
  {
    if cs == [] then Progress([], k, Returned)
    else Next(Rendered(cs[..|cs| - 1], k, fuel), cs[|cs| - 1], fuel)
  }

  lemma RenderedOneMore(cs: seq<Call>, c: Call, k: int, fuel: nat)
    ensures Rendered(cs + [c], k, fuel) == Next(Rendered(cs, k, fuel), c, fuel)
  {
    assert (cs + [c])[..|cs|] == cs;
  }

  /** Each term is what `ts` returned for the call in the same place, and the call behind the
      last one, if any, threw or has not returned. */
  lemma {:induction false} RenderedIs(cs: seq<Call>, k: int, fuel: nat)
    ensures var r := Rendered(cs, k, fuel);
      && (forall j :: 0 <= j < |r.terms| ==> Returns(cs[j].t, cs[j].p, cs[j].i, r.terms[j]))
      && (r.status == Raised ==> Ts(cs[|r.terms|].t, cs[|r.terms|].p, cs[|r.terms|].i, r.k, fuel) == Thrown)
      && (r.status == Running ==> Ts(cs[|r.terms|].t, cs[|r.terms|].p, cs[|r.terms|].i, r.k, fuel) == OutOfFuel)
    decreases |cs|
  {
    if cs != [] {
      var front := cs[..|cs| - 1];
      RenderedIs(front, k, fuel);
      var (r, c) := (Rendered(front, k, fuel), cs[|cs| - 1]);
      assert Ts(c.t, c.p, c.i, r.k, fuel).Done? ==> Returns(c.t, c.p, c.i, Ts(c.t, c.p, c.i, r.k, fuel).term);
    }
  }

  // ----- The order of the calls -----

  /** Data calls go through the integer choices for each pointer choice in turn. */
  lemma {:induction false} GridAt(t: Pattern, P: seq<seq<string>>, I: seq<seq<string>>, n: nat, a: nat, b: nat)
    requires a < n <= |P| && b < |I|
    ensures Times(a, |I|) + b < |Grid(t, P, I, n)|
    ensures Grid(t, P, I, n)[Times(a, |I|) + b] == Call(t, P[a], I[b])
  {
    GridCount(t, P, I, n - 1);
    if a < n - 1 { GridAt(t, P, I, n - 1, a, b); }
  }

  lemma PrefixConcat(a: seq<Call>, b: seq<Call>, c: seq<Call>)
    requires a <= b
    ensures a <= b + c && c + a <= c + b
  {
  }

  /** The patterns come in order, heap table first: the calls of a heap pattern follow those of
      the heap patterns before it. */
  lemma HeapCallsInOrder(heap: seq<Pattern>, data: seq<Pattern>, ptrs: seq<string>, ints: seq<string>, m: nat)
    requires (forall t <- heap :: t.App?) && (forall t <- data :: t.App?) && m < |heap|
    ensures HeapPart(heap, ptrs, m) + HeapCalls(heap[m], ptrs) <= AllCalls(heap, data, ptrs, ints)
  {
    var ls := HeapLists(heap, ptrs);
    ConcatGrows(ls, m + 1, |heap|);
    PrefixConcat(Concat(ls, m + 1), Concat(ls, |heap|), DataPart(data, ptrs, ints, |data|));
  }

  /** ... and those of a data pattern all heap patterns' and the data patterns' before it. */
  lemma DataCallsInOrder(heap: seq<Pattern>, data: seq<Pattern>, ptrs: seq<string>, ints: seq<string>, m: nat)
    requires (forall t <- heap :: t.App?) && (forall t <- data :: t.App?) && m < |data|
    ensures HeapPart(heap, ptrs, |heap|) + (DataPart(data, ptrs, ints, m) + DataCalls(data[m], ptrs, ints)) <=
            AllCalls(heap, data, ptrs, ints)
  {
    var ls := DataLists(data, ptrs, ints);
    ConcatGrows(ls, m + 1, |data|);
    PrefixConcat(Concat(ls, m + 1), Concat(ls, |data|), HeapPart(heap, ptrs, |heap|));
  }

  /** The calls of one fitting pattern, by position. */
  lemma PatternCallsAt(t: Pattern, ptrs: seq<string>, ints: seq<string>, a: nat, b: nat)
    requires t.App?
    ensures NumPtrs(t) >= 0 && NumInts(t) >= 0
    ensures NumPtrs(t) <= |ptrs| && a < |Perms(ptrs, NumPtrs(t))| ==>
              a < |HeapCalls(t, ptrs)| && HeapCalls(t, ptrs)[a] == Call(t, Perms(ptrs, NumPtrs(t))[a], [])
    ensures NumPtrs(t) <= |ptrs| && NumInts(t) <= |ints| &&
            a < |Perms(ptrs, NumPtrs(t))| && b < |Perms(ints, NumInts(t))| ==>
              var at := Times(a, |Perms(ints, NumInts(t))|) + b;
              && at < |DataCalls(t, ptrs, ints)|
              && DataCalls(t, ptrs, ints)[at] == Call(t, Perms(ptrs, NumPtrs(t))[a], Perms(ints, NumInts(t))[b])
  {
    SlotCountsNonNegative(t);
    var (P, I) := (Perms(ptrs, NumPtrs(t)), Perms(ints, NumInts(t)));
    if a < |P| && b < |I| { GridAt(t, P, I, |P|, a, b); }
  }

  // ----- The program -----

  /** One emitted line: `invariant guard ==> (body);` */
  datatype Line = Line(guard: string, body: Term)

  /** Line `j` carries guard `j` and the `j`th candidate. */
  predicate Numbered(out: seq<Line>, terms: seq<Term>) {
    |out| == |terms| && forall j :: 0 <= j < |out| ==> out[j] == Line(Guard(j), terms[j])
  }

  /** What was printed, the global `k` and the status are those of `r`. */
  predicate Shows(lines: seq<Line>, k: int, status: Status, r: Progress) {
    Numbered(lines, r.terms) && k == r.k && status == r.status
  }

  /** `'b' + pad(n, digits)` */
  method GuardName(n: nat) returns (g: string)
    ensures g == Guard(n)
  {
    var s := Pad(n, DIGITS);
    g := "b" + s;
  }

  lemma ShowsOneMore(lines: seq<Line>, k: int, status: Status, cs: seq<Call>, c: Call, k0: int, fuel: nat)
    requires Shows(lines, k, status, Next(Rendered(cs, k0, fuel), c, fuel))
    ensures Shows(lines, k, status, Rendered(cs + [c], k0, fuel))
  {
    RenderedOneMore(cs, c, k0, fuel);
  }

  /** `console.log('invariant b' + pad(cnt++, digits) + ' ==> (' + ts(t, p, i) + ');')` */
  method PrintLine(lines: seq<Line>, k: int, status: Status, t: Pattern, p: seq<string>, i: seq<string>, fuel: nat, ghost r: Progress)
    returns (lines': seq<Line>, k': int, status': Status)
    requires Shows(lines, k, status, r)
    ensures Shows(lines', k', status', Next(r, Call(t, p, i), fuel))
  {
    lines', k', status' := lines, k, status;
    if status.Returned? {
      var g := GuardName(|lines|);
      match Ts(t, p, i, k, fuel)
      case OutOfFuel => status' := Running;
      case Thrown => status' := Raised;
      case Done(term, k1) => k', lines' := k1, lines + [Line(g, term)];
    }
  }

  /** What `permutations(names)` returned. */
  predicate RowsOf(names: seq<string>, rows: seq<seq<seq<string>>>) {
    |rows| == |names| + 1 && forall k :: 0 <= k <= |names| ==> rows[k] == Perms(names, k)
  }

  /** The state of a run of main: what was printed (the counter `cnt` is its length) and the
      global `k`. */
  class Generator {
    const fuel: nat
    ghost const k0: int
    var lines: seq<Line>
    var k: int
    var status: Status
    ghost var calls: seq<Call>

    ghost predicate Valid()
      reads this
    {
      Shows(lines, k, status, Rendered(calls, k0, fuel))
    }

    constructor (k: int, fuel: nat)
      ensures Valid() && calls == [] && this.k0 == k && this.fuel == fuel
    {
      this.k, this.k0, this.fuel := k, k, fuel;
      lines, calls, status := [], [], Returned;
    }

    method EmitLine(t: Pattern, p: seq<string>, i: seq<string>)
      requires Valid()
      modifies this
      ensures Valid() && calls == old(calls) + [Call(t, p, i)]
    {
      var ls, n, st := PrintLine(lines, k, status, t, p, i, fuel, Rendered(calls, k0, fuel));
      ShowsOneMore(ls, n, st, calls, Call(t, p, i), k0, fuel);
      lines, k, status := ls, n, st;
      calls := calls + [Call(t, p, i)];
    }

    method EmitHeap(t: Pattern, P: seq<seq<string>>)
      requires Valid()
      modifies this
      ensures Valid() && calls == old(calls) + HeapRow(t, P)
    {
      ghost var all := HeapRow(t, P);
      for j := 0 to |P|
        invariant Valid() && calls == old(calls) + all[..j]
      {
        EmitLine(t, P[j], []);
        TakeOneMore(all, j);
      }
      assert all[..|P|] == all;
    }

    method EmitRow(t: Pattern, p: seq<string>, I: seq<seq<string>>)
      requires Valid()
      modifies this
      ensures Valid() && calls == old(calls) + Row(t, p, I)
    {
      ghost var all := Row(t, p, I);
      for j := 0 to |I|
        invariant Valid() && calls == old(calls) + all[..j]
      {
        EmitLine(t, p, I[j]);
        TakeOneMore(all, j);
      }
      assert all[..|I|] == all;
    }

    method EmitData(t: Pattern, P: seq<seq<string>>, I: seq<seq<string>>)
      requires Valid()
      modifies this
      ensures Valid() && calls == old(calls) + Grid(t, P, I, |P|)
    {
      for j := 0 to |P|
        invariant Valid() && calls == old(calls) + Grid(t, P, I, j)
      {
        EmitRow(t, P[j], I);
        Regroup(old(calls), Grid(t, P, I, j), Row(t, P[j], I), Grid(t, P, I, j + 1));
      }
    }

    method EmitHeapPattern(t: Pattern, ptrs: seq<string>, ptrRows: seq<seq<seq<string>>>)
      requires Valid() && t.App? && RowsOf(ptrs, ptrRows)
      modifies this
      ensures Valid() && calls == old(calls) + HeapCalls(t, ptrs)
    {
      var max := ComputeMax(t.args);
      SlotCountsNonNegative(t);
      if max + 1 <= |ptrs| {
        EmitHeap(t, ptrRows[max + 1]);
      }
    }

    method EmitDataPattern(t: Pattern, ptrs: seq<string>, ints: seq<string>,
                           ptrRows: seq<seq<seq<string>>>, intRows: seq<seq<seq<string>>>)
      requires Valid() && t.App? && RowsOf(ptrs, ptrRows) && RowsOf(ints, intRows)
      modifies this
      ensures Valid() && calls == old(calls) + DataCalls(t, ptrs, ints)
    {
      var max := ComputeMax(t.args);
      var min := ComputeMin(t.args);
      SlotCountsNonNegative(t);
      if max + 1 <= |ptrs| && -min <= |ints| {
        EmitData(t, ptrRows[max + 1], intRows[-min]);
      }
    }

    /** The first emission loop of main. */
    method EmitHeapPatterns(heap: seq<Pattern>, ptrs: seq<string>, ptrRows: seq<seq<seq<string>>>)
      requires Valid() && (forall t <- heap :: t.App?) && RowsOf(ptrs, ptrRows)
      modifies this
      ensures Valid() && calls == old(calls) + HeapPart(heap, ptrs, |heap|)
    {
      for i := 0 to |heap|
        invariant Valid() && calls == old(calls) + HeapPart(heap, ptrs, i)
      {
        EmitHeapPattern(heap[i], ptrs, ptrRows);
        Regroup(old(calls), HeapPart(heap, ptrs, i), HeapCalls(heap[i], ptrs), HeapPart(heap, ptrs, i + 1));
      }
    }

    /** The second emission loop of main. */
    method EmitDataPatterns(data: seq<Pattern>, ptrs: seq<string>, ints: seq<string>,
                            ptrRows: seq<seq<seq<string>>>, intRows: seq<seq<seq<string>>>)
      requires Valid() && (forall t <- data :: t.App?) && RowsOf(ptrs, ptrRows) && RowsOf(ints, intRows)
      modifies this
      ensures Valid() && calls == old(calls) + DataPart(data, ptrs, ints, |data|)
    {
      for i := 0 to |data|
        invariant Valid() && calls == old(calls) + DataPart(data, ptrs, ints, i)
      {
        EmitDataPattern(data[i], ptrs, ints, ptrRows, intRows);
        Regroup(old(calls), DataPart(data, ptrs, ints, i), DataCalls(data[i], ptrs, ints), DataPart(data, ptrs, ints, i + 1));
      }
    }
  }

  /** The last loop of main: one declaration per guard. */
  method Declare(cnt: nat) returns (decls: seq<string>)
    ensures |decls| == cnt && forall j :: 0 <= j < cnt ==> decls[j] == Guard(j)
  {
    decls := [];
    for i := 0 to cnt
      invariant |decls| == i && forall j :: 0 <= j < i ==> decls[j] == Guard(j)
    {
      var g := GuardName(i);
      decls := decls + [g];
    }
  }

  /** main: one line per call that returned, numbered guards; after the last one, and only
      then, one declaration per guard. */
  method Emit(heap: seq<Pattern>, data: seq<Pattern>, ptrs: seq<string>, ints: seq<string>, k: int, fuel: nat)
    returns (lines: seq<Line>, decls: seq<string>, status: Status)
    requires (forall t <- heap :: t.App?) && (forall t <- data :: t.App?)
    ensures var r := Rendered(AllCalls(heap, data, ptrs, ints), k, fuel);
            Numbered(lines, r.terms) && status == r.status
    ensures if status == Returned then |decls| == |lines| && forall j :: 0 <= j < |lines| ==> decls[j] == lines[j].guard
            else decls == []
  {
    var ptrRows := AllPermutations(ptrs);
    var intRows := AllPermutations(ints);
    var g := new Generator(k, fuel);
    assert g.calls + HeapPart(heap, ptrs, |heap|) == HeapPart(heap, ptrs, |heap|);
    g.EmitHeapPatterns(heap, ptrs, ptrRows);
    g.EmitDataPatterns(data, ptrs, ints, ptrRows, intRows);
    lines, status := g.lines, g.status;
    if status.Returned? {
      decls := Declare(|lines|);
    } else {
      decls := [];
    }
  }

  /** Every guard is used on one line and declared once. */
  lemma GuardsDistinct(out: seq<Line>, terms: seq<Term>)
    requires Numbered(out, terms)
    ensures forall i, j :: 0 <= i < j < |out| ==> out[i].guard != out[j].guard
  {
    forall i, j | 0 <= i < j < |out| ensures out[i].guard != out[j].guard { GuardInjective(i, j); }
  }

  // ----- When the lines are what the patterns say -----

  /** The calls before the last, and the last. */
  function Split(cs: seq<Call>): (r: (seq<Call>, Call))
    requires cs != []
    ensures r.0 == cs[..|cs| - 1] && r.1 == cs[|cs| - 1]
    ensures forall c :: c in cs <==> c in r.0 || c == r.1
  {
    assert cs == cs[..|cs| - 1] + [cs[|cs| - 1]];
    (cs[..|cs| - 1], cs[|cs| - 1])
  }

  predicate AllSteady(cs: seq<Call>) { forall c <- cs :: Steady(c.t) }

  /** Enough fuel for every steady call. */
  function FuelFor(cs: seq<Call>): (f: nat)
    ensures forall c <- cs :: f >= Cost(c.t)
  {
    if cs == [] then 0
    else
      var f := FuelFor(cs[..|cs| - 1]);
      var c := cs[|cs| - 1];
      assert cs == cs[..|cs| - 1] + [c];
      if Cost(c.t) > f then Cost(c.t) else f
  }

  lemma IdealsOneMore(cs: seq<Call>)
    requires cs != []
    ensures Ideals(cs) == Ideals(Split(cs).0) + [Ideal(Split(cs).1)]
  {
  }

  lemma {:induction false} SteadyRendered(cs: seq<Call>, k: int, fuel: nat)
    requires AllSteady(cs) && forall c <- cs :: fuel >= Cost(c.t)
    ensures var r := Rendered(cs, k, fuel);
            r.status == Returned && r.terms == Ideals(cs)
    decreases |cs|
  {
    if cs != [] {
      var (front, c) := Split(cs);
      SteadyRendered(front, k, fuel);
      TsClean(c.t, c.p, c.i, Rendered(front, k, fuel).k, fuel);
      IdealsOneMore(cs);
    }
  }

  /** The calls all returned what the patterns say. */
  predicate AsMeant(r: Progress, cs: seq<Call>) { r.status == Returned && r.terms == Ideals(cs) }

  lemma {:induction false} UnsteadyRendered(cs: seq<Call>, k: int, fuel: nat)
    requires !AllSteady(cs)
    ensures !AsMeant(Rendered(cs, k, fuel), cs)
    decreases |cs|
  {
    var (front, c) := Split(cs);
    var r := Rendered(front, k, fuel);
    IdealsOneMore(cs);
    if !AllSteady(front) {
      UnsteadyRendered(front, k, fuel);
    } else {
      RendersIffSteady(c.t, c.p, c.i, r.k);
    }
    LastTermMatters(r.terms, Ideals(front), Ideal(c));
  }

  lemma LastTermMatters(a: seq<Term>, b: seq<Term>, y: Term)
    ensures forall x {:trigger a + [x]} :: a + [x] == b + [y] ==> a == b && x == y
  {
    forall x {:trigger a + [x]} | a + [x] == b + [y] ensures a == b && x == y {
      assert a == (a + [x])[..|a|] && b == (b + [y])[..|b|];
      assert (a + [x])[|a|] == x;
    }
  }

  lemma RowNotEmpty(names: seq<string>, k: nat)
    requires k <= |names|
    ensures Perms(names, k) != []
  {
    RowCount(names, k);
    FallingPositive(|names|, k);
  }

  lemma {:induction false} FallingPositive(n: nat, k: nat)
    requires k <= n
    ensures Falling(n, k) > 0
    decreases k
  {
    if k > 0 { FallingPositive(n - 1, k - 1); }
  }

  /** The patterns the variables suffice for: the guards of the two loops. */
  predicate HeapFits(t: Pattern, ptrs: nat)
    requires t.App?
  {
    NumPtrs(t) <= ptrs
  }

  predicate DataFits(t: Pattern, ptrs: nat, ints: nat)
    requires t.App?
  {
    NumPtrs(t) <= ptrs && NumInts(t) <= ints
  }

  predicate HeapOk(t: Pattern, ptrs: nat)
    requires t.App?
  {
    HeapFits(t, ptrs) ==> Steady(t)
  }

  predicate DataOk(t: Pattern, ptrs: nat, ints: nat)
    requires t.App?
  {
    DataFits(t, ptrs, ints) ==> Steady(t)
  }

  lemma HeapSteadyIff(t: Pattern, ptrs: seq<string>)
    requires t.App?
    ensures AllSteady(HeapCalls(t, ptrs)) <==> HeapOk(t, |ptrs|)
  {
    SlotCountsNonNegative(t);
    if HeapFits(t, |ptrs|) {
      RowNotEmpty(ptrs, NumPtrs(t));
      assert HeapCalls(t, ptrs)[0].t == t;
    }
  }

  lemma {:induction false} InGrid(t: Pattern, P: seq<seq<string>>, I: seq<seq<string>>, n: nat, c: Call)
    requires n <= |P|
    ensures c in Grid(t, P, I, n) <==> c.t == t && c.p in P[..n] && c.i in I
  {
    if n > 0 {
      InGrid(t, P, I, n - 1, c);
      assert P[..n] == P[..n - 1] + [P[n - 1]];
      assert c in Row(t, P[n - 1], I) <==> c.t == t && c.p == P[n - 1] && c.i in I;
    }
  }

  lemma DataSteadyIff(t: Pattern, ptrs: seq<string>, ints: seq<string>)
    requires t.App?
    ensures AllSteady(DataCalls(t, ptrs, ints)) <==> DataOk(t, |ptrs|, |ints|)
  {
    SlotCountsNonNegative(t);
    if DataFits(t, |ptrs|, |ints|) {
      var (P, I) := (Perms(ptrs, NumPtrs(t)), Perms(ints, NumInts(t)));
      RowNotEmpty(ptrs, NumPtrs(t));
      RowNotEmpty(ints, NumInts(t));
      InGrid(t, P, I, |P|, Call(t, P[0], I[0]));
      forall c | c in DataCalls(t, ptrs, ints) ensures c.t == t { InGrid(t, P, I, |P|, c); }
    }
  }

  predicate HeapsSteady(pats: seq<Pattern>, ptrs: nat)
    requires forall t <- pats :: t.App?
  {
    forall t <- pats :: HeapOk(t, ptrs)
  }

  predicate DatasSteady(pats: seq<Pattern>, ptrs: nat, ints: nat)
    requires forall t <- pats :: t.App?
  {
    forall t <- pats :: DataOk(t, ptrs, ints)
  }

  /** Every pattern that is used at all is steady. */
  predicate SteadyTables(heap: seq<Pattern>, data: seq<Pattern>, ptrs: nat, ints: nat)
    requires (forall t <- heap :: t.App?) && (forall t <- data :: t.App?)
  {
    HeapsSteady(heap, ptrs) && DatasSteady(data, ptrs, ints)
  }

  lemma HeapPartSteadyIff(pats: seq<Pattern>, ptrs: seq<string>)
    requires forall t <- pats :: t.App?
    ensures AllSteady(HeapPart(pats, ptrs, |pats|)) <==> HeapsSteady(pats, |ptrs|)
  {
    if AllSteady(HeapPart(pats, ptrs, |pats|)) {
      forall t | t in pats ensures HeapOk(t, |ptrs|) {
        var m :| 0 <= m < |pats| && pats[m] == t;
        forall c | c in HeapCalls(t, ptrs) ensures Steady(c.t) { IntoConcat(HeapLists(pats, ptrs), |pats|, m, c); }
        HeapSteadyIff(t, ptrs);
      }
    }
    if HeapsSteady(pats, |ptrs|) {
      forall c | c in HeapPart(pats, ptrs, |pats|) ensures Steady(c.t) {
        var m := FromConcat(HeapLists(pats, ptrs), |pats|, c);
        HeapSteadyIff(pats[m], ptrs);
      }
    }
  }

  lemma DataPartSteadyIff(pats: seq<Pattern>, ptrs: seq<string>, ints: seq<string>)
    requires forall t <- pats :: t.App?
    ensures AllSteady(DataPart(pats, ptrs, ints, |pats|)) <==> DatasSteady(pats, |ptrs|, |ints|)
  {
    if AllSteady(DataPart(pats, ptrs, ints, |pats|)) {
      forall t | t in pats ensures DataOk(t, |ptrs|, |ints|) {
        var m :| 0 <= m < |pats| && pats[m] == t;
        forall c | c in DataCalls(t, ptrs, ints) ensures Steady(c.t) { IntoConcat(DataLists(pats, ptrs, ints), |pats|, m, c); }
        DataSteadyIff(t, ptrs, ints);
      }
    }
    if DatasSteady(pats, |ptrs|, |ints|) {
      forall c | c in DataPart(pats, ptrs, ints, |pats|) ensures Steady(c.t) {
        var m := FromConcat(DataLists(pats, ptrs, ints), |pats|, c);
        DataSteadyIff(pats[m], ptrs, ints);
      }
    }
  }

  lemma SteadyConcat(a: seq<Call>, b: seq<Call>)
    ensures AllSteady(a + b) <==> AllSteady(a) && AllSteady(b)
  {
    assert forall c :: c in a + b <==> c in a || c in b;
  }

  lemma CallsSteadyIff(heap: seq<Pattern>, data: seq<Pattern>, ptrs: seq<string>, ints: seq<string>)
    requires (forall t <- heap :: t.App?) && (forall t <- data :: t.App?)
    ensures AllSteady(AllCalls(heap, data, ptrs, ints)) <==> SteadyTables(heap, data, |ptrs|, |ints|)
  {
    HeapPartSteadyIff(heap, ptrs);
    DataPartSteadyIff(data, ptrs, ints);
    SteadyConcat(HeapPart(heap, ptrs, |heap|), DataPart(data, ptrs, ints, |data|));
  }

  /** A run prints exactly what the patterns say, one line per pattern and assignment, iff
      every pattern that is used is steady.  Otherwise no amount of work makes it so: the run
      throws, or never ends, or some line is wrong. */
  lemma EmissionIffSteady(heap: seq<Pattern>, data: seq<Pattern>, ptrs: seq<string>, ints: seq<string>, k: int)
    requires (forall t <- heap :: t.App?) && (forall t <- data :: t.App?)
    ensures var cs := AllCalls(heap, data, ptrs, ints);
      && (SteadyTables(heap, data, |ptrs|, |ints|) <==> AsMeant(Rendered(cs, k, FuelFor(cs)), cs))
      && (!SteadyTables(heap, data, |ptrs|, |ints|) ==> forall fuel: nat :: !AsMeant(Rendered(cs, k, fuel), cs))
  {
    var cs := AllCalls(heap, data, ptrs, ints);
    CallsSteadyIff(heap, data, ptrs, ints);
    if AllSteady(cs) {
      SteadyRendered(cs, k, FuelFor(cs));
    } else {
      forall fuel: nat ensures !AsMeant(Rendered(cs, k, fuel), cs) { UnsteadyRendered(cs, k, fuel); }
    }
  }

  // ----- Tables that fail -----

  /** No line is what its pattern says. */
  predicate AllWrong(terms: seq<Term>, cs: seq<Call>) {
    |terms| == |cs| && forall j :: 0 <= j < |cs| ==> terms[j] != Ideal(cs[j])
  }

  lemma WrongOneMore(terms: seq<Term>, x: Term, cs: seq<Call>)
    requires cs != [] && AllWrong(terms, Split(cs).0) && x != Ideal(Split(cs).1)
    ensures AllWrong(terms + [x], cs)
  {
  }

  lemma {:induction false} AllDropped(cs: seq<Call>, k: int, fuel: nat)
    requires fuel >= 2 && forall c <- cs :: c.t == Dropping()
    ensures Rendered(cs, k, fuel).status == Returned && AllWrong(Rendered(cs, k, fuel).terms, cs)
    decreases |cs|
  {
    if cs != [] {
      var (front, c) := Split(cs);
      AllDropped(front, k, fuel);
      var r := Rendered(front, k, fuel);
      ConjunctDropped(c.p, c.i, r.k, fuel);
      WrongOneMore(r.terms, Ts(c.t, c.p, c.i, r.k, fuel).term, cs);
    }
  }

  /** With the pattern and(0, and(1, 2), 3) and four pointers or more the run ends, and not one
      of its lines is what the pattern says. */
  lemma DroppingTable(ptrs: seq<string>, ints: seq<string>, k: int, fuel: nat)
    requires |ptrs| >= 4 && fuel >= 2
    ensures var cs := AllCalls([Dropping()], [], ptrs, ints);
            var r := Rendered(cs, k, fuel);
            r.status == Returned && cs != [] && AllWrong(r.terms, cs)
  {
    var t := Dropping();
    assert t.args[1].args == [Slot(1), Slot(2)];
    assert FindMax(t.args[1].args, 1) == 1;
    assert FindMax(t.args, 1) == 0 && FindMax(t.args, 2) == 2 && FindMax(t.args, 3) == 3;
    RowNotEmpty(ptrs, 4);
    var cs := AllCalls([t], [], ptrs, ints);
    assert Concat(HeapLists([t], ptrs), 0) == [] && cs == HeapRow(t, Perms(ptrs, 4));
    AllDropped(cs, k, fuel);
  }

  /** With and(0, 1, 2, and(0, 1)) and three pointers or more the run prints nothing and never
      ends. */
  lemma EndlessTable(ptrs: seq<string>, ints: seq<string>, k: int, fuel: nat)
    requires |ptrs| >= 3
    ensures Rendered(AllCalls([Endless()], [], ptrs, ints), k, fuel) == Progress([], k, Running)
  {
    var t := Endless();
    assert t.args[3].args == [Slot(0), Slot(1)];
    assert FindMax(t.args[3].args, 1) == 0;
    assert FindMax(t.args, 1) == 0 && FindMax(t.args, 2) == 1 && FindMax(t.args, 3) == 2 && FindMax(t.args, 4) == 2;
    RowNotEmpty(ptrs, 3);
    var cs := AllCalls([t], [], ptrs, ints);
    assert Concat(HeapLists([t], ptrs), 0) == [] && cs == HeapRow(t, Perms(ptrs, 3));
    StuckAtFirst(cs, k, fuel);
  }

  lemma {:induction false} StuckAtFirst(cs: seq<Call>, k: int, fuel: nat)
    requires cs != [] && cs[0].t == Endless()
    ensures Rendered(cs, k, fuel) == Progress([], k, Running)
    decreases |cs|
  {
    if |cs| > 1 {
      StuckAtFirst(cs[..|cs| - 1], k, fuel);
    } else {
      EndlessRuns(cs[0].p, cs[0].i, k, fuel);
    }
  }

  // ----- How many candidates -----

  function HeapCount(t: Pattern, n: nat): nat
    requires t.App?
  {
    SlotCountsNonNegative(t);
    if NumPtrs(t) <= n then Falling(n, NumPtrs(t)) else 0
  }

  function DataCount(t: Pattern, n: nat, m: nat): nat
    requires t.App?
  {
    SlotCountsNonNegative(t);
    if NumPtrs(t) <= n && NumInts(t) <= m then Falling(n, NumPtrs(t)) * Falling(m, NumInts(t)) else 0
  }

  lemma {:induction false} GridCount(t: Pattern, P: seq<seq<string>>, I: seq<seq<string>>, n: nat)
    requires n <= |P|
    ensures |Grid(t, P, I, n)| == Times(n, |I|)
  {
    if n > 0 { GridCount(t, P, I, n - 1); }
  }

  /** One candidate per pattern and per injective assignment. */
  lemma PatternCounts(t: Pattern, ptrs: seq<string>, ints: seq<string>)
    requires t.App?
    ensures |HeapCalls(t, ptrs)| == HeapCount(t, |ptrs|)
    ensures |DataCalls(t, ptrs, ints)| == DataCount(t, |ptrs|, |ints|)
  {
    SlotCountsNonNegative(t);
    RowCount(ptrs, NumPtrs(t));
    RowCount(ints, NumInts(t));
    var (P, I) := (Perms(ptrs, NumPtrs(t)), Perms(ints, NumInts(t)));
    GridCount(t, P, I, |P|);
    TimesIsProduct(|P|, |I|);
  }

  function TotalHeap(pats: seq<Pattern>, p: nat, n: nat): nat
    requires n <= |pats| && forall t <- pats :: t.App?
  {
    if n == 0 then 0 else TotalHeap(pats, p, n - 1) + HeapCount(pats[n - 1], p)
  }

  function TotalData(pats: seq<Pattern>, p: nat, m: nat, n: nat): nat
    requires n <= |pats| && forall t <- pats :: t.App?
  {
    if n == 0 then 0 else TotalData(pats, p, m, n - 1) + DataCount(pats[n - 1], p, m)
  }

  lemma {:induction false} HeapTotal(pats: seq<Pattern>, ptrs: seq<string>, n: nat)
    requires n <= |pats| && forall t <- pats :: t.App?
    ensures |HeapPart(pats, ptrs, n)| == TotalHeap(pats, |ptrs|, n)
  {
    if n > 0 {
      HeapTotal(pats, ptrs, n - 1);
      PatternCounts(pats[n - 1], ptrs, []);
    }
  }

  lemma {:induction false} DataTotal(pats: seq<Pattern>, ptrs: seq<string>, ints: seq<string>, n: nat)
    requires n <= |pats| && forall t <- pats :: t.App?
    ensures |DataPart(pats, ptrs, ints, n)| == TotalData(pats, |ptrs|, |ints|, n)
  {
    if n > 0 {
      DataTotal(pats, ptrs, ints, n - 1);
      PatternCounts(pats[n - 1], ptrs, ints);
    }
  }

  /** The number of lines of a run that ends, steady patterns or not: a sum of products of
      falling factorials. */
  lemma EmissionTotal(heap: seq<Pattern>, data: seq<Pattern>, ptrs: seq<string>, ints: seq<string>, k: int, fuel: nat)
    requires (forall t <- heap :: t.App?) && (forall t <- data :: t.App?)
    ensures var r := Rendered(AllCalls(heap, data, ptrs, ints), k, fuel);
            var total := TotalHeap(heap, |ptrs|, |heap|) + TotalData(data, |ptrs|, |ints|, |data|);
            if r.status == Returned then |r.terms| == total else |r.terms| < total
  {
    HeapTotal(heap, ptrs, |heap|);
    DataTotal(data, ptrs, ints, |data|);
  }
}
