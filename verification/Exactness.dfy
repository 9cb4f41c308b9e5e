/** When the renderer of heaps/pred-gen-list.js gives back exactly the pattern it was given.

    A conjunction that is not steady may skip conjuncts, or never end; it may also take all of
    them in another order.  Even then the output differs from the input.  That needs an argument
    about all the terms involved at once: the conjuncts could be changed by their own rendering
    in such a way that the new order brings each to the place of an equal one. */
module Exactness {
  import opened Candidates
  import opened Ints
  import opened Rendering
  import opened Sequences

  /** Rendering `u` gives `t`. */
  ghost predicate Makes(u: Term, t: Term) {
    exists fuel: nat :: Rend(u, fuel).Gives? && Rend(u, fuel).term == t
  }

  // ----- Rendering is a function -----

  lemma {:induction false} MoreFuel(u: Term, f: nat, g: nat)
    requires f <= g && Rend(u, f).Gives?
    ensures Rend(u, g) == Rend(u, f)
    decreases f, u, TermWidth(u)
  {
    match u
    case Apply(Unknown(_), _) =>
    case Apply(And, args) =>
      MoreFuel(args[0], f, g);
      MoreFuelLoop(u, 2, [Rend(args[0], f).term], f, g);
    case Apply(_, _) => MoreFuelOperands(u, 0, [], 0, f, g);
    case _ =>
  }

  lemma {:induction false} MoreFuelOperands(u: Term, n: nat, acc: seq<Term>, left: nat, f: nat, g: nat)
    requires u.Apply? && n <= |u.args| && f <= g && RendOperands(u, n, acc, left, f).Gives?
    ensures RendOperands(u, n, acc, left, g) == RendOperands(u, n, acc, left, f)
    decreases f, u, |u.args| - n
  {
    if n < |u.args| {
      MoreFuel(u.args[n], f, g);
      var r := Rend(u.args[n], f);
      MoreFuelOperands(u, n + 1, acc + [r.term], Settle(left, r.left), f, g);
    }
  }

  lemma {:induction false} MoreFuelLoop(u: Term, k: nat, acc: seq<Term>, f: nat, g: nat)
    requires u.Apply? && u.op.And? && |u.args| >= 2 && k >= 2 && f <= g && RendLoop(u, k, acc, f).Gives?
    ensures RendLoop(u, k, acc, g) == RendLoop(u, k, acc, f)
    decreases f, u, 0
  {
    if k <= |u.args| {
      MoreFuel(u.args[k - 1], f - 1, g - 1);
      var r := Rend(u.args[k - 1], f - 1);
      MoreFuelLoop(u, Settle(k, r.left) + 1, acc + [r.term], f - 1, g - 1);
    }
  }

  lemma SameYield(u: Term, f: nat, g: nat)
    requires Rend(u, f).Gives? && Rend(u, g).Gives?
    ensures Rend(u, f) == Rend(u, g)
  {
    if f <= g { MoreFuel(u, f, g); } else { MoreFuel(u, g, f); }
  }

  lemma MakesOne(u: Term, t: Term, t': Term)
    requires Makes(u, t) && Makes(u, t')
    ensures t == t'
  {
    var f: nat :| Rend(u, f).Gives? && Rend(u, f).term == t;
    var g: nat :| Rend(u, g).Gives? && Rend(u, g).term == t';
    SameYield(u, f, g);
  }

  lemma SteadyMakesItself(u: Term)
    requires SteadyTerm(u)
    ensures Makes(u, u)
  {
    RendSteady(u, TermCost(u));
  }

  // ----- Where the output comes from -----

  /** Each operand of the output was made from the operand in the same place. */
  ghost predicate FromOperands(u: Term, t: Term) {
    && u.Apply? && t.Apply? && !u.op.And? && !u.op.Unknown? && t.op == u.op
    && |t.args| == |u.args| >= Reads(u.op, |u.args|)
    && forall j :: 0 <= j < |u.args| ==> Makes(u.args[j], t.args[j])
  }

  /** From the `n`th on, each conjunct of the output was made from the one the counter stood
      at; in the end the counter was past them all. */
  ghost predicate Traced(u: Term, t: Term, n: nat)
    requires u.Apply?
  {
    && t.Apply? && t.op.And? && 1 <= n <= |t.args|
    && (forall m {:trigger At(t.args, m)} :: n <= m < |t.args| ==>
          At(t.args, m) <= |u.args| && Makes(u.args[At(t.args, m) - 1], t.args[m]))
    && At(t.args, |t.args|) > |u.args|
  }

  ghost predicate FromConjuncts(u: Term, t: Term) {
    && u.Apply? && u.op.And? && |u.args| >= 2
    && Traced(u, t, 1) && |t.args| >= 2 && Makes(u.args[0], t.args[0])
  }

  lemma {:induction false} OperandsTrace(u: Term, n: nat, acc: seq<Term>, left: nat, fuel: nat)
    requires u.Apply? && n == |acc| <= |u.args| && RendOperands(u, n, acc, left, fuel).Gives?
    requires forall j :: 0 <= j < n ==> Makes(u.args[j], acc[j])
    ensures var t := RendOperands(u, n, acc, left, fuel).term;
            && t.Apply? && t.op == u.op && |t.args| == |u.args| >= Reads(u.op, |u.args|)
            && forall j :: 0 <= j < |u.args| ==> Makes(u.args[j], t.args[j])
    decreases |u.args| - n
  {
    if n < |u.args| {
      var r := Rend(u.args[n], fuel);
      assert Makes(u.args[n], r.term);
      OperandsTrace(u, n + 1, acc + [r.term], Settle(left, r.left), fuel);
    }
  }

  lemma OneMoreTraced(u: Term, t: Term, n: nat)
    requires u.Apply? && Traced(u, t, n + 1) && n >= 1
    requires At(t.args, n) <= |u.args| && Makes(u.args[At(t.args, n) - 1], t.args[n])
    ensures Traced(u, t, n)
  {
  }

  lemma {:induction false} LoopTrace(u: Term, k: nat, acc: seq<Term>, fuel: nat)
    requires u.Apply? && u.op.And? && |u.args| >= 2 && acc != [] && k == At(acc, |acc|)
    requires RendLoop(u, k, acc, fuel).Gives?
    ensures var t := RendLoop(u, k, acc, fuel).term;
            Traced(u, t, |acc|) && acc <= t.args
    decreases fuel
  {
    var t := RendLoop(u, k, acc, fuel).term;
    if k <= |u.args| {
      var r := Rend(u.args[k - 1], fuel - 1);
      assert Makes(u.args[k - 1], r.term);
      LeftOfOutput(u.args[k - 1], fuel - 1);
      var acc' := acc + [r.term];
      PrefixCounts(acc, acc', |acc|);
      LoopTrace(u, Settle(k, r.left) + 1, acc', fuel - 1);
      assert t.args[|acc|] == acc'[|acc|];
      PrefixCounts(acc, t.args, |acc|);
      OneMoreTraced(u, t, |acc|);
    }
  }

  lemma Trace(u: Term, t: Term)
    requires Makes(u, t)
    ensures if u.Apply? then FromOperands(u, t) || FromConjuncts(u, t) else t == u
  {
    var fuel: nat :| Rend(u, fuel).Gives? && Rend(u, fuel).term == t;
    match u
    case Apply(Unknown(_), _) =>
    case Apply(And, args) =>
      var first := Rend(args[0], fuel);
      assert Makes(args[0], first.term);
      LoopTrace(u, 2, [first.term], fuel);
      assert t.args[0] == first.term;
      assert At(t.args, 1) == 2;
    case Apply(_, _) => OperandsTrace(u, 0, [], 0, fuel);
    case _ =>
  }

  // ----- No conjunct is taken twice -----

  /** What is still to come depends on the counter alone. */
  lemma {:induction false} SameRest(u: Term, k: nat, a: seq<Term>, f: nat, b: seq<Term>, g: nat)
    requires u.Apply? && u.op.And? && |u.args| >= 2 && k >= 2
    requires RendLoop(u, k, a, f).Gives? && RendLoop(u, k, b, g).Gives?
    ensures var (s, t) := (RendLoop(u, k, a, f).term, RendLoop(u, k, b, g).term);
            s.Apply? && t.Apply? && |s.args| - |a| == |t.args| - |b|
    decreases f
  {
    if k <= |u.args| {
      SameYield(u.args[k - 1], f - 1, g - 1);
      var r := Rend(u.args[k - 1], f - 1);
      SameRest(u, Settle(k, r.left) + 1, a + [r.term], f - 1, b + [r.term], g - 1);
    }
  }

  /** The loop when it had put out `m` conjuncts. */
  lemma {:induction false} StateAt(u: Term, k: nat, acc: seq<Term>, fuel: nat, t: Term, m: nat) returns (f: nat)
    requires u.Apply? && u.op.And? && |u.args| >= 2 && acc != [] && k == At(acc, |acc|)
    requires RendLoop(u, k, acc, fuel).Gives? && RendLoop(u, k, acc, fuel).term == t
    requires t.Apply? && acc <= t.args && |acc| <= m <= |t.args|
    ensures RendLoop(u, At(t.args, m), t.args[..m], f).Gives? && RendLoop(u, At(t.args, m), t.args[..m], f).term == t
    decreases fuel
  {
    if m == |acc| {
      PrefixCounts(acc, t.args, m);
      assert t.args[..m] == acc;
      f := fuel;
    } else {
      assert k <= |u.args|;
      var r := Rend(u.args[k - 1], fuel - 1);
      LeftOfOutput(u.args[k - 1], fuel - 1);
      var acc' := acc + [r.term];
      PrefixCounts(acc, acc', |acc|);
      LoopTrace(u, Settle(k, r.left) + 1, acc', fuel - 1);
      f := StateAt(u, Settle(k, r.left) + 1, acc', fuel - 1, t, m);
    }
  }

  lemma NeverTwice(u: Term, t: Term, m: nat, m': nat)
    requires Makes(u, t) && FromConjuncts(u, t) && 1 <= m < m' < |t.args|
    ensures At(t.args, m) != At(t.args, m')
  {
    var fuel: nat :| Rend(u, fuel).Gives? && Rend(u, fuel).term == t;
    var first := Rend(u.args[0], fuel);
    LoopTrace(u, 2, [first.term], fuel);
    var f := StateAt(u, 2, [first.term], fuel, t, m);
    var g := StateAt(u, 2, [first.term], fuel, t, m');
    if At(t.args, m) == At(t.args, m') {
      SameRest(u, At(t.args, m), t.args[..m], f, t.args[..m'], g);
    }
  }

  // ----- Counting -----

  lemma {:induction false} DistinctSize(s: seq<int>)
    requires Distinct(s)
    ensures |set x | x in s| == |s|
  {
    if s != [] {
      var (h, t) := (s[0], s[1..]);
      assert s == [h] + t;
      DistinctConcat([h], t);
      DistinctSize(t);
      assert h in [h];
      assert (set x | x in s) == {h} + set x | x in t;
    }
  }

  function Range(lo: int, hi: int): (r: set<int>)
    requires lo <= hi
    ensures |r| == hi - lo && forall v :: v in r <==> lo <= v < hi
    decreases hi - lo
  {
    if lo == hi then {} else Range(lo, hi - 1) + {hi - 1}
  }

  lemma SubsetSize<T>(a: set<T>, b: set<T>)
    requires a <= b
    ensures |a| <= |b| && (|a| == |b| ==> a == b)
  {
    assert b == a + (b - a);
    if |a| == |b| { assert |b - a| == 0; }
  }

  lemma DistinctInRange(s: seq<int>, lo: int, hi: int)
    requires Distinct(s) && lo <= hi && forall x <- s :: lo <= x < hi
    ensures |s| <= hi - lo
    ensures |s| == hi - lo ==> forall v :: lo <= v < hi ==> v in s
  {
    DistinctSize(s);
    var a := set x | x in s;
    var b := Range(lo, hi);
    SubsetSize(a, b);
    if |s| == hi - lo {
      forall v | lo <= v < hi ensures v in s { assert v in b; assert v in a; }
    }
  }

  /** The counters at which the output's conjuncts but the first were taken. */
  function Taken(args: seq<Term>): (s: seq<int>)
    requires args != []
    ensures |s| == |args| - 1 && forall x :: 0 <= x < |s| ==> s[x] == At(args, x + 1)
  {
    seq(|args| - 1, x requires 0 <= x < |args| - 1 => At(args, x + 1))
  }

  lemma TakenInRange(u: Term, t: Term)
    requires Makes(u, t) && FromConjuncts(u, t)
    ensures Distinct(Taken(t.args)) && forall x <- Taken(t.args) :: 2 <= x < |u.args| + 1
  {
    var s := Taken(t.args);
    forall x, y | 0 <= x < y < |s| ensures s[x] != s[y] { NeverTwice(u, t, x + 1, y + 1); }
    forall x | 0 <= x < |s| ensures 2 <= s[x] < |u.args| + 1 { }
  }

  /** So a conjunction can only get shorter, and if it does not, every conjunct was taken. */
  lemma NoLonger(u: Term, t: Term)
    requires Makes(u, t) && FromConjuncts(u, t)
    ensures |t.args| <= |u.args|
  {
    TakenInRange(u, t);
    DistinctInRange(Taken(t.args), 2, |u.args| + 1);
  }

  lemma TakenAt(u: Term, t: Term, v: nat) returns (m: nat)
    requires Makes(u, t) && FromConjuncts(u, t) && |t.args| == |u.args| && 2 <= v <= |u.args|
    ensures 1 <= m < |t.args| && At(t.args, m) == v
  {
    TakenInRange(u, t);
    var s := Taken(t.args);
    DistinctInRange(s, 2, |u.args| + 1);
    assert v in s;
    var x :| 0 <= x < |s| && s[x] == v;
    m := x + 1;
  }

  // ----- Sets of terms that make each other -----

  /** Every term of the set is made by one of the set. */
  ghost predicate Backed(S: set<Term>) { forall t {:trigger HasSource(S, t)} :: t in S ==> HasSource(S, t) }

  ghost predicate HasSource(S: set<Term>, t: Term) { exists u :: u in S && Makes(u, t) }

  ghost function Source(S: set<Term>, t: Term): (u: Term)
    requires Backed(S) && t in S
    ensures u in S && Makes(u, t)
  {
    assert HasSource(S, t);
    var u :| u in S && Makes(u, t);
    u
  }

  ghost function Sources(S: set<Term>, A: set<Term>): (r: set<Term>)
    requires Backed(S) && A <= S
    ensures r <= S
  {
    set t | t in A :: Source(S, t)
  }

  lemma {:induction false} SourcesSize(S: set<Term>, A: set<Term>)
    requires Backed(S) && A <= S
    ensures |Sources(S, A)| == |A|
    decreases |A|
  {
    if A != {} {
      var t :| t in A;
      SourcesSize(S, A - {t});
      var u := Source(S, t);
      if u in Sources(S, A - {t}) {
        var t' :| t' in A - {t} && Source(S, t') == u;
        MakesOne(u, t, t');
      }
      assert Sources(S, A) == Sources(S, A - {t}) + {u};
    }
  }

  /** As many terms as are made: each term of the set makes one of the set. */
  lemma StaysInside(S: set<Term>, u: Term) returns (t: Term)
    requires Backed(S) && u in S
    ensures t in S && Makes(u, t)
  {
    SourcesSize(S, S);
    SubsetSize(Sources(S, S), S);
    assert u in Sources(S, S);
    t :| t in S && Source(S, t) == u;
  }

  ghost function Longer(S: set<Term>, n: nat): set<Term> {
    set t | t in S && t.Apply? && t.op.And? && |t.args| >= n
  }

  lemma LongerBacked(S: set<Term>, n: nat)
    requires Backed(S)
    ensures Backed(Longer(S, n))
  {
    forall t | t in Longer(S, n) ensures HasSource(Longer(S, n), t) {
      var u := Source(S, t);
      Trace(u, t);
      NoLonger(u, t);
      assert u in Longer(S, n);
    }
  }

  /** Within such a set no conjunction loses a conjunct. */
  lemma SameLength(S: set<Term>, u: Term, t: Term)
    requires Backed(S) && u in S && Makes(u, t) && FromConjuncts(u, t)
    ensures |t.args| == |u.args|
  {
    LongerBacked(S, |u.args|);
    var t' := StaysInside(Longer(S, |u.args|), u);
    MakesOne(u, t, t');
    NoLonger(u, t);
  }

  ghost function Children(S: set<Term>): set<Term> {
    set t, j | t in S && t.Apply? && 0 <= j < |t.args| :: t.args[j]
  }

  lemma ChildrenBacked(S: set<Term>)
    requires Backed(S)
    ensures Backed(Children(S))
  {
    forall a | a in Children(S) ensures HasSource(Children(S), a) {
      var t, j :| t in S && t.Apply? && 0 <= j < |t.args| && t.args[j] == a;
      var u := Source(S, t);
      Trace(u, t);
      var x := if u.op.And? then (if j == 0 then 0 else At(t.args, j) - 1) else j;
      assert u.args[x] in Children(S) && Makes(u.args[x], a);
    }
  }

  // ----- Nothing moves -----

  /** With steady conjuncts, the output holds the conjuncts themselves. */
  ghost predicate Picks(u: Term, t: Term) {
    && FromConjuncts(u, t) && |t.args| == |u.args|
    && forall m {:trigger At(t.args, m)} :: 1 <= m < |t.args| ==> t.args[m] == u.args[At(t.args, m) - 1]
  }

  ghost predicate SteadyBelow(S: set<Term>) { Backed(S) && forall a :: a in Children(S) ==> SteadyTerm(a) }

  lemma SourcePicks(S: set<Term>, t: Term)
    requires SteadyBelow(S) && t in S && t.Apply? && t.op.And?
    ensures Picks(Source(S, t), t) && Source(S, t).args[0] == t.args[0]
  {
    var u := Source(S, t);
    Trace(u, t);
    SameLength(S, u, t);
    forall j | 0 <= j < |u.args| ensures SteadyTerm(u.args[j]) { assert u.args[j] in Children(S); }
    PicksItself(u.args[0], t.args[0]);
    forall m | 1 <= m < |t.args| ensures t.args[m] == u.args[At(t.args, m) - 1] {
      PickedAt(u, t, m);
    }
  }

  lemma PicksItself(a: Term, b: Term)
    requires SteadyTerm(a) && Makes(a, b)
    ensures a == b
  {
    SteadyMakesItself(a);
    MakesOne(a, a, b);
  }

  lemma PickedAt(u: Term, t: Term, m: nat)
    requires FromConjuncts(u, t) && 1 <= m < |t.args| && forall j :: 0 <= j < |u.args| ==> SteadyTerm(u.args[j])
    ensures At(t.args, m) <= |u.args| && t.args[m] == u.args[At(t.args, m) - 1]
  {
    PicksItself(u.args[At(t.args, m) - 1], t.args[m]);
  }

  /** The last `r` conjuncts of `t` were taken where they stand. */
  ghost predicate LastStay(t: Term, r: nat)
    requires t.Apply?
  {
    forall m {:trigger At(t.args, m)} :: 1 <= m < |t.args| && m >= |t.args| - r ==> At(t.args, m) == m + 1
  }

  /** Of two walks that take the same conjunct, the second where it stands at `m0`. */
  lemma NextAfter(a: seq<Term>, b: seq<Term>, m0: nat, m: nat)
    requires 1 <= m0 < |a| && 1 <= m < |b| && b[m] == a[m0] && At(b, m) == m0 + 1
    ensures At(b, m + 1) == if Left(a[m0]) == 0 then m0 + 2 else At(a, m0 + 1)
  {
  }

  /** If this is so of a conjunction and of the one it was made from, it is so of one conjunct
      more: what was taken just before the last `r` stood just before them. */
  lemma OneMoreStays(u: Term, t: Term, t': Term, r: nat)
    requires Makes(u, t) && Picks(u, t) && Makes(t, t') && Picks(t, t') && LastStay(t, r) && LastStay(t', r)
    ensures LastStay(t', r + 1)
  {
    var n := |t'.args|;
    var m0 := n - r - 1;
    if m0 >= 1 {
      var m := TakenAt(t, t', m0 + 1);
      NextAfter(t.args, t'.args, m0, m);
      if r == 0 {
        assert At(t'.args, m + 1) > n;
      } else {
        assert At(t'.args, m + 1) == m0 + 2;
        if m < m0 { NeverTwice(t, t', m + 1, m0 + 1); }
      }
      assert m == m0;
    }
  }

  lemma {:induction false} AllStay(S: set<Term>, r: nat)
    requires SteadyBelow(S)
    ensures forall t :: t in S && t.Apply? && t.op.And? ==> LastStay(t, r)
  {
    if r > 0 {
      AllStay(S, r - 1);
      forall t | t in S && t.Apply? && t.op.And? ensures LastStay(t, r) {
        var u := Source(S, t);
        SourcePicks(S, t);
        SourcePicks(S, u);
        OneMoreStays(Source(S, u), u, t, r - 1);
      }
    }
  }

  lemma StayingIsSteady(S: set<Term>, t: Term)
    requires SteadyBelow(S) && t in S && t.Apply? && t.op.And?
    ensures SteadyTerm(t)
  {
    SourcePicks(S, t);
    AllStay(S, |t.args|);
    forall a | a in t.args ensures SteadyTerm(a) {
      var j :| 0 <= j < |t.args| && t.args[j] == a;
      assert t.args[j] in Children(S);
    }
    forall j | 1 <= j < |t.args| ensures Harmless(t.args[j], j, |t.args|) {
      assert At(t.args, j) == j + 1;
      assert At(t.args, j + 1) == Settle(j + 1, Left(t.args[j])) + 1;
    }
  }

  // ----- The theorem -----

  function Depth(t: Term): nat { if t.Apply? then 1 + DepthOf(t.args, |t.args|) else 0 }

  function DepthOf(args: seq<Term>, n: nat): (d: nat)
    requires n <= |args|
    ensures forall j :: 0 <= j < n ==> Depth(args[j]) <= d
    decreases args, n
  {
    if n == 0 then 0 else Max(Depth(args[n - 1]), DepthOf(args, n - 1))
  }

  /** Terms that make each other are all steady. */
  lemma {:induction false} BackedIsSteady(S: set<Term>, d: nat)
    requires Backed(S) && forall t :: t in S ==> Depth(t) <= d
    ensures forall t :: t in S ==> SteadyTerm(t)
    decreases d
  {
    if d > 0 {
      ChildrenBacked(S);
      forall a | a in Children(S) ensures Depth(a) <= d - 1 {
        var t, j :| t in S && t.Apply? && 0 <= j < |t.args| && t.args[j] == a;
      }
      BackedIsSteady(Children(S), d - 1);
      forall t | t in S ensures SteadyTerm(t) {
        if t.Apply? && t.op.And? {
          StayingIsSteady(S, t);
        } else if t.Apply? {
          Trace(Source(S, t), t);
          forall a | a in t.args ensures SteadyTerm(a) {
            var j :| 0 <= j < |t.args| && t.args[j] == a;
            assert t.args[j] in Children(S);
          }
        }
      }
    }
  }

  /** A term is rendered as it stands iff it is steady. */
  lemma MakesItselfIff(t: Term)
    ensures Makes(t, t) <==> SteadyTerm(t)
  {
    if SteadyTerm(t) { SteadyMakesItself(t); }
    if Makes(t, t) {
      assert HasSource({t}, t);
      assert Backed({t});
      BackedIsSteady({t}, Depth(t));
    }
  }

  /** ts returns what the pattern says, names filled in, iff the pattern is steady; of any other
      pattern it throws, or never returns, or returns something else. */
  lemma RendersIffSteady(t: Pattern, p: seq<string>, i: seq<string>, k: int)
    ensures Steady(t) <==> Ts(t, p, i, k, Cost(t)).Done? && Ts(t, p, i, k, Cost(t)).term == Inst(t, p, i)
    ensures !Steady(t) ==>
              forall fuel: nat :: !Ts(t, p, i, k, fuel).Done? || Ts(t, p, i, k, fuel).term != Inst(t, p, i)
  {
    var u := Inst(t, p, i);
    SteadyWithNames(t, p, i);
    MakesItselfIff(u);
    if Steady(t) {
      TsClean(t, p, i, k, Cost(t));
    } else {
      forall fuel: nat ensures !Ts(t, p, i, k, fuel).Done? || Ts(t, p, i, k, fuel).term != u {
        TsIsRend(t, p, i, k, fuel);
        assert Rend(u, fuel).Gives? && Rend(u, fuel).term == u ==> Makes(u, u);
      }
    }
  }
}
