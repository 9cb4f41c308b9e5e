/** The renderer `ts` of heaps/pred-gen-list.js.

    Its case 'and' counts the conjuncts with a variable `k` that is not declared in the
    function, hence global: a conjunct that itself contains an 'and' moves the counter of the
    enclosing loop.  The model threads `k` through every call.  The loop may then repeat or
    skip conjuncts, and may run forever; `fuel` bounds the iterations one follows. */
module Rendering {
  import opened Candidates
  import opened Ints

  // ----- ts -----

  /** `Thrown`: an unknown operator, a missing operand, or a conjunction of fewer than two
      conjuncts was met. */
  datatype Outcome = OutOfFuel | Thrown | Done(term: Term, k: int)

  function Width(t: Pattern): nat {
    match t
    case Slot(_) => 0
    case App(op, args) => Reads(op, |args|) + 1
  }

  function Ts(t: Pattern, p: seq<string>, i: seq<string>, k: int, fuel: nat): (r: Outcome)
    ensures r.Done? ==> r.k == k || r.k >= 3
    decreases fuel, t, Width(t)
  {
    match t
    case Slot(n) => Done(Leaf(n, p, i), k)
    case App(Unknown(_), _) => Thrown
    case App(And, args) =>
      if |args| < 2 then Thrown
      else
        var first := Ts(args[0], p, i, k, fuel);
        if !first.Done? then first else Loop(t, p, i, 2, [first.term], fuel)
    case App(_, _) => Operands(t, p, i, k, 0, [], fuel)
  }

  /** The operands another case reads, from the `n`th on. */
  function Operands(t: Pattern, p: seq<string>, i: seq<string>, k: int, n: nat, acc: seq<Term>, fuel: nat): (r: Outcome)
    requires t.App? && n <= Reads(t.op, |t.args|)
    ensures r.Done? ==> r.k == k || r.k >= 3
    decreases fuel, t, Reads(t.op, |t.args|) - n
  {
    if n == Reads(t.op, |t.args|) then Done(Apply(t.op, acc), k)
    else if n >= |t.args| then Thrown
    else
      var r := Ts(t.args[n], p, i, k, fuel);
      if !r.Done? then r else Operands(t, p, i, r.k, n + 1, acc + [r.term], fuel)
  }

  /** `for (k = 2; k < t.length; k++)`, entered with the counter at `k`; t[k] is args[k-1]. */
  function Loop(t: Pattern, p: seq<string>, i: seq<string>, k: int, acc: seq<Term>, fuel: nat): (r: Outcome)
    requires t.App? && t.op.And? && |t.args| >= 2 && k >= 2
    ensures r.Done? ==> r.k >= 3
    decreases fuel, t, 0
  {
    if k > |t.args| then Done(Apply(And, acc), k)
    else if fuel == 0 then OutOfFuel
    else
      var r := Ts(t.args[k - 1], p, i, k, fuel - 1);
      if !r.Done? then r else Loop(t, p, i, r.k + 1, acc + [r.term], fuel - 1)
  }

  // ----- What an operator shows -----

  /** Some call on `a` returned `x`. */
  ghost predicate Returns(a: Pattern, p: seq<string>, i: seq<string>, x: Term) {
    exists k: int, fuel: nat :: Ts(a, p, i, k, fuel).Done? && Ts(a, p, i, k, fuel).term == x
  }

  /** The operands an operator's output shows: one, two, or two if there are two. */
  ghost predicate ShowsOperands(op: Op, args: seq<Pattern>, p: seq<string>, i: seq<string>, t: Term) {
    && t.Apply? && t.op == op && |t.args| <= |args|
    && (match op
        case One(_) => |t.args| == 1
        case Two(_) => |t.args| == 2
        case OneOrTwo(_) => |t.args| == if |args| >= 2 then 2 else 1
        case And => |args| >= 2
        case Unknown(_) => false)
    && forall j :: 0 <= j < |t.args| ==> Returns(args[j], p, i, t.args[j])
  }

  /** Whatever an operator other than 'and' returns has its operands, each as its own call
      returns it; an unknown operator, or one with operands missing, returns nothing. */
  lemma TsShows(op: Op, args: seq<Pattern>, p: seq<string>, i: seq<string>, k: int, fuel: nat)
    requires !op.And? && Ts(App(op, args), p, i, k, fuel).Done?
    ensures ShowsOperands(op, args, p, i, Ts(App(op, args), p, i, k, fuel).term)
  {
    OperandsShow(App(op, args), p, i, k, 0, [], fuel);
  }

  lemma {:induction false} OperandsShow(t: Pattern, p: seq<string>, i: seq<string>, k: int, n: nat, acc: seq<Term>, fuel: nat)
    requires t.App? && n == |acc| <= Reads(t.op, |t.args|) && n <= |t.args|
    requires Operands(t, p, i, k, n, acc, fuel).Done?
    requires forall j :: 0 <= j < n ==> Returns(t.args[j], p, i, acc[j])
    ensures var x := Operands(t, p, i, k, n, acc, fuel).term;
            && x.Apply? && x.op == t.op && |x.args| == Reads(t.op, |t.args|) <= |t.args|
            && forall j :: 0 <= j < |x.args| ==> Returns(t.args[j], p, i, x.args[j])
    decreases Reads(t.op, |t.args|) - n
  {
    if n < Reads(t.op, |t.args|) {
      var r := Ts(t.args[n], p, i, k, fuel);
      assert Returns(t.args[n], p, i, r.term);
      OperandsShow(t, p, i, r.k, n + 1, acc + [r.term], fuel);
    }
  }

  /** What an 'and' returns starts with its first conjunct, and every other conjunct of it is
      what one of the others returns. */
  lemma TsShowsConjuncts(args: seq<Pattern>, p: seq<string>, i: seq<string>, k: int, fuel: nat)
    requires Ts(App(And, args), p, i, k, fuel).Done?
    ensures var t := Ts(App(And, args), p, i, k, fuel).term;
            && |args| >= 2 && t.Apply? && t.op == And && |t.args| >= 2
            && Returns(args[0], p, i, t.args[0])
            && forall j :: 1 <= j < |t.args| ==> OneReturns(args, p, i, t.args[j])
  {
    var first := Ts(args[0], p, i, k, fuel);
    assert Returns(args[0], p, i, first.term);
    LoopShows(App(And, args), p, i, 2, [first.term], fuel);
  }

  ghost predicate OneReturns(args: seq<Pattern>, p: seq<string>, i: seq<string>, x: Term) {
    exists m :: 1 <= m < |args| && Returns(args[m], p, i, x)
  }

  lemma {:induction false} LoopShows(t: Pattern, p: seq<string>, i: seq<string>, k: int, acc: seq<Term>, fuel: nat)
    requires t.App? && t.op.And? && |t.args| >= 2 && k >= 2 && acc != [] && (k == 2 || |acc| >= 2)
    requires Loop(t, p, i, k, acc, fuel).Done?
    requires forall j :: 1 <= j < |acc| ==> OneReturns(t.args, p, i, acc[j])
    ensures var x := Loop(t, p, i, k, acc, fuel).term;
            && x.Apply? && x.op == And && |x.args| >= 2 && x.args[0] == acc[0]
            && forall j :: 1 <= j < |x.args| ==> OneReturns(t.args, p, i, x.args[j])
    decreases fuel
  {
    if k <= |t.args| {
      var r := Ts(t.args[k - 1], p, i, k, fuel - 1);
      assert Returns(t.args[k - 1], p, i, r.term);
      assert OneReturns(t.args, p, i, r.term);
      LoopShows(t, p, i, r.k + 1, acc + [r.term], fuel - 1);
    }
  }

  // ----- The same on instantiated patterns -----

  /** What rendering a term gives, and what it leaves in the counter; 0 when it leaves the
      counter alone. */
  datatype Yield = NoEnd | Throws | Gives(term: Term, left: nat)

  function TermWidth(t: Term): nat { if t.Apply? then |t.args| + 1 else 0 }

  function Settle(k: int, left: nat): int { if left == 0 then k else left }

  function Rend(t: Term, fuel: nat): (r: Yield)
    decreases fuel, t, TermWidth(t)
  {
    match t
    case Apply(Unknown(_), _) => Throws
    case Apply(And, args) =>
      if |args| < 2 then Throws
      else
        var first := Rend(args[0], fuel);
        if !first.Gives? then first else RendLoop(t, 2, [first.term], fuel)
    case Apply(_, _) => RendOperands(t, 0, [], 0, fuel)
    case _ => Gives(t, 0)
  }

  function RendOperands(t: Term, n: nat, acc: seq<Term>, left: nat, fuel: nat): (r: Yield)
    requires t.Apply? && n <= |t.args|
    decreases fuel, t, |t.args| - n
  {
    if n == |t.args| then
      if |t.args| >= Reads(t.op, |t.args|) then Gives(Apply(t.op, acc), left) else Throws
    else
      var r := Rend(t.args[n], fuel);
      if !r.Gives? then r
      else RendOperands(t, n + 1, acc + [r.term], Settle(left, r.left), fuel)
  }

  function RendLoop(t: Term, k: nat, acc: seq<Term>, fuel: nat): (r: Yield)
    requires t.Apply? && t.op.And? && |t.args| >= 2 && k >= 2
    ensures r.Gives? ==> r.left > |t.args|
    decreases fuel, t, 0
  {
    if k > |t.args| then Gives(Apply(And, acc), k)
    else if fuel == 0 then NoEnd
    else
      var r := Rend(t.args[k - 1], fuel - 1);
      if !r.Gives? then r else RendLoop(t, Settle(k, r.left) + 1, acc + [r.term], fuel - 1)
  }

  function Lift(r: Yield, k: int): Outcome {
    match r
    case NoEnd => OutOfFuel
    case Throws => Thrown
    case Gives(term, left) => Done(term, Settle(k, left))
  }

  /** ts reads of a pattern what its instantiation keeps. */
  lemma {:induction false} TsIsRend(t: Pattern, p: seq<string>, i: seq<string>, k: int, fuel: nat)
    ensures Ts(t, p, i, k, fuel) == Lift(Rend(Inst(t, p, i), fuel), k)
    decreases fuel, t, Width(t)
  {
    match t
    case Slot(n) =>
    case App(Unknown(_), _) =>
    case App(And, args) =>
      if |args| >= 2 {
        TsIsRend(args[0], p, i, k, fuel);
        var u := Inst(t, p, i);
        var first := Rend(u.args[0], fuel);
        if first.Gives? { LoopIsRend(t, p, i, u, 2, [first.term], fuel, k); }
      }
    case App(_, _) => OperandsAreRend(t, p, i, k, 0, [], 0, fuel);
  }

  lemma {:induction false} OperandsAreRend(t: Pattern, p: seq<string>, i: seq<string>, k: int, n: nat, acc: seq<Term>, left: nat, fuel: nat)
    requires t.App? && !t.op.And? && !t.op.Unknown? && n <= |Read(t)|
    ensures Operands(t, p, i, Settle(k, left), n, acc, fuel) == Lift(RendOperands(Inst(t, p, i), n, acc, left, fuel), k)
    decreases fuel, t, Reads(t.op, |t.args|) - n
  {
    if n < |Read(t)| {
      TsIsRend(t.args[n], p, i, Settle(k, left), fuel);
      var r := Rend(Inst(t, p, i).args[n], fuel);
      assert Read(t)[n] == t.args[n];
      if r.Gives? { OperandsAreRend(t, p, i, k, n + 1, acc + [r.term], Settle(left, r.left), fuel); }
    }
  }

  lemma {:induction false} LoopIsRend(t: Pattern, p: seq<string>, i: seq<string>, u: Term, k: nat, acc: seq<Term>, fuel: nat, k0: int)
    requires t.App? && t.op.And? && |t.args| >= 2 && k >= 2 && u == Inst(t, p, i)
    ensures Loop(t, p, i, k, acc, fuel) == Lift(RendLoop(u, k, acc, fuel), k0)
    decreases fuel, t, 0
  {
    if k > |t.args| || fuel == 0 {
      LoopEndIsRend(t, p, i, u, k, acc, fuel, k0);
    } else {
      var r := ConjunctIsRend(t, p, i, u, k, fuel);
      LoopStepIsRend(t, p, i, u, k, acc, fuel, r);
      if r.Gives? { LoopIsRend(t, p, i, u, Settle(k, r.left) + 1, acc + [r.term], fuel - 1, k0); }
    }
  }

  lemma LoopEndIsRend(t: Pattern, p: seq<string>, i: seq<string>, u: Term, k: nat, acc: seq<Term>, fuel: nat, k0: int)
    requires t.App? && t.op.And? && |t.args| >= 2 && k >= 2 && (k > |t.args| || fuel == 0)
    requires u.Apply? && u.op.And? && |u.args| == |t.args|
    ensures Loop(t, p, i, k, acc, fuel) == Lift(RendLoop(u, k, acc, fuel), k0)
  {
  }

  lemma {:induction false} ConjunctIsRend(t: Pattern, p: seq<string>, i: seq<string>, u: Term, k: nat, fuel: nat) returns (r: Yield)
    requires t.App? && t.op.And? && 2 <= k <= |t.args| && u == Inst(t, p, i) && fuel > 0
    ensures r == Rend(u.args[k - 1], fuel - 1) && Ts(t.args[k - 1], p, i, k, fuel - 1) == Lift(r, k)
    decreases fuel, t, 0, 0
  {
    TsIsRend(t.args[k - 1], p, i, k, fuel - 1);
    assert Read(t)[k - 1] == t.args[k - 1];
    r := Rend(u.args[k - 1], fuel - 1);
  }

  /** One turn of both loops. */
  lemma LoopStepIsRend(t: Pattern, p: seq<string>, i: seq<string>, u: Term, k: nat, acc: seq<Term>, fuel: nat, r: Yield)
    requires t.App? && t.op.And? && 2 <= k <= |t.args| && fuel > 0
    requires u.Apply? && u.op.And? && |u.args| == |t.args|
    requires r == Rend(u.args[k - 1], fuel - 1) && Ts(t.args[k - 1], p, i, k, fuel - 1) == Lift(r, k)
    ensures if r.Gives? then
              && Loop(t, p, i, k, acc, fuel) == Loop(t, p, i, Settle(k, r.left) + 1, acc + [r.term], fuel - 1)
              && RendLoop(u, k, acc, fuel) == RendLoop(u, Settle(k, r.left) + 1, acc + [r.term], fuel - 1)
            else Loop(t, p, i, k, acc, fuel) == Lift(r, 0) && RendLoop(u, k, acc, fuel) == r
  {
  }

  // ----- The counter, read off the output -----

  /** What a rendering that gave `t` left in the counter. */
  function Left(t: Term): nat {
    match t
    case Apply(op, args) => if op.And? && args != [] then At(args, |args|) else LastLeft(args, |args|)
    case _ => 0
  }

  function LastLeft(args: seq<Term>, n: nat): nat
    requires n <= |args|
    decreases args, n
  {
    if n == 0 then 0 else Settle(LastLeft(args, n - 1), Left(args[n - 1]))
  }

  /** The counter when the loop that put out `args` had put out `m` of them. */
  function At(args: seq<Term>, m: nat): (k: nat)
    requires 1 <= m <= |args|
    ensures k >= 2
    decreases args, m
  {
    if m == 1 then 2 else Settle(At(args, m - 1), Left(args[m - 1])) + 1
  }

  lemma {:induction false} PrefixCounts(a: seq<Term>, b: seq<Term>, m: nat)
    requires m <= |a| && a <= b
    ensures LastLeft(b, m) == LastLeft(a, m)
    ensures m >= 1 ==> At(b, m) == At(a, m)
    decreases m
  {
    if m > 0 {
      assert b[m - 1] == a[m - 1];
      PrefixCounts(a, b, m - 1);
    }
  }

  lemma {:induction false} LeftOfOutput(t: Term, fuel: nat)
    ensures Rend(t, fuel).Gives? ==> Rend(t, fuel).left == Left(Rend(t, fuel).term)
    decreases fuel, t, TermWidth(t)
  {
    match t
    case Apply(Unknown(_), _) =>
    case Apply(And, args) =>
      if |args| >= 2 && Rend(args[0], fuel).Gives? { LeftOfLoop(t, 2, [Rend(args[0], fuel).term], fuel); }
    case Apply(_, _) => LeftOfOperands(t, 0, [], 0, fuel);
    case _ =>
  }

  lemma {:induction false} LeftOfOperands(t: Term, n: nat, acc: seq<Term>, left: nat, fuel: nat)
    requires t.Apply? && !t.op.And? && n <= |t.args| && left == LastLeft(acc, |acc|)
    ensures var r := RendOperands(t, n, acc, left, fuel); r.Gives? ==> r.left == Left(r.term)
    decreases fuel, t, |t.args| - n
  {
    if n < |t.args| {
      var r := Rend(t.args[n], fuel);
      LeftOfOutput(t.args[n], fuel);
      if r.Gives? {
        PrefixCounts(acc, acc + [r.term], |acc|);
        LeftOfOperands(t, n + 1, acc + [r.term], Settle(left, r.left), fuel);
      }
    }
  }

  lemma {:induction false} LeftOfLoop(t: Term, k: nat, acc: seq<Term>, fuel: nat)
    requires t.Apply? && t.op.And? && |t.args| >= 2 && acc != [] && k == At(acc, |acc|)
    ensures var r := RendLoop(t, k, acc, fuel); r.Gives? ==> r.left == Left(r.term)
    decreases fuel, t, 0
  {
    if k <= |t.args| && fuel > 0 {
      var r := Rend(t.args[k - 1], fuel - 1);
      LeftOfOutput(t.args[k - 1], fuel - 1);
      if r.Gives? {
        PrefixCounts(acc, acc + [r.term], |acc|);
        LeftOfLoop(t, Settle(k, r.left) + 1, acc + [r.term], fuel - 1);
      }
    }
  }

  // ----- When the counter is safe -----

  /** The conjunct at counter `k` of `n` left `k'`: the next one is k+1, or there is none. */
  predicate OnCourse(k': int, k: int, n: nat) { k' == k || (k == n && k' > n) }

  /** `a` can stand at position `j` of `n` conjuncts. */
  predicate Harmless(a: Term, j: nat, n: nat) { Left(a) == 0 || OnCourse(Left(a), j + 1, n) }

  /** Every operator is known and has its operands, and in every conjunction each conjunct but
      the first contains no 'and', or leaves the counter at the very value it has there, or is
      the last one and leaves it beyond the end. */
  predicate SteadyTerm(t: Term) {
    match t
    case Apply(op, args) =>
      && (forall a <- args :: SteadyTerm(a))
      && !op.Unknown?
      && |args| >= Reads(op, |args|)
      && (op.And? ==> |args| >= 2 && forall j :: 1 <= j < |args| ==> Harmless(args[j], j, |args|))
    case _ => true
  }

  function TermCost(t: Term): nat { if t.Apply? then |t.args| + MaxCost(t.args, |t.args|) else 0 }

  function MaxCost(args: seq<Term>, n: nat): (c: nat)
    requires n <= |args|
    ensures forall j :: 0 <= j < n ==> TermCost(args[j]) <= c
    decreases args, n
  {
    if n == 0 then 0 else Max(TermCost(args[n - 1]), MaxCost(args, n - 1))
  }

  lemma TakeOneMore<T>(ts: seq<T>, n: nat)
    requires n < |ts|
    ensures ts[..n] + [ts[n]] == ts[..n + 1]
  {
  }

  /** A finished rendering gave the term itself. */
  predicate Clean(r: Yield, t: Term) { r.NoEnd? || (r.Gives? && r.term == t) }

  /** A steady term is rendered as it stands, given enough fuel. */
  lemma {:induction false} RendSteady(t: Term, fuel: nat)
    requires SteadyTerm(t)
    ensures Clean(Rend(t, fuel), t)
    ensures fuel >= TermCost(t) ==> Rend(t, fuel).Gives?
    decreases fuel, t, TermWidth(t)
  {
    match t
    case Apply(Unknown(_), _) =>
    case Apply(And, args) =>
      RendSteady(args[0], fuel);
      assert args[..1] == [args[0]];
      LoopSteady(t, 2, fuel);
    case Apply(_, args) =>
      assert args[..0] == [];
      OperandsSteady(t, 0, 0, fuel);
    case _ =>
  }

  lemma {:induction false} OperandsSteady(t: Term, n: nat, left: nat, fuel: nat)
    requires SteadyTerm(t) && t.Apply? && !t.op.And? && n <= |t.args|
    ensures var r := RendOperands(t, n, t.args[..n], left, fuel);
            Clean(r, t) && (fuel >= TermCost(t) ==> r.Gives?)
    decreases fuel, t, |t.args| - n
  {
    if n == |t.args| {
      assert t.args[..n] == t.args;
    } else {
      RendSteady(t.args[n], fuel);
      TakeOneMore(t.args, n);
      var r := Rend(t.args[n], fuel);
      if r.Gives? { OperandsSteady(t, n + 1, Settle(left, r.left), fuel); }
    }
  }

  lemma {:induction false} LoopSteady(t: Term, k: nat, fuel: nat)
    requires SteadyTerm(t) && t.Apply? && t.op.And? && 2 <= k <= |t.args|
    ensures var r := RendLoop(t, k, t.args[..k - 1], fuel);
            Clean(r, t) && (fuel >= |t.args| + 1 - k + MaxCost(t.args, |t.args|) ==> r.Gives?)
    decreases fuel, t, 0
  {
    if fuel > 0 {
      RendSteady(t.args[k - 1], fuel - 1);
      LeftOfOutput(t.args[k - 1], fuel - 1);
      StepSteady(t, k, fuel);
      if k < |t.args| { LoopSteady(t, k + 1, fuel - 1); }
    }
  }

  /** One turn of the loop over a steady conjunction. */
  lemma StepSteady(t: Term, k: nat, fuel: nat)
    requires SteadyTerm(t) && t.Apply? && t.op.And? && 2 <= k <= |t.args| && fuel > 0
    requires var x := Rend(t.args[k - 1], fuel - 1);
             Clean(x, t.args[k - 1]) && (x.Gives? ==> x.left == Left(t.args[k - 1]))
    ensures var r := RendLoop(t, k, t.args[..k - 1], fuel);
            if Rend(t.args[k - 1], fuel - 1).NoEnd? then r.NoEnd?
            else if k == |t.args| then r.Gives? && r.term == t
            else r == RendLoop(t, k + 1, t.args[..k], fuel - 1)
  {
    assert Harmless(t.args[k - 1], k - 1, |t.args|);
    TakeOneMore(t.args, k - 1);
    assert t.args[..|t.args|] == t.args;
  }

  // ----- A loop without end -----

  /** The conjunct at position `j` is the first that does not stay on course, and it moves the
      counter back. */
  predicate MovesBack(t: Term, j: nat) {
    && t.Apply? && t.op.And? && 1 <= j < |t.args|
    && (forall m :: 0 <= m <= j ==> SteadyTerm(t.args[m]))
    && (forall m :: 1 <= m < j ==> Harmless(t.args[m], m, |t.args|))
    && 0 < Left(t.args[j]) <= j
  }

  lemma {:induction false} LoopsBack(t: Term, j: nat, k: nat, acc: seq<Term>, fuel: nat)
    requires MovesBack(t, j) && 2 <= k <= j + 1
    ensures RendLoop(t, k, acc, fuel).NoEnd?
    decreases fuel
  {
    if fuel > 0 {
      var r := Rend(t.args[k - 1], fuel - 1);
      RendSteady(t.args[k - 1], fuel - 1);
      LeftOfOutput(t.args[k - 1], fuel - 1);
      assert k <= j ==> Harmless(t.args[k - 1], k - 1, |t.args|);
      if r.Gives? { LoopsBack(t, j, Settle(k, r.left) + 1, acc + [r.term], fuel - 1); }
    }
  }

  lemma RendForever(t: Term, j: nat, fuel: nat)
    requires MovesBack(t, j)
    ensures Rend(t, fuel).NoEnd?
  {
    RendSteady(t.args[0], fuel);
    var first := Rend(t.args[0], fuel);
    if first.Gives? { LoopsBack(t, j, 2, [first.term], fuel); }
  }

  // ----- Names do not matter -----

  /** The terms differ at most in their leaves. */
  predicate Alike(t: Term, u: Term) {
    if t.Apply? then
      && u.Apply? && t.op == u.op && |t.args| == |u.args|
      && forall j :: 0 <= j < |t.args| ==> Alike(t.args[j], u.args[j])
    else !u.Apply?
  }

  lemma {:induction false} InstsAlike(t: Pattern, p: seq<string>, i: seq<string>, q: seq<string>, j: seq<string>)
    ensures Alike(Inst(t, p, i), Inst(t, q, j))
  {
    match t
    case Slot(_) =>
    case App(_, args) =>
      var (a, b) := (Inst(t, p, i), Inst(t, q, j));
      forall m | 0 <= m < |a.args| ensures Alike(a.args[m], b.args[m]) { InstsAlike(args[m], p, i, q, j); }
  }

  lemma {:induction false} AlikeCounts(t: Term, u: Term)
    requires Alike(t, u)
    ensures Left(t) == Left(u) && TermCost(t) == TermCost(u)
    decreases t, 1
  {
    if t.Apply? { AlikeArguments(t, t.args, u.args, |t.args|); }
  }

  lemma {:induction false} AlikeArguments(t: Term, a: seq<Term>, b: seq<Term>, n: nat)
    requires t.Apply? && a == t.args && |a| == |b| && n <= |a|
    requires forall j :: 0 <= j < |a| ==> Alike(a[j], b[j])
    ensures LastLeft(a, n) == LastLeft(b, n) && MaxCost(a, n) == MaxCost(b, n)
    ensures n >= 1 ==> At(a, n) == At(b, n)
    decreases t, 0, n
  {
    if n > 0 {
      AlikeCounts(a[n - 1], b[n - 1]);
      AlikeArguments(t, a, b, n - 1);
    }
  }

  lemma {:induction false} AlikeSteady(t: Term, u: Term)
    requires Alike(t, u)
    ensures SteadyTerm(t) <==> SteadyTerm(u)
  {
    if t.Apply? {
      forall j | 0 <= j < |t.args|
        ensures SteadyTerm(t.args[j]) <==> SteadyTerm(u.args[j])
        ensures Left(t.args[j]) == Left(u.args[j])
      {
        AlikeSteady(t.args[j], u.args[j]);
        AlikeCounts(t.args[j], u.args[j]);
      }
      assert (forall a <- t.args :: SteadyTerm(a)) <==> forall j :: 0 <= j < |t.args| ==> SteadyTerm(t.args[j]);
      assert (forall a <- u.args :: SteadyTerm(a)) <==> forall j :: 0 <= j < |u.args| ==> SteadyTerm(u.args[j]);
    }
  }

  // ----- Patterns -----

  /** What ts looks at, names left open. */
  function Skeleton(t: Pattern): Term { Inst(t, [], []) }

  predicate Steady(t: Pattern) { SteadyTerm(Skeleton(t)) }

  function Cost(t: Pattern): nat { TermCost(Skeleton(t)) }

  lemma SteadyWithNames(t: Pattern, p: seq<string>, i: seq<string>)
    ensures Steady(t) <==> SteadyTerm(Inst(t, p, i))
    ensures Cost(t) == TermCost(Inst(t, p, i)) && Left(Skeleton(t)) == Left(Inst(t, p, i))
  {
    InstsAlike(t, [], [], p, i);
    AlikeSteady(Skeleton(t), Inst(t, p, i));
    AlikeCounts(Skeleton(t), Inst(t, p, i));
  }

  /** Of a steady pattern ts returns the instantiation, with the counter where the last
      conjunction left it. */
  lemma TsClean(t: Pattern, p: seq<string>, i: seq<string>, k: int, fuel: nat)
    requires Steady(t)
    ensures var r := Ts(t, p, i, k, fuel);
            r.OutOfFuel? || r == Done(Inst(t, p, i), Settle(k, Left(Skeleton(t))))
    ensures fuel >= Cost(t) ==> Ts(t, p, i, k, fuel).Done?
  {
    SteadyWithNames(t, p, i);
    TsIsRend(t, p, i, k, fuel);
    RendSteady(Inst(t, p, i), fuel);
    LeftOfOutput(Inst(t, p, i), fuel);
  }

  lemma {:induction false} AlikeMovesBack(t: Term, u: Term, j: nat)
    requires Alike(t, u) && MovesBack(t, j)
    ensures MovesBack(u, j)
  {
    forall m | 0 <= m <= j
      ensures SteadyTerm(t.args[m]) <==> SteadyTerm(u.args[m])
      ensures Left(t.args[m]) == Left(u.args[m])
    {
      AlikeSteady(t.args[m], u.args[m]);
      AlikeCounts(t.args[m], u.args[m]);
    }
  }

  /** If the first conjunct off course moves the counter back, ts never returns, whatever
      follows. */
  lemma LoopForever(t: Pattern, j: nat, p: seq<string>, i: seq<string>, k: int, fuel: nat)
    requires MovesBack(Skeleton(t), j)
    ensures Ts(t, p, i, k, fuel).OutOfFuel?
  {
    InstsAlike(t, [], [], p, i);
    AlikeMovesBack(Skeleton(t), Inst(t, p, i), j);
    RendForever(Inst(t, p, i), j, fuel);
    TsIsRend(t, p, i, k, fuel);
  }

  // ----- The built-in tables -----

  predicate Complete(t: Term) {
    t.Apply? ==> !t.op.Unknown? && |t.args| >= Reads(t.op, |t.args|) && (t.op.And? ==> |t.args| >= 2)
  }

  predicate AndFree(t: Term) {
    Complete(t) && (t.Apply? ==> !t.op.And? && forall a <- t.args :: AndFree(a))
  }

  /** No 'and' inside an 'and', as in every pattern of the built-in tables. */
  predicate FlatAnds(t: Term) {
    Complete(t) && (t.Apply? ==> if t.op.And? then forall a <- t.args :: AndFree(a) else forall a <- t.args :: FlatAnds(a))
  }

  lemma {:induction false} AndFreeIsSteady(t: Term)
    requires AndFree(t)
    ensures SteadyTerm(t) && Left(t) == 0
  {
    if t.Apply? {
      forall a | a in t.args ensures SteadyTerm(a) && Left(a) == 0 { AndFreeIsSteady(a); }
      NoneLeft(t.args, |t.args|);
    }
  }

  lemma {:induction false} NoneLeft(args: seq<Term>, n: nat)
    requires n <= |args| && forall a <- args :: Left(a) == 0
    ensures LastLeft(args, n) == 0
    decreases n
  {
    if n > 0 {
      assert args[n - 1] in args;
      NoneLeft(args, n - 1);
    }
  }

  lemma {:induction false} FlatTermIsSteady(t: Term)
    requires FlatAnds(t)
    ensures SteadyTerm(t)
  {
    if t.Apply? {
      if t.op.And? {
        forall a | a in t.args ensures SteadyTerm(a) && Left(a) == 0 { AndFreeIsSteady(a); }
        forall j | 1 <= j < |t.args| ensures Harmless(t.args[j], j, |t.args|) { assert t.args[j] in t.args; }
      } else {
        forall a | a in t.args ensures SteadyTerm(a) { FlatTermIsSteady(a); }
      }
    }
  }

  lemma FlatIsSteady(t: Pattern)
    requires FlatAnds(Skeleton(t))
    ensures Steady(t)
  {
    FlatTermIsSteady(Skeleton(t));
  }

  // ----- Patterns that fail -----

  function Pair(x: int, y: int): Pattern { App(And, [Slot(x), Slot(y)]) }

  lemma PairRendered(x: Term, y: Term, fuel: nat)
    requires !x.Apply? && !y.Apply?
    ensures var t := Apply(And, [x, y]);
            SteadyTerm(t) && Left(t) == 3 && (fuel > 0 ==> Rend(t, fuel) == Gives(t, 3))
  {
    var t := Apply(And, [x, y]);
    assert AndFree(x) && AndFree(y);
    FlatTermIsSteady(t);
    assert At([x, y], 1) == 2;
    RendSteady(t, fuel);
    LeftOfOutput(t, fuel);
    if fuel > 0 {
      assert Rend(t.args[1], fuel - 1) == Gives(y, 0);
      assert RendLoop(t, 3, [x] + [y], fuel - 1).Gives?;
    }
  }

  /** and(0, and(1, 2), 3) */
  function Dropping(): Pattern { App(And, [Slot(0), Pair(1, 2), Slot(3)]) }

  /** A nested conjunction that is not steady loses a conjunct: and(0, and(1, 2), 3) is
      rendered without 3. */
  lemma ConjunctDropped(p: seq<string>, i: seq<string>, k: int, fuel: nat)
    requires fuel >= 2
    ensures !Steady(Dropping())
    ensures Ts(Dropping(), p, i, k, fuel) ==
            Done(Apply(And, [Leaf(0, p, i), Apply(And, [Leaf(1, p, i), Leaf(2, p, i)])]), 4)
    ensures Ts(Dropping(), p, i, k, fuel).term != Inst(Dropping(), p, i)
  {
    var two := Apply(And, [Leaf(1, p, i), Leaf(2, p, i)]);
    DroppingInst(p, i);
    DroppingInst([], []);
    PairRendered(Leaf(1, p, i), Leaf(2, p, i), fuel - 1);
    PairRendered(Leaf(1, [], []), Leaf(2, [], []), fuel - 1);
    assert !Harmless(Skeleton(Dropping()).args[1], 1, 3);
    TsIsRend(Dropping(), p, i, k, fuel);
    var t := Inst(Dropping(), p, i);
    assert [Leaf(0, p, i)] + [two] == [Leaf(0, p, i), two];
    assert RendLoop(t, 4, [Leaf(0, p, i), two], fuel - 1) == Gives(Apply(And, [Leaf(0, p, i), two]), 4);
    assert RendLoop(t, 2, [Leaf(0, p, i)], fuel) == Gives(Apply(And, [Leaf(0, p, i), two]), 4);
  }

  lemma DroppingInst(p: seq<string>, i: seq<string>)
    ensures Inst(Dropping(), p, i) ==
            Apply(And, [Leaf(0, p, i), Apply(And, [Leaf(1, p, i), Leaf(2, p, i)]), Leaf(3, p, i)])
  {
    assert Inst(Pair(1, 2), p, i).args == [Leaf(1, p, i), Leaf(2, p, i)];
    assert Inst(Dropping(), p, i).args == [Leaf(0, p, i), Inst(Pair(1, 2), p, i), Leaf(3, p, i)];
  }

  /** A conjunction in an operand that is not read does no harm. */
  lemma SurplusConjunctionIsSteady()
    ensures Steady(App(And, [Slot(0), App(One(NonNull), [Slot(1), Pair(0, 1)]), Slot(2)]))
  {
    var inner := App(One(NonNull), [Slot(1), Pair(0, 1)]);
    var t := App(And, [Slot(0), inner, Slot(2)]);
    assert Read(inner) == [Slot(1)];
    assert Skeleton(inner).args == [Undefined];
    assert Skeleton(t).args == [Undefined, Skeleton(inner), Undefined];
    assert AndFree(Undefined) && AndFree(Skeleton(inner));
    FlatIsSteady(t);
  }

  /** and(0, 1, 2, and(0, 1)): the fourth conjunct sets the counter back to itself. */
  function Endless(): Pattern { App(And, [Slot(0), Slot(1), Slot(2), Pair(0, 1)]) }

  lemma EndlessRuns(p: seq<string>, i: seq<string>, k: int, fuel: nat)
    ensures Ts(Endless(), p, i, k, fuel).OutOfFuel?
  {
    var two := Inst(Pair(0, 1), [], []);
    assert two.args == [Leaf(0, [], []), Leaf(1, [], [])];
    PairRendered(Leaf(0, [], []), Leaf(1, [], []), fuel);
    var t := Skeleton(Endless());
    assert t.args == [Leaf(0, [], []), Leaf(1, [], []), Leaf(2, [], []), two];
    LoopForever(Endless(), 3, p, i, k, fuel);
  }
}
