/** ExprUtil.Substitute of sources/Boogie/Source/AIFramework/Expr.cs: substitution in a lambda
    language, without renaming. */
module Substitution {

  /** Variables, applications f(e1, ..., en), lambda expressions, unknowns. */
  datatype Expr = Var(name: string) | App(symbol: string, args: seq<Expr>) | Lam(param: string, body: Expr) | Unknown

  function FreeVars(e: Expr): set<string> {
    match e
    case Var(y) => {y}
    case App(_, args) => set a, y | a in args && y in FreeVars(a) :: y
    case Lam(y, b) => FreeVars(b) - {y}
    case Unknown => {}
  }

  /** `e` with `x` replaced by `s`; a lambda whose parameter is `x` is left alone, and no
      parameter is ever renamed. */
  function Subst(s: Expr, x: string, e: Expr): Expr {
    match e
    case Var(y) => if y == x then s else e
    case App(f, args) => App(f, seq(|args|, j requires 0 <= j < |args| => Subst(s, x, args[j])))
    case Lam(y, b) => if y == x then e else Lam(y, Subst(s, x, b))
    case Unknown => e
  }

  /** Substitute, with the loop that fills the new argument list. */
  method Substitute(subst: Expr, v: string, inexpr: Expr) returns (result: Expr)
    ensures result == Subst(subst, v, inexpr)
    decreases inexpr
  {
    match inexpr
    case Var(y) =>
      result := if y == v then subst else inexpr;
    case App(f, args) =>
      var newargs: seq<Expr> := [];
      for j := 0 to |args|
        invariant |newargs| == j
        invariant forall m :: 0 <= m < j ==> newargs[m] == Subst(subst, v, args[m])
      {
        var a := Substitute(subst, v, args[j]);
        newargs := newargs + [a];
      }
      result := App(f, newargs);
      assert newargs == Subst(subst, v, inexpr).args;
    case Lam(y, b) =>
      if y == v {
        result := inexpr;
      } else {
        var b' := Substitute(subst, v, b);
        result := Lam(y, b');
      }
    case Unknown =>
      result := inexpr;
  }

  // ----- The nameless form -----

  /** Bound variables are counted from the inside out, free ones keep their names. */
  datatype Nameless = Free(name: string) | Bound(index: nat) | NApp(symbol: string, args: seq<Nameless>)
                    | NLam(body: Nameless) | NUnknown

  function IndexOf(env: seq<string>, y: string): (n: nat)
    ensures n <= |env| && (n < |env| <==> y in env)
    ensures n < |env| ==> env[n] == y
    ensures forall m :: 0 <= m < n ==> env[m] != y
  {
    if env == [] then 0 else if env[0] == y then 0 else 1 + IndexOf(env[1..], y)
  }

  /** `env` lists the parameters of the enclosing lambdas, innermost first. */
  function NamelessUnder(e: Expr, env: seq<string>): Nameless {
    match e
    case Var(y) => if y in env then Bound(IndexOf(env, y)) else Free(y)
    case App(f, args) => NApp(f, seq(|args|, j requires 0 <= j < |args| => NamelessUnder(args[j], env)))
    case Lam(y, b) => NLam(NamelessUnder(b, [y] + env))
    case Unknown => NUnknown
  }

  function ToNameless(e: Expr): Nameless { NamelessUnder(e, []) }

  /** Substitution for a free name; nothing can be captured here. */
  function Replace(s: Nameless, x: string, d: Nameless): Nameless {
    match d
    case Free(y) => if y == x then s else d
    case Bound(_) => d
    case NApp(f, args) => NApp(f, seq(|args|, j requires 0 <= j < |args| => Replace(s, x, args[j])))
    case NLam(b) => NLam(Replace(s, x, b))
    case NUnknown => d
  }

  // ----- Capture -----

  /** Some free occurrence of `x` stands under a lambda that binds a free variable of `s`. */
  predicate Captures(s: Expr, x: string, e: Expr) {
    match e
    case Var(_) => false
    case App(_, args) => exists a <- args :: Captures(s, x, a)
    case Lam(y, b) => y != x && x in FreeVars(b) && (y in FreeVars(s) || Captures(s, x, b))
    case Unknown => false
  }

  function Names(env: seq<string>): set<string> { set y <- env }

  lemma FreeInApp(args: seq<Expr>, f: string, j: nat)
    requires j < |args|
    ensures FreeVars(args[j]) <= FreeVars(App(f, args))
  {
    assert args[j] in args;
  }

  lemma DropBinder(f: set<string>, o: set<string>, i: set<string>, y: string)
    ensures (f - {y}) * o <= i <==> f * o <= {y} + i
  {
    if f * o <= {y} + i {
      forall z | z in (f - {y}) * o ensures z in i { assert z in f * o; }
    }
    if (f - {y}) * o <= i {
      forall z | z in f * o ensures z in {y} + i { assert z == y || z in (f - {y}) * o; }
    }
  }

  lemma EmptyMeet(a: set<string>, b: set<string>)
    ensures a * b <= {} <==> a !! b
  {
    if a * b <= {} {
      forall z | z in a ensures z !in b {
        assert z in b ==> z in a * b;
      }
    }
  }

  lemma NamesCons(y: string, env: seq<string>)
    ensures Names([y] + env) == {y} + Names(env)
  {
    assert forall z :: z in [y] + env <==> z == y || z in env;
  }

  /** Further out binders matter exactly when they bind a variable still free. */
  lemma {:induction false} OuterBinders(s: Expr, inner: seq<string>, outer: seq<string>)
    ensures NamelessUnder(s, inner + outer) == NamelessUnder(s, inner) <==>
            FreeVars(s) * Names(outer) <= Names(inner)
    decreases s
  {
    match s
    case Var(y) =>
      OuterVariable(y, inner, outer);
    case App(f, args) =>
      OuterArguments(f, args, inner, outer, s);
    case Lam(y, b) =>
      OuterBinders(b, [y] + inner, outer);
      assert [y] + (inner + outer) == [y] + inner + outer;
      NamesCons(y, inner);
      DropBinder(FreeVars(b), Names(outer), Names(inner), y);
    case Unknown =>
  }

  lemma OuterVariable(y: string, inner: seq<string>, outer: seq<string>)
    ensures NamelessUnder(Var(y), inner + outer) == NamelessUnder(Var(y), inner) <==> (y in outer ==> y in inner)
    ensures {y} * Names(outer) <= Names(inner) <==> (y in outer ==> y in inner)
  {
    if y in inner {
      var n := IndexOf(inner, y);
      assert (inner + outer)[n] == y && forall m :: 0 <= m < n ==> (inner + outer)[m] != y;
      assert IndexOf(inner + outer, y) == n;
    }
    assert y in {y} * Names(outer) <==> y in outer;
  }

  lemma {:induction false} OuterArguments(f: string, args: seq<Expr>, inner: seq<string>, outer: seq<string>, s: Expr)
    requires s == App(f, args)
    ensures NamelessUnder(s, inner + outer) == NamelessUnder(s, inner) <==>
            FreeVars(s) * Names(outer) <= Names(inner)
    decreases s, 0
  {
    var (a, b) := (NamelessUnder(s, inner + outer).args, NamelessUnder(s, inner).args);
    forall j | 0 <= j < |args|
      ensures a[j] == b[j] <==> FreeVars(args[j]) * Names(outer) <= Names(inner)
    {
      OuterBinders(args[j], inner, outer);
    }
    if FreeVars(s) * Names(outer) <= Names(inner) {
      forall j | 0 <= j < |args| ensures a[j] == b[j] { FreeInApp(args, f, j); }
      assert a == b;
    }
    if a == b {
      forall y | y in FreeVars(s) * Names(outer) ensures y in Names(inner) {
        var e :| e in args && y in FreeVars(e);
        var j :| 0 <= j < |args| && args[j] == e;
        assert a[j] == b[j];
      }
    }
  }

  /** Where `x` is not free, neither substitution changes anything. */
  lemma {:induction false} NotFreeUnchanged(s: Expr, x: string, e: Expr)
    requires x !in FreeVars(e)
    ensures Subst(s, x, e) == e
  {
    match e
    case Var(_) =>
    case App(f, args) =>
      var r := Subst(s, x, e).args;
      forall j | 0 <= j < |args| ensures r[j] == args[j] {
        FreeInApp(args, f, j);
        NotFreeUnchanged(s, x, args[j]);
      }
      assert r == args;
    case Lam(y, b) =>
      if y != x { NotFreeUnchanged(s, x, b); }
    case Unknown =>
  }

  lemma {:induction false} NotFreeNameless(d: Nameless, x: string, e: Expr, env: seq<string>)
    requires x !in FreeVars(e) || x in env
    ensures Replace(d, x, NamelessUnder(e, env)) == NamelessUnder(e, env)
    decreases e
  {
    match e
    case Var(_) =>
    case App(f, args) =>
      var n := NamelessUnder(e, env).args;
      var r := Replace(d, x, NamelessUnder(e, env)).args;
      forall j | 0 <= j < |args| ensures r[j] == n[j] {
        FreeInApp(args, f, j);
        NotFreeNameless(d, x, args[j], env);
      }
      assert r == n;
    case Lam(y, b) =>
      NotFreeNameless(d, x, b, [y] + env);
    case Unknown =>
  }

  /** Substitution under binders `env`: it agrees with the nameless one iff neither those
      binders nor any on the way to a free `x` bind a free variable of `s`. */
  lemma {:induction false} AgreesUnder(s: Expr, x: string, e: Expr, env: seq<string>)
    requires x !in env && x in FreeVars(e)
    ensures NamelessUnder(Subst(s, x, e), env) == Replace(ToNameless(s), x, NamelessUnder(e, env)) <==>
            FreeVars(s) !! Names(env) && !Captures(s, x, e)
    decreases e
  {
    match e
    case Var(_) =>
      OuterBinders(s, [], env);
      assert [] + env == env && Names([]) == {};
      EmptyMeet(FreeVars(s), Names(env));
    case App(f, args) =>
      AgreesInArguments(s, x, f, args, env, e);
    case Lam(y, b) =>
      AgreesUnder(s, x, b, [y] + env);
      NamesCons(y, env);
  }

  lemma {:induction false} AgreesInArguments(s: Expr, x: string, f: string, args: seq<Expr>, env: seq<string>, e: Expr)
    requires e == App(f, args) && x !in env && x in FreeVars(e)
    ensures NamelessUnder(Subst(s, x, e), env) == Replace(ToNameless(s), x, NamelessUnder(e, env)) <==>
            FreeVars(s) !! Names(env) && !Captures(s, x, e)
    decreases e, 0
  {
    var l := NamelessUnder(Subst(s, x, e), env).args;
    var r := Replace(ToNameless(s), x, NamelessUnder(e, env)).args;
    forall j | 0 <= j < |args|
      ensures l[j] == r[j] <==> x !in FreeVars(args[j]) || (FreeVars(s) !! Names(env) && !Captures(s, x, args[j]))
    {
      if x in FreeVars(args[j]) {
        AgreesUnder(s, x, args[j], env);
      } else {
        NotFreeUnchanged(s, x, args[j]);
        NotFreeNameless(ToNameless(s), x, args[j], env);
      }
    }
    if FreeVars(s) !! Names(env) && !Captures(s, x, e) {
      forall j | 0 <= j < |args| ensures l[j] == r[j] { assert args[j] in args; }
      assert l == r;
    }
    if l == r {
      var a :| a in args && x in FreeVars(a);
      var j :| 0 <= j < |args| && args[j] == a;
      assert l[j] == r[j];
      forall c | c in args ensures !Captures(s, x, c) {
        var m :| 0 <= m < |args| && args[m] == c;
        assert l[m] == r[m];
        if x !in FreeVars(c) { NoCaptureWhereNotFree(s, x, c); }
      }
    }
  }

  lemma {:induction false} NoCaptureWhereNotFree(s: Expr, x: string, e: Expr)
    requires x !in FreeVars(e)
    ensures !Captures(s, x, e)
  {
    match e
    case App(f, args) =>
      forall a | a in args ensures !Captures(s, x, a) {
        var j :| 0 <= j < |args| && args[j] == a;
        FreeInApp(args, f, j);
        NoCaptureWhereNotFree(s, x, a);
      }
    case _ =>
  }

  /** Substitute is capture-avoiding substitution exactly when nothing is captured. */
  lemma SubstituteCorrectIff(s: Expr, x: string, e: Expr)
    ensures ToNameless(Subst(s, x, e)) == Replace(ToNameless(s), x, ToNameless(e)) <==> !Captures(s, x, e)
  {
    if x in FreeVars(e) {
      AgreesUnder(s, x, e, []);
    } else {
      NotFreeUnchanged(s, x, e);
      NotFreeNameless(ToNameless(s), x, e, []);
      NoCaptureWhereNotFree(s, x, e);
    }
  }

  // ----- A condition a caller can check -----

  /** The parameters of all lambdas in `e`. */
  function Params(e: Expr): set<string> {
    match e
    case Var(_) => {}
    case App(_, args) => set a, y | a in args && y in Params(a) :: y
    case Lam(y, b) => {y} + Params(b)
    case Unknown => {}
  }

  /** No parameter of `e` free in `s`: then nothing is captured. */
  lemma {:induction false} ApartNoCapture(s: Expr, x: string, e: Expr)
    requires Params(e) !! FreeVars(s)
    ensures !Captures(s, x, e)
  {
    match e
    case App(f, args) =>
      forall a | a in args ensures !Captures(s, x, a) {
        assert Params(a) <= Params(e);
        ApartNoCapture(s, x, a);
      }
    case Lam(y, b) => ApartNoCapture(s, x, b);
    case _ =>
  }

  /** Without capture the free variables are those of `e` but for `x`, and those of `s`. */
  lemma {:induction false} FreeVarsOfSubst(s: Expr, x: string, e: Expr)
    requires x in FreeVars(e) && !Captures(s, x, e)
    ensures FreeVars(Subst(s, x, e)) == FreeVars(e) - {x} + FreeVars(s)
    decreases e
  {
    match e
    case Var(_) =>
    case App(f, args) => FreeVarsInArguments(s, x, f, args, e);
    case Lam(y, b) => FreeVarsOfSubst(s, x, b);
  }

  lemma {:induction false} FreeVarsInArguments(s: Expr, x: string, f: string, args: seq<Expr>, e: Expr)
    requires e == App(f, args) && x in FreeVars(e) && !Captures(s, x, e)
    ensures FreeVars(Subst(s, x, e)) == FreeVars(e) - {x} + FreeVars(s)
    decreases e, 0
  {
    var r := Subst(s, x, e).args;
    forall j | 0 <= j < |args|
      ensures FreeVars(r[j]) == FreeVars(args[j]) - {x} + (if x in FreeVars(args[j]) then FreeVars(s) else {})
    {
      assert args[j] in args;
      if x in FreeVars(args[j]) { FreeVarsOfSubst(s, x, args[j]); } else { NotFreeUnchanged(s, x, args[j]); }
    }
    forall y ensures y in FreeVars(Subst(s, x, e)) <==> y in FreeVars(e) - {x} + FreeVars(s) {
      if y in FreeVars(Subst(s, x, e)) {
        var j := FreeInSome(f, r, y);
        assert args[j] in args;
      }
      if y in FreeVars(e) - {x} {
        var j := FreeInSome(f, args, y);
        FreeInApp(r, f, j);
      }
      if y in FreeVars(s) {
        var j := FreeInSome(f, args, x);
        FreeInApp(r, f, j);
      }
    }
  }

  lemma FreeInSome(f: string, args: seq<Expr>, y: string) returns (j: nat)
    requires y in FreeVars(App(f, args))
    ensures j < |args| && y in FreeVars(args[j])
  {
    var a :| a in args && y in FreeVars(a);
    j :| 0 <= j < |args| && args[j] == a;
  }

  /** The failing case at its smallest: \y.x with x := y becomes \y.y. */
  lemma CaptureExample()
    ensures Subst(Var("y"), "x", Lam("y", Var("x"))) == Lam("y", Var("y"))
    ensures ToNameless(Lam("y", Var("y"))) == NLam(Bound(0))
    ensures Replace(ToNameless(Var("y")), "x", ToNameless(Lam("y", Var("x")))) == NLam(Free("y"))
    ensures Captures(Var("y"), "x", Lam("y", Var("x")))
  {
    assert ["y"] + [] == ["y"];
    assert "x"[0] != "y"[0];
    assert IndexOf(["y"], "y") == 0;
  }
}
