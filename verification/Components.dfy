/** The component registry of sources/Z3/scripts/mk_util.py: dependency closure on
    registration, and the link order. */
module Components {
  import opened Sequences

  datatype Component = Component(name: string, deps: seq<string>, id: nat)

  /** The two MKExceptions registration can raise. */
  datatype Error = AlreadyDefined(name: string) | UnknownComponent(dep: string, at: string)

  datatype Result<+T> = Ok(value: T) | Err(error: Error)

  /** The registry as a value.  `declared` keeps the dependencies each component was registered
      with, which the program forgets. */
  datatype State = State(byName: map<string, Component>, declared: map<string, seq<string>>, nextId: nat)

  const Empty := State(map[], map[], 0)

  // ----- find_all_deps -----

  function AddDep(acc: seq<string>, d: string): seq<string> { if d in acc then acc else acc + [d] }

  function AddAll(acc: seq<string>, ds: seq<string>, n: nat): seq<string>
    requires n <= |ds|
  {
    if n == 0 then acc else AddDep(AddAll(acc, ds, n - 1), ds[n - 1])
  }

  /** The list built from the first `n` dependencies, or the error raised on the way. */
  function AllDeps(byName: map<string, Component>, name: string, deps: seq<string>, n: nat): Result<seq<string>>
    requires n <= |deps|
  {
    if n == 0 then Ok([])
    else
      match AllDeps(byName, name, deps, n - 1)
      case Err(e) => Err(e)
      case Ok(acc) =>
        var d := deps[n - 1];
        if d in byName then Ok(AddAll(AddDep(acc, d), byName[d].deps, |byName[d].deps|))
        else Err(UnknownComponent(d, name))
  }

  /** `m` is a dependency listed in `deps[..n]`, or a dependency of one. */
  predicate Within(byName: map<string, Component>, deps: seq<string>, n: nat, m: string)
    requires n <= |deps|
  {
    exists j :: 0 <= j < n && deps[j] in byName && (m == deps[j] || m in byName[deps[j]].deps)
  }

  lemma {:induction false} AddAllAdds(acc: seq<string>, ds: seq<string>, n: nat)
    requires n <= |ds| && Distinct(acc)
    ensures Distinct(AddAll(acc, ds, n))
    ensures forall m :: m in AddAll(acc, ds, n) <==> m in acc || m in ds[..n]
  {
    if n > 0 {
      AddAllAdds(acc, ds, n - 1);
      assert ds[..n] == ds[..n - 1] + [ds[n - 1]];
    }
  }

  /** On success: no duplicates, and exactly the dependencies and their dependencies. */
  lemma {:induction false} AllDepsExact(byName: map<string, Component>, name: string, deps: seq<string>, n: nat)
    requires n <= |deps| && AllDeps(byName, name, deps, n).Ok?
    ensures var r := AllDeps(byName, name, deps, n).value;
            Distinct(r) && forall m :: m in r <==> Within(byName, deps, n, m)
  {
    if n > 0 {
      AllDepsExact(byName, name, deps, n - 1);
      var acc := AllDeps(byName, name, deps, n - 1).value;
      var d := deps[n - 1];
      var ds := byName[d].deps;
      AddAllAdds(AddDep(acc, d), ds, |ds|);
      assert ds[..|ds|] == ds;
      var r := AllDeps(byName, name, deps, n).value;
      forall m ensures m in r <==> Within(byName, deps, n, m) {
        assert m in r <==> m in acc || m == d || m in ds;
        WithinStep(byName, deps, n, m);
      }
    }
  }

  lemma WithinStep(byName: map<string, Component>, deps: seq<string>, n: nat, m: string)
    requires 0 < n <= |deps| && deps[n - 1] in byName
    ensures Within(byName, deps, n, m) <==>
            Within(byName, deps, n - 1, m) || m == deps[n - 1] || m in byName[deps[n - 1]].deps
  {
  }

  /** It fails exactly when a dependency is not registered, and names the first such one. */
  lemma {:induction false} AllDepsFails(byName: map<string, Component>, name: string, deps: seq<string>, n: nat)
    requires n <= |deps|
    ensures AllDeps(byName, name, deps, n).Err? <==> exists j :: 0 <= j < n && deps[j] !in byName
    ensures AllDeps(byName, name, deps, n).Err? ==>
              exists j :: 0 <= j < n && deps[j] !in byName && (forall i :: 0 <= i < j ==> deps[i] in byName) &&
                AllDeps(byName, name, deps, n).error == UnknownComponent(deps[j], name)
  {
    if n > 0 { AllDepsFails(byName, name, deps, n - 1); }
  }

  // ----- The order of the list -----

  /** Each dependency with those recorded for it behind it, duplicates and all. */
  function Unrolled(byName: map<string, Component>, deps: seq<string>, n: nat): seq<string>
    requires n <= |deps| && forall j :: 0 <= j < n ==> deps[j] in byName
  {
    if n == 0 then [] else Unrolled(byName, deps, n - 1) + ([deps[n - 1]] + byName[deps[n - 1]].deps)
  }

  /** `a` occurs in `s` before `b` does. */
  ghost predicate Sooner(s: seq<string>, a: string, b: string) {
    exists i :: 0 <= i < |s| && s[i] == a && b !in s[..i + 1]
  }

  ghost predicate InOrderOf(r: seq<string>, s: seq<string>) {
    forall x, y :: 0 <= x < y < |r| ==> Sooner(s, r[x], r[y])
  }

  lemma {:induction false} AddAllConcat(acc: seq<string>, s: seq<string>, ds: seq<string>, n: nat)
    requires n <= |ds|
    ensures AddAll(acc, s + ds, |s| + n) == AddAll(AddAll(acc, s, |s|), ds, n)
  {
    if n > 0 { AddAllConcat(acc, s, ds, n - 1); } else { AddAllFront(acc, s, ds, |s|); }
  }

  lemma {:induction false} AddAllFront(acc: seq<string>, s: seq<string>, ds: seq<string>, n: nat)
    requires n <= |s|
    ensures AddAll(acc, s + ds, n) == AddAll(acc, s, n)
  {
    if n > 0 { AddAllFront(acc, s, ds, n - 1); }
  }

  lemma {:induction false} AddAllInOrder(s: seq<string>, n: nat)
    requires n <= |s|
    ensures InOrderOf(AddAll([], s, n), s)
  {
    if n > 0 {
      AddAllInOrder(s, n - 1);
      AddAllAdds([], s, n - 1);
      var (r, d) := (AddAll([], s, n - 1), s[n - 1]);
      if d !in r {
        forall x | 0 <= x < |r| ensures Sooner(s, r[x], d) {
          assert r[x] in r;
          var i :| 0 <= i < n - 1 && s[i] == r[x];
          assert d !in s[..i + 1] by { assert forall j :: 0 <= j < i + 1 ==> s[j] in s[..n - 1]; }
        }
      }
    }
  }

  lemma {:induction false} AllDepsIsAddAll(byName: map<string, Component>, name: string, deps: seq<string>, n: nat)
    requires n <= |deps| && forall j :: 0 <= j < n ==> deps[j] in byName
    ensures AllDeps(byName, name, deps, n) == Ok(AddAll([], Unrolled(byName, deps, n), |Unrolled(byName, deps, n)|))
  {
    if n > 0 {
      AllDepsIsAddAll(byName, name, deps, n - 1);
      var (s, d) := (Unrolled(byName, deps, n - 1), deps[n - 1]);
      var ds := byName[d].deps;
      AddAllUnit(s, d, ds);
    }
  }

  /** One dependency and those recorded for it. */
  lemma AddAllUnit(s: seq<string>, d: string, ds: seq<string>)
    ensures var t := s + ([d] + ds);
            AddAll([], t, |t|) == AddAll(AddDep(AddAll([], s, |s|), d), ds, |ds|)
  {
    var acc := AddAll([], s, |s|);
    AddAllConcat([], s, [d] + ds, 1 + |ds|);
    AddAllConcat(acc, [d], ds, |ds|);
    assert AddAll(acc, [d], 1) == AddDep(acc, d);
  }

  /** The names stand in the order in which they first come up. */
  lemma AllDepsInOrder(byName: map<string, Component>, name: string, deps: seq<string>)
    requires forall d <- deps :: d in byName
    ensures AllDeps(byName, name, deps, |deps|).Ok?
    ensures InOrderOf(AllDeps(byName, name, deps, |deps|).value, Unrolled(byName, deps, |deps|))
  {
    AllDepsIsAddAll(byName, name, deps, |deps|);
    var s := Unrolled(byName, deps, |deps|);
    AddAllInOrder(s, |s|);
  }

  // ----- Registration -----

  /** Component.__init__ followed by reg_component; an exception leaves the registry alone. */
  function Register(st: State, name: string, deps: seq<string>): Result<State> {
    if name in st.byName then Err(AlreadyDefined(name))
    else
      match AllDeps(st.byName, name, deps, |deps|)
      case Err(e) => Err(e)
      case Ok(all) =>
        Ok(State(st.byName[name := Component(name, all, st.nextId)], st.declared[name := deps], st.nextId + 1))
  }

  function Step(st: State, name: string, deps: seq<string>): State {
    match Register(st, name, deps) case Ok(st') => st' case Err(_) => st
  }

  function Run(st: State, calls: seq<(string, seq<string>)>): State
    decreases |calls|
  {
    if calls == [] then st else Run(Step(st, calls[0].0, calls[0].1), calls[1..])
  }

  /** Registration succeeds iff the name is new and every dependency is registered; otherwise
      the error is the name, or the first dependency that is not. */
  lemma RegisterIff(st: State, name: string, deps: seq<string>)
    ensures Register(st, name, deps).Ok? <==> name !in st.byName && forall d <- deps :: d in st.byName
    ensures name in st.byName ==> Register(st, name, deps) == Err(AlreadyDefined(name))
    ensures name !in st.byName && Register(st, name, deps).Err? ==>
              exists j :: 0 <= j < |deps| && deps[j] !in st.byName && (forall i :: 0 <= i < j ==> deps[i] in st.byName) &&
                Register(st, name, deps).error == UnknownComponent(deps[j], name)
  {
    AllDepsFails(st.byName, name, deps, |deps|);
    if forall d <- deps :: d in st.byName {
      assert forall j :: 0 <= j < |deps| ==> deps[j] in deps;
    }
  }

  /** On success the registry gains that component, with the next id, the declared dependencies
      and those recorded for them; every other entry stays. */
  lemma RegisterAdds(st: State, name: string, deps: seq<string>)
    requires Register(st, name, deps).Ok?
    ensures var st' := Register(st, name, deps).value;
      && st'.byName.Keys == st.byName.Keys + {name} && st'.nextId == st.nextId + 1
      && st'.declared == st.declared[name := deps]
      && (forall n <- st.byName :: st'.byName[n] == st.byName[n])
      && st'.byName[name].name == name && st'.byName[name].id == st.nextId
      && Distinct(st'.byName[name].deps)
      && (forall m :: m in st'.byName[name].deps <==>
            exists j :: 0 <= j < |deps| && deps[j] in st.byName && (m == deps[j] || m in st.byName[deps[j]].deps))
  {
    AllDepsExact(st.byName, name, deps, |deps|);
    var c := Register(st, name, deps).value.byName[name];
    forall m ensures m in c.deps <==>
        exists j :: 0 <= j < |deps| && deps[j] in st.byName && (m == deps[j] || m in st.byName[deps[j]].deps) {
      assert m in c.deps <==> Within(st.byName, deps, |deps|, m);
    }
  }

  // ----- The calls that succeed -----

  ghost function NamesOf(calls: seq<(string, seq<string>)>): set<string> { set c <- calls :: c.0 }

  /** Judged on the calls alone: the name was not used before, and every dependency was. */
  ghost predicate Succeeds(before: seq<(string, seq<string>)>, c: (string, seq<string>)) {
    c.0 !in NamesOf(before) && forall d <- c.1 :: d in NamesOf(before)
  }

  /** `acc` and the calls that succeed after them. */
  ghost function Accepted(acc: seq<(string, seq<string>)>, calls: seq<(string, seq<string>)>): seq<(string, seq<string>)>
    decreases |calls|
  {
    if calls == [] then acc
    else Accepted(if Succeeds(acc, calls[0]) then acc + [calls[0]] else acc, calls[1..])
  }

  /** The registry holds the calls `acc`, each with its place as id. */
  ghost predicate Records(st: State, acc: seq<(string, seq<string>)>) {
    && st.nextId == |acc|
    && st.byName.Keys == NamesOf(acc) && st.declared.Keys == NamesOf(acc)
    && forall j :: 0 <= j < |acc| ==>
         acc[j].0 in st.byName && acc[j].0 in st.declared
         && st.byName[acc[j].0].id == j && st.declared[acc[j].0] == acc[j].1
  }

  lemma StepRecords(st: State, acc: seq<(string, seq<string>)>, c: (string, seq<string>))
    requires Records(st, acc)
    ensures Records(Step(st, c.0, c.1), if Succeeds(acc, c) then acc + [c] else acc)
  {
    RegisterIff(st, c.0, c.1);
    if Succeeds(acc, c) {
      RegisterAdds(st, c.0, c.1);
      var acc' := acc + [c];
      NamesOfOneMore(acc, c);
      forall j | 0 <= j < |acc| ensures acc[j].0 in NamesOf(acc) { assert acc[j] in acc; }
    }
  }

  lemma NamesOfOneMore(acc: seq<(string, seq<string>)>, c: (string, seq<string>))
    ensures NamesOf(acc + [c]) == NamesOf(acc) + {c.0}
  {
    assert forall x :: x in acc + [c] <==> x in acc || x == c;
    assert c in acc + [c];
  }

  lemma {:induction false} RunRecords(st: State, acc: seq<(string, seq<string>)>, calls: seq<(string, seq<string>)>)
    requires Records(st, acc)
    ensures Records(Run(st, calls), Accepted(acc, calls))
    decreases |calls|
  {
    if calls != [] {
      StepRecords(st, acc, calls[0]);
      RunRecords(Step(st, calls[0].0, calls[0].1), if Succeeds(acc, calls[0]) then acc + [calls[0]] else acc, calls[1..]);
    }
  }

  // ----- The invariant -----

  ghost predicate Known(st: State, n: string) { n in st.byName && n in st.declared }

  /** The entry of one component is as registration left it. */
  ghost predicate EntryOk(st: State, n: string)
    requires Known(st, n)
  {
    var c := st.byName[n];
    && c.name == n
    && c.id < st.nextId
    && Distinct(c.deps)
    && (forall d <- st.declared[n] :: Known(st, d) && st.byName[d].id < c.id)
    && (forall m :: m in c.deps <==> Within(st.byName, st.declared[n], |st.declared[n]|, m))
  }

  ghost predicate Inv(st: State) {
    && st.byName.Keys == st.declared.Keys
    && (forall n <- st.byName :: EntryOk(st, n))
    && (forall m, n :: m in st.byName && n in st.byName && m != n ==> st.byName[m].id != st.byName[n].id)
  }

  /** What lies within `deps` depends on their own entries alone. */
  lemma WithinKept(byName: map<string, Component>, byName': map<string, Component>, deps: seq<string>, m: string)
    requires forall d <- deps :: d in byName && d in byName' && byName'[d] == byName[d]
    ensures Within(byName', deps, |deps|, m) <==> Within(byName, deps, |deps|, m)
  {
  }

  lemma RegisterKeepsInv(st: State, name: string, deps: seq<string>)
    requires Inv(st)
    ensures Inv(Step(st, name, deps))
  {
    if Register(st, name, deps).Ok? {
      var st' := Step(st, name, deps);
      forall n | n in st'.byName ensures EntryOk(st', n) {
        if n == name { NewEntryOk(st, name, deps); } else { OldEntryOk(st, name, deps, n); }
      }
    }
  }

  lemma NewEntryOk(st: State, name: string, deps: seq<string>)
    requires Inv(st) && Register(st, name, deps).Ok?
    ensures EntryOk(Step(st, name, deps), name)
  {
    var st' := Step(st, name, deps);
    AllDepsExact(st.byName, name, deps, |deps|);
    AllDepsFails(st.byName, name, deps, |deps|);
    forall d | d in deps ensures Known(st, d) && Known(st', d) && st'.byName[d].id < st.nextId {
      var j :| 0 <= j < |deps| && deps[j] == d;
      assert deps[j] in st.byName;
      assert EntryOk(st, d);
    }
    forall m ensures Within(st'.byName, deps, |deps|, m) <==> Within(st.byName, deps, |deps|, m) {
      WithinKept(st.byName, st'.byName, deps, m);
    }
  }

  lemma OldEntryOk(st: State, name: string, deps: seq<string>, n: string)
    requires Inv(st) && Register(st, name, deps).Ok? && n in st.byName
    ensures n != name && EntryOk(Step(st, name, deps), n)
  {
    var st' := Step(st, name, deps);
    assert EntryOk(st, n);
    assert forall d <- st.declared[n] :: Known(st, d);
    forall m ensures Within(st'.byName, st.declared[n], |st.declared[n]|, m) <==>
                     Within(st.byName, st.declared[n], |st.declared[n]|, m) {
      WithinKept(st.byName, st'.byName, st.declared[n], m);
    }
  }

  /** Every run of registrations, failing ones included, keeps the invariant. */
  lemma {:induction false} RunKeepsInv(st: State, calls: seq<(string, seq<string>)>)
    requires Inv(st)
    ensures Inv(Run(st, calls))
    decreases |calls|
  {
    if calls != [] {
      RegisterKeepsInv(st, calls[0].0, calls[0].1);
      RunKeepsInv(Step(st, calls[0].0, calls[0].1), calls[1..]);
    }
  }

  // ----- deps is the transitive closure -----

  /** A chain of declared dependencies. */
  ghost predicate Path(st: State, p: seq<string>) {
    |p| >= 2 && forall i :: 0 <= i < |p| - 1 ==> p[i] in st.declared && p[i + 1] in st.declared[p[i]]
  }

  ghost predicate DependsOn(st: State, n: string, m: string) {
    exists p :: Path(st, p) && p[0] == n && p[|p| - 1] == m
  }

  lemma PathCons(st: State, n: string, q: seq<string>)
    requires Path(st, q) && n in st.declared && q[0] in st.declared[n]
    ensures Path(st, [n] + q)
  {
    var p := [n] + q;
    forall i | 0 <= i < |p| - 1 ensures p[i] in st.declared && p[i + 1] in st.declared[p[i]] {
      if i > 0 { assert p[i] == q[i - 1] && p[i + 1] == q[i]; }
    }
  }

  lemma {:induction false} DepHasPath(st: State, n: string, m: string) returns (p: seq<string>)
    requires Inv(st) && n in st.byName && m in st.byName[n].deps
    ensures Path(st, p) && p[0] == n && p[|p| - 1] == m
    decreases st.byName[n].id
  {
    assert EntryOk(st, n);
    var ds := st.declared[n];
    var j :| 0 <= j < |ds| && ds[j] in st.byName && (m == ds[j] || m in st.byName[ds[j]].deps);
    assert ds[j] in ds;
    if m == ds[j] {
      p := [n, m];
    } else {
      var q := DepHasPath(st, ds[j], m);
      PathCons(st, n, q);
      p := [n] + q;
    }
  }

  lemma {:induction false} PathGivesDep(st: State, p: seq<string>)
    requires Inv(st) && Path(st, p)
    ensures p[0] in st.byName && p[|p| - 1] in st.byName[p[0]].deps
    decreases |p|
  {
    var (n, d) := (p[0], p[1]);
    assert n in st.declared && d in st.declared[n];
    assert EntryOk(st, n);
    var ds := st.declared[n];
    var j :| 0 <= j < |ds| && ds[j] == d;
    if |p| > 2 {
      var q := p[1..];
      assert forall i :: 0 <= i < |q| ==> q[i] == p[i + 1];
      PathGivesDep(st, q);
    }
    assert Within(st.byName, ds, |ds|, p[|p| - 1]);
  }

  /** `deps` is exactly the transitive closure of the declared dependencies. */
  lemma DepsIsClosure(st: State, n: string, m: string)
    requires Inv(st) && n in st.byName
    ensures m in st.byName[n].deps <==> DependsOn(st, n, m)
  {
    if m in st.byName[n].deps { var p := DepHasPath(st, n, m); }
    if DependsOn(st, n, m) {
      var p :| Path(st, p) && p[0] == n && p[|p| - 1] == m;
      PathGivesDep(st, p);
    }
  }

  /** Dependencies were registered earlier, so nothing depends on itself. */
  lemma {:induction false} DepsHaveSmallerIds(st: State, n: string, m: string)
    requires Inv(st) && n in st.byName && m in st.byName[n].deps
    ensures m in st.byName && st.byName[m].id < st.byName[n].id
    ensures forall k <- st.byName[m].deps :: k in st.byName[n].deps
    decreases st.byName[n].id
  {
    assert EntryOk(st, n);
    var ds := st.declared[n];
    var j :| 0 <= j < |ds| && ds[j] in st.byName && (m == ds[j] || m in st.byName[ds[j]].deps);
    assert ds[j] in ds;
    if m != ds[j] { DepsHaveSmallerIds(st, ds[j], m); }
    forall k | k in st.byName[m].deps ensures k in st.byName[n].deps {
      assert m == ds[j] || k in st.byName[ds[j]].deps;
      assert Within(st.byName, ds, |ds|, k);
    }
  }

  lemma Acyclic(st: State, n: string)
    requires Inv(st) && n in st.byName
    ensures !DependsOn(st, n, n)
  {
    DepsIsClosure(st, n, n);
    if n in st.byName[n].deps { DepsHaveSmallerIds(st, n, n); }
  }

  /** One of the calls declares `m` as a dependency of `n`. */
  ghost predicate Declares(acc: seq<(string, seq<string>)>, n: string, m: string) {
    exists j :: 0 <= j < |acc| && acc[j].0 == n && m in acc[j].1
  }

  ghost predicate CallsPath(acc: seq<(string, seq<string>)>, p: seq<string>) {
    |p| >= 2 && forall i :: 0 <= i < |p| - 1 ==> Declares(acc, p[i], p[i + 1])
  }

  ghost predicate CallsDependOn(acc: seq<(string, seq<string>)>, n: string, m: string) {
    exists p :: CallsPath(acc, p) && p[0] == n && p[|p| - 1] == m
  }

  lemma DeclaresIff(st: State, acc: seq<(string, seq<string>)>, n: string, m: string)
    requires Records(st, acc)
    ensures Declares(acc, n, m) <==> n in st.declared && m in st.declared[n]
  {
    if n in st.declared && m in st.declared[n] {
      assert n in NamesOf(acc);
      var c :| c in acc && c.0 == n;
      var j :| 0 <= j < |acc| && acc[j] == c;
      assert acc[j].0 == n && m in acc[j].1;
    }
  }

  lemma CallsPathIff(st: State, acc: seq<(string, seq<string>)>, p: seq<string>)
    requires Records(st, acc)
    ensures CallsPath(acc, p) <==> Path(st, p)
  {
    if CallsPath(acc, p) {
      forall i | 0 <= i < |p| - 1 ensures p[i] in st.declared && p[i + 1] in st.declared[p[i]] {
        assert Declares(acc, p[i], p[i + 1]);
        DeclaresIff(st, acc, p[i], p[i + 1]);
      }
    }
    if Path(st, p) {
      forall i | 0 <= i < |p| - 1 ensures Declares(acc, p[i], p[i + 1]) {
        assert p[i + 1] in st.declared[p[i]];
        DeclaresIff(st, acc, p[i], p[i + 1]);
      }
    }
  }

  lemma CallsDependIff(st: State, acc: seq<(string, seq<string>)>, n: string, m: string)
    requires Records(st, acc)
    ensures CallsDependOn(acc, n, m) <==> DependsOn(st, n, m)
  {
    if CallsDependOn(acc, n, m) {
      var p :| CallsPath(acc, p) && p[0] == n && p[|p| - 1] == m;
      CallsPathIff(st, acc, p);
    }
    if DependsOn(st, n, m) {
      var p :| Path(st, p) && p[0] == n && p[|p| - 1] == m;
      CallsPathIff(st, acc, p);
    }
  }

  /** All of it, after any run from the empty registry, in terms of the calls that succeeded. */
  lemma AfterAnyRun(calls: seq<(string, seq<string>)>, n: string, m: string)
    ensures var (st, acc) := (Run(Empty, calls), Accepted([], calls));
      && (n in st.byName <==> n in NamesOf(acc))
      && (n in st.byName ==>
           && Distinct(st.byName[n].deps)
           && (m in st.byName[n].deps <==> CallsDependOn(acc, n, m))
           && (exists j :: 0 <= j < |acc| && acc[j].0 == n && st.byName[n].id == j)
           && (m in st.byName[n].deps ==> m in st.byName && st.byName[m].id < st.byName[n].id))
  {
    var (st, acc) := (Run(Empty, calls), Accepted([], calls));
    RunKeepsInv(Empty, calls);
    RunRecords(Empty, [], calls);
    if n in st.byName {
      assert EntryOk(st, n);
      DepsIsClosure(st, n, m);
      CallsDependIff(st, acc, n, m);
      if m in st.byName[n].deps { DepsHaveSmallerIds(st, n, m); }
      var c :| c in acc && c.0 == n;
      var j :| 0 <= j < |acc| && acc[j] == c;
      assert acc[j].0 == n && st.byName[n].id == j;
    }
  }

  // ----- sort_components -----

  predicate AllKnown(st: State, s: seq<string>) { forall n <- s :: n in st.byName }

  /** Definition time, latest first. */
  predicate Descending(st: State, s: seq<string>)
    requires AllKnown(st, s)
  {
    forall i, j :: 0 <= i < j < |s| ==> st.byName[s[i]].id >= st.byName[s[j]].id
  }

  function InsertById(st: State, n: string, s: seq<string>): (r: seq<string>)
    requires n in st.byName && AllKnown(st, s)
    ensures multiset(r) == multiset{n} + multiset(s)
    ensures AllKnown(st, r)
  {
    if s == [] then [n]
    else if st.byName[n].id >= st.byName[s[0]].id then [n] + s
    else
      assert s == [s[0]] + s[1..];
      var r := [s[0]] + InsertById(st, n, s[1..]);
      assert forall x <- r :: x in multiset(r);
      r
  }

  /** sorted(cnames, key=id, reverse=True) */
  function SortComponents(st: State, s: seq<string>): (r: seq<string>)
    requires AllKnown(st, s)
    ensures multiset(r) == multiset(s)
    ensures AllKnown(st, r)
  {
    if s == [] then []
    else
      assert s == [s[0]] + s[1..];
      InsertById(st, s[0], SortComponents(st, s[1..]))
  }

  lemma {:induction false} InsertDescending(st: State, n: string, s: seq<string>)
    requires n in st.byName && AllKnown(st, s) && Descending(st, s)
    ensures Descending(st, InsertById(st, n, s))
  {
    if s != [] && st.byName[n].id < st.byName[s[0]].id {
      var t := InsertById(st, n, s[1..]);
      InsertDescending(st, n, s[1..]);
      forall x | x in t ensures st.byName[x].id <= st.byName[s[0]].id {
        assert x in multiset(t);
        assert x == n || x in multiset(s[1..]);
      }
      DescendingCons(st, s[0], t);
    }
  }

  lemma DescendingCons(st: State, n: string, t: seq<string>)
    requires n in st.byName && AllKnown(st, t) && Descending(st, t)
    requires forall x <- t :: st.byName[x].id <= st.byName[n].id
    ensures AllKnown(st, [n] + t) && Descending(st, [n] + t)
  {
    var r := [n] + t;
    assert forall x <- r :: x == n || x in t;
    forall i, j | 0 <= i < j < |r| ensures st.byName[r[i]].id >= st.byName[r[j]].id {
      assert r[j] == t[j - 1] && t[j - 1] in t;
    }
  }

  lemma {:induction false} SortDescending(st: State, s: seq<string>)
    requires AllKnown(st, s)
    ensures Descending(st, SortComponents(st, s))
  {
    if s != [] {
      SortDescending(st, s[1..]);
      InsertDescending(st, s[0], SortComponents(st, s[1..]));
    }
  }

  /** In any list sorted by falling id a library precedes those it depends on; so the order
      does not hang on how the list was sorted. */
  lemma LinkOrder(st: State, s: seq<string>, i: nat, j: nat)
    requires Inv(st) && AllKnown(st, s) && Descending(st, s)
    requires i < |s| && j < |s| && DependsOn(st, s[i], s[j])
    ensures i < j
  {
    DepsIsClosure(st, s[i], s[j]);
    DepsHaveSmallerIds(st, s[i], s[j]);
  }

  /** The link line of a component: each dependency once, closed under dependency, every
      library before the libraries it needs. */
  lemma LinkLine(st: State, n: string)
    requires Inv(st) && n in st.byName
    ensures AllKnown(st, st.byName[n].deps)
    ensures var line := SortComponents(st, st.byName[n].deps);
      && multiset(line) == multiset(st.byName[n].deps)
      && (forall i, m :: 0 <= i < |line| && DependsOn(st, line[i], m) ==>
            exists j :: i < j < |line| && line[j] == m)
  {
    forall m | m in st.byName[n].deps ensures m in st.byName { DepsHaveSmallerIds(st, n, m); }
    var line := SortComponents(st, st.byName[n].deps);
    SortDescending(st, st.byName[n].deps);
    forall i, m | 0 <= i < |line| && DependsOn(st, line[i], m) ensures exists j :: i < j < |line| && line[j] == m {
      assert line[i] in multiset(line);
      DepsHaveSmallerIds(st, n, line[i]);
      DepsIsClosure(st, line[i], m);
      assert m in multiset(line);
      var j :| 0 <= j < |line| && line[j] == m;
      LinkOrder(st, line, i, j);
    }
  }

  // ----- The program -----

  /** The four globals tell one story: the list holds the components by id. */
  ghost predicate Consistent(components: seq<Component>, names: set<string>, byName: map<string, Component>, nextId: nat) {
    && names == byName.Keys
    && |components| == nextId
    && (forall n <- byName :: byName[n].id < nextId && components[byName[n].id] == byName[n])
    && (forall i :: 0 <= i < nextId ==>
          components[i].id == i && components[i].name in byName && byName[components[i].name] == components[i])
  }

  lemma ConsistentGrows(components: seq<Component>, names: set<string>, byName: map<string, Component>, nextId: nat, c: Component)
    requires Consistent(components, names, byName, nextId) && c.name !in names && c.id == nextId
    ensures Consistent(components + [c], names + {c.name}, byName[c.name := c], nextId + 1)
  {
    var (cs, bs) := (components + [c], byName[c.name := c]);
    forall n | n in bs ensures bs[n].id < nextId + 1 && cs[bs[n].id] == bs[n] {
      assert n != c.name ==> n in byName && bs[n] == byName[n];
    }
    forall i | 0 <= i < nextId + 1 ensures cs[i].id == i && cs[i].name in bs && bs[cs[i].name] == cs[i] {
      assert i < nextId ==> cs[i] == components[i] && components[i].name in names;
    }
  }

  /** The module globals _Components, _ComponentNames, _Name2Component and _Id. */
  class Registry {
    var components: seq<Component>
    var names: set<string>
    var byName: map<string, Component>
    var nextId: nat
    ghost var declared: map<string, seq<string>>

    ghost predicate Valid()
      reads this
    {
      names == declared.Keys && Consistent(components, names, byName, nextId)
    }

    ghost function View(): State
      reads this
    {
      State(byName, declared, nextId)
    }

    constructor ()
      ensures Valid() && View() == Empty
    {
      components, names, byName, nextId := [], {}, map[], 0;
      declared := map[];
    }

    /** find_all_deps */
    method FindAllDeps(name: string, deps: seq<string>) returns (r: Result<seq<string>>)
      requires Valid()
      ensures r == AllDeps(byName, name, deps, |deps|)
    {
      var newDeps: seq<string> := [];
      for n := 0 to |deps|
        invariant AllDeps(byName, name, deps, n) == Ok(newDeps)
      {
        var dep := deps[n];
        if dep in names {
          ghost var start := AddDep(newDeps, dep);
          if dep !in newDeps {
            newDeps := newDeps + [dep];
          }
          var inner := byName[dep].deps;
          for j := 0 to |inner|
            invariant newDeps == AddAll(start, inner, j)
          {
            if inner[j] !in newDeps {
              newDeps := newDeps + [inner[j]];
            }
          }
        } else {
          FailureStays(byName, name, deps, n + 1);
          return Err(UnknownComponent(dep, name));
        }
      }
      return Ok(newDeps);
    }

    /** reg_component on the component just constructed: it gets the next id. */
    method RegComponent(name: string, ds: seq<string>, ghost deps: seq<string>) returns (c: Component)
      requires Valid() && name !in names
      modifies this
      ensures Valid()
      ensures c == Component(name, ds, old(nextId))
      ensures byName == old(byName)[name := c] && declared == old(declared)[name := deps] && nextId == old(nextId) + 1
    {
      c := Component(name, ds, nextId);
      ConsistentGrows(components, names, byName, nextId, c);
      nextId, components, names, byName := nextId + 1, components + [c], names + {name}, byName[name := c];
      declared := declared[name := deps];
      assert Consistent(components, names, byName, nextId);
    }

    /** Construct a component and register it; an exception is a result. */
    method Add(name: string, deps: seq<string>) returns (r: Result<Component>)
      requires Valid()
      modifies this
      ensures Valid()
      ensures View() == Step(old(View()), name, deps)
      ensures match Register(old(View()), name, deps)
              case Ok(st) => r == Ok(st.byName[name])
              case Err(e) => r == Err(e)
    {
      if name in names {
        return Err(AlreadyDefined(name));
      }
      var all := FindAllDeps(name, deps);
      match all
      case Err(e) => return Err(e);
      case Ok(ds) =>
        var c := RegComponent(name, ds, deps);
        return Ok(c);
    }
  }

  lemma {:induction false} FailureStays(byName: map<string, Component>, name: string, deps: seq<string>, n: nat)
    requires n <= |deps| && AllDeps(byName, name, deps, n).Err?
    ensures AllDeps(byName, name, deps, |deps|) == AllDeps(byName, name, deps, n)
    decreases |deps| - n
  {
    if n < |deps| { FailureStays(byName, name, deps, n + 1); }
  }
}
