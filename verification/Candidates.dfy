/** The candidate generator of heaps/pred-gen-list.js: patterns, slot counting,
    instantiation, and the guard names. */
module Candidates {
  import opened Ints

  // ----- Patterns -----

  datatype Unary = List | List3 | SingletonO | SingletonI | IsNull | NonNull | Next | Prev | Key
                 | LtIntMax | LtUintMax | GeZero | Not

  datatype Binary = Lseg | UnionO | UnionI | InO | InI | SubsetO | SubsetI | DisjointO | DisjointI | LeO | LeI
                  | Plus | Minus | Eq | Neq | EqS | Lt | Le | Implies

  /** The functions of a list, or of a list segment. */
  datatype Segment = Reach | Reach3 | Keys | Len | ReachOld | KeysOld | MaxKey | MinKey

  /** The cases of `ts`, by the number of operands they read. */
  datatype Op = One(u: Unary) | Two(b: Binary) | OneOrTwo(s: Segment) | And | Unknown(name: string)

  /** How many operands the case reads when the pattern has `n`. */
  function Reads(op: Op, n: nat): nat {
    match op
    case One(_) => 1
    case Two(_) => 2
    case OneOrTwo(_) => if n >= 2 then 2 else 1
    case And => n
    case Unknown(_) => 0
  }

  /** A pattern is a number (a slot) or an operator applied to patterns.  Slot n >= 0 stands for
      pointer n, slot n < 0 for integer -n-1. */
  datatype Pattern = Slot(n: int) | App(op: Op, args: seq<Pattern>)

  /** The operands `ts` looks at; any others are there for `findmax` and `findmin` only. */
  function Read(t: Pattern): (r: seq<Pattern>)
    requires t.App?
    ensures |r| <= |t.args| && forall j :: 0 <= j < |r| ==> r[j] == t.args[j]
    ensures |r| == |t.args| || |r| == Reads(t.op, |t.args|) < |t.args|
  {
    if Reads(t.op, |t.args|) < |t.args| then t.args[..Reads(t.op, |t.args|)] else t.args
  }

  /** An instantiated pattern; `Undefined` is what JavaScript yields past the end of an array. */
  datatype Term = Pointer(name: string) | Integer(name: string) | Undefined | Apply(op: Op, args: seq<Term>)

  // ----- Slots -----

  function Slots(t: Pattern): set<int> {
    match t
    case Slot(n) => {n}
    case App(_, args) => set a, n | a in args && n in Slots(a) :: n
  }

  /** findmax over the first `k` arguments; it starts from 0. */
  function FindMax(args: seq<Pattern>, k: nat): int
    requires k <= |args|
    decreases args, k
  {
    if k == 0 then 0
    else
      var m := FindMax(args, k - 1);
      match args[k - 1]
      case Slot(n) => Max(m, n)
      case App(_, bs) => Max(m, FindMax(bs, |bs|))
  }

  /** findmin, likewise. */
  function FindMin(args: seq<Pattern>, k: nat): int
    requires k <= |args|
    decreases args, k
  {
    if k == 0 then 0
    else
      var m := FindMin(args, k - 1);
      match args[k - 1]
      case Slot(n) => Min(m, n)
      case App(_, bs) => Min(m, FindMin(bs, |bs|))
  }

  /** numptrs and numints */
  function NumPtrs(t: Pattern): int
    requires t.App?
  {
    FindMax(t.args, |t.args|) + 1
  }

  function NumInts(t: Pattern): int
    requires t.App?
  {
    -FindMin(t.args, |t.args|)
  }

  function SlotsOf(args: seq<Pattern>, k: nat): set<int>
    requires k <= |args|
  {
    set a, n | a in args[..k] && n in Slots(a) :: n
  }

  /** findmax and findmin are the extremes of the slots together with 0. */
  lemma {:induction false} FindExtremes(args: seq<Pattern>, k: nat)
    requires k <= |args|
    ensures Greatest(FindMax(args, k), SlotsOf(args, k) + {0})
    ensures Least(FindMin(args, k), SlotsOf(args, k) + {0})
    decreases args, k
  {
    if k > 0 {
      FindExtremes(args, k - 1);
      SlotsOfStep(args, k);
      match args[k - 1]
      case Slot(n) =>
      case App(_, bs) =>
        FindExtremes(bs, |bs|);
        SlotsOfAll(args[k - 1]);
    }
  }

  lemma SlotsOfStep(args: seq<Pattern>, k: nat)
    requires 0 < k <= |args|
    ensures SlotsOf(args, k) == SlotsOf(args, k - 1) + Slots(args[k - 1])
  {
    assert args[..k] == args[..k - 1] + [args[k - 1]];
  }

  lemma SlotsOfAll(t: Pattern)
    requires t.App?
    ensures Slots(t) == SlotsOf(t.args, |t.args|)
  {
    assert t.args[..|t.args|] == t.args;
  }

  /** So numptrs and numints are the least array sizes that hold every slot, except that one
      pointer is asked for even when no pointer slot occurs. */
  lemma SlotCounts(t: Pattern)
    requires t.App?
    ensures NumPtrs(t) >= 1 && NumInts(t) >= 0
    ensures forall n <- Slots(t) :: -NumInts(t) <= n < NumPtrs(t)
    ensures NumPtrs(t) > 1 ==> NumPtrs(t) - 1 in Slots(t)
    ensures NumInts(t) > 0 ==> -NumInts(t) in Slots(t)
  {
    FindExtremes(t.args, |t.args|);
    SlotsOfAll(t);
  }

  /** The loop inside findmax. */
  method ComputeMax(args: seq<Pattern>) returns (max: int)
    ensures max == FindMax(args, |args|)
    decreases args
  {
    max := 0;
    for i := 0 to |args|
      invariant max == FindMax(args, i)
    {
      match args[i]
      case Slot(n) => max := Max(max, n);
      case App(_, bs) =>
        var m := ComputeMax(bs);
        max := Max(max, m);
    }
  }

  /** The loop inside findmin. */
  method ComputeMin(args: seq<Pattern>) returns (min: int)
    ensures min == FindMin(args, |args|)
    decreases args
  {
    min := 0;
    for i := 0 to |args|
      invariant min == FindMin(args, i)
    {
      match args[i]
      case Slot(n) => min := Min(min, n);
      case App(_, bs) =>
        var m := ComputeMin(bs);
        min := Min(min, m);
    }
  }

  // ----- Instantiation -----

  function Leaf(n: int, p: seq<string>, i: seq<string>): Term {
    if n >= 0 then (if n < |p| then Pointer(p[n]) else Undefined)
    else if -n - 1 < |i| then Integer(i[-n - 1]) else Undefined
  }

  /** What a slot stands for. */
  lemma LeafIs(n: int, p: seq<string>, i: seq<string>)
    ensures 0 <= n < |p| ==> Leaf(n, p, i) == Pointer(p[n])
    ensures -|i| <= n < 0 ==> Leaf(n, p, i) == Integer(i[-1 - n])
    ensures !(-|i| <= n < |p|) ==> Leaf(n, p, i) == Undefined
  {
  }

  /** The pattern with its slots filled from the pointers `p` and the integers `i`. */
  function Inst(t: Pattern, p: seq<string>, i: seq<string>): Term {
    match t
    case Slot(n) => Leaf(n, p, i)
    case App(op, _) =>
      var read := Read(t);
      Apply(op, seq(|read|, j requires 0 <= j < |read| => Inst(read[j], p, i)))
  }

  /** The slots of the operands that are read. */
  function Shown(t: Pattern): set<int> {
    match t
    case Slot(n) => {n}
    case App(_, _) => set j, n | 0 <= j < |Read(t)| && n in Shown(Read(t)[j]) :: n
  }

  lemma {:induction false} ShownIsSlot(t: Pattern)
    ensures Shown(t) <= Slots(t)
  {
    match t
    case Slot(_) =>
    case App(_, args) =>
      forall n | n in Shown(t) ensures n in Slots(t) {
        var j :| 0 <= j < |Read(t)| && n in Shown(Read(t)[j]);
        ShownIsSlot(args[j]);
        assert args[j] in args;
      }
  }

  predicate Defined(t: Term) {
    match t
    case Undefined => false
    case Apply(_, args) => forall a <- args :: Defined(a)
    case _ => true
  }

  /** Slot `n` has a name among `p` and `i`. */
  predicate InRange(n: int, p: seq<string>, i: seq<string>) { -|i| <= n < |p| }

  predicate AllInRange(ns: set<int>, p: seq<string>, i: seq<string>) { forall n <- ns :: InRange(n, p, i) }

  lemma LeafDefined(n: int, p: seq<string>, i: seq<string>)
    ensures Defined(Leaf(n, p, i)) <==> InRange(n, p, i)
    ensures AllInRange({n}, p, i) <==> InRange(n, p, i)
  {
    assert n in {n};
  }

  /** No index is out of range exactly when every slot that is read has its name. */
  lemma {:induction false} DefinedIffInRange(t: Pattern, p: seq<string>, i: seq<string>)
    ensures Defined(Inst(t, p, i)) <==> AllInRange(Shown(t), p, i)
  {
    match t
    case Slot(n) =>
      LeafDefined(n, p, i);
    case App(_, args) =>
      var (ts, read) := (Inst(t, p, i).args, Read(t));
      forall j | 0 <= j < |read| ensures Defined(ts[j]) <==> AllInRange(Shown(read[j]), p, i) {
        DefinedIffInRange(args[j], p, i);
      }
      if Defined(Inst(t, p, i)) {
        forall n | n in Shown(t) ensures InRange(n, p, i) {
          var j :| 0 <= j < |read| && n in Shown(read[j]);
          assert ts[j] in ts;
        }
      } else {
        var x :| x in ts && !Defined(x);
        var j :| 0 <= j < |ts| && ts[j] == x;
        var n :| n in Shown(read[j]) && !InRange(n, p, i);
        assert n in Shown(t);
      }
  }

  /** A data pattern never indexes outside its assignment; a heap pattern, which gets no
      integers at all, exactly when it reads no integer slot. */
  lemma AssignmentsSuffice(t: Pattern, p: seq<string>, i: seq<string>)
    requires t.App? && |p| == NumPtrs(t)
    ensures |i| == NumInts(t) ==> Defined(Inst(t, p, i))
    ensures i == [] ==> (Defined(Inst(t, p, i)) <==> forall n <- Shown(t) :: n >= 0)
  {
    SlotCounts(t);
    ShownIsSlot(t);
    DefinedIffInRange(t, p, i);
  }

  /** Two assignments give the same term iff they agree on every slot that is read. */
  lemma {:induction false} SameTermIff(t: Pattern, p: seq<string>, i: seq<string>, q: seq<string>, j: seq<string>)
    ensures Inst(t, p, i) == Inst(t, q, j) <==> forall n <- Shown(t) :: Leaf(n, p, i) == Leaf(n, q, j)
  {
    match t
    case Slot(n) =>
    case App(_, args) =>
      var (ts, us, read) := (Inst(t, p, i).args, Inst(t, q, j).args, Read(t));
      forall k | 0 <= k < |read|
        ensures ts[k] == us[k] <==> forall n <- Shown(read[k]) :: Leaf(n, p, i) == Leaf(n, q, j)
      {
        SameTermIff(args[k], p, i, q, j);
      }
      if forall n <- Shown(t) :: Leaf(n, p, i) == Leaf(n, q, j) {
        assert forall k :: 0 <= k < |read| ==> ts[k] == us[k];
        assert ts == us;
      }
      if Inst(t, p, i) == Inst(t, q, j) {
        forall n | n in Shown(t) ensures Leaf(n, p, i) == Leaf(n, q, j) {
          var k :| 0 <= k < |read| && n in Shown(read[k]);
          assert ts[k] == us[k];
        }
      }
  }

  /** Pointer `n` shows in what the pattern gives. */
  predicate UsesPointer(t: Pattern, n: nat) { n in Shown(t) }

  /** Integer `n` shows in what the pattern gives. */
  predicate UsesInteger(t: Pattern, n: nat) { -1 - n in Shown(t) }

  /** Assignments that give the same candidate agree on every slot in use. */
  lemma UsedSlotsSeparate(t: Pattern, p: seq<string>, i: seq<string>, q: seq<string>, j: seq<string>)
    requires |p| == |q| && |i| == |j| && Inst(t, p, i) == Inst(t, q, j)
    ensures forall n :: 0 <= n < |p| && UsesPointer(t, n) ==> p[n] == q[n]
    ensures forall n :: 0 <= n < |i| && UsesInteger(t, n) ==> i[n] == j[n]
  {
    forall n | 0 <= n < |p| && UsesPointer(t, n) ensures p[n] == q[n] { UsedPointerSeparates(t, p, i, q, j, n); }
    forall n | 0 <= n < |i| && UsesInteger(t, n) ensures i[n] == j[n] { UsedIntegerSeparates(t, p, i, q, j, n); }
  }

  lemma UsedPointerSeparates(t: Pattern, p: seq<string>, i: seq<string>, q: seq<string>, j: seq<string>, n: nat)
    requires n < |p| == |q| && UsesPointer(t, n) && Inst(t, p, i) == Inst(t, q, j)
    ensures p[n] == q[n]
  {
    SameTermIff(t, p, i, q, j);
    assert Leaf(n, p, i) == Leaf(n, q, j);
  }

  lemma UsedIntegerSeparates(t: Pattern, p: seq<string>, i: seq<string>, q: seq<string>, j: seq<string>, n: nat)
    requires n < |i| == |j| && UsesInteger(t, n) && Inst(t, p, i) == Inst(t, q, j)
    ensures i[n] == j[n]
  {
    SameTermIff(t, p, i, q, j);
    assert Leaf(-1 - n, p, i) == Leaf(-1 - n, q, j);
  }

  /** A slot not in use does not show: its name may be anything. */
  lemma UnusedSlotHidden(t: Pattern, p: seq<string>, i: seq<string>, n: nat, name: string)
    requires n < |p| && !UsesPointer(t, n)
    ensures Inst(t, p[n := name], i) == Inst(t, p, i)
  {
    SameTermIff(t, p[n := name], i, p, i);
  }

  lemma UnusedIntegerHidden(t: Pattern, p: seq<string>, i: seq<string>, n: nat, name: string)
    requires n < |i| && !UsesInteger(t, n)
    ensures Inst(t, p, i[n := name]) == Inst(t, p, i)
  {
    SameTermIff(t, p, i[n := name], p, i);
  }

  // ----- Guard names -----

  function Digit(d: int): (c: char)
    requires 0 <= d < 10
    ensures '0' <= c <= '9' && (c == '0' <==> d == 0)
  {
    "0123456789"[d]
  }

  /** '' + num */
  function Decimal(n: nat): (s: string)
    ensures |s| > 0 && (|s| > 1 ==> s[0] != '0')
    ensures forall c <- s :: '0' <= c <= '9'
  {
    if n < 10 then [Digit(n)] else Decimal(n / 10) + [Digit(n % 10)]
  }

  function Zeros(n: nat): string { seq(n, _ => '0') }

  function Padded(n: nat, length: int): string {
    var s := Decimal(n);
    if |s| < length then Zeros(length - |s|) + s else s
  }

  /** pad */
  method Pad(num: nat, length: int) returns (r: string)
    ensures r == Padded(num, length)
    ensures |r| == Max(length, |Decimal(num)|)
    ensures r[|r| - |Decimal(num)|..] == Decimal(num)
    ensures forall j :: 0 <= j < |r| - |Decimal(num)| ==> r[j] == '0'
  {
    r := Decimal(num);
    ghost var n := 0;
    while |r| < length
      invariant |r| == n + |Decimal(num)| && r == Zeros(n) + Decimal(num)
      invariant n == 0 || |r| <= length
      decreases length - |r|
    {
      ZeroInFront(n, Decimal(num));
      r := "0" + r;
      n := n + 1;
    }
  }

  lemma ZeroInFront(n: nat, s: string)
    ensures "0" + (Zeros(n) + s) == Zeros(n + 1) + s
  {
    assert Zeros(n + 1) == "0" + Zeros(n);
  }

  /** The number a string of digits denotes. */
  function Value(s: string): int {
    if s == [] then 0 else 10 * Value(s[..|s| - 1]) + (s[|s| - 1] as int - '0' as int)
  }

  lemma DigitValue(d: int)
    requires 0 <= d < 10
    ensures Digit(d) as int - '0' as int == d
  {
  }

  lemma {:induction false} DecimalValue(n: nat)
    ensures Value(Decimal(n)) == n
  {
    DigitValue(n % 10);
    if n >= 10 {
      DecimalValue(n / 10);
      assert Decimal(n)[..|Decimal(n)| - 1] == Decimal(n / 10);
    }
  }

  lemma {:induction false} LeadingZeros(z: nat, s: string)
    ensures Value(Zeros(z) + s) == Value(s)
    decreases z + |s|
  {
    var t := Zeros(z) + s;
    if s != [] {
      assert t[..|t| - 1] == Zeros(z) + s[..|s| - 1];
      LeadingZeros(z, s[..|s| - 1]);
    } else if z > 0 {
      assert t[..|t| - 1] == Zeros(z - 1) + [];
      LeadingZeros(z - 1, []);
    }
  }

  /** pad is injective, for numbers of any size: the padded string still denotes the number. */
  lemma PadInjective(m: nat, n: nat, length: int)
    ensures Value(Padded(m, length)) == m
    ensures Padded(m, length) == Padded(n, length) <==> m == n
  {
    PaddedValue(m, length);
    PaddedValue(n, length);
  }

  lemma PaddedValue(n: nat, length: int)
    ensures Value(Padded(n, length)) == n
  {
    DecimalValue(n);
    var s := Decimal(n);
    if |s| < length { LeadingZeros(length - |s|, s); }
  }

  const DIGITS := 4

  function Guard(n: nat): string { "b" + Padded(n, DIGITS) }

  /** How many digits: a number of `d` digits or fewer is below 10^d. */
  function Pow10(d: nat): nat { if d == 0 then 1 else 10 * Pow10(d - 1) }

  lemma {:induction false} DecimalLength(n: nat, d: nat)
    requires d > 0
    ensures |Decimal(n)| <= d <==> n < Pow10(d)
    decreases d
  {
    if d == 1 {
      assert Pow10(1) == 10 * Pow10(0);
    } else if n >= 10 {
      DecimalLength(n / 10, d - 1);
      assert n / 10 < Pow10(d - 1) <==> n < 10 * Pow10(d - 1);
    } else {
      TenIsLess(d);
    }
  }

  lemma {:induction false} TenIsLess(d: nat)
    requires d > 0
    ensures Pow10(d) >= 10
    decreases d
  {
    if d > 1 { TenIsLess(d - 1); }
  }

  /** A guard is the letter b and the number in four digits, zeros in front, or in as many as it
      needs. */
  lemma GuardForm(n: nat)
    ensures var (g, s) := (Guard(n), Decimal(n));
      && |g| == 1 + Max(4, |s|) && g[0] == 'b'
      && g[|g| - |s|..] == s && (forall j :: 1 <= j < |g| - |s| ==> g[j] == '0')
    ensures |Guard(n)| == 5 <==> n < 10000
  {
    DecimalLength(n, 4);
    assert Pow10(4) == 10000 by { assert Pow10(2) == 100; }
    var (g, s) := (Guard(n), Decimal(n));
    assert g[|g| - |s|..] == s;
  }

  lemma GuardInjective(m: nat, n: nat)
    ensures Guard(m) == Guard(n) <==> m == n
  {
    assert Guard(m)[1..] == Padded(m, DIGITS) && Guard(n)[1..] == Padded(n, DIGITS);
    PadInjective(m, n, DIGITS);
  }

  lemma SlotCountsNonNegative(t: Pattern)
    requires t.App?
    ensures NumPtrs(t) >= 1 && NumInts(t) >= 0
  {
    SlotCounts(t);
  }
}
