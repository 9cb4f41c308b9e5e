/** The text `ts` of heaps/pred-gen-list.js writes for a term, and when two texts are the same.

    Every operator of `ts` writes fixed pieces of text before, between and after its operands
    (`ShapeOf`).  What counts is that every piece after an operand begins with a comma, a closing
    parenthesis or a space, so that is all most lemmas ask of the pieces. */
module Texts {
  import opened Candidates
  import opened Emission
  import opened Sequences

  predicate Separator(c: char) { c == ',' || c == ')' || c == ' ' }

  predicate NameLike(s: string) { forall c <- s :: !Separator(c) }

  predicate Ends(s: string) { s == "" || Separator(s[0]) }

  /** The pieces of an operator with so many operands. */
  type Form = (Op, nat) -> seq<string>

  ghost predicate Separating(form: Form) {
    forall op: Op, n: nat :: |form(op, n)| == n + 1 && forall m :: 0 < m <= n ==> form(op, n)[m] != "" && Ends(form(op, n)[m])
  }

  /** How every operator of `ts` writes its operands: `open` before the first, `between` before
      each other one, `close` behind the last. */
  datatype Shape = Shape(open: string, between: string, close: string)

  predicate Separated(s: Shape) { s.between != "" && Ends(s.between) && s.close != "" && Ends(s.close) }

  function Pieces(s: Shape, n: nat): (ps: seq<string>)
    ensures |ps| == n + 1
  {
    seq(n + 1, m => if m == 0 then s.open else if m == n then s.close else s.between)
  }

  function FormOf(table: (Op, nat) -> Shape): Form { (op: Op, n: nat) => Pieces(table(op, n), n) }

  lemma TableSeparates(table: (Op, nat) -> Shape)
    requires forall op: Op, n: nat :: Separated(table(op, n))
    ensures Separating(FormOf(table))
  {
    forall op: Op, n: nat ensures FormOf(table)(op, n) == Pieces(table(op, n), n) { }
    assert forall op: Op, n: nat :: Separated(table(op, n));
  }

  /** The names `init` reads from the program text. */
  datatype Config = Config(lst: string, lst2: string, lst3: string, node: string, before: string)

  function CallShape(f: string): Shape { Shape(f + "(", ",", ")") }

  function InfixShape(between: string): Shape { Shape("(", between, ")") }

  function UnaryShape(c: Config, u: Unary): Shape {
    match u
    case List => Shape("F#" + c.lst + "($s,", ",", ")")
    case List3 => Shape("F#" + c.lst3 + "($s,", ",", ")")
    case SingletonO => CallShape("$oset_singleton")
    case SingletonI => CallShape("$intset_singleton")
    case IsNull => CallShape("$is_null")
    case NonNull => CallShape("$non_null")
    case Next => Shape("$rd_phys_ptr($s," + c.node + "_node.next,", ",", ",^" + c.node + "_node)")
    case Prev => Shape("$rd_phys_ptr($s," + c.node + "_node.prev,", ",", ",^" + c.node + "_node)")
    case Key => Shape("$rd_inv($s," + c.node + "_node.key,", ",", ")")
    case LtIntMax => Shape("(", ",", " < 2147483647)")
    case LtUintMax => Shape("(", ",", " < 4294967295)")
    case GeZero => Shape("(", ",", " >= 0)")
    case Not => Shape("(!(", ",", "))")
  }

  function BinaryShape(c: Config, b: Binary): Shape {
    match b
    case Lseg => Shape("F#" + c.lst + "_lseg($s,", ",", ")")
    case UnionO => CallShape("$oset_union")
    case UnionI => CallShape("$intset_union")
    case InO => CallShape("$oset_in")
    case InI => CallShape("$intset_in")
    case SubsetO => CallShape("$oset_subset")
    case SubsetI => CallShape("$intset_subset")
    case DisjointO => CallShape("$oset_disjoint")
    case DisjointI => CallShape("$intset_disjoint")
    case LeO => CallShape("$oset_le")
    case LeI => CallShape("$intset_le")
    case Plus => InfixShape(" + ")
    case Minus => InfixShape(" - ")
    case Eq => InfixShape(" == ")
    case Neq => InfixShape(" != ")
    case EqS => InfixShape(" == ")
    case Lt => InfixShape(" < ")
    case Le => InfixShape(" <= ")
    case Implies => InfixShape(" ==> ")
  }

  /** With two operands the function of the segment, otherwise that of the list. */
  function SegmentShape(c: Config, s: Segment, n: nat): Shape {
    var open := match s
      case Reach => c.lst + (if n >= 2 then "_lseg_reach" else "_reach") + "($s,"
      case Reach3 => c.lst3 + (if n >= 2 then "_lseg_reach" else "_reach") + "($s,"
      case Keys => c.lst2 + (if n >= 2 then "_lseg_keys" else "_keys") + "($s,"
      case Len => c.lst2 + (if n >= 2 then "_lseg_len_next" else "_list_len_next") + "($s,"
      case ReachOld => c.lst + (if n >= 2 then "_lseg_reach" else "_reach") + "(" + c.before + ","
      case KeysOld => c.lst2 + (if n >= 2 then "_lseg_keys" else "_keys") + "(" + c.before + ","
      case MaxKey => c.lst2 + (if n >= 2 then "_lseg_max_key" else "_max_key") + "($s,"
      case MinKey => c.lst2 + (if n >= 2 then "_lseg_min_key" else "_min_key") + "($s,";
    Shape("F#" + open, ",", ")")
  }

  /** The cases of ts.  An unknown operator never gets as far. */
  function ShapeOf(c: Config, op: Op, n: nat): Shape {
    match op
    case One(u) => UnaryShape(c, u)
    case Two(b) => BinaryShape(c, b)
    case OneOrTwo(s) => SegmentShape(c, s, n)
    case And => InfixShape(" && ")
    case Unknown(name) => CallShape(name)
  }

  lemma ShapeIsSeparated(c: Config, op: Op, n: nat)
    ensures Separated(ShapeOf(c, op, n))
  {
  }

  function TsForm(c: Config): Form { FormOf((op: Op, n: nat) => ShapeOf(c, op, n)) }

  /** Behind every operand ts writes a comma, a closing parenthesis or a space. */
  lemma TsSeparates(c: Config)
    ensures Separating(TsForm(c))
  {
    forall op: Op, n: nat ensures Separated(ShapeOf(c, op, n)) { ShapeIsSeparated(c, op, n); }
    TableSeparates((op: Op, n: nat) => ShapeOf(c, op, n));
  }

  /** `node` is the list's node type; JavaScript writes `undefined` for a name that is not there. */
  ghost function Text(form: Form, node: string, t: Term): string
    requires Separating(form)
    decreases t
  {
    match t
    case Pointer(x) => "$phys_ptr_cast(" + (x + (",^" + node + "_node)"))
    case Integer(x) => x
    case Undefined => "undefined"
    case Apply(op, args) => form(op, |args|)[0] + Operands(form, node, op, args, 0)
  }

  /** The operands from the `n`th on, each with the piece behind it. */
  ghost function Operands(form: Form, node: string, op: Op, args: seq<Term>, n: nat): string
    requires Separating(form) && n <= |args|
    decreases args, |args| - n
  {
    if n == |args| then ""
    else Text(form, node, args[n]) + (form(op, |args|)[n + 1] + Operands(form, node, op, args, n + 1))
  }

  /** The terms differ at most in the names. */
  predicate SameShape(t: Term, u: Term) {
    match (t, u)
    case (Pointer(_), Pointer(_)) => true
    case (Integer(_), Integer(_)) => true
    case (Undefined, Undefined) => true
    case (Apply(f, ts), Apply(g, us)) => f == g && |ts| == |us| && forall j :: 0 <= j < |ts| ==> SameShape(ts[j], us[j])
    case _ => false
  }

  predicate NamesOk(t: Term) {
    match t
    case Pointer(x) => NameLike(x)
    case Integer(x) => NameLike(x)
    case Undefined => true
    case Apply(_, args) => forall a <- args :: NamesOk(a)
  }

  lemma NameSplits(x: string, u: string, y: string, v: string)
    requires NameLike(x) && NameLike(y) && Ends(u) && Ends(v) && x + u == y + v
    ensures x == y && u == v
  {
    NotLonger(x, u, y, v);
    NotLonger(y, v, x, u);
    assert x == (x + u)[..|x|] && y == (y + v)[..|x|];
    CancelFront(x, u, v);
  }

  lemma NotLonger(x: string, u: string, y: string, v: string)
    requires NameLike(x) && Ends(v) && x + u == y + v
    ensures |x| <= |y|
  {
    var c := CharAt(x + u, |y|);
    assert c == CharAt(y + v, |y|);
    assert v == "" || Separator(c);
    assert |y| < |x| ==> c in x;
  }

  function CharAt(s: string, k: nat): char { if k < |s| then s[k] else ' ' }

  lemma CancelFront(a: string, x: string, y: string)
    requires a + x == a + y
    ensures x == y
  {
    assert x == (a + x)[|a|..];
  }


  /** Read from the left, a text followed by a separator shows the names it holds and where it
      stops. */
  lemma {:induction false} TextSplits(form: Form, node: string, t: Term, u: string, t': Term, u': string)
    requires Separating(form) && SameShape(t, t') && NamesOk(t) && NamesOk(t') && Ends(u) && Ends(u')
    requires Text(form, node, t) + u == Text(form, node, t') + u'
    ensures t == t' && u == u'
    decreases t
  {
    match t
    case Pointer(x) =>
      var (a, b) := ("$phys_ptr_cast(", ",^" + node + "_node)");
      var y := t'.name;
      Regroup3(a, x, b, u);
      Regroup3(a, y, b, u');
      CancelFront(a, x + (b + u), y + (b + u'));
      NameSplits(x, b + u, y, b + u');
      CancelFront(b, u, u');
    case Integer(x) =>
      NameSplits(x, u, t'.name, u');
    case Undefined =>
      CancelFront("undefined", u, u');
    case Apply(op, args) =>
      var (r, r') := (Operands(form, node, op, args, 0), Operands(form, node, op, t'.args, 0));
      var a := form(op, |args|)[0];
      Regroup(a, r, u, r + u);
      Regroup(a, r', u', r' + u');
      CancelFront(a, r + u, r' + u');
      OperandsSplit(form, node, op, args, u, t'.args, u', 0);
      assert args == t'.args;
  }

  lemma Regroup3(a: string, x: string, b: string, u: string)
    ensures (a + (x + b)) + u == a + (x + (b + u))
  {
  }

  lemma {:induction false} OperandsSplit(form: Form, node: string, op: Op, args: seq<Term>, u: string, args': seq<Term>, u': string, n: nat)
    requires Separating(form) && |args| == |args'| && n <= |args| && Ends(u) && Ends(u')
    requires forall j :: 0 <= j < |args| ==> SameShape(args[j], args'[j]) && NamesOk(args[j]) && NamesOk(args'[j])
    requires Operands(form, node, op, args, n) + u == Operands(form, node, op, args', n) + u'
    ensures u == u' && forall j :: n <= j < |args| ==> args[j] == args'[j]
    decreases args, |args| - n
  {
    if n < |args| {
      var b := form(op, |args|)[n + 1];
      var (x, x') := (Text(form, node, args[n]), Text(form, node, args'[n]));
      var (r, r') := (Operands(form, node, op, args, n + 1), Operands(form, node, op, args', n + 1));
      Regroup3(x, b, r, u);
      Regroup3(x', b, r', u');
      TextSplits(form, node, args[n], b + (r + u), args'[n], b + (r' + u'));
      CancelFront(b, r + u, r' + u');
      OperandsSplit(form, node, op, args, u, args', u', n + 1);
    } else {
      assert "" + u == u && "" + u' == u';
    }
  }

  lemma TextShowsTerm(form: Form, node: string, t: Term, u: Term)
    requires Separating(form) && SameShape(t, u) && NamesOk(t) && NamesOk(u)
    ensures Text(form, node, t) == Text(form, node, u) <==> t == u
  {
    if Text(form, node, t) == Text(form, node, u) { TextSplits(form, node, t, "", u, ""); }
  }

  lemma {:induction false} InstsSameShape(t: Pattern, p: seq<string>, i: seq<string>, q: seq<string>, j: seq<string>)
    requires |p| == |q| && |i| == |j|
    ensures SameShape(Inst(t, p, i), Inst(t, q, j))
  {
    match t
    case Slot(_) =>
    case App(_, args) =>
      forall k | 0 <= k < |args| ensures SameShape(Inst(args[k], p, i), Inst(args[k], q, j)) {
        InstsSameShape(args[k], p, i, q, j);
      }
  }

  lemma {:induction false} InstNamesOk(t: Pattern, p: seq<string>, i: seq<string>)
    requires (forall x <- p :: NameLike(x)) && forall x <- i :: NameLike(x)
    ensures NamesOk(Inst(t, p, i))
  {
    match t
    case Slot(n) =>
    case App(_, args) =>
      var ts := Inst(t, p, i).args;
      forall x | x in ts ensures NamesOk(x) {
        var k :| 0 <= k < |ts| && ts[k] == x;
        InstNamesOk(args[k], p, i);
      }
  }

  /** Two assignments of name-like names give the same text iff they give the same term. */
  lemma SameTextIff(form: Form, node: string, t: Pattern, p: seq<string>, i: seq<string>, q: seq<string>, j: seq<string>)
    requires Separating(form) && |p| == |q| && |i| == |j|
    requires (forall x <- p :: NameLike(x)) && (forall x <- q :: NameLike(x))
    requires (forall x <- i :: NameLike(x)) && (forall x <- j :: NameLike(x))
    ensures Text(form, node, Inst(t, p, i)) == Text(form, node, Inst(t, q, j)) <==> Inst(t, p, i) == Inst(t, q, j)
  {
    InstsSameShape(t, p, i, q, j);
    InstNamesOk(t, p, i);
    InstNamesOk(t, q, j);
    TextShowsTerm(form, node, Inst(t, p, i), Inst(t, q, j));
  }

  ghost function TextsOf(form: Form, node: string, cs: seq<Call>): (ss: seq<string>)
    requires Separating(form)
    ensures |ss| == |cs| && forall j :: 0 <= j < |cs| ==> ss[j] == Text(form, node, Ideal(cs[j]))
  {
    seq(|cs|, j requires 0 <= j < |cs| => Text(form, node, Ideal(cs[j])))
  }

  ghost predicate OnePattern(cs: seq<Call>, t: Pattern, p: nat, i: nat) {
    forall c <- cs :: c.t == t && |c.p| == p && |c.i| == i && (forall x <- c.p + c.i :: NameLike(x))
  }

  /** The lines of one pattern repeat a text iff they repeat a term. */
  lemma TextsDistinctIff(form: Form, node: string, cs: seq<Call>, t: Pattern, p: nat, i: nat)
    requires Separating(form) && OnePattern(cs, t, p, i)
    ensures Distinct(TextsOf(form, node, cs)) <==> Distinct(Ideals(cs))
  {
    var (ss, ts) := (TextsOf(form, node, cs), Ideals(cs));
    forall m, n | 0 <= m < n < |cs| ensures ss[m] == ss[n] <==> ts[m] == ts[n] {
      var (c, d) := (cs[m], cs[n]);
      assert c in cs && d in cs;
      assert forall x :: x in c.p + c.i <==> x in c.p || x in c.i;
      assert forall x :: x in d.p + d.i <==> x in d.p || x in d.i;
      SameTextIff(form, node, t, c.p, c.i, d.p, d.i);
    }
  }

  lemma FormIs(c: Config, op: Op, n: nat)
    ensures TsForm(c)(op, n) == Pieces(ShapeOf(c, op, n), n)
  {
  }

  /** The text of an operator with one operand, and with two. */
  lemma TextOfOne(c: Config, op: Op, a: Term)
    ensures Separating(TsForm(c))
    ensures var s := ShapeOf(c, op, 1);
            Text(TsForm(c), c.node, Apply(op, [a])) == s.open + (Text(TsForm(c), c.node, a) + s.close)
  {
    TsSeparates(c);
    FormIs(c, op, 1);
    var s := ShapeOf(c, op, 1);
    assert Pieces(s, 1)[0] == s.open && Pieces(s, 1)[1] == s.close;
    assert Operands(TsForm(c), c.node, op, [a], 1) == "";
    assert s.close + "" == s.close;
  }

  lemma TextOfTwo(c: Config, op: Op, a: Term, b: Term)
    ensures Separating(TsForm(c))
    ensures var s := ShapeOf(c, op, 2);
            Text(TsForm(c), c.node, Apply(op, [a, b])) ==
            s.open + (Text(TsForm(c), c.node, a) + (s.between + (Text(TsForm(c), c.node, b) + s.close)))
  {
    TsSeparates(c);
    FormIs(c, op, 2);
    var s := ShapeOf(c, op, 2);
    assert Pieces(s, 2)[0] == s.open && Pieces(s, 2)[1] == s.between && Pieces(s, 2)[2] == s.close;
    var (form, x, y) := (TsForm(c), Text(TsForm(c), c.node, a), Text(TsForm(c), c.node, b));
    assert Operands(form, c.node, op, [a, b], 2) == "";
    assert s.close + "" == s.close;
    assert Operands(form, c.node, op, [a, b], 1) == y + (s.close + "");
    assert Operands(form, c.node, op, [a, b], 0) == x + (s.between + (y + (s.close + "")));
  }

  /** `reach` of a segment and of a list, spelled out for singly linked lists. */
  lemma SegmentReachText(x: string, y: string)
    ensures var c := Config("sll", "sll", "", "s", "loopState#0");
            Separating(TsForm(c)) &&
            Text(TsForm(c), "s", Apply(OneOrTwo(Reach), [Pointer(x), Pointer(y)])) ==
            "F#sll_lseg_reach($s," + (Text(TsForm(c), "s", Pointer(x)) + ("," + (Text(TsForm(c), "s", Pointer(y)) + ")")))
  {
    var c := Config("sll", "sll", "", "s", "loopState#0");
    TextOfTwo(c, OneOrTwo(Reach), Pointer(x), Pointer(y));
    assert ShapeOf(c, OneOrTwo(Reach), 2).open == "F#sll_lseg_reach($s,";
  }

  lemma ListReachText(x: string)
    ensures var c := Config("sll", "sll", "", "s", "loopState#0");
            Separating(TsForm(c)) &&
            Text(TsForm(c), "s", Apply(OneOrTwo(Reach), [Pointer(x)])) ==
            "F#sll_reach($s," + (Text(TsForm(c), "s", Pointer(x)) + ")")
  {
    var c := Config("sll", "sll", "", "s", "loopState#0");
    TextOfOne(c, OneOrTwo(Reach), Pointer(x));
    assert ShapeOf(c, OneOrTwo(Reach), 1).open == "F#sll_reach($s,";
  }
}
