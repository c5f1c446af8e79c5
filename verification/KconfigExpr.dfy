/** Kconfig dependency expressions and their tristate semantics. */
module KconfigExpr {
  import opened Prelude

  /** n, m and y. */
  type Tri = x: int | 0 <= x <= 2

  datatype Relation = Equal | Unequal | Less | LessEqual | Greater | GreaterEqual

  /**
   * A configuration symbol of bool or tristate type; one of the constants n, m and y; or a quoted or undefined
   * name, which counts as n and compares as text, or as the number that int(text, 0) reads, if any.
   */
  datatype Symbol = Config(index: nat) | Constant(value: Tri) | Literal(text: string, number: Option<int>)

  datatype Expr =
    | Leaf(sym: Symbol)
    | And(left: Expr, right: Expr)
    | Or(left: Expr, right: Expr)
    | Not(operand: Expr)
    | Rel(rel: Relation, a: Symbol, b: Symbol)

  /** A value computed together with the configuration symbols that were looked at on the way. */
  datatype Outcome = Outcome(val: Tri, looked: set<nat>)

  function SymEval(s: Symbol, v: seq<Tri>): (r: Outcome) {
    match s
    case Constant(c) => Outcome(c, {})
    case Config(k) => Outcome(if k < |v| then v[k] else 0, {k})
    case Literal(_, _) => Outcome(0, {})
  }

  /** _strcmp() */
  function StrCmp(a: string, b: string): (comp: int)
    ensures comp == 0 <==> a == b
  {
    if a == "" then (if b == "" then 0 else -1)
    else if b == "" then 1
    else if a[0] != b[0] then (if a[0] < b[0] then -1 else 1)
    else
      assert a == [a[0]] + a[1..] && b == [b[0]] + b[1..];
      StrCmp(a[1..], b[1..])
  }

  function TriText(value: Tri): (text: string) {
    if value == 0 then "n" else if value == 1 then "m" else "y"
  }

  /** Operands of a relation compare as numbers when both are, else as text. */
  function Compare(a: Symbol, b: Symbol, v: seq<Tri>): (comp: int) {
    var x, y := SymNumber(a, v), SymNumber(b, v);
    if x.Some? && y.Some? then x.value - y.value else StrCmp(SymText(a, v), SymText(b, v))
  }

  function SymNumber(s: Symbol, v: seq<Tri>): (n: Option<int>) {
    if s.Literal? then s.number else Some(SymEval(s, v).val)
  }

  function SymText(s: Symbol, v: seq<Tri>): (text: string) {
    if s.Literal? then s.text else TriText(SymEval(s, v).val)
  }

  predicate Holds(rel: Relation, comp: int) {
    match rel
    case Equal => comp == 0
    case Unequal => comp != 0
    case Less => comp < 0
    case LessEqual => comp <= 0
    case Greater => comp > 0
    case GreaterEqual => comp >= 0
  }

  /** expr_value(): AND stops at n and OR stops at y, so the right operand may never be looked at. */
  function Eval(e: Expr, v: seq<Tri>): (r: Outcome) {
    match e
    case Leaf(s) => SymEval(s, v)
    case And(l, r) =>
      var lo := Eval(l, v);
      if lo.val == 0 then lo
      else var ro := Eval(r, v); Outcome(Min(lo.val, ro.val), lo.looked + ro.looked)
    case Or(l, r) =>
      var lo := Eval(l, v);
      if lo.val == 2 then lo
      else var ro := Eval(r, v); Outcome(Max(lo.val, ro.val), lo.looked + ro.looked)
    case Not(x) =>
      var o := Eval(x, v); Outcome(2 - o.val, o.looked)
    case Rel(rel, a, b) =>
      Outcome(if Holds(rel, Compare(a, b, v)) then 2 else 0, SymEval(a, v).looked + SymEval(b, v).looked)
  }

  function SymMentions(s: Symbol): (r: set<nat>) {
    if s.Config? then {s.index} else {}
  }

  /** The configuration symbols that occur in an expression. */
  function Mentions(e: Expr): (r: set<nat>) {
    match e
    case Leaf(s) => SymMentions(s)
    case And(l, r) => Mentions(l) + Mentions(r)
    case Or(l, r) => Mentions(l) + Mentions(r)
    case Not(x) => Mentions(x)
    case Rel(_, a, b) => SymMentions(a) + SymMentions(b)
  }

  ghost predicate Agree(v: seq<Tri>, w: seq<Tri>, on: set<nat>) {
    |v| == |w| && forall k :: k in on && k < |v| ==> v[k] == w[k]
  }

  /** Evaluation depends only on the symbols it looked at. */
  lemma {:induction false} EvalFrame(e: Expr, v: seq<Tri>, w: seq<Tri>)
    requires Agree(v, w, Eval(e, v).looked)
    ensures Eval(e, w) == Eval(e, v)
  {
    match e
    case Leaf(s) =>
    case And(l, r) =>
      EvalFrame(l, v, w);
      if Eval(l, v).val != 0 { EvalFrame(r, v, w); }
    case Or(l, r) =>
      EvalFrame(l, v, w);
      if Eval(l, v).val != 2 { EvalFrame(r, v, w); }
    case Not(x) => EvalFrame(x, v, w);
    case Rel(_, a, b) =>
  }

  lemma {:induction false} LookedAreMentioned(e: Expr, v: seq<Tri>)
    ensures Eval(e, v).looked <= Mentions(e)
  {
    match e
    case Leaf(s) =>
    case And(l, r) => LookedAreMentioned(l, v); LookedAreMentioned(r, v);
    case Or(l, r) => LookedAreMentioned(l, v); LookedAreMentioned(r, v);
    case Not(x) => LookedAreMentioned(x, v);
    case Rel(_, a, b) =>
  }
}
