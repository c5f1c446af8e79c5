/** Printing an expression as Kconfig text and parsing its tokens back. */
module KconfigParse {
  import opened Prelude
  import opened KconfigExpr

  /** EndOfLine is the None that closes every token list; Other is any token no expression contains. */
  datatype Token = Sym(sym: Symbol) | AndTok | OrTok | NotTok | Open | Close | RelTok(rel: Relation) | Other | EndOfLine

  // ---------------------------------------------------------------- expr_str()

  /** The tokens of expr_str(). Text only adds blanks between them. */
  function Print(e: Expr): (r: seq<Token>)
    decreases e, 0
  {
    match e
    case Leaf(s) => [Sym(s)]
    case And(l, r) => PrintOperand(l, true) + [AndTok] + PrintOperand(r, true)
    case Or(l, r) => PrintOperand(l, false) + [OrTok] + PrintOperand(r, false)
    case Not(x) => if x.Leaf? then [NotTok, Sym(x.sym)] else [NotTok, Open] + Print(x) + [Close]
    case Rel(rel, a, b) => [Sym(a), RelTok(rel), Sym(b)]
  }

  /** _parenthesize(): an OR inside an AND and an AND inside an OR get parentheses. */
  function PrintOperand(e: Expr, inAnd: bool): (r: seq<Token>)
    decreases e, 1
  {
    if (if inAnd then e.Or? else e.And?) then [Open] + Print(e) + [Close] else Print(e)
  }

  // ---------------------------------------------------------------- the recursive-descent parser

  datatype Parsed = Malformed | Parsed(expr: Expr, rest: seq<Token>)

  function Head(ts: seq<Token>): (r: Token) {
    if ts == [] then EndOfLine else ts[0]
  }

  /** and_expr ['||' expr] */
  function ExprFrom(ts: seq<Token>): (p: Parsed)
    ensures p.Parsed? ==> |p.rest| < |ts|
    decreases |ts|, 2
  {
    var l := AndFrom(ts);
    if l.Parsed? && Head(l.rest) == OrTok then
      var r := ExprFrom(l.rest[1..]);
      if r.Parsed? then Parsed(Or(l.expr, r.expr), r.rest) else Malformed
    else l
  }

  /** factor ['&&' and_expr] */
  function AndFrom(ts: seq<Token>): (p: Parsed)
    ensures p.Parsed? ==> |p.rest| < |ts|
    decreases |ts|, 1
  {
    var l := FactorFrom(ts);
    if l.Parsed? && Head(l.rest) == AndTok then
      var r := AndFrom(l.rest[1..]);
      if r.Parsed? then Parsed(And(l.expr, r.expr), r.rest) else Malformed
    else l
  }

  /** symbol [relation symbol], '!' factor, or '(' expr ')' */
  function FactorFrom(ts: seq<Token>): (p: Parsed)
    ensures p.Parsed? ==> |p.rest| < |ts|
    decreases |ts|, 0
  {
    match Head(ts)
    case Sym(s) =>
      if !Head(ts[1..]).RelTok? then Parsed(Leaf(s), ts[1..])
      else if !Head(ts[2..]).Sym? then Malformed
      else Parsed(Rel(ts[1].rel, s, ts[2].sym), ts[3..])
    case NotTok =>
      var x := FactorFrom(ts[1..]);
      if x.Parsed? then Parsed(Not(x.expr), x.rest) else Malformed
    case Open =>
      var x := ExprFrom(ts[1..]);
      if x.Parsed? && Head(x.rest) == Close then Parsed(x.expr, x.rest[1..]) else Malformed
    case _ => Malformed
  }

  /** The parser's token list and cursor. Each method leaves the cursor where its grammar rule ends. */
  class Parser {
    const tokens: seq<Token>
    var pos: nat

    constructor (tokens: seq<Token>)
      ensures this.tokens == tokens && pos == 0
    {
      this.tokens, pos := tokens, 0;
    }

    ghost predicate At(rest: seq<Token>)
      reads this
    {
      pos <= |tokens| && tokens[pos..] == rest
    }

    /** _check_token(): consumes the next token if it is the given one. */
    method CheckToken(t: Token) returns (found: bool)
      requires pos <= |tokens| && t != EndOfLine
      modifies this
      ensures found == (Head(tokens[old(pos)..]) == t)
      ensures pos == old(pos) + (if found then 1 else 0) && pos <= |tokens|
    {
      found := pos < |tokens| && tokens[pos] == t;
      if found {
        pos := pos + 1;
      }
    }

    /** _parse_expr() with transform_m off; None stands for the KconfigError it raises. */
    method ParseExpr() returns (expr: Option<Expr>)
      requires pos <= |tokens|
      modifies this
      ensures match ExprFrom(tokens[old(pos)..]) case Malformed => expr == None case Parsed(e, rest) => expr == Some(e) && At(rest)
      ensures old(pos) <= pos <= |tokens|
      decreases |tokens| - pos, 2
    {
      hide AndFrom;
      expr := ParseAndExpr();
      if expr.Some? {
        var more := CheckToken(OrTok);
        if more {
          var right := ParseExpr();
          expr := if right.Some? then Some(Or(expr.value, right.value)) else None;
        }
      }
    }

    method ParseAndExpr() returns (expr: Option<Expr>)
      requires pos <= |tokens|
      modifies this
      ensures match AndFrom(tokens[old(pos)..]) case Malformed => expr == None case Parsed(e, rest) => expr == Some(e) && At(rest)
      ensures old(pos) <= pos <= |tokens|
      decreases |tokens| - pos, 1
    {
      hide FactorFrom;
      expr := ParseFactor();
      if expr.Some? {
        var more := CheckToken(AndTok);
        if more {
          var right := ParseAndExpr();
          expr := if right.Some? then Some(And(expr.value, right.value)) else None;
        }
      }
    }

    method ParseFactor() returns (expr: Option<Expr>)
      requires pos <= |tokens|
      modifies this
      ensures match FactorFrom(tokens[old(pos)..]) case Malformed => expr == None case Parsed(e, rest) => expr == Some(e) && At(rest)
      ensures old(pos) <= pos <= |tokens|
      decreases |tokens| - pos, 0
    {
      hide ExprFrom, AndFrom;
      expr := None;
      if pos == |tokens| {
        return;
      }
      var token := tokens[pos];
      assert tokens[pos..][1..] == tokens[pos + 1..];
      pos := pos + 1;
      match token
      case Sym(s) =>
        if pos == |tokens| || !tokens[pos].RelTok? {
          return Some(Leaf(s));
        }
        pos := pos + 1;
        if pos < |tokens| && tokens[pos].Sym? {
          pos := pos + 1;
          expr := Some(Rel(tokens[pos - 2].rel, s, tokens[pos - 1].sym));
        }
      case NotTok =>
        expr := ParseFactor();
        if expr.Some? {
          expr := Some(Not(expr.value));
        }
      case Open =>
        expr := ParseExpr();
        if expr.Some? {
          var closed := CheckToken(Close);
          if !closed {
            expr := None;
          }
        }
      case _ =>
    }
  }

  // ---------------------------------------------------------------- what comes back

  /** l && r with the && chain of l hung to the right. */
  function AndThen(l: Expr, r: Expr): (v: Expr) {
    if l.And? then And(l.left, AndThen(l.right, r)) else And(l, r)
  }

  function OrThen(l: Expr, r: Expr): (v: Expr) {
    if l.Or? then Or(l.left, OrThen(l.right, r)) else Or(l, r)
  }

  /** The expression with every && chain and every || chain nested to the right. */
  function RightNested(e: Expr): (n: Expr)
    ensures n.And? == e.And? && n.Or? == e.Or? && n.Leaf? == e.Leaf?
  {
    match e
    case And(l, r) => AndThen(RightNested(l), RightNested(r))
    case Or(l, r) => OrThen(RightNested(l), RightNested(r))
    case Not(x) => Not(RightNested(x))
    case _ => e
  }

  /** No && has an && on its left, and no || an ||. */
  predicate IsRightNested(e: Expr) {
    match e
    case And(l, r) => !l.And? && IsRightNested(l) && IsRightNested(r)
    case Or(l, r) => !l.Or? && IsRightNested(l) && IsRightNested(r)
    case Not(x) => IsRightNested(x)
    case _ => true
  }

  lemma {:induction false} AndThenAssociates(a: Expr, b: Expr, c: Expr)
    ensures AndThen(AndThen(a, b), c) == AndThen(a, AndThen(b, c))
  {
    if a.And? { AndThenAssociates(a.right, b, c); }
  }

  lemma {:induction false} OrThenAssociates(a: Expr, b: Expr, c: Expr)
    ensures OrThen(OrThen(a, b), c) == OrThen(a, OrThen(b, c))
  {
    if a.Or? { OrThenAssociates(a.right, b, c); }
  }

  predicate Stops(rest: seq<Token>, orToo: bool) {
    Head(rest) != AndTok && !Head(rest).RelTok? && (orToo ==> Head(rest) != OrTok)
  }

  lemma {:induction false} ParenthesizedParses(e: Expr, rest: seq<Token>)
    ensures FactorFrom([Open] + Print(e) + [Close] + rest) == Parsed(RightNested(e), rest)
    decreases e, 6
  {
    PrintParses(e, [Close] + rest);
    assert ([Open] + Print(e) + [Close] + rest)[1..] == Print(e) + ([Close] + rest);
    assert ([Close] + rest)[1..] == rest;
  }

  /** Symbols, relations and negations print as one factor. */
  lemma {:induction false} AtomParses(e: Expr, rest: seq<Token>)
    requires !e.And? && !e.Or? && !Head(rest).RelTok?
    ensures FactorFrom(Print(e) + rest) == Parsed(RightNested(e), rest)
    decreases e, 0
  {
    var ts := Print(e) + rest;
    match e
    case Leaf(s) => assert ts[1..] == rest;
    case Rel(rel, a, b) => assert ts[3..] == rest && ts[1..][0] == ts[1] && ts[2..][0] == ts[2];
    case Not(x) =>
      if x.Leaf? {
        assert ts[1..] == Print(x) + rest;
        AtomParses(x, rest);
      } else {
        assert ts[1..] == [Open] + Print(x) + [Close] + rest;
        ParenthesizedParses(x, rest);
      }
  }

  lemma {:induction false} AndOperandParses(e: Expr, rest: seq<Token>)
    requires Stops(rest, false)
    ensures AndFrom(PrintOperand(e, true) + rest) == Parsed(RightNested(e), rest)
    decreases e, if e.Or? then 8 else 3
  {
    match e
    case And(l, r) =>
      AndOperandParses(r, rest);
      AndChainParses(l, PrintOperand(r, true) + rest);
      assert PrintOperand(e, true) + rest == PrintOperand(l, true) + [AndTok] + (PrintOperand(r, true) + rest);
    case Or(_, _) => OrInAnd(e, rest);
    case _ => AtomParses(e, rest);
  }

  lemma {:induction false} OrInAnd(e: Expr, rest: seq<Token>)
    requires e.Or?
    ensures FactorFrom(PrintOperand(e, true) + rest) == Parsed(RightNested(e), rest)
    decreases e, 7
  {
    ParenthesizedParses(e, rest);
  }

  lemma Regrouped(a: seq<Token>, b: seq<Token>, c: seq<Token>, op: Token)
    ensures (a + [op] + b) + [op] + c == a + [op] + (b + [op] + c)
  {
  }

  lemma {:induction false} AndChainParses(e: Expr, more: seq<Token>)
    requires AndFrom(more).Parsed?
    ensures AndFrom(PrintOperand(e, true) + [AndTok] + more) == Parsed(AndThen(RightNested(e), AndFrom(more).expr), AndFrom(more).rest)
    decreases e, if e.Or? then 9 else 2
  {
    if e.And? {
      var mid := PrintOperand(e.right, true) + [AndTok] + more;
      assert PrintOperand(e, true) == PrintOperand(e.left, true) + [AndTok] + PrintOperand(e.right, true);
      hide AndFrom, PrintOperand;
      AndChainParses(e.right, more);
      AndChainParses(e.left, mid);
      Regrouped(PrintOperand(e.left, true), PrintOperand(e.right, true), more, AndTok);
      AndThenAssociates(RightNested(e.left), RightNested(e.right), AndFrom(more).expr);
    } else {
      AndChainStarts(e, more);
    }
  }

  lemma {:induction false} AndChainStarts(e: Expr, more: seq<Token>)
    requires AndFrom(more).Parsed? && !e.And?
    ensures AndFrom(PrintOperand(e, true) + [AndTok] + more) == Parsed(And(RightNested(e), AndFrom(more).expr), AndFrom(more).rest)
    decreases e, if e.Or? then 8 else 1
  {
    assert ([AndTok] + more)[1..] == more;
    assert PrintOperand(e, true) + [AndTok] + more == PrintOperand(e, true) + ([AndTok] + more);
    if e.Or? {
      OrInAnd(e, [AndTok] + more);
    } else {
      AtomParses(e, [AndTok] + more);
    }
  }

  lemma {:induction false} AndInOr(e: Expr, rest: seq<Token>)
    requires e.And? && Stops(rest, false)
    ensures AndFrom(PrintOperand(e, false) + rest) == Parsed(RightNested(e), rest)
    decreases e, 7
  {
    ParenthesizedParses(e, rest);
  }

  lemma {:induction false} OrOperandParses(e: Expr, rest: seq<Token>)
    requires Stops(rest, true)
    ensures ExprFrom(PrintOperand(e, false) + rest) == Parsed(RightNested(e), rest)
    decreases e, 8
  {
    if e.And? {
      AndInOr(e, rest);
    } else {
      PrintParses(e, rest);
    }
  }

  lemma {:induction false} OrChainParses(e: Expr, more: seq<Token>)
    requires ExprFrom(more).Parsed?
    ensures ExprFrom(PrintOperand(e, false) + [OrTok] + more) == Parsed(OrThen(RightNested(e), ExprFrom(more).expr), ExprFrom(more).rest)
    decreases e, 9
  {
    if e.Or? {
      var mid := PrintOperand(e.right, false) + [OrTok] + more;
      assert PrintOperand(e, false) == PrintOperand(e.left, false) + [OrTok] + PrintOperand(e.right, false);
      hide ExprFrom, PrintOperand;
      OrChainParses(e.right, more);
      OrChainParses(e.left, mid);
      Regrouped(PrintOperand(e.left, false), PrintOperand(e.right, false), more, OrTok);
      OrThenAssociates(RightNested(e.left), RightNested(e.right), ExprFrom(more).expr);
    } else {
      OrChainStarts(e, more);
    }
  }

  lemma {:induction false} OrChainStarts(e: Expr, more: seq<Token>)
    requires ExprFrom(more).Parsed? && !e.Or?
    ensures ExprFrom(PrintOperand(e, false) + [OrTok] + more) == Parsed(Or(RightNested(e), ExprFrom(more).expr), ExprFrom(more).rest)
    decreases e, 8
  {
    assert ([OrTok] + more)[1..] == more;
    assert PrintOperand(e, false) + [OrTok] + more == PrintOperand(e, false) + ([OrTok] + more);
    if e.And? {
      AndInOr(e, [OrTok] + more);
    } else {
      AtomParses(e, [OrTok] + more);
    }
  }

  /** Parsing what was printed consumes exactly that and gives the right-nested expression. */
  lemma {:induction false} PrintParses(e: Expr, rest: seq<Token>)
    requires Stops(rest, true)
    ensures ExprFrom(Print(e) + rest) == Parsed(RightNested(e), rest)
    decreases e, 5
  {
    match e
    case Or(l, r) =>
      OrOperandParses(r, rest);
      OrChainParses(l, PrintOperand(r, false) + rest);
      assert Print(e) + rest == PrintOperand(l, false) + [OrTok] + (PrintOperand(r, false) + rest);
    case _ =>
      AndOperandParses(e, rest);
  }

  lemma {:induction false} AndThenValue(l: Expr, r: Expr, v: seq<Tri>)
    ensures Eval(AndThen(l, r), v).val == Min(Eval(l, v).val, Eval(r, v).val)
  {
    if l.And? { AndThenValue(l.right, r, v); }
  }

  lemma {:induction false} OrThenValue(l: Expr, r: Expr, v: seq<Tri>)
    ensures Eval(OrThen(l, r), v).val == Max(Eval(l, v).val, Eval(r, v).val)
  {
    if l.Or? { OrThenValue(l.right, r, v); }
  }

  lemma {:induction false} RightNestedValue(e: Expr, v: seq<Tri>)
    ensures Eval(RightNested(e), v).val == Eval(e, v).val
  {
    match e
    case And(l, r) =>
      RightNestedValue(l, v); RightNestedValue(r, v);
      AndThenValue(RightNested(l), RightNested(r), v);
    case Or(l, r) =>
      RightNestedValue(l, v); RightNestedValue(r, v);
      OrThenValue(RightNested(l), RightNested(r), v);
    case Not(x) => RightNestedValue(x, v);
    case _ =>
  }

  lemma {:induction false} RightNestedIsRightNested(e: Expr)
    ensures IsRightNested(RightNested(e))
  {
    match e
    case And(l, r) =>
      RightNestedIsRightNested(l); RightNestedIsRightNested(r);
      AndThenIsRightNested(RightNested(l), RightNested(r));
    case Or(l, r) =>
      RightNestedIsRightNested(l); RightNestedIsRightNested(r);
      OrThenIsRightNested(RightNested(l), RightNested(r));
    case Not(x) => RightNestedIsRightNested(x);
    case _ =>
  }

  lemma {:induction false} AndThenIsRightNested(l: Expr, r: Expr)
    requires IsRightNested(l) && IsRightNested(r)
    ensures IsRightNested(AndThen(l, r))
  {
    if l.And? { AndThenIsRightNested(l.right, r); }
  }

  lemma {:induction false} OrThenIsRightNested(l: Expr, r: Expr)
    requires IsRightNested(l) && IsRightNested(r)
    ensures IsRightNested(OrThen(l, r))
  {
    if l.Or? { OrThenIsRightNested(l.right, r); }
  }

  lemma {:induction false} RightNestedFixed(e: Expr)
    requires IsRightNested(e)
    ensures RightNested(e) == e
  {
    match e
    case And(l, r) => RightNestedFixed(l); RightNestedFixed(r);
    case Or(l, r) => RightNestedFixed(l); RightNestedFixed(r);
    case Not(x) => RightNestedFixed(x);
    case _ =>
  }

  /**
   * Printing then parsing consumes every token and keeps the value under every assignment; the
   * very same expression comes back exactly when its chains are nested to the right.
   */
  lemma PrintThenParse(e: Expr)
    ensures var p := ExprFrom(Print(e) + [EndOfLine]);
      && p.Parsed? && p.rest == [EndOfLine]
      && (forall v :: Eval(p.expr, v).val == Eval(e, v).val)
      && (p.expr == e <==> IsRightNested(e))
  {
    PrintParses(e, [EndOfLine]);
    forall v ensures Eval(RightNested(e), v).val == Eval(e, v).val {
      RightNestedValue(e, v);
    }
    if IsRightNested(e) {
      RightNestedFixed(e);
    }
    RightNestedIsRightNested(e);
  }

  // ---------------------------------------------------------------- the grammar

  /** and_expr ['||' expr] */
  ghost predicate IsExpr(ts: seq<Token>, e: Expr)
    decreases |ts|, 2
  {
    || IsAndExpr(ts, e)
    || (e.Or? && exists k :: 0 <= k < |ts| && ts[k] == OrTok && IsAndExpr(ts[..k], e.left) && IsExpr(ts[k + 1..], e.right))
  }

  /** factor ['&&' and_expr] */
  ghost predicate IsAndExpr(ts: seq<Token>, e: Expr)
    decreases |ts|, 1
  {
    || IsFactor(ts, e)
    || (e.And? && exists k :: 0 <= k < |ts| && ts[k] == AndTok && IsFactor(ts[..k], e.left) && IsAndExpr(ts[k + 1..], e.right))
  }

  /** A symbol, a relation of two, a negated factor, or an expression in parentheses. */
  ghost predicate IsFactor(ts: seq<Token>, e: Expr)
    decreases |ts|, 0
  {
    || (e.Leaf? && ts == [Sym(e.sym)])
    || (e.Rel? && ts == [Sym(e.a), RelTok(e.rel), Sym(e.b)])
    || (e.Not? && ts != [] && ts[0] == NotTok && IsFactor(ts[1..], e.operand))
    || (|ts| >= 2 && ts[0] == Open && ts[|ts| - 1] == Close && IsExpr(ts[1..|ts| - 1], e))
  }

  /** What a parser took away from the front of the tokens. */
  function Taken(ts: seq<Token>, p: Parsed): (pre: seq<Token>)
    requires p.Parsed? && |p.rest| <= |ts|
  {
    ts[..|ts| - |p.rest|]
  }

  lemma TakenIs(ts: seq<Token>, p: Parsed, pre: seq<Token>)
    requires p.Parsed? && ts == pre + p.rest
    ensures Taken(ts, p) == pre && ts == Taken(ts, p) + p.rest
  {
  }

  lemma Split(a: seq<Token>, op: Token, b: seq<Token>, rest: seq<Token>)
    ensures a + [op] + b + rest == a + ([op] + b + rest) && ([op] + b + rest)[1..] == b + rest
    ensures Head([op] + b + rest) == op
  {
  }

  lemma Joined(rest: seq<Token>, op: Token)
    requires Head(rest) == op && op != EndOfLine
    ensures rest == [op] + rest[1..]
  {
  }

  lemma OrDerived(a: seq<Token>, x: Expr, b: seq<Token>, y: Expr)
    requires IsAndExpr(a, x) && IsExpr(b, y)
    ensures IsExpr(a + [OrTok] + b, Or(x, y))
  {
    var ts := a + [OrTok] + b;
    assert ts[|a|] == OrTok && ts[..|a|] == a && ts[|a| + 1..] == b;
    hide IsAndExpr;
  }

  lemma AndDerived(a: seq<Token>, x: Expr, b: seq<Token>, y: Expr)
    requires IsFactor(a, x) && IsAndExpr(b, y)
    ensures IsAndExpr(a + [AndTok] + b, And(x, y))
  {
    var ts := a + [AndTok] + b;
    assert ts[|a|] == AndTok && ts[..|a|] == a && ts[|a| + 1..] == b;
    hide IsFactor;
  }

  lemma NotDerived(a: seq<Token>, x: Expr)
    requires IsFactor(a, x)
    ensures IsFactor([NotTok] + a, Not(x))
  {
    assert ([NotTok] + a)[1..] == a;
    hide IsExpr;
  }

  lemma ParenthesesDerived(a: seq<Token>, x: Expr)
    requires IsExpr(a, x)
    ensures IsFactor([Open] + a + [Close], x)
  {
    var ts := [Open] + a + [Close];
    assert ts[1..|ts| - 1] == a && ts[|ts| - 1] == Close;
    hide IsExpr;
  }

  /** Whatever is parsed is what the grammar derives from the tokens taken. */
  lemma {:induction false} ExprIsDerived(ts: seq<Token>)
    requires ExprFrom(ts).Parsed?
    ensures var p := ExprFrom(ts); ts == Taken(ts, p) + p.rest && IsExpr(Taken(ts, p), p.expr)
    decreases |ts|, 2
  {
    var l := AndFrom(ts);
    AndIsDerived(ts);
    if Head(l.rest) == OrTok {
      hide AndFrom, IsAndExpr, IsExpr, Taken;
      ExprIsDerived(l.rest[1..]);
      var r := ExprFrom(l.rest[1..]);
      var a, b := Taken(ts, l), Taken(l.rest[1..], r);
      Joined(l.rest, OrTok);
      OrDerived(a, l.expr, b, r.expr);
      Split(a, OrTok, b, r.rest);
      assert [OrTok] + (b + r.rest) == [OrTok] + b + r.rest;
      TakenIs(ts, Parsed(Or(l.expr, r.expr), r.rest), a + [OrTok] + b);
    }
  }

  lemma {:induction false} AndIsDerived(ts: seq<Token>)
    requires AndFrom(ts).Parsed?
    ensures var p := AndFrom(ts); ts == Taken(ts, p) + p.rest && IsAndExpr(Taken(ts, p), p.expr)
    decreases |ts|, 1
  {
    var l := FactorFrom(ts);
    FactorIsDerived(ts);
    if Head(l.rest) == AndTok {
      hide FactorFrom, IsFactor, IsAndExpr, Taken;
      AndIsDerived(l.rest[1..]);
      var r := AndFrom(l.rest[1..]);
      var a, b := Taken(ts, l), Taken(l.rest[1..], r);
      Joined(l.rest, AndTok);
      AndDerived(a, l.expr, b, r.expr);
      Split(a, AndTok, b, r.rest);
      assert [AndTok] + (b + r.rest) == [AndTok] + b + r.rest;
      TakenIs(ts, Parsed(And(l.expr, r.expr), r.rest), a + [AndTok] + b);
    }
  }

  lemma {:induction false} FactorIsDerived(ts: seq<Token>)
    requires FactorFrom(ts).Parsed?
    ensures var p := FactorFrom(ts); ts == Taken(ts, p) + p.rest && IsFactor(Taken(ts, p), p.expr)
    decreases |ts|, 0
  {
    match Head(ts)
    case Sym(s) => SymbolsAreDerived(ts);
    case NotTok =>
      FactorIsDerived(ts[1..]);
      hide IsFactor, IsExpr, ExprFrom, Taken;
      NegationIsDerived(ts, FactorFrom(ts[1..]));
    case Open =>
      ExprIsDerived(ts[1..]);
      hide IsFactor, IsExpr, ExprFrom, Taken;
      ParenthesesAreDerived(ts, ExprFrom(ts[1..]));
    case _ =>
  }

  lemma NegationIsDerived(ts: seq<Token>, x: Parsed)
    requires Head(ts) == NotTok && x.Parsed? && |x.rest| <= |ts[1..]|
    requires ts[1..] == Taken(ts[1..], x) + x.rest && IsFactor(Taken(ts[1..], x), x.expr)
    ensures var p := Parsed(Not(x.expr), x.rest); ts == Taken(ts, p) + p.rest && IsFactor(Taken(ts, p), p.expr)
  {
    hide IsFactor, Taken;
    var a := Taken(ts[1..], x);
    NotDerived(a, x.expr);
    Joined(ts, NotTok);
    assert [NotTok] + (a + x.rest) == [NotTok] + a + x.rest;
    TakenIs(ts, Parsed(Not(x.expr), x.rest), [NotTok] + a);
  }

  lemma ParenthesesAreDerived(ts: seq<Token>, x: Parsed)
    requires Head(ts) == Open && x.Parsed? && |x.rest| <= |ts[1..]| && Head(x.rest) == Close
    requires ts[1..] == Taken(ts[1..], x) + x.rest && IsExpr(Taken(ts[1..], x), x.expr)
    ensures var p := Parsed(x.expr, x.rest[1..]); ts == Taken(ts, p) + p.rest && IsFactor(Taken(ts, p), p.expr)
  {
    hide IsFactor, IsExpr, Taken;
    var a := Taken(ts[1..], x);
    ParenthesesDerived(a, x.expr);
    Joined(ts, Open);
    Joined(x.rest, Close);
    assert [Open] + (a + ([Close] + x.rest[1..])) == [Open] + a + [Close] + x.rest[1..];
    TakenIs(ts, Parsed(x.expr, x.rest[1..]), [Open] + a + [Close]);
  }

  lemma SymbolsAreDerived(ts: seq<Token>)
    requires FactorFrom(ts).Parsed? && Head(ts).Sym?
    ensures var p := FactorFrom(ts); ts == Taken(ts, p) + p.rest && IsFactor(Taken(ts, p), p.expr)
  {
    if Head(ts[1..]).RelTok? {
      assert ts[..3] == [ts[0], ts[1], ts[2]] && ts[1..][0] == ts[1] && ts[2..][0] == ts[2];
    } else {
      assert ts[..1] == [ts[0]];
    }
  }

  lemma OrParses(a: seq<Token>, x: Expr, b: seq<Token>, y: Expr, rest: seq<Token>)
    requires AndFrom(a + ([OrTok] + b + rest)) == Parsed(x, [OrTok] + b + rest) && ExprFrom(b + rest) == Parsed(y, rest)
    ensures ExprFrom(a + [OrTok] + b + rest) == Parsed(Or(x, y), rest)
  {
    Split(a, OrTok, b, rest);
    hide AndFrom;
  }

  lemma AndParses(a: seq<Token>, x: Expr, b: seq<Token>, y: Expr, rest: seq<Token>)
    requires FactorFrom(a + ([AndTok] + b + rest)) == Parsed(x, [AndTok] + b + rest) && AndFrom(b + rest) == Parsed(y, rest)
    ensures AndFrom(a + [AndTok] + b + rest) == Parsed(And(x, y), rest)
  {
    Split(a, AndTok, b, rest);
    hide FactorFrom;
  }

  lemma CutAt(pre: seq<Token>, k: nat, op: Token)
    requires k < |pre| && pre[k] == op
    ensures pre == pre[..k] + [op] + pre[k + 1..]
  {
  }

  /** Whatever the grammar derives is parsed as that, when no token follows that would go on with it. */
  lemma {:induction false} DerivedExprParses(pre: seq<Token>, e: Expr, rest: seq<Token>)
    requires IsExpr(pre, e) && Stops(rest, true)
    ensures ExprFrom(pre + rest) == Parsed(e, rest)
    decreases |pre|, 2
  {
    if IsAndExpr(pre, e) {
      DerivedAndParses(pre, e, rest);
    } else {
      var k :| 0 <= k < |pre| && pre[k] == OrTok && IsAndExpr(pre[..k], e.left) && IsExpr(pre[k + 1..], e.right);
      hide AndFrom, ExprFrom, IsAndExpr, IsExpr;
      var a, b := pre[..k], pre[k + 1..];
      CutAt(pre, k, OrTok);
      Split(a, OrTok, b, rest);
      DerivedAndParses(a, e.left, [OrTok] + b + rest);
      DerivedExprParses(b, e.right, rest);
      OrParses(a, e.left, b, e.right, rest);
    }
  }

  lemma {:induction false} DerivedAndParses(pre: seq<Token>, e: Expr, rest: seq<Token>)
    requires IsAndExpr(pre, e) && Stops(rest, false)
    ensures AndFrom(pre + rest) == Parsed(e, rest)
    decreases |pre|, 1
  {
    if IsFactor(pre, e) {
      DerivedFactorParses(pre, e, rest);
    } else {
      var k :| 0 <= k < |pre| && pre[k] == AndTok && IsFactor(pre[..k], e.left) && IsAndExpr(pre[k + 1..], e.right);
      hide FactorFrom, AndFrom, IsFactor, IsAndExpr;
      var a, b := pre[..k], pre[k + 1..];
      CutAt(pre, k, AndTok);
      Split(a, AndTok, b, rest);
      DerivedFactorParses(a, e.left, [AndTok] + b + rest);
      DerivedAndParses(b, e.right, rest);
      AndParses(a, e.left, b, e.right, rest);
    }
  }

  lemma {:induction false} DerivedFactorParses(pre: seq<Token>, e: Expr, rest: seq<Token>)
    requires IsFactor(pre, e) && !Head(rest).RelTok?
    ensures FactorFrom(pre + rest) == Parsed(e, rest)
    decreases |pre|, 0
  {
    if (e.Leaf? && pre == [Sym(e.sym)]) || (e.Rel? && pre == [Sym(e.a), RelTok(e.rel), Sym(e.b)]) {
      SymbolsParse(pre, e, rest);
    } else if e.Not? && pre != [] && pre[0] == NotTok && IsFactor(pre[1..], e.operand) {
      assert (pre + rest)[1..] == pre[1..] + rest;
      DerivedFactorParses(pre[1..], e.operand, rest);
      hide IsFactor, ExprFrom;
    } else {
      var inner, ts := pre[1..|pre| - 1], pre + rest;
      assert IsExpr(inner, e);
      assert ts[1..] == inner + ([Close] + rest) && ([Close] + rest)[1..] == rest;
      hide ExprFrom, IsExpr, IsFactor;
      DerivedExprParses(inner, e, [Close] + rest);
    }
  }

  lemma SymbolsParse(pre: seq<Token>, e: Expr, rest: seq<Token>)
    requires (e.Leaf? && pre == [Sym(e.sym)]) || (e.Rel? && pre == [Sym(e.a), RelTok(e.rel), Sym(e.b)])
    requires !Head(rest).RelTok?
    ensures FactorFrom(pre + rest) == Parsed(e, rest)
  {
    var ts := pre + rest;
    if e.Leaf? {
      assert ts[1..] == rest;
    } else {
      assert ts[3..] == rest && ts[1..][0] == ts[1] && ts[2..][0] == ts[2];
    }
  }

  /**
   * A token sequence parses as a whole exactly when the grammar derives it, and as what it derives; so && binds tighter
   * than ||, ! tighter than both, chains hang to the right, and no sequence has two readings.
   */
  lemma ParsesAsDerived(ts: seq<Token>, e: Expr)
    ensures ExprFrom(ts) == Parsed(e, []) <==> IsExpr(ts, e)
  {
    if ExprFrom(ts) == Parsed(e, []) {
      ExprIsDerived(ts);
      assert Taken(ts, ExprFrom(ts)) == ts;
    }
    if IsExpr(ts, e) {
      assert ts + [] == ts;
      DerivedExprParses(ts, e, []);
    }
  }
}
