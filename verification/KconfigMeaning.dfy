/**
 * What expressions and values mean, read as thresholds: a value is at least m, or y, for these reasons and no
 * others. Nothing here follows the order in which the code evaluates.
 */
module KconfigMeaning {
  import opened Prelude
  import opened KconfigExpr
  import opened KconfigCache

  // ---------------------------------------------------------------- expressions

  /** The order of strings by their first difference; a proper prefix comes first. */
  ghost predicate TextBefore(a: string, b: string) {
    exists n: nat :: BeforeAt(a, b, n)
  }

  ghost predicate BeforeAt(a: string, b: string, n: nat) {
    n <= |a| && n < |b| && a[..n] == b[..n] && (n < |a| ==> a[n] < b[n])
  }

  lemma {:induction false} StrCmpMeaning(a: string, b: string)
    ensures StrCmp(a, b) < 0 <==> TextBefore(a, b)
    ensures StrCmp(a, b) > 0 <==> TextBefore(b, a)
  {
    if a != "" && b != "" && a[0] == b[0] {
      StrCmpMeaning(a[1..], b[1..]);
      LaterDifference(a, b);
      LaterDifference(b, a);
    } else {
      assert b != "" && (a != "" ==> a[0] < b[0]) ==> BeforeAt(a, b, 0);
      assert a != "" && (b != "" ==> b[0] < a[0]) ==> BeforeAt(b, a, 0);
      OnlyAtStart(a, b);
      OnlyAtStart(b, a);
    }
  }

  lemma OnlyAtStart(a: string, b: string)
    requires a == "" || b == "" || a[0] != b[0]
    ensures forall n: nat :: BeforeAt(a, b, n) ==> n == 0
  {
    forall n: nat | 0 < n ensures !BeforeAt(a, b, n) {
      if n <= |a| && n <= |b| { assert a[..n][0] == a[0] && b[..n][0] == b[0]; }
    }
  }

  lemma LaterDifference(a: string, b: string)
    requires a != "" && b != "" && a[0] == b[0]
    ensures TextBefore(a, b) <==> TextBefore(a[1..], b[1..])
  {
    if n: nat :| BeforeAt(a, b, n) {
      assert n > 0 && a[1..][..n - 1] == a[..n][1..] && b[1..][..n - 1] == b[..n][1..];
      assert BeforeAt(a[1..], b[1..], n - 1);
    }
    if n: nat :| BeforeAt(a[1..], b[1..], n) {
      assert a[..n + 1] == [a[0]] + a[1..][..n] && b[..n + 1] == [b[0]] + b[1..][..n];
      assert BeforeAt(a, b, n + 1);
    }
  }

  /** The number an operand stands for; None for a name that is no number. */
  function NumberOf(s: Symbol, v: seq<Tri>): (n: Option<int>) {
    match s
    case Config(k) => Some(if k < |v| then v[k] else 0)
    case Constant(c) => Some(c)
    case Literal(_, number) => number
  }

  function TextOf(s: Symbol, v: seq<Tri>): (text: string) {
    match s
    case Config(k) => ["n", "m", "y"][if k < |v| then v[k] else 0]
    case Constant(c) => ["n", "m", "y"][c]
    case Literal(text, _) => text
  }

  /** a comes before b: as numbers when both are, else as text. */
  ghost predicate Precedes(a: Symbol, b: Symbol, v: seq<Tri>) {
    if NumberOf(a, v).Some? && NumberOf(b, v).Some? then NumberOf(a, v).value < NumberOf(b, v).value
    else TextBefore(TextOf(a, v), TextOf(b, v))
  }

  ghost predicate Related(rel: Relation, a: Symbol, b: Symbol, v: seq<Tri>) {
    match rel
    case Equal => !Precedes(a, b, v) && !Precedes(b, a, v)
    case Unequal => Precedes(a, b, v) || Precedes(b, a, v)
    case Less => Precedes(a, b, v)
    case LessEqual => !Precedes(b, a, v)
    case Greater => Precedes(b, a, v)
    case GreaterEqual => !Precedes(a, b, v)
  }

  /** The value of an expression is at least t. */
  ghost predicate AtLeast(e: Expr, v: seq<Tri>, t: Tri)
    requires t > 0
  {
    match e
    case Leaf(Config(k)) => k < |v| && v[k] >= t
    case Leaf(Constant(c)) => c >= t
    case Leaf(Literal(_, _)) => false
    case And(l, r) => AtLeast(l, v, t) && AtLeast(r, v, t)
    case Or(l, r) => AtLeast(l, v, t) || AtLeast(r, v, t)
    case Not(x) => !AtLeast(x, v, 3 - t)
    case Rel(rel, a, b) => Related(rel, a, b, v)
  }

  lemma CompareMeaning(a: Symbol, b: Symbol, v: seq<Tri>)
    ensures Compare(a, b, v) < 0 <==> Precedes(a, b, v)
    ensures Compare(a, b, v) > 0 <==> Precedes(b, a, v)
  {
    assert SymNumber(a, v) == NumberOf(a, v) && SymText(a, v) == TextOf(a, v);
    assert SymNumber(b, v) == NumberOf(b, v) && SymText(b, v) == TextOf(b, v);
    StrCmpMeaning(TextOf(a, v), TextOf(b, v));
    hide TextBefore, StrCmp, SymNumber, SymText, NumberOf, TextOf;
  }

  /** Short-circuit evaluation computes the least upper threshold. */
  lemma {:induction false} EvalMeaning(e: Expr, v: seq<Tri>, t: Tri)
    requires t > 0
    ensures Eval(e, v).val >= t <==> AtLeast(e, v, t)
  {
    match e
    case Leaf(_) =>
    case And(l, r) => EvalMeaning(l, v, t); EvalMeaning(r, v, t);
    case Or(l, r) => EvalMeaning(l, v, t); EvalMeaning(r, v, t);
    case Not(x) => EvalMeaning(x, v, 3 - t);
    case Rel(rel, a, b) =>
      CompareMeaning(a, b, v);
      hide Compare, Precedes;
  }

  // ---------------------------------------------------------------- one symbol

  /** The symbol is bool at the moment: by its type, or because MODULES is n or missing. */
  ghost predicate IsBool(g: Graph, d: SymDef, v: seq<Tri>) {
    d.origType.Bool? || g.modules.None? || g.modules.value >= |v| || v[g.modules.value] == 0
  }

  ghost predicate Prompted(d: SymDef, v: seq<Tri>, t: Tri)
    requires t > 0
  {
    exists n :: 0 <= n < |d.prompts| && AtLeast(d.prompts[n], v, t)
  }

  /** The visibility is at least t. */
  ghost predicate Visible(g: Graph, d: SymDef, v: seq<Tri>, t: Tri)
    requires t > 0
  {
    Prompted(d, v, t) || (IsBool(g, d, v) && Prompted(d, v, 1))
  }

  ghost predicate FirstDefault(d: SymDef, v: seq<Tri>, n: nat) {
    n < |d.defaults| && AtLeast(d.defaults[n].1, v, 1) && forall k :: 0 <= k < n ==> !AtLeast(d.defaults[k].1, v, 1)
  }

  /** The first default whose condition is not n gives at least t, as far as its condition goes. */
  ghost predicate Defaulted(d: SymDef, v: seq<Tri>, t: Tri)
    requires t > 0
  {
    exists n: nat :: DefaultedBy(d, v, n, t)
  }

  ghost predicate DefaultedBy(d: SymDef, v: seq<Tri>, n: nat, t: Tri)
    requires t > 0
  {
    FirstDefault(d, v, n) && AtLeast(d.defaults[n].0, v, t) && AtLeast(d.defaults[n].1, v, t)
  }

  /** An imply of at least t, while the direct dependencies are met. */
  ghost predicate Implied(d: SymDef, v: seq<Tri>, t: Tri)
    requires t > 0
  {
    AtLeast(d.weakRevDep, v, t) && AtLeast(d.directDep, v, 1)
  }

  /** What gives a symbol at least t before m is promoted: a select, the visible user's value, or a default or imply. */
  ghost predicate Given(g: Graph, d: SymDef, user: Option<Tri>, v: seq<Tri>, t: Tri)
    requires t > 0
  {
    || AtLeast(d.revDep, v, t)
    || (if user.Some? && Visible(g, d, v, 1) then user.value >= t && Visible(g, d, v, t)
        else Defaulted(d, v, t) || Implied(d, v, t))
  }

  /** The value of a symbol among the values of all, with m promoted to y for a bool symbol and under an imply of y. */
  ghost predicate ValueIs(g: Graph, d: SymDef, user: Option<Tri>, v: seq<Tri>, val: Tri) {
    && (val >= 1 <==> Given(g, d, user, v, 1))
    && (val == 2 <==> Given(g, d, user, v, 2) || (Given(g, d, user, v, 1) && (IsBool(g, d, v) || AtLeast(d.weakRevDep, v, 2))))
  }

  lemma {:induction false} PromptsMeaning(ps: seq<Expr>, v: seq<Tri>, t: Tri)
    requires t > 0
    ensures PromptsEval(ps, v).val >= t <==> exists n :: 0 <= n < |ps| && AtLeast(ps[n], v, t)
  {
    if ps != [] {
      var m := |ps| - 1;
      PromptsMeaning(ps[..m], v, t);
      EvalMeaning(ps[m], v, t);
      hide Eval, AtLeast;
      assert (exists n :: 0 <= n < |ps| && AtLeast(ps[n], v, t)) <==>
        (exists n :: 0 <= n < m && AtLeast(ps[..m][n], v, t)) || AtLeast(ps[m], v, t) by {
        if n :| 0 <= n < |ps| && AtLeast(ps[n], v, t) { assert n < m ==> ps[..m][n] == ps[n]; }
        if n :| 0 <= n < m && AtLeast(ps[..m][n], v, t) { assert ps[n] == ps[..m][n]; }
      }
    }
  }

  lemma VisibilityMeaning(g: Graph, d: SymDef, v: seq<Tri>, t: Tri)
    requires t > 0
    ensures VisEval(g, d, v).val >= t <==> Visible(g, d, v, t)
  {
    PromptsMeaning(d.prompts, v, 1);
    PromptsMeaning(d.prompts, v, 2);
    hide PromptsEval, AtLeast;
  }

  lemma {:induction false} DefaultsMeaning(d: SymDef, v: seq<Tri>, t: Tri)
    requires t > 0
    ensures DefaultsEval(d.defaults, v).val >= t <==> Defaulted(d, v, t)
    decreases |d.defaults|
  {
    if d.defaults != [] {
      var rest := d.(defaults := d.defaults[1..]);
      EvalMeaning(d.defaults[0].0, v, t);
      EvalMeaning(d.defaults[0].1, v, t);
      EvalMeaning(d.defaults[0].1, v, 1);
      DefaultsMeaning(rest, v, t);
      hide Eval, AtLeast;
      if AtLeast(d.defaults[0].1, v, 1) {
        assert FirstDefault(d, v, 0) && forall n: nat :: FirstDefault(d, v, n) ==> n == 0;
        assert DefaultedBy(d, v, 0, t) <==> AtLeast(d.defaults[0].0, v, t) && AtLeast(d.defaults[0].1, v, t);
      } else {
        LaterDefault(d, v, t);
      }
    }
  }

  lemma LaterDefault(d: SymDef, v: seq<Tri>, t: Tri)
    requires t > 0 && d.defaults != [] && !AtLeast(d.defaults[0].1, v, 1)
    ensures Defaulted(d, v, t) <==> Defaulted(d.(defaults := d.defaults[1..]), v, t)
  {
    hide AtLeast;
    var rest := d.(defaults := d.defaults[1..]);
    if n: nat :| DefaultedBy(d, v, n, t) {
      assert n > 0 && rest.defaults[n - 1] == d.defaults[n];
      assert forall k :: 0 <= k < n - 1 ==> rest.defaults[k] == d.defaults[k + 1];
      assert DefaultedBy(rest, v, n - 1, t);
    }
    if n: nat :| DefaultedBy(rest, v, n, t) {
      assert rest.defaults[n] == d.defaults[n + 1];
      assert forall k :: 0 < k < n + 1 ==> d.defaults[k] == rest.defaults[k - 1];
      assert DefaultedBy(d, v, n + 1, t);
    }
  }

  lemma BaseMeaning(g: Graph, d: SymDef, user: Option<Tri>, v: seq<Tri>, t: Tri)
    requires t > 0
    ensures BaseEval(g, d, user, v).val >= t <==>
      if user.Some? && Visible(g, d, v, 1) then user.value >= t && Visible(g, d, v, t)
      else Defaulted(d, v, t) || Implied(d, v, t)
  {
    VisibilityMeaning(g, d, v, 1);
    VisibilityMeaning(g, d, v, t);
    DefaultsMeaning(d, v, t);
    EvalMeaning(d.weakRevDep, v, t);
    EvalMeaning(d.directDep, v, 1);
    hide VisEval, Visible, DefaultsEval, Defaulted, Eval, AtLeast;
  }

  /** The computed value is the one that is meant, whatever the other values are. */
  lemma TriMeaning(g: Graph, d: SymDef, user: Option<Tri>, v: seq<Tri>)
    ensures ValueIs(g, d, user, v, TriEval(g, d, user, v).val)
  {
    BaseMeaning(g, d, user, v, 1);
    BaseMeaning(g, d, user, v, 2);
    EvalMeaning(d.revDep, v, 1);
    EvalMeaning(d.revDep, v, 2);
    EvalMeaning(d.weakRevDep, v, 2);
    hide BaseEval, Visible, Defaulted, Implied, Eval, AtLeast;
  }

  /** Every symbol of a solution has the value that is meant, so full recomputation gives these values. */
  lemma SolutionMeaning(g: Graph, rank: seq<nat>, user: UserValues, i: nat)
    requires Acyclic(g, rank) && |user| == |g.syms| && i < |g.syms|
    ensures var v := Recompute(g, rank, user); |v| == |g.syms| && ValueIs(g, g.syms[i], user[i], v, v[i])
  {
    RecomputeSolves(g, rank, user);
    TriMeaning(g, g.syms[i], user[i], Recompute(g, rank, user));
    hide Recompute, Acyclic, ValueIs, TriEval;
  }

  // ---------------------------------------------------------------- what a user relies on

  /** The visibility as a number. */
  ghost predicate HasVisibility(g: Graph, d: SymDef, v: seq<Tri>, vis: Tri) {
    (vis >= 1 <==> Visible(g, d, v, 1)) && (vis == 2 <==> Visible(g, d, v, 2))
  }

  /** m becomes y for a bool symbol and under an imply of y. */
  ghost predicate Promotes(g: Graph, d: SymDef, v: seq<Tri>) {
    IsBool(g, d, v) || Eval(d.weakRevDep, v).val == 2
  }

  /** A select is never undercut, and a bool symbol is never m. */
  lemma SelectsAndTypesHold(g: Graph, user: UserValues, v: seq<Tri>, i: nat)
    requires IsSolution(g, user, v) && i < |v|
    ensures v[i] >= Eval(g.syms[i].revDep, v).val
    ensures Promotes(g, g.syms[i], v) ==> v[i] != 1
  {
    var d := g.syms[i];
    TriMeaning(g, d, user[i], v);
    EvalMeaning(d.revDep, v, 1);
    EvalMeaning(d.revDep, v, 2);
    EvalMeaning(d.weakRevDep, v, 2);
    hide TriEval, Visible, Defaulted, Implied, Eval, AtLeast, IsBool;
  }

  /** A visible symbol that nothing selects has the user's value, cut down to its visibility and then promoted. */
  lemma UserValueHolds(g: Graph, user: UserValues, v: seq<Tri>, i: nat, vis: Tri)
    requires IsSolution(g, user, v) && i < |v| && user[i].Some? && HasVisibility(g, g.syms[i], v, vis) && vis > 0
    requires Eval(g.syms[i].revDep, v).val == 0
    ensures var set_ := Min(user[i].value, vis);
      v[i] == if set_ == 1 && Promotes(g, g.syms[i], v) then 2 else set_
  {
    var d := g.syms[i];
    TriMeaning(g, d, user[i], v);
    EvalMeaning(d.revDep, v, 1);
    EvalMeaning(d.revDep, v, 2);
    EvalMeaning(d.weakRevDep, v, 2);
    hide TriEval, Visible, Defaulted, Implied, Eval, AtLeast, IsBool;
  }

  /**
   * Without a select and without a user value that is visible, the value comes from the first default whose condition
   * is not n, cut down to that condition, raised by an imply while the direct dependencies are met, and then promoted.
   */
  lemma DefaultHolds(g: Graph, user: UserValues, v: seq<Tri>, i: nat, n: nat)
    requires IsSolution(g, user, v) && i < |v| && (user[i].None? || !Visible(g, g.syms[i], v, 1))
    requires Eval(g.syms[i].revDep, v).val == 0
    requires var ds := g.syms[i].defaults;
      n <= |ds| && (n < |ds| ==> Eval(ds[n].1, v).val > 0) && forall k :: 0 <= k < n ==> Eval(ds[k].1, v).val == 0
    ensures var d := g.syms[i];
      var def: Tri := if n < |d.defaults| then Min(Eval(d.defaults[n].0, v).val, Eval(d.defaults[n].1, v).val) else 0;
      var raised: Tri := if Eval(d.directDep, v).val > 0 then Max(Eval(d.weakRevDep, v).val, def) else def;
      v[i] == if raised == 1 && Promotes(g, d, v) then 2 else raised
  {
    var d := g.syms[i];
    TriMeaning(g, d, user[i], v);
    EvalMeaning(d.revDep, v, 1);
    EvalMeaning(d.revDep, v, 2);
    EvalMeaning(d.weakRevDep, v, 1);
    EvalMeaning(d.weakRevDep, v, 2);
    EvalMeaning(d.directDep, v, 1);
    DefaultIs(d, v, n, 1);
    DefaultIs(d, v, n, 2);
    hide TriEval, Visible, Defaulted, Eval, AtLeast, IsBool;
  }

  lemma DefaultIs(d: SymDef, v: seq<Tri>, n: nat, t: Tri)
    requires t > 0 && n <= |d.defaults| && (n < |d.defaults| ==> Eval(d.defaults[n].1, v).val > 0)
    requires forall k :: 0 <= k < n ==> Eval(d.defaults[k].1, v).val == 0
    ensures Defaulted(d, v, t) <==>
      n < |d.defaults| && Eval(d.defaults[n].0, v).val >= t && Eval(d.defaults[n].1, v).val >= t
  {
    forall k | 0 <= k < |d.defaults| ensures Eval(d.defaults[k].1, v).val > 0 <==> AtLeast(d.defaults[k].1, v, 1) {
      EvalMeaning(d.defaults[k].1, v, 1);
    }
    if n < |d.defaults| {
      EvalMeaning(d.defaults[n].0, v, t);
      EvalMeaning(d.defaults[n].1, v, t);
    }
    hide Eval, AtLeast;
    assert forall k: nat :: FirstDefault(d, v, k) ==> k == n;
    if n < |d.defaults| {
      assert FirstDefault(d, v, n);
      assert DefaultedBy(d, v, n, t) <==> AtLeast(d.defaults[n].0, v, t) && AtLeast(d.defaults[n].1, v, t);
    }
  }

  // ---------------------------------------------------------------- what occurs in a definition

  function Renamed(s: Symbol, from: nat, to: nat): (r: Symbol) {
    if s == Config(from) then Config(to) else s
  }

  /** An expression with every use of one symbol replaced by another. */
  function RenamedIn(e: Expr, from: nat, to: nat): (r: Expr) {
    match e
    case Leaf(s) => Leaf(Renamed(s, from, to))
    case And(l, r) => And(RenamedIn(l, from, to), RenamedIn(r, from, to))
    case Or(l, r) => Or(RenamedIn(l, from, to), RenamedIn(r, from, to))
    case Not(x) => Not(RenamedIn(x, from, to))
    case Rel(rel, a, b) => Rel(rel, Renamed(a, from, to), Renamed(b, from, to))
  }

  /** An expression mentions exactly the symbols that renaming would change. */
  lemma {:induction false} MentionsMeaning(e: Expr, from: nat, to: nat)
    requires from != to
    ensures from in Mentions(e) <==> RenamedIn(e, from, to) != e
  {
    match e
    case Leaf(_) =>
    case And(l, r) => MentionsMeaning(l, from, to); MentionsMeaning(r, from, to);
    case Or(l, r) => MentionsMeaning(l, from, to); MentionsMeaning(r, from, to);
    case Not(x) => MentionsMeaning(x, from, to);
    case Rel(_, a, b) =>
  }

  lemma {:induction false} MentionsAllMeaning(es: seq<Expr>, k: nat)
    ensures k in MentionsAll(es) <==> exists n :: 0 <= n < |es| && k in Mentions(es[n])
  {
    hide Mentions;
    if es != [] {
      MentionsAllMeaning(es[..|es| - 1], k);
    }
  }

  lemma {:induction false} MentionsDefaultsMeaning(ds: seq<(Expr, Expr)>, k: nat)
    ensures k in MentionsDefaults(ds) <==> exists n :: 0 <= n < |ds| && k in Mentions(ds[n].0) + Mentions(ds[n].1)
  {
    hide Mentions;
    if ds != [] {
      MentionsDefaultsMeaning(ds[1..], k);
      assert forall n :: 0 < n < |ds| ==> ds[n] == ds[1..][n - 1];
    }
  }

  /** The expressions among a symbol's properties. */
  ghost predicate IsProperty(d: SymDef, e: Expr) {
    || e in d.prompts || e == d.revDep || e == d.weakRevDep || e == d.directDep
    || exists n :: 0 <= n < |d.defaults| && (e == d.defaults[n].0 || e == d.defaults[n].1)
  }

  /** A symbol depends exactly on the symbols that occur in its properties. */
  lemma DependsOnMeaning(d: SymDef, k: nat)
    ensures k in DependsOn(d) <==> exists e :: IsProperty(d, e) && k in Mentions(e)
  {
    MentionsAllMeaning(d.prompts, k);
    MentionsDefaultsMeaning(d.defaults, k);
    hide Mentions, MentionsAll, MentionsDefaults;
    if k in DependsOn(d) {
      if n :| 0 <= n < |d.prompts| && k in Mentions(d.prompts[n]) {
        assert IsProperty(d, d.prompts[n]);
      } else if n :| 0 <= n < |d.defaults| && k in Mentions(d.defaults[n].0) + Mentions(d.defaults[n].1) {
        assert IsProperty(d, d.defaults[n].0) && IsProperty(d, d.defaults[n].1);
      } else {
        assert IsProperty(d, d.revDep) && IsProperty(d, d.weakRevDep) && IsProperty(d, d.directDep);
      }
    }
  }
}
