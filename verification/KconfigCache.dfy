/**
 * The value cache of bool and tristate symbols. A symbol's visibility and value are computed on
 * demand and kept; changing a user value drops the kept values of everything that may depend on it,
 * but the walk over dependents stops at symbols that hold no kept visibility.
 */
module KconfigCache {
  import opened Prelude
  import opened KconfigExpr

  datatype SymType = Bool | Tristate

  /** prompts holds the condition of each prompt; a default is a (value, condition) pair. */
  datatype SymDef = SymDef(
    origType: SymType, prompts: seq<Expr>, defaults: seq<(Expr, Expr)>,
    weakRevDep: Expr, revDep: Expr, directDep: Expr)

  /** modules is the MODULES symbol; when it is not configured it counts as n. */
  datatype Graph = Graph(syms: seq<SymDef>, modules: Option<nat>)

  type UserValues = seq<Option<Tri>>

  // ---------------------------------------------------------------- static dependencies

  function MentionsAll(es: seq<Expr>): (r: set<nat>) {
    if es == [] then {} else MentionsAll(es[..|es| - 1]) + Mentions(es[|es| - 1])
  }

  function MentionsDefaults(ds: seq<(Expr, Expr)>): (r: set<nat>) {
    if ds == [] then {} else Mentions(ds[0].0) + Mentions(ds[0].1) + MentionsDefaults(ds[1..])
  }

  lemma MentionsAllHas(es: seq<Expr>, n: nat)
    requires n < |es|
    ensures Mentions(es[n]) <= MentionsAll(es)
  {
  }

  lemma MentionsDefaultsHas(ds: seq<(Expr, Expr)>, n: nat)
    requires n < |ds|
    ensures Mentions(ds[n].0) <= MentionsDefaults(ds) && Mentions(ds[n].1) <= MentionsDefaults(ds)
  {
    if n > 0 {
      MentionsDefaultsHas(ds[1..], n - 1);
    }
  }

  /** Everything _build_dep() makes the symbol a dependent of. */
  function DependsOn(d: SymDef): (r: set<nat>) {
    MentionsAll(d.prompts) + MentionsDefaults(d.defaults) + Mentions(d.revDep) + Mentions(d.weakRevDep) + Mentions(d.directDep)
  }

  /** A tristate symbol also looks at MODULES, although no dependent edge records it. */
  function Inputs(g: Graph, i: nat): (r: set<nat>)
    requires i < |g.syms|
  {
    DependsOn(g.syms[i]) + if g.syms[i].origType.Tristate? && g.modules.Some? then {g.modules.value} else {}
  }

  ghost predicate Acyclic(g: Graph, rank: seq<nat>) {
    && |rank| == |g.syms|
    && (g.modules.Some? ==> g.modules.value < |g.syms|)
    && forall i :: 0 <= i < |g.syms| ==> InputsBelow(g, rank, i)
  }

  ghost predicate InputsBelow(g: Graph, rank: seq<nat>, i: nat)
    requires |rank| == |g.syms| && i < |g.syms|
  {
    forall j :: j in Inputs(g, i) ==> j < |g.syms| && rank[j] < rank[i]
  }

  // ---------------------------------------------------------------- one symbol, given the others

  function ModulesEval(g: Graph, v: seq<Tri>): (r: Outcome) {
    if g.modules.Some? then SymEval(Config(g.modules.value), v) else Outcome(0, {})
  }

  /** Symbol.type is BOOL, or TRISTATE with modules off. The value is 2 for BOOL and 0 for TRISTATE. */
  function BoolNow(g: Graph, t: SymType, v: seq<Tri>): (r: Outcome) {
    if t.Bool? then Outcome(2, {})
    else var m := ModulesEval(g, v); Outcome(if m.val == 0 then 2 else 0, m.looked)
  }

  function PromptsEval(ps: seq<Expr>, v: seq<Tri>): (r: Outcome) {
    if ps == [] then Outcome(0, {})
    else
      var n := |ps| - 1;
      var init, last := PromptsEval(ps[..n], v), Eval(ps[n], v);
      Outcome(Max(init.val, last.val), init.looked + last.looked)
  }

  function VisEval(g: Graph, d: SymDef, v: seq<Tri>): (r: Outcome) {
    var p := PromptsEval(d.prompts, v);
    if p.val != 1 then p
    else var b := BoolNow(g, d.origType, v); Outcome(if b.val == 2 then 2 else 1, p.looked + b.looked)
  }

  /** The first default whose condition is not n, cut down to that condition. */
  function DefaultsEval(ds: seq<(Expr, Expr)>, v: seq<Tri>): (r: Outcome) {
    if ds == [] then Outcome(0, {})
    else
      var c := Eval(ds[0].1, v);
      if c.val == 0 then
        var rest := DefaultsEval(ds[1..], v); Outcome(rest.val, c.looked + rest.looked)
      else
        var d := Eval(ds[0].0, v); Outcome(Min(d.val, c.val), c.looked + d.looked)
  }

  /** Defaults raised by imply, which counts only while the direct dependencies are met. */
  function ImpliedEval(d: SymDef, v: seq<Tri>): (r: Outcome) {
    var def, weak := DefaultsEval(d.defaults, v), Eval(d.weakRevDep, v);
    if weak.val == 0 then Outcome(def.val, def.looked + weak.looked)
    else
      var dir := Eval(d.directDep, v);
      Outcome(if dir.val != 0 then Max(weak.val, def.val) else def.val, def.looked + weak.looked + dir.looked)
  }

  /** The value before a select is applied. */
  function BaseEval(g: Graph, d: SymDef, user: Option<Tri>, v: seq<Tri>): (r: Outcome) {
    var vis := VisEval(g, d, v);
    if vis.val != 0 && user.Some? then Outcome(Min(user.value, vis.val), vis.looked)
    else var o := ImpliedEval(d, v); Outcome(o.val, vis.looked + o.looked)
  }

  function SelectedEval(g: Graph, d: SymDef, user: Option<Tri>, v: seq<Tri>): (r: Outcome) {
    var base, rev := BaseEval(g, d, user, v), Eval(d.revDep, v);
    if rev.val == 0 then Outcome(base.val, base.looked + rev.looked)
    else
      var dir := Eval(d.directDep, v);
      Outcome(Max(rev.val, base.val), base.looked + rev.looked + dir.looked)
  }

  /** Symbol.tri_value of a non-choice bool or tristate symbol, given the values of all symbols. */
  function TriEval(g: Graph, d: SymDef, user: Option<Tri>, v: seq<Tri>): (r: Outcome) {
    var s := SelectedEval(g, d, user, v);
    if s.val != 1 then s
    else
      var b := BoolNow(g, d.origType, v);
      if b.val == 2 then Outcome(2, s.looked + b.looked)
      else
        var weak := Eval(d.weakRevDep, v);
        Outcome(if weak.val == 2 then 2 else 1, s.looked + b.looked + weak.looked)
  }

  // ---------------------------------------------------------------- frame of one computation

  lemma {:induction false} PromptsFrame(ps: seq<Expr>, v: seq<Tri>, w: seq<Tri>)
    requires Agree(v, w, PromptsEval(ps, v).looked)
    ensures PromptsEval(ps, w) == PromptsEval(ps, v)
  {
    if ps != [] {
      PromptsFrame(ps[..|ps| - 1], v, w);
      EvalFrame(ps[|ps| - 1], v, w);
    }
  }

  lemma {:induction false} DefaultsFrame(ds: seq<(Expr, Expr)>, v: seq<Tri>, w: seq<Tri>)
    requires Agree(v, w, DefaultsEval(ds, v).looked)
    ensures DefaultsEval(ds, w) == DefaultsEval(ds, v)
  {
    if ds != [] {
      EvalFrame(ds[0].1, v, w);
      if Eval(ds[0].1, v).val == 0 {
        DefaultsFrame(ds[1..], v, w);
      } else {
        EvalFrame(ds[0].0, v, w);
      }
    }
  }

  lemma {:induction false} VisFrame(g: Graph, d: SymDef, v: seq<Tri>, w: seq<Tri>)
    requires Agree(v, w, VisEval(g, d, v).looked)
    ensures VisEval(g, d, w) == VisEval(g, d, v)
  {
    PromptsFrame(d.prompts, v, w);
  }

  lemma {:induction false} ImpliedFrame(d: SymDef, v: seq<Tri>, w: seq<Tri>)
    requires Agree(v, w, ImpliedEval(d, v).looked)
    ensures ImpliedEval(d, w) == ImpliedEval(d, v)
  {
    DefaultsFrame(d.defaults, v, w);
    EvalFrame(d.weakRevDep, v, w);
    if Eval(d.weakRevDep, v).val != 0 {
      EvalFrame(d.directDep, v, w);
    }
  }

  /** A value depends only on the symbols that were looked at while computing it. */
  lemma {:induction false} TriFrame(g: Graph, d: SymDef, user: Option<Tri>, v: seq<Tri>, w: seq<Tri>)
    requires Agree(v, w, TriEval(g, d, user, v).looked)
    ensures TriEval(g, d, user, w) == TriEval(g, d, user, v)
  {
    VisFrame(g, d, v, w);
    if !(VisEval(g, d, v).val != 0 && user.Some?) {
      ImpliedFrame(d, v, w);
    }
    EvalFrame(d.revDep, v, w);
    if Eval(d.revDep, v).val != 0 {
      EvalFrame(d.directDep, v, w);
    }
    if SelectedEval(g, d, user, v).val == 1 && BoolNow(g, d.origType, v).val != 2 {
      EvalFrame(d.weakRevDep, v, w);
    }
  }

  lemma {:induction false} PromptsInputs(ps: seq<Expr>, v: seq<Tri>)
    ensures PromptsEval(ps, v).looked <= MentionsAll(ps)
  {
    if ps != [] {
      PromptsInputs(ps[..|ps| - 1], v);
      LookedAreMentioned(ps[|ps| - 1], v);
    }
  }

  lemma {:induction false} DefaultsInputs(ds: seq<(Expr, Expr)>, v: seq<Tri>)
    ensures DefaultsEval(ds, v).looked <= MentionsDefaults(ds)
  {
    if ds != [] {
      LookedAreMentioned(ds[0].1, v);
      LookedAreMentioned(ds[0].0, v);
      DefaultsInputs(ds[1..], v);
    }
  }

  lemma {:induction false} LookedAreInputs(g: Graph, i: nat, user: Option<Tri>, v: seq<Tri>)
    requires i < |g.syms|
    ensures VisEval(g, g.syms[i], v).looked <= Inputs(g, i)
    ensures TriEval(g, g.syms[i], user, v).looked <= Inputs(g, i)
  {
    var d := g.syms[i];
    PromptsInputs(d.prompts, v);
    DefaultsInputs(d.defaults, v);
    LookedAreMentioned(d.weakRevDep, v);
    LookedAreMentioned(d.revDep, v);
    LookedAreMentioned(d.directDep, v);
  }

  // ---------------------------------------------------------------- full recomputation

  function NextRound(g: Graph, user: UserValues, w: seq<Tri>): (v: seq<Tri>)
    requires |user| == |g.syms|
    ensures |v| == |g.syms| && forall i :: 0 <= i < |v| ==> v[i] == TriEval(g, g.syms[i], user[i], w).val
  {
    seq(|g.syms|, i requires 0 <= i < |g.syms| => TriEval(g, g.syms[i], user[i], w).val)
  }

  /** Recompute every symbol from the values of the round before, starting from all n. */
  function Rounds(g: Graph, user: UserValues, k: nat): (v: seq<Tri>)
    requires |user| == |g.syms|
    ensures |v| == |g.syms|
  {
    if k == 0 then seq(|g.syms|, _ => 0) else NextRound(g, user, Rounds(g, user, k - 1))
  }

  function Height(rank: seq<nat>): (h: nat)
    ensures forall i :: 0 <= i < |rank| ==> rank[i] < h
  {
    if rank == [] then 0 else Max(Height(rank[..|rank| - 1]), rank[|rank| - 1] + 1)
  }

  /** The values every symbol has when nothing is kept. */
  function Recompute(g: Graph, rank: seq<nat>, user: UserValues): (v: seq<Tri>)
    requires |user| == |g.syms|
    ensures |v| == |g.syms|
  {
    Rounds(g, user, Height(rank))
  }

  ghost predicate IsSolution(g: Graph, user: UserValues, v: seq<Tri>) {
    && |v| == |user| == |g.syms|
    && forall i :: 0 <= i < |v| ==> v[i] == TriEval(g, g.syms[i], user[i], v).val
  }

  lemma SameInputsSameValue(g: Graph, i: nat, user: Option<Tri>, v: seq<Tri>, w: seq<Tri>)
    requires i < |g.syms| && Agree(v, w, Inputs(g, i))
    ensures TriEval(g, g.syms[i], user, v) == TriEval(g, g.syms[i], user, w)
  {
    LookedAreInputs(g, i, user, v);
    TriFrame(g, g.syms[i], user, v, w);
  }

  ghost predicate SettledBelow(rank: seq<nat>, k: nat, v: seq<Tri>, w: seq<Tri>) {
    && |v| == |w| == |rank|
    && forall i :: 0 <= i < |rank| && rank[i] < k ==> v[i] == w[i]
  }

  /** One more round settles one more layer of the graph. */
  lemma RoundSettlesALayer(g: Graph, rank: seq<nat>, user: UserValues, k: nat, v: seq<Tri>, w: seq<Tri>)
    requires Acyclic(g, rank) && |user| == |g.syms| && SettledBelow(rank, k, v, w)
    ensures SettledBelow(rank, k + 1, NextRound(g, user, v), NextRound(g, user, w))
  {
    forall i | 0 <= i < |rank| && rank[i] < k + 1 ensures NextRound(g, user, v)[i] == NextRound(g, user, w)[i] {
      assert InputsBelow(g, rank, i);
      SameInputsSameValue(g, i, user[i], v, w);
    }
  }

  lemma OneMoreRound(g: Graph, rank: seq<nat>, user: UserValues, k: nat)
    requires Acyclic(g, rank) && |user| == |g.syms| && SettledBelow(rank, k, Rounds(g, user, k), Rounds(g, user, k + 1))
    ensures SettledBelow(rank, k + 1, Rounds(g, user, k + 1), Rounds(g, user, k + 2))
  {
    hide NextRound, TriEval, Acyclic, SettledBelow;
    RoundSettlesALayer(g, rank, user, k, Rounds(g, user, k), Rounds(g, user, k + 1));
  }

  lemma {:induction false} RoundsSettle(g: Graph, rank: seq<nat>, user: UserValues, k: nat)
    requires Acyclic(g, rank) && |user| == |g.syms|
    ensures SettledBelow(rank, k, Rounds(g, user, k), Rounds(g, user, k + 1))
  {
    hide Rounds, NextRound, TriEval, InputsBelow;
    if k > 0 {
      hide SettledBelow;
      RoundsSettle(g, rank, user, k - 1);
      OneMoreRound(g, rank, user, k - 1);
    }
  }

  /** On a graph without dependency loops the recomputation satisfies every symbol's own equation. */
  lemma RecomputeSolves(g: Graph, rank: seq<nat>, user: UserValues)
    requires Acyclic(g, rank) && |user| == |g.syms|
    ensures IsSolution(g, user, Recompute(g, rank, user))
  {
    RoundsSettle(g, rank, user, Height(rank));
  }

  /** ... and nothing else does, so what a read should return is well defined. */
  lemma {:induction false} SolutionIsUnique(g: Graph, rank: seq<nat>, user: UserValues, v: seq<Tri>, w: seq<Tri>, i: nat)
    requires Acyclic(g, rank)
    requires IsSolution(g, user, v) && IsSolution(g, user, w) && i < |v|
    ensures v[i] == w[i]
    decreases rank[i]
  {
    assert InputsBelow(g, rank, i);
    forall x | x in Inputs(g, i) ensures v[x] == w[x] {
      SolutionIsUnique(g, rank, user, v, w, x);
    }
    SameInputsSameValue(g, i, user[i], v, w);
  }

  // ---------------------------------------------------------------- what the cache may hold

  datatype Cache = Cache(vis: seq<Option<Tri>>, tri: seq<Option<Tri>>)

  function Held(kept: seq<Option<Tri>>): (r: set<nat>) {
    set i: nat | i < |kept| && kept[i].Some?
  }

  /**
   * Every kept number is the recomputed one, and everything that was looked at to get it is kept
   * as well. Short-circuiting means symbols that merely occur in the expressions need not be.
   */
  ghost predicate Consistent(g: Graph, user: UserValues, c: Cache, v: seq<Tri>) {
    && |v| == |user| == |c.vis| == |c.tri| == |g.syms|
    && (forall i :: 0 <= i < |v| && c.vis[i].Some? ==>
         var o := VisEval(g, g.syms[i], v); c.vis[i].value == o.val && o.looked <= Held(c.tri))
    && (forall i :: 0 <= i < |v| && c.tri[i].Some? ==>
         var o := TriEval(g, g.syms[i], user[i], v);
         c.vis[i].Some? && c.tri[i].value == o.val && o.looked <= Held(c.tri))
  }

  /** A freshly computed value may be kept. */
  lemma KeepingIsConsistent(g: Graph, user: UserValues, c: Cache, v: seq<Tri>, i: nat)
    requires Consistent(g, user, c, v) && i < |v| && c.vis[i].Some?
    requires TriEval(g, g.syms[i], user[i], v).looked <= Held(c.tri)
    ensures Consistent(g, user, c.(tri := c.tri[i := Some(TriEval(g, g.syms[i], user[i], v).val)]), v)
  {
    assert Held(c.tri) <= Held(c.tri[i := Some(TriEval(g, g.syms[i], user[i], v).val)]);
  }

  function Wipe(c: Cache, dropped: set<nat>): (r: Cache)
    requires |c.vis| == |c.tri|
  {
    Cache(seq(|c.vis|, i requires 0 <= i < |c.vis| => if i in dropped then None else c.vis[i]),
          seq(|c.tri|, i requires 0 <= i < |c.tri| => if i in dropped then None else c.tri[i]))
  }

  /** The walk may stop at a dependent that keeps nothing; MODULES takes everything with it. */
  ghost predicate ClosedDrop(g: Graph, c: Cache, dropped: set<nat>) {
    && |c.vis| == |c.tri| == |g.syms|
    && (forall i, j :: i in dropped && 0 <= j < |g.syms| && i in DependsOn(g.syms[j]) && c.vis[j].Some? ==> j in dropped)
    && (g.modules.Some? && g.modules.value in dropped ==> forall j :: 0 <= j < |g.syms| && c.vis[j].Some? ==> j in dropped)
  }

  lemma NoPromptsNoVisibility(g: Graph, d: SymDef, u: Option<Tri>, w: Option<Tri>, v: seq<Tri>)
    requires d.prompts == []
    ensures TriEval(g, d, u, v) == TriEval(g, d, w, v)
  {
    assert VisEval(g, d, v).val == 0;
    assert BaseEval(g, d, u, v) == BaseEval(g, d, w, v);
  }

  /** A kept symbol that was not dropped only looked at symbols that were not dropped. */
  lemma SurvivorsLookedAtSurvivors(g: Graph, user: UserValues, c: Cache, v: seq<Tri>, dropped: set<nat>, i: nat, x: nat)
    requires Consistent(g, user, c, v) && ClosedDrop(g, c, dropped)
    requires i < |v| && i !in dropped && c.vis[i].Some? && x in Inputs(g, i)
    ensures x !in dropped
  {
  }

  lemma {:induction false} SurvivorsKeepTheirValue(
      g: Graph, rank: seq<nat>, c: Cache, dropped: set<nat>, s: nat,
      user: UserValues, user': UserValues, v: seq<Tri>, v': seq<Tri>, i: nat)
    requires Acyclic(g, rank) && IsSolution(g, user, v) && IsSolution(g, user', v')
    requires s < |user| && forall j :: 0 <= j < |user| && j != s ==> user'[j] == user[j]
    requires Consistent(g, user, c, v) && ClosedDrop(g, c, dropped)
    requires s in dropped || g.syms[s].prompts == []
    requires i < |v| && i !in dropped && c.tri[i].Some?
    ensures v'[i] == v[i]
    ensures TriEval(g, g.syms[i], user'[i], v') == TriEval(g, g.syms[i], user[i], v)
    decreases rank[i]
  {
    LookedAreInputs(g, i, user[i], v);
    assert InputsBelow(g, rank, i);
    forall x | x in TriEval(g, g.syms[i], user[i], v).looked ensures v'[x] == v[x] {
      SurvivorsLookedAtSurvivors(g, user, c, v, dropped, i, x);
      SurvivorsKeepTheirValue(g, rank, c, dropped, s, user, user', v, v', x);
    }
    TriFrame(g, g.syms[i], user[i], v, v');
    if i == s {
      NoPromptsNoVisibility(g, g.syms[i], user[i], user'[i], v');
    }
  }

  /** Stopping the walk early is sound: what stays kept is right for the new user values. */
  lemma PrunedInvalidationIsSound(
      g: Graph, rank: seq<nat>, c: Cache, dropped: set<nat>, s: nat, user: UserValues, user': UserValues)
    requires Acyclic(g, rank) && |user| == |user'| == |g.syms| && s < |user|
    requires forall j :: 0 <= j < |user| && j != s ==> user'[j] == user[j]
    requires Consistent(g, user, c, Recompute(g, rank, user)) && ClosedDrop(g, c, dropped)
    requires s in dropped || g.syms[s].prompts == []
    ensures Consistent(g, user', Wipe(c, dropped), Recompute(g, rank, user'))
  {
    hide Recompute, IsSolution, Acyclic, ClosedDrop, Inputs, VisEval, TriEval;
    var v, v' := Recompute(g, rank, user), Recompute(g, rank, user');
    var c' := Wipe(c, dropped);
    RecomputeSolves(g, rank, user);
    RecomputeSolves(g, rank, user');
    forall i, x | 0 <= i < |v| && c'.vis[i].Some? && x in Inputs(g, i) && x in Held(c.tri)
      ensures x in Held(c'.tri) && v'[x] == v[x]
    {
      SurvivorsLookedAtSurvivors(g, user, c, v, dropped, i, x);
      SurvivorsKeepTheirValue(g, rank, c, dropped, s, user, user', v, v', x);
    }
    forall i | 0 <= i < |v| && c'.vis[i].Some?
      ensures VisEval(g, g.syms[i], v') == VisEval(g, g.syms[i], v) && VisEval(g, g.syms[i], v).looked <= Held(c'.tri)
    {
      LookedAreInputs(g, i, user[i], v);
      VisFrame(g, g.syms[i], v, v');
    }
    forall i | 0 <= i < |v| && c'.tri[i].Some?
      ensures TriEval(g, g.syms[i], user'[i], v') == TriEval(g, g.syms[i], user[i], v)
      ensures TriEval(g, g.syms[i], user[i], v).looked <= Held(c'.tri)
    {
      LookedAreInputs(g, i, user[i], v);
      SurvivorsKeepTheirValue(g, rank, c, dropped, s, user, user', v, v', i);
    }
  }
}
