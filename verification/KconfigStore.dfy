/** The symbols of a loaded configuration as objects with cached fields, read and changed in any order. */
module KconfigStore {
  import opened Prelude
  import opened KconfigExpr
  import opened KconfigCache
  import opened KconfigMeaning

  /** Index i of every sequence is the field of symbol i. */
  class Kconfig {
    const graph: Graph
    ghost const rank: seq<nat>
    var dependents: seq<set<nat>>
    var user: UserValues
    var cachedVis: seq<Option<Tri>>
    var cachedTri: seq<Option<Tri>>

    ghost function Kept(): (r: Cache)
      reads this
    {
      Cache(cachedVis, cachedTri)
    }

    /** What every symbol's value is when computed from nothing but the user values. */
    ghost function Values(): (r: seq<Tri>)
      requires |user| == |graph.syms|
      reads `user
    {
      Recompute(graph, rank, user)
    }

    ghost predicate DependentsComplete()
      reads `dependents
    {
      && |dependents| == |graph.syms|
      && forall k :: 0 <= k < |dependents| ==>
           dependents[k] == set j: nat | j < |graph.syms| && k in DependsOn(graph.syms[j])
    }

    ghost predicate Valid()
      reads this
    {
      && Acyclic(graph, rank)
      && |user| == |graph.syms|
      && DependentsComplete()
      && Consistent(graph, user, Kept(), Values())
    }

    constructor (graph: Graph, ghost rank: seq<nat>)
      requires Acyclic(graph, rank)
      ensures Valid() && this.graph == graph && this.rank == rank
      ensures user == seq(|graph.syms|, _ => None)
    {
      this.graph, this.rank := graph, rank;
      user := seq(|graph.syms|, _ => None);
      cachedVis := seq(|graph.syms|, _ => None);
      cachedTri := seq(|graph.syms|, _ => None);
      dependents := seq(|graph.syms|, _ => {});
      new;
      BuildDep();
    }

    /** _build_dep(): every symbol joins the dependents of everything it mentions. */
    method BuildDep()
      requires |dependents| == |graph.syms| && Acyclic(graph, rank)
      requires forall k :: 0 <= k < |dependents| ==> dependents[k] == {}
      modifies `dependents
      ensures DependentsComplete()
    {
      hide DependsOn, Acyclic;
      var i := 0;
      while i < |graph.syms|
        invariant 0 <= i <= |graph.syms| == |dependents|
        invariant forall k :: 0 <= k < |dependents| ==>
          dependents[k] == set j: nat | j < i && k in DependsOn(graph.syms[j])
      {
        DependsInRange(graph, rank, i);
        JoinDependents(i, DependsOn(graph.syms[i]));
        i := i + 1;
      }
    }

    /** _depend_on(): symbol i joins the dependents of the given symbols. */
    method JoinDependents(i: nat, symbols: set<nat>)
      requires forall k :: k in symbols ==> k < |dependents|
      modifies `dependents
      ensures |dependents| == |old(dependents)|
      ensures forall k :: 0 <= k < |dependents| ==>
        dependents[k] == old(dependents)[k] + if k in symbols then {i} else {}
    {
      var todo := symbols;
      ghost var before := dependents;
      while todo != {}
        invariant todo <= symbols && |dependents| == |before|
        invariant forall k :: 0 <= k < |before| ==>
          dependents[k] == if k in symbols - todo then before[k] + {i} else before[k]
        decreases todo
      {
        var k :| k in todo;
        dependents := dependents[k := dependents[k] + {i}];
        todo := todo - {k};
      }
    }

    /** Reading values keeps more of them and forgets none. */
    twostate predicate OnlyGrows()
      reads this
    {
      && Held(old(cachedVis)) <= Held(cachedVis)
      && Held(old(cachedTri)) <= Held(cachedTri)
    }

    ghost predicate Below(e: Expr, r: nat)
    {
      |rank| == |graph.syms| && forall k :: k in Mentions(e) ==> k < |rank| && rank[k] < r
    }

    /** The part of Valid() that reading needs; v names the recomputed values. */
    ghost predicate Ready(v: seq<Tri>)
      reads this
    {
      && Acyclic(graph, rank)
      && |user| == |graph.syms|
      && v == Values()
      && Consistent(graph, user, Kept(), v)
    }

    method SymValue(s: Symbol, ghost r: nat, ghost v: seq<Tri>) returns (val: Tri)
      requires Ready(v) && Below(Leaf(s), r)
      modifies `cachedVis, `cachedTri
      ensures Ready(v) && OnlyGrows()
      ensures val == SymEval(s, v).val && SymEval(s, v).looked <= Held(cachedTri)
      decreases r, 0, 0
    {
      match s
      case Constant(c) => val := c;
      case Literal(_, _) => val := 0;
      case Config(k) =>
        assert k in Mentions(Leaf(s));
        val := TriValue(k, v);
    }

    /** The comparison in expr_value(): _sym_to_num() of both, or _strcmp() when one is no number. */
    method CompareValues(a: Symbol, b: Symbol, ghost r: nat, ghost v: seq<Tri>) returns (comp: int)
      requires Ready(v) && Below(Leaf(a), r) && Below(Leaf(b), r)
      modifies `cachedVis, `cachedTri
      ensures Ready(v) && OnlyGrows()
      ensures comp == Compare(a, b, v) && SymEval(a, v).looked + SymEval(b, v).looked <= Held(cachedTri)
      decreases r, 0, 1
    {
      var x := SymValue(a, r, v);
      var y := SymValue(b, r, v);
      if (a.Literal? && a.number.None?) || (b.Literal? && b.number.None?) {
        comp := StrCmp(if a.Literal? then a.text else TriText(x), if b.Literal? then b.text else TriText(y));
      } else {
        comp := (if a.Literal? then a.number.value else x) - (if b.Literal? then b.number.value else y);
      }
    }

    /** expr_value() */
    method ExprValue(e: Expr, ghost r: nat, ghost v: seq<Tri>) returns (val: Tri)
      requires Ready(v) && Below(e, r)
      modifies `cachedVis, `cachedTri
      ensures Ready(v) && OnlyGrows()
      ensures val == Eval(e, v).val && Eval(e, v).looked <= Held(cachedTri)
      decreases r, 1, e
    {
      match e
      case Leaf(s) => val := SymValue(s, r, v);
      case And(x, y) =>
        val := ExprValue(x, r, v);
        if val != 0 { var v2 := ExprValue(y, r, v); val := Min(val, v2); }
      case Or(x, y) =>
        val := ExprValue(x, r, v);
        if val != 2 { var v2 := ExprValue(y, r, v); val := Max(val, v2); }
      case Not(x) => val := ExprValue(x, r, v); val := 2 - val;
      case Rel(rel, a, b) =>
        assert Mentions(Leaf(a)) + Mentions(Leaf(b)) == Mentions(e);
        var comp := CompareValues(a, b, r, v);
        val := if Holds(rel, comp) then 2 else 0;
    }

    /** Whether Symbol.type is BOOL at the moment. */
    method IsBool(i: nat, ghost v: seq<Tri>) returns (val: bool)
      requires Ready(v) && i < |graph.syms|
      modifies `cachedVis, `cachedTri
      ensures Ready(v) && OnlyGrows()
      ensures val == (BoolNow(graph, graph.syms[i].origType, v).val == 2)
      ensures BoolNow(graph, graph.syms[i].origType, v).looked <= Held(cachedTri)
      decreases rank[i], 2
    {
      if graph.syms[i].origType.Bool? {
        return true;
      }
      assert InputsBelow(graph, rank, i);
      var modules := if graph.modules.Some? then Config(graph.modules.value) else Constant(0);
      var m := SymValue(modules, rank[i], v);
      val := m == 0;
    }

    /** The most any prompt allows. */
    method PromptVisibility(i: nat, ghost v: seq<Tri>) returns (val: Tri)
      requires Ready(v) && i < |graph.syms|
      modifies `cachedVis, `cachedTri
      ensures Ready(v) && OnlyGrows()
      ensures val == PromptsEval(graph.syms[i].prompts, v).val
      ensures PromptsEval(graph.syms[i].prompts, v).looked <= Held(cachedTri)
      decreases rank[i], 2
    {
      hide Eval, VisEval, Held, Consistent;
      val := 0;
      var prompts := graph.syms[i].prompts;
      for n := 0 to |prompts|
        invariant Ready(v) && OnlyGrows()
        invariant val == PromptsEval(prompts[..n], v).val && PromptsEval(prompts[..n], v).looked <= Held(cachedTri)
      {
        MentionsAllHas(prompts, n);
        MentionedByDef(i, prompts[n]);
        var c := ExprValue(prompts[n], rank[i], v);
        assert prompts[..n + 1][..n] == prompts[..n];
        val := Max(val, c);
      }
      assert prompts[..|prompts|] == prompts;
    }

    /** _visibility(): the prompts, with m promoted to y for a bool symbol. */
    method VisibilityOf(i: nat, ghost v: seq<Tri>) returns (val: Tri)
      requires Ready(v) && i < |graph.syms|
      modifies `cachedVis, `cachedTri
      ensures Ready(v) && OnlyGrows()
      ensures val == VisEval(graph, graph.syms[i], v).val && VisEval(graph, graph.syms[i], v).looked <= Held(cachedTri)
      decreases rank[i], 3
    {
      hide PromptsEval, BoolNow, Held, Consistent;
      val := PromptVisibility(i, v);
      if val == 1 {
        var b := IsBool(i, v);
        val := if b then 2 else 1;
      }
    }

    /** Symbol.visibility */
    method Visibility(i: nat, ghost v: seq<Tri>) returns (val: Tri)
      requires Ready(v) && i < |graph.syms|
      modifies `cachedVis, `cachedTri
      ensures Ready(v) && OnlyGrows()
      ensures cachedVis[i] == Some(val)
      ensures val == VisEval(graph, graph.syms[i], v).val && VisEval(graph, graph.syms[i], v).looked <= Held(cachedTri)
      decreases rank[i], 4
    {
      if cachedVis[i].Some? {
        return cachedVis[i].value;
      }
      val := VisibilityOf(i, v);
      cachedVis := cachedVis[i := Some(val)];
    }

    /** Conditions and values of a symbol's properties only mention symbols of lower rank. */
    lemma MentionedByDef(i: nat, e: Expr)
      requires Acyclic(graph, rank) && i < |graph.syms|
      requires Mentions(e) <= DependsOn(graph.syms[i])
      ensures Below(e, rank[i])
    {
      assert InputsBelow(graph, rank, i);
    }

    method DefaultValue(i: nat, ghost v: seq<Tri>) returns (val: Tri)
      requires Ready(v) && i < |graph.syms|
      modifies `cachedVis, `cachedTri
      ensures Ready(v) && OnlyGrows()
      ensures val == DefaultsEval(graph.syms[i].defaults, v).val
      ensures DefaultsEval(graph.syms[i].defaults, v).looked <= Held(cachedTri)
      decreases rank[i], 2
    {
      var ds := graph.syms[i].defaults;
      for n := 0 to |ds|
        invariant Ready(v) && OnlyGrows()
        invariant DefaultsEval(ds, v).val == DefaultsEval(ds[n..], v).val
        invariant DefaultsEval(ds, v).looked <= Held(cachedTri) + DefaultsEval(ds[n..], v).looked
      {
        assert ds[n..][0] == ds[n] && ds[n..][1..] == ds[n + 1..];
        MentionsDefaultsHas(ds, n);
        MentionedByDef(i, ds[n].1);
        MentionedByDef(i, ds[n].0);
        var depVal := ExprValue(ds[n].1, rank[i], v);
        if depVal != 0 {
          val := ExprValue(ds[n].0, rank[i], v);
          return Min(val, depVal);
        }
      }
      val := 0;
    }

    /** The default, raised by imply. */
    method ImpliedValue(i: nat, ghost v: seq<Tri>) returns (val: Tri)
      requires Ready(v) && i < |graph.syms|
      modifies `cachedVis, `cachedTri
      ensures Ready(v) && OnlyGrows()
      ensures val == ImpliedEval(graph.syms[i], v).val && ImpliedEval(graph.syms[i], v).looked <= Held(cachedTri)
      decreases rank[i], 3
    {
      var d := graph.syms[i];
      val := DefaultValue(i, v);
      MentionedByDef(i, d.weakRevDep);
      MentionedByDef(i, d.directDep);
      var weak := ExprValue(d.weakRevDep, rank[i], v);
      if weak != 0 {
        var dir := ExprValue(d.directDep, rank[i], v);
        if dir != 0 {
          val := Max(weak, val);
        }
      }
    }

    /** The value before a select: the user's, cut down to the visibility, or the implied default. */
    method BaseValue(i: nat, ghost v: seq<Tri>) returns (val: Tri)
      requires Ready(v) && i < |graph.syms|
      modifies `cachedVis, `cachedTri
      ensures Ready(v) && OnlyGrows() && i in Held(cachedVis)
      ensures val == BaseEval(graph, graph.syms[i], user[i], v).val
      ensures BaseEval(graph, graph.syms[i], user[i], v).looked <= Held(cachedTri)
      decreases rank[i], 5
    {
      var vis := Visibility(i, v);
      if vis != 0 && user[i].Some? {
        val := Min(user[i].value, vis);
      } else {
        val := ImpliedValue(i, v);
      }
    }

    method SelectedValue(i: nat, ghost v: seq<Tri>) returns (val: Tri)
      requires Ready(v) && i < |graph.syms|
      modifies `cachedVis, `cachedTri
      ensures Ready(v) && OnlyGrows() && i in Held(cachedVis)
      ensures val == SelectedEval(graph, graph.syms[i], user[i], v).val
      ensures SelectedEval(graph, graph.syms[i], user[i], v).looked <= Held(cachedTri)
      decreases rank[i], 6
    {
      var d := graph.syms[i];
      val := BaseValue(i, v);
      MentionedByDef(i, d.revDep);
      MentionedByDef(i, d.directDep);
      var rev := ExprValue(d.revDep, rank[i], v);
      if rev != 0 {
        var dir := ExprValue(d.directDep, rank[i], v);
        val := Max(rev, val);
      }
    }

    /** m is promoted to y for a bool symbol and under an imply of y. */
    method PromotedValue(i: nat, ghost v: seq<Tri>) returns (val: Tri)
      requires Ready(v) && i < |graph.syms|
      modifies `cachedVis, `cachedTri
      ensures Ready(v) && OnlyGrows() && i in Held(cachedVis)
      ensures val == TriEval(graph, graph.syms[i], user[i], v).val
      ensures TriEval(graph, graph.syms[i], user[i], v).looked <= Held(cachedTri)
      decreases rank[i], 7
    {
      val := SelectedValue(i, v);
      if val == 1 {
        MentionedByDef(i, graph.syms[i].weakRevDep);
        var isBool := IsBool(i, v);
        if isBool {
          val := 2;
        } else {
          var weak := ExprValue(graph.syms[i].weakRevDep, rank[i], v);
          if weak == 2 {
            val := 2;
          }
        }
      }
    }

    /** Symbol.tri_value: whatever was read or changed before, a read gives the recomputed value. */
    method TriValue(i: nat, ghost v: seq<Tri>) returns (val: Tri)
      requires Ready(v) && i < |graph.syms|
      modifies `cachedVis, `cachedTri
      ensures Ready(v) && OnlyGrows()
      ensures cachedTri[i] == Some(val) && val == v[i]
      decreases rank[i], 8
    {
      assert v[i] == TriEval(graph, graph.syms[i], user[i], v).val by {
        RecomputeSolves(graph, rank, user);
      }
      if cachedTri[i].Some? {
        return cachedTri[i].value;
      }
      val := PromotedValue(i, v);
      KeepingIsConsistent(graph, user, Kept(), v, i);
      cachedTri := cachedTri[i := Some(val)];
    }

    /** A read by a client, at any time between changes: the value meant by the definition and the user values. */
    method Read(i: nat) returns (val: Tri)
      requires Valid() && i < |graph.syms|
      modifies `cachedVis, `cachedTri
      ensures Valid() && val == Values()[i]
      ensures ValueIs(graph, graph.syms[i], user[i], Values(), val)
    {
      SolutionMeaning(graph, rank, user, i);
      val := TriValue(i, Values());
    }

    /** A read of the visibility by a client. */
    method ReadVisibility(i: nat) returns (val: Tri)
      requires Valid() && i < |graph.syms|
      modifies `cachedVis, `cachedTri
      ensures Valid() && HasVisibility(graph, graph.syms[i], Values(), val)
    {
      val := Visibility(i, Values());
      VisibilityMeaning(graph, graph.syms[i], Values(), 1);
      VisibilityMeaning(graph, graph.syms[i], Values(), 2);
    }

    // ---------------------------------------------------------------- invalidation

    ghost predicate Shaped()
      reads this
    {
      && (graph.modules.Some? ==> graph.modules.value < |graph.syms|)
      && |cachedVis| == |cachedTri| == |graph.syms| == |dependents|
      && forall k :: 0 <= k < |dependents| ==> InRange(dependents[k])
    }

    ghost predicate InRange(items: set<nat>) {
      forall j :: j in items ==> j < |graph.syms|
    }

    /** _rec_invalidate() stops at dependents that keep nothing; returns the symbols it dropped. */
    method RecInvalidate(i: nat) returns (ghost dropped: set<nat>)
      requires Shaped() && i < |graph.syms|
      modifies `cachedVis, `cachedTri
      ensures Shaped() && i in dropped
      ensures Kept() == Wipe(old(Kept()), dropped)
      ensures Walked(dependents, graph.modules, Held(cachedVis), dropped, -1)
      decreases |Held(cachedVis) - {i}|, 1
    {
      if graph.modules == Some(i) {
        InvalidateAll();
        dropped := UpTo(|graph.syms|);
      } else {
        ghost var c := Kept();
        cachedVis, cachedTri := cachedVis[i := None], cachedTri[i := None];
        assert Kept() == Wipe(c, {i});
        assert Held(cachedVis) == Held(c.vis) - {i};
        dropped := InvalidateDependents(i);
        WipeTwice(c, {i}, dropped);
        dropped := {i} + dropped;
      }
    }

    method InvalidateDependents(i: nat) returns (ghost dropped: set<nat>)
      requires Shaped() && i < |graph.syms| && graph.modules != Some(i)
      modifies `cachedVis, `cachedTri
      ensures Shaped()
      ensures Kept() == Wipe(old(Kept()), dropped)
      ensures Walked(dependents, graph.modules, Held(cachedVis), dropped, i) && dependents[i] * Held(cachedVis) == {}
      decreases |Held(cachedVis)|, 0
    {
      ghost var before := Kept();
      WipeNothing(before);
      hide Wipe;
      dropped := {};
      var todo := dependents[i];
      while todo != {}
        invariant Shaped() && todo <= dependents[i]
        invariant Kept() == Wipe(before, dropped)
        invariant Held(cachedVis) <= Held(before.vis)
        invariant (dependents[i] - todo) * Held(cachedVis) == {}
        invariant Walked(dependents, graph.modules, Held(cachedVis), dropped, i)
        decreases todo
      {
        var item :| item in todo;
        ghost var visited, held := dependents[i] - todo, Held(cachedVis);
        todo := todo - {item};
        assert dependents[i] - todo == visited + {item};
        if cachedVis[item].Some? {
          RemovalShrinks(held, Held(before.vis), item);
          ghost var now := Kept();
          ghost var more := RecInvalidate(item);
          WipeShrinks(now, more);
          WipeTwice(before, dropped, more);
          WalkFurther(dependents, graph.modules, held, Held(cachedVis), dropped, more, i);
          dropped := dropped + more;
        }
        SettledFurther(visited, held, Held(cachedVis), item);
      }
    }

    /** _invalidate_all() */
    method InvalidateAll()
      requires Shaped()
      modifies `cachedVis, `cachedTri
      ensures Shaped() && Held(cachedVis) == {}
      ensures Kept() == Wipe(old(Kept()), UpTo(|graph.syms|))
    {
      ghost var before := Kept();
      for k := 0 to |graph.syms|
        invariant Shaped()
        invariant Kept() == Wipe(before, UpTo(k))
      {
        cachedVis, cachedTri := cachedVis[k := None], cachedTri[k := None];
      }
    }

    /** Promptless symbols ignore their user value, so nothing is dropped for them. */
    method RecInvalidateIfHasPrompt(i: nat, ghost before: UserValues)
      requires DependentsComplete() && Acyclic(graph, rank) && i < |graph.syms|
      requires |before| == |user| == |graph.syms|
      requires forall j :: 0 <= j < |user| && j != i ==> user[j] == before[j]
      requires Consistent(graph, before, Kept(), Recompute(graph, rank, before))
      modifies `cachedVis, `cachedTri
      ensures Valid()
    {
      ghost var c := Kept();
      ghost var dropped: set<nat> := {};
      if graph.syms[i].prompts != [] {
        dropped := RecInvalidate(i);
      }
      assert Kept() == Wipe(c, dropped);
      forall k, j | k in dropped && 0 <= j < |graph.syms| && k in DependsOn(graph.syms[j]) && c.vis[j].Some?
        ensures j in dropped
      {
        assert InputsBelow(graph, rank, j) && k in Inputs(graph, j);
        assert j in dependents[k];
        assert j !in Held(cachedVis);
      }
      if graph.modules.Some? && graph.modules.value in dropped {
        forall j | 0 <= j < |graph.syms| && c.vis[j].Some? ensures j in dropped {
          assert j !in Held(cachedVis);
        }
      }
      PrunedInvalidationIsSound(graph, rank, c, dropped, i, before, user);
    }

    /** Symbol.set_value() for a bool or tristate symbol that is not in a choice. */
    method SetValue(i: nat, value: Tri) returns (valid: bool)
      requires Valid() && i < |graph.syms|
      modifies `user, `cachedVis, `cachedTri
      ensures Valid()
      ensures valid == (graph.syms[i].origType.Tristate? || value != 1 || old(user[i]) == Some(value))
      ensures user == if valid then old(user)[i := Some(value)] else old(user)
    {
      if user[i] == Some(value) {
        return true;
      }
      if graph.syms[i].origType.Bool? && value == 1 {
        return false;
      }
      ghost var before := user;
      user := user[i := Some(value)];
      RecInvalidateIfHasPrompt(i, before);
      valid := true;
    }

    /** Symbol.unset_value() */
    method UnsetValue(i: nat)
      requires Valid() && i < |graph.syms|
      modifies `user, `cachedVis, `cachedTri
      ensures Valid() && user == old(user)[i := None]
    {
      if user[i].Some? {
        ghost var before := user;
        user := user[i := None];
        RecInvalidateIfHasPrompt(i, before);
      }
    }
  }

  lemma DependsInRange(g: Graph, rank: seq<nat>, i: nat)
    requires Acyclic(g, rank) && i < |g.syms|
    ensures forall k :: k in DependsOn(g.syms[i]) ==> k < |g.syms|
  {
    assert InputsBelow(g, rank, i);
    forall k | k in DependsOn(g.syms[i]) ensures k < |g.syms| {
      assert k in Inputs(g, i);
    }
  }

  /** Nothing that depends on a dropped symbol, except possibly on symbol i, is among the held ones. */
  ghost predicate Walked(dependents: seq<set<nat>>, modules: Option<nat>, held: set<nat>, dropped: set<nat>, i: int) {
    && (forall k :: k in dropped && k != i && k < |dependents| ==> dependents[k] * held == {})
    && (modules.Some? && modules.value in dropped ==> held == {})
  }

  lemma WalkFurther(
      dependents: seq<set<nat>>, modules: Option<nat>, held: set<nat>, held': set<nat>,
      dropped: set<nat>, more: set<nat>, i: int)
    requires held' <= held
    requires Walked(dependents, modules, held, dropped, i) && Walked(dependents, modules, held', more, -1)
    ensures Walked(dependents, modules, held', dropped + more, i)
  {
    forall k | k in dropped + more && k != i && k < |dependents| ensures dependents[k] * held' == {} {
      assert dependents[k] * held' <= dependents[k] * held;
    }
  }

  ghost function UpTo(n: nat): (r: set<nat>)
    ensures forall k: nat :: k in r <==> k < n
  {
    if n == 0 then {} else UpTo(n - 1) + {n - 1}
  }

  lemma RemovalShrinks(a: set<nat>, b: set<nat>, x: nat)
    requires a <= b && x in a
    ensures |a - {x}| < |b|
  {
    assert b == (a - {x}) + {x} + (b - a);
  }

  lemma SettledFurther(visited: set<nat>, held: set<nat>, held': set<nat>, item: nat)
    requires visited * held == {} && held' <= held && item !in held'
    ensures (visited + {item}) * held' == {}
  {
  }

  lemma WipeNothing(c: Cache)
    requires |c.vis| == |c.tri|
    ensures Wipe(c, {}) == c
  {
  }

  lemma WipeShrinks(c: Cache, x: set<nat>)
    requires |c.vis| == |c.tri|
    ensures Held(Wipe(c, x).vis) <= Held(c.vis) && forall k :: k in x ==> k !in Held(Wipe(c, x).vis)
  {
  }

  lemma WipeTwice(c: Cache, x: set<nat>, y: set<nat>)
    requires |c.vis| == |c.tri|
    ensures Wipe(Wipe(c, x), y) == Wipe(c, x + y)
  {
  }
}
