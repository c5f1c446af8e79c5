/** Three-colour search for dependency loops, run once after a configuration is loaded. */
module KconfigLoops {
  import opened Prelude

  /** A call reports nothing, the part of a loop seen on the way back, or raises the whole loop. */
  datatype Search = NoLoop | Partial(loop: seq<nat>) | Raised(loop: seq<nat>)

  /** dependents[k] lists the symbols that depend on symbol k, in the order the set is walked. */
  type Dependents = seq<seq<nat>>

  ghost predicate Closed(deps: Dependents) {
    forall k, j :: 0 <= k < |deps| && j in deps[k] ==> j < |deps|
  }

  /** Each item of the chain is a dependent of the one after it. */
  ghost predicate Chain(deps: Dependents, loop: seq<nat>) {
    && (forall i :: 0 <= i < |loop| ==> loop[i] < |deps|)
    && forall i :: 0 <= i < |loop| - 1 ==> loop[i] in deps[loop[i + 1]]
  }

  /** "loop[0] depends on loop[1] ... depends again on loop[0]". */
  ghost predicate IsLoop(deps: Dependents, loop: seq<nat>) {
    Chain(deps, loop) && loop != [] && loop[|loop| - 1] in deps[loop[0]]
  }

  ghost predicate NoDuplicates(s: seq<nat>) {
    forall i, j :: 0 <= i < j < |s| ==> s[i] != s[j]
  }

  /** Every dependent of a finished symbol finished earlier. */
  ghost predicate FinishOrder(deps: Dependents, done: seq<nat>) {
    && NoDuplicates(done)
    && (forall i :: 0 <= i < |done| ==> done[i] < |deps|)
    && forall i, j :: 0 <= i < |done| && j in deps[done[i]] ==> j in done[..i]
  }

  class LoopCheck {
    const dependents: Dependents
    var visited: seq<nat>      // _visited: 0 unvisited, 1 on the search path, 2 in no loop
    ghost var done: seq<nat>   // the symbols coloured 2, in the order they were

    constructor (dependents: Dependents)
      requires Closed(dependents)
      ensures this.dependents == dependents && Colours([])
    {
      this.dependents := dependents;
      visited := seq(|dependents|, _ => 0);
      done := [];
    }

    ghost predicate Colours(path: seq<nat>)
      reads this
    {
      && |visited| == |dependents| && Closed(dependents)
      && (forall k :: 0 <= k < |visited| ==> visited[k] <= 2)
      && (forall k :: k in path ==> k < |visited|) && (forall k :: k in done ==> k < |visited|)
      && (forall k: nat :: k < |visited| ==> (visited[k] == 1 <==> k in path) && (visited[k] == 2 <==> k in done))
      && FinishOrder(dependents, done)
    }

    ghost function Unvisited(): (r: set<nat>)
      reads this
    {
      set k: nat | k < |visited| && visited[k] == 0
    }

    /** _check_dep_loop_sym(); path holds the symbols whose calls are still running. */
    method CheckDepLoopSym(sym: nat, ghost path: seq<nat>) returns (r: Search)
      requires Colours(path) && sym < |dependents|
      modifies this
      ensures r.NoLoop? ==> Colours(path) && visited[sym] == 2 && old(done) <= done
      ensures r.Partial? ==> Chain(dependents, r.loop) && r.loop != [] && r.loop[|r.loop| - 1] == sym && r.loop[0] in path
      ensures r.Raised? ==> IsLoop(dependents, r.loop)
      ensures Unvisited() <= old(Unvisited())
      decreases Unvisited()
    {
      hide FinishOrder, IsLoop;
      if visited[sym] == 2 {
        return NoLoop;
      }
      if visited[sym] == 1 {
        return Partial([sym]);
      }
      ghost var entry := Unvisited();
      assert sym in entry;
      visited := visited[sym := 1];
      assert Unvisited() <= entry - {sym};
      var deps := dependents[sym];
      for n := 0 to |deps|
        invariant Colours(path + [sym]) && old(done) <= done && visited[sym] == 1
        invariant Unvisited() <= entry - {sym}
        invariant forall m :: 0 <= m < n ==> deps[m] in done
      {
        assert deps[n] in dependents[sym];
        r := CheckDepLoopSym(deps[n], path + [sym]);
        if !r.NoLoop? {
          r := FoundDepLoop(r, sym, path);
          return;
        }
      }
      Finish(path, sym);
      visited := visited[sym := 2];
      done := done + [sym];
      r := NoLoop;
    }

    lemma Finish(path: seq<nat>, sym: nat)
      requires Colours(path + [sym]) && sym < |dependents| && sym !in done
      requires forall m :: 0 <= m < |dependents[sym]| ==> dependents[sym][m] in done
      ensures FinishOrder(dependents, done + [sym])
    {
      var d := done + [sym];
      forall i, j | 0 <= i < |d| && j in dependents[d[i]] ensures j in d[..i] {
        assert d[..i] == done[..i];
      }
    }

    /** _found_dep_loop(): raises once the search is back at the symbol where the loop starts. */
    method FoundDepLoop(inner: Search, cur: nat, ghost path: seq<nat>) returns (r: Search)
      requires !inner.NoLoop? && cur < |dependents|
      requires inner.Raised? ==> IsLoop(dependents, inner.loop)
      requires inner.Partial? ==> Chain(dependents, inner.loop) && inner.loop != [] && inner.loop[0] in path + [cur]
      requires inner.Partial? ==> inner.loop[|inner.loop| - 1] in dependents[cur]
      ensures !r.NoLoop?
      ensures r.Partial? ==> Chain(dependents, r.loop) && r.loop != [] && r.loop[|r.loop| - 1] == cur && r.loop[0] in path
      ensures r.Raised? ==> IsLoop(dependents, r.loop)
    {
      if inner.Raised? {
        return inner;
      }
      if cur != inner.loop[0] {
        r := Partial(inner.loop + [cur]);
      } else {
        r := Raised(inner.loop);
      }
    }

    /** The loop over all defined symbols: it raises exactly when there is a dependency loop. */
    method CheckAll(defined: seq<nat>) returns (r: Search)
      requires Colours([])
      requires forall k :: k in defined ==> k < |dependents|
      requires forall k, j :: 0 <= k < |dependents| && j in dependents[k] ==> j in defined
      modifies this
      ensures r.NoLoop? || r.Raised?
      ensures r.Raised? ==> IsLoop(dependents, r.loop)
      ensures r.NoLoop? ==> !exists loop :: IsLoop(dependents, loop)
      ensures r.NoLoop? ==> FinishOrder(dependents, done) && forall k :: k in defined ==> k in done
    {
      for n := 0 to |defined|
        invariant Colours([])
        invariant forall m :: 0 <= m < n ==> defined[m] in done
      {
        assert defined[n] in defined;
        r := CheckDepLoopSym(defined[n], []);
        if !r.NoLoop? {
          return;
        }
      }
      forall loop | IsLoop(dependents, loop) ensures false {
        LoopIsDone(dependents, done, defined, loop);
        FinishedHasNoLoop(dependents, done, loop);
      }
      r := NoLoop;
    }
  }

  lemma LoopIsDone(deps: Dependents, done: seq<nat>, defined: seq<nat>, loop: seq<nat>)
    requires IsLoop(deps, loop)
    requires forall k, j :: 0 <= k < |deps| && j in deps[k] ==> j in defined
    requires forall k :: k in defined ==> k in done
    ensures forall i :: 0 <= i < |loop| ==> loop[i] in done
  {
    forall i | 0 <= i < |loop| ensures loop[i] in done {
      if i < |loop| - 1 {
        assert loop[i] in deps[loop[i + 1]];
      }
    }
  }

  /** The place of a finished symbol in the finishing order. */
  function Place(done: seq<nat>, k: nat): (i: nat)
    requires k in done
    ensures i < |done| && done[i] == k
  {
    if done[0] == k then 0 else 1 + Place(done[1..], k)
  }

  lemma DependentsFinishEarlier(deps: Dependents, done: seq<nat>, k: nat, j: nat)
    requires FinishOrder(deps, done) && k in done && k < |deps| && j in deps[k]
    ensures j in done && Place(done, j) < Place(done, k)
  {
    var i := Place(done, k);
    assert j in done[..i];
    var m :| 0 <= m < i && done[m] == j;
    assert done[Place(done, j)] == done[m];
  }

  lemma {:induction false} ChainFinishesLater(deps: Dependents, done: seq<nat>, loop: seq<nat>, i: nat)
    requires FinishOrder(deps, done) && Chain(deps, loop) && i < |loop|
    requires forall m :: 0 <= m < |loop| ==> loop[m] in done
    ensures Place(done, loop[0]) <= Place(done, loop[i])
  {
    if i > 0 {
      ChainFinishesLater(deps, done, loop, i - 1);
      DependentsFinishEarlier(deps, done, loop[i], loop[i - 1]);
    }
  }

  lemma FinishedHasNoLoop(deps: Dependents, done: seq<nat>, loop: seq<nat>)
    requires FinishOrder(deps, done) && forall m :: 0 <= m < |loop| ==> loop[m] in done
    ensures !IsLoop(deps, loop)
  {
    if IsLoop(deps, loop) {
      ChainFinishesLater(deps, done, loop, |loop| - 1);
      DependentsFinishEarlier(deps, done, loop[0], loop[|loop| - 1]);
    }
  }
}

/**
 * Which configurations that load without a reported loop the value cache can work on. The loop check does
 * not know that a tristate symbol looks at MODULES.
 */
module KconfigLoad {
  import opened Prelude
  import opened KconfigExpr
  import C = KconfigCache
  import opened KconfigLoops

  /** dependents as _build_dep() leaves them, and a finishing order of all symbols. */
  ghost predicate Loaded(g: C.Graph, deps: Dependents, done: seq<nat>) {
    && |deps| == |g.syms| && (g.modules.Some? ==> g.modules.value < |g.syms|)
    && (forall i, k :: 0 <= i < |g.syms| && k in C.DependsOn(g.syms[i]) ==> k < |g.syms|)
    && (forall k: nat, j: nat :: k < |deps| ==> (j in deps[k] <==> j < |g.syms| && k in C.DependsOn(g.syms[j])))
    && FinishOrder(deps, done) && forall k :: 0 <= k < |deps| ==> k in done
  }

  /** A chain of dependencies leads from one symbol to another, or they are the same. */
  ghost predicate Needs(deps: Dependents, from: nat, to: nat) {
    exists path :: Path(deps, path, from, to)
  }

  ghost predicate Path(deps: Dependents, path: seq<nat>, from: nat, to: nat) {
    Chain(deps, path) && path != [] && path[0] == from && path[|path| - 1] == to
  }

  /** MODULES is a tristate symbol or needs one. */
  ghost predicate ModulesNeedsTristate(g: C.Graph, deps: Dependents) {
    g.modules.Some? && exists t :: 0 <= t < |g.syms| && g.syms[t].origType.Tristate? && Needs(deps, g.modules.value, t)
  }

  lemma NeedsFurther(deps: Dependents, from: nat, j: nat, k: nat)
    requires Needs(deps, from, j) && k < |deps| && j in deps[k]
    ensures Needs(deps, from, k)
  {
    var path :| Path(deps, path, from, j);
    assert Path(deps, path + [k], from, k);
  }

  /** What MODULES needs ranks below everything else; among those, and among the rest, the later finished lower. */
  ghost function RankOf(g: C.Graph, deps: Dependents, done: seq<nat>): (rank: seq<nat>)
    requires Loaded(g, deps, done)
    ensures |rank| == |g.syms|
  {
    seq(|g.syms|, k requires 0 <= k < |g.syms| =>
      |done| - Place(done, k) + if g.modules.Some? && Needs(deps, g.modules.value, k) then 0 else |done|)
  }

  lemma DependencyRanksLower(g: C.Graph, deps: Dependents, done: seq<nat>, i: nat, j: nat)
    requires Loaded(g, deps, done) && i < |g.syms| && j in C.DependsOn(g.syms[i])
    ensures j < |g.syms| && RankOf(g, deps, done)[j] < RankOf(g, deps, done)[i]
  {
    assert i in deps[j];
    DependentsFinishEarlier(deps, done, j, i);
    if g.modules.Some? && Needs(deps, g.modules.value, i) {
      NeedsFurther(deps, g.modules.value, i, j);
    }
  }

  lemma LoadedHasRank(g: C.Graph, deps: Dependents, done: seq<nat>)
    requires Loaded(g, deps, done) && !ModulesNeedsTristate(g, deps)
    ensures C.Acyclic(g, RankOf(g, deps, done))
  {
    var rank := RankOf(g, deps, done);
    forall i, j | 0 <= i < |g.syms| && j in C.Inputs(g, i) ensures j < |g.syms| && rank[j] < rank[i] {
      if j in C.DependsOn(g.syms[i]) {
        hide Loaded, RankOf, Needs;
        DependencyRanksLower(g, deps, done, i, j);
      } else {
        var m := g.modules.value;
        assert Path(deps, [m], m, m);
        assert !Needs(deps, m, i);
      }
    }
    forall i | 0 <= i < |g.syms| ensures C.InputsBelow(g, rank, i) {
    }
  }

  lemma {:induction false} RanksFall(g: C.Graph, deps: Dependents, done: seq<nat>, rank: seq<nat>, path: seq<nat>, i: nat)
    requires Loaded(g, deps, done) && C.Acyclic(g, rank) && Chain(deps, path) && i < |path|
    ensures path[0] < |rank| && path[i] < |rank| && rank[path[i]] <= rank[path[0]]
  {
    if i > 0 {
      RanksFall(g, deps, done, rank, path, i - 1);
      assert path[i - 1] in deps[path[i]];
      assert C.InputsBelow(g, rank, path[i - 1]) && path[i] in C.Inputs(g, path[i - 1]);
    }
  }

  lemma TristateLoopHasNoRank(g: C.Graph, deps: Dependents, done: seq<nat>, rank: seq<nat>)
    requires Loaded(g, deps, done) && ModulesNeedsTristate(g, deps)
    ensures !C.Acyclic(g, rank)
  {
    if C.Acyclic(g, rank) {
      var m := g.modules.value;
      var t :| 0 <= t < |g.syms| && g.syms[t].origType.Tristate? && Needs(deps, m, t);
      var path :| Path(deps, path, m, t);
      assert C.InputsBelow(g, rank, t) && m in C.Inputs(g, t);
      RanksFall(g, deps, done, rank, path, |path| - 1);
    }
  }

  /** A configuration without a reported loop has an order of evaluation exactly when MODULES needs no tristate symbol. */
  lemma LoadedGraphIsAcyclicIff(g: C.Graph, deps: Dependents, done: seq<nat>)
    requires Loaded(g, deps, done)
    ensures (exists rank :: C.Acyclic(g, rank)) <==> !ModulesNeedsTristate(g, deps)
  {
    hide Loaded, ModulesNeedsTristate, C.Acyclic;
    if ModulesNeedsTristate(g, deps) {
      forall rank: seq<nat> ensures !C.Acyclic(g, rank) {
        TristateLoopHasNoRank(g, deps, done, rank);
      }
    } else {
      LoadedHasRank(g, deps, done);
    }
  }

  // ---------------------------------------------------------------- reads that end and reads that do not

  /** A read of symbol i ends within n nested reads when the symbols it looks at have the values v. */
  ghost predicate ReadEnds(g: C.Graph, user: C.UserValues, v: seq<Tri>, i: nat, n: nat)
    requires |user| == |g.syms|
    decreases n
  {
    n > 0 && i < |g.syms| && forall j :: j in C.TriEval(g, g.syms[i], user[i], v).looked ==> ReadEnds(g, user, v, j, n - 1)
  }

  /** With an order of evaluation every read ends, within as many nested reads as the rank says. */
  lemma {:induction false} OrderedReadsEnd(g: C.Graph, rank: seq<nat>, user: C.UserValues, v: seq<Tri>, i: nat, n: nat)
    requires C.Acyclic(g, rank) && |user| == |g.syms| && i < |g.syms| && rank[i] < n
    ensures ReadEnds(g, user, v, i, n)
    decreases n
  {
    C.LookedAreInputs(g, i, user[i], v);
    assert C.InputsBelow(g, rank, i);
    forall j | j in C.TriEval(g, g.syms[i], user[i], v).looked ensures ReadEnds(g, user, v, j, n - 1) {
      OrderedReadsEnd(g, rank, user, v, j, n - 1);
    }
  }

  /** MODULES, symbol 0, is a bool symbol that defaults to symbol 1, a tristate that defaults to m. */
  function ModulesByDefault(): (g: C.Graph) {
    var n := Leaf(Constant(0));
    var modules := C.SymDef(C.Bool, [], [(Leaf(Config(1)), Leaf(Constant(2)))], n, n, n);
    C.Graph([modules, C.SymDef(C.Tristate, [], [(Leaf(Constant(1)), Leaf(Constant(2)))], n, n, n)], Some(0))
  }

  lemma OneDefault(d: C.SymDef, value: Expr, cond: Expr)
    requires d.defaults == [(value, cond)]
    ensures C.MentionsDefaults(d.defaults) == Mentions(value) + Mentions(cond)
    ensures forall v: seq<Tri> :: Eval(cond, v).val == 2 ==>
      var o := Eval(value, v); C.DefaultsEval(d.defaults, v) == Outcome(o.val, Eval(cond, v).looked + o.looked)
  {
    assert d.defaults[1..] == [];
  }

  lemma ModulesByDefaultDepends()
    ensures C.DependsOn(ModulesByDefault().syms[0]) == {1} && C.DependsOn(ModulesByDefault().syms[1]) == {}
  {
    var syms := ModulesByDefault().syms;
    OneDefault(syms[0], Leaf(Config(1)), Leaf(Constant(2)));
    OneDefault(syms[1], Leaf(Constant(1)), Leaf(Constant(2)));
  }

  /** Each of the two looks at the other, whatever values there are. */
  lemma EachLooksAtTheOther(user: Option<Tri>, v: seq<Tri>)
    ensures 1 in C.TriEval(ModulesByDefault(), ModulesByDefault().syms[0], user, v).looked
    ensures 0 in C.TriEval(ModulesByDefault(), ModulesByDefault().syms[1], user, v).looked
  {
    var syms := ModulesByDefault().syms;
    OneDefault(syms[0], Leaf(Config(1)), Leaf(Constant(2)));
    OneDefault(syms[1], Leaf(Constant(1)), Leaf(Constant(2)));
  }

  lemma ModulesByDefaultLoads()
    ensures Loaded(ModulesByDefault(), [[], [0]], [0, 1])
  {
    ModulesByDefaultDepends();
    var done: seq<nat> := [0, 1];
    assert done[..0] == [] && done[..1] == [0] && done[0] == 0 && done[1] == 1;
    hide C.DependsOn;
  }

  /** It loads without a reported loop, and no order of evaluation exists. */
  lemma ModulesLoopIsNotReported()
    ensures var g, deps: Dependents := ModulesByDefault(), [[], [0]];
      && Loaded(g, deps, [0, 1]) && (forall loop :: !IsLoop(deps, loop))
      && !exists rank :: C.Acyclic(g, rank)
  {
    var g, deps: Dependents, done: seq<nat> := ModulesByDefault(), [[], [0]], [0, 1];
    ModulesByDefaultLoads();
    forall loop ensures !IsLoop(deps, loop) {
      if IsLoop(deps, loop) {
        LoopIsDone(deps, done, [0], loop);
        FinishedHasNoLoop(deps, done, loop);
      }
    }
    assert Path(deps, [0, 1], 0, 1) && g.syms[1].origType.Tristate?;
    hide Loaded, C.Acyclic, FinishOrder, ModulesByDefault;
    LoadedGraphIsAcyclicIff(g, deps, done);
  }

  /** And reading the value of either symbol never ends, whatever the user sets and whatever values there are. */
  lemma {:induction false} ModulesReadsNeverEnd(user: C.UserValues, v: seq<Tri>, i: nat, n: nat)
    requires |user| == 2 && i < 2
    ensures !ReadEnds(ModulesByDefault(), user, v, i, n)
    decreases n
  {
    EachLooksAtTheOther(user[i], v);
    hide C.TriEval;
    if n > 0 { ModulesReadsNeverEnd(user, v, 1 - i, n - 1); }
  }
}
