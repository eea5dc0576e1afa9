/**
 The step builder of make/plans/dynamic-ir/ir-core.js: one snapshot a level, with the
 active nodes and edges, what was completed before, and the values known after it.
 */
module ExecutionSteps {
  import opened Common
  import opened IrGraph
  import opened DataPaths
  import opened TopologicalSort
  import opened Evaluator

  type Keys = set<(nat, nat)>

  datatype Step = Step(
    activeNodes: seq<nat>,
    activeEdges: Keys,
    completedNodes: set<nat>,
    completedEdges: Keys,
    values: Values)

  /** The data edges that come into `ids`. */
  function EdgesInto(edges: seq<Edge>, ids: seq<nat>): Keys {
    set e | e in edges && !e.structural && e.to in ids :: e.Key()
  }

  lemma DataEdgesInto(edges: seq<Edge>, ids: seq<nat>, u: nat, v: nat)
    ensures (u, v) in EdgesInto(edges, ids) <==> Feeds(edges, u, v) && v in ids
  {
    if Feeds(edges, u, v) && v in ids {
      assert Edge(u, v, false).Key() == (u, v);
    }
  }

  const INITIAL := Step([], {}, {}, {}, map[])

  /** The snapshot of level k, as a function of the levels alone. */
  ghost function LevelStep(g: Graph, edges: seq<Edge>, params: Params, levels: seq<seq<nat>>, k: nat): Step
    requires k < |levels| && KnownIds(g, Flat(levels[..k + 1]))
  {
    var past := Flat(levels[..k]);
    Step(levels[k], EdgesInto(edges, levels[k]), Elements(past), EdgesInto(edges, past),
         Eval(g, params, Flat(levels[..k + 1])))
  }

  /** The snapshots after the initial one are those of the first n levels. */
  ghost predicate Shows(g: Graph, edges: seq<Edge>, params: Params, levels: seq<seq<nat>>, steps: seq<Step>, n: nat)
    requires n <= |levels|
  {
    && |steps| == n + 1 && steps[0] == INITIAL
    && forall k :: 1 <= k <= n ==> IsLevelStep(g, edges, params, levels, k - 1, steps[k])
  }

  ghost predicate IsLevelStep(g: Graph, edges: seq<Edge>, params: Params, levels: seq<seq<nat>>, k: nat, step: Step)
    requires k < |levels|
  {
    KnownIds(g, Flat(levels[..k + 1])) && step == LevelStep(g, edges, params, levels, k)
  }

  lemma StepsActivateLevels(g: Graph, edges: seq<Edge>, params: Params, levels: seq<seq<nat>>, steps: seq<Step>,
                            k: nat, id: nat)
    requires Shows(g, edges, params, levels, steps, |levels|)
    requires k < |steps| && id in steps[k].activeNodes
    ensures id in Flat(levels)
  {
    if k > 0 {
      assert IsLevelStep(g, edges, params, levels, k - 1, steps[k]);
      ActivatesLevel(g, edges, params, levels, k - 1, steps[k]);
      FlatElements(levels, id);
    }
  }

  lemma ActivatesLevel(g: Graph, edges: seq<Edge>, params: Params, levels: seq<seq<nat>>, k: nat, step: Step)
    requires k < |levels| && IsLevelStep(g, edges, params, levels, k, step)
    ensures step.activeNodes == levels[k]
  {
  }

  lemma ShowsOneMore(g: Graph, edges: seq<Edge>, params: Params, levels: seq<seq<nat>>, steps: seq<Step>, n: nat,
                     step: Step)
    requires n < |levels| && Shows(g, edges, params, levels, steps, n)
    requires IsLevelStep(g, edges, params, levels, n, step)
    ensures Shows(g, edges, params, levels, steps + [step], n + 1)
  {
    var more := steps + [step];
    forall k | 1 <= k <= n + 1 ensures IsLevelStep(g, edges, params, levels, k - 1, more[k]) {
      if k <= n {
        assert IsLevelStep(g, edges, params, levels, k - 1, steps[k]);
      }
    }
  }

  /** What an earlier step had active. */
  ghost predicate WasActive(steps: seq<Step>, k: nat, id: nat)
    requires k < |steps|
  {
    exists j :: 0 <= j < k && id in steps[j].activeNodes
  }

  ghost predicate WasActiveEdge(steps: seq<Step>, k: nat, key: (nat, nat))
    requires k < |steps|
  {
    exists j :: 0 <= j < k && key in steps[j].activeEdges
  }

  /** Completed is what was active before. */
  lemma CompletedWereActive(g: Graph, edges: seq<Edge>, params: Params, levels: seq<seq<nat>>, steps: seq<Step>, k: nat)
    requires Shows(g, edges, params, levels, steps, |levels|) && k < |steps|
    ensures forall id: nat :: id in steps[k].completedNodes <==> WasActive(steps, k, id)
    ensures forall key: (nat, nat) :: key in steps[k].completedEdges <==> WasActiveEdge(steps, k, key)
  {
    if k > 0 {
      forall j | 1 <= j <= k ensures IsLevelStep(g, edges, params, levels, j - 1, steps[j]) {
      }
      forall id: nat ensures id in steps[k].completedNodes <==> WasActive(steps, k, id) {
        CompletedNode(g, edges, params, levels, steps, k, id);
      }
      forall key: (nat, nat) ensures key in steps[k].completedEdges <==> WasActiveEdge(steps, k, key) {
        CompletedEdge(g, edges, params, levels, steps, k, key);
      }
    }
  }

  lemma CompletedNode(g: Graph, edges: seq<Edge>, params: Params, levels: seq<seq<nat>>, steps: seq<Step>,
                      k: nat, id: nat)
    requires Shows(g, edges, params, levels, steps, |levels|) && 1 <= k < |steps|
    ensures id in steps[k].completedNodes <==> WasActive(steps, k, id)
  {
    assert IsLevelStep(g, edges, params, levels, k - 1, steps[k]);
    var past := levels[..k - 1];
    FlatElements(past, id);
    if m :| 0 <= m < |past| && id in past[m] {
      assert IsLevelStep(g, edges, params, levels, m, steps[m + 1]);
      assert id in steps[m + 1].activeNodes;
    }
    if j :| 0 <= j < k && id in steps[j].activeNodes {
      assert IsLevelStep(g, edges, params, levels, j - 1, steps[j]);
      assert past[j - 1] == levels[j - 1];
    }
  }

  lemma CompletedEdge(g: Graph, edges: seq<Edge>, params: Params, levels: seq<seq<nat>>, steps: seq<Step>,
                      k: nat, key: (nat, nat))
    requires Shows(g, edges, params, levels, steps, |levels|) && 1 <= k < |steps|
    ensures key in steps[k].completedEdges <==> WasActiveEdge(steps, k, key)
  {
    assert IsLevelStep(g, edges, params, levels, k - 1, steps[k]);
    var past := levels[..k - 1];
    if key in EdgesInto(edges, Flat(past)) {
      var e :| e in edges && !e.structural && e.to in Flat(past) && e.Key() == key;
      FlatElements(past, e.to);
      var m :| 0 <= m < |past| && e.to in past[m];
      assert IsLevelStep(g, edges, params, levels, m, steps[m + 1]);
      assert key in steps[m + 1].activeEdges;
    }
    if j :| 0 <= j < k && key in steps[j].activeEdges {
      assert IsLevelStep(g, edges, params, levels, j - 1, steps[j]);
      var e :| e in edges && !e.structural && e.to in levels[j - 1] && e.Key() == key;
      assert past[j - 1] == levels[j - 1];
      FlatElements(past, e.to);
    }
  }

  /** Where no node is listed twice, a value that a step shows is never taken back or changed. */
  lemma ValuesStay(g: Graph, edges: seq<Edge>, params: Params, levels: seq<seq<nat>>, steps: seq<Step>,
                   j: nat, k: nat, id: nat)
    requires Shows(g, edges, params, levels, steps, |levels|) && KnownIds(g, Flat(levels)) && NoDup(Flat(levels))
    requires j <= k < |steps| && (id in steps[j].activeNodes || id in steps[j].completedNodes)
    ensures Lookup(steps[j].values, id) == Lookup(steps[k].values, id)
  {
    assert IsLevelStep(g, edges, params, levels, j - 1, steps[j]);
    assert IsLevelStep(g, edges, params, levels, k - 1, steps[k]);
    FlatPrefix(levels, j - 1);
    ValuesOfPrefix(g, params, levels, j, id);
    PrefixOfFlat(levels, j, k);
    ValuesOfPrefix(g, params, levels, k, id);
  }

  lemma {:induction false} PrefixOfFlat(levels: seq<seq<nat>>, j: nat, k: nat)
    requires j <= k <= |levels|
    ensures Flat(levels[..j]) <= Flat(levels[..k])
    decreases k
  {
    if j < k {
      PrefixOfFlat(levels, j, k - 1);
      FlatPrefix(levels, k - 1);
    }
  }

  lemma ValuesOfPrefix(g: Graph, params: Params, levels: seq<seq<nat>>, j: nat, id: nat)
    requires KnownIds(g, Flat(levels)) && NoDup(Flat(levels)) && j <= |levels| && id in Flat(levels[..j])
    ensures KnownIds(g, Flat(levels[..j]))
    ensures Lookup(Eval(g, params, Flat(levels[..j])), id) == Lookup(Eval(g, params, Flat(levels)), id)
  {
    PrefixOfFlat(levels, j, |levels|);
    assert levels[..|levels|] == levels;
    ValueInPrefix(g, params, Flat(levels), Flat(levels[..j]), id);
  }

  lemma ValueInPrefix(g: Graph, params: Params, order: seq<nat>, init: seq<nat>, id: nat)
    requires KnownIds(g, order) && NoDup(order) && init <= order && id in init
    ensures KnownIds(g, init) && Lookup(Eval(g, params, init), id) == Lookup(Eval(g, params, order), id)
  {
    EvalPrefix(g, params, order, |init|);
    assert order[..|init|] == init;
    LookupInRestricted(Eval(g, params, order), init, id);
  }

  lemma LookupInRestricted(vals: Values, ids: seq<nat>, id: nat)
    requires id in ids
    ensures Lookup(Restrict(vals, ids), id) == Lookup(vals, id)
  {
  }

  lemma FlatPrefix(levels: seq<seq<nat>>, k: nat)
    requires k < |levels|
    ensures Flat(levels[..k + 1]) == Flat(levels[..k]) + levels[k]
  {
    assert levels[..k + 1] == levels[..k] + [levels[k]];
    FlatAppend(levels[..k], levels[k]);
  }

  lemma KnownPrefix(g: Graph, levels: seq<seq<nat>>, k: nat)
    requires KnownIds(g, Flat(levels)) && k <= |levels|
    ensures KnownIds(g, Flat(levels[..k]))
  {
    forall id | id in Flat(levels[..k]) ensures id in g.nodes {
      FlatElements(levels[..k], id);
      FlatElements(levels, id);
    }
  }

  lemma EdgesIntoOneMore(edges: seq<Edge>, ids: seq<nat>, id: nat)
    ensures EdgesInto(edges, ids + [id]) == EdgesInto(edges, ids) + EdgesInto(edges, [id])
  {
  }

  /** The value of one node, number i of its level. */
  method RunNode(g: Graph, params: Params, ghost past: seq<nat>, level: seq<nat>, i: nat, before: Values)
    returns (after: Values)
    requires KnownIds(g, past + level) && i < |level|
    requires KnownIds(g, past + level[..i]) && before == Eval(g, params, past + level[..i])
    ensures KnownIds(g, past + level[..i + 1]) && after == Eval(g, params, past + level[..i + 1])
  {
    var id := level[i];
    assert (past + level)[|past| + i] == id;
    assert past + level[..i + 1] == (past + level[..i]) + [id];
    EvalOneMore(g, params, past + level[..i], id);
    after := EvalNode(g, params, before, id);
  }

  /** The loop over the edges that come into one node, number i of its level. */
  method ActivateEdges(edges: seq<Edge>, level: seq<nat>, i: nat, before: Keys) returns (activeEdges: Keys)
    requires i < |level| && before == EdgesInto(edges, level[..i])
    ensures activeEdges == EdgesInto(edges, level[..i + 1])
  {
    var id := level[i];
    activeEdges := before;
    for j := 0 to |edges|
      invariant activeEdges == before + EdgesInto(edges[..j], [id])
    {
      assert edges[..j + 1] == edges[..j] + [edges[j]];
      if edges[j].to == id && !edges[j].structural {
        activeEdges := activeEdges + {edges[j].Key()};
      }
    }
    assert edges[..|edges|] == edges && level[..i + 1] == level[..i] + [id];
    EdgesIntoOneMore(edges, level[..i], id);
  }

  /** The loop over the nodes of one level. */
  method RunLevel(g: Graph, edges: seq<Edge>, params: Params, ghost past: seq<nat>, level: seq<nat>, before: Values)
    returns (after: Values, activeEdges: Keys)
    requires KnownIds(g, past) && KnownIds(g, past + level) && before == Eval(g, params, past)
    ensures after == Eval(g, params, past + level)
    ensures activeEdges == EdgesInto(edges, level)
  {
    after, activeEdges := before, {};
    assert past + level[..0] == past;
    for i := 0 to |level|
      invariant KnownIds(g, past + level[..i]) && after == Eval(g, params, past + level[..i])
      invariant activeEdges == EdgesInto(edges, level[..i])
    {
      after := RunNode(g, params, past, level, i, after);
      activeEdges := ActivateEdges(edges, level, i, activeEdges);
    }
    assert level[..|level|] == level;
  }

  /** The loop that also completes the edges between completed nodes; it finds no new ones. */
  method CompleteEdges(edges: seq<Edge>, ghost done: seq<nat>, completedNodes: set<nat>, before: Keys)
    returns (completedEdges: Keys)
    requires completedNodes == Elements(done) && before == EdgesInto(edges, done)
    ensures completedEdges == before
  {
    completedEdges := before;
    for j := 0 to |edges|
      invariant completedEdges == before
    {
      var e := edges[j];
      if !e.structural && e.from in completedNodes && e.to in completedNodes {
        assert e in edges && e.Key() in before;
        completedEdges := completedEdges + {e.Key()};
      }
    }
  }

  method BuildSteps(g: Graph, edges: seq<Edge>, levels: seq<seq<nat>>, params: Params) returns (steps: seq<Step>)
    requires KnownIds(g, Flat(levels))
    ensures Shows(g, edges, params, levels, steps, |levels|)
    ensures Last(steps).values == Eval(g, params, Flat(levels))
  {
    steps := [INITIAL];
    var completedNodes: set<nat>, completedEdges: Keys := {}, {};
    var nodeValues: Values := map[];
    for k := 0 to |levels|
      invariant KnownIds(g, Flat(levels[..k]))
      invariant completedNodes == Elements(Flat(levels[..k]))
      invariant completedEdges == EdgesInto(edges, Flat(levels[..k]))
      invariant Shows(g, edges, params, levels, steps, k)
      invariant nodeValues == Eval(g, params, Flat(levels[..k])) == steps[k].values
    {
      var level := levels[k];
      FlatPrefix(levels, k);
      KnownPrefix(g, levels, k + 1);
      var activeEdges;
      nodeValues, activeEdges := RunLevel(g, edges, params, Flat(levels[..k]), level, nodeValues);
      var step := Step(level, activeEdges, completedNodes, completedEdges, nodeValues);
      ShowsOneMore(g, edges, params, levels, steps, k, step);
      steps := steps + [step];
      completedNodes := completedNodes + Elements(level);
      completedEdges := completedEdges + activeEdges;
      completedEdges := CompleteEdges(edges, Flat(levels[..k + 1]), completedNodes, completedEdges);
    }
    assert levels[..|levels|] == levels;
  }

  /** The one solution of the equations of all nodes that lie neither on nor behind a cycle. */
  ghost predicate IsMeaningBesidesCycles(g: Graph, edges: seq<Edge>, params: Params, vals: Values) {
    && Solves(g, params, vals, Uncycled(edges, g.ids))
    && forall others :: Solves(g, params, others, Uncycled(edges, g.ids)) ==>
         AgreeOn(others, vals, Uncycled(edges, g.ids))
  }

  /** On any graph, a cycle only spoils the values of the nodes on or behind it. */
  lemma LevelsSolveBesidesCycles(g: Graph, edges: seq<Edge>, params: Params, levels: seq<seq<nat>>)
    requires g.Valid() && IsEdgeList(g, edges) && IsTopoLevels(g.ids, edges, levels)
    ensures KnownIds(g, Flat(levels))
    ensures IsMeaningBesidesCycles(g, edges, params, Eval(g, params, Flat(levels)))
  {
    assert forall id :: id in Flat(levels) <==> id in Elements(Flat(levels));
    var ids := Uncycled(edges, g.ids);
    LevelsOrderUncycled(g.ids, edges, levels);
    forall u: nat, v: nat | v in ids && Feeds(edges, u, v) ensures u in ids {
      assert Edge(u, v, false) in edges;
      if CycleFed(edges, u) {
        CyclesFeedOn(edges, u, v);
      }
    }
    EvalSolves(g, edges, params, Flat(levels), ids);
  }

  /**
   On an acyclic graph no step runs ahead of its data: the active edges of a step all
   leave nodes that earlier steps have completed.
   */
  lemma ActiveEdgesStartCompleted(ids: seq<nat>, g: Graph, edges: seq<Edge>, params: Params,
                                  levels: seq<seq<nat>>, k: nat, key: (nat, nat))
    requires EndpointsIn(ids, edges) && IsTopoLevels(ids, edges, levels) && Acyclic(edges)
    requires k < |levels| && KnownIds(g, Flat(levels[..k + 1]))
    requires key in LevelStep(g, edges, params, levels, k).activeEdges
    ensures key.0 in LevelStep(g, edges, params, levels, k).completedNodes
  {
    var e :| e in edges && !e.structural && e.to in levels[k] && e.Key() == key;
    assert Feeds(edges, e.from, e.to);
    assert e.from in Elements(Flat(levels));
    FlatElements(levels, e.from);
    var m :| 0 <= m < |levels| && e.from in levels[m];
    AcyclicIffNothingFed(edges);
    DataEdgesClimb(ids, edges, levels, m, e.from, k, e.to);
    FlatElements(levels[..k], e.from);
    assert levels[..k][m] == levels[m];
  }
}
