/**
 The exception-path classification of make/plans/dynamic-ir/ir-core.js, the filter that
 drops exception-only nodes, and why it changes nothing a Return depends on.
 */
module ExceptionPaths {
  import opened Common
  import opened IrGraph
  import opened DataPaths
  import opened TopologicalSort
  import opened Evaluator
  import opened ExecutionSteps

  /** `to` is looked at when the backward walk stands at `from`: frame nodes end the walk. */
  predicate StepsBack(g: Graph, from: nat, to: nat) {
    && from in g.nodes && !g.nodes[from].IsFrame()
    && IsInput(g, to, from)
  }

  /** A backward walk from one of the seeds. */
  ghost predicate IsWalk(g: Graph, seeds: set<nat>, w: seq<nat>) {
    && w != [] && w[0] in seeds
    && forall i :: 0 <= i < |w| - 1 ==> StepsBack(g, w[i], w[i + 1])
  }

  ghost predicate Reached(g: Graph, seeds: set<nat>, id: nat) {
    exists w: seq<nat> :: IsWalk(g, seeds, w) && Last(w) == id
  }

  lemma WalkOn(g: Graph, seeds: set<nat>, from: nat, to: nat)
    requires Reached(g, seeds, from) && StepsBack(g, from, to)
    ensures Reached(g, seeds, to)
  {
    var w: seq<nat> :| IsWalk(g, seeds, w) && Last(w) == from;
    var longer := w + [to];
    forall i | 0 <= i < |longer| - 1 ensures StepsBack(g, longer[i], longer[i + 1]) {
      assert i < |w| - 1 ==> StepsBack(g, w[i], w[i + 1]);
    }
    assert IsWalk(g, seeds, longer) && Last(longer) == to;
  }

  /** A set that has the seeds and every step back holds all that is reached. */
  lemma {:induction false} ClosedHoldsWalk(g: Graph, seeds: set<nat>, closed: set<nat>, w: seq<nat>)
    requires IsWalk(g, seeds, w) && seeds <= closed
    requires forall from: nat, to: nat :: from in closed && StepsBack(g, from, to) ==> to in closed
    ensures Last(w) in closed
    decreases |w|
  {
    if |w| > 1 {
      var init := w[..|w| - 1];
      forall i | 0 <= i < |init| - 1 ensures StepsBack(g, init[i], init[i + 1]) {
        assert StepsBack(g, w[i], w[i + 1]);
      }
      ClosedHoldsWalk(g, seeds, closed, init);
      assert StepsBack(g, w[|w| - 2], w[|w| - 1]);
    }
  }

  /** The worklist invariant: nothing wrong is on it, nothing needed has been lost. */
  ghost predicate Searching(g: Graph, seeds: set<nat>, reached: set<nat>, stack: seq<nat>) {
    && (forall id :: id in reached || id in stack ==> Reached(g, seeds, id))
    && (forall id :: id in seeds ==> id in reached || id in stack)
    && (forall from: nat, to: nat :: from in reached && StepsBack(g, from, to) ==> to in reached || to in stack)
  }

  /** The loop over the inputs of the node just reached. */
  method PushInputs(g: Graph, ghost seeds: set<nat>, reached: set<nat>, id: nat, before: seq<nat>)
    returns (stack: seq<nat>)
    requires id in g.nodes && !g.nodes[id].IsFrame() && Reached(g, seeds, id)
    requires forall x :: x in before ==> Reached(g, seeds, x)
    ensures forall x :: x in stack ==> Reached(g, seeds, x)
    ensures forall x :: x in before ==> x in stack
    ensures forall to: nat :: StepsBack(g, id, to) ==> to in reached || to in stack
  {
    stack := before;
    var inputIds := g.nodes[id].InputIds();
    for j := 0 to |inputIds|
      invariant forall x :: x in stack ==> Reached(g, seeds, x)
      invariant forall x :: x in before ==> x in stack
      invariant forall to: nat :: to in inputIds[..j] && StepsBack(g, id, to) ==> to in reached || to in stack
    {
      var inId := inputIds[j];
      assert inputIds[..j + 1] == inputIds[..j] + [inId];
      if inId == id { continue; }
      if inId !in g.nodes { continue; }
      if inId !in reached {
        assert StepsBack(g, id, inId);
        WalkOn(g, seeds, id, inId);
        stack := stack + [inId];
      }
    }
    assert inputIds[..|inputIds|] == inputIds;
  }

  lemma SeedsAreReached(g: Graph, seeds: set<nat>)
    ensures forall id :: id in seeds ==> Reached(g, seeds, id)
  {
    forall id | id in seeds ensures Reached(g, seeds, id) {
      assert IsWalk(g, seeds, [id]) && Last([id]) == id;
    }
  }

  lemma ClosedHoldsReached(g: Graph, seeds: set<nat>, closed: set<nat>)
    requires Searching(g, seeds, closed, [])
    ensures forall id: nat :: Reached(g, seeds, id) ==> id in closed
  {
    forall id: nat | Reached(g, seeds, id) ensures id in closed {
      var w: seq<nat> :| IsWalk(g, seeds, w) && Last(w) == id;
      ClosedHoldsWalk(g, seeds, closed, w);
    }
  }

  method BackwardReachable(g: Graph, seedIds: seq<nat>) returns (reached: set<nat>)
    ensures forall id: nat :: id in reached <==> Reached(g, Elements(seedIds), id)
  {
    ghost var seeds := Elements(seedIds);
    ghost var universe := g.nodes.Keys + seeds;
    reached := {};
    var stack := seedIds;
    SeedsAreReached(g, seeds);
    while |stack| > 0
      invariant Searching(g, seeds, reached, stack)
      invariant forall id :: id in reached || id in stack ==> id in universe
      decreases universe - reached, |stack|
    {
      var id := Last(stack);
      assert stack == stack[..|stack| - 1] + [id];
      stack := stack[..|stack| - 1];
      if id in reached { continue; }
      ghost var was := reached;
      reached := reached + {id};
      assert id in universe - was && universe - reached < universe - was;
      if id !in g.nodes { continue; }
      if g.nodes[id].IsFrame() { continue; }
      stack := PushInputs(g, seeds, reached, id, stack);
      AllKnown(g, seeds, stack);
    }
    ClosedHoldsReached(g, seeds, reached);
  }

  lemma AllKnown(g: Graph, seeds: set<nat>, ids: seq<nat>)
    requires forall id :: id in ids ==> Reached(g, seeds, id)
    ensures forall id :: id in ids ==> id in g.nodes.Keys + seeds
  {
    forall id | id in ids ensures id in g.nodes.Keys + seeds {
      ReachedIsKnown(g, seeds, id);
    }
  }

  lemma ReachedIsKnown(g: Graph, seeds: set<nat>, id: nat)
    requires Reached(g, seeds, id)
    ensures id in g.nodes.Keys + seeds
  {
    var w: seq<nat> :| IsWalk(g, seeds, w) && Last(w) == id;
    if |w| > 1 {
      assert StepsBack(g, w[|w| - 2], w[|w| - 1]);
    }
  }

  ghost function NodesOfKind(g: Graph, kind: string): set<nat> {
    set id | id in g.nodes && g.nodes[id].kind == kind
  }

  /** On the way to a Return, respectively to a Rethrow. */
  ghost predicate Happy(g: Graph, id: nat) {
    Reached(g, NodesOfKind(g, "Return"), id)
  }

  ghost predicate Exceptional(g: Graph, id: nat) {
    Reached(g, NodesOfKind(g, "Rethrow"), id)
  }

  /** The ids of the nodes of one kind, in the order of the object. */
  function IdsOfKind(g: Graph, ids: seq<nat>, kind: string): (r: seq<nat>)
    requires KnownIds(g, ids)
    ensures forall id :: id in r <==> id in ids && g.nodes[id].kind == kind
  {
    if ids == [] then []
    else
      assert ids == [ids[0]] + ids[1..];
      var rest := IdsOfKind(g, ids[1..], kind);
      if g.nodes[ids[0]].kind == kind then [ids[0]] + rest else rest
  }

  /** Returns are on the way to themselves, and so are Rethrows. */
  lemma SeedsByKind(g: Graph, id: nat)
    requires id in g.nodes
    ensures g.nodes[id].kind == "Return" ==> Happy(g, id)
    ensures g.nodes[id].kind == "Rethrow" ==> Exceptional(g, id)
  {
    SeedsAreReached(g, NodesOfKind(g, "Return"));
    SeedsAreReached(g, NodesOfKind(g, "Rethrow"));
  }

  lemma FrameWalkStays(g: Graph, id: nat, w: seq<nat>)
    requires id in g.nodes && g.nodes[id].kind in {"Root", "Start"} && IsWalk(g, {id}, w)
    ensures Last(w) == id
  {
    assert |w| > 1 ==> StepsBack(g, w[0], w[1]);
  }

  /** The walk goes on to every known input of a node it has reached, but not from Root or Start. */
  lemma WalksOn(g: Graph, seeds: set<nat>, id: nat, x: nat)
    requires id in g.nodes && x in g.nodes && x != id && Some(x) in g.nodes[id].inputs
    ensures Reached(g, seeds, id) && g.nodes[id].kind !in {"Root", "Start"} ==> Reached(g, seeds, x)
    ensures g.nodes[id].kind in {"Root", "Start"} ==> !Reached(g, {id}, x)
  {
    if g.nodes[id].kind in {"Root", "Start"} {
      if Reached(g, {id}, x) {
        var w: seq<nat> :| IsWalk(g, {id}, w) && Last(w) == x;
        FrameWalkStays(g, id, w);
      }
    } else if Reached(g, seeds, id) {
      WalkOn(g, seeds, id, x);
    }
  }

  method ClassifyExceptionNodes(g: Graph) returns (exceptionOnly: set<nat>)
    requires g.Valid()
    ensures forall id: nat :: id in exceptionOnly <==> Exceptional(g, id) && !Happy(g, id)
  {
    var returnIds := IdsOfKind(g, g.ids, "Return");
    var rethrowIds := IdsOfKind(g, g.ids, "Rethrow");
    assert Elements(returnIds) == NodesOfKind(g, "Return");
    assert Elements(rethrowIds) == NodesOfKind(g, "Rethrow");
    if |rethrowIds| == 0 {
      return {};
    }
    var happyPath := BackwardReachable(g, returnIds);
    var exceptionPath := BackwardReachable(g, rethrowIds);
    exceptionOnly := set id | id in exceptionPath && id !in happyPath;
  }

  // ----- dropping nodes from the levels

  function Keep(level: seq<nat>, exclude: set<nat>): (kept: seq<nat>)
    ensures forall id :: id in kept <==> id in level && id !in exclude
  {
    if level == [] then []
    else
      var id := Last(level);
      assert level == level[..|level| - 1] + [id];
      Keep(level[..|level| - 1], exclude) + if id in exclude then [] else [id]
  }

  /** Level by level, without the levels that become empty. */
  function Filtered(levels: seq<seq<nat>>, exclude: set<nat>): seq<seq<nat>> {
    if levels == [] then []
    else
      var kept := Keep(Last(levels), exclude);
      Filtered(levels[..|levels| - 1], exclude) + if kept == [] then [] else [kept]
  }

  // ----- what the filter does to each level

  predicate HasKept(level: seq<nat>, exclude: set<nat>) {
    exists id :: id in level && id !in exclude
  }

  /** How many of the levels have a node that stays. */
  function KeptLevels(levels: seq<seq<nat>>, exclude: set<nat>): nat {
    if levels == [] then 0
    else KeptLevels(levels[..|levels| - 1], exclude) + if HasKept(Last(levels), exclude) then 1 else 0
  }

  /** `kept` has the nodes of `level` that stay, in their order. */
  ghost predicate IsKept(level: seq<nat>, exclude: set<nat>, kept: seq<nat>) {
    && (forall id :: id in kept <==> id in level && id !in exclude)
    && forall x, y :: ListedBefore(level, x, y) && x !in exclude && y !in exclude ==> ListedBefore(kept, x, y)
  }

  /**
   Every level with a node that stays is found again, reduced to such nodes, at its place
   among these levels; there are no other levels, so none is empty.
   */
  ghost predicate IsFiltered(levels: seq<seq<nat>>, exclude: set<nat>, result: seq<seq<nat>>) {
    && |result| == KeptLevels(levels, exclude)
    && NoneEmpty(result)
    && forall k :: 0 <= k < |levels| && HasKept(levels[k], exclude) ==>
         IsKeptAt(levels[k], exclude, result, KeptLevels(levels[..k], exclude))
  }

  ghost predicate IsKeptAt(level: seq<nat>, exclude: set<nat>, result: seq<seq<nat>>, m: nat) {
    m < |result| && IsKept(level, exclude, result[m])
  }

  lemma {:induction false} KeepIsKept(level: seq<nat>, exclude: set<nat>)
    ensures IsKept(level, exclude, Keep(level, exclude))
  {
    if level != [] {
      var init, w := level[..|level| - 1], Last(level);
      assert level == init + [w];
      KeepIsKept(init, exclude);
      KeepOne(init, w, exclude);
      if w in exclude {
        assert Keep(level, exclude) == Keep(init, exclude);
      }
      forall x, y | ListedBefore(init + [w], x, y) && x !in exclude && y !in exclude
        ensures ListedBefore(Keep(level, exclude), x, y)
      {
        ListedBeforeSnoc(init, w, x, y);
        ListedBeforeSnoc(Keep(init, exclude), w, x, y);
      }
    }
  }

  lemma ListedBeforeSnoc(s: seq<nat>, w: nat, x: nat, y: nat)
    ensures ListedBefore(s + [w], x, y) <==> ListedBefore(s, x, y) || (x in s && y == w)
  {
    var t := s + [w];
    if ListedBefore(s, x, y) {
      var i, j :| 0 <= i < j < |s| && s[i] == x && s[j] == y;
      assert t[i] == x && t[j] == y;
    }
    if x in s && y == w {
      var i :| 0 <= i < |s| && s[i] == x;
      assert t[i] == x && t[|s|] == y;
    }
  }

  lemma StaysKeptAt(level: seq<nat>, exclude: set<nat>, result: seq<seq<nat>>, more: seq<seq<nat>>, m: nat)
    requires IsKeptAt(level, exclude, result, m)
    ensures IsKeptAt(level, exclude, result + more, m)
  {
    assert (result + more)[m] == result[m];
  }

  lemma KeptIfNotEmpty(level: seq<nat>, exclude: set<nat>)
    ensures HasKept(level, exclude) <==> Keep(level, exclude) != []
  {
    var kept := Keep(level, exclude);
    assert kept != [] ==> kept[0] in kept;
  }

  /** What the filter leaves of one level: nothing, or one level. */
  function KeptLevel(level: seq<nat>, exclude: set<nat>): seq<seq<nat>> {
    var kept := Keep(level, exclude);
    if kept == [] then [] else [kept]
  }

  lemma OldLevelKept(levels: seq<seq<nat>>, exclude: set<nat>, level: seq<nat>, result: seq<seq<nat>>, k: nat)
    requires IsFiltered(levels, exclude, result) && k < |levels| && HasKept(levels[k], exclude)
    ensures IsKeptAt(levels[k], exclude, result + KeptLevel(level, exclude),
                     KeptLevels((levels + [level])[..k], exclude))
  {
    assert (levels + [level])[..k] == levels[..k];
    StaysKeptAt(levels[k], exclude, result, KeptLevel(level, exclude), KeptLevels(levels[..k], exclude));
  }

  lemma NewLevelKept(level: seq<nat>, exclude: set<nat>, result: seq<seq<nat>>)
    requires HasKept(level, exclude)
    ensures IsKeptAt(level, exclude, result + KeptLevel(level, exclude), |result|)
  {
    KeptIfNotEmpty(level, exclude);
    KeepIsKept(level, exclude);
    assert (result + KeptLevel(level, exclude))[|result|] == Keep(level, exclude);
  }

  /** One more level of the input. */
  lemma FilteredOneMore(levels: seq<seq<nat>>, exclude: set<nat>, level: seq<nat>, result: seq<seq<nat>>)
    requires IsFiltered(levels, exclude, result)
    ensures IsFiltered(levels + [level], exclude, result + KeptLevel(level, exclude))
  {
    var all, n := levels + [level], |levels|;
    assert all[..n] == levels;
    KeptIfNotEmpty(level, exclude);
    forall k | 0 <= k < |all| && HasKept(all[k], exclude)
      ensures IsKeptAt(all[k], exclude, result + KeptLevel(level, exclude), KeptLevels(all[..k], exclude))
    {
      if k < n {
        OldLevelKept(levels, exclude, level, result, k);
      } else {
        NewLevelKept(level, exclude, result);
      }
    }
  }

  lemma {:induction false} FilteredIsFiltered(levels: seq<seq<nat>>, exclude: set<nat>)
    ensures IsFiltered(levels, exclude, Filtered(levels, exclude))
  {
    if levels == [] {
      assert Filtered(levels, exclude) == [];
    } else {
      var init, last := levels[..|levels| - 1], Last(levels);
      assert levels == init + [last];
      FilteredIsFiltered(init, exclude);
      FilteredOneMore(init, exclude, last, Filtered(init, exclude));
    }
  }

  ghost predicate NoneEmpty(levels: seq<seq<nat>>) {
    forall k :: 0 <= k < |levels| ==> levels[k] != []
  }

  /** Without anything to exclude the levels are returned as they are. */
  lemma {:induction false} NothingExcluded(levels: seq<seq<nat>>)
    requires NoneEmpty(levels)
    ensures Filtered(levels, {}) == levels
  {
    if levels != [] {
      var init, last := levels[..|levels| - 1], Last(levels);
      assert levels == init + [last];
      NothingExcluded(init);
      KeepAll(last);
    }
  }

  lemma FlatMaybe(levels: seq<seq<nat>>, level: seq<nat>)
    ensures Flat(levels + if level == [] then [] else [level]) == Flat(levels) + level
  {
    if level == [] {
      assert levels + [] == levels && Flat(levels) + level == Flat(levels);
    } else {
      FlatAppend(levels, level);
    }
  }

  lemma {:induction false} FlatFiltered(levels: seq<seq<nat>>, exclude: set<nat>)
    ensures Flat(Filtered(levels, exclude)) == Keep(Flat(levels), exclude)
  {
    if levels != [] {
      var init, last := levels[..|levels| - 1], Last(levels);
      FlatFiltered(init, exclude);
      KeepAppend(Flat(init), last, exclude);
      FlatMaybe(Filtered(init, exclude), Keep(last, exclude));
    }
  }

  method FilterLevels(levels: seq<seq<nat>>, exclude: set<nat>) returns (result: seq<seq<nat>>)
    ensures result == if exclude == {} then levels else Filtered(levels, exclude)
    ensures Flat(result) == Keep(Flat(levels), exclude)
    ensures exclude == {} ==> result == levels
    ensures exclude != {} || NoneEmpty(levels) ==> IsFiltered(levels, exclude, result)
  {
    FilteredIsFiltered(levels, exclude);
    if exclude == {} {
      KeepAll(Flat(levels));
      if NoneEmpty(levels) {
        NothingExcluded(levels);
      }
      return levels;
    }
    result := [];
    for k := 0 to |levels|
      invariant result == Filtered(levels[..k], exclude)
    {
      var filtered := Keep(levels[k], exclude);
      assert levels[..k + 1][..k] == levels[..k];
      if |filtered| > 0 {
        result := result + [filtered];
      }
    }
    assert levels[..|levels|] == levels;
    FlatFiltered(levels, exclude);
  }

  lemma {:induction false} KeepAppend(s: seq<nat>, t: seq<nat>, exclude: set<nat>)
    ensures Keep(s + t, exclude) == Keep(s, exclude) + Keep(t, exclude)
  {
    if t == [] {
      assert s + t == s;
    } else {
      var init := t[..|t| - 1];
      assert (s + t)[..|s + t| - 1] == s + init && Last(s + t) == Last(t);
      KeepAppend(s, init, exclude);
    }
  }

  lemma KeepOne(s: seq<nat>, id: nat, exclude: set<nat>)
    ensures Keep(s + [id], exclude) == Keep(s, exclude) + if id in exclude then [] else [id]
  {
    assert (s + [id])[..|s|] == s;
  }

  lemma {:induction false} KeepAll(s: seq<nat>)
    ensures Keep(s, {}) == s
  {
    if s != [] {
      var init := s[..|s| - 1];
      assert s == init + [Last(s)];
      KeepAll(init);
      KeepOne(init, Last(s), {});
    }
  }

  ghost predicate AgreeOnHappy(g: Graph, vals: Values, others: Values) {
    forall id: nat :: Happy(g, id) ==> Lookup(vals, id) == Lookup(others, id)
  }

  /** What a happy node is computed from is happy, unless the node ignores it. */
  lemma HappyNodeAgrees(g: Graph, params: Params, vals: Values, others: Values, id: nat)
    requires id in g.nodes && Happy(g, id) && AgreeOnHappy(g, vals, others)
    requires forall x :: x in vals || x in others ==> x in g.nodes
    ensures NodeValue(g, params, vals, id) == NodeValue(g, params, others, id)
  {
    var node := g.nodes[id];
    if node.IsFrame() {
      IgnoresInputs(node, InputValues(node.inputs, vals), InputValues(node.inputs, others), params);
    } else {
      forall i | 0 <= i < |node.inputs| && node.inputs[i].Some?
        ensures Lookup(vals, node.inputs[i].value) == Lookup(others, node.inputs[i].value)
      {
        var x := node.inputs[i].value;
        if x in g.nodes && x != id {
          assert StepsBack(g, id, x);
          WalkOn(g, NodesOfKind(g, "Return"), id, x);
        }
      }
      assert InputValues(node.inputs, vals) == InputValues(node.inputs, others);
    }
  }

  lemma {:induction false} EvalKnown(g: Graph, params: Params, order: seq<nat>)
    requires KnownIds(g, order)
    ensures forall x :: x in Eval(g, params, order) ==> x in g.nodes
  {
    if order != [] {
      EvalKnown(g, params, order[..|order| - 1]);
    }
  }

  lemma SliceOneNode(g: Graph, params: Params, vals: Values, others: Values, w: nat)
    requires w in g.nodes && AgreeOnHappy(g, vals, others)
    requires forall x :: x in vals || x in others ==> x in g.nodes
    ensures AgreeOnHappy(g, EvalNode(g, params, vals, w), EvalNode(g, params, others, w))
    ensures !Happy(g, w) ==> AgreeOnHappy(g, EvalNode(g, params, vals, w), others)
  {
    if Happy(g, w) {
      HappyNodeAgrees(g, params, vals, others, w);
    }
  }

  /** Leaving `exclude` out of `order` keeps the happy values. */
  ghost predicate KeepsHappy(g: Graph, params: Params, order: seq<nat>, exclude: set<nat>) {
    && KnownIds(g, order) && KnownIds(g, Keep(order, exclude))
    && AgreeOnHappy(g, Eval(g, params, order), Eval(g, params, Keep(order, exclude)))
  }

  lemma SliceOneMore(g: Graph, params: Params, order: seq<nat>, exclude: set<nat>, w: nat)
    requires KeepsHappy(g, params, order, exclude) && w in g.nodes
    requires w in exclude ==> !Happy(g, w)
    ensures KeepsHappy(g, params, order + [w], exclude)
  {
    var kept := Keep(order, exclude);
    EvalKnown(g, params, order);
    EvalKnown(g, params, kept);
    SliceOneNode(g, params, Eval(g, params, order), Eval(g, params, kept), w);
    KeepOne(order, w, exclude);
    EvalOneMore(g, params, order, w);
    EvalOneMore(g, params, kept, w);
    assert w in exclude ==> Keep(order + [w], exclude) == kept;
  }

  lemma KnownInit(g: Graph, init: seq<nat>, w: nat)
    requires KnownIds(g, init + [w])
    ensures KnownIds(g, init) && w in g.nodes
  {
    assert forall id :: id in init || id == w ==> id in init + [w];
  }

  /**
   Slicing is safe: leave out any nodes that no Return depends on, from any list of nodes
   (cyclic graphs, repeated ids and arbitrary orders included), and every node that a
   Return depends on keeps its value.
   */
  lemma {:induction false} SlicingKeepsHappyValues(g: Graph, params: Params, order: seq<nat>, exclude: set<nat>)
    requires KnownIds(g, order) && forall id :: id in exclude ==> !Happy(g, id)
    ensures KeepsHappy(g, params, order, exclude)
  {
    if order != [] {
      var init, w := order[..|order| - 1], Last(order);
      assert order == init + [w];
      KnownInit(g, init, w);
      SlicingKeepsHappyValues(g, params, init, exclude);
      SliceOneMore(g, params, init, exclude, w);
    }
  }

  // ----- the whole pipeline

  /** The one solution of the dataflow equations, as far as the happy nodes go. */
  ghost predicate ShowsMeaning(g: Graph, params: Params, vals: Values, everywhere: bool) {
    exists meaning ::
      && IsMeaning(g, params, meaning)
      && (forall other :: IsMeaning(g, params, other) ==> other == meaning)
      && AgreeOnHappy(g, vals, meaning)
      && (everywhere ==> vals == meaning)
  }

  lemma SlicedLevelsShowMeaning(g: Graph, edges: seq<Edge>, params: Params, levels: seq<seq<nat>>, dropped: set<nat>)
    requires g.Valid() && IsEdgeList(g, edges) && IsTopoLevels(g.ids, edges, levels) && Acyclic(edges)
    requires forall id :: id in dropped ==> !Happy(g, id)
    ensures KnownIds(g, Flat(levels))
    ensures ShowsMeaning(g, params, Eval(g, params, Keep(Flat(levels), dropped)), dropped == {})
  {
    var order := Flat(levels);
    assert forall id :: id in order <==> id in Elements(order);
    LevelsGiveDataOrder(g.ids, edges, levels);
    EvalIsTheMeaning(g, edges, params, order);
    SlicedShowsMeaning(g, params, order, dropped);
  }

  lemma SlicedShowsMeaning(g: Graph, params: Params, order: seq<nat>, dropped: set<nat>)
    requires KnownIds(g, order) && IsMeaning(g, params, Eval(g, params, order))
    requires forall vals :: IsMeaning(g, params, vals) ==> vals == Eval(g, params, order)
    requires forall id :: id in dropped ==> !Happy(g, id)
    ensures ShowsMeaning(g, params, Eval(g, params, Keep(order, dropped)), dropped == {})
  {
    SlicingKeepsHappyValues(g, params, order, dropped);
    KeepAll(order);
  }

  /**
   The page rebuilds its steps from the graph: edges, levels, the optional happy-path
   filter, and the snapshots. On every graph the filter keeps the values that a Return
   depends on; on acyclic ones they are the meaning of the graph.
   */
  method RebuildSteps(g: Graph, params: Params, happyPathOnly: bool)
    returns (steps: seq<Step>, ghost edges: seq<Edge>, ghost all: seq<seq<nat>>)
    requires g.Valid()
    ensures IsEdgeList(g, edges) && InInputOrder(g, edges) && steps != []
    ensures IsTopoLevels(g.ids, edges, all) && AreListed(g.ids, edges, all) && KnownIds(g, Flat(all))
    ensures AgreeOnHappy(g, Last(steps).values, Eval(g, params, Flat(all)))
    ensures !happyPathOnly ==> Last(steps).values == Eval(g, params, Flat(all))
    ensures IsMeaningInOrder(g, params, Flat(all), Eval(g, params, Flat(all)))
    ensures IsMeaningBesidesCycles(g, edges, params, Eval(g, params, Flat(all)))
    ensures Acyclic(edges) ==> ShowsMeaning(g, params, Last(steps).values, !happyPathOnly)
    ensures forall k, id :: 0 <= k < |steps| && id in steps[k].activeNodes ==>
      id in g.nodes && (happyPathOnly ==> Happy(g, id) || !Exceptional(g, id))
  {
    var es := BuildEdges(g);
    edges := es;
    var exceptionNodes := ClassifyExceptionNodes(g);
    assert EndpointsIn(g.ids, es);
    var levels := TopoLevels(g.ids, es);
    all := levels;
    assert forall id :: id in Flat(all) <==> id in Elements(Flat(all));
    ghost var dropped: set<nat> := {};
    KeepAll(Flat(all));
    if happyPathOnly && exceptionNodes != {} {
      levels := FilterLevels(levels, exceptionNodes);
      dropped := exceptionNodes;
    }
    assert Flat(levels) == Keep(Flat(all), dropped);
    steps := BuildSteps(g, es, levels, params);
    SlicingKeepsHappyValues(g, params, Flat(all), dropped);
    EvalIsMeaningInOrder(g, params, Flat(all));
    LevelsSolveBesidesCycles(g, es, params, all);
    if Acyclic(es) {
      SlicedLevelsShowMeaning(g, es, params, all, dropped);
    }
    forall k, id | 0 <= k < |steps| && id in steps[k].activeNodes ensures id in Flat(levels) {
      StepsActivateLevels(g, es, params, levels, steps, k, id);
    }
  }
}
