/**
 Value computation and the execution steps of make/plans/dynamic-ir/ir-core.js: node
 values are computed level by level, and every step is a snapshot of what is known.
 */
module Evaluator {
  import opened Common
  import opened IrGraph
  import opened DataPaths

  /** A number, a text, or the text "ret x" kept as its argument. */
  datatype Value = Num(n: real) | Text(s: string) | Ret(of: Option<Value>)

  type Values = map<nat, Value>

  type Params = map<nat, real>

  // ----- JavaScript arithmetic on reals

  /** Math.trunc */
  function Trunc(x: real): int {
    if x >= 0.0 then x.Floor else -((-x).Floor)
  }

  const TWO32 := 0x1_0000_0000

  function ToUint32(x: real): (n: nat)
    ensures n < TWO32
  {
    Trunc(x) % TWO32
  }

  function Signed32(n: nat): int
    requires n < TWO32
  {
    if n < 0x8000_0000 then n else n - TWO32
  }

  function ShiftCount(x: real): nat {
    ToUint32(x) % 32
  }

  function Remainder(a: real, b: real): real
    requires b != 0.0
  {
    a - b * (Trunc(a / b) as real)
  }

  /** The number whose n lowest bits are those of x and y, combined. */
  function Bitwise(op: (bool, bool) -> bool, x: nat, y: nat, n: nat): (z: nat)
    ensures z < Pow2(n)
  {
    if n == 0 then 0
    else 2 * Bitwise(op, x / 2, y / 2, n - 1) + if op(x % 2 == 1, y % 2 == 1) then 1 else 0
  }

  function Bitwise32(op: (bool, bool) -> bool, a: real, b: real): Option<Value> {
    Some(Num(Signed32(Bitwise(op, ToUint32(a), ToUint32(b), 32) % TWO32) as real))
  }

  // ----- the value of one node

  function Binary(kind: string, a: real, b: real): Option<Value> {
    match kind
    case "AddI" | "AddL" => Some(Num(a + b))
    case "SubI" | "SubL" => Some(Num(a - b))
    case "MulI" | "MulL" => Some(Num(a * b))
    case "DivI" | "DivL" => Some(if b != 0.0 then Num(Trunc(a / b) as real) else Text("\U{f7}0"))
    case "ModI" | "ModL" => Some(if b != 0.0 then Num(Remainder(a, b)) else Text("%0"))
    case "LShiftI" | "LShiftL" =>
      Some(Num(Signed32((ToUint32(a) * Pow2(ShiftCount(b))) % TWO32) as real))
    case "RShiftI" | "RShiftL" => Some(Num((Signed32(ToUint32(a)) / Pow2(ShiftCount(b))) as real))
    case "URShiftI" | "URShiftL" => Some(Num((ToUint32(a) / Pow2(ShiftCount(b))) as real))
    case "AndI" | "AndL" => Bitwise32((p, q) => p && q, a, b)
    case "OrI" | "OrL" => Bitwise32((p, q) => p || q, a, b)
    case "XorI" | "XorL" => Bitwise32((p, q) => p != q, a, b)
    case _ => None
  }

  function Compare(a: real, b: real): Value {
    if a - b < 0.0 then Text("<") else if a - b > 0.0 then Text(">") else Text("=")
  }

  function Unary(kind: string, a: real): Option<Value> {
    match kind
    case "NegI" | "NegL" => Some(Num(-a))
    case "AbsI" | "AbsL" => Some(Num(if a < 0.0 then -a else a))
    case "ConvI2L" | "ConvL2I" | "CastII" | "CastLL" => Some(Num(a))
    case _ => None
  }

  predicate PassesThrough(kind: string) {
    kind == "Proj" || kind == "Phi" || "CheckCast" <= kind
  }

  /** The switches on the numeric inputs, tried in the order of the source. */
  function Operate(kind: string, nums: seq<real>): Option<Value> {
    if |nums| >= 2 && Binary(kind, nums[0], nums[1]).Some? then Binary(kind, nums[0], nums[1])
    else if |nums| >= 2 && "Cmp" <= kind then Some(Compare(nums[0], nums[1]))
    else if |nums| >= 1 && Unary(kind, nums[0]).Some? then Unary(kind, nums[0])
    else if |nums| == 1 && PassesThrough(kind) then Some(Num(nums[0]))
    else None
  }

  function Numbers(ins: seq<Option<Value>>): seq<real> {
    if ins == [] then []
    else
      match ins[0]
      case Some(Num(n)) => [n] + Numbers(ins[1..])
      case _ => Numbers(ins[1..])
  }

  function OrElse(s: string, default: string): Option<Value> {
    Some(Text(if s == "" then default else s))
  }

  function ParmValue(node: Node, params: Params): Option<Value> {
    match node.parmIndex
    case Some(i) => Some(if i in params then Num(params[i]) else Text("?"))
    case None =>
      if "Control" <= node.extra then Some(Text("ctrl"))
      else if "I_O" <= node.extra then Some(Text("io"))
      else if "Memory" <= node.extra then Some(Text("mem"))
      else if "FramePtr" <= node.extra then Some(Text("fp"))
      else if "ReturnAdr" <= node.extra then Some(Text("ra"))
      else OrElse(node.sublabel, "?")
  }

  function ComputeValue(node: Node, ins: seq<Option<Value>>, params: Params): Option<Value> {
    var t := node.kind;
    if t == "Start" then Some(Text("{...}"))
    else if t == "Root" then Some(Text("done"))
    else if t == "Parm" then ParmValue(node, params)
    else if "Con" <= t then
      match node.constant
      case Some(n) => Some(Num(n))
      case None => OrElse(node.sublabel, "#?")
    else if t == "Return" then
      var ri := if node.returnValIdx >= 0 then node.returnValIdx else |node.InputIds()| - 1;
      Some(Ret(if 0 <= ri < |ins| then ins[ri] else None))
    else Operate(t, Numbers(ins))
  }

  /** The value of the last input that is not a placeholder. */
  function LastInput(node: Node, vals: Values): Option<Value> {
    if node.InputIds() == [] then None else Lookup(vals, Last(node.InputIds()))
  }

  /**
   A Return without a marked value is meant to show its last input. The position is taken
   from the list without placeholders and used on the list with them: it shows that input,
   whatever the values, exactly if the list with placeholders has it at that position too.
   */
  lemma ReturnShowsLastInput(node: Node, params: Params)
    requires node.kind == "Return" && node.returnValIdx < 0
    ensures |node.InputIds()| <= |node.inputs|
    ensures
      (forall vals: Values ::
        ComputeValue(node, InputValues(node.inputs, vals), params) == Some(Ret(LastInput(node, vals))))
      <==>
      node.InputIds() == [] || node.inputs[|node.InputIds()| - 1] == Some(Last(node.InputIds()))
  {
    PlaceholdersShorten(node.inputs);
    forall vals: Values
      ensures ComputeValue(node, InputValues(node.inputs, vals), params) ==
        Some(Ret(if node.InputIds() == [] then None else InputValues(node.inputs, vals)[|node.InputIds()| - 1]))
    {
      ReturnValue(node, InputValues(node.inputs, vals), params);
    }
    if node.InputIds() != [] && node.inputs[|node.InputIds()| - 1] != Some(Last(node.InputIds())) {
      var vals: Values := map[Last(node.InputIds()) := Num(1.0)];
      assert ComputeValue(node, InputValues(node.inputs, vals), params) != Some(Ret(LastInput(node, vals)));
    }
  }

  /** A Return with one placeholder in front of its only input shows the placeholder. */
  lemma ReturnMissesLastInput(id: nat, x: real, params: Params)
    ensures var node := Node("Return", [None, Some(id)], "", "", -1, None, None);
      var vals: Values := map[id := Num(x)];
      && LastInput(node, vals) == Some(Num(x))
      && ComputeValue(node, InputValues(node.inputs, vals), params) == Some(Ret(None))
  {
    var node := Node("Return", [None, Some(id)], "", "", -1, None, None);
    var one: seq<Option<nat>> := [Some(id)];
    assert node.inputs[1..] == one && one[1..] == [];
    assert Present(one[1..]) == [] && Present(one) == [id];
    assert node.InputIds() == Present(node.inputs) == Present(one);
    ReturnValue(node, InputValues(node.inputs, map[id := Num(x)]), params);
  }

  lemma ReturnValue(node: Node, ins: seq<Option<Value>>, params: Params)
    requires node.kind == "Return" && node.returnValIdx < 0 && |ins| == |node.inputs|
    ensures |node.InputIds()| <= |ins|
    ensures ComputeValue(node, ins, params) ==
      Some(Ret(if node.InputIds() == [] then None else ins[|node.InputIds()| - 1]))
  {
    PlaceholdersShorten(node.inputs);
    assert node.kind[0] == 'R' && "Con"[0] == 'C';
  }

  lemma {:induction false} PlaceholdersShorten(inputs: seq<Option<nat>>)
    ensures |Present(inputs)| <= |inputs|
    ensures |Present(inputs)| == |inputs| <==> None !in inputs
  {
    if inputs != [] {
      PlaceholdersShorten(inputs[1..]);
      assert inputs == [inputs[0]] + inputs[1..];
    }
  }

  lemma IgnoresInputs(node: Node, ins: seq<Option<Value>>, others: seq<Option<Value>>, params: Params)
    requires node.IsFrame() || node.IsConstant()
    ensures ComputeValue(node, ins, params) == ComputeValue(node, others, params)
  {
  }

  /**
   The unary switch lists four kinds that hand their first number on. Two of them start
   with "Con" and are taken for constants before the switch is reached, so such a node
   shows its input exactly when it is a cast, or when its own text names the same number.
   */
  lemma ConversionPassesInput(node: Node, ins: seq<Option<Value>>, params: Params)
    requires node.kind in ["ConvI2L", "ConvL2I", "CastII", "CastLL"] && Numbers(ins) != []
    ensures ComputeValue(node, ins, params) == Some(Num(Numbers(ins)[0])) <==>
      node.kind in ["CastII", "CastLL"] || node.constant == Some(Numbers(ins)[0])
  {
    if node.kind in ["CastII", "CastLL"] {
      assert node.kind[1] == 'a' && "Con"[1] == 'o' && "Cmp"[1] == 'm';
      CastOperates(node.kind, Numbers(ins));
    } else {
      assert "ConvI2L"[..3] == "ConvL2I"[..3] == "Con";
      assert node.kind[..3] == "Con" && "Con" <= node.kind;
    }
  }

  lemma CastOperates(kind: string, nums: seq<real>)
    requires kind in ["CastII", "CastLL"] && nums != []
    ensures Operate(kind, nums) == Some(Num(nums[0]))
  {
    assert kind[1] == 'a' && "Cmp"[1] == 'm';
  }

  // ----- evaluation of a list of nodes

  function Lookup(vals: Values, id: nat): Option<Value> {
    if id in vals then Some(vals[id]) else None
  }

  function InputValues(inputs: seq<Option<nat>>, vals: Values): (ins: seq<Option<Value>>)
    ensures |ins| == |inputs|
    ensures forall i :: 0 <= i < |ins| ==>
      ins[i] == if inputs[i].None? then None else Lookup(vals, inputs[i].value)
  {
    seq(|inputs|, i requires 0 <= i < |inputs| =>
      if inputs[i].None? then None else Lookup(vals, inputs[i].value))
  }

  function NodeValue(g: Graph, params: Params, vals: Values, id: nat): Option<Value>
    requires id in g.nodes
  {
    ComputeValue(g.nodes[id], InputValues(g.nodes[id].inputs, vals), params)
  }

  function EvalNode(g: Graph, params: Params, vals: Values, id: nat): Values
    requires id in g.nodes
  {
    match NodeValue(g, params, vals, id)
    case None => vals
    case Some(v) => vals[id := v]
  }

  ghost predicate KnownIds(g: Graph, ids: seq<nat>) {
    forall id :: id in ids ==> id in g.nodes
  }

  /** The values after the nodes of `order` have been computed one after the other. */
  function Eval(g: Graph, params: Params, order: seq<nat>): Values
    requires KnownIds(g, order)
  {
    if order == [] then map[]
    else EvalNode(g, params, Eval(g, params, order[..|order| - 1]), Last(order))
  }

  lemma EvalOneMore(g: Graph, params: Params, order: seq<nat>, w: nat)
    requires KnownIds(g, order) && w in g.nodes
    ensures KnownIds(g, order + [w])
    ensures Eval(g, params, order + [w]) == EvalNode(g, params, Eval(g, params, order), w)
  {
    assert (order + [w])[..|order|] == order;
  }

  // ----- any order: what is listed later is absent

  function Restrict(vals: Values, ids: seq<nat>): Values {
    map id | id in vals && id in ids :: vals[id]
  }

  lemma {:induction false} EvalPrefix(g: Graph, params: Params, order: seq<nat>, k: nat)
    requires KnownIds(g, order) && NoDup(order) && k <= |order|
    ensures KnownIds(g, order[..k]) && Restrict(Eval(g, params, order), order[..k]) == Eval(g, params, order[..k])
    decreases |order|
  {
    if k == |order| {
      assert order[..k] == order;
      EvalListed(g, params, order);
    } else {
      var init, w := order[..|order| - 1], Last(order);
      assert order == init + [w] && init[..k] == order[..k] && w !in order[..k];
      EvalPrefix(g, params, init, k);
      EvalOneMore(g, params, init, w);
      RestrictIgnores(g, params, Eval(g, params, init), w, order[..k]);
    }
  }

  lemma RestrictIgnores(g: Graph, params: Params, vals: Values, w: nat, ids: seq<nat>)
    requires w in g.nodes && w !in ids
    ensures Restrict(EvalNode(g, params, vals, w), ids) == Restrict(vals, ids)
  {
  }

  lemma {:induction false} EvalListed(g: Graph, params: Params, order: seq<nat>)
    requires KnownIds(g, order)
    ensures forall id :: id in Eval(g, params, order) ==> id in order
  {
    if order != [] {
      assert order == order[..|order| - 1] + [Last(order)];
      EvalListed(g, params, order[..|order| - 1]);
    }
  }

  /** Node number i has the value that the nodes listed before it give. */
  ghost predicate SatisfiesInOrder(g: Graph, params: Params, order: seq<nat>, vals: Values, i: nat)
    requires KnownIds(g, order) && i < |order|
  {
    Lookup(vals, order[i]) == NodeValue(g, params, Restrict(vals, order[..i]), order[i])
  }

  ghost predicate IsMeaningInOrder(g: Graph, params: Params, order: seq<nat>, vals: Values)
    requires KnownIds(g, order)
  {
    && (forall id :: id in vals ==> id in order)
    && forall i :: 0 <= i < |order| ==> SatisfiesInOrder(g, params, order, vals, i)
  }

  lemma SatisfiedInOrder(g: Graph, params: Params, order: seq<nat>, i: nat)
    requires KnownIds(g, order) && NoDup(order) && i < |order|
    ensures SatisfiesInOrder(g, params, order, Eval(g, params, order), i)
  {
    var id, before := order[i], Eval(g, params, order[..i]);
    EvalPrefix(g, params, order, i);
    EvalPrefix(g, params, order, i + 1);
    EvalListed(g, params, order[..i]);
    assert order[..i + 1] == order[..i] + [id];
    EvalOneMore(g, params, order[..i], id);
    LookupRestricted(Eval(g, params, order), order[..i], id);
    LookupComputed(g, params, before, id);
  }

  lemma LookupRestricted(vals: Values, ids: seq<nat>, id: nat)
    ensures Lookup(Restrict(vals, ids + [id]), id) == Lookup(vals, id)
  {
    assert id in ids + [id];
  }

  lemma LookupComputed(g: Graph, params: Params, vals: Values, id: nat)
    requires id in g.nodes && id !in vals
    ensures Lookup(EvalNode(g, params, vals, id), id) == NodeValue(g, params, vals, id)
  {
  }

  lemma {:induction false} MeaningInOrderIsUnique(g: Graph, params: Params, order: seq<nat>, vals: Values, k: nat)
    requires KnownIds(g, order) && NoDup(order) && IsMeaningInOrder(g, params, order, vals) && k <= |order|
    ensures KnownIds(g, order[..k]) && Restrict(vals, order[..k]) == Eval(g, params, order[..k])
  {
    if k > 0 {
      var id := order[k - 1];
      MeaningInOrderIsUnique(g, params, order, vals, k - 1);
      assert SatisfiesInOrder(g, params, order, vals, k - 1);
      assert order[..k] == order[..k - 1] + [id];
      MeaningOneMore(g, params, order[..k - 1], vals, id);
    }
  }

  lemma MeaningOneMore(g: Graph, params: Params, ids: seq<nat>, vals: Values, id: nat)
    requires KnownIds(g, ids) && id in g.nodes && Restrict(vals, ids) == Eval(g, params, ids)
    requires Lookup(vals, id) == NodeValue(g, params, Restrict(vals, ids), id)
    ensures KnownIds(g, ids + [id]) && Restrict(vals, ids + [id]) == Eval(g, params, ids + [id])
  {
    EvalOneMore(g, params, ids, id);
    RestrictOneMore(vals, ids, id);
  }

  lemma RestrictOneMore(vals: Values, ids: seq<nat>, id: nat)
    ensures Restrict(vals, ids + [id]) ==
      match Lookup(vals, id) { case None => Restrict(vals, ids) case Some(v) => Restrict(vals, ids)[id := v] }
  {
  }

  /**
   On every graph, cyclic ones included, and for every order without repetitions, the
   final values are the one and only assignment in which every node is computed from the
   inputs listed before it, the other inputs being absent.
   */
  lemma EvalIsMeaningInOrder(g: Graph, params: Params, order: seq<nat>)
    requires KnownIds(g, order) && NoDup(order)
    ensures forall vals :: IsMeaningInOrder(g, params, order, vals) <==> vals == Eval(g, params, order)
  {
    EvalListed(g, params, order);
    forall i | 0 <= i < |order| ensures SatisfiesInOrder(g, params, order, Eval(g, params, order), i) {
      SatisfiedInOrder(g, params, order, i);
    }
    forall vals | IsMeaningInOrder(g, params, order, vals) ensures vals == Eval(g, params, order) {
      MeaningInOrderIsUnique(g, params, order, vals, |order|);
      assert order[..|order|] == order && Restrict(vals, order) == vals;
    }
  }

  // ----- the dataflow equations

  /**
   The dataflow equations of the nodes in `ids`: every value is computed from the values
   of the node's inputs, its own value not being among them. Only nodes have values.
   */
  ghost predicate Solves(g: Graph, params: Params, vals: Values, ids: set<nat>) {
    && (forall id :: id in vals ==> id in g.nodes)
    && (forall id {:trigger Satisfies(g, params, vals, id)} :: id in ids && id in g.nodes ==>
          Satisfies(g, params, vals, id))
  }

  ghost predicate IsMeaning(g: Graph, params: Params, vals: Values) {
    Solves(g, params, vals, g.nodes.Keys)
  }

  ghost predicate AgreeOn(vals: Values, others: Values, ids: set<nat>) {
    forall id :: id in ids ==> Lookup(vals, id) == Lookup(others, id)
  }

  ghost predicate Satisfies(g: Graph, params: Params, vals: Values, id: nat)
    requires id in g.nodes
  {
    Lookup(vals, id) == NodeValue(g, params, vals - {id}, id)
  }

  /** A node's value does not depend on a node that neither feeds it nor is it. */
  lemma UnaffectedBy(g: Graph, edges: seq<Edge>, params: Params, vals: Values, others: Values, id: nat)
    requires IsEdgeList(g, edges) && id in g.nodes
    requires forall x :: x in vals || x in others ==> x in g.nodes
    requires forall x: nat :: Feeds(edges, x, id) || x == id ==> Lookup(vals, x) == Lookup(others, x)
    ensures NodeValue(g, params, vals, id) == NodeValue(g, params, others, id)
  {
    var node := g.nodes[id];
    if node.IsFrame() || node.IsConstant() {
      IgnoresInputs(node, InputValues(node.inputs, vals), InputValues(node.inputs, others), params);
    } else {
      forall i | 0 <= i < |node.inputs| && node.inputs[i].Some?
        ensures Lookup(vals, node.inputs[i].value) == Lookup(others, node.inputs[i].value)
      {
        var x := node.inputs[i].value;
        if x != id && x in g.nodes {
          assert IsInput(g, x, id);
          var e :| e in edges && e.Key() == (x, id);
          if e.structural {
            StructuralTargets(g, x, id);
          }
          assert Feeds(edges, x, id);
        }
      }
      assert InputValues(node.inputs, vals) == InputValues(node.inputs, others);
    }
  }

  /** A node listed after the nodes that feed it satisfies its equation. */
  lemma EvalSatisfies(g: Graph, edges: seq<Edge>, params: Params, order: seq<nat>, ids: set<nat>)
    requires IsEdgeList(g, edges) && KnownIds(g, order) && Ordered(edges, order, ids)
    ensures forall id :: id in Eval(g, params, order) ==> id in order
    ensures forall id :: id in order && id in ids ==> Satisfies(g, params, Eval(g, params, order), id)
  {
    EvalListed(g, params, order);
    forall id | id in order && id in ids ensures Satisfies(g, params, Eval(g, params, order), id) {
      var i :| 0 <= i < |order| && order[i] == id;
      SatisfiedAt(g, edges, params, order, ids, i);
    }
  }

  lemma SatisfiedAt(g: Graph, edges: seq<Edge>, params: Params, order: seq<nat>, ids: set<nat>, i: nat)
    requires IsEdgeList(g, edges) && KnownIds(g, order) && Ordered(edges, order, ids)
    requires i < |order| && order[i] in ids
    ensures Satisfies(g, params, Eval(g, params, order), order[i])
  {
    var id, vals := order[i], Eval(g, params, order);
    EvalListed(g, params, order);
    SatisfiedInOrder(g, params, order, i);
    forall x: nat | Feeds(edges, x, id) || x == id
      ensures Lookup(Restrict(vals, order[..i]), x) == Lookup(vals - {id}, x)
    {
      if x in vals && x != id {
        var j :| 0 <= j < |order| && order[j] == x;
        assert Feeds(edges, order[j], order[i]);
        assert order[..i][j] == x;
      }
    }
    UnaffectedBy(g, edges, params, Restrict(vals, order[..i]), vals - {id}, id);
  }

  lemma SolutionsAgreeAt(g: Graph, edges: seq<Edge>, params: Params, vals: Values, others: Values, id: nat)
    requires IsEdgeList(g, edges) && id in g.nodes
    requires forall x :: x in vals || x in others ==> x in g.nodes
    requires Satisfies(g, params, vals, id) && Satisfies(g, params, others, id)
    requires forall x: nat :: Feeds(edges, x, id) && x != id ==> Lookup(vals, x) == Lookup(others, x)
    ensures Lookup(vals, id) == Lookup(others, id)
  {
    UnaffectedBy(g, edges, params, vals - {id}, others - {id}, id);
  }

  /** With a node, `ids` has the nodes that feed it. */
  ghost predicate Closed(edges: seq<Edge>, ids: set<nat>) {
    forall u: nat, v: nat :: v in ids && Feeds(edges, u, v) ==> u in ids
  }

  /** Two solutions of the equations agree on the nodes listed after those that feed them. */
  lemma {:induction false} SolutionsAgree(g: Graph, edges: seq<Edge>, params: Params, order: seq<nat>, ids: set<nat>,
                                          vals: Values, others: Values, k: nat)
    requires IsEdgeList(g, edges) && Ordered(edges, order, ids) && Closed(edges, ids)
    requires forall id :: id in order <==> id in g.nodes
    requires Solves(g, params, vals, ids) && Solves(g, params, others, ids)
    requires k <= |order|
    ensures forall i :: 0 <= i < k && order[i] in ids ==> Lookup(vals, order[i]) == Lookup(others, order[i])
  {
    if k > 0 {
      SolutionsAgree(g, edges, params, order, ids, vals, others, k - 1);
      var id := order[k - 1];
      if id in ids {
        forall x: nat | Feeds(edges, x, id) && x != id ensures Lookup(vals, x) == Lookup(others, x) {
          assert Edge(x, id, false) in edges;
          var i :| 0 <= i < |order| && order[i] == x;
          assert Feeds(edges, order[i], order[k - 1]);
        }
        assert id in order;
        SolutionsAgreeAt(g, edges, params, vals, others, id);
      }
    }
  }

  /** Where the order respects the data edges, evaluation solves the equations, and nothing else does. */
  lemma EvalSolves(g: Graph, edges: seq<Edge>, params: Params, order: seq<nat>, ids: set<nat>)
    requires IsEdgeList(g, edges) && Ordered(edges, order, ids) && Closed(edges, ids)
    requires forall id :: id in order <==> id in g.nodes
    ensures Solves(g, params, Eval(g, params, order), ids)
    ensures forall vals :: Solves(g, params, vals, ids) ==> AgreeOn(vals, Eval(g, params, order), ids)
  {
    EvalSatisfies(g, edges, params, order, ids);
    var mine := Eval(g, params, order);
    forall vals | Solves(g, params, vals, ids) ensures AgreeOn(vals, mine, ids) {
      SolutionsAgree(g, edges, params, order, ids, vals, mine, |order|);
      forall id | id in ids ensures Lookup(vals, id) == Lookup(mine, id) {
        if id in g.nodes {
          var i :| 0 <= i < |order| && order[i] == id;
        }
      }
    }
  }

  /**
   Computing the nodes in any order that respects the data edges, whatever the order
   inside a level, yields the one and only solution of the dataflow equations.
   */
  lemma EvalIsTheMeaning(g: Graph, edges: seq<Edge>, params: Params, order: seq<nat>)
    requires IsEdgeList(g, edges) && IsDataOrder(edges, order)
    requires forall id :: id in order <==> id in g.nodes
    ensures IsMeaning(g, params, Eval(g, params, order))
    ensures forall vals :: IsMeaning(g, params, vals) ==> vals == Eval(g, params, order)
  {
    assert Elements(order) == g.nodes.Keys;
    EvalSolves(g, edges, params, order, g.nodes.Keys);
    var mine := Eval(g, params, order);
    forall vals | IsMeaning(g, params, vals) ensures vals == mine {
      assert AgreeOn(vals, mine, g.nodes.Keys);
      SameLookups(vals, mine);
    }
  }

  lemma SameLookups(vals: Values, others: Values)
    requires forall id: nat :: Lookup(vals, id) == Lookup(others, id)
    ensures vals == others
  {
    assert forall id: nat :: id in vals <==> Lookup(vals, id).Some?;
    assert forall id: nat :: id in others <==> Lookup(others, id).Some?;
    forall id | id in vals ensures vals[id] == others[id] {
      assert Lookup(vals, id) == Lookup(others, id);
    }
  }
}
