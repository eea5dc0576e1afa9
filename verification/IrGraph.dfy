/**
 The intermediate-representation graph of make/plans/dynamic-ir/ir-core.js, from the
 point where the text has been parsed into nodes, and the deduplicated edge list.
 */
module IrGraph {
  import opened Common

  /**
   A parsed node. `inputs` keeps the placeholders '_' as None. The two matches that value
   computation makes on the node's trailing text are kept as fields: `parmIndex` holds the
   number of "Parm<n>" and `constant` the number behind '#'.
   */
  datatype Node = Node(
    kind: string,
    inputs: seq<Option<nat>>,
    extra: string,
    sublabel: string,
    returnValIdx: int,
    parmIndex: Option<nat>,
    constant: Option<real>)
  {
    /** The inputs that are not placeholders, in order. */
    function InputIds(): seq<nat> {
      Present(inputs)
    }

    predicate IsFrame() {
      kind == "Root" || kind == "Start"
    }

    predicate IsConstant() {
      "Con" <= kind
    }
  }

  function Present(inputs: seq<Option<nat>>): (ids: seq<nat>)
    ensures forall id :: id in ids <==> Some(id) in inputs
  {
    if inputs == [] then []
    else
      var rest := Present(inputs[1..]);
      assert forall x :: x in inputs <==> x == inputs[0] || x in inputs[1..];
      match inputs[0]
      case None => rest
      case Some(id) => [id] + rest
  }

  lemma {:induction false} PresentConcat(s: seq<Option<nat>>, t: seq<Option<nat>>)
    ensures Present(s + t) == Present(s) + Present(t)
  {
    if s == [] {
      assert s + t == t;
    } else {
      assert (s + t)[1..] == s[1..] + t;
      PresentConcat(s[1..], t);
    }
  }

  /** Each input that is not a placeholder moves up by the number of placeholders before it. */
  lemma PresentKeepsOrder(inputs: seq<Option<nat>>, k: nat)
    requires k < |inputs| && inputs[k].Some?
    ensures |Present(inputs[..k])| < |Present(inputs)|
    ensures Present(inputs)[|Present(inputs[..k])|] == inputs[k].value
    ensures k < |inputs| - 1 || |Present(inputs)| == |Present(inputs[..k])| + 1
  {
    var one, rest := [inputs[k]], inputs[k + 1..];
    assert inputs == inputs[..k] + (one + rest);
    PresentConcat(inputs[..k], one + rest);
    PresentConcat(one, rest);
    assert one[1..] == [] && Present(one) == [inputs[k].value] + Present(one[1..]);
  }

  /**
   A JavaScript object from ids to nodes: its entries, and the order in which it lists its
   keys. (Engines list small integer keys in ascending order; nothing below depends on it.)
   */
  datatype Graph = Graph(nodes: map<nat, Node>, ids: seq<nat>) {
    ghost predicate Valid() {
      NoDup(ids) && forall id :: id in ids <==> id in nodes
    }
  }

  datatype Edge = Edge(from: nat, to: nat, structural: bool) {
    /** The key "from->to". */
    function Key(): (nat, nat) {
      (from, to)
    }
  }

  predicate HasKind(nodes: map<nat, Node>, id: nat, kind: string) {
    id in nodes && nodes[id].kind == kind
  }

  /** The original dereferences the target's kind unless an earlier test has answered. */
  predicate IsStructural(from: nat, to: nat, nodes: map<nat, Node>)
    requires from != to && HasKind(nodes, from, "Root") ==> to in nodes
  {
    || from == to
    || (HasKind(nodes, from, "Root") && HasKind(nodes, to, "Start"))
    || (HasKind(nodes, from, "Start") && HasKind(nodes, to, "Root"))
    || (HasKind(nodes, from, "Root") && nodes[to].IsConstant())
  }

  /** `from` is an input of `to` that the edge list has to mention. */
  predicate IsInput(g: Graph, from: nat, to: nat) {
    && from in g.nodes && to in g.nodes && from != to
    && Some(from) in g.nodes[to].inputs
  }

  /** The edges have exactly the keys in `keys`, no key twice, and are classified. */
  ghost predicate Lists(g: Graph, edges: seq<Edge>, keys: set<(nat, nat)>) {
    && (forall e :: e in edges ==> e.Key() in keys)
    && (forall e :: e in edges ==>
          IsInput(g, e.from, e.to) && e.structural == IsStructural(e.from, e.to, g.nodes))
    && (forall k :: k in keys ==> exists e :: e in edges && e.Key() == k)
    && (forall i, j :: 0 <= i < j < |edges| ==> edges[i].Key() != edges[j].Key())
  }

  /** The edge list of a graph: one edge an input pair, each classified, no pair twice. */
  ghost predicate IsEdgeList(g: Graph, edges: seq<Edge>) {
    && Lists(g, edges, set e | e in edges :: e.Key())
    && (forall from: nat, to: nat :: IsInput(g, from, to) ==>
          exists e :: e in edges && e.Key() == (from, to))
  }

  /**
   The kinds of its ends decide whether an edge is structural: from Root to Start or to a
   kind that begins with "Con", and from Start to Root. All other edges carry data.
   */
  ghost predicate KindsDecide(g: Graph, e: Edge)
    requires e.from in g.nodes && e.to in g.nodes
  {
    var from, to := g.nodes[e.from].kind, g.nodes[e.to].kind;
    e.structural <==>
      || (from == "Root" && to == "Start")
      || (from == "Start" && to == "Root")
      || (from == "Root" && |to| >= 3 && to[0] == 'C' && to[1] == 'o' && to[2] == 'n')
  }

  lemma StructuralKinds(g: Graph, e: Edge)
    requires IsInput(g, e.from, e.to) && e.structural == IsStructural(e.from, e.to, g.nodes)
    ensures KindsDecide(g, e)
  {
    var to := g.nodes[e.to].kind;
    if |to| >= 3 {
      assert to[..3] == [to[0], to[1], to[2]];
    }
  }

  /** y is listed, and x before the first time that it is. */
  ghost predicate FirstBefore(s: seq<nat>, x: nat, y: nat) {
    exists n :: 0 <= n <= |s| && x in s[..n] && y !in s[..n] && y in s
  }

  /** Edges are listed by their target, in the order of the ids, and then by input. */
  ghost predicate EdgeBefore(g: Graph, e: Edge, f: Edge) {
    || ListedBefore(g.ids, e.to, f.to)
    || (e.to == f.to && e.to in g.nodes && FirstBefore(g.nodes[e.to].InputIds(), e.from, f.from))
  }

  ghost predicate InInputOrder(g: Graph, edges: seq<Edge>) {
    forall i, j :: 0 <= i < j < |edges| ==> EdgeBefore(g, edges[i], edges[j])
  }

  lemma InputOrderOneMore(g: Graph, edges: seq<Edge>, i: nat, j: nat, e: Edge)
    requires g.Valid() && InInputOrder(g, edges) && i < |g.ids| && e.to == g.ids[i]
    requires var inputIds := g.nodes[e.to].InputIds();
      && j < |inputIds| && e.from == inputIds[j] && e.from !in inputIds[..j]
      && forall f :: f in edges ==> f.to in g.ids[..i] || (f.to == e.to && f.from in inputIds[..j])
    ensures InInputOrder(g, edges + [e])
  {
    var more := edges + [e];
    forall a, b | 0 <= a < b < |more| ensures EdgeBefore(g, more[a], more[b]) {
      if b == |edges| {
        var f := edges[a];
        assert f in edges;
        if f.to in g.ids[..i] {
          var n :| 0 <= n < i && g.ids[n] == f.to;
          assert ListedBefore(g.ids, f.to, e.to);
        } else {
          assert FirstBefore(g.nodes[e.to].InputIds(), f.from, e.from);
        }
      }
    }
  }

  lemma ListsOneMore(g: Graph, edges: seq<Edge>, keys: set<(nat, nat)>, e: Edge)
    requires Lists(g, edges, keys) && e.Key() !in keys
    requires IsInput(g, e.from, e.to) && e.structural == IsStructural(e.from, e.to, g.nodes)
    ensures Lists(g, edges + [e], keys + {e.Key()})
  {
    var more := edges + [e];
    forall k | k in keys + {e.Key()} ensures exists x :: x in more && x.Key() == k {
      if k == e.Key() {
        assert e in more;
      } else {
        var x :| x in edges && x.Key() == k;
        assert x in more;
      }
    }
  }

  /** A node may only depend, through a structural edge, where it ignores its inputs. */
  lemma StructuralTargets(g: Graph, from: nat, to: nat)
    requires IsInput(g, from, to) && IsStructural(from, to, g.nodes)
    ensures g.nodes[to].IsFrame() || g.nodes[to].IsConstant()
  {
  }

  /** A key the loops have dealt with: all of `done`, and `prefix` of the inputs of `id`. */
  ghost predicate Handled(g: Graph, k: (nat, nat), done: set<nat>, id: nat, prefix: seq<nat>) {
    IsInput(g, k.0, k.1) && (k.1 in done || (k.1 == id && k.0 in prefix))
  }

  /** So far, there are only edges into earlier ids, and edges from earlier inputs. */
  lemma HandledEdges(g: Graph, edges: seq<Edge>, seen: set<(nat, nat)>, i: nat, j: nat)
    requires g.Valid() && i < |g.ids| && j <= |g.nodes[g.ids[i]].InputIds()| && Lists(g, edges, seen)
    requires forall k :: k in seen ==>
      Handled(g, k, Elements(g.ids[..i]), g.ids[i], g.nodes[g.ids[i]].InputIds()[..j])
    ensures forall f :: f in edges ==>
      f.to in g.ids[..i] || (f.to == g.ids[i] && f.from in g.nodes[g.ids[i]].InputIds()[..j])
  {
    forall f | f in edges
      ensures f.to in g.ids[..i] || (f.to == g.ids[i] && f.from in g.nodes[g.ids[i]].InputIds()[..j])
    {
      assert f.Key() in seen;
    }
  }

  method BuildEdges(g: Graph) returns (edges: seq<Edge>)
    requires g.Valid()
    ensures IsEdgeList(g, edges) && InInputOrder(g, edges)
    ensures forall e :: e in edges ==> IsInput(g, e.from, e.to) && KindsDecide(g, e)
  {
    edges := [];
    var seen: set<(nat, nat)> := {};
    for i := 0 to |g.ids|
      invariant Lists(g, edges, seen) && InInputOrder(g, edges)
      invariant forall k :: k in seen <==> IsInput(g, k.0, k.1) && k.1 in g.ids[..i]
    {
      var id := g.ids[i];
      var inputIds := g.nodes[id].InputIds();
      ghost var done := Elements(g.ids[..i]);
      for j := 0 to |inputIds|
        invariant Lists(g, edges, seen) && InInputOrder(g, edges)
        invariant forall k :: k in seen <==> Handled(g, k, done, id, inputIds[..j])
      {
        var inId := inputIds[j];
        assert inputIds[..j + 1] == inputIds[..j] + [inId];
        if inId == id { continue; }
        if inId !in g.nodes { continue; }
        var key := (inId, id);
        if key in seen { continue; }
        var e := Edge(inId, id, IsStructural(inId, id, g.nodes));
        ListsOneMore(g, edges, seen, e);
        HandledEdges(g, edges, seen, i, j);
        InputOrderOneMore(g, edges, i, j, e);
        seen := seen + {key};
        edges := edges + [e];
      }
      assert inputIds[..|inputIds|] == inputIds;
      assert g.ids[..i + 1] == g.ids[..i] + [id];
    }
    assert g.ids[..|g.ids|] == g.ids;
    forall e | e in edges ensures IsInput(g, e.from, e.to) && KindsDecide(g, e) {
      StructuralKinds(g, e);
    }
    forall from: nat, to: nat | IsInput(g, from, to)
      ensures exists e :: e in edges && e.Key() == (from, to)
    {
      assert (from, to) in seen;
    }
  }
}
