/**
 The level-synchronous topological sort of make/plans/dynamic-ir/ir-core.js: it peels
 off the nodes without pending data inputs, level by level, and appends what is left.
 */
module TopologicalSort {
  import opened Common
  import opened IrGraph
  import opened DataPaths

  ghost predicate EndpointsIn(ids: seq<nat>, edges: seq<Edge>) {
    forall e :: e in edges ==> e.from in ids && e.to in ids
  }

  /** The number of data edges into v that do not come from `done`. */
  function Pending(edges: seq<Edge>, v: nat, done: set<nat>): nat {
    if edges == [] then 0
    else
      var e := Last(edges);
      Pending(edges[..|edges| - 1], v, done)
      + if !e.structural && e.to == v && e.from !in done then 1 else 0
  }

  /** The adjacency list of u: the targets of its data edges, repetitions included. */
  function Targets(edges: seq<Edge>, u: nat): seq<nat> {
    if edges == [] then []
    else
      var e := Last(edges);
      Targets(edges[..|edges| - 1], u) + if !e.structural && e.from == u then [e.to] else []
  }

  lemma {:induction false} PendingIsZero(edges: seq<Edge>, v: nat, done: set<nat>)
    ensures Pending(edges, v, done) == 0 <==> forall u: nat :: Feeds(edges, u, v) ==> u in done
  {
    if edges != [] {
      var init, e := edges[..|edges| - 1], Last(edges);
      PendingIsZero(init, v, done);
      assert edges == init + [e];
      assert !e.structural && e.to == v ==> Feeds(edges, e.from, v);
      forall u: nat ensures Feeds(edges, u, v) <==> Feeds(init, u, v) || e == Edge(u, v, false) {
      }
    }
  }

  /** Finishing u settles as many pending inputs of v as u lists v as a target. */
  lemma {:induction false} PendingAfter(edges: seq<Edge>, v: nat, done: set<nat>, u: nat)
    requires u !in done
    ensures Pending(edges, v, done) == Pending(edges, v, done + {u}) + multiset(Targets(edges, u))[v]
  {
    if edges != [] {
      PendingAfter(edges[..|edges| - 1], v, done, u);
    }
  }

  lemma {:induction false} TargetsAreFed(edges: seq<Edge>, u: nat, v: nat)
    ensures v in Targets(edges, u) <==> Feeds(edges, u, v)
  {
    if edges != [] {
      TargetsAreFed(edges[..|edges| - 1], u, v);
      assert edges == edges[..|edges| - 1] + [Last(edges)];
    }
  }

  lemma {:induction false} TargetsConcat(s: seq<Edge>, t: seq<Edge>, u: nat)
    ensures Targets(s + t, u) == Targets(s, u) + Targets(t, u)
  {
    if t == [] {
      assert s + t == s;
    } else {
      assert (s + t)[..|s + t| - 1] == s + t[..|t| - 1];
      TargetsConcat(s, t[..|t| - 1], u);
    }
  }

  /** Targets are listed in the order of the edges. */
  lemma TargetAt(edges: seq<Edge>, u: nat, k: nat)
    requires k < |edges| && edges[k].from == u && !edges[k].structural
    ensures |Targets(edges[..k], u)| < |Targets(edges, u)|
    ensures Targets(edges, u)[|Targets(edges[..k], u)|] == edges[k].to
  {
    var one, rest := [edges[k]], edges[k + 1..];
    assert edges == edges[..k] + (one + rest);
    TargetsConcat(edges[..k], one + rest, u);
    TargetsConcat(one, rest, u);
    assert one[..0] == [] && Targets(one, u) == Targets(one[..0], u) + [edges[k].to];
  }

  ghost predicate CountsPending(edges: seq<Edge>, done: set<nat>, inDeg: map<nat, int>) {
    forall v :: v in inDeg ==> inDeg[v] == Pending(edges, v, done)
  }

  ghost predicate IsAdjacency(edges: seq<Edge>, adj: map<nat, seq<nat>>) {
    forall u :: u in adj ==> adj[u] == Targets(edges, u)
  }

  lemma CountOneMore(edges: seq<Edge>, e: Edge, inDeg: map<nat, int>, adj: map<nat, seq<nat>>)
    requires CountsPending(edges, {}, inDeg) && IsAdjacency(edges, adj)
    requires e.to in inDeg && e.from in adj
    ensures CountsPending(edges + [e], {}, if e.structural then inDeg else inDeg[e.to := inDeg[e.to] + 1])
    ensures IsAdjacency(edges + [e], if e.structural then adj else adj[e.from := adj[e.from] + [e.to]])
  {
    assert (edges + [e])[..|edges|] == edges;
  }

  /** The in-degrees and adjacency lists before any node is done. */
  method CountDegrees(ids: seq<nat>, edges: seq<Edge>)
    returns (inDeg: map<nat, int>, adj: map<nat, seq<nat>>)
    requires EndpointsIn(ids, edges)
    ensures inDeg.Keys == adj.Keys == Elements(ids)
    ensures CountsPending(edges, {}, inDeg) && IsAdjacency(edges, adj)
  {
    inDeg, adj := map[], map[];
    for k := 0 to |ids|
      invariant inDeg.Keys == adj.Keys == Elements(ids[..k])
      invariant CountsPending([], {}, inDeg) && IsAdjacency([], adj)
    {
      assert ids[..k + 1] == ids[..k] + [ids[k]];
      inDeg, adj := inDeg[ids[k] := 0], adj[ids[k] := []];
    }
    assert ids[..|ids|] == ids;
    for k := 0 to |edges|
      invariant inDeg.Keys == adj.Keys == Elements(ids)
      invariant CountsPending(edges[..k], {}, inDeg) && IsAdjacency(edges[..k], adj)
    {
      var e := edges[k];
      assert e in edges;
      assert edges[..k + 1] == edges[..k] + [e];
      CountOneMore(edges[..k], e, inDeg, adj);
      if e.structural { continue; }
      adj := adj[e.from := adj[e.from] + [e.to]];
      inDeg := inDeg[e.to := inDeg[e.to] + 1];
    }
    assert edges[..|edges|] == edges;
  }

  /** `nq` holds the nodes whose degree has dropped to zero since `inDeg0`. */
  ghost predicate Released(inDeg0: map<nat, int>, inDeg: map<nat, int>, nq: seq<nat>) {
    && inDeg.Keys == inDeg0.Keys
    && (forall v :: v in inDeg ==> inDeg[v] <= inDeg0[v])
    && NoDup(nq)
    && forall v: nat :: v in nq <==> v in inDeg && inDeg0[v] > 0 && inDeg[v] == 0
  }

  /** Each degree exceeds its value in `final` by its occurrences in the targets to come. */
  ghost predicate Owes(inDeg: map<nat, int>, final: map<nat, int>, rest: seq<nat>) {
    && inDeg.Keys == final.Keys
    && forall v :: v in inDeg ==> inDeg[v] == final[v] + multiset(rest)[v] && final[v] >= 0
  }

  lemma ReleaseOne(inDeg0: map<nat, int>, inDeg: map<nat, int>, nq: seq<nat>,
                   final: map<nat, int>, nb: nat, rest: seq<nat>)
    requires Released(inDeg0, inDeg, nq) && nb in inDeg
    requires Owes(inDeg, final, [nb] + rest)
    ensures var less := inDeg[nb := inDeg[nb] - 1];
      && Owes(less, final, rest)
      && Released(inDeg0, less, if less[nb] == 0 then nq + [nb] else nq)
  {
    assert multiset([nb] + rest)[nb] >= 1;
    var less := inDeg[nb := inDeg[nb] - 1];
    assert Owes(less, final, rest);
  }

  // ----- the order in which nodes are released

  /** The last time that v is listed, w is still to come. */
  ghost predicate LastBefore(targets: seq<nat>, v: nat, w: nat) {
    exists y :: 0 <= y < |targets| && targets[y] == w && v in targets[..y] && v !in targets[y..]
  }

  /** Only targets, in the order in which they are listed for the last time. */
  ghost predicate InTargetOrder(targets: seq<nat>, added: seq<nat>) {
    && (forall v :: v in added ==> v in targets)
    && forall a, b :: 0 <= a < b < |added| ==> LastBefore(targets, added[a], added[b])
  }

  /** The targets that lose their last pending input. */
  function ReleasedBy(targets: seq<nat>, inDeg: map<nat, int>): seq<nat>
    requires forall v :: v in targets ==> v in inDeg
  {
    if targets == [] then []
    else
      var nb := targets[0];
      var less := inDeg[nb := inDeg[nb] - 1];
      (if less[nb] == 0 then [nb] else []) + ReleasedBy(targets[1..], less)
  }

  lemma LastBeforeSkip(nb: nat, targets: seq<nat>, v: nat, w: nat)
    requires LastBefore(targets, v, w)
    ensures LastBefore([nb] + targets, v, w)
  {
    var y :| 0 <= y < |targets| && targets[y] == w && v in targets[..y] && v !in targets[y..];
    var more := [nb] + targets;
    assert more[..y + 1] == [nb] + targets[..y] && more[y + 1..] == targets[y..] && more[y + 1] == w;
  }

  lemma LastBeforeRest(nb: nat, targets: seq<nat>, w: nat)
    requires nb !in targets && w in targets
    ensures LastBefore([nb] + targets, nb, w)
  {
    var y :| 0 <= y < |targets| && targets[y] == w;
    var more := [nb] + targets;
    assert more[..y + 1] == [nb] + targets[..y] && more[y + 1..] == targets[y..] && more[y + 1] == w;
  }

  lemma TargetOrderSkip(nb: nat, targets: seq<nat>, added: seq<nat>)
    requires InTargetOrder(targets, added)
    ensures InTargetOrder([nb] + targets, added)
    ensures nb !in targets ==> InTargetOrder([nb] + targets, [nb] + added)
  {
    forall a, b | 0 <= a < b < |added| ensures LastBefore([nb] + targets, added[a], added[b]) {
      LastBeforeSkip(nb, targets, added[a], added[b]);
    }
    var more := [nb] + added;
    if nb !in targets {
      forall a, b | 0 <= a < b < |more| ensures LastBefore([nb] + targets, more[a], more[b]) {
        if a == 0 {
          assert added[b - 1] in added;
          LastBeforeRest(nb, targets, more[b]);
        } else {
          assert more[a] == added[a - 1] && more[b] == added[b - 1];
        }
      }
    }
  }

  lemma {:induction false} ReleasedInTargetOrder(targets: seq<nat>, inDeg: map<nat, int>, final: map<nat, int>)
    requires (forall v :: v in targets ==> v in inDeg) && Owes(inDeg, final, targets)
    ensures InTargetOrder(targets, ReleasedBy(targets, inDeg))
    decreases |targets|
  {
    if targets != [] {
      var nb, rest := targets[0], targets[1..];
      var less := inDeg[nb := inDeg[nb] - 1];
      assert targets == [nb] + rest;
      OweOneLess(inDeg, final, nb, rest);
      ReleasedInTargetOrder(rest, less, final);
      TargetOrderSkip(nb, rest, ReleasedBy(rest, less));
    }
  }

  lemma OweOneLess(inDeg: map<nat, int>, final: map<nat, int>, nb: nat, rest: seq<nat>)
    requires nb in inDeg && Owes(inDeg, final, [nb] + rest)
    ensures var less := inDeg[nb := inDeg[nb] - 1];
      Owes(less, final, rest) && (less[nb] == 0 ==> nb !in rest)
  {
    assert multiset([nb] + rest) == multiset{nb} + multiset(rest);
    assert nb in rest ==> multiset(rest)[nb] > 0;
  }

  /** Of the nodes of q, number p feeds v, and none after it does. */
  ghost predicate LastFedBy(edges: seq<Edge>, q: seq<nat>, v: nat, p: nat) {
    p < |q| && Feeds(edges, q[p], v) && forall r :: p < r < |q| ==> !Feeds(edges, q[r], v)
  }

  ghost predicate DiscoveredAt(edges: seq<Edge>, q: seq<nat>, v: nat, p: nat, w: nat, r: nat) {
    && LastFedBy(edges, q, v, p) && LastFedBy(edges, q, w, r)
    && (p < r || (p == r && LastBefore(Targets(edges, q[p]), v, w)))
  }

  /** The last node of q that feeds v comes before that of w; if it is the same one, it lists v first. */
  ghost predicate DiscoveredBefore(edges: seq<Edge>, q: seq<nat>, v: nat, w: nat) {
    exists p: nat, r: nat :: DiscoveredAt(edges, q, v, p, w, r)
  }

  ghost predicate InDiscoveryOrder(edges: seq<Edge>, q: seq<nat>, nq: seq<nat>) {
    forall a, b :: 0 <= a < b < |nq| ==> DiscoveredBefore(edges, q, nq[a], nq[b])
  }

  ghost predicate LastFedAbove(edges: seq<Edge>, q: seq<nat>, v: nat, i: nat) {
    exists p: nat :: p < i && LastFedBy(edges, q, v, p)
  }

  /** The nodes that number i of q releases are discovered after those released so far. */
  lemma DiscoverMore(edges: seq<Edge>, q: seq<nat>, nq: seq<nat>, added: seq<nat>, i: nat)
    requires i < |q| && InDiscoveryOrder(edges, q, nq)
    requires forall v :: v in nq ==> LastFedAbove(edges, q, v, i)
    requires forall v :: v in added ==> LastFedBy(edges, q, v, i)
    requires InTargetOrder(Targets(edges, q[i]), added)
    ensures InDiscoveryOrder(edges, q, nq + added)
    ensures forall v :: v in nq + added ==> LastFedAbove(edges, q, v, i + 1)
  {
    var all := nq + added;
    forall a, b | 0 <= a < b < |all| ensures DiscoveredBefore(edges, q, all[a], all[b]) {
      if b >= |nq| {
        assert all[b] in added;
        if a < |nq| {
          assert all[a] in nq && LastFedAbove(edges, q, all[a], i);
          var p: nat :| p < i && LastFedBy(edges, q, all[a], p);
          assert DiscoveredAt(edges, q, all[a], p, all[b], i);
        } else {
          assert all[a] in added;
          assert DiscoveredAt(edges, q, all[a], i, all[b], i);
        }
      }
    }
    forall v | v in all ensures LastFedAbove(edges, q, v, i + 1) {
      if v in nq {
        assert LastFedAbove(edges, q, v, i);
      }
    }
  }

  /** A target whose last pending input is settled by number i of q. */
  lemma SettledLast(edges: seq<Edge>, before: set<nat>, q: seq<nat>, i: nat, v: nat)
    requires i < |q| && NoDup(q) && (forall id :: id in q ==> id !in before)
    requires v in Targets(edges, q[i]) && Pending(edges, v, before + Elements(q[..i + 1])) == 0
    ensures LastFedBy(edges, q, v, i)
  {
    TargetsAreFed(edges, q[i], v);
    PendingIsZero(edges, v, before + Elements(q[..i + 1]));
    forall r | i < r < |q| ensures !Feeds(edges, q[r], v) {
      assert q[r] in q && q[r] !in q[..i + 1];
    }
  }

  /** The degrees when every target has lost one pending input for each time it is listed. */
  function Lessened(targets: seq<nat>, inDeg: map<nat, int>): map<nat, int>
    requires forall v :: v in targets ==> v in inDeg
  {
    if targets == [] then inDeg
    else
      var nb := targets[0];
      Lessened(targets[1..], inDeg[nb := inDeg[nb] - 1])
  }

  /** The innermost loop: every target of the node in hand loses one pending input. */
  method FinishNode(targets: seq<nat>, inDegBefore: map<nat, int>, nqBefore: seq<nat>)
    returns (nq: seq<nat>, inDeg: map<nat, int>)
    requires forall v :: v in targets ==> v in inDegBefore
    ensures inDeg == Lessened(targets, inDegBefore) && nq == nqBefore + ReleasedBy(targets, inDegBefore)
  {
    nq, inDeg := nqBefore, inDegBefore;
    assert targets[0..] == targets;
    for j := 0 to |targets|
      invariant forall v :: v in targets ==> v in inDeg
      invariant Lessened(targets[j..], inDeg) == Lessened(targets, inDegBefore)
      invariant nq + ReleasedBy(targets[j..], inDeg) == nqBefore + ReleasedBy(targets, inDegBefore)
    {
      var nb := targets[j];
      ReleaseStep(targets, j, inDeg, nq);
      inDeg := inDeg[nb := inDeg[nb] - 1];
      if inDeg[nb] == 0 {
        nq := nq + [nb];
      }
    }
  }

  lemma ReleaseStep(targets: seq<nat>, j: nat, inDeg: map<nat, int>, nq: seq<nat>)
    requires j < |targets| && forall v :: v in targets ==> v in inDeg
    ensures var nb := targets[j]; var less := inDeg[nb := inDeg[nb] - 1];
      && Lessened(targets[j..], inDeg) == Lessened(targets[j + 1..], less)
      && (if less[nb] == 0 then nq + [nb] else nq) + ReleasedBy(targets[j + 1..], less) ==
         nq + ReleasedBy(targets[j..], inDeg)
  {
    assert targets[j..][1..] == targets[j + 1..];
  }

  ghost predicate Paid(targets: seq<nat>, inDeg0: map<nat, int>, inDeg: map<nat, int>, nq: seq<nat>,
                       final: map<nat, int>)
    requires forall v :: v in targets ==> v in inDeg
  {
    Lessened(targets, inDeg) == final && Released(inDeg0, final, nq + ReleasedBy(targets, inDeg))
  }

  lemma NothingOwed(inDeg0: map<nat, int>, inDeg: map<nat, int>, nq: seq<nat>, final: map<nat, int>)
    requires Owes(inDeg, final, []) && Released(inDeg0, inDeg, nq)
    ensures Paid([], inDeg0, inDeg, nq, final)
  {
    assert nq + [] == nq && inDeg == final;
  }

  lemma PayFirst(nb: nat, rest: seq<nat>, inDeg0: map<nat, int>, inDeg: map<nat, int>, nq: seq<nat>,
                 final: map<nat, int>)
    requires nb in inDeg && forall v :: v in rest ==> v in inDeg
    requires var less := inDeg[nb := inDeg[nb] - 1];
      Paid(rest, inDeg0, less, if less[nb] == 0 then nq + [nb] else nq, final)
    ensures Paid([nb] + rest, inDeg0, inDeg, nq, final)
  {
    ReleaseStep([nb] + rest, 0, inDeg, nq);
    assert ([nb] + rest)[1..] == rest && ([nb] + rest)[0..] == [nb] + rest;
  }

  /** What the targets are owed is paid, and what they release is released. */
  lemma {:induction false} TargetsPaid(targets: seq<nat>, inDeg0: map<nat, int>, inDeg: map<nat, int>, nq: seq<nat>,
                                       final: map<nat, int>)
    requires (forall v :: v in targets ==> v in inDeg) && Owes(inDeg, final, targets) && Released(inDeg0, inDeg, nq)
    ensures Paid(targets, inDeg0, inDeg, nq, final)
    decreases |targets|
  {
    if targets == [] {
      NothingOwed(inDeg0, inDeg, nq, final);
    } else {
      var nb, rest := targets[0], targets[1..];
      var less := inDeg[nb := inDeg[nb] - 1];
      assert targets == [nb] + rest;
      ReleaseOne(inDeg0, inDeg, nq, final, nb, rest);
      TargetsPaid(rest, inDeg0, less, if less[nb] == 0 then nq + [nb] else nq, final);
      PayFirst(nb, rest, inDeg0, inDeg, nq, final);
    }
  }

  ghost function PendingMap(edges: seq<Edge>, done: set<nat>, keys: set<nat>): (m: map<nat, int>) {
    map v | v in keys :: Pending(edges, v, done)
  }

  lemma OwesTargets(edges: seq<Edge>, done: set<nat>, id: nat, inDeg: map<nat, int>)
    requires CountsPending(edges, done, inDeg) && id !in done
    ensures Owes(inDeg, PendingMap(edges, done + {id}, inDeg.Keys), Targets(edges, id))
  {
    forall v: nat | v in inDeg ensures inDeg[v] == Pending(edges, v, done + {id}) + multiset(Targets(edges, id))[v] {
      PendingAfter(edges, v, done, id);
    }
  }

  /** The first i nodes of q are finished; nq holds what they have released, in order. */
  ghost predicate Finishing(edges: seq<Edge>, before: set<nat>, q: seq<nat>, i: nat,
                            inDeg0: map<nat, int>, inDeg: map<nat, int>, nq: seq<nat>)
    requires i <= |q|
  {
    && CountsPending(edges, before + Elements(q[..i]), inDeg)
    && Released(inDeg0, inDeg, nq)
    && InDiscoveryOrder(edges, q, nq)
    && forall v :: v in nq ==> LastFedAbove(edges, q, v, i)
  }

  lemma AddedAreSettled(edges: seq<Edge>, before: set<nat>, q: seq<nat>, i: nat,
                        inDeg0: map<nat, int>, inDeg: map<nat, int>, nq: seq<nat>, added: seq<nat>)
    requires i < |q| && NoDup(q) && forall id :: id in q ==> id !in before
    requires CountsPending(edges, before + Elements(q[..i + 1]), inDeg) && Released(inDeg0, inDeg, nq + added)
    requires forall v :: v in added ==> v in Targets(edges, q[i])
    ensures forall v :: v in added ==> LastFedBy(edges, q, v, i)
  {
    forall v | v in added ensures LastFedBy(edges, q, v, i) {
      assert v in nq + added;
      SettledLast(edges, before, q, i, v);
    }
  }

  lemma ElementsOneMore(before: set<nat>, q: seq<nat>, i: nat)
    requires i < |q|
    ensures before + Elements(q[..i + 1]) == before + Elements(q[..i]) + {q[i]}
    ensures NoDup(q) ==> q[i] !in q[..i]
  {
    assert q[..i + 1] == q[..i] + [q[i]];
  }

  /** Finishing node number i of the level. */
  method FinishNumber(ghost edges: seq<Edge>, ghost before: set<nat>, q: seq<nat>, i: nat, targets: seq<nat>,
                      inDegBefore: map<nat, int>, nqBefore: seq<nat>, ghost inDeg0: map<nat, int>)
    returns (nq: seq<nat>, inDeg: map<nat, int>)
    requires i < |q| && NoDup(q) && (forall id :: id in q ==> id !in before) && targets == Targets(edges, q[i])
    requires forall v :: v in targets ==> v in inDegBefore
    requires Finishing(edges, before, q, i, inDeg0, inDegBefore, nqBefore)
    ensures Finishing(edges, before, q, i + 1, inDeg0, inDeg, nq)
  {
    ghost var done := before + Elements(q[..i]);
    ghost var final := PendingMap(edges, done + {q[i]}, inDegBefore.Keys);
    ElementsOneMore(before, q, i);
    OwesTargets(edges, done, q[i], inDegBefore);
    ReleasedInTargetOrder(targets, inDegBefore, final);
    TargetsPaid(targets, inDeg0, inDegBefore, nqBefore, final);
    nq, inDeg := FinishNode(targets, inDegBefore, nqBefore);
    FinishedNumber(edges, before, q, i, inDeg0, inDeg, nqBefore, ReleasedBy(targets, inDegBefore));
  }

  lemma FinishedNumber(edges: seq<Edge>, before: set<nat>, q: seq<nat>, i: nat, inDeg0: map<nat, int>,
                       inDeg: map<nat, int>, nq: seq<nat>, added: seq<nat>)
    requires i < |q| && NoDup(q) && (forall id :: id in q ==> id !in before)
    requires InDiscoveryOrder(edges, q, nq) && forall v :: v in nq ==> LastFedAbove(edges, q, v, i)
    requires inDeg == PendingMap(edges, before + Elements(q[..i]) + {q[i]}, inDeg.Keys)
    requires Released(inDeg0, inDeg, nq + added)
    requires InTargetOrder(Targets(edges, q[i]), added)
    ensures Finishing(edges, before, q, i + 1, inDeg0, inDeg, nq + added)
  {
    ElementsOneMore(before, q, i);
    AddedAreSettled(edges, before, q, i, inDeg0, inDeg, nq, added);
    DiscoverMore(edges, q, nq, added, i);
  }

  /** The two loops that finish one level. */
  method FinishLevel(ghost edges: seq<Edge>, ghost before: set<nat>,
                     q: seq<nat>, adj: map<nat, seq<nat>>, inDegBefore: map<nat, int>)
    returns (nq: seq<nat>, inDeg: map<nat, int>)
    requires NoDup(q) && forall id :: id in q ==> id in adj && id !in before
    requires inDegBefore.Keys == adj.Keys
    requires forall u, v :: u in adj && v in adj[u] ==> v in adj
    requires CountsPending(edges, before, inDegBefore) && IsAdjacency(edges, adj)
    ensures CountsPending(edges, before + Elements(q), inDeg)
    ensures Released(inDegBefore, inDeg, nq) && InDiscoveryOrder(edges, q, nq)
  {
    nq, inDeg := [], inDegBefore;
    assert before + Elements(q[..0]) == before;
    for i := 0 to |q|
      invariant Finishing(edges, before, q, i, inDegBefore, inDeg, nq)
    {
      assert q[i] in q;
      nq, inDeg := FinishNumber(edges, before, q, i, adj[q[i]], inDeg, nq, inDegBefore);
    }
    assert q[..|q|] == q;
  }

  /** The levels so far are the ranks so far, and each id is listed once. */
  ghost predicate LevelsAre(levels: seq<seq<nat>>, rank: map<nat, nat>) {
    && (forall k, v: nat :: 0 <= k < |levels| ==> (v in levels[k] <==> v in rank && rank[v] == k))
    && (forall v :: v in rank ==> rank[v] < |levels|)
    && (forall k :: 0 <= k < |levels| ==> levels[k] != [] && NoDup(levels[k]))
  }

  /** q holds the nodes of the next level, each fed by the level before it. */
  ghost predicate IsFrontier(ids: seq<nat>, edges: seq<Edge>, rank: map<nat, nat>, n: nat, q: seq<nat>) {
    && NoDup(q)
    && (forall v: nat :: v in q <==> v in ids && v !in rank && Pending(edges, v, rank.Keys) == 0)
    && (n > 0 ==> forall v: nat :: v in q ==> FedFromLevel(edges, rank, n - 1, v))
  }

  ghost function RankLevel(rank: map<nat, nat>, q: seq<nat>, n: nat): map<nat, nat> {
    rank + map v: nat | v in q :: n
  }

  lemma FedFromLevelKept(edges: seq<Edge>, rank: map<nat, nat>, next: map<nat, nat>, k: int, v: nat)
    requires FedFromLevel(edges, rank, k, v)
    requires forall u :: u in rank ==> u in next && next[u] == rank[u]
    ensures FedFromLevel(edges, next, k, v)
  {
    var u: nat :| Feeds(edges, u, v) && u in rank && rank[u] == k;
    assert u in next && next[u] == k;
  }

  lemma RankNextLevel(ids: seq<nat>, edges: seq<Edge>, rank: map<nat, nat>, n: nat, q: seq<nat>)
    requires IsRanking(edges, rank) && IsFrontier(ids, edges, rank, n, q)
    requires forall v :: v in rank ==> rank[v] < n
    ensures IsRanking(edges, RankLevel(rank, q, n))
  {
    var next := RankLevel(rank, q, n);
    forall u: nat, v: nat | v in next && Feeds(edges, u, v) ensures u in next && next[u] < next[v] {
      if v in q {
        PendingIsZero(edges, v, rank.Keys);
      }
    }
    forall v | v in next && next[v] > 0
      ensures FedFromLevel(edges, next, next[v] - 1, v)
    {
      assert FedFromLevel(edges, rank, next[v] - 1, v);
      FedFromLevelKept(edges, rank, next, next[v] - 1, v);
    }
  }

  lemma ListNextLevel(levels: seq<seq<nat>>, rank: map<nat, nat>, q: seq<nat>)
    requires LevelsAre(levels, rank) && NoDup(q) && q != [] && forall v :: v in q ==> v !in rank
    ensures LevelsAre(levels + [q], RankLevel(rank, q, |levels|))
  {
  }

  lemma NextFrontier(ids: seq<nat>, edges: seq<Edge>, rank: map<nat, nat>, n: nat, q: seq<nat>,
                     inDeg0: map<nat, int>, inDeg: map<nat, int>, nq: seq<nat>)
    requires IsFrontier(ids, edges, rank, n, q) && forall v :: v in rank ==> v in ids
    requires inDeg0.Keys == inDeg.Keys == Elements(ids)
    requires CountsPending(edges, rank.Keys, inDeg0)
    requires CountsPending(edges, rank.Keys + Elements(q), inDeg)
    requires Released(inDeg0, inDeg, nq)
    requires forall v :: v in rank ==> Pending(edges, v, rank.Keys) == 0
    ensures IsFrontier(ids, edges, RankLevel(rank, q, n), n + 1, nq)
  {
    var next := RankLevel(rank, q, n);
    assert next.Keys == rank.Keys + Elements(q);
    forall v: nat | v in nq ensures FedFromLevel(edges, next, n, v) {
      PendingIsZero(edges, v, rank.Keys);
      PendingIsZero(edges, v, next.Keys);
      var u: nat :| Feeds(edges, u, v) && u !in rank;
      assert u in q && next[u] == n;
    }
  }

  /** What is left when no node is free: each one still waits for another of them. */
  lemma LeftoversFeedThemselves(ids: seq<nat>, edges: seq<Edge>, rank: map<nat, nat>, n: nat)
    requires EndpointsIn(ids, edges) && IsFrontier(ids, edges, rank, n, [])
    ensures SelfFeeding(edges, Elements(ids) - rank.Keys)
  {
    var rest := Elements(ids) - rank.Keys;
    forall v: nat | v in rest ensures HasFeeder(edges, rest, v) {
      assert v !in [];
      PendingIsZero(edges, v, rank.Keys);
      var u: nat :| Feeds(edges, u, v) && u !in rank;
      assert Edge(u, v, false) in edges && u in rest;
    }
  }

  /** Level k of node v is right: cycle-fed nodes share the last level, others sit at their depth. */
  ghost predicate IsLevelOf(edges: seq<Edge>, levels: seq<seq<nat>>, k: nat, v: nat)
    requires k < |levels|
  {
    if CycleFed(edges, v) then k == |levels| - 1 && forall u :: u in levels[k] ==> CycleFed(edges, u)
    else IsLongest(edges, v, k)
  }

  /** Every id is listed exactly once, no level is empty, and every node is in its level. */
  ghost predicate IsTopoLevels(ids: seq<nat>, edges: seq<Edge>, levels: seq<seq<nat>>) {
    && NoDup(Flat(levels)) && Elements(Flat(levels)) == Elements(ids)
    && (forall k :: 0 <= k < |levels| ==> levels[k] != [])
    && (forall k, v :: 0 <= k < |levels| && v in levels[k] ==> IsLevelOf(edges, levels, k, v))
  }

  // ----- the order inside a level

  ghost predicate InIdOrder(ids: seq<nat>, level: seq<nat>) {
    forall i, j :: 0 <= i < j < |level| ==> ListedBefore(ids, level[i], level[j])
  }

  ghost predicate HasCycleFed(edges: seq<Edge>, level: seq<nat>) {
    exists v :: v in level && CycleFed(edges, v)
  }

  /**
   The first level and the level of the cycle-fed nodes are in the order of the ids; any
   other is in the order in which finishing the level before it discovers its nodes.
   */
  ghost predicate IsListedLevel(ids: seq<nat>, edges: seq<Edge>, levels: seq<seq<nat>>, k: nat)
    requires k < |levels|
  {
    if k == 0 || HasCycleFed(edges, levels[k]) then InIdOrder(ids, levels[k])
    else InDiscoveryOrder(edges, levels[k - 1], levels[k])
  }

  ghost predicate AreListed(ids: seq<nat>, edges: seq<Edge>, levels: seq<seq<nat>>) {
    forall k :: 0 <= k < |levels| ==> IsListedLevel(ids, edges, levels, k)
  }

  /** The levels so far, and the next one, in the order in which they have been found. */
  ghost predicate AreFound(ids: seq<nat>, edges: seq<Edge>, levels: seq<seq<nat>>, q: seq<nat>) {
    var all := levels + [q];
    && InIdOrder(ids, all[0])
    && forall k :: 1 <= k < |all| ==> InDiscoveryOrder(edges, all[k - 1], all[k])
  }

  lemma FoundOneMore(ids: seq<nat>, edges: seq<Edge>, levels: seq<seq<nat>>, q: seq<nat>, nq: seq<nat>)
    requires AreFound(ids, edges, levels, q) && InDiscoveryOrder(edges, q, nq)
    ensures AreFound(ids, edges, levels + [q], nq)
  {
    var before, all := levels + [q], levels + [q] + [nq];
    forall k | 1 <= k < |all| ensures InDiscoveryOrder(edges, all[k - 1], all[k]) {
      if k < |before| {
        assert InDiscoveryOrder(edges, before[k - 1], before[k]);
      }
    }
  }

  /** When no node is free, what has been found is listed, with the rest behind it. */
  lemma FoundAreListed(ids: seq<nat>, edges: seq<Edge>, levels: seq<seq<nat>>, rank: map<nat, nat>, rest: seq<nat>)
    requires EndpointsIn(ids, edges) && Peeled(ids, edges, levels, rank, []) && AreFound(ids, edges, levels, [])
    requires InIdOrder(ids, rest) && forall v :: v in rest <==> v in ids && v !in rank
    ensures AreListed(ids, edges, if rest == [] then levels else levels + [rest])
  {
    var all := if rest == [] then levels else levels + [rest];
    forall k | 0 <= k < |all| ensures IsListedLevel(ids, edges, all, k) {
      if k < |levels| {
        FoundLevelIsListed(ids, edges, levels, rank, k);
        assert all[k] == levels[k] && (k > 0 ==> all[k - 1] == levels[k - 1]);
      } else {
        assert rest[0] in rest;
        RanksDecide(ids, edges, levels, rank, rest[0]);
      }
    }
  }

  lemma FoundLevelIsListed(ids: seq<nat>, edges: seq<Edge>, levels: seq<seq<nat>>, rank: map<nat, nat>, k: nat)
    requires EndpointsIn(ids, edges) && Peeled(ids, edges, levels, rank, []) && AreFound(ids, edges, levels, [])
    requires k < |levels|
    ensures IsListedLevel(ids, edges, levels, k)
  {
    assert (levels + [[]])[k] == levels[k];
    if k > 0 {
      assert InDiscoveryOrder(edges, (levels + [[]])[k - 1], (levels + [[]])[k]);
      forall v | v in levels[k] ensures !CycleFed(edges, v) {
        RankedIsNotCycleFed(edges, rank, v);
      }
    }
  }

  lemma InOrderSkip(x: nat, ids: seq<nat>, level: seq<nat>)
    requires InIdOrder(ids, level)
    ensures InIdOrder([x] + ids, level)
  {
    forall i, j | 0 <= i < j < |level| ensures ListedBefore([x] + ids, level[i], level[j]) {
      assert ListedBefore(ids, level[i], level[j]);
      var a, b :| 0 <= a < b < |ids| && ids[a] == level[i] && ids[b] == level[j];
      assert ([x] + ids)[a + 1] == level[i] && ([x] + ids)[b + 1] == level[j];
    }
  }

  lemma InOrderCons(x: nat, ids: seq<nat>, level: seq<nat>)
    requires InIdOrder(ids, level) && forall v :: v in level ==> v in ids
    ensures InIdOrder([x] + ids, [x] + level)
  {
    InOrderSkip(x, ids, level);
    var more := [x] + level;
    forall i, j | 0 <= i < j < |more| ensures ListedBefore([x] + ids, more[i], more[j]) {
      if i == 0 {
        assert more[j] in level;
        var b :| 0 <= b < |ids| && ids[b] == more[j];
        assert ([x] + ids)[0] == x && ([x] + ids)[b + 1] == more[j];
      } else {
        assert more[i] == level[i - 1] && more[j] == level[j - 1];
      }
    }
  }

  lemma {:induction false} WithoutInOrder(ids: seq<nat>, visited: set<nat>)
    ensures InIdOrder(ids, Without(ids, visited))
  {
    if ids != [] {
      assert ids == [ids[0]] + ids[1..];
      WithoutInOrder(ids[1..], visited);
      InOrderSkip(ids[0], ids[1..], Without(ids[1..], visited));
      InOrderCons(ids[0], ids[1..], Without(ids[1..], visited));
    }
  }

  lemma {:induction false} FreeInOrder(ids: seq<nat>, inDeg: map<nat, int>)
    requires forall v :: v in ids ==> v in inDeg
    ensures InIdOrder(ids, FreeNodes(ids, inDeg))
  {
    if ids != [] {
      assert ids == [ids[0]] + ids[1..];
      FreeInOrder(ids[1..], inDeg);
      InOrderSkip(ids[0], ids[1..], FreeNodes(ids[1..], inDeg));
      InOrderCons(ids[0], ids[1..], FreeNodes(ids[1..], inDeg));
    }
  }

  /** The loop invariant: ranks and levels agree, the frontier is next, nothing is listed twice. */
  ghost predicate Peeled(ids: seq<nat>, edges: seq<Edge>, levels: seq<seq<nat>>, rank: map<nat, nat>, q: seq<nat>) {
    && (forall v :: v in rank ==> v in ids && Pending(edges, v, rank.Keys) == 0)
    && IsRanking(edges, rank) && LevelsAre(levels, rank)
    && IsFrontier(ids, edges, rank, |levels|, q)
    && NoDup(Flat(levels)) && forall v :: v in Flat(levels) <==> v in rank
  }

  lemma PeelOneLevel(ids: seq<nat>, edges: seq<Edge>, levels: seq<seq<nat>>, rank: map<nat, nat>, q: seq<nat>,
                     inDeg0: map<nat, int>, inDeg: map<nat, int>, nq: seq<nat>)
    requires Peeled(ids, edges, levels, rank, q) && q != []
    requires inDeg0.Keys == inDeg.Keys == Elements(ids)
    requires CountsPending(edges, rank.Keys, inDeg0)
    requires CountsPending(edges, rank.Keys + Elements(q), inDeg)
    requires Released(inDeg0, inDeg, nq)
    ensures Peeled(ids, edges, levels + [q], RankLevel(rank, q, |levels|), nq)
  {
    var next := RankLevel(rank, q, |levels|);
    RankNextLevel(ids, edges, rank, |levels|, q);
    ListNextLevel(levels, rank, q);
    NextFrontier(ids, edges, rank, |levels|, q, inDeg0, inDeg, nq);
    FlatAppend(levels, q);
    NoDupAppend(Flat(levels), q);
    forall v | v in next ensures Pending(edges, v, next.Keys) == 0 {
      PendingIsZero(edges, v, rank.Keys);
      PendingIsZero(edges, v, next.Keys);
    }
  }

  /** When no node is free, the ranked nodes are at their depth and the others are cycle-fed. */
  lemma RanksDecide(ids: seq<nat>, edges: seq<Edge>, levels: seq<seq<nat>>, rank: map<nat, nat>, v: nat)
    requires EndpointsIn(ids, edges) && Peeled(ids, edges, levels, rank, []) && v in ids
    ensures CycleFed(edges, v) <==> v !in rank
    ensures v in rank ==> IsLongest(edges, v, rank[v])
  {
    if v in rank {
      RankedIsNotCycleFed(edges, rank, v);
      RankIsLongest(edges, rank, v);
    } else {
      LeftoversFeedThemselves(ids, edges, rank, |levels|);
      SelfFeedingIsCycleFed(edges, Elements(ids) - rank.Keys, v);
    }
  }

  lemma LeftoversLast(ids: seq<nat>, edges: seq<Edge>, levels: seq<seq<nat>>, rank: map<nat, nat>, rest: seq<nat>)
    requires EndpointsIn(ids, edges) && Peeled(ids, edges, levels, rank, [])
    requires NoDup(rest) && forall v :: v in rest <==> v in ids && v !in rank
    ensures IsTopoLevels(ids, edges, if rest == [] then levels else levels + [rest])
  {
    forall v | v in ids
      ensures CycleFed(edges, v) <==> v !in rank
      ensures v in rank ==> IsLongest(edges, v, rank[v])
    {
      RanksDecide(ids, edges, levels, rank, v);
    }
    FlatAppend(levels, rest);
    NoDupAppend(Flat(levels), rest);
    var all := if rest == [] then levels else levels + [rest];
    forall k, v | 0 <= k < |all| && v in all[k] ensures IsLevelOf(edges, all, k, v) {
      assert k < |levels| ==> v in levels[k];
    }
    assert rest == [] ==> Flat(levels) + rest == Flat(levels);
    assert Elements(Flat(all)) == Elements(ids);
  }

  /** The ids that have not been visited, in their order. */
  function Without(ids: seq<nat>, visited: set<nat>): (rest: seq<nat>)
    ensures forall v :: v in rest <==> v in ids && v !in visited
    ensures NoDup(ids) ==> NoDup(rest)
  {
    if ids == [] then []
    else
      var rest := Without(ids[1..], visited);
      assert ids == [ids[0]] + ids[1..];
      if ids[0] in visited then rest else [ids[0]] + rest
  }

  /** The ids without a data input, in their order. */
  function FreeNodes(ids: seq<nat>, inDeg: map<nat, int>): (q: seq<nat>)
    requires forall v :: v in ids ==> v in inDeg
    ensures forall v :: v in q <==> v in ids && inDeg[v] == 0
    ensures NoDup(ids) ==> NoDup(q)
  {
    if ids == [] then []
    else
      var q := FreeNodes(ids[1..], inDeg);
      assert ids == [ids[0]] + ids[1..];
      if inDeg[ids[0]] == 0 then [ids[0]] + q else q
  }

  method TopoLevels(ids: seq<nat>, edges: seq<Edge>) returns (levels: seq<seq<nat>>)
    requires NoDup(ids) && EndpointsIn(ids, edges)
    ensures IsTopoLevels(ids, edges, levels) && AreListed(ids, edges, levels)
  {
    var inDeg, adj := CountDegrees(ids, edges);
    forall u, v | u in adj && v in adj[u] ensures v in adj {
      TargetsAreFed(edges, u, v);
      assert Edge(u, v, false) in edges;
    }
    levels := [];
    var q := FreeNodes(ids, inDeg);
    FreeInOrder(ids, inDeg);
    var visited: set<nat> := {};
    ghost var rank: map<nat, nat> := map[];
    assert rank.Keys == visited;
    while |q| > 0
      invariant rank.Keys == visited
      invariant inDeg.Keys == adj.Keys && CountsPending(edges, visited, inDeg)
      invariant Peeled(ids, edges, levels, rank, q) && AreFound(ids, edges, levels, q)
      decreases Elements(ids) - visited
    {
      var nq, less := FinishLevel(edges, visited, q, adj, inDeg);
      PeelOneLevel(ids, edges, levels, rank, q, inDeg, less, nq);
      FoundOneMore(ids, edges, levels, q, nq);
      assert q[0] in Elements(ids) - visited;
      rank := RankLevel(rank, q, |levels|);
      levels := levels + [q];
      visited := visited + Elements(q);
      inDeg, q := less, nq;
    }
    var remaining := Without(ids, visited);
    WithoutInOrder(ids, visited);
    LeftoversLast(ids, edges, levels, rank, remaining);
    FoundAreListed(ids, edges, levels, rank, remaining);
    if |remaining| > 0 {
      levels := levels + [remaining];
    }
  }

  /** A data edge goes to a strictly later level, unless both ends hang off a cycle. */
  lemma DataEdgesClimb(ids: seq<nat>, edges: seq<Edge>, levels: seq<seq<nat>>, k: nat, u: nat, m: nat, v: nat)
    requires IsTopoLevels(ids, edges, levels)
    requires k < |levels| && u in levels[k] && m < |levels| && v in levels[m]
    requires Feeds(edges, u, v)
    ensures k < m || (CycleFed(edges, u) && CycleFed(edges, v) && k == m == |levels| - 1)
  {
    assert IsLevelOf(edges, levels, k, u) && IsLevelOf(edges, levels, m, v);
    if CycleFed(edges, u) {
      CyclesFeedOn(edges, u, v);
    } else {
      var p :| PathTo(edges, p, u) && |p| == k + 1;
      PathExtend(edges, p, v);
    }
  }

  /** The graph has a data cycle exactly when the last level holds cycle-fed nodes. */
  lemma CyclicIffLeftovers(ids: seq<nat>, edges: seq<Edge>, levels: seq<seq<nat>>)
    requires EndpointsIn(ids, edges) && IsTopoLevels(ids, edges, levels)
    ensures !Acyclic(edges) <==>
      levels != [] && forall v :: v in Last(levels) ==> CycleFed(edges, v)
  {
    AcyclicIffNothingFed(edges);
    if !Acyclic(edges) {
      var c :| IsCycle(edges, c);
      var v := c[0];
      assert Feeds(edges, c[0], c[1]);
      assert Reaches(edges, c, [v], v) && CycleFed(edges, v);
      assert v in Elements(Flat(levels));
      FlatElements(levels, v);
      var k :| 0 <= k < |levels| && v in levels[k];
      assert IsLevelOf(edges, levels, k, v);
    } else if levels != [] {
      assert Last(levels)[0] in Last(levels);
    }
  }

  /** Two positions of the flattened levels lie in levels of the same order. */
  lemma {:induction false} FlatLevelOf(levels: seq<seq<nat>>, i: nat, j: nat) returns (k: nat, m: nat)
    requires i <= j < |Flat(levels)|
    ensures k <= m < |levels| && Flat(levels)[i] in levels[k] && Flat(levels)[j] in levels[m]
    decreases |levels|
  {
    var init := levels[..|levels| - 1];
    if j < |Flat(init)| {
      k, m := FlatLevelOf(init, i, j);
    } else {
      m := |levels| - 1;
      if i < |Flat(init)| {
        var same;
        k, same := FlatLevelOf(init, i, i);
      } else {
        k := m;
      }
    }
  }

  /** The levels read in sequence list every node without a cycle behind it after the nodes that feed it. */
  lemma LevelsOrderUncycled(ids: seq<nat>, edges: seq<Edge>, levels: seq<seq<nat>>)
    requires IsTopoLevels(ids, edges, levels)
    ensures Ordered(edges, Flat(levels), Uncycled(edges, ids))
  {
    var order := Flat(levels);
    forall i, j | 0 <= i < |order| && 0 <= j < |order| && !CycleFed(edges, order[j]) && Feeds(edges, order[i], order[j])
      ensures i < j
    {
      if j <= i {
        var m, k := FlatLevelOf(levels, j, i);
        DataEdgesClimb(ids, edges, levels, k, order[i], m, order[j]);
      }
    }
  }

  lemma LevelsGiveDataOrder(ids: seq<nat>, edges: seq<Edge>, levels: seq<seq<nat>>)
    requires IsTopoLevels(ids, edges, levels) && Acyclic(edges)
    ensures IsDataOrder(edges, Flat(levels))
  {
    AcyclicIffNothingFed(edges);
    LevelsOrderUncycled(ids, edges, levels);
    assert forall v :: v in Elements(Flat(levels)) ==> v in Elements(ids);
  }
}
