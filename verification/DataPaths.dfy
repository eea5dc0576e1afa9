/**
 Paths along the data (non-structural) edges of an edge list, cycles, and the
 pigeonhole argument that finds a cycle among nodes that all have a predecessor.
 */
module DataPaths {
  import opened Common
  import opened IrGraph

  predicate Feeds(edges: seq<Edge>, from: nat, to: nat) {
    Edge(from, to, false) in edges
  }

  /** A non-empty list of nodes, each feeding the next; its length is |p| - 1 edges. */
  ghost predicate IsPath(edges: seq<Edge>, p: seq<nat>) {
    p != [] && forall i :: 0 <= i < |p| - 1 ==> Feeds(edges, p[i], p[i + 1])
  }

  ghost predicate IsCycle(edges: seq<Edge>, c: seq<nat>) {
    IsPath(edges, c) && |c| >= 2 && c[0] == Last(c)
  }

  ghost predicate Acyclic(edges: seq<Edge>) {
    forall c :: !IsCycle(edges, c)
  }

  /** A cycle and a path that leaves it and ends at v. */
  ghost predicate Reaches(edges: seq<Edge>, c: seq<nat>, p: seq<nat>, v: nat) {
    IsCycle(edges, c) && IsPath(edges, p) && p[0] == c[0] && Last(p) == v
  }

  /** v lies on a data cycle or is reachable from one. */
  ghost predicate CycleFed(edges: seq<Edge>, v: nat) {
    exists c, p :: Reaches(edges, c, p, v)
  }

  ghost predicate PathTo(edges: seq<Edge>, p: seq<nat>, v: nat) {
    IsPath(edges, p) && Last(p) == v
  }

  /** The longest data path that ends at v has k edges. */
  ghost predicate IsLongest(edges: seq<Edge>, v: nat, k: nat) {
    && (exists p :: PathTo(edges, p, v) && |p| == k + 1)
    && (forall p :: PathTo(edges, p, v) ==> |p| <= k + 1)
  }

  /** The nodes of `ids` are listed after the nodes that feed them, and no node twice. */
  ghost predicate Ordered(edges: seq<Edge>, order: seq<nat>, ids: set<nat>) {
    && NoDup(order)
    && forall i, j :: 0 <= i < |order| && 0 <= j < |order| && order[j] in ids && Feeds(edges, order[i], order[j]) ==>
         i < j
  }

  ghost predicate IsDataOrder(edges: seq<Edge>, order: seq<nat>) {
    Ordered(edges, order, Elements(order))
  }

  /** The nodes that lie neither on nor behind a data cycle. */
  ghost function Uncycled(edges: seq<Edge>, ids: seq<nat>): set<nat> {
    set v | v in ids && !CycleFed(edges, v)
  }

  lemma CyclesFeedOn(edges: seq<Edge>, u: nat, v: nat)
    requires CycleFed(edges, u) && Feeds(edges, u, v)
    ensures CycleFed(edges, v)
  {
    var c, p :| Reaches(edges, c, p, u);
    PathExtend(edges, p, v);
    assert Reaches(edges, c, p + [v], v);
  }

  lemma PathExtend(edges: seq<Edge>, p: seq<nat>, v: nat)
    requires IsPath(edges, p) && Feeds(edges, Last(p), v)
    ensures PathTo(edges, p + [v], v)
  {
    var q := p + [v];
    forall i | 0 <= i < |q| - 1 ensures Feeds(edges, q[i], q[i + 1]) {
      if i < |p| - 1 {
        assert Feeds(edges, p[i], p[i + 1]);
      }
    }
  }

  /**
   `rank` numbers the nodes of a set that is closed under predecessors: every edge into
   the set climbs, and a node of positive rank has a predecessor one below.
   */
  ghost predicate IsRanking(edges: seq<Edge>, rank: map<nat, nat>) {
    && (forall u: nat, v: nat :: v in rank && Feeds(edges, u, v) ==> u in rank && rank[u] < rank[v])
    && (forall v: nat {:trigger FedFromLevel(edges, rank, rank[v] - 1, v)} :: v in rank && rank[v] > 0 ==>
          FedFromLevel(edges, rank, rank[v] - 1, v))
  }

  ghost predicate FedFromLevel(edges: seq<Edge>, rank: map<nat, nat>, k: int, v: nat) {
    exists u: nat :: Feeds(edges, u, v) && u in rank && rank[u] == k
  }

  /** Ranks grow along a path that ends at a ranked node. */
  lemma {:induction false} RanksClimb(edges: seq<Edge>, rank: map<nat, nat>, p: seq<nat>)
    requires IsRanking(edges, rank) && IsPath(edges, p) && Last(p) in rank
    ensures p[0] in rank && rank[p[0]] + |p| - 1 <= rank[Last(p)]
    decreases |p|
  {
    if |p| > 1 {
      var init := p[..|p| - 1];
      assert Feeds(edges, p[|p| - 2], p[|p| - 1]);
      forall i | 0 <= i < |init| - 1 ensures Feeds(edges, init[i], init[i + 1]) {
        assert Feeds(edges, p[i], p[i + 1]);
      }
      RanksClimb(edges, rank, init);
    }
  }

  lemma {:induction false} RankedPath(edges: seq<Edge>, rank: map<nat, nat>, v: nat) returns (p: seq<nat>)
    requires IsRanking(edges, rank) && v in rank
    ensures PathTo(edges, p, v) && |p| == rank[v] + 1
    decreases rank[v]
  {
    if rank[v] == 0 {
      p := [v];
    } else {
      assert FedFromLevel(edges, rank, rank[v] - 1, v);
      var u: nat :| Feeds(edges, u, v) && u in rank && rank[u] == rank[v] - 1;
      var q := RankedPath(edges, rank, u);
      PathExtend(edges, q, v);
      p := q + [v];
    }
  }

  /** A rank is the length of the longest path. */
  lemma RankIsLongest(edges: seq<Edge>, rank: map<nat, nat>, v: nat)
    requires IsRanking(edges, rank) && v in rank
    ensures IsLongest(edges, v, rank[v])
  {
    var p := RankedPath(edges, rank, v);
    forall p | PathTo(edges, p, v) ensures |p| <= rank[v] + 1 {
      RanksClimb(edges, rank, p);
    }
  }

  /** No cycle leads to a ranked node. */
  lemma RankedIsNotCycleFed(edges: seq<Edge>, rank: map<nat, nat>, v: nat)
    requires IsRanking(edges, rank) && v in rank
    ensures !CycleFed(edges, v)
  {
    forall c, p | Reaches(edges, c, p, v) ensures false {
      RanksClimb(edges, rank, p);
      RanksClimb(edges, rank, c);
    }
  }

  /** Every node of `rest` has a predecessor in `rest`. */
  ghost predicate SelfFeeding(edges: seq<Edge>, rest: set<nat>) {
    forall v: nat {:trigger HasFeeder(edges, rest, v)} :: v in rest ==> HasFeeder(edges, rest, v)
  }

  ghost predicate HasFeeder(edges: seq<Edge>, rest: set<nat>, v: nat) {
    exists u: nat :: u in rest && Feeds(edges, u, v)
  }

  lemma {:induction false} LongPathBack(edges: seq<Edge>, rest: set<nat>, v: nat, n: nat) returns (p: seq<nat>)
    requires SelfFeeding(edges, rest) && v in rest
    ensures PathTo(edges, p, v) && |p| == n + 1 && forall x :: x in p ==> x in rest
    decreases n
  {
    if n == 0 {
      p := [v];
    } else {
      assert HasFeeder(edges, rest, v);
      var u: nat :| u in rest && Feeds(edges, u, v);
      var q := LongPathBack(edges, rest, u, n - 1);
      PathExtend(edges, q, v);
      p := q + [v];
    }
  }

  /** Walking back |rest| steps must meet some node twice: a cycle that leads to v. */
  lemma SelfFeedingIsCycleFed(edges: seq<Edge>, rest: set<nat>, v: nat)
    requires SelfFeeding(edges, rest) && v in rest
    ensures CycleFed(edges, v)
  {
    var p := LongPathBack(edges, rest, v, |rest|);
    if NoDup(p) {
      NoDupIsShort(p, rest);
    }
    var i, j :| 0 <= i < j < |p| && p[i] == p[j];
    var c, tail := p[i..j + 1], p[j..];
    assert forall k :: 0 <= k < |c| ==> c[k] == p[i + k];
    assert forall k :: 0 <= k < |tail| ==> tail[k] == p[j + k];
    assert IsPath(edges, c) by {
      forall k | 0 <= k < |c| - 1 ensures Feeds(edges, c[k], c[k + 1]) {
        assert Feeds(edges, p[i + k], p[i + k + 1]);
      }
    }
    assert IsPath(edges, tail) by {
      forall k | 0 <= k < |tail| - 1 ensures Feeds(edges, tail[k], tail[k + 1]) {
        assert Feeds(edges, p[j + k], p[j + k + 1]);
      }
    }
    assert Reaches(edges, c, tail, v);
  }

  /** Cycles and the nodes they feed appear together. */
  lemma AcyclicIffNothingFed(edges: seq<Edge>)
    ensures Acyclic(edges) <==> forall v: nat :: !CycleFed(edges, v)
  {
    if !Acyclic(edges) {
      var c :| IsCycle(edges, c);
      assert Reaches(edges, c, [c[0]], c[0]);
      assert CycleFed(edges, c[0]);
    }
  }
}
