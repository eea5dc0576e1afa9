/**
 What an inlined body computes: the value of an expression depends only on its leaves,
 in their order when the operation is associative, as a multiset when it is commutative too.
 Also the latency and depth of expressions, and the tree that a FIFO queue builds.
 */
module ReductionTrees {
  import opened Common
  import opened LoopCode

  predicate AssociatesAt(op: Op, x: int, y: int, z: int) {
    op(op(x, y), z) == op(x, op(y, z))
  }

  predicate CommutesAt(op: Op, x: int, y: int) {
    op(x, y) == op(y, x)
  }

  /** Stated through the predicates above so that the laws are only used where they are named. */
  ghost predicate Associative(op: Op) {
    forall x, y, z {:trigger AssociatesAt(op, x, y, z)} :: AssociatesAt(op, x, y, z)
  }

  ghost predicate Commutative(op: Op) {
    forall x, y {:trigger CommutesAt(op, x, y)} :: CommutesAt(op, x, y)
  }

  /** The leaves from left to right. */
  function Leaves(e: Expr): (s: seq<Expr>)
    ensures s != []
  {
    match e
    case Node(l, r) => Leaves(l) + Leaves(r)
    case _ => [e]
  }

  /** A block's leaves: the old result, then elements 0 to n - 1. */
  function BlockLeaves(n: nat): seq<Expr> {
    [Old] + Elems(0, n)
  }

  function Elems(from: nat, n: nat): (s: seq<Expr>)
    ensures |s| == n && forall k :: 0 <= k < n ==> s[k] == Leaf(from + k)
  {
    seq(n, k requires 0 <= k < n => Leaf(from + k))
  }

  function Fold1(op: Op, xs: seq<int>): int
    requires xs != []
  {
    LeftFold(op, xs[0], xs[1..])
  }

  function Values(op: Op, leaves: seq<Expr>, a: seq<int>, i: nat, result: int): (xs: seq<int>)
    ensures |xs| == |leaves|
    ensures forall k :: 0 <= k < |leaves| ==> xs[k] == ValueOf(op, leaves[k], a, i, result)
  {
    seq(|leaves|, k requires 0 <= k < |leaves| => ValueOf(op, leaves[k], a, i, result))
  }

  lemma Fold1Snoc(op: Op, xs: seq<int>, x: int)
    requires xs != []
    ensures Fold1(op, xs + [x]) == op(Fold1(op, xs), x)
  {
    assert (xs + [x])[1..] == xs[1..] + [x];
    assert (xs[1..] + [x])[..|xs| - 1] == xs[1..];
  }

  lemma {:induction false} Fold1Concat(op: Op, xs: seq<int>, ys: seq<int>)
    requires Associative(op) && xs != [] && ys != []
    ensures Fold1(op, xs + ys) == op(Fold1(op, xs), Fold1(op, ys))
  {
    var init, y := ys[..|ys| - 1], Last(ys);
    assert ys == init + [y];
    if init == [] {
      Fold1Snoc(op, xs, y);
    } else {
      Fold1Concat(op, xs, init);
      assert xs + ys == (xs + init) + [y];
      Fold1Snoc(op, xs + init, y);
      Fold1Snoc(op, init, y);
      assert AssociatesAt(op, Fold1(op, xs), Fold1(op, init), y);
    }
  }

  lemma ValuesConcat(op: Op, s: seq<Expr>, t: seq<Expr>, a: seq<int>, i: nat, result: int)
    ensures Values(op, s + t, a, i, result) == Values(op, s, a, i, result) + Values(op, t, a, i, result)
  {
  }

  /** Reassociation: any tree over the same leaves in the same order has the same value. */
  lemma {:induction false} TreeFoldsLeaves(op: Op, e: Expr, a: seq<int>, i: nat, result: int)
    requires Associative(op)
    ensures ValueOf(op, e, a, i, result) == Fold1(op, Values(op, Leaves(e), a, i, result))
  {
    match e {
      case Node(l, r) =>
        TreeFoldsLeaves(op, l, a, i, result);
        TreeFoldsLeaves(op, r, a, i, result);
        ValuesConcat(op, Leaves(l), Leaves(r), a, i, result);
        Fold1Concat(op, Values(op, Leaves(l), a, i, result), Values(op, Leaves(r), a, i, result));
      case _ =>
    }
  }

  lemma {:induction false} MoveToEnd(op: Op, xs: seq<int>, x: int, ys: seq<int>)
    requires Associative(op) && Commutative(op) && xs + ys != []
    ensures Fold1(op, xs + [x] + ys) == op(Fold1(op, xs + ys), x)
  {
    if ys == [] {
      assert xs + [x] + ys == xs + [x] && xs + ys == xs;
      Fold1Snoc(op, xs, x);
    } else {
      var init, y := ys[..|ys| - 1], Last(ys);
      assert xs + [x] + ys == (xs + [x] + init) + [y];
      Fold1Snoc(op, xs + [x] + init, y);
      if xs + init == [] {
        assert xs + [x] + init == [x] && xs + ys == [y];
        assert CommutesAt(op, x, y);
      } else {
        MoveToEnd(op, xs, x, init);
        assert xs + ys == (xs + init) + [y];
        Fold1Snoc(op, xs + init, y);
        var f := Fold1(op, xs + init);
        assert AssociatesAt(op, f, x, y) && CommutesAt(op, x, y) && AssociatesAt(op, f, y, x);
      }
    }
  }

  lemma TakeOut<X>(before: seq<X>, x: X, after: seq<X>)
    ensures multiset(before + [x] + after) - multiset{x} == multiset(before + after)
  {
  }

  /** Where a permutation t of s keeps the last entry of s. */
  lemma RemoveLast<X>(s: seq<X>, t: seq<X>) returns (before: seq<X>, after: seq<X>)
    requires s != [] && multiset(s) == multiset(t)
    ensures t == before + [Last(s)] + after
    ensures multiset(s[..|s| - 1]) == multiset(before + after)
  {
    var init, x := s[..|s| - 1], Last(s);
    assert s == init + [x] + [];
    assert x in multiset(t);
    var k :| 0 <= k < |t| && t[k] == x;
    before, after := t[..k], t[k + 1..];
    assert t == before + [x] + after;
    TakeOut(before, x, after);
    TakeOut(init, x, []);
    assert init + [] == init;
  }

  lemma {:induction false} FoldPermuted(op: Op, xs: seq<int>, ys: seq<int>)
    requires Associative(op) && Commutative(op)
    requires xs != [] && multiset(xs) == multiset(ys)
    ensures ys != [] && Fold1(op, xs) == Fold1(op, ys)
    decreases |xs|
  {
    var init, x := xs[..|xs| - 1], Last(xs);
    assert xs == init + [x];
    var before, after := RemoveLast(xs, ys);
    if init == [] {
      assert |multiset(before + after)| == 0;
      assert before + after == [];
    } else {
      FoldPermuted(op, init, before + after);
      Fold1Snoc(op, init, x);
      MoveToEnd(op, before, x, after);
    }
  }

  lemma {:induction false} ValuesPermuted(op: Op, s: seq<Expr>, t: seq<Expr>, a: seq<int>, i: nat, result: int)
    requires multiset(s) == multiset(t)
    ensures multiset(Values(op, s, a, i, result)) == multiset(Values(op, t, a, i, result))
    decreases |s|
  {
    if s == [] {
      assert |multiset(t)| == 0;
      assert t == [];
    } else {
      var init, x := s[..|s| - 1], Last(s);
      assert s == init + [x];
      var before, after := RemoveLast(s, t);
      ValuesPermuted(op, init, before + after, a, i, result);
      var v := ValueOf(op, x, a, i, result);
      assert Values(op, s, a, i, result) == Values(op, init, a, i, result) + [v];
      assert Values(op, before + after, a, i, result)
          == Values(op, before, a, i, result) + Values(op, after, a, i, result);
      assert Values(op, t, a, i, result)
          == Values(op, before, a, i, result) + [v] + Values(op, after, a, i, result);
    }
  }

  lemma BlockFold(op: Op, n: nat, a: seq<int>, i: nat, result: int)
    requires i + n <= |a|
    ensures Fold1(op, Values(op, BlockLeaves(n), a, i, result)) == LeftFold(op, result, a[i..i + n])
  {
    var xs := Values(op, BlockLeaves(n), a, i, result);
    assert xs[0] == result;
    assert xs[1..] == a[i..i + n];
  }

  /** An associative operation only needs the leaves of the block in array order. */
  lemma OrderedLeavesFold(op: Op, e: Expr, n: nat, a: seq<int>, i: nat, result: int)
    requires Associative(op) && Leaves(e) == BlockLeaves(n) && i + n <= |a|
    ensures ValueOf(op, e, a, i, result) == LeftFold(op, result, a[i..i + n])
  {
    TreeFoldsLeaves(op, e, a, i, result);
    BlockFold(op, n, a, i, result);
  }

  // ----- latency and depth

  function Depth(e: Expr): nat {
    match e
    case Node(l, r) => 1 + if Depth(l) > Depth(r) then Depth(l) else Depth(r)
    case _ => 0
  }

  /** The number of operations from the old result to the root, if the old result occurs. */
  function Latency(e: Expr): Option<nat> {
    match e
    case Old => Some(0)
    case Leaf(_) => None
    case Node(l, r) =>
      match (Latency(l), Latency(r))
      case (None, None) => None
      case (Some(m), None) => Some(m + 1)
      case (None, Some(n)) => Some(n + 1)
      case (Some(m), Some(n)) => Some(1 + if m > n then m else n)
  }

  /** The least k with n <= 2^k. */
  function CeilLog2(n: nat): nat {
    if n <= 1 then 0 else 1 + CeilLog2((n + 1) / 2)
  }

  lemma {:induction false} CeilLog2IsLeast(n: nat, k: nat)
    ensures n <= Pow2(k) <==> CeilLog2(n) <= k
    decreases k
  {
    if n > 1 && k > 0 {
      CeilLog2IsLeast((n + 1) / 2, k - 1);
    }
  }

  // ----- merging blocks into the result

  /** `result = Math.max(result, block)` for one block after the other. */
  function MergeAll(blocks: seq<Expr>): Expr {
    if blocks == [] then Old else Node(MergeAll(blocks[..|blocks| - 1]), Last(blocks))
  }

  lemma MergeSnoc(blocks: seq<Expr>, e: Expr)
    ensures MergeAll(blocks + [e]) == Node(MergeAll(blocks), e)
  {
    assert (blocks + [e])[..|blocks|] == blocks;
  }

  /** Where block k of n elements starts: k * n. */
  function Start(k: nat, n: nat): nat {
    if k == 0 then 0 else Start(k - 1, n) + n
  }

  lemma {:induction false} StartIsProduct(k: nat, n: nat)
    ensures Start(k, n) == k * n
  {
    if k > 0 {
      StartIsProduct(k - 1, n);
      assert k * n == (k - 1) * n + n;
    }
  }

  lemma {:induction false} NoOldNoLatency(e: Expr)
    ensures Latency(e) == None <==> Old !in Leaves(e)
  {
    match e {
      case Node(l, r) =>
        NoOldNoLatency(l);
        NoOldNoLatency(r);
      case _ =>
    }
  }

  lemma BlockLeavesExtend(from: nat, n: nat)
    ensures BlockLeaves(from + n) == BlockLeaves(from) + Elems(from, n)
  {
  }

  lemma ElemsHaveNoLatency(e: Expr, from: nat, n: nat)
    requires multiset(Leaves(e)) == multiset(Elems(from, n))
    ensures Latency(e) == None
  {
    NoOldNoLatency(e);
    assert Old !in Elems(from, n);
    assert Old in Leaves(e) <==> Old in multiset(Leaves(e));
  }

  // ----- the queue

  /** Take two expressions from the front, put their combination at the back, until one is left. */
  function QueueTree(es: seq<Expr>): Expr
    requires es != []
    decreases |es|
  {
    if |es| == 1 then es[0] else QueueTree(es[2..] + [Node(es[0], es[1])])
  }

  function AllLeaves(es: seq<Expr>): seq<Expr> {
    if es == [] then [] else Leaves(es[0]) + AllLeaves(es[1..])
  }

  lemma {:induction false} AllLeavesSnoc(es: seq<Expr>, e: Expr)
    ensures AllLeaves(es + [e]) == AllLeaves(es) + Leaves(e)
  {
    if es == [] {
      assert es + [e] == [e] && [e][1..] == [];
      assert AllLeaves([e]) == Leaves(e) + AllLeaves([]);
    } else {
      assert (es + [e])[1..] == es[1..] + [e];
      AllLeavesSnoc(es[1..], e);
    }
  }

  lemma FrontLeaves(es: seq<Expr>)
    requires |es| >= 2
    ensures AllLeaves(es) == Leaves(es[0]) + Leaves(es[1]) + AllLeaves(es[2..])
  {
    assert es[1..][1..] == es[2..];
    assert AllLeaves(es[1..]) == Leaves(es[1]) + AllLeaves(es[2..]);
  }

  /** Every leaf in the queue reaches the root exactly once. */
  lemma {:induction false} QueueKeepsLeaves(es: seq<Expr>)
    requires es != []
    ensures multiset(Leaves(QueueTree(es))) == multiset(AllLeaves(es))
    decreases |es|
  {
    if |es| == 1 {
      assert AllLeaves(es) == Leaves(es[0]) + AllLeaves([]);
    } else {
      var pair := Node(es[0], es[1]);
      var next := es[2..] + [pair];
      QueueKeepsLeaves(next);
      AllLeavesSnoc(es[2..], pair);
      FrontLeaves(es);
      assert Leaves(pair) == Leaves(es[0]) + Leaves(es[1]);
      assert QueueTree(es) == QueueTree(next);
    }
  }

  lemma QueueStep(es: seq<Expr>)
    requires |es| >= 2
    ensures QueueTree(es) == QueueTree(es[2..] + [Node(es[0], es[1])])
  {
  }

  /** Queue depths are sorted and differ by at most one: `low` entries of depth d, then depth d + 1. */
  ghost predicate DepthsAre(es: seq<Expr>, d: nat, low: nat) {
    && low <= |es|
    && forall k :: 0 <= k < |es| ==> Depth(es[k]) == if k < low then d else d + 1
  }

  /** Taking two from the front keeps the depths in shape. */
  lemma DepthsStep(es: seq<Expr>, d: nat, low: nat, next: seq<Expr>)
    requires |es| >= 2 && low >= 1 && DepthsAre(es, d, low)
    requires next == es[2..] + [Node(es[0], es[1])]
    ensures if low == 1 then DepthsAre(next, d + 1, |next| - 1) else DepthsAre(next, d, low - 2)
  {
    assert Depth(es[0]) == d && Depth(es[1]) == if low == 1 then d + 1 else d;
    assert Depth(Node(es[0], es[1])) == if low == 1 then d + 2 else d + 1;
    forall k | 0 <= k < |next| - 1 ensures next[k] == es[k + 2] {
    }
  }

  lemma {:induction false} QueueDepth(es: seq<Expr>, d: nat, low: nat)
    requires es != [] && DepthsAre(es, d, low)
    ensures Depth(QueueTree(es)) == d + CeilLog2(low + 2 * (|es| - low))
    decreases |es|, |es| - low
  {
    if low == 0 {
      QueueDepth(es, d + 1, |es|);
    } else if |es| > 1 {
      var next := es[2..] + [Node(es[0], es[1])];
      QueueStep(es);
      DepthsStep(es, d, low, next);
      if low == 1 {
        QueueDepth(next, d + 1, |next| - 1);
      } else {
        QueueDepth(next, d, low - 2);
      }
    }
  }

  /** One round over an even queue: neighbours are paired up, in order. */
  function Pairs(es: seq<Expr>): (ps: seq<Expr>)
    requires |es| % 2 == 0
    ensures |ps| == |es| / 2
  {
    if es == [] then [] else [Node(es[0], es[1])] + Pairs(es[2..])
  }

  lemma {:induction false} QueueRound(es: seq<Expr>, done: seq<Expr>)
    requires |es| % 2 == 0 && es + done != []
    ensures QueueTree(es + done) == QueueTree(done + Pairs(es))
    decreases |es|
  {
    if es == [] {
      assert es + done == done == done + Pairs(es);
    } else {
      var pair := Node(es[0], es[1]);
      var rest, more := es[2..], done + [pair];
      QueueStep(es + done);
      assert (es + done)[2..] + [pair] == rest + more;
      QueueRound(rest, more);
      assert Pairs(es) == [pair] + Pairs(rest);
      assert more + Pairs(rest) == done + Pairs(es);
    }
  }

  lemma {:induction false} PairsKeepOrder(es: seq<Expr>)
    requires |es| % 2 == 0
    ensures AllLeaves(Pairs(es)) == AllLeaves(es)
  {
    if es != [] {
      PairsKeepOrder(es[2..]);
      FrontLeaves(es);
      assert Pairs(es)[1..] == Pairs(es[2..]);
    }
  }

  /** When the queue's length is a power of two, the tree reads its leaves in order. */
  lemma {:induction false} PowerOfTwoKeepsOrder(es: seq<Expr>, k: nat)
    requires |es| == Pow2(k)
    ensures Leaves(QueueTree(es)) == AllLeaves(es)
    decreases k
  {
    if k == 0 {
      assert AllLeaves(es) == Leaves(es[0]) + AllLeaves([]);
    } else {
      assert es + [] == es && [] + Pairs(es) == Pairs(es);
      QueueRound(es, []);
      PairsKeepOrder(es);
      PowerOfTwoKeepsOrder(Pairs(es), k - 1);
    }
  }

  lemma {:induction false} AllLeavesConcat(s: seq<Expr>, t: seq<Expr>)
    ensures AllLeaves(s + t) == AllLeaves(s) + AllLeaves(t)
  {
    if s == [] {
      assert s + t == t;
    } else {
      assert (s + t)[1..] == s[1..] + t;
      AllLeavesConcat(s[1..], t);
    }
  }

  /**
   A queue of 2^k + m entries, m < 2^k, first pairs its front 2 m entries, which go to the
   back; what is left is a power of two. The tree reads the entries rotated by 2 m.
   */
  lemma QueueRotates(es: seq<Expr>, k: nat, m: nat)
    requires |es| == Pow2(k) + m && m < Pow2(k)
    ensures Leaves(QueueTree(es)) == AllLeaves(es[2 * m..]) + AllLeaves(es[..2 * m])
  {
    var front, rest := es[..2 * m], es[2 * m..];
    assert es == front + rest;
    QueueRound(front, rest);
    PowerOfTwoKeepsOrder(rest + Pairs(front), k);
    AllLeavesConcat(rest, Pairs(front));
    PairsKeepOrder(front);
  }

  lemma {:induction false} PowerBelow(n: nat) returns (k: nat, m: nat)
    requires n >= 1
    ensures n == Pow2(k) + m && m < Pow2(k)
  {
    if n == 1 {
      k, m := 0, 0;
    } else {
      k, m := PowerBelow(n / 2);
      k, m := k + 1, n - 2 * Pow2(k);
    }
  }

  lemma {:induction false} AllLeavesOfElems(from: nat, n: nat)
    ensures AllLeaves(Elems(from, n)) == Elems(from, n)
    decreases n
  {
    if n > 0 {
      assert Elems(from, n)[1..] == Elems(from + 1, n - 1);
      AllLeavesOfElems(from + 1, n - 1);
    }
  }

  lemma ElemsSplit(from: nat, n: nat, d: nat)
    requires d <= n
    ensures Elems(from, n)[..d] == Elems(from, d) && Elems(from, n)[d..] == Elems(from + d, n - d)
  {
  }

  /** The tree of a block reads its elements rotated: first those from 2 m on, then the others. */
  lemma BlockRotates(from: nat, n: nat, k: nat, m: nat)
    requires n == Pow2(k) + m && m < Pow2(k)
    ensures Leaves(QueueTree(Elems(from, n))) == Elems(from + 2 * m, n - 2 * m) + Elems(from, 2 * m)
  {
    QueueRotates(Elems(from, n), k, m);
    ElemsSplit(from, n, 2 * m);
    AllLeavesOfElems(from + 2 * m, n - 2 * m);
    AllLeavesOfElems(from, 2 * m);
  }

  /** The order is kept exactly for powers of two. */
  lemma OrderKeptIffPower(from: nat, n: nat)
    requires n >= 1
    ensures Leaves(QueueTree(Elems(from, n))) == Elems(from, n) <==> exists k: nat :: n == Pow2(k)
  {
    var k, m := PowerBelow(n);
    BlockRotates(from, n, k, m);
    if m == 0 {
      assert Elems(from, n) + Elems(from, 0) == Elems(from, n);
    } else {
      assert (Elems(from + 2 * m, n - 2 * m) + Elems(from, 2 * m))[0] == Leaf(from + 2 * m);
    }
    if j: nat :| n == Pow2(j) {
      PowerOfTwoKeepsOrder(Elems(from, n), j);
      AllLeavesOfElems(from, n);
    }
  }
}
