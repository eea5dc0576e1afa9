/**
 Every generated loop computes the reduction of the simple loop: what each body reads,
 the leaves of its expression, its latency, and the equivalence of whole loops.
 */
module ReductionEquivalence {
  import opened Common
  import opened LoopCode
  import opened ReductionTrees
  import opened Generator

  // ----- every element of the block is read once, in order

  lemma ReadsSnoc(body: seq<Stmt>, stmt: Stmt)
    ensures Reads(body + [stmt]) == Reads(body) + match stmt.rhs { case Elem(k) => [k] case _ => [] }
  {
    assert (body + [stmt])[..|body|] == body;
  }

  lemma {:induction false} ReadsOfLoads(from: nat, n: nat)
    ensures Reads(Loads(from, n)) == Range(from, n)
  {
    if n > 0 {
      ReadsOfLoads(from, n - 1);
      ReadsSnoc(Loads(from, n - 1), Declare(V(from + n - 1), Elem(from + n - 1)));
    }
  }

  ghost predicate Silent(body: seq<Stmt>) {
    forall s :: s in body ==> !s.rhs.Elem?
  }

  lemma {:induction false} ReadsNothing(body: seq<Stmt>)
    requires Silent(body)
    ensures Reads(body) == []
  {
    if body != [] {
      assert Last(body) in body;
      ReadsNothing(body[..|body| - 1]);
    }
  }

  lemma {:induction false} ChainIsSilent(t0: nat, v0: nat, n: nat)
    ensures Silent(Chain(t0, v0, n))
  {
    if n > 0 {
      ChainIsSilent(t0, v0, n - 1);
    }
  }

  lemma {:induction false} DrainIsSilent(q: seq<Name>, t: nat)
    ensures Silent(Drain(q, t))
    decreases |q|
  {
    if |q| > 1 {
      DrainIsSilent(q[2..] + [T(t)], t + 1);
    }
  }

  /** Loads, followed by statements that read nothing. */
  lemma ReadsOfBlock(from: nat, n: nat, rest: seq<Stmt>)
    requires Silent(rest)
    ensures Reads(Loads(from, n) + rest) == Range(from, n)
  {
    ReadsOfLoads(from, n);
    ReadsNothing(rest);
    ReadsConcat(Loads(from, n), rest);
  }

  lemma ReadsOfUnroll(size: nat)
    ensures Reads(UnrollBody(size)) == Range(0, size)
  {
    var first, links := Declare(T(0), Max(V(0), Result)), Chain(0, 0, Minus(size, 1));
    var last := Assign(Result, Copy(T(Minus(size, 1))));
    ChainIsSilent(0, 0, Minus(size, 1));
    ReadsOfBlock(0, size, [first] + links + [last]);
    assert UnrollBody(size) == Loads(0, size) + ([first] + links + [last]);
  }

  lemma ReadsOfChainBlock(from: nat, inner: nat, last: int)
    ensures Reads(ChainBlock(from, inner, last)) == Range(from, inner)
  {
    var first, links := Declare(T(from), Max(V(from + 1), V(from))), Chain(from, from + 1, Minus(inner, 2));
    var merge := Assign(Result, Max(Result, T(last)));
    ChainIsSilent(from, from + 1, Minus(inner, 2));
    ReadsOfBlock(from, inner, [first] + links + [merge]);
    assert ChainBlock(from, inner, last) == Loads(from, inner) + ([first] + links + [merge]);
  }

  lemma ReadsOfReTreeBlock(from: nat, inner: nat, t: nat)
    ensures Reads(ReTreeBlock(from, inner, t)) == Range(from, inner)
  {
    var drain, merge := Drain(LoadNames(from, inner), t), Assign(Result, Max(Result, T(t + Minus(inner, 1) - 1)));
    DrainIsSilent(LoadNames(from, inner), t);
    ReadsOfBlock(from, inner, drain + [merge]);
    assert ReTreeBlock(from, inner, t) == Loads(from, inner) + (drain + [merge]);
  }

  lemma ReadsNextBlock(body: seq<Stmt>, block: seq<Stmt>, from: nat, n: nat)
    requires Reads(body) == Range(0, from) && Reads(block) == Range(from, n)
    ensures Reads(body + block) == Range(0, from + n)
  {
    ReadsConcat(body, block);
  }

  lemma {:induction false} ReadsOfReassocBy(outer: nat, inner: nat)
    ensures Reads(ReassocByBody(outer, inner)) == Range(0, Start(outer, inner))
  {
    if outer > 0 {
      var from := Start(outer - 1, inner);
      ReadsOfReassocBy(outer - 1, inner);
      ReadsOfChainBlock(from, inner, from + inner - 2);
      ReadsNextBlock(ReassocByBody(outer - 1, inner), ChainBlock(from, inner, from + inner - 2), from, inner);
    }
  }

  lemma ReadsOneMoreTree(outer: nat, inner: nat)
    requires outer > 0 && Reads(ReTreeBody(outer - 1, inner)) == Range(0, Start(outer - 1, inner))
    ensures Reads(ReTreeBody(outer, inner)) == Range(0, Start(outer, inner))
  {
    var from, t := Start(outer - 1, inner), Start(outer - 1, Minus(inner, 1));
    ReadsOfReTreeBlock(from, inner, t);
    ReadsNextBlock(ReTreeBody(outer - 1, inner), ReTreeBlock(from, inner, t), from, inner);
  }

  lemma {:induction false} ReadsOfReTree(outer: nat, inner: nat)
    ensures Reads(ReTreeBody(outer, inner)) == Range(0, Start(outer, inner))
  {
    if outer > 0 {
      ReadsOfReTree(outer - 1, inner);
      ReadsOneMoreTree(outer, inner);
    }
  }

  // ----- the leaves of the inlined expressions

  /** Elements from + n - 1 down to from: the order in which a chain reads them. */
  function DownElems(from: nat, n: nat): (s: seq<Expr>)
    ensures |s| == n && forall k :: 0 <= k < n ==> s[k] == Leaf(from + n - 1 - k)
  {
    seq(n, k requires 0 <= k < n => Leaf(from + n - 1 - k))
  }

  lemma {:induction false} DownIsPermutation(from: nat, n: nat)
    ensures multiset(DownElems(from, n)) == multiset(Elems(from, n))
  {
    if n == 0 {
      assert DownElems(from, n) == Elems(from, n);
    } else {
      DownIsPermutation(from, n - 1);
      assert DownElems(from, n) == [Leaf(from + n - 1)] + DownElems(from, n - 1);
      assert Elems(from, n) == Elems(from, n - 1) + [Leaf(from + n - 1)];
    }
  }

  lemma {:induction false} LeavesOfChain(e: Expr, v0: nat, n: nat)
    ensures Leaves(ChainExpr(e, v0, n)) == DownElems(v0 + 1, n) + Leaves(e)
  {
    if n > 0 {
      LeavesOfChain(e, v0, n - 1);
      assert DownElems(v0 + 1, n) == [Leaf(v0 + n)] + DownElems(v0 + 1, n - 1);
    }
  }

  lemma LeavesOfBlockChain(from: nat, inner: nat)
    requires inner >= 2
    ensures Leaves(BlockChain(from, inner)) == DownElems(from, inner)
    ensures multiset(Leaves(BlockChain(from, inner))) == multiset(Elems(from, inner))
  {
    LeavesOfChain(Node(Leaf(from + 1), Leaf(from)), from + 1, inner - 2);
    assert Leaves(Node(Leaf(from + 1), Leaf(from))) == [Leaf(from + 1), Leaf(from)];
    assert DownElems(from, inner) == DownElems(from + 2, inner - 2) + [Leaf(from + 1), Leaf(from)];
    DownIsPermutation(from, inner);
  }

  lemma LeavesOfQueueTree(from: nat, inner: nat)
    requires inner >= 1
    ensures multiset(Leaves(QueueTree(Elems(from, inner)))) == multiset(Elems(from, inner))
  {
    QueueKeepsLeaves(Elems(from, inner));
    AllLeavesOfElems(from, inner);
  }

  lemma NextReassocBy(outer: nat, inner: nat)
    requires outer > 0
    ensures var from := Start(outer - 1, inner);
      && Start(outer, inner) == from + inner
      && ReassocByExpr(outer, inner) == Node(ReassocByExpr(outer - 1, inner), BlockChain(from, inner))
  {
    MergeSnoc(ChainBlocks(outer - 1, inner), BlockChain(Start(outer - 1, inner), inner));
  }

  lemma {:induction false} LatencyOfReassocBy(outer: nat, inner: nat)
    requires inner >= 2
    ensures Latency(ReassocByExpr(outer, inner)) == Some(outer)
  {
    if outer > 0 {
      LatencyOfReassocBy(outer - 1, inner);
      ChainHasNoLatency(Start(outer - 1, inner), inner);
      NextReassocBy(outer, inner);
    }
  }

  lemma ChainHasNoLatency(from: nat, inner: nat)
    requires inner >= 2
    ensures Latency(BlockChain(from, inner)) == None
  {
    LeavesOfBlockChain(from, inner);
    ElemsHaveNoLatency(BlockChain(from, inner), from, inner);
  }

  lemma NextReTree(outer: nat, inner: nat)
    requires outer > 0 && inner >= 1
    ensures var from := Start(outer - 1, inner);
      && Start(outer, inner) == from + inner
      && ReTreeExpr(outer, inner) == Node(ReTreeExpr(outer - 1, inner), QueueTree(Elems(from, inner)))
  {
    MergeSnoc(TreeBlocks(outer - 1, inner), QueueTree(Elems(Start(outer - 1, inner), inner)));
  }

  lemma {:induction false} LatencyOfReTree(outer: nat, inner: nat)
    requires inner >= 1
    ensures Latency(ReTreeExpr(outer, inner)) == Some(outer)
  {
    if outer > 0 {
      LatencyOfReTree(outer - 1, inner);
      TreeHasNoLatency(Start(outer - 1, inner), inner);
      NextReTree(outer, inner);
    }
  }

  lemma TreeHasNoLatency(from: nat, inner: nat)
    requires inner >= 1
    ensures Latency(QueueTree(Elems(from, inner))) == None
  {
    LeavesOfQueueTree(from, inner);
    ElemsHaveNoLatency(QueueTree(Elems(from, inner)), from, inner);
  }

  /** With blocks of a power of two, the trees read the array strictly from left to right. */
  lemma {:induction false} OrderOfReTree(outer: nat, k: nat)
    ensures Leaves(ReTreeExpr(outer, Pow2(k))) == BlockLeaves(Start(outer, Pow2(k)))
  {
    var inner := Pow2(k);
    if outer > 0 {
      var from := Start(outer - 1, inner);
      OrderOfReTree(outer - 1, k);
      PowerOfTwoKeepsOrder(Elems(from, inner), k);
      AllLeavesOfElems(from, inner);
      NextReTree(outer, inner);
      BlockLeavesExtend(from, inner);
    } else {
      assert Leaves(Old) == BlockLeaves(0);
    }
  }

  // ----- latency and depth

  lemma {:induction false} LatencyOfUnroll(size: nat)
    ensures Latency(UnrollExpr(size)) == Some(size)
  {
    if size > 0 {
      LatencyOfUnroll(size - 1);
    }
  }

  lemma {:induction false} LeavesFitDepth(e: Expr, k: nat)
    requires Depth(e) <= k
    ensures |Leaves(e)| <= Pow2(k)
  {
    match e {
      case Node(l, r) =>
        LeavesFitDepth(l, k - 1);
        LeavesFitDepth(r, k - 1);
      case _ =>
    }
  }

  /**
   The tree of a block, power of two or not, has depth ceil(log2 inner), and no other way
   to combine the same elements is shallower.
   */
  lemma DepthOfReTreeBlock(from: nat, inner: nat)
    requires inner >= 1
    ensures Depth(QueueTree(Elems(from, inner))) == CeilLog2(inner)
    ensures forall e :: multiset(Leaves(e)) == multiset(Elems(from, inner)) ==> CeilLog2(inner) <= Depth(e)
  {
    assert DepthsAre(Elems(from, inner), 0, inner);
    QueueDepth(Elems(from, inner), 0, inner);
    forall e | multiset(Leaves(e)) == multiset(Elems(from, inner)) ensures CeilLog2(inner) <= Depth(e) {
      assert |multiset(Leaves(e))| == |Leaves(e)| && |multiset(Elems(from, inner))| == inner;
      LeavesFitDepth(e, Depth(e));
      CeilLog2IsLeast(inner, Depth(e));
    }
  }

  lemma {:induction false} DepthOfUnroll(n: nat)
    ensures Depth(UnrollExpr(n)) == n
  {
    if n > 0 {
      DepthOfUnroll(n - 1);
    }
  }

  lemma {:induction false} DepthOfChain(e: Expr, v0: nat, n: nat)
    ensures Depth(ChainExpr(e, v0, n)) == Depth(e) + n
  {
    if n > 0 {
      DepthOfChain(e, v0, n - 1);
    }
  }

  lemma {:induction false} DepthOfReassocBy(outer: nat, inner: nat)
    requires inner >= 2
    ensures Depth(ReassocByExpr(outer, inner)) == if outer == 0 then 0 else outer + inner - 1
  {
    if outer > 0 {
      var from := Start(outer - 1, inner);
      DepthOfReassocBy(outer - 1, inner);
      DepthOfChain(Node(Leaf(from + 1), Leaf(from)), from + 1, inner - 2);
      NextReassocBy(outer, inner);
    }
  }

  lemma {:induction false} DepthOfReTree(outer: nat, inner: nat)
    requires inner >= 1
    ensures Depth(ReTreeExpr(outer, inner)) == if outer == 0 then 0 else outer + CeilLog2(inner)
  {
    if outer > 0 {
      DepthOfReTree(outer - 1, inner);
      DepthOfReTreeBlock(Start(outer - 1, inner), inner);
      NextReTree(outer, inner);
    }
  }

  // ----- the value of a merged body

  lemma PermutedFold(op: Op, s: seq<Expr>, t: seq<Expr>, a: seq<int>, i: nat, result: int)
    requires Associative(op) && Commutative(op) && multiset(s) == multiset(t) && s != [] && t != []
    ensures Fold1(op, Values(op, s, a, i, result)) == Fold1(op, Values(op, t, a, i, result))
  {
    ValuesPermuted(op, s, t, a, i, result);
    FoldPermuted(op, Values(op, s, a, i, result), Values(op, t, a, i, result));
  }

  lemma ElemsFold(op: Op, from: nat, n: nat, a: seq<int>, i: nat, result: int)
    requires n >= 1 && i + from + n <= |a|
    ensures Fold1(op, Values(op, Elems(from, n), a, i, result)) == Fold1(op, a[i + from..i + from + n])
  {
    assert Values(op, Elems(from, n), a, i, result) == a[i + from..i + from + n];
  }

  /** The value of one block's expression, its leaves being the block's elements, each once. */
  lemma BlockValue(op: Op, e: Expr, from: nat, n: nat, a: seq<int>, i: nat, result: int)
    requires Associative(op) && Commutative(op)
    requires n >= 1 && i + from + n <= |a| && multiset(Leaves(e)) == multiset(Elems(from, n))
    ensures ValueOf(op, e, a, i, result) == Fold1(op, a[i + from..i + from + n])
  {
    TreeFoldsLeaves(op, e, a, i, result);
    PermutedFold(op, Leaves(e), Elems(from, n), a, i, result);
    ElemsFold(op, from, n, a, i, result);
  }

  /** Folding one more block into the result. */
  lemma FoldNextBlock(op: Op, result: int, xs: seq<int>, ys: seq<int>)
    requires Associative(op) && ys != []
    ensures op(LeftFold(op, result, xs), Fold1(op, ys)) == LeftFold(op, result, xs + ys)
  {
    Fold1Concat(op, [result] + xs, ys);
    assert ([result] + xs)[1..] == xs;
    assert [result] + xs + ys == [result] + (xs + ys);
    assert ([result] + (xs + ys))[1..] == xs + ys;
  }

  /** The value of e is the fold of n elements into the old result. */
  ghost predicate FoldsAt(op: Op, e: Expr, n: nat, a: seq<int>, i: nat, result: int)
    requires i + n <= |a|
  {
    ValueOf(op, e, a, i, result) == LeftFold(op, result, a[i..i + n])
  }

  /** The value of e is the fold of the n elements from `from` on. */
  ghost predicate FoldsBlockAt(op: Op, e: Expr, from: nat, n: nat, a: seq<int>, i: nat, result: int)
    requires n >= 1 && i + from + n <= |a|
  {
    ValueOf(op, e, a, i, result) == Fold1(op, a[i + from..i + from + n])
  }

  /** Merging one more block into an expression that folds the blocks before. */
  lemma MergeFolds(op: Op, whole: Expr, e: Expr, block: Expr, from: nat, n: nat, to: nat,
                   a: seq<int>, i: nat, result: int)
    requires Associative(op) && n >= 1 && to == from + n && i + to <= |a| && whole == Node(e, block)
    requires FoldsAt(op, e, from, a, i, result) && FoldsBlockAt(op, block, from, n, a, i, result)
    ensures FoldsAt(op, whole, to, a, i, result)
  {
    FoldNextBlock(op, result, a[i..i + from], a[i + from..i + from + n]);
    assert a[i..i + from] + a[i + from..i + from + n] == a[i..i + to];
  }

  lemma ChainFoldsBlock(op: Op, from: nat, inner: nat, a: seq<int>, i: nat, result: int)
    requires Associative(op) && Commutative(op) && inner >= 2 && i + from + inner <= |a|
    ensures FoldsBlockAt(op, BlockChain(from, inner), from, inner, a, i, result)
  {
    LeavesOfBlockChain(from, inner);
    BlockValue(op, BlockChain(from, inner), from, inner, a, i, result);
  }

  lemma {:induction false} ReassocByFoldsAt(op: Op, outer: nat, inner: nat, a: seq<int>, i: nat, result: int)
    requires Associative(op) && Commutative(op) && inner >= 2 && i + Start(outer, inner) <= |a|
    ensures FoldsAt(op, ReassocByExpr(outer, inner), Start(outer, inner), a, i, result)
  {
    if outer > 0 {
      var from := Start(outer - 1, inner);
      NextReassocBy(outer, inner);
      ReassocByFoldsAt(op, outer - 1, inner, a, i, result);
      ChainFoldsBlock(op, from, inner, a, i, result);
      MergeFolds(op, ReassocByExpr(outer, inner), ReassocByExpr(outer - 1, inner), BlockChain(from, inner),
                 from, inner, Start(outer, inner), a, i, result);
    }
  }

  lemma TreeFoldsBlock(op: Op, from: nat, inner: nat, a: seq<int>, i: nat, result: int)
    requires Associative(op) && Commutative(op) && inner >= 1 && i + from + inner <= |a|
    ensures FoldsBlockAt(op, QueueTree(Elems(from, inner)), from, inner, a, i, result)
  {
    LeavesOfQueueTree(from, inner);
    BlockValue(op, QueueTree(Elems(from, inner)), from, inner, a, i, result);
  }

  lemma {:induction false} ReTreeFoldsAt(op: Op, outer: nat, inner: nat, a: seq<int>, i: nat, result: int)
    requires Associative(op) && Commutative(op) && inner >= 1 && i + Start(outer, inner) <= |a|
    ensures FoldsAt(op, ReTreeExpr(outer, inner), Start(outer, inner), a, i, result)
  {
    if outer > 0 {
      var from := Start(outer - 1, inner);
      NextReTree(outer, inner);
      ReTreeFoldsAt(op, outer - 1, inner, a, i, result);
      TreeFoldsBlock(op, from, inner, a, i, result);
      MergeFolds(op, ReTreeExpr(outer, inner), ReTreeExpr(outer - 1, inner), QueueTree(Elems(from, inner)),
                 from, inner, Start(outer, inner), a, i, result);
    }
  }

  /** The unrolled body is the simple loop, for any operation whatsoever. */
  lemma {:induction false} ValueOfUnroll(op: Op, size: nat, a: seq<int>, i: nat, result: int)
    requires i + size <= |a|
    ensures ValueOf(op, UnrollExpr(size), a, i, result) == BaseFold(op, result, a[i..i + size])
  {
    if size > 0 {
      ValueOfUnroll(op, size - 1, a, i, result);
      assert a[i..i + size][..size - 1] == a[i..i + (size - 1)];
    }
  }
}
