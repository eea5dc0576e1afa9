/**
 The loops that Gen.java emits around the generated bodies, the simple loops they are
 compared with, and the theorems that they compute the same.
 */
module GeneratedLoops {
  import opened Common
  import opened LoopCode
  import opened ReductionTrees
  import opened Generator
  import opened ReductionEquivalence

  function UnrollLoop(size: nat): Loop {
    Loop(size, UnrollBody(size))
  }

  function ReassocLoop(size: nat): Loop {
    Loop(size, ReassocBody(size))
  }

  function ReassocByLoop(outer: nat, inner: nat): Loop {
    Loop(outer * inner, ReassocByBody(outer, inner))
  }

  function ReTreeLoop(outer: nat, inner: nat): Loop {
    Loop(outer * inner, ReTreeBody(outer, inner))
  }

  const BASE_LOOP := Loop(1, [Declare(Value, Elem(0)), Assign(Result, Max(Value, Result))])

  const EXPECT_LOOP :=
    Loop(1, [Declare(Value, Elem(0)), Declare(Temp, Max(Value, Result)), Assign(Result, Copy(Temp))])

  // ----- the simple loops

  lemma InlineThree(s0: Stmt, s1: Stmt, s2: Stmt, env: Inlined, e0: Inlined, e1: Inlined, e2: Inlined)
    requires InlineOne(s0, env) == Some(e0) && InlineOne(s1, e0) == Some(e1)
    ensures InlineAll([s0, s1], env) == Some(e1)
    ensures InlineOne(s2, e1) == Some(e2) ==> InlineAll([s0, s1, s2], env) == Some(e2)
  {
    InlineSnoc([], s0, env);
    assert [] + [s0] == [s0];
    InlineSnoc([s0], s1, env);
    assert [s0] + [s1] == [s0, s1];
    InlineSnoc([s0, s1], s2, env);
    assert [s0, s1] + [s2] == [s0, s1, s2];
  }

  lemma InlineSimple()
    ensures Inline(BASE_LOOP.body) == Inline(EXPECT_LOOP.body) == Some(Node(Leaf(0), Old))
    ensures Reads(BASE_LOOP.body) == Reads(EXPECT_LOOP.body) == Range(0, 1)
  {
    var load, first, last := Declare(Value, Elem(0)), Declare(Temp, Max(Value, Result)), Assign(Result, Copy(Temp));
    var merge := Assign(Result, Max(Value, Result));
    var e: Inlined := map[Result := Old];
    var max := Node(Leaf(0), Old);
    InlineThree(load, merge, last, e, e[Value := Leaf(0)], e[Value := Leaf(0)][Result := max], e);
    InlineThree(load, first, last, e, e[Value := Leaf(0)], e[Value := Leaf(0)][Temp := max],
                e[Value := Leaf(0)][Temp := max][Result := max]);
    ReadsSnoc([], load);
    assert [] + [load] == [load];
    ReadsSnoc([load], merge);
    assert [load] + [merge] == [load, merge];
    ReadsSnoc([load], first);
    assert [load] + [first] == [load, first];
    ReadsSnoc([load, first], last);
    assert [load, first] + [last] == [load, first, last];
  }

  lemma SimpleReduces(op: Op)
    ensures Reduces(op, BASE_LOOP, BaseSide) && Reduces(op, EXPECT_LOOP, BaseSide)
  {
    InlineSimple();
    forall a: seq<int>, i: nat, result: int | i + 1 <= |a|
      ensures ValueOf(op, Node(Leaf(0), Old), a, i, result) == Fold(op, BaseSide, result, a[i..i + 1])
    {
      assert a[i..i + 1] == [a[i]];
      assert BaseFold(op, result, []) == result;
    }
  }

  /** Both simple loops, `test` of the Base variant and `expect`, fold the array. */
  lemma SimpleLoops(op: Op, a: seq<int>, result: int)
    ensures Run(op, BASE_LOOP, a, 0, result) == Run(op, EXPECT_LOOP, a, 0, result) == Some(BaseFold(op, result, a))
  {
    SimpleReduces(op);
    LoopReduces(op, BASE_LOOP, BaseSide, a, 0, result);
    LoopReduces(op, EXPECT_LOOP, BaseSide, a, 0, result);
    assert a[0..] == a;
  }

  /** What a generated loop should return: the expected value, or failure on a partial block. */
  function Expected(op: Op, step: nat, a: seq<int>, result: int): Option<int>
    requires step > 0
  {
    if |a| % step == 0 then Run(op, EXPECT_LOOP, a, 0, result) else None
  }

  lemma {:induction false} FoldsAgree(op: Op, result: int, xs: seq<int>)
    requires Commutative(op)
    ensures BaseFold(op, result, xs) == LeftFold(op, result, xs)
  {
    if xs != [] {
      FoldsAgree(op, result, xs[..|xs| - 1]);
      assert CommutesAt(op, Last(xs), LeftFold(op, result, xs[..|xs| - 1]));
    }
  }

  lemma ReducingIsExpected(op: Op, loop: Loop, a: seq<int>, result: int)
    requires Reduces(op, loop, BaseSide) || (Commutative(op) && Reduces(op, loop, LeftSide))
    ensures Run(op, loop, a, 0, result) == Expected(op, loop.step, a, result)
  {
    SimpleLoops(op, a, result);
    assert a[0..] == a;
    if Reduces(op, loop, BaseSide) {
      LoopReduces(op, loop, BaseSide, a, 0, result);
    } else {
      FoldsAgree(op, result, a);
      LoopReduces(op, loop, LeftSide, a, 0, result);
    }
  }

  // ----- the generated loops

  /** Unrolling changes nothing at all: the operation need not obey any law. */
  lemma UnrollIsExpected(op: Op, size: nat, a: seq<int>, result: int)
    requires size >= 1
    ensures Run(op, UnrollLoop(size), a, 0, result) == Expected(op, size, a, result)
  {
    var loop := UnrollLoop(size);
    ReadsOfUnroll(size);
    InlineUnroll(size);
    forall a: seq<int>, i: nat, result: int | i + loop.step <= |a|
      ensures ValueOf(op, UnrollExpr(size), a, i, result) == Fold(op, BaseSide, result, a[i..i + loop.step])
    {
      ValueOfUnroll(op, size, a, i, result);
    }
    ReducingIsExpected(op, loop, a, result);
  }

  ghost predicate Folds(op: Op, e: Expr, n: nat) {
    forall a: seq<int>, i: nat, result: int :: i + n <= |a| ==> FoldsAt(op, e, n, a, i, result)
  }

  lemma FoldingReduces(op: Op, loop: Loop, e: Expr)
    requires loop.step > 0 && Reads(loop.body) == Range(0, loop.step)
    requires Inline(loop.body) == Some(e) && Folds(op, e, loop.step)
    ensures Reduces(op, loop, LeftSide)
  {
    forall a: seq<int>, i: nat, result: int | i + loop.step <= |a|
      ensures ValueOf(op, e, a, i, result) == Fold(op, LeftSide, result, a[i..i + loop.step])
    {
      assert FoldsAt(op, e, loop.step, a, i, result);
    }
  }

  lemma ReassocByIsExpected(op: Op, outer: nat, inner: nat, a: seq<int>, result: int)
    requires Associative(op) && Commutative(op) && outer >= 1 && inner >= 2
    ensures Run(op, ReassocByLoop(outer, inner), a, 0, result) == Expected(op, outer * inner, a, result)
  {
    ReassocByReduces(op, outer, inner);
    ReducingIsExpected(op, ReassocByLoop(outer, inner), a, result);
  }

  lemma ReassocByReduces(op: Op, outer: nat, inner: nat)
    requires Associative(op) && Commutative(op) && outer >= 1 && inner >= 2
    ensures Reduces(op, ReassocByLoop(outer, inner), LeftSide)
  {
    StartIsProduct(outer, inner);
    ReadsOfReassocBy(outer, inner);
    var env := InlineReassocBy(outer, inner);
    ReassocByFolds(op, outer, inner);
    FoldingReduces(op, ReassocByLoop(outer, inner), ReassocByExpr(outer, inner));
  }

  lemma ReassocByFolds(op: Op, outer: nat, inner: nat)
    requires Associative(op) && Commutative(op) && inner >= 2
    ensures Folds(op, ReassocByExpr(outer, inner), Start(outer, inner))
  {
    var e, n := ReassocByExpr(outer, inner), Start(outer, inner);
    forall a: seq<int>, i: nat, result: int | i + n <= |a|
      ensures FoldsAt(op, e, n, a, i, result)
    {
      ReassocByFoldsAt(op, outer, inner, a, i, result);
    }
  }

  /** One chain over the whole step is the case of a single block. */
  lemma ReassocIsReassocBy(size: nat)
    requires size >= 2
    ensures ReassocLoop(size) == ReassocByLoop(1, size)
  {
    assert ReassocByBody(0, size) == [] && Start(0, size) == 0;
    assert ReassocByBody(1, size) == [] + ChainBlock(0, size, size - 2);
  }

  lemma ReTreeIsExpected(op: Op, outer: nat, inner: nat, a: seq<int>, result: int)
    requires Associative(op) && Commutative(op) && outer >= 1 && inner >= 2
    ensures Run(op, ReTreeLoop(outer, inner), a, 0, result) == Expected(op, outer * inner, a, result)
  {
    ReTreeReduces(op, outer, inner);
    ReducingIsExpected(op, ReTreeLoop(outer, inner), a, result);
  }

  lemma ReTreeReduces(op: Op, outer: nat, inner: nat)
    requires Associative(op) && Commutative(op) && outer >= 1 && inner >= 2
    ensures Reduces(op, ReTreeLoop(outer, inner), LeftSide)
  {
    ReTreeFolds(op, outer, inner);
    FoldingTreesReduce(op, outer, inner);
  }

  lemma FoldingTreesReduce(op: Op, outer: nat, inner: nat)
    requires outer >= 1 && inner >= 2 && Folds(op, ReTreeExpr(outer, inner), Start(outer, inner))
    ensures Reduces(op, ReTreeLoop(outer, inner), LeftSide)
  {
    StartIsProduct(outer, inner);
    ReadsOfReTree(outer, inner);
    var env := InlineReTree(outer, inner);
    FoldingReduces(op, ReTreeLoop(outer, inner), ReTreeExpr(outer, inner));
  }

  lemma ReTreeFolds(op: Op, outer: nat, inner: nat)
    requires Associative(op) && Commutative(op) && inner >= 1
    ensures Folds(op, ReTreeExpr(outer, inner), Start(outer, inner))
  {
    var e, n := ReTreeExpr(outer, inner), Start(outer, inner);
    forall a: seq<int>, i: nat, result: int | i + n <= |a|
      ensures FoldsAt(op, e, n, a, i, result)
    {
      ReTreeFoldsAt(op, outer, inner, a, i, result);
    }
  }

  /**
   When the blocks are a power of two the trees preserve the order of the elements, and
   associativity alone makes the loop a left fold of the array.
   */
  lemma ReTreePowerOfTwo(op: Op, outer: nat, k: nat, a: seq<int>, result: int)
    requires Associative(op) && outer >= 1 && k >= 1
    ensures Run(op, ReTreeLoop(outer, Pow2(k)), a, 0, result) ==
      if |a| % (outer * Pow2(k)) == 0 then Some(LeftFold(op, result, a)) else None
  {
    OrderedReTreeFolds(op, outer, k);
    FoldingTreesReduce(op, outer, Pow2(k));
    LoopReduces(op, ReTreeLoop(outer, Pow2(k)), LeftSide, a, 0, result);
    assert a[0..] == a;
  }

  lemma OrderedReTreeFolds(op: Op, outer: nat, k: nat)
    requires Associative(op)
    ensures Folds(op, ReTreeExpr(outer, Pow2(k)), Start(outer, Pow2(k)))
  {
    OrderOfReTree(outer, k);
    OrderedFolds(op, ReTreeExpr(outer, Pow2(k)), Start(outer, Pow2(k)));
  }

  lemma OrderedFolds(op: Op, e: Expr, n: nat)
    requires Associative(op) && Leaves(e) == BlockLeaves(n)
    ensures Folds(op, e, n)
  {
    forall a: seq<int>, i: nat, result: int | i + n <= |a|
      ensures FoldsAt(op, e, n, a, i, result)
    {
      OrderedLeavesFold(op, e, n, a, i, result);
    }
  }

  // ----- other block sizes need commutativity

  /** Associative, but far from commutative. */
  function Second(x: int, y: int): int {
    y
  }

  lemma {:induction false} SecondTakesLastLeaf(e: Expr, a: seq<int>, i: nat, result: int)
    ensures ValueOf(Second, e, a, i, result) == ValueOf(Second, Last(Leaves(e)), a, i, result)
  {
    match e {
      case Node(l, r) => SecondTakesLastLeaf(r, a, i, result);
      case _ =>
    }
  }

  lemma SecondOfNode(l: Expr, r: Expr, a: seq<int>, i: nat, result: int)
    ensures ValueOf(Second, Node(l, r), a, i, result) == ValueOf(Second, r, a, i, result)
  {
  }

  lemma LastOfTree(from: nat, inner: nat, k: nat, m: nat)
    requires inner == Pow2(k) + m && 0 < m < Pow2(k)
    ensures Last(Leaves(QueueTree(Elems(from, inner)))) == Leaf(from + 2 * m - 1)
  {
    BlockRotates(from, inner, k, m);
  }

  /** The last block of trees shows an element that is not its last. */
  lemma TreesShowOther(outer: nat, inner: nat, k: nat, m: nat, a: seq<int>)
    requires outer >= 1 && inner == Pow2(k) + m && 0 < m < Pow2(k) && |a| == Start(outer, inner)
    ensures Start(outer - 1, inner) + inner == |a|
    ensures ValueOf(Second, ReTreeExpr(outer, inner), a, 0, 0) == a[Start(outer - 1, inner) + 2 * m - 1]
  {
    var from := Start(outer - 1, inner);
    var tree := QueueTree(Elems(from, inner));
    NextReTree(outer, inner);
    SecondOfNode(ReTreeExpr(outer - 1, inner), tree, a, 0, 0);
    SecondTakesLastLeaf(tree, a, 0, 0);
    LastOfTree(from, inner, k, m);
  }

  /** Whether the loop is the left fold of the array, failure on a partial block included. */
  ghost predicate IsLeftFold(op: Op, loop: Loop, a: seq<int>, result: int)
    requires loop.step > 0
  {
    Run(op, loop, a, 0, result) == if |a| % loop.step == 0 then Some(LeftFold(op, result, a)) else None
  }

  /** For every operation that is associative, and every array. */
  ghost predicate AlwaysLeftFold(loop: Loop)
    requires loop.step > 0
  {
    forall op: Op, a: seq<int>, result: int :: Associative(op) ==> IsLeftFold(op, loop, a, result)
  }

  /** Where the block size is no power of two, an array of one step shows the rotation. */
  lemma RotationShows(outer: nat, inner: nat) returns (a: seq<int>)
    requires outer >= 1 && inner >= 2 && forall k: nat :: inner != Pow2(k)
    ensures outer * inner > 0 && !IsLeftFold(Second, ReTreeLoop(outer, inner), a, 0)
  {
    StartIsProduct(outer, inner);
    var k, m := PowerBelow(inner);
    a := seq(outer * inner, j => j);
    TreesShowOther(outer, inner, k, m, a);
    RunReTreeOnce(Second, outer, inner, a, 0);
    LeftFoldOfSecond(0, a);
  }

  lemma LeftFoldOfSecond(result: int, xs: seq<int>)
    requires xs != []
    ensures LeftFold(Second, result, xs) == Last(xs)
  {
  }

  /**
   For the order of the elements the block size must be a power of two: exactly then
   associativity alone makes the loop a left fold, for all operations and all arrays.
   */
  lemma ReTreeNeedsPowerOfTwo(outer: nat, inner: nat)
    requires outer >= 1 && inner >= 2
    ensures outer * inner > 0
    ensures (exists k: nat :: inner == Pow2(k)) <==> AlwaysLeftFold(ReTreeLoop(outer, inner))
  {
    StartIsProduct(outer, inner);
    if k: nat :| inner == Pow2(k) {
      PowerSuffices(outer, k);
    } else {
      var a := RotationShows(outer, inner);
      SecondRefutes(ReTreeLoop(outer, inner), a, 0);
    }
  }

  lemma PowerSuffices(outer: nat, k: nat)
    requires outer >= 1 && k >= 1
    ensures ReTreeLoop(outer, Pow2(k)).step > 0 && AlwaysLeftFold(ReTreeLoop(outer, Pow2(k)))
  {
    StartIsProduct(outer, Pow2(k));
    var loop := ReTreeLoop(outer, Pow2(k));
    forall op: Op, a: seq<int>, result: int | Associative(op) ensures IsLeftFold(op, loop, a, result) {
      ReTreePowerOfTwo(op, outer, k, a, result);
    }
  }

  lemma SecondRefutes(loop: Loop, a: seq<int>, result: int)
    requires loop.step > 0 && !IsLeftFold(Second, loop, a, result)
    ensures !AlwaysLeftFold(loop)
  {
    SecondIsAssociative();
  }

  lemma SecondIsAssociative()
    ensures Associative(Second)
  {
  }

  lemma RunReTreeOnce(op: Op, outer: nat, inner: nat, a: seq<int>, result: int)
    requires outer >= 1 && inner >= 2 && |a| == outer * inner > 0
    ensures Run(op, ReTreeLoop(outer, inner), a, 0, result) ==
      Some(ValueOf(op, ReTreeExpr(outer, inner), a, 0, result))
    ensures |a| % (outer * inner) == 0
  {
    StartIsProduct(outer, inner);
    var env := InlineReTree(outer, inner);
    ReadsOfReTree(outer, inner);
    RunOneStep(op, ReTreeLoop(outer, inner), ReTreeExpr(outer, inner), a, result);
  }

  /** On an array of one step the loop runs once. */
  lemma RunOneStep(op: Op, loop: Loop, e: Expr, a: seq<int>, result: int)
    requires |a| == loop.step > 0 && Inline(loop.body) == Some(e) && Reads(loop.body) == Range(0, loop.step)
    ensures Run(op, loop, a, 0, result) == Some(ValueOf(op, e, a, 0, result))
  {
    IterationIsInlined(op, loop.body, a, 0, result);
    assert Fits(Reads(loop.body), a, 0);
  }

  lemma {:induction false} BaseFoldOfSecond(result: int, xs: seq<int>)
    ensures BaseFold(Second, result, xs) == result
  {
    if xs != [] {
      BaseFoldOfSecond(result, xs[..|xs| - 1]);
    }
  }

  /**
   Chained blocks need commutativity whatever their size: with an operation that is only
   associative they yield neither the fold in array order nor what expect returns.
   */
  lemma ReassocByNeedsCommutativity(outer: nat, inner: nat) returns (op: Op, a: seq<int>)
    requires outer >= 1 && inner >= 2
    ensures Associative(op) && outer * inner > 0 && |a| == outer * inner
    ensures Run(op, ReassocByLoop(outer, inner), a, 0, 0) != Some(LeftFold(op, 0, a))
    ensures Run(op, ReassocByLoop(outer, inner), a, 0, 0) != Run(op, EXPECT_LOOP, a, 0, 0)
  {
    op, a := Second, seq(outer * inner, j => j + 1);
    StartIsProduct(outer, inner);
    var env := InlineReassocBy(outer, inner);
    ReadsOfReassocBy(outer, inner);
    RunOneStep(op, ReassocByLoop(outer, inner), ReassocByExpr(outer, inner), a, 0);
    ChainShowsFirst(outer, inner, a);
    SimpleLoops(op, a, 0);
    BaseFoldOfSecond(0, a);
    LeftFoldOfSecond(0, a);
    SecondIsAssociative();
  }

  lemma LastOfChain(from: nat, inner: nat)
    requires inner >= 2
    ensures Last(Leaves(BlockChain(from, inner))) == Leaf(from)
  {
    LeavesOfBlockChain(from, inner);
  }

  lemma ChainShowsItsFirst(from: nat, inner: nat, a: seq<int>)
    requires inner >= 2 && from < |a|
    ensures ValueOf(Second, BlockChain(from, inner), a, 0, 0) == a[from]
  {
    SecondTakesLastLeaf(BlockChain(from, inner), a, 0, 0);
    LastOfChain(from, inner);
  }

  /** The last block of chains shows its first element. */
  lemma ChainShowsFirst(outer: nat, inner: nat, a: seq<int>)
    requires outer >= 1 && inner >= 2 && |a| == Start(outer, inner)
    ensures Start(outer - 1, inner) + inner == |a|
    ensures ValueOf(Second, ReassocByExpr(outer, inner), a, 0, 0) == a[Start(outer - 1, inner)]
  {
    var from := Start(outer - 1, inner);
    NextReassocBy(outer, inner);
    SecondOfNode(ReassocByExpr(outer - 1, inner), BlockChain(from, inner), a, 0, 0);
    ChainShowsItsFirst(from, inner, a);
  }
}
