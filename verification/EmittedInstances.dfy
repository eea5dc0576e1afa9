/**
 Emitted programs, statement by statement as they stand in the repository, against the
 model of the generator.
 */
module EmittedInstances {
  import opened LoopCode
  import opened ReductionTrees
  import opened Generator
  import opened GeneratorMethods

  function EightLoads(from: nat): seq<Stmt> {
    [Declare(V(from), Elem(from)), Declare(V(from + 1), Elem(from + 1)),
     Declare(V(from + 2), Elem(from + 2)), Declare(V(from + 3), Elem(from + 3)),
     Declare(V(from + 4), Elem(from + 4)), Declare(V(from + 5), Elem(from + 5)),
     Declare(V(from + 6), Elem(from + 6)), Declare(V(from + 7), Elem(from + 7))]
  }

  lemma LoadsStep(from: nat, n: nat)
    requires n > 0
    ensures Loads(from, n) == Loads(from, n - 1) + [Declare(V(from + n - 1), Elem(from + n - 1))]
  {
  }

  lemma LoadsOfEight(from: nat)
    ensures Loads(from, 8) == EightLoads(from)
  {
    assert Loads(from, 0) == [];
    LoadsStep(from, 1);
    LoadsStep(from, 2);
    LoadsStep(from, 3);
    LoadsStep(from, 4);
    LoadsStep(from, 5);
    LoadsStep(from, 6);
    LoadsStep(from, 7);
    LoadsStep(from, 8);
  }

  lemma DrainStep(q: seq<Name>, t: nat, x: Name, y: Name, rest: seq<Name>)
    requires q == [x, y] + rest
    ensures Drain(q, t) == [Declare(T(t), Max(x, y))] + Drain(rest + [T(t)], t + 1)
  {
    assert q[2..] == rest;
  }

  lemma DrainOfEight(a: Name, b: Name, c: Name, d: Name, e: Name, f: Name, g: Name, h: Name, t: nat)
    ensures Drain([a, b, c, d, e, f, g, h], t) ==
      [Declare(T(t), Max(a, b)), Declare(T(t + 1), Max(c, d)), Declare(T(t + 2), Max(e, f)),
       Declare(T(t + 3), Max(g, h)), Declare(T(t + 4), Max(T(t), T(t + 1))),
       Declare(T(t + 5), Max(T(t + 2), T(t + 3))), Declare(T(t + 6), Max(T(t + 4), T(t + 5)))]
  {
    assert [a, b, c, d, e, f, g, h] == [a, b, c, d] + [e, f, g, h];
    DrainFour(a, b, c, d, [e, f, g, h], t);
    DrainFour(e, f, g, h, [T(t), T(t + 1)], t + 2);
    assert [T(t), T(t + 1)] + [T(t + 2), T(t + 3)] == [T(t), T(t + 1), T(t + 2), T(t + 3)] + [];
    DrainFour(T(t), T(t + 1), T(t + 2), T(t + 3), [], t + 4);
    assert [] + [T(t + 4), T(t + 5)] == [T(t + 4), T(t + 5)] + [];
    DrainStep([T(t + 4), T(t + 5)], t + 6, T(t + 4), T(t + 5), []);
    assert Drain([] + [T(t + 6)], t + 7) == [];
  }

  lemma DrainFour(a: Name, b: Name, c: Name, d: Name, rest: seq<Name>, t: nat)
    ensures Drain([a, b, c, d] + rest, t) ==
      [Declare(T(t), Max(a, b)), Declare(T(t + 1), Max(c, d))] + Drain(rest + [T(t), T(t + 1)], t + 2)
  {
    DrainStep([a, b, c, d] + rest, t, a, b, [c, d] + rest);
    assert ([c, d] + rest) + [T(t)] == [c, d] + (rest + [T(t)]);
    DrainStep(([c, d] + rest) + [T(t)], t + 1, c, d, rest + [T(t)]);
    assert (rest + [T(t)]) + [T(t + 1)] == rest + [T(t), T(t + 1)];
  }

  /** Either half of the loop body in ReTree8x2/Test.java. */
  lemma TreeBlockOfEight(from: nat, t: nat)
    ensures ReTreeBlock(from, 8, t) == EightLoads(from) +
      [Declare(T(t), Max(V(from), V(from + 1))), Declare(T(t + 1), Max(V(from + 2), V(from + 3))),
       Declare(T(t + 2), Max(V(from + 4), V(from + 5))), Declare(T(t + 3), Max(V(from + 6), V(from + 7))),
       Declare(T(t + 4), Max(T(t), T(t + 1))), Declare(T(t + 5), Max(T(t + 2), T(t + 3))),
       Declare(T(t + 6), Max(T(t + 4), T(t + 5)))] + [Assign(Result, Max(Result, T(t + 6)))]
  {
    LoadsOfEight(from);
    assert LoadNames(from, 8) ==
      [V(from), V(from + 1), V(from + 2), V(from + 3), V(from + 4), V(from + 5), V(from + 6), V(from + 7)];
    DrainOfEight(V(from), V(from + 1), V(from + 2), V(from + 3), V(from + 4), V(from + 5), V(from + 6), V(from + 7), t);
  }

  lemma TwoTreeBlocks(inner: nat)
    requires inner >= 1
    ensures ReTreeBody(2, inner) == ReTreeBlock(0, inner, 0) + ReTreeBlock(inner, inner, inner - 1)
  {
    assert Start(0, inner) == Start(0, inner - 1) == 0;
    assert Start(1, inner) == inner && Start(1, inner - 1) == inner - 1;
    assert ReTreeBody(0, inner) == [];
    assert ReTreeBody(1, inner) == [] + ReTreeBlock(0, inner, 0) == ReTreeBlock(0, inner, 0);
  }

  /** The two halves: the second numbers its temporaries from t7 on. */
  lemma EmittedReTree8x2()
    ensures TestLoop(ReTree8x2) == Loop(16, ReTreeBlock(0, 8, 0) + ReTreeBlock(8, 8, 7))
  {
    TwoTreeBlocks(8);
  }

  function ChainOfSeven(from: nat): seq<Stmt> {
    [Declare(T(from), Max(V(from + 1), V(from))), Declare(T(from + 1), Max(V(from + 2), T(from))),
     Declare(T(from + 2), Max(V(from + 3), T(from + 1))), Declare(T(from + 3), Max(V(from + 4), T(from + 2))),
     Declare(T(from + 4), Max(V(from + 5), T(from + 3))), Declare(T(from + 5), Max(V(from + 6), T(from + 4))),
     Declare(T(from + 6), Max(V(from + 7), T(from + 5)))]
  }

  lemma ChainStep(t0: nat, v0: nat, n: nat)
    requires n > 0
    ensures Chain(t0, v0, n) == Chain(t0, v0, n - 1) + [Declare(T(t0 + n), Max(V(v0 + n), T(t0 + n - 1)))]
  {
  }

  /** Either half of the loop body in Reassoc8x2/Test.java. */
  lemma ChainBlockOfEight(from: nat)
    ensures ChainBlock(from, 8, from + 6) ==
      EightLoads(from) + ChainOfSeven(from) + [Assign(Result, Max(Result, T(from + 6)))]
  {
    LoadsOfEight(from);
    assert Chain(from, from + 1, 0) == [];
    ChainStep(from, from + 1, 1);
    ChainStep(from, from + 1, 2);
    ChainStep(from, from + 1, 3);
    ChainStep(from, from + 1, 4);
    ChainStep(from, from + 1, 5);
    ChainStep(from, from + 1, 6);
    assert [Declare(T(from), Max(V(from + 1), V(from)))] + Chain(from, from + 1, 6) == ChainOfSeven(from);
  }

  lemma TwoChainBlocks(inner: nat)
    requires inner >= 2
    ensures ReassocByBody(2, inner) == ChainBlock(0, inner, inner - 2) + ChainBlock(inner, inner, 2 * inner - 2)
  {
    assert Start(0, inner) == 0 && Start(1, inner) == inner;
    assert ReassocByBody(0, inner) == [];
    assert ReassocByBody(1, inner) == [] + ChainBlock(0, inner, inner - 2) == ChainBlock(0, inner, inner - 2);
  }

  /** The two halves: the first ends with t6, the second begins with t8. */
  lemma EmittedReassoc8x2()
    ensures TestLoop(Reassoc8x2) == Loop(16, ChainBlock(0, 8, 6) + ChainBlock(8, 8, 14))
  {
    TwoChainBlocks(8);
  }

  /** The loop body in Unroll2/Test.java, and its comment. */
  lemma EmittedUnroll2()
    ensures TestLoop(Unroll2) == Loop(2,
      [Declare(V(0), Elem(0)), Declare(V(1), Elem(1)), Declare(T(0), Max(V(0), Result)),
       Declare(T(1), Max(V(1), T(0))), Assign(Result, Copy(T(1)))])
    ensures Inline(TestLoop(Unroll2).body).Some?
    ensures Print(Inline(TestLoop(Unroll2).body).value) == "max(v1, max(v0, result))"
  {
    assert Loads(0, 0) == [] && Chain(0, 0, 0) == [];
    LoadsStep(0, 1);
    LoadsStep(0, 2);
    ChainStep(0, 0, 1);
    InlineUnroll(2);
    PrintedUnroll2();
  }

  lemma PrintedLeaves()
    ensures Print(Leaf(0)) == "v0" && Print(Leaf(1)) == "v1" && Print(Old) == "result"
  {
    assert Decimal(0) == "0" && Decimal(1) == "1";
  }

  lemma PrintedUnroll2()
    ensures Print(UnrollExpr(2)) == "max(v1, max(v0, result))"
  {
    var e := Node(Leaf(0), Old);
    assert UnrollExpr(0) == Old && UnrollExpr(1) == e && UnrollExpr(2) == Node(Leaf(1), e);
    PrintedLeaves();
    PrintedNode(Leaf(0), Old);
    PrintedNode(Leaf(1), e);
    assert "max(" + "v0" + ", " + "result" + ")" == "max(v0, result)";
    assert "max(" + "v1" + ", " + "max(v0, result)" + ")" == "max(v1, max(v0, result))";
  }

  lemma PrintedNode(l: Expr, r: Expr)
    ensures Print(Node(l, r)) == "max(" + Print(l) + ", " + Print(r) + ")"
  {
  }

  /** The loop body in Reassoc2/Test.java, and its comment. */
  lemma EmittedReassoc2()
    ensures TestLoop(Reassoc2) == Loop(2,
      [Declare(V(0), Elem(0)), Declare(V(1), Elem(1)), Declare(T(0), Max(V(1), V(0))),
       Assign(Result, Max(Result, T(0)))])
    ensures Inline(TestLoop(Reassoc2).body).Some?
    ensures Print(Inline(TestLoop(Reassoc2).body).value) == "max(result, max(v1, v0))"
  {
    assert Loads(0, 0) == [] && Chain(0, 1, 0) == [];
    LoadsStep(0, 1);
    LoadsStep(0, 2);
    InlineReassoc(2);
    PrintedReassoc2();
  }

  lemma PrintedReassoc2()
    ensures Print(Node(Old, BlockChain(0, 2))) == "max(result, max(v1, v0))"
  {
    PrintedLeaves();
    assert BlockChain(0, 2) == Node(Leaf(1), Leaf(0));
    PrintedNode(Leaf(1), Leaf(0));
    PrintedNode(Old, Node(Leaf(1), Leaf(0)));
    assert "max(" + "v1" + ", " + "v0" + ")" == "max(v1, v0)";
    assert "max(" + "result" + ", " + "max(v1, v0)" + ")" == "max(result, max(v1, v0))";
  }
}
