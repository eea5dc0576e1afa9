/**
 The generator methods of Gen.java as they run: loops that append statements, a queue of
 names, and the text comment that grows at both ends.
 */
module GeneratorMethods {
  import opened Common
  import opened LoopCode
  import opened ReductionTrees
  import opened Generator
  import opened ReductionEquivalence
  import opened GeneratedLoops
  import JavaInt

  function Digit(d: nat): char
    requires d < 10
  {
    ['0', '1', '2', '3', '4', '5', '6', '7', '8', '9'][d]
  }

  function Decimal(n: nat): string {
    if n < 10 then [Digit(n)] else Decimal(n / 10) + [Digit(n % 10)]
  }

  /** A digit string read as a number, the most significant digit first. */
  function Reading(s: string): int {
    if s == "" then 0 else 10 * Reading(s[..|s| - 1]) + (Last(s) as int - '0' as int)
  }

  lemma {:induction false} DecimalReads(n: nat)
    ensures Reading(Decimal(n)) == n && Decimal(n) != ""
    ensures forall c :: c in Decimal(n) ==> '0' <= c <= '9'
    ensures n > 0 ==> Decimal(n)[0] != '0'
  {
    var d := [Digit(n % 10)];
    assert d[..0] == "" && Reading(d[..0]) == 0;
    if n >= 10 {
      DecimalReads(n / 10);
      assert Decimal(n) == Decimal(n / 10) + d;
      assert Decimal(n)[..|Decimal(n)| - 1] == Decimal(n / 10);
    }
  }

  /** The expression, fully parenthesised, in the notation of the comments. */
  function Print(e: Expr): string {
    match e
    case Old => "result"
    case Leaf(k) => "v" + Decimal(k)
    case Node(l, r) => "max(" + Print(l) + ", " + Print(r) + ")"
  }

  function Link(k: nat): string {
    "max(v" + Decimal(k) + ", "
  }

  lemma {:induction false} FlatPrepend<X>(s: seq<X>, ss: seq<seq<X>>)
    ensures Flat([s] + ss) == s + Flat(ss)
  {
    if ss == [] {
      assert [s] + ss == [s] && [s][..0] == [];
      assert Flat([s]) == Flat([s][..0]) + s;
    } else {
      assert ([s] + ss)[..|ss|] == [s] + ss[..|ss| - 1];
      FlatPrepend(s, ss[..|ss| - 1]);
    }
  }

  /** One link: an opening at the front of the comment, a parenthesis at the back. */
  lemma WrapComment(comment: seq<string>, front: string, e: Expr)
    requires Flat(comment) == Print(e)
    ensures Flat([front] + comment + [")"]) == front + Print(e) + ")"
  {
    FlatAppend([front] + comment, ")");
    FlatPrepend(front, comment);
  }

  /** The loop that loads n elements into variables, at the start of every block. */
  method EmitLoads(before: seq<Stmt>, from: nat, n: nat) returns (builder: seq<Stmt>)
    ensures builder == before + Loads(from, n)
  {
    builder := before;
    for j := 0 to n
      invariant builder == before + Loads(from, j)
    {
      builder := builder + [Declare(V(from + j), Elem(from + j))];
    }
  }

  method Unroll(size: nat) returns (loop: Loop, comment: string)
    ensures loop == UnrollLoop(size)
    ensures size >= 1 ==> Inline(loop.body).Some? && comment == "result = " + Print(Inline(loop.body).value)
  {
    var builder := EmitLoads([], 0, size);
    assert builder == Loads(0, size);
    var parts: seq<string> := ["max(v0, result)"];
    var first := Declare(T(0), Max(V(0), Result));
    builder := builder + [first];
    var index := 1;
    PrintFirst();
    var i := index;
    while i < size
      invariant index == i && 1 <= i && (i <= size || i == 1)
      invariant builder == Loads(0, size) + [first] + Chain(0, 0, i - 1)
      invariant Flat(parts) == Print(UnrollExpr(i))
    {
      WrapComment(parts, Link(index), UnrollExpr(index));
      PrintLink(index, UnrollExpr(index));
      parts := [Link(index)] + parts + [")"];
      builder := builder + [Declare(T(index), Max(V(index), T(index - 1)))];
      index := index + 1;
      i := i + 1;
    }
    FlatPrepend("result = ", parts);
    parts := ["result = "] + parts;
    comment := Flat(parts);
    builder := builder + [Assign(Result, Copy(T(index - 1)))];
    loop := Loop(size, builder);
    if size >= 1 {
      InlineUnroll(size);
    }
  }

  lemma PrintFirst()
    ensures Flat(["max(v0, result)"]) == Print(UnrollExpr(1))
  {
    FlatPrepend("max(v0, result)", []);
    assert ["max(v0, result)"] + [] == ["max(v0, result)"];
    assert UnrollExpr(1) == Node(Leaf(0), UnrollExpr(0)) && UnrollExpr(0) == Old;
    assert Decimal(0) == "0";
    assert "max(" + ("v" + "0") + ", " + "result" + ")" == "max(v0, result)";
  }

  lemma PrintLink(k: nat, e: Expr)
    ensures Print(Node(Leaf(k), e)) == Link(k) + Print(e) + ")"
  {
    assert "max(" + ("v" + Decimal(k)) == "max(v" + Decimal(k);
  }

  lemma InlineReassoc(size: nat)
    requires size >= 2
    ensures Inline(ReassocBody(size)) == Some(Node(Old, BlockChain(0, size)))
  {
    ReassocIsReassocBy(size);
    var env := InlineReassocBy(1, size);
    MergeSnoc([], BlockChain(0, size));
    assert ChainBlocks(1, size) == [] + [BlockChain(Start(0, size), size)];
  }

  lemma PrintSecond()
    ensures Flat(["max(v1, v0)"]) == Print(BlockChain(0, 2))
  {
    FlatPrepend("max(v1, v0)", []);
    assert ["max(v1, v0)"] + [] == ["max(v1, v0)"];
    assert BlockChain(0, 2) == Node(Leaf(1), Leaf(0));
    assert Decimal(0) == "0" && Decimal(1) == "1";
    assert "max(" + ("v" + "1") + ", " + ("v" + "0") + ")" == "max(v1, v0)";
  }

  method Reassoc(size: nat) returns (loop: Loop, comment: string)
    ensures loop == ReassocLoop(size)
    ensures size >= 2 ==> Inline(loop.body).Some? && comment == "result = " + Print(Inline(loop.body).value)
  {
    var builder := EmitLoads([], 0, size);
    assert builder == Loads(0, size);
    var parts: seq<string> := ["max(v1, v0)"];
    var first := Declare(T(0), Max(V(1), V(0)));
    builder := builder + [first];
    var index := 1;
    PrintSecond();
    var i := index;
    while i < size - 1
      invariant index == i && 1 <= i && (i <= size - 1 || i == 1)
      invariant builder == Loads(0, size) + [first] + Chain(0, 1, i - 1)
      invariant Flat(parts) == Print(BlockChain(0, i + 1))
    {
      WrapComment(parts, Link(index + 1), BlockChain(0, i + 1));
      PrintLink(index + 1, BlockChain(0, i + 1));
      parts := [Link(index + 1)] + parts + [")"];
      builder := builder + [Declare(T(index), Max(V(index + 1), T(index - 1)))];
      index := index + 1;
      i := i + 1;
    }
    WrapComment(parts, "result = max(result, ", BlockChain(0, i + 1));
    comment := Flat(["result = max(result, "] + parts + [")"]);
    builder := builder + [Assign(Result, Max(Result, T(index - 1)))];
    loop := Loop(size, builder);
    if size >= 2 {
      PrintMerge(size);
    }
  }

  lemma PrintMerge(size: nat)
    requires size >= 2
    ensures Inline(ReassocBody(size)).Some?
    ensures "result = max(result, " + Print(BlockChain(0, size)) + ")" ==
      "result = " + Print(Inline(ReassocBody(size)).value)
  {
    InlineReassoc(size);
    var chain := Print(BlockChain(0, size));
    assert "result = " + ("max(" + "result" + ", " + chain + ")") == "result = max(result, " + chain + ")";
  }

  /** One block of reassocBy: the loads, the chain, and the merge into the result. */
  method EmitChainBlock(before: seq<Stmt>, index: nat, inner: nat) returns (builder: seq<Stmt>)
    ensures builder == before + ChainBlock(index, inner, index + inner - 2)
  {
    builder := EmitLoads(before, index, inner);
    var first := Declare(T(index), Max(V(index + 1), V(index)));
    builder := builder + [first];
    var j := 1;
    while j < inner - 1
      invariant 1 <= j && (j <= inner - 1 || j == 1)
      invariant builder == before + Loads(index, inner) + [first] + Chain(index, index + 1, j - 1)
    {
      builder := builder + [Declare(T(index + j), Max(V(index + j + 1), T(index + j - 1)))];
      j := j + 1;
    }
    builder := builder + [Assign(Result, Max(Result, T(index + inner - 2)))];
  }

  method ReassocBy(outer: nat, inner: nat) returns (loop: Loop)
    ensures loop == ReassocByLoop(outer, inner)
  {
    var builder: seq<Stmt> := [];
    for i := 0 to outer
      invariant builder == ReassocByBody(i, inner)
    {
      StartIsProduct(i, inner);
      builder := EmitChainBlock(builder, i * inner, inner);
    }
    loop := Loop(outer * inner, builder);
  }

  /** The loop that combines the two names at the front of the queue until one is left. */
  method DrainQueue(before: seq<Stmt>, queue: seq<Name>, t: nat) returns (builder: seq<Stmt>, nameIndex: nat)
    ensures builder == before + Drain(queue, t) && nameIndex == t + Minus(|queue|, 1)
  {
    builder, nameIndex := before, t;
    var names := queue;
    while |names| > 1
      invariant nameIndex + Minus(|names|, 1) == t + Minus(|queue|, 1)
      invariant builder + Drain(names, nameIndex) == before + Drain(queue, t)
      decreases |names|
    {
      var name := T(nameIndex);
      var left, right := names[0], names[1];
      var stmt := Declare(name, Max(left, right));
      ghost var rest := Drain(names[2..] + [name], nameIndex + 1);
      assert builder + ([stmt] + rest) == (builder + [stmt]) + rest;
      builder := builder + [stmt];
      names := names[2..] + [name];
      nameIndex := nameIndex + 1;
    }
    assert builder + [] == builder;
  }

  /** The loop that loads a block and queues the names of its elements. */
  method EmitNamedLoads(before: seq<Stmt>, from: nat, n: nat) returns (builder: seq<Stmt>, names: seq<Name>)
    ensures builder == before + Loads(from, n) && names == LoadNames(from, n)
  {
    builder, names := before, [];
    for j := 0 to n
      invariant builder == before + Loads(from, j) && names == LoadNames(from, j)
    {
      var name := V(from + j);
      builder := builder + [Declare(name, Elem(from + j))];
      names := names + [name];
    }
  }

  /** One block of reTree: the loads, the drained queue, and the merge of the last name. */
  method EmitTreeBlock(before: seq<Stmt>, index: nat, inner: nat, t: nat) returns (builder: seq<Stmt>, nameIndex: nat)
    ensures builder == before + ReTreeBlock(index, inner, t) && nameIndex == t + Minus(inner, 1)
  {
    var names;
    builder, names := EmitNamedLoads(before, index, inner);
    builder, nameIndex := DrainQueue(builder, names, t);
    builder := builder + [Assign(Result, Max(Result, T(nameIndex as int - 1)))];
  }

  method ReTree(outer: nat, inner: nat) returns (loop: Loop)
    ensures loop == ReTreeLoop(outer, inner)
  {
    var builder: seq<Stmt>, nameIndex := [], 0;
    for i := 0 to outer
      invariant builder == ReTreeBody(i, inner) && nameIndex == Start(i, Minus(inner, 1))
    {
      StartIsProduct(i, inner);
      builder, nameIndex := EmitTreeBlock(builder, i * inner, inner, nameIndex);
    }
    loop := Loop(outer * inner, builder);
  }

  // ----- the variants

  datatype Variant =
    | Base
    | Reassoc2 | Unroll2 | Reassoc4 | Unroll4 | Reassoc8 | Unroll8 | Reassoc16 | Unroll16
    | Reassoc4x4 | Reassoc2x8 | Reassoc8x2
    | ReTree4x1 | ReTree4x4 | ReTree8x1 | ReTree8x2 | ReTree16x1

  function Size(option: Variant): nat {
    match option
    case Base => 0
    case Reassoc2 | Unroll2 => 2
    case Reassoc4 | Unroll4 => 4
    case Reassoc8 | Unroll8 => 8
    case Reassoc16 | Unroll16 => 16
    case Reassoc4x4 => 4
    case Reassoc2x8 => 8
    case Reassoc8x2 => 2
    case ReTree4x1 => 1
    case ReTree4x4 => 4
    case ReTree8x1 => 1
    case ReTree8x2 => 2
    case ReTree16x1 => 1
  }

  /** What is to be generated: so many elements in one run, or so many blocks of so many. */
  datatype Plan =
    | Simple | Unrolled(size: nat) | OneChain(size: nat)
    | Chained(outer: nat, inner: nat) | Treed(outer: nat, inner: nat)
  {
    predicate Fits() {
      match this
      case Simple => true
      case Unrolled(size) => size >= 1
      case OneChain(size) => size >= 2
      case Chained(outer, inner) => outer >= 1 && inner >= 2
      case Treed(outer, inner) => outer >= 1 && inner >= 2
    }

    function Step(): nat {
      match this
      case Simple => 1
      case Unrolled(size) => size
      case OneChain(size) => size
      case Chained(outer, inner) => outer * inner
      case Treed(outer, inner) => outer * inner
    }

    /** The operations from the old to the new result. */
    function Chain(): nat {
      match this
      case Simple => 1
      case Unrolled(size) => size
      case OneChain(_) => 1
      case Chained(outer, _) => outer
      case Treed(outer, _) => outer
    }

    /** The operations on the longest way to the new result: through the first block. */
    function Longest(): int {
      match this
      case Simple => 1
      case Unrolled(size) => size
      case OneChain(size) => size
      case Chained(outer, inner) => outer + (inner - 1)
      case Treed(outer, inner) => outer + CeilLog2(inner)
    }
  }

  function PlannedLoop(plan: Plan): Loop {
    match plan
    case Simple => BASE_LOOP
    case Unrolled(size) => UnrollLoop(size)
    case OneChain(size) => ReassocLoop(size)
    case Chained(outer, inner) => ReassocByLoop(outer, inner)
    case Treed(outer, inner) => ReTreeLoop(outer, inner)
  }

  /** The dispatch over the variants. */
  function Dispatch(option: Variant): Plan {
    var size := Size(option);
    match option
    case Base => Simple
    case Reassoc2 | Reassoc4 | Reassoc8 | Reassoc16 => OneChain(size)
    case Unroll2 | Unroll4 | Unroll8 | Unroll16 => Unrolled(size)
    case Reassoc4x4 => Chained(size, size)
    case Reassoc2x8 => Chained(size, size / 4)
    case Reassoc8x2 => Chained(size, size * 4)
    case ReTree4x1 => Treed(size, size * 4)
    case ReTree4x4 => Treed(size, size)
    case ReTree8x1 => Treed(size, size * 8)
    case ReTree8x2 => Treed(size, size * 4)
    case ReTree16x1 => Treed(size, size * 16)
  }

  function TestLoop(option: Variant): Loop {
    PlannedLoop(Dispatch(option))
  }

  /** The calls of the generators. */
  method Generate(plan: Plan) returns (loop: Loop)
    ensures loop == PlannedLoop(plan)
  {
    var comment;
    match plan {
      case Simple => loop := Loop(1, [Declare(Value, Elem(0)), Assign(Result, Max(Value, Result))]);
      case Unrolled(size) => loop, comment := Unroll(size);
      case OneChain(size) => loop, comment := Reassoc(size);
      case Chained(outer, inner) => loop := ReassocBy(outer, inner);
      case Treed(outer, inner) => loop := ReTree(outer, inner);
    }
  }

  method BuildTest(option: Variant) returns (loop: Loop)
    ensures loop == TestLoop(option)
  {
    loop := Generate(Dispatch(option));
  }

  const INTEGER_MIN_VALUE := -0x8000_0000

  const SIZE := 10_000

  lemma MaxLaws()
    ensures Associative(JavaInt.Max) && Commutative(JavaInt.Max)
  {
  }

  /** What the names of the variants promise. */
  function PlanOf(option: Variant): Plan {
    match option
    case Base => Simple
    case Reassoc2 => OneChain(2)
    case Reassoc4 => OneChain(4)
    case Reassoc8 => OneChain(8)
    case Reassoc16 => OneChain(16)
    case Unroll2 => Unrolled(2)
    case Unroll4 => Unrolled(4)
    case Unroll8 => Unrolled(8)
    case Unroll16 => Unrolled(16)
    case Reassoc4x4 => Chained(4, 4)
    case Reassoc2x8 => Chained(8, 2)
    case Reassoc8x2 => Chained(2, 8)
    case ReTree4x1 => Treed(1, 4)
    case ReTree4x4 => Treed(4, 4)
    case ReTree8x1 => Treed(1, 8)
    case ReTree8x2 => Treed(2, 8)
    case ReTree16x1 => Treed(1, 16)
  }

  lemma EveryVariantIsPlanned(option: Variant)
    ensures Dispatch(option) == PlanOf(option) && PlanOf(option).Fits()
    ensures PlanOf(option).Step() in {1, 2, 4, 8, 16}
  {
  }

  lemma PlanIsExpected(plan: Plan, a: seq<int>)
    requires plan.Fits()
    ensures plan.Step() > 0 && PlannedLoop(plan).step == plan.Step()
    ensures Run(JavaInt.Max, PlannedLoop(plan), a, 0, INTEGER_MIN_VALUE) ==
      Expected(JavaInt.Max, plan.Step(), a, INTEGER_MIN_VALUE)
  {
    MaxLaws();
    match plan {
      case Simple =>
        SimpleReduces(JavaInt.Max);
        ReducingIsExpected(JavaInt.Max, BASE_LOOP, a, INTEGER_MIN_VALUE);
      case Unrolled(size) => UnrollIsExpected(JavaInt.Max, size, a, INTEGER_MIN_VALUE);
      case OneChain(size) =>
        ReassocIsReassocBy(size);
        ReassocByIsExpected(JavaInt.Max, 1, size, a, INTEGER_MIN_VALUE);
      case Chained(outer, inner) => ReassocByIsExpected(JavaInt.Max, outer, inner, a, INTEGER_MIN_VALUE);
      case Treed(outer, inner) => ReTreeIsExpected(JavaInt.Max, outer, inner, a, INTEGER_MIN_VALUE);
    }
  }

  /** The generated `test` of every variant returns what the generated `expect` returns. */
  lemma EveryVariantIsExpected(option: Variant, a: seq<int>)
    ensures TestLoop(option).step in {1, 2, 4, 8, 16}
    ensures Run(JavaInt.Max, TestLoop(option), a, 0, INTEGER_MIN_VALUE) ==
      Expected(JavaInt.Max, TestLoop(option).step, a, INTEGER_MIN_VALUE)
  {
    EveryVariantIsPlanned(option);
    PlanIsExpected(Dispatch(option), a);
  }

  ghost predicate HasShape(loop: Loop, plan: Plan) {
    && loop.step == plan.Step() && Inline(loop.body).Some?
    && Latency(Inline(loop.body).value) == Some(plan.Chain())
    && Depth(Inline(loop.body).value) == plan.Longest()
  }

  lemma PlanHasShape(plan: Plan)
    requires plan.Fits()
    ensures HasShape(PlannedLoop(plan), plan)
  {
    match plan {
      case Simple => InlineSimple();
      case Unrolled(size) =>
        InlineUnroll(size);
        LatencyOfUnroll(size);
        DepthOfUnroll(size);
      case OneChain(size) =>
        ReassocIsReassocBy(size);
        var env := InlineReassocBy(1, size);
        LatencyOfReassocBy(1, size);
        DepthOfReassocBy(1, size);
      case Chained(outer, inner) =>
        var env := InlineReassocBy(outer, inner);
        LatencyOfReassocBy(outer, inner);
        DepthOfReassocBy(outer, inner);
      case Treed(outer, inner) =>
        var env := InlineReTree(outer, inner);
        LatencyOfReTree(outer, inner);
        DepthOfReTree(outer, inner);
    }
  }

  /** Every variant has the step, the chain and the depth for which it was written. */
  lemma EveryVariantHasShape(option: Variant)
    ensures HasShape(TestLoop(option), PlanOf(option))
  {
    EveryVariantIsPlanned(option);
    PlanHasShape(PlanOf(option));
  }

  lemma {:induction false} MaxFold(result: int, a: seq<int>)
    ensures var m := BaseFold(JavaInt.Max, result, a);
      m >= result && (forall x :: x in a ==> x <= m) && (m == result || m in a)
  {
    if a != [] {
      assert a == a[..|a| - 1] + [Last(a)];
      MaxFold(result, a[..|a| - 1]);
    }
  }

  /** What a variant returns is the maximum of the array and of the int range's lower end. */
  lemma EveryVariantFindsMaximum(option: Variant, a: seq<int>)
    requires PlanOf(option).Step() > 0 && |a| % PlanOf(option).Step() == 0
    ensures TestLoop(option).step > 0 && Run(JavaInt.Max, TestLoop(option), a, 0, INTEGER_MIN_VALUE).Some?
    ensures var m := Run(JavaInt.Max, TestLoop(option), a, 0, INTEGER_MIN_VALUE).value;
      m >= -0x8000_0000 && (forall x :: x in a ==> x <= m) && (m == -0x8000_0000 || m in a)
  {
    EveryVariantHasShape(option);
    EveryVariantIsExpected(option, a);
    SimpleLoops(JavaInt.Max, a, INTEGER_MIN_VALUE);
    MaxFold(INTEGER_MIN_VALUE, a);
  }

  lemma Validated(loop: Loop, a: seq<int>)
    requires loop.step in {1, 2, 4, 8, 16} && |a| == SIZE
    requires Run(JavaInt.Max, loop, a, 0, INTEGER_MIN_VALUE) == Expected(JavaInt.Max, loop.step, a, INTEGER_MIN_VALUE)
    ensures Run(JavaInt.Max, loop, a, 0, INTEGER_MIN_VALUE) == Run(JavaInt.Max, EXPECT_LOOP, a, 0, INTEGER_MIN_VALUE)
  {
    assert SIZE % 1 == SIZE % 2 == SIZE % 4 == SIZE % 8 == SIZE % 16 == 0;
  }

  /** On the array that every generated program uses, the validation step passes. */
  lemma ValidationPasses(option: Variant, a: seq<int>)
    requires |a| == SIZE
    ensures TestLoop(option).step > 0
    ensures Run(JavaInt.Max, TestLoop(option), a, 0, INTEGER_MIN_VALUE) ==
      Run(JavaInt.Max, EXPECT_LOOP, a, 0, INTEGER_MIN_VALUE)
    ensures Run(JavaInt.Max, EXPECT_LOOP, a, 0, INTEGER_MIN_VALUE).Some?
  {
    EveryVariantIsExpected(option, a);
    SimpleLoops(JavaInt.Max, a, INTEGER_MIN_VALUE);
    Validated(TestLoop(option), a);
  }

  // ----- what is needed for the emitted body to be a program at all

  lemma {:induction false} FirstTreeFails(outer: nat, inner: nat)
    requires outer >= 1 && inner < 2
    ensures InlineAll(ReTreeBody(outer, inner), map[Result := Old]) == None
  {
    if outer == 1 {
      var env: Inlined := map[Result := Old];
      var loaded := InlineLoads(env, 0, inner, 0);
      var merge := Assign(Result, Max(Result, T(-1)));
      InlineSnoc(Loads(0, inner), merge, env);
      assert Drain(LoadNames(0, inner), 0) == [];
      assert ReTreeBlock(0, inner, 0) == Loads(0, inner) + [merge];
      assert ReTreeBody(0, inner) == [] && Start(0, inner) == Start(0, Minus(inner, 1)) == 0;
      assert ReTreeBody(1, inner) == ReTreeBlock(0, inner, 0);
    } else {
      FirstTreeFails(outer - 1, inner);
      InlineConcat(ReTreeBody(outer - 1, inner),
                   ReTreeBlock(Start(outer - 1, inner), inner, Start(outer - 1, Minus(inner, 1))), map[Result := Old]);
    }
  }

  /** The emitted trees are well-scoped exactly for blocks of at least two elements, and else never get through. */
  lemma ReTreeIsProgram(outer: nat, inner: nat, op: Op, a: seq<int>, i: nat, result: int)
    requires outer >= 1
    ensures Inline(ReTreeBody(outer, inner)).Some? <==> inner >= 2
    ensures inner < 2 ==> Iterate(op, ReTreeBody(outer, inner), a, i, result) == None
  {
    if inner >= 2 {
      var env := InlineReTree(outer, inner);
    } else {
      FirstTreeFails(outer, inner);
      NotInlinedNotRun(op, ReTreeBody(outer, inner), a, i, result);
    }
  }

  lemma ShortChainFails(inner: nat, last: int)
    requires inner < 2
    ensures InlineAll(ChainBlock(0, inner, last), map[Result := Old]) == None
  {
    var env: Inlined := map[Result := Old];
    var loaded := InlineLoads(env, 0, inner, 0);
    var first := Declare(T(0), Max(V(1), V(0)));
    InlineSnoc(Loads(0, inner), first, env);
    assert ChainTemps(0, inner) == Loads(0, inner) + [first];
    InlineSnoc(ChainTemps(0, inner), Assign(Result, Max(Result, T(last))), env);
  }

  lemma {:induction false} FirstChainFails(outer: nat, inner: nat)
    requires outer >= 1 && inner < 2
    ensures InlineAll(ReassocByBody(outer, inner), map[Result := Old]) == None
  {
    if outer == 1 {
      ShortChainFails(inner, inner - 2);
      assert ReassocByBody(0, inner) == [] && Start(0, inner) == 0;
      assert ReassocByBody(1, inner) == ChainBlock(0, inner, inner - 2);
    } else {
      FirstChainFails(outer - 1, inner);
      var from := Start(outer - 1, inner);
      InlineConcat(ReassocByBody(outer - 1, inner), ChainBlock(from, inner, from + inner - 2), map[Result := Old]);
    }
  }

  lemma ChainsArePrograms(outer: nat, inner: nat, op: Op, a: seq<int>, i: nat, result: int)
    requires outer >= 1
    ensures Inline(ReassocByBody(outer, inner)).Some? <==> inner >= 2
    ensures Inline(ReassocBody(inner)).Some? <==> inner >= 2
    ensures inner < 2 ==> Iterate(op, ReassocByBody(outer, inner), a, i, result) == None
    ensures inner < 2 ==> Iterate(op, ReassocBody(inner), a, i, result) == None
  {
    if inner >= 2 {
      var env := InlineReassocBy(outer, inner);
      InlineReassoc(inner);
    } else {
      FirstChainFails(outer, inner);
      NotInlinedNotRun(op, ReassocByBody(outer, inner), a, i, result);
      ShortChainFails(inner, Minus(inner, 2));
      NotInlinedNotRun(op, ReassocBody(inner), a, i, result);
    }
  }

  lemma UnrollIsProgram(size: nat)
    ensures Inline(UnrollBody(size)).Some? <==> size >= 1
  {
    if size >= 1 {
      InlineUnroll(size);
    } else {
      var env: Inlined := map[Result := Old];
      var first := Declare(T(0), Max(V(0), Result));
      InlineSnoc([], first, env);
      assert UnrollTemps(0) == [] + [first];
      InlineSnoc(UnrollTemps(0), Assign(Result, Copy(T(0))), env);
    }
  }
}
