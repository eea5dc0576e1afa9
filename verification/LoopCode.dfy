/**
 The straight-line loop bodies that reassoc-reduct-chain-8351409/src-gen/Gen.java emits,
 their execution, and their execution on symbols, which inlines every temporary.
 */
module LoopCode {
  import opened Common

  /** The local variables "v7", "t3", "result", and the plain "v" and "t" of the simple loops. */
  datatype Name = V(n: int) | T(n: int) | Result | Value | Temp

  /** `array[i + offset]`, `Math.max(left, right)`, or a variable. */
  datatype Rhs = Elem(offset: nat) | Max(left: Name, right: Name) | Copy(name: Name)

  /** `var name = rhs` or `name = rhs`. */
  datatype Stmt = Declare(name: Name, rhs: Rhs) | Assign(name: Name, rhs: Rhs)

  /** `for (int i = 0; i < array.length; i += step) { body }` */
  datatype Loop = Loop(step: nat, body: seq<Stmt>)

  type Op = (int, int) -> int

  type Env = map<Name, int>

  // ----- execution; None is a name out of scope or declared twice, or an index out of bounds

  function EvalRhs(op: Op, rhs: Rhs, env: Env, a: seq<int>, i: nat): Option<int> {
    match rhs
    case Elem(k) => if i + k < |a| then Some(a[i + k]) else None
    case Max(l, r) => if l in env && r in env then Some(op(env[l], env[r])) else None
    case Copy(x) => if x in env then Some(env[x]) else None
  }

  /** A declaration needs a new name, an assignment a known one. */
  predicate InScope(stmt: Stmt, names: set<Name>) {
    stmt.Assign? <==> stmt.name in names
  }

  function ExecOne(op: Op, stmt: Stmt, env: Env, a: seq<int>, i: nat): Option<Env> {
    match EvalRhs(op, stmt.rhs, env, a, i)
    case None => None
    case Some(x) => if InScope(stmt, env.Keys) then Some(env[stmt.name := x]) else None
  }

  function Exec(op: Op, body: seq<Stmt>, env: Env, a: seq<int>, i: nat): Option<Env> {
    if body == [] then Some(env)
    else
      match Exec(op, body[..|body| - 1], env, a, i)
      case None => None
      case Some(now) => ExecOne(op, Last(body), now, a, i)
  }

  /** One iteration: `result` before to `result` after; the other names are local to it. */
  function Iterate(op: Op, body: seq<Stmt>, a: seq<int>, i: nat, result: int): Option<int> {
    match Exec(op, body, map[Result := result], a, i)
    case None => None
    case Some(env) => if Result in env then Some(env[Result]) else None
  }

  function Run(op: Op, loop: Loop, a: seq<int>, i: nat, result: int): Option<int>
    requires loop.step > 0
    decreases |a| - i
  {
    if i >= |a| then Some(result)
    else
      match Iterate(op, loop.body, a, i, result)
      case None => None
      case Some(next) => Run(op, loop, a, i + loop.step, next)
  }

  // ----- execution on symbols

  /** The old value of `result`, an element of the block, or an operation on two expressions. */
  datatype Expr = Old | Leaf(offset: nat) | Node(left: Expr, right: Expr)

  type Inlined = map<Name, Expr>

  function InlineRhs(rhs: Rhs, env: Inlined): Option<Expr> {
    match rhs
    case Elem(k) => Some(Leaf(k))
    case Max(l, r) => if l in env && r in env then Some(Node(env[l], env[r])) else None
    case Copy(x) => if x in env then Some(env[x]) else None
  }

  function InlineOne(stmt: Stmt, env: Inlined): Option<Inlined> {
    match InlineRhs(stmt.rhs, env)
    case None => None
    case Some(e) => if InScope(stmt, env.Keys) then Some(env[stmt.name := e]) else None
  }

  function InlineFirst(body: seq<Stmt>, n: nat, env: Inlined): Option<Inlined>
    requires n <= |body|
  {
    if n == 0 then Some(env)
    else
      match InlineFirst(body, n - 1, env)
      case None => None
      case Some(now) => InlineOne(body[n - 1], now)
  }

  function InlineAll(body: seq<Stmt>, env: Inlined): Option<Inlined> {
    InlineFirst(body, |body|, env)
  }

  lemma {:induction false} InlinePrefix(b: seq<Stmt>, c: seq<Stmt>, n: nat, env: Inlined)
    requires n <= |b| && n <= |c| && b[..n] == c[..n]
    ensures InlineFirst(b, n, env) == InlineFirst(c, n, env)
  {
    if n > 0 {
      assert b[..n][..n - 1] == b[..n - 1] && c[..n][..n - 1] == c[..n - 1];
      assert b[n - 1] == b[..n][n - 1] == c[..n][n - 1];
      InlinePrefix(b, c, n - 1, env);
    }
  }

  /** One statement after another body. */
  lemma InlineSnoc(body: seq<Stmt>, stmt: Stmt, env: Inlined)
    ensures InlineAll(body + [stmt], env) ==
      match InlineAll(body, env) { case None => None case Some(now) => InlineOne(stmt, now) }
  {
    InlinePrefix(body, body + [stmt], |body|, env);
  }

  /** The expression that the body leaves in `result`, all temporaries inlined. */
  function Inline(body: seq<Stmt>): Option<Expr> {
    match InlineAll(body, map[Result := Old])
    case None => None
    case Some(env) => if Result in env then Some(env[Result]) else None
  }

  /** The offsets the body reads, in order. */
  function Reads(body: seq<Stmt>): seq<nat> {
    if body == [] then []
    else
      Reads(body[..|body| - 1]) + match Last(body).rhs
                                  case Elem(k) => [k]
                                  case _ => []
  }

  function Range(from: nat, n: nat): (s: seq<nat>)
    ensures |s| == n && forall i :: 0 <= i < n ==> s[i] == from + i
  {
    seq(n, i requires 0 <= i < n => from + i)
  }

  function ValueOf(op: Op, e: Expr, a: seq<int>, i: nat, result: int): int {
    match e
    case Old => result
    case Leaf(k) => if i + k < |a| then a[i + k] else 0
    case Node(l, r) => op(ValueOf(op, l, a, i, result), ValueOf(op, r, a, i, result))
  }

  ghost predicate Related(op: Op, symbols: Inlined, env: Env, a: seq<int>, i: nat, result: int) {
    && symbols.Keys == env.Keys
    && forall x :: x in env ==> env[x] == ValueOf(op, symbols[x], a, i, result)
  }

  ghost predicate Fits(offsets: seq<nat>, a: seq<int>, i: nat) {
    forall k :: k in offsets ==> i + k < |a|
  }

  predicate ReadFits(rhs: Rhs, a: seq<int>, i: nat) {
    rhs.Elem? ==> i + rhs.offset < |a|
  }

  lemma OneIsSound(op: Op, stmt: Stmt, a: seq<int>, i: nat, result: int, symbols: Inlined, env: Env)
    requires Related(op, symbols, env, a, i, result)
    ensures ExecOne(op, stmt, env, a, i).Some? <==> InlineOne(stmt, symbols).Some? && ReadFits(stmt.rhs, a, i)
    ensures ExecOne(op, stmt, env, a, i).Some? ==>
      Related(op, InlineOne(stmt, symbols).value, ExecOne(op, stmt, env, a, i).value, a, i, result)
  {
    assert symbols.Keys == env.Keys;
    match stmt.rhs {
      case Elem(k) =>
      case Max(l, r) =>
      case Copy(x) =>
    }
  }

  lemma FitsSnoc(body: seq<Stmt>, a: seq<int>, i: nat)
    requires body != []
    ensures Fits(Reads(body), a, i) <==> Fits(Reads(body[..|body| - 1]), a, i) && ReadFits(Last(body).rhs, a, i)
  {
    var init := Reads(body[..|body| - 1]);
    match Last(body).rhs {
      case Elem(k) => assert Reads(body) == init + [k] && k in Reads(body);
      case _ => assert Reads(body) == init;
    }
    assert forall k :: k in init ==> k in Reads(body);
  }

  /** Inlining is sound and exact: a body runs if and only if it inlines and its reads are in bounds. */
  lemma {:induction false} InliningIsSound(op: Op, body: seq<Stmt>, a: seq<int>, i: nat, result: int,
                                           symbols: Inlined, env: Env)
    requires Related(op, symbols, env, a, i, result)
    ensures Exec(op, body, env, a, i).Some? <==> InlineAll(body, symbols).Some? && Fits(Reads(body), a, i)
    ensures Exec(op, body, env, a, i).Some? ==>
      Related(op, InlineAll(body, symbols).value, Exec(op, body, env, a, i).value, a, i, result)
  {
    if body != [] {
      var init, last := body[..|body| - 1], Last(body);
      InliningIsSound(op, init, a, i, result, symbols, env);
      InlineSnoc(init, last, symbols);
      assert body == init + [last];
      FitsSnoc(body, a, i);
      if Exec(op, init, env, a, i).Some? {
        OneIsSound(op, last, a, i, result, InlineAll(init, symbols).value, Exec(op, init, env, a, i).value);
      }
    }
  }

  lemma IterationIsInlined(op: Op, body: seq<Stmt>, a: seq<int>, i: nat, result: int)
    requires Inline(body).Some?
    ensures Iterate(op, body, a, i, result) ==
      if Fits(Reads(body), a, i) then Some(ValueOf(op, Inline(body).value, a, i, result)) else None
  {
    InliningIsSound(op, body, a, i, result, map[Result := Old], map[Result := result]);
  }

  lemma NotInlinedNotRun(op: Op, body: seq<Stmt>, a: seq<int>, i: nat, result: int)
    requires Inline(body).None?
    ensures Iterate(op, body, a, i, result).None?
  {
    InliningIsSound(op, body, a, i, result, map[Result := Old], map[Result := result]);
  }

  lemma {:induction false} InlineConcat(b: seq<Stmt>, c: seq<Stmt>, env: Inlined)
    ensures InlineAll(b + c, env) ==
      match InlineAll(b, env) { case None => None case Some(now) => InlineAll(c, now) }
  {
    if c == [] {
      assert b + c == b;
    } else {
      var init, last := c[..|c| - 1], Last(c);
      assert c == init + [last] && b + c == (b + init) + [last];
      InlineConcat(b, init, env);
      InlineSnoc(b + init, last, env);
      forall now: Inlined ensures InlineAll(c, now) ==
        match InlineAll(init, now) { case None => None case Some(next) => InlineOne(last, next) }
      {
        InlineSnoc(init, last, now);
      }
    }
  }

  lemma {:induction false} ReadsConcat(b: seq<Stmt>, c: seq<Stmt>)
    ensures Reads(b + c) == Reads(b) + Reads(c)
  {
    if c == [] {
      assert b + c == b;
    } else {
      assert (b + c)[..|b + c| - 1] == b + c[..|c| - 1];
      ReadsConcat(b, c[..|c| - 1]);
    }
  }

  // ----- whole loops

  /** The reduction in array order, the element on the right. */
  function LeftFold(op: Op, result: int, xs: seq<int>): int {
    if xs == [] then result else op(LeftFold(op, result, xs[..|xs| - 1]), Last(xs))
  }

  /** The reduction of the simple loop, `Math.max(v, result)`: the element on the left. */
  function BaseFold(op: Op, result: int, xs: seq<int>): int {
    if xs == [] then result else op(Last(xs), BaseFold(op, result, xs[..|xs| - 1]))
  }

  /** Which of the two a body is compared with. */
  datatype Side = LeftSide | BaseSide

  function Fold(op: Op, side: Side, result: int, xs: seq<int>): int {
    match side
    case LeftSide => LeftFold(op, result, xs)
    case BaseSide => BaseFold(op, result, xs)
  }

  /** A body that reads its block once, in order, and leaves the fold of it in `result`. */
  ghost predicate Reduces(op: Op, loop: Loop, side: Side) {
    && loop.step > 0
    && Reads(loop.body) == Range(0, loop.step)
    && Inline(loop.body).Some?
    && forall a: seq<int>, i: nat, result: int :: i + loop.step <= |a| ==>
         ValueOf(op, Inline(loop.body).value, a, i, result) == Fold(op, side, result, a[i..i + loop.step])
  }

  lemma {:induction false} FoldsCompose(op: Op, side: Side, result: int, xs: seq<int>, ys: seq<int>)
    ensures Fold(op, side, Fold(op, side, result, xs), ys) == Fold(op, side, result, xs + ys)
  {
    if ys == [] {
      assert xs + ys == xs;
    } else {
      assert (xs + ys)[..|xs + ys| - 1] == xs + ys[..|ys| - 1];
      FoldsCompose(op, side, result, xs, ys[..|ys| - 1]);
    }
  }

  lemma IterationReduces(op: Op, loop: Loop, side: Side, a: seq<int>, i: nat, result: int)
    requires Reduces(op, loop, side) && i < |a|
    ensures Iterate(op, loop.body, a, i, result) ==
      if i + loop.step <= |a| then Some(Fold(op, side, result, a[i..i + loop.step])) else None
  {
    IterationIsInlined(op, loop.body, a, i, result);
    var offsets := Reads(loop.body);
    if i + loop.step <= |a| {
      assert Fits(offsets, a, i);
    } else {
      assert offsets[loop.step - 1] in offsets;
    }
  }

  /**
   A loop over such a body folds the whole array if its length is a multiple of the step,
   and otherwise fails on its last, partial block.
   */
  lemma {:induction false} LoopReduces(op: Op, loop: Loop, side: Side, a: seq<int>, i: nat, result: int)
    requires Reduces(op, loop, side) && i <= |a|
    ensures Run(op, loop, a, i, result) ==
      if (|a| - i) % loop.step == 0 then Some(Fold(op, side, result, a[i..])) else None
    decreases |a| - i
  {
    if i < |a| {
      IterationReduces(op, loop, side, a, i, result);
      if i + loop.step <= |a| {
        var j := i + loop.step;
        LoopReduces(op, loop, side, a, j, Fold(op, side, result, a[i..j]));
        FoldsCompose(op, side, result, a[i..j], a[j..]);
        assert a[i..j] + a[j..] == a[i..];
        StepOff(|a| - i, loop.step);
      } else {
        Small(|a| - i, loop.step);
      }
    } else {
      Small(0, loop.step);
      assert a[i..] == [];
    }
  }

  lemma Small(n: nat, step: nat)
    requires n < step
    ensures n % step == n
  {
  }

  lemma StepOff(n: nat, step: nat)
    requires 0 < step <= n
    ensures n % step == (n - step) % step
  {
    var q, p := n / step, (n - step) / step;
    assert n == step * q + n % step && n - step == step * p + (n - step) % step;
    var d := q - 1 - p;
    assert step * d == (n - step) % step - n % step;
    Multiples(step, d);
  }

  lemma Multiples(step: int, d: int)
    requires step > 0
    ensures d > 0 ==> step * d >= step
    ensures d < 0 ==> step * d <= -step
  {
  }
}
