/**
 The code generators of reassoc-reduct-chain-8351409/src-gen/Gen.java: which statements
 they emit, and the expression each emitted body amounts to.
 */
module Generator {
  import opened Common
  import opened LoopCode
  import opened ReductionTrees

  // ----- the emitted statements

  /** `var v<k> = array[i + k]` for n consecutive k. */
  function Loads(from: nat, n: nat): seq<Stmt> {
    if n == 0 then [] else Loads(from, n - 1) + [Declare(V(from + n - 1), Elem(from + n - 1))]
  }

  /** `var t<k + 1> = Math.max(v<..>, t<k>)`, n links after t0, reading the v after v0. */
  function Chain(t0: nat, v0: nat, n: nat): seq<Stmt> {
    if n == 0 then [] else Chain(t0, v0, n - 1) + [Declare(T(t0 + n), Max(V(v0 + n), T(t0 + n - 1)))]
  }

  function Minus(n: nat, k: nat): nat {
    if n < k then 0 else n - k
  }

  function UnrollTemps(size: nat): seq<Stmt> {
    Loads(0, size) + [Declare(T(0), Max(V(0), Result))] + Chain(0, 0, Minus(size, 1))
  }

  function UnrollBody(size: nat): seq<Stmt> {
    UnrollTemps(size) + [Assign(Result, Copy(T(Minus(size, 1))))]
  }

  /** A chain over a block of its own. */
  function ChainTemps(from: nat, inner: nat): seq<Stmt> {
    Loads(from, inner) + [Declare(T(from), Max(V(from + 1), V(from)))] + Chain(from, from + 1, Minus(inner, 2))
  }

  /** The chain, merged into the result; `last` naming its end. */
  function ChainBlock(from: nat, inner: nat, last: int): seq<Stmt> {
    ChainTemps(from, inner) + [Assign(Result, Max(Result, T(last)))]
  }

  function ReassocBody(size: nat): seq<Stmt> {
    ChainBlock(0, size, Minus(size, 2))
  }

  function ReassocByBody(outer: nat, inner: nat): seq<Stmt> {
    if outer == 0 then []
    else
      var from := Start(outer - 1, inner);
      ReassocByBody(outer - 1, inner) + ChainBlock(from, inner, from + inner - 2)
  }

  /** The queue of names is drained two at a time; the combination gets the next t and goes to the back. */
  function Drain(q: seq<Name>, t: nat): seq<Stmt>
    decreases |q|
  {
    if |q| <= 1 then []
    else [Declare(T(t), Max(q[0], q[1]))] + Drain(q[2..] + [T(t)], t + 1)
  }

  function LoadNames(from: nat, n: nat): (q: seq<Name>)
    ensures |q| == n && forall j :: 0 <= j < n ==> q[j] == V(from + j)
  {
    seq(n, j requires 0 <= j < n => V(from + j))
  }

  function ReTreeBlock(from: nat, inner: nat, t: nat): seq<Stmt> {
    Loads(from, inner) + Drain(LoadNames(from, inner), t)
    + [Assign(Result, Max(Result, T(t + Minus(inner, 1) - 1)))]
  }

  function ReTreeBody(outer: nat, inner: nat): seq<Stmt> {
    if outer == 0 then []
    else ReTreeBody(outer - 1, inner) + ReTreeBlock(Start(outer - 1, inner), inner, Start(outer - 1, Minus(inner, 1)))
  }

  // ----- the expressions they amount to

  function UnrollExpr(n: nat): Expr {
    if n == 0 then Old else Node(Leaf(n - 1), UnrollExpr(n - 1))
  }

  /** n links on top of e, reading the elements after v0. */
  function ChainExpr(e: Expr, v0: nat, n: nat): Expr {
    if n == 0 then e else Node(Leaf(v0 + n), ChainExpr(e, v0, n - 1))
  }

  function BlockChain(from: nat, inner: nat): Expr {
    ChainExpr(Node(Leaf(from + 1), Leaf(from)), from + 1, Minus(inner, 2))
  }

  /** The expressions of the first `outer` blocks. */
  function ChainBlocks(outer: nat, inner: nat): (blocks: seq<Expr>)
    ensures |blocks| == outer
  {
    if outer == 0 then []
    else ChainBlocks(outer - 1, inner) + [BlockChain(Start(outer - 1, inner), inner)]
  }

  function TreeBlocks(outer: nat, inner: nat): (blocks: seq<Expr>)
    requires inner > 0
    ensures |blocks| == outer
  {
    if outer == 0 then []
    else TreeBlocks(outer - 1, inner) + [QueueTree(Elems(Start(outer - 1, inner), inner))]
  }

  function ReassocByExpr(outer: nat, inner: nat): Expr {
    MergeAll(ChainBlocks(outer, inner))
  }

  function ReTreeExpr(outer: nat, inner: nat): Expr
    requires inner > 0
  {
    MergeAll(TreeBlocks(outer, inner))
  }

  // ----- scopes during inlining

  /** Only v0 .. v<v-1>, t0 .. t<t-1> and result have been declared. */
  ghost predicate Fresh(env: Inlined, v: nat, t: nat) {
    && Result in env
    && (forall n :: V(n) in env ==> 0 <= n < v)
    && (forall n :: T(n) in env ==> 0 <= n < t)
  }

  ghost predicate Keeps(env: Inlined, next: Inlined) {
    forall x :: x in env ==> x in next && next[x] == env[x]
  }

  /** Elements from .. from + n - 1 are loaded. */
  ghost predicate Loaded(env: Inlined, from: nat, n: nat) {
    forall k :: from <= k < from + n ==> V(k) in env && env[V(k)] == Leaf(k)
  }

  lemma {:induction false} InlineLoads(env: Inlined, from: nat, n: nat, t: nat) returns (next: Inlined)
    requires Fresh(env, from, t)
    ensures InlineAll(Loads(from, n), env) == Some(next)
    ensures Fresh(next, from + n, t) && Keeps(env, next) && Loaded(next, from, n)
  {
    if n == 0 {
      next := env;
    } else {
      var last := Declare(V(from + n - 1), Elem(from + n - 1));
      InlineSnoc(Loads(from, n - 1), last, env);
      var now := InlineLoads(env, from, n - 1, t);
      next := now[V(from + n - 1) := Leaf(from + n - 1)];
    }
  }

  lemma {:induction false} InlineChain(env: Inlined, t0: nat, v0: nat, n: nat, v: nat) returns (next: Inlined)
    requires Fresh(env, v, t0 + 1) && T(t0) in env && Loaded(env, v0 + 1, n)
    ensures InlineAll(Chain(t0, v0, n), env) == Some(next)
    ensures Fresh(next, v, t0 + 1 + n) && Keeps(env, next)
    ensures T(t0 + n) in next && next[T(t0 + n)] == ChainExpr(env[T(t0)], v0, n)
  {
    if n == 0 {
      next := env;
    } else {
      var last := Declare(T(t0 + n), Max(V(v0 + n), T(t0 + n - 1)));
      InlineSnoc(Chain(t0, v0, n - 1), last, env);
      var now := InlineChain(env, t0, v0, n - 1, v);
      assert V(v0 + n) in env;
      next := now[T(t0 + n) := Node(Leaf(v0 + n), now[T(t0 + n - 1)])];
    }
  }

  /** `result = Math.max(result, root)` at the end of a block. */
  lemma InlineMerge(body: seq<Stmt>, root: Name, env: Inlined, now: Inlined, v: nat, t: nat) returns (next: Inlined)
    requires InlineAll(body, env) == Some(now)
    requires Fresh(now, v, t) && root in now && root != Result
    ensures InlineAll(body + [Assign(Result, Max(Result, root))], env) == Some(next)
    ensures Fresh(next, v, t) && next[Result] == Node(now[Result], now[root])
  {
    InlineSnoc(body, Assign(Result, Max(Result, root)), env);
    next := now[Result := Node(now[Result], now[root])];
  }

  lemma InlineUnrollTemps(size: nat) returns (next: Inlined)
    requires size >= 1
    ensures InlineAll(UnrollTemps(size), map[Result := Old]) == Some(next)
    ensures T(size - 1) in next && next[T(size - 1)] == UnrollExpr(size) && Result in next
  {
    var begun := InlineUnrollStart(size);
    next := InlineChain(begun, 0, 0, size - 1, size);
    InlineConcat(Loads(0, size) + [Declare(T(0), Max(V(0), Result))], Chain(0, 0, size - 1), map[Result := Old]);
    UnrollIsChain(size);
  }

  lemma InlineUnrollStart(size: nat) returns (begun: Inlined)
    requires size >= 1
    ensures InlineAll(Loads(0, size) + [Declare(T(0), Max(V(0), Result))], map[Result := Old]) == Some(begun)
    ensures Fresh(begun, size, 1) && Loaded(begun, 0, size)
    ensures T(0) in begun && begun[T(0)] == Node(Leaf(0), Old)
  {
    var start: Inlined := map[Result := Old];
    var loaded := InlineLoads(start, 0, size, 0);
    InlineSnoc(Loads(0, size), Declare(T(0), Max(V(0), Result)), start);
    assert V(0) in loaded;
    begun := loaded[T(0) := Node(Leaf(0), Old)];
  }

  lemma InlineUnroll(size: nat)
    requires size >= 1
    ensures Inline(UnrollBody(size)) == Some(UnrollExpr(size))
  {
    var chained := InlineUnrollTemps(size);
    InlineSnoc(UnrollTemps(size), Assign(Result, Copy(T(size - 1))), map[Result := Old]);
  }

  lemma {:induction false} UnrollIsChain(size: nat)
    requires size >= 1
    ensures UnrollExpr(size) == ChainExpr(Node(Leaf(0), Old), 0, size - 1)
  {
    if size > 1 {
      UnrollIsChain(size - 1);
    }
  }

  lemma InlineChainTemps(env: Inlined, from: nat, inner: nat, t: nat) returns (next: Inlined)
    requires inner >= 2 && t <= from && Fresh(env, from, t)
    ensures InlineAll(ChainTemps(from, inner), env) == Some(next)
    ensures Fresh(next, from + inner, from + inner - 1) && next[Result] == env[Result]
    ensures T(from + inner - 2) in next && next[T(from + inner - 2)] == BlockChain(from, inner)
  {
    var begun := InlineChainStart(env, from, inner, t);
    next := InlineChain(begun, from, from + 1, inner - 2, from + inner);
    InlineConcat(Loads(from, inner) + [Declare(T(from), Max(V(from + 1), V(from)))],
                 Chain(from, from + 1, inner - 2), env);
  }

  lemma InlineChainStart(env: Inlined, from: nat, inner: nat, t: nat) returns (begun: Inlined)
    requires inner >= 2 && t <= from && Fresh(env, from, t)
    ensures InlineAll(Loads(from, inner) + [Declare(T(from), Max(V(from + 1), V(from)))], env) == Some(begun)
    ensures Fresh(begun, from + inner, from + 1) && Loaded(begun, from, inner) && begun[Result] == env[Result]
    ensures T(from) in begun && begun[T(from)] == Node(Leaf(from + 1), Leaf(from))
  {
    var loaded := InlineLoads(env, from, inner, t);
    InlineSnoc(Loads(from, inner), Declare(T(from), Max(V(from + 1), V(from))), env);
    assert V(from) in loaded && V(from + 1) in loaded;
    begun := loaded[T(from) := Node(Leaf(from + 1), Leaf(from))];
  }

  lemma InlineChainBlock(env: Inlined, from: nat, inner: nat, t: nat) returns (next: Inlined)
    requires inner >= 2 && t <= from && Fresh(env, from, t)
    ensures InlineAll(ChainBlock(from, inner, from + inner - 2), env) == Some(next)
    ensures Fresh(next, from + inner, from + inner - 1)
    ensures next[Result] == Node(env[Result], BlockChain(from, inner))
  {
    var chained := InlineChainTemps(env, from, inner, t);
    next := InlineMerge(ChainTemps(from, inner), T(from + inner - 2), env, chained, from + inner, from + inner - 1);
  }

  /** One more block after a body that has merged `blocks` into the result. */
  lemma InlineNextBlock(body: seq<Stmt>, block: seq<Stmt>, before: Inlined, next: Inlined, blocks: seq<Expr>, e: Expr)
    requires InlineAll(body, map[Result := Old]) == Some(before) && InlineAll(block, before) == Some(next)
    requires Result in before && before[Result] == MergeAll(blocks)
    requires Result in next && next[Result] == Node(before[Result], e)
    ensures InlineAll(body + block, map[Result := Old]) == Some(next)
    ensures next[Result] == MergeAll(blocks + [e])
  {
    InlineConcat(body, block, map[Result := Old]);
    MergeSnoc(blocks, e);
  }

  lemma InlineOneMoreChain(outer: nat, inner: nat, before: Inlined) returns (env: Inlined)
    requires outer > 0 && inner >= 2
    requires InlineAll(ReassocByBody(outer - 1, inner), map[Result := Old]) == Some(before)
    requires Fresh(before, Start(outer - 1, inner), Start(outer - 1, inner))
    requires before[Result] == ReassocByExpr(outer - 1, inner)
    ensures InlineAll(ReassocByBody(outer, inner), map[Result := Old]) == Some(env)
    ensures Fresh(env, Start(outer, inner), Start(outer, inner)) && env[Result] == ReassocByExpr(outer, inner)
  {
    var from := Start(outer - 1, inner);
    env := InlineChainBlock(before, from, inner, from);
    InlineNextBlock(ReassocByBody(outer - 1, inner), ChainBlock(from, inner, from + inner - 2), before, env,
                    ChainBlocks(outer - 1, inner), BlockChain(from, inner));
  }

  lemma {:induction false} InlineReassocBy(outer: nat, inner: nat) returns (env: Inlined)
    requires inner >= 2
    ensures InlineAll(ReassocByBody(outer, inner), map[Result := Old]) == Some(env)
    ensures Fresh(env, Start(outer, inner), Start(outer, inner)) && env[Result] == ReassocByExpr(outer, inner)
  {
    if outer == 0 {
      env := map[Result := Old];
    } else {
      var before := InlineReassocBy(outer - 1, inner);
      env := InlineOneMoreChain(outer, inner, before);
    }
  }

  function Root(q: seq<Name>, t: nat): Name
    requires q != []
  {
    if |q| == 1 then q[0] else T(t + |q| - 2)
  }

  ghost function Exprs(q: seq<Name>, env: Inlined): (es: seq<Expr>)
    requires forall k :: 0 <= k < |q| ==> q[k] in env
    ensures |es| == |q| && forall k :: 0 <= k < |q| ==> es[k] == env[q[k]]
  {
    seq(|q|, k requires 0 <= k < |q| => env[q[k]])
  }

  /** Draining the queue of names builds the queue tree of their expressions under the last name. */
  lemma {:induction false} InlineDrain(env: Inlined, q: seq<Name>, t: nat, v: nat) returns (next: Inlined)
    requires q != [] && Fresh(env, v, t) && forall k :: 0 <= k < |q| ==> q[k] in env
    ensures InlineAll(Drain(q, t), env) == Some(next)
    ensures Fresh(next, v, t + |q| - 1) && Keeps(env, next)
    ensures Root(q, t) in next && next[Root(q, t)] == QueueTree(Exprs(q, env))
    decreases |q|
  {
    if |q| == 1 {
      next := env;
    } else {
      var stmt := Declare(T(t), Max(q[0], q[1]));
      var shorter := q[2..] + [T(t)];
      var begun := InlineTakeTwo(env, q, t, v);
      next := InlineDrain(begun, shorter, t + 1, v);
      InlineConcat([stmt], Drain(shorter, t + 1), env);
    }
  }

  /** Combining the first two names of the queue. */
  lemma InlineTakeTwo(env: Inlined, q: seq<Name>, t: nat, v: nat) returns (begun: Inlined)
    requires |q| >= 2 && Fresh(env, v, t) && forall k :: 0 <= k < |q| ==> q[k] in env
    ensures InlineAll([Declare(T(t), Max(q[0], q[1]))], env) == Some(begun)
    ensures Fresh(begun, v, t + 1) && Keeps(env, begun)
    ensures var shorter := q[2..] + [T(t)];
      && (forall k :: 0 <= k < |shorter| ==> shorter[k] in begun)
      && Exprs(shorter, begun) == Exprs(q, env)[2..] + [Node(env[q[0]], env[q[1]])]
  {
    var stmt := Declare(T(t), Max(q[0], q[1]));
    InlineSnoc([], stmt, env);
    assert [] + [stmt] == [stmt];
    begun := env[T(t) := Node(env[q[0]], env[q[1]])];
  }

  lemma LoadedExprs(env: Inlined, from: nat, inner: nat)
    requires Loaded(env, from, inner)
    ensures var names := LoadNames(from, inner);
      && (forall k :: 0 <= k < |names| ==> names[k] in env)
      && Exprs(names, env) == Elems(from, inner)
  {
    var names := LoadNames(from, inner);
    forall k | 0 <= k < |names| ensures names[k] in env && env[names[k]] == Leaf(from + k) {
      assert names[k] == V(from + k);
    }
  }

  lemma InlineReTreeTemps(env: Inlined, from: nat, inner: nat, t: nat) returns (next: Inlined)
    requires inner >= 2 && Fresh(env, from, t)
    ensures InlineAll(Loads(from, inner) + Drain(LoadNames(from, inner), t), env) == Some(next)
    ensures Fresh(next, from + inner, t + inner - 1) && next[Result] == env[Result]
    ensures T(t + inner - 2) in next && next[T(t + inner - 2)] == QueueTree(Elems(from, inner))
  {
    var names := LoadNames(from, inner);
    var loaded := InlineLoads(env, from, inner, t);
    LoadedExprs(loaded, from, inner);
    next := InlineDrain(loaded, names, t, from + inner);
    InlineConcat(Loads(from, inner), Drain(names, t), env);
  }

  lemma InlineReTreeBlock(env: Inlined, from: nat, inner: nat, t: nat) returns (next: Inlined)
    requires inner >= 2 && Fresh(env, from, t)
    ensures InlineAll(ReTreeBlock(from, inner, t), env) == Some(next)
    ensures Fresh(next, from + inner, t + inner - 1)
    ensures next[Result] == Node(env[Result], QueueTree(Elems(from, inner)))
  {
    var temps := Loads(from, inner) + Drain(LoadNames(from, inner), t);
    var drained := InlineReTreeTemps(env, from, inner, t);
    next := InlineMerge(temps, T(t + inner - 2), env, drained, from + inner, t + inner - 1);
  }

  lemma InlineOneMoreTree(outer: nat, inner: nat, before: Inlined) returns (env: Inlined)
    requires outer > 0 && inner >= 2
    requires InlineAll(ReTreeBody(outer - 1, inner), map[Result := Old]) == Some(before)
    requires Fresh(before, Start(outer - 1, inner), Start(outer - 1, inner - 1))
    requires before[Result] == ReTreeExpr(outer - 1, inner)
    ensures InlineAll(ReTreeBody(outer, inner), map[Result := Old]) == Some(env)
    ensures Fresh(env, Start(outer, inner), Start(outer, inner - 1)) && env[Result] == ReTreeExpr(outer, inner)
  {
    var from, t := Start(outer - 1, inner), Start(outer - 1, inner - 1);
    env := InlineReTreeBlock(before, from, inner, t);
    InlineNextBlock(ReTreeBody(outer - 1, inner), ReTreeBlock(from, inner, t), before, env,
                    TreeBlocks(outer - 1, inner), QueueTree(Elems(from, inner)));
  }

  lemma {:induction false} InlineReTree(outer: nat, inner: nat) returns (env: Inlined)
    requires inner >= 2
    ensures InlineAll(ReTreeBody(outer, inner), map[Result := Old]) == Some(env)
    ensures Fresh(env, Start(outer, inner), Start(outer, inner - 1)) && env[Result] == ReTreeExpr(outer, inner)
  {
    if outer == 0 {
      env := map[Result := Old];
    } else {
      var before := InlineReTree(outer - 1, inner);
      env := InlineOneMoreTree(outer, inner, before);
    }
  }
}
