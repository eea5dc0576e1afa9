/**
 The branch-probability data of fp-mmv-bench-8382615/BranchProbability.java: the generator
 that draws arrays until the requested share of elements are new maxima, and the counting
 reductions that assert that share.
 */
module BranchProbability {
  import opened Common
  import opened JavaInt
  import opened JavaFloat

  // ----- random choices

  /** The choices for one element: a coin from 0 to 100 and a distance from 1 to 9. */
  datatype Draw = Draw(coin: int, step: int) {
    predicate InRange() {
      0 <= coin <= 100 && 1 <= step <= 9
    }
  }

  /** The choices of one round of the do loop; the first value is from 1 to 9. */
  datatype Attempt = Attempt(first: int, draws: seq<Draw>) {
    ghost predicate For(size: nat) {
      && 1 <= first <= 9 && |draws| == size - 1
      && forall d :: d in draws ==> d.InRange()
    }
  }

  // ----- what one round computes

  predicate IsAbove(t: Attempt, probability: int, i: nat)
    requires i <= |t.draws|
  {
    i == 0 || t.draws[i - 1].coin <= probability
  }

  /** The running maximum after index i. */
  function MaxAfter(t: Attempt, probability: int, i: nat): int
    requires i <= |t.draws|
    decreases i, 1
  {
    if i == 0 then t.first else Max(MaxAfter(t, probability, i - 1), ValueAt(t, probability, i))
  }

  function ValueAt(t: Attempt, probability: int, i: nat): int
    requires i <= |t.draws|
    decreases i, 0
  {
    if i == 0 then t.first
    else
      var max := MaxAfter(t, probability, i - 1);
      if IsAbove(t, probability, i) then max + t.draws[i - 1].step else max - t.draws[i - 1].step
  }

  /** The value the second array holds for index i. */
  function BaseAt(t: Attempt, probability: int, i: nat): int
    requires i <= |t.draws|
  {
    if i == 0 then t.first - 1 else MaxAfter(t, probability, i - 1)
  }

  function AboveCount(t: Attempt, probability: int, n: nat): nat
    requires n <= |t.draws| + 1
  {
    if n == 0 then 0 else AboveCount(t, probability, n - 1) + if IsAbove(t, probability, n - 1) then 1 else 0
  }

  function ValuesOf(t: Attempt, probability: int): (s: seq<int>)
    ensures |s| == |t.draws| + 1
    ensures forall i :: 0 <= i < |s| ==> s[i] == ValueAt(t, probability, i)
  {
    seq(|t.draws| + 1, i requires 0 <= i <= |t.draws| => ValueAt(t, probability, i))
  }

  function BasesOf(t: Attempt, probability: int): (s: seq<int>)
    ensures |s| == |t.draws| + 1
    ensures forall i :: 0 <= i < |s| ==> s[i] == BaseAt(t, probability, i)
  {
    seq(|t.draws| + 1, i requires 0 <= i <= |t.draws| => BaseAt(t, probability, i))
  }

  /** The share of `count` in `size`, in percent, as int arithmetic has it. */
  function Percent(count: int, size: int): int
    requires size > 0
  {
    Divide(Wrap(count * 100), size)
  }

  /** As long as the product does not overflow, the percentage is the true one, rounded down. */
  lemma PercentIsFloor(count: nat, size: nat)
    requires size > 0 && 100 * count <= MAX_VALUE
    ensures Percent(count, size) * size <= 100 * count < Percent(count, size) * size + size
  {
    var r := DivideTruncates(100 * count, size);
  }

  /** Where it does overflow, the percentage of a whole can even be negative. */
  lemma PercentOverflows()
    ensures Percent(30_000_000, 30_000_000) == -43
  {
    assert Wrap(3_000_000_000) == -1_294_967_296;
  }

  predicate Accepted(t: Attempt, probability: int) {
    Percent(AboveCount(t, probability, |t.draws| + 1), |t.draws| + 1) == probability
  }

  /**
   What the choices say about the two arrays: a value lies the drawn distance above the
   maximum before it if the coin is within the probability, and otherwise below it.
   */
  ghost predicate FollowsDraws(a: seq<int>, b: seq<int>, t: Attempt, probability: int) {
    && |a| == |b| == |t.draws| + 1
    && a[0] == t.first && b[0] == t.first - 1
    && forall i :: 1 <= i < |a| ==>
         a[i] - b[i] == if t.draws[i - 1].coin <= probability then t.draws[i - 1].step else -t.draws[i - 1].step
  }

  lemma RoundFollowsDraws(t: Attempt, probability: int)
    ensures FollowsDraws(ValuesOf(t, probability), BasesOf(t, probability), t, probability)
  {
  }

  // ----- the generator

  /** One round: two fresh arrays and the number of new maxima. */
  method FillRound(size: nat, probability: int, t: Attempt) returns (a: array<int>, b: array<int>, aboveCount: int)
    requires size >= 1 && t.For(size)
    ensures fresh(a) && fresh(b) && a[..] == ValuesOf(t, probability) && b[..] == BasesOf(t, probability)
    ensures FollowsDraws(a[..], b[..], t, probability)
    ensures aboveCount == AboveCount(t, probability, size)
  {
    var max := t.first;
    a, b := new int[size], new int[size];
    a[0] := max;
    b[0] := max - 1;
    aboveCount := 1;
    for i := 1 to size
      invariant max == MaxAfter(t, probability, i - 1)
      invariant aboveCount == AboveCount(t, probability, i)
      invariant forall k :: 0 <= k < i ==> a[k] == ValueAt(t, probability, k) && b[k] == BaseAt(t, probability, k)
    {
      var value;
      if t.draws[i - 1].coin <= probability {
        value := max + t.draws[i - 1].step;
        aboveCount := aboveCount + 1;
      } else {
        value := max - t.draws[i - 1].step;
      }
      a[i] := value;
      b[i] := max;
      max := Max(max, value);
    }
    RoundFollowsDraws(t, probability);
  }

  datatype Generated = Arrays(a: array<int>, b: array<int>) | IndexOutOfBounds | StillDrawing

  /**
   The do loop, over the rounds that the random source has in store. It returns the arrays
   of the first round with the requested percentage.
   */
  method DistributeLongRandomIncrement(size: nat, probability: int, rounds: seq<Attempt>)
    returns (r: Generated, ghost k: nat)
    requires forall t :: t in rounds ==> t.For(size)
    ensures r.IndexOutOfBounds? <==> size == 0
    ensures size > 0 ==> k <= |rounds| && forall j :: 0 <= j < k ==> !Accepted(rounds[j], probability)
    ensures r.StillDrawing? ==> k == |rounds|
    ensures r.Arrays? ==>
      && k < |rounds| && Accepted(rounds[k], probability)
      && fresh(r.a) && fresh(r.b)
      && r.a[..] == ValuesOf(rounds[k], probability) && r.b[..] == BasesOf(rounds[k], probability)
      && FollowsDraws(r.a[..], r.b[..], rounds[k], probability)
  {
    k := 0;
    if size == 0 {
      return IndexOutOfBounds, 0;
    }
    for n := 0 to |rounds|
      invariant k == n
      invariant forall j :: 0 <= j < n ==> !Accepted(rounds[j], probability)
    {
      var a, b, aboveCount := FillRound(size, probability, rounds[n]);
      var abovePercent := Percent(aboveCount, size);
      if abovePercent == probability {
        return Arrays(a, b), n;
      }
      k := k + 1;
    }
    r := StillDrawing;
  }

  // ----- the counting reductions

  class Counts {
    var notANumber: int
    var zeroZero: int
    var above: int
    var equals: int
    var below: int

    constructor ()
      ensures notANumber == zeroZero == above == equals == below == 0
    {
      notANumber, zeroZero, above, equals, below := 0, 0, 0, 0, 0;
    }

    /** The fields together. */
    function Fields(): Tally
      reads this
    {
      Tally(notANumber, zeroZero, above, equals, below)
    }
  }

  datatype Tally = Tally(notANumber: int, zeroZero: int, above: int, equals: int, below: int) {
    /** All comparisons together. */
    function Total(): int {
      notANumber + zeroZero + above + equals + below
    }

    /** Roles of above and below exchanged. */
    function Mirror(): Tally {
      Tally(notANumber, zeroZero, below, equals, above)
    }
  }

  type Expects = Tally

  const NOTHING := Tally(0, 0, 0, 0, 0)

  /** The larger value; the one comparison is counted from the point of view of `a`. */
  method MyMax(a: int, b: int, counts: Counts) returns (r: int)
    modifies counts
    ensures r == Max(a, b)
    ensures counts.above == old(counts.above) + if a > b then 1 else 0
    ensures counts.below == old(counts.below) + if a < b then 1 else 0
    ensures counts.Fields().Total() == old(counts.Fields()).Total() + 1
    ensures counts.notANumber == old(counts.notANumber) && counts.zeroZero == old(counts.zeroZero)
  {
    if a > b {
      counts.above := counts.above + 1;
      return a;
    }
    if a == b {
      counts.equals := counts.equals + 1;
      return a;
    }
    counts.below := counts.below + 1;
    r := b;
  }

  /** The smaller value, counted in the same way. */
  method MyMin(a: int, b: int, counts: Counts) returns (r: int)
    modifies counts
    ensures r == Min(a, b)
    ensures counts.above == old(counts.above) + if a > b then 1 else 0
    ensures counts.below == old(counts.below) + if a < b then 1 else 0
    ensures counts.Fields().Total() == old(counts.Fields()).Total() + 1
    ensures counts.notANumber == old(counts.notANumber) && counts.zeroZero == old(counts.zeroZero)
  {
    if a < b {
      counts.below := counts.below + 1;
      return a;
    }
    if a == b {
      counts.equals := counts.equals + 1;
      return a;
    }
    counts.above := counts.above + 1;
    r := b;
  }

  function MaxStep(a: int, b: int, t: Tally): (int, Tally) {
    if a > b then (a, t.(above := t.above + 1))
    else if a == b then (a, t.(equals := t.equals + 1))
    else (b, t.(below := t.below + 1))
  }

  function MinStep(a: int, b: int, t: Tally): (int, Tally) {
    if a < b then (a, t.(below := t.below + 1))
    else if a == b then (a, t.(equals := t.equals + 1))
    else (b, t.(above := t.above + 1))
  }

  /** Result and tally of the reductions, which start from 0. */
  function ReduceMax(xs: seq<int>): (int, Tally) {
    if xs == [] then (0, NOTHING)
    else
      var (r, t) := ReduceMax(xs[..|xs| - 1]);
      MaxStep(Last(xs), r, t)
  }

  function ReduceMin(xs: seq<int>): (int, Tally) {
    if xs == [] then (0, NOTHING)
    else
      var (r, t) := ReduceMin(xs[..|xs| - 1]);
      MinStep(Last(xs), r, t)
  }

  /** The indices at which the data exceeds, or equals, the result so far. */
  ghost function Exceeding(xs: seq<int>): set<nat> {
    set i: nat | i < |xs| && xs[i] > ReduceMax(xs[..i]).0
  }

  ghost function Equalling(xs: seq<int>): set<nat> {
    set i: nat | i < |xs| && xs[i] == ReduceMax(xs[..i]).0
  }

  lemma IndicesOneMore(xs: seq<int>)
    requires xs != []
    ensures var n := |xs| - 1; var r := ReduceMax(xs[..n]).0;
      && Exceeding(xs) == Exceeding(xs[..n]) + (if xs[n] > r then {n} else {})
      && Equalling(xs) == Equalling(xs[..n]) + (if xs[n] == r then {n} else {})
  {
    var n := |xs| - 1;
    assert forall i: nat :: i < n ==> xs[..n][..i] == xs[..i] && xs[..n][i] == xs[i];
  }

  /** On any data the reduction is the maximum of 0 and the data. */
  lemma {:induction false} ReductionIsMaximum(xs: seq<int>)
    ensures var r := ReduceMax(xs).0;
      (r == 0 || r in xs) && r >= 0 && forall x :: x in xs ==> x <= r
  {
    if xs != [] {
      assert xs == xs[..|xs| - 1] + [Last(xs)];
      ReductionIsMaximum(xs[..|xs| - 1]);
    }
  }

  /** On any data the counts are what they say, one for each element. */
  lemma {:induction false} ReductionCounts(xs: seq<int>)
    ensures var t := ReduceMax(xs).1;
      && t.above == |Exceeding(xs)| && t.equals == |Equalling(xs)|
      && t.Total() == |xs| && t.notANumber == t.zeroZero == 0
  {
    if xs != [] {
      ReductionCounts(xs[..|xs| - 1]);
      IndicesOneMore(xs);
    }
  }

  // ----- validation

  /** The assertions of validateMax. */
  predicate MaxPasses(expects: Expects, counts: Tally, n: int)
    requires n > 0
  {
    var abovePercent := Percent(counts.above, n);
    && abovePercent == expects.above
    && 100 - abovePercent == expects.below
    && counts.equals == expects.equals
    && 0 == expects.zeroZero
    && 0 == expects.notANumber
  }

  predicate MinPasses(expects: Expects, counts: Tally, n: int)
    requires n > 0
  {
    var belowPercent := Percent(counts.below, n);
    && 100 - belowPercent == expects.above
    && belowPercent == expects.below
    && counts.equals == expects.equals
    && 0 == expects.zeroZero
    && 0 == expects.notANumber
  }

  /** Whatever was counted passes for one expectation and no other. */
  lemma PassesForOne(counts: Tally, n: int, expects: Expects)
    requires n > 0
    ensures MaxPasses(expects, counts, n) <==>
      expects == Tally(0, 0, Percent(counts.above, n), counts.equals, 100 - Percent(counts.above, n))
    ensures MinPasses(expects, counts, n) <==>
      expects == Tally(0, 0, 100 - Percent(counts.below, n), counts.equals, Percent(counts.below, n))
  {
  }

  /** The result, or None if an assertion of the validation fails. */
  method LongReductionSimpleMax(data: array<int>, expects: Expects) returns (r: Option<int>)
    requires data.Length > 0
    ensures r == if MaxPasses(expects, ReduceMax(data[..]).1, data.Length) then Some(ReduceMax(data[..]).0) else None
  {
    var result := 0;
    var counts := new Counts();
    for i := 0 to data.Length
      invariant fresh(counts) && (result, counts.Fields()) == ReduceMax(data[..i])
    {
      assert data[..i + 1][..i] == data[..i];
      result := MyMax(data[i], result, counts);
    }
    assert data[..data.Length] == data[..];
    r := if MaxPasses(expects, counts.Fields(), data.Length) then Some(result) else None;
  }

  method LongReductionSimpleMin(data: array<int>, expects: Expects) returns (r: Option<int>)
    requires data.Length > 0
    ensures r == if MinPasses(expects, ReduceMin(data[..]).1, data.Length) then Some(ReduceMin(data[..]).0) else None
  {
    var result := 0;
    var counts := new Counts();
    for i := 0 to data.Length
      invariant fresh(counts) && (result, counts.Fields()) == ReduceMin(data[..i])
    {
      assert data[..i + 1][..i] == data[..i];
      result := MyMin(data[i], result, counts);
    }
    assert data[..data.Length] == data[..];
    r := if MinPasses(expects, counts.Fields(), data.Length) then Some(result) else None;
  }

  // ----- the generator and its consumers agree

  /** Values and running maxima: a value is above the maximum before it, or below it, never equal. */
  lemma {:induction false} AboveOrBelow(t: Attempt, probability: int, i: nat)
    requires t.For(|t.draws| + 1) && i <= |t.draws|
    ensures IsAbove(t, probability, i) ==> ValueAt(t, probability, i) > BaseAt(t, probability, i)
    ensures !IsAbove(t, probability, i) ==> ValueAt(t, probability, i) < BaseAt(t, probability, i)
    ensures 0 < MaxAfter(t, probability, i) <= 9 * (i + 1)
    ensures -9 <= ValueAt(t, probability, i) <= 9 * (i + 1)
  {
    if i > 0 {
      AboveOrBelow(t, probability, i - 1);
      assert t.draws[i - 1].InRange();
    }
  }

  lemma {:induction false} TallyOfRound(t: Attempt, probability: int, n: nat)
    requires t.For(|t.draws| + 1) && 1 <= n <= |t.draws| + 1
    ensures var above := AboveCount(t, probability, n);
      ReduceMax(ValuesOf(t, probability)[..n]) == (MaxAfter(t, probability, n - 1), Tally(0, 0, above, 0, n - above))
  {
    var xs := ValuesOf(t, probability);
    assert xs[..n][..n - 1] == xs[..n - 1] && Last(xs[..n]) == xs[n - 1];
    AboveOrBelow(t, probability, n - 1);
    if n > 1 {
      TallyOfRound(t, probability, n - 1);
    } else {
      assert AboveCount(t, probability, 0) == 0;
    }
  }

  /** An accepted round passes validateMax for exactly one expectation: P above, 100 - P below. */
  lemma AcceptedPassesMax(t: Attempt, probability: int, expects: Expects)
    requires t.For(|t.draws| + 1) && Accepted(t, probability)
    ensures var xs := ValuesOf(t, probability);
      MaxPasses(expects, ReduceMax(xs).1, |xs|) <==> expects == Tally(0, 0, probability, 0, 100 - probability)
  {
    var xs := ValuesOf(t, probability);
    TallyOfRound(t, probability, |xs|);
    assert xs[..|xs|] == xs;
  }

  function Negate(xs: seq<int>): (ys: seq<int>)
    ensures |ys| == |xs| && forall i :: 0 <= i < |xs| ==> ys[i] == -xs[i]
  {
    seq(|xs|, i requires 0 <= i < |xs| => -xs[i])
  }

  /** Minimum over negated data mirrors maximum over the data, for any data. */
  lemma {:induction false} NegationMirrors(xs: seq<int>)
    ensures ReduceMin(Negate(xs)) == (-ReduceMax(xs).0, ReduceMax(xs).1.Mirror())
  {
    if xs != [] {
      NegationMirrors(xs[..|xs| - 1]);
      assert Negate(xs)[..|xs| - 1] == Negate(xs[..|xs| - 1]);
    }
  }

  lemma AcceptedPassesMin(t: Attempt, probability: int, expects: Expects)
    requires t.For(|t.draws| + 1) && Accepted(t, probability)
    ensures var xs := Negate(ValuesOf(t, probability));
      MinPasses(expects, ReduceMin(xs).1, |xs|) <==> expects == Tally(0, 0, 100 - probability, 0, probability)
  {
    var xs := ValuesOf(t, probability);
    TallyOfRound(t, probability, |xs|);
    assert xs[..|xs|] == xs;
    NegationMirrors(xs);
  }

  /** The second array holds the maximum of the first up to, and without, each later index. */
  lemma {:induction false} BaseIsPrefixMaximum(t: Attempt, probability: int, i: nat)
    requires 1 <= i <= |t.draws|
    ensures var a, m := ValuesOf(t, probability), BasesOf(t, probability)[i];
      m in a[..i] && forall k :: 0 <= k < i ==> a[k] <= m
  {
    var a := ValuesOf(t, probability);
    if i == 1 {
      assert a[..1] == [a[0]];
    } else {
      BaseIsPrefixMaximum(t, probability, i - 1);
      assert a[..i] == a[..i - 1] + [a[i - 1]];
    }
  }

  ghost function Wins(a: seq<int>, b: seq<int>, n: nat): set<nat>
    requires n <= |a| == |b|
  {
    set i: nat | i < n && a[i] > b[i]
  }

  lemma WinsStep(a: seq<int>, b: seq<int>, n: nat)
    requires 1 <= n <= |a| == |b|
    ensures |Wins(a, b, n)| == |Wins(a, b, n - 1)| + if a[n - 1] > b[n - 1] then 1 else 0
  {
    assert Wins(a, b, n) == Wins(a, b, n - 1) + if a[n - 1] > b[n - 1] then {n - 1} else {};
  }

  /** Compared index by index, the first array beats the second exactly as often as it sets a maximum. */
  lemma {:induction false} PairwiseAbove(t: Attempt, probability: int, n: nat)
    requires t.For(|t.draws| + 1) && n <= |t.draws| + 1
    ensures AboveCount(t, probability, n) == |Wins(ValuesOf(t, probability), BasesOf(t, probability), n)|
    ensures forall i :: 0 <= i < n ==> ValuesOf(t, probability)[i] != BasesOf(t, probability)[i]
  {
    var a, b := ValuesOf(t, probability), BasesOf(t, probability);
    if n > 0 {
      PairwiseAbove(t, probability, n - 1);
      AboveOrBelow(t, probability, n - 1);
      WinsStep(a, b, n);
    } else {
      assert Wins(a, b, 0) == {};
    }
  }

  // ----- when the generator can return at all

  lemma {:induction false} CountIsExtreme(t: Attempt, probability: int, n: nat)
    requires t.For(|t.draws| + 1) && 1 <= n <= |t.draws| + 1
    ensures 1 <= AboveCount(t, probability, n) <= n
    ensures probability < 0 ==> AboveCount(t, probability, n) == 1
    ensures probability >= 100 ==> AboveCount(t, probability, n) == n
  {
    if n > 1 {
      CountIsExtreme(t, probability, n - 1);
      assert t.draws[n - 2].InRange();
    } else {
      assert AboveCount(t, probability, 0) == 0;
    }
  }

  /** The number of new maxima can be c: any c, except that hopeless coins and sure coins fix it. */
  predicate Reachable(size: nat, probability: int, c: nat) {
    && 1 <= c <= size
    && (probability < 0 ==> c == 1)
    && (probability >= 100 ==> c == size)
  }

  /** A round that makes the first c elements new maxima. */
  function Witness(size: nat, c: nat): Attempt
    requires size >= 1
  {
    Attempt(1, seq(size - 1, i requires 0 <= i < size - 1 => Draw(if i + 1 < c then 0 else 100, 1)))
  }

  lemma {:induction false} WitnessCount(size: nat, probability: int, c: nat, n: nat)
    requires Reachable(size, probability, c) && 1 <= n <= size
    ensures Witness(size, c).For(size)
    ensures AboveCount(Witness(size, c), probability, n) == if n < c then n else c
  {
    if n > 1 {
      WitnessCount(size, probability, c, n - 1);
    } else {
      assert AboveCount(Witness(size, c), probability, 0) == 0;
    }
  }

  /**
   The rejection loop has a round it accepts if and only if some reachable number of new
   maxima amounts to the requested percentage, overflow of the product included.
   */
  lemma GeneratorCanReturn(size: nat, probability: int)
    requires size >= 1
    ensures (exists t: Attempt :: t.For(size) && Accepted(t, probability)) <==>
      (exists c: nat :: Reachable(size, probability, c) && Percent(c, size) == probability)
  {
    if t: Attempt :| t.For(size) && Accepted(t, probability) {
      CountIsExtreme(t, probability, size);
      assert Reachable(size, probability, AboveCount(t, probability, size));
    }
    if c: nat :| Reachable(size, probability, c) && Percent(c, size) == probability {
      WitnessCount(size, probability, c, size);
      assert Accepted(Witness(size, c), probability);
    }
  }

  // ----- the double reductions

  /** A double other than an infinity; the finite ones exclude -0.0. */
  datatype Double = NaN | NegativeZero | Finite(x: real) {
    function Number(): real {
      if Finite? then x else 0.0
    }

    predicate Exceeds(d: Double) {
      !NaN? && !d.NaN? && Number() > d.Number()
    }

    predicate Equals(d: Double) {
      !NaN? && !d.NaN? && Number() == d.Number()
    }
  }

  const ZERO := Finite(0.0)

  function DoubleMaxStep(a: Double, b: Double, t: Tally): (Double, Tally) {
    if a.NaN? then (a, t.(notANumber := t.notANumber + 1))
    else if a.Equals(ZERO) && b.Equals(ZERO) && a.NegativeZero? then (b, t.(zeroZero := t.zeroZero + 1))
    else if a.Exceeds(b) then (a, t.(above := t.above + 1))
    else if a.Equals(b) then (a, t.(equals := t.equals + 1))
    else (b, t.(below := t.below + 1))
  }

  function DoubleMinStep(a: Double, b: Double, t: Tally): (Double, Tally) {
    if a.NaN? then (a, t.(notANumber := t.notANumber + 1))
    else if a.Equals(ZERO) && b.Equals(ZERO) && b.NegativeZero? then (b, t.(zeroZero := t.zeroZero + 1))
    else if b.Exceeds(a) then (a, t.(below := t.below + 1))
    else if a.Equals(b) then (a, t.(equals := t.equals + 1))
    else (b, t.(above := t.above + 1))
  }

  /** The larger value as Math.max has it: NaN wins over everything, 0.0 over -0.0. */
  method MyMaxDouble(a: Double, b: Double, counts: Counts) returns (r: Double)
    modifies counts
    ensures r == a || r == b
    ensures r.NaN? <==> a.NaN? || b.NaN?
    ensures !r.NaN? ==> r.Number() >= a.Number() && r.Number() >= b.Number()
    ensures r.NegativeZero? ==> a != ZERO && b != ZERO
    ensures counts.above == old(counts.above) + if a.Exceeds(b) then 1 else 0
    ensures counts.below == old(counts.below) + if b.Exceeds(a) || (b.NaN? && !a.NaN?) then 1 else 0
    ensures counts.notANumber == old(counts.notANumber) + if a.NaN? then 1 else 0
    ensures counts.zeroZero == old(counts.zeroZero) + if a.NegativeZero? && b.Equals(ZERO) then 1 else 0
    ensures counts.Fields().Total() == old(counts.Fields()).Total() + 1
    ensures (r, counts.Fields()) == DoubleMaxStep(a, b, old(counts.Fields()))
  {
    if a.NaN? {
      counts.notANumber := counts.notANumber + 1;
      return a;
    }
    if a.Equals(ZERO) && b.Equals(ZERO) && a.NegativeZero? {
      counts.zeroZero := counts.zeroZero + 1;
      return b;
    }
    if a.Exceeds(b) {
      counts.above := counts.above + 1;
      return a;
    }
    if a.Equals(b) {
      counts.equals := counts.equals + 1;
      return a;
    }
    counts.below := counts.below + 1;
    r := b;
  }

  /** The smaller value as Math.min has it: NaN wins over everything, -0.0 over 0.0. */
  method MyMinDouble(a: Double, b: Double, counts: Counts) returns (r: Double)
    modifies counts
    ensures r == a || r == b
    ensures r.NaN? <==> a.NaN? || b.NaN?
    ensures !r.NaN? ==> r.Number() <= a.Number() && r.Number() <= b.Number()
    ensures r == ZERO ==> !a.NegativeZero? && !b.NegativeZero?
    ensures counts.above == old(counts.above) + if a.Exceeds(b) || (b.NaN? && !a.NaN?) then 1 else 0
    ensures counts.below == old(counts.below) + if b.Exceeds(a) then 1 else 0
    ensures counts.notANumber == old(counts.notANumber) + if a.NaN? then 1 else 0
    ensures counts.zeroZero == old(counts.zeroZero) + if b.NegativeZero? && a.Equals(ZERO) then 1 else 0
    ensures counts.Fields().Total() == old(counts.Fields()).Total() + 1
    ensures (r, counts.Fields()) == DoubleMinStep(a, b, old(counts.Fields()))
  {
    if a.NaN? {
      counts.notANumber := counts.notANumber + 1;
      return a;
    }
    if a.Equals(ZERO) && b.Equals(ZERO) && b.NegativeZero? {
      counts.zeroZero := counts.zeroZero + 1;
      return b;
    }
    if b.Exceeds(a) {
      counts.below := counts.below + 1;
      return a;
    }
    if a.Equals(b) {
      counts.equals := counts.equals + 1;
      return a;
    }
    counts.above := counts.above + 1;
    r := b;
  }

  function DoubleReduceMax(xs: seq<Double>): (Double, Tally) {
    if xs == [] then (ZERO, NOTHING)
    else
      var (r, t) := DoubleReduceMax(xs[..|xs| - 1]);
      DoubleMaxStep(Last(xs), r, t)
  }

  function DoubleReduceMin(xs: seq<Double>): (Double, Tally) {
    if xs == [] then (ZERO, NOTHING)
    else
      var (r, t) := DoubleReduceMin(xs[..|xs| - 1]);
      DoubleMinStep(Last(xs), r, t)
  }

  method DoubleReductionSimpleMax(data: array<Double>, expects: Expects) returns (r: Option<Double>)
    requires data.Length > 0
    ensures r == if MaxPasses(expects, DoubleReduceMax(data[..]).1, data.Length)
                 then Some(DoubleReduceMax(data[..]).0) else None
  {
    var result := ZERO;
    var counts := new Counts();
    for i := 0 to data.Length
      invariant fresh(counts) && (result, counts.Fields()) == DoubleReduceMax(data[..i])
    {
      assert data[..i + 1][..i] == data[..i];
      result := MyMaxDouble(data[i], result, counts);
    }
    assert data[..data.Length] == data[..];
    r := if MaxPasses(expects, counts.Fields(), data.Length) then Some(result) else None;
  }

  method DoubleReductionSimpleMin(data: array<Double>, expects: Expects) returns (r: Option<Double>)
    requires data.Length > 0
    ensures r == if MinPasses(expects, DoubleReduceMin(data[..]).1, data.Length)
                 then Some(DoubleReduceMin(data[..]).0) else None
  {
    var result := ZERO;
    var counts := new Counts();
    for i := 0 to data.Length
      invariant fresh(counts) && (result, counts.Fields()) == DoubleReduceMin(data[..i])
    {
      assert data[..i + 1][..i] == data[..i];
      result := MyMinDouble(data[i], result, counts);
    }
    assert data[..data.Length] == data[..];
    r := if MinPasses(expects, counts.Fields(), data.Length) then Some(result) else None;
  }

  function ToDoubles(xs: seq<int>): (ds: seq<Double>)
    ensures |ds| == |xs| && forall i :: 0 <= i < |xs| ==> ds[i] == Finite(xs[i] as real)
  {
    seq(|xs|, i requires 0 <= i < |xs| => Finite(xs[i] as real))
  }

  /** On converted longs the double reductions count what the long reductions count. */
  lemma {:induction false} DoublesFollowLongs(xs: seq<int>)
    ensures DoubleReduceMax(ToDoubles(xs)) == (Finite(ReduceMax(xs).0 as real), ReduceMax(xs).1)
    ensures DoubleReduceMin(ToDoubles(xs)) == (Finite(ReduceMin(xs).0 as real), ReduceMin(xs).1)
  {
    if xs != [] {
      DoublesFollowLongs(xs[..|xs| - 1]);
      assert ToDoubles(xs)[..|xs| - 1] == ToDoubles(xs[..|xs| - 1]);
    }
  }

  /**
   The conversion of a round's data to double is exact for every int size, the conversion
   to int for every size up to a ninth of the int range, to float up to a ninth of 2^24.
   */
  lemma ConversionIsExact(t: Attempt, probability: int, i: nat)
    requires t.For(|t.draws| + 1) && |t.draws| + 1 <= MAX_VALUE && i <= |t.draws|
    ensures -EXACT < ValueAt(t, probability, i) < EXACT && -EXACT < BaseAt(t, probability, i) < EXACT
    ensures 9 * (|t.draws| + 1) <= MAX_VALUE ==>
      && ToInts(ValuesOf(t, probability))[i] == ValueAt(t, probability, i)
      && ToInts(BasesOf(t, probability))[i] == BaseAt(t, probability, i)
    ensures 9 * (|t.draws| + 1) <= FLOAT_EXACT ==>
      && ToFloats(ValuesOf(t, probability))[i] == ValueAt(t, probability, i) as real
      && ToFloats(BasesOf(t, probability))[i] == BaseAt(t, probability, i) as real
  {
    ToFloatIsNearest(ValueAt(t, probability, i));
    ToFloatIsNearest(BaseAt(t, probability, i));
    AboveOrBelow(t, probability, i);
    if i > 0 {
      AboveOrBelow(t, probability, i - 1);
    }
  }

  function ToInts(xs: seq<int>): (ys: seq<int>)
    ensures |ys| == |xs| && forall i :: 0 <= i < |xs| ==> ys[i] == Wrap(xs[i])
  {
    seq(|xs|, i requires 0 <= i < |xs| => Wrap(xs[i]))
  }

  /** A float that comes from a long is finite, and a real here. */
  function ToFloats(xs: seq<int>): (ys: seq<real>)
    ensures |ys| == |xs| && forall i :: 0 <= i < |xs| ==> ys[i] == ToFloat(xs[i]) as real
  {
    seq(|xs|, i requires 0 <= i < |xs| => ToFloat(xs[i]) as real)
  }

  // ----- the benchmark state, and one run of all four checks

  class LoopState {
    var size: nat
    var probability: int
    var maxIntA: array?<int>
    var maxIntB: array?<int>
    var maxLongA: array?<int>
    var maxLongB: array?<int>
    var maxFloatA: array?<real>
    var maxFloatB: array?<real>
    var maxDoubleA: array?<Double>
    var maxDoubleB: array?<Double>
    var minIntA: array?<int>
    var minIntB: array?<int>
    var minLongA: array?<int>
    var minLongB: array?<int>
    var minFloatA: array?<real>
    var minFloatB: array?<real>
    var minDoubleA: array?<Double>
    var minDoubleB: array?<Double>
    var resultIntArray: array?<int>
    var resultLongArray: array?<int>
    var resultFloatArray: array?<real>
    var resultDoubleArray: array?<Double>

    method Setup(n: nat, p: int, rounds: seq<Attempt>) returns (ready: bool, ghost k: nat)
      requires forall t :: t in rounds ==> t.For(n)
      modifies this
      ensures size == n && probability == p
      ensures ready <==> n > 0 && exists t :: t in rounds && Accepted(t, p)
      ensures ready ==> k < |rounds| && rounds[k].For(n) && Accepted(rounds[k], p)
      ensures ready ==> HoldInAllTypes(maxIntA, maxLongA, maxFloatA, maxDoubleA, ValuesOf(rounds[k], p))
      ensures ready ==> HoldInAllTypes(maxIntB, maxLongB, maxFloatB, maxDoubleB, BasesOf(rounds[k], p))
      ensures ready ==> HoldInAllTypes(minIntA, minLongA, minFloatA, minDoubleA, Negate(ValuesOf(rounds[k], p)))
      ensures ready ==> HoldInAllTypes(minIntB, minLongB, minFloatB, minDoubleB, Negate(BasesOf(rounds[k], p)))
      ensures ready ==> IsFilled(resultIntArray, n, 0) && IsFilled(resultLongArray, n, 0)
      ensures ready ==> IsFilled(resultFloatArray, n, 0.0) && IsFilled(resultDoubleArray, n, ZERO)
    {
      size, probability := n, p;
      var r;
      r, k := DistributeLongRandomIncrement(n, p, rounds);
      ready := r.Arrays?;
      if ready {
        assert rounds[k] in rounds;
        SetAll(r.a, r.b, n);
      }
    }

    method SetAll(a: array<int>, b: array<int>, n: nat)
      modifies this
      ensures size == old(size) && probability == old(probability)
      ensures HoldInAllTypes(maxIntA, maxLongA, maxFloatA, maxDoubleA, a[..])
      ensures HoldInAllTypes(maxIntB, maxLongB, maxFloatB, maxDoubleB, b[..])
      ensures HoldInAllTypes(minIntA, minLongA, minFloatA, minDoubleA, Negate(a[..]))
      ensures HoldInAllTypes(minIntB, minLongB, minFloatB, minDoubleB, Negate(b[..]))
      ensures IsFilled(resultIntArray, n, 0) && IsFilled(resultLongArray, n, 0)
      ensures IsFilled(resultFloatArray, n, 0.0) && IsFilled(resultDoubleArray, n, ZERO)
    {
      SetArrays(a, b);
      SetResults(n);
    }

    method SetResults(n: nat)
      modifies this`resultIntArray, this`resultLongArray, this`resultFloatArray, this`resultDoubleArray
      ensures IsFilled(resultIntArray, n, 0) && IsFilled(resultLongArray, n, 0)
      ensures IsFilled(resultFloatArray, n, 0.0) && IsFilled(resultDoubleArray, n, ZERO)
    {
      resultIntArray := FilledArray(n, 0);
      resultLongArray := FilledArray(n, 0);
      resultFloatArray := FilledArray(n, 0.0);
      resultDoubleArray := FilledArray(n, ZERO);
    }

    method SetArrays(a: array<int>, b: array<int>)
      modifies this
      ensures size == old(size) && probability == old(probability)
      ensures HoldInAllTypes(maxIntA, maxLongA, maxFloatA, maxDoubleA, a[..])
      ensures HoldInAllTypes(maxIntB, maxLongB, maxFloatB, maxDoubleB, b[..])
      ensures HoldInAllTypes(minIntA, minLongA, minFloatA, minDoubleA, Negate(a[..]))
      ensures HoldInAllTypes(minIntB, minLongB, minFloatB, minDoubleB, Negate(b[..]))
    {
      SetMax(a, b);
      var mirroredA := NegateArray(a);
      var mirroredB := NegateArray(b);
      SetMin(mirroredA, mirroredB);
    }

    method SetMax(a: array<int>, b: array<int>)
      modifies this`maxIntA, this`maxLongA, this`maxFloatA, this`maxDoubleA
      modifies this`maxIntB, this`maxLongB, this`maxFloatB, this`maxDoubleB
      ensures HoldInAllTypes(maxIntA, maxLongA, maxFloatA, maxDoubleA, a[..])
      ensures HoldInAllTypes(maxIntB, maxLongB, maxFloatB, maxDoubleB, b[..])
    {
      var ofA := ConvertArray(a);
      var ofB := ConvertArray(b);
      maxIntA, maxLongA, maxFloatA, maxDoubleA := ofA.0, a, ofA.1, ofA.2;
      maxIntB, maxLongB, maxFloatB, maxDoubleB := ofB.0, b, ofB.1, ofB.2;
    }

    method SetMin(a: array<int>, b: array<int>)
      modifies this`minIntA, this`minLongA, this`minFloatA, this`minDoubleA
      modifies this`minIntB, this`minLongB, this`minFloatB, this`minDoubleB
      ensures HoldInAllTypes(minIntA, minLongA, minFloatA, minDoubleA, a[..])
      ensures HoldInAllTypes(minIntB, minLongB, minFloatB, minDoubleB, b[..])
    {
      var ofA := ConvertArray(a);
      var ofB := ConvertArray(b);
      minIntA, minLongA, minFloatA, minDoubleA := ofA.0, a, ofA.1, ofA.2;
      minIntB, minLongB, minFloatB, minDoubleB := ofB.0, b, ofB.1, ofB.2;
    }
  }

  ghost predicate IsFilled<X>(a: array?<X>, n: nat, x: X)
    reads a
  {
    a != null && a.Length == n && forall i :: 0 <= i < n ==> a[i] == x
  }

  method FilledArray<X>(n: nat, x: X) returns (a: array<X>)
    ensures fresh(a) && IsFilled(a, n, x)
  {
    a := new X[n](_ => x);
  }

  ghost predicate HoldInAllTypes(ints: array?<int>, longs: array?<int>, floats: array?<real>, doubles: array?<Double>,
                                 data: seq<int>)
    reads ints, longs, floats, doubles
  {
    && longs != null && longs[..] == data
    && ints != null && ints[..] == ToInts(data)
    && floats != null && floats[..] == ToFloats(data)
    && doubles != null && doubles[..] == ToDoubles(data)
  }

  method ConvertArray(longs: array<int>) returns (r: (array<int>, array<real>, array<Double>))
    ensures fresh(r.0) && fresh(r.1) && fresh(r.2) && HoldInAllTypes(r.0, longs, r.1, r.2, longs[..])
  {
    var ints := ToIntArray(longs);
    var floats := ToFloatArray(longs);
    var doubles := ToDoubleArray(longs);
    r := (ints, floats, doubles);
  }

  method ToFloatArray(a: array<int>) returns (d: array<real>)
    ensures fresh(d) && d[..] == ToFloats(a[..])
  {
    d := new real[a.Length];
    for i := 0 to a.Length
      invariant forall k :: 0 <= k < i ==> d[k] == ToFloat(a[k]) as real
    {
      d[i] := ToFloat(a[i]) as real;
    }
  }

  method ToIntArray(a: array<int>) returns (d: array<int>)
    ensures fresh(d) && d[..] == ToInts(a[..])
  {
    d := new int[a.Length];
    for i := 0 to a.Length
      invariant forall k :: 0 <= k < i ==> d[k] == Wrap(a[k])
    {
      d[i] := Wrap(a[i]);
    }
  }

  method NegateArray(a: array<int>) returns (b: array<int>)
    ensures fresh(b) && b[..] == Negate(a[..])
  {
    b := new int[a.Length];
    for i := 0 to a.Length
      invariant forall k :: 0 <= k < i ==> b[k] == -a[k]
    {
      b[i] := -a[i];
    }
  }

  method ToDoubleArray(a: array<int>) returns (d: array<Double>)
    ensures fresh(d) && d[..] == ToDoubles(a[..])
  {
    d := new Double[a.Length](_ => ZERO);
    for i := 0 to a.Length
      invariant forall k :: 0 <= k < i ==> d[k] == Finite(a[k] as real)
    {
      d[i] := Finite(a[i] as real);
    }
  }

  /**
   Setting up a state and running the four reductions on it, each with its expectation for
   the probability: whenever the generator returns, every check passes.
   */
  method RunChecks(size: nat, probability: int, rounds: seq<Attempt>)
    returns (ready: bool, maxLong: Option<int>, minLong: Option<int>,
             maxDouble: Option<Double>, minDouble: Option<Double>)
    requires forall t :: t in rounds ==> t.For(size)
    ensures ready <==> size > 0 && exists t :: t in rounds && Accepted(t, probability)
    ensures ready ==> maxLong.Some? && minLong.Some? && maxDouble.Some? && minDouble.Some?
    ensures ready ==>
      && minLong.value == -maxLong.value
      && maxDouble.value == Finite(maxLong.value as real)
      && minDouble.value == Finite(minLong.value as real)
  {
    var state := new LoopState;
    maxLong, minLong, maxDouble, minDouble := None, None, None, None;
    ghost var k;
    ready, k := state.Setup(size, probability, rounds);
    if ready {
      ghost var t := rounds[k];
      assert t in rounds;
      var forMax := Tally(0, 0, probability, 0, 100 - probability);
      var forMin := Tally(0, 0, 100 - probability, 0, probability);
      ghost var xs := ValuesOf(t, probability);
      AcceptedPassesMax(t, probability, forMax);
      AcceptedPassesMin(t, probability, forMin);
      NegationMirrors(xs);
      DoublesFollowLongs(xs);
      DoublesFollowLongs(Negate(xs));
      assert state.maxLongA[..] == xs && |state.maxLongA[..]| == state.maxLongA.Length;
      assert |state.minLongA[..]| == state.minLongA.Length;
      assert |state.maxDoubleA[..]| == state.maxDoubleA.Length && |state.minDoubleA[..]| == state.minDoubleA.Length;
      maxLong := LongReductionSimpleMax(state.maxLongA, forMax);
      minLong := LongReductionSimpleMin(state.minLongA, forMin);
      maxDouble := DoubleReductionSimpleMax(state.maxDoubleA, forMax);
      minDouble := DoubleReductionSimpleMin(state.minDoubleA, forMin);
    }
  }
}
