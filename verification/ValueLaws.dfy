/**
 What the values of make/plans/dynamic-ir/ir-core.js mean, kind by kind: laws of the
 arithmetic on whole numbers, of bits, shifts and comparisons, and which kinds show what.
 */
module ValueLaws {
  import opened Common
  import opened IrGraph
  import opened Evaluator

  /** Whole numbers that doubles hold without gaps. */
  predicate Exact(a: int) {
    -EXACT < a < EXACT
  }

  /** On these operands, the kinds for int and for long both show v. */
  ghost predicate Shows(intKind: string, longKind: string, a: int, b: int, v: int) {
    Binary(intKind, a as real, b as real) == Binary(longKind, a as real, b as real) == Some(Num(v as real))
  }

  // ----- division

  function Abs(x: real): real {
    if x < 0.0 then -x else x
  }

  lemma QuotientSign(q: real, b: real)
    requires b != 0.0
    ensures q * b > 0.0 <==> (q > 0.0 && b > 0.0) || (q < 0.0 && b < 0.0)
    ensures q * b == 0.0 <==> q == 0.0
  {
    assert q > 0.0 && b < 0.0 ==> q * -b > 0.0;
    assert q < 0.0 && b > 0.0 ==> -q * b > 0.0;
    assert q < 0.0 && b < 0.0 ==> -q * -b > 0.0;
  }

  lemma {:induction false} FractionOf(f: real, b: real)
    requires -1.0 < f < 1.0 && b != 0.0
    ensures Abs(f * b) < Abs(b)
    ensures f * b > 0.0 <==> (f > 0.0 && b > 0.0) || (f < 0.0 && b < 0.0)
    decreases b < 0.0, f < 0.0
  {
    if b < 0.0 {
      FractionOf(f, -b);
      assert f * b == -(f * -b);
    } else if f < 0.0 {
      FractionOf(-f, b);
      assert f * b == -(-f * b);
    } else {
      assert (1.0 - f) * b > 0.0;
      assert (1.0 - f) * b == b - f * b;
    }
  }

  /**
   On whole operands, rounding toward zero: quotient and remainder of the two kinds are
   whole and recompose the dividend, and the remainder is smaller than the divisor and
   takes the dividend's sign.
   */
  lemma DivisionLaw(a: int, b: int) returns (q: int, r: int)
    requires b != 0 && -EXACT < a < EXACT && -EXACT < b < EXACT
    ensures Binary("DivI", a as real, b as real) == Binary("DivL", a as real, b as real) == Some(Num(q as real))
    ensures Binary("ModI", a as real, b as real) == Binary("ModL", a as real, b as real) == Some(Num(r as real))
    ensures a == q * b + r
    ensures Abs(r as real) < Abs(b as real)
    ensures (a >= 0 ==> r >= 0) && (a <= 0 ==> r <= 0)
  {
    var x, y := a as real, b as real;
    DivisionKinds(x, y);
    RemainderBounds(x, y);
    q := Trunc(x / y);
    r := WholeRemainder(a, b, q);
  }

  lemma DivisionKinds(x: real, y: real)
    requires y != 0.0
    ensures Binary("DivI", x, y) == Binary("DivL", x, y) == Some(Num(Trunc(x / y) as real))
    ensures Binary("ModI", x, y) == Binary("ModL", x, y) == Some(Num(Remainder(x, y)))
  {
  }

  lemma WholeRemainder(a: int, b: int, q: int) returns (r: int)
    requires b != 0 && q == Trunc(a as real / b as real)
    ensures r as real == Remainder(a as real, b as real) && a == q * b + r
  {
    WholeProduct(q, b);
    r := a - q * b;
  }

  /**
   On any numbers, the remainder differs from the dividend by a whole multiple of the
   divisor, is smaller than the divisor and takes the dividend's sign.
   */
  lemma RemainderLaw(x: real, y: real) returns (q: int, r: real)
    requires y != 0.0
    ensures Binary("ModI", x, y) == Binary("ModL", x, y) == Some(Num(r))
    ensures x == y * (q as real) + r && Abs(r) < Abs(y)
    ensures (x >= 0.0 ==> r >= 0.0) && (x <= 0.0 ==> r <= 0.0)
  {
    q, r := Trunc(x / y), Remainder(x, y);
    DivisionKinds(x, y);
    RemainderBounds(x, y);
  }

  lemma RemainderBounds(x: real, y: real)
    requires y != 0.0
    ensures Abs(Remainder(x, y)) < Abs(y)
    ensures (x >= 0.0 ==> Remainder(x, y) >= 0.0) && (x <= 0.0 ==> Remainder(x, y) <= 0.0)
  {
    var t := x / y;
    var f := t - Trunc(t) as real;
    assert t * y == x && Remainder(x, y) == f * y;
    if t >= 0.0 {
      assert 0.0 <= f < 1.0;
    } else {
      assert -1.0 < f <= 0.0;
    }
    FractionOf(f, y);
    QuotientSign(t, y);
  }

  lemma WholeProduct(q: int, b: int)
    ensures (b as real) * (q as real) == (q * b) as real
  {
  }

  // ----- sums and products

  /** Adding 0 changes nothing, adding one more gives one more, and subtracting takes back what was added. */
  lemma AdditionLaw(a: int, b: int) returns (s: int)
    requires Exact(a) && Exact(b) && Exact(b + 1) && Exact(a + b) && Exact(a + b + 1)
    ensures Shows("AddI", "AddL", a, b, s) && Shows("AddI", "AddL", a, b + 1, s + 1)
    ensures b == 0 ==> s == a
    ensures Shows("SubI", "SubL", s, b, a)
  {
    s := a + b;
    assert (b + 1) as real == b as real + 1.0;
  }

  /** Multiplying by 0 gives 0, and by one more, one more of the other factor. */
  lemma MultiplicationLaw(a: int, b: int) returns (p: int)
    requires Exact(a) && Exact(b) && Exact(b + 1) && Exact(a * b) && Exact(a * b + a)
    ensures Shows("MulI", "MulL", a, b, p) && Shows("MulI", "MulL", a, b + 1, p + a)
    ensures b == 0 ==> p == 0
  {
    p := a * b;
    ProductShown(a, b);
    ProductShown(a, b + 1);
    OneMoreFactor(a, b);
  }

  lemma ProductShown(a: int, b: int)
    ensures Shows("MulI", "MulL", a, b, a * b)
  {
    RealProduct(a, b);
  }

  lemma OneMoreFactor(a: int, b: int)
    ensures a * (b + 1) == a * b + a
  {
  }

  lemma RealProduct(a: int, b: int)
    ensures (a as real) * (b as real) == (a * b) as real
  {
  }

  /** Division by zero is shown as a text. */
  lemma ZeroDivisor(a: real)
    ensures Binary("DivI", a, 0.0) == Binary("DivL", a, 0.0) == Some(Text("\U{f7}0"))
    ensures Binary("ModI", a, 0.0) == Binary("ModL", a, 0.0) == Some(Text("%0"))
  {
  }

  // ----- 32 bits

  lemma WholeNumber(x: int)
    ensures Trunc(x as real) == x
  {
    assert (-(x as real)) == (-x) as real;
  }

  lemma {:induction false} AtLeastMultiplied(d: int, p: int)
    requires d >= 1 && p >= 1
    ensures d * p >= d && d * p >= p
    decreases d
  {
    if d > 1 {
      AtLeastMultiplied(d - 1, p);
      assert d * p == (d - 1) * p + p;
    }
  }

  /** w is the int, respectively the unsigned int, with the lowest 32 bits of a. */
  predicate IsInt32Of(w: int, a: int) {
    -0x8000_0000 <= w < 0x8000_0000 && (a - w) % TWO32 == 0
  }

  predicate IsUint32Of(u: int, a: int) {
    0 <= u < TWO32 && (a - u) % TWO32 == 0
  }

  lemma LowestBits(a: int)
    ensures ToUint32(a as real) == a % TWO32
    ensures IsUint32Of(a % TWO32, a) && IsInt32Of(Signed32(a % TWO32), a)
  {
    WholeNumber(a);
    var k := a / TWO32;
    MultipleOf(k);
    MultipleOf(k + 1);
    assert a - a % TWO32 == k * TWO32;
    assert a - (a % TWO32 - TWO32) == (k + 1) * TWO32;
  }

  lemma MultipleOf(k: int)
    ensures (k * TWO32) % TWO32 == 0
  {
  }

  lemma CountOfShift(b: int)
    ensures ShiftCount(b as real) == b % 32
  {
    WholeNumber(b);
    var k, r := b / TWO32, b % TWO32;
    QuotientIs(b, 32, k * 0x800_0000 + r / 32, r % 32);
  }

  /** A left shift multiplies by a power of two and keeps 32 bits; only five bits of the count matter. */
  lemma LeftShiftLaw(a: int, b: int) returns (v: int)
    requires Exact(a) && Exact(b)
    ensures Shows("LShiftI", "LShiftL", a, b, v) && IsInt32Of(v, a * Pow2(b % 32))
  {
    var p := Pow2(b % 32);
    LowestBits(a);
    CountOfShift(b);
    var k := a / TWO32;
    var m := (a % TWO32) * p;
    assert a * p == m + (k * p) * TWO32 by {
      assert a == a % TWO32 + k * TWO32;
      Distribute(a % TWO32, k * TWO32, p);
      Swap(k, TWO32, p);
    }
    v := Signed32(m % TWO32);
    LowestBits(m);
    AddMultiple(m, v, k * p);
    ShiftShown(a as real, b as real);
  }

  lemma Distribute(x: int, y: int, p: int)
    ensures (x + y) * p == x * p + y * p
  {
  }

  lemma Swap(x: int, y: int, p: int)
    ensures (x * y) * p == (x * p) * y
  {
  }

  lemma AddMultiple(m: int, v: int, k: int)
    requires IsInt32Of(v, m)
    ensures IsInt32Of(v, m + k * TWO32)
  {
    var j := (m - v) / TWO32;
    assert m + k * TWO32 - v == (j + k) * TWO32;
    MultipleOf(j + k);
  }

  lemma ShiftShown(x: real, y: real)
    ensures Binary("LShiftI", x, y) == Binary("LShiftL", x, y) ==
      Some(Num(Signed32((ToUint32(x) * Pow2(ShiftCount(y))) % TWO32) as real))
    ensures Binary("RShiftI", x, y) == Binary("RShiftL", x, y) ==
      Some(Num((Signed32(ToUint32(x)) / Pow2(ShiftCount(y))) as real))
    ensures Binary("URShiftI", x, y) == Binary("URShiftL", x, y) ==
      Some(Num((ToUint32(x) / Pow2(ShiftCount(y))) as real))
  {
  }

  /** Right shifts divide by a power of two, rounding down: the int, or the unsigned int. */
  lemma RightShiftLaw(a: int, b: int) returns (w: int, v: int, u: int, n: int)
    requires Exact(a) && Exact(b)
    ensures Shows("RShiftI", "RShiftL", a, b, v) && IsInt32Of(w, a)
    ensures v * Pow2(b % 32) <= w < v * Pow2(b % 32) + Pow2(b % 32)
    ensures Shows("URShiftI", "URShiftL", a, b, n) && IsUint32Of(u, a)
    ensures n * Pow2(b % 32) <= u < n * Pow2(b % 32) + Pow2(b % 32)
  {
    var p := Pow2(b % 32);
    LowestBits(a);
    CountOfShift(b);
    ShiftShown(a as real, b as real);
    u := a % TWO32;
    w := Signed32(u);
    v, n := w / p, u / p;
    RoundedDown(w, p);
    RoundedDown(u, p);
  }

  lemma RoundedDown(x: int, p: nat)
    requires p > 0
    ensures (x / p) * p <= x < (x / p) * p + p
  {
  }

  /**
   The two laws together: v being what the left shift shows, and q what the right shift
   of v shows, a product that stays in 32 bits is shown, and the right shift undoes it.
   */
  lemma ShiftLaw(a: int, k: nat, v: int, w: int, q: int)
    requires k < 32 && -0x8000_0000 <= a * Pow2(k) < 0x8000_0000
    requires IsInt32Of(v, a * Pow2(k))
    requires IsInt32Of(w, v) && q * Pow2(k) <= w < q * Pow2(k) + Pow2(k)
    ensures v == a * Pow2(k) && q == a
  {
    SameInt32(v, a * Pow2(k));
    SameInt32(w, v);
    SameQuotient(v, Pow2(k), a, q);
  }

  lemma SameQuotient(m: int, p: nat, a: int, q: int)
    requires p > 0 && m == a * p && q * p <= m < q * p + p
    ensures q == a
  {
    QuotientIs(m, p, a, 0);
    QuotientIs(m, p, q, m - q * p);
  }

  /** An int is the only one with its lowest 32 bits. */
  lemma SameInt32(v: int, m: int)
    requires IsInt32Of(v, m) && -0x8000_0000 <= m < 0x8000_0000
    ensures v == m
  {
  }

  // ----- single bits

  predicate Bit(v: int, k: nat) {
    (v / Pow2(k)) % 2 == 1
  }

  lemma HalfOfBit(v: int, k: nat)
    requires k > 0
    ensures Bit(v, k) <==> Bit(v / 2, k - 1)
  {
    var p := Pow2(k - 1);
    var h := v / 2;
    var q := h / p;
    assert v == 2 * h + v % 2 && h == q * p + h % p;
    assert v == q * (2 * p) + (2 * (h % p) + v % 2) by {
      assert 2 * (q * p) == q * (2 * p);
    }
    QuotientIs(v, 2 * p, q, 2 * (h % p) + v % 2);
  }

  lemma QuotientIs(x: int, d: nat, q: int, r: int)
    requires d > 0 && x == q * d + r && 0 <= r < d
    ensures x / d == q && x % d == r
  {
    var e := x / d - q;
    assert e * d == r - x % d by {
      assert x == (x / d) * d + x % d;
      Distribute(x / d, -q, d);
    }
    if e >= 1 {
      AtLeastMultiplied(e, d);
    } else if e <= -1 {
      AtLeastMultiplied(-e, d);
      NegatedProduct(e, d);
    }
  }

  lemma NegatedProduct(e: int, d: int)
    ensures -e * d == -(e * d)
  {
  }

  lemma {:induction false} BitOfBitwise(op: (bool, bool) -> bool, x: nat, y: nat, n: nat, k: nat)
    requires k < n
    ensures Bit(Bitwise(op, x, y, n), k) <==> op(Bit(x, k), Bit(y, k))
  {
    var z := Bitwise(op, x, y, n);
    assert z / 2 == Bitwise(op, x / 2, y / 2, n - 1);
    assert Pow2(0) == 1;
    if k > 0 {
      HalfOfBit(z, k);
      HalfOfBit(x, k);
      HalfOfBit(y, k);
      BitOfBitwise(op, x / 2, y / 2, n - 1, k - 1);
    }
  }

  /** A multiple of 2^n does not change the bits below n. */
  lemma {:induction false} BitsBelow(x: int, c: int, n: nat, k: nat)
    requires k < n
    ensures Bit(x + c * Pow2(n), k) <==> Bit(x, k)
    decreases k
  {
    var half := c * Pow2(n - 1);
    assert c * Pow2(n) == 2 * half;
    assert (x + 2 * half) / 2 == x / 2 + half;
    if k == 0 {
      assert Pow2(0) == 1;
    } else {
      HalfOfBit(x + 2 * half, k);
      HalfOfBit(x, k);
      BitsBelow(x / 2, c, n - 1, k - 1);
    }
  }

  lemma Pow2Of32()
    ensures Pow2(32) == TWO32
  {
    assert Pow2(2) == 4 && Pow2(4) == 16;
    PowersAdd(4, 4);
    PowersAdd(8, 8);
    PowersAdd(16, 16);
  }

  lemma SameLowBits(x: int, y: int, k: nat)
    requires k < 32 && (x - y) % TWO32 == 0
    ensures Bit(x, k) <==> Bit(y, k)
  {
    var c := (x - y) / TWO32;
    Pow2Of32();
    assert x == y + c * Pow2(32);
    BitsBelow(y, c, 32, k);
  }

  lemma UnsignedOf(a: int) returns (x: nat)
    ensures x == ToUint32(a as real) && IsUint32Of(x, a)
  {
    LowestBits(a);
    x := a % TWO32;
  }

  lemma SignedOf(z: nat)
    requires z < TWO32
    ensures z % TWO32 == z && IsInt32Of(Signed32(z), z)
  {
    LowestBits(z);
  }

  lemma CombinedShown(op: (bool, bool) -> bool, a: int, b: int) returns (x: nat, y: nat, v: int)
    ensures Bitwise32(op, a as real, b as real) == Some(Num(v as real))
    ensures IsUint32Of(x, a) && IsUint32Of(y, b) && IsInt32Of(v, Bitwise(op, x, y, 32))
  {
    x := UnsignedOf(a);
    y := UnsignedOf(b);
    Pow2Of32();
    SignedOf(Bitwise(op, x, y, 32));
    v := Signed32(Bitwise(op, x, y, 32));
  }

  lemma Bitwise32Law(op: (bool, bool) -> bool, a: int, b: int) returns (v: int)
    ensures Bitwise32(op, a as real, b as real) == Some(Num(v as real)) && -0x8000_0000 <= v < 0x8000_0000
    ensures forall k: nat :: k < 32 ==> (Bit(v, k) <==> op(Bit(a, k), Bit(b, k)))
  {
    var x, y;
    x, y, v := CombinedShown(op, a, b);
    forall k: nat | k < 32 ensures Bit(v, k) <==> op(Bit(a, k), Bit(b, k)) {
      CombinedBit(op, a, b, x, y, v, k);
    }
  }

  lemma CombinedBit(op: (bool, bool) -> bool, a: int, b: int, x: nat, y: nat, v: int, k: nat)
    requires k < 32 && IsUint32Of(x, a) && IsUint32Of(y, b) && IsInt32Of(v, Bitwise(op, x, y, 32))
    ensures Bit(v, k) <==> op(Bit(a, k), Bit(b, k))
  {
    BitOfBitwise(op, x, y, 32, k);
    SameLowBits(a, x, k);
    SameLowBits(b, y, k);
    SameLowBits(Bitwise(op, x, y, 32), v, k);
  }

  /** The bits of And, Or and Xor are those of the operands, combined one by one. */
  lemma BitwiseLaw(a: int, b: int) returns (conj: int, disj: int, excl: int)
    requires Exact(a) && Exact(b)
    ensures Shows("AndI", "AndL", a, b, conj) && Shows("OrI", "OrL", a, b, disj) && Shows("XorI", "XorL", a, b, excl)
    ensures IsInt32Of(conj, conj) && IsInt32Of(disj, disj) && IsInt32Of(excl, excl)
    ensures forall k: nat :: k < 32 ==> (Bit(conj, k) <==> Bit(a, k) && Bit(b, k))
    ensures forall k: nat :: k < 32 ==> (Bit(disj, k) <==> Bit(a, k) || Bit(b, k))
    ensures forall k: nat :: k < 32 ==> (Bit(excl, k) <==> Bit(a, k) != Bit(b, k))
  {
    conj := Bitwise32Law((p, q) => p && q, a, b);
    disj := Bitwise32Law((p, q) => p || q, a, b);
    excl := Bitwise32Law((p, q) => p != q, a, b);
  }

  // ----- which inputs, and which kinds

  lemma {:induction false} NumbersConcat(s: seq<Option<Value>>, t: seq<Option<Value>>)
    ensures Numbers(s + t) == Numbers(s) + Numbers(t)
  {
    if s == [] {
      assert s + t == t;
    } else {
      assert (s + t)[1..] == s[1..] + t;
      NumbersConcat(s[1..], t);
    }
  }

  /** The inputs that count are the numbers among them, in order. */
  lemma NumberAt(ins: seq<Option<Value>>, k: nat)
    requires k < |ins|
    ensures ins[k].Some? && ins[k].value.Num? ==>
      |Numbers(ins[..k])| < |Numbers(ins)| && Numbers(ins)[|Numbers(ins[..k])|] == ins[k].value.n
    ensures Numbers(ins) == Numbers(ins[..k]) + Numbers([ins[k]]) + Numbers(ins[k + 1..])
    ensures !(ins[k].Some? && ins[k].value.Num?) ==> Numbers([ins[k]]) == []
  {
    var one, rest := [ins[k]], ins[k + 1..];
    assert ins == ins[..k] + (one + rest);
    NumbersConcat(ins[..k], one + rest);
    NumbersConcat(one, rest);
    assert one[1..] == [] && Numbers(one[1..]) == [];
  }

  const ARITHMETIC := [
    "AddI", "AddL", "SubI", "SubL", "MulI", "MulL", "DivI", "DivL", "ModI", "ModL", "LShiftI", "LShiftL",
    "RShiftI", "RShiftL", "URShiftI", "URShiftL", "AndI", "AndL", "OrI", "OrL", "XorI", "XorL"]

  /** None of the kinds with a case of their own. */
  predicate IsPlain(kind: string) {
    && kind !in ["Start", "Root", "Parm", "Return"] && !("Con" <= kind)
  }

  lemma ArithmeticLetters(kind: string)
    requires kind in ARITHMETIC
    ensures |kind| >= 2 && kind[0] !in {'C', 'P'}
    ensures (kind[0] == 'S' ==> kind[1] == 'u') && (kind[0] == 'R' ==> kind[1] == 'S')
  {
  }

  lemma LettersArePlain(kind: string)
    requires |kind| >= 2 && kind[0] !in {'C', 'P'}
    requires (kind[0] == 'S' ==> kind[1] == 'u') && (kind[0] == 'R' ==> kind[1] == 'S')
    ensures IsPlain(kind) && !("Cmp" <= kind) && !PassesThrough(kind)
  {
    assert "Con"[0] == 'C' && "Cmp"[0] == 'C' && "CheckCast"[0] == 'C';
    assert "Start"[1] == 't' && "Root"[1] == 'o' && "Return"[1] == 'e';
  }

  lemma ArithmeticIsBinary(kind: string, a: real, b: real)
    requires kind in ARITHMETIC
    ensures Binary(kind, a, b).Some?
  {
  }

  lemma ArithmeticIsNotUnary(kind: string, a: real)
    requires kind in ARITHMETIC
    ensures Unary(kind, a) == None
  {
  }

  /** Only the first two numbers count, and with fewer there is no value. */
  lemma ArithmeticShown(node: Node, ins: seq<Option<Value>>, params: Params)
    requires node.kind in ARITHMETIC
    ensures |Numbers(ins)| >= 2 ==>
      ComputeValue(node, ins, params) == Binary(node.kind, Numbers(ins)[0], Numbers(ins)[1]) != None
    ensures |Numbers(ins)| < 2 ==> ComputeValue(node, ins, params) == None
  {
    var nums := Numbers(ins);
    ArithmeticLetters(node.kind);
    LettersArePlain(node.kind);
    if |nums| >= 2 {
      ArithmeticIsBinary(node.kind, nums[0], nums[1]);
    } else if |nums| == 1 {
      ArithmeticIsNotUnary(node.kind, nums[0]);
    }
  }

  /** A comparison shows how its first number relates to its second. */
  lemma ComparisonShown(node: Node, ins: seq<Option<Value>>, params: Params, a: real, b: real)
    requires "Cmp" <= node.kind && |Numbers(ins)| >= 2 && Numbers(ins)[0] == a && Numbers(ins)[1] == b
    ensures ComputeValue(node, ins, params) == Some(Text("<")) <==> a < b
    ensures ComputeValue(node, ins, params) == Some(Text(">")) <==> a > b
    ensures ComputeValue(node, ins, params) == Some(Text("=")) <==> a == b
  {
    assert node.kind[..3] == "Cmp" && node.kind[0] == 'C' && node.kind[1] == 'm';
    assert "Con"[1] == 'o';
    NoLiteral(node.kind, a, b);
  }

  lemma NoLiteral(kind: string, a: real, b: real)
    requires |kind| >= 2 && kind[0] == 'C'
    ensures Binary(kind, a, b) == None
  {
  }

  /** Negation and absolute value of the first number, whatever follows it. */
  lemma SignsShown(node: Node, ins: seq<Option<Value>>, params: Params) returns (v: real)
    requires node.kind in ["NegI", "NegL", "AbsI", "AbsL"] && Numbers(ins) != []
    ensures ComputeValue(node, ins, params) == Some(Num(v))
    ensures node.kind in ["NegI", "NegL"] ==> v + Numbers(ins)[0] == 0.0
    ensures node.kind in ["AbsI", "AbsL"] ==> v >= 0.0 && (v == Numbers(ins)[0] || v == -Numbers(ins)[0])
  {
    var x := Numbers(ins)[0];
    assert node.kind[0] in {'N', 'A'} && "Con"[0] == "Cmp"[0] == 'C';
    v := if node.kind in ["NegI", "NegL"] then -x else Abs(x);
  }

  lemma PassingOperates(kind: string, a: real, b: real)
    requires kind in ["Proj", "Phi"] || "CheckCast" <= kind
    ensures IsPlain(kind) && !("Cmp" <= kind) && PassesThrough(kind)
    ensures Binary(kind, a, b) == None && Unary(kind, a) == None
  {
    if "CheckCast" <= kind {
      assert kind[..9] == "CheckCast" && kind[0] == 'C' && kind[1] == 'h';
      NoLiteral(kind, a, b);
    } else {
      assert kind[0] == 'P';
    }
    assert "Con"[0] == "Cmp"[0] == 'C' && "Con"[1] == 'o' && "Cmp"[1] == 'm';
  }

  /** Projections, phis and checked casts show a number that is the only one among their inputs. */
  lemma PassThroughShown(node: Node, ins: seq<Option<Value>>, params: Params)
    requires node.kind in ["Proj", "Phi"] || "CheckCast" <= node.kind
    ensures |Numbers(ins)| == 1 ==> ComputeValue(node, ins, params) == Some(Num(Numbers(ins)[0]))
    ensures |Numbers(ins)| != 1 ==> ComputeValue(node, ins, params) == None
  {
    var nums := Numbers(ins);
    PassingOperates(node.kind, if |nums| > 0 then nums[0] else 0.0, if |nums| > 1 then nums[1] else 0.0);
  }

  /** A parameter shows its number if that is known, and a question mark otherwise. */
  lemma ParameterShown(node: Node, ins: seq<Option<Value>>, params: Params, i: nat)
    requires node.kind == "Parm" && node.parmIndex == Some(i)
    ensures i in params ==> ComputeValue(node, ins, params) == Some(Num(params[i]))
    ensures i !in params ==> ComputeValue(node, ins, params) == Some(Text("?"))
  {
  }

  /** The parameters that carry no value of the method show what they stand for. */
  lemma OtherParameterShown(node: Node, ins: seq<Option<Value>>, params: Params)
    requires node.kind == "Parm" && node.parmIndex == None
    ensures var v := ComputeValue(node, ins, params);
      && ("Control" <= node.extra ==> v == Some(Text("ctrl")))
      && ("I_O" <= node.extra ==> v == Some(Text("io")))
      && ("Memory" <= node.extra ==> v == Some(Text("mem")))
      && ("FramePtr" <= node.extra ==> v == Some(Text("fp")))
      && ("ReturnAdr" <= node.extra ==> v == Some(Text("ra")))
      && (node.extra == "" ==> v == Some(Text(if node.sublabel == "" then "?" else node.sublabel)))
  {
    assert node.extra != "" ==>
      ("Control" <= node.extra ==> node.extra[0] == 'C') && ("I_O" <= node.extra ==> node.extra[0] == 'I')
      && ("Memory" <= node.extra ==> node.extra[0] == 'M') && ("FramePtr" <= node.extra ==> node.extra[0] == 'F')
      && ("ReturnAdr" <= node.extra ==> node.extra[0] == 'R');
  }

  /** The kinds that do not look at their inputs. */
  lemma FixedShown(node: Node, ins: seq<Option<Value>>, params: Params)
    ensures var v := ComputeValue(node, ins, params);
      && (node.kind == "Start" ==> v == Some(Text("{...}")))
      && (node.kind == "Root" ==> v == Some(Text("done")))
      && (node.IsConstant() && node.constant.Some? ==> v == Some(Num(node.constant.value)))
      && (node.IsConstant() && node.constant.None? ==>
            v == Some(Text(if node.sublabel == "" then "#?" else node.sublabel)))
  {
    if node.IsConstant() {
      assert node.kind[..3] == "Con" && node.kind[0] == 'C';
    }
  }

  /** A node with a marked value shows the input at that position. */
  lemma MarkedReturnShown(node: Node, ins: seq<Option<Value>>, params: Params)
    requires node.kind == "Return" && 0 <= node.returnValIdx < |ins|
    ensures ComputeValue(node, ins, params) == Some(Ret(ins[node.returnValIdx]))
  {
    assert node.kind[0] == 'R' && "Con"[0] == 'C';
  }
}
