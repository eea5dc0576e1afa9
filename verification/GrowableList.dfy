/**
 The hand-written growable list of mw-valhalla-999/ParentInfoValue.java: growth in 32-bit
 arithmetic that may wrap around, the list itself, and the amortised cost of its copies.
 */
module GrowableList {
  import opened Common
  import opened JavaInt

  const SOFT_MAX_ARRAY_LENGTH := MAX_VALUE - 8

  const DEFAULT_CAPACITY := 10

  datatype Error = OutOfMemory

  function HugeLength(oldLength: Int32, minGrowth: Int32): Result<Int32, Error> {
    var minLength := Wrap(oldLength + minGrowth);
    if minLength < 0 then Err(OutOfMemory)
    else if minLength <= SOFT_MAX_ARRAY_LENGTH then Ok(SOFT_MAX_ARRAY_LENGTH)
    else Ok(minLength)
  }

  function NewLength(oldLength: Int32, minGrowth: Int32, prefGrowth: Int32): Result<Int32, Error> {
    var prefLength := Wrap(oldLength + Max(minGrowth, prefGrowth));
    if 0 < prefLength <= SOFT_MAX_ARRAY_LENGTH then Ok(prefLength) else HugeLength(oldLength, minGrowth)
  }

  /**
   In terms of the true, unbounded sums: the preferred length if it is within the soft
   limit, else the soft limit if the required length is, else the required length if an
   int can hold it. Overflow is detected exactly.
   */
  lemma NewLengthInTrueSums(oldLength: Int32, minGrowth: Int32, prefGrowth: Int32)
    requires oldLength >= 0 && minGrowth > 0
    ensures var preferred, required := oldLength + Max(minGrowth, prefGrowth), oldLength + minGrowth;
      NewLength(oldLength, minGrowth, prefGrowth) ==
        if preferred <= SOFT_MAX_ARRAY_LENGTH then Ok(preferred)
        else if required <= SOFT_MAX_ARRAY_LENGTH then Ok(SOFT_MAX_ARRAY_LENGTH)
        else if required <= MAX_VALUE then Ok(required)
        else Err(OutOfMemory)
  {
    WrapAbove(oldLength + Max(minGrowth, prefGrowth));
    WrapAbove(oldLength + minGrowth);
  }

  /** A sum of two ints that is too large wraps to a negative one. */
  lemma WrapAbove(x: int)
    requires MAX_VALUE < x <= 2 * MAX_VALUE
      || -0x8000_0000 <= x <= MAX_VALUE
    ensures x > MAX_VALUE ==> Wrap(x) == x - 0x1_0000_0000 < 0
  {
  }

  // ----- capacity and cost after n additions to a fresh list

  /** The capacity that `grow` picks for a full list. */
  function Grown(capacity: nat): nat
    requires capacity < MAX_VALUE
  {
    if capacity == 0 then DEFAULT_CAPACITY
    else
      match NewLength(capacity, 1, capacity / 2)
      case Ok(n) => if n > capacity then n else capacity
      case Err(_) => capacity
  }

  lemma GrownIsLarger(capacity: nat)
    requires capacity < MAX_VALUE
    ensures capacity < Grown(capacity) <= MAX_VALUE
    ensures capacity > 0 ==> NewLength(capacity, 1, capacity / 2) == Ok(Grown(capacity))
    ensures capacity < SOFT_MAX_ARRAY_LENGTH ==>
      Grown(capacity) == SOFT_MAX_ARRAY_LENGTH || 2 * Grown(capacity) >= 3 * capacity - 1
    ensures capacity < SOFT_MAX_ARRAY_LENGTH ==> Grown(capacity) <= SOFT_MAX_ARRAY_LENGTH
    ensures capacity > 0 && capacity + Max(1, capacity / 2) <= SOFT_MAX_ARRAY_LENGTH ==>
      Grown(capacity) == capacity + Max(1, capacity / 2)
    ensures SOFT_MAX_ARRAY_LENGTH <= capacity ==> Grown(capacity) == capacity + 1
  {
    if capacity > 0 {
      NewLengthInTrueSums(capacity, 1, capacity / 2);
    }
  }

  lemma GrowthInNumbers()
    ensures Grown(0) == 10 && Grown(10) == 15 && Grown(15) == 22
    ensures Grown(2_000_000_000) == 2_147_483_639 && Grown(2_147_483_639) == 2_147_483_640
  {
    GrownIsLarger(10);
    GrownIsLarger(15);
    GrownIsLarger(2_000_000_000);
    GrownIsLarger(2_147_483_639);
  }

  function Capacity(n: nat): (c: nat)
    requires n <= MAX_VALUE
    ensures n <= c <= MAX_VALUE
  {
    if n == 0 then 0
    else
      var c := Capacity(n - 1);
      if n - 1 == c then GrownIsLarger(c); Grown(c) else c
  }

  /** The elements copied from one array to the next by then. */
  function Copied(n: nat): nat
    requires n <= MAX_VALUE
  {
    if n == 0 then 0
    else Copied(n - 1) + if n - 1 == Capacity(n - 1) then Capacity(n - 1) else 0
  }

  /** What a full list of that size asks `newLength` for, and what it gets. */
  lemma GrowthOfFull(size: Int32)
    requires size > 0
    ensures NewLength(size, Wrap(Wrap(size + 1) - size), size / 2) ==
      if size == MAX_VALUE then Err(OutOfMemory) else Ok(Grown(size))
  {
    NewLengthInTrueSums(size, 1, size / 2);
    if size < MAX_VALUE {
      GrownIsLarger(size);
    }
  }

  lemma FullStep(size: nat)
    requires size < MAX_VALUE && Capacity(size) == size
    ensures Capacity(size + 1) == Grown(size) > size && Copied(size + 1) == Copied(size) + size
  {
    GrownIsLarger(size);
  }

  /** The potential: below the soft limit, the capacity has paid for the copies so far and the next. */
  lemma {:induction false} CopiesArePaid(n: nat)
    requires n <= SOFT_MAX_ARRAY_LENGTH
    ensures Capacity(n) <= SOFT_MAX_ARRAY_LENGTH
    ensures n >= 1 ==> Capacity(n) >= DEFAULT_CAPACITY
    ensures 4 * Copied(n) <= 13 * n
    ensures n >= 1 && Capacity(n) < SOFT_MAX_ARRAY_LENGTH ==> 4 * Copied(n) + 90 <= 9 * Capacity(n)
  {
    if n > 0 {
      CopiesArePaid(n - 1);
      var c := Capacity(n - 1);
      if n - 1 == c {
        GrownIsLarger(c);
      }
    }
  }

  /** Any run of n additions copies fewer than 4n elements (in fact at most 3.25 n). */
  lemma AmortisedCost(n: nat)
    requires 1 <= n <= SOFT_MAX_ARRAY_LENGTH
    ensures Copied(n) < 4 * n
  {
    CopiesArePaid(n);
  }

  // ----- the list

  datatype ParentInfo = ParentInfo(parentInstance: nat, propertyIndex: int)

  /** An array slot: null until it is assigned. */
  type Slot = Option<ParentInfo>

  method NullArray(length: nat) returns (b: array<Slot>)
    ensures fresh(b) && b.Length == length && forall i :: 0 <= i < length ==> b[i] == None
  {
    b := new Slot[length](_ => None);
  }

  /** Arrays.copyOf to a larger length. */
  method CopyOf(a: array<Slot>, newLength: nat) returns (b: array<Slot>, ghost moved: nat)
    requires a.Length <= newLength
    ensures moved == a.Length
    ensures fresh(b) && b.Length == newLength
    ensures b[..a.Length] == a[..]
    ensures forall i :: a.Length <= i < newLength ==> b[i] == None
  {
    b := NullArray(newLength);
    moved := 0;
    for i := 0 to a.Length
      invariant moved == i && b[..i] == a[..i]
      invariant forall j :: i <= j < newLength ==> b[j] == None
    {
      b[i] := a[i];
      moved := moved + 1;
    }
  }

  class ParentInfoList {
    /** The empty array that all fresh lists share. */
    const defaultCapacityEmptyElementData: array<Slot>
    var elementData: array<Slot>
    var size: int
    /** The number of elements copied by `grow` so far. */
    ghost var copied: nat

    ghost predicate Valid()
      reads this, elementData
    {
      && 0 <= size <= elementData.Length <= MAX_VALUE
      && defaultCapacityEmptyElementData.Length == 0
      && (elementData.Length == 0 ==> elementData == defaultCapacityEmptyElementData)
      && (forall i :: 0 <= i < size ==> elementData[i].Some?)
      && elementData.Length == Capacity(size)
      && copied == Copied(size)
    }

    ghost function Contents(): (s: seq<ParentInfo>)
      requires Valid()
      reads this, elementData
      ensures |s| == size
    {
      seq(size, i requires 0 <= i < size && Valid() reads this, elementData => elementData[i].value)
    }

    constructor (empty: array<Slot>)
      requires empty.Length == 0
      ensures Valid() && Contents() == [] && copied == 0
      ensures elementData == empty == defaultCapacityEmptyElementData
    {
      defaultCapacityEmptyElementData := empty;
      elementData := empty;
      size := 0;
      copied := 0;
    }

    /**
     Called with a full list. It either installs a larger array with the same elements, or
     throws before anything has changed.
     */
    method Grow(minCapacity: Int32) returns (r: Result<array<Slot>, Error>)
      requires Valid() && size == elementData.Length && minCapacity == Wrap(size + 1)
      modifies `elementData, `copied
      ensures size == MAX_VALUE <==> r.Err?
      ensures r.Err? ==> elementData == old(elementData) && copied == old(copied)
      ensures r.Ok? ==>
        && r.value == elementData && fresh(elementData)
        && elementData.Length == Capacity(size + 1) && copied == Copied(size + 1)
        && elementData[..size] == old(elementData[..])
    {
      var oldCapacity := elementData.Length;
      if oldCapacity > 0 || elementData != defaultCapacityEmptyElementData {
        var newCapacity := NewLength(oldCapacity, Wrap(minCapacity - oldCapacity), oldCapacity / 2);
        GrowthOfFull(oldCapacity);
        if newCapacity.Err? {
          return Err(newCapacity.error);
        }
        FullStep(oldCapacity);
        ghost var moved;
        elementData, moved := CopyOf(elementData, newCapacity.value);
        copied := copied + moved;
      } else {
        FullStep(0);
        elementData := NullArray(Max(DEFAULT_CAPACITY, minCapacity));
      }
      r := Ok(elementData);
    }

    /**
     Appends, unless the list already has as many elements as an int can count. A full
     array, the shared empty one in particular, is replaced and never written to.
     */
    method Add(e: ParentInfo) returns (r: Result<(), Error>)
      requires Valid()
      modifies this, if size < elementData.Length then {elementData} else {}
      ensures Valid()
      ensures elementData == old(elementData) || fresh(elementData)
      ensures old(size == elementData.Length) && r.Ok? ==> fresh(elementData)
      ensures old(size) == MAX_VALUE <==> r.Err?
      ensures Contents() == if r.Ok? then old(Contents()) + [e] else old(Contents())
      ensures r.Ok? ==> size == old(size) + 1 && elementData[old(size)] == Some(e)
    {
      ghost var before := Contents();
      ghost var s := size;
      if size == elementData.Length {
        var grown := Grow(Wrap(size + 1));
        if grown.Err? {
          return Err(grown.error);
        }
        assert forall i :: 0 <= i < s ==> elementData[i] == elementData[..s][i];
      }
      Store(e, before);
      r := Ok(());
    }

    /** The assignment behind the last element, and the new size. */
    method Store(e: ParentInfo, ghost before: seq<ParentInfo>)
      requires 0 <= size < elementData.Length <= MAX_VALUE
      requires elementData.Length == Capacity(size + 1) && copied == Copied(size + 1)
      requires defaultCapacityEmptyElementData.Length == 0 && |before| == size
      requires forall i :: 0 <= i < size ==> elementData[i] == Some(before[i])
      modifies `size, elementData
      ensures Valid() && Contents() == before + [e]
      ensures size == old(size) + 1 && elementData[old(size)] == Some(e)
    {
      elementData[size] := Some(e);
      size := size + 1;
    }
  }

  /** A run: additions to a fresh list keep every element in order, at amortised constant cost. */
  method AddAll(es: seq<ParentInfo>, empty: array<Slot>) returns (list: ParentInfoList)
    requires empty.Length == 0 && |es| <= SOFT_MAX_ARRAY_LENGTH
    ensures fresh(list) && list.Valid() && list.Contents() == es
    ensures 4 * list.copied <= 13 * |es|
  {
    list := new ParentInfoList(empty);
    for k := 0 to |es|
      invariant fresh(list) && list.Valid() && list.Contents() == es[..k]
      invariant list.elementData == empty || fresh(list.elementData)
      invariant k > 0 ==> fresh(list.elementData)
    {
      var r := list.Add(es[k]);
      assert es[..k + 1] == es[..k] + [es[k]];
    }
    CopiesArePaid(|es|);
  }
}
